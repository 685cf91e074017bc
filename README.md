# Student management frontend: list cache, view and add form

This project models the client side of a small student-record web
application. Two React components hold all of its logic:

- The **home page** caches the list of student records (`_id`, `name`, `age`,
  `class`) that the server returned. It patches that cache after each
  mutation: a created record is appended, an updated record replaces every
  record with its `_id`, and a deleted `_id` is filtered out. The list it
  displays is recomputed on every render. It keeps the records whose
  lower-cased name includes the lower-cased search term, then sorts them by
  lower-cased name, ascending or descending. A button toggles the direction.
  A load flag and an error message decide whether the page shows a spinner,
  an error, or the list. The spinner is checked first.
- The **add form** keeps the raw text of its three inputs and an
  `isSubmitting` flag. It refuses to submit when the name is blank, the age
  text is empty or the class is blank. Otherwise it posts the trimmed name and
  class and `parseInt` of the age. It resets its inputs only after a
  successful add.

The model is split into these modules:

- `JsString` (`js_string.dfy`): the JavaScript string operations used, with
  their characterising contracts. These are `trim` with the ECMAScript
  whitespace set, `toLowerCase`, `includes` and the relational `<`.
- `JsNumber` (`js_number.dfy`): `parseInt` without a radix, with `None` for
  NaN.
- `Seqs` (`seqs.dfy`): `Array.prototype.filter`.
- `StudentList` (`student_list.dfy`): the record types and the three cache
  patches.
- `StudentView` (`student_view.dfy`): the search, the comparator, a stable
  sort, and the processed view.
- `HomePage` (`home_page.dfy`): the page as a class whose fields are its
  React state.
- `AddStudentForm` (`add_student_form.dfy`): the form's pure parts, and the
  form as a class.

React's asynchronous state updates are sequentialised. Each handler runs to
completion and updates the fields in place. The outcome of every HTTP request
is a `Reply` parameter (`Ok(body)` or `Err(message)`), and so is the user's
answer to the delete confirmation. The form's `onAddStudent` callback is the
page's `HandleAddStudent`, which is the only way the application wires it.

The record's `class` field is called `schoolClass`, because `class` is a
Dafny keyword.

Two behaviours of the code are worth stating on their own:

- A successful fetch does not clear an error set by an earlier failed fetch
  (`HomePage.jsx:29-40`). It only clears the load flag, and a re-fetch never
  raises the load flag again.
- The server's list route (`backend/index.js:28-35`) applies no ordering.
  The server is not part of this model, so the cached order is whatever the
  reply carries.

## Model

| member | source | states |
|---|---|---|
| `JsString.IsWhitespace` | frontend/src/components/AddStudentForm.jsx:29 | the characters `trim` strips: space, tab, line feed and carriage return among them, and never a digit, an ASCII letter or a sign |
| `JsString.TrimStart` | frontend/src/components/AddStudentForm.jsx:29 | the result is the suffix of the input that starts at its first non-whitespace character, and everything dropped is whitespace |
| `JsString.TrimEnd` | frontend/src/components/AddStudentForm.jsx:29 | the result is the prefix of the input that ends at its last non-whitespace character, and everything dropped is whitespace |
| `JsString.TrimStartAfterWhitespace` | frontend/src/components/AddStudentForm.jsx:29 | leading whitespace is exactly what is dropped from the front: whitespace followed by text that starts with content trims to that text |
| `JsString.Trim` | frontend/src/components/AddStudentForm.jsx:29 | `trim` gives the empty string exactly when every character is whitespace; otherwise it neither starts nor ends with whitespace |
| `JsString.TrimIsInfix` | frontend/src/components/AddStudentForm.jsx:39-41 | `trim` removes exactly the leading and trailing whitespace: the result occurs in the original right where its leading whitespace ends, everything before that position is whitespace, and so is everything after the result |
| `JsString.TrimmedInfix` | frontend/src/components/AddStudentForm.jsx:39-41 | what is left after trimming the start and then the end of a string occurs in it where the leading whitespace ends and is followed only by whitespace |
| `JsString.InfixOfSuffix` | frontend/src/components/AddStudentForm.jsx:39-41 | a prefix of a suffix of a string occurs in it where that suffix starts, and whitespace after the prefix is whitespace at the end of the string |
| `JsString.TrimIdempotent` | frontend/src/components/AddStudentForm.jsx:39-41 | trimming twice equals trimming once |
| `JsString.LowerChar` | frontend/src/pages/HomePage.jsx:113 | an upper-case ASCII letter maps to its lower-case letter; every other character is unchanged |
| `JsString.Lower` | frontend/src/pages/HomePage.jsx:113 | lower-casing keeps the length, maps character by character, and leaves no upper-case ASCII letter |
| `JsString.LowerIdempotent` | frontend/src/pages/HomePage.jsx:116-117 | lower-casing a lower-cased string changes nothing |
| `JsString.Includes` | frontend/src/pages/HomePage.jsx:113 | `includes` holds exactly when the needle occurs at some position of the haystack |
| `JsString.IncludesEmpty` | frontend/src/pages/HomePage.jsx:113 | the empty search term is included in every name |
| `JsString.Less` | frontend/src/pages/HomePage.jsx:118-119 | string `<`: a proper prefix is less than the longer string, and a string is never less than one of its prefixes |
| `JsString.LessIsLexicographic` | frontend/src/pages/HomePage.jsx:118-119 | `a < b` holds exactly when `a` is a proper prefix of `b` or, at the first position where they differ, `a` has the smaller character |
| `JsString.LessIrreflexive` | frontend/src/pages/HomePage.jsx:118 | no name is `<` itself |
| `JsString.LessAsymmetric` | frontend/src/pages/HomePage.jsx:118-119 | `a < b` and `b < a` never both hold, so the comparator's two tests never both fire |
| `JsString.LessTransitive` | frontend/src/pages/HomePage.jsx:118-119 | string `<` is transitive |
| `JsString.LessTotal` | frontend/src/pages/HomePage.jsx:118-120 | any two names are equal or ordered one way or the other, so the comparator returns 0 only on equal names |
| `JsNumber.DigitValue` | frontend/src/components/AddStudentForm.jsx:40 | a character is a digit exactly when it is `0`-`9`, or `a`-`f`/`A`-`F` in base 16; decimal digits have their usual value, the hexadecimal letters 10 to 15, and every value is below the radix |
| `JsNumber.DigitPrefix` | frontend/src/components/AddStudentForm.jsx:40 | `parseInt` reads the longest prefix of digits: every character read is a digit, and the next one is not |
| `JsNumber.Value` | frontend/src/components/AddStudentForm.jsx:40 | the number denoted by the digits read is below the radix to the power of their count |
| `JsNumber.ParseMagnitude` | frontend/src/components/AddStudentForm.jsx:40 | after the sign, no number is read exactly when no digit of the chosen base comes first, after a `0x` or `0X` prefix in base 16 |
| `JsNumber.Unsigned` | frontend/src/components/AddStudentForm.jsx:40 | `parseInt` drops one leading `-` or `+` and nothing else |
| `JsNumber.ParseSignedMagnitude` | frontend/src/components/AddStudentForm.jsx:40 | after the whitespace, `parseInt` reads an optional sign and then a magnitude: NaN exactly when no digit follows the sign, and negative only after a `-` |
| `JsNumber.ParseInt` | frontend/src/components/AddStudentForm.jsx:40 | `parseInt` yields NaN exactly when no digit follows the leading whitespace and the sign (after a `0x` prefix, no hexadecimal digit); a negative result comes only after a `-` |
| `JsNumber.Digit` | frontend/src/components/AddStudentForm.jsx:40 | decimal printing, the reference `parseInt`'s round trip is stated against, models no source code: the character printed for a digit reads back as that digit |
| `JsNumber.Decimal` | frontend/src/components/AddStudentForm.jsx:40 | decimal printing, the reference `parseInt`'s round trip is stated against, models no source code: a numeral is non-empty and made of decimal digits only |
| `JsNumber.Numeral` | frontend/src/components/AddStudentForm.jsx:40 | decimal printing, the reference `parseInt`'s round trip is stated against, models no source code: a signed numeral never starts with whitespace |
| `JsNumber.ValueOfDecimal` | frontend/src/components/AddStudentForm.jsx:40 | the digits of a decimal numeral denote the number it was written from |
| `JsNumber.DigitPrefixOfDigits` | frontend/src/components/AddStudentForm.jsx:40 | digits followed by a non-digit are read exactly up to the non-digit |
| `JsNumber.ParseMagnitudeDecimal` | frontend/src/components/AddStudentForm.jsx:40 | without a `0x` prefix, the magnitude is the value of the leading decimal digits, whatever follows them (`"5x"` reads as 5) |
| `JsNumber.ParseMagnitudeHex` | frontend/src/components/AddStudentForm.jsx:40 | after `0x` or `0X`, the magnitude is the value of the hexadecimal digits that follow, whatever comes after them |
| `JsNumber.ParseSkipsWhitespace` | frontend/src/components/AddStudentForm.jsx:40 | leading whitespace does not change what `parseInt` reads |
| `JsNumber.ParseSigned` | frontend/src/components/AddStudentForm.jsx:40 | for text starting with `-`, `+` or a digit, the magnitude after the sign is the result, negated after a `-` |
| `JsNumber.ParsePlus` | frontend/src/components/AddStudentForm.jsx:40 | a leading `+` is skipped and keeps the number positive: `"+5"` reads as 5 |
| `JsNumber.ParseDigitThenX` | frontend/src/components/AddStudentForm.jsx:40 | an `x` after a digit other than `0` is no `0x` prefix, and it ends the number: `"5x"` reads as 5 |
| `JsNumber.DigitsThenNoX` | frontend/src/components/AddStudentForm.jsx:40 | decimal digits followed by text that does not start with `x` or `X` never form a `0x` prefix |
| `JsNumber.ParseIntReads` | frontend/src/components/AddStudentForm.jsx:40 | whitespace, an integer's decimal numeral, then text that is empty or starts with neither a decimal digit nor `x`/`X`: `parseInt` yields exactly that integer |
| `JsNumber.ParseNumeral` | frontend/src/components/AddStudentForm.jsx:40 | `parseInt` reads back every integer written as a decimal numeral, sign included |
| `JsNumber.ParseNegativeHex` | frontend/src/components/AddStudentForm.jsx:40 | a sign applies to a hexadecimal numeral: `-0x1A` reads as -26 |
| `JsNumber.ParseBlank` | frontend/src/components/AddStudentForm.jsx:40 | `parseInt` of an empty or blank text is NaN |
| `Seqs.Filter` | frontend/src/pages/HomePage.jsx:112-114 | `filter` keeps exactly the elements that pass, each as often as in the input, and never lengthens the list |
| `Seqs.FilterCons` | frontend/src/pages/HomePage.jsx:95 | filtering a list with a known first element keeps that element in front exactly when it passes |
| `Seqs.FilterSwap` | frontend/src/pages/HomePage.jsx:112-114 | swapping two neighbours, at most one of which passes, does not change what the filter returns |
| `Seqs.FilterAppend` | frontend/src/pages/HomePage.jsx:95 | filtering splits over concatenation, so survivors keep their relative order |
| `Seqs.FilterAll` | frontend/src/pages/HomePage.jsx:112-114 | when every element passes, the filter returns the list unchanged |
| `Seqs.FilterIdempotent` | frontend/src/pages/HomePage.jsx:112-114 | filtering twice by the same predicate equals filtering once |
| `StudentList.Append` | frontend/src/pages/HomePage.jsx:48 | a created record goes at the end; earlier records keep their places, and the length grows by one |
| `StudentList.ReplaceById` | frontend/src/pages/HomePage.jsx:77-79 | each position holds the updated record when its `_id` matches and the old record otherwise; the length and the order are kept |
| `StudentList.OtherThan` | frontend/src/pages/HomePage.jsx:95 | the delete's filter predicate keeps a record exactly when its `_id` differs from the deleted one |
| `StudentList.RemoveById` | frontend/src/pages/HomePage.jsx:95 | no record with the deleted `_id` survives, and every other record survives as often as before |
| `StudentList.ReplaceIdempotent` | frontend/src/pages/HomePage.jsx:77-79 | applying the same update twice gives the same list as applying it once |
| `StudentList.ReplaceAbsent` | frontend/src/pages/HomePage.jsx:77-79 | an update for an `_id` the list does not hold leaves the list unchanged |
| `StudentList.ReplacePresent` | frontend/src/pages/HomePage.jsx:77-79 | the updated record is in the list afterwards exactly when its `_id` was |
| `StudentList.RemoveAbsent` | frontend/src/pages/HomePage.jsx:95 | deleting an `_id` the list does not hold leaves the list unchanged |
| `StudentList.RemoveAppend` | frontend/src/pages/HomePage.jsx:95 | deletion splits over concatenation, so survivors keep their relative order |
| `StudentList.RemoveUndoesAppend` | frontend/src/pages/HomePage.jsx:48-95 | deleting a record just added under a fresh `_id` restores the list from before the add |
| `StudentView.Toggle` | frontend/src/pages/HomePage.jsx:124-126 | toggling always changes the direction |
| `StudentView.ToggleInvolutive` | frontend/src/pages/HomePage.jsx:124-126 | toggling twice restores the direction |
| `StudentView.Key` | frontend/src/pages/HomePage.jsx:116-117 | the sort and search key has the name's length, no upper-case ASCII letter, and differs from the name only by lower-casing its upper-case letters |
| `StudentView.MatchesTerm` | frontend/src/pages/HomePage.jsx:112-114 | a record matches exactly when the lower-cased term occurs at some position of its lower-cased name |
| `StudentView.Search` | frontend/src/pages/HomePage.jsx:111-114 | the search keeps exactly the records whose lower-cased name includes the lower-cased term, and never adds one |
| `StudentView.SearchEmptyTerm` | frontend/src/pages/HomePage.jsx:111-114 | an empty term keeps every record, in order |
| `StudentView.Compare` | frontend/src/pages/HomePage.jsx:115-121 | the comparator returns -1, 0 or 1; 0 exactly on equal lower-cased names; a negative value exactly when `a`'s lower-cased name is `<` `b`'s ascending, or `>` it descending |
| `StudentView.CompareAntisymmetric` | frontend/src/pages/HomePage.jsx:115-121 | swapping the comparator's arguments negates its result, and it is 0 exactly on equal lower-cased names |
| `StudentView.CompareDescIsReversedAsc` | frontend/src/pages/HomePage.jsx:118-119 | the descending comparator is the ascending one with its arguments swapped |
| `StudentView.CompareTransitive` | frontend/src/pages/HomePage.jsx:115-121 | "goes no later than" under the comparator is transitive |
| `StudentView.Insert` | frontend/src/pages/HomePage.jsx:115-121 | one insertion step adds exactly the inserted record |
| `StudentView.SortedCons` | frontend/src/pages/HomePage.jsx:115-121 | a record placed no later than every record of a sorted list can go in front of it |
| `StudentView.SortedHeadFirst` | frontend/src/pages/HomePage.jsx:115-121 | the front of a sorted list is placed no later than any record after it |
| `StudentView.InsertSorted` | frontend/src/pages/HomePage.jsx:115-121 | inserting into a sorted list keeps it sorted |
| `StudentView.InsertSortedAfterHead` | frontend/src/pages/HomePage.jsx:115-121 | inserting a record that strictly follows the front of a sorted list keeps it sorted |
| `StudentView.InsertSortedAtFront` | frontend/src/pages/HomePage.jsx:115-121 | a record that the front does not strictly precede goes first, and the list stays sorted |
| `StudentView.Sort` | frontend/src/pages/HomePage.jsx:115-121 | the sort returns a permutation of its input, ordered so that the comparator is never positive for an earlier record against a later one |
| `StudentView.InsertStable` | frontend/src/pages/HomePage.jsx:120 | an insertion step keeps the input order of records with equal lower-cased names |
| `StudentView.SortStable` | frontend/src/pages/HomePage.jsx:120 | for every lower-cased name, the sorted output lists the records with that name in their input order |
| `Seqs.FilterReverse` | frontend/src/pages/HomePage.jsx:112-114 | filtering a reversed list gives the reversed filter |
| `StudentView.SortedStableUnique` | frontend/src/pages/HomePage.jsx:115-121 | two sorted lists with the same records, and the same order among records of equal lower-cased name, are equal |
| `StudentView.SortCharacterised` | frontend/src/pages/HomePage.jsx:115-121 | any sorted, stable permutation of the input is exactly the modelled sort's result, so the engine's sorting algorithm does not matter |
| `StudentView.SortDescReversesAsc` | frontend/src/pages/HomePage.jsx:118-119 | the descending sort equals the ascending sort of the reversed input, reversed |
| `StudentView.SortDescDistinct` | frontend/src/pages/HomePage.jsx:118-119 | when no two names are equal ignoring case, the descending sort is the ascending sort reversed |
| `StudentView.Processed` | frontend/src/pages/HomePage.jsx:111-121 | the view holds exactly the stored records that match the search, each as often as the search kept it, sorted in the chosen direction, and never more records than are stored |
| `StudentView.ProcessedStable` | frontend/src/pages/HomePage.jsx:111-121 | records with equal lower-cased names appear in the view in their stored order |
| `StudentView.SortedAscending` | frontend/src/pages/HomePage.jsx:118 | an ascending view is non-decreasing in lower-cased name |
| `StudentView.SortedDescending` | frontend/src/pages/HomePage.jsx:118-119 | a descending view is non-increasing in lower-cased name |
| `StudentView.ToggleReversesView` | frontend/src/pages/HomePage.jsx:111-126 | when no two matching names are equal ignoring case, the descending view is the ascending view reversed |
| `HomePage.HomePage.constructor` | frontend/src/pages/HomePage.jsx:12-16 | the page starts with an empty list, an empty search, ascending order, loading, and no error |
| `HomePage.HomePage.FetchStudents` | frontend/src/pages/HomePage.jsx:29-40 | loading always ends; a success replaces the list and keeps any earlier error; a failure sets the error and keeps the list |
| `HomePage.HomePage.HandleAddStudent` | frontend/src/pages/HomePage.jsx:43-67 | a created record is appended; a failed add leaves the list unchanged and is re-thrown with its message |
| `HomePage.HomePage.HandleUpdateStudent` | frontend/src/pages/HomePage.jsx:76-79 | the list becomes the old list with the updated record replacing every record of its `_id` |
| `HomePage.HomePage.HandleDelete` | frontend/src/pages/HomePage.jsx:89-108 | only a confirmed, successful delete changes the list, by removing that `_id`; a declined or failed delete leaves it unchanged |
| `HomePage.HomePage.SetSearchTerm` | frontend/src/pages/HomePage.jsx:192 | the search box sets the search term and nothing else |
| `HomePage.HomePage.ToggleSortOrder` | frontend/src/pages/HomePage.jsx:124-126 | the direction flips and nothing else changes |
| `HomePage.HomePage.Render` | frontend/src/pages/HomePage.jsx:129-169 | loading is checked before the error; otherwise the list shows the matching records sorted in the chosen direction, each as often as the cache holds it, with a shown count never above the stored count |
| `AddStudentForm.SetField` | frontend/src/components/AddStudentForm.jsx:16-22 | the named input takes the new text, and the other two keep theirs |
| `AddStudentForm.Validate` | frontend/src/components/AddStudentForm.jsx:29-42 | the form is refused exactly when the name is blank, the age text is empty or the class is blank; otherwise the payload has the trimmed name and class and `parseInt` of the age |
| `AddStudentForm.PayloadIsTrimmed` | frontend/src/components/AddStudentForm.jsx:38-42 | the posted name and class are already trimmed |
| `AddStudentForm.AgeNotRangeChecked` | frontend/src/components/AddStudentForm.jsx:29 | the submit handler accepts every integer age and posts it unchanged; only the browser's own checks of the number input's `min` and `max` (lines 87-94, the form at line 63 has no `noValidate`) keep an out-of-range age from reaching it |
| `AddStudentForm.BlankAgeIsNaN` | frontend/src/components/AddStudentForm.jsx:29-40 | the submit handler lets a blank but non-empty age text through and posts NaN; a browser's number input never reports such a value |
| `AddStudentForm.ExponentAgeTruncated` | frontend/src/components/AddStudentForm.jsx:29-40 | an age typed as `1e1`, which the number input accepts as ten, is posted as 1 because `parseInt` stops at the `e` |
| `AddStudentForm.AddStudentForm.constructor` | frontend/src/components/AddStudentForm.jsx:6-13 | the form starts with three empty inputs and is not submitting |
| `AddStudentForm.AddStudentForm.HandleChange` | frontend/src/components/AddStudentForm.jsx:16-22 | a change event overwrites exactly the named input |
| `AddStudentForm.AddStudentForm.BeginSubmit` | frontend/src/components/AddStudentForm.jsx:25-34 | the payload sent is the checked form's; a refused form leaves the flag as it was, and a checked one raises the flag before the add starts |
| `AddStudentForm.AddStudentForm.EndSubmit` | frontend/src/components/AddStudentForm.jsx:44-54 | the flag is down afterwards whatever the add did; the form is reset only when the add threw nothing, and kept otherwise |
| `AddStudentForm.AddStudentForm.HandleSubmit` | frontend/src/components/AddStudentForm.jsx:25-55 | a refused form changes nothing and adds nothing; otherwise the add runs between `BeginSubmit` and `EndSubmit`, so the flag is down afterwards, the page's list gains the created record only on success, and the form resets only on success |

## Left out

- HTTP requests, `console` logging, `alert`, `window.confirm`, toast messages and the highlight timers (`HomePage.jsx:50-58`, `:80-85`, `:96-106`) are outside the model. Replies and the confirmation answer are parameters.
- The effect that re-fetches on navigation (`HomePage.jsx:25-27`) is an external trigger. `FetchStudents` is the handler it runs.
- Rendering, styling, and the disabling of inputs while submitting are outside the model, except for the screen the page chooses.
- `EditStudent.jsx`, `EditStudentModal.jsx`, `App.jsx`, `Toast.jsx` and `backend/index.js` are not part of this model. The edit dialog enters only as the record it hands to `HandleUpdateStudent`.
- JsString.Lower: lower-cases ASCII letters only; Unicode case mapping beyond ASCII is not modelled.
- JsString.LowerChar: maps only the ASCII letters `A`-`Z`, for the same reason.
- JsString.Less: compares characters as Unicode scalar values. JavaScript compares UTF-16 code units, which differs only for characters outside the Basic Multilingual Plane.
- JsNumber.ParseInt: yields exact integers. Rounding to the nearest double beyond 2^53, and the sign of negative zero, are not modelled.
- The engine's sorting algorithm is not modelled. `Array.prototype.sort` is stable from ECMAScript 2019 on, and `SortCharacterised` shows that every stable sort with the page's comparator returns the same list as the insertion sort modelled here.
- Records are assumed to carry a string `name`. In the code, a record without one makes the search filter (`HomePage.jsx:113`) throw during rendering.
- The interleaving of concurrent asynchronous handlers is not modelled. Each handler runs to completion before the next one starts.
