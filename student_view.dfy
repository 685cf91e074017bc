/** The list the home page displays: the cached records filtered by a
    case-insensitive name search, then sorted by lower-cased name. The view
    is computed from the cache each time and never stored. */
module StudentView {
  import opened JsString
  import opened Seqs
  import opened StudentList

  /** The sort direction the page toggles between. */
  datatype SortOrder = Asc | Desc

  /** The sort button: ascending becomes descending and vice versa. */
  function Toggle(order: SortOrder): (r: SortOrder)
    ensures r != order
  {
    if order == Asc then Desc else Asc
  }

  /** Toggling twice restores the original direction. */
  lemma ToggleInvolutive(order: SortOrder)
    ensures Toggle(Toggle(order)) == order
  {
  }

  /** The name a record is searched and sorted by: its lower-cased name. It
      has the name's length, no upper-case ASCII letter, and differs from the
      name only where the name has an upper-case letter. */
  function Key(s: Student): (k: string)
    ensures |k| == |s.name|
    ensures forall i :: 0 <= i < |k| ==> !('A' <= k[i] <= 'Z')
    ensures forall i :: 0 <= i < |k| ==> k[i] == s.name[i] || ('A' <= s.name[i] <= 'Z' && k[i] as int == s.name[i] as int + 32)
  {
    Lower(s.name)
  }

  /** The search predicate: the lower-cased term occurs somewhere in the
      lower-cased name. */
  function MatchesTerm(term: string): (p: Student -> bool)
    ensures forall s: Student :: p(s) <==> exists k :: OccursAt(Key(s), Lower(term), k)
  {
    (s: Student) => Includes(Key(s), Lower(term))
  }

  /** The `filter` step of the view. */
  function Search(list: seq<Student>, term: string): (r: seq<Student>)
    ensures |r| <= |list|
    ensures forall s :: s in r <==> s in list && Includes(Lower(s.name), Lower(term))
  {
    Filter(list, MatchesTerm(term))
  }

  /** An empty search term keeps every record, in order. */
  lemma SearchEmptyTerm(list: seq<Student>)
    ensures Search(list, "") == list
  {
    forall s | s in list ensures MatchesTerm("")(s) {
      IncludesEmpty(Key(s));
    }
    FilterAll(list, MatchesTerm(""));
  }

  /** The comparator handed to `sort`: -1 when `a` goes first (its
      lower-cased name is smaller in ascending order, larger in descending
      order), 1 when `b` goes first, and 0 exactly on equal lower-cased names. */
  function Compare(a: Student, b: Student, order: SortOrder): (c: int)
    ensures c == -1 || c == 0 || c == 1
    ensures c == 0 <==> Key(a) == Key(b)
    ensures c < 0 <==> if order == Asc then Less(Key(a), Key(b)) else Less(Key(b), Key(a))
  {
    var nameA := Key(a);
    var nameB := Key(b);
    LessTotal(nameA, nameB);
    LessIrreflexive(nameA);
    LessAsymmetric(nameA, nameB);
    if Less(nameA, nameB) then (if order == Asc then -1 else 1)
    else if Less(nameB, nameA) then (if order == Asc then 1 else -1)
    else 0
  }

  /** The comparator is consistent: swapping its arguments negates it, and it
      is zero exactly on equal lower-cased names. */
  lemma CompareAntisymmetric(a: Student, b: Student, order: SortOrder)
    ensures Compare(a, b, order) == -Compare(b, a, order)
    ensures Compare(a, b, order) == 0 <==> Key(a) == Key(b)
  {
    LessAsymmetric(Key(a), Key(b));
    LessIrreflexive(Key(a));
    if Key(a) != Key(b) {
      LessTotal(Key(a), Key(b));
    }
  }

  /** Descending is ascending with the arguments swapped. */
  lemma CompareDescIsReversedAsc(a: Student, b: Student)
    ensures Compare(a, b, Desc) == Compare(b, a, Asc)
  {
    LessAsymmetric(Key(a), Key(b));
  }

  /** "Goes no later than" is transitive. */
  lemma CompareTransitive(a: Student, b: Student, c: Student, order: SortOrder)
    requires Compare(a, b, order) <= 0 && Compare(b, c, order) <= 0
    ensures Compare(a, c, order) <= 0
  {
    CompareAntisymmetric(a, b, order);
    CompareAntisymmetric(b, c, order);
    CompareAntisymmetric(a, c, order);
    if Key(a) != Key(b) && Key(b) != Key(c) {
      if order == Asc {
        LessTransitive(Key(a), Key(b), Key(c));
      } else {
        LessTransitive(Key(c), Key(b), Key(a));
      }
      LessAsymmetric(Key(a), Key(c));
    }
  }

  /** Every record is placed no later than every record after it. */
  ghost predicate Sorted(s: seq<Student>, order: SortOrder)
  {
    forall i, j :: 0 <= i < j < |s| ==> Compare(s[i], s[j], order) <= 0
  }

  /** The filter predicate that keeps the records with lower-cased name `k`. */
  function HasKey(k: string): Student -> bool
  {
    (s: Student) => Key(s) == k
  }

  /** The sort keeps the input order of records with equal lower-cased names. */
  ghost predicate StableFor(r: seq<Student>, s: seq<Student>)
  {
    forall k :: Filter(r, HasKey(k)) == Filter(s, HasKey(k))
  }

  /** One step of a stable insertion sort: `x` goes in front of the first
      record that `x` does not strictly follow. */
  function Insert(x: Student, t: seq<Student>, order: SortOrder): (r: seq<Student>)
    ensures |r| == |t| + 1
    ensures multiset(r) == multiset(t) + multiset{x}
  {
    if t == [] then [x]
    else if Compare(t[0], x, order) < 0 then
      assert t == [t[0]] + t[1..];
      [t[0]] + Insert(x, t[1..], order)
    else [x] + t
  }

  /** A record placed no later than every record of a sorted list can go in
      front of it. */
  lemma SortedCons(y: Student, t: seq<Student>, order: SortOrder)
    requires Sorted(t, order)
    requires forall z :: z in t ==> Compare(y, z, order) <= 0
    ensures Sorted([y] + t, order)
  {
    forall i, j | 0 <= i < j < |t| + 1
      ensures Compare(([y] + t)[i], ([y] + t)[j], order) <= 0
    {
      if i == 0 {
        assert t[j - 1] in t;
      }
    }
  }

  /** The front of a sorted list is placed no later than anything in it. */
  lemma SortedHeadFirst(t: seq<Student>, order: SortOrder)
    requires Sorted(t, order) && t != []
    ensures forall z :: z in t[1..] ==> Compare(t[0], z, order) <= 0
  {
    forall z | z in t[1..] ensures Compare(t[0], z, order) <= 0 {
      var j :| 0 <= j < |t[1..]| && t[1..][j] == z;
      assert t[j + 1] == z;
    }
  }

  /** Inserting into a sorted list keeps it sorted. */
  lemma {:induction false} InsertSorted(x: Student, t: seq<Student>, order: SortOrder)
    requires Sorted(t, order)
    ensures Sorted(Insert(x, t, order), order)
    decreases |t|, 1
  {
    if t == [] {
    } else if Compare(t[0], x, order) < 0 {
      InsertSortedAfterHead(x, t, order);
    } else {
      InsertSortedAtFront(x, t, order);
    }
  }

  /** The case of `InsertSorted` where `x` strictly follows the front record. */
  lemma {:induction false} InsertSortedAfterHead(x: Student, t: seq<Student>, order: SortOrder)
    requires Sorted(t, order) && t != [] && Compare(t[0], x, order) < 0
    ensures Sorted(Insert(x, t, order), order)
    decreases |t|, 0
  {
    var rest := Insert(x, t[1..], order);
    assert Sorted(t[1..], order);
    InsertSorted(x, t[1..], order);
    SortedHeadFirst(t, order);
    forall y | y in rest ensures Compare(t[0], y, order) <= 0 {
      assert y in multiset(rest);
    }
    SortedCons(t[0], rest, order);
  }

  /** The case of `InsertSorted` where `x` goes in front. */
  lemma InsertSortedAtFront(x: Student, t: seq<Student>, order: SortOrder)
    requires Sorted(t, order) && t != [] && Compare(t[0], x, order) >= 0
    ensures Sorted(Insert(x, t, order), order)
  {
    CompareAntisymmetric(t[0], x, order);
    SortedHeadFirst(t, order);
    forall z | z in t ensures Compare(x, z, order) <= 0 {
      if z in t[1..] {
        CompareTransitive(x, t[0], z, order);
      } else {
        assert z == t[0];
      }
    }
    SortedCons(x, t, order);
  }

  /** `Array.prototype.sort` with the page's comparator, as a stable sort. */
  function Sort(s: seq<Student>, order: SortOrder): (r: seq<Student>)
    ensures |r| == |s|
    ensures multiset(r) == multiset(s)
    ensures Sorted(r, order)
  {
    if s == [] then []
    else
      assert s == [s[0]] + s[1..];
      var rest := Sort(s[1..], order);
      InsertSorted(s[0], rest, order);
      Insert(s[0], rest, order)
  }

  lemma {:induction false} InsertStable(x: Student, t: seq<Student>, order: SortOrder, k: string)
    ensures Filter(Insert(x, t, order), HasKey(k)) == Filter([x] + t, HasKey(k))
  {
    if t != [] && Compare(t[0], x, order) < 0 {
      var p := HasKey(k);
      var tail := t[1..];
      CompareAntisymmetric(t[0], x, order);
      calc {
        Filter(Insert(x, t, order), p);
        Filter([t[0]] + Insert(x, tail, order), p);
        { FilterCons(t[0], Insert(x, tail, order), p);
          InsertStable(x, tail, order, k);
          FilterCons(t[0], [x] + tail, p); }
        Filter([t[0]] + ([x] + tail), p);
        { FilterSwap(t[0], x, tail, p); }
        Filter([x] + ([t[0]] + tail), p);
        { assert t == [t[0]] + tail; }
        Filter([x] + t, p);
      }
    }
  }

  /** The sort is stable: restricted to any one lower-cased name, the output
      lists the records in their input order. */
  lemma {:induction false} SortStable(s: seq<Student>, order: SortOrder)
    ensures StableFor(Sort(s, order), s)
  {
    if s != [] {
      SortStable(s[1..], order);
      forall k ensures Filter(Sort(s, order), HasKey(k)) == Filter(s, HasKey(k)) {
        SortStableStep(s, order, k);
      }
    }
  }

  /** One step of `SortStable`: inserting the first record in front of the
      sorted rest keeps the order of the records named `k`. */
  lemma SortStableStep(s: seq<Student>, order: SortOrder, k: string)
    requires s != [] && Filter(Sort(s[1..], order), HasKey(k)) == Filter(s[1..], HasKey(k))
    ensures Filter(Sort(s, order), HasKey(k)) == Filter(s, HasKey(k))
  {
    var rest := Sort(s[1..], order);
    calc {
      Filter(Sort(s, order), HasKey(k));
      Filter(Insert(s[0], rest, order), HasKey(k));
      { InsertStable(s[0], rest, order, k); }
      Filter([s[0]] + rest, HasKey(k));
      { FilterCons(s[0], rest, HasKey(k)); FilterCons(s[0], s[1..], HasKey(k)); }
      Filter([s[0]] + s[1..], HasKey(k));
      { assert s == [s[0]] + s[1..]; }
      Filter(s, HasKey(k));
    }
  }

  /** Two sorted lists holding the same records start with records of the
      same lower-cased name. */
  lemma SortedHeadsSameKey(a: seq<Student>, b: seq<Student>, order: SortOrder)
    requires Sorted(a, order) && Sorted(b, order)
    requires a != [] && multiset(a) == multiset(b)
    ensures b != [] && Key(a[0]) == Key(b[0])
  {
    assert a[0] in multiset(b);
    var j :| 0 <= j < |b| && b[j] == a[0];
    assert b[0] in multiset(a);
    var i :| 0 <= i < |a| && a[i] == b[0];
    CompareAntisymmetric(a[0], a[0], order);
    CompareAntisymmetric(a[0], b[0], order);
  }

  /** Two lists in the same order per name whose fronts share a name have the
      same front, and what follows stays in the same order per name. */
  lemma StableHeadsEqual(a: seq<Student>, b: seq<Student>)
    requires a != [] && b != [] && Key(a[0]) == Key(b[0])
    requires StableFor(a, b)
    ensures a[0] == b[0] && StableFor(a[1..], b[1..])
  {
    var x, y := a[0], b[0];
    assert a == [x] + a[1..] && b == [y] + b[1..];
    FilterConsCancel(x, a[1..], y, b[1..], HasKey(Key(x)));
    forall k ensures Filter(a[1..], HasKey(k)) == Filter(b[1..], HasKey(k)) {
      FilterConsCancel(x, a[1..], y, b[1..], HasKey(k));
    }
  }

  /** Two sorted lists with the same records, and the same order among
      records of equal lower-cased name, start with the same record, and
      what follows it again has the same records in the same order per name. */
  lemma SortedStableHead(a: seq<Student>, b: seq<Student>, order: SortOrder)
    requires Sorted(a, order) && Sorted(b, order)
    requires a != [] && multiset(a) == multiset(b)
    requires StableFor(a, b)
    ensures b != [] && a[0] == b[0]
    ensures multiset(a[1..]) == multiset(b[1..])
    ensures StableFor(a[1..], b[1..])
  {
    SortedHeadsSameKey(a, b, order);
    StableHeadsEqual(a, b);
    MultisetTail(a, b);
  }

  /** Two sorted lists with the same records, and the same order among
      records of equal lower-cased name, are the same list. */
  lemma {:induction false} SortedStableUnique(a: seq<Student>, b: seq<Student>, order: SortOrder)
    requires Sorted(a, order) && Sorted(b, order)
    requires multiset(a) == multiset(b)
    requires StableFor(a, b)
    ensures a == b
  {
    if a == [] {
      assert |b| == |multiset(b)| == 0;
    } else {
      SortedStableHead(a, b, order);
      assert Sorted(a[1..], order) && Sorted(b[1..], order);
      SortedStableUnique(a[1..], b[1..], order);
      assert a == [a[0]] + a[1..] && b == [b[0]] + b[1..];
    }
  }

  /** Sortedness, permutation and stability characterise the sort: any stable
      sort with the page's comparator returns exactly `Sort`. */
  lemma SortCharacterised(r: seq<Student>, s: seq<Student>, order: SortOrder)
    requires Sorted(r, order) && multiset(r) == multiset(s) && StableFor(r, s)
    ensures r == Sort(s, order)
  {
    SortStable(s, order);
    SortedStableUnique(r, Sort(s, order), order);
  }

  /** Reversing a list sorted ascending gives a list sorted descending. */
  lemma ReverseSortedAsc(t: seq<Student>)
    requires Sorted(t, Asc)
    ensures Sorted(Reverse(t), Desc)
  {
    var r := Reverse(t);
    forall i, j | 0 <= i < j < |r| ensures Compare(r[i], r[j], Desc) <= 0 {
      CompareDescIsReversedAsc(r[i], r[j]);
    }
  }

  /** Sorting descending is sorting the reversed input ascending, then
      reversing: ties end up in their input order either way. */
  lemma SortDescReversesAsc(s: seq<Student>)
    ensures Sort(s, Desc) == Reverse(Sort(Reverse(s), Asc))
  {
    var t := Sort(Reverse(s), Asc);
    var r := Reverse(t);
    ReverseSortedAsc(t);
    ReverseMultiset(t);
    ReverseMultiset(s);
    SortStable(Reverse(s), Asc);
    forall k ensures Filter(r, HasKey(k)) == Filter(s, HasKey(k)) {
      FilterReverse(t, HasKey(k));
      FilterReverse(s, HasKey(k));
      ReverseReverse(Filter(s, HasKey(k)));
    }
    SortCharacterised(r, s, Desc);
  }

  /** No two records share a lower-cased name. */
  ghost predicate DistinctNames(s: seq<Student>)
  {
    forall i, j :: 0 <= i < j < |s| ==> Key(s[i]) != Key(s[j])
  }

  /** When no two records share a lower-cased name, reversing a list keeps
      its order per name, trivially: each name has at most one record. */
  lemma DistinctReverseStable(s: seq<Student>)
    requires DistinctNames(s)
    ensures StableFor(Reverse(s), s)
  {
    forall k ensures Filter(Reverse(s), HasKey(k)) == Filter(s, HasKey(k)) {
      FilterReverse(s, HasKey(k));
      FilterAtMostOne(s, HasKey(k));
    }
  }

  /** When no two records share a lower-cased name, the descending sort is
      the ascending sort reversed. */
  lemma SortDescDistinct(s: seq<Student>)
    requires DistinctNames(s)
    ensures Sort(s, Desc) == Reverse(Sort(s, Asc))
  {
    SortDescReversesAsc(s);
    var t := Sort(Reverse(s), Asc);
    ReverseMultiset(s);
    SortStable(Reverse(s), Asc);
    DistinctReverseStable(s);
    assert StableFor(t, s);
    SortCharacterised(t, s, Asc);
  }

  /** `processedStudents`: search, then sort. */
  function Processed(students: seq<Student>, term: string, order: SortOrder): (r: seq<Student>)
    ensures |r| <= |students|
    ensures forall s :: s in r <==> s in students && Includes(Lower(s.name), Lower(term))
    ensures multiset(r) == multiset(Search(students, term))
    ensures Sorted(r, order)
  {
    var found := Search(students, term);
    var r := Sort(found, order);
    assert forall s :: s in r <==> s in found by {
      forall s ensures s in r <==> s in found {
        assert s in r <==> s in multiset(r);
      }
    }
    r
  }

  /** Equal lower-cased names appear in the view in the order the cache holds them. */
  lemma ProcessedStable(students: seq<Student>, term: string, order: SortOrder)
    ensures StableFor(Processed(students, term, order), Search(students, term))
  {
    SortStable(Search(students, term), order);
  }

  /** Ascending order is non-decreasing in lower-cased name under `<`. */
  lemma SortedAscending(s: seq<Student>)
    requires Sorted(s, Asc)
    ensures forall i, j :: 0 <= i < j < |s| ==> !Less(Key(s[j]), Key(s[i]))
  {
    forall i, j | 0 <= i < j < |s| ensures !Less(Key(s[j]), Key(s[i])) {
      LessAsymmetric(Key(s[i]), Key(s[j]));
    }
  }

  /** Descending order is non-increasing in lower-cased name under `<`. */
  lemma SortedDescending(s: seq<Student>)
    requires Sorted(s, Desc)
    ensures forall i, j :: 0 <= i < j < |s| ==> !Less(Key(s[i]), Key(s[j]))
  {
    forall i, j | 0 <= i < j < |s| ensures !Less(Key(s[i]), Key(s[j])) {
      LessAsymmetric(Key(s[i]), Key(s[j]));
    }
  }

  /** With no two matching names equal ignoring case, toggling the sort
      direction shows the same records in reverse. */
  lemma ToggleReversesView(students: seq<Student>, term: string)
    requires DistinctNames(Search(students, term))
    ensures Processed(students, term, Desc) == Reverse(Processed(students, term, Asc))
  {
    SortDescDistinct(Search(students, term));
  }
}
