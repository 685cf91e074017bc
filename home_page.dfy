/** The home page component: the cached student list, the search term and
    sort direction, and the load state, each changed only by the handlers
    below. HTTP replies are parameters. */
module HomePage {
  import opened Wrappers
  import opened JsString
  import opened StudentList
  import opened StudentView

  /** The message the page shows when the initial list cannot be loaded. */
  const FetchErrorMessage: string := "Không thể kết nối đến server"

  /** What the page renders. */
  datatype Screen =
    | LoadingScreen
    | ErrorScreen(message: string)
    | ListScreen(shown: seq<Student>, total: nat)

  class HomePage {
    var students: seq<Student>
    var searchTerm: string
    var sortOrder: SortOrder
    var loading: bool
    var error: Option<string>

    /** The initial state: empty list, empty search, ascending, loading. */
    constructor ()
      ensures students == [] && searchTerm == "" && sortOrder == Asc
      ensures loading && error == None
    {
      students := [];
      searchTerm := "";
      sortOrder := Asc;
      loading := true;
      error := None;
    }

    /** `fetchStudents`, given the reply to `GET /api/students`. A success
        replaces the list but leaves an earlier error in place; a failure sets
        the error and keeps the list. Either way loading ends. */
    method FetchStudents(reply: Reply<seq<Student>>)
      modifies this`students, this`loading, this`error
      ensures !loading
      ensures reply.Ok? ==> students == reply.body && error == old(error)
      ensures reply.Err? ==> students == old(students) && error == Some(FetchErrorMessage)
    {
      match reply
      case Ok(list) =>
        students := list;
        loading := false;
      case Err(_) =>
        error := Some(FetchErrorMessage);
        loading := false;
    }

    /** `handleAddStudent`, given the payload and the reply to the POST. A
        created record is appended; a failure leaves the list alone and is
        re-thrown to the caller, here returned as `thrown`. */
    method HandleAddStudent(newStudent: NewStudent, reply: Reply<Student>) returns (thrown: Option<string>)
      modifies this`students
      ensures thrown.Some? <==> reply.Err?
      ensures reply.Err? ==> thrown == Some(reply.message) && students == old(students)
      ensures reply.Ok? ==> students == Append(old(students), reply.body)
    {
      match reply
      case Ok(created) =>
        students := Append(students, created);
        thrown := None;
      case Err(message) =>
        thrown := Some(message);
    }

    /** `handleUpdateStudent`: the edit dialog hands over the server's
        updated record, which replaces every record with its `_id`. */
    method HandleUpdateStudent(updated: Student)
      modifies this`students
      ensures students == ReplaceById(old(students), updated)
    {
      students := ReplaceById(students, updated);
    }

    /** `handleDelete`, given the user's answer to the confirmation and the
        reply to the DELETE. Only a confirmed, successful delete changes the
        list. */
    method HandleDelete(id: string, confirmed: bool, reply: Reply<string>)
      modifies this`students
      ensures confirmed && reply.Ok? ==> students == RemoveById(old(students), id)
      ensures !(confirmed && reply.Ok?) ==> students == old(students)
    {
      if !confirmed {
        return;
      }
      if reply.Ok? {
        students := RemoveById(students, id);
      }
    }

    /** The search box's `onChange`. */
    method SetSearchTerm(term: string)
      modifies this`searchTerm
      ensures searchTerm == term
    {
      searchTerm := term;
    }

    /** `toggleSortOrder`. */
    method ToggleSortOrder()
      modifies this`sortOrder
      ensures sortOrder == Toggle(old(sortOrder)) && sortOrder != old(sortOrder)
    {
      sortOrder := Toggle(sortOrder);
    }

    /** What the page shows: the spinner while loading, even when an error
        is set; then the error; otherwise the processed list with the count
        of shown and stored records, the first never above the second. The
        list holds each matching record as often as the cache does. */
    function Render(): (v: Screen)
      reads this
      ensures loading ==> v == LoadingScreen
      ensures !loading && error.Some? ==> v == ErrorScreen(error.value)
      ensures !loading && error.None? ==> v.ListScreen? && v.total == |students| && |v.shown| <= v.total
      ensures v.ListScreen? ==> forall s :: s in v.shown <==> s in students && Includes(Lower(s.name), Lower(searchTerm))
      ensures v.ListScreen? ==> Sorted(v.shown, sortOrder)
      ensures v.ListScreen? ==> multiset(v.shown) == multiset(Search(students, searchTerm))
    {
      if loading then LoadingScreen
      else if error.Some? then ErrorScreen(error.value)
      else ListScreen(Processed(students, searchTerm, sortOrder), |students|)
    }
  }
}
