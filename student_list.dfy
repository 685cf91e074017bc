/** The student records the home page caches, and the three ways a
    mutation's response patches that cache. */
module StudentList {
  import opened Wrappers
  import opened Seqs

  /** A student record as the server returns it. `schoolClass` is the
      record's `class` field. */
  datatype Student = Student(id: string, name: string, age: int, schoolClass: string)

  /** The body the add form posts: trimmed name and class, and the age as
      `parseInt` read it (`None` is NaN). */
  datatype NewStudent = NewStudent(name: string, age: Option<int>, schoolClass: string)

  /** The list holds a record with this `_id`. */
  predicate HasId(list: seq<Student>, id: string)
  {
    exists i :: 0 <= i < |list| && list[i].id == id
  }

  /** After a successful create: the record the server returned goes at the end. */
  function Append(list: seq<Student>, created: Student): (r: seq<Student>)
    ensures |r| == |list| + 1
    ensures r[..|list|] == list && r[|list|] == created
  {
    list + [created]
  }

  /** After an update: every record whose `_id` equals the updated record's
      is replaced by it. */
  function ReplaceById(list: seq<Student>, updated: Student): (r: seq<Student>)
    ensures |r| == |list|
    ensures forall i :: 0 <= i < |list| ==>
              r[i] == if list[i].id == updated.id then updated else list[i]
  {
    if list == [] then []
    else
      [if list[0].id == updated.id then updated else list[0]] + ReplaceById(list[1..], updated)
  }

  /** The filter predicate that keeps every record except those with `id`. */
  function OtherThan(id: string): (p: Student -> bool)
    ensures forall s: Student :: p(s) <==> s.id != id
  {
    (s: Student) => s.id != id
  }

  /** After a successful delete: the records with other `_id`s, in order. */
  function RemoveById(list: seq<Student>, id: string): (r: seq<Student>)
    ensures |r| <= |list|
    ensures !HasId(r, id)
    ensures forall s :: s in r <==> s in list && s.id != id
    ensures forall s: Student :: s.id != id ==> multiset(r)[s] == multiset(list)[s]
  {
    var r := Filter(list, OtherThan(id));
    assert forall i :: 0 <= i < |r| ==> r[i] in r;
    r
  }

  /** Replacing with the same record twice is replacing it once. */
  lemma ReplaceIdempotent(list: seq<Student>, updated: Student)
    ensures ReplaceById(ReplaceById(list, updated), updated) == ReplaceById(list, updated)
  {
  }

  /** An update for an `_id` the list does not hold leaves the list as it was. */
  lemma ReplaceAbsent(list: seq<Student>, updated: Student)
    requires !HasId(list, updated.id)
    ensures ReplaceById(list, updated) == list
  {
    assert forall i :: 0 <= i < |list| ==> list[i].id != updated.id;
  }

  /** The updated record is in the list afterwards exactly when its `_id` was. */
  lemma ReplacePresent(list: seq<Student>, updated: Student)
    ensures updated in ReplaceById(list, updated) <==> HasId(list, updated.id)
  {
    var r := ReplaceById(list, updated);
    if HasId(list, updated.id) {
      var i :| 0 <= i < |list| && list[i].id == updated.id;
      assert r[i] == updated;
    } else {
      ReplaceAbsent(list, updated);
    }
  }

  /** Deleting an `_id` the list does not hold leaves the list as it was. */
  lemma RemoveAbsent(list: seq<Student>, id: string)
    requires !HasId(list, id)
    ensures RemoveById(list, id) == list
  {
    forall s | s in list ensures OtherThan(id)(s) {
      var i :| 0 <= i < |list| && list[i] == s;
    }
    FilterAll(list, OtherThan(id));
  }

  /** Deleting keeps the survivors in their order: removal splits over
      concatenation. */
  lemma RemoveAppend(a: seq<Student>, b: seq<Student>, id: string)
    ensures RemoveById(a + b, id) == RemoveById(a, id) + RemoveById(b, id)
  {
    FilterAppend(a, b, OtherThan(id));
  }

  /** Deleting a record that was just added, under a fresh `_id`, restores
      the list from before the add. */
  lemma RemoveUndoesAppend(list: seq<Student>, created: Student)
    requires !HasId(list, created.id)
    ensures RemoveById(Append(list, created), created.id) == list
  {
    RemoveAppend(list, [created], created.id);
    RemoveAbsent(list, created.id);
    assert Filter([created], OtherThan(created.id)) == [];
  }
}
