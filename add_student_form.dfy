/** The add-student form: three text fields, a submission flag, and the
    submit handler that validates, trims and hands the record to the page. */
module AddStudentForm {
  import opened Wrappers
  import opened JsString
  import opened JsNumber
  import opened StudentList
  import opened HomePage

  /** The `name` attribute of each input. */
  datatype Field = NameField | AgeField | ClassField

  /** The form's state: the raw text of each input. */
  datatype FormData = FormData(name: string, age: string, schoolClass: string)

  /** The initial form, and the one a successful add resets to. */
  const EmptyForm := FormData("", "", "")

  /** The text of one input. */
  function Get(form: FormData, field: Field): string
  {
    match field
    case NameField => form.name
    case AgeField => form.age
    case ClassField => form.schoolClass
  }

  /** `handleChange`'s update: the named input takes the new text and the
      other two keep theirs. */
  function SetField(form: FormData, field: Field, value: string): (r: FormData)
    ensures Get(r, field) == value
    ensures forall other :: other != field ==> Get(r, other) == Get(form, other)
  {
    match field
    case NameField => form.(name := value)
    case AgeField => form.(age := value)
    case ClassField => form.(schoolClass := value)
  }

  /** `handleSubmit`'s check and the payload it builds. The form is refused
      when the name is blank, the age text is empty or the class is blank;
      otherwise the payload carries the trimmed texts and `parseInt` of the
      age. The age is not range-checked here. */
  function Validate(form: FormData): (r: Option<NewStudent>)
    ensures r.None? <==>
              (forall i :: 0 <= i < |form.name| ==> IsWhitespace(form.name[i]))
              || form.age == ""
              || (forall i :: 0 <= i < |form.schoolClass| ==> IsWhitespace(form.schoolClass[i]))
    ensures r.Some? ==> r.value.name == Trim(form.name) && r.value.schoolClass == Trim(form.schoolClass)
    ensures r.Some? ==> r.value.age == ParseInt(form.age)
    ensures r.Some? ==> r.value.name != [] && r.value.schoolClass != []
  {
    var name := Trim(form.name);
    var schoolClass := Trim(form.schoolClass);
    if name == [] || form.age == [] || schoolClass == [] then None
    else Some(NewStudent(name, ParseInt(form.age), schoolClass))
  }

  /** The posted name and class are already trimmed: trimming them again
      changes nothing. */
  lemma PayloadIsTrimmed(form: FormData)
    requires Validate(form).Some?
    ensures Trim(Validate(form).value.name) == Validate(form).value.name
    ensures Trim(Validate(form).value.schoolClass) == Validate(form).value.schoolClass
  {
    TrimIdempotent(form.name);
    TrimIdempotent(form.schoolClass);
  }

  /** `handleSubmit` checks the age text for presence only: every integer,
      however small or large, passes with a non-blank name and class. In a
      browser the number input's own `min` and `max` stop an out-of-range age
      before the submit handler runs; this states what the handler itself
      would accept. */
  lemma AgeNotRangeChecked(name: string, age: int, schoolClass: string)
    requires exists i :: 0 <= i < |name| && !IsWhitespace(name[i])
    requires exists i :: 0 <= i < |schoolClass| && !IsWhitespace(schoolClass[i])
    ensures Validate(FormData(name, Numeral(age), schoolClass)).Some?
    ensures Validate(FormData(name, Numeral(age), schoolClass)).value.age == Some(age)
  {
    ParseNumeral(age);
  }

  /** Presence is all `handleSubmit` asks of the age text: a blank one passes
      and is posted as NaN. In a browser a number input never reports a
      blank, non-empty value, so this states what the handler itself would
      accept. */
  lemma BlankAgeIsNaN(name: string, age: string, schoolClass: string)
    requires exists i :: 0 <= i < |name| && !IsWhitespace(name[i])
    requires exists i :: 0 <= i < |schoolClass| && !IsWhitespace(schoolClass[i])
    requires age != [] && forall i :: 0 <= i < |age| ==> IsWhitespace(age[i])
    ensures Validate(FormData(name, age, schoolClass)) == Some(NewStudent(Trim(name), None, Trim(schoolClass)))
  {
    ParseBlank(age);
  }

  /** A number input accepts exponent notation, but `parseInt` stops at the
      `e`: an age typed as `1e1` (ten) is posted as 1. */
  lemma ExponentAgeTruncated(name: string, schoolClass: string)
    requires exists i :: 0 <= i < |name| && !IsWhitespace(name[i])
    requires exists i :: 0 <= i < |schoolClass| && !IsWhitespace(schoolClass[i])
    ensures Validate(FormData(name, "1e1", schoolClass)) == Some(NewStudent(Trim(name), Some(1), Trim(schoolClass)))
  {
    assert ParseInt("1e1") == Some(1) by {
      ParseIntReads("", 1, "e1");
      assert "" + Numeral(1) + "e1" == "1e1";
    }
  }

  class AddStudentForm {
    var formData: FormData
    var isSubmitting: bool

    constructor ()
      ensures formData == EmptyForm && !isSubmitting
    {
      formData := EmptyForm;
      isSubmitting := false;
    }

    /** `handleChange` for the input named `field`. */
    method HandleChange(field: Field, value: string)
      modifies this`formData
      ensures formData == SetField(old(formData), field, value)
    {
      formData := SetField(formData, field, value);
    }

    /** `handleSubmit` up to its `await`: the checked payload, or `None` for
        a refused form, which changes nothing. A checked form raises the
        flag, which stays up while the add is in flight. */
    method BeginSubmit() returns (sent: Option<NewStudent>)
      modifies this`isSubmitting
      ensures sent == Validate(formData)
      ensures sent.Some? ==> isSubmitting
      ensures sent.None? ==> isSubmitting == old(isSubmitting)
    {
      sent := Validate(formData);
      if sent.Some? {
        isSubmitting := true;
      }
    }

    /** `handleSubmit` after its `await`, given what the add threw: the form
        resets only when nothing was thrown, and the flag comes down either
        way. */
    method EndSubmit(thrown: Option<string>)
      modifies this`formData, this`isSubmitting
      ensures !isSubmitting
      ensures thrown.None? ==> formData == EmptyForm
      ensures thrown.Some? ==> formData == old(formData)
    {
      if thrown.None? {
        formData := EmptyForm;
      }
      isSubmitting := false;
    }

    /** `handleSubmit`, with the page's `handleAddStudent` as `onAddStudent`
        and `reply` as the server's answer to the POST it makes. A refused
        form changes nothing and calls nothing. Otherwise the add runs
        between `BeginSubmit` and `EndSubmit`: the form is reset only if it
        succeeded, and the flag is lowered whatever happened. */
    method HandleSubmit(page: HomePage, reply: Reply<Student>) returns (sent: Option<NewStudent>)
      modifies this, page`students
      ensures sent == Validate(old(formData))
      ensures sent.None? ==> formData == old(formData) && isSubmitting == old(isSubmitting)
      ensures sent.None? ==> page.students == old(page.students)
      ensures sent.Some? ==> !isSubmitting
      ensures sent.Some? ==> page.students == if reply.Ok? then Append(old(page.students), reply.body) else old(page.students)
      ensures sent.Some? ==> formData == if reply.Ok? then EmptyForm else old(formData)
    {
      sent := BeginSubmit();
      if sent.None? {
        return;
      }
      var thrown := page.HandleAddStudent(sent.value, reply);
      EndSubmit(thrown);
    }
  }
}
