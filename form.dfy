/** The form component as an object: its five pieces of state are fields,
    and each handler updates them step by step as the component does. Each
    handler is proved to perform the matching transition of FormModel. */
module Form {
  import opened Text
  import opened Patterns
  import opened FormModel

  /** The progress effect: counts the filled fields one at a time, then
      rounds the percentage. */
  method ComputeProgress(d: FormData) returns (progress: nat)
    ensures progress == Percent(FilledCount(d))
    ensures progress <= 100
    ensures progress == 100 <==> AllFilled(d)
  {
    var completedFields := 0;
    var totalFields := 8;
    ghost var before := completedFields;
    if d.fullName != "" { completedFields := completedFields + 1; }
    assert completedFields == before + Indicator(IsFilled(d, FullName));
    before := completedFields;
    if d.email != "" { completedFields := completedFields + 1; }
    assert completedFields == before + Indicator(IsFilled(d, Email));
    before := completedFields;
    if d.phoneNumber != "" { completedFields := completedFields + 1; }
    assert completedFields == before + Indicator(IsFilled(d, PhoneNumber));
    before := completedFields;
    if d.cnic != "" { completedFields := completedFields + 1; }
    assert completedFields == before + Indicator(IsFilled(d, Cnic));
    before := completedFields;
    if d.educationLevel != "" { completedFields := completedFields + 1; }
    assert completedFields == before + Indicator(IsFilled(d, EducationLevel));
    before := completedFields;
    if |d.skills| > 0 { completedFields := completedFields + 1; }
    assert completedFields == before + Indicator(IsFilled(d, Skills));
    before := completedFields;
    if d.preferredRole != "" { completedFields := completedFields + 1; }
    assert completedFields == before + Indicator(IsFilled(d, PreferredRole));
    before := completedFields;
    if d.cv.Some? { completedFields := completedFields + 1; }
    assert completedFields == before + Indicator(IsFilled(d, Cv));
    assert completedFields == FilledCount(d);
    progress := (completedFields * 100 + totalFields / 2) / totalFields;
    FilledCountBounds(d);
    PercentIsRounded(completedFields);
  }

  /** The body of one case of `validateField`'s switch: the message the
      field shows for `value`, "" when it is acceptable. It mirrors the
      statements of each `case` one for one; what the messages mean is
      proved about `FieldMessage`, the function it is checked against. */
  method MessageFor(f: Field, value: Value) returns (message: string)
    ensures message == FieldMessage(f, value)
  {
    match f {
      case FullName =>
        message := if Truthy(value) then "" else "Full Name is required.";
      case Email =>
        if !Truthy(value) {
          message := "Email is required.";
        } else if !IsEmail(Stringify(value)) {
          message := "Email is invalid.";
        } else {
          message := "";
        }
      case PhoneNumber =>
        message := if Truthy(value) then "" else "Phone Number is required.";
      case Cnic =>
        if !Truthy(value) {
          message := "CNIC is required.";
        } else if !IsCnic(Stringify(value)) {
          message := "CNIC must be in the format XXXXX-XXXXXXX-X.";
        } else {
          message := "";
        }
      case EducationLevel =>
        message := if Truthy(value) then "" else "Education Level is required.";
      case PreferredRole =>
        message := if Truthy(value) then "" else "Preferred Role is required.";
      case Skills =>
        message := if HasItems(value) then "" else "At least one skill must be selected.";
      case Cv =>
        message := if Truthy(value) then "" else "CV is required.";
    }
  }

  /** One presence test of `validateForm`: an empty field gets its
      "required" message, a filled one leaves the map as it was. */
  method RequirePresent(m: Errors, d: FormData, f: Field) returns (r: Errors)
    ensures r == AddIfMissing(m, d, f)
    ensures f in r <==> f in m || !IsFilled(d, f)
    ensures forall g :: g != f ==> (g in r <==> g in m) && (g in r ==> r[g] == m[g])
  {
    r := m;
    if !IsFilled(d, f) {
      r := r[f := RequiredMessage(f)];
    }
  }

  class ApplicationForm {
    var formData: FormData
    var errors: Errors
    var progress: nat
    var showModal: bool
    var submitted: bool

    /** The component's state as one value. */
    ghost function State(): FormState
      reads this
    {
      FormState(formData, errors, progress, showModal, submitted)
    }

    /** The progress bar shows the progress of the current draft. */
    ghost predicate Valid()
      reads this
    {
      ProgressCurrent(State())
    }

    /** Mounting: the empty draft, no errors, 0%, dialog closed. */
    constructor ()
      ensures Valid() && State() == InitialState
    {
      formData := FormData("", "", "", "", "", [], "", None);
      errors := map[];
      progress := 0;
      showModal := false;
      submitted := false;
    }

    /** The progress effect, run after every change of the draft. */
    method UpdateProgress()
      modifies this`progress
      ensures Valid()
    {
      progress := ComputeProgress(formData);
    }

    /** `validateField`: copies the error map, rewrites the entry of the
      field the switch selects with that field's message, and stores the
      copy; the switch's default case writes nothing. */
    method ValidateField(name: string, value: Value)
      modifies this`errors
      ensures errors == ValidatedErrors(old(errors), name, value)
    {
      var newErrors := errors;
      match FieldNamed(name) {
        case Some(f) =>
          var message := MessageFor(f, value);
          newErrors := newErrors[f := message];
        case None =>
      }
      errors := newErrors;
    }

    /** `validateForm`: builds a fresh error map from the eight presence
      tests, in the order the fields are declared, stores it, and reports
      whether it has no key. */
    method ValidateForm() returns (ok: bool)
      modifies this`errors
      ensures errors == MissingErrors(formData)
      ensures ok == (|errors| == 0)
      ensures ok <==> AllFilled(formData)
    {
      var d := formData;
      var newErrors: Errors := map[];
      newErrors := RequirePresent(newErrors, d, FullName);
      newErrors := RequirePresent(newErrors, d, Email);
      newErrors := RequirePresent(newErrors, d, PhoneNumber);
      newErrors := RequirePresent(newErrors, d, Cnic);
      newErrors := RequirePresent(newErrors, d, EducationLevel);
      newErrors := RequirePresent(newErrors, d, Skills);
      newErrors := RequirePresent(newErrors, d, PreferredRole);
      newErrors := RequirePresent(newErrors, d, Cv);
      MissingErrorsInOrder(d);
      MissingErrorsEmptyIff(d);
      errors := newErrors;
      ok := |newErrors| == 0;
    }

    /** `handleChange`, followed by the progress effect. */
    method HandleChange(e: ChangeEvent)
      modifies this
      ensures Valid()
      ensures State() == AfterChange(old(State()), e)
    {
      match e {
        case Checkbox(value, checked) =>
          var newSkills := if checked then formData.skills + [value] else RemoveAll(formData.skills, value);
          formData := formData.(skills := newSkills);
          ValidateField("skills", Strs(newSkills));
        case Input(name, value) =>
          formData := SetText(formData, name, value);
          ValidateField(name, Str(value));
      }
      UpdateProgress();
    }

    /** The drop zone's `onDrop`, followed by the progress effect. */
    method OnDrop(accepted: seq<string>)
      modifies this
      ensures Valid()
      ensures State() == AfterDrop(old(State()), accepted)
    {
      var file := if |accepted| > 0 then Some(accepted[0]) else None;
      formData := formData.(cv := file);
      ValidateField("cv", FileRef(file));
      UpdateProgress();
    }

    /** `handleSubmit`. */
    method HandleSubmit()
      requires Valid()
      modifies this
      ensures Valid()
      ensures State() == AfterSubmit(old(State()))
    {
      var ok := ValidateForm();
      if ok {
        submitted := true;
        showModal := true;
      } else {
        submitted := false;
      }
    }

    /** `handleReset`, followed by the progress effect. */
    method HandleReset()
      modifies this
      ensures Valid()
      ensures State() == AfterReset(old(State()))
    {
      formData := FormData("", "", "", "", "", [], "", None);
      errors := map[];
      submitted := false;
      UpdateProgress();
    }

    /** The dialog's close button and its `onHide`. */
    method CloseModal()
      requires Valid()
      modifies this`showModal
      ensures Valid()
      ensures State() == AfterModalClosed(old(State()))
    {
      showModal := false;
    }
  }

  /** A filled-in application, submitted, then reset twice: what the
      handlers' contracts alone let a caller conclude. */
  method SubmitThenReset(form: ApplicationForm)
    requires form.Valid()
    modifies form
    ensures form.State() == AfterReset(AfterSubmit(old(form.State())))
    ensures form.formData == EmptyDraft && form.progress == 0 && !form.submitted
    ensures AllFilled(old(form.formData)) ==> form.showModal
  {
    form.HandleSubmit();
    ghost var submittedState := form.State();
    SubmitOutcome(old(form.State()));
    form.HandleReset();
    ghost var once := form.State();
    form.HandleReset();
    ResetClears(submittedState);
    assert form.State() == once;
  }
}
