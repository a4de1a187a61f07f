/** The values the job-application form works on: the draft, the error map,
    the validator's rules, the progress formula, the skills toggle, the
    summary dialog, and each event handler as one transition of the whole
    form state. The class in module Form runs these transitions step by
    step; the lemmas here say what they promise. */
module FormModel {
  import opened Text
  import opened Patterns

  datatype Option<T> = None | Some(value: T)

  // ---------------------------------------------------------------------
  // Fields and the draft
  // ---------------------------------------------------------------------

  /** The eight fields of the draft, in the order the form shows them. */
  datatype Field = FullName | Email | PhoneNumber | Cnic | EducationLevel | Skills | PreferredRole | Cv

  /** The key of a field in `formData` and in the error map. */
  function Name(f: Field): string {
    match f
    case FullName => "fullName"
    case Email => "email"
    case PhoneNumber => "phoneNumber"
    case Cnic => "cnic"
    case EducationLevel => "educationLevel"
    case Skills => "skills"
    case PreferredRole => "preferredRole"
    case Cv => "cv"
  }

  /** The field a key denotes, if any: the cases of the validator's switch. */
  function FieldNamed(name: string): (r: Option<Field>)
    ensures r.Some? ==> Name(r.value) == name
    ensures r.None? ==> forall f :: Name(f) != name
  {
    if name == "fullName" then Some(FullName)
    else if name == "email" then Some(Email)
    else if name == "phoneNumber" then Some(PhoneNumber)
    else if name == "cnic" then Some(Cnic)
    else if name == "educationLevel" then Some(EducationLevel)
    else if name == "skills" then Some(Skills)
    else if name == "preferredRole" then Some(PreferredRole)
    else if name == "cv" then Some(Cv)
    else None
  }

  /** Every field is found again from its key, so no two fields share one. */
  lemma FieldNamedName(f: Field)
    ensures FieldNamed(Name(f)) == Some(f)
  {
  }

  /** The six fields that an `<input>` or `<select>` fills with text. */
  predicate IsTextField(f: Field) {
    f != Skills && f != Cv
  }

  /** `formData`. The CV is held by its file name; `None` is no file. */
  datatype FormData = FormData(
    fullName: string,
    email: string,
    phoneNumber: string,
    cnic: string,
    educationLevel: string,
    skills: seq<string>,
    preferredRole: string,
    cv: Option<string>)

  /** The draft on mount and after a reset. */
  const EmptyDraft: FormData := FormData("", "", "", "", "", [], "", None)

  /** A value handed to the validator: the text of an input, a list of
      strings, or a dropped file (`None` when the drop accepted no file). */
  datatype Value = Str(text: string) | Strs(items: seq<string>) | FileRef(file: Option<string>)

  /** The current value of a field of the draft. */
  function ValueOf(d: FormData, f: Field): Value {
    match f
    case FullName => Str(d.fullName)
    case Email => Str(d.email)
    case PhoneNumber => Str(d.phoneNumber)
    case Cnic => Str(d.cnic)
    case EducationLevel => Str(d.educationLevel)
    case Skills => Strs(d.skills)
    case PreferredRole => Str(d.preferredRole)
    case Cv => FileRef(d.cv)
  }

  /** JavaScript truthiness: the empty string and a missing file are falsy;
      every array, even an empty one, is truthy. */
  predicate Truthy(v: Value) {
    match v
    case Str(s) => s != ""
    case Strs(_) => true
    case FileRef(file) => file.Some?
  }

  /** `value.length > 0`. A file object has no `length`, so the test fails;
      for a drop that accepted no file `value` is `undefined` and JavaScript
      would throw instead. Neither case is reached: the skills entry is only
      ever validated with a list. */
  predicate HasItems(v: Value) {
    match v
    case Str(s) => |s| > 0
    case Strs(items) => |items| > 0
    case FileRef(_) => false
  }

  /** The string `RegExp.prototype.test` converts its argument to: an array
      is joined with ",", a file object prints as "[object File]". */
  function Stringify(v: Value): string {
    match v
    case Str(s) => s
    case Strs(items) => Join(items, ",")
    case FileRef(Some(_)) => "[object File]"
    case FileRef(None) => "undefined"
  }

  /** The presence test shared by the whole-form check and the progress
      effect: a non-empty string, a non-empty skills list, a file. */
  predicate IsFilled(d: FormData, f: Field) {
    match f
    case FullName => d.fullName != ""
    case Email => d.email != ""
    case PhoneNumber => d.phoneNumber != ""
    case Cnic => d.cnic != ""
    case EducationLevel => d.educationLevel != ""
    case Skills => |d.skills| > 0
    case PreferredRole => d.preferredRole != ""
    case Cv => d.cv.Some?
  }

  predicate AllFilled(d: FormData) {
    forall f :: IsFilled(d, f)
  }

  // ---------------------------------------------------------------------
  // The per-field validator
  // ---------------------------------------------------------------------

  /** The message for a field that is empty. */
  function RequiredMessage(f: Field): string {
    match f
    case FullName => "Full Name is required."
    case Email => "Email is required."
    case PhoneNumber => "Phone Number is required."
    case Cnic => "CNIC is required."
    case EducationLevel => "Education Level is required."
    case Skills => "At least one skill must be selected."
    case PreferredRole => "Preferred Role is required."
    case Cv => "CV is required."
  }

  const EmailInvalid: string := "Email is invalid."
  const CnicInvalid: string := "CNIC must be in the format XXXXX-XXXXXXX-X."

  /** The entry the validator writes for field `f` given `v`; "" is valid. */
  function FieldMessage(f: Field, v: Value): string {
    match f
    case Email =>
      if !Truthy(v) then RequiredMessage(Email)
      else if !IsEmail(Stringify(v)) then EmailInvalid
      else ""
    case Cnic =>
      if !Truthy(v) then RequiredMessage(Cnic)
      else if !IsCnic(Stringify(v)) then CnicInvalid
      else ""
    case Skills => if HasItems(v) then "" else RequiredMessage(Skills)
    case _ => if Truthy(v) then "" else RequiredMessage(f)
  }

  /** The error map: the message shown under each field. Only the eight
      fields ever get an entry, since the validator's default case writes
      nothing. */
  type Errors = map<Field, string>

  /** `validateField(name, value)` on the error map: a copy in which only
      the entry for the field named `name` is rewritten; a name that denotes
      no field leaves the map as it was. */
  function ValidatedErrors(errors: Errors, name: string, v: Value): (r: Errors)
    ensures forall g :: Name(g) != name ==> (g in r <==> g in errors)
    ensures forall g :: Name(g) != name && g in r ==> r[g] == errors[g]
    ensures FieldNamed(name).None? ==> r == errors
    ensures FieldNamed(name).Some? ==> var f := FieldNamed(name).value; f in r && r[f] == FieldMessage(f, v)
  {
    match FieldNamed(name)
    case None => errors
    case Some(f) => errors[f := FieldMessage(f, v)]
  }

  /** The CNIC entry: required when empty, accepted exactly when the text has
      the CNIC shape, the format message otherwise. */
  lemma CnicMessages(s: string)
    ensures FieldMessage(Cnic, Str(s)) ==
      if s == "" then "CNIC is required."
      else if CnicShape(s) then ""
      else "CNIC must be in the format XXXXX-XXXXXXX-X."
  {
    IsCnicIff(s);
  }

  /** The e-mail entry: required when empty, accepted exactly when the
      pattern is found somewhere in the text, "invalid" otherwise. */
  lemma EmailMessages(s: string)
    ensures FieldMessage(Email, Str(s)) ==
      if s == "" then "Email is required."
      else if EmailShape(s) then ""
      else "Email is invalid."
  {
    IsEmailIff(s);
  }

  lemma ValidatorExamples()
    ensures FieldMessage(Cnic, Str("")) == "CNIC is required."
    ensures FieldMessage(Cnic, Str("12345-1234567-1")) == ""
    ensures FieldMessage(Cnic, Str("1234-123-1")) == "CNIC must be in the format XXXXX-XXXXXXX-X."
    ensures FieldMessage(Email, Str("")) == "Email is required."
    ensures FieldMessage(Email, Str("a@b.com")) == ""
    ensures FieldMessage(Email, Str("abc")) == "Email is invalid."
  {
    CnicExamples();
    EmailExamples();
  }

  /** On the draft's own values the validator reports "required" exactly for
      the fields the presence test finds empty. */
  lemma RequiredIffEmpty(d: FormData, f: Field)
    ensures FieldMessage(f, ValueOf(d, f)) == RequiredMessage(f) <==> !IsFilled(d, f)
  {
  }

  // ---------------------------------------------------------------------
  // The whole-form check
  // ---------------------------------------------------------------------

  /** The fields in the order the form shows them and `validateForm` tests them. */
  const FieldOrder: seq<Field> := [FullName, Email, PhoneNumber, Cnic, EducationLevel, Skills, PreferredRole, Cv]

  lemma FieldOrderComplete(f: Field)
    ensures f in FieldOrder
  {
    match f
    case FullName => assert FieldOrder[0] == f;
    case Email => assert FieldOrder[1] == f;
    case PhoneNumber => assert FieldOrder[2] == f;
    case Cnic => assert FieldOrder[3] == f;
    case EducationLevel => assert FieldOrder[4] == f;
    case Skills => assert FieldOrder[5] == f;
    case PreferredRole => assert FieldOrder[6] == f;
    case Cv => assert FieldOrder[7] == f;
  }

  /** No field comes twice in a list. */
  predicate Distinct(fs: seq<Field>) {
    forall i, j :: 0 <= i < j < |fs| ==> fs[i] != fs[j]
  }

  lemma FieldOrderDistinct()
    ensures Distinct(FieldOrder)
  {
  }

  /** `newErrors` after the presence tests of the fields `fs`, in order,
      starting from `{}`: each empty field adds its "required" message. */
  function MissingAmong(d: FormData, fs: seq<Field>): Errors
    decreases |fs|
  {
    if fs == [] then map[]
    else AddIfMissing(MissingAmong(d, fs[..|fs| - 1]), d, fs[|fs| - 1])
  }

  /** One presence test of `validateForm`. */
  function AddIfMissing(m: Errors, d: FormData, f: Field): Errors {
    if IsFilled(d, f) then m else m[f := RequiredMessage(f)]
  }

  lemma MissingAmongSnoc(d: FormData, fs: seq<Field>, f: Field)
    ensures MissingAmong(d, fs + [f]) == AddIfMissing(MissingAmong(d, fs), d, f)
  {
    assert (fs + [f])[..|fs|] == fs;
  }

  /** The whole-form map is the eight presence tests applied in order. */
  lemma MissingErrorsInOrder(d: FormData)
    ensures MissingErrors(d) ==
      AddIfMissing(AddIfMissing(AddIfMissing(AddIfMissing(
        AddIfMissing(AddIfMissing(AddIfMissing(AddIfMissing(map[],
          d, FullName), d, Email), d, PhoneNumber), d, Cnic),
          d, EducationLevel), d, Skills), d, PreferredRole), d, Cv)
  {
    var s0: seq<Field> := [];
    var s1 := s0 + [FullName];
    var s2 := s1 + [Email];
    var s3 := s2 + [PhoneNumber];
    var s4 := s3 + [Cnic];
    var s5 := s4 + [EducationLevel];
    var s6 := s5 + [Skills];
    var s7 := s6 + [PreferredRole];
    var s8 := s7 + [Cv];
    assert s8 == FieldOrder;
    MissingAmongSnoc(d, s0, FullName);
    MissingAmongSnoc(d, s1, Email);
    MissingAmongSnoc(d, s2, PhoneNumber);
    MissingAmongSnoc(d, s3, Cnic);
    MissingAmongSnoc(d, s4, EducationLevel);
    MissingAmongSnoc(d, s5, Skills);
    MissingAmongSnoc(d, s6, PreferredRole);
    MissingAmongSnoc(d, s7, Cv);
  }

  /** The number of empty fields among `fs`. */
  function EmptyCount(d: FormData, fs: seq<Field>): nat
    decreases |fs|
  {
    if fs == [] then 0
    else EmptyCount(d, fs[..|fs| - 1]) + Indicator(!IsFilled(d, fs[|fs| - 1]))
  }

  /** The error map `validateForm` builds from scratch. */
  function MissingErrors(d: FormData): Errors {
    MissingAmong(d, FieldOrder)
  }

  lemma {:induction false} MissingAmongAt(d: FormData, fs: seq<Field>, f: Field)
    ensures f in MissingAmong(d, fs) <==> f in fs && !IsFilled(d, f)
    ensures f in MissingAmong(d, fs) ==> MissingAmong(d, fs)[f] == RequiredMessage(f)
    decreases |fs|
  {
    if fs != [] {
      var init := fs[..|fs| - 1];
      assert fs == init + [fs[|fs| - 1]];
      MissingAmongAt(d, init, f);
    }
  }

  /** With no field twice, the map has one key per empty field. */
  lemma {:induction false} MissingAmongSize(d: FormData, fs: seq<Field>)
    requires Distinct(fs)
    ensures |MissingAmong(d, fs)| == EmptyCount(d, fs)
    decreases |fs|
  {
    if fs != [] {
      var init, f := fs[..|fs| - 1], fs[|fs| - 1];
      assert Distinct(init);
      MissingAmongSize(d, init);
      if !IsFilled(d, f) {
        MissingAmongAt(d, init, f);
        assert f !in init;
      }
    }
  }

  /** The count of empty fields is all of them, or none, when that is so. */
  lemma {:induction false} EmptyCountExtremes(d: FormData, fs: seq<Field>)
    ensures (forall i :: 0 <= i < |fs| ==> !IsFilled(d, fs[i])) ==> EmptyCount(d, fs) == |fs|
    ensures (forall i :: 0 <= i < |fs| ==> IsFilled(d, fs[i])) ==> EmptyCount(d, fs) == 0
    decreases |fs|
  {
    if fs != [] {
      var init := fs[..|fs| - 1];
      assert forall i :: 0 <= i < |init| ==> init[i] == fs[i];
      EmptyCountExtremes(d, init);
    }
  }

  /** Two drafts with the same empty fields among `fs` get the same map. */
  lemma {:induction false} MissingAmongPresenceOnly(d1: FormData, d2: FormData, fs: seq<Field>)
    requires forall f :: IsFilled(d1, f) == IsFilled(d2, f)
    ensures MissingAmong(d1, fs) == MissingAmong(d2, fs)
    decreases |fs|
  {
    if fs != [] {
      MissingAmongPresenceOnly(d1, d2, fs[..|fs| - 1]);
    }
  }

  /** The whole-form error map has an entry exactly for each empty field,
      holding its "required" message. */
  lemma MissingErrorsAt(d: FormData, f: Field)
    ensures f in MissingErrors(d) <==> !IsFilled(d, f)
    ensures f in MissingErrors(d) ==> MissingErrors(d)[f] == RequiredMessage(f)
  {
    MissingAmongAt(d, FieldOrder, f);
    FieldOrderComplete(f);
  }

  /** `validateForm` succeeds exactly when every field is filled. */
  lemma MissingErrorsEmptyIff(d: FormData)
    ensures |MissingErrors(d)| == 0 <==> AllFilled(d)
  {
    if !AllFilled(d) {
      var f :| !IsFilled(d, f);
      MissingErrorsAt(d, f);
    } else {
      FieldOrderDistinct();
      MissingAmongSize(d, FieldOrder);
      EmptyCountExtremes(d, FieldOrder);
    }
  }

  /** The whole-form check sees only which fields are filled, so two drafts
      that agree on that get the same error map; e-mail and CNIC formats
      play no part. */
  lemma MissingErrorsPresenceOnly(d1: FormData, d2: FormData)
    requires forall f :: IsFilled(d1, f) == IsFilled(d2, f)
    ensures MissingErrors(d1) == MissingErrors(d2)
  {
    MissingAmongPresenceOnly(d1, d2, FieldOrder);
  }

  /** A complete draft whose e-mail and CNIC the per-field validator
      rejects still passes the whole-form check. */
  lemma FormCheckIgnoresFormats(d: FormData)
    requires AllFilled(d) && d.email == "abc" && d.cnic == "1234-123-1"
    ensures |MissingErrors(d)| == 0
    ensures FieldMessage(Email, ValueOf(d, Email)) == EmailInvalid
    ensures FieldMessage(Cnic, ValueOf(d, Cnic)) == CnicInvalid
  {
    MissingErrorsEmptyIff(d);
    ValidatorExamples();
  }

  /** The empty draft fails the whole-form check with all eight messages. */
  lemma EmptyDraftMissesAll()
    ensures forall f :: f in MissingErrors(EmptyDraft) && MissingErrors(EmptyDraft)[f] == RequiredMessage(f)
    ensures |MissingErrors(EmptyDraft)| == 8
  {
    forall f ensures f in MissingErrors(EmptyDraft) && MissingErrors(EmptyDraft)[f] == RequiredMessage(f) {
      MissingErrorsAt(EmptyDraft, f);
    }
    FieldOrderDistinct();
    MissingAmongSize(EmptyDraft, FieldOrder);
    EmptyCountExtremes(EmptyDraft, FieldOrder);
  }

  // ---------------------------------------------------------------------
  // Progress
  // ---------------------------------------------------------------------

  function Indicator(b: bool): nat {
    if b then 1 else 0
  }

  /** How many of the eight fields are filled. */
  function FilledCount(d: FormData): nat {
    Indicator(IsFilled(d, FullName)) + Indicator(IsFilled(d, Email))
    + Indicator(IsFilled(d, PhoneNumber)) + Indicator(IsFilled(d, Cnic))
    + Indicator(IsFilled(d, EducationLevel)) + Indicator(IsFilled(d, Skills))
    + Indicator(IsFilled(d, PreferredRole)) + Indicator(IsFilled(d, Cv))
  }

  /** `Math.round(filled / 8 * 100)` in exact integer arithmetic. */
  function Percent(filled: nat): nat {
    (filled * 100 + 4) / 8
  }

  /** `Math.round` on an exact real: the nearest integer, halves rounded up. */
  function RoundHalfUp(x: real): int {
    (x + 0.5).Floor
  }

  lemma FilledCountBounds(d: FormData)
    ensures FilledCount(d) <= 8
    ensures FilledCount(d) == 8 <==> AllFilled(d)
    ensures FilledCount(d) == 0 <==> forall f :: !IsFilled(d, f)
  {
  }

  /** The integer formula is `Math.round` of the ratio, lies in [0, 100],
      is 0 only for no field and 100 only for all eight. */
  lemma PercentIsRounded(filled: nat)
    requires filled <= 8
    ensures Percent(filled) == RoundHalfUp(filled as real / 8.0 * 100.0)
    ensures 8 * Percent(filled) <= 100 * filled + 4 < 8 * Percent(filled) + 8
    ensures Percent(filled) <= 100
    ensures Percent(filled) == 0 <==> filled == 0
    ensures Percent(filled) == 100 <==> filled == 8
  {
    var x := filled as real / 8.0 * 100.0;
    assert x == (filled * 25) as real / 2.0;
    if filled % 2 == 0 {
      assert x == (filled * 25 / 2) as real;
    } else {
      assert x + 0.5 == ((filled * 25 + 1) / 2) as real;
    }
  }

  lemma ProgressExamples(d: FormData)
    ensures d == EmptyDraft ==> Percent(FilledCount(d)) == 0
    ensures AllFilled(d) ==> Percent(FilledCount(d)) == 100
    ensures FilledCount(d) == 4 ==> Percent(FilledCount(d)) == 50
    ensures Percent(FilledCount(d)) == 100 ==> AllFilled(d)
  {
    FilledCountBounds(d);
    PercentIsRounded(FilledCount(d));
  }

  // ---------------------------------------------------------------------
  // The skills toggle
  // ---------------------------------------------------------------------

  /** `skills.filter((skill) => skill !== value)`. */
  function RemoveAll(skills: seq<string>, value: string): (r: seq<string>)
    ensures value !in r
    ensures |r| <= |skills|
    ensures forall x :: x != value ==> multiset(r)[x] == multiset(skills)[x]
    decreases |skills|
  {
    if skills == [] then []
    else
      assert skills == [skills[0]] + skills[1..];
      (if skills[0] == value then [] else [skills[0]]) + RemoveAll(skills[1..], value)
  }

  /** Filtering commutes with concatenation, so what is kept stays in its
      original order. */
  lemma {:induction false} RemoveAllAppend(a: seq<string>, b: seq<string>, value: string)
    ensures RemoveAll(a + b, value) == RemoveAll(a, value) + RemoveAll(b, value)
    decreases |a|
  {
    if a == [] {
      assert a + b == b;
    } else {
      assert (a + b)[0] == a[0] && (a + b)[1..] == a[1..] + b;
      RemoveAllAppend(a[1..], b, value);
    }
  }

  /** Unchecking a skill that is not selected changes nothing. */
  lemma {:induction false} RemoveAllAbsent(skills: seq<string>, value: string)
    requires value !in skills
    ensures RemoveAll(skills, value) == skills
    decreases |skills|
  {
    if skills != [] {
      assert value !in skills[1..];
      RemoveAllAbsent(skills[1..], value);
    }
  }

  /** The checkbox branch of `handleChange`: checking appends the value,
      with no check for duplicates; unchecking filters every copy out. */
  function ToggleSkill(skills: seq<string>, value: string, checked: bool): (r: seq<string>)
    ensures checked ==> |r| == |skills| + 1 && r[..|skills|] == skills && r[|skills|] == value
    ensures !checked ==> value !in r && forall x :: x != value ==> multiset(r)[x] == multiset(skills)[x]
    ensures !checked ==> r == RemoveAll(skills, value)
  {
    if checked then skills + [value] else RemoveAll(skills, value)
  }

  /** Checking a skill that was not selected and then unchecking it gives
      back the list as it was. */
  lemma ToggleRoundTrip(skills: seq<string>, value: string)
    requires value !in skills
    ensures ToggleSkill(ToggleSkill(skills, value, true), value, false) == skills
  {
    RemoveAllAppend(skills, [value], value);
    RemoveAllAbsent(skills, value);
    assert RemoveAll([value], value) == [];
  }

  // ---------------------------------------------------------------------
  // Text inputs
  // ---------------------------------------------------------------------

  /** `{ ...formData, [name]: value }` for a text input; a key outside the
      six text fields leaves the eight fields as they were. */
  function SetText(d: FormData, name: string, value: string): FormData {
    if name == "fullName" then d.(fullName := value)
    else if name == "email" then d.(email := value)
    else if name == "phoneNumber" then d.(phoneNumber := value)
    else if name == "cnic" then d.(cnic := value)
    else if name == "educationLevel" then d.(educationLevel := value)
    else if name == "preferredRole" then d.(preferredRole := value)
    else d
  }

  /** A text change writes the named field and no other. */
  lemma SetTextFrame(d: FormData, name: string, value: string)
    ensures var r := SetText(d, name, value);
      && (forall g :: Name(g) != name ==> ValueOf(r, g) == ValueOf(d, g))
      && (FieldNamed(name).Some? && IsTextField(FieldNamed(name).value) ==>
            ValueOf(r, FieldNamed(name).value) == Str(value))
      && (FieldNamed(name).None? || !IsTextField(FieldNamed(name).value) ==> r == d)
  {
  }

  // ---------------------------------------------------------------------
  // The summary dialog
  // ---------------------------------------------------------------------

  const NotUploaded: string := "Not Uploaded"

  /** The CV row: the file name, or the "not uploaded" marker. */
  function CvText(cv: Option<string>): string {
    match cv
    case Some(name) => name
    case None => NotUploaded
  }

  /** The label and value of each row of the summary dialog, in order. */
  function Summary(d: FormData): seq<(string, string)> {
    [ ("Full Name", d.fullName),
      ("Email", d.email),
      ("Phone Number", d.phoneNumber),
      ("CNIC", d.cnic),
      ("Education Level", d.educationLevel),
      ("Skills", Join(d.skills, ", ")),
      ("Preferred Role", d.preferredRole),
      ("CV", CvText(d.cv)) ]
  }

  // ---------------------------------------------------------------------
  // The whole state and its transitions
  // ---------------------------------------------------------------------

  /** The component's five pieces of state. */
  datatype FormState = FormState(
    formData: FormData,
    errors: Errors,
    progress: nat,
    showModal: bool,
    submitted: bool)

  const InitialState: FormState := FormState(EmptyDraft, map[], 0, false, false)

  /** The progress shown is the one computed from the current draft. */
  predicate ProgressCurrent(s: FormState) {
    s.progress == Percent(FilledCount(s.formData))
  }

  /** The draft after a change event, and what is handed to the validator. */
  datatype ChangeEvent = Checkbox(value: string, checked: bool) | Input(name: string, value: string)

  function ChangedData(d: FormData, e: ChangeEvent): FormData {
    match e
    case Checkbox(value, checked) => d.(skills := ToggleSkill(d.skills, value, checked))
    case Input(name, value) => SetText(d, name, value)
  }

  /** `handleChange`, then the progress effect. */
  function AfterChange(s: FormState, e: ChangeEvent): FormState {
    var d := ChangedData(s.formData, e);
    var errors := match e
      case Checkbox(_, _) => ValidatedErrors(s.errors, "skills", Strs(d.skills))
      case Input(name, value) => ValidatedErrors(s.errors, name, Str(value));
    FormState(d, errors, Percent(FilledCount(d)), s.showModal, s.submitted)
  }

  /** `acceptedFiles[0]`: the first accepted file, if the drop accepted one. */
  function FirstFile(accepted: seq<string>): Option<string> {
    if |accepted| > 0 then Some(accepted[0]) else None
  }

  /** The drop zone's `onDrop`, then the progress effect. */
  function AfterDrop(s: FormState, accepted: seq<string>): FormState {
    var file := FirstFile(accepted);
    var d := s.formData.(cv := file);
    FormState(d, ValidatedErrors(s.errors, "cv", FileRef(file)), Percent(FilledCount(d)), s.showModal, s.submitted)
  }

  /** `handleSubmit`. The draft does not change, so neither does progress. */
  function AfterSubmit(s: FormState): FormState {
    var errors := MissingErrors(s.formData);
    var ok := |errors| == 0;
    s.(errors := errors, submitted := ok, showModal := if ok then true else s.showModal)
  }

  /** `handleReset`, then the progress effect. */
  function AfterReset(s: FormState): FormState {
    FormState(EmptyDraft, map[], Percent(FilledCount(EmptyDraft)), s.showModal, false)
  }

  /** The dialog's close button and its `onHide`. */
  function AfterModalClosed(s: FormState): FormState {
    s.(showModal := false)
  }

  /** Every transition leaves the shown progress current, within [0, 100].
      For mount, change, drop and reset the currency holds by construction,
      since those transitions recompute progress from the new draft; submit
      and close keep a current progress because they keep draft and
      progress both. The bound is the substance. */
  lemma TransitionsKeepProgressCurrent(s: FormState, e: ChangeEvent, accepted: seq<string>)
    ensures ProgressCurrent(InitialState)
    ensures ProgressCurrent(AfterChange(s, e))
    ensures ProgressCurrent(AfterDrop(s, accepted))
    ensures ProgressCurrent(AfterReset(s))
    ensures ProgressCurrent(s) ==> ProgressCurrent(AfterSubmit(s)) && ProgressCurrent(AfterModalClosed(s))
    ensures ProgressCurrent(s) ==> s.progress <= 100
  {
    FilledCountBounds(s.formData);
    PercentIsRounded(FilledCount(s.formData));
  }

  /** A text change touches only the named field of the draft and only the
      named entry of the error map. */
  lemma InputChangesOnlyNamedField(s: FormState, name: string, value: string)
    ensures var t := AfterChange(s, Input(name, value));
      && (forall g :: Name(g) != name ==> ValueOf(t.formData, g) == ValueOf(s.formData, g))
      && (FieldNamed(name).Some? && IsTextField(FieldNamed(name).value) ==>
            ValueOf(t.formData, FieldNamed(name).value) == Str(value))
      && (forall g :: Name(g) != name ==> (g in t.errors <==> g in s.errors))
      && (forall g :: Name(g) != name && g in t.errors ==> t.errors[g] == s.errors[g])
      && (FieldNamed(name).None? ==> t.errors == s.errors && t.formData == s.formData)
      && t.showModal == s.showModal && t.submitted == s.submitted
  {
    SetTextFrame(s.formData, name, value);
  }

  /** A checkbox change touches the skills list and the "skills" entry only;
      the entry reflects whether any skill is left. */
  lemma CheckboxChangesOnlySkills(s: FormState, value: string, checked: bool)
    ensures var t := AfterChange(s, Checkbox(value, checked));
      && t.formData == s.formData.(skills := ToggleSkill(s.formData.skills, value, checked))
      && (checked ==> |t.formData.skills| == |s.formData.skills| + 1)
      && (!checked ==> value !in t.formData.skills)
      && Skills in t.errors
      && (t.errors[Skills] == "" <==> |t.formData.skills| > 0)
      && (forall g :: g != Skills ==> (g in t.errors <==> g in s.errors))
      && (forall g :: g != Skills && g in t.errors ==> t.errors[g] == s.errors[g])
  {
  }

  /** A drop stores the first accepted file, and the "cv" entry clears
      exactly when there is one. */
  lemma DropSetsCv(s: FormState, accepted: seq<string>)
    ensures var t := AfterDrop(s, accepted);
      && t.formData == s.formData.(cv := FirstFile(accepted))
      && Cv in t.errors
      && (t.errors[Cv] == "" <==> |accepted| > 0)
      && (|accepted| > 0 ==> t.formData.cv == Some(accepted[0]))
  {
  }

  /** Submitting sets `submitted` and opens the dialog exactly when every
      field is filled; otherwise it clears `submitted` and leaves the dialog
      as it was. The error map names exactly the empty fields. */
  lemma SubmitOutcome(s: FormState)
    ensures var t := AfterSubmit(s);
      && (t.submitted <==> AllFilled(s.formData))
      && (t.submitted ==> t.showModal)
      && (!t.submitted ==> t.showModal == s.showModal)
      && t.formData == s.formData && t.progress == s.progress
      && (forall f :: f in t.errors <==> !IsFilled(s.formData, f))
  {
    MissingErrorsEmptyIff(s.formData);
    forall f ensures f in AfterSubmit(s).errors <==> !IsFilled(s.formData, f) {
      MissingErrorsAt(s.formData, f);
    }
  }

  /** Submitting the empty draft fails and reports all eight fields. */
  lemma SubmitEmptyDraft(s: FormState)
    requires s.formData == EmptyDraft
    ensures !AfterSubmit(s).submitted
    ensures |AfterSubmit(s).errors| == 8
    ensures AfterSubmit(s).showModal == s.showModal
  {
    EmptyDraftMissesAll();
  }

  /** After a successful submission the dialog shows the entered values, the
      skills joined with ", " starting with the first one, and the CV's name. */
  lemma SummaryAfterSubmit(s: FormState)
    requires AfterSubmit(s).submitted
    ensures var d := AfterSubmit(s).formData;
      && d == s.formData
      && Summary(d)[0].1 == d.fullName && Summary(d)[1].1 == d.email
      && Summary(d)[2].1 == d.phoneNumber && Summary(d)[3].1 == d.cnic
      && Summary(d)[4].1 == d.educationLevel && Summary(d)[6].1 == d.preferredRole
      && |d.skills| > 0 && Summary(d)[5].1 == Join(d.skills, ", ")
      && Summary(d)[5].1[..|d.skills[0]|] == d.skills[0]
      && d.cv.Some? && Summary(d)[7] == ("CV", d.cv.value)
  {
    SubmitOutcome(s);
    assert IsFilled(s.formData, Skills) && IsFilled(s.formData, Cv);
    JoinStartsWithFirst(s.formData.skills, ", ");
  }

  /** Reset empties the draft and the error map, clears `submitted`, brings
      progress to 0 and leaves the dialog alone; a second reset changes
      nothing more. */
  lemma ResetClears(s: FormState)
    ensures var t := AfterReset(s);
      && t.formData == EmptyDraft
      && t.errors == map[]
      && t.progress == 0
      && !t.submitted
      && t.showModal == s.showModal
    ensures AfterReset(AfterReset(s)) == AfterReset(s)
  {
  }
}
