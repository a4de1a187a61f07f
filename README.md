# Job application form: a verified model

This project models the job application form component, a single React component (`src/JobApplicationForm.js`). The component keeps a draft of eight fields:
- full name;
- e-mail;
- phone number;
- CNIC (the Pakistani national identity number);
- education level;
- a list of skills;
- preferred role;
- an uploaded CV.

Beside the draft it keeps three more pieces of state:
- an error map with one message per field;
- a progress percentage;
- two flags: `submitted`, and `showModal` for the summary dialog.

Each change of an input goes through a per-field validator. The validator checks presence, plus two regular expressions: one for e-mail and one for the CNIC. Submitting runs a whole-form check of presence only. Reset clears the form.

The project has four modules:

- `Text`: the JavaScript character classes `\d` (ASCII digits) and `\s` (the WhiteSpace and LineTerminator code points of ECMA-262, section 22.2.2.9). It also holds `Array.prototype.join`, with lemmas about it.
- `Patterns`:
  - The CNIC pattern `^\d{5}-\d{7}-\d{1}$` is an anchored matcher over single-character atoms.
  - The e-mail pattern `\S+@\S+\.\S+` is matched unanchored, by a scanner over candidate `@` and `.` positions.
  - Each matcher is proved equivalent to an index-based description of the strings it accepts.
- `FormModel` holds the component's values and the pure specification:
  - the draft and the dynamic `value` handed to the validator;
  - JavaScript truthiness, `.length` and string coercion;
  - the validator's messages;
  - the whole-form error map;
  - the progress formula;
  - the skills toggle;
  - the summary rows;
  - each event handler as a transition of the whole state.

  The lemmas state what these promise.
- `Form`: the class `ApplicationForm`, whose fields are the five pieces of state. Its handlers update them step by step, as the component does. Each handler is proved to perform the matching `FormModel` transition and to keep the progress bar current.

Some choices in how the model is built:

- **The error map is keyed by field.** Only the eight field names ever reach the error map, because `validateField`'s `default` case writes nothing and `validateForm` writes only the eight keys. So the error map is a `map<Field, string>`. Event names stay strings; `FieldNamed` maps a name to the field of the same key, and it plays the part of the validator's `switch`.
- **Handler bodies are split into steps.**
  - In `Form.ApplicationForm.ValidateField`, the body of each `case` is the method `Form.MessageFor`.
  - `validateForm` makes eight consecutive presence tests. Each test is one call of `Form.RequirePresent`, made in the order the source writes them.
- **Progress is computed in integers.** `Math.round(n / 8 * 100)` is computed as `(n * 100 + 4) / 8`. For `n <= 8`, `n / 8 * 100` is exact in binary floating point, so the formula gives the same value. `FormModel.PercentIsRounded` proves the formula equals round-half-up of the exact ratio.
- **Where the evident intent differs, the code is followed:**
  - **Submit checks presence only.** Submitting does not run the e-mail and CNIC patterns, so a draft with e-mail `abc` is accepted (`FormModel.FormCheckIgnoresFormats`).
  - **Skills is a list, not a set.** Checking a box appends its value without looking for a copy. Unchecking removes every copy.

## Model

| member | source | states |
|---|---|---|
| Text.JoinAppend | src/JobApplicationForm.js:362 | joining two non-empty skill lists puts exactly one separator between the two joins |
| Text.JoinLength | src/JobApplicationForm.js:362 | the join's length is the skills' total length plus one separator's length per neighbouring pair |
| Text.JoinStartsWithFirst | src/JobApplicationForm.js:362 | the joined skills string starts with the first skill |
| Patterns.Repeat | src/JobApplicationForm.js:76 | `a{n}` is exactly n copies of the atom |
| Patterns.CnicPattern | src/JobApplicationForm.js:76 | the CNIC pattern has fifteen single-character positions |
| Patterns.MatchesAnchoredIff | src/JobApplicationForm.js:76 | an anchored match (`^`…`$`, no multiline flag) succeeds exactly when the string has one character per atom and each atom accepts its character |
| Patterns.CnicPatternAt | src/JobApplicationForm.js:76 | positions 5 and 13 of the CNIC pattern are the literal `-`, all others are `\d` |
| Patterns.CnicShapeByPosition | src/JobApplicationForm.js:76 | the CNIC shape is the same as a per-position condition on fifteen characters |
| Patterns.IsCnicIff | src/JobApplicationForm.js:76 | the CNIC test accepts a string exactly when it is five ASCII digits, `-`, seven digits, `-`, one digit, and nothing else |
| Patterns.DomainFromIff | src/JobApplicationForm.js:64 | the domain scan succeeds exactly when a `.` with a non-space character after it follows a non-empty run of non-space characters |
| Patterns.EmailFromIff | src/JobApplicationForm.js:64 | the search from position i succeeds exactly when some match of `\S+@\S+\.\S+` has its `@` at or after i |
| Patterns.IsEmailIff | src/JobApplicationForm.js:64 | the unanchored e-mail test accepts exactly the strings that contain a non-space character, `@`, a run of non-space characters, `.`, and a non-space character |
| Patterns.CnicExamples | src/JobApplicationForm.js:76 | `12345-1234567-1` is accepted and `1234-123-1` is rejected |
| Patterns.EmailExamples | src/JobApplicationForm.js:64 | `a@b.com` is accepted and `abc` is rejected |
| FormModel.FieldNamed | src/JobApplicationForm.js:57-97 | a name selects a field only if that field's key is the name; a name that is no field's key selects nothing (the `default` case) |
| FormModel.FieldNamedName | src/JobApplicationForm.js:57-97 | every field's key selects that field, so no two fields share a key |
| FormModel.ValidatedErrors | src/JobApplicationForm.js:55-99 | validating a field rewrites only that field's entry, with that field's message; every other entry is kept; an unknown name leaves the map unchanged |
| FormModel.CnicMessages | src/JobApplicationForm.js:73-81 | the CNIC entry is "required" for the empty string, "" exactly for strings of CNIC shape, and the format message otherwise |
| FormModel.EmailMessages | src/JobApplicationForm.js:61-69 | the e-mail entry is "required" for the empty string, "" exactly when the e-mail pattern occurs in the text, and "invalid" otherwise |
| FormModel.ValidatorExamples | src/JobApplicationForm.js:61-81 | the validator's messages for empty, valid and malformed CNIC and e-mail inputs |
| FormModel.RequiredIffEmpty | src/JobApplicationForm.js:55-99 | on the draft's own values, the validator reports "required" for a field exactly when the presence test finds it empty |
| FormModel.FieldOrderComplete | src/JobApplicationForm.js:117-129 | the whole-form check tests every field |
| FormModel.FieldOrderDistinct | src/JobApplicationForm.js:117-129 | the whole-form check tests no field twice |
| FormModel.MissingAmongSnoc | src/JobApplicationForm.js:117-129 | one more presence test extends the map built so far |
| FormModel.MissingErrorsInOrder | src/JobApplicationForm.js:115-132 | the whole-form map is the eight presence tests applied in source order to an empty map |
| FormModel.MissingAmongAt | src/JobApplicationForm.js:117-129 | after the tests of a list of fields, a field has an entry exactly when it is in the list and empty; the entry is its "required" message |
| FormModel.MissingAmongSize | src/JobApplicationForm.js:117-129 | when no field repeats, the map has one entry per empty field tested |
| FormModel.EmptyCountExtremes | src/JobApplicationForm.js:117-129 | the count of empty fields is the whole list when all are empty, and zero when none is |
| FormModel.MissingAmongPresenceOnly | src/JobApplicationForm.js:117-129 | drafts with the same empty fields get the same map from the tests |
| FormModel.MissingErrorsAt | src/JobApplicationForm.js:115-132 | the whole-form map has an entry exactly for each empty field, holding that field's "required" message |
| FormModel.MissingErrorsEmptyIff | src/JobApplicationForm.js:131 | the whole-form check succeeds (no key) exactly when all eight fields are filled |
| FormModel.MissingErrorsPresenceOnly | src/JobApplicationForm.js:115-132 | the whole-form check depends only on which fields are filled |
| FormModel.FormCheckIgnoresFormats | src/JobApplicationForm.js:115-132 | a complete draft whose e-mail and CNIC the per-field validator rejects still passes the whole-form check |
| FormModel.EmptyDraftMissesAll | src/JobApplicationForm.js:115-132 | the empty draft gets all eight "required" messages, and exactly eight entries |
| FormModel.FilledCountBounds | src/JobApplicationForm.js:40-50 | at most 8 fields are filled; 8 exactly when all are filled, 0 exactly when none is |
| FormModel.PercentIsRounded | src/JobApplicationForm.js:52 | the progress formula is `Math.round` (halves up) of filled/8·100; it lies within half a point of the exact ratio and in [0, 100]; it is 0 exactly for no field and 100 exactly for all eight |
| FormModel.ProgressExamples | src/JobApplicationForm.js:40-53 | the empty draft shows 0%, a complete draft 100%, four fields 50%, and 100% only when complete |
| FormModel.RemoveAll | src/JobApplicationForm.js:105 | unchecking leaves no copy of the value, is no longer than before, and keeps every other skill's number of occurrences |
| FormModel.RemoveAllAppend | src/JobApplicationForm.js:105 | the filter commutes with concatenation, so the kept skills stay in their order |
| FormModel.RemoveAllAbsent | src/JobApplicationForm.js:105 | unchecking a value that is not in the list changes nothing |
| FormModel.ToggleSkill | src/JobApplicationForm.js:103-105 | checking appends the value at the end and keeps the old list as a prefix, even if the value is already present; unchecking removes every copy and keeps the count of every other skill |
| FormModel.ToggleRoundTrip | src/JobApplicationForm.js:103-105 | checking a new skill and then unchecking it restores the list |
| FormModel.SetTextFrame | src/JobApplicationForm.js:109-110 | a text change writes the named text field and no other; a name outside the six text fields changes none of the eight |
| FormModel.TransitionsKeepProgressCurrent | src/JobApplicationForm.js:40-53 | after mount, every change, drop and reset, the shown progress is the one computed from the current draft; submit and close keep it so; it is at most 100 |
| FormModel.InputChangesOnlyNamedField | src/JobApplicationForm.js:108-111 | a text change affects only the named field of the draft and only the named entry of the error map; it leaves the flags alone |
| FormModel.CheckboxChangesOnlySkills | src/JobApplicationForm.js:103-107 | a checkbox change replaces only the skills list and the skills entry; the entry is "" exactly when some skill is left |
| FormModel.DropSetsCv | src/JobApplicationForm.js:34-37 | a drop stores the first accepted file as the CV and nothing else; the CV entry clears exactly when a file was accepted |
| FormModel.SubmitOutcome | src/JobApplicationForm.js:134-144 | submitting sets `submitted` exactly when every field is filled, and then opens the dialog; otherwise it leaves the dialog as it was; it keeps the draft and progress; the error keys are exactly the empty fields |
| FormModel.SubmitEmptyDraft | src/JobApplicationForm.js:134-144 | submitting the empty draft fails with eight errors and leaves the dialog as it was |
| FormModel.SummaryAfterSubmit | src/JobApplicationForm.js:357-364 | after a successful submit, the dialog shows the entered values; the skills row is the skills joined with ", ", beginning with the first skill; the CV row is the file's name |
| FormModel.ResetClears | src/JobApplicationForm.js:146-159 | reset empties the draft and the error map, clears `submitted`, brings progress to 0 and leaves the dialog alone; a second reset changes nothing |
| Form.ComputeProgress | src/JobApplicationForm.js:40-53 | counting the filled fields one by one and rounding gives the progress formula; it is at most 100, and 100 exactly when all fields are filled |
| Form.MessageFor | src/JobApplicationForm.js:58-95 | the statements of each `case` of the validator compute that field's message |
| Form.RequirePresent | src/JobApplicationForm.js:117-129 | one presence test adds the field's "required" message exactly when the field is empty and touches no other entry |
| Form.ApplicationForm.constructor | src/JobApplicationForm.js:16-30 | mounting gives `FormModel.InitialState`: the empty draft `FormModel.EmptyDraft`, no errors, 0%, the dialog closed and `submitted` false |
| Form.ApplicationForm.UpdateProgress | src/JobApplicationForm.js:40-53 | the progress effect makes the shown progress current |
| Form.ApplicationForm.ValidateField | src/JobApplicationForm.js:55-99 | the new error map is the validator's rewrite of the old one |
| Form.ApplicationForm.ValidateForm | src/JobApplicationForm.js:115-132 | stores the whole-form map of the current draft and returns true exactly when every field is filled |
| Form.ApplicationForm.HandleChange | src/JobApplicationForm.js:101-113 | performs the change transition (draft, validator, progress effect) and keeps progress current |
| Form.ApplicationForm.OnDrop | src/JobApplicationForm.js:34-37 | performs the drop transition and keeps progress current |
| Form.ApplicationForm.HandleSubmit | src/JobApplicationForm.js:134-144 | performs the submit transition and keeps progress current |
| Form.ApplicationForm.HandleReset | src/JobApplicationForm.js:146-159 | performs the reset transition and keeps progress current |
| Form.ApplicationForm.CloseModal | src/JobApplicationForm.js:352 | closing the dialog clears `showModal` and nothing else |
| Form.SubmitThenReset | src/JobApplicationForm.js:134-159 | submitting and then resetting twice yields the empty draft, 0% and `submitted` false; the dialog is open if the draft was complete |
| Text.IsDigit | src/JobApplicationForm.js:76 | defines `\d`: the ten ASCII digits |
| Text.IsSpace | src/JobApplicationForm.js:64 | defines `\s`: the ECMA-262 WhiteSpace and LineTerminator code points, whose complement is `\S` |
| Text.Join | src/JobApplicationForm.js:362 | defines `join(sep)`: the items with one separator between neighbours, "" for no items |
| Patterns.MatchesAnchored | src/JobApplicationForm.js:76 | defines an anchored match of single-character atoms: one atom per character, and no character left over |
| Patterns.IsCnic | src/JobApplicationForm.js:76 | defines `/^\d{5}-\d{7}-\d{1}$/.test(s)` as an anchored match of the fifteen-atom pattern; `IsCnicIff` characterises it |
| Patterns.DomainFrom | src/JobApplicationForm.js:64 | defines the scan for the `\S+\.\S+` part after the `@` |
| Patterns.EmailFrom | src/JobApplicationForm.js:64 | defines the search that tries each position as the `@` of a match |
| Patterns.IsEmail | src/JobApplicationForm.js:64 | defines `/\S+@\S+\.\S+/.test(s)` as the search from position 0; `IsEmailIff` characterises it |
| FormModel.Name | src/JobApplicationForm.js:16-25 | defines each field's key in `formData` and in the error map |
| FormModel.ValueOf | src/JobApplicationForm.js:16-25 | defines the current value of each field of the draft |
| FormModel.Truthy | src/JobApplicationForm.js:59-93 | defines the truth of `value ?` and `!value`: a non-empty string, any array, or a file |
| FormModel.HasItems | src/JobApplicationForm.js:89-90 | defines `value.length > 0`: a non-empty string or list; false for a file |
| FormModel.Stringify | src/JobApplicationForm.js:64-76 | defines the string that `.test(value)` converts its argument to: an array joined with ",", a file as "[object File]" |
| FormModel.IsFilled | src/JobApplicationForm.js:43-50 | defines the presence test of each field, shared with lines 117-128: a non-empty string, a non-empty skills list, or a file |
| FormModel.RequiredMessage | src/JobApplicationForm.js:117-128 | defines the "required" message of each field, as the source writes it |
| FormModel.FieldMessage | src/JobApplicationForm.js:58-95 | defines the entry each `case` of the validator writes for a value; `CnicMessages`, `EmailMessages` and `RequiredIffEmpty` characterise it |
| FormModel.AddIfMissing | src/JobApplicationForm.js:117 | defines one presence test of `validateForm`: an empty field gets its "required" message |
| FormModel.MissingAmong | src/JobApplicationForm.js:116-128 | defines the map after the presence tests of a list of fields, starting from `{}` |
| FormModel.MissingErrors | src/JobApplicationForm.js:115-131 | defines the map `validateForm` builds: the tests of all eight fields in source order; `MissingErrorsAt` characterises it |
| FormModel.FilledCount | src/JobApplicationForm.js:41-50 | defines `completedFields`: the number of filled fields |
| FormModel.Percent | src/JobApplicationForm.js:52 | defines the progress percentage of a count, in integer arithmetic; `PercentIsRounded` ties it to `Math.round` |
| FormModel.RoundHalfUp | src/JobApplicationForm.js:52 | defines `Math.round` on an exact real: the nearest integer, halves rounded up |
| FormModel.ProgressCurrent | src/JobApplicationForm.js:40-53 | defines the effect's outcome: the shown progress is the percentage of the current draft |
| FormModel.SetText | src/JobApplicationForm.js:110 | defines `{ ...formData, [name]: value }` for the six text fields; any other name leaves the eight fields as they are |
| FormModel.ChangedData | src/JobApplicationForm.js:102-110 | defines the draft after a change event: the toggled skills for a checkbox, the written text field otherwise |
| FormModel.AfterChange | src/JobApplicationForm.js:101-113 | defines `handleChange` and the progress effect: the new draft, then the validator on the changed field, then progress recomputed |
| FormModel.FirstFile | src/JobApplicationForm.js:35 | defines `acceptedFiles[0]`: the first accepted file, or none |
| FormModel.AfterDrop | src/JobApplicationForm.js:34-37 | defines `onDrop` and the progress effect: the CV becomes the first accepted file, then the validator on `cv`, then progress recomputed |
| FormModel.AfterSubmit | src/JobApplicationForm.js:134-144 | defines `handleSubmit`: the whole-form map is stored; with no key, `submitted` and `showModal` are set; otherwise `submitted` is cleared |
| FormModel.AfterReset | src/JobApplicationForm.js:146-159 | defines `handleReset` and the progress effect: the empty draft, no errors, `submitted` false, progress recomputed; the dialog is kept |
| FormModel.AfterModalClosed | src/JobApplicationForm.js:352 | defines the dialog's `onHide` and its Close button (line 367): `showModal` becomes false |
| FormModel.CvText | src/JobApplicationForm.js:364 | defines the CV row: the file's name, or "Not Uploaded" |
| FormModel.Summary | src/JobApplicationForm.js:357-364 | defines the eight label and value rows of the summary dialog, with the skills joined by ", " |

## Left out

- Rendering (JSX), CSS and the Bootstrap components: the model covers the state and the handlers, not the markup they drive.
- Dropzone internals: the drop zone's `accept: "application/pdf"` filter belongs to the library, so the model takes the list of files it accepted as given. A file is modelled by its name.
- `console.log` in `handleSubmit` and `e.preventDefault()`: output and browser behaviour, with no effect on the state.
- React's scheduling: asynchronous, batched state updates and the timing of `useEffect`. Each handler is modelled as one step on the current state, and the progress effect runs right after every handler that replaces `formData`.
- Floating point: `Math.round(n / 8 * 100)` is modelled in exact integers. For n ≤ 8 the floating-point value is exact, so nothing is lost.
- General regular-expression semantics: only the two patterns of the component are modelled. JavaScript strings are sequences of UTF-16 code units, while Dafny `char` is a Unicode scalar value. A character outside the Basic Multilingual Plane counts as one position in the model instead of two.
- Change events whose name is not one of the six text fields: the rendered form produces none, other than the skills checkboxes.
  - For such a name, JavaScript would add an extra key to `formData`, or overwrite `skills` or `cv` with a string.
  - The model leaves the eight fields unchanged. It still runs the validator with that name, as the source does.
- String coercion of a missing file: `String(undefined)` is modelled as "undefined". The branch is never reached, because a missing file is falsy and is reported as "required" before any pattern is tested.
- Checkbox DOM state: the reset handler does not clear the checkboxes, which are uncontrolled inputs. The model has no DOM, so it does not capture boxes that stay checked after a reset.
