/**
 * The "Add New Student" form: its field values, its per-field error messages,
 * client-side validation, field editing and the guard that keeps an invalid
 * form from being sent.
 */
module NewStudentForm {
  import opened Options

  /** A form value: the text of a text input, or the checked state of a checkbox. */
  datatype FormValue = Text(text: string) | Flag(flag: bool)

  /** The form state object, keyed by input name. */
  type Form = map<string, FormValue>

  /** The error messages shown under the inputs, keyed by input name. */
  type Errors = map<string, string>

  /** The five inputs validation looks at, in the order it looks at them. */
  const TextFields: seq<string> := ["registrationNo", "name", "class", "rollNo", "contactNumber"]

  /** The message shown when a required input is left empty. */
  const RequiredMessages: map<string, string> := map[
    "registrationNo" := "Registration number is required",
    "name" := "Name is required",
    "class" := "Class is required",
    "rollNo" := "Roll number is required",
    "contactNumber" := "Contact number is required"]

  const NotANumberMessage: string := "Roll number must be a number"

  /** The form as the page first shows it: every text input empty, status checked. */
  function InitialForm(): (f: Form)
    ensures forall k :: k in TextFields ==> k in f && f[k] == Text("")
    ensures "status" in f && f["status"] == Flag(true)
  {
    map["registrationNo" := Text(""), "name" := Text(""), "class" := Text(""),
        "rollNo" := Text(""), "contactNumber" := Text(""), "status" := Flag(true)]
  }

  /** JavaScript truthiness of `formData[key]`: an absent key, "" and an unchecked box are falsy. */
  predicate Truthy(form: Form, key: string)
  {
    key in form && match form[key] case Text(s) => s != "" case Flag(b) => b
  }

  predicate IsDigit(c: char)
  {
    '0' <= c <= '9'
  }

  /** Digits with at most one decimal point, and at least one digit. */
  predicate IsDecimal(s: string)
  {
    && (exists i :: 0 <= i < |s| && IsDigit(s[i]))
    && (forall i :: 0 <= i < |s| ==> IsDigit(s[i]) || s[i] == '.')
    && (forall i, j :: 0 <= i < j < |s| && s[i] == '.' ==> s[j] != '.')
  }

  /** Text that `Number(...)` reads as a number: an optional sign followed by a decimal. */
  predicate IsNumericText(s: string)
  {
    if |s| > 0 && (s[0] == '+' || s[0] == '-') then IsDecimal(s[1..]) else IsDecimal(s)
  }

  /** `!isNaN(Number(v))`: a checkbox value converts to 0 or 1, text as above. */
  predicate IsNumeric(v: FormValue)
  {
    match v case Text(s) => IsNumericText(s) case Flag(_) => true
  }

  /** The form passes validation: every text input filled in and the roll number numeric. */
  predicate FormComplete(form: Form)
  {
    (forall k :: k in TextFields ==> Truthy(form, k)) && "rollNo" in form && IsNumeric(form["rollNo"])
  }

  /** The message validation gives one input, if any. */
  function FieldError(form: Form, key: string): Option<string>
    requires key in TextFields
  {
    if !Truthy(form, key) then Some(RequiredMessages[key])
    else if key == "rollNo" && !IsNumeric(form[key]) then Some(NotANumberMessage)
    else None
  }

  /** The error dictionary validation produces for a form. */
  function ValidationErrors(form: Form): (r: Errors)
    ensures forall k :: k in r ==> k in TextFields
    ensures forall k :: k in TextFields && !Truthy(form, k) ==> k in r && r[k] == RequiredMessages[k]
    ensures ("rollNo" in r && r["rollNo"] == NotANumberMessage) <==>
              Truthy(form, "rollNo") && !IsNumeric(form["rollNo"])
    ensures forall k :: k in TextFields && Truthy(form, k) && (k == "rollNo" ==> IsNumeric(form[k])) ==> k !in r
    ensures r == map[] <==> FormComplete(form)
  {
    var r := map k | k in TextFields && FieldError(form, k).Some? :: FieldError(form, k).value;
    assert r == map[] ==> FormComplete(form) by {
      if r == map[] {
        forall k | k in TextFields ensures Truthy(form, k) {
          assert k !in r;
        }
        assert "rollNo" !in r;
      }
    }
    assert FormComplete(form) ==> r == map[] by {
      if FormComplete(form) {
        forall k | k in TextFields ensures FieldError(form, k).None? {
          assert Truthy(form, k);
        }
      }
    }
    r
  }

  /** A change event from one input: its name, its type, its text and its checked state. */
  datatype ChangeEvent = ChangeEvent(name: string, inputType: string, value: string, checked: bool)

  /** The value a change stores: the checked state for a checkbox, the text otherwise. */
  function EnteredValue(e: ChangeEvent): (v: FormValue)
    ensures v.Flag? <==> e.inputType == "checkbox"
    ensures v.Flag? ==> v.flag == e.checked
    ensures v.Text? ==> v.text == e.value
  {
    if e.inputType == "checkbox" then Flag(e.checked) else Text(e.value)
  }

  /** An error is shown for `key` when its message is present and not empty. */
  predicate ErrorShown(errors: Errors, key: string)
  {
    key in errors && errors[key] != ""
  }

  /**
   * The errors after input `key` is edited: a shown error for `key` is blanked,
   * and nothing else, not even the set of keys, changes.
   */
  function ClearError(errors: Errors, key: string): (r: Errors)
    ensures r.Keys == errors.Keys
    ensures forall k :: k in errors && k != key ==> r[k] == errors[k]
    ensures !ErrorShown(r, key)
    ensures !ErrorShown(errors, key) ==> r == errors
  {
    if ErrorShown(errors, key) then errors[key := ""] else errors
  }

  /** The page's form state. */
  class StudentForm {
    var formData: Form
    var errors: Errors

    constructor ()
      ensures formData == InitialForm() && errors == map[]
    {
      formData := InitialForm();
      errors := map[];
    }

    /** `handleChange`: stores the edited input's value and clears that input's error. */
    method HandleChange(e: ChangeEvent)
      modifies this
      ensures formData == old(formData)[e.name := EnteredValue(e)]
      ensures forall k :: k in old(formData) && k != e.name ==> k in formData && formData[k] == old(formData)[k]
      ensures errors == ClearError(old(errors), e.name)
    {
      formData := formData[e.name := if e.inputType == "checkbox" then Flag(e.checked) else Text(e.value)];
      if ErrorShown(errors, e.name) {
        errors := errors[e.name := ""];
      }
    }

    /** `validate`: rebuilds the error dictionary and reports whether it is empty. */
    method Validate() returns (ok: bool)
      modifies this
      ensures formData == old(formData)
      ensures errors == ValidationErrors(formData)
      ensures ok <==> FormComplete(formData)
    {
      var newErrors: Errors := map[];

      if !Truthy(formData, "registrationNo") {
        newErrors := newErrors["registrationNo" := "Registration number is required"];
      }
      assert ErrorsAgreeOn(formData, newErrors, "registrationNo");

      if !Truthy(formData, "name") {
        newErrors := newErrors["name" := "Name is required"];
      }
      assert ErrorsAgreeOn(formData, newErrors, "name");

      if !Truthy(formData, "class") {
        newErrors := newErrors["class" := "Class is required"];
      }
      assert ErrorsAgreeOn(formData, newErrors, "class");

      if !Truthy(formData, "rollNo") {
        newErrors := newErrors["rollNo" := "Roll number is required"];
      } else if !IsNumeric(formData["rollNo"]) {
        newErrors := newErrors["rollNo" := "Roll number must be a number"];
      }
      assert ErrorsAgreeOn(formData, newErrors, "rollNo");

      if !Truthy(formData, "contactNumber") {
        newErrors := newErrors["contactNumber" := "Contact number is required"];
      }
      assert ErrorsAgreeOn(formData, newErrors, "contactNumber");
      assert ErrorsAgreeOn(formData, newErrors, "registrationNo") && ErrorsAgreeOn(formData, newErrors, "name")
          && ErrorsAgreeOn(formData, newErrors, "class") && ErrorsAgreeOn(formData, newErrors, "rollNo");
      assert forall k :: k in newErrors ==> k in TextFields;

      SameErrors(formData, newErrors);
      errors := newErrors;
      ok := |newErrors| == 0;
    }

    /**
     * `handleSubmit`: validates, and only a form that passes is sent; the
     * request body is the form state as it stands.
     */
    method HandleSubmit() returns (request: Option<Form>)
      modifies this
      ensures formData == old(formData)
      ensures errors == ValidationErrors(formData)
      ensures request.None? <==> !FormComplete(formData)
      ensures request.Some? ==> request.value == formData
    {
      var ok := Validate();
      if !ok {
        return None;
      }
      request := Some(formData);
    }
  }

  /** `e` holds exactly the message `FieldError` gives input `key`, or no entry when it gives none. */
  ghost predicate ErrorsAgreeOn(form: Form, e: Errors, key: string)
    requires key in TextFields
  {
    (key in e <==> FieldError(form, key).Some?) && (key in e ==> e[key] == FieldError(form, key).value)
  }

  /** An error dictionary that agrees with `FieldError` on each of the five inputs, and has no other key, is the one validation produces. */
  lemma SameErrors(form: Form, e: Errors)
    requires forall k :: k in e ==> k in TextFields
    requires ErrorsAgreeOn(form, e, "registrationNo") && ErrorsAgreeOn(form, e, "name") && ErrorsAgreeOn(form, e, "class")
    requires ErrorsAgreeOn(form, e, "rollNo") && ErrorsAgreeOn(form, e, "contactNumber")
    ensures e == ValidationErrors(form)
  {
    var spec := ValidationErrors(form);
    forall k | k in TextFields
      ensures (k in e <==> k in spec) && (k in e ==> e[k] == spec[k])
    {
      assert k == "registrationNo" || k == "name" || k == "class" || k == "rollNo" || k == "contactNumber";
    }
    assert e.Keys == spec.Keys;
  }

  /** Validation never looks at the status checkbox. */
  lemma StatusNotValidated(form: Form, v: FormValue)
    ensures ValidationErrors(form["status" := v]) == ValidationErrors(form)
  {
    var f := form["status" := v];
    assert forall k :: k in TextFields ==> k != "status" && (k in f <==> k in form) && (k in form ==> f[k] == form[k]);
    assert forall k :: k in TextFields ==> FieldError(f, k) == FieldError(form, k);
  }

  /** The untouched form fails validation with every required message, so submitting it sends nothing. */
  lemma InitialFormRejected()
    ensures ValidationErrors(InitialForm()) == RequiredMessages
    ensures !FormComplete(InitialForm())
  {
    var r := ValidationErrors(InitialForm());
    assert r.Keys == RequiredMessages.Keys;
  }

  /** Once an input is edited, no error is shown for it, and every other input's error stays as it was. */
  lemma EditClearsOnlyThatError(errors: Errors, key: string, other: string)
    requires other != key
    ensures !ErrorShown(ClearError(errors, key), key)
    ensures ErrorShown(ClearError(errors, key), other) <==> ErrorShown(errors, other)
  {
  }
}
