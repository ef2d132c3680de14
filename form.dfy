/**
 * The inquiry form's state and its three handlers: blur (which runs
 * `validateField`), input (which may only clear error flags, followed on the
 * phone input by the character filter) and submit (which validates every
 * required control, picks the control to focus, or shapes the record).
 *
 * The page is described by value: the controls of the form in document
 * order, one `has-error` flag per `.form-group` element (controls in the same
 * group share one flag, as they share one element), and which control, if
 * any, is the element with id `phone`. The class `Form` holds that state and
 * updates it in place; the functions below say what each update computes.
 */
module FormPage {
  import opened Wrappers
  import opened Text
  import opened Patterns
  import opened Validation

  /** The attributes of an `input`, `select` or `textarea` that no modelled handler changes. */
  datatype Control = Control(
    name: string,        // the `name` attribute: it selects the pattern and the form-data key
    required: bool,      // the `required` attribute
    group: Option<nat>,  // the closest `.form-group` ancestor, as an index into the group flags
    submits: bool)       // whether the form data holds an entry for it (false for an unchecked radio button)

  /**
   * The form in document order: each control with its current value and its
   * `error` class, the `has-error` class of each form group, and which
   * control, if any, is the phone input.
   */
  datatype Page = Page(
    controls: seq<Control>,
    values: seq<string>,
    errors: seq<bool>,
    groupError: seq<bool>,
    phoneInput: Option<nat>)

  /** One value and one flag per control; every group index and the phone-input index point into the page. */
  predicate WellFormed(p: Page)
  {
    |p.values| == |p.controls| && |p.errors| == |p.controls| &&
    (forall i :: 0 <= i < |p.controls| && p.controls[i].group.Some? ==> p.controls[i].group.value < |p.groupError|) &&
    (p.phoneInput.Some? ==> p.phoneInput.value < |p.controls|)
  }

  /** What `validateField` decides about control `i` with its current value. */
  predicate ControlValid(p: Page, i: nat)
    requires i < |p.controls| && |p.values| == |p.controls|
  {
    FieldValid(p.controls[i].name, p.values[i], p.controls[i].required)
  }

  /** `q` is `p` except perhaps for the `error` and `has-error` flags. */
  predicate OnlyFlagsDiffer(p: Page, q: Page)
  {
    q.controls == p.controls && q.values == p.values && q.phoneInput == p.phoneInput &&
    |q.errors| == |p.errors| && |q.groupError| == |p.groupError|
  }

  /**
   * The "update UI" step of `validateField` for control `i` with verdict
   * `isValid`: when the control sits in a form group, the group's `has-error`
   * and the control's `error` both become `!isValid`; without a group nothing
   * changes. No other control or group is touched.
   */
  function ShowValidity(p: Page, i: nat, isValid: bool): (q: Page)
    requires WellFormed(p) && i < |p.controls|
    ensures WellFormed(q) && OnlyFlagsDiffer(p, q)
    ensures p.controls[i].group.None? ==> q == p
    ensures p.controls[i].group.Some? ==>
      q.errors[i] == !isValid && q.groupError[p.controls[i].group.value] == !isValid
    ensures forall j :: 0 <= j < |p.controls| && j != i ==> q.errors[j] == p.errors[j]
    ensures forall h :: 0 <= h < |p.groupError| && p.controls[i].group != Some(h) ==> q.groupError[h] == p.groupError[h]
  {
    match p.controls[i].group
    case None => p
    case Some(g) => p.(errors := p.errors[i := !isValid], groupError := p.groupError[g := !isValid])
  }

  /** The effect of `validateField` on control `i`: its verdict, shown on its flags. */
  function Validate(p: Page, i: nat): (q: Page)
    requires WellFormed(p) && i < |p.controls|
    ensures WellFormed(q) && OnlyFlagsDiffer(p, q)
    ensures p.controls[i].group.None? ==> q == p
    ensures p.controls[i].group.Some? ==>
      q.errors[i] == !ControlValid(p, i) && q.groupError[p.controls[i].group.value] == !ControlValid(p, i)
    ensures forall j :: 0 <= j < |p.controls| && j != i ==> q.errors[j] == p.errors[j]
    ensures forall h :: 0 <= h < |p.groupError| && p.controls[i].group != Some(h) ==> q.groupError[h] == p.groupError[h]
  {
    ShowValidity(p, i, ControlValid(p, i))
  }

  /** Validating a control twice in a row leaves the same flags as validating it once. */
  lemma ValidateIdempotent(p: Page, i: nat)
    requires WellFormed(p) && i < |p.controls|
    ensures Validate(Validate(p, i), i) == Validate(p, i)
  {
    var q := Validate(p, i);
    assert ControlValid(q, i) == ControlValid(p, i);
  }

  /**
   * The effect of typing `typed` into control `i`: the browser stores the value;
   * the clearing listener removes both flags when the group has `has-error` and
   * the trimmed value is non-empty; then, on the phone input, the filter
   * replaces the value by its allowed characters. The listeners run in the
   * order they were registered, so the clearing test sees the unfiltered value.
   */
  function Input(p: Page, i: nat, typed: string): (q: Page)
    requires WellFormed(p) && i < |p.controls|
    ensures WellFormed(q) && q.controls == p.controls && q.phoneInput == p.phoneInput
    ensures q.values == p.values[i := if p.phoneInput == Some(i) then Sanitize(typed) else typed]
    ensures |q.groupError| == |p.groupError|
  {
    var g := p.controls[i].group;
    var clear := g.Some? && p.groupError[g.value] && Trim(typed) != [];
    var stored := if p.phoneInput == Some(i) then Sanitize(typed) else typed;
    Page(
      p.controls,
      p.values[i := stored],
      if clear then p.errors[i := false] else p.errors,
      if clear then p.groupError[g.value := false] else p.groupError,
      p.phoneInput)
  }

  /** The input handler never sets a flag: every flag set afterwards was set before. */
  lemma InputOnlyClears(p: Page, i: nat, typed: string)
    requires WellFormed(p) && i < |p.controls|
    ensures var q := Input(p, i, typed);
      (forall j :: 0 <= j < |p.controls| && q.errors[j] ==> p.errors[j]) &&
      (forall h :: 0 <= h < |p.groupError| && q.groupError[h] ==> p.groupError[h])
  {
  }

  /**
   * The input handler clears the control's flag and its group's flag exactly
   * when the group had `has-error` and the typed value is not blank; whether
   * the value now passes its pattern plays no part. Nothing else changes.
   */
  lemma InputClearsWhen(p: Page, i: nat, typed: string)
    requires WellFormed(p) && i < |p.controls| && p.controls[i].group.Some?
    ensures var q := Input(p, i, typed);
      var g := p.controls[i].group.value;
      var clears := p.groupError[g] && !AllWs(typed);
      q.groupError[g] == (p.groupError[g] && !clears) &&
      q.errors[i] == (p.errors[i] && !clears) &&
      (forall h :: 0 <= h < |p.groupError| && h != g ==> q.groupError[h] == p.groupError[h]) &&
      (forall j :: 0 <= j < |p.controls| && j != i ==> q.errors[j] == p.errors[j])
  {
    TrimEmptyIff(typed);
  }

  /** A control outside every form group keeps its flags whatever is typed. */
  lemma InputWithoutGroup(p: Page, i: nat, typed: string)
    requires WellFormed(p) && i < |p.controls| && p.controls[i].group.None?
    ensures var q := Input(p, i, typed);
      q.errors == p.errors && q.groupError == p.groupError
  {
  }

  /** Typing a digit into a flagged name control clears its flags although the name is still invalid. */
  lemma InputClearsInvalidValue()
    ensures var p := Page([Control("name", true, Some(0), true)], [""], [true], [true], None);
      var q := Input(p, 0, "7");
      !ControlValid(q, 0) && !q.errors[0] && !q.groupError[0]
  {
    var p := Page([Control("name", true, Some(0), true)], [""], [true], [true], None);
    var q := Input(p, 0, "7");
    assert q.values[0] == "7";
    TrimOfTrimmed("7");
    assert Trim("7") != [];
    assert PatternFor("name") == Some(NamePat);
    assert !NamePattern("7");
  }

  /**
   * An edit that makes the value valid, followed by the blur that validates
   * the control, leaves neither the control nor its group flagged.
   */
  lemma EditThenBlurClears(p: Page, i: nat, typed: string)
    requires WellFormed(p) && i < |p.controls| && p.controls[i].group.Some?
    requires ControlValid(Input(p, i, typed), i)
    ensures var q := Validate(Input(p, i, typed), i);
      !q.errors[i] && !q.groupError[p.controls[i].group.value]
  {
  }

  /** Control `k` is required and sits in group `h`. */
  predicate RequiredIn(p: Page, h: nat, k: nat)
  {
    k < |p.controls| && p.controls[k].required && p.controls[k].group == Some(h)
  }

  /** Control `k` is the last required control of group `h` among the first `n`. */
  predicate LastRequiredIn(p: Page, h: nat, k: nat, n: nat)
  {
    k < n && RequiredIn(p, h, k) && forall j :: k < j < n ==> !RequiredIn(p, h, j)
  }

  /**
   * The submit handler's loop over the first `n` controls: each required one
   * is validated in document order, none is skipped.
   */
  function ValidateRequired(p: Page, n: nat): (q: Page)
    requires WellFormed(p) && n <= |p.controls|
    ensures WellFormed(q) && OnlyFlagsDiffer(p, q)
  {
    if n == 0 then p
    else
      var q := ValidateRequired(p, n - 1);
      if q.controls[n - 1].required then Validate(q, n - 1) else q
  }

  /**
   * The flag of control `j` after the submit loop: a required control in a
   * group ends flagged exactly when it is invalid; every other control keeps
   * its flag.
   */
  lemma {:induction false} ValidateRequiredErrors(p: Page, n: nat, j: nat)
    requires WellFormed(p) && n <= |p.controls| && j < |p.controls|
    ensures ValidateRequired(p, n).errors[j] ==
      if j < n && p.controls[j].required && p.controls[j].group.Some? then !ControlValid(p, j)
      else p.errors[j]
  {
    if n > 0 {
      ValidateRequiredErrors(p, n - 1, j);
    }
  }

  /**
   * The group flags after the submit loop: a group holding required controls
   * ends with the verdict on the last of them in document order.
   */
  lemma {:induction false} ValidateRequiredGroups(p: Page, n: nat, h: nat, k: nat)
    requires WellFormed(p) && n <= |p.controls| && h < |p.groupError|
    requires LastRequiredIn(p, h, k, n)
    ensures ValidateRequired(p, n).groupError[h] == !ControlValid(p, k)
  {
    if k < n - 1 {
      assert !RequiredIn(p, h, n - 1);
      ValidateRequiredGroups(p, n - 1, h, k);
    }
  }

  /** A group without a required control keeps its flag through the submit loop. */
  lemma {:induction false} ValidateRequiredUntouched(p: Page, n: nat, h: nat)
    requires WellFormed(p) && n <= |p.controls| && h < |p.groupError|
    requires forall k :: 0 <= k < n ==> !RequiredIn(p, h, k)
    ensures ValidateRequired(p, n).groupError[h] == p.groupError[h]
  {
    if n > 0 {
      assert !RequiredIn(p, h, n - 1);
      ValidateRequiredUntouched(p, n - 1, h);
    }
  }

  /** Every required control passes `validateField`. */
  predicate RequiredValid(p: Page)
    requires WellFormed(p)
  {
    forall j :: 0 <= j < |p.controls| && p.controls[j].required ==> ControlValid(p, j)
  }

  /** Every required control among the first `n` passes `validateField`, accumulated in document order as the submit loop does. */
  predicate RequiredValidBelow(p: Page, n: nat)
    requires WellFormed(p) && n <= |p.controls|
  {
    n == 0 || (RequiredValidBelow(p, n - 1) && (p.controls[n - 1].required ==> ControlValid(p, n - 1)))
  }

  /** The accumulated flag is the universal statement over the first `n` controls. */
  lemma {:induction false} RequiredValidBelowAll(p: Page, n: nat)
    requires WellFormed(p) && n <= |p.controls|
    ensures RequiredValidBelow(p, n) <==> forall j :: 0 <= j < n && p.controls[j].required ==> ControlValid(p, j)
  {
    if n > 0 {
      RequiredValidBelowAll(p, n - 1);
    }
  }

  /**
   * When a required control inside a form group fails, the submit loop leaves
   * it flagged, so the form has a control to focus.
   */
  lemma FailureLeavesFlag(p: Page, k: nat)
    requires WellFormed(p) && k < |p.controls|
    requires p.controls[k].required && p.controls[k].group.Some? && !ControlValid(p, k)
    ensures ValidateRequired(p, |p.controls|).errors[k]
  {
    ValidateRequiredErrors(p, |p.controls|, k);
  }

  /** `focus` is the first control in document order carrying the `error` class, or none if none does. */
  predicate FirstFlagged(errors: seq<bool>, focus: Option<nat>)
  {
    match focus
    case None => forall j :: 0 <= j < |errors| ==> !errors[j]
    case Some(k) => k < |errors| && errors[k] && forall j :: 0 <= j < k ==> !errors[j]
  }

  /** `querySelector('.error')` within the form: the first flagged control. */
  method FindFirstError(errors: seq<bool>) returns (focus: Option<nat>)
    ensures FirstFlagged(errors, focus)
  {
    var i := 0;
    while i < |errors|
      invariant i <= |errors|
      invariant forall j :: 0 <= j < i ==> !errors[j]
    {
      if errors[i] {
        return Some(i);
      }
      i := i + 1;
    }
    return None;
  }

  /** Control `j` contributes an entry named `key` to the form data. */
  predicate HasEntry(controls: seq<Control>, j: nat, key: string)
  {
    j < |controls| && controls[j].submits && controls[j].name == key
  }

  /**
   * `FormData.get(key)`: the value of the first control in document order that
   * contributes an entry named `key`, or none (JavaScript's `null`).
   */
  function FormDataGet(controls: seq<Control>, values: seq<string>, key: string): (entry: Option<string>)
    requires |values| == |controls|
    ensures entry.None? <==> forall j :: 0 <= j < |controls| ==> !HasEntry(controls, j, key)
    ensures entry.Some? ==> exists k :: (0 <= k < |controls| && HasEntry(controls, k, key) &&
      values[k] == entry.value && forall j :: 0 <= j < k ==> !HasEntry(controls, j, key))
  {
    if controls == [] then None
    else if controls[0].submits && controls[0].name == key then
      assert HasEntry(controls, 0, key);
      Some(values[0])
    else
      var rest := FormDataGet(controls[1..], values[1..], key);
      assert forall j :: 1 <= j < |controls| ==> (HasEntry(controls, j, key) <==> HasEntry(controls[1..], j - 1, key));
      if rest.Some? then
        var k :| 0 <= k < |controls[1..]| && HasEntry(controls[1..], k, key) && values[1..][k] == rest.value &&
          forall j :: 0 <= j < k ==> !HasEntry(controls[1..], j, key);
        assert HasEntry(controls, k + 1, key) && values[k + 1] == rest.value;
        rest
      else
        assert !HasEntry(controls, 0, key);
        rest
  }

  /** The `homeCollection` entry of the record: `"Yes"` for the raw value `"yes"` only. */
  function HomeCollection(raw: Option<string>): (mapped: string)
    ensures mapped == "Yes" || mapped == "No"
    ensures mapped == "Yes" <==> raw == Some("yes")
  {
    if raw == Some("yes") then "Yes" else "No"
  }

  /** The comparison is exact: `"no"`, a missing entry and even `"Yes"` give `"No"`. */
  lemma HomeCollectionExamples()
    ensures HomeCollection(Some("yes")) == "Yes"
    ensures HomeCollection(Some("no")) == "No" && HomeCollection(None) == "No"
    ensures HomeCollection(Some("Yes")) == "No"
  {
    assert "Yes" != "yes" by { assert "Yes"[0] != "yes"[0]; }
  }

  /** The record shaped on a successful submit; `timestamp` is the submission time, supplied by the caller. */
  datatype Submission = Submission(
    name: Option<string>,
    phone: Option<string>,
    email: Option<string>,
    testRequirement: Option<string>,
    message: Option<string>,
    homeCollection: string,
    timestamp: string)

  /** The record built from the form data: raw entries, with `homeCollection` mapped to a label. */
  function Collect(p: Page, timestamp: string): (record: Submission)
    requires WellFormed(p)
    ensures record.name == FormDataGet(p.controls, p.values, "name")
    ensures record.email == FormDataGet(p.controls, p.values, "email")
    ensures record.phone == FormDataGet(p.controls, p.values, "phone")
    ensures record.message == FormDataGet(p.controls, p.values, "message")
    ensures record.testRequirement == FormDataGet(p.controls, p.values, "testRequirement")
    ensures record.homeCollection == HomeCollection(FormDataGet(p.controls, p.values, "homeCollection"))
    ensures record.timestamp == timestamp
  {
    Submission(
      FormDataGet(p.controls, p.values, "name"),
      FormDataGet(p.controls, p.values, "phone"),
      FormDataGet(p.controls, p.values, "email"),
      FormDataGet(p.controls, p.values, "testRequirement"),
      FormDataGet(p.controls, p.values, "message"),
      HomeCollection(FormDataGet(p.controls, p.values, "homeCollection")),
      timestamp)
  }

  /** What a submit ends in: rejected, with the control to focus if any, or accepted with its record. */
  datatype SubmitOutcome = Rejected(focus: Option<nat>) | Accepted(record: Submission)

  /** The inquiry form, whose handlers update the values and class lists in place. */
  class Form {
    const controls: seq<Control>
    var values: seq<string>
    var errors: seq<bool>
    var groupError: seq<bool>
    const phoneInput: Option<nat>

    ghost function State(): Page
      reads this
    {
      Page(controls, values, errors, groupError, phoneInput)
    }

    ghost predicate Valid()
      reads this
    {
      WellFormed(State())
    }

    constructor (p: Page)
      requires WellFormed(p)
      ensures Valid() && State() == p
    {
      controls := p.controls;
      values := p.values;
      errors := p.errors;
      groupError := p.groupError;
      phoneInput := p.phoneInput;
    }

    /** `validateField` on control `i`, which is also what the blur handler runs. */
    method ValidateField(i: nat) returns (isValid: bool)
      requires Valid() && i < |controls|
      modifies this
      ensures Valid()
      ensures isValid == ControlValid(old(State()), i)
      ensures State() == Validate(old(State()), i)
    {
      var field := controls[i];
      var value := Trim(values[i]);
      isValid := true;
      if field.required && value == [] {
        isValid := false;
      }
      var pattern := PatternFor(field.name);
      if value != [] && pattern.Some? {
        isValid := Test(pattern.value, value);
      }
      match field.group {
        case Some(g) =>
          if !isValid {
            groupError := groupError[g := true];
            errors := errors[i := true];
          } else {
            groupError := groupError[g := false];
            errors := errors[i := false];
          }
        case None =>
      }
    }

    /** The input event on control `i`, after the user's edit left `typed` as its value. */
    method OnInput(i: nat, typed: string)
      requires Valid() && i < |controls|
      modifies this
      ensures Valid()
      ensures State() == Input(old(State()), i, typed)
    {
      values := values[i := typed];
      var group := controls[i].group;
      if group.Some? && groupError[group.value] {
        if Trim(values[i]) != [] {
          groupError := groupError[group.value := false];
          errors := errors[i := false];
        }
      }
      if phoneInput == Some(i) {
        values := values[i := Sanitize(values[i])];
      }
    }

    /**
     * The first half of the submit handler: `validateField` on every required
     * control in document order, without stopping at the first failure. The
     * result is whether all of them passed.
     */
    method ValidateRequiredFields() returns (isFormValid: bool)
      requires Valid()
      modifies this
      ensures Valid()
      ensures State() == ValidateRequired(old(State()), |controls|)
      ensures isFormValid <==> RequiredValid(old(State()))
    {
      ghost var p0 := State();
      isFormValid := true;
      var i := 0;
      while i < |controls|
        invariant Valid() && i <= |controls|
        invariant State() == ValidateRequired(p0, i)
        invariant isFormValid == RequiredValidBelow(p0, i)
      {
        if controls[i].required {
          var fieldValid := ValidateField(i);
          isFormValid := isFormValid && fieldValid;
        }
        i := i + 1;
      }
      RequiredValidBelowAll(p0, |controls|);
    }

    /**
     * The submit handler: validate every required control, then either report
     * the first flagged control or build the record. No record is built unless
     * every required control is valid.
     */
    method Submit(timestamp: string) returns (outcome: SubmitOutcome)
      requires Valid()
      modifies this
      ensures Valid()
      ensures State() == ValidateRequired(old(State()), |controls|)
      ensures outcome.Rejected? <==> !RequiredValid(old(State()))
      ensures outcome.Rejected? ==> FirstFlagged(errors, outcome.focus)
      ensures outcome.Accepted? ==> outcome.record == Collect(State(), timestamp)
    {
      var isFormValid := ValidateRequiredFields();
      if !isFormValid {
        var firstError := FindFirstError(errors);
        return Rejected(firstError);
      }
      return Accepted(Collect(Page(controls, values, errors, groupError, phoneInput), timestamp));
    }
  }

  /**
   * A worked example: a valid name and the email `bad-email`, both required
   * and in their own groups. Submitting rejects the
   * form and the email control is the first flagged one.
   */
  lemma SubmitExample()
    ensures var p := Page([Control("name", true, Some(0), true), Control("email", true, Some(1), true)],
                          ["John Doe", "bad-email"], [false, false], [false, false], None);
      WellFormed(p) && !RequiredValid(p) && FirstFlagged(ValidateRequired(p, 2).errors, Some(1))
  {
    var p := Page([Control("name", true, Some(0), true), Control("email", true, Some(1), true)],
                  ["John Doe", "bad-email"], [false, false], [false, false], None);
    TrimOfTrimmed("John Doe");
    PatternExamples();
    EmailFieldExample();
    assert ControlValid(p, 0);
    assert !ControlValid(p, 1);
    ValidateRequiredErrors(p, 2, 0);
    ValidateRequiredErrors(p, 2, 1);
  }
}
