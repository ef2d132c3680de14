/**
 * The decision that `validateField` takes for one form control: trim the
 * value, reject a required control left empty, and otherwise let the pattern
 * named after the control decide about a non-empty value.
 */
module Validation {
  import opened Wrappers
  import opened Text
  import opened Patterns

  /** The keys of the `patterns` table. */
  datatype Pattern = NamePat | EmailPat | PhonePat

  /** `patterns[fieldName]`: the pattern registered under a control's name, if any. */
  function PatternFor(fieldName: string): (p: Option<Pattern>)
    ensures p.Some? <==> fieldName == "name" || fieldName == "email" || fieldName == "phone"
  {
    if fieldName == "name" then Some(NamePat)
    else if fieldName == "email" then Some(EmailPat)
    else if fieldName == "phone" then Some(PhonePat)
    else None
  }

  /** `patterns[...].test(value)`. No pattern accepts fewer than two characters. */
  predicate Test(p: Pattern, value: string): (ok: bool)
    ensures ok ==> |value| >= 2
  {
    match p
    case NamePat => NamePattern(value)
    case EmailPat => EmailPattern(value)
    case PhonePat => PhonePattern(value)
  }

  /**
   * Whether `validateField` finds a control valid, from its name, its raw value
   * and its `required` attribute. The trimmed value must be non-empty when the
   * control is required, and a non-empty trimmed value must pass the control's
   * pattern when there is one.
   */
  function FieldValid(fieldName: string, raw: string, required: bool): (isValid: bool)
    ensures isValid <==>
      (required ==> Trim(raw) != []) &&
      (Trim(raw) != [] && PatternFor(fieldName).Some? ==> Test(PatternFor(fieldName).value, Trim(raw)))
  {
    var value := Trim(raw);
    var isValid := !(required && value == []);
    if value != [] && PatternFor(fieldName).Some? then Test(PatternFor(fieldName).value, value)
    else isValid
  }

  /**
   * The four cases of the decision, stated on the raw value: a blank value is
   * valid exactly when the control is optional; a non-blank value without a
   * pattern is valid; a non-blank value with a pattern is valid exactly when
   * the pattern accepts its trimmed form.
   */
  lemma FieldValidCases(fieldName: string, raw: string, required: bool)
    ensures AllWs(raw) ==> (FieldValid(fieldName, raw, required) <==> !required)
    ensures !AllWs(raw) && PatternFor(fieldName).None? ==> FieldValid(fieldName, raw, required)
    ensures !AllWs(raw) && PatternFor(fieldName).Some? ==>
      (FieldValid(fieldName, raw, required) <==> Test(PatternFor(fieldName).value, Trim(raw)))
  {
    TrimEmptyIff(raw);
  }

  /** A non-blank email value is valid exactly when its trimmed form has one `@`, a local part, an inner dot in the domain and no whitespace. */
  lemma EmailFieldValid(raw: string, required: bool)
    requires !AllWs(raw)
    ensures FieldValid("email", raw, required) <==> SingleAtDottedDomain(Trim(raw))
  {
    TrimEmptyIff(raw);
    EmailPatternCharacterized(Trim(raw));
  }

  /**
   * A non-blank name control that passes is two to fifty characters long once
   * trimmed, and starts and ends with an ASCII letter.
   */
  lemma NameFieldValid(raw: string, required: bool)
    requires !AllWs(raw) && FieldValid("name", raw, required)
    ensures var v := Trim(raw);
      2 <= |v| <= 50 && IsAsciiLetter(v[0]) && IsAsciiLetter(v[|v| - 1])
  {
    FieldValidCases("name", raw, required);
    TrimEmptyIff(raw);
  }

  /** Trimming a string of phone characters leaves phone characters. */
  lemma TrimKeepsPhoneChars(s: string)
    requires AllPhoneChars(s)
    ensures AllPhoneChars(Trim(s))
  {
    var v := Trim(s);
    TrimIsSlice(s);
    var i, j :| 0 <= i <= j <= |s| && v == s[i..j] && AllWs(s[..i]) && AllWs(s[j..]);
    forall k | 0 <= k < |v| ensures IsPhoneChar(v[k]) {
      assert v[k] == s[i + k];
    }
  }

  /**
   * After the phone input's filter has run, only the length of the trimmed
   * value can make the phone control invalid.
   */
  lemma SanitizedPhoneValid(raw: string, required: bool)
    ensures var v := Trim(Sanitize(raw));
      FieldValid("phone", Sanitize(raw), required) <==> if v == [] then !required else 10 <= |v| <= 15
  {
    var v := Trim(Sanitize(raw));
    TrimKeepsPhoneChars(Sanitize(raw));
    assert PatternFor("phone") == Some(PhonePat);
    assert Test(PhonePat, v) <==> 10 <= |v| <= 15;
  }

  /** Worked examples for the phone control. */
  lemma PhoneFieldExamples()
    ensures FieldValid("phone", "123-456-7890", true)
    ensures !FieldValid("phone", "abc", true) && !FieldValid("phone", "abc", false)
    ensures !FieldValid("phone", "12345", true) && !FieldValid("phone", "12345", false)
  {
    TrimOfTrimmed("123-456-7890");
    TrimOfTrimmed("abc");
    TrimOfTrimmed("12345");
    PatternExamples();
  }

  /** Worked example for the name control: surrounding blanks are trimmed before the pattern runs. */
  lemma NameFieldExample()
    ensures FieldValid("name", " John Doe ", true)
  {
    var raw := " John Doe ";
    assert IsWs(raw[0]) && !IsWs(raw[1]);
    assert TrimStart(raw) == raw[1..];
    assert IsWs(raw[|raw| - 1]) && !IsWs(raw[|raw| - 2]);
    assert TrimEnd(raw[1..]) == raw[1..|raw| - 1];
    assert raw[1..|raw| - 1] == "John Doe";
    PatternExamples();
    assert PatternFor("name") == Some(NamePat);
  }

  /** Worked example for the name control: a required value of blanks only is missing. */
  lemma BlankNameExample()
    ensures !FieldValid("name", "   ", true)
  {
    assert AllWs("   ");
    TrimEmptyIff("   ");
  }

  /** Worked example for the email control: a value without `@` is rejected. */
  lemma EmailFieldExample()
    ensures !FieldValid("email", "bad-email", true)
  {
    TrimOfTrimmed("bad-email");
    EmailRejects();
    assert PatternFor("email") == Some(EmailPat);
  }

  /** Worked examples for controls without a pattern: only the required check applies. */
  lemma UnpatternedFieldExamples()
    ensures FieldValid("message", "", false) && !FieldValid("message", "", true)
    ensures FieldValid("testRequirement", "anything at all", true)
  {
    TrimOfTrimmed("anything at all");
  }
}
