# Inquiry form and navigation of the clinic site, in Dafny

This project models the client-side logic of the site's `script.js` that
decides something: validating the inquiry form, and marking the active
navigation link. That means:

- the three validation patterns (name, email, phone);
- `validateField`: trim the value, check a required control, then let the
  control's pattern decide;
- the `error` and `has-error` classes that `validateField` sets and clears;
- the input handler, which only ever clears those classes;
- the character filter of the phone input;
- the submit handler. It validates every required control, picks the first
  flagged control to focus, or shapes the submission record from the form
  data, including the `homeCollection` mapping;
- the page name taken from the location's path, and the loop that gives the
  `active` class to the matching navigation links.

Modules:

- `Wrappers` (wrappers.dfy): the optional value `Option`; `None` stands for
  JavaScript's `null`.
- `Text` (text.dfy): whitespace as ECMAScript defines it (`\s` and `trim`
  use the same set) and `trim`, with its slice characterisation.
- `Patterns` (patterns.dfy): the regular expressions as predicates. The email
  pattern is proved equal to a plain description: no whitespace, exactly one
  `@` with something before it, and an inner dot after it. The module also
  holds the phone filter and its algebra.
- `Validation` (validation.dfy): the verdict of `validateField`.
- `FormPage` (form.dfy): the form's state.
  - Controls in document order, their values, one `error` flag per control,
    one `has-error` flag per form group, and which control is the phone input.
  - The handlers as functions on that state.
  - A class `Form` whose methods (`ValidateField`, `OnInput`,
    `ValidateRequiredFields`, `Submit`) update the state in place and are
    proved against those functions.
- `Navigation` (navigation.dfy): `split('/')`, `pop()`, the page name and the
  link-marking loop over `NavLink` objects.

The current time, which the record's `timestamp` holds, is a parameter of
`Submit`. So is the location's path, for `MarkCurrentPage`.

## Model

| member | source | states |
|---|---|---|
| Text.IsWs | script.js:111 | ECMAScript WhiteSpace plus LineTerminator, the one set that both `\s` (script.js:104-106, 299) and `trim()` use |
| Text.Trim | script.js:111 | `trim()` never lengthens the value and leaves no whitespace at either end |
| Text.TrimStartSpec | script.js:111 | the leading-trim step leaves a suffix of the value, not starting with whitespace, after a prefix of whitespace only |
| Text.TrimEndSpec | script.js:111 | the trailing-trim step leaves a prefix of the value, not ending with whitespace, before a suffix of whitespace only |
| Text.TrimIsSlice | script.js:111 | `trim()` returns a slice of the value with whitespace only outside it and no whitespace at either end |
| Text.TrimEmptyIff | script.js:117 | the trimmed value is `''` exactly when the raw value is all whitespace (or empty) |
| Text.TrimOfTrimmed | script.js:111 | trimming a value without whitespace at its ends leaves it unchanged |
| Text.TrimIdempotent | script.js:111 | trimming twice is trimming once |
| Patterns.IsPhoneChar | script.js:106 | the class `[\d\s\-\+\(\)]` shared by the phone pattern and the filter at script.js:299: an ASCII digit, whitespace, `-`, `+`, `(` or `)` |
| Patterns.NamePattern | script.js:104 | the name pattern: two to fifty characters, each an ASCII letter or whitespace |
| Patterns.EmailPattern | script.js:105 | the email pattern: a run, `@`, a run, `.`, a run, each run non-empty and free of whitespace and `@`, the split points chosen as the regular expression may choose them |
| Patterns.PhonePattern | script.js:106 | the phone pattern: ten to fifteen characters, each a digit, whitespace, `-`, `+`, `(` or `)` |
| Patterns.EmailPatternSound | script.js:105 | every string the email pattern accepts has no whitespace, exactly one `@`, a non-empty part before it and an inner dot in the part after it |
| Patterns.EmailPatternComplete | script.js:105 | every string with no whitespace, one `@` after a non-empty local part and an inner dot in the domain is accepted by the email pattern |
| Patterns.EmailPatternCharacterized | script.js:105 | the email pattern accepts exactly the strings with no whitespace, a single `@` after a non-empty local part and an inner dot in the domain |
| Patterns.EmailAccepts | script.js:105 | `john@example.com` matches the email pattern |
| Patterns.EmailRejects | script.js:105 | `bad-email` (no `@`), `a@b.` (dot at the end) and `a@@b.c` (two `@`) do not match |
| Patterns.PatternExamples | script.js:104-106 | the phone pattern takes `123-456-7890` and `+1 (555) 010-99` and refuses `abc` and `12345`; the name pattern takes `John Doe` and refuses `J` and `J0hn` |
| Patterns.Sanitize | script.js:299 | the filtered phone value is no longer than the typed one and holds only digits, whitespace, `-`, `+`, `(` and `)` |
| Patterns.SanitizeAppend | script.js:299 | the filter distributes over concatenation, so it keeps the allowed characters in their order |
| Patterns.SanitizeKeepsAllowed | script.js:299 | every allowed character keeps its number of occurrences and every other character disappears |
| Patterns.SanitizeIdentity | script.js:299 | a value made only of allowed characters passes the filter unchanged |
| Patterns.SanitizeIdempotent | script.js:299 | filtering twice is filtering once |
| Validation.PatternFor | script.js:103-107 | a control has a pattern exactly when its name is `name`, `email` or `phone` |
| Validation.Test | script.js:123 | `patterns[fieldName].test(value)` for the control's pattern; no pattern accepts a value shorter than two characters |
| Validation.FieldValid | script.js:110-124 | a control is valid exactly when its trimmed value is non-empty if it is required, and a non-empty trimmed value matches the control's pattern if it has one |
| Validation.FieldValidCases | script.js:114-124 | a blank value is valid exactly when the control is optional; a non-blank value without a pattern is valid; a non-blank value with a pattern is valid exactly when the pattern accepts its trimmed form |
| Validation.EmailFieldValid | script.js:122-123 | a non-blank email control is valid exactly when its trimmed value has no whitespace, a single `@` after a non-empty local part and an inner dot in the domain |
| Validation.NameFieldValid | script.js:104 | a non-blank name control that passes has a trimmed value of two to fifty characters that starts and ends with an ASCII letter |
| Validation.TrimKeepsPhoneChars | script.js:111 | trimming a value made of phone characters leaves phone characters |
| Validation.SanitizedPhoneValid | script.js:117-123 | once the filter has run, the phone control is invalid only when blank and required or when its trimmed length is outside 10..15 |
| Validation.PhoneFieldExamples | script.js:110-124 | a required phone `123-456-7890` is valid; `abc` and `12345` are not, required or not |
| Validation.NameFieldExample | script.js:111-123 | ` John Doe ` is a valid name because the pattern sees the trimmed value |
| Validation.BlankNameExample | script.js:117 | a required name of three spaces is invalid |
| Validation.EmailFieldExample | script.js:122-123 | `bad-email` is an invalid email |
| Validation.UnpatternedFieldExamples | script.js:117-123 | an empty optional message is valid, an empty required one is not, and a required `testRequirement` with any non-blank text is valid |
| FormPage.ShowValidity | script.js:127-135 | with a form group, the control's `error` and the group's `has-error` both become the negation of the verdict; without a group nothing changes; no other control or group is touched |
| FormPage.Validate | script.js:110-138 | `validateField` sets the control's and its group's flags to "invalid" exactly when the control fails, touches no other flag and no value |
| FormPage.ValidateIdempotent | script.js:110-138 | validating a control twice in a row leaves the same state as validating it once |
| FormPage.Input | script.js:148-156 | typing stores the value, filtered on the phone input, and changes nothing but that value and the flags |
| FormPage.InputOnlyClears | script.js:148-156 | the input handler never sets an `error` or `has-error` flag |
| FormPage.InputClearsWhen | script.js:149-154 | the control's and the group's flags are cleared exactly when the group had `has-error` and the typed value is not blank; every other flag stays |
| FormPage.InputWithoutGroup | script.js:149-150 | a control outside any form group keeps all flags whatever is typed |
| FormPage.InputClearsInvalidValue | script.js:151-154 | typing `7` into a flagged required name clears the flags although the name is still invalid |
| FormPage.EditThenBlurClears | script.js:143-145 | after an edit that makes the value valid, the blur leaves neither the control nor its group flagged |
| FormPage.ValidateRequired | script.js:166-171 | the submit loop over the required controls changes only the flags and keeps the page well formed |
| FormPage.ValidateRequiredErrors | script.js:166-171 | after the submit loop a required control in a group is flagged exactly when it is invalid, and every other control keeps its flag |
| FormPage.ValidateRequiredGroups | script.js:166-171 | after the submit loop a group holding required controls carries the verdict on the last of them in document order |
| FormPage.ValidateRequiredUntouched | script.js:166-171 | a group without required controls keeps its flag through the submit loop |
| FormPage.RequiredValidBelowAll | script.js:163-171 | the flag accumulated over the first `n` controls holds exactly when every required one among them is valid |
| FormPage.FailureLeavesFlag | script.js:173-177 | when a required control in a group fails, it is flagged after the loop, so there is a control to focus |
| FormPage.FindFirstError | script.js:175 | the control found is flagged and no earlier control is; no control is found only when none is flagged |
| FormPage.FormDataGet | script.js:183-189 | an entry is found exactly when some control contributes one under that name, and its value is that of the first such control |
| FormPage.HomeCollection | script.js:190 | the label is `Yes` or `No`, and `Yes` exactly when the raw entry is `yes` |
| FormPage.HomeCollectionExamples | script.js:190 | `yes` gives `Yes`; `no`, a missing entry and `Yes` give `No` |
| FormPage.Collect | script.js:183-192 | each field of the record is the first form-data entry of its name, `homeCollection` is mapped to its label and the timestamp is the one supplied |
| FormPage.Form.ValidateField | script.js:110-138 | returns the verdict on the control's current value and leaves the state as `validateField` does |
| FormPage.Form.OnInput | script.js:148-156 | the page after typing is what the input handler computes |
| FormPage.Form.ValidateRequiredFields | script.js:163-171 | the result is true exactly when every required control is valid, and every required control has been validated in document order |
| FormPage.Form.Submit | script.js:160-192 | the form is rejected exactly when some required control is invalid, with focus on the first flagged control; otherwise the record is built from the form data |
| FormPage.SubmitExample | script.js:160-179 | a valid name and the email `bad-email` are rejected, and the email control is the first flagged one |
| Navigation.Split | script.js:306 | `split('/')` gives at least one piece, and no piece holds a `/` |
| Navigation.SplitJoin | script.js:306 | joining the pieces with `/` gives back the path |
| Navigation.LastPiece | script.js:306 | `split('/').pop()`: the last piece, which never holds a `/` |
| Navigation.LastPieceIsSuffix | script.js:306 | `pop()` gives a suffix of the path without `/`: the whole path when it has no `/`, otherwise what follows a `/` |
| Navigation.LastPieceAfterSeparator | script.js:306 | the last piece of a path is what follows its final `/` |
| Navigation.CurrentPage | script.js:306 | the last piece, or `index.html` when it is empty; the page name is never empty and holds no `/` |
| Navigation.CurrentPageSpec | script.js:306 | the page name is never empty and holds no `/`; it is `index.html` for an empty path or one ending in `/`, and otherwise the part after the last `/` |
| Navigation.CurrentPageOfPath | script.js:306 | `/site/about.html` names the page `about.html` |
| Navigation.CurrentPageOfBareName | script.js:306 | `contact.html` names itself |
| Navigation.CurrentPageOfRoot | script.js:306 | `/` and the empty path name `index.html` |
| Navigation.MarkActiveLinks | script.js:309-316 | afterwards every navigation link is `active` exactly when its `href` equals the page name |
| Navigation.MarkCurrentPage | script.js:306-316 | every navigation link is `active` exactly when its `href` equals the page name of the given path |

## Left out

- The mobile menu toggle (script.js:12-43), the header shadow on scroll (script.js:48-65), smooth scrolling (script.js:70-93), scroll-triggered animations with `IntersectionObserver` (script.js:264-289) and the keyboard focus polyfill (script.js:321-328): they only change presentation and decide nothing about the form or the navigation links.
- Hiding the form and showing the success panel after a successful submit (script.js:245-248): presentation only.
- The delayed `inquiryForm.reset()` (script.js:251-257): it restores every control's default value after 5 s but leaves the `error` and `has-error` classes in place. It is driven by a timer and is not modelled.
- `console.log` of the record and the commented-out network submission: output and I/O.
- `new Date().toISOString()`: the timestamp is a parameter of `Submit`.
- `window.location.pathname`: the path is a parameter.
- The `focus()` call itself (script.js:177): the model returns which control gets focus. Moving the focus also fires `blur` on the control that had it, and that listener runs `validateField` on it (script.js:143-145). That extra validation is left out too, so the state after a rejected submit does not show, for example, an invalid optional control from which the form was submitted with Enter becoming flagged.
- `e.preventDefault()`, and event dispatch in general. The handlers are modelled as the state changes they make. Listeners on one input run in the order they were registered, so the clearing test sees the unfiltered value.
- `FormPage.Control`: `querySelectorAll('[required]')` is taken over the form's controls (`input`, `select`, `textarea`). A `required` attribute on any other element is not modelled.
- `FormPage.FindFirstError`: `querySelector('.error')` is taken over the form's controls. An `error` class on another element inside the form is not modelled.
- `Validation.PatternFor`: a control whose name is an inherited property of the `patterns` object (such as `constructor`) would make `patterns[fieldName].test` throw. The model treats such names like any other name without a pattern.
- `Text.IsWs`: strings are sequences of Unicode scalar values, not UTF-16 code units. A lone surrogate cannot be represented. For the characters the patterns and `trim` inspect, the two views agree.
- `FormPage.Control.submits`: which controls contribute a form-data entry (for example, only the checked radio button of a group) is an input to the model, not derived from control types.
- `Navigation.NavLink`: the `active` class is one boolean per link. A `href` attribute that is absent is `None`, which never equals the page name.
