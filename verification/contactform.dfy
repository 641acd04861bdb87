/** The contact form: three trimmed-input checks, the error text each field
    shows, and the submit guard that only lets a fully valid form through.
    Field values, the error texts and the success line are the form's
    whole state; listeners, the animation and the timer are left out. */
module ContactForm {
  import opened Text

  const NameError := "Please enter your name."
  const EmailError := "Please enter a valid email."
  const MessageError := "Please enter a short message (min 6 characters)."
  /** The success line; its wording is the page's own, although nothing is
      transmitted. */
  const SuccessText := "Message sent \U{2014} we will get back to you shortly."

  /** The length test the page applies to the name and the message, in its
      own order: reject an empty trimmed value, then one shorter than `min`
      code units. The emptiness test adds nothing once `min` is positive. */
  function LongEnough(value: string, min: nat): (ok: bool)
    requires min >= 1
    ensures ok <==> Utf16Length(Trim(value)) >= min
  {
    var t := Trim(value);
    !(t == [] || Utf16Length(t) < min)
  }

  /** The name check: at least two UTF-16 code units once trimmed, so a
      blank name never passes. */
  function NameValid(name: string): (ok: bool)
    ensures ok <==> Utf16Length(Trim(name)) >= 2
    ensures (forall k | 0 <= k < |name| :: IsWhitespace(name[k])) ==> !ok
  {
    if forall k | 0 <= k < |name| :: IsWhitespace(name[k]) then
      BlankRejected(name, 2);
      LongEnough(name, 2)
    else LongEnough(name, 2)
  }

  /** The message check: at least six UTF-16 code units once trimmed, so a
      blank message never passes. */
  function MessageValid(message: string): (ok: bool)
    ensures ok <==> Utf16Length(Trim(message)) >= 6
    ensures (forall k | 0 <= k < |message| :: IsWhitespace(message[k])) ==> !ok
  {
    if forall k | 0 <= k < |message| :: IsWhitespace(message[k]) then
      BlankRejected(message, 6);
      LongEnough(message, 6)
    else LongEnough(message, 6)
  }

  /** For text without astral characters the length test counts
      characters. */
  lemma LongEnoughCountsChars(value: string, min: nat)
    requires min >= 1
    requires forall k | 0 <= k < |value| :: value[k] <= '\U{FFFF}'
    ensures LongEnough(value, min) <==> |Trim(value)| >= min
  {
    var lo, hi := TrimBounds(value);
    var t := Trim(value);
    assert forall k | 0 <= k < |t| :: t[k] == value[lo + k];
  }

  /** A blank value (empty or whitespace only) never passes. */
  lemma BlankRejected(value: string, min: nat)
    requires min >= 1
    requires forall k | 0 <= k < |value| :: IsWhitespace(value[k])
    ensures !LongEnough(value, min)
  {
    TrimUnique(value, 0, 0);
  }

  /** A character the class `[^\s@]` admits. */
  predicate Plain(c: char) {
    !IsWhitespace(c) && c != '@'
  }

  predicate PlainIn(s: string, lo: int, hi: int)
    requires 0 <= lo <= hi <= |s|
  {
    forall k | lo <= k < hi :: Plain(s[k])
  }

  /** `s` matches `^[^\s@]+@[^\s@]+\.[^\s@]+$` with its `@` at `i` and the
      escaped dot at `j`. */
  ghost predicate PatternSplit(s: string, i: int, j: int) {
    && 0 < i && i + 1 < j && j + 1 < |s|
    && s[i] == '@' && s[j] == '.'
    && PlainIn(s, 0, i) && PlainIn(s, i + 1, j) && PlainIn(s, j + 1, |s|)
  }

  /** The page's email regular expression, as a predicate. */
  ghost predicate MatchesPattern(s: string) {
    exists i, j :: PatternSplit(s, i, j)
  }

  /** The first `@` at or after `from`, or `|s|`. */
  function FirstAt(s: string, from: nat): (r: nat)
    requires from <= |s|
    ensures from <= r <= |s|
    ensures forall k | from <= k < r :: s[k] != '@'
    ensures r < |s| ==> s[r] == '@'
    decreases |s| - from
  {
    if from < |s| && s[from] != '@' then FirstAt(s, from + 1) else from
  }

  lemma FirstAtUnique(s: string, r: nat)
    requires r < |s| && s[r] == '@'
    requires forall k | 0 <= k < r :: s[k] != '@'
    ensures FirstAt(s, 0) == r
  {
  }

  /** `L@D`: a non-empty local part `L` and a domain `D`, both free of
      whitespace and `@`, where `D` has a dot that is neither its first nor
      its last character. */
  predicate EmailShaped(s: string) {
    var i := FirstAt(s, 0);
    && 0 < i < |s|
    && PlainIn(s, 0, i)
    && PlainIn(s, i + 1, |s|)
    && exists k | i + 1 < k < |s| - 1 :: s[k] == '.'
  }

  /** The `L@D` form is exactly what the regular expression accepts. */
  lemma EmailShapedIffPattern(s: string)
    ensures EmailShaped(s) <==> MatchesPattern(s)
  {
    if EmailShaped(s) {
      var i := FirstAt(s, 0);
      var k :| i + 1 < k < |s| - 1 && s[k] == '.';
      assert PatternSplit(s, i, k);
    }
    if MatchesPattern(s) {
      var i, j :| PatternSplit(s, i, j);
      FirstAtUnique(s, i);
      assert Plain(s[j]);
      assert PlainIn(s, i + 1, |s|);
    }
  }

  /** A well-formed address holds exactly one `@`. */
  lemma EmailHasOneAt(s: string)
    requires EmailShaped(s)
    ensures Occurrences(s, '@') == 1
  {
    var i := FirstAt(s, 0);
    assert s == s[..i] + [s[i]] + s[i + 1..];
    assert '@' !in s[..i];
    assert '@' !in s[i + 1..];
  }

  /** The email check: the page's regular expression accepts the trimmed
      value, which then holds exactly one `@`. */
  function EmailValid(email: string): (ok: bool)
    ensures ok <==> MatchesPattern(Trim(email))
    ensures ok ==> Occurrences(Trim(email), '@') == 1
  {
    var t := Trim(email);
    EmailShapedIffPattern(t);
    if EmailShaped(t) then
      EmailHasOneAt(t);
      true
    else false
  }

  datatype Fields = Fields(name: string, email: string, message: string)
  datatype Field = Name | Email | Message

  /** The text each field's error element shows. */
  datatype Errors = Errors(name: string, email: string, message: string)

  const NoErrors := Errors("", "", "")

  datatype Validation = Validation(ok: bool, errors: Errors)

  /** All three checks, each always run, each setting its own error text. */
  function Validate(f: Fields): (v: Validation)
    ensures v.ok <==> NameValid(f.name) && EmailValid(f.email) && MessageValid(f.message)
    ensures v.errors.name in {"", NameError} && (v.errors.name == "" <==> NameValid(f.name))
    ensures v.errors.email in {"", EmailError} && (v.errors.email == "" <==> EmailValid(f.email))
    ensures v.errors.message in {"", MessageError} && (v.errors.message == "" <==> MessageValid(f.message))
  {
    var nameOk := NameValid(f.name);
    var emailOk := EmailValid(f.email);
    var messageOk := MessageValid(f.message);
    Validation(
      nameOk && emailOk && messageOk,
      Errors(
        if nameOk then "" else NameError,
        if emailOk then "" else EmailError,
        if messageOk then "" else MessageError))
  }

  /** The form validates exactly when no error text is shown. */
  lemma OkIffNoErrors(f: Fields)
    ensures Validate(f).ok <==> Validate(f).errors == NoErrors
  {
  }

  /** No check short-circuits another: each field's error text depends on
      that field alone. */
  lemma ErrorsIndependent(f: Fields, g: Fields)
    ensures f.name == g.name ==> Validate(f).errors.name == Validate(g).errors.name
    ensures f.email == g.email ==> Validate(f).errors.email == Validate(g).errors.email
    ensures f.message == g.message ==> Validate(f).errors.message == Validate(g).errors.message
  {
  }

  function Update(f: Fields, field: Field, value: string): (g: Fields)
    ensures field == Name ==> g == f.(name := value)
    ensures field == Email ==> g == f.(email := value)
    ensures field == Message ==> g == f.(message := value)
  {
    match field
    case Name => f.(name := value)
    case Email => f.(email := value)
    case Message => f.(message := value)
  }

  datatype Form = Form(fields: Fields, errors: Errors, success: string)

  /** The blank form `form.reset()` leaves. */
  const Blank := Fields("", "", "")

  /** An `input` event after the user set `field` to `value`: every error
      text is recomputed and the success line is cleared. */
  function OnInput(form: Form, field: Field, value: string): (r: Form)
    ensures r.success == ""
    ensures r.errors == Validate(r.fields).errors
    ensures r.fields == Update(form.fields, field, value)
  {
    var fields := Update(form.fields, field, value);
    Form(fields, Validate(fields).errors, "")
  }

  /** Result of a `submit` event: the new form and whether the submission
      was accepted. The page transmits nothing: accepting a submission only
      shows the success line and resets the form. */
  datatype Submission = Submission(form: Form, accepted: bool)

  /** A `submit` event. An invalid form keeps its values and its success
      line and shows the errors; a valid one is accepted, reset to blank,
      and shows the success line with no errors. */
  function OnSubmit(form: Form): (r: Submission)
    ensures r.accepted <==> Validate(form.fields).ok
    ensures r.accepted ==> r.form == Form(Blank, NoErrors, SuccessText)
    ensures !r.accepted ==> r.form == form.(errors := Validate(form.fields).errors)
  {
    var v := Validate(form.fields);
    if !v.ok then Submission(form.(errors := v.errors), false)
    else Submission(Form(Blank, NoErrors, SuccessText), true)
  }

  /** The timer six seconds after an accepted submission clears the
      success line. */
  function OnSuccessTimeout(form: Form): (r: Form)
    ensures r.success == "" && r.fields == form.fields && r.errors == form.errors
  {
    form.(success := "")
  }

  /** Nothing is accepted twice: right after an accepted submission the
      form is blank, so an immediate second submit is refused and shows the
      three errors. */
  lemma ResubmitRefused(form: Form)
    requires Validate(form.fields).ok
    ensures var again := OnSubmit(OnSubmit(form).form);
      !again.accepted && again.form.errors == Errors(NameError, EmailError, MessageError)
  {
    BlankInvalid();
  }

  /** The blank form fails all three checks. */
  lemma BlankInvalid()
    ensures Validate(Blank).errors == Errors(NameError, EmailError, MessageError)
  {
    BlankRejected("", 2);
    BlankRejected("", 6);
    TrimUnique("", 0, 0);
    assert !EmailShaped("");
  }

  /** A submission is only ever accepted from a form whose three fields
      pass, and the success line appears only through an acceptance. */
  lemma AcceptedOnlyWhenValid(form: Form)
    ensures OnSubmit(form).accepted ==>
      NameValid(form.fields.name) && EmailValid(form.fields.email) && MessageValid(form.fields.message)
    ensures OnSubmit(form).form.success == SuccessText ==>
      OnSubmit(form).accepted || form.success == SuccessText
  {
  }
}
