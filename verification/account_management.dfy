/** The account page: the stricter password policy, the inline messages of
    the change-password form, when its button is enabled, and the checks the
    page makes before it sends a new name or password. The requests
    themselves are left out. */
module AccountForms {
  import opened Wrappers
  import opened JsText
  import opened UserSchema
  import UserManagement

  const NEW_REQUIRED := "New password is required."
  const TOO_SHORT := "Password must be at least 8 characters."
  const NEEDS_LETTER := "Password must contain at least one letter."
  const NEEDS_DIGIT := "Password must contain at least one number."
  const CONFIRM_REQUIRED := "Please confirm your new password."
  const MISMATCH := "Passwords do not match."
  const CURRENT_REQUIRED := "Current password is required."
  const NAME_TOO_SHORT := "Full name must be at least 2 characters."

  predicate IsAsciiLetter(c: char) {
    'A' <= c <= 'Z' || 'a' <= c <= 'z'
  }

  predicate IsDigit(c: char) {
    '0' <= c <= '9'
  }

  /** `re.test(s)` for a one-character class: scan `s` from the left. */
  predicate ContainsMatch(s: string, p: char -> bool) {
    s != [] && (p(s[0]) || ContainsMatch(s[1..], p))
  }

  /** The scan finds a match exactly when some position holds one. */
  lemma {:induction false} ContainsMatchIff(s: string, p: char -> bool)
    ensures ContainsMatch(s, p) <==> exists i :: 0 <= i < |s| && p(s[i])
  {
    if s != [] {
      ContainsMatchIff(s[1..], p);
      if exists i :: 0 <= i < |s| && p(s[i]) {
        var i :| 0 <= i < |s| && p(s[i]);
        if i > 0 {
          assert s[1..][i - 1] == s[i];
        }
      }
      if exists i :: 0 <= i < |s[1..]| && p(s[1..][i]) {
        var i :| 0 <= i < |s[1..]| && p(s[1..][i]);
        assert s[i + 1] == s[1..][i];
      }
    }
  }

  predicate HasLetter(s: string) {
    exists i :: 0 <= i < |s| && IsAsciiLetter(s[i])
  }

  predicate HasDigit(s: string) {
    exists i :: 0 <= i < |s| && IsDigit(s[i])
  }

  /** `validatePasswordPolicy`: on the trimmed password, the first of
      empty, too short, no letter, no digit; `None` when it passes. */
  function PasswordPolicy(pw: string): (r: Option<string>)
    ensures r.None? <==> |Trim(pw)| >= PASSWORD_MIN && HasLetter(Trim(pw)) && HasDigit(Trim(pw))
    ensures r == Some(NEW_REQUIRED) <==> IsBlank(pw)
    ensures r.Some? ==> r.value in {NEW_REQUIRED, TOO_SHORT, NEEDS_LETTER, NEEDS_DIGIT}
  {
    var p := Trim(pw);
    TrimEmptyIff(pw);
    ContainsMatchIff(p, IsAsciiLetter);
    ContainsMatchIff(p, IsDigit);
    if |p| == 0 then Some(NEW_REQUIRED)
    else if |p| < PASSWORD_MIN then Some(TOO_SHORT)
    else if !ContainsMatch(p, IsAsciiLetter) then Some(NEEDS_LETTER)
    else if !ContainsMatch(p, IsDigit) then Some(NEEDS_DIGIT)
    else None
  }

  /** Whatever this page accepts, the user-management form accepts too. */
  lemma AccountPolicyStricter(pw: string)
    requires PasswordPolicy(pw).None?
    ensures UserManagement.PasswordPolicyError(pw).None?
  {
    TrimInfix(pw);
  }

  /** The converse fails: a password of eight or more digits passes the
      user-management form and this page refuses it for want of a letter. */
  lemma DigitsOnlyDiffer(digits: string)
    requires |digits| >= PASSWORD_MIN
    requires forall k :: 0 <= k < |digits| ==> IsDigit(digits[k])
    ensures UserManagement.PasswordPolicyError(digits).None?
    ensures PasswordPolicy(digits) == Some(NEEDS_LETTER)
  {
    DigitsAreLetterless(digits);
    LetterlessDiffer(digits);
  }

  /** More generally, any long enough password without whitespace and
      without a letter passes the user-management form and not this page. */
  lemma LetterlessDiffer(pw: string)
    requires |pw| >= PASSWORD_MIN && !HasWhitespace(pw) && !ContainsMatch(pw, IsAsciiLetter)
    ensures UserManagement.PasswordPolicyError(pw).None?
    ensures PasswordPolicy(pw) == Some(NEEDS_LETTER)
  {
    NoWhitespaceTrimmed(pw);
    LetterlessPolicy(pw);
  }

  /** A password whose trimmed form is long enough and has no letter is
      refused for want of a letter. */
  lemma LetterlessPolicy(pw: string)
    requires |Trim(pw)| >= PASSWORD_MIN && !ContainsMatch(Trim(pw), IsAsciiLetter)
    ensures PasswordPolicy(pw) == Some(NEEDS_LETTER)
  {
  }

  /** A string of digits has neither whitespace nor a letter. */
  lemma DigitsAreLetterless(digits: string)
    requires forall k :: 0 <= k < |digits| ==> IsDigit(digits[k])
    ensures !HasWhitespace(digits) && !ContainsMatch(digits, IsAsciiLetter)
  {
    forall k | 0 <= k < |digits| ensures !IsWhitespace(digits[k]) && !IsAsciiLetter(digits[k]) {
      DigitIsNeither(digits[k]);
    }
    ContainsMatchIff(digits, IsAsciiLetter);
  }

  /** A digit is neither whitespace nor a letter. */
  lemma DigitIsNeither(c: char)
    requires IsDigit(c)
    ensures !IsWhitespace(c) && !IsAsciiLetter(c)
  {
    assert 0x30 <= c as int <= 0x39;
  }

  /** Nor does this page count the whitespace around a password, which the
      user-management form does: a short word padded with two spaces on
      each side passes there and is too short here. */
  lemma PaddingDiffers(w: string)
    requires w != [] && !HasWhitespace(w)
    requires |w| < PASSWORD_MIN <= |w| + 4
    ensures UserManagement.PasswordPolicyError("  " + w + "  ").None?
    ensures PasswordPolicy("  " + w + "  ") == Some(TOO_SHORT)
  {
    var padded := "  " + w + "  ";
    PaddedTrim(w);
    assert |padded| == |w| + 4;
    assert PasswordPolicy(padded) == Some(TOO_SHORT);
  }

  /** Two spaces either side of a word without whitespace trim away. */
  lemma PaddedTrim(w: string)
    requires !HasWhitespace(w)
    ensures Trim("  " + w + "  ") == w
  {
    var s1 := w + [' '];
    var s2 := s1 + [' '];
    var s3 := [' '] + s2;
    var s4 := [' '] + s3;
    assert s4 == "  " + w + "  ";
    assert Trim(w) == w by { NoWhitespaceTrimmed(w); }
    assert Trim(s1) == w by { TrimPadded(w, ' '); }
    assert Trim(s2) == w by { TrimPadded(s1, ' '); }
    assert Trim(s3) == w by { TrimPadded(s2, ' '); }
    assert Trim(s4) == w by { TrimPadded(s3, ' '); }
  }

  /** Whitespace added on either side does not change the trim. */
  lemma TrimPadded(s: string, c: char)
    requires IsWhitespace(c)
    ensures Trim([c] + s) == Trim(s) && Trim(s + [c]) == Trim(s)
  {
    assert ([c] + s)[1..] == s;
    assert TrimStart([c] + s) == TrimStart(s);
    var a := TrimStart(s + [c]);
    if IsBlank(s) {
      assert IsBlank(s + [c]);
      TrimEmptyIff(s);
      TrimEmptyIff(s + [c]);
    } else {
      TrimStartAppend(s, c);
      assert a[..|a| - 1] == TrimStart(s);
      assert TrimEnd(a) == TrimEnd(a[..|a| - 1]);
    }
  }

  /** Leading whitespace is cut before a trailing character is reached. */
  lemma {:induction false} TrimStartAppend(s: string, c: char)
    requires !IsBlank(s)
    ensures TrimStart(s + [c]) == TrimStart(s) + [c]
    decreases |s|
  {
    if IsWhitespace(s[0]) {
      assert (s + [c])[1..] == s[1..] + [c];
      TrimStartAppend(s[1..], c);
    }
  }

  /** The change-password form: the three fields, which were touched,
      whether the button was pressed, and whether a request is under way. */
  datatype PasswordForm = PasswordForm(
    current: string, newPassword: string, confirm: string,
    touchedNew: bool, touchedConfirm: bool, submitAttempted: bool, saving: bool)

  /** `shouldShowPwErrors`. */
  predicate ShowErrors(f: PasswordForm) {
    f.submitAttempted || f.touchedNew || f.touchedConfirm
  }

  /** The `passwordPolicyError` memo: the policy message, once the form
      shows errors and the new password is in play. */
  function PolicyMessage(f: PasswordForm): (r: Option<string>)
    ensures r.Some? ==> r == PasswordPolicy(f.newPassword)
    ensures r == PasswordPolicy(f.newPassword) <==>
      || PasswordPolicy(f.newPassword).None?
      || f.submitAttempted || f.touchedNew
      || (f.touchedConfirm && (!IsBlank(f.newPassword) || !IsBlank(f.confirm)))
  {
    TrimEmptyIff(f.newPassword);
    TrimEmptyIff(f.confirm);
    if !ShowErrors(f) then None
    else
      var shouldValidateNew := f.submitAttempted || f.touchedNew || |Trim(f.newPassword)| > 0 || |Trim(f.confirm)| > 0;
      if !shouldValidateNew then None
      else PasswordPolicy(f.newPassword)
  }

  /** The `passwordMatchError` memo: asks for the confirmation, then for
      the trimmed values to agree, once confirm was touched or the button
      pressed. */
  function MatchMessage(f: PasswordForm): (r: Option<string>)
    ensures r.None? <==>
      !(f.submitAttempted || f.touchedConfirm) || (!IsBlank(f.confirm) && Trim(f.newPassword) == Trim(f.confirm))
    ensures r.Some? ==> (r.value == CONFIRM_REQUIRED <==> IsBlank(f.confirm))
    ensures r.Some? ==> r.value in {CONFIRM_REQUIRED, MISMATCH}
  {
    TrimEmptyIff(f.confirm);
    if !ShowErrors(f) then None
    else if !(f.submitAttempted || f.touchedConfirm) then None
    else if |Trim(f.confirm)| == 0 then Some(CONFIRM_REQUIRED)
    else if Trim(f.newPassword) != Trim(f.confirm) then Some(MISMATCH)
    else None
  }

  /** `passwordPolicyError || passwordMatchError`: the policy message wins. */
  function InlineError(f: PasswordForm): (r: Option<string>)
    ensures r.None? <==> PolicyMessage(f).None? && MatchMessage(f).None?
    ensures PolicyMessage(f).Some? ==> r == PolicyMessage(f)
    ensures PolicyMessage(f).None? ==> r == MatchMessage(f)
  {
    match PolicyMessage(f)
    case Some(m) => Some(m)
    case None => MatchMessage(f)
  }

  /** `canSubmitPassword`: the button's enabling rule. */
  predicate CanSubmitPassword(f: PasswordForm) {
    && !f.saving
    && !IsBlank(f.current)
    && !IsBlank(f.newPassword)
    && !IsBlank(f.confirm)
    && PasswordPolicy(f.newPassword).None?
    && Trim(f.newPassword) == Trim(f.confirm)
  }

  /** The button is enabled exactly when nothing is being saved, a current
      password is given, and pressing it would show no inline error. */
  lemma CanSubmitIff(f: PasswordForm)
    ensures CanSubmitPassword(f) <==>
      !f.saving && !IsBlank(f.current) && InlineError(f.(submitAttempted := true)).None?
  {
    var g := f.(submitAttempted := true);
    TrimEmptyIff(f.newPassword);
    assert PolicyMessage(g) == PasswordPolicy(f.newPassword);
  }

  /** What pressing "Update password" does before any request. */
  datatype PasswordSubmit = Refuse(message: string) | Send(currentPassword: string, newPassword: string)

  /** `onUpdatePassword`: the current password, then the policy, then the
      match; otherwise send the trimmed current and new passwords. */
  function OnUpdatePassword(f: PasswordForm): (r: PasswordSubmit)
    ensures r.Send? <==>
      Trim(f.current) != [] && PasswordPolicy(f.newPassword).None? && Trim(f.newPassword) == Trim(f.confirm)
    ensures r.Send? ==> r == Send(Trim(f.current), Trim(f.newPassword)) && IsTrimmed(r.newPassword)
    ensures r == Refuse(CURRENT_REQUIRED) <==> Trim(f.current) == []
  {
    if |Trim(f.current)| == 0 then Refuse(CURRENT_REQUIRED)
    else
      var policy := PasswordPolicy(f.newPassword);
      if policy.Some? then
        assert policy.value[0] != CURRENT_REQUIRED[0];
        Refuse(policy.value)
      else if Trim(f.newPassword) != Trim(f.confirm) then
        assert MISMATCH[0] != CURRENT_REQUIRED[0];
        Refuse(MISMATCH)
      else Send(Trim(f.current), Trim(f.newPassword))
  }

  /** Pressing the button sends exactly when it would be enabled, were no
      request under way (the handler itself does not look at `saving`). */
  lemma SubmitAgreesWithButton(f: PasswordForm)
    ensures OnUpdatePassword(f).Send? <==> CanSubmitPassword(f.(saving := false))
  {
    TrimEmptyIff(f.current);
    TrimEmptyIff(f.newPassword);
    TrimEmptyIff(f.confirm);
  }

  /** A refusal about the new password is also shown inline once the
      button was pressed; a policy refusal shows the same message. */
  lemma RefusalShownInline(f: PasswordForm)
    requires OnUpdatePassword(f).Refuse? && !IsBlank(f.current)
    ensures InlineError(f.(submitAttempted := true)).Some?
    ensures PasswordPolicy(f.newPassword).Some? ==>
      InlineError(f.(submitAttempted := true)) == Some(OnUpdatePassword(f).message)
  {
    var g := f.(submitAttempted := true);
    TrimEmptyIff(f.current);
    assert PolicyMessage(g) == PasswordPolicy(f.newPassword);
  }

  /** What "Save" on the name does before any request. */
  datatype NameSave = RejectName(message: string) | SendName(fullName: string)

  /** `onSaveName`: refuse a trimmed name shorter than two characters,
      otherwise send the trimmed name. */
  function OnSaveName(draft: string): (r: NameSave)
    ensures r.SendName? <==> |Trim(draft)| >= NAME_MIN
    ensures r.SendName? ==> r.fullName == Trim(draft) && IsTrimmed(r.fullName)
    ensures r.RejectName? ==> r.message == NAME_TOO_SHORT
  {
    var next := Trim(draft);
    TrimIdempotent(draft);
    if |next| < NAME_MIN then RejectName(NAME_TOO_SHORT) else SendName(next)
  }

  /** Saving the name that was sent sends it again unchanged. */
  lemma SaveNameStable(draft: string)
    requires OnSaveName(draft).SendName?
    ensures OnSaveName(OnSaveName(draft).fullName) == OnSaveName(draft)
  {
    TrimIdempotent(draft);
  }
}
