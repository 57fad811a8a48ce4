/** The client-side checks of the registration form, run on submit before
    any request is sent. */
module RegisterForm {
  import opened Wrappers

  const PasswordMismatch := "Passwords do not match."
  const PasswordPolicy := "Password must be at least 8 characters long and contain at least one uppercase letter, one lowercase letter, one number, and one special character."
  const TermsNotAccepted := "You must accept the terms and conditions to register."

  /** The character classes of the password pattern. */
  datatype CharClass = Lower | Upper | DecimalDigit | Special

  predicate InClass(c: char, k: CharClass)
  {
    match k
    case Lower => 'a' <= c <= 'z'
    case Upper => 'A' <= c <= 'Z'
    case DecimalDigit => '0' <= c <= '9'
    case Special => c in "@$!%*?&"
  }

  /** `[A-Za-z\d@$!%*?&]`. */
  predicate Allowed(c: char)
  {
    InClass(c, Lower) || InClass(c, Upper) || InClass(c, DecimalDigit) || InClass(c, Special)
  }

  /** The characters a JavaScript `.` does not match without the `s` flag. */
  predicate LineTerminator(c: char)
  {
    c == '\n' || c == '\r' || c as int == 0x2028 || c as int == 0x2029
  }

  /** Whether the lookahead `(?=.*[k])` succeeds at the start of `p`: some
      character of class `k` comes before the first line terminator. */
  predicate LookaheadMatches(p: string, k: CharClass)
  {
    p != [] && (InClass(p[0], k) || (!LineTerminator(p[0]) && LookaheadMatches(p[1..], k)))
  }

  /** `/^(?=.*[a-z])(?=.*[A-Z])(?=.*\d)(?=.*[@$!%*?&])[A-Za-z\d@$!%*?&]{8,}$/.test(p)`:
      four lookaheads at the start, then at least eight allowed characters
      up to the end. */
  predicate PasswordRegexMatches(p: string)
  {
    && LookaheadMatches(p, Lower) && LookaheadMatches(p, Upper)
    && LookaheadMatches(p, DecimalDigit) && LookaheadMatches(p, Special)
    && |p| >= 8 && forall i :: 0 <= i < |p| ==> Allowed(p[i])
  }

  /** The policy in words: at least eight characters, all from the allowed
      set, with a lowercase letter, an uppercase letter, a digit and one of
      `@$!%*?&`. */
  predicate PolicyHolds(p: string)
  {
    && |p| >= 8 && (forall i :: 0 <= i < |p| ==> Allowed(p[i]))
    && (exists i :: 0 <= i < |p| && InClass(p[i], Lower))
    && (exists i :: 0 <= i < |p| && InClass(p[i], Upper))
    && (exists i :: 0 <= i < |p| && InClass(p[i], DecimalDigit))
    && (exists i :: 0 <= i < |p| && InClass(p[i], Special))
  }

  /** `handleSubmit`: the first error in the order the guards run, or
      `None` when the request is sent. */
  function Validate(password: string, confirmPassword: string, acceptedTerms: bool): Option<string>
  {
    if password != confirmPassword then Some(PasswordMismatch)
    else if !PasswordRegexMatches(password) then Some(PasswordPolicy)
    else if !acceptedTerms then Some(TermsNotAccepted)
    else None
  }

  // ---------------------------------------------------------------------
  // Properties

  /** A successful lookahead has found a character of its class. */
  lemma {:induction false} LookaheadFinds(p: string, k: CharClass)
    requires LookaheadMatches(p, k)
    ensures exists i :: 0 <= i < |p| && InClass(p[i], k)
  {
    if !InClass(p[0], k) {
      LookaheadFinds(p[1..], k);
      var i :| 0 <= i < |p[1..]| && InClass(p[1..][i], k);
      assert p[i + 1] == p[1..][i];
    }
  }

  /** In a string of allowed characters there is no line terminator, so a
      lookahead succeeds whenever its class occurs at all. */
  lemma {:induction false} LookaheadOnAllowed(p: string, k: CharClass, i: nat)
    requires forall j :: 0 <= j < |p| ==> Allowed(p[j])
    requires i < |p| && InClass(p[i], k)
    ensures LookaheadMatches(p, k)
  {
    if i > 0 && !InClass(p[0], k) {
      assert p[1..][i - 1] == p[i];
      LookaheadOnAllowed(p[1..], k, i - 1);
      assert Allowed(p[0]);
    }
  }

  /** The pattern accepts exactly the passwords the policy in words
      describes. */
  lemma RegexIsPolicy(p: string)
    ensures PasswordRegexMatches(p) <==> PolicyHolds(p)
  {
    if PasswordRegexMatches(p) {
      LookaheadFinds(p, Lower);
      LookaheadFinds(p, Upper);
      LookaheadFinds(p, DecimalDigit);
      LookaheadFinds(p, Special);
    }
    if PolicyHolds(p) {
      var a :| 0 <= a < |p| && InClass(p[a], Lower);
      var b :| 0 <= b < |p| && InClass(p[b], Upper);
      var c :| 0 <= c < |p| && InClass(p[c], DecimalDigit);
      var d :| 0 <= d < |p| && InClass(p[d], Special);
      LookaheadOnAllowed(p, Lower, a);
      LookaheadOnAllowed(p, Upper, b);
      LookaheadOnAllowed(p, DecimalDigit, c);
      LookaheadOnAllowed(p, Special, d);
    }
  }

  /** The guards run in the order mismatch, policy, terms: each error
      appears only when the checks before it pass, and the request is sent
      exactly when all three pass. */
  lemma ValidatePriority(password: string, confirmPassword: string, acceptedTerms: bool)
    ensures password != confirmPassword ==> Validate(password, confirmPassword, acceptedTerms) == Some(PasswordMismatch)
    ensures password == confirmPassword && !PolicyHolds(password) ==>
              Validate(password, confirmPassword, acceptedTerms) == Some(PasswordPolicy)
    ensures password == confirmPassword && PolicyHolds(password) && !acceptedTerms ==>
              Validate(password, confirmPassword, acceptedTerms) == Some(TermsNotAccepted)
    ensures Validate(password, confirmPassword, acceptedTerms) == None <==>
              password == confirmPassword && PolicyHolds(password) && acceptedTerms
  {
    RegexIsPolicy(password);
  }

  /** A password with every kind of character is accepted. */
  lemma AcceptsExample()
    ensures PolicyHolds("Passw0rd!")
  {
    var p := "Passw0rd!";
    assert InClass(p[1], Lower) && InClass(p[0], Upper) && InClass(p[5], DecimalDigit) && InClass(p[8], Special);
  }

  /** A password without a special character is refused, however long. */
  lemma RefusesWithoutSpecial()
    ensures !PolicyHolds("Passw0rdPassw0rd")
  {
    var p := "Passw0rdPassw0rd";
    assert forall i :: 0 <= i < |p| ==> !InClass(p[i], Special);
  }

  /** A space is not an allowed character. */
  lemma RefusesSpace()
    ensures !PolicyHolds("Pass w0rd!")
  {
    assert !Allowed("Pass w0rd!"[4]);
  }
}
