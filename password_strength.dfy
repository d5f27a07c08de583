/** `PasswordStrengthAttribute`: a password must have a length within the
    configured bounds and contain at least one digit and one letter. */
module PasswordStrength {
  import opened Common
  import opened Text
  import opened Validation

  /** The default `MinimumLength` and `MaximumLength`. */
  const DefaultMinimumLength: int := 8
  const DefaultMaximumLength: int := 50

  function TooShortMessage(minimumLength: int): string {
    "Your new password must be at least " + IntToString(minimumLength) + " characters long."
  }

  function TooLongMessage(maximumLength: int): string {
    "Your new password must be less than " + IntToString(maximumLength) + " characters long."
  }

  const NoDigitMessage: string := "Your new password must contain at least one number."
  const NoLetterMessage: string := "Your new password must contain at least one letter."

  /** `password.Any(char.IsDigit)`. */
  predicate HasDigit(password: string) {
    exists i :: 0 <= i < |password| && IsDigit(password[i])
  }

  /** `password.Any(char.IsLetter)`. */
  predicate HasLetter(password: string) {
    exists i :: 0 <= i < |password| && IsLetter(password[i])
  }

  /** `IsValid(value, context)`, given the text of the value (`value.ToString()`,
      with null read as ""). The checks run in a fixed order and the first
      that fails names the reason. */
  function IsValid(password: NullableString, minimumLength: int, maximumLength: int): (r: ValidationResult)
    ensures r.Success? <==>
              (var p := OrEmpty(password);
               minimumLength <= |p| <= maximumLength && HasDigit(p) && HasLetter(p))
    ensures r.Failure? ==>
              r.message in {TooShortMessage(minimumLength), TooLongMessage(maximumLength),
                            NoDigitMessage, NoLetterMessage}
  {
    var p := if password.None? then "" else password.value;
    if IsNullOrEmpty(Some(p)) || |p| < minimumLength then Failure(TooShortMessage(minimumLength))
    else if |p| > maximumLength then Failure(TooLongMessage(maximumLength))
    else if !HasDigit(p) then Failure(NoDigitMessage)
    else if !HasLetter(p) then Failure(NoLetterMessage)
    else Success
  }

  /** A check: whether the password passes it, and the reason given when it does not. */
  datatype Check = Check(passes: bool, reason: string)

  /** The four checks of the attribute, in the order they are made. */
  function Checks(p: string, minimumLength: int, maximumLength: int): (cs: seq<Check>)
    ensures |cs| == 4
  {
    [ Check(|p| > 0 && |p| >= minimumLength, TooShortMessage(minimumLength)),
      Check(|p| <= maximumLength, TooLongMessage(maximumLength)),
      Check(HasDigit(p), NoDigitMessage),
      Check(HasLetter(p), NoLetterMessage) ]
  }

  /** Success when every check passes, otherwise the reason of the first that fails. */
  function FirstFailure(cs: seq<Check>): (r: ValidationResult)
    ensures r.Success? <==> forall i :: 0 <= i < |cs| ==> cs[i].passes
    ensures r.Failure? ==> exists i :: 0 <= i < |cs| && !cs[i].passes && r.message == cs[i].reason
    decreases |cs|
  {
    if |cs| == 0 then Success
    else if !cs[0].passes then Failure(cs[0].reason)
    else
      var rest := FirstFailure(cs[1..]);
      assert forall i :: 1 <= i < |cs| ==> cs[i] == cs[1..][i - 1];
      rest
  }

  /** Four checks: the first that fails decides. */
  lemma {:induction false} FirstFailureOfFour(cs: seq<Check>)
    requires |cs| == 4
    ensures FirstFailure(cs)
            == if !cs[0].passes then Failure(cs[0].reason)
               else if !cs[1].passes then Failure(cs[1].reason)
               else if !cs[2].passes then Failure(cs[2].reason)
               else if !cs[3].passes then Failure(cs[3].reason)
               else Success
  {
    var c1, c2, c3 := cs[1..], cs[2..], cs[3..];
    assert c1[1..] == c2 && c2[1..] == c3 && c3[1..] == [];
    assert c1[0] == cs[1] && c2[0] == cs[2] && c3[0] == cs[3];
    assert FirstFailure(c3) == if !cs[3].passes then Failure(cs[3].reason) else Success;
    assert FirstFailure(c2) == if !cs[2].passes then Failure(cs[2].reason) else FirstFailure(c3);
    assert FirstFailure(c1) == if !cs[1].passes then Failure(cs[1].reason) else FirstFailure(c2);
  }

  /** The attribute answers with the reason of the first failing check, and
      only that one. */
  lemma FirstFailingCheckDecides(password: NullableString, minimumLength: int, maximumLength: int)
    ensures IsValid(password, minimumLength, maximumLength)
            == FirstFailure(Checks(OrEmpty(password), minimumLength, maximumLength))
  {
    FirstFailureOfFour(Checks(OrEmpty(password), minimumLength, maximumLength));
  }

  /** A null value is read as "" and fails with the minimum-length reason,
      whatever the bounds. */
  lemma NullIsTooShort(minimumLength: int, maximumLength: int)
    ensures IsValid(None, minimumLength, maximumLength) == Failure(TooShortMessage(minimumLength))
  {
  }

  /** With the minimum above the maximum no password is accepted. */
  lemma CrossedBoundsRejectEverything(password: NullableString, minimumLength: int, maximumLength: int)
    requires minimumLength > maximumLength
    ensures IsValid(password, minimumLength, maximumLength).Failure?
  {
  }

  /** With the default bounds, eight characters with a digit and a letter pass,
      and seven do not. */
  lemma DefaultBounds()
    ensures IsValid(Some("abcdefg1"), DefaultMinimumLength, DefaultMaximumLength) == Success
    ensures IsValid(Some("abcdef1"), DefaultMinimumLength, DefaultMaximumLength)
            == Failure(TooShortMessage(8))
  {
    assert IsDigit("abcdefg1"[7]) && IsLetter("abcdefg1"[0]);
  }
}
