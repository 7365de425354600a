/**
 * The password-strength validator: a password is accepted when it has a
 * lower-case letter, an upper-case letter, a special character from a fixed
 * set and a decimal digit. There is no length requirement.
 */
module ValidatePassword {
  import opened Wrappers
  import opened ValidationErrors
  import opened JsText

  /** The members of the bracket class `[!@#$%^&*()_+{}[\]:;<>,.?~\\-]`. */
  const SpecialCharacters: string := "!@#$%^&*()_+{}[]:;<>,.?~\\-"

  predicate IsSpecialCharacter(c: char) {
    c in SpecialCharacters
  }

  /** Some character of `s` belongs to the class `cls`. */
  ghost predicate Contains(s: string, cls: char -> bool) {
    exists i :: 0 <= i < |s| && cls(s[i])
  }

  /** `/[cls]/.test(s)`: scans `s` for a character of the class. */
  function Test(s: string, cls: char -> bool): (found: bool)
    ensures found <==> Contains(s, cls)
  {
    if s == [] then false
    else if cls(s[0]) then true
    else
      assert forall i :: 0 < i < |s| ==> s[i] == s[1..][i - 1];
      Test(s[1..], cls)
  }

  ghost predicate IsStrong(s: string) {
    && Contains(s, IsLowerCase)
    && Contains(s, IsUpperCase)
    && Contains(s, IsSpecialCharacter)
    && Contains(s, IsDigit)
  }

  /** `ValidatePassword.validatePassword`: `None` is the `null` of an accepted password. */
  function ValidatePassword(password: string): (r: Option<ValidationError>)
    ensures r.Some? <==> !IsStrong(password)
    ensures r.Some? ==> r.value == InvalidPassword
  {
    var hasLowerCase := Test(password, IsLowerCase);
    var hasUpperCase := Test(password, IsUpperCase);
    var hasSpecialCharacter := Test(password, IsSpecialCharacter);
    var hasNumericDigit := Test(password, IsDigit);
    if !hasLowerCase || !hasUpperCase || !hasSpecialCharacter || !hasNumericDigit then
      Some(InvalidPassword)
    else
      None
  }

  /** No length requirement: four characters, one from each class, in any order, are enough. */
  lemma FourCharactersSuffice(lower: char, upper: char, special: char, digit: char)
    requires IsLowerCase(lower) && IsUpperCase(upper)
    requires IsSpecialCharacter(special) && IsDigit(digit)
    ensures ValidatePassword([special, digit, upper, lower]) == None
  {
    var s := [special, digit, upper, lower];
    assert IsLowerCase(s[3]) && IsUpperCase(s[2]) && IsDigit(s[1]) && IsSpecialCharacter(s[0]);
  }

  lemma ContainsInContext(a: string, s: string, b: string, cls: char -> bool)
    requires Contains(s, cls)
    ensures Contains(a + s + b, cls)
  {
    var i :| 0 <= i < |s| && cls(s[i]);
    assert (a + s + b)[|a| + i] == s[i];
  }

  /** Acceptance is monotone: a string that has an accepted password inside it is accepted. */
  lemma AcceptedInContext(a: string, s: string, b: string)
    requires ValidatePassword(s) == None
    ensures ValidatePassword(a + s + b) == None
  {
    ContainsInContext(a, s, b, IsLowerCase);
    ContainsInContext(a, s, b, IsUpperCase);
    ContainsInContext(a, s, b, IsSpecialCharacter);
    ContainsInContext(a, s, b, IsDigit);
  }

  /** Characters outside the bracket set do not count as special, so a password whose
      only candidate is one of them is rejected. */
  lemma OutsideSpecialSetRejected(c: char)
    requires c == '/' || c == '=' || c == '|' || c == '"' || c == ' ' || c == '\'' || c == '`'
    ensures !IsSpecialCharacter(c)
    ensures ValidatePassword(['a', 'A', '1', c]) == Some(InvalidPassword)
  {
    forall i | 0 <= i < |SpecialCharacters| ensures SpecialCharacters[i] != c { }
    assert !IsSpecialCharacter(c);
    var s := ['a', 'A', '1', c];
    assert !Contains(s, IsSpecialCharacter) by {
      forall i | 0 <= i < |s| ensures !IsSpecialCharacter(s[i]) {
        if i < 3 {
          forall j | 0 <= j < |SpecialCharacters| ensures SpecialCharacters[j] != s[i] { }
        }
      }
    }
  }

  /** The empty password is rejected. */
  lemma EmptyRejected()
    ensures ValidatePassword("") == Some(InvalidPassword)
  {
  }
}
