/** The password rule both sign-in forms use, the regular expression
    `^(?=.*[a-z])(?=.*[A-Z])(?=.*\d).{8,}$` (no flags), written out: three
    lookaheads from the start, then at least eight characters up to the end,
    where `.` matches anything except a line terminator. Beside it, the four
    requirement indicators the registration form shows. */
module PasswordPolicy {

  /** The characters `.` does not match without the `s` flag. */
  predicate IsLineTerminator(c: char) {
    c == '\n' || c == '\r' || c == '\U{2028}' || c == '\U{2029}'
  }

  predicate IsLower(c: char) { 'a' <= c <= 'z' }
  predicate IsUpper(c: char) { 'A' <= c <= 'Z' }
  /** `\d` without the `u` flag. */
  predicate IsDigit(c: char) { '0' <= c <= '9' }

  predicate NoLineTerminator(s: string) {
    forall i :: 0 <= i < |s| ==> !IsLineTerminator(s[i])
  }

  /** `(?=.*[class])` at the start: a character of the class occurs before
      the first line terminator. */
  function LookaheadFinds(s: string, charClass: char -> bool): (found: bool)
    requires forall c :: charClass(c) ==> !IsLineTerminator(c)
    ensures found ==> exists i :: 0 <= i < |s| && charClass(s[i])
  {
    if s == [] then false
    else if charClass(s[0]) then true
    else if IsLineTerminator(s[0]) then false
    else LookaheadFinds(s[1..], charClass)
  }

  /** `.{8,}$` from the start: eight or more characters and no line terminator. */
  predicate DotsToEnd(s: string) {
    |s| >= 8 && NoLineTerminator(s)
  }

  /** `passwordRegex.test(s)`. */
  predicate PasswordRegex(s: string) {
    && LookaheadFinds(s, IsLower)
    && LookaheadFinds(s, IsUpper)
    && LookaheadFinds(s, IsDigit)
    && DotsToEnd(s)
  }

  /** An unanchored one-class test such as `/[A-Z]/.test(s)`. */
  predicate HasChar(s: string, charClass: char -> bool) {
    exists i :: 0 <= i < |s| && charClass(s[i])
  }

  /** On a line without terminators a lookahead is a plain search. */
  lemma {:induction false} LookaheadOnOneLine(s: string, charClass: char -> bool)
    requires forall c :: charClass(c) ==> !IsLineTerminator(c)
    requires NoLineTerminator(s)
    ensures LookaheadFinds(s, charClass) <==> HasChar(s, charClass)
  {
    if s != [] && !charClass(s[0]) {
      assert NoLineTerminator(s[1..]) by {
        forall i | 0 <= i < |s[1..]| ensures !IsLineTerminator(s[1..][i]) {
          assert s[1..][i] == s[i + 1];
        }
      }
      LookaheadOnOneLine(s[1..], charClass);
      if HasChar(s, charClass) {
        var i :| 0 <= i < |s| && charClass(s[i]);
        assert i > 0 && s[1..][i - 1] == s[i];
      }
    }
  }

  /** The four indicators: 8+ characters, an uppercase letter, a lowercase
      letter, a number. */
  predicate IndicatorsMet(s: string) {
    |s| >= 8 && HasChar(s, IsUpper) && HasChar(s, IsLower) && HasChar(s, IsDigit)
  }

  /** What the regular expression demands, in plain terms. */
  lemma PasswordRegexMeaning(s: string)
    ensures PasswordRegex(s) <==> NoLineTerminator(s) && IndicatorsMet(s)
  {
    if NoLineTerminator(s) {
      LookaheadOnOneLine(s, IsLower);
      LookaheadOnOneLine(s, IsUpper);
      LookaheadOnOneLine(s, IsDigit);
    }
  }

  /** For a password without line terminators, "Strong" and the four
      indicators agree. */
  lemma StrongIffIndicators(s: string)
    requires NoLineTerminator(s)
    ensures PasswordRegex(s) <==> IndicatorsMet(s)
  {
    PasswordRegexMeaning(s);
  }

  /** With a trailing newline all four indicators are met, yet the regular
      expression fails. */
  lemma IndicatorsWithoutRegex()
    ensures var s := "Passw0rd\n";
      IndicatorsMet(s) && !PasswordRegex(s)
  {
    var s := "Passw0rd\n";
    assert IsUpper(s[0]) && IsLower(s[1]) && IsDigit(s[5]);
    assert IsLineTerminator(s[8]);
  }
}
