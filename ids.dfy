/** The id rewrite of a copy: `id.replace(/\d+$/, '') + (counter + 1)`.
    The pattern removes the maximal run of ASCII digits at the end of the
    id; the ordinal is then written in decimal, as JavaScript converts a
    non-negative integer to a string. */
module Ids {

  predicate IsDigit(ch: char) {
    '0' <= ch <= '9'
  }

  predicate AllDigits(s: string) {
    forall i :: 0 <= i < |s| ==> IsDigit(s[i])
  }

  predicate EndsInDigit(s: string) {
    |s| > 0 && IsDigit(s[|s| - 1])
  }

  /** `s.replace(/\d+$/, '')`: the result is a prefix of `s`, what was cut
      off is digits only, and the result does not end in a digit (so the
      run that was cut is the longest one). */
  function StripTrailingDigits(s: string): (r: string)
    ensures |r| <= |s| && s[..|r|] == r
    ensures AllDigits(s[|r|..])
    ensures !EndsInDigit(r)
  {
    if EndsInDigit(s) then
      var r := StripTrailingDigits(s[..|s| - 1]);
      assert s[|r|..] == s[..|s| - 1][|r|..] + [s[|s| - 1]];
      r
    else
      s
  }

  /** The three properties above pin the result down: any split of `s` into
      a base that does not end in a digit and a tail of digits is the one
      the pattern finds. */
  lemma {:induction false} StripUnique(base: string, digits: string)
    requires !EndsInDigit(base) && AllDigits(digits)
    ensures StripTrailingDigits(base + digits) == base
    decreases |digits|
  {
    if digits == [] {
      assert base + digits == base;
    } else {
      var shorter := digits[..|digits| - 1];
      assert (base + digits)[..|base + digits| - 1] == base + shorter;
      StripUnique(base, shorter);
    }
  }

  function DigitChar(d: nat): (ch: char)
    requires d < 10
    ensures IsDigit(ch)
  {
    ('0' as int + d) as char
  }

  function DigitValue(ch: char): nat
    requires IsDigit(ch)
  {
    ch as int - '0' as int
  }

  /** The decimal form of a non-negative number, without leading zeros. */
  function NatToString(n: nat): (s: string)
    ensures |s| > 0 && AllDigits(s)
    ensures s[0] == '0' ==> n == 0
  {
    if n < 10 then [DigitChar(n)]
    else NatToString(n / 10) + [DigitChar(n % 10)]
  }

  /** Reading a string of digits as a decimal number. */
  function DecimalValue(s: string): nat
    requires AllDigits(s)
  {
    if s == [] then 0
    else 10 * DecimalValue(s[..|s| - 1]) + DigitValue(s[|s| - 1])
  }

  lemma {:induction false} DecimalRoundTrip(n: nat)
    ensures DecimalValue(NatToString(n)) == n
  {
    var s := NatToString(n);
    if n >= 10 {
      assert s[..|s| - 1] == NatToString(n / 10);
      DecimalRoundTrip(n / 10);
    }
  }

  /** The id a copy receives when the group held `counter` elements: the
      old id's base is kept in front, and the result ends in a digit. */
  function NewId(id: string, counter: nat): (r: string)
    ensures var base := StripTrailingDigits(id);
      |base| < |r| && r[..|base|] == base
    ensures EndsInDigit(r)
  {
    StripTrailingDigits(id) + NatToString(counter + 1)
  }

  /** The new id is the old base followed by the ordinal, and the rewrite
      reads back: stripping the new id gives the old base, and the digits
      after it spell `counter + 1`. */
  lemma NewIdParts(id: string, counter: nat)
    ensures var base := StripTrailingDigits(id);
      var r := NewId(id, counter);
      |base| < |r| && r[..|base|] == base &&
      StripTrailingDigits(r) == base &&
      AllDigits(r[|base|..]) && DecimalValue(r[|base|..]) == counter + 1
  {
    var base := StripTrailingDigits(id);
    var digits := NatToString(counter + 1);
    assert NewId(id, counter)[|base|..] == digits;
    StripUnique(base, digits);
    DecimalRoundTrip(counter + 1);
  }

  /** The digits an id ended in do not matter: "phone3" and "phone" get the
      same new id. */
  lemma NewIdIgnoresOldDigits(base: string, digits: string, counter: nat)
    requires AllDigits(digits)
    ensures NewId(base + digits, counter) == NewId(base, counter)
  {
    var b := StripTrailingDigits(base);
    var tail := base[|b|..];
    assert base + digits == b + (tail + digits);
    StripUnique(b, tail + digits);
  }

  /** Rewriting an already rewritten id only changes its ordinal; with the
      same counter it changes nothing. */
  lemma NewIdOfNewId(id: string, counter: nat, next: nat)
    ensures NewId(NewId(id, counter), next) == NewId(id, next)
    ensures NewId(NewId(id, counter), counter) == NewId(id, counter)
  {
    NewIdIgnoresOldDigits(StripTrailingDigits(id), NatToString(counter + 1), next);
    NewIdIgnoresOldDigits(StripTrailingDigits(id), NatToString(counter + 1), counter);
    StripUnique(StripTrailingDigits(id), []);
    assert StripTrailingDigits(id) + [] == StripTrailingDigits(id);
  }

  lemma NewIdExamples()
    ensures NewId("phone3", 3) == "phone4"
    ensures NewId("phone", 0) == "phone1"
    ensures NewId("row12", 9) == "row10"
    ensures NewId("", 2) == "3"
  {
    StripUnique("phone", "3");
    StripUnique("row", "12");
    assert "row" + "12" == "row12";
    StripUnique("phone", "");
    assert "phone" + "" == "phone";
    assert NatToString(10) == NatToString(1) + [DigitChar(0)] == "10";
  }
}
