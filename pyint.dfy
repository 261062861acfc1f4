/**
 * Python's `int(s)` on a string and `str(n)` on an integer, in base 10 and
 * over ASCII: `int` accepts surrounding whitespace (space and `\t\n\v\f\r`,
 * but not the separators 0x1C-0x1F that `str.strip()` also removes), one
 * optional sign and one or more decimal digits; `str` writes a `-` for
 * negative numbers and no leading zeros.
 */
module PyInt {
  import opened Wrappers
  import opened PyStr

  predicate IsDigit(c: char) {
    '0' <= c <= '9'
  }

  /** One or more decimal digits and nothing else. */
  predicate IsDigits(s: string) {
    |s| > 0 && forall i :: 0 <= i < |s| ==> IsDigit(s[i])
  }

  /** The body `int()` accepts once whitespace is stripped: an optional sign, then digits. */
  predicate IsIntLiteral(s: string) {
    IsDigits(s) || (|s| >= 2 && (s[0] == '+' || s[0] == '-') && IsDigits(s[1..]))
  }

  function DigitValue(c: char): (n: nat)
    requires IsDigit(c)
    ensures n < 10
  {
    c as int - '0' as int
  }

  /** The value of a digit string, most significant digit first. */
  function DigitsValue(s: string): (n: nat)
    requires forall i :: 0 <= i < |s| ==> IsDigit(s[i])
  {
    if |s| == 0 then 0
    else DigitsValue(s[..|s| - 1]) * 10 + DigitValue(s[|s| - 1])
  }

  function LiteralValue(s: string): (n: int)
    requires IsIntLiteral(s)
    ensures s[0] == '-' ==> n <= 0
    ensures s[0] != '-' ==> n >= 0
  {
    if IsDigits(s) then DigitsValue(s)
    else if s[0] == '-' then -(DigitsValue(s[1..]) as int)
    else DigitsValue(s[1..])
  }

  /** `int(s)`: `None` stands for the `ValueError` Python raises. */
  function ParseInt(s: string): (r: Option<int>)
    ensures r.Some? <==> IsIntLiteral(Strip(IntSpace, s))
  {
    var t := Strip(IntSpace, s);
    if IsIntLiteral(t) then Some(LiteralValue(t)) else None
  }

  /**
   * `int(s.strip())`: the numeral between the whitespace `str.strip()`
   * removes. Nothing is left for `int()` to skip, so the result is read
   * off that middle piece directly.
   */
  function ParseStripped(s: string): (r: Option<int>)
    ensures r.Some? <==> IsIntLiteral(Strip(StrSpace, s))
    ensures r.Some? ==> r.value == LiteralValue(Strip(StrSpace, s))
  {
    ParseInt(Strip(StrSpace, s))
  }

  /** The decimal digits of a natural number, without leading zeros. */
  function NatDigits(n: nat): (s: string)
    ensures IsDigits(s)
    ensures s[0] == '0' ==> n == 0
  {
    if n < 10 then ['0' + n as char]
    else NatDigits(n / 10) + ['0' + (n % 10) as char]
  }

  /** `str(n)`. */
  function Show(n: int): (s: string)
  {
    if n < 0 then "-" + NatDigits(-n) else NatDigits(n)
  }

  lemma {:induction false} DigitsValueNatDigits(n: nat)
    ensures DigitsValue(NatDigits(n)) == n
  {
    if n >= 10 {
      var s := NatDigits(n);
      assert s[..|s| - 1] == NatDigits(n / 10);
      DigitsValueNatDigits(n / 10);
    }
  }

  /** What `str` writes is a literal `int` reads back, with no whitespace, `+`, or `d` in it. */
  lemma ShowIsLiteral(n: int)
    ensures IsIntLiteral(Show(n)) && LiteralValue(Show(n)) == n
    ensures forall i :: 0 <= i < |Show(n)| ==> Show(n)[i] !in StrSpace && Show(n)[i] != '+' && Show(n)[i] != 'd'
  {
    var s := Show(n);
    if n < 0 {
      assert s[1..] == NatDigits(-n);
      DigitsValueNatDigits(-n);
    } else {
      DigitsValueNatDigits(n);
    }
  }

  /** Round trip: `int(str(n)) == n`. */
  lemma ParseIntShow(n: int)
    ensures ParseInt(Show(n)) == Some(n)
  {
    ShowIsLiteral(n);
    StripClean(IntSpace, Show(n));
  }

  /** A character that may appear in something `int()` accepts. */
  predicate IsNumeralChar(c: char) {
    c in IntSpace || IsDigit(c) || c == '+' || c == '-'
  }

  predicate AllNumeralChars(s: string) {
    forall i :: 0 <= i < |s| ==> IsNumeralChar(s[i])
  }

  /** A literal contains no whitespace, no `d`, and no `+` except as its leading sign. */
  lemma LiteralChars(s: string)
    requires IsIntLiteral(s)
    ensures forall i :: 0 <= i < |s| ==> s[i] !in StrSpace && s[i] != 'd'
    ensures forall i :: 0 < i < |s| ==> s[i] != '+'
    ensures AllNumeralChars(s)
  {
  }

  /** `int()` ignores the whitespace it skips around its argument: space and `\t\n\v\f\r`. */
  lemma ParseIntPad(w1: string, x: string, w2: string)
    requires AllSpace(IntSpace, w1) && AllSpace(IntSpace, w2)
    ensures ParseInt(w1 + x + w2) == ParseInt(x)
  {
    StripPad(IntSpace, w1, x, w2);
  }

  /**
   * A separator character 0x1C-0x1F next to a numeral makes `int()` raise,
   * while `int(s.strip())` removes it and reads the numeral: the explicit
   * `strip()` decides the outcome.
   */
  lemma ParseIntSeparatorPad(c: char, x: string)
    requires c in StrSpace - IntSpace
    ensures ParseInt([c] + x) == None && ParseInt(x + [c]) == None
    ensures ParseStripped([c] + x) == ParseStripped(x) == ParseStripped(x + [c])
  {
    ParseIntRejectsSeparator([c] + x, 0);
    ParseIntRejectsSeparator(x + [c], |x|);
    StripOneChar(StrSpace, c, x);
  }

  /** `int()` rejects a string holding a separator character 0x1C-0x1F anywhere. */
  lemma ParseIntRejectsSeparator(s: string, k: nat)
    requires k < |s| && s[k] in StrSpace - IntSpace
    ensures ParseInt(s) == None
  {
    ParseIntChars(s);
    assert !IsNumeralChar(s[k]);
  }

  /** `int()` accepts only whitespace, signs and digits, and not a blank string: anything else is rejected. */
  lemma ParseIntChars(s: string)
    ensures ParseInt(s).Some? ==> !AllSpace(IntSpace, s) && AllNumeralChars(s)
  {
    if ParseInt(s).None? {
      return;
    }
    var r := Strip(IntSpace, s);
    var i := |s| - |TrimStart(IntSpace, s)|;
    var j := i + |r|;
    StripShape(IntSpace, s);
    LiteralChars(r);
    forall k | 0 <= k < |s| ensures IsNumeralChar(s[k]) {
      if i <= k < j {
        assert r[k - i] == s[k];
      }
    }
    assert s[i] == r[0];
  }
}
