/**
 * The two Python string methods the dice parser relies on:
 * `str.split(sep)` with a one-character separator and `str.strip()`.
 * Stripping is written once, as Python's `s.strip(chars)`, and used with
 * the two whitespace sets CPython has for ASCII text: the one `str.strip()`
 * removes and the narrower one `int()` skips around a numeral.
 */
module PyStr {

  /** What `int()` skips around a numeral, in ASCII: space and `\t\n\v\f\r`. */
  const IntSpace: set<char> := {' ', 9 as char, 10 as char, 11 as char, 12 as char, 13 as char}

  /** What `str.strip()` removes, in ASCII: those and the separators 0x1C-0x1F. */
  const StrSpace: set<char> := IntSpace + {28 as char, 29 as char, 30 as char, 31 as char}

  /** Every character of `s` is one of `ws`. */
  predicate AllSpace(ws: set<char>, s: string) {
    forall i :: 0 <= i < |s| ==> s[i] in ws
  }

  /** Number of occurrences of `c` in `s`. */
  function CountOf(s: string, c: char): (n: nat)
    ensures n == 0 <==> c !in s
    ensures n <= |s|
  {
    if |s| == 0 then 0
    else (if s[0] == c then 1 else 0) + CountOf(s[1..], c)
  }

  /**
   * `s.split(sep)`: the pieces between consecutive occurrences of `sep`.
   * There is always one piece more than there are separators, and no piece
   * holds the separator.
   */
  function Split(s: string, sep: char): (r: seq<string>)
    ensures |r| == CountOf(s, sep) + 1
    ensures forall i :: 0 <= i < |r| ==> sep !in r[i]
  {
    if |s| == 0 then [""]
    else
      var rest := Split(s[1..], sep);
      if s[0] == sep then [""] + rest
      else [[s[0]] + rest[0]] + rest[1..]
  }

  /** `sep.join(parts)`: the inverse of Split. */
  function Join(parts: seq<string>, sep: char): (s: string)
    requires |parts| >= 1
    ensures |s| >= |parts| - 1
  {
    if |parts| == 1 then parts[0]
    else parts[0] + [sep] + Join(parts[1..], sep)
  }

  /** A string without the separator splits into itself alone. */
  lemma {:induction false} SplitNoSep(s: string, sep: char)
    requires sep !in s
    ensures Split(s, sep) == [s]
  {
    if |s| > 0 {
      assert sep !in s[1..];
      SplitNoSep(s[1..], sep);
      assert [s[0]] + s[1..] == s;
    }
  }

  /** Splitting at the first separator: the text before it is the first piece. */
  lemma {:induction false} SplitFirst(x: string, sep: char, y: string)
    requires sep !in x
    ensures Split(x + [sep] + y, sep) == [x] + Split(y, sep)
  {
    var s := x + [sep] + y;
    if |x| > 0 {
      assert s[1..] == x[1..] + [sep] + y;
      SplitFirst(x[1..], sep, y);
      assert [x[0]] + x[1..] == x;
    } else {
      assert s[1..] == y;
    }
  }

  /** Joining the pieces of a split gives the original string back. */
  lemma {:induction false} JoinSplit(s: string, sep: char)
    ensures Join(Split(s, sep), sep) == s
  {
    if sep !in s {
      SplitNoSep(s, sep);
    } else {
      var i :| 0 <= i < |s| && s[i] == sep;
      var k := FirstIndex(s, sep);
      var x, y := s[..k], s[k + 1..];
      assert s == x + [sep] + y;
      SplitFirst(x, sep, y);
      JoinSplit(y, sep);
      var r := Split(s, sep);
      assert r[1..] == Split(y, sep);
    }
  }

  /** Splitting a join of separator-free pieces gives the pieces back. */
  lemma {:induction false} SplitJoin(parts: seq<string>, sep: char)
    requires |parts| >= 1
    requires forall i :: 0 <= i < |parts| ==> sep !in parts[i]
    ensures Split(Join(parts, sep), sep) == parts
  {
    if |parts| == 1 {
      SplitNoSep(parts[0], sep);
    } else {
      SplitJoin(parts[1..], sep);
      SplitFirst(parts[0], sep, Join(parts[1..], sep));
    }
  }

  /** Index of the first occurrence of `c` in `s`. */
  function FirstIndex(s: string, c: char): (k: nat)
    requires c in s
    ensures k < |s| && s[k] == c && c !in s[..k]
  {
    if s[0] == c then 0 else 1 + FirstIndex(s[1..], c)
  }

  /** `s.lstrip(ws)`: the longest suffix of `s` that does not start with a character of `ws`. */
  function TrimStart(ws: set<char>, s: string): (r: string)
    ensures |r| <= |s| && r == s[|s| - |r|..]
    ensures AllSpace(ws, s[..|s| - |r|])
    ensures |r| > 0 ==> r[0] !in ws
  {
    if |s| > 0 && s[0] in ws then TrimStart(ws, s[1..]) else s
  }

  /** `s.rstrip(ws)`: the longest prefix of `s` that does not end with a character of `ws`. */
  function TrimEnd(ws: set<char>, s: string): (r: string)
    ensures |r| <= |s| && r == s[..|r|]
    ensures AllSpace(ws, s[|r|..])
    ensures |r| > 0 ==> r[|r| - 1] !in ws
  {
    if |s| > 0 && s[|s| - 1] in ws then TrimEnd(ws, s[..|s| - 1]) else s
  }

  /** `s.strip(ws)`: `s` without its leading and trailing characters of `ws`; `s.strip()` is `Strip(StrSpace, s)`. */
  function Strip(ws: set<char>, s: string): (r: string)
    ensures |r| <= |s|
    ensures |r| > 0 ==> r[0] !in ws && r[|r| - 1] !in ws
  {
    var t := TrimStart(ws, s);
    var r := TrimEnd(ws, t);
    assert |r| > 0 ==> r[0] == t[0];
    r
  }

  /** What strip keeps is the piece of `s` between its leading and its trailing whitespace. */
  lemma StripShape(ws: set<char>, s: string)
    ensures var i, r := |s| - |TrimStart(ws, s)|, Strip(ws, s);
      && i + |r| <= |s|
      && (forall k :: 0 <= k < |r| ==> r[k] == s[i + k])
      && (forall k :: 0 <= k < i ==> s[k] in ws)
      && (forall k :: i + |r| <= k < |s| ==> s[k] in ws)
  {
    StripKept(ws, s);
    StripLeading(ws, s);
    StripTrailing(ws, s);
  }

  lemma StripKept(ws: set<char>, s: string)
    ensures var i, r := |s| - |TrimStart(ws, s)|, Strip(ws, s);
      && i + |r| <= |s|
      && forall k :: 0 <= k < |r| ==> r[k] == s[i + k]
  {
    assert Strip(ws, s) == TrimEnd(ws, TrimStart(ws, s));
  }

  lemma StripLeading(ws: set<char>, s: string)
    ensures forall k :: 0 <= k < |s| - |TrimStart(ws, s)| ==> s[k] in ws
  {
    var i := |s| - |TrimStart(ws, s)|;
    forall k | 0 <= k < i
      ensures s[k] in ws
    {
      assert s[..i][k] == s[k];
    }
  }

  lemma StripTrailing(ws: set<char>, s: string)
    ensures var i, r := |s| - |TrimStart(ws, s)|, Strip(ws, s);
      forall k :: i + |r| <= k < |s| ==> s[k] in ws
  {
    var t := TrimStart(ws, s);
    var r := TrimEnd(ws, t);
    var i := |s| - |t|;
    assert Strip(ws, s) == r;
    forall k | i + |r| <= k < |s|
      ensures s[k] in ws
    {
      assert t[|r|..][k - i - |r|] == s[k];
    }
  }

  lemma {:induction false} TrimStartPad(ws: set<char>, w: string, x: string)
    requires AllSpace(ws, w)
    ensures TrimStart(ws, w + x) == TrimStart(ws, x)
  {
    if |w| > 0 {
      assert (w + x)[1..] == w[1..] + x;
      TrimStartPad(ws, w[1..], x);
    } else {
      assert w + x == x;
    }
  }

  lemma {:induction false} TrimEndPad(ws: set<char>, x: string, w: string)
    requires AllSpace(ws, w)
    ensures TrimEnd(ws, x + w) == TrimEnd(ws, x)
  {
    if |w| > 0 {
      assert (x + w)[..|x + w| - 1] == x + w[..|w| - 1];
      TrimEndPad(ws, x, w[..|w| - 1]);
    } else {
      assert x + w == x;
    }
  }

  /** Leading whitespace is removed before trailing whitespace is looked at. */
  lemma {:induction false} TrimStartAppend(ws: set<char>, x: string, w: string)
    requires !AllSpace(ws, x)
    ensures TrimStart(ws, x + w) == TrimStart(ws, x) + w
  {
    if x[0] in ws {
      assert (x + w)[1..] == x[1..] + w;
      assert !AllSpace(ws, x[1..]) by {
        var j :| 0 <= j < |x| && x[j] !in ws;
        assert x[1..][j - 1] == x[j];
      }
      TrimStartAppend(ws, x[1..], w);
    }
  }

  /** Whitespace added around a string does not change what strip returns. */
  lemma StripPad(ws: set<char>, w1: string, x: string, w2: string)
    requires AllSpace(ws, w1) && AllSpace(ws, w2)
    ensures Strip(ws, w1 + x + w2) == Strip(ws, x)
  {
    assert w1 + x + w2 == w1 + (x + w2);
    TrimStartPad(ws, w1, x + w2);
    if AllSpace(ws, x) {
      assert AllSpace(ws, x + w2);
      TrimStartPad(ws, x + w2, []);
      TrimStartPad(ws, x, []);
      assert x + w2 + [] == x + w2 && x + [] == x;
    } else {
      TrimStartAppend(ws, x, w2);
      TrimEndPad(ws, TrimStart(ws, x), w2);
    }
  }

  /** One character of `ws` on either side of `x` is stripped away. */
  lemma StripOneChar(ws: set<char>, c: char, x: string)
    requires c in ws
    ensures Strip(ws, [c] + x) == Strip(ws, x) == Strip(ws, x + [c])
  {
    StripLeadingChar(ws, c, x);
    StripTrailingChar(ws, c, x);
  }

  lemma StripLeadingChar(ws: set<char>, c: char, x: string)
    requires c in ws
    ensures Strip(ws, [c] + x) == Strip(ws, x)
  {
    TrimStartPad(ws, [c], x);
  }

  lemma StripTrailingChar(ws: set<char>, c: char, x: string)
    requires c in ws
    ensures Strip(ws, x + [c]) == Strip(ws, x)
  {
    StripPad(ws, [], x, [c]);
    assert [] + x + [c] == x + [c];
  }

  /** Stripping twice is the same as stripping once. */
  lemma StripIdempotent(ws: set<char>, s: string)
    ensures Strip(ws, Strip(ws, s)) == Strip(ws, s)
  {
  }

  /** A string with no whitespace at its ends is left alone by strip. */
  lemma StripClean(ws: set<char>, s: string)
    requires |s| > 0 ==> s[0] !in ws && s[|s| - 1] !in ws
    ensures Strip(ws, s) == s
  {
  }
}
