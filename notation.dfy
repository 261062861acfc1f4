/**
 * The dice-notation parser of the `/roll-dice` handler: `"2d8 + 6"` is
 * split on every lower-case `d`, the first piece is read as the number of
 * dice, and the second piece must split on `+` into exactly two parts, the
 * die size and the modifier. Every Python exception the handler can meet
 * while parsing becomes a `Failure` naming it.
 */
module Notation {
  import opened Wrappers
  import opened PyStr
  import opened PyInt

  /** The triple `(num_dice, dice_type, modifier)`; Python's integers are unbounded, like `int`. */
  datatype RollSpec = RollSpec(count: int, dieSize: int, modifier: int)

  /** The exceptions that end the handler in its error response, in the order they can occur. */
  datatype Error =
    | BadCount               // ValueError from int(parts[0])
    | MissingDieTerm         // IndexError from parts[1]: no `d` in the input
    | UnpackMismatch(pieces: nat)  // ValueError: parts[1].split("+") did not give exactly two values
    | BadDieSize             // ValueError from int(dice_type.strip())
    | BadModifier            // ValueError from int(modifier.strip())
    | EmptyDieRange          // ValueError from random.randint(1, dice_type) with dice_type < 1

  /** The parsing half of the handler: the count is read before the second segment is looked for. */
  function Parse(notation: string): (r: Result<RollSpec, Error>)
    ensures r.Success? ==> 'd' in notation
    ensures r.Failure? ==> r.error != EmptyDieRange
  {
    var parts := Split(notation, 'd');
    match ParseInt(parts[0])
    case None => Failure(BadCount)
    case Some(count) =>
      if |parts| < 2 then Failure(MissingDieTerm)
      else ParseDieTerm(count, parts[1])
  }

  /** The second `d`-segment: unpacked on `+` into die size and modifier, each stripped and read as an integer. */
  function ParseDieTerm(count: int, term: string): (r: Result<RollSpec, Error>)
    ensures r.Success? ==> r.value.count == count && CountOf(term, '+') == 1
    ensures CountOf(term, '+') != 1 ==> r == Failure(UnpackMismatch(CountOf(term, '+') + 1))
    ensures r.Failure? ==> r.error != BadCount && r.error != MissingDieTerm && r.error != EmptyDieRange
  {
    var terms := Split(term, '+');
    if |terms| != 2 then Failure(UnpackMismatch(|terms|))
    else
      match ParseStripped(terms[0])
      case None => Failure(BadDieSize)
      case Some(dieSize) =>
        match ParseStripped(terms[1])
        case None => Failure(BadModifier)
        case Some(modifier) => Success(RollSpec(count, dieSize, modifier))
  }

  /** The first two `d`-segments alone decide the parse. */
  lemma ParseBySegments(s: string, a: string, b: string)
    requires |Split(s, 'd')| >= 2 && Split(s, 'd')[0] == a && Split(s, 'd')[1] == b
    ensures Parse(s) == match ParseInt(a)
      case None => Failure(BadCount)
      case Some(count) => ParseDieTerm(count, b)
  {
  }

  /** The canonical notation of a roll, `"<count>d<dieSize>+<modifier>"`. */
  function Format(spec: RollSpec): (s: string)
  {
    Show(spec.count) + "d" + Show(spec.dieSize) + "+" + Show(spec.modifier)
  }

  /**
   * On input of the grammar's shape `a + "d" + b + "+" + c`, the parse
   * succeeds exactly when `int(a)`, `int(b.strip())` and `int(c.strip())`
   * all succeed, yields their values, and otherwise names the first field
   * rejected.
   */
  lemma ParseFields(a: string, b: string, c: string)
    requires 'd' !in a && 'd' !in b && 'd' !in c
    requires '+' !in b && '+' !in c
    ensures var r := Parse(a + "d" + b + "+" + c);
      && (r.Success? <==> ParseInt(a).Some? && ParseStripped(b).Some? && ParseStripped(c).Some?)
      && (r.Success? ==> r.value == RollSpec(ParseInt(a).value, ParseStripped(b).value, ParseStripped(c).value))
      && (ParseInt(a).None? ==> r == Failure(BadCount))
      && (ParseInt(a).Some? && ParseStripped(b).None? ==> r == Failure(BadDieSize))
      && (ParseInt(a).Some? && ParseStripped(b).Some? && ParseStripped(c).None? ==> r == Failure(BadModifier))
  {
    var rest := b + "+" + c;
    assert 'd' !in rest by {
      assert forall i :: 0 <= i < |rest| ==> rest[i] == (if i < |b| then b[i] else if i == |b| then '+' else c[i - |b| - 1]);
    }
    assert a + "d" + b + "+" + c == a + ['d'] + rest;
    SplitFirst(a, 'd', rest);
    SplitNoSep(rest, 'd');
    ParseBySegments(a + "d" + b + "+" + c, a, rest);
    if ParseInt(a).Some? {
      DieTermFields(ParseInt(a).value, b, c);
    }
  }

  /** The die term `b + "+" + c` of the grammar: both fields are read with `int(x.strip())`. */
  lemma DieTermFields(count: int, b: string, c: string)
    requires '+' !in b && '+' !in c
    ensures var r := ParseDieTerm(count, b + "+" + c);
      && (r.Success? <==> ParseStripped(b).Some? && ParseStripped(c).Some?)
      && (r.Success? ==> r.value == RollSpec(count, ParseStripped(b).value, ParseStripped(c).value))
      && (ParseStripped(b).None? ==> r == Failure(BadDieSize))
      && (ParseStripped(b).Some? && ParseStripped(c).None? ==> r == Failure(BadModifier))
  {
    assert b + "+" + c == b + ['+'] + c;
    SplitFirst(b, '+', c);
    SplitNoSep(c, '+');
  }

  /**
   * A well-formed input `c + "d" + z + "+" + m`, each field an optionally
   * signed run of digits (only the count may carry a `+` sign, since a `+`
   * elsewhere would be taken as a separator), parses to exactly the three
   * values written.
   */
  lemma ParseLiterals(c: string, z: string, m: string)
    requires IsIntLiteral(c) && IsIntLiteral(z) && IsIntLiteral(m)
    requires '+' !in z && '+' !in m
    ensures Parse(c + "d" + z + "+" + m) == Success(RollSpec(LiteralValue(c), LiteralValue(z), LiteralValue(m)))
  {
    LiteralChars(c);
    LiteralChars(z);
    LiteralChars(m);
    assert 'd' !in c && 'd' !in z && 'd' !in m;
    StripClean(IntSpace, c);
    StripClean(StrSpace, z);
    StripClean(StrSpace, m);
    ParseFields(c, z, m);
  }

  /** Round trip: the canonical notation of any roll parses back to that roll. */
  lemma ParseFormat(spec: RollSpec)
    ensures Parse(Format(spec)) == Success(spec)
  {
    var a, b, c := Show(spec.count), Show(spec.dieSize), Show(spec.modifier);
    ShowIsLiteral(spec.count);
    ShowIsLiteral(spec.dieSize);
    ShowIsLiteral(spec.modifier);
    assert 'd' !in a && 'd' !in b && 'd' !in c && '+' !in b && '+' !in c;
    ParseIntShow(spec.count);
    StripClean(StrSpace, b);
    StripClean(StrSpace, c);
    ParseFields(a, b, c);
  }

  /** Whitespace is not one of the separators. */
  lemma SpaceIsNoSeparator(w: string)
    requires AllSpace(StrSpace, w)
    ensures 'd' !in w && '+' !in w
  {
  }

  /**
   * Whitespace never changes the outcome of the parse, success or error,
   * where the code meets it: around the count only what `int()` skips
   * (space and `\t\n\v\f\r`), around the die size and the modifier
   * everything `str.strip()` removes.
   */
  lemma ParsePadded(a: string, b: string, c: string,
                    w1: string, w2: string, w3: string, w4: string, w5: string, w6: string)
    requires 'd' !in a && 'd' !in b && 'd' !in c
    requires '+' !in b && '+' !in c
    requires AllSpace(IntSpace, w1) && AllSpace(IntSpace, w2)
    requires AllSpace(StrSpace, w3) && AllSpace(StrSpace, w4) && AllSpace(StrSpace, w5) && AllSpace(StrSpace, w6)
    ensures Parse(w1 + a + w2 + "d" + w3 + b + w4 + "+" + w5 + c + w6) == Parse(a + "d" + b + "+" + c)
  {
    SpaceIsNoSeparator(w1);
    SpaceIsNoSeparator(w2);
    SpaceIsNoSeparator(w3);
    SpaceIsNoSeparator(w4);
    SpaceIsNoSeparator(w5);
    SpaceIsNoSeparator(w6);
    var a', b', c' := w1 + a + w2, w3 + b + w4, w5 + c + w6;
    assert w1 + a + w2 + "d" + w3 + b + w4 + "+" + w5 + c + w6 == a' + "d" + b' + "+" + c';
    ParseFields(a', b', c');
    ParseFields(a, b, c);
    ParseIntPad(w1, a, w2);
    StripPad(StrSpace, w3, b, w4);
    StripPad(StrSpace, w5, c, w6);
  }

  /**
   * A separator character 0x1C-0x1F next to the count makes `int()` raise
   * at the count; next to the die size or the modifier it is stripped
   * away (ParsePadded).
   */
  lemma CountSeparator(c: char, a: string, t: string)
    requires c in StrSpace - IntSpace && 'd' !in a
    ensures Parse([c] + a + "d" + t) == Failure(BadCount)
    ensures Parse(a + [c] + "d" + t) == Failure(BadCount)
  {
    assert c != 'd';
    ParseIntRejectsSeparator([c] + a, 0);
    BadCountFirst([c] + a, t);
    ParseIntRejectsSeparator(a + [c], |a|);
    BadCountFirst(a + [c], t);
  }

  /** A count `int()` rejects ends the parse before anything after the `d` is looked at. */
  lemma BadCountFirst(a: string, t: string)
    requires 'd' !in a && ParseInt(a).None?
    ensures Parse(a + "d" + t) == Failure(BadCount)
  {
    assert a + "d" + t == a + ['d'] + t;
    SplitFirst(a, 'd', t);
  }

  /** An empty count field fails, as in `"d6+1"`, whatever follows the `d`. */
  lemma EmptyCount(t: string)
    ensures Parse("d" + t) == Failure(BadCount)
  {
  }

  /** An input with no lower-case `d` never parses: either its whole text is no integer, or there is no second segment. */
  lemma NoSeparatorFails(s: string)
    requires 'd' !in s
    ensures Parse(s) == Failure(if ParseInt(s).Some? then MissingDieTerm else BadCount)
  {
    SplitNoSep(s, 'd');
  }

  /** An input with exactly one `d` is read as count `a` and die term `b`. */
  lemma ParseTwoSegments(a: string, b: string)
    requires 'd' !in a && 'd' !in b
    ensures Parse(a + "d" + b) == match ParseInt(a)
      case None => Failure(BadCount)
      case Some(count) => ParseDieTerm(count, b)
  {
    assert a + "d" + b == a + ['d'] + b;
    SplitFirst(a, 'd', b);
    SplitNoSep(b, 'd');
    ParseBySegments(a + "d" + b, a, b);
  }

  /**
   * Once the count is read, the second `d`-segment `b` must hold exactly one
   * `+`; with none or several the unpacking fails. Later segments are
   * covered by TailIgnored.
   */
  lemma PlusCount(a: string, b: string)
    requires 'd' !in a && 'd' !in b
    ensures Parse(a + "d" + b).Success? ==> CountOf(b, '+') == 1
    ensures ParseInt(a).Some? && CountOf(b, '+') != 1 ==>
      Parse(a + "d" + b) == Failure(UnpackMismatch(CountOf(b, '+') + 1))
  {
    ParseTwoSegments(a, b);
  }

  /** Everything from a second `d` onwards is discarded: it cannot change the outcome. */
  lemma TailIgnored(a: string, b: string, t: string)
    requires 'd' !in a && 'd' !in b
    ensures Parse(a + "d" + b + "d" + t) == Parse(a + "d" + b)
  {
    var s := a + "d" + b + "d" + t;
    assert s == a + ['d'] + (b + ['d'] + t);
    SplitFirst(a, 'd', b + ['d'] + t);
    SplitFirst(b, 'd', t);
    ParseBySegments(s, a, b);
    ParseTwoSegments(a, b);
  }
}
