/**
 * The evaluating half of the `/roll-dice` handler: one draw of
 * `random.randint(1, dice_type)` for each of `range(num_dice)`, collected
 * in order, then `sum(dice_rolls) + modifier`. The generator is not
 * modelled: each draw is an arbitrary value of the range `randint` allows.
 */
module Roller {
  import opened Wrappers
  import opened Notation

  /** The individual rolls, in the order drawn, and the handler's `result`. */
  datatype RollOutcome = RollOutcome(rolls: seq<int>, total: int)

  /**
   * Python's `sum` over a list of integers: starting from 0, each element
   * added in turn. Values that are each at least 1, as die faces are, add
   * up to at least their number.
   */
  function Sum(s: seq<int>): (t: int)
    ensures (forall i :: 0 <= i < |s| ==> s[i] >= 1) ==> t >= |s|
  {
    if |s| == 0 then 0 else Sum(s[..|s| - 1]) + s[|s| - 1]
  }

  /** `range(n)`: the integers `0, 1, ..., n - 1`, none at all for `n <= 0`. */
  function Range(n: int): (r: seq<int>)
    ensures |r| == if n <= 0 then 0 else n
    ensures forall i :: 0 <= i < |r| ==> r[i] == i
  {
    if n <= 0 then [] else Range(n - 1) + [n - 1]
  }

  /** How often the comprehension body runs: once per element of `range(n)`. */
  function RangeLength(n: int): (k: nat)
    ensures n >= 0 ==> k == n
    ensures n <= 0 ==> k == 0
  {
    |Range(n)|
  }

  /** Every roll is a face of the die. */
  predicate OnDie(rolls: seq<int>, dieSize: int) {
    forall i :: 0 <= i < |rolls| ==> 1 <= rolls[i] <= dieSize
  }

  /** An outcome the evaluator may produce for `spec`: one roll per die, each a face, total = sum + modifier. */
  predicate IsOutcomeOf(spec: RollSpec, o: RollOutcome) {
    && |o.rolls| == RangeLength(spec.count)
    && OnDie(o.rolls, spec.dieSize)
    && o.total == Sum(o.rolls) + spec.modifier
  }

  /**
   * `randint(1, dice_type)` raises exactly when a draw happens and the
   * range `[1, dice_type]` is empty: exactly when no outcome exists.
   */
  predicate RangeFails(spec: RollSpec): (b: bool)
    ensures b <==> !exists o :: IsOutcomeOf(spec, o)
  {
    if spec.count >= 1 && spec.dieSize < 1 then
      assert forall rolls: seq<int> :: |rolls| >= 1 ==> !OnDie(rolls, spec.dieSize) by {
        forall rolls: seq<int> | |rolls| >= 1
          ensures !OnDie(rolls, spec.dieSize)
        {
          assert !(1 <= rolls[0] <= spec.dieSize);
        }
      }
      true
    else
      var rolls := seq(RangeLength(spec.count), _ => 1);
      assert IsOutcomeOf(spec, RollOutcome(rolls, Sum(rolls) + spec.modifier));
      false
  }

  /** The fewest and most the dice can add up to, with the modifier. */
  function MinTotal(spec: RollSpec): (t: int) {
    RangeLength(spec.count) + spec.modifier
  }

  function MaxTotal(spec: RollSpec): (t: int) {
    RangeLength(spec.count) * spec.dieSize + spec.modifier
  }

  /**
   * Roll the dice of `spec`. The first draw from an empty range raises,
   * as `randint` does; with no dice nothing is drawn and nothing can fail.
   */
  method Evaluate(spec: RollSpec) returns (r: Result<RollOutcome, Error>)
    ensures r.Failure? <==> RangeFails(spec)
    ensures r.Failure? ==> r.error == EmptyDieRange
    ensures r.Success? ==> IsOutcomeOf(spec, r.value)
  {
    var rolls: seq<int> := [];
    var i := 0;
    while i < spec.count
      invariant 0 <= i <= RangeLength(spec.count)
      invariant |rolls| == i
      invariant i > 0 ==> spec.dieSize >= 1
      invariant OnDie(rolls, spec.dieSize)
    {
      if spec.dieSize < 1 {
        return Failure(EmptyDieRange);
      }
      var roll :| 1 <= roll <= spec.dieSize;
      rolls := rolls + [roll];
      i := i + 1;
    }
    return Success(RollOutcome(rolls, Sum(rolls) + spec.modifier));
  }

  lemma {:induction false} SumBounds(s: seq<int>, lo: int, hi: int)
    requires forall i :: 0 <= i < |s| ==> lo <= s[i] <= hi
    ensures |s| * lo <= Sum(s) <= |s| * hi
  {
    if |s| > 0 {
      var n, t := |s| - 1, s[..|s| - 1];
      SumBounds(t, lo, hi);
      assert Sum(s) == Sum(t) + s[n];
      MulSucc(n, lo);
      MulSucc(n, hi);
    }
  }

  lemma MulSucc(n: int, x: int)
    ensures (n + 1) * x == n * x + x
  {
  }

  /** The total of any outcome lies between `count + modifier` and `count * dieSize + modifier`. */
  lemma TotalBounds(spec: RollSpec, o: RollOutcome)
    requires IsOutcomeOf(spec, o)
    ensures MinTotal(spec) <= o.total <= MaxTotal(spec)
  {
    SumBounds(o.rolls, 1, spec.dieSize);
  }

  /** A one-faced die always shows 1, so the total is fixed: the number of dice plus the modifier. */
  lemma OneFacedDie(spec: RollSpec, o: RollOutcome)
    requires spec.dieSize == 1 && IsOutcomeOf(spec, o)
    ensures o.total == RangeLength(spec.count) + spec.modifier
    ensures forall i :: 0 <= i < |o.rolls| ==> o.rolls[i] == 1
  {
    TotalBounds(spec, o);
  }

  /** With no dice to roll the total is the modifier alone. */
  lemma NoDice(spec: RollSpec, o: RollOutcome)
    requires spec.count <= 0 && IsOutcomeOf(spec, o)
    ensures o.rolls == [] && o.total == spec.modifier
  {
  }

  /**
   * The whole handler: parse, then roll. A parse error and the error from
   * `randint` end in the same error response; on success the total lies
   * within what the dice allow.
   */
  method RollDice(notation: string) returns (r: Result<int, Error>)
    ensures Parse(notation).Failure? ==> r == Failure(Parse(notation).error)
    ensures Parse(notation).Success? ==>
      var spec := Parse(notation).value;
      && (r.Failure? <==> RangeFails(spec))
      && (r.Failure? ==> r.error == EmptyDieRange)
      && (r.Success? ==> MinTotal(spec) <= r.value <= MaxTotal(spec))
  {
    var parsed := Parse(notation);
    if parsed.Failure? {
      return Failure(parsed.error);
    }
    var spec := parsed.value;
    var evaluated := Evaluate(spec);
    if evaluated.Failure? {
      return Failure(evaluated.error);
    }
    TotalBounds(spec, evaluated.value);
    return Success(evaluated.value.total);
  }
}
