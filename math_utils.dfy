/** The inclusive-range integer helpers of `com.badlogic.gdx.math.MathUtils`:
    `random(range)` and `random(start, end)`, drawing from a shared `java.util.Random`.

    Both helpers are one `nextInt` call on a width computed in Java `int` arithmetic.
    The width arithmetic and the set of values each helper can return are pure
    functions; the helpers themselves are methods that advance the generator. */
module GdxMath {
  import opened JavaInt
  import opened JavaUtil

  // ---------------------------------------------------------------------------
  // Width arithmetic

  /** The bound `random(range)` hands to `nextInt`: Java `range + 1`. It is positive,
      so the call can succeed, exactly when `range` is in [0, MAX_VALUE), and it is
      then the number of values in [0, range]. */
  function UpToBound(range: Int32): (b: Int32)
    ensures 0 < b <==> 0 <= range < MAX_VALUE
    ensures 0 < b ==> b == range + 1
  {
    if range == MAX_VALUE then
      WrapUnique(range + 1, MIN_VALUE);
      Add(range, 1)
    else
      Add(range, 1)
  }

  /** The bound `random(start, end)` hands to `nextInt`: Java `end - start + 1`. It is
      the true width reduced modulo 2^32, so it is positive when the width
      `end - start + 1` is a positive `int`, and also when `end` lies so far below
      `start` that the negative width wraps round to a positive one. */
  function BetweenBound(start: Int32, end: Int32): (b: Int32)
    ensures b == Wrap(end - start + 1)
    ensures 0 < b <==> 0 <= end - start < MAX_VALUE || end - start <= MIN_VALUE - 2
    ensures 0 <= end - start < MAX_VALUE ==> b == end - start + 1
  {
    WrapAdd(end - start, 1);
    WidthSign(end - start + 1);
    Add(Sub(end, start), 1)
  }

  /** Where a width in [MIN_VALUE - MAX_VALUE + 1, 2 * MAX_VALUE + 2] lands once wrapped. */
  lemma WidthSign(w: int)
    requires MIN_VALUE - MAX_VALUE + 1 <= w <= MODULUS
    ensures MIN_VALUE <= w <= MAX_VALUE ==> Wrap(w) == w
    ensures MAX_VALUE < w ==> Wrap(w) == w - MODULUS && Wrap(w) <= 0
    ensures w < MIN_VALUE ==> Wrap(w) == w + MODULUS && 0 < Wrap(w)
  {
  }

  // ---------------------------------------------------------------------------
  // What each helper can return

  /** `v` is a value `random(range)` can return: a draw below its bound, which the
      helper returns unchanged. */
  predicate UpToOutcome(range: Int32, v: Int32) {
    0 <= v < UpToBound(range)
  }

  /** `v` is a value `random(start, end)` can return: `start` plus some draw below
      its bound, added in Java `int` arithmetic. */
  ghost predicate BetweenOutcome(start: Int32, end: Int32, v: Int32) {
    exists d: Int32 :: 0 <= d < BetweenBound(start, end) && Add(start, d) == v
  }

  /** `random(range)` returns exactly the values in [0, range], inclusive at both ends,
      whenever `range + 1` does not overflow; otherwise it returns nothing (it throws). */
  lemma UpToOutcomesExact(range: Int32)
    ensures range < MAX_VALUE ==> forall v: Int32 :: UpToOutcome(range, v) <==> 0 <= v <= range
    ensures range == MAX_VALUE ==> forall v: Int32 :: !UpToOutcome(range, v)
  {
  }

  /** With a width that fits, `start + draw` never overflows, and `random(start, end)`
      returns exactly the values in [start, end], inclusive at both ends. */
  lemma BetweenOutcomesExact(start: Int32, end: Int32)
    requires start <= end && end - start < MAX_VALUE
    ensures forall d: Int32 :: 0 <= d < BetweenBound(start, end) ==> Add(start, d) == start + d
    ensures forall v: Int32 :: BetweenOutcome(start, end, v) <==> start <= v <= end
  {
    var b := BetweenBound(start, end);
    forall v: Int32 | BetweenOutcome(start, end, v)
      ensures start <= v <= end
    {
      var d: Int32 :| 0 <= d < b && Add(start, d) == v;
      assert start <= start + d <= end;
    }
    forall v: Int32 | start <= v <= end
      ensures BetweenOutcome(start, end, v)
    {
      var d: Int32 := v - start;
      assert 0 <= d < b && Add(start, d) == v;
    }
  }

  /** The degenerate ranges have a single outcome: `random(0) == 0` and
      `random(s, s) == s`, because the bound is 1 and the only draw is 0. */
  lemma DegenerateOutcomes(s: Int32)
    ensures forall v: Int32 :: UpToOutcome(0, v) <==> v == 0
    ensures forall v: Int32 :: BetweenOutcome(s, s, v) <==> v == s
  {
    UpToOutcomesExact(0);
    BetweenOutcomesExact(s, s);
  }

  // ---------------------------------------------------------------------------
  // Reversed ranges, as written and as intended

  /** As written, a reversed range far enough apart is not rejected: its width wraps
      to a positive bound and the call can return `start`, a value above `end`. */
  lemma ReversedRangeAccepted(start: Int32, end: Int32)
    requires end - start <= MIN_VALUE - 2
    ensures end < start
    ensures 0 < BetweenBound(start, end)
    ensures BetweenOutcome(start, end, start)
  {
    assert Add(start, 0) == start;
  }

  /** The concrete case: `random(1, 0)` throws, while `random(MAX_VALUE, MIN_VALUE)`
      returns MAX_VALUE or MIN_VALUE. */
  lemma ReversedRangeExample()
    ensures BetweenBound(1, 0) <= 0 && forall v: Int32 :: !BetweenOutcome(1, 0, v)
    ensures forall v: Int32 :: BetweenOutcome(MAX_VALUE, MIN_VALUE, v) <==> v == MAX_VALUE || v == MIN_VALUE
  {
    var b := BetweenBound(MAX_VALUE, MIN_VALUE);
    assert b == 2;
    WrapUnique(MAX_VALUE + 1, MIN_VALUE);
    assert Add(MAX_VALUE, 0) == MAX_VALUE && Add(MAX_VALUE, 1) == MIN_VALUE;
    forall v: Int32 | BetweenOutcome(MAX_VALUE, MIN_VALUE, v)
      ensures v == MAX_VALUE || v == MIN_VALUE
    {
      var d: Int32 :| 0 <= d < b && Add(MAX_VALUE, d) == v;
      assert d == 0 || d == 1;
    }
  }

  /** The width check the helper evidently intends: the width computed without
      overflow (as a Java `long` would), and a non-positive bound, which `nextInt`
      rejects, whenever that width is not a positive `int`. Wherever it accepts, it
      hands `nextInt` the same bound as the source; it disagrees with the source
      exactly on the reversed ranges whose width wraps to a positive `int`. */
  function CheckedBetweenBound(start: Int32, end: Int32): (b: Int32)
    ensures 0 < b <==> start <= end && end - start < MAX_VALUE
    ensures 0 < b ==> b == end - start + 1
    ensures 0 < b ==> b == BetweenBound(start, end)
    ensures (0 < b) != (0 < BetweenBound(start, end)) <==> end - start <= MIN_VALUE - 2
  {
    var width := end - start + 1;
    if 0 < width <= MAX_VALUE then width else 0
  }

  /** `v` is a value the corrected helper can return. */
  ghost predicate CheckedBetweenOutcome(start: Int32, end: Int32, v: Int32) {
    exists d: Int32 :: 0 <= d < CheckedBetweenBound(start, end) && Add(start, d) == v
  }

  /** The corrected helper never returns a value outside [start, end], for any
      arguments, and returns every value in it whenever the width fits in an `int`. */
  lemma CheckedBetweenInRange(start: Int32, end: Int32)
    ensures forall v: Int32 :: CheckedBetweenOutcome(start, end, v) ==> start <= v <= end
    ensures start <= end && end - start < MAX_VALUE ==>
              forall v: Int32 :: CheckedBetweenOutcome(start, end, v) <==> start <= v <= end
  {
    if start <= end && end - start < MAX_VALUE {
      BetweenOutcomesExact(start, end);
      forall v: Int32
        ensures CheckedBetweenOutcome(start, end, v) <==> BetweenOutcome(start, end, v)
      {
        assert CheckedBetweenBound(start, end) == BetweenBound(start, end);
      }
    } else {
      assert CheckedBetweenBound(start, end) <= 0;
    }
  }

  // ---------------------------------------------------------------------------
  // The helpers

  class MathUtils {
    /** The shared generator every helper draws from. In the source it is a public
        static field that callers may replace; here it is injected. */
    var random: Random

    constructor (random: Random)
      ensures this.random == random
    {
      this.random := random;
    }

    /** `random(range)`: one draw with bound `range + 1`, returned as it is; a value in
        [0, range], or the exception `nextInt` throws for a non-positive bound. */
    method RandomUpTo(range: Int32) returns (r: Result<Int32>)
      requires random.Valid()
      modifies random
      ensures random.Valid()
      ensures r.Err? <==> UpToBound(range) <= 0
      ensures r.Err? ==> r.error == IllegalArgumentException && random.history == old(random.history)
      ensures r.Ok? ==> random.history == old(random.history) + [Draw(UpToBound(range), r.value)]
      ensures r.Ok? ==> 0 <= r.value <= range && UpToOutcome(range, r.value)
      ensures range == 0 ==> r == Ok(0)
    {
      r := random.NextInt(Add(range, 1));
    }

    /** `random(start, end)`: one draw with bound `end - start + 1`, added to `start`;
        a value in [start, end] whenever `start <= end`, or the exception `nextInt`
        throws for a non-positive bound. */
    method RandomBetween(start: Int32, end: Int32) returns (r: Result<Int32>)
      requires random.Valid()
      modifies random
      ensures random.Valid()
      ensures r.Err? <==> BetweenBound(start, end) <= 0
      ensures r.Err? ==> r.error == IllegalArgumentException && random.history == old(random.history)
      ensures r.Ok? ==> exists d :: random.history == old(random.history) + [Draw(BetweenBound(start, end), d)]
                                    && r.value == Add(start, d)
      ensures r.Ok? ==> BetweenOutcome(start, end, r.value)
      ensures r.Ok? && start <= end ==> start <= r.value <= end
      ensures start == end ==> r == Ok(start)
    {
      var draw := random.NextInt(Add(Sub(end, start), 1));
      match draw
      case Err(e) =>
        r := Err(e);
      case Ok(d) =>
        r := Ok(Add(start, d));
        assert start <= end ==> Add(start, d) == start + d;
    }

    /** `random(start, end)` with the corrected width check: a value in [start, end]
        for any arguments, or the exception for a reversed or over-wide range. */
    method RandomBetweenChecked(start: Int32, end: Int32) returns (r: Result<Int32>)
      requires random.Valid()
      modifies random
      ensures random.Valid()
      ensures r.Err? <==> !(start <= end && end - start < MAX_VALUE)
      ensures r.Err? ==> r.error == IllegalArgumentException && random.history == old(random.history)
      ensures r.Ok? ==> start <= r.value <= end && CheckedBetweenOutcome(start, end, r.value)
      ensures r.Ok? ==> random.history == old(random.history) + [Draw(end - start + 1, r.value - start)]
    {
      var draw := random.NextInt(CheckedBetweenBound(start, end));
      match draw
      case Err(e) =>
        r := Err(e);
      case Ok(d) =>
        r := Ok(Add(start, d));
    }
  }
}
