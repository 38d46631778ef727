/** The part of `java.util.Random` that the math helpers consume: `nextInt(int bound)`,
    taken at its published contract and nothing more. */
module JavaUtil {
  import opened JavaInt

  /** The exception `nextInt` throws for a bound that is not positive. */
  datatype Exception = IllegalArgumentException

  /** A Java call that either returns a value or throws. */
  datatype Result<T> = Ok(value: T) | Err(error: Exception)

  /** One completed `nextInt(bound)` call and the value it returned. */
  datatype Draw = Draw(bound: Int32, value: Int32)

  /** A random-number generator used as an oracle: each successful draw is some value
      below its bound, and the generator remembers the draws it has made. The
      generator's own seed and algorithm are not modelled; `history` stands for its
      state. */
  class Random {
    ghost var history: seq<Draw>

    /** Every draw the generator has handed out lay in [0, bound). */
    ghost predicate Valid()
      reads this
    {
      forall i :: 0 <= i < |history| ==> 0 <= history[i].value < history[i].bound
    }

    constructor ()
      ensures Valid() && history == []
    {
      history := [];
    }

    /** `nextInt(bound)`: a value in [0, bound) when `bound` is positive, after which
        the generator has advanced by exactly that draw; otherwise the call throws
        and the generator is untouched. */
    method NextInt(bound: Int32) returns (r: Result<Int32>)
      requires Valid()
      modifies this
      ensures Valid()
      ensures r.Err? <==> bound <= 0
      ensures r.Err? ==> r.error == IllegalArgumentException && history == old(history)
      ensures r.Ok? ==> 0 <= r.value < bound && history == old(history) + [Draw(bound, r.value)]
    {
      if bound <= 0 {
        return Err(IllegalArgumentException);
      }
      var v: Int32 :| 0 <= v < bound;
      history := history + [Draw(bound, v)];
      r := Ok(v);
    }
  }
}
