# libGDX `MathUtils` inclusive random integers

A Dafny model of the two inclusive-range integer helpers of
`com.badlogic.gdx.math.MathUtils` and the shared `java.util.Random` they draw from:

- `random(range)` returns `random.nextInt(range + 1)`, a value in `[0, range]`;
- `random(start, end)` returns `start + random.nextInt(end - start + 1)`, a value in
  `[start, end]`.

Files:

- `java_int.dfy` (module `JavaInt`): Java's 32-bit `int` as the subset type `Int32`,
  and `Wrap`, the reduction modulo 2^32 that Java `+` and `-` perform on overflow.
  `Add` and `Sub` are Java `a + b` and `a - b`.
- `java_util.dfy` (module `JavaUtil`): `java.util.Random` as an oracle class. `NextInt`
  returns some value in `[0, bound)` and records the draw in the ghost `history`. It
  throws `IllegalArgumentException` (modelled as `Err`) when the bound is not positive,
  as the Java SE API specifies, and then leaves the generator untouched.
- `math_utils.dfy` (module `GdxMath`): the bound each helper passes to `nextInt`
  (`UpToBound`, `BetweenBound`); the values each helper can return (`UpToOutcome`,
  `BetweenOutcome`); and the class `MathUtils`, whose `random` field is the shared
  generator and whose methods `RandomUpTo` and `RandomBetween` are the two overloads
  of `random`. Dafny has no overloading, hence the two names.

Both helpers let the exception from `nextInt` propagate. The model therefore states
exactly when they throw, instead of requiring callers to avoid it:

- `random(range)` succeeds iff `0 <= range < Integer.MAX_VALUE`. For
  `range == MAX_VALUE`, `range + 1` wraps to `MIN_VALUE`.
- `random(start, end)` succeeds iff the wrapped width `end - start + 1` is positive.
  That holds when `0 <= end - start < MAX_VALUE`. It also holds when `end` lies at
  least `2^31 + 2` below `start`, because the negative width then wraps to a positive
  one (see Findings).
- When the width fits, `start + draw` never overflows, and the helper returns exactly
  the values of `[start, end]`.

## Model

| member | source | states |
|---|---|---|
| `JavaInt.Wrap` | gdx-lib/src/main/java/com/badlogic/gdx/math/MathUtils.java:42 | Java `int` arithmetic gives a result in `int` range that agrees with the exact result modulo 2^32, and equals the exact result when that result fits |
| `JavaInt.WrapUnique` | gdx-lib/src/main/java/com/badlogic/gdx/math/MathUtils.java:42 | the `int` that agrees with a value modulo 2^32 is unique, so `Wrap` is the only possible Java result |
| `JavaInt.WrapAdd` | gdx-lib/src/main/java/com/badlogic/gdx/math/MathUtils.java:42 | computing `end - start` and then `+ 1` in `int`, step by step, gives the exact width reduced modulo 2^32 |
| `JavaUtil.Random.constructor` | gdx-lib/src/main/java/com/badlogic/gdx/math/MathUtils.java:29 | a fresh generator has made no draws |
| `JavaUtil.Random.NextInt` | gdx-lib/src/main/java/com/badlogic/gdx/math/MathUtils.java:35 | `nextInt(bound)` throws `IllegalArgumentException` iff `bound <= 0`, and then changes nothing; otherwise it returns a value in `[0, bound)` and the generator advances by exactly that draw |
| `GdxMath.UpToBound` | gdx-lib/src/main/java/com/badlogic/gdx/math/MathUtils.java:35 | the bound `range + 1` is positive iff `0 <= range < MAX_VALUE`, and is then the number of values in `[0, range]` |
| `GdxMath.BetweenBound` | gdx-lib/src/main/java/com/badlogic/gdx/math/MathUtils.java:42 | the bound `end - start + 1` is the exact width modulo 2^32; it is positive iff `0 <= end - start < MAX_VALUE` or `end - start <= MIN_VALUE - 2`; it is the exact width when that width fits |
| `GdxMath.UpToOutcomesExact` | gdx-lib/src/main/java/com/badlogic/gdx/math/MathUtils.java:31-36 | `random(range)` can return `v` iff `0 <= v <= range`, inclusive at both ends, when `range < MAX_VALUE`; for `range == MAX_VALUE` it can return nothing |
| `GdxMath.BetweenOutcomesExact` | gdx-lib/src/main/java/com/badlogic/gdx/math/MathUtils.java:38-43 | when `start <= end` and the width fits, `start + draw` equals the exact sum for every draw below the bound (no overflow), and `random(start, end)` can return `v` iff `start <= v <= end` |
| `GdxMath.DegenerateOutcomes` | gdx-lib/src/main/java/com/badlogic/gdx/math/MathUtils.java:34-43 | `random(0)` can only return 0, and `random(s, s)` can only return `s` |
| `GdxMath.ReversedRangeAccepted` | gdx-lib/src/main/java/com/badlogic/gdx/math/MathUtils.java:42 | when `end - start <= MIN_VALUE - 2`, `end < start` and yet the bound is positive, so the call succeeds and can return `start`, which lies above `end` |
| `GdxMath.ReversedRangeExample` | gdx-lib/src/main/java/com/badlogic/gdx/math/MathUtils.java:42 | `random(1, 0)` can return nothing (it throws), while `random(MAX_VALUE, MIN_VALUE)` returns exactly `MAX_VALUE` or `MIN_VALUE` |
| `GdxMath.CheckedBetweenBound` | gdx-lib/src/main/java/com/badlogic/gdx/math/MathUtils.java:41-43 | corrected width check: the bound is positive iff `start <= end` and `end - start < MAX_VALUE`, and is then the exact width; wherever it accepts, it passes the same bound as the source's `BetweenBound`; it accepts or rejects differently from the source exactly when `end - start <= MIN_VALUE - 2`, the wrapped reversed ranges |
| `GdxMath.CheckedBetweenInRange` | gdx-lib/src/main/java/com/badlogic/gdx/math/MathUtils.java:38-43 | with the corrected check, every possible result lies in `[start, end]` for all arguments, and every value of `[start, end]` is possible when the width fits |
| `GdxMath.MathUtils.constructor` | gdx-lib/src/main/java/com/badlogic/gdx/math/MathUtils.java:29 | the helpers draw from the generator they are given |
| `GdxMath.MathUtils.RandomUpTo` | gdx-lib/src/main/java/com/badlogic/gdx/math/MathUtils.java:34-36 | throws iff the bound `range + 1` is not positive, leaving the generator as it was; otherwise makes exactly one draw with bound `range + 1` and returns that draw, a value in `[0, range]`; `random(0)` returns 0; only the generator changes |
| `GdxMath.MathUtils.RandomBetween` | gdx-lib/src/main/java/com/badlogic/gdx/math/MathUtils.java:41-43 | throws iff the wrapped width is not positive, leaving the generator as it was; otherwise makes exactly one draw with the wrapped width as bound and returns `start + draw` in `int` arithmetic; the result lies in `[start, end]` whenever `start <= end`; `random(s, s)` returns `s`; only the generator changes |
| `GdxMath.MathUtils.RandomBetweenChecked` | gdx-lib/src/main/java/com/badlogic/gdx/math/MathUtils.java:41-43 | corrected helper: throws iff `end < start` or the width does not fit in an `int`; otherwise makes one draw with bound `end - start + 1` and returns a value in `[start, end]` |

## Left out

- `JavaUtil.Random.NextInt`: states only that the draw lies in `[0, bound)`. The Java SE promise that values are uniformly distributed is probabilistic and cannot be stated here. The same applies to the "equal probability" of the helpers.
- The generator's 48-bit seed and linear-congruential algorithm are not modelled. The ghost `history` of draws stands for its state, and the draw itself is chosen nondeterministically.
- `new Random()` seeds itself from the clock. The model instead injects a generator into `MathUtils`.
- The source's `random` is a public static field that any code may replace. The model holds it as a per-object field, and concurrent use of the shared generator is not modelled.
- gdx-lib/src/main/java/com/badlogic/gdx/utils/reflect/ClassReflection.java is not part of this model. It only forwards to JVM reflection.
- This repository's `MathUtils.java` defines only the `random` field and the two integer helpers; upstream libGDX's lookup tables, fast rounding, scalar helpers and other random helpers are not present and are not modelled.

## Findings

| source | as written | input that shows it | evidently intended | confidence | as-written member | corrected member |
|---|---|---|---|---|---|---|
| gdx-lib/src/main/java/com/badlogic/gdx/math/MathUtils.java:42 | the width `end - start + 1` is computed in 32-bit `int`, so a reversed range wide enough apart wraps to a positive bound | `random(2147483647, -2147483648)` returns 2147483647 or -2147483648, although `end < start`. `random(1, 0)` throws | a reversed range is always rejected, with the width computed without overflow | medium, not executed | `GdxMath.ReversedRangeExample` | `GdxMath.CheckedBetweenInRange` |

`GdxMath.MathUtils.RandomBetween` keeps the source's behaviour. `GdxMath.MathUtils.RandomBetweenChecked` is the corrected helper built on `GdxMath.CheckedBetweenBound`.
