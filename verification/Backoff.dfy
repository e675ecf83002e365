/** Jittered, capped exponential backoff in exact arithmetic over milliseconds, truncated where
    the source truncates, including the wrap of the attempt number into a signed exponent. */
module Backoff {
  import opened Wrappers

  const TWO31: nat := 0x8000_0000
  const TWO32: nat := 0x1_0000_0000

  datatype Schedule = Schedule(baseMs: real, factor: real, capMs: real, maxAttempts: nat)

  /** Durations are never negative and the give-up bound is 32 bits wide. */
  predicate WellFormed(s: Schedule) {
    s.baseMs >= 0.0 && s.capMs >= 0.0 && s.maxAttempts < TWO32
  }

  const DEFAULT: Schedule := Schedule(500.0, 2.0, 30000.0, 4)

  datatype RetryDecision = Retry(delayMs: nat) | GiveUp

  /** `attempt as i32` */
  function AsI32(attempt: nat): int
    requires attempt < TWO32
  {
    if attempt < TWO31 then attempt else attempt - TWO32
  }

  function Pow(x: real, n: nat): real {
    if n == 0 then 1.0 else x * Pow(x, n - 1)
  }

  function Times(x: real, y: real): real {
    x * y
  }

  lemma ProductNotNegative(x: real, d: real)
    requires x >= 0.0 && d >= 0.0
    ensures x * d >= 0.0
  {
  }

  lemma TimesMonotone(x: real, a: real, b: real)
    requires x >= 0.0 && a <= b
    ensures Times(x, a) <= Times(x, b)
  {
    ProductNotNegative(x, b - a);
    assert x * b - x * a == x * (b - a);
  }

  lemma TimesFraction(x: real, y: real)
    requires 0.0 <= x && 0.0 <= y <= 1.0
    ensures 0.0 <= Times(x, y) <= x
    ensures y == 1.0 ==> Times(x, y) == x
    ensures y == 0.0 ==> Times(x, y) == 0.0
  {
    TimesMonotone(x, 0.0, y);
    TimesMonotone(x, y, 1.0);
  }

  function MinReal(a: real, b: real): real { if a < b then a else b }
  function MaxReal(a: real, b: real): real { if a < b then b else a }

  /** `base * factor.powi(attempt)`; `None` where the power divides by zero and the float is not
      finite, which `min` with the cap turns into the cap. */
  function Grown(s: Schedule, attempt: nat): Option<real>
    requires attempt < TWO32
  {
    var e := AsI32(attempt);
    if e >= 0 then Some(Times(s.baseMs, Pow(s.factor, e)))
    else
      var d := Pow(s.factor, -e);
      if d == 0.0 then None else Some(s.baseMs / d)
  }

  function Ceiling(s: Schedule, attempt: nat): (ms: nat)
    requires WellFormed(s) && attempt < TWO32
    ensures ms as real <= s.capMs
  {
    match Grown(s, attempt)
    case Some(g) => Cut(g, s.capMs)
    case None => Cut(s.capMs, s.capMs)
  }

  /** `min(cap).max(0.0) as u64` */
  function Cut(grown: real, cap: real): (ms: nat)
    requires cap >= 0.0
    ensures ms as real <= cap
  {
    MaxReal(MinReal(grown, cap), 0.0).Floor
  }

  function Clamp(unit: real): (r: real)
    ensures 0.0 <= r <= 1.0
  {
    MaxReal(0.0, MinReal(unit, 1.0))
  }

  function DelayFor(s: Schedule, attempt: nat, unit: real): (ms: nat)
    requires WellFormed(s) && attempt < TWO32
    ensures ms <= Ceiling(s, attempt)
    ensures unit >= 1.0 ==> ms == Ceiling(s, attempt)
    ensures unit <= 0.0 ==> ms == 0
    ensures 0.0 <= unit <= 1.0 ==> ms as real <= Ceiling(s, attempt) as real * unit < ms as real + 1.0
  {
    var ceiling := Ceiling(s, attempt) as real;
    TimesFraction(ceiling, Clamp(unit));
    Times(ceiling, Clamp(unit)).Floor
  }

  function RetryDelay(s: Schedule, attempt: nat, unit: real, retryAfter: Option<nat>): (r: RetryDecision)
    requires WellFormed(s) && attempt < TWO32
    ensures r == GiveUp <==> attempt >= s.maxAttempts
    ensures r.Retry? ==>
      && r.delayMs >= DelayFor(s, attempt, unit)
      && (retryAfter.Some? ==> r.delayMs >= retryAfter.value)
      && (r.delayMs == DelayFor(s, attempt, unit) || Some(r.delayMs) == retryAfter)
  {
    if attempt >= s.maxAttempts then GiveUp
    else
      var backoff := DelayFor(s, attempt, unit);
      Retry(match retryAfter
            case Some(after) => if after < backoff then backoff else after
            case None => backoff)
  }

  lemma {:induction false} PowGrows(x: real, a: nat, b: nat)
    requires x >= 1.0 && a <= b
    ensures 1.0 <= Pow(x, a) <= Pow(x, b)
    decreases b
  {
    if a < b {
      PowGrows(x, a, b - 1);
      assert Pow(x, b) - Pow(x, b - 1) == (x - 1.0) * Pow(x, b - 1) >= 0.0;
    } else if a > 0 {
      PowGrows(x, a - 1, b - 1);
      assert Pow(x, a) - Pow(x, a - 1) == (x - 1.0) * Pow(x, a - 1) >= 0.0;
    }
  }

  lemma CutMonotone(a: real, b: real, cap: real)
    requires a <= b && cap >= 0.0
    ensures Cut(a, cap) <= Cut(b, cap)
  {
  }

  /** The ceiling never shrinks as attempts go up, as long as the attempt number fits in 31 bits. */
  lemma CeilingMonotone(s: Schedule, a: nat, b: nat)
    requires WellFormed(s) && s.factor >= 1.0 && a <= b < TWO31
    ensures Ceiling(s, a) <= Ceiling(s, b)
  {
    PowGrows(s.factor, a, b);
    SmallAttempt(s, a);
    SmallAttempt(s, b);
    TimesMonotone(s.baseMs, Pow(s.factor, a), Pow(s.factor, b));
    CutMonotone(Times(s.baseMs, Pow(s.factor, a)), Times(s.baseMs, Pow(s.factor, b)), s.capMs);
    hide Pow, Ceiling, Cut, Times;
  }

  /** The power, pinned by its laws. */
  lemma {:induction false} PowSum(x: real, m: nat, n: nat)
    ensures Pow(x, 0) == 1.0 && Pow(x, 1) == x
    ensures Pow(x, m + n) == Pow(x, m) * Pow(x, n)
  {
    if m > 0 {
      PowSum(x, m - 1, n);
      TimesAssociates(x, Pow(x, m - 1), Pow(x, n));
    }
  }

  lemma TimesAssociates(x: real, y: real, z: real)
    ensures x * (y * z) == (x * y) * z
  {
  }

  /** The ceiling is the grown delay cut at the cap and truncated to whole milliseconds. */
  lemma CeilingIs(s: Schedule, n: nat, grown: real)
    requires WellFormed(s) && n < TWO31 && grown == s.baseMs * Pow(s.factor, n)
    ensures IsTruncated(Ceiling(s, n), if grown < 0.0 then 0.0 else if grown < s.capMs then grown else s.capMs)
  {
    hide Pow, Ceiling, Cut, IsTruncated;
    TimesIs(s.baseMs, Pow(s.factor, n));
    CeilingOf(s, n, grown);
  }

  predicate IsTruncated(ms: nat, exact: real) {
    ms as real <= exact < ms as real + 1.0
  }

  lemma TimesIs(x: real, y: real)
    ensures Times(x, y) == x * y
  {
  }

  lemma CeilingOf(s: Schedule, n: nat, grown: real)
    requires WellFormed(s) && n < TWO31 && grown == Times(s.baseMs, Pow(s.factor, n))
    ensures IsTruncated(Ceiling(s, n), if grown < 0.0 then 0.0 else if grown < s.capMs then grown else s.capMs)
  {
    SmallAttempt(s, n);
    hide Pow, Ceiling, Cut, Times;
    CutIs(grown, s.capMs);
  }

  lemma CutIs(grown: real, cap: real)
    requires cap >= 0.0
    ensures var cut := if grown < 0.0 then 0.0 else if grown < cap then grown else cap;
      Cut(grown, cap) as real <= cut < Cut(grown, cap) as real + 1.0
  {
  }

  lemma SmallAttempt(s: Schedule, n: nat)
    requires WellFormed(s) && n < TWO31
    ensures Ceiling(s, n) == Cut(Times(s.baseMs, Pow(s.factor, n)), s.capMs)
  {
    hide Pow, Cut, Times;
  }

  lemma {:induction false} PowTwoExceeds(n: nat)
    ensures Pow(2.0, n) >= n as real + 1.0
  {
    if n > 0 {
      PowTwoExceeds(n - 1);
    }
  }

  lemma ProperFraction(x: real, d: real)
    requires 0.0 < x < d
    ensures 0.0 <= x / d < 1.0
  {
    var q := x / d;
    assert q * d == x;
    if q >= 1.0 {
      ProductNotNegative(d, q - 1.0);
    }
    if q < 0.0 {
      ProductNotNegative(d, -q);
    }
  }

  /** Where the attempt number reaches 31 bits its exponent turns negative, and the default ceiling
      falls from the cap to zero. */
  lemma DefaultCeilingCollapses(n: nat)
    requires n == TWO31
    ensures Ceiling(DEFAULT, n - 1) == 30000 && Ceiling(DEFAULT, n) == 0
  {
    PowTwoExceeds(n - 1);
    PowTwoExceeds(n);
    hide Pow;
    ProperFraction(500.0, Pow(2.0, n));
    assert AsI32(n) + n == 0 && AsI32(n - 1) == n - 1;
    assert Grown(DEFAULT, n) == Some(500.0 / Pow(2.0, n));
    assert Grown(DEFAULT, n - 1) == Some(Times(500.0, Pow(2.0, n - 1)));
  }

  lemma QuotientAntitone(x: real, a: real, b: real)
    requires x >= 0.0 && 0.0 < b <= a
    ensures x / a <= x / b
  {
    var p, q := x / a, x / b;
    assert p * a == x && q * b == x;
    QuotientNotNegative(x, b);
    ProductNotNegative(q, a - b);
    assert (p - q) * a == -(q * (a - b));
    FactorNotPositive(p - q, a);
  }

  lemma QuotientNotNegative(x: real, d: real)
    requires x >= 0.0 && d > 0.0
    ensures x / d >= 0.0
  {
    var q := x / d;
    assert q * d == x;
    FactorNotPositive(-q, d);
  }

  lemma FactorNotPositive(x: real, d: real)
    requires d > 0.0 && x * d <= 0.0
    ensures x <= 0.0
  {
  }

  lemma LargeAttempt(s: Schedule, n: nat)
    requires WellFormed(s) && s.factor >= 1.0 && TWO31 <= n < TWO32
    ensures Pow(s.factor, TWO32 - n) >= 1.0
    ensures Ceiling(s, n) == Cut(s.baseMs / Pow(s.factor, TWO32 - n), s.capMs)
  {
    PowGrows(s.factor, 0, TWO32 - n);
    hide Pow, Cut;
  }

  /** Past the wrap the exponent climbs from -2^31 towards -1, and the ceiling climbs with it. */
  lemma WrappedCeilingMonotone(s: Schedule, a: nat, b: nat)
    requires WellFormed(s) && s.factor >= 1.0 && TWO31 <= a <= b < TWO32
    ensures Ceiling(s, a) <= Ceiling(s, b)
  {
    LargeAttempt(s, a);
    LargeAttempt(s, b);
    PowGrows(s.factor, TWO32 - b, TWO32 - a);
    QuotientAntitone(s.baseMs, Pow(s.factor, TWO32 - a), Pow(s.factor, TWO32 - b));
    CutMonotone(s.baseMs / Pow(s.factor, TWO32 - a), s.baseMs / Pow(s.factor, TWO32 - b), s.capMs);
    hide Pow, Ceiling, Cut;
  }

  ghost predicate NeverShrinks(s: Schedule, n: nat)
    requires WellFormed(s) && n <= TWO32
  {
    forall a: nat, b: nat :: a <= b < n ==> Ceiling(s, a) <= Ceiling(s, b)
  }

  /** Exactly when the ceiling never shrinks on the first `n` attempts, for any growing schedule: they
      end before the exponent wraps, or the one step across the wrap is no fall. */
  lemma CeilingMonotoneIff(s: Schedule, n: nat)
    requires WellFormed(s) && s.factor >= 1.0 && n <= TWO32
    ensures NeverShrinks(s, n) <==> n <= TWO31 || Ceiling(s, TWO31 - 1) <= Ceiling(s, TWO31)
  {
    var wrap: nat :| wrap == TWO31;
    hide Ceiling;
    if n <= TWO31 || Ceiling(s, wrap - 1) <= Ceiling(s, wrap) {
      forall a: nat, b: nat | a <= b < n ensures Ceiling(s, a) <= Ceiling(s, b) {
        if b < wrap {
          CeilingMonotone(s, a, b);
        } else if a >= wrap {
          WrappedCeilingMonotone(s, a, b);
        } else {
          CeilingMonotone(s, a, wrap - 1);
          WrappedCeilingMonotone(s, wrap, b);
        }
      }
    } else {
      assert wrap - 1 <= wrap < n && Ceiling(s, wrap - 1) > Ceiling(s, wrap);
    }
  }

  /** So the default ceiling never shrinks on the first `n` attempts exactly when `n` is at most 2^31. */
  lemma DefaultCeilingMonotoneIff(n: nat)
    requires n <= TWO32
    ensures NeverShrinks(DEFAULT, n) <==> n <= TWO31
  {
    hide Ceiling, NeverShrinks;
    var wrap: nat :| wrap == TWO31;
    DefaultCeilingCollapses(wrap);
    CeilingMonotoneIff(DEFAULT, n);
  }
}
