/**
 The client's bounded backoff (clients/go/retry.go), in the machine's own arithmetic:
 durations are 64-bit and doubling one can wrap.
 */
module Backoff {

  const MS := 1_000_000
  const SECOND := 1000 * MS
  const LOCK_CEILING := 30 * SECOND
  const LOCK_DEFAULT := 5 * SECOND

  const TWO_63 := 0x8000_0000_0000_0000
  const TWO_62 := 0x4000_0000_0000_0000

  /** A duration, as the machine holds one. */
  type Duration = x: int | -TWO_63 <= x < TWO_63

  /** Twice a duration, wrapped into 64 bits. */
  function Twice(w: Duration): Duration {
    var d := 2 * w;
    if d >= TWO_63 then d - 2 * TWO_63 else if d < -TWO_63 then d + 2 * TWO_63 else d
  }

  datatype Retry = Retry(attempts: int, base: Duration, max: Duration)

  function WithDefaults(r: Retry): (d: Retry)
    ensures Settled(d)
    ensures r.attempts >= 1 ==> d.attempts == r.attempts
    ensures r.attempts < 1 ==> d.attempts == 3
    ensures r.base > 0 ==> d.base == r.base
    ensures r.base <= 0 ==> d.base == 50_000_000
    ensures r.max > 0 && d.base <= r.max ==> d.max == r.max
    ensures r.max <= 0 && d.base <= 1_000_000_000 ==> d.max == 1_000_000_000
    ensures d.max > d.base ==> d.max == if r.max > 0 then r.max else 1_000_000_000
    ensures Settled(r) ==> d == r
  {
    var attempts := if r.attempts <= 0 then 3 else r.attempts;
    var base := if r.base <= 0 then 50 * MS else r.base;
    var max := if r.max <= 0 then SECOND else r.max;
    Retry(attempts, base, if max < base then base else max)
  }

  /** A policy with its zero fields filled. */
  predicate Settled(r: Retry) { r.attempts >= 1 && 0 < r.base <= r.max }

  function Pow2(n: nat): (p: nat)
    ensures p >= 1
  {
    if n == 0 then 1 else 2 * Pow2(n - 1)
  }

  /** The wait meant after `failed` failures: the base doubled each time, up to the ceiling. */
  function Meant(r: Retry, failed: nat): int
    requires failed >= 1
  {
    var w := r.base * Pow2(failed - 1);
    if w > r.max then r.max else w
  }

  /** The doubling as the loop does it: `n` more times at most, while below the ceiling. */
  function Doubled(r: Retry, w: Duration, n: nat): Duration
    decreases n
  {
    if n == 0 || w >= r.max then w else Doubled(r, Twice(w), n - 1)
  }

  /** The range the jitter is drawn over; nothing when the doubling wrapped. */
  function Cap(r: Retry, failed: nat): int
    requires failed >= 1
  {
    var w := Doubled(r, r.base, failed - 1);
    if w > r.max then r.max else if w <= 0 then 0 else w
  }

  /** A draw brought below the cap, each sleep below it drawn by itself. */
  function Drawn(cap: int, draw: nat): (sleep: int)
    ensures cap <= 0 ==> sleep == 0
    ensures cap > 0 ==> 0 <= sleep < cap
    ensures draw < cap ==> sleep == draw
  {
    if cap <= 0 then 0 else draw % cap
  }

  /** wait: the sleep before the next attempt, drawn below the cap. */
  method Wait(r: Retry, failed: nat, draw: nat) returns (sleep: int)
    requires Settled(r) && failed >= 1
    ensures sleep == Drawn(Cap(r, failed), draw)
  {
    var w: Duration := r.base;
    var i := 1;
    while i < failed && w < r.max
      invariant 1 <= i <= failed
      invariant Doubled(r, r.base, failed - 1) == Doubled(r, w, failed - i)
      decreases failed - i
    {
      w := Twice(w);
      i := i + 1;
    }
    if w > r.max {
      w := r.max;
    }
    if w <= 0 {
      return 0;
    }
    sleep := draw % w;
  }

  lemma {:induction false} Pow2Grows(base: int, n: nat)
    requires base > 0
    ensures base * Pow2(n + 1) == 2 * (base * Pow2(n)) && base * Pow2(n) >= base
  {
    if n == 0 {
    } else {
      Pow2Grows(base, n - 1);
    }
  }

  lemma {:induction false} DoublingIsExact(r: Retry, n: nat, k: nat)
    requires Settled(r) && r.max <= TWO_62 && r.base * Pow2(k) < TWO_63
    ensures var w, target := r.base * Pow2(k), r.base * Pow2(k + n);
            if target <= r.max then Doubled(r, w, n) == target else Doubled(r, w, n) >= r.max
    decreases n
  {
    Pow2Grows(r.base, k);
    if n > 0 {
      Pow2Monotone(r.base, k, k + n);
      if r.base * Pow2(k) < r.max {
        DoublingIsExact(r, n - 1, k + 1);
      }
    }
  }

  lemma {:induction false} Pow2Monotone(base: int, k: nat, m: nat)
    requires base > 0 && k <= m
    ensures base * Pow2(k) <= base * Pow2(m)
  {
    if k == m {
    } else {
      Pow2Grows(base, m - 1);
      Pow2Monotone(base, k, m - 1);
    }
  }

  /** With a ceiling of at most 2^62 the loop computes the wait that is meant. */
  lemma TheWaitIsTheOneMeant(r: Retry, failed: nat)
    requires Settled(r) && failed >= 1 && r.max <= TWO_62
    ensures Cap(r, failed) == Meant(r, failed)
  {
    assert r.base * Pow2(0) == r.base;
    Pow2Monotone(r.base, 0, failed - 1);
    DoublingIsExact(r, failed - 1, 0);
  }

  /** And only then: above it there is a base whose second wait wraps to no wait at all. */
  lemma TheCeilingDecides(max: Duration)
    requires max > 0
    ensures (forall base: Duration, failed: nat :: 0 < base <= max && failed >= 1 ==>
               Cap(Retry(1, base, max), failed) == Meant(Retry(1, base, max), failed))
            <==> max <= TWO_62
  {
    if max <= TWO_62 {
      forall base: Duration, failed: nat | 0 < base <= max && failed >= 1
        ensures Cap(Retry(1, base, max), failed) == Meant(Retry(1, base, max), failed)
      {
        TheWaitIsTheOneMeant(Retry(1, base, max), failed);
      }
    } else {
      var r := Retry(1, TWO_62, max);
      assert Twice(TWO_62) == -TWO_63;
      assert Doubled(r, TWO_62, 1) == Doubled(r, -TWO_63, 0) == -TWO_63;
      assert Cap(r, 2) == 0;
      assert Pow2(1) == 2 && Meant(r, 2) == max;
    }
  }
}
