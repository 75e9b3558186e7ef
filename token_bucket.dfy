/**
 * The per-client limiter built at cmd/api/middleware.go:82 with
 * `rate.NewLimiter(rps, burst)` and consulted at middleware.go:88 with
 * `Allow()`. The limiter comes from golang.org/x/time/rate, which is not part
 * of this model; it is abstracted here as an integer token bucket with the
 * same shape: capacity `burst`, continuous refill at `rps` tokens per second,
 * full when created, and `Allow` either consumes one token or denies without
 * touching the bucket.
 *
 * Time is in milliseconds and the bucket holds thousandths of a token, so the
 * refill owed after `e` milliseconds at `rps` tokens per second is exactly
 * `e * rps` thousandths.
 */
module TokenBucket {

  /** Thousandths of a token in one token. */
  const Unit: nat := 1000

  datatype Limiter = Limiter(rps: nat, burst: nat, tokens: nat, last: nat)

  /** The most the bucket can hold, in thousandths of a token. */
  function Capacity(l: Limiter): (c: nat)
  {
    l.burst * Unit
  }

  /** The bucket never holds more than its capacity. */
  predicate Valid(l: Limiter)
  {
    l.tokens <= Capacity(l)
  }

  /** A new limiter starts with a full bucket. */
  function New(rps: nat, burst: nat, now: nat): (l: Limiter)
    ensures Valid(l)
    ensures l.rps == rps && l.burst == burst
    ensures l.tokens == Capacity(l)
  {
    Limiter(rps, burst, burst * Unit, now)
  }

  /** Milliseconds since the last refill; a clock that went backwards owes nothing. */
  function Elapsed(l: Limiter, now: nat): (ms: nat)
  {
    if now >= l.last then now - l.last else 0
  }

  /**
   * The tokens available at `now`: what the bucket held plus the refill owed
   * since the last refill, capped at the capacity.
   */
  function Available(l: Limiter, now: nat): (t: nat)
    ensures t <= Capacity(l)
    ensures Valid(l) ==> l.tokens <= t
  {
    var refilled := l.tokens + Elapsed(l, now) * l.rps;
    if refilled > Capacity(l) then Capacity(l) else refilled
  }

  /** The limiter after a call, and whether the call was allowed. */
  datatype Step = Step(limiter: Limiter, ok: bool)

  /**
   * `Allow()`: refill, then take one token if a whole one is available. A
   * denied call changes nothing, so no refill is lost by it.
   */
  function Allow(l: Limiter, now: nat): (s: Step)
    ensures s.ok <==> Available(l, now) >= Unit
    ensures s.ok ==> s.limiter == l.(tokens := Available(l, now) - Unit, last := now)
    ensures !s.ok ==> s.limiter == l
    ensures Valid(s.limiter) <==> Valid(l) || s.ok
    ensures s.limiter.rps == l.rps && s.limiter.burst == l.burst
  {
    var t := Available(l, now);
    if t >= Unit then Step(l.(tokens := t - Unit, last := now), true)
    else Step(l, false)
  }

  /** The verdicts of `n` calls made one after another at the same instant. */
  function Burst(l: Limiter, now: nat, n: nat): (r: seq<bool>)
    ensures |r| == n
    decreases n
  {
    if n == 0 then []
    else
      var s := Allow(l, now);
      [s.ok] + Burst(s.limiter, now, n - 1)
  }

  /**
   * A bucket refilled up to `now` and holding `k` whole tokens admits exactly
   * the first `k` of any run of calls at that instant.
   */
  lemma {:induction false} BurstAdmitsHeldTokens(l: Limiter, now: nat, n: nat, k: nat)
    requires Valid(l) && l.last == now && l.tokens == k * Unit
    ensures forall i :: 0 <= i < n ==> (Burst(l, now, n)[i] <==> i < k)
    decreases n
  {
    if n > 0 {
      var s := Allow(l, now);
      assert Available(l, now) == k * Unit;
      if k > 0 {
        assert s.ok && s.limiter.tokens == (k - 1) * Unit;
        BurstAdmitsHeldTokens(s.limiter, now, n - 1, k - 1);
      } else {
        assert !s.ok && s.limiter == l;
        BurstAdmitsHeldTokens(s.limiter, now, n - 1, k);
      }
      var r := Burst(l, now, n);
      assert r == [s.ok] + Burst(s.limiter, now, n - 1);
      forall i | 0 <= i < n
        ensures r[i] <==> i < k
      {
        if i > 0 {
          assert r[i] == Burst(s.limiter, now, n - 1)[i - 1];
        }
      }
    }
  }

  /**
   * A fresh limiter admits exactly `burst` calls at the instant it is created;
   * every later call at that instant is denied.
   */
  lemma FreshLimiterAdmitsBurst(rps: nat, burst: nat, now: nat, n: nat)
    ensures forall i :: 0 <= i < n ==> (Burst(New(rps, burst, now), now, n)[i] <==> i < burst)
  {
    BurstAdmitsHeldTokens(New(rps, burst, now), now, n, burst);
  }

  /**
   * After a denial, waiting long enough for one token to accrue (1/rps
   * seconds) makes the next call allowed, however empty the bucket was.
   */
  lemma {:induction false} RefillAfterIdle(l: Limiter, now: nat)
    requires Valid(l) && l.burst >= 1 && now >= l.last
    requires (now - l.last) * l.rps >= Unit
    ensures Allow(l, now).ok
  {
    assert Elapsed(l, now) * l.rps >= Unit;
    assert Capacity(l) >= Unit;
  }

  /** However long the bucket sits idle, it never holds more than `burst` tokens. */
  lemma {:induction false} IdleRefillIsCapped(l: Limiter, now: nat)
    requires Valid(l)
    ensures Allow(l, now).limiter.tokens <= Capacity(l)
    ensures Allow(l, now).ok ==> Allow(l, now).limiter.tokens <= Capacity(l) - Unit
  {
    assert Available(l, now) <= Capacity(l);
  }
}
