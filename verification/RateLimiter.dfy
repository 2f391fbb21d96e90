/** The token-bucket limiter of the bidding exchange. Times are in nanoseconds. */
module RateLimiter {
  import opened Numbers
  import NumberTheory

  /** Tokens and time of the last refill. */
  datatype Bucket = Bucket(tokens: int, lastRefill: int)

  /** One request: the tokens earned since the last refill are added, up to the maximum, before one is
      spent. */
  function Refilled(b: Bucket, max: int, refill: int, now: int): Bucket
    requires refill > 0 && b.lastRefill <= now
  {
    var toAdd := (now - b.lastRefill) / refill;
    if toAdd > 0 then Bucket(Min(max, b.tokens + toAdd), now) else b
  }

  function Asked(b: Bucket, max: int, refill: int, now: int): (Bucket, bool)
    requires refill > 0 && b.lastRefill <= now
  {
    var r := Refilled(b, max, refill, now);
    if r.tokens > 0 then (r.(tokens := r.tokens - 1), true) else (r, false)
  }

  predicate Valid(b: Bucket, max: int) {
    0 <= b.tokens <= max
  }

  predicate Monotone(times: seq<int>) {
    forall i, j :: 0 <= i <= j < |times| ==> times[i] <= times[j]
  }

  /** How many of the requests at these times are allowed. */
  function Allowed(b: Bucket, max: int, refill: int, times: seq<int>): nat
    requires refill > 0 && Monotone(times) && (times != [] ==> b.lastRefill <= times[0])
    decreases |times|
  {
    if times == [] then 0 else
    var (b', ok) := Asked(b, max, refill, times[0]);
    (if ok then 1 else 0) + Allowed(b', max, refill, times[1..])
  }

  lemma SplitQuotient(x: int, y: int, r: int)
    requires r > 0
    ensures x / r + y / r <= (x + y) / r
  {
    var q := x / r + y / r;
    assert x == r * (x / r) + x % r && y == r * (y / r) + y % r;
    assert x + y == r * q + (x % r + y % r);
    QuotientAtLeast(x + y, r, q);
  }

  lemma QuotientAtLeast(x: int, r: int, q: int)
    requires r > 0 && r * q <= x
    ensures q <= x / r
  {
    var d := q - x / r;
    assert x == r * (x / r) + x % r;
    assert r * d == r * q - r * (x / r);
    NotPositive(r, d);
  }

  lemma NotPositive(r: int, d: int)
    requires r > 0 && r * d < r
    ensures d <= 0
  {
  }

  lemma QuotientMonotone(x: int, y: int, r: int)
    requires r > 0 && x <= y
    ensures x / r <= y / r
  {
    assert x == r * (x / r) + x % r;
    QuotientAtLeast(y, r, x / r);
  }

  /** What is allowed is bounded by the tokens at hand and the tokens that time can still earn. */
  lemma {:induction false} TokensBound(b: Bucket, max: int, refill: int, times: seq<int>)
    requires refill > 0 && Valid(b, max) && Monotone(times) && times != [] && b.lastRefill <= times[0]
    ensures Allowed(b, max, refill, times) <= b.tokens + (times[|times| - 1] - b.lastRefill) / refill
    decreases |times|
  {
    var now, last := times[0], times[|times| - 1];
    var (b', ok) := Asked(b, max, refill, now);
    SplitQuotient(now - b.lastRefill, last - now, refill);
    QuotientMonotone(0, last - now, refill);
    QuotientMonotone(0, now - b.lastRefill, refill);
    if |times| > 1 {
      assert times[1..][|times| - 2] == last;
      TokensBound(b', max, refill, times[1..]);
    } else {
      assert Allowed(b', max, refill, times[1..]) == 0;
    }
  }

  /** Refill intervals begun in a window of this length. */
  function Begun(window: nat, refill: int): int
    requires refill > 0
  {
    (window + refill - 1) / refill
  }

  /** Rate bound over every run: requests in a window of any length T, from any state of the bucket,
      are allowed at most max times and once more for every refill interval begun in T; that is at most
      max + T / refill + 1 times. */
  lemma WindowBound(b: Bucket, max: int, refill: int, times: seq<int>, window: nat)
    requires refill > 0 && Valid(b, max) && Monotone(times)
    requires times != [] ==> b.lastRefill <= times[0] && times[|times| - 1] - times[0] <= window
    ensures Allowed(b, max, refill, times) <= max + Begun(window, refill) <= max + window / refill + 1
  {
    QuotientMonotone(0, window, refill);
    QuotientMonotone(window, window + refill - 1, refill);
    QuotientMonotone(window + refill - 1, window + refill, refill);
    OneMore(window, refill);
    if times != [] {
      var first, last := times[0], times[|times| - 1];
      if first - b.lastRefill < refill {
        TokensBound(b, max, refill, times);
        QuotientMonotone(last - b.lastRefill, window + refill - 1, refill);
      } else {
        AfterFirstRefill(b, max, refill, times, window);
      }
    }
  }

  lemma OneMore(x: int, r: int)
    requires r > 0
    ensures (x + r) / r == x / r + 1
  {
    assert x == r * (x / r) + x % r;
    NumberTheory.DivModUnique(x + r, r, x / r + 1, x % r);
  }

  lemma AfterFirstRefill(b: Bucket, max: int, refill: int, times: seq<int>, window: nat)
    requires refill > 0 && Valid(b, max) && Monotone(times) && times != []
    requires times[0] - b.lastRefill >= refill && times[|times| - 1] - times[0] <= window
    ensures Allowed(b, max, refill, times) <= max + window / refill
  {
    var now := times[0];
    QuotientAtLeast(now - b.lastRefill, refill, 1);
    var (b', ok) := Asked(b, max, refill, now);
    assert b'.lastRefill == now && b'.tokens + (if ok then 1 else 0) <= max;
    QuotientMonotone(times[|times| - 1] - now, window, refill);
    QuotientMonotone(0, window, refill);
    if |times| > 1 {
      assert times[1..][|times| - 2] == times[|times| - 1];
      TokensBound(b', max, refill, times[1..]);
    } else {
      assert Allowed(b', max, refill, times[1..]) == 0;
    }
  }

  /** The bucket after requests at these times. */
  function After(b: Bucket, max: int, refill: int, times: seq<int>): Bucket
    requires refill > 0 && Monotone(times) && (times != [] ==> b.lastRefill <= times[0])
    decreases |times|
  {
    if times == [] then b else After(Asked(b, max, refill, times[0]).0, max, refill, times[1..])
  }

  lemma {:induction false} RunKeepsBucket(b: Bucket, max: int, refill: int, times: seq<int>)
    requires refill > 0 && Valid(b, max) && Monotone(times) && (times != [] ==> b.lastRefill <= times[0])
    ensures Valid(After(b, max, refill, times), max)
    ensures After(b, max, refill, times).lastRefill <= if times == [] then b.lastRefill else times[|times| - 1]
    decreases |times|
  {
    if times != [] {
      QuotientMonotone(0, times[0] - b.lastRefill, refill);
      RunKeepsBucket(Asked(b, max, refill, times[0]).0, max, refill, times[1..]);
    }
  }

  /** The bound for every window inside every run. */
  lemma RunWindowBound(b: Bucket, max: int, refill: int, times: seq<int>, i: nat, j: nat, window: nat)
    requires refill > 0 && Valid(b, max) && Monotone(times) && (times != [] ==> b.lastRefill <= times[0])
    requires i < j <= |times| && times[j - 1] - times[i] <= window
    ensures After(b, max, refill, times[..i]).lastRefill <= times[i]
    ensures Allowed(After(b, max, refill, times[..i]), max, refill, times[i..j])
         <= max + Begun(window, refill) <= max + window / refill + 1
  {
    hide After, Allowed, Valid, Begun;
    RunKeepsBucket(b, max, refill, times[..i]);
    assert i > 0 ==> times[..i][i - 1] == times[i - 1];
    WindowBound(After(b, max, refill, times[..i]), max, refill, times[i..j], window);
  }

  /** Nobody who keeps the pace is refused: requests at least one refill interval apart all pass. */
  lemma {:induction false} PacedRequestsPass(b: Bucket, max: int, refill: int, times: seq<int>)
    requires refill > 0 && Valid(b, max) && max >= 1 && Monotone(times)
    requires times != [] ==> times[0] - b.lastRefill >= refill
    requires forall i :: 0 < i < |times| ==> times[i] - times[i - 1] >= refill
    ensures Allowed(b, max, refill, times) == |times|
    decreases |times|
  {
    if times != [] {
      QuotientAtLeast(times[0] - b.lastRefill, refill, 1);
      var (b', ok) := Asked(b, max, refill, times[0]);
      assert ok && b'.lastRefill == times[0];
      forall i | 0 < i < |times[1..]|
        ensures times[1..][i] - times[1..][i - 1] >= refill
      {
        assert times[i + 1] - times[i + 1 - 1] >= refill;
      }
      PacedRequestsPass(b', max, refill, times[1..]);
    }
  }

  // -------------------------------------------------------------------------------------------
  // Bursts

  /** `k` requests at one moment. */
  function AtOnce(k: nat, now: int): (times: seq<int>)
    ensures |times| == k && forall i :: 0 <= i < k ==> times[i] == now
  {
    seq(k, _ => now)
  }

  /** Tokens that a request at `now` finds: all that the time since the last refill earned, up to the
      maximum. */
  function Found(b: Bucket, max: int, refill: int, now: int): int
    requires refill > 0
  {
    if now - b.lastRefill < refill then b.tokens else Min(max, b.tokens + (now - b.lastRefill) / refill)
  }

  /** Of `k` requests at one moment exactly as many pass as there are tokens, those earned during the pause
      before included; they take just these tokens, and the next interval starts now if a refill was due. */
  lemma {:induction false} BurstPasses(b: Bucket, max: int, refill: int, k: nat, now: int)
    requires refill > 0 && b.lastRefill <= now
    ensures Allowed(b, max, refill, AtOnce(k, now)) == Min(k, Max(0, Found(b, max, refill, now)))
    ensures var found := Found(b, max, refill, now);
      k > 0 ==>
        && After(b, max, refill, AtOnce(k, now)).tokens == found - Min(k, Max(0, found))
        && After(b, max, refill, AtOnce(k, now)).lastRefill == if now - b.lastRefill < refill then b.lastRefill else now
    decreases k
  {
    if k > 0 {
      Due(now - b.lastRefill, refill);
      var (b', ok) := Asked(b, max, refill, now);
      Due(now - b'.lastRefill, refill);
      assert Found(b', max, refill, now) == b'.tokens;
      assert AtOnce(k, now)[1..] == AtOnce(k - 1, now);
      BurstPasses(b', max, refill, k - 1, now);
    }
  }

  lemma Due(elapsed: int, refill: int)
    requires refill > 0 && elapsed >= 0
    ensures elapsed / refill > 0 <==> elapsed >= refill
  {
    if elapsed >= refill {
      QuotientAtLeast(elapsed, refill, 1);
    } else {
      NumberTheory.DivModUnique(elapsed, refill, 0, elapsed);
    }
  }

  /** The first `n` multiples of the refill interval. */
  function Multiples(refill: int, n: nat): (times: seq<int>)
    ensures |times| == n && forall i :: 0 <= i < n ==> times[i] == (i + 1) * refill
  {
    seq(n, i requires 0 <= i < n => (i + 1) * refill)
  }

  /** `k` requests just before the first refill falls due, and one at each of the next `n` refills. */
  function Burst(k: nat, refill: int, n: nat): (times: seq<int>)
    ensures |times| == k + n
    ensures forall i :: 0 <= i < k ==> times[i] == refill - 1
    ensures forall i :: k <= i < k + n ==> times[i] == (i - k + 1) * refill
  {
    seq(k, _ => refill - 1) + Multiples(refill, n)
  }

  lemma MultipleMonotone(i: int, j: int, r: int)
    requires r >= 0 && i <= j
    ensures i * r <= j * r
  {
  }

  lemma BurstMonotone(k: nat, refill: int, n: nat)
    requires refill > 0
    ensures Monotone(Burst(k, refill, n))
    ensures Burst(k, refill, n) != [] ==> 0 <= Burst(k, refill, n)[0]
  {
    var times := Burst(k, refill, n);
    forall i, j | 0 <= i <= j < |times|
      ensures times[i] <= times[j]
    {
      if k <= j {
        MultipleMonotone(if i < k then 1 else i - k + 1, j - k + 1, refill);
      }
    }
  }

  lemma {:induction false} BurstAllowed(k: nat, max: int, refill: int, n: nat)
    requires refill > 0 && k <= max && 1 <= max
    ensures Monotone(Burst(k, refill, n)) && (Burst(k, refill, n) != [] ==> 0 <= Burst(k, refill, n)[0])
    ensures Allowed(Bucket(k, 0), max, refill, Burst(k, refill, n)) == k + n
    decreases k
  {
    hide Asked, Refilled;
    BurstMonotone(k, refill, n);
    if k == 0 {
      MultiplesApart(refill, n);
      PacedRequestsPass(Bucket(0, 0), max, refill, Burst(0, refill, n));
    } else {
      BurstAllowed(k - 1, max, refill, n);
      assert Burst(k, refill, n)[1..] == Burst(k - 1, refill, n);
      AskedEarly(k, max, refill);
    }
  }

  lemma MultiplesApart(refill: int, n: nat)
    ensures forall i :: 0 < i < n ==> Burst(0, refill, n)[i] - Burst(0, refill, n)[i - 1] >= refill
  {
    forall i | 0 < i < n
      ensures Burst(0, refill, n)[i] - Burst(0, refill, n)[i - 1] >= refill
    {
      NextMultiple(i, refill);
    }
  }

  lemma NextMultiple(i: int, r: int)
    ensures (i + 1) * r == i * r + r
  {
  }

  lemma AskedEarly(k: nat, max: int, refill: int)
    requires refill > 0 && 0 < k
    ensures Asked(Bucket(k, 0), max, refill, refill - 1) == (Bucket(k - 1, 0), true)
  {
    NumberTheory.DivModUnique(refill - 1, refill, 0, refill - 1);
  }

  lemma BegunMeaning(window: nat, refill: int)
    requires refill > 0
    ensures 0 <= Begun(window, refill) && Begun(window, refill) * refill <= window + refill - 1
  {
    var x := window + refill - 1;
    QuotientMonotone(0, x, refill);
    assert x == refill * (x / refill) + x % refill;
  }

  /** The bound is attained for every maximum, refill interval and window: spend all tokens just before a
      refill falls due, and one at each refill in the window. */
  lemma WindowBoundIsTight(max: int, refill: int, window: nat) returns (times: seq<int>)
    requires max >= 1 && refill > 0
    ensures Monotone(times) && times != [] && 0 <= times[0] && times[|times| - 1] - times[0] <= window
    ensures Valid(Bucket(max, 0), max)
    ensures Allowed(Bucket(max, 0), max, refill, times) == max + Begun(window, refill)
  {
    hide Begun, Allowed, Burst;
    BegunMeaning(window, refill);
    var n := Begun(window, refill);
    times := Burst(max, refill, n);
    BurstAllowed(max, max, refill, n);
  }

  class Limiter {
    var tokens: int
    const max: int
    const refill: int
    var lastRefill: int

    ghost function View(): Bucket
      reads this
    {
      Bucket(tokens, lastRefill)
    }

    constructor (tokens: int, max: int, refill: int, lastRefill: int)
      ensures View() == Bucket(tokens, lastRefill) && this.max == max && this.refill == refill
    {
      this.tokens, this.max, this.refill, this.lastRefill := tokens, max, refill, lastRefill;
    }

    method Allow(now: int) returns (ok: bool)
      requires refill > 0 && lastRefill <= now
      modifies this
      ensures (View(), ok) == Asked(old(View()), max, refill, now)
      ensures old(Valid(View(), max)) ==> Valid(View(), max)
    {
      QuotientMonotone(0, now - lastRefill, refill);
      var elapsed := now - lastRefill;
      var tokensToAdd := elapsed / refill;
      if tokensToAdd > 0 {
        tokens := Min(max, tokens + tokensToAdd);
        lastRefill := now;
      }
      if tokens > 0 {
        tokens := tokens - 1;
        return true;
      }
      ok := false;
    }
  }
}
