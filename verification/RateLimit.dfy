/** The token-bucket rate limiter (pkg/auth/middleware.go, lines 1021-1082). Times are nanoseconds;
    the product of elapsed minutes and rate is exact. */
module RateLimit {

  const MINUTE: int := 60_000_000_000

  datatype Bucket = Bucket(tokens: int, capacity: int, refill: int)

  /** `int(elapsed * RequestsPerMinute)` when that is positive, else zero. */
  function TokensToAdd(elapsed: int, rate: int): (n: nat)
    requires elapsed >= 0
  {
    if rate <= 0 then 0 else elapsed * rate / MINUTE
  }

  /** One request: refill, then admit if a token is left. */
  function Serve(b: Bucket, now: int, rate: int): (r: (Bucket, bool))
    requires b.refill <= now
  {
    var add := TokensToAdd(now - b.refill, rate);
    var filled :=
      if add > 0 then b.(tokens := if b.capacity < b.tokens + add then b.capacity else b.tokens + add, refill := now)
      else b;
    if filled.tokens <= 0 then (filled, false) else (filled.(tokens := filled.tokens - 1), true)
  }

  predicate Sorted(times: seq<int>) {
    forall i, j :: 0 <= i < j < |times| ==> times[i] <= times[j]
  }

  /** Requests of one key at the given times: how many are admitted, and the bucket afterwards. */
  function Requests(b: Bucket, times: seq<int>, rate: int): (r: (Bucket, nat))
    requires Sorted(times) && (times != [] ==> b.refill <= times[0])
    decreases |times|
  {
    if times == [] then (b, 0)
    else
      var (b', ok) := Serve(b, times[0], rate);
      var (b'', n) := Requests(b', times[1..], rate);
      (b'', n + if ok then 1 else 0)
  }

  /** Tokens in range, and the part of a token accrued since the refill stamp is less than one. */
  ghost predicate Settled(b: Bucket, now: int, rate: nat) {
    0 <= b.tokens <= b.capacity && b.refill <= now && (now - b.refill) * rate < MINUTE
  }

  /** Whole tokens plus the accrued part, in token-minutes. */
  function Credit(b: Bucket, now: int, rate: nat): int {
    b.tokens * MINUTE + (now - b.refill) * rate
  }

  lemma ServeSettles(b: Bucket, now: int, rate: nat)
    requires 0 <= b.tokens <= b.capacity && b.refill <= now
    ensures var (b', ok) := Serve(b, now, rate);
            Settled(b', now, rate) && b'.capacity == b.capacity && (ok ==> b'.tokens < b.capacity)
  {
    var e := (now - b.refill) * rate;
    if rate > 0 {
      assert 0 <= e;
      assert e / MINUTE == 0 ==> e < MINUTE;
    }
    assert (now - now) * rate == 0;
  }

  /** Credit grows by at most the rate, and every admission costs one token of it. */
  lemma ServeCredit(b: Bucket, before: int, now: int, rate: nat)
    requires Settled(b, before, rate) && before <= now
    ensures var (b', ok) := Serve(b, now, rate);
            Credit(b', now, rate) + (if ok then MINUTE else 0) <= Credit(b, before, rate) + (now - before) * rate
  {
    var e := (now - b.refill) * rate;
    assert e == (before - b.refill) * rate + (now - before) * rate;
    assert (now - now) * rate == 0;
    if rate > 0 {
      assert e / MINUTE * MINUTE <= e;
    }
  }

  lemma {:induction false} CreditBound(b: Bucket, before: int, times: seq<int>, rate: nat, end: int)
    requires Settled(b, before, rate) && before <= end && Sorted(times)
    requires forall i :: 0 <= i < |times| ==> before <= times[i] <= end
    ensures Requests(b, times, rate).1 * MINUTE <= Credit(b, before, rate) + (end - before) * rate
    ensures var b' := Requests(b, times, rate).0; 0 <= b'.tokens <= b'.capacity == b.capacity
    decreases |times|
  {
    if times == [] {
      assert (before - b.refill) * rate >= 0 && (end - before) * rate >= 0;
    } else {
      var now := times[0];
      var (b', ok) := Serve(b, now, rate);
      ServeSettles(b, now, rate);
      ServeCredit(b, before, now, rate);
      CreditBound(b', now, times[1..], rate, end);
      assert (end - before) * rate == (end - now) * rate + (now - before) * rate;
    }
  }

  function CeilDiv(a: nat, d: nat): nat
    requires d > 0
  {
    (a + d - 1) / d
  }

  /** Rate bound: whatever happened before, the requests of one key inside any window of `length`
      nanoseconds include at most BurstSize + ceil(length * RequestsPerMinute) admitted ones, and the
      bucket keeps between zero and BurstSize tokens. */
  lemma AdmittedInWindow(b: Bucket, times: seq<int>, rate: nat, start: int, length: nat)
    requires 0 <= b.tokens <= b.capacity && Sorted(times)
    requires forall i :: 0 <= i < |times| ==> start <= times[i] <= start + length
    requires times != [] ==> b.refill <= times[0]
    ensures Requests(b, times, rate).1 <= b.capacity + CeilDiv(length * rate, MINUTE)
    ensures var b' := Requests(b, times, rate).0; 0 <= b'.tokens <= b'.capacity == b.capacity
  {
    if times != [] {
      var now, end := times[0], start + length;
      var (b', ok) := Serve(b, now, rate);
      ServeSettles(b, now, rate);
      LaterTimes(times, start + length);
      CreditBound(b', now, times[1..], rate, end);
      WindowPart(now - start, end - now, rate);
      assert now - start + (end - now) == length;
      Conclude(Requests(b', times[1..], rate).1, if ok then 1 else 0, b'.tokens, b.capacity,
               (now - b'.refill) * rate, (end - now) * rate, length * rate);
    }
  }

  lemma LaterTimes(times: seq<int>, end: int)
    requires times != [] && Sorted(times) && forall i :: 0 <= i < |times| ==> times[i] <= end
    ensures Sorted(times[1..]) && forall i :: 0 <= i < |times[1..]| ==> times[0] <= times[1..][i] <= end
  {
  }

  lemma WindowPart(x: nat, y: nat, rate: nat)
    ensures 0 <= y * rate <= (x + y) * rate
  {
  }

  /** The arithmetic of the bound, with the products as plain numbers. */
  lemma Conclude(later: nat, first: nat, tokens: int, capacity: int, accrued: int, inWindow: int, whole: nat)
    requires later * MINUTE <= tokens * MINUTE + accrued + inWindow
    requires accrued < MINUTE && inWindow <= whole && tokens + first <= capacity
    ensures later + first <= capacity + CeilDiv(whole, MINUTE)
  {
    var m := later + first - capacity;
    assert m * MINUTE < MINUTE + whole;
  }

  /** The bound is attained: a full bucket and a rate of one per minute admit BurstSize + 1 requests
      within one minute. */
  lemma BoundIsSharp(capacity: nat, start: int, times: seq<int>)
    requires capacity > 0 && |times| == capacity + 1 && times[capacity] == start + MINUTE
    requires forall i :: 0 <= i < capacity ==> times[i] == start
    ensures Sorted(times) && Requests(Bucket(capacity, capacity, start), times, 1).1 == capacity + CeilDiv(MINUTE * 1, MINUTE)
  {
    DrainThenOne(capacity, capacity, start, times);
  }

  lemma {:induction false} DrainThenOne(left: nat, capacity: nat, start: int, times: seq<int>)
    requires left <= capacity && 0 < capacity && |times| == left + 1 && times[left] == start + MINUTE
    requires forall i :: 0 <= i < left ==> times[i] == start
    ensures Sorted(times) && Requests(Bucket(left, capacity, start), times, 1).1 == left + 1
    decreases left
  {
    if left > 0 {
      DrainThenOne(left - 1, capacity, start, times[1..]);
    }
  }

  // --- Service guarantees -------------------------------------------------------------------

  /** A request is refused exactly when the bucket is empty and less than one token has accrued since its
      stamp; so a client that leaves 1 / rate minutes after its last refill is never refused. */
  lemma RefusedIff(b: Bucket, now: int, rate: nat)
    requires 0 <= b.tokens <= b.capacity && 1 <= b.capacity && b.refill <= now
    ensures !Serve(b, now, rate).1 <==> b.tokens == 0 && (now - b.refill) * rate < MINUTE
  {
    var e := (now - b.refill) * rate;
    assert e >= 0;
    assert e / MINUTE == 0 <==> e < MINUTE;
  }

  /** After a request the tokens are those before, plus the whole tokens accrued, up to the capacity, less
      one if it was admitted; and the stamp moves exactly when a token accrued. */
  lemma ServedTokens(b: Bucket, now: int, rate: nat, accrued: nat)
    requires 0 <= b.tokens <= b.capacity && b.refill <= now
    requires accrued * MINUTE <= (now - b.refill) * rate < (accrued + 1) * MINUTE
    ensures var (b', ok) := Serve(b, now, rate);
            && b'.capacity == b.capacity
            && b'.tokens + (if ok then 1 else 0) == (if b.tokens + accrued > b.capacity then b.capacity else b.tokens + accrued)
            && b'.refill == (if accrued > 0 then now else b.refill)
  {
    WholeTokens((now - b.refill) * rate, accrued);
  }

  lemma WholeTokens(e: nat, n: nat)
    requires n * MINUTE <= e < (n + 1) * MINUTE
    ensures e / MINUTE == n
  {
  }

  /** `n` requests at one instant, with `n` tokens there: all are admitted. */
  lemma {:induction false} TokensServeAtOnce(b: Bucket, now: int, times: seq<int>, rate: nat)
    requires |times| <= b.tokens <= b.capacity && b.refill <= now && (now - b.refill) * rate < MINUTE
    requires forall i :: 0 <= i < |times| ==> times[i] == now
    ensures Sorted(times) && Requests(b, times, rate).1 == |times|
    decreases |times|
  {
    if times != [] {
      RefusedIff(b, now, rate);
      ServedTokens(b, now, rate, 0);
      TokensServeAtOnce(Serve(b, now, rate).0, now, times[1..], rate);
    }
  }

  /** A key that has been idle long enough to refill gets its whole burst at once, from whatever bucket it
      left. */
  lemma IdleKeyGetsItsBurst(b: Bucket, now: int, times: seq<int>, rate: nat)
    requires 0 <= b.tokens <= b.capacity && 1 <= b.capacity && b.refill <= now
    requires (now - b.refill) * rate >= b.capacity * MINUTE
    requires |times| == b.capacity && forall i :: 0 <= i < |times| ==> times[i] == now
    ensures Sorted(times) && Requests(b, times, rate).1 == b.capacity
  {
    var e := (now - b.refill) * rate;
    var n := e / MINUTE;
    assert n * MINUTE <= e < (n + 1) * MINUTE;
    assert n >= b.capacity by {
      assert n < b.capacity ==> (n + 1) * MINUTE <= b.capacity * MINUTE;
    }
    RefusedIff(b, now, rate);
    ServedTokens(b, now, rate, n);
    var b' := Serve(b, now, rate).0;
    assert (now - b'.refill) * rate == 0;
    TokensServeAtOnce(b', now, times[1..], rate);
  }

  // --- Requests of many keys ----------------------------------------------------------------

  datatype Request = Request(key: string, now: int)

  function BucketOf(m: map<string, Bucket>, key: string, burst: int, created: int): Bucket {
    if key in m then m[key] else Bucket(burst, burst, created)
  }

  predicate InOrder(m: map<string, Bucket>, reqs: seq<Request>) {
    && (forall i, j :: 0 <= i < j < |reqs| ==> reqs[i].now <= reqs[j].now)
    && (forall k, i :: k in m && 0 <= i < |reqs| ==> m[k].refill <= reqs[i].now)
  }

  /** A whole interleaved request sequence: how many requests of `key` are admitted. */
  function AdmittedOf(m: map<string, Bucket>, reqs: seq<Request>, burst: int, rate: int, key: string): nat
    requires InOrder(m, reqs)
    decreases |reqs|
  {
    if reqs == [] then 0
    else
      var r := reqs[0];
      var (b, ok) := Serve(BucketOf(m, r.key, burst, r.now), r.now, rate);
      AdmittedOf(m[r.key := b], reqs[1..], burst, rate, key) + (if ok && r.key == key then 1 else 0)
  }

  predicate Within(times: seq<int>, low: int, high: int) {
    forall i :: 0 <= i < |times| ==> low <= times[i] <= high
  }

  function TimesOf(reqs: seq<Request>, key: string): (times: seq<int>)
    requires forall i, j :: 0 <= i < j < |reqs| ==> reqs[i].now <= reqs[j].now
    ensures Sorted(times)
    ensures reqs == [] ==> times == []
    ensures reqs != [] ==> Within(times, reqs[0].now, reqs[|reqs| - 1].now)
    decreases |reqs|
  {
    if reqs == [] then []
    else
      var rest := TimesOf(reqs[1..], key);
      assert reqs[1..] != [] ==> reqs[1..][0] == reqs[1] && reqs[1..][|reqs| - 2] == reqs[|reqs| - 1];
      if reqs[0].key == key then [reqs[0].now] + rest else rest
  }

  /** Buckets do not influence each other: the requests of one key fare as if they were alone. */
  lemma {:induction false} KeysAreIndependent(m: map<string, Bucket>, reqs: seq<Request>, burst: int, rate: int, key: string)
    requires InOrder(m, reqs)
    ensures var times := TimesOf(reqs, key);
            if times == [] then AdmittedOf(m, reqs, burst, rate, key) == 0
            else
              var first := BucketOf(m, key, burst, times[0]);
              first.refill <= times[0] && AdmittedOf(m, reqs, burst, rate, key) == Requests(first, times, rate).1
    decreases |reqs|
  {
    if reqs != [] {
      var r := reqs[0];
      var (b, ok) := Serve(BucketOf(m, r.key, burst, r.now), r.now, rate);
      assert b.refill <= r.now;
      KeysAreIndependent(m[r.key := b], reqs[1..], burst, rate, key);
      var rest := TimesOf(reqs[1..], key);
      if r.key == key {
        assert TimesOf(reqs, key)[1..] == rest;
      }
    }
  }

  /** The rate bound for one key inside any interleaving of requests with any other keys. */
  lemma AdmittedInWindowPerKey(m: map<string, Bucket>, reqs: seq<Request>, burst: int, rate: nat, key: string, start: int, length: nat)
    requires InOrder(m, reqs) && 0 <= burst
    requires key in m ==> 0 <= m[key].tokens <= m[key].capacity == burst
    requires forall i :: 0 <= i < |reqs| ==> start <= reqs[i].now <= start + length
    ensures AdmittedOf(m, reqs, burst, rate, key) <= burst + CeilDiv(length * rate, MINUTE)
  {
    KeysAreIndependent(m, reqs, burst, rate, key);
    var times := TimesOf(reqs, key);
    if times != [] {
      AdmittedInWindow(BucketOf(m, key, burst, times[0]), times, rate, start, length);
    }
  }

  /** The buckets after a sequence of requests. */
  function BucketsAfter(m: map<string, Bucket>, reqs: seq<Request>, burst: int, rate: int): map<string, Bucket>
    requires InOrder(m, reqs)
    decreases |reqs|
  {
    if reqs == [] then m
    else
      var r := reqs[0];
      BucketsAfter(m[r.key := Serve(BucketOf(m, r.key, burst, r.now), r.now, rate).0], reqs[1..], burst, rate)
  }

  ghost predicate InRange(m: map<string, Bucket>, burst: int) {
    forall k :: k in m ==> 0 <= m[k].tokens <= m[k].capacity == burst
  }

  lemma {:induction false} BucketsStayInRange(m: map<string, Bucket>, reqs: seq<Request>, i: nat, burst: int, rate: nat)
    requires InOrder(m, reqs) && InRange(m, burst) && 0 <= burst && i <= |reqs|
    ensures InOrder(m, reqs[..i])
    ensures InRange(BucketsAfter(m, reqs[..i], burst, rate), burst)
    ensures InOrder(BucketsAfter(m, reqs[..i], burst, rate), reqs[i..])
    decreases i
  {
    if i == 0 {
      assert reqs[..0] == [] && reqs[0..] == reqs;
    } else {
      var r := reqs[0];
      var b := BucketOf(m, r.key, burst, r.now);
      ServeSettles(b, r.now, rate);
      BucketsStayInRange(m[r.key := Serve(b, r.now, rate).0], reqs[1..], i - 1, burst, rate);
      assert reqs[..i][1..] == reqs[1..][..i - 1];
      assert reqs[1..][i - 1..] == reqs[i..];
    }
  }

  /** The rate bound over whole runs: from the empty limiter, in any interleaving of requests of any
      keys, any stretch of requests `i` to `j` that lies in a window of `length` nanoseconds has at most
      BurstSize + ceil(length * RequestsPerMinute) admitted ones of each key. */
  lemma AdmittedInAnyWindow(reqs: seq<Request>, i: nat, j: nat, burst: nat, rate: nat, key: string, start: int, length: nat)
    requires InOrder(map[], reqs) && i <= j <= |reqs|
    requires forall n :: i <= n < j ==> start <= reqs[n].now <= start + length
    ensures InOrder(map[], reqs[..i])
    ensures var m := BucketsAfter(map[], reqs[..i], burst, rate);
            InOrder(m, reqs[i..j]) && AdmittedOf(m, reqs[i..j], burst, rate, key) <= burst + CeilDiv(length * rate, MINUTE)
  {
    BucketsStayInRange(map[], reqs, i, burst, rate);
    var m, window := BucketsAfter(map[], reqs[..i], burst, rate), reqs[i..j];
    assert window == reqs[i..][..j - i];
    assert InOrder(m, window);
    AdmittedInWindowPerKey(m, window, burst, rate, key, start, length);
  }

  class RateLimiter {
    const burst: int
    const rate: int
    var buckets: map<string, Bucket>

    constructor (burst: int, rate: int)
      ensures buckets == map[] && this.burst == burst && this.rate == rate
    {
      this.burst, this.rate, buckets := burst, rate, map[];
    }

    /** The bucket a request of `key` finds, created on first use. */
    function BucketFor(key: string, created: int): Bucket
      reads this
    {
      if key in buckets then buckets[key] else Bucket(burst, burst, created)
    }

    /** `Middleware` up to the decision; `created` and `now` are its two clock readings. */
    method Handle(key: string, created: int, now: int) returns (admitted: bool)
      requires BucketFor(key, created).refill <= now
      modifies this`buckets
      ensures key in buckets && buckets.Keys == old(buckets.Keys) + {key}
      ensures (buckets[key], admitted) == Serve(old(BucketFor(key, created)), now, rate)
      ensures forall k :: k in old(buckets) && k != key ==> buckets[k] == old(buckets[k])
      ensures burst <= 0 && (key in old(buckets) ==> old(buckets[key]).tokens <= 0 && old(buckets[key]).capacity <= 0)
              ==> !admitted && buckets[key].tokens <= 0
    {
      var bucket := BucketFor(key, created);
      var tokensToAdd := TokensToAdd(now - bucket.refill, rate);
      if tokensToAdd > 0 {
        var topped := bucket.tokens + tokensToAdd;
        bucket := bucket.(tokens := if bucket.capacity < topped then bucket.capacity else topped, refill := now);
      }
      if bucket.tokens <= 0 {
        buckets := buckets[key := bucket];
        return false;
      }
      buckets := buckets[key := bucket.(tokens := bucket.tokens - 1)];
      admitted := true;
    }
  }
}
