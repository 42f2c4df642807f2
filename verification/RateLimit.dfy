/**
 * Token buckets and the bounded, least-recently-used map of them
 * (apps/server/src/security/rate-limit.ts). Times are milliseconds and may step
 * back; tokens are reals.
 */
module RateLimit {
  import opened Bytes

  /** What the constructor accepts. */
  datatype Rate = Rate(capacity: real, refillPerSecond: real)

  predicate ValidRate(r: Rate) { r.capacity > 0.0 && r.refillPerSecond > 0.0 }

  datatype Decision = Decision(allowed: bool, retryAfterMs: int, remaining: int)

  datatype Bucket = Bucket(tokens: real, lastRefill: real)

  function MinReal(a: real, b: real): real { if a <= b then a else b }
  function MaxReal(a: real, b: real): real { if a >= b then a else b }

  function Ceil(x: real): int { -((-x).Floor) }

  /** Tokens that come in over a span of milliseconds. */
  function Gained(r: Rate, ms: real): real { ms / 1000.0 * r.refillPerSecond }

  /** Milliseconds until a whole token, exactly. */
  function Shortfall(r: Rate, tokens: real): real
    requires ValidRate(r)
  {
    (1.0 - tokens) / r.refillPerSecond * 1000.0
  }

  // ---- The bucket as a function

  function Refill(r: Rate, b: Bucket, now: real): Bucket {
    var elapsed := MaxReal(0.0, now - b.lastRefill);
    if elapsed == 0.0 then b
    else Bucket(MinReal(r.capacity, b.tokens + Gained(r, elapsed)), now)
  }

  function Take(r: Rate, b: Bucket, now: real): (Decision, Bucket)
    requires ValidRate(r)
  {
    var full := Refill(r, b, now);
    if full.tokens >= 1.0
    then (Decision(true, 0, (full.tokens - 1.0).Floor), full.(tokens := full.tokens - 1.0))
    else
      var wait := Ceil(Shortfall(r, full.tokens));
      (Decision(false, if wait < 1 then 1 else wait, 0), full)
  }

  function NewBucket(r: Rate, now: real): Bucket { Bucket(r.capacity, now) }

  predicate Sound(r: Rate, b: Bucket) { 0.0 <= b.tokens <= r.capacity }

  class TokenBucket {
    const rate: Rate
    var tokens: real
    var lastRefill: real

    constructor (rate: Rate, now: real)
      requires ValidRate(rate)
      ensures this.rate == rate && State() == NewBucket(rate, now)
    {
      this.rate := rate;
      tokens := rate.capacity;
      lastRefill := now;
    }

    ghost function State(): Bucket
      reads this
    {
      Bucket(tokens, lastRefill)
    }

    method RefillAt(now: real)
      modifies this
      ensures State() == Refill(rate, old(State()), now)
    {
      var elapsedMs := MaxReal(0.0, now - lastRefill);
      if elapsedMs == 0.0 {
        return;
      }
      var added := elapsedMs / 1000.0 * rate.refillPerSecond;
      tokens := MinReal(rate.capacity, tokens + added);
      lastRefill := now;
    }

    method TakeAt(now: real) returns (d: Decision)
      requires ValidRate(rate)
      modifies this
      ensures (d, State()) == Take(rate, old(State()), now)
      ensures old(Sound(rate, State())) ==> Sound(rate, State())
    {
      if Sound(rate, State()) {
        RefillKeeps(rate, State(), now);
      }
      RefillAt(now);
      if tokens >= 1.0 {
        tokens := tokens - 1.0;
        return Decision(true, 0, tokens.Floor);
      }
      var needed := 1.0 - tokens;
      var wait := Ceil(needed / rate.refillPerSecond * 1000.0);
      return Decision(false, if wait < 1 then 1 else wait, 0);
    }
  }

  // ---- Runs of one bucket

  /** The bucket after a sequence of takes. */
  function After(r: Rate, b: Bucket, times: seq<real>): Bucket
    requires ValidRate(r)
    decreases |times|
  {
    if times == [] then b else After(r, Take(r, b, times[0]).1, times[1..])
  }

  function Allowed(r: Rate, b: Bucket, times: seq<real>): nat
    requires ValidRate(r)
    decreases |times|
  {
    if times == [] then 0
    else (if Take(r, b, times[0]).0.allowed then 1 else 0) + Allowed(r, Take(r, b, times[0]).1, times[1..])
  }

  lemma GainedAdds(r: Rate, a: real, b: real)
    ensures Gained(r, a) + Gained(r, b) == Gained(r, a + b)
  {
  }

  lemma GainedPositive(r: Rate, ms: real)
    requires ValidRate(r) && ms >= 0.0
    ensures Gained(r, ms) >= 0.0
    ensures ms > 0.0 ==> Gained(r, ms) > 0.0
  {
    assert ms / 1000.0 >= 0.0;
  }

  /** The last refill is the latest time seen, whatever the clock does. */
  lemma RefillKeeps(r: Rate, b: Bucket, now: real)
    requires ValidRate(r) && Sound(r, b)
    ensures var full := Refill(r, b, now);
            && Sound(r, full)
            && full.lastRefill == MaxReal(b.lastRefill, now)
            && full.tokens <= b.tokens + Gained(r, full.lastRefill - b.lastRefill)
            && full.tokens >= b.tokens
  {
    hide Gained;
    GainedPositive(r, MaxReal(0.0, now - b.lastRefill));
    ZeroGain(r);
  }

  lemma ZeroGain(r: Rate)
    ensures Gained(r, 0.0) == 0.0
  {
  }

  function Latest(start: real, times: seq<real>): real
    decreases |times|
  {
    if times == [] then start else Latest(MaxReal(start, times[0]), times[1..])
  }

  /**
   * Over any sequence of takes, even with a clock that steps back: tokens stay
   * within the capacity, the last refill is the latest time seen, and what was
   * allowed plus what is left is at most what there was plus what came in.
   */
  lemma {:induction false} RunBound(r: Rate, b: Bucket, times: seq<real>)
    requires ValidRate(r) && Sound(r, b)
    ensures var e := After(r, b, times);
            && Sound(r, e)
            && e.lastRefill == Latest(b.lastRefill, times) >= b.lastRefill
            && Allowed(r, b, times) as real + e.tokens <= b.tokens + Gained(r, e.lastRefill - b.lastRefill)
    decreases |times|
  {
    hide Gained, Refill;
    if times == [] {
      ZeroGain(r);
    } else {
      RefillKeeps(r, b, times[0]);
      var next := Take(r, b, times[0]).1;
      RunBound(r, next, times[1..]);
      var e := After(r, b, times);
      GainedAdds(r, next.lastRefill - b.lastRefill, e.lastRefill - next.lastRefill);
      assert (next.lastRefill - b.lastRefill) + (e.lastRefill - next.lastRefill) == e.lastRefill - b.lastRefill;
    }
  }

  /**
   * Between any two takes: never more than the capacity plus the rate times the time
   * elapsed since the first of them, however long the bucket had been idle before.
   */
  lemma BurstBound(r: Rate, b: Bucket, times: seq<real>)
    requires ValidRate(r) && Sound(r, b) && times != []
    ensures Allowed(r, b, times) as real
         <= r.capacity + Gained(r, Latest(b.lastRefill, times) - MaxReal(b.lastRefill, times[0]))
  {
    hide Gained, Refill;
    RefillKeeps(r, b, times[0]);
    RunBound(r, Take(r, b, times[0]).1, times[1..]);
  }

  // ---- Every decision, from the history alone

  lemma {:induction false} AfterSnoc(r: Rate, b: Bucket, times: seq<real>, now: real)
    requires ValidRate(r)
    ensures After(r, b, times + [now]) == Take(r, After(r, b, times), now).1
    ensures Allowed(r, b, times + [now])
         == Allowed(r, b, times) + if Take(r, After(r, b, times), now).0.allowed then 1 else 0
    decreases |times|
  {
    hide Refill;
    var all := times + [now];
    if times == [] {
      assert all[1..] == [];
    } else {
      assert all[1..] == times[1..] + [now] && all[0] == times[0];
      AfterSnoc(r, Take(r, b, times[0]).1, times[1..], now);
    }
  }

  lemma {:induction false} LatestSnoc(start: real, times: seq<real>, now: real)
    ensures Latest(start, times + [now]) == MaxReal(Latest(start, times), now)
    decreases |times|
  {
    var all := times + [now];
    if times == [] {
      assert all[1..] == [];
    } else {
      assert all[1..] == times[1..] + [now] && all[0] == times[0];
      LatestSnoc(MaxReal(start, times[0]), times[1..], now);
    }
  }

  /** A bucket that is full at its first take, before its i-th. */
  function Before(r: Rate, times: seq<real>, i: nat): Bucket
    requires ValidRate(r) && i < |times|
  {
    After(r, Bucket(r.capacity, times[0]), times[..i])
  }

  /** How many takes it has allowed before its i-th. */
  function Passed(r: Rate, times: seq<real>, i: nat): nat
    requires ValidRate(r) && i < |times|
  {
    Allowed(r, Bucket(r.capacity, times[0]), times[..i])
  }

  /** The latest time it has seen at its i-th take. */
  function Clock(times: seq<real>, i: nat): real
    requires i < |times|
  {
    Latest(times[0], times[..i + 1])
  }

  /** What the capacity and the time since its j-th take allow, less what was allowed since. */
  function Left(r: Rate, times: seq<real>, j: nat, i: nat): real
    requires ValidRate(r) && j <= i < |times|
  {
    r.capacity + Gained(r, Clock(times, i) - Clock(times, j)) - (Passed(r, times, i) - Passed(r, times, j)) as real
  }

  lemma BeforeNext(r: Rate, times: seq<real>, i: nat)
    requires ValidRate(r) && i + 1 < |times|
    ensures Before(r, times, i + 1) == Take(r, Before(r, times, i), times[i]).1
    ensures Passed(r, times, i + 1)
         == Passed(r, times, i) + if Take(r, Before(r, times, i), times[i]).0.allowed then 1 else 0
    ensures Clock(times, i + 1) == MaxReal(Clock(times, i), times[i + 1])
  {
    hide Refill, After, Allowed, Latest;
    assert times[..i + 1] == times[..i] + [times[i]];
    AfterSnoc(r, Bucket(r.capacity, times[0]), times[..i], times[i]);
    assert times[..i + 2] == times[..i + 1] + [times[i + 1]];
    LatestSnoc(times[0], times[..i + 1], times[i + 1]);
  }

  lemma BeforeFirst(r: Rate, times: seq<real>)
    requires ValidRate(r) && times != []
    ensures Before(r, times, 0) == Bucket(r.capacity, times[0]) && Passed(r, times, 0) == 0
    ensures Clock(times, 0) == times[0]
  {
    var one := times[..0 + 1];
    assert one[0] == times[0] && one[1..] == [];
    assert Latest(times[0], one) == Latest(MaxReal(times[0], one[0]), one[1..]);
  }

  lemma LeftNext(r: Rate, times: seq<real>, j: nat, i: nat)
    requires ValidRate(r) && j <= i && i + 1 < |times|
    ensures Left(r, times, j, i + 1) == Left(r, times, j, i) + Gained(r, Clock(times, i + 1) - Clock(times, i))
                                        - (Passed(r, times, i + 1) - Passed(r, times, i)) as real
  {
    hide Gained;
    var a, b, c := Clock(times, j), Clock(times, i), Clock(times, i + 1);
    GainedAdds(r, c - b, b - a);
    assert (c - b) + (b - a) == c - a;
  }

  lemma LeftNow(r: Rate, times: seq<real>, i: nat)
    requires ValidRate(r) && i < |times|
    ensures Left(r, times, i, i) == r.capacity
  {
    hide Clock, Passed;
    ZeroGain(r);
    assert Clock(times, i) - Clock(times, i) == 0.0;
  }

  /** The tokens at the i-th take are the least of what each window up to it leaves. */
  lemma {:induction false} TokensExactly(r: Rate, times: seq<real>, i: nat, x: real)
    requires ValidRate(r) && i < |times|
    ensures var full := Refill(r, Before(r, times, i), times[i]);
            && full.lastRefill == Clock(times, i) && Sound(r, full)
            && (full.tokens >= x <==> forall j :: 0 <= j <= i ==> Left(r, times, j, i) >= x)
    decreases i
  {
    hide Gained, Before, Passed, Clock, Left;
    LeftNow(r, times, i);
    if i == 0 {
      BeforeFirst(r, times);
      ZeroGain(r);
    } else {
      BeforeNext(r, times, i - 1);
      var came := Gained(r, Clock(times, i) - Clock(times, i - 1));
      var spent := (Passed(r, times, i) - Passed(r, times, i - 1)) as real;
      TokensExactly(r, times, i - 1, x + spent - came);
      TokensExactly(r, times, i - 1, 1.0);
      RefillAfter(r, Refill(r, Before(r, times, i - 1), times[i - 1]), Before(r, times, i), times[i], spent);
      forall j | 0 <= j <= i - 1
        ensures Left(r, times, j, i) == Left(r, times, j, i - 1) + came - spent
      {
        LeftNext(r, times, j, i - 1);
      }
      var k := i - 1;
      var earlier := forall j :: 0 <= j <= k ==> Left(r, times, j, k) >= x + spent - came;
      var all := forall j :: 0 <= j <= i ==> Left(r, times, j, i) >= x;
      if all {
        assert Left(r, times, i, i) >= x;
        forall j | 0 <= j <= k ensures Left(r, times, j, k) >= x + spent - came {
          assert Left(r, times, j, i) >= x;
        }
        assert earlier;
      }
      if earlier && r.capacity >= x {
        forall j | 0 <= j <= i ensures Left(r, times, j, i) >= x {
          assert j <= k ==> Left(r, times, j, k) >= x + spent - came;
        }
        assert all;
      }
    }
  }

  lemma RefillAfter(r: Rate, full: Bucket, b: Bucket, now: real, spent: real)
    requires ValidRate(r) && Sound(r, full) && spent >= 0.0 && full.tokens >= spent
    requires b == Bucket(full.tokens - spent, full.lastRefill)
    ensures var next := Refill(r, b, now);
            && Sound(r, next) && next.lastRefill == MaxReal(full.lastRefill, now)
            && next.tokens
               == MinReal(r.capacity, full.tokens - spent + Gained(r, next.lastRefill - full.lastRefill))
  {
    hide Gained;
    RefillKeeps(r, b, now);
    ZeroGain(r);
  }

  /**
   * Every decision of a bucket that was full at its first take, from the times of the
   * takes alone and for any clock: the i-th is allowed if and only if with it no
   * window that ends there has more takes than the capacity and what came in since
   * the window's first; and what remains is how many more these windows have room for.
   */
  lemma DecidedByWindows(r: Rate, times: seq<real>, i: nat, more: nat)
    requires ValidRate(r) && i < |times|
    ensures var d := Take(r, Before(r, times, i), times[i]).0;
            && (d.allowed <==> forall j :: 0 <= j <= i ==> Left(r, times, j, i) >= 1.0)
            && (d.allowed ==> (d.remaining >= more <==>
                                 forall j :: 0 <= j <= i ==> Left(r, times, j, i) >= 1.0 + more as real))
            && (d.allowed ==> d.retryAfterMs == 0) && (!d.allowed ==> d.remaining == 0 && d.retryAfterMs >= 1)
  {
    hide Before, Left, Refill, Clock;
    TokensExactly(r, times, i, 1.0);
    TokensExactly(r, times, i, 1.0 + more as real);
  }

  /** Of takes at one moment a full bucket allows as many as it has whole tokens. */
  lemma {:induction false} BurstExactly(r: Rate, now: real, count: nat)
    requires ValidRate(r)
    ensures var b := Bucket(r.capacity, now);
            Allowed(r, b, seq(count, _ => now)) == if count <= r.capacity.Floor then count else r.capacity.Floor
    ensures After(r, Bucket(r.capacity, now), seq(count, _ => now)).lastRefill == now
    ensures After(r, Bucket(r.capacity, now), seq(count, _ => now)).tokens
         == r.capacity - Allowed(r, Bucket(r.capacity, now), seq(count, _ => now)) as real
  {
    if count > 0 {
      hide After, Allowed;
      BurstExactly(r, now, count - 1);
      var times := seq(count - 1, _ => now);
      assert seq(count, _ => now) == times + [now];
      AfterSnoc(r, Bucket(r.capacity, now), times, now);
    }
  }

  // ---- Retrying

  lemma CeilBounds(x: real)
    ensures x <= Ceil(x) as real < x + 1.0
  {
  }

  lemma ShortfallGains(r: Rate, tokens: real, ms: real)
    requires ValidRate(r)
    ensures tokens + Gained(r, ms) >= 1.0 <==> ms >= Shortfall(r, tokens)
  {
    var q := r.refillPerSecond;
    var need := 1.0 - tokens;
    var per := need / q;
    assert per * q == need;
    if ms >= per * 1000.0 {
      assert ms / 1000.0 >= per;
      MulMono(per, ms / 1000.0, q);
    } else {
      assert ms / 1000.0 < per;
      MulMonoStrict(ms / 1000.0, per, q);
    }
  }

  lemma MulMono(a: real, b: real, q: real)
    requires a <= b && q > 0.0
    ensures a * q <= b * q
  {
    assert (b - a) * q >= 0.0;
  }

  lemma MulMonoStrict(a: real, b: real, q: real)
    requires a < b && q > 0.0
    ensures a * q < b * q
  {
    assert (b - a) * q > 0.0;
  }

  /**
   * After a refusal, with no take in between, a take `wait` milliseconds later
   * succeeds exactly when a whole token has come in since the latest time the
   * bucket has seen, and the bucket can hold one.
   */
  lemma TakeAfterRefusal(r: Rate, b: Bucket, now: real, wait: real)
    requires ValidRate(r) && Sound(r, b) && !Take(r, b, now).0.allowed && wait >= 0.0
    ensures var refused := Take(r, b, now).1;
            Take(r, refused, now + wait).0.allowed
            <==> r.capacity >= 1.0 && now + wait - refused.lastRefill >= Shortfall(r, refused.tokens)
  {
    hide Gained, Shortfall;
    RefillKeeps(r, b, now);
    var refused := Take(r, b, now).1;
    ShortfallGains(r, refused.tokens, now + wait - refused.lastRefill);
    RefillKeeps(r, refused, now + wait);
    ShortfallPositive(r, refused.tokens);
  }

  lemma ShortfallPositive(r: Rate, tokens: real)
    requires ValidRate(r) && tokens < 1.0
    ensures Shortfall(r, tokens) > 0.0
  {
    var per := (1.0 - tokens) / r.refillPerSecond;
    assert per * r.refillPerSecond > 0.0;
    if per <= 0.0 {
      MulMono(per, 0.0, r.refillPerSecond);
    }
  }

  /**
   * A take exactly `retryAfterMs` after a refusal succeeds if and only if the
   * bucket can hold a whole token and the clock was behind the bucket's latest
   * time by no more than what rounding up to a whole millisecond added.
   */
  lemma RetryAfterExact(r: Rate, b: Bucket, now: real)
    requires ValidRate(r) && Sound(r, b) && !Take(r, b, now).0.allowed
    ensures var (d, refused) := Take(r, b, now);
            var behind := refused.lastRefill - now;
            var rounding := d.retryAfterMs as real - Shortfall(r, refused.tokens);
            && 0.0 <= rounding < 1.0 && 0.0 <= behind
            && (Take(r, refused, now + d.retryAfterMs as real).0.allowed
                <==> r.capacity >= 1.0 && behind <= rounding)
  {
    hide Gained, Shortfall, Ceil;
    var (d, refused) := Take(r, b, now);
    RefillKeeps(r, b, now);
    ShortfallPositive(r, refused.tokens);
    CeilBounds(Shortfall(r, refused.tokens));
    TakeAfterRefusal(r, b, now, d.retryAfterMs as real);
  }

  /** With a clock that has not stepped back, the advice is right and never too long by a millisecond. */
  lemma RetryAfterIsLeast(r: Rate, b: Bucket, now: real, earlier: int)
    requires ValidRate(r) && r.capacity >= 1.0 && Sound(r, b) && now >= b.lastRefill
    requires !Take(r, b, now).0.allowed && 0 <= earlier < Take(r, b, now).0.retryAfterMs
    ensures var (d, refused) := Take(r, b, now);
            && Take(r, refused, now + d.retryAfterMs as real).0.allowed
            && !Take(r, refused, now + earlier as real).0.allowed
  {
    hide Gained, Shortfall, Ceil;
    var (d, refused) := Take(r, b, now);
    RefillKeeps(r, b, now);
    RetryAfterExact(r, b, now);
    TakeAfterRefusal(r, b, now, earlier as real);
    assert earlier as real <= d.retryAfterMs as real - 1.0;
  }

  /** A clock that stepped back a second makes the advice too short. */
  lemma RetryAfterSteppedClock()
    ensures var r := Rate(1.0, 1.0);
            var b := Bucket(0.0, 1000.0);
            var (d, refused) := Take(r, b, 0.0);
            && ValidRate(r) && Sound(r, b)
            && d == Decision(false, 1000, 0)
            && !Take(r, refused, 1000.0).0.allowed
  {
    var r := Rate(1.0, 1.0);
    assert Shortfall(r, 0.0) == 1000.0;
    assert (-1000.0).Floor == -1000;
    assert Ceil(1000.0) == 1000;
  }

  // ---- The bounded map of buckets

  datatype Options = Options(rate: Rate, maxKeys: nat)

  predicate ValidOptions(o: Options) { ValidRate(o.rate) && o.maxKeys >= 1 }

  /** An opaque string. */
  datatype Key = Key(text: string)

  /** The limiter's keys, least recently taken first, and their buckets. */
  datatype Limiter = Limiter(order: seq<Key>, buckets: map<Key, Bucket>)

  function Without(order: seq<Key>, key: Key): (r: seq<Key>)
    ensures forall k :: k in r <==> k in order && k != key
    ensures |r| <= |order|
  {
    if order == [] then []
    else (if order[0] == key then [] else [order[0]]) + Without(order[1..], key)
  }

  /** A take puts its key last; a new key pushes out the oldest once the map is full. */
  function Touch(maxKeys: nat, order: seq<Key>, key: Key): seq<Key> {
    if key in order then Without(order, key) + [key]
    else if |order| >= maxKeys && order != [] then order[1..] + [key]
    else order + [key]
  }

  /** The bucket a take uses: the key's own, or a full one. */
  function Held(o: Options, buckets: map<Key, Bucket>, key: Key, now: real): Bucket {
    if key in buckets then buckets[key] else NewBucket(o.rate, now)
  }

  function LimiterTake(o: Options, l: Limiter, key: Key, now: real): (Decision, Limiter)
    requires ValidOptions(o)
  {
    var (d, b) := Take(o.rate, Held(o, l.buckets, key, now), now);
    (d, Limiter(Touch(o.maxKeys, l.order, key), Kept(o.maxKeys, l, key)[key := b]))
  }

  /** The buckets a new or returning key leaves in the map, before its own is put back. */
  function Kept(maxKeys: nat, l: Limiter, key: Key): map<Key, Bucket> {
    if key !in l.order && |l.order| >= maxKeys && l.order != [] then l.buckets - {l.order[0]} else l.buckets
  }

  ghost predicate ValidLimiter(o: Options, l: Limiter) {
    && Distinct(l.order) && |l.order| <= o.maxKeys
    && forall k :: k in l.order <==> k in l.buckets
  }

  lemma DistinctCons(x: Key, s: seq<Key>)
    requires Distinct(s) && x !in s
    ensures Distinct([x] + s)
  {
  }

  lemma {:induction false} WithoutDistinct(order: seq<Key>, key: Key)
    requires Distinct(order)
    ensures Distinct(Without(order, key))
    ensures key in order ==> |Without(order, key)| == |order| - 1
    ensures key !in order ==> Without(order, key) == order
  {
    if order != [] {
      WithoutDistinct(order[1..], key);
      assert order == [order[0]] + order[1..];
      if order[0] != key {
        DistinctCons(order[0], Without(order[1..], key));
      }
    }
  }

  lemma SnocKeys(s: seq<Key>, x: Key)
    ensures forall k :: k in s + [x] <==> k in s || k == x
  {
  }

  /** Which keys a take leaves: its own, and all others but a pushed-out oldest. */
  lemma TouchKeys(maxKeys: nat, order: seq<Key>, key: Key)
    requires Distinct(order) && |order| <= maxKeys && maxKeys >= 1
    ensures var next := Touch(maxKeys, order, key);
            && Distinct(next) && |next| <= maxKeys
            && forall k :: k in next <==>
                 k == key || (k in order && !(key !in order && |order| >= maxKeys && k == order[0]))
  {
    if key in order {
      WithoutDistinct(order, key);
      DistinctSnoc(Without(order, key), key);
    } else if |order| >= maxKeys {
      assert order == [order[0]] + order[1..];
      DistinctSnoc(order[1..], key);
    } else {
      DistinctSnoc(order, key);
    }
  }

  /** The limiter never holds more than `maxKeys` keys. */
  lemma LimiterTakeValid(o: Options, l: Limiter, key: Key, now: real)
    requires ValidOptions(o) && ValidLimiter(o, l)
    ensures ValidLimiter(o, LimiterTake(o, l, key, now).1)
  {
    hide LimiterTake;
    LimiterKeys(o, l, key, now);
  }

  class KeyedRateLimiter {
    const opts: Options
    /** The JavaScript Map: its keys in insertion order, and what they map to. */
    var order: seq<Key>
    var buckets: map<Key, TokenBucket>

    constructor (opts: Options)
      requires ValidOptions(opts)
      ensures Valid() && this.opts == opts && View() == Limiter([], map[])
      ensures buckets == map[]
    {
      this.opts := opts;
      order, buckets := [], map[];
    }

    ghost predicate Valid()
      reads this, buckets.Values
    {
      && ValidOptions(opts)
      && (forall k :: k in order <==> k in buckets)
      && Distinct(order) && |order| <= opts.maxKeys
      && Separate()
    }

    ghost function View(): Limiter
      reads this, buckets.Values
    {
      Limiter(order, map k | k in buckets :: buckets[k].State())
    }

    /** `Map.delete`, which forgets where the key stood. */
    method Delete(key: Key)
      modifies this
      ensures order == Without(old(order), key) && buckets == old(buckets) - {key}
      ensures View().buckets == old(View()).buckets - {key}
    {
      order := Without(order, key);
      buckets := buckets - {key};
    }

    /** The key's bucket, taken out of the map, or a new one after making room. */
    method Obtain(key: Key, now: real) returns (bucket: TokenBucket)
      requires Valid()
      modifies this
      ensures order + [key] == Touch(opts.maxKeys, old(order), key)
      ensures View().buckets == Kept(opts.maxKeys, old(View()), key) - {key}
      ensures Separate() && key !in buckets && bucket !in buckets.Values && bucket.rate == opts.rate
      ensures bucket.State() == Held(opts, old(View()).buckets, key, now)
      ensures forall b :: b in buckets.Values ==> b in old(buckets.Values)
      ensures bucket in old(buckets.Values) || fresh(bucket)
    {
      hide Distinct, Without, Take;
      WithoutDistinct(order, key);
      ghost var before := View();
      if key in buckets {
        bucket := buckets[key];
        Delete(key);
      } else {
        NotThere(Kept(opts.maxKeys, before, key), key);
        if |order| >= opts.maxKeys {
          OldestWithout(order);
          Delete(order[0]);
        }
        bucket := new TokenBucket(opts.rate, now);
      }
    }

    /** Every tracked bucket has the limiter's rate, and no two keys share one. */
    ghost predicate Separate()
      reads this, buckets.Values
    {
      && (forall k :: k in buckets ==> buckets[k].rate == opts.rate)
      && (forall j, k :: j in buckets && k in buckets && j != k ==> buckets[j] != buckets[k])
    }

    /** `Map.set` of a key that is not there, which puts it last, and the take from its bucket. */
    method PutAndTake(key: Key, bucket: TokenBucket, now: real) returns (d: Decision)
      requires ValidRate(opts.rate) && Separate() && key !in buckets
      requires bucket !in buckets.Values && bucket.rate == opts.rate
      modifies this, bucket
      ensures order == old(order) + [key] && buckets == old(buckets)[key := bucket] && Separate()
      ensures d == Take(opts.rate, old(bucket.State()), now).0
      ensures View().buckets == old(View().buckets)[key := Take(opts.rate, old(bucket.State()), now).1]
    {
      hide Take;
      order := order + [key];
      ghost var others := buckets;
      assert forall k :: k in others ==> others[k] in others.Values;
      buckets := buckets[key := bucket];
      d := bucket.TakeAt(now);
    }

    method TakeKey(key: Key, now: real) returns (d: Decision)
      requires Valid()
      modifies this, buckets.Values
      ensures Valid()
      ensures d == LimiterTake(opts, old(View()), key, now).0
      ensures View() == LimiterTake(opts, old(View()), key, now).1
      ensures forall b :: b in buckets.Values ==> b in old(buckets.Values) || fresh(b)
    {
      hide Take, Touch, Kept, Without, LimiterTake, Distinct, Held;
      ghost var before := View();
      LimiterKeys(opts, before, key, now);
      LimiterTakeIs(opts, before, key, now);
      var bucket := Obtain(key, now);
      d := PutAndTake(key, bucket, now);
      PutBack(Kept(opts.maxKeys, before, key), key, View().buckets[key]);
      assert View() == LimiterTake(opts, before, key, now).1;
      assert forall k :: k in buckets <==> k in View().buckets;
    }
  }

  lemma PutBack(m: map<Key, Bucket>, key: Key, b: Bucket)
    ensures (m - {key})[key := b] == m[key := b]
  {
  }

  lemma LimiterTakeIs(o: Options, l: Limiter, key: Key, now: real)
    requires ValidOptions(o)
    ensures var (d, b) := Take(o.rate, Held(o, l.buckets, key, now), now);
            LimiterTake(o, l, key, now)
            == (d, Limiter(Touch(o.maxKeys, l.order, key), Kept(o.maxKeys, l, key)[key := b]))
  {
  }

  lemma NotThere(m: map<Key, Bucket>, key: Key)
    requires key !in m
    ensures m - {key} == m
  {
  }

  lemma OldestWithout(order: seq<Key>)
    requires Distinct(order) && order != []
    ensures Without(order, order[0]) == order[1..]
  {
    WithoutDistinct(order[1..], order[0]);
  }

  // ---- Against an unbounded map

  datatype Event = Event(key: Key, now: real)

  function FreeTake(o: Options, buckets: map<Key, Bucket>, e: Event): (Decision, map<Key, Bucket>)
    requires ValidOptions(o)
  {
    var (d, b) := Take(o.rate, Held(o, buckets, e.key, e.now), e.now);
    (d, buckets[e.key := b])
  }

  /** The limiter after a run, and its decisions. */
  function LimiterRun(o: Options, events: seq<Event>): (seq<Decision>, Limiter)
    requires ValidOptions(o)
  {
    if events == [] then ([], Limiter([], map[]))
    else
      var n := |events| - 1;
      var (ds, l) := LimiterRun(o, events[..n]);
      var (d, next) := LimiterTake(o, l, events[n].key, events[n].now);
      (ds + [d], next)
  }

  function FreeRun(o: Options, events: seq<Event>): (seq<Decision>, map<Key, Bucket>)
    requires ValidOptions(o)
  {
    if events == [] then ([], map[])
    else
      var n := |events| - 1;
      var (ds, buckets) := FreeRun(o, events[..n]);
      var (d, next) := FreeTake(o, buckets, events[n]);
      (ds + [d], next)
  }

  predicate Seen(events: seq<Event>, key: Key) { exists i :: 0 <= i < |events| && events[i].key == key }

  /** The distinct other keys taken since a key's last take. */
  function KeysSince(events: seq<Event>, key: Key): set<Key> {
    if events == [] then {}
    else
      var n := |events| - 1;
      if events[n].key == key then {} else {events[n].key} + KeysSince(events[..n], key)
  }

  /** Whenever a key comes back, fewer than maxKeys distinct others were taken in between. */
  predicate Close(o: Options, events: seq<Event>) {
    events == [] ||
    var n := |events| - 1;
    Close(o, events[..n])
    && (Seen(events[..n], events[n].key) ==> |KeysSince(events[..n], events[n].key)| < o.maxKeys)
  }

  /** All keys ever taken, least recently taken first. */
  function Recency(events: seq<Event>): seq<Key> {
    if events == [] then []
    else
      var n := |events| - 1;
      Without(Recency(events[..n]), events[n].key) + [events[n].key]
  }

  lemma {:induction false} RecencyKeys(events: seq<Event>)
    ensures Distinct(Recency(events))
    ensures forall k :: k in Recency(events) <==> Seen(events, k)
  {
    if events != [] {
      var n := |events| - 1;
      RecencyKeys(events[..n]);
      WithoutDistinct(Recency(events[..n]), events[n].key);
      forall k ensures Seen(events, k) <==> Seen(events[..n], k) || events[n].key == k {
        if Seen(events, k) && events[n].key != k {
          var i :| 0 <= i < |events| && events[i].key == k;
          assert events[..n][i].key == k;
        }
        if Seen(events[..n], k) {
          var i :| 0 <= i < n && events[..n][i].key == k;
          assert events[i].key == k;
        }
      }
    }
  }

  function Elements(s: seq<Key>): set<Key> { set k | k in s }

  lemma {:induction false} DistinctSize(s: seq<Key>)
    requires Distinct(s)
    ensures |Elements(s)| == |s|
  {
    if s != [] {
      DistinctSize(s[1..]);
      assert Elements(s) == {s[0]} + Elements(s[1..]);
    }
  }

  /** What stands after a key in the recency order. */
  function Following(order: seq<Key>, key: Key): seq<Key> {
    if order == [] then []
    else if order[0] == key then order[1..]
    else Following(order[1..], key)
  }

  lemma {:induction false} FollowingWithout(order: seq<Key>, key: Key, gone: Key)
    requires Distinct(order) && key in order && gone != key
    ensures key in Without(order, gone)
    ensures Following(Without(order, gone) + [gone], key) == Without(Following(order, key), gone) + [gone]
  {
    if order[0] != key {
      FollowingWithout(order[1..], key, gone);
      var w := Without(order[1..], gone) + [gone];
      if order[0] != gone {
        assert Without(order, gone) + [gone] == [order[0]] + w;
        assert ([order[0]] + w)[1..] == w;
      } else {
        assert Without(order, gone) + [gone] == w;
      }
    } else {
      var w := Without(order[1..], gone) + [gone];
      assert Without(order, gone) + [gone] == [key] + w;
      assert ([key] + w)[1..] == w;
    }
  }

  /** The keys after a key in the recency order are exactly the others taken since. */
  lemma {:induction false} FollowingIsSince(events: seq<Event>, key: Key)
    requires Seen(events, key)
    ensures Elements(Following(Recency(events), key)) == KeysSince(events, key)
  {
    var n := |events| - 1;
    var before := Recency(events[..n]);
    RecencyKeys(events[..n]);
    if events[n].key == key {
      LastFollowing(Without(before, key), key);
    } else {
      var i :| 0 <= i < |events| && events[i].key == key;
      assert events[..n][i].key == key;
      FollowingIsSince(events[..n], key);
      FollowingWithout(before, key, events[n].key);
      var rest := Following(before, key);
      assert Elements(Without(rest, events[n].key) + [events[n].key]) == Elements(rest) + {events[n].key};
    }
  }

  lemma {:induction false} LastFollowing(order: seq<Key>, key: Key)
    requires key !in order
    ensures Following(order + [key], key) == []
  {
    if order != [] {
      assert (order + [key])[1..] == order[1..] + [key];
      LastFollowing(order[1..], key);
    }
  }

  lemma {:induction false} FollowingPlace(order: seq<Key>, key: Key)
    requires Distinct(order) && key in order
    ensures var p := |order| - 1 - |Following(order, key)|;
            0 <= p < |order| && order[p] == key && Following(order, key) == order[p + 1..]
  {
    if order[0] != key {
      FollowingPlace(order[1..], key);
    }
  }

  /** The most recent `size` of an order. */
  function Recent(order: seq<Key>, size: nat): seq<Key> {
    if |order| <= size then order else order[|order| - size..]
  }

  lemma {:induction false} WithoutConcat(a: seq<Key>, b: seq<Key>, key: Key)
    ensures Without(a + b, key) == Without(a, key) + Without(b, key)
  {
    if a == [] {
      assert a + b == b;
    } else {
      assert (a + b)[1..] == a[1..] + b;
      WithoutConcat(a[1..], b, key);
    }
  }

  lemma RecentSplit(order: seq<Key>, size: nat)
    ensures var cut := |order| - |Recent(order, size)|;
            cut >= 0 && order == order[..cut] + Recent(order, size) && (cut > 0 ==> |Recent(order, size)| == size)
  {
  }

  lemma RecentOf(older: seq<Key>, recent: seq<Key>, size: nat)
    requires |recent| <= size && (older != [] ==> |recent| == size)
    ensures Recent(older + recent, size) == recent
  {
  }

  lemma DistinctParts(a: seq<Key>, b: seq<Key>, key: Key)
    requires Distinct(a + b) && key in b
    ensures key !in a && Distinct(a) && Distinct(b)
  {
    var j :| 0 <= j < |b| && b[j] == key;
    assert (a + b)[|a| + j] == key;
    assert forall i :: 0 <= i < |a| ==> (a + b)[i] == a[i];
    assert forall i :: 0 <= i < |b| ==> (a + b)[|a| + i] == b[i];
  }

  /** Moving a recent key to the end of the full order moves it within its recent part. */
  lemma RecentMoves(order: seq<Key>, size: nat, key: Key)
    requires Distinct(order) && key in Recent(order, size)
    ensures Recent(Without(order, key) + [key], size) == Without(Recent(order, size), key) + [key]
  {
    hide Recent, Without;
    RecentSplit(order, size);
    var recent := Recent(order, size);
    var a := order[..|order| - |recent|];
    DistinctParts(a, recent, key);
    WithoutConcat(a, recent, key);
    WithoutDistinct(a, key);
    WithoutDistinct(recent, key);
    Assoc(a, Without(recent, key), [key]);
    RecentSize(order, size);
    RecentOf(a, Without(recent, key) + [key], size);
  }

  lemma RecentSize(order: seq<Key>, size: nat)
    ensures |Recent(order, size)| <= size && |Recent(order, size)| <= |order|
  {
  }

  /** A new key enters the recent part and may push its oldest out. */
  lemma RecentGrows(order: seq<Key>, size: nat, key: Key)
    requires Distinct(order) && key !in order && size >= 1
    ensures Recent(order + [key], size) == Touch(size, Recent(order, size), key)
  {
    assert key !in Recent(order, size);
  }

  /** The limiter holds the recent part of the order, with the unbounded map's own buckets. */
  ghost predicate Agree(o: Options, l: Limiter, free: map<Key, Bucket>, order: seq<Key>) {
    && Distinct(order)
    && l.order == Recent(order, o.maxKeys)
    && (forall k :: k in l.order <==> k in l.buckets)
    && (forall k :: k in free <==> k in order)
    && (forall k :: k in l.buckets ==> k in free && l.buckets[k] == free[k])
  }

  lemma BucketsStep(o: Options, l: Limiter, free: map<Key, Bucket>, e: Event)
    requires ValidOptions(o)
    requires forall k :: k in l.buckets ==> k in free && l.buckets[k] == free[k]
    requires e.key in free ==> e.key in l.buckets
    ensures var next := LimiterTake(o, l, e.key, e.now);
            var freeNext := FreeTake(o, free, e);
            && next.0 == freeNext.0
            && (forall k :: k in next.1.buckets ==> k in freeNext.1 && next.1.buckets[k] == freeNext.1[k])
            && (forall k :: k in freeNext.1 <==> k in free || k == e.key)
  {
    hide Take, Touch, NewBucket;
    assert Held(o, l.buckets, e.key, e.now) == Held(o, free, e.key, e.now);
    assert forall k :: k in Kept(o.maxKeys, l, e.key) ==> k in l.buckets;
  }

  /** Which keys have buckets after a take. */
  lemma LimiterKeys(o: Options, l: Limiter, key: Key, now: real)
    requires ValidOptions(o) && Distinct(l.order) && |l.order| <= o.maxKeys
    requires forall k :: k in l.order <==> k in l.buckets
    ensures var next := LimiterTake(o, l, key, now).1;
            && Distinct(next.order) && |next.order| <= o.maxKeys
            && next.order == Touch(o.maxKeys, l.order, key)
            && forall k :: k in next.order <==> k in next.buckets
  {
    hide Take, Touch, Held;
    TouchKeys(o.maxKeys, l.order, key);
  }

  /** One take keeps the agreement and decides alike, if a key ever taken is still held. */
  lemma SimulationStep(o: Options, l: Limiter, free: map<Key, Bucket>, order: seq<Key>, e: Event)
    requires ValidOptions(o) && Agree(o, l, free, order)
    requires e.key in order ==> e.key in l.order
    ensures var next := LimiterTake(o, l, e.key, e.now);
            var freeNext := FreeTake(o, free, e);
            && next.0 == freeNext.0
            && Agree(o, next.1, freeNext.1, Without(order, e.key) + [e.key])
  {
    hide Touch, Recent, Without, LimiterTake, FreeTake, Distinct;
    OrderStep(o.maxKeys, l.order, order, e.key);
    SnocKeys(Without(order, e.key), e.key);
    BucketsStep(o, l, free, e);
    LimiterKeys(o, l, e.key, e.now);
  }

  /** The recent part of the order after a take is what the limiter's own order becomes. */
  lemma OrderStep(maxKeys: nat, held: seq<Key>, order: seq<Key>, key: Key)
    requires maxKeys >= 1 && Distinct(order) && held == Recent(order, maxKeys) && (key in order ==> key in held)
    ensures Distinct(held) && |held| <= maxKeys
    ensures Distinct(Without(order, key) + [key])
    ensures Touch(maxKeys, held, key) == Recent(Without(order, key) + [key], maxKeys)
  {
    hide Touch, Recent, Without, Distinct;
    WithoutDistinct(order, key);
    DistinctSnoc(Without(order, key), key);
    RecentSize(order, maxKeys);
    RecentSplit(order, maxKeys);
    SuffixDistinct(order, |order| - |held|);
    if key in order {
      RecentMoves(order, maxKeys, key);
      TouchHeld(maxKeys, held, key);
    } else {
      RecentGrows(order, maxKeys, key);
    }
  }

  lemma TouchHeld(maxKeys: nat, order: seq<Key>, key: Key)
    requires key in order
    ensures Touch(maxKeys, order, key) == Without(order, key) + [key]
  {
  }

  lemma SuffixDistinct(order: seq<Key>, cut: nat)
    requires Distinct(order) && cut <= |order|
    ensures Distinct(order[cut..])
  {
  }

  /** A key that comes back soon enough is still held. */
  lemma StillHeld(o: Options, events: seq<Event>, key: Key)
    requires Seen(events, key) && |KeysSince(events, key)| < o.maxKeys
    ensures key in Recent(Recency(events), o.maxKeys)
  {
    var order := Recency(events);
    RecencyKeys(events);
    FollowingIsSince(events, key);
    FollowingPlace(order, key);
    var p := |order| - 1 - |Following(order, key)|;
    SuffixDistinct(order, p + 1);
    DistinctSize(Following(order, key));
    assert |order| > o.maxKeys ==> order[|order| - o.maxKeys..][p - (|order| - o.maxKeys)] == key;
  }

  lemma AgreeHolds(o: Options, l: Limiter, free: map<Key, Bucket>, order: seq<Key>)
    requires Agree(o, l, free, order)
    ensures l.order == Recent(order, o.maxKeys)
  {
  }

  lemma RunStep(o: Options, events: seq<Event>)
    requires ValidOptions(o) && events != []
    ensures var n := |events| - 1;
            var e := events[n];
            var bounded := LimiterTake(o, LimiterRun(o, events[..n]).1, e.key, e.now);
            var free := FreeTake(o, FreeRun(o, events[..n]).1, e);
            && LimiterRun(o, events) == (LimiterRun(o, events[..n]).0 + [bounded.0], bounded.1)
            && FreeRun(o, events) == (FreeRun(o, events[..n]).0 + [free.0], free.1)
            && Recency(events) == Without(Recency(events[..n]), e.key) + [e.key]
  {
    hide Take, Touch, Without;
  }

  /**
   * The bounded limiter always holds the most recently taken keys, and in every
   * run where keys come back soon enough it decides exactly as an unbounded map
   * of per-key buckets.
   */
  lemma {:induction false} BoundedDecidesAsUnbounded(o: Options, events: seq<Event>)
    requires ValidOptions(o) && Close(o, events)
    ensures Agree(o, LimiterRun(o, events).1, FreeRun(o, events).1, Recency(events))
    ensures LimiterRun(o, events).0 == FreeRun(o, events).0
  {
    if events != [] {
      hide Agree, Recent, LimiterTake, FreeTake, Without, LimiterRun, FreeRun, Recency;
      var n := |events| - 1;
      BoundedDecidesAsUnbounded(o, events[..n]);
      RunStep(o, events);
      RecencyKeys(events[..n]);
      if Seen(events[..n], events[n].key) {
        StillHeld(o, events[..n], events[n].key);
      }
      AgreeHolds(o, LimiterRun(o, events[..n]).1, FreeRun(o, events[..n]).1, Recency(events[..n]));
      SimulationStep(o, LimiterRun(o, events[..n]).1, FreeRun(o, events[..n]).1, Recency(events[..n]), events[n]);
    }
  }

  // ---- Each key by its own history

  /** When a key was taken. */
  function TimesOf(events: seq<Event>, key: Key): seq<real> {
    if events == [] then []
    else
      var n := |events| - 1;
      TimesOf(events[..n], key) + if events[n].key == key then [events[n].now] else []
  }

  /** In the unbounded map a key's bucket is what its own takes made of a full one. */
  lemma {:induction false} KeyHistory(o: Options, events: seq<Event>, key: Key)
    requires ValidOptions(o)
    ensures var free, times := FreeRun(o, events).1, TimesOf(events, key);
            && (key in free <==> times != [])
            && (key in free ==> free[key] == After(o.rate, Bucket(o.rate.capacity, times[0]), times))
  {
    if events != [] {
      hide Take, After;
      var n := |events| - 1;
      KeyHistory(o, events[..n], key);
      if events[n].key == key {
        var times := TimesOf(events[..n], key);
        var start := if times == [] then events[n].now else times[0];
        AfterSnoc(o.rate, Bucket(o.rate.capacity, start), times, events[n].now);
        AfterNone(o.rate, Bucket(o.rate.capacity, start));
        assert (times + [events[n].now])[0] == start;
        assert FreeRun(o, events).1[key]
            == Take(o.rate, Held(o, FreeRun(o, events[..n]).1, key, events[n].now), events[n].now).1;
      } else {
        assert TimesOf(events, key) == TimesOf(events[..n], key);
      }
    }
  }

  lemma AfterNone(r: Rate, b: Bucket)
    requires ValidRate(r)
    ensures After(r, b, []) == b
  {
  }

  /**
   * Every decision of the limiter, in every run where keys come back soon enough: it
   * is that of the windows over the key's own takes, whatever other keys did.
   */
  lemma LimiterDecides(o: Options, events: seq<Event>, more: nat)
    requires ValidOptions(o) && Close(o, events) && events != []
    ensures |LimiterRun(o, events).0| == |events|
    ensures var times := TimesOf(events, events[|events| - 1].key);
            var d, i := LimiterRun(o, events).0[|events| - 1], |times| - 1;
            && times != [] && times[i] == events[|events| - 1].now
            && (d.allowed <==> forall j :: 0 <= j <= i ==> Left(o.rate, times, j, i) >= 1.0)
            && (d.allowed ==> (d.remaining >= more <==>
                                 forall j :: 0 <= j <= i ==> Left(o.rate, times, j, i) >= 1.0 + more as real))
  {
    hide Take, After, Left, Recency, LimiterRun, LimiterTake, Close, Agree;
    var n := |events| - 1;
    var e := events[n];
    BoundedDecidesAsUnbounded(o, events);
    FreeSize(o, events[..n]);
    KeyHistory(o, events[..n], e.key);
    var earlier := TimesOf(events[..n], e.key);
    var times := TimesOf(events, e.key);
    var i := |times| - 1;
    assert times[..i] == earlier;
    AfterNone(o.rate, Bucket(o.rate.capacity, e.now));
    assert Held(o, FreeRun(o, events[..n]).1, e.key, e.now) == Before(o.rate, times, i);
    DecidedByWindows(o.rate, times, i, more);
  }

  lemma {:induction false} FreeSize(o: Options, events: seq<Event>)
    requires ValidOptions(o)
    ensures |FreeRun(o, events).0| == |events|
  {
    hide FreeTake;
    if events != [] {
      FreeSize(o, events[..|events| - 1]);
    }
  }

  /** A key that is not held starts with a full bucket. */
  lemma FirstTake(o: Options, l: Limiter, key: Key, now: real)
    requires ValidOptions(o) && key !in l.buckets && o.rate.capacity >= 1.0
    ensures LimiterTake(o, l, key, now).0 == Decision(true, 0, (o.rate.capacity - 1.0).Floor)
    ensures LimiterTake(o, l, key, now).1.buckets[key] == Bucket(o.rate.capacity - 1.0, now)
  {
    hide Touch, Kept;
  }

  /** Every run of the limiter keeps at most `maxKeys` keys, close or not. */
  lemma {:induction false} RunStaysBounded(o: Options, events: seq<Event>)
    requires ValidOptions(o)
    ensures ValidLimiter(o, LimiterRun(o, events).1)
  {
    if events != [] {
      var n := |events| - 1;
      RunStaysBounded(o, events[..n]);
      LimiterTakeValid(o, LimiterRun(o, events[..n]).1, events[n].key, events[n].now);
    }
  }
}
