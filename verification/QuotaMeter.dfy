/**
 * Observed Drive usage (apps/server/src/drive/quota-meter.ts): fixed-size rings of
 * per-second and per-minute counters, a bounded map of users and a short list of
 * throttle events, against a plain log of the calls. Times are whole milliseconds.
 */
module QuotaMeter {
  import opened Bytes
  import opened JsBits

  datatype UserId = UserId(text: string)

  datatype Kind = Api | Upload | Download

  datatype Call = Call(
    user: Option<UserId>, kind: Kind, status: int, throttled: bool,
    reason: Option<string>, retryAfterMs: Option<int>, atMs: nat)

  datatype Counts = Counts(requests: int, throttled: int, errors: int, api: int, upload: int, download: int)

  const ZERO := Counts(0, 0, 0, 0, 0, 0)

  const SECOND_SLOTS := 600
  const MINUTE_SLOTS := 1440
  const USER_MINUTE_SLOTS := 60
  const MAX_TRACKED_USERS := 200
  const MAX_THROTTLE_EVENTS := 50

  function Plus(a: Counts, b: Counts): Counts {
    Counts(a.requests + b.requests, a.throttled + b.throttled, a.errors + b.errors,
           a.api + b.api, a.upload + b.upload, a.download + b.download)
  }

  /** What one call adds: a throttled call is not counted as an error as well. */
  function One(c: Call): Counts {
    Counts(
      1,
      if c.throttled then 1 else 0,
      if !c.throttled && (c.status >= 400 || c.status == 0) then 1 else 0,
      if c.kind.Api? then 1 else 0,
      if c.kind.Upload? then 1 else 0,
      if c.kind.Download? then 1 else 0)
  }

  /** The log's own count of the calls that match. */
  function Tally(log: seq<Call>, pick: Call -> bool): Counts {
    if log == [] then ZERO
    else Plus(if pick(log[0]) then One(log[0]) else ZERO, Tally(log[1..], pick))
  }

  lemma PlusLaws(a: Counts, b: Counts, c: Counts)
    ensures Plus(Plus(a, b), c) == Plus(a, Plus(b, c))
    ensures Plus(a, b) == Plus(b, a)
    ensures Plus(ZERO, a) == a == Plus(a, ZERO)
  {
  }

  lemma {:induction false} TallyConcat(a: seq<Call>, b: seq<Call>, pick: Call -> bool)
    ensures Tally(a + b, pick) == Plus(Tally(a, pick), Tally(b, pick))
  {
    hide Plus, One;
    if a == [] {
      assert a + b == b;
      PlusLaws(Tally(b, pick), ZERO, ZERO);
    } else {
      assert (a + b)[1..] == a[1..] + b;
      TallyConcat(a[1..], b, pick);
      PlusLaws(if pick(a[0]) then One(a[0]) else ZERO, Tally(a[1..], pick), Tally(b, pick));
    }
  }

  lemma TallySnoc(log: seq<Call>, c: Call, pick: Call -> bool)
    ensures Tally(log + [c], pick) == Plus(Tally(log, pick), if pick(c) then One(c) else ZERO)
  {
    hide Plus, One;
    TallyConcat(log, [c], pick);
    var one := if pick(c) then One(c) else ZERO;
    assert [c][1..] == [];
    assert Tally([c], pick) == Plus(one, ZERO);
    PlusLaws(one, ZERO, ZERO);
  }

  lemma {:induction false} TallyAgrees(log: seq<Call>, p: Call -> bool, q: Call -> bool)
    requires forall c :: c in log ==> p(c) == q(c)
    ensures Tally(log, p) == Tally(log, q)
  {
    hide Plus, One;
    if log != [] {
      TallyAgrees(log[1..], p, q);
    }
  }

  lemma {:induction false} TallyNone(log: seq<Call>, p: Call -> bool)
    requires forall c :: c in log ==> !p(c)
    ensures Tally(log, p) == ZERO
  {
    hide Plus, One;
    if log != [] {
      TallyNone(log[1..], p);
      PlusLaws(ZERO, ZERO, ZERO);
    }
  }

  /** Counts over two disjoint conditions add up. */
  lemma {:induction false} TallySplits(log: seq<Call>, whole: Call -> bool, p: Call -> bool, q: Call -> bool)
    requires forall c :: c in log ==> whole(c) == (p(c) || q(c)) && !(p(c) && q(c))
    ensures Tally(log, whole) == Plus(Tally(log, p), Tally(log, q))
  {
    hide Plus, One;
    PlusLaws(ZERO, ZERO, ZERO);
    if log != [] {
      TallySplits(log[1..], whole, p, q);
      assert log[0] in log;
      var tp, tq := Tally(log[1..], p), Tally(log[1..], q);
      var one := if whole(log[0]) then One(log[0]) else ZERO;
      PlusSplit(one, tp, tq, p(log[0]));
    }
  }

  lemma PlusSplit(one: Counts, a: Counts, b: Counts, left: bool)
    ensures Plus(one, Plus(a, b))
         == if left then Plus(Plus(one, a), Plus(ZERO, b)) else Plus(Plus(ZERO, a), Plus(one, b))
  {
  }

  /** In every count the kinds sum to the requests, and no call is both throttled and an error. */
  lemma {:induction false} KindsSum(log: seq<Call>, pick: Call -> bool)
    ensures var t := Tally(log, pick);
            t.api + t.upload + t.download == t.requests && t.throttled + t.errors <= t.requests
  {
    if log != [] {
      KindsSum(log[1..], pick);
    }
  }

  function Count(log: seq<Call>, pick: Call -> bool): nat {
    if log == [] then 0 else (if pick(log[0]) then 1 else 0) + Count(log[1..], pick)
  }

  lemma {:induction false} RequestsTallied(log: seq<Call>, pick: Call -> bool)
    ensures Tally(log, pick).requests == Count(log, pick)
  {
    if log != [] {
      RequestsTallied(log[1..], pick);
    }
  }

  lemma {:induction false} ThrottledTallied(log: seq<Call>, pick: Call -> bool, counted: Call -> bool)
    requires forall c :: counted(c) <==> pick(c) && c.throttled
    ensures Tally(log, pick).throttled == Count(log, counted)
  {
    if log != [] {
      ThrottledTallied(log[1..], pick, counted);
    }
  }

  lemma {:induction false} ErrorsTallied(log: seq<Call>, pick: Call -> bool, counted: Call -> bool)
    requires forall c :: counted(c) <==> pick(c) && !c.throttled && (c.status >= 400 || c.status == 0)
    ensures Tally(log, pick).errors == Count(log, counted)
  {
    if log != [] {
      ErrorsTallied(log[1..], pick, counted);
    }
  }

  lemma {:induction false} ApiTallied(log: seq<Call>, pick: Call -> bool, counted: Call -> bool)
    requires forall c :: counted(c) <==> pick(c) && c.kind == Api
    ensures Tally(log, pick).api == Count(log, counted)
  {
    if log != [] {
      ApiTallied(log[1..], pick, counted);
    }
  }

  lemma {:induction false} UploadTallied(log: seq<Call>, pick: Call -> bool, counted: Call -> bool)
    requires forall c :: counted(c) <==> pick(c) && c.kind == Upload
    ensures Tally(log, pick).upload == Count(log, counted)
  {
    if log != [] {
      UploadTallied(log[1..], pick, counted);
    }
  }

  lemma {:induction false} DownloadTallied(log: seq<Call>, pick: Call -> bool, counted: Call -> bool)
    requires forall c :: counted(c) <==> pick(c) && c.kind == Download
    ensures Tally(log, pick).download == Count(log, counted)
  {
    if log != [] {
      DownloadTallied(log[1..], pick, counted);
    }
  }

  /**
   * What each figure counts: an error is a call that was answered with 400 or more, or
   * not at all, and not throttled.
   */
  lemma TallyExactly(log: seq<Call>, pick: Call -> bool)
    ensures var t := Tally(log, pick);
            && t.requests == Count(log, pick)
            && t.throttled == Count(log, c => pick(c) && c.throttled)
            && t.errors == Count(log, c => pick(c) && !c.throttled && (c.status >= 400 || c.status == 0))
            && t.api == Count(log, c => pick(c) && c.kind == Api)
            && t.upload == Count(log, c => pick(c) && c.kind == Upload)
            && t.download == Count(log, c => pick(c) && c.kind == Download)
  {
    hide Tally, Count;
    RequestsTallied(log, pick);
    ThrottledTallied(log, pick, c => pick(c) && c.throttled);
    ErrorsTallied(log, pick, c => pick(c) && !c.throttled && (c.status >= 400 || c.status == 0));
    ApiTallied(log, pick, c => pick(c) && c.kind == Api);
    UploadTallied(log, pick, c => pick(c) && c.kind == Upload);
    DownloadTallied(log, pick, c => pick(c) && c.kind == Download);
  }

  // ---- Rings

  /** A slot holds one second (or minute); -1 when unused. */
  datatype Slot = Slot(stamp: int, counts: Counts)

  const EMPTY_SLOT := Slot(-1, ZERO)

  function Stamp(unitMs: int, c: Call): nat
    requires unitMs > 0
  {
    c.atMs / unitMs
  }

  function SlotOf(stamp: int, n: int): (i: int)
    requires n > 0
    ensures 0 <= i < n
  {
    stamp % n
  }

  /** One write: the slot is rolled first if it held another stamp. */
  function Written(ring: seq<Slot>, stamp: nat, c: Call): seq<Slot>
    requires |ring| > 0
  {
    var i := SlotOf(stamp, |ring|);
    var counts := if ring[i].stamp != stamp then ZERO else ring[i].counts;
    ring[i := Slot(stamp, Plus(counts, One(c)))]
  }

  method Write(ring: array<Slot>, stamp: nat, c: Call)
    requires ring.Length > 0
    modifies ring
    ensures ring[..] == Written(old(ring[..]), stamp, c)
  {
    hide SlotOf, Plus, One;
    var i := SlotOf(stamp, ring.Length);
    if ring[i].stamp != stamp {
      ring[i] := Slot(stamp, ZERO);
    }
    ring[i] := ring[i].(counts := Plus(ring[i].counts, One(c)));
  }

  /** A later call of another stamp took the call's slot. */
  predicate Overwritten(n: nat, unitMs: int, c: Call, later: seq<Call>)
    requires n > 0 && unitMs > 0
  {
    exists d :: d in later && Clash(n, unitMs, c, d)
  }

  predicate Clash(n: nat, unitMs: int, c: Call, d: Call)
    requires n > 0 && unitMs > 0
  {
    SlotOf(Stamp(unitMs, d), n) == SlotOf(Stamp(unitMs, c), n) && Stamp(unitMs, d) != Stamp(unitMs, c)
  }

  /** The calls of a log whose slot no later call has taken. */
  function Live(n: nat, unitMs: int, log: seq<Call>): seq<Call>
    requires n > 0 && unitMs > 0
  {
    if log == [] then []
    else if Overwritten(n, unitMs, log[0], log[1..]) then Live(n, unitMs, log[1..])
    else [log[0]] + Live(n, unitMs, log[1..])
  }

  /** A new call takes its slot from the live calls of other stamps. */
  function Evicted(n: nat, unitMs: int, live: seq<Call>, c: Call): (r: seq<Call>)
    requires n > 0 && unitMs > 0
    ensures forall d :: d in r <==> d in live && !Clash(n, unitMs, d, c)
  {
    if live == [] then []
    else if Clash(n, unitMs, live[0], c) then Evicted(n, unitMs, live[1..], c)
    else [live[0]] + Evicted(n, unitMs, live[1..], c)
  }

  lemma OverwrittenEmpty(n: nat, unitMs: int, c: Call)
    requires n > 0 && unitMs > 0
    ensures !Overwritten(n, unitMs, c, [])
  {
  }

  lemma OverwrittenSnoc(n: nat, unitMs: int, c: Call, later: seq<Call>, last: Call)
    requires n > 0 && unitMs > 0
    ensures Overwritten(n, unitMs, c, later + [last]) <==> Overwritten(n, unitMs, c, later) || Clash(n, unitMs, c, last)
  {
    hide Clash;
    assert forall d :: d in later + [last] <==> d in later || d == last;
    if Overwritten(n, unitMs, c, later) {
      var d :| d in later && Clash(n, unitMs, c, d);
      assert d in later + [last];
    }
    assert last in later + [last];
  }

  lemma {:induction false} LiveSnoc(n: nat, unitMs: int, log: seq<Call>, c: Call)
    requires n > 0 && unitMs > 0
    ensures Live(n, unitMs, log + [c]) == Evicted(n, unitMs, Live(n, unitMs, log), c) + [c]
  {
    hide Overwritten, Clash;
    if log == [] {
      assert [c][1..] == [];
      assert !Overwritten(n, unitMs, c, []) by { OverwrittenEmpty(n, unitMs, c); }
    } else {
      var rest := log[1..];
      assert (log + [c])[0] == log[0] && (log + [c])[1..] == rest + [c];
      LiveSnoc(n, unitMs, rest, c);
      OverwrittenSnoc(n, unitMs, log[0], rest, c);
      var live := Live(n, unitMs, rest);
      assert ([log[0]] + live)[1..] == live;
    }
  }

  lemma {:induction false} EvictedTally(n: nat, unitMs: int, live: seq<Call>, c: Call, pick: Call -> bool)
    requires n > 0 && unitMs > 0
    requires forall d :: d in live && pick(d) ==> !Clash(n, unitMs, d, c)
    ensures Tally(Evicted(n, unitMs, live, c), pick) == Tally(live, pick)
  {
    hide Clash, Plus, One;
    if live != [] {
      EvictedTally(n, unitMs, live[1..], c, pick);
      var rest := Evicted(n, unitMs, live[1..], c);
      assert ([live[0]] + rest)[1..] == rest;
      PlusLaws(Tally(live[1..], pick), ZERO, ZERO);
      assert live[0] in live;
    }
  }

  function At(unitMs: int, stamp: int): Call -> bool
    requires unitMs > 0
  {
    c => Stamp(unitMs, c) == stamp
  }

  function Within(unitMs: int, oldest: int, newest: int): Call -> bool
    requires unitMs > 0
  {
    c => oldest <= Stamp(unitMs, c) <= newest
  }

  /** The ring holds exactly the counts of the log's live calls, each stamp in its own slot. */
  ghost predicate Holds(ring: seq<Slot>, unitMs: int, live: seq<Call>)
    requires unitMs > 0
  {
    && |ring| > 0
    && (forall i :: 0 <= i < |ring| ==> SlotHolds(ring, unitMs, live, i))
    && (forall c :: c in live ==> ring[SlotOf(Stamp(unitMs, c), |ring|)].stamp == Stamp(unitMs, c))
  }

  ghost predicate SlotHolds(ring: seq<Slot>, unitMs: int, live: seq<Call>, i: int)
    requires unitMs > 0 && 0 <= i < |ring|
  {
    && ring[i].counts == Tally(live, At(unitMs, ring[i].stamp))
    && (ring[i].stamp == -1 || (ring[i].stamp >= 0 && SlotOf(ring[i].stamp, |ring|) == i))
  }

  function EmptyRing(n: nat): seq<Slot> { seq(n, i => EMPTY_SLOT) }

  lemma EmptyHolds(n: nat, unitMs: int)
    requires n > 0 && unitMs > 0
    ensures Holds(EmptyRing(n), unitMs, Live(n, unitMs, []))
  {
  }

  /** A call only counts in its own slot. */
  lemma OtherSlot(ring: seq<Slot>, unitMs: int, live: seq<Call>, c: Call, j: int)
    requires unitMs > 0 && |ring| > 0 && 0 <= j < |ring| && SlotHolds(ring, unitMs, live, j)
    requires j != SlotOf(Stamp(unitMs, c), |ring|)
    ensures ring[j].counts == Tally(Evicted(|ring|, unitMs, live, c) + [c], At(unitMs, ring[j].stamp))
  {
    hide Tally, Plus, One, Evicted, SlotOf, Stamp;
    var pick := At(unitMs, ring[j].stamp);
    TallySnoc(Evicted(|ring|, unitMs, live, c), c, pick);
    EvictedTally(|ring|, unitMs, live, c, pick);
    PlusLaws(Tally(live, pick), ZERO, ZERO);
  }

  lemma OwnSlot(ring: seq<Slot>, unitMs: int, live: seq<Call>, c: Call)
    requires unitMs > 0 && Holds(ring, unitMs, live)
    ensures var s := Stamp(unitMs, c);
            Written(ring, s, c)[SlotOf(s, |ring|)].counts
            == Tally(Evicted(|ring|, unitMs, live, c) + [c], At(unitMs, s))
  {
    hide Tally, Plus, One, Evicted, SlotOf, Stamp;
    var n := |ring|;
    var s := Stamp(unitMs, c);
    var pick := At(unitMs, s);
    TallySnoc(Evicted(n, unitMs, live, c), c, pick);
    EvictedTally(n, unitMs, live, c, pick);
    if ring[SlotOf(s, n)].stamp != s {
      TallyNone(live, pick);
    } else {
      assert SlotHolds(ring, unitMs, live, SlotOf(s, n));
    }
  }

  /** Each write keeps the ring equal to the log's live counts, whatever the clock does. */
  lemma WriteHolds(ring: seq<Slot>, unitMs: int, log: seq<Call>, c: Call)
    requires unitMs > 0 && |ring| > 0 && Holds(ring, unitMs, Live(|ring|, unitMs, log))
    ensures Holds(Written(ring, Stamp(unitMs, c), c), unitMs, Live(|ring|, unitMs, log + [c]))
  {
    hide Tally, Plus, One, Evicted, SlotOf, Stamp, Live;
    var n := |ring|;
    var s := Stamp(unitMs, c);
    var live := Live(n, unitMs, log);
    var kept := Evicted(n, unitMs, live, c);
    var next := Written(ring, s, c);
    LiveSnoc(n, unitMs, log, c);
    OwnSlot(ring, unitMs, live, c);
    forall j | 0 <= j < n ensures SlotHolds(next, unitMs, kept + [c], j) {
      if j != SlotOf(s, n) {
        assert SlotHolds(ring, unitMs, live, j);
        OtherSlot(ring, unitMs, live, c, j);
      }
    }
    forall d | d in kept + [c] ensures next[SlotOf(Stamp(unitMs, d), n)].stamp == Stamp(unitMs, d) {
      if d in kept {
        assert d in live && !Clash(n, unitMs, d, c);
      }
    }
  }

  // ---- Windows

  /** The sum over the slots of a ring whose stamp lies in a span. */
  function SlotSum(ring: seq<Slot>, oldest: int, newest: int): Counts {
    if ring == [] then ZERO
    else
      var n := |ring| - 1;
      Plus(SlotSum(ring[..n], oldest, newest),
           if ring[n].stamp < oldest || ring[n].stamp > newest then ZERO else ring[n].counts)
  }

  function Below(n: nat, unitMs: int, oldest: int, newest: int, m: nat): Call -> bool
    requires unitMs > 0 && n > 0
  {
    c => oldest <= Stamp(unitMs, c) <= newest && SlotOf(Stamp(unitMs, c), n) < m
  }

  lemma {:induction false} SlotSumBelow(ring: seq<Slot>, unitMs: int, live: seq<Call>, oldest: int, newest: int, m: nat)
    requires unitMs > 0 && Holds(ring, unitMs, live) && m <= |ring|
    ensures SlotSum(ring[..m], oldest, newest) == Tally(live, Below(|ring|, unitMs, oldest, newest, m))
  {
    hide Tally, Plus, One, SlotOf, Stamp;
    var n := |ring|;
    if m == 0 {
      TallyNone(live, Below(n, unitMs, oldest, newest, 0));
    } else {
      SlotSumBelow(ring, unitMs, live, oldest, newest, m - 1);
      assert ring[..m][..m - 1] == ring[..m - 1];
      var slot := ring[m - 1];
      assert SlotHolds(ring, unitMs, live, m - 1);
      var here: Call -> bool := c => oldest <= Stamp(unitMs, c) <= newest && SlotOf(Stamp(unitMs, c), n) == m - 1;
      TallySplits(live, Below(n, unitMs, oldest, newest, m), Below(n, unitMs, oldest, newest, m - 1), here);
      if slot.stamp < oldest || slot.stamp > newest {
        TallyNone(live, here);
      } else {
        TallyAgrees(live, here, At(unitMs, slot.stamp));
      }
    }
  }

  /** For every window, any log and any clock: a ring reports exactly the live calls of the span. */
  lemma RingReports(ring: seq<Slot>, unitMs: int, live: seq<Call>, oldest: int, newest: int)
    requires unitMs > 0 && Holds(ring, unitMs, live)
    ensures SlotSum(ring, oldest, newest) == Tally(live, Within(unitMs, oldest, newest))
  {
    var n := |ring|;
    SlotSumBelow(ring, unitMs, live, oldest, newest, n);
    assert ring[..n] == ring;
    TallyAgrees(live, Below(n, unitMs, oldest, newest, n), Within(unitMs, oldest, newest));
  }

  predicate Lost(n: nat, unitMs: int, log: seq<Call>, j: int)
    requires n > 0 && unitMs > 0 && 0 <= j < |log|
  {
    Overwritten(n, unitMs, log[j], log[j + 1..])
  }

  /** Some call that counts has lost its slot. */
  predicate LosesSome(n: nat, unitMs: int, log: seq<Call>, pick: Call -> bool)
    requires n > 0 && unitMs > 0
  {
    exists j :: 0 <= j < |log| && pick(log[j]) && Lost(n, unitMs, log, j)
  }

  lemma LosesCons(n: nat, unitMs: int, log: seq<Call>, pick: Call -> bool)
    requires n > 0 && unitMs > 0 && log != []
    ensures LosesSome(n, unitMs, log, pick)
            <==> (pick(log[0]) && Overwritten(n, unitMs, log[0], log[1..])) || LosesSome(n, unitMs, log[1..], pick)
  {
    hide Overwritten;
    var rest := log[1..];
    forall j | 0 <= j < |rest| ensures Lost(n, unitMs, rest, j) == Lost(n, unitMs, log, j + 1) {
      assert rest[j + 1..] == log[j + 2..];
    }
    if LosesSome(n, unitMs, log, pick) {
      var j :| 0 <= j < |log| && pick(log[j]) && Lost(n, unitMs, log, j);
      if j > 0 {
        assert rest[j - 1] == log[j];
        assert Lost(n, unitMs, rest, j - 1);
      }
    }
    if LosesSome(n, unitMs, rest, pick) {
      var j :| 0 <= j < |rest| && pick(rest[j]) && Lost(n, unitMs, rest, j);
      assert Lost(n, unitMs, log, j + 1);
    }
    if pick(log[0]) && Overwritten(n, unitMs, log[0], log[1..]) {
      assert Lost(n, unitMs, log, 0);
    }
  }

  lemma PlusOne(c: Call, a: Counts, b: Counts)
    ensures Plus(ZERO, a) == a && Plus(ZERO, b) == b
    ensures Plus(One(c), a) == Plus(One(c), b) <==> a == b
    ensures Plus(One(c), a).requests == a.requests + 1 && Plus(One(c), b).requests == b.requests + 1
  {
  }

  /** The live calls give the log's own count if and only if no call that counts has lost its slot. */
  lemma {:induction false} LiveExact(n: nat, unitMs: int, log: seq<Call>, pick: Call -> bool)
    requires n > 0 && unitMs > 0
    ensures Tally(Live(n, unitMs, log), pick).requests <= Tally(log, pick).requests
    ensures Tally(Live(n, unitMs, log), pick) == Tally(log, pick) <==> !LosesSome(n, unitMs, log, pick)
    ensures LosesSome(n, unitMs, log, pick) ==> Tally(Live(n, unitMs, log), pick).requests < Tally(log, pick).requests
  {
    if log != [] {
      hide Overwritten, LosesSome, Plus, One;
      LiveExact(n, unitMs, log[1..], pick);
      LosesCons(n, unitMs, log, pick);
      var rest := Live(n, unitMs, log[1..]);
      assert ([log[0]] + rest)[1..] == rest;
      PlusOne(log[0], Tally(rest, pick), Tally(log[1..], pick));
    } else {
      assert !LosesSome(n, unitMs, log, pick);
    }
  }

  predicate Ordered(log: seq<Call>) { forall i, j :: 0 <= i < j < |log| ==> log[i].atMs <= log[j].atMs }

  predicate NoLaterThan(log: seq<Call>, nowMs: nat) { forall c :: c in log ==> c.atMs <= nowMs }

  lemma DivMono(a: nat, b: nat, d: int)
    requires d > 0 && a <= b
    ensures a / d <= b / d
  {
    DivMod(a, d);
    DivMod(b, d);
    var k := b / d - a / d;
    assert b - a == k * d + b % d - a % d;
    if k < 0 {
      NonZeroMul(k, d);
    }
  }

  lemma Congruent(a: nat, b: nat, n: nat)
    requires n > 0 && a < b && a % n == b % n
    ensures b - a >= n
  {
    DivMod(a, n);
    DivMod(b, n);
    var k := b / n - a / n;
    assert b - a == k * n;
    NonZeroMul(k, n);
  }

  /** With a clock that does not step back, a window no longer than the ring loses nothing. */
  lemma NothingLost(n: nat, unitMs: int, log: seq<Call>, nowMs: nat, units: int)
    requires n > 0 && unitMs > 0 && units <= n && Ordered(log) && NoLaterThan(log, nowMs)
    ensures var newest := nowMs / unitMs;
            !LosesSome(n, unitMs, log, Within(unitMs, newest - units + 1, newest))
  {
    var newest := nowMs / unitMs;
    var pick := Within(unitMs, newest - units + 1, newest);
    if LosesSome(n, unitMs, log, pick) {
      var j :| 0 <= j < |log| && pick(log[j]) && Lost(n, unitMs, log, j);
      var d :| d in log[j + 1..] && Clash(n, unitMs, log[j], d);
      var k :| 0 <= k < |log| - j - 1 && log[j + 1..][k] == d;
      assert log[j + 1 + k] == d;
      DivMono(log[j].atMs, d.atMs, unitMs);
      DivMono(d.atMs, nowMs, unitMs);
      Congruent(Stamp(unitMs, log[j]), Stamp(unitMs, d), n);
      assert false;
    }
  }

  // ---- Users

  datatype UserEntry = UserEntry(ring: seq<Slot>, lastCallMs: nat)

  /** The calls of one user, oldest first. */
  function CallsOf(log: seq<Call>, u: UserId): seq<Call> {
    if log == [] then []
    else
      var n := |log| - 1;
      CallsOf(log[..n], u) + if log[n].user == Some(u) then [log[n]] else []
  }

  /** A user's ring counts that user's calls since the entry was made. */
  ghost predicate EntryHolds(e: UserEntry, u: UserId, since: nat, log: seq<Call>) {
    && since <= |log|
    && |e.ring| == USER_MINUTE_SLOTS
    && Holds(e.ring, 60_000, Live(USER_MINUTE_SLOTS, 60_000, CallsOf(log[since..], u)))
    && CallsOf(log[since..], u) != [] && Last(CallsOf(log[since..], u)).atMs == e.lastCallMs
  }

  function Last(s: seq<Call>): Call
    requires s != []
  {
    s[|s| - 1]
  }

  /** Of the first n users, the first whose last call is the oldest. */
  predicate IsOldest(order: seq<UserId>, entries: map<UserId, UserEntry>, n: nat, k: int)
    requires n <= |order| && forall u :: u in order ==> u in entries
  {
    && 0 <= k < n
    && (forall j :: 0 <= j < n ==> entries[order[k]].lastCallMs <= entries[order[j]].lastCallMs)
    && (forall j :: 0 <= j < k ==> entries[order[k]].lastCallMs < entries[order[j]].lastCallMs)
  }

  lemma CallsOfSnoc(log: seq<Call>, since: nat, c: Call, u: UserId)
    requires since <= |log|
    ensures CallsOf((log + [c])[since..], u)
         == CallsOf(log[since..], u) + if c.user == Some(u) then [c] else []
  {
    assert (log + [c])[since..] == log[since..] + [c];
    assert (log[since..] + [c])[..|log| - since] == log[since..];
  }

  /** A call by someone else leaves an entry as it was. */
  lemma EntryUntouched(e: UserEntry, u: UserId, since: nat, log: seq<Call>, c: Call)
    requires EntryHolds(e, u, since, log) && c.user != Some(u)
    ensures EntryHolds(e, u, since, log + [c])
  {
    hide Holds, Live, CallsOf;
    CallsOfSnoc(log, since, c, u);
    assert CallsOf(log[since..], u) + [] == CallsOf(log[since..], u);
  }

  /** A call by the user is written to the entry's ring. */
  lemma EntryWritten(e: UserEntry, u: UserId, since: nat, log: seq<Call>, c: Call)
    requires EntryHolds(e, u, since, log) && c.user == Some(u)
    ensures EntryHolds(UserEntry(Written(e.ring, Stamp(60_000, c), c), c.atMs), u, since, log + [c])
  {
    hide Holds, Live, CallsOf, Stamp, Plus, One, SlotOf;
    CallsOfSnoc(log, since, c, u);
    WriteHolds(e.ring, 60_000, CallsOf(log[since..], u), c);
  }

  /** A new entry starts at the call that made it. */
  lemma EntryStarted(u: UserId, log: seq<Call>, c: Call)
    requires c.user == Some(u)
    ensures var ring := Written(EmptyRing(USER_MINUTE_SLOTS), Stamp(60_000, c), c);
            EntryHolds(UserEntry(ring, c.atMs), u, |log|, log + [c])
  {
    hide Holds, Live, Stamp, Plus, One, SlotOf;
    EmptyHolds(USER_MINUTE_SLOTS, 60_000);
    WriteHolds(EmptyRing(USER_MINUTE_SLOTS), 60_000, [], c);
    assert [] + [c] == [c];
    assert (log + [c])[|log|..] == [c];
    assert CallsOf([c], u) == [c];
  }

  lemma EntrySize(e: UserEntry, u: UserId, since: nat, log: seq<Call>)
    requires EntryHolds(e, u, since, log)
    ensures |e.ring| == USER_MINUTE_SLOTS
  {
  }

  lemma EmptySize(n: nat)
    ensures |EmptyRing(n)| == n
  {
  }

  function Removed(order: seq<UserId>, k: nat): seq<UserId>
    requires k < |order|
  {
    order[..k] + order[k + 1..]
  }

  lemma RemovedKeys(order: seq<UserId>, k: nat)
    requires k < |order| && Distinct(order)
    ensures Distinct(Removed(order, k)) && |Removed(order, k)| == |order| - 1
    ensures forall u :: u in Removed(order, k) <==> u in order && u != order[k]
  {
    var r := Removed(order, k);
    forall u ensures u in r <==> u in order && u != order[k] {
      if u in order && u != order[k] {
        var i :| 0 <= i < |order| && order[i] == u;
        assert r[if i < k then i else i - 1] == u;
      }
      if u in r {
        var i :| 0 <= i < |r| && r[i] == u;
        assert order[if i < k then i else i + 1] == u;
      }
    }
  }

  // ---- Throttle events

  datatype ThrottleEvent = ThrottleEvent(
    atMs: nat, user: Option<UserId>, kind: Kind, status: int, reason: Option<string>, retryAfterMs: Option<int>)

  function EventOf(c: Call): ThrottleEvent { ThrottleEvent(c.atMs, c.user, c.kind, c.status, c.reason, c.retryAfterMs) }

  function Throttles(log: seq<Call>): seq<ThrottleEvent> {
    if log == [] then []
    else
      var n := |log| - 1;
      Throttles(log[..n]) + if log[n].throttled then [EventOf(log[n])] else []
  }

  function Newest(events: seq<ThrottleEvent>, size: nat): seq<ThrottleEvent> {
    if |events| <= size then events else events[|events| - size..]
  }

  lemma ThrottlesSnoc(log: seq<Call>, c: Call)
    ensures |Throttles(log + [c])| == |Throttles(log)| + if c.throttled then 1 else 0
    ensures !c.throttled ==> Throttles(log + [c]) == Throttles(log)
    ensures var kept := Newest(Throttles(log), MAX_THROTTLE_EVENTS) + [EventOf(c)];
            c.throttled ==> Newest(Throttles(log + [c]), MAX_THROTTLE_EVENTS)
                            == if |kept| > MAX_THROTTLE_EVENTS then kept[1..] else kept
  {
    hide EventOf;
    assert (log + [c])[..|log|] == log;
  }

  // ---- The meter

  datatype UserUsage = UserUsage(user: UserId, requestsLastHour: int, throttledLastHour: int, lastCallMs: nat)

  /** Which ring a window reads, its unit, and how many units it spans. */
  function Units(windowSeconds: int): (int, int, int) {
    if windowSeconds <= SECOND_SLOTS then (SECOND_SLOTS, 1000, if windowSeconds < 1 then 1 else windowSeconds)
    else (MINUTE_SLOTS, 60_000, (windowSeconds + 59) / 60)
  }

  /** The calls a window counts. */
  function InWindow(windowSeconds: int, nowMs: nat): Call -> bool {
    var (_, unitMs, units) := Units(windowSeconds);
    Within(unitMs, nowMs / unitMs - units + 1, nowMs / unitMs)
  }

  /**
   * The span of a window, to the second up to ten minutes and to the minute above:
   * that many seconds (at least one), or as many minutes as hold them, up to now.
   */
  lemma WindowExactly(windowSeconds: int, nowMs: nat, c: Call)
    ensures InWindow(windowSeconds, nowMs)(c) <==>
              if windowSeconds <= 600
              then var n := if windowSeconds < 1 then 1 else windowSeconds;
                   nowMs / 1000 - n < c.atMs / 1000 <= nowMs / 1000
              else exists n: nat :: 60 * (n - 1) < windowSeconds <= 60 * n
                     && nowMs / 60_000 - n < c.atMs / 60_000 <= nowMs / 60_000
  {
    if windowSeconds > 600 {
      var n: nat := (windowSeconds + 59) / 60;
      assert 60 * (n - 1) < windowSeconds <= 60 * n;
    }
  }

  class DriveQuotaMeter {
    const seconds: array<Slot>
    const minutes: array<Slot>
    /** The users, in the map's insertion order, and their entries. */
    var order: seq<UserId>
    var entries: map<UserId, UserEntry>
    var throttles: seq<ThrottleEvent>
    var totalRequests: nat
    var totalThrottled: nat
    /** Every call recorded, and where in it each entry started. */
    ghost var log: seq<Call>
    ghost var since: map<UserId, nat>

    constructor ()
      ensures Valid() && log == [] && fresh(seconds) && fresh(minutes)
    {
      seconds := new Slot[SECOND_SLOTS](_ => EMPTY_SLOT);
      minutes := new Slot[MINUTE_SLOTS](_ => EMPTY_SLOT);
      order, entries, throttles, totalRequests, totalThrottled := [], map[], [], 0, 0;
      log, since := [], map[];
      new;
      EmptyHolds(SECOND_SLOTS, 1000);
      EmptyHolds(MINUTE_SLOTS, 60_000);
      assert seconds[..] == EmptyRing(SECOND_SLOTS);
      assert minutes[..] == EmptyRing(MINUTE_SLOTS);
    }

    ghost predicate Valid()
      reads this, seconds, minutes
    {
      && RingsHold(log) && UsersHold(log)
      && throttles == Newest(Throttles(log), MAX_THROTTLE_EVENTS)
      && totalRequests == |log| && totalThrottled == |Throttles(log)|
    }

    ghost predicate RingsHold(log: seq<Call>)
      reads seconds, minutes
    {
      && seconds != minutes && seconds.Length == SECOND_SLOTS && minutes.Length == MINUTE_SLOTS
      && Holds(seconds[..], 1000, Live(SECOND_SLOTS, 1000, log))
      && Holds(minutes[..], 60_000, Live(MINUTE_SLOTS, 60_000, log))
    }

    ghost predicate UsersHold(log: seq<Call>)
      reads `order, `entries, `since
    {
      && UsersShape()
      && (forall u :: u in entries ==> EntryHolds(entries[u], u, since[u], log))
    }

    ghost predicate UsersShape()
      reads `order, `entries, `since
    {
      && Distinct(order) && |order| <= MAX_TRACKED_USERS
      && (forall u :: u in order <==> u in entries)
      && (forall u :: u in since <==> u in entries)
      && UserId("") !in entries
    }

    method FindOldestUser() returns (oldest: Option<nat>)
      requires forall u :: u in order ==> u in entries
      ensures oldest.None? <==> order == []
      ensures oldest.Some? ==> IsOldest(order, entries, |order|, oldest.value)
    {
      oldest := None;
      for i := 0 to |order|
        invariant oldest.None? <==> i == 0
        invariant oldest.Some? ==> IsOldest(order, entries, i, oldest.value)
      {
        if oldest.None? || entries[order[i]].lastCallMs < entries[order[oldest.value]].lastCallMs {
          oldest := Some(i);
        }
      }
    }

    method EvictOldestUser()
      requires UsersShape()
      modifies this`order, this`entries, this`since
      ensures UsersShape()
      ensures old(order) == [] ==> order == [] && entries == old(entries) && since == old(since)
      ensures old(order) != [] ==> |order| == |old(order)| - 1
      ensures old(order) != [] ==>
        exists k: nat :: IsOldest(old(order), old(entries), |old(order)|, k)
          && order == Removed(old(order), k)
          && entries == old(entries) - {old(order)[k]} && since == old(since) - {old(order)[k]}
    {
      hide IsOldest, Distinct, Removed;
      var oldest := FindOldestUser();
      if oldest.Some? {
        var id := order[oldest.value];
        RemovedKeys(order, oldest.value);
        order, entries := Removed(order, oldest.value), entries - {id};
        since := since - {id};
        assert IsOldest(old(order), old(entries), |old(order)|, oldest.value);
      }
    }

    /** A new entry, put last, after making room for it. */
    method AddEntry(u: UserId, atMs: nat)
      requires UsersShape() && u !in entries && u.text != ""
      modifies this`order, this`entries, this`since
      ensures UsersShape() && u in entries
      ensures entries[u] == UserEntry(EmptyRing(USER_MINUTE_SLOTS), atMs) && since[u] == |log|
      ensures |old(order)| < MAX_TRACKED_USERS ==> order == old(order) + [u]
      ensures |old(order)| >= MAX_TRACKED_USERS ==>
        exists k: nat :: IsOldest(old(order), old(entries), |old(order)|, k) && order == Removed(old(order), k) + [u]
      ensures forall v :: v in entries && v != u ==>
        v in old(entries) && entries[v] == old(entries)[v] && since[v] == old(since)[v]
    {
      hide IsOldest, Distinct, Removed, EmptyRing;
      if |order| >= MAX_TRACKED_USERS {
        EvictOldestUser();
      }
      DistinctSnoc(order, u);
      order, since := order + [u], since[u := |log|];
      entries := entries[u := UserEntry(EmptyRing(USER_MINUTE_SLOTS), atMs)];
    }

    method WriteUser(u: UserId, c: Call)
      requires UsersHold(log) && c.user == Some(u) && u.text != ""
      modifies this`order, this`entries, this`since
      ensures UsersHold(log + [c]) && u in entries
      ensures u in old(entries) ==> order == old(order) && since == old(since)
      ensures u !in old(entries) ==> since[u] == |log|
    {
      hide EntryHolds, Distinct, Removed, IsOldest, EmptyRing, Written;
      if u !in entries {
        AddEntry(u, c.atMs);
        EmptySize(USER_MINUTE_SLOTS);
        EntryStarted(u, log, c);
      } else {
        EntrySize(entries[u], u, since[u], log);
        EntryWritten(entries[u], u, since[u], log, c);
      }
      ghost var others := entries;
      entries := entries[u := UserEntry(Written(entries[u].ring, Stamp(60_000, c), c), c.atMs)];
      forall v | v in entries ensures EntryHolds(entries[v], v, since[v], log + [c]) {
        if v != u {
          EntryUntouched(others[v], v, since[v], log, c);
        }
      }
    }

    method WriteRings(c: Call)
      requires RingsHold(log)
      modifies seconds, minutes
      ensures RingsHold(log + [c])
    {
      hide Holds, Live, Written, Stamp;
      WriteHolds(seconds[..], 1000, log, c);
      WriteHolds(minutes[..], 60_000, log, c);
      Write(seconds, Stamp(1000, c), c);
      Write(minutes, Stamp(60_000, c), c);
    }

    /** A call counted in every place. */
    method Record(c: Call)
      requires Valid()
      modifies this, seconds, minutes
      ensures Valid() && log == old(log) + [c]
      ensures c.user.None? || c.user.value.text == "" ==> order == old(order) && entries == old(entries)
    {
      hide EntryHolds, UsersShape, RingsHold, Throttles, Newest;
      totalRequests := totalRequests + 1;
      if c.throttled {
        totalThrottled := totalThrottled + 1;
      }
      WriteRings(c);
      if c.user.Some? && c.user.value.text != "" {
        WriteUser(c.user.value, c);
      } else {
        OthersUntouched(c);
      }
      if c.throttled {
        throttles := throttles + [EventOf(c)];
        if |throttles| > MAX_THROTTLE_EVENTS {
          throttles := throttles[1..];
        }
      }
      ThrottlesSnoc(log, c);
      log := log + [c];
    }

    lemma OthersUntouched(c: Call)
      requires UsersHold(log) && (c.user.Some? ==> c.user.value.text == "")
      ensures UsersHold(log + [c])
    {
      hide EntryHolds;
      forall v | v in entries ensures EntryHolds(entries[v], v, since[v], log + [c]) {
        EntryUntouched(entries[v], v, since[v], log, c);
      }
    }

    method SumRing(ring: array<Slot>, oldest: int, newest: int) returns (totals: Counts)
      ensures totals == SlotSum(ring[..], oldest, newest)
    {
      hide Plus;
      totals := ZERO;
      for i := 0 to ring.Length
        invariant totals == SlotSum(ring[..i], oldest, newest)
      {
        assert ring[..i + 1][..i] == ring[..i];
        if ring[i].stamp < oldest || ring[i].stamp > newest {
          AddNothing(totals);
          continue;
        }
        totals := Plus(totals, ring[i].counts);
      }
      assert ring[..ring.Length] == ring[..];
    }

    /**
     * What a window reports is the log's own count of the calls in the span if and
     * only if none of them has lost its slot; with a clock that does not step back
     * and a window of at most a day, it always is.
     */
    method Window(windowSeconds: int, nowMs: nat) returns (totals: Counts)
      requires Valid()
      ensures var (slots, unitMs, _) := Units(windowSeconds);
              && totals.requests <= Tally(log, InWindow(windowSeconds, nowMs)).requests
              && (totals == Tally(log, InWindow(windowSeconds, nowMs))
                  <==> !LosesSome(slots, unitMs, log, InWindow(windowSeconds, nowMs)))
      ensures Ordered(log) && NoLaterThan(log, nowMs) && windowSeconds <= 86_400 ==>
                totals == Tally(log, InWindow(windowSeconds, nowMs))
      ensures totals.api + totals.upload + totals.download == totals.requests
      ensures totals.throttled + totals.errors <= totals.requests
    {
      hide Holds, Live, Tally, LosesSome, Within, Ordered, NoLaterThan, UsersHold;
      var (slots, unitMs, units) := Units(windowSeconds);
      var newest := nowMs / unitMs;
      var oldest := newest - units + 1;
      totals := SumRing(if windowSeconds <= SECOND_SLOTS then seconds else minutes, oldest, newest);
      ghost var pick := InWindow(windowSeconds, nowMs);
      ghost var live := Live(slots, unitMs, log);
      RingReports(if windowSeconds <= SECOND_SLOTS then seconds[..] else minutes[..], unitMs, live, oldest, newest);
      LiveExact(slots, unitMs, log, pick);
      KindsSum(live, pick);
      if Ordered(log) && NoLaterThan(log, nowMs) && windowSeconds <= 86_400 {
        NothingLost(slots, unitMs, log, nowMs, units);
      }
    }

    static method UserSum(ring: seq<Slot>, oldest: int, newest: int) returns (requests: int, throttled: int)
      ensures requests == SlotSum(ring, oldest, newest).requests
      ensures throttled == SlotSum(ring, oldest, newest).throttled
    {
      requests, throttled := 0, 0;
      for i := 0 to |ring|
        invariant requests == SlotSum(ring[..i], oldest, newest).requests
        invariant throttled == SlotSum(ring[..i], oldest, newest).throttled
      {
        assert ring[..i + 1][..i] == ring[..i];
        if ring[i].stamp < oldest || ring[i].stamp > newest {
          continue;
        }
        requests, throttled := requests + ring[i].counts.requests, throttled + ring[i].counts.throttled;
      }
      assert ring[..|ring|] == ring;
    }

    /**
     * One row for each tracked user that called in the last hour, the busiest first
     * and the equally busy in the order of `localeCompare`.
     */
    method UserUsages(localeLeq: (UserId, UserId) -> bool, nowMs: nat) returns (rows: seq<UserUsage>)
      requires Valid() && IsOrder(localeLeq)
      ensures SortedRows(localeLeq, rows) && multiset(rows) == multiset(Rows(order, entries, nowMs))
      ensures RequestsIn(rows) == RequestsIn(Rows(order, entries, nowMs))
    {
      hide EntryHolds, SlotSum, Rows, Distinct, RingsHold, SortedRows, IsOrder, SortRows;
      rows := [];
      RowsNone(entries, nowMs);
      var newest := nowMs / 60_000;
      for i := 0 to |order|
        invariant rows == Rows(order[..i], entries, nowMs)
      {
        RowsNext(order, entries, nowMs, i);
        var entry := entries[order[i]];
        var requests, throttled := UserSum(entry.ring, newest - USER_MINUTE_SLOTS + 1, newest);
        if requests == 0 {
          continue;
        }
        rows := rows + [UserUsage(order[i], requests, throttled, entry.lastCallMs)];
      }
      assert order[..|order|] == order;
      SortRowsSorts(localeLeq, rows);
      rows := SortRows(localeLeq, rows);
    }
  }

  /** One row for each user with a call in the last hour's slots. */
  function Rows(order: seq<UserId>, entries: map<UserId, UserEntry>, nowMs: nat): seq<UserUsage>
    requires forall u :: u in order ==> u in entries
  {
    if order == [] then []
    else
      var n := |order| - 1;
      var u := order[n];
      var t := LastHour(entries[u], nowMs);
      Rows(order[..n], entries, nowMs)
      + if t.requests == 0 then [] else [UserUsage(u, t.requests, t.throttled, entries[u].lastCallMs)]
  }

  lemma RowsNone(entries: map<UserId, UserEntry>, nowMs: nat)
    ensures Rows([], entries, nowMs) == []
  {
  }

  lemma RowsNext(order: seq<UserId>, entries: map<UserId, UserEntry>, nowMs: nat, i: nat)
    requires i < |order| && forall u :: u in order ==> u in entries
    ensures var t := LastHour(entries[order[i]], nowMs);
            Rows(order[..i + 1], entries, nowMs)
            == Rows(order[..i], entries, nowMs)
               + if t.requests == 0 then []
                 else [UserUsage(order[i], t.requests, t.throttled, entries[order[i]].lastCallMs)]
  {
    hide LastHour;
    assert order[..i + 1][..i] == order[..i];
  }

  /** A row for every user with requests in the last hour, for no other, and with that user's own figures. */
  lemma {:induction false} RowsExactly(order: seq<UserId>, entries: map<UserId, UserEntry>, nowMs: nat, u: UserId)
    requires forall v :: v in order ==> v in entries
    ensures forall row :: row in Rows(order, entries, nowMs) ==>
              && row.user in order
              && row.requestsLastHour == LastHour(entries[row.user], nowMs).requests != 0
              && row.throttledLastHour == LastHour(entries[row.user], nowMs).throttled
              && row.lastCallMs == entries[row.user].lastCallMs
    ensures u in order && LastHour(entries[u], nowMs).requests != 0 ==>
              exists row :: row in Rows(order, entries, nowMs) && row.user == u
    ensures |Rows(order, entries, nowMs)| <= |order|
  {
    hide LastHour;
    if order != [] {
      var n := |order| - 1;
      RowsExactly(order[..n], entries, nowMs, u);
      assert order == order[..n] + [order[n]];
      var t := LastHour(entries[order[n]], nowMs);
      var row := UserUsage(order[n], t.requests, t.throttled, entries[order[n]].lastCallMs);
      if t.requests != 0 {
        assert Rows(order, entries, nowMs) == Rows(order[..n], entries, nowMs) + [row];
        assert row in Rows(order, entries, nowMs);
        if u in order[..n] && LastHour(entries[u], nowMs).requests != 0 {
          var r :| r in Rows(order[..n], entries, nowMs) && r.user == u;
          assert r in Rows(order, entries, nowMs);
        }
      } else {
        assert Rows(order, entries, nowMs) == Rows(order[..n], entries, nowMs);
      }
    }
  }

  function LastHour(e: UserEntry, nowMs: nat): Counts {
    SlotSum(e.ring, nowMs / 60_000 - 59, nowMs / 60_000)
  }

  lemma AddNothing(a: Counts)
    ensures Plus(a, ZERO) == a
  {
  }

  function RequestsIn(rows: seq<UserUsage>): int {
    if rows == [] then 0
    else
      var n := |rows| - 1;
      RequestsIn(rows[..n]) + rows[n].requestsLastHour
  }

  lemma RowsSnoc(rows: seq<UserUsage>, row: UserUsage)
    ensures RequestsIn(rows + [row]) == RequestsIn(rows) + row.requestsLastHour
  {
    assert (rows + [row])[..|rows|] == rows;
  }

  // ---- Sorting the rows

  /** A preorder on user ids in which any two compare; `localeCompare` may call different ids equal. */
  ghost predicate IsOrder(leq: (UserId, UserId) -> bool) {
    && (forall a, b :: leq(a, b) || leq(b, a))
    && (forall a, b, c :: leq(a, b) && leq(b, c) ==> leq(a, c))
  }

  predicate RowLeq(leq: (UserId, UserId) -> bool, a: UserUsage, b: UserUsage) {
    a.requestsLastHour > b.requestsLastHour || (a.requestsLastHour == b.requestsLastHour && leq(a.user, b.user))
  }

  ghost predicate SortedRows(leq: (UserId, UserId) -> bool, rows: seq<UserUsage>) {
    forall i, j :: 0 <= i < j < |rows| ==> RowLeq(leq, rows[i], rows[j])
  }

  function InsertRow(leq: (UserId, UserId) -> bool, rows: seq<UserUsage>, row: UserUsage): seq<UserUsage> {
    if rows == [] || RowLeq(leq, rows[|rows| - 1], row) then rows + [row]
    else InsertRow(leq, rows[..|rows| - 1], row) + [rows[|rows| - 1]]
  }

  /** What `Array.prototype.sort` makes of the rows. */
  function SortRows(leq: (UserId, UserId) -> bool, rows: seq<UserUsage>): seq<UserUsage> {
    if rows == [] then [] else InsertRow(leq, SortRows(leq, rows[..|rows| - 1]), rows[|rows| - 1])
  }

  lemma SortedSnoc(leq: (UserId, UserId) -> bool, rows: seq<UserUsage>, row: UserUsage)
    requires SortedRows(leq, rows) && forall r :: r in rows ==> RowLeq(leq, r, row)
    ensures SortedRows(leq, rows + [row])
  {
    hide RowLeq;
  }

  lemma RowOrder(leq: (UserId, UserId) -> bool, a: UserUsage, b: UserUsage, c: UserUsage)
    requires IsOrder(leq)
    ensures RowLeq(leq, a, b) || RowLeq(leq, b, a)
    ensures RowLeq(leq, a, b) && RowLeq(leq, b, c) ==> RowLeq(leq, a, c)
  {
  }

  lemma {:induction false} InsertRowSorts(leq: (UserId, UserId) -> bool, rows: seq<UserUsage>, row: UserUsage)
    requires IsOrder(leq) && SortedRows(leq, rows)
    ensures var s := InsertRow(leq, rows, row);
            SortedRows(leq, s) && multiset(s) == multiset(rows) + multiset{row}
            && RequestsIn(s) == RequestsIn(rows) + row.requestsLastHour
    decreases |rows|
  {
    hide IsOrder, RowLeq, RequestsIn;
    if rows == [] {
      RowsSnoc(rows, row);
      SortedSnoc(leq, rows, row);
    } else {
      var n := |rows| - 1;
      var last := rows[n];
      assert rows == rows[..n] + [last];
      RowsSnoc(rows[..n], last);
      if RowLeq(leq, last, row) {
        forall r | r in rows ensures RowLeq(leq, r, row) {
          RowOrder(leq, r, last, row);
        }
        RowsSnoc(rows, row);
        SortedSnoc(leq, rows, row);
      } else {
        InsertRowSorts(leq, rows[..n], row);
        var s := InsertRow(leq, rows[..n], row);
        forall r | r in s ensures RowLeq(leq, r, last) {
          assert r in multiset(s);
          RowOrder(leq, row, last, last);
        }
        RowsSnoc(s, last);
        SortedSnoc(leq, s, last);
      }
    }
  }

  lemma {:induction false} SortRowsSorts(leq: (UserId, UserId) -> bool, rows: seq<UserUsage>)
    requires IsOrder(leq)
    ensures var s := SortRows(leq, rows);
            SortedRows(leq, s) && multiset(s) == multiset(rows) && RequestsIn(s) == RequestsIn(rows)
    decreases |rows|
  {
    hide IsOrder, RowLeq, InsertRow, RequestsIn;
    if rows != [] {
      var n := |rows| - 1;
      SortRowsSorts(leq, rows[..n]);
      InsertRowSorts(leq, SortRows(leq, rows[..n]), rows[n]);
      assert rows == rows[..n] + [rows[n]];
      RowsSnoc(rows[..n], rows[n]);
    }
  }

  // ---- Users against the log

  function ByUser(pick: Call -> bool, u: UserId): Call -> bool {
    c => pick(c) && c.user == Some(u)
  }

  function ByAny(pick: Call -> bool, order: seq<UserId>): Call -> bool {
    c => pick(c) && c.user.Some? && c.user.value in order
  }

  lemma {:induction false} TallyOfUser(log: seq<Call>, u: UserId, pick: Call -> bool)
    ensures Tally(CallsOf(log, u), pick) == Tally(log, ByUser(pick, u))
  {
    hide Plus, One;
    if log != [] {
      var n := |log| - 1;
      TallyOfUser(log[..n], u, pick);
      assert log == log[..n] + [log[n]];
      TallySnoc(log[..n], log[n], ByUser(pick, u));
      TallySnoc(CallsOf(log[..n], u), log[n], pick);
      assert CallsOf(log[..n], u) + [] == CallsOf(log[..n], u);
      PlusLaws(Tally(log[..n], ByUser(pick, u)), ZERO, ZERO);
    }
  }

  /** A wider condition counts at least as many requests. */
  lemma {:induction false} TallyWider(log: seq<Call>, p: Call -> bool, q: Call -> bool)
    requires forall c :: c in log && p(c) ==> q(c)
    ensures Tally(log, p).requests <= Tally(log, q).requests
  {
    if log != [] {
      TallyWider(log[1..], p, q);
    }
  }

  lemma TallySuffix(log: seq<Call>, since: nat, p: Call -> bool)
    requires since <= |log|
    ensures Tally(log[since..], p).requests <= Tally(log, p).requests
  {
    assert log == log[..since] + log[since..];
    TallyConcat(log[..since], log[since..], p);
    KindsSum(log[..since], p);
    Positive(log[..since], p);
  }

  lemma {:induction false} Positive(log: seq<Call>, p: Call -> bool)
    ensures Tally(log, p).requests >= 0
  {
    if log != [] {
      Positive(log[1..], p);
    }
  }

  /** An hour's rows count the calls of a window of 3600 seconds. */
  lemma HourExactly(nowMs: nat, c: Call)
    ensures HourPick(nowMs)(c) <==> InWindow(3600, nowMs)(c)
    ensures HourPick(nowMs)(c) <==> nowMs / 60_000 - 60 < c.atMs / 60_000 <= nowMs / 60_000
  {
  }

  /** How much a meter ever holds, and which throttled calls it lists. */
  lemma MeterSizes(m: DriveQuotaMeter)
    requires m.Valid()
    ensures m.seconds.Length == 600 && m.minutes.Length == 1440 && |m.order| <= 200 && |m.throttles| <= 50
    ensures forall u :: u in m.entries ==> |m.entries[u].ring| == 60
    ensures var all := ThrottledCalls(m.log);
            && m.totalRequests == |m.log| && m.totalThrottled == |all|
            && |m.throttles| == (if |all| <= 50 then |all| else 50)
            && forall i :: 0 <= i < |m.throttles| ==>
                 var c := all[|all| - |m.throttles| + i];
                 m.throttles[i] == ThrottleEvent(c.atMs, c.user, c.kind, c.status, c.reason, c.retryAfterMs)
  {
    hide Holds, Live;
    ThrottlesAre(m.log);
  }

  function ThrottledCalls(log: seq<Call>): seq<Call> {
    if log == [] then []
    else
      var n := |log| - 1;
      ThrottledCalls(log[..n]) + if log[n].throttled then [log[n]] else []
  }

  lemma {:induction false} ThrottlesAre(log: seq<Call>)
    ensures var all := ThrottledCalls(log);
            && |Throttles(log)| == |all|
            && forall i :: 0 <= i < |all| ==>
                 Throttles(log)[i] == ThrottleEvent(all[i].atMs, all[i].user, all[i].kind, all[i].status,
                                                    all[i].reason, all[i].retryAfterMs)
  {
    if log != [] {
      ThrottlesAre(log[..|log| - 1]);
    }
  }

  /** The minutes the last hour's rows look at. */
  function HourPick(nowMs: nat): Call -> bool { Within(60_000, nowMs / 60_000 - 59, nowMs / 60_000) }

  /** An entry never reports more than the log has for its user. */
  lemma EntryAtMostLog(e: UserEntry, u: UserId, since: nat, log: seq<Call>, nowMs: nat)
    requires EntryHolds(e, u, since, log)
    ensures LastHour(e, nowMs).requests <= Tally(log, ByUser(HourPick(nowMs), u)).requests
  {
    hide Holds, Live, Tally, Within, ByUser, SlotSum;
    var pick := HourPick(nowMs);
    var calls := CallsOf(log[since..], u);
    RingReports(e.ring, 60_000, Live(USER_MINUTE_SLOTS, 60_000, calls), nowMs / 60_000 - 59, nowMs / 60_000);
    LiveExact(USER_MINUTE_SLOTS, 60_000, calls, pick);
    TallyOfUser(log[since..], u, pick);
    TallySuffix(log, since, ByUser(pick, u));
  }

  lemma {:induction false} CallsOfIn(log: seq<Call>, u: UserId)
    ensures forall c :: c in CallsOf(log, u) ==> c in log
  {
    if log != [] {
      CallsOfIn(log[..|log| - 1], u);
    }
  }

  lemma {:induction false} CallsOfOrdered(log: seq<Call>, u: UserId)
    requires Ordered(log)
    ensures Ordered(CallsOf(log, u))
  {
    if log != [] {
      var n := |log| - 1;
      CallsOfOrdered(log[..n], u);
      CallsOfIn(log[..n], u);
      assert forall c :: c in log[..n] ==> c.atMs <= log[n].atMs;
    }
  }

  /** With a steady clock an entry reports exactly its user's calls of the last hour since it was made. */
  lemma EntryExact(e: UserEntry, u: UserId, since: nat, log: seq<Call>, nowMs: nat)
    requires EntryHolds(e, u, since, log) && Ordered(log) && NoLaterThan(log, nowMs)
    ensures LastHour(e, nowMs) == Tally(log[since..], ByUser(HourPick(nowMs), u))
  {
    hide Holds, Live, Tally, Within, ByUser, SlotSum, LosesSome;
    var pick := HourPick(nowMs);
    var calls := CallsOf(log[since..], u);
    assert forall i :: 0 <= i < |log| - since ==> log[since..][i] == log[since + i];
    CallsOfOrdered(log[since..], u);
    CallsOfIn(log[since..], u);
    RingReports(e.ring, 60_000, Live(USER_MINUTE_SLOTS, 60_000, calls), nowMs / 60_000 - 59, nowMs / 60_000);
    NothingLost(USER_MINUTE_SLOTS, 60_000, calls, nowMs, USER_MINUTE_SLOTS);
    LiveExact(USER_MINUTE_SLOTS, 60_000, calls, pick);
    TallyOfUser(log[since..], u, pick);
  }

  lemma {:induction false} RowsAtMostLog(order: seq<UserId>, entries: map<UserId, UserEntry>,
        since: map<UserId, nat>, log: seq<Call>, nowMs: nat)
    requires Distinct(order)
    requires forall u :: u in order ==> u in entries && u in since && EntryHolds(entries[u], u, since[u], log)
    ensures RequestsIn(Rows(order, entries, nowMs)) <= Tally(log, ByAny(HourPick(nowMs), order)).requests
  {
    hide EntryHolds, Tally, LastHour, HourPick;
    var pick := HourPick(nowMs);
    if order == [] {
      Positive(log, ByAny(pick, order));
    } else {
      var n := |order| - 1;
      var u := order[n];
      RowsAtMostLog(order[..n], entries, since, log, nowMs);
      EntryAtMostLog(entries[u], u, since[u], log, nowMs);
      var t := LastHour(entries[u], nowMs);
      RowsSnoc(Rows(order[..n], entries, nowMs), UserUsage(u, t.requests, t.throttled, entries[u].lastCallMs));
      assert Rows(order[..n], entries, nowMs) + [] == Rows(order[..n], entries, nowMs);
      TallySplits(log, ByAny(pick, order), ByAny(pick, order[..n]), ByUser(pick, u));
    }
  }

  /**
   * With a clock that does not step back, the last-hour requests of all the rows
   * together never exceed what the log has for the 3600-second window.
   */
  lemma UsersWithinHour(m: DriveQuotaMeter, nowMs: nat)
    requires m.Valid() && Ordered(m.log) && NoLaterThan(m.log, nowMs)
    ensures RequestsIn(Rows(m.order, m.entries, nowMs)) <= Tally(m.log, InWindow(3600, nowMs)).requests
  {
    hide Tally, EntryHolds, Within;
    RowsAtMostLog(m.order, m.entries, m.since, m.log, nowMs);
    TallyWider(m.log, ByAny(HourPick(nowMs), m.order), InWindow(3600, nowMs));
  }

  function PlainCall(atMs: nat): Call { Call(None, Api, 200, false, None, None, atMs) }

  /** A clock that steps back can make even a ten-minute window report too little. */
  lemma SteppedClockLoses()
    ensures var log := [PlainCall(600_000), PlainCall(0)];
            NoLaterThan(log, 600_000) && LosesSome(SECOND_SLOTS, 1000, log, InWindow(600, 600_000))
  {
    var log := [PlainCall(600_000), PlainCall(0)];
    assert log[0 + 1..] == [PlainCall(0)];
    assert PlainCall(0) in log[0 + 1..];
    assert Clash(SECOND_SLOTS, 1000, log[0], PlainCall(0));
    assert Lost(SECOND_SLOTS, 1000, log, 0);
  }

  /** A window of two days reports too little even with a steady clock. */
  lemma TwoDaysLose()
    ensures var log := [PlainCall(0), PlainCall(86_400_000)];
            Ordered(log) && NoLaterThan(log, 86_400_000)
            && LosesSome(MINUTE_SLOTS, 60_000, log, InWindow(172_800, 86_400_000))
  {
    var log := [PlainCall(0), PlainCall(86_400_000)];
    assert log[0 + 1..] == [PlainCall(86_400_000)];
    assert PlainCall(86_400_000) in log[0 + 1..];
    assert Clash(MINUTE_SLOTS, 60_000, log[0], PlainCall(86_400_000));
    assert Lost(MINUTE_SLOTS, 60_000, log, 0);
  }
}
