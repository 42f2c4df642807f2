/**
 * How long an object's version is kept from destruction
 * (apps/server/src/s3/object-lock.ts), over the requests that change its row or
 * delete it: those of apps/server/src/s3/operations/lock.ts and objects.ts, writes
 * and deletes of its key, the dashboard's (apps/server/src/routes/api-objects.ts,
 * api-buckets.ts), and the deletion of its bucket
 * (apps/server/src/services/bucket-service.ts).
 */
module ObjectLock {
  import opened Bytes
  import Staging

  // ---- Dates as text

  /**
   * An instant's reading on the UTC calendar and clock as one number, year first
   * and milliseconds last, two digits a field and three for the milliseconds. Its
   * order is that of instants. Years before 0 are left out.
   */
  type Reading = r: int | 0 <= r < 10_000_000_000_000_000_000

  /** The first reading whose year takes more than four digits. */
  const YEAR_10000: int := 100_000_000_000_000_000

  function Padded(n: nat, size: nat): (s: string)
    ensures |s| == size
  {
    if size == 0 then "" else Padded(n / 10, size - 1) + [('0' as int + n % 10) as char]
  }

  predicate Fits(sizes: seq<nat>, marks: string, n: int) {
    |sizes| == |marks| && (sizes == [] || (sizes[0] <= n && Fits(sizes[1..], marks[1..], n - sizes[0])))
  }

  /** Digits in groups of the given sizes, a mark after each group. */
  function Grouped(digits: string, sizes: seq<nat>, marks: string): string
    requires Fits(sizes, marks, |digits|)
    decreases |sizes|
  {
    if sizes == [] then digits
    else digits[..sizes[0]] + [marks[0]] + Grouped(digits[sizes[0]..], sizes[1..], marks[1..])
  }

  const MARKS := "--T::.Z"

  lemma SizesFit()
    ensures Fits([4, 2, 2, 2, 2, 2, 3], MARKS, 17) && Fits([6, 2, 2, 2, 2, 2, 3], MARKS, 19)
  {
    assert Fits([], "", 0);
    assert MARKS[1..] == "-T::.Z" && MARKS[1..][1..] == "T::.Z";
    assert "T::.Z"[1..] == "::.Z" && "::.Z"[1..] == ":.Z" && ":.Z"[1..] == ".Z" && ".Z"[1..] == "Z" && "Z"[1..] == "";
    assert Fits([3], "Z", 3) && Fits([2, 3], ".Z", 5) && Fits([2, 2, 3], ":.Z", 7) && Fits([2, 2, 2, 3], "::.Z", 9);
    assert Fits([2, 2, 2, 2, 3], "T::.Z", 11) && Fits([2, 2, 2, 2, 2, 3], "-T::.Z", 13);
  }

  /** What `toISOString` writes: a year past 9999 gets a sign and six digits. */
  function IsoText(r: Reading): string {
    SizesFit();
    if r < YEAR_10000 then Grouped(Padded(r, 17), [4, 2, 2, 2, 2, 2, 3], MARKS)
    else "+" + Grouped(Padded(r, 19), [6, 2, 2, 2, 2, 2, 3], MARKS)
  }

  /** The database's order of texts. */
  predicate TextLeq(a: string, b: string) {
    a == "" || (b != "" && (a[0] < b[0] || (a[0] == b[0] && TextLeq(a[1..], b[1..]))))
  }

  /** Of texts with heads of one length, the heads decide unless they are the same. */
  lemma {:induction false} HeadsDecide(a: string, x: string, b: string, y: string)
    requires |a| == |b|
    ensures TextLeq(a + x, b + y) <==> if a == b then TextLeq(x, y) else TextLeq(a, b)
  {
    if a == "" {
      assert a + x == x && b + y == y;
    } else {
      assert (a + x)[1..] == a[1..] + x && (b + y)[1..] == b[1..] + y;
      assert a == [a[0]] + a[1..] && b == [b[0]] + b[1..];
      HeadsDecide(a[1..], x, b[1..], y);
    }
  }

  lemma {:induction false} GroupedOrder(a: string, b: string, sizes: seq<nat>, marks: string)
    requires |a| == |b| && Fits(sizes, marks, |a|)
    ensures TextLeq(Grouped(a, sizes, marks), Grouped(b, sizes, marks)) <==> TextLeq(a, b)
    decreases |sizes|
  {
    if sizes != [] {
      var n := sizes[0];
      var x, y := Grouped(a[n..], sizes[1..], marks[1..]), Grouped(b[n..], sizes[1..], marks[1..]);
      GroupedOrder(a[n..], b[n..], sizes[1..], marks[1..]);
      HeadsDecide(a[..n] + [marks[0]], x, b[..n] + [marks[0]], y);
      HeadsDecide(a[..n], a[n..], b[..n], b[n..]);
      HeadsDecide(a[..n], [marks[0]], b[..n], [marks[0]]);
      assert a == a[..n] + a[n..] && b == b[..n] + b[n..];
      assert (a[..n] + [marks[0]])[..n] == a[..n] && (b[..n] + [marks[0]])[..n] == b[..n];
    }
  }

  function Pow10(k: nat): (p: nat)
    ensures p > 0
  {
    if k == 0 then 1 else 10 * Pow10(k - 1)
  }

  /** Padded to one length, numbers and their texts have the same order. */
  lemma {:induction false} PaddedOrder(m: nat, n: nat, size: nat)
    requires m < Pow10(size) && n < Pow10(size)
    ensures TextLeq(Padded(m, size), Padded(n, size)) <==> m <= n
    ensures Padded(m, size) == Padded(n, size) <==> m == n
  {
    if size > 0 {
      var a, b := Padded(m / 10, size - 1), Padded(n / 10, size - 1);
      var x, y := [('0' as int + m % 10) as char], [('0' as int + n % 10) as char];
      PaddedOrder(m / 10, n / 10, size - 1);
      HeadsDecide(a, x, b, y);
      assert (a + x)[..size - 1] == a && (b + y)[..size - 1] == b;
      assert (a + x)[size - 1] == x[0] && (b + y)[size - 1] == y[0];
      assert x[1..] == "" && y[1..] == "";
    }
  }

  lemma Powers()
    ensures Pow10(17) == YEAR_10000
  {
    assert Pow10(5) == 100_000;
    assert Pow10(10) == 10_000_000_000;
    assert Pow10(15) == 1_000_000_000_000_000;
  }

  lemma FirstDigit(n: nat, size: nat)
    requires size > 0
    ensures '0' <= Padded(n, size)[0] <= '9'
  {
    if size > 1 {
      FirstDigit(n / 10, size - 1);
    }
  }

  /**
   * Before the year 10000, the text of a date sorts up to today's exactly when the
   * date is up to today or past the year 9999.
   */
  lemma IsoOrder(r: Reading, now: Reading)
    requires now < YEAR_10000
    ensures TextLeq(IsoText(r), IsoText(now)) <==> r <= now || r >= YEAR_10000
    ensures IsoText(r) != ""
  {
    hide Padded;
    SizesFit();
    Powers();
    var sizes := [4, 2, 2, 2, 2, 2, 3];
    var today := Padded(now, 17);
    FirstDigit(now, 17);
    assert Grouped(today, sizes, MARKS)[0] == today[0];
    if r < YEAR_10000 {
      PaddedOrder(r, now, 17);
      GroupedOrder(Padded(r, 17), today, sizes, MARKS);
    }
  }

  // ---- The rules

  datatype Mode = Governance | Compliance

  /** A stored date: its text, and the reading that parsing gives, if any. */
  datatype Date = Date(text: string, parsed: Option<int>)

  function Written(r: Reading): Date { Date(IsoText(r), Some(r)) }

  datatype Lock = Lock(mode: Option<Mode>, until: Option<Date>, hold: bool)

  const UNLOCKED := Lock(None, None, false)

  predicate RetentionActive(l: Lock, now: int) {
    && l.mode.Some? && l.until.Some? && l.until.value.text != ""
    && (l.until.value.parsed.None? || l.until.value.parsed.value > now)
  }

  datatype Decision = Allowed | ByLegalHold | ByCompliance | ByGovernance

  function EvaluateDelete(l: Lock, bypass: bool, owner: bool, now: int): Decision {
    if l.hold then ByLegalHold
    else if !RetentionActive(l, now) then Allowed
    else if l.mode == Some(Compliance) then ByCompliance
    else if bypass && owner then Allowed
    else ByGovernance
  }

  predicate CanReplaceRetention(l: Lock, nextMode: Mode, nextUntil: Option<int>, bypass: bool, owner: bool, now: int) {
    if !RetentionActive(l, now) then true
    else if nextUntil.None? then false
    else if l.until.value.parsed.Some? && nextUntil.value >= l.until.value.parsed.value then
      !(l.mode == Some(Compliance) && nextMode != Compliance)
    else l.mode != Some(Compliance) && bypass && owner
  }

  /** When a deletion is allowed, and why not. */
  lemma DeleteExactly(l: Lock, bypass: bool, owner: bool, now: int)
    ensures var running := l.mode.Some? && l.until.Some? && l.until.value.text != ""
                           && (l.until.value.parsed.None? || now < l.until.value.parsed.value);
            EvaluateDelete(l, bypass, owner, now) ==
              if l.hold then ByLegalHold
              else if running && l.mode == Some(Compliance) then ByCompliance
              else if running && !(bypass && owner) then ByGovernance
              else Allowed
  {
  }

  /**
   * When a retention may be replaced: always when it is over; by a date no earlier
   * than a readable one, unless that takes COMPLIANCE to GOVERNANCE; and otherwise,
   * by some date, only if it is GOVERNANCE and its owner bypasses it.
   */
  lemma ReplacementExactly(l: Lock, mode: Mode, until: Option<int>, bypass: bool, owner: bool, now: int)
    ensures CanReplaceRetention(l, mode, until, bypass, owner, now) <==>
      || l.mode.None? || l.until.None? || l.until.value.text == ""
      || (l.until.value.parsed.Some? && l.until.value.parsed.value <= now)
      || (until.Some? && l.until.value.parsed.Some? && l.until.value.parsed.value <= until.value
          && (l.mode == Some(Governance) || mode == Compliance))
      || (until.Some? && (l.until.value.parsed.None? || until.value < l.until.value.parsed.value)
          && l.mode == Some(Governance) && bypass && owner)
  {
    assert l.mode.Some? ==> l.mode.value.Governance? || l.mode.value.Compliance?;
  }

  /** The archived versions that the pruning query offers: it compares dates as text. */
  predicate Prunable(l: Lock, now: Reading) {
    !l.hold && (l.mode.None? || l.until.None? || TextLeq(l.until.value.text, IsoText(now)))
  }

  // ---- Pruning against the rules

  predicate Expired(d: Date, now: int) { d.parsed.Some? && d.parsed.value <= now }

  /**
   * Pruning offers what a delete without bypass may take if and only if no retention
   * date sorts, as text, otherwise than it stands in time.
   */
  lemma PruningAgreesExactly(l: Lock, owner: bool, now: Reading)
    ensures (Prunable(l, now) <==> EvaluateDelete(l, false, owner, now).Allowed?) <==>
      || l.hold || l.mode.None? || l.until.None? || l.until.value.text == ""
      || (TextLeq(l.until.value.text, IsoText(now)) <==> Expired(l.until.value, now))
  {
    hide IsoText;
  }

  /** For dates that the gateway has written, that is for all years up to 9999. */
  lemma WrittenDatesAgreeExactly(l: Lock, r: Reading, owner: bool, now: Reading)
    requires l.until == Some(Written(r)) && now < YEAR_10000
    ensures (Prunable(l, now) <==> EvaluateDelete(l, false, owner, now).Allowed?) <==>
      l.hold || l.mode.None? || r < YEAR_10000
  {
    hide IsoText;
    IsoOrder(r, now);
    PruningAgreesExactly(l, owner, now);
  }

  /**
   * A date that does not parse refuses every delete without bypass, and is pruned
   * exactly when its text sorts up to today's.
   */
  lemma UnreadableDateExactly(l: Lock, owner: bool, now: Reading)
    requires !l.hold && l.mode.Some? && l.until.Some? && l.until.value.parsed.None? && l.until.value.text != ""
    ensures !EvaluateDelete(l, false, owner, now).Allowed?
    ensures l.mode == Some(Compliance) ==> !EvaluateDelete(l, true, owner, now).Allowed?
    ensures Prunable(l, now) <==> TextLeq(l.until.value.text, IsoText(now))
  {
    hide IsoText;
  }

  /** Two texts that are no dates: "?" stays above every date, "-" is below every one and pruned at once. */
  lemma UnreadableTexts(now: Reading)
    requires now < YEAR_10000
    ensures !Prunable(Lock(Some(Compliance), Some(Date("?", None)), false), now)
    ensures Prunable(Lock(Some(Compliance), Some(Date("-", None)), false), now)
  {
    SizesFit();
    hide Padded;
    FirstDigit(now, 17);
    assert Grouped(Padded(now, 17), [4, 2, 2, 2, 2, 2, 3], MARKS)[0] == Padded(now, 17)[0];
  }

  // ---- The life of a version

  /** Where a version's row is, and whether its version id is the literal null. */
  datatype Version = Kept(lock: Lock, archived: bool, nullId: bool) | Destroyed

  /** What the rules were asked about: the lock as the request had read it, and who asks. */
  datatype Question = Question(seen: Lock, bypass: bool, owner: bool)

  /**
   * The requests that change a version's row or delete it. A retention change reads
   * the lock before the request's body has arrived, so what it has `seen` may be out
   * of date when it writes. `slotTaken` says whether the history has the version's id
   * already. `Write` replaces the current version; form uploads and the completion of
   * a multipart upload are writes with versioning `Disabled`, whatever the bucket has.
   * `DeleteKey` deletes without naming a version: an S3 DELETE asks the rules about
   * the current version before it asks Drive for access (`othersPass`: their answer
   * when that is another version), DeleteObjects and the dashboard do not. `Promote`
   * makes the newest archived version current, in the place of what is current if
   * anything is: it follows the deletion of the current version or of a delete marker.
   * `DeleteBucket` takes all rows of the bucket with it; `occupied` is what the check
   * for current objects and open uploads found, before Drive deleted the folder. If
   * Drive refuses that, nothing happens.
   */
  datatype Request =
    | PutRetention(seen: Lock, mode: Mode, until: Reading, bypass: bool, owner: bool)
    | PutLegalHold(hold: bool)
    | DeleteVersion(bypass: bool, owner: bool)
    | Prune
    | DashboardDelete(viewer: bool)
    | Write(versioning: Staging.Versioning, slotTaken: bool)
    | DeleteKey(versioning: Staging.Versioning, asks: Option<Question>, othersPass: bool, slotTaken: bool)
    | Promote(onto: Option<Lock>)
    | DeleteBucket(owner: bool, occupied: bool)

  datatype Event = Event(request: Request, now: Reading)

  /** Whether the current version goes to the history when its key is written or deleted. */
  predicate Archived(versioning: Staging.Versioning, nullId: bool, slotTaken: bool) {
    (versioning.Enabled? || (versioning.Suspended? && !nullId)) && !(nullId && slotTaken)
  }

  predicate Answered(asks: Question, now: int) { EvaluateDelete(asks.seen, asks.bypass, asks.owner, now).Allowed? }

  function Step(v: Version, e: Event): Version {
    if v.Destroyed? then v
    else match e.request
      case PutRetention(seen, mode, until, bypass, owner) =>
        if CanReplaceRetention(seen, mode, Some(until), bypass, owner, e.now)
        then v.(lock := v.lock.(mode := Some(mode), until := Some(Written(until)))) else v
      case PutLegalHold(hold) => v.(lock := v.lock.(hold := hold))
      case DeleteVersion(bypass, owner) =>
        if EvaluateDelete(v.lock, bypass, owner, e.now).Allowed? then Destroyed else v
      case Prune => if v.archived && Prunable(v.lock, e.now) then Destroyed else v
      case DashboardDelete(viewer) => if v.archived && !viewer then Destroyed else v
      case Write(versioning, slotTaken) =>
        if v.archived then v
        else if Archived(versioning, v.nullId, slotTaken) then v.(archived := true) else Destroyed
      case DeleteKey(versioning, asks, othersPass, slotTaken) =>
        if v.archived then
          // A null delete marker takes the place of the null version.
          if versioning.Suspended? && v.nullId && (asks.None? || othersPass) then Destroyed else v
        else if asks.Some? && !versioning.Enabled? && !Answered(asks.value, e.now) then v
        else if Archived(versioning, v.nullId, slotTaken) then v.(archived := true) else Destroyed
      case Promote(onto) =>
        if v.archived then v.(lock := match onto case None => UNLOCKED case Some(l) => l, archived := false)
        else Destroyed
      case DeleteBucket(owner, occupied) => if owner && !occupied then Destroyed else v
  }

  /**
   * Where a version goes when its key is written or deleted, or it is promoted. The
   * current one is kept, with its lock, if versioning is enabled, or suspended and it
   * has an id of its own; but not a null version whose id the history has.
   */
  lemma PlacesExactly(lock: Lock, nullId: bool, versioning: Staging.Versioning, asks: Option<Question>, passes: bool,
                      slotTaken: bool, onto: Option<Lock>, now: Reading)
    ensures var kept := (versioning == Staging.Enabled && !(nullId && slotTaken))
                        || (versioning == Staging.Suspended && !nullId);
            var refused := versioning != Staging.Enabled && asks.Some?
                           && EvaluateDelete(asks.value.seen, asks.value.bypass, asks.value.owner, now) != Allowed;
            var current, older := Kept(lock, false, nullId), Kept(lock, true, nullId);
            var write := Event(Write(versioning, slotTaken), now);
            var delete := Event(DeleteKey(versioning, asks, passes, slotTaken), now);
            && Step(current, write) == (if kept then older else Destroyed)
            && Step(older, write) == older
            && Step(current, delete) == (if refused then current else if kept then older else Destroyed)
            && Step(older, delete) == (if versioning == Staging.Suspended && nullId && (asks.None? || passes)
                                       then Destroyed else older)
            && Step(older, Event(Promote(onto), now))
               == Kept(if onto.Some? then onto.value else UNLOCKED, false, nullId)
            && Step(current, Event(Promote(onto), now)) == Destroyed
  {
    hide EvaluateDelete;
  }

  /** A write keeps the version exactly when the commit keeps the object's file in the history. */
  lemma KeptAsCommitted(lock: Lock, db: Staging.Db, id: nat, versioning: Staging.Versioning, version: Staging.Version,
                        now: Reading)
    requires id in db.staging && db.staging[id].status.Uploaded? && db.staging[id].file.Some? && db.nextId !in db.queue
    requires db.staging[id].key in db.objects
    requires var previous := db.objects[db.staging[id].key];
             Staging.VersionKey(db.staging[id].key, previous.version) in db.versions ==>
               previous.version == Staging.Null
    ensures var previous := db.objects[db.staging[id].key];
            var slot := Staging.VersionKey(db.staging[id].key, previous.version);
            var next := Staging.Apply(db, Staging.Commit(id, versioning, version), now);
            var write := Event(Write(versioning, slot in db.versions), now);
            Step(Kept(lock, false, previous.version == Staging.Null), write).Kept?
            <==> slot !in db.versions && slot in next.versions && next.versions[slot] == previous.file
  {
    hide Staging.Apply;
    Staging.CommitPlaces(db, id, versioning, version, now);
    var previous := db.objects[db.staging[id].key];
    var slot := Staging.VersionKey(db.staging[id].key, previous.version);
    PlacesExactly(lock, previous.version == Staging.Null, versioning, None, true, slot in db.versions, None, now);
  }

  function After(v: Version, events: seq<Event>): Version
    decreases |events|
  {
    if events == [] then v else After(Step(v, events[0]), events[1..])
  }

  predicate ClockForward(events: seq<Event>) { forall i, j :: 0 <= i < j < |events| ==> events[i].now <= events[j].now }

  predicate AllBefore(events: seq<Event>, t: int) { forall e :: e in events ==> e.now < t }

  /** With a clock that does not step back it is enough that the last event is before the date. */
  lemma LastBefore(events: seq<Event>, t: int)
    requires ClockForward(events) && (events != [] ==> events[|events| - 1].now < t)
    ensures AllBefore(events, t)
  {
    forall e | e in events ensures e.now < t {
      var i :| 0 <= i < |events| && events[i] == e;
      assert i < |events| - 1 ==> events[i].now <= events[|events| - 1].now;
    }
  }

  // ---- Protection

  /** Retention in either mode until t at least. */
  predicate Retains(l: Lock, t: int) {
    && l.mode.Some? && l.until.Some?
    && l.until.value.text != "" && l.until.value.parsed.Some? && l.until.value.parsed.value >= t
  }

  predicate UnderRetention(v: Version, t: int) { v.Kept? && Retains(v.lock, t) }

  predicate UnderCompliance(v: Version, t: int) { UnderRetention(v, t) && v.lock.mode == Some(Compliance) }

  /** The owner overrides a GOVERNANCE lock, as the rules allow. */
  predicate OwnerBypass(v: Version, e: Event, t: int) {
    && v.Kept? && v.lock.mode == Some(Governance)
    && match e.request
       case PutRetention(seen, _, until, bypass, owner) => seen == v.lock && bypass && owner && until < t
       case DeleteVersion(bypass, owner) => bypass && owner && !v.lock.hold
       case DeleteKey(versioning, asks, _, slotTaken) =>
         && !v.archived && asks.Some? && !versioning.Enabled? && !Archived(versioning, v.nullId, slotTaken)
         && asks.value == Question(v.lock, true, true) && !v.lock.hold
       case _ => false
  }

  /**
   * The requests that take a version out of its protection without asking the rules
   * about it as it is: a retention change or a delete that asked about an earlier
   * lock, a prune that goes by the text, the dashboard's delete, a write or an unasked
   * delete of its key that does not archive it, a null marker in its place, a
   * promotion, which gives an archived version the lock of what it replaces, or none,
   * and drops a current one, and the deletion of a bucket found empty.
   */
  predicate Unasked(v: Version, e: Event, t: int) {
    && v.Kept?
    && match e.request
       case PutRetention(seen, mode, until, bypass, owner) =>
         seen != v.lock && until < t && CanReplaceRetention(seen, mode, Some(until), bypass, owner, e.now)
       case Prune =>
         && v.archived && !v.lock.hold && v.lock.until.Some?
         && TextLeq(v.lock.until.value.text, IsoText(e.now))
       case DashboardDelete(viewer) => v.archived && !viewer
       case Write(versioning, slotTaken) => !v.archived && !Archived(versioning, v.nullId, slotTaken)
       case DeleteKey(versioning, asks, othersPass, slotTaken) =>
         if v.archived then versioning.Suspended? && v.nullId && (asks.None? || othersPass)
         else
           && !Archived(versioning, v.nullId, slotTaken)
           && (asks.None? || versioning.Enabled? || (asks.value.seen != v.lock && Answered(asks.value, e.now)))
       case Promote(onto) => if v.archived then onto.None? || !Retains(onto.value, t) else true
       case DeleteBucket(owner, occupied) => owner && !occupied
       case _ => false
  }

  /** Exactly these requests, and the owner's bypass, end a protection before its date. */
  lemma ProtectionEndsExactly(v: Version, e: Event, t: int)
    requires UnderRetention(v, t) && e.now < t
    ensures !UnderRetention(Step(v, e), t) <==> Unasked(v, e, t) || OwnerBypass(v, e, t)
  {
    hide IsoText;
    IsoSome(e);
    assert RetentionActive(v.lock, e.now);
    assert v.lock.mode.value.Governance? || v.lock.mode.value.Compliance?;
    match e.request {
      case PutRetention(_, _, _, _, _) =>
      case PutLegalHold(_) =>
      case DeleteVersion(bypass, owner) =>
      case Prune =>
      case DashboardDelete(_) =>
      case Write(_, _) =>
      case DeleteKey(_, _, _, _) =>
      case Promote(_) =>
      case DeleteBucket(_, _) =>
    }
  }

  lemma IsoSome(e: Event)
    ensures e.request.PutRetention? ==> IsoText(e.request.until) != ""
  {
    if e.request.PutRetention? {
      SizesFit();
      hide Padded;
    }
  }

  /**
   * The requests that leave a version under COMPLIANCE retained, but under GOVERNANCE:
   * a retention change that asked about an earlier lock, and a promotion onto such.
   */
  predicate Relocked(v: Version, e: Event, t: int) {
    && v.Kept?
    && match e.request
       case PutRetention(seen, mode, until, bypass, owner) =>
         && seen != v.lock && until >= t && mode == Governance
         && CanReplaceRetention(seen, mode, Some(until), bypass, owner, e.now)
       case Promote(onto) => v.archived && onto.Some? && Retains(onto.value, t) && onto.value.mode != Some(Compliance)
       case _ => false
  }

  /** COMPLIANCE ends exactly with these and the unasked requests; no bypass is among them. */
  lemma ComplianceEndsExactly(v: Version, e: Event, t: int)
    requires UnderCompliance(v, t) && e.now < t
    ensures !UnderCompliance(Step(v, e), t) <==> Unasked(v, e, t) || Relocked(v, e, t)
  {
    hide IsoText;
    ProtectionEndsExactly(v, e, t);
  }

  predicate NoneUnasked(v: Version, events: seq<Event>, t: int)
    decreases |events|
  {
    events == [] || (!Unasked(v, events[0], t) && NoneUnasked(Step(v, events[0]), events[1..], t))
  }

  predicate NoneRelocked(v: Version, events: seq<Event>, t: int)
    decreases |events|
  {
    events == [] || (!Relocked(v, events[0], t) && NoneRelocked(Step(v, events[0]), events[1..], t))
  }

  /**
   * A version once under COMPLIANCE until t stays so, with a date no earlier than t,
   * through any requests before t none of which goes past the rules; the owner's
   * bypasses are no exception.
   */
  lemma {:induction false} ComplianceHolds(v: Version, events: seq<Event>, t: int)
    requires UnderCompliance(v, t) && AllBefore(events, t)
    requires NoneUnasked(v, events, t) && NoneRelocked(v, events, t)
    ensures UnderCompliance(After(v, events), t)
    decreases |events|
  {
    hide Step, Unasked, Relocked;
    if events != [] {
      assert events[0] in events;
      ComplianceEndsExactly(v, events[0], t);
      ComplianceHolds(Step(v, events[0]), events[1..], t);
    }
  }

  predicate NoBypass(v: Version, events: seq<Event>, t: int)
    decreases |events|
  {
    events == [] || (!OwnerBypass(v, events[0], t) && NoBypass(Step(v, events[0]), events[1..], t))
  }

  /** Under either mode the same holds in runs in which, besides, the owner does not bypass. */
  lemma {:induction false} GovernanceHolds(v: Version, events: seq<Event>, t: int)
    requires UnderRetention(v, t) && AllBefore(events, t) && NoneUnasked(v, events, t) && NoBypass(v, events, t)
    ensures UnderRetention(After(v, events), t)
    decreases |events|
  {
    hide Step, Unasked, OwnerBypass;
    if events != [] {
      assert events[0] in events;
      ProtectionEndsExactly(v, events[0], t);
      GovernanceHolds(Step(v, events[0]), events[1..], t);
    }
  }

  // ---- The requests that ask

  /**
   * Retention changes to a year up to 9999 that have seen the lock as it is, legal
   * holds, deletes of the version, prunes, and, with versioning enabled, writes that
   * keep to it and deletes of the key, except for a null version whose id the history
   * has.
   */
  predicate Asks(v: Version, e: Event) {
    && e.now < YEAR_10000
    && match e.request
       case PutRetention(seen, _, until, _, _) => until < YEAR_10000 && v.Kept? && seen == v.lock
       case PutLegalHold(_) => true
       case DeleteVersion(_, _) => true
       case Prune => true
       case Write(versioning, slotTaken) => versioning.Enabled? && !slotTaken
       case DeleteKey(versioning, _, _, slotTaken) => versioning.Enabled? && !slotTaken
       case _ => false
  }

  predicate AskThroughout(v: Version, events: seq<Event>)
    decreases |events|
  {
    events == [] || (Asks(v, events[0]) && AskThroughout(Step(v, events[0]), events[1..]))
  }

  predicate WellDated(v: Version) {
    v.Kept? ==> exists r: Reading :: r < YEAR_10000 && v.lock.until == Some(Written(r))
  }

  lemma AskingIsNeverUnasked(v: Version, e: Event, t: int)
    requires UnderRetention(v, t) && WellDated(v) && e.now < t && Asks(v, e)
    ensures !Unasked(v, e, t) && !Relocked(v, e, t) && WellDated(Step(v, e))
  {
    hide IsoText;
    var r: Reading :| r < YEAR_10000 && v.lock.until == Some(Written(r));
    IsoOrder(r, e.now);
    if e.request.PutRetention? {
      assert e.request.until < YEAR_10000;
      assert Step(v, e).lock.until == Some(Written(e.request.until)) || Step(v, e).lock.until == v.lock.until;
    }
  }

  /**
   * So over every run of such requests, with a clock that does not step back and has
   * not reached t, a version under COMPLIANCE until t is there and still under it.
   */
  lemma {:induction false} ComplianceOverRuns(v: Version, events: seq<Event>, t: int)
    requires UnderCompliance(v, t) && WellDated(v) && ClockForward(events)
    requires (events != [] ==> events[|events| - 1].now < t) && AskThroughout(v, events)
    ensures UnderCompliance(After(v, events), t)
  {
    LastBefore(events, t);
    AskingRuns(v, events, t);
  }

  lemma {:induction false} AskingRuns(v: Version, events: seq<Event>, t: int)
    requires UnderCompliance(v, t) && WellDated(v) && AllBefore(events, t) && AskThroughout(v, events)
    ensures UnderCompliance(After(v, events), t)
    decreases |events|
  {
    hide Step, Unasked, Relocked, WellDated, Asks;
    if events != [] {
      assert events[0] in events;
      AskingIsNeverUnasked(v, events[0], t);
      ComplianceEndsExactly(v, events[0], t);
      AskingRuns(Step(v, events[0]), events[1..], t);
    }
  }

  // ---- Legal hold

  predicate Held(v: Version) { v.Kept? && v.lock.hold }

  /** Exactly these requests end a legal hold: lifting it, and those that do not ask. */
  lemma LegalHoldEndsExactly(v: Version, e: Event)
    requires Held(v)
    ensures !Held(Step(v, e)) <==>
      || e.request == PutLegalHold(false)
      || (match e.request
          case Promote(onto) => !v.archived || onto.None? || !onto.value.hold
          case PutRetention(_, _, _, _, _) => false
          case _ => Unasked(v, e, e.now))
  {
    hide IsoText, TextLeq;
    match e.request {
      case PutRetention(_, _, _, _, _) =>
      case PutLegalHold(_) =>
      case DeleteVersion(_, _) =>
      case Prune =>
      case DashboardDelete(_) =>
      case Write(_, _) =>
      case DeleteKey(_, _, _, _) =>
      case Promote(_) =>
      case DeleteBucket(_, _) =>
    }
  }

  /** While nobody lifts a legal hold, no run of the requests that ask destroys the version. */
  lemma {:induction false} LegalHoldHolds(v: Version, events: seq<Event>)
    requires Held(v) && AskThroughout(v, events) && forall e :: e in events ==> e.request != PutLegalHold(false)
    ensures Held(After(v, events))
    decreases |events|
  {
    hide IsoText, TextLeq;
    if events != [] {
      assert events[0] in events;
      LegalHoldEndsExactly(v, events[0]);
      LegalHoldHolds(Step(v, events[0]), events[1..]);
    }
  }

  // ---- Cases

  lemma TwoEvents(v: Version, a: Event, b: Event)
    ensures After(v, [a, b]) == Step(Step(v, a), b)
  {
    hide Step;
    assert [a, b][1..] == [b] && [b][1..] == [];
    assert After(Step(v, a), [b]) == After(Step(Step(v, a), b), []);
  }

  /** A version just written, and the request that puts it under COMPLIANCE. */
  const WRITTEN := Kept(UNLOCKED, false, false)

  function Locking(until: Reading, now: Reading): Event {
    Event(PutRetention(UNLOCKED, Compliance, until, false, false), now)
  }

  lemma LockingLocks(until: Reading, now: Reading)
    ensures UnderCompliance(Step(WRITTEN, Locking(until, now)), until)
  {
    IsoSome(Locking(until, now));
    hide IsoText;
  }

  /**
   * In an Enabled bucket and before the date: a form upload or the completion of a
   * multipart upload destroys the version; after a write that archives it, the
   * dashboard's delete does; after a delete of its key, the deletion of the bucket
   * does, which is found empty.
   */
  lemma UnaskedRuns(until: Reading, now: Reading, later: Reading, last: Reading)
    requires now <= later <= last < until
    ensures var v := Step(WRITTEN, Locking(until, now));
            && UnderCompliance(v, until)
            && Step(v, Event(Write(Staging.Disabled, false), later)).Destroyed?
            && After(v, [Event(Write(Staging.Enabled, false), later), Event(DashboardDelete(false), last)]).Destroyed?
            && After(v, [Event(DeleteKey(Staging.Enabled, None, true, false), later),
                         Event(DeleteBucket(true, false), last)]).Destroyed?
  {
    LockingLocks(until, now);
    hide IsoText;
    var v := Step(WRITTEN, Locking(until, now));
    TwoEvents(v, Event(Write(Staging.Enabled, false), later), Event(DashboardDelete(false), last));
    TwoEvents(v, Event(DeleteKey(Staging.Enabled, None, true, false), later), Event(DeleteBucket(true, false), last));
  }

  /**
   * Of two retention changes that read the unlocked version, the second undoes the
   * first: COMPLIANCE until the later date gives way to GOVERNANCE until an earlier.
   */
  lemma StaleRetention(until: Reading, sooner: Reading, now: Reading)
    requires now < sooner < until
    ensures UnderCompliance(Step(WRITTEN, Locking(until, now)), until)
    ensures var events := [Locking(until, now), Event(PutRetention(UNLOCKED, Governance, sooner, false, false), now)];
            After(WRITTEN, events) == Kept(Lock(Some(Governance), Some(Written(sooner)), false), false, false)
  {
    LockingLocks(until, now);
    hide IsoText;
    TwoEvents(WRITTEN, Locking(until, now), Event(PutRetention(UNLOCKED, Governance, sooner, false, false), now));
  }

  /**
   * Deleting the current version promotes the archived one before it without its
   * lock, and then anyone may delete that too.
   */
  lemma PromotionUnlocks(v: Version, now: Reading, later: Reading)
    requires v.Kept? && v.archived
    ensures Step(v, Event(Promote(None), now)).lock == UNLOCKED
    ensures After(v, [Event(Promote(None), now), Event(DeleteVersion(false, false), later)]).Destroyed?
  {
    hide IsoText;
    TwoEvents(v, Event(Promote(None), now), Event(DeleteVersion(false, false), later));
  }
}
