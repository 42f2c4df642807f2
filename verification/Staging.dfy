/**
 * The staging protocol: an object's bytes are uploaded to Drive under a staging
 * row, promoted by one transaction, or compensated; a crash may fall between any
 * two writes (apps/server/src/services/object-copy-service.ts,
 * drive-import-service.ts, object-service.ts, s3/operations/copy-object.ts,
 * multipart-complete.ts, jobs/staging-recovery.ts, jobs/orphan-cleanup.ts,
 * db/repositories/objects.ts).
 */
module Staging {
  import opened Bytes

  type File = nat
  type Request = nat
  type Key = nat

  datatype Status = Uploading | Uploaded | Committed | Failed

  datatype Row = Row(request: Request, key: Key, file: Option<File>, status: Status, updatedAt: int)

  datatype Version = Null | Stamped(id: nat)

  datatype Versioning = Disabled | Enabled | Suspended

  datatype Object = Object(file: File, version: Version)

  datatype VersionKey = VersionKey(key: Key, version: Version)

  datatype CleanupRow = CleanupRow(file: File, attempts: nat, nextAttempt: int)

  /**
   * The tables, with two histories no table keeps: the files that `markUploaded`
   * recorded, and the requests whose commits took place. `gone` is what has been
   * deleted from Drive.
   */
  datatype Db = Db(
    staging: map<nat, Row>,
    objects: map<Key, Object>,
    versions: map<VersionKey, File>,
    queue: map<nat, CleanupRow>,
    nextId: nat,
    gone: set<File>,
    marked: set<File>,
    commits: multiset<Request>)

  // ---- One write of a repository

  datatype Write =
    | Insert(request: Request, key: Key)
    | MarkUploaded(id: nat, file: File)
    | MarkFailed(id: nat)
    | MarkCommitted(id: nat)
    | DeleteRow(id: nat)
    | Commit(id: nat, versioning: Versioning, version: Version)
    | Enqueue(file: File)
    | RemoveObject(key: Key)
    | DeleteFile(file: File)
    | Complete(cleanup: nat)
    | Retry(cleanup: nat, at: int)

  predicate Queued(db: Db, f: File) { exists r :: r in db.queue && db.queue[r].file == f }

  function WithRow(db: Db, f: File, now: int): Db {
    db.(queue := db.queue[db.nextId := CleanupRow(f, 0, now)], nextId := db.nextId + 1)
  }

  function WithStatus(db: Db, id: nat, status: Status, now: int): Db
    requires id in db.staging
  {
    db.(staging := db.staging[id := db.staging[id].(status := status, updatedAt := now)])
  }

  /** A row that `commitStagedObject` accepts. */
  predicate Ready(staging: map<nat, Row>, id: nat) {
    id in staging && staging[id].status.Uploaded? && staging[id].file.Some?
  }

  /** Whether the transaction goes through: with `ifAbsent`, the key must be free. */
  predicate CanCommit(db: Db, id: nat, ifAbsent: bool) {
    Ready(db.staging, id) && !(ifAbsent && db.staging[id].key in db.objects)
  }

  /** Whether the replaced object is kept as a version. */
  predicate Archives(previous: Object, versioning: Versioning) {
    versioning.Enabled? || (versioning.Suspended? && previous.version != Null)
  }

  function CommitRow(db: Db, id: nat, versioning: Versioning, version: Version, now: int): Db
    requires Ready(db.staging, id)
  {
    var row := db.staging[id];
    var promoted := WithStatus(db, id, Committed, now).(
      objects := db.objects[row.key := Object(row.file.value, version)],
      commits := db.commits + multiset{row.request});
    if row.key !in db.objects then promoted
    else
      var previous := db.objects[row.key];
      var slot := VersionKey(row.key, previous.version);
      if Archives(previous, versioning) then
        // ON CONFLICT DO NOTHING
        if slot in db.versions then promoted
        else promoted.(versions := db.versions[slot := previous.file])
      else if previous.file != row.file.value then WithRow(promoted, previous.file, now)
      else promoted
  }

  function Apply(db: Db, w: Write, now: int): Db {
    match w
    case Insert(request, key) =>
      db.(staging := db.staging[db.nextId := Row(request, key, None, Uploading, now)], nextId := db.nextId + 1)
    case MarkUploaded(id, file) =>
      if id in db.staging && db.staging[id].status.Uploading? then
        db.(staging := db.staging[id := db.staging[id].(file := Some(file), status := Uploaded, updatedAt := now)],
            marked := db.marked + {file})
      else db
    case MarkFailed(id) =>
      if id in db.staging && !Terminal(db.staging[id]) then WithStatus(db, id, Failed, now) else db
    case MarkCommitted(id) =>
      if id in db.staging && !Terminal(db.staging[id]) then WithStatus(db, id, Committed, now) else db
    case DeleteRow(id) => db.(staging := db.staging - {id})
    case Commit(id, versioning, version) =>
      if Ready(db.staging, id) then CommitRow(db, id, versioning, version, now) else db
    case Enqueue(file) => if Queued(db, file) then db else WithRow(db, file, now)
    case RemoveObject(key) =>
      if key in db.objects then WithRow(db, db.objects[key].file, now).(objects := db.objects - {key}) else db
    case DeleteFile(file) => db.(gone := db.gone + {file})
    case Complete(r) => db.(queue := db.queue - {r})
    case Retry(r, at) =>
      if r in db.queue
      then db.(queue := db.queue[r := db.queue[r].(attempts := db.queue[r].attempts + 1, nextAttempt := at)])
      else db
  }

  predicate Terminal(row: Row) { row.status.Committed? || row.status.Failed? }

  function ApplyAll(db: Db, ws: seq<Write>, now: int): Db
    decreases |ws|
  {
    if ws == [] then db else ApplyAll(Apply(db, ws[0], now), ws[1..], now)
  }

  // ---- The services, as the writes they make

  /**
   * After the bytes are on Drive: record the file, commit, and on a failed check, a
   * conflict or a refused transaction mark the row failed and queue the file.
   */
  function FinishTrace(db: Db, id: nat, file: File, verified: bool, refused: bool, ifAbsent: bool,
        versioning: Versioning, version: Version, now: int): seq<Write> {
    if !verified then [MarkFailed(id), Enqueue(file)]
    else if !refused && CanCommit(Apply(db, MarkUploaded(id, file), now), id, ifAbsent)
    then [MarkUploaded(id, file), Commit(id, versioning, version)]
    else [MarkUploaded(id, file), MarkFailed(id), Enqueue(file)]
  }

  /** What a re-run import item does to the row an earlier run left. */
  function ResumeTrace(db: Db, id: nat, refused: bool, markThrows: bool): seq<Write>
    requires id in db.staging
  {
    var row := db.staging[id];
    match row.status
    case Committed => []
    case Uploaded =>
      var queue := if row.file.Some? then [Enqueue(row.file.value)] else [];
      if !refused && CanCommit(db, id, true)
      then [Commit(id, Disabled, Null)] + if markThrows then [MarkFailed(id)] + queue else []
      else [MarkFailed(id)] + queue
    case Uploading => [MarkFailed(id), DeleteRow(id)]
    case Failed => [DeleteRow(id)]
  }

  /** What recovery does to one stale row. */
  function RecoverRow(db: Db, id: nat): seq<Write>
    requires id in db.staging
  {
    var row := db.staging[id];
    if row.file.None? then [MarkFailed(id)]
    else if row.key in db.objects && db.objects[row.key].file == row.file.value then [MarkCommitted(id)]
    else [Enqueue(row.file.value), MarkFailed(id)]
  }

  function RecoverTrace(db: Db, ids: seq<nat>): seq<Write>
    requires forall id :: id in ids ==> id in db.staging
  {
    if ids == [] then [] else RecoverRow(db, ids[0]) + RecoverTrace(db, ids[1..])
  }

  /** What Drive answers to a deletion. */
  datatype Outcome = Deleted | AlreadyGone | Refused

  const MAX_ATTEMPTS := 12
  const DAY_MS := 86_400_000

  /** The cleanup worker on one queued row: it is never forgotten on an error. */
  function CleanupTrace(r: nat, row: CleanupRow, outcome: Outcome, backoff: nat -> int, now: int): seq<Write> {
    match outcome
    case Deleted => [DeleteFile(row.file), Complete(r)]
    case AlreadyGone => [DeleteFile(row.file), Complete(r)]
    case Refused => [Retry(r, if row.attempts + 1 >= MAX_ATTEMPTS then now + DAY_MS else backoff(row.attempts + 1))]
  }

  function Cut(ws: seq<Write>, cut: nat): seq<Write> { if cut < |ws| then ws[..cut] else ws }

  lemma {:induction false} ApplySnoc(db: Db, ws: seq<Write>, w: Write, now: int)
    ensures ApplyAll(db, ws + [w], now) == Apply(ApplyAll(db, ws, now), w, now)
    decreases |ws|
  {
    hide Apply;
    if ws == [] {
      assert [w][1..] == [];
    } else {
      assert (ws + [w])[1..] == ws[1..] + [w];
      ApplySnoc(Apply(db, ws[0], now), ws[1..], w, now);
    }
  }

  lemma {:induction false} ApplyConcat(db: Db, a: seq<Write>, b: seq<Write>, now: int)
    ensures ApplyAll(db, a + b, now) == ApplyAll(ApplyAll(db, a, now), b, now)
    decreases |a|
  {
    hide Apply;
    if a == [] {
      assert a + b == b;
    } else {
      assert (a + b)[1..] == a[1..] + b;
      ApplyConcat(Apply(db, a[0], now), a[1..], b, now);
    }
  }

  // ---- Where files are

  /** The files of rows that are uploaded and not yet settled. */
  ghost function UploadedFiles(staging: map<nat, Row>): set<File> {
    set i | i in staging && Ready(staging, i) :: staging[i].file.value
  }

  ghost function ActiveFiles(objects: map<Key, Object>): set<File> { set k | k in objects :: objects[k].file }

  ghost function VersionFiles(versions: map<VersionKey, File>): set<File> { set v | v in versions :: versions[v] }

  ghost function QueuedFiles(queue: map<nat, CleanupRow>): set<File> { set r | r in queue :: queue[r].file }

  datatype Places = Places(
    up: set<File>, active: set<File>, kept: set<File>, queued: set<File>, gone: set<File>, marked: set<File>)

  ghost function Where(db: Db): Places {
    Places(UploadedFiles(db.staging), ActiveFiles(db.objects), VersionFiles(db.versions), QueuedFiles(db.queue),
           db.gone, db.marked)
  }

  /** What an unsettled row, the namespace, the history or the queue still holds, or what is deleted. */
  ghost function Held(p: Places): set<File> { p.up + p.active + p.kept + p.queued + p.gone }

  /** Every recorded file is held. */
  ghost predicate NothingLeaked(p: Places) { p.marked <= Held(p) }

  /** A file is in one place only; only while not settled may a queued file still have its row. */
  ghost predicate Apart(p: Places, settled: bool) {
    && p.up !! p.active && p.up !! p.kept && p.up !! p.gone
    && p.active !! p.kept && p.active !! p.queued && p.active !! p.gone
    && p.kept !! p.queued && p.kept !! p.gone
    && (settled ==> p.up !! p.queued)
    && p.up + p.active + p.kept <= p.marked
  }

  ghost predicate Below(p: Places, nextFile: nat) {
    && (forall f :: f in p.queued ==> f < nextFile)
    && (forall f :: f in p.gone ==> f < nextFile)
    && (forall f :: f in p.marked ==> f < nextFile)
  }

  ghost predicate OneRow(staging: map<nat, Row>) {
    forall i, j :: Ready(staging, i) && Ready(staging, j) && staging[i].file == staging[j].file ==> i == j
  }

  ghost predicate OneKey(objects: map<Key, Object>) {
    forall j, k :: j in objects && k in objects && objects[j].file == objects[k].file ==> j == k
  }

  /** A row has a file exactly once it was recorded; ids are fresh counters. */
  ghost predicate Shaped(db: Db) {
    && (forall i :: i in db.staging ==> i < db.nextId)
    && (forall i :: i in db.staging && db.staging[i].status.Uploading? ==> db.staging[i].file.None?)
    && (forall i :: i in db.staging && db.staging[i].status.Uploaded? ==> db.staging[i].file.Some?)
    && (forall r :: r in db.queue ==> r < db.nextId)
  }

  ghost predicate Good(db: Db, nextFile: nat, settled: bool) {
    && Shaped(db) && OneRow(db.staging) && OneKey(db.objects)
    && Apart(Where(db), settled) && Below(Where(db), nextFile)
  }

  // ---- What each write moves

  ghost function FileOf(staging: map<nat, Row>, id: nat): set<File> {
    if Ready(staging, id) then {staging[id].file.value} else {}
  }

  ghost function FileAt(objects: map<Key, Object>, key: Key): set<File> {
    if key in objects then {objects[key].file} else {}
  }

  lemma InsertMoves(staging: map<nat, Row>, id: nat, row: Row)
    requires id !in staging && row.status.Uploading? && OneRow(staging)
    ensures UploadedFiles(staging[id := row]) == UploadedFiles(staging) && OneRow(staging[id := row])
  {
    var next := staging[id := row];
    assert forall i :: Ready(next, i) <==> Ready(staging, i);
    assert forall i :: Ready(staging, i) ==> next[i] == staging[i];
  }

  lemma UploadMoves(staging: map<nat, Row>, id: nat, row: Row)
    requires OneRow(staging) && id in staging && !staging[id].status.Uploaded?
    requires row.status.Uploaded? && row.file.Some? && row.file.value !in UploadedFiles(staging)
    ensures UploadedFiles(staging[id := row]) == UploadedFiles(staging) + {row.file.value} && OneRow(staging[id := row])
  {
    var next := staging[id := row];
    assert forall i :: Ready(next, i) <==> Ready(staging, i) || i == id;
    assert forall i :: i != id && i in staging ==> next[i] == staging[i];
    assert Ready(next, id);
    forall g ensures g in UploadedFiles(next) <==> g in UploadedFiles(staging) || g == row.file.value {
      if g in UploadedFiles(staging) {
        var i :| i in staging && Ready(staging, i) && staging[i].file.value == g;
        assert Ready(next, i) && next[i].file.value == g;
      }
    }
  }

  /** Settling or deleting a row takes its file, and no other, from the unsettled ones. */
  lemma SettleMoves(staging: map<nat, Row>, next: map<nat, Row>, id: nat)
    requires OneRow(staging) && (id in next ==> Terminal(next[id]))
    requires forall i :: i != id ==> (i in next <==> i in staging) && (i in staging ==> next[i] == staging[i])
    ensures UploadedFiles(next) == UploadedFiles(staging) - FileOf(staging, id) && OneRow(next)
  {
    assert forall i :: Ready(next, i) <==> Ready(staging, i) && i != id;
    forall g ensures g in UploadedFiles(next) <==> g in UploadedFiles(staging) && g !in FileOf(staging, id) {
      if g in UploadedFiles(staging) && g !in FileOf(staging, id) {
        var i :| i in staging && Ready(staging, i) && staging[i].file.value == g;
        assert Ready(next, i) && next[i].file.value == g;
      }
    }
  }

  lemma Owned(staging: map<nat, Row>, id: nat)
    ensures FileOf(staging, id) <= UploadedFiles(staging)
  {
  }

  lemma QueueMoves(queue: map<nat, CleanupRow>, r: nat, row: CleanupRow)
    requires r !in queue
    ensures QueuedFiles(queue[r := row]) == QueuedFiles(queue) + {row.file}
  {
    var next := queue[r := row];
    assert r in next;
    forall g ensures g in QueuedFiles(next) <==> g in QueuedFiles(queue) || g == row.file {
      if g in QueuedFiles(queue) {
        var q :| q in queue && queue[q].file == g;
        assert q in next && next[q].file == g;
      }
    }
  }

  lemma RemoveMoves(objects: map<Key, Object>, key: Key)
    requires OneKey(objects)
    ensures ActiveFiles(objects - {key}) == ActiveFiles(objects) - FileAt(objects, key) && OneKey(objects - {key})
  {
    var next := objects - {key};
    forall g ensures g in ActiveFiles(next) <==> g in ActiveFiles(objects) && g !in FileAt(objects, key) {
      if g in ActiveFiles(objects) && g !in FileAt(objects, key) {
        var k :| k in objects && objects[k].file == g;
        assert k in next && next[k].file == g;
      }
    }
  }

  lemma PromoteMoves(objects: map<Key, Object>, key: Key, o: Object)
    requires OneKey(objects) && o.file !in ActiveFiles(objects)
    ensures ActiveFiles(objects[key := o]) == ActiveFiles(objects) - FileAt(objects, key) + {o.file}
    ensures OneKey(objects[key := o]) && FileAt(objects, key) <= ActiveFiles(objects)
  {
    var next := objects[key := o];
    assert key in next;
    forall g
      ensures g in ActiveFiles(next) <==> (g in ActiveFiles(objects) && g !in FileAt(objects, key)) || g == o.file
    {
      if g in ActiveFiles(objects) && g !in FileAt(objects, key) {
        var k :| k in objects && objects[k].file == g;
        assert k in next && next[k].file == g;
      }
    }
  }

  lemma ArchiveMoves(versions: map<VersionKey, File>, slot: VersionKey, f: File)
    requires slot !in versions
    ensures VersionFiles(versions[slot := f]) == VersionFiles(versions) + {f}
  {
    var next := versions[slot := f];
    assert slot in next;
    forall g ensures g in VersionFiles(next) <==> g in VersionFiles(versions) || g == f {
      if g in VersionFiles(versions) {
        var v :| v in versions && versions[v] == g;
        assert v in next && next[v] == g;
      }
    }
  }

  lemma CompleteMoves(queue: map<nat, CleanupRow>, r: nat)
    requires r in queue
    ensures QueuedFiles(queue - {r}) <= QueuedFiles(queue) <= QueuedFiles(queue - {r}) + {queue[r].file}
  {
    var next := queue - {r};
    forall g | g in QueuedFiles(queue) && g != queue[r].file ensures g in QueuedFiles(next) {
      var q :| q in queue && queue[q].file == g;
      assert q in next && next[q].file == g;
    }
  }

  lemma RetryMoves(queue: map<nat, CleanupRow>, r: nat, row: CleanupRow)
    requires r in queue && row.file == queue[r].file
    ensures QueuedFiles(queue[r := row]) == QueuedFiles(queue)
  {
    var next := queue[r := row];
    forall g ensures g in QueuedFiles(next) <==> g in QueuedFiles(queue) {
      if g in QueuedFiles(queue) {
        var q :| q in queue && queue[q].file == g;
        assert q in next && next[q].file == g;
      }
      if g in QueuedFiles(next) {
        var q :| q in next && next[q].file == g;
        assert q in queue && queue[q].file == g;
      }
    }
  }

  // ---- What each write keeps

  lemma InsertKeeps(db: Db, request: Request, key: Key, now: int, nextFile: nat, settled: bool)
    requires Good(db, nextFile, settled)
    ensures var next := Apply(db, Insert(request, key), now);
            Good(next, nextFile, settled) && Where(next) == Where(db)
  {
    hide UploadedFiles, ActiveFiles, VersionFiles, QueuedFiles, OneRow, OneKey, Apart, Below;
    InsertMoves(db.staging, db.nextId, Row(request, key, None, Uploading, now));
  }

  lemma MarkUploadedKeeps(db: Db, id: nat, f: File, now: int, nextFile: nat, settled: bool)
    requires Good(db, nextFile, settled) && f < nextFile && f !in Held(Where(db))
    requires id in db.staging && db.staging[id].status.Uploading?
    ensures var next := Apply(db, MarkUploaded(id, f), now);
            var p := Where(db);
            && Good(next, nextFile, settled)
            && Where(next) == p.(up := p.up + {f}, marked := p.marked + {f})
            && Ready(next.staging, id) && FileOf(next.staging, id) == {f}
  {
    hide UploadedFiles, ActiveFiles, VersionFiles, QueuedFiles, OneRow, OneKey;
    UploadMoves(db.staging, id, db.staging[id].(file := Some(f), status := Uploaded, updatedAt := now));
  }

  lemma MarkFailedKeeps(db: Db, id: nat, now: int, nextFile: nat, settled: bool)
    requires Good(db, nextFile, settled)
    ensures var next := Apply(db, MarkFailed(id), now);
            Good(next, nextFile, settled) && Where(next) == Where(db).(up := Where(db).up - FileOf(db.staging, id))
  {
    hide UploadedFiles, ActiveFiles, VersionFiles, QueuedFiles, OneRow, OneKey;
    var next := Apply(db, MarkFailed(id), now);
    if id in db.staging && !Terminal(db.staging[id]) {
      SettleMoves(db.staging, next.staging, id);
    }
  }

  lemma DeleteRowKeeps(db: Db, id: nat, now: int, nextFile: nat, settled: bool)
    requires Good(db, nextFile, settled)
    ensures var next := Apply(db, DeleteRow(id), now);
            Good(next, nextFile, settled) && Where(next) == Where(db).(up := Where(db).up - FileOf(db.staging, id))
  {
    hide UploadedFiles, ActiveFiles, VersionFiles, QueuedFiles, OneRow, OneKey;
    SettleMoves(db.staging, db.staging - {id}, id);
  }

  /** Queueing is safe for a file that nothing else holds. */
  lemma EnqueueKeeps(db: Db, f: File, now: int, nextFile: nat, settled: bool)
    requires Good(db, nextFile, settled) && f < nextFile
    requires f !in Where(db).active + Where(db).kept
    ensures var next := Apply(db, Enqueue(f), now);
            && Where(next) == Where(db).(queued := Where(db).queued + {f})
            && Good(next, nextFile, settled && f !in Where(db).up)
            && next.staging == db.staging && next.objects == db.objects
  {
    hide UploadedFiles, ActiveFiles, VersionFiles, OneRow, OneKey;
    if Queued(db, f) {
      assert f in QueuedFiles(db.queue);
    } else {
      QueueMoves(db.queue, db.nextId, CleanupRow(f, 0, now));
    }
  }

  /** The replaced object must be kept as a version, but its slot in the history is taken. */
  predicate SlotTaken(db: Db, id: nat, versioning: Versioning) {
    && Ready(db.staging, id) && db.staging[id].key in db.objects
    && var previous := db.objects[db.staging[id].key];
       Archives(previous, versioning) && VersionKey(db.staging[id].key, previous.version) in db.versions
  }

  /** The replaced file goes to the history or to the queue, or nowhere when its slot is taken. */
  lemma ReplacedMoves(db: Db, id: nat, versioning: Versioning, version: Version, now: int)
    requires Ready(db.staging, id) && db.nextId !in db.queue
    requires FileOf(db.staging, id) !! FileAt(db.objects, db.staging[id].key)
    ensures var next := CommitRow(db, id, versioning, version, now);
            var replaced := FileAt(db.objects, db.staging[id].key);
            var kept, queued := VersionFiles(next.versions), QueuedFiles(next.queue);
            if SlotTaken(db, id, versioning)
            then replaced != {} && kept == VersionFiles(db.versions) && queued == QueuedFiles(db.queue)
            else || (kept == VersionFiles(db.versions) + replaced && queued == QueuedFiles(db.queue))
                 || (kept == VersionFiles(db.versions) && queued == QueuedFiles(db.queue) + replaced)
  {
    hide VersionFiles, QueuedFiles;
    var row := db.staging[id];
    if row.key in db.objects {
      var previous := db.objects[row.key];
      var slot := VersionKey(row.key, previous.version);
      if !Archives(previous, versioning) {
        QueueMoves(db.queue, db.nextId, CleanupRow(previous.file, 0, now));
      } else if slot !in db.versions {
        ArchiveMoves(db.versions, slot, previous.file);
      }
    }
  }

  lemma CommitFrame(db: Db, id: nat, versioning: Versioning, version: Version, now: int)
    requires Ready(db.staging, id)
    ensures var next := CommitRow(db, id, versioning, version, now);
            && next.staging == WithStatus(db, id, Committed, now).staging
            && next.objects == db.objects[db.staging[id].key := Object(db.staging[id].file.value, version)]
            && next.gone == db.gone && next.marked == db.marked
            && next.commits == db.commits + multiset{db.staging[id].request}
            && db.nextId <= next.nextId
            && forall r :: r in next.queue ==> r in db.queue || r < next.nextId
  {
  }

  /** The new file is active; the replaced one goes to the history or to the queue, unless its slot is taken. */
  lemma CommitKeeps(db: Db, id: nat, versioning: Versioning, version: Version, now: int, nextFile: nat)
    requires Good(db, nextFile, true) && Ready(db.staging, id)
    ensures var next := Apply(db, Commit(id, versioning, version), now);
            && Good(next, nextFile, true)
            && next.staging == WithStatus(db, id, Committed, now).staging
            && Where(next).active == Where(db).active - FileAt(db.objects, db.staging[id].key) + FileOf(db.staging, id)
            && Where(next).up == Where(db).up - FileOf(db.staging, id) && next.marked == db.marked
            && (NothingLeaked(Where(db)) ==> (NothingLeaked(Where(next)) <==> !SlotTaken(db, id, versioning)))
  {
    hide UploadedFiles, ActiveFiles, VersionFiles, QueuedFiles, OneRow, OneKey, CommitRow, SlotTaken;
    var row := db.staging[id];
    CommitFrame(db, id, versioning, version, now);
    SettleMoves(db.staging, WithStatus(db, id, Committed, now).staging, id);
    Owned(db.staging, id);
    PromoteMoves(db.objects, row.key, Object(row.file.value, version));
    ReplacedMoves(db, id, versioning, version, now);
  }

  lemma RemoveKeeps(db: Db, key: Key, now: int, nextFile: nat)
    requires Good(db, nextFile, true) && key in db.objects
    ensures var next := Apply(db, RemoveObject(key), now);
            && Good(next, nextFile, true) && Held(Where(next)) == Held(Where(db)) && next.marked == db.marked
            && next.staging == db.staging
  {
    hide UploadedFiles, ActiveFiles, VersionFiles, QueuedFiles, OneRow, OneKey;
    RemoveMoves(db.objects, key);
    QueueMoves(db.queue, db.nextId, CleanupRow(db.objects[key].file, 0, now));
    ActiveAt(db.objects, key);
  }

  lemma ActiveAt(objects: map<Key, Object>, key: Key)
    ensures FileAt(objects, key) <= ActiveFiles(objects)
  {
  }

  /**
   * What a commit does to the history and the queue, case by case: with versioning
   * enabled the replaced object is kept under its own version id, and with versioning
   * suspended too unless it is a null version; otherwise its file is queued.
   */
  lemma CommitPlaces(db: Db, id: nat, versioning: Versioning, version: Version, now: int)
    requires id in db.staging && db.staging[id].status.Uploaded? && db.staging[id].file.Some?
    requires db.nextId !in db.queue
    ensures var next := Apply(db, Commit(id, versioning, version), now);
            var key, file := db.staging[id].key, db.staging[id].file.value;
            && next.objects == db.objects[key := Object(file, version)]
            && next.staging == db.staging[id := db.staging[id].(status := Committed, updatedAt := now)]
            && next.commits == db.commits + multiset{db.staging[id].request}
            && next.gone == db.gone && next.marked == db.marked
            && if key !in db.objects then next.versions == db.versions && next.queue == db.queue
               else
                 var previous := db.objects[key];
                 var slot := VersionKey(key, previous.version);
                 if versioning.Enabled? || (versioning.Suspended? && previous.version != Null) then
                   && next.queue == db.queue
                   && next.versions == if slot in db.versions then db.versions else db.versions[slot := previous.file]
                 else
                   && next.versions == db.versions
                   && (previous.file == file ==> next.queue == db.queue)
                   && (previous.file != file ==>
                         next.queue == db.queue[db.nextId := CleanupRow(previous.file, 0, now)])
  {
  }

  /** How a row moves: recorded once, settled once, and then left alone. */
  lemma RowMovesExactly(db: Db, id: nat, file: File, now: int)
    ensures var open := id in db.staging && db.staging[id].status in {Uploading, Uploaded};
            && (if id in db.staging && db.staging[id].status == Uploading
                then Apply(db, MarkUploaded(id, file), now) == db.(
                       staging := db.staging[id :=
                         db.staging[id].(file := Some(file), status := Uploaded, updatedAt := now)],
                       marked := db.marked + {file})
                else Apply(db, MarkUploaded(id, file), now) == db)
            && Apply(db, MarkFailed(id), now)
               == (if open then db.(staging := db.staging[id := db.staging[id].(status := Failed, updatedAt := now)])
                   else db)
            && Apply(db, MarkCommitted(id), now)
               == (if open then db.(staging := db.staging[id := db.staging[id].(status := Committed, updatedAt := now)])
                   else db)
  {
  }

  /**
   * What the end of an upload comes to when no crash cuts it: if the file passes its
   * check and the commit is not refused, and the key is free if it must be, the row is
   * committed; otherwise the row has failed and the file is to be deleted.
   */
  lemma FinishComesTo(db: Db, id: nat, file: File, verified: bool, refused: bool, ifAbsent: bool,
        versioning: Versioning, version: Version, now: int)
    requires id in db.staging && db.staging[id].status == Uploading && Shaped(db)
    ensures var trace := FinishTrace(db, id, file, verified, refused, ifAbsent, versioning, version, now);
            var end := ApplyAll(db, trace, now);
            var key := db.staging[id].key;
            && id in end.staging
            && if verified && !refused && !(ifAbsent && key in db.objects)
               then end.staging[id].status == Committed && end.objects == db.objects[key := Object(file, version)]
                    && end.staging[id].file == Some(file)
               else end.staging[id].status == Failed && Queued(end, file) && end.objects == db.objects
                    && end.versions == db.versions
  {
    hide CommitRow, Queued;
    var trace := FinishTrace(db, id, file, verified, refused, ifAbsent, versioning, version, now);
    FewWrites(db, trace, 3, now);
    var marked := Apply(db, MarkUploaded(id, file), now);
    FreshId(db);
    if verified && !refused && CanCommit(marked, id, ifAbsent) {
      CommitPlaces(marked, id, versioning, version, now);
    } else {
      var failed := Apply(if verified then marked else db, MarkFailed(id), now);
      EnqueueQueues(failed, file, now);
    }
  }

  lemma EnqueueQueues(db: Db, file: File, now: int)
    ensures var next := Apply(db, Enqueue(file), now);
            && Queued(next, file) && next.staging == db.staging && next.objects == db.objects
            && next.versions == db.versions
            && (Queued(db, file) ==> next == db)
            && (!Queued(db, file) ==> next.queue == db.queue[db.nextId := CleanupRow(file, 0, now)])
  {
    if !Queued(db, file) {
      var next := Apply(db, Enqueue(file), now);
      assert next.queue[db.nextId].file == file;
    }
  }

  /**
   * What re-running an import item comes to on the row its earlier run left, when
   * neither a crash nor a throw cuts it.
   */
  lemma ResumeComesTo(db: Db, id: nat, refused: bool, now: int)
    requires id in db.staging && Shaped(db)
    ensures var end := ApplyAll(db, ResumeTrace(db, id, refused, false), now);
            var row := db.staging[id];
            match row.status
            case Committed => end == db
            case Uploaded =>
              if !refused && row.key !in db.objects
              then id in end.staging && end.staging[id].status == Committed
                   && end.objects == db.objects[row.key := Object(row.file.value, Null)]
              else id in end.staging && end.staging[id].status == Failed && Queued(end, row.file.value)
                   && end.objects == db.objects
            case _ => end.staging == db.staging - {id} && end.objects == db.objects && end.queue == db.queue
  {
    hide CommitRow, Queued;
    var trace := ResumeTrace(db, id, refused, false);
    FewWrites(db, trace, 3, now);
    FreshId(db);
    match db.staging[id].status
    case Committed =>
    case Failed =>
    case Uploading =>
      var failed := Apply(db, MarkFailed(id), now);
      assert failed.staging - {id} == db.staging - {id};
    case Uploaded =>
      if !refused && CanCommit(db, id, true) {
        CommitPlaces(db, id, Disabled, Null, now);
      } else {
        EnqueueQueues(Apply(db, MarkFailed(id), now), db.staging[id].file.value, now);
      }
  }

  /** What recovery comes to on a stale row: it has failed, and its file, if it has one, is to be deleted. */
  lemma RecoverComesTo(db: Db, id: nat, nextFile: nat, settled: bool, now: int)
    requires Good(db, nextFile, settled) && id in db.staging && db.staging[id].status in {Uploading, Uploaded}
    ensures var end := ApplyAll(db, RecoverRow(db, id), now);
            && id in end.staging && end.staging[id].status == Failed && end.objects == db.objects
            && (db.staging[id].file.Some? ==> Queued(end, db.staging[id].file.value))
            && (db.staging[id].file.None? ==> end.queue == db.queue)
  {
    hide Good, Queued, UploadedFiles, ActiveFiles;
    FewWrites(db, RecoverRow(db, id), 3, now);
    if db.staging[id].file.Some? {
      GoodShaped(db, nextFile, settled);
      NonTerminalReady(db, id);
      NeverFinalized(db, id, nextFile, settled);
      EnqueueQueues(db, db.staging[id].file.value, now);
      var queued := Apply(db, Enqueue(db.staging[id].file.value), now);
      SameQueue(queued, Apply(queued, MarkFailed(id), now), db.staging[id].file.value);
    }
  }

  lemma GoodShaped(db: Db, nextFile: nat, settled: bool)
    requires Good(db, nextFile, settled)
    ensures Shaped(db)
  {
  }

  lemma SameQueue(db: Db, next: Db, file: File)
    requires next.queue == db.queue
    ensures Queued(next, file) <==> Queued(db, file)
  {
  }

  /** When a refused deletion is tried again: with backoff, and from the twelfth attempt on once a day. */
  lemma RetryExactly(r: nat, row: CleanupRow, backoff: nat -> int, now: int)
    ensures CleanupTrace(r, row, Refused, backoff, now)
         == [Retry(r, if row.attempts >= 11 then now + 24 * 3_600_000 else backoff(row.attempts + 1))]
    ensures RetryAt(row, backoff, now) == if row.attempts >= 11 then now + 24 * 3_600_000 else backoff(row.attempts + 1)
  {
  }

  // ---- Runs

  /**
   * The whole system: `up` while requests are served, `live` the uploads in
   * progress, `closing` the files of requests that go on after their commit, `cutoff`
   * the latest staleness limit recovery has used.
   */
  datatype World = World(db: Db, up: bool, live: set<nat>, closing: set<File>, nextFile: nat, cutoff: int)

  /**
   * What happens, each up to `cut` writes: fewer than the event makes is a crash.
   * `Finish` and `Fail` end an upload that `Start` began, for a copy, a PUT, an import
   * or a multipart upload. CopyObject and CompleteMultipartUpload go on after the
   * commit (`goesOn`), and when a later step of theirs throws, at any later time, they
   * run the same catch block (`Late`), whose `markFailed` leaves the committed row as
   * it is. `Resume` re-runs an import item on the row of its request.
   */
  datatype Event =
    | Start(request: Request, key: Key, now: int)
    | Finish(id: nat, verified: bool, refused: bool, ifAbsent: bool, versioning: Versioning, version: Version,
          goesOn: bool, now: int, cut: nat)
    | Late(file: File, now: int, cut: nat)
    | Fail(id: nat, now: int, cut: nat)
    | Resume(id: nat, refused: bool, markThrows: bool, now: int, cut: nat)
    | Remove(key: Key, now: int)
    | Cleanup(r: nat, outcome: Outcome, backoff: nat -> int, now: int, cut: nat)
    | Startup(ids: seq<nat>, cutoff: int, limit: nat, now: int, cut: nat)
    | Crash

  predicate Before(staging: map<nat, Row>, i: nat, j: nat)
    requires i in staging && j in staging
  {
    staging[i].updatedAt < staging[j].updatedAt || (staging[i].updatedAt == staging[j].updatedAt && i < j)
  }

  predicate Stale(staging: map<nat, Row>, i: nat, cutoff: int) {
    i in staging && !Terminal(staging[i]) && staging[i].updatedAt < cutoff
  }

  /** The result of `listStale`: the first `limit` stale rows, oldest first. */
  ghost predicate IsStaleList(staging: map<nat, Row>, cutoff: int, limit: nat, ids: seq<nat>) {
    && |ids| <= limit
    && (forall k :: 0 <= k < |ids| ==> Stale(staging, ids[k], cutoff))
    && (forall j, k :: 0 <= j < k < |ids| ==> Before(staging, ids[j], ids[k]))
    && (forall i :: Stale(staging, i, cutoff) && i !in ids ==>
          |ids| == limit && forall k :: 0 <= k < |ids| ==> Before(staging, ids[k], i))
  }

  ghost predicate Possible(w: World, e: Event) {
    match e
    case Start(request, key, now) => w.up && forall i :: i in w.db.staging ==> w.db.staging[i].request != request
    case Finish(id, _, _, _, _, _, _, _, _) => w.up && id in w.live && id in w.db.staging
    case Late(file, _, _) => w.up && file in w.closing
    case Fail(id, _, _) => w.up && id in w.live && id in w.db.staging
    case Resume(id, _, _, _, _) => w.up && id in w.db.staging && id !in w.live
    case Remove(key, _) => w.up && key in w.db.objects
    case Cleanup(r, _, _, _, _) => w.up && r in w.db.queue
    case Startup(ids, cutoff, limit, _, _) =>
      !w.up && limit > 0 && w.cutoff <= cutoff && IsStaleList(w.db.staging, cutoff, limit, ids)
    case Crash => true
  }

  ghost function Trace(w: World, e: Event): seq<Write>
    requires Possible(w, e)
  {
    match e
    case Start(request, key, now) => [Insert(request, key)]
    case Finish(id, verified, refused, ifAbsent, versioning, version, _, now, _) =>
      FinishTrace(w.db, id, w.nextFile, verified, refused, ifAbsent, versioning, version, now)
    case Late(file, _, _) => [Enqueue(file)]
    case Fail(id, _, _) => [MarkFailed(id)]
    case Resume(id, refused, markThrows, _, _) => ResumeTrace(w.db, id, refused, markThrows)
    case Remove(key, _) => [RemoveObject(key)]
    case Cleanup(r, outcome, backoff, now, _) => CleanupTrace(r, w.db.queue[r], outcome, backoff, now)
    case Startup(ids, _, _, _, _) => RecoverTrace(w.db, ids)
    case Crash => []
  }

  function CutOf(e: Event, full: nat): nat {
    if e.Start? || e.Remove? || e.Crash? then full else e.cut
  }

  function NowOf(e: Event): int { if e.Crash? then 0 else e.now }

  ghost function Step(w: World, e: Event): World
    requires Possible(w, e)
  {
    var trace := Trace(w, e);
    var cut := CutOf(e, |trace|);
    var next := ApplyAll(w.db, Cut(trace, cut), NowOf(e));
    var crashed := e.Crash? || cut < |trace|;
    World(
      next,
      !crashed && (w.up || e.Startup?),
      if crashed then {}
      else if e.Start? then w.live + {w.db.nextId}
      else if e.Finish? || e.Fail? then w.live - {e.id} else w.live,
      if crashed then {}
      else if e.Finish? && e.goesOn && e.id in next.staging && next.staging[e.id].status.Committed?
      then w.closing + {w.nextFile}
      else if e.Late? then w.closing - {e.file} else w.closing,
      if e.Finish? then w.nextFile + 1 else w.nextFile,
      if e.Startup? then e.cutoff else w.cutoff)
  }

  /** While down, a row whose file is already queued is the first that recovery will look at. */
  ghost predicate Suspects(db: Db, cutoff: int) {
    forall i :: Ready(db.staging, i) && db.staging[i].file.value in QueuedFiles(db.queue) ==>
      db.staging[i].updatedAt < cutoff
      && forall j :: j in db.staging && !Terminal(db.staging[j]) && j != i ==> Before(db.staging, i, j)
  }

  ghost predicate Inv(w: World) {
    && Good(w.db, w.nextFile, w.up)
    && (forall id :: id in w.live ==> id in w.db.staging && w.db.staging[id].status.Uploading?)
    && (!w.up ==> w.live == {} && w.closing == {} && Suspects(w.db, w.cutoff))
    && w.closing <= w.db.marked && w.closing !! Where(w.db).up
  }

  /** Nothing that is to be deleted is an active object's file or a kept version's. */
  ghost predicate Spared(p: Places) { p.active !! p.queued && p.kept !! p.queued }

  /**
   * The two events that queue the file of an active object or a kept version: the
   * mark that follows a resumed commit throws, or a later step of a request whose
   * committed object is still there.
   */
  ghost predicate QueuesHeld(w: World, e: Event) {
    match e
    case Resume(id, refused, markThrows, _, cut) =>
      Ready(w.db.staging, id) && !refused && CanCommit(w.db, id, true) && markThrows && cut >= 3
    case Late(file, _, cut) => cut >= 1 && file in Where(w.db).active + Where(w.db).kept
    case _ => false
  }

  /**
   * The events that lose track of a file: a crash between marking a row failed and
   * queueing its file, and a commit that keeps the replaced object under a version
   * that the history already has.
   */
  ghost predicate Leaks(w: World, e: Event) {
    match e
    case Finish(id, verified, refused, ifAbsent, versioning, version, _, now, cut) =>
      verified && id in w.db.staging && w.db.staging[id].status.Uploading? &&
      var db := Apply(w.db, MarkUploaded(id, w.nextFile), now);
      if !refused && CanCommit(db, id, ifAbsent) then cut >= 2 && SlotTaken(db, id, versioning)
      else cut == 2
    case Resume(id, refused, markThrows, now, cut) =>
      Ready(w.db.staging, id) && !(!refused && CanCommit(w.db, id, true)) && cut == 1
    case _ => false
  }

  // ---- Each event

  /** The state after k of at most three writes. */
  function AfterFew(db: Db, ws: seq<Write>, k: nat, now: int): Db
    requires k <= |ws| <= 3
  {
    if k == 0 then db
    else if k == 1 then Apply(db, ws[0], now)
    else if k == 2 then Apply(Apply(db, ws[0], now), ws[1], now)
    else Apply(Apply(Apply(db, ws[0], now), ws[1], now), ws[2], now)
  }

  lemma FewWrites(db: Db, ws: seq<Write>, cut: nat, now: int)
    requires |ws| <= 3
    ensures ApplyAll(db, Cut(ws, cut), now) == AfterFew(db, ws, if cut < |ws| then cut else |ws|, now)
  {
    hide Apply;
    var done := Cut(ws, cut);
    if done != [] {
      var first := Apply(db, done[0], now);
      assert ApplyAll(db, done, now) == ApplyAll(first, done[1..], now);
      if |done| > 1 {
        var second := Apply(first, done[1], now);
        assert done[1..][1..] == done[2..];
        assert ApplyAll(first, done[1..], now) == ApplyAll(second, done[2..], now);
        if |done| > 2 {
          assert done[2..][1..] == [];
          assert ApplyAll(second, done[2..], now) == Apply(second, done[2], now);
        }
      }
    }
  }

  /** Whether an event keeps the system sound, and whether it keeps track of every file. */
  ghost predicate Outcomes(w: World, e: Event)
    requires Possible(w, e)
  {
    var next := Step(w, e);
    && (Spared(Where(next.db)) <==> !QueuesHeld(w, e))
    && (!QueuesHeld(w, e) ==> Inv(next))
    && (!QueuesHeld(w, e) && NothingLeaked(Where(w.db)) ==> (NothingLeaked(Where(next.db)) <==> !Leaks(w, e)))
  }

  /** A settled system has no suspects, so a crash is safe at any time. */
  lemma CrashIsSafe(db: Db, nextFile: nat, cutoff: int)
    requires Good(db, nextFile, true)
    ensures Good(db, nextFile, false) && Suspects(db, cutoff)
  {
    hide OneRow, OneKey, Below;
    forall i | Ready(db.staging, i) ensures db.staging[i].file.value !in QueuedFiles(db.queue) {
      assert db.staging[i].file.value in UploadedFiles(db.staging);
    }
  }

  lemma FreshFile(db: Db, nextFile: nat)
    requires Good(db, nextFile, true)
    ensures Good(db, nextFile + 1, true)
    ensures nextFile !in Held(Where(db)) + db.marked
  {
  }

  /** What every event leaves to the requests that go on: recorded files stay recorded, and none is unsettled again. */
  ghost predicate Onward(w: World, db: Db) {
    w.db.marked <= db.marked && Where(db).up <= Where(w.db).up + {w.nextFile}
  }

  /** What every state on the way through the end of an upload has. */
  ghost predicate OnTheWay(w: World, id: nat, db: Db) {
    && Good(db, w.nextFile + 1, true) && Onward(w, db)
    && (forall i :: i != id && i in w.db.staging ==> i in db.staging && db.staging[i] == w.db.staging[i])
    && (id in db.staging && db.staging[id].status.Committed? ==> w.nextFile in db.marked && w.nextFile !in Where(db).up)
  }

  /** A row that is marked failed and then its file queued; in between the file is held by nothing. */
  lemma FailAndQueue(w: World, id: nat, db: Db, now: int)
    requires OnTheWay(w, id, db) && id in db.staging && !Terminal(db.staging[id])
    requires Where(db).active + Where(db).kept + Where(db).queued + Where(db).gone !! {w.nextFile}
    requires FileOf(db.staging, id) == Where(db).up * {w.nextFile} == db.marked * {w.nextFile}
    ensures var failed := Apply(db, MarkFailed(id), now);
            var queued := Apply(failed, Enqueue(w.nextFile), now);
            && OnTheWay(w, id, failed) && OnTheWay(w, id, queued)
            && (NothingLeaked(Where(db)) ==>
                  (NothingLeaked(Where(failed)) <==> FileOf(db.staging, id) == {}) && NothingLeaked(Where(queued)))
  {
    hide UploadedFiles, ActiveFiles, VersionFiles, QueuedFiles, OneRow, OneKey, Below, Shaped, FileOf, Apart;
    MarkFailedKeeps(db, id, now, w.nextFile + 1, true);
    EnqueueKeeps(Apply(db, MarkFailed(id), now), w.nextFile, now, w.nextFile + 1, true);
  }

  /** The branch of a finished upload whose commit goes through. */
  lemma FinishCommits(w: World, id: nat, db: Db, versioning: Versioning, version: Version, now: int)
    requires OnTheWay(w, id, db) && Ready(db.staging, id) && FileOf(db.staging, id) == {w.nextFile} <= db.marked
    ensures var done := Apply(db, Commit(id, versioning, version), now);
            && OnTheWay(w, id, done)
            && (NothingLeaked(Where(db)) ==> (NothingLeaked(Where(done)) <==> !SlotTaken(db, id, versioning)))
  {
    hide UploadedFiles, ActiveFiles, VersionFiles, QueuedFiles, OneRow, OneKey, Below, CommitRow, SlotTaken, Shaped;
    hide FileOf, Apart, NothingLeaked;
    CommitKeeps(db, id, versioning, version, now, w.nextFile + 1);
  }

  /** Recording the uploaded file, which nothing held before. */
  lemma FinishMarks(w: World, id: nat, now: int)
    requires Inv(w) && w.up && id in w.live && id in w.db.staging
    ensures var db := Apply(w.db, MarkUploaded(id, w.nextFile), now);
            && OnTheWay(w, id, w.db) && OnTheWay(w, id, db)
            && !Terminal(w.db.staging[id]) && FileOf(w.db.staging, id) == {}
            && Ready(db.staging, id)
            && FileOf(db.staging, id) == {w.nextFile} == Where(db).up * {w.nextFile} <= db.marked
            && w.nextFile !in Held(Where(w.db)) + w.db.marked
            && Where(db).active + Where(db).kept + Where(db).queued + Where(db).gone !! {w.nextFile}
            && (NothingLeaked(Where(w.db)) ==> NothingLeaked(Where(db)))
  {
    hide UploadedFiles, ActiveFiles, VersionFiles, QueuedFiles, OneRow, OneKey, Below, Shaped, Apart;
    FreshFile(w.db, w.nextFile);
    MarkUploadedKeeps(w.db, id, w.nextFile, now, w.nextFile + 1, true);
  }

  lemma FinishWrites(w: World, e: Event)
    requires e.Finish? && Inv(w) && Possible(w, e)
    ensures var trace := Trace(w, e);
            var k := if e.cut < |trace| then e.cut else |trace|;
            && |trace| <= 3
            && var db := AfterFew(w.db, trace, k, e.now);
               && OnTheWay(w, e.id, db)
               && (NothingLeaked(Where(w.db)) ==> (NothingLeaked(Where(db)) <==> !Leaks(w, e)))
  {
    hide Where, OnTheWay, NothingLeaked, SlotTaken, FileOf, CanCommit, Good, Apply;
    var id, now := e.id, e.now;
    FinishMarks(w, id, now);
    if !e.verified {
      NotRecorded(w);
      FailAndQueue(w, id, w.db, now);
    } else {
      var db := Apply(w.db, MarkUploaded(id, w.nextFile), now);
      if !e.refused && CanCommit(db, id, e.ifAbsent) {
        FinishCommits(w, id, db, e.versioning, e.version, now);
      } else {
        FailAndQueue(w, id, db, now);
      }
    }
  }

  lemma NotRecorded(w: World)
    requires w.nextFile !in Held(Where(w.db)) + w.db.marked
    ensures var p := Where(w.db);
            && p.active + p.kept + p.queued + p.gone !! {w.nextFile}
            && p.up * {w.nextFile} == w.db.marked * {w.nextFile} == {}
  {
  }

  lemma ResumeWrites(w: World, e: Event)
    requires e.Resume? && Inv(w) && Possible(w, e)
    ensures var trace := Trace(w, e);
            var k := if e.cut < |trace| then e.cut else |trace|;
            && |trace| <= 3
            && var db := AfterFew(w.db, trace, k, e.now);
               && (Spared(Where(db)) <==> !QueuesHeld(w, e))
               && (!QueuesHeld(w, e) ==>
                     && Good(db, w.nextFile, true)
                     && Onward(w, db)
                     && (NothingLeaked(Where(w.db)) ==> (NothingLeaked(Where(db)) <==> !Leaks(w, e))))
               && (forall i :: i != e.id && i in w.db.staging ==> i in db.staging && db.staging[i] == w.db.staging[i])
  {
    hide UploadedFiles, ActiveFiles, VersionFiles, QueuedFiles, OneRow, OneKey, CommitRow, Shaped;
    var now, id, n := e.now, e.id, w.nextFile;
    Owned(w.db.staging, id);
    match w.db.staging[id].status {
      case Committed =>
      case Failed =>
        DeleteRowKeeps(w.db, id, now, n, true);
      case Uploading =>
        MarkFailedKeeps(w.db, id, now, n, true);
        DeleteRowKeeps(Apply(w.db, MarkFailed(id), now), id, now, n, true);
      case Uploaded =>
        ReadyIs(w.db, id);
        var f := w.db.staging[id].file.value;
        if !e.refused && CanCommit(w.db, id, true) {
          ResumeCommits(w, e);
        } else {
          MarkFailedKeeps(w.db, id, now, n, true);
          EnqueueKeeps(Apply(w.db, MarkFailed(id), now), f, now, n, true);
        }
    }
  }

  lemma ReadyIs(db: Db, id: nat)
    requires Shaped(db) && id in db.staging && db.staging[id].status.Uploaded?
    ensures Ready(db.staging, id)
  {
  }

  /** The branch of a resumed item whose commit goes through, and what a throwing mark then does. */
  lemma ResumeCommits(w: World, e: Event)
    requires e.Resume? && Inv(w) && Possible(w, e) && Ready(w.db.staging, e.id)
    requires !e.refused && CanCommit(w.db, e.id, true)
    ensures var trace := Trace(w, e);
            var k := if e.cut < |trace| then e.cut else |trace|;
            && |trace| <= 3
            && var db := AfterFew(w.db, trace, k, e.now);
               && (Spared(Where(db)) <==> !QueuesHeld(w, e))
               && (!QueuesHeld(w, e) ==>
                     && Good(db, w.nextFile, true)
                     && Onward(w, db)
                     && (NothingLeaked(Where(w.db)) ==> NothingLeaked(Where(db))))
               && (forall i :: i != e.id && i in w.db.staging ==> i in db.staging && db.staging[i] == w.db.staging[i])
  {
    hide UploadedFiles, ActiveFiles, VersionFiles, QueuedFiles, OneRow, OneKey, CommitRow, Shaped;
    var now, id, n := e.now, e.id, w.nextFile;
    var f := w.db.staging[id].file.value;
    CommitKeeps(w.db, id, Disabled, Null, now, n);
    var db := Apply(w.db, Commit(id, Disabled, Null), now);
    if e.markThrows {
      var same := Apply(db, MarkFailed(id), now);
      assert same == db;
      FreshId(db);
      EnqueueHeld(db, f, now);
    }
  }

  lemma FreshId(db: Db)
    requires Shaped(db)
    ensures db.nextId !in db.queue && db.nextId !in db.staging
  {
  }

  lemma EnqueueHeld(db: Db, f: File, now: int)
    requires f in Where(db).active + Where(db).kept && db.nextId !in db.queue
    ensures var next := Apply(db, Enqueue(f), now);
            && f in Where(next).active + Where(next).kept && f in Where(next).queued && !Spared(Where(next))
            && next.staging == db.staging
  {
    hide UploadedFiles, ActiveFiles, VersionFiles;
    if Queued(db, f) {
      assert f in QueuedFiles(db.queue);
    } else {
      QueueMoves(db.queue, db.nextId, CleanupRow(f, 0, now));
    }
  }

  /** A queued file may be deleted, and its row dropped after that. */
  lemma DeletedKeeps(db: Db, r: nat, now: int, nextFile: nat)
    requires Good(db, nextFile, true) && r in db.queue
    ensures var deleted := Apply(db, DeleteFile(db.queue[r].file), now);
            var next := Apply(deleted, Complete(r), now);
            && Good(deleted, nextFile, true) && Good(next, nextFile, true)
            && Held(Where(deleted)) == Held(Where(next)) == Held(Where(db))
            && next.marked == deleted.marked == db.marked && next.staging == deleted.staging == db.staging
  {
    hide UploadedFiles, ActiveFiles, VersionFiles, QueuedFiles, OneRow, OneKey;
    QueueHas(db.queue, r);
    CompleteMoves(db.queue, r);
  }

  /** A refused deletion keeps the row, however often it was tried. */
  lemma RetryKeeps(db: Db, r: nat, at: int, now: int, nextFile: nat)
    requires Good(db, nextFile, true) && r in db.queue
    ensures var next := Apply(db, Retry(r, at), now);
            Good(next, nextFile, true) && Where(next) == Where(db) && next.staging == db.staging && r in next.queue
  {
    hide UploadedFiles, ActiveFiles, VersionFiles, QueuedFiles, OneRow, OneKey, Apart, Below;
    var row := db.queue[r];
    RetryMoves(db.queue, r, row.(attempts := row.attempts + 1, nextAttempt := at));
  }

  lemma CleanupWrites(w: World, e: Event)
    requires e.Cleanup? && Inv(w) && Possible(w, e)
    ensures var trace := Trace(w, e);
            var k := if e.cut < |trace| then e.cut else |trace|;
            && |trace| <= 3
            && var db := AfterFew(w.db, trace, k, e.now);
               && Good(db, w.nextFile, true)
               && (NothingLeaked(Where(w.db)) ==> NothingLeaked(Where(db)))
               && db.staging == w.db.staging && db.marked == w.db.marked
  {
    hide UploadedFiles, ActiveFiles, VersionFiles, QueuedFiles, OneRow, OneKey, Apart, Below, Shaped, Held;
    var row := w.db.queue[e.r];
    var at := if row.attempts + 1 >= MAX_ATTEMPTS then e.now + DAY_MS else e.backoff(row.attempts + 1);
    DeletedKeeps(w.db, e.r, e.now, w.nextFile);
    RetryKeeps(w.db, e.r, at, e.now, w.nextFile);
  }

  lemma QueueHas(queue: map<nat, CleanupRow>, r: nat)
    requires r in queue
    ensures queue[r].file in QueuedFiles(queue)
  {
  }

  // ---- Recovery

  ghost predicate Suspect(db: Db, i: nat) {
    Ready(db.staging, i) && db.staging[i].file.value in QueuedFiles(db.queue)
  }

  /** Every other row is as it was, and so is the namespace. */
  ghost predicate OthersSame(db: Db, next: Db, id: nat) {
    && next.objects == db.objects
    && forall i :: i != id ==>
         (i in next.staging <==> i in db.staging) && (i in db.staging ==> next.staging[i] == db.staging[i])
  }

  /** What recovery of one row keeps, half-way and when done with it. */
  ghost predicate RowDone(db: Db, mid: Db, done: Db, id: nat, nextFile: nat) {
    && Good(mid, nextFile, false) && Good(done, nextFile, false)
    && (forall i :: Suspect(mid, i) ==> i == id) && (forall i :: !Suspect(done, i))
    && OthersSame(db, done, id) && id in done.staging && Terminal(done.staging[id])
    && (NothingLeaked(Where(db)) ==> NothingLeaked(Where(mid)) && NothingLeaked(Where(done)))
  }

  lemma RecoverEmpty(db: Db, id: nat, now: int, nextFile: nat)
    requires Good(db, nextFile, false) && id in db.staging && !Terminal(db.staging[id])
    requires (forall i :: Suspect(db, i) ==> i == id) && db.staging[id].file.None?
    ensures var done := Apply(db, MarkFailed(id), now);
            RowDone(db, done, done, id, nextFile)
  {
    hide UploadedFiles, ActiveFiles, VersionFiles, QueuedFiles, OneRow, OneKey, Below;
    MarkFailedKeeps(db, id, now, nextFile, false);
    var done := Apply(db, MarkFailed(id), now);
    forall i ensures !Suspect(done, i) {
      assert Suspect(done, i) ==> Suspect(db, i);
    }
  }

  lemma RecoverFile(db: Db, id: nat, now: int, nextFile: nat)
    requires Good(db, nextFile, false) && id in db.staging && !Terminal(db.staging[id])
    requires (forall i :: Suspect(db, i) ==> i == id) && Ready(db.staging, id)
    ensures var mid := Apply(db, Enqueue(db.staging[id].file.value), now);
            var done := Apply(mid, MarkFailed(id), now);
            mid.staging == db.staging && RowDone(db, mid, done, id, nextFile)
  {
    hide UploadedFiles, ActiveFiles, VersionFiles, QueuedFiles, OneKey, Below;
    Owned(db.staging, id);
    var f := db.staging[id].file.value;
    KnownFile(db, nextFile, f);
    EnqueueKeeps(db, f, now, nextFile, false);
    var mid := Apply(db, Enqueue(f), now);
    MarkFailedKeeps(mid, id, now, nextFile, false);
    var done := Apply(mid, MarkFailed(id), now);
    forall i | Suspect(mid, i) ensures i == id {
      assert db.staging[i].file.value != f ==> Suspect(db, i);
    }
    forall i ensures !Suspect(done, i) {
      assert Suspect(done, i) ==> Suspect(mid, i);
    }
  }

  /** An unsettled row's file is never the active one: recovery's first case for a file cannot arise. */
  lemma NeverFinalized(db: Db, id: nat, nextFile: nat, settled: bool)
    requires Good(db, nextFile, settled) && Ready(db.staging, id)
    ensures !(db.staging[id].key in db.objects && db.objects[db.staging[id].key].file == db.staging[id].file.value)
    ensures RecoverRow(db, id) == [Enqueue(db.staging[id].file.value), MarkFailed(id)]
  {
    hide UploadedFiles, ActiveFiles, VersionFiles, QueuedFiles, OneRow, OneKey, Below;
    Owned(db.staging, id);
    ActiveAt(db.objects, db.staging[id].key);
  }

  /** One row: its file is queued before it is marked failed. */
  lemma RecoverOne(db: Db, id: nat, now: int, nextFile: nat)
    requires Good(db, nextFile, false) && id in db.staging && !Terminal(db.staging[id])
    requires forall i :: Suspect(db, i) ==> i == id
    ensures var writes := RecoverRow(db, id);
            && 1 <= |writes| <= 2
            && (|writes| == 2 ==> Apply(db, writes[0], now).staging == db.staging)
            && RowDone(db, Apply(db, writes[0], now), AfterFew(db, writes, |writes|, now), id, nextFile)
  {
    hide Apply, RowDone, Suspect, NothingLeaked, Apart, Below, OneRow, OneKey;
    if db.staging[id].file.None? {
      RecoverEmpty(db, id, now, nextFile);
    } else {
      NonTerminalReady(db, id);
      NeverFinalized(db, id, nextFile, false);
      RecoverFile(db, id, now, nextFile);
    }
  }

  lemma NonTerminalReady(db: Db, id: nat)
    requires Shaped(db) && id in db.staging && !Terminal(db.staging[id]) && db.staging[id].file.Some?
    ensures Ready(db.staging, id) && db.staging[id].file.value in FileOf(db.staging, id)
  {
  }

  lemma KnownFile(db: Db, nextFile: nat, f: File)
    requires Good(db, nextFile, false) && f in Where(db).up
    ensures f < nextFile
  {
  }

  /** The rows that recovery has still to look at: stale, oldest first, and before all other unsettled rows. */
  ghost predicate StaleHead(staging: map<nat, Row>, cutoff: int, ids: seq<nat>) {
    && (forall k :: 0 <= k < |ids| ==> Stale(staging, ids[k], cutoff))
    && (forall j, k :: 0 <= j < k < |ids| ==> Before(staging, ids[j], ids[k]))
    && (forall k, i :: 0 <= k < |ids| && i in staging && !Terminal(staging[i]) && i !in ids ==>
          Before(staging, ids[k], i))
  }

  lemma ListIsHead(staging: map<nat, Row>, cutoff: int, limit: nat, ids: seq<nat>)
    requires IsStaleList(staging, cutoff, limit, ids)
    ensures StaleHead(staging, cutoff, ids)
  {
    forall k, i | 0 <= k < |ids| && i in staging && !Terminal(staging[i]) && i !in ids
      ensures Before(staging, ids[k], i)
    {
      assert Stale(staging, ids[k], cutoff);
      if Stale(staging, i, cutoff) {
      }
    }
  }

  lemma InRest(ids: seq<nat>, i: nat)
    requires ids != []
    ensures i in ids <==> i == ids[0] || i in ids[1..]
  {
    assert ids == [ids[0]] + ids[1..];
  }

  lemma HeadRest(db: Db, done: Db, cutoff: int, ids: seq<nat>)
    requires ids != [] && StaleHead(db.staging, cutoff, ids)
    requires OthersSame(db, done, ids[0]) && ids[0] in done.staging && Terminal(done.staging[ids[0]])
    ensures StaleHead(done.staging, cutoff, ids[1..])
    ensures ids[0] !in ids[1..]
  {
    var rest := ids[1..];
    assert forall k :: 0 <= k < |rest| ==> rest[k] == ids[k + 1];
    forall k | 0 <= k < |rest| ensures rest[k] != ids[0] {
      assert Before(db.staging, ids[0], ids[k + 1]);
    }
    forall i | i in rest ensures i in ids {
    }
    forall k, i | 0 <= k < |rest| && i in done.staging && !Terminal(done.staging[i]) && i !in rest
      ensures Before(done.staging, rest[k], i)
    {
      assert i != ids[0];
      InRest(ids, i);
      assert i !in ids;
      assert Before(db.staging, ids[k + 1], i);
    }
  }

  lemma {:induction false} TraceSame(db: Db, done: Db, ids: seq<nat>, id: nat)
    requires OthersSame(db, done, id) && id !in ids && forall i :: i in ids ==> i in db.staging
    ensures forall i :: i in ids ==> i in done.staging
    ensures RecoverTrace(done, ids) == RecoverTrace(db, ids)
  {
    if ids != [] {
      TraceSame(db, done, ids[1..], id);
    }
  }

  lemma HeadSuspects(db: Db, cutoff: int, ids: seq<nat>)
    requires ids != [] && StaleHead(db.staging, cutoff, ids) && forall i :: Suspect(db, i) ==> i == ids[0]
    ensures Suspects(db, cutoff)
  {
    hide QueuedFiles;
    forall i | Ready(db.staging, i) && db.staging[i].file.value in QueuedFiles(db.queue)
      ensures db.staging[i].updatedAt < cutoff
      ensures forall j :: j in db.staging && !Terminal(db.staging[j]) && j != i ==> Before(db.staging, i, j)
    {
      assert Suspect(db, i);
      assert Stale(db.staging, ids[0], cutoff);
      forall j | j in db.staging && !Terminal(db.staging[j]) && j != i ensures Before(db.staging, i, j) {
        if j in ids {
          var k :| 0 <= k < |ids| && ids[k] == j;
        }
      }
    }
  }

  lemma CutConcat(a: seq<Write>, b: seq<Write>, cut: nat)
    ensures cut < |a| ==> Cut(a + b, cut) == Cut(a, cut)
    ensures cut >= |a| ==> Cut(a + b, cut) == a + Cut(b, cut - |a|)
  {
    if cut < |a| {
      assert (a + b)[..cut] == a[..cut];
    }
  }

  /**
   * Recovery, cut at any write: when it completes nothing is both queued and
   * unsettled, and until then only the row it stopped at may be.
   */
  lemma {:induction false} RecoverRun(db: Db, ids: seq<nat>, cutoff: int, now: int, nextFile: nat, cut: nat)
    requires Good(db, nextFile, false) && StaleHead(db.staging, cutoff, ids)
    requires forall i :: Suspect(db, i) ==> ids != [] && i == ids[0]
    ensures var trace := RecoverTrace(db, ids);
            var out := ApplyAll(db, Cut(trace, cut), now);
            && Good(out, nextFile, cut >= |trace|)
            && (cut < |trace| ==> Suspects(out, cutoff))
            && (NothingLeaked(Where(db)) ==> NothingLeaked(Where(out)))
    decreases |ids|
  {
    hide Good, Apply, StaleHead, Suspect, NothingLeaked, Suspects, OthersSame, RecoverRow, Stale;
    HeadStale(db.staging, cutoff, ids);
    if ids == [] {
      SettledNow(db, nextFile);
      assert Cut([], cut) == [];
    } else {
      var id := ids[0];
      var first, rest := RecoverRow(db, id), RecoverTrace(db, ids[1..]);
      RecoverOne(db, id, now, nextFile);
      FewWrites(db, first, cut, now);
      CutConcat(first, rest, cut);
      if cut < |first| {
        HeadSuspects(db, cutoff, ids);
        if cut == 1 {
          HeadSuspects(Apply(db, first[0], now), cutoff, ids);
        }
      } else {
        var done := AfterFew(db, first, |first|, now);
        FewWrites(db, first, |first|, now);
        HeadRest(db, done, cutoff, ids);
        TraceSame(db, done, ids[1..], id);
        ApplyConcat(db, first, Cut(rest, cut - |first|), now);
        RecoverRun(done, ids[1..], cutoff, now, nextFile, cut - |first|);
      }
    }
  }

  lemma HeadStale(staging: map<nat, Row>, cutoff: int, ids: seq<nat>)
    requires StaleHead(staging, cutoff, ids)
    ensures forall i :: i in ids ==> i in staging && !Terminal(staging[i])
  {
  }

  lemma SettledNow(db: Db, nextFile: nat)
    requires Good(db, nextFile, false) && forall i :: !Suspect(db, i)
    ensures Good(db, nextFile, true)
  {
    hide OneRow, OneKey, Below;
    forall f | f in UploadedFiles(db.staging) ensures f !in QueuedFiles(db.queue) {
      var i :| i in db.staging && Ready(db.staging, i) && db.staging[i].file.value == f;
      assert !Suspect(db, i);
    }
  }

  // ---- Every run

  lemma NotYetClosing(w: World)
    requires Inv(w)
    ensures w.nextFile !in w.closing
  {
  }

  /** What is left to show of an event while up: its tables are sound and the live rows are untouched. */
  lemma UpEvent(w: World, e: Event)
    requires Inv(w) && Possible(w, e) && w.up
    requires var next := Step(w, e); Good(next.db, next.nextFile, true)
    requires var next := Step(w, e);
             next.up ==> forall id :: id in next.live ==> id in next.db.staging && next.db.staging[id].status.Uploading?
    requires var next := Step(w, e);
             && Onward(w, next.db)
             && (w.nextFile in next.closing ==> w.nextFile in next.db.marked && w.nextFile !in Where(next.db).up)
    ensures Inv(Step(w, e))
  {
    hide Good, Suspects, Trace, ApplyAll;
    var next := Step(w, e);
    NotYetClosing(w);
    if !next.up {
      CrashIsSafe(next.db, next.nextFile, next.cutoff);
    }
  }

  lemma ApartMeans(db: Db, nextFile: nat, settled: bool)
    requires Good(db, nextFile, settled)
    ensures Spared(Where(db))
  {
  }

  lemma FinishOutcome(w: World, e: Event)
    requires e.Finish? && Inv(w) && Possible(w, e)
    ensures Outcomes(w, e)
  {
    hide Good, Suspects, AfterFew, Leaks, FinishTrace;
    NotYetClosing(w);
    FinishWrites(w, e);
    FewWrites(w.db, Trace(w, e), e.cut, e.now);
    UpEvent(w, e);
    ApartMeans(Step(w, e).db, w.nextFile + 1, true);
  }

  lemma LateOutcome(w: World, e: Event)
    requires e.Late? && Inv(w) && Possible(w, e)
    ensures Outcomes(w, e)
  {
    hide Suspects, OneRow, OneKey, UploadedFiles, ActiveFiles, VersionFiles;
    FewWrites(w.db, [Enqueue(e.file)], e.cut, e.now);
    FreshId(w.db);
    if e.file in Where(w.db).active + Where(w.db).kept {
      EnqueueHeld(w.db, e.file, e.now);
    } else {
      EnqueueKeeps(w.db, e.file, e.now, w.nextFile, true);
    }
    if !QueuesHeld(w, e) {
      UpEvent(w, e);
    }
  }

  lemma ResumeOutcome(w: World, e: Event)
    requires e.Resume? && Inv(w) && Possible(w, e)
    ensures Outcomes(w, e)
  {
    hide Good, Suspects, AfterFew, Leaks, ResumeTrace, QueuesHeld;
    NotYetClosing(w);
    ResumeWrites(w, e);
    FewWrites(w.db, Trace(w, e), e.cut, e.now);
    if !QueuesHeld(w, e) {
      UpEvent(w, e);
    }
  }

  lemma CleanupOutcome(w: World, e: Event)
    requires e.Cleanup? && Inv(w) && Possible(w, e)
    ensures Outcomes(w, e)
  {
    hide Good, Suspects, AfterFew, CleanupTrace;
    CleanupWrites(w, e);
    FewWrites(w.db, Trace(w, e), e.cut, e.now);
    UpEvent(w, e);
    ApartMeans(Step(w, e).db, w.nextFile, true);
  }

  lemma SingleWriteOutcome(w: World, e: Event)
    requires (e.Start? || e.Fail? || e.Remove?) && Inv(w) && Possible(w, e)
    ensures Outcomes(w, e)
  {
    hide Suspects, Apart, Below, OneRow, OneKey;
    FewWrites(w.db, Trace(w, e), CutOf(e, 1), NowOf(e));
    match e {
      case Start(request, key, now) => InsertKeeps(w.db, request, key, now, w.nextFile, true);
      case Fail(id, now, _) => FailKeeps(w, e);
      case Remove(key, now) => RemoveKeeps(w.db, key, now, w.nextFile);
    }
    UpEvent(w, e);
    ApartMeans(Step(w, e).db, w.nextFile, true);
  }

  lemma FailKeeps(w: World, e: Event)
    requires e.Fail? && Inv(w) && Possible(w, e)
    ensures var next := Apply(w.db, MarkFailed(e.id), e.now);
            && Good(next, w.nextFile, true) && Where(next) == Where(w.db)
            && forall i :: i != e.id && i in w.db.staging ==> i in next.staging && next.staging[i] == w.db.staging[i]
  {
    hide UploadedFiles, ActiveFiles, VersionFiles, QueuedFiles, OneRow, OneKey;
    MarkFailedKeeps(w.db, e.id, e.now, w.nextFile, true);
    assert Where(w.db).up - FileOf(w.db.staging, e.id) == Where(w.db).up;
  }

  lemma StartupOutcome(w: World, e: Event)
    requires e.Startup? && Inv(w) && Possible(w, e)
    ensures Outcomes(w, e)
  {
    hide Good, Apply, IsStaleList, StaleHead;
    ListIsHead(w.db.staging, e.cutoff, e.limit, e.ids);
    FirstSuspect(w, e);
    RecoverRun(w.db, e.ids, e.cutoff, e.now, w.nextFile, e.cut);
    ApartMeans(Step(w, e).db, w.nextFile, e.cut >= |Trace(w, e)|);
  }

  /** A row that a crashed recovery left queued is the first of the next one's rows. */
  lemma FirstSuspect(w: World, e: Event)
    requires e.Startup? && Inv(w) && Possible(w, e)
    ensures forall i :: Suspect(w.db, i) ==> e.ids != [] && i == e.ids[0]
  {
    hide Good, QueuedFiles;
    forall i | Suspect(w.db, i) ensures e.ids != [] && i == e.ids[0] {
      assert Stale(w.db.staging, i, e.cutoff);
      if i !in e.ids {
        assert Before(w.db.staging, e.ids[0], i);
        assert Stale(w.db.staging, e.ids[0], e.cutoff);
      } else {
        var k :| 0 <= k < |e.ids| && e.ids[k] == i;
        if k > 0 {
          assert Before(w.db.staging, e.ids[0], e.ids[k]);
          assert Stale(w.db.staging, e.ids[0], e.cutoff);
        }
      }
    }
  }

  lemma CrashOutcome(w: World, e: Event)
    requires e.Crash? && Inv(w)
    ensures Outcomes(w, e)
  {
    hide Good, Suspects;
    assert Cut(Trace(w, e), CutOf(e, 0)) == [];
    assert Step(w, e).db == w.db;
    if w.up {
      CrashIsSafe(w.db, w.nextFile, w.cutoff);
    }
    ApartMeans(w.db, w.nextFile, w.up);
  }

  /**
   * Every event, cut at any write, from a sound state: the file of an active object
   * or of a kept version is queued if and only if the event is a resumed import
   * whose mark throws after its commit, or a later step that throws after the commit
   * of an object still there; otherwise the state stays sound, and a recorded file
   * is lost if and only if the event is one that leaks.
   */
  lemma EventOutcome(w: World, e: Event)
    requires Inv(w) && Possible(w, e)
    ensures Outcomes(w, e)
  {
    hide Outcomes, Inv, Possible;
    match e {
      case Finish(_, _, _, _, _, _, _, _, _) => FinishOutcome(w, e);
      case Late(_, _, _) => LateOutcome(w, e);
      case Resume(_, _, _, _, _) => ResumeOutcome(w, e);
      case Cleanup(_, _, _, _, _) => CleanupOutcome(w, e);
      case Startup(_, _, _, _, _) => StartupOutcome(w, e);
      case Crash => CrashOutcome(w, e);
      case Start(_, _, _) => SingleWriteOutcome(w, e);
      case Fail(_, _, _) => SingleWriteOutcome(w, e);
      case Remove(_, _) => SingleWriteOutcome(w, e);
    }
  }

  const EMPTY := Db(map[], map[], map[], map[], 0, {}, {}, multiset{})
  const BEGIN := World(EMPTY, true, {}, {}, 0, 0)

  /** A run: each event possible where it happens. */
  ghost predicate Runs(w: World, events: seq<Event>)
    decreases |events|
  {
    events == [] || (Possible(w, events[0]) && Runs(Step(w, events[0]), events[1..]))
  }

  ghost function After(w: World, events: seq<Event>): World
    requires Runs(w, events)
    decreases |events|
  {
    if events == [] then w else After(Step(w, events[0]), events[1..])
  }

  ghost predicate Ever(w: World, events: seq<Event>, what: (World, Event) -> bool)
    requires Runs(w, events)
    decreases |events|
  {
    events != [] && (what(w, events[0]) || Ever(Step(w, events[0]), events[1..], what))
  }

  /**
   * In every run without those two events, no file in the cleanup queue is ever an
   * active object's or a kept version's, and none that was deleted is either.
   */
  lemma {:induction false} NoActiveFileQueued(w: World, events: seq<Event>)
    requires Inv(w) && Runs(w, events) && !Ever(w, events, (v, e) => QueuesHeld(v, e))
    ensures Inv(After(w, events))
    ensures var p := Where(After(w, events).db);
            p.active !! p.queued && p.active !! p.gone && p.kept !! p.queued && p.kept !! p.gone
    decreases |events|
  {
    hide QueuesHeld, Possible, Step;
    if events != [] {
      EventOutcome(w, events[0]);
      NoActiveFileQueued(Step(w, events[0]), events[1..]);
    }
  }

  /** If the run also has no leaking event, every recorded file is held until it is deleted. */
  lemma {:induction false} NoFileLost(w: World, events: seq<Event>)
    requires Inv(w) && NothingLeaked(Where(w.db)) && Runs(w, events)
    requires !Ever(w, events, (v, e) => QueuesHeld(v, e)) && !Ever(w, events, (v, e) => Leaks(v, e))
    ensures NothingLeaked(Where(After(w, events).db))
    decreases |events|
  {
    hide QueuesHeld, Leaks, Possible, Step, Inv;
    if events != [] {
      EventOutcome(w, events[0]);
      NoFileLost(Step(w, events[0]), events[1..]);
    }
  }

  lemma BeginIsSound()
    ensures Inv(BEGIN) && NothingLeaked(Where(BEGIN.db)) && Once(BEGIN.db)
  {
  }

  // ---- Keys whose history is kept

  /** The key's current object or one of its versions has the file. */
  ghost predicate HasFile(db: Db, key: Key, f: File) {
    (key in db.objects && db.objects[key].file == f)
    || exists v :: VersionKey(key, v) in db.versions && db.versions[VersionKey(key, v)] == f
  }

  /** The event commits to the key with versioning enabled, if at all, into a free slot, and does not remove it. */
  ghost predicate Retains(w: World, e: Event, key: Key) {
    match e
    case Finish(id, _, _, _, versioning, _, _, _, _) =>
      id in w.db.staging && w.db.staging[id].key == key && key in w.db.objects ==>
        versioning.Enabled? && VersionKey(key, w.db.objects[key].version) !in w.db.versions
    case Remove(k, _) => k != key
    case _ => true
  }

  predicate Aside(w: Write) { !w.Commit? && !w.RemoveObject? }

  lemma AsideKeeps(db: Db, w: Write, now: int)
    requires Aside(w)
    ensures Apply(db, w, now).objects == db.objects && Apply(db, w, now).versions == db.versions
  {
  }

  lemma {:induction false} AllAside(db: Db, ws: seq<Write>, now: int)
    requires forall w :: w in ws ==> Aside(w)
    ensures ApplyAll(db, ws, now).objects == db.objects && ApplyAll(db, ws, now).versions == db.versions
    decreases |ws|
  {
    hide Apply;
    if ws != [] {
      assert ws[0] in ws;
      AsideKeeps(db, ws[0], now);
      AllAside(Apply(db, ws[0], now), ws[1..], now);
    }
  }

  /** A commit to another key, to a free key, or with versioning enabled and a free slot. */
  lemma CommitRetains(db: Db, id: nat, versioning: Versioning, version: Version, now: int, key: Key, f: File)
    requires Ready(db.staging, id) && HasFile(db, key, f) && db.nextId !in db.queue
    requires db.staging[id].key == key && key in db.objects ==>
               versioning.Enabled? && VersionKey(key, db.objects[key].version) !in db.versions
    ensures HasFile(Apply(db, Commit(id, versioning, version), now), key, f)
  {
    hide Apply;
    CommitPlaces(db, id, versioning, version, now);
    var next := Apply(db, Commit(id, versioning, version), now);
    if key in db.objects && db.objects[key].file == f {
      if db.staging[id].key == key {
        assert VersionKey(key, db.objects[key].version) in next.versions;
      }
    } else {
      var v :| VersionKey(key, v) in db.versions && db.versions[VersionKey(key, v)] == f;
      assert VersionKey(key, v) in next.versions && next.versions[VersionKey(key, v)] == f;
    }
  }

  lemma {:induction false} RecoverAside(db: Db, ids: seq<nat>)
    requires forall id :: id in ids ==> id in db.staging
    ensures forall w :: w in RecoverTrace(db, ids) ==> Aside(w)
  {
    if ids != [] {
      RecoverAside(db, ids[1..]);
    }
  }

  lemma SameNamespace(db: Db, next: Db, key: Key, f: File)
    requires HasFile(db, key, f) && next.objects == db.objects && next.versions == db.versions
    ensures HasFile(next, key, f)
  {
  }

  lemma EventRetains(w: World, e: Event, key: Key, f: File)
    requires Possible(w, e) && Shaped(w.db) && Retains(w, e, key) && HasFile(w.db, key, f)
    ensures HasFile(Step(w, e).db, key, f)
  {
    hide Apply, HasFile;
    var trace := Trace(w, e);
    var cut := CutOf(e, |trace|);
    if e.Startup? {
      RecoverAside(w.db, e.ids);
    }
    if forall x :: x in trace ==> Aside(x) {
      assert forall x :: x in Cut(trace, cut) ==> x in trace;
      AllAside(w.db, Cut(trace, cut), NowOf(e));
      SameNamespace(w.db, Step(w, e).db, key, f);
    } else {
      FewWrites(w.db, trace, cut, NowOf(e));
      FreshId(w.db);
      match e {
        case Remove(k, now) => RemoveRetains(w.db, k, now, key, f);
        case Finish(_, _, _, _, _, _, _, _, _) => FinishRetains(w, e, key, f);
        case Resume(_, _, _, _, _) => ResumeRetains(w, e, key, f);
      }
    }
  }

  lemma RemoveRetains(db: Db, k: Key, now: int, key: Key, f: File)
    requires k != key && HasFile(db, key, f)
    ensures HasFile(Apply(db, RemoveObject(k), now), key, f)
  {
  }

  lemma MarkShaped(db: Db, id: nat, file: File, now: int)
    requires Shaped(db)
    ensures var next := Apply(db, MarkUploaded(id, file), now);
            && next.nextId !in next.queue && next.objects == db.objects && next.versions == db.versions
            && (id in next.staging ==> id in db.staging && next.staging[id].key == db.staging[id].key)
  {
  }

  lemma FinishRetains(w: World, e: Event, key: Key, f: File)
    requires e.Finish? && Possible(w, e) && Shaped(w.db) && Retains(w, e, key) && HasFile(w.db, key, f)
    requires exists x :: x in Trace(w, e) && !Aside(x)
    ensures var trace := Trace(w, e);
            && |trace| <= 3
            && HasFile(AfterFew(w.db, trace, if e.cut < |trace| then e.cut else |trace|, e.now), key, f)
  {
    hide Apply, HasFile;
    var db := Apply(w.db, MarkUploaded(e.id, w.nextFile), e.now);
    MarkShaped(w.db, e.id, w.nextFile, e.now);
    SameNamespace(w.db, db, key, f);
    CommitRetains(db, e.id, e.versioning, e.version, e.now, key, f);
  }

  lemma ResumeRetains(w: World, e: Event, key: Key, f: File)
    requires e.Resume? && Possible(w, e) && Shaped(w.db) && HasFile(w.db, key, f)
    requires exists x :: x in Trace(w, e) && !Aside(x)
    ensures var trace := Trace(w, e);
            && |trace| <= 3
            && HasFile(AfterFew(w.db, trace, if e.cut < |trace| then e.cut else |trace|, e.now), key, f)
  {
    hide Apply, HasFile;
    FreshId(w.db);
    CommitRetains(w.db, e.id, Disabled, Null, e.now, key, f);
    var db := Apply(w.db, Commit(e.id, Disabled, Null), e.now);
    var failed := Apply(db, MarkFailed(e.id), e.now);
    AsideKeeps(db, MarkFailed(e.id), e.now);
    SameNamespace(db, failed, key, f);
    var file := w.db.staging[e.id].file.value;
    AsideKeeps(failed, Enqueue(file), e.now);
    SameNamespace(failed, Apply(failed, Enqueue(file), e.now), key, f);
  }

  ghost predicate AllRetain(w: World, events: seq<Event>, key: Key)
    requires Runs(w, events)
    decreases |events|
  {
    events == [] || (Retains(w, events[0], key) && AllRetain(Step(w, events[0]), events[1..], key))
  }

  lemma WriteShaped(db: Db, w: Write, now: int)
    requires Shaped(db)
    ensures Shaped(Apply(db, w, now))
  {
    hide CommitRow, Queued;
    if w.Commit? && Ready(db.staging, w.id) {
      CommitFrame(db, w.id, w.versioning, w.version, now);
    }
  }

  lemma {:induction false} AllShaped(db: Db, ws: seq<Write>, now: int)
    requires Shaped(db)
    ensures Shaped(ApplyAll(db, ws, now))
    decreases |ws|
  {
    hide Apply, Shaped;
    if ws != [] {
      WriteShaped(db, ws[0], now);
      AllShaped(Apply(db, ws[0], now), ws[1..], now);
    }
  }

  /**
   * While every commit to a key has versioning enabled and finds a free slot, and the
   * key is not removed, every file ever committed there stays its object's or one of
   * its versions', whatever else happens.
   */
  lemma {:induction false} HistoryKept(w: World, events: seq<Event>, key: Key, f: File)
    requires Shaped(w.db) && Runs(w, events) && AllRetain(w, events, key) && HasFile(w.db, key, f)
    ensures HasFile(After(w, events).db, key, f)
    decreases |events|
  {
    hide Possible, Retains, HasFile, Shaped, Apply, Trace;
    if events != [] {
      var trace := Trace(w, events[0]);
      AllShaped(w.db, Cut(trace, CutOf(events[0], |trace|)), NowOf(events[0]));
      EventRetains(w, events[0], key, f);
      HistoryKept(Step(w, events[0]), events[1..], key, f);
    }
  }

  // ---- One commit for each request

  /** Each request has one row at most, and one commit at most, whose row is still there. */
  ghost predicate Once(db: Db) {
    && (forall i :: i in db.staging ==> i < db.nextId)
    && (forall i, j :: i in db.staging && j in db.staging && db.staging[i].request == db.staging[j].request ==> i == j)
    && (forall q: Request :: db.commits[q] <= 1)
    && (forall q: Request :: q in db.commits ==> HasCommitted(db.staging, q))
  }

  ghost predicate HasCommitted(staging: map<nat, Row>, q: Request) {
    exists i :: i in staging && staging[i].request == q && staging[i].status.Committed?
  }

  /** What a write must respect: a new row takes an unused request, and a committed row stays. */
  ghost predicate Respects(db: Db, w: Write) {
    match w
    case Insert(request, _) => forall i :: i in db.staging ==> db.staging[i].request != request
    case DeleteRow(id) => id in db.staging ==> !db.staging[id].status.Committed?
    case _ => true
  }

  lemma WriteOnce(db: Db, w: Write, now: int)
    requires Once(db) && Respects(db, w)
    ensures Once(Apply(db, w, now))
  {
    hide CommitRow, Apply, HasCommitted;
    var next := Apply(db, w, now);
    FrameOf(db, w, now);
    CommittedStay(db, w, next);
    if w.Commit? && Ready(db.staging, w.id) {
      NotYetCommitted(db, w.id);
    }
  }

  /** What every write keeps of the rows. */
  ghost predicate RowsKept(db: Db, w: Write, next: Db) {
    && (forall i :: i in db.staging && i in next.staging ==> next.staging[i].request == db.staging[i].request)
    && (forall i :: i in db.staging && db.staging[i].status.Committed? ==>
          i in next.staging && next.staging[i].status.Committed?)
    && (next.commits == db.commits
        || (w.Commit? && Ready(db.staging, w.id) && w.id in next.staging && next.staging[w.id].status.Committed?
            && next.commits == db.commits + multiset{db.staging[w.id].request}))
  }

  lemma CommittedStay(db: Db, w: Write, next: Db)
    requires RowsKept(db, w, next) && forall q: Request :: q in db.commits ==> HasCommitted(db.staging, q)
    ensures forall q: Request :: q in next.commits ==> HasCommitted(next.staging, q)
  {
    forall q: Request | q in next.commits ensures HasCommitted(next.staging, q) {
      if q in db.commits {
        var i := CommittedRow(db.staging, q);
        assert i in next.staging && next.staging[i].request == q && next.staging[i].status.Committed?;
      } else {
        assert w.Commit? && next.staging[w.id].request == q && next.staging[w.id].status.Committed?;
      }
    }
  }

  lemma SameRowsKept(db: Db, w: Write, next: Db)
    requires next.staging == db.staging && next.commits == db.commits
    ensures RowsKept(db, w, next)
  {
  }

  /** One row moves on, and it was not committed or stays so. */
  lemma OneRowKept(db: Db, w: Write, next: Db, id: nat)
    requires id in db.staging && id in next.staging && next.staging == db.staging[id := next.staging[id]]
    requires next.staging[id].request == db.staging[id].request
    requires db.staging[id].status.Committed? ==> next.staging[id].status.Committed?
    requires next.commits == db.commits
             || (w.Commit? && w.id == id && Ready(db.staging, id) && next.staging[id].status.Committed?
                 && next.commits == db.commits + multiset{db.staging[id].request})
    ensures RowsKept(db, w, next)
  {
  }

  ghost predicate FreshRows(db: Db, w: Write, next: Db) {
    && (forall i :: i in next.staging ==> i < next.nextId)
    && (forall i :: i in next.staging && i !in db.staging ==>
          w == Insert(next.staging[i].request, next.staging[i].key) && i == db.nextId)
  }

  lemma StatusFrame(db: Db, w: Write, now: int)
    requires Once(db) && (w.MarkUploaded? || w.MarkFailed? || w.MarkCommitted?)
    ensures RowsKept(db, w, Apply(db, w, now)) && FreshRows(db, w, Apply(db, w, now))
  {
    hide HasCommitted, RowsKept;
    var next := Apply(db, w, now);
    if next.staging == db.staging {
      SameRowsKept(db, w, next);
    } else {
      OneRowKept(db, w, next, w.id);
    }
  }

  lemma CommitsFrame(db: Db, w: Write, now: int)
    requires Once(db) && w.Commit?
    ensures RowsKept(db, w, Apply(db, w, now)) && FreshRows(db, w, Apply(db, w, now))
  {
    hide HasCommitted, CommitRow, RowsKept;
    var next := Apply(db, w, now);
    if Ready(db.staging, w.id) {
      CommitFrame(db, w.id, w.versioning, w.version, now);
      OneRowKept(db, w, next, w.id);
    } else {
      SameRowsKept(db, w, next);
    }
  }

  lemma InsertOrDeleteFrame(db: Db, w: Write, now: int)
    requires Once(db) && Respects(db, w) && (w.Insert? || w.DeleteRow?)
    ensures RowsKept(db, w, Apply(db, w, now)) && FreshRows(db, w, Apply(db, w, now))
  {
    hide HasCommitted;
  }

  lemma OtherFrame(db: Db, w: Write, now: int)
    requires Once(db)
    requires w.Enqueue? || w.RemoveObject? || w.DeleteFile? || w.Complete? || w.Retry?
    ensures RowsKept(db, w, Apply(db, w, now)) && FreshRows(db, w, Apply(db, w, now))
  {
    hide HasCommitted, RowsKept, Queued;
    SameRowsKept(db, w, Apply(db, w, now));
  }

  /** Requests never change, committed rows stay, and only a commit adds one. */
  lemma FrameOf(db: Db, w: Write, now: int)
    requires Once(db) && Respects(db, w)
    ensures RowsKept(db, w, Apply(db, w, now)) && FreshRows(db, w, Apply(db, w, now))
  {
    hide Once, Apply, RowsKept, FreshRows;
    if w.MarkUploaded? || w.MarkFailed? || w.MarkCommitted? {
      StatusFrame(db, w, now);
    } else if w.Commit? {
      CommitsFrame(db, w, now);
    } else if w.Insert? || w.DeleteRow? {
      InsertOrDeleteFrame(db, w, now);
    } else {
      OtherFrame(db, w, now);
    }
  }

  lemma CommittedRow(staging: map<nat, Row>, q: Request) returns (i: nat)
    requires HasCommitted(staging, q)
    ensures i in staging && staging[i].request == q && staging[i].status.Committed?
  {
    i :| i in staging && staging[i].request == q && staging[i].status.Committed?;
  }

  lemma NotYetCommitted(db: Db, id: nat)
    requires Once(db) && Ready(db.staging, id)
    ensures db.staging[id].request !in db.commits
  {
    hide HasCommitted;
    if db.staging[id].request in db.commits {
      var i := CommittedRow(db.staging, db.staging[id].request);
      assert false;
    }
  }

  predicate Plain(w: Write) { !w.Insert? && !w.DeleteRow? }

  lemma PlainRespects(db: Db, w: Write)
    requires Plain(w)
    ensures Respects(db, w)
  {
  }

  lemma {:induction false} PlainOnce(db: Db, ws: seq<Write>, now: int)
    requires Once(db) && forall w :: w in ws ==> Plain(w)
    ensures Once(ApplyAll(db, ws, now))
    decreases |ws|
  {
    hide Once, Apply;
    if ws != [] {
      assert ws[0] in ws;
      PlainRespects(db, ws[0]);
      WriteOnce(db, ws[0], now);
      PlainOnce(Apply(db, ws[0], now), ws[1..], now);
    }
  }

  lemma {:induction false} RecoverPlain(db: Db, ids: seq<nat>)
    requires forall id :: id in ids ==> id in db.staging
    ensures forall w :: w in RecoverTrace(db, ids) ==> Plain(w)
  {
    if ids != [] {
      RecoverPlain(db, ids[1..]);
    }
  }

  lemma EventOnce(w: World, e: Event)
    requires Once(w.db) && Possible(w, e)
    ensures Once(Step(w, e).db)
  {
    hide Once, Apply;
    var trace := Trace(w, e);
    var done := Cut(trace, CutOf(e, |trace|));
    if e.Startup? {
      RecoverPlain(w.db, e.ids);
    }
    if forall x :: x in trace ==> Plain(x) {
      assert forall x :: x in done ==> x in trace;
      PlainOnce(w.db, done, NowOf(e));
    } else {
      FewWrites(w.db, trace, CutOf(e, |trace|), NowOf(e));
      if e.Start? {
        WriteOnce(w.db, trace[0], e.now);
      } else {
        WriteOnce(w.db, trace[0], e.now);
        if w.db.staging[e.id].status.Uploading? {
          var failed := Apply(w.db, trace[0], e.now);
          FailedNow(w.db, e.id, e.now);
          WriteOnce(failed, trace[1], e.now);
        }
      }
    }
  }

  lemma FailedNow(db: Db, id: nat, now: int)
    requires id in db.staging && db.staging[id].status.Uploading?
    ensures Respects(Apply(db, MarkFailed(id), now), DeleteRow(id))
  {
  }

  /** However often an import item is re-run, and wherever crashes fall, its request commits at most once. */
  lemma {:induction false} CommitsAtMostOnce(w: World, events: seq<Event>, q: Request)
    requires Once(w.db) && Runs(w, events)
    ensures After(w, events).db.commits[q] <= 1
    decreases |events|
  {
    hide Possible, Step;
    if events != [] {
      EventOnce(w, events[0]);
      CommitsAtMostOnce(Step(w, events[0]), events[1..], q);
    }
  }

  // ---- The four ways it goes wrong

  lemma StartStep(w: World, e: Event)
    requires e.Start? && Possible(w, e)
    ensures Step(w, e) == World(Apply(w.db, Insert(e.request, e.key), e.now), true,
                                w.live + {w.db.nextId}, w.closing, w.nextFile, w.cutoff)
  {
    FewWrites(w.db, [Insert(e.request, e.key)], 1, e.now);
  }

  lemma OneEvent(w: World, e: Event)
    requires Possible(w, e)
    ensures Runs(w, [e]) && After(w, [e]) == Step(w, e)
  {
    hide Possible, Step;
    assert [e][1..] == [];
  }

  lemma TwoEvents(w: World, a: Event, b: Event)
    requires Possible(w, a) && Possible(Step(w, a), b)
    ensures Runs(w, [a, b]) && After(w, [a, b]) == Step(Step(w, a), b)
  {
    hide Possible, Step;
    var next := Step(w, a);
    assert [a, b][1..] == [b] && [b][1..] == [];
    assert After(next, [b]) == After(Step(next, b), []) == Step(next, b);
    assert After(w, [a, b]) == After(next, [b]);
  }

  /** A refused upload whose process dies between marking the row failed and queueing the file. */
  lemma CrashLeaks()
    ensures var events := [Start(0, 0, 0), Finish(0, true, true, false, Disabled, Null, false, 0, 2)];
            Runs(BEGIN, events) && !NothingLeaked(Where(After(BEGIN, events).db))
  {
    hide Good, Suspects, Inv, NothingLeaked, Trace;
    var first, second := Start(0, 0, 0), Finish(0, true, true, false, Disabled, Null, false, 0, 2);
    BeginIsSound();
    EventOutcome(BEGIN, first);
    StartStep(BEGIN, first);
    var w := Step(BEGIN, first);
    EventOutcome(w, second);
    TwoEvents(BEGIN, first, second);
  }

  /** A PUT as two events, uncut, in a sound system. */
  ghost predicate CanPut(w: World, request: Request) {
    && Inv(w) && w.up && w.live == {} && NothingLeaked(Where(w.db))
    && forall i :: i in w.db.staging ==> w.db.staging[i].request < request
  }

  function PutEvents(w: World, request: Request, key: Key, versioning: Versioning, version: Version): seq<Event> {
    [Start(request, key, 0), Finish(w.db.nextId, true, false, false, versioning, version, false, 0, 2)]
  }

  ghost function Put(w: World, request: Request, key: Key, versioning: Versioning, version: Version): World
    requires CanPut(w, request)
  {
    PutRuns(w, request, key, versioning, version);
    After(w, PutEvents(w, request, key, versioning, version))
  }

  predicate PutSlotTaken(db: Db, key: Key, versioning: Versioning) {
    && key in db.objects && Archives(db.objects[key], versioning)
    && VersionKey(key, db.objects[key].version) in db.versions
  }

  lemma PutRuns(w: World, request: Request, key: Key, versioning: Versioning, version: Version)
    requires CanPut(w, request)
    ensures var events := PutEvents(w, request, key, versioning, version);
            && Runs(w, events)
            && var next := After(w, events);
               && Inv(next) && next.up && next.live == {}
               && (NothingLeaked(Where(next.db)) <==> !PutSlotTaken(w.db, key, versioning))
               && (forall i :: i in next.db.staging ==> next.db.staging[i].request < request + 1)
               && next.db.objects == w.db.objects[key := Object(w.nextFile, version)]
               && (key in w.db.objects && Archives(w.db.objects[key], versioning)
                   && !PutSlotTaken(w.db, key, versioning) ==>
                     next.db.versions ==
                       w.db.versions[VersionKey(key, w.db.objects[key].version) := w.db.objects[key].file])
               && (key !in w.db.objects ==> next.db.versions == w.db.versions)
  {
    hide Good, Suspects, NothingLeaked, UploadedFiles, ActiveFiles, VersionFiles, QueuedFiles, ApplyAll;
    var first := Start(request, key, 0);
    var second := Finish(w.db.nextId, true, false, false, versioning, version, false, 0, 2);
    FreshRow(w);
    EventOutcome(w, first);
    StartStep(w, first);
    var started := Step(w, first);
    EventOutcome(started, second);
    FewWrites(started.db, Trace(started, second), 2, 0);
    TwoEvents(w, first, second);
  }

  lemma FreshRow(w: World)
    requires Inv(w)
    ensures w.db.nextId !in w.db.staging
  {
  }

  /**
   * A key written before versioning, then with it, then suspended, then with it
   * again: the suspended write's object is kept under a version id that the history
   * has, so its file is lost.
   */
  lemma SecondNullLeaks()
    ensures CanPut(BEGIN, 0)
    ensures var a := Put(BEGIN, 0, 0, Disabled, Null);
            CanPut(a, 1) &&
            var b := Put(a, 1, 0, Enabled, Stamped(0));
            CanPut(b, 2) &&
            var c := Put(b, 2, 0, Suspended, Null);
            CanPut(c, 3) &&
            !NothingLeaked(Where(Put(c, 3, 0, Enabled, Stamped(1)).db))
  {
    hide Good, Suspects, NothingLeaked, Inv, After, Runs;
    BeginIsSound();
    var a := Put(BEGIN, 0, 0, Disabled, Null);
    PutRuns(BEGIN, 0, 0, Disabled, Null);
    var b := Put(a, 1, 0, Enabled, Stamped(0));
    PutRuns(a, 1, 0, Enabled, Stamped(0));
    var c := Put(b, 2, 0, Suspended, Null);
    PutRuns(b, 2, 0, Suspended, Null);
    PutRuns(c, 3, 0, Enabled, Stamped(1));
  }

  /** The file of object 0 that is also in the queue, which the cleanup worker will delete. */
  ghost predicate QueuedWhileActive(db: Db, f: File) { f in Where(db).active && f in Where(db).queued }

  const RECORDED := Apply(Apply(EMPTY, Insert(0, 0), 0), MarkUploaded(0, 0), 0)

  /** An import that crashes after recording its file, and a restart before its row is stale. */
  function CrashedImport(): seq<Event> {
    [Start(0, 0, 0), Finish(0, true, false, true, Disabled, Null, false, 0, 1), Startup([], 0, 1, 0, 0)]
  }

  lemma CrashedImportRuns()
    ensures Runs(BEGIN, CrashedImport()) && After(BEGIN, CrashedImport()) == World(RECORDED, true, {}, {}, 1, 0)
  {
    hide Trace, Step;
    var e0, e1 := Start(0, 0, 0), Finish(0, true, false, true, Disabled, Null, false, 0, 1);
    var e2 := Startup([], 0, 1, 0, 0);
    StartStep(BEGIN, e0);
    var w1 := Step(BEGIN, e0);
    FinishCutAtOne(w1, e1);
    var w2 := Step(w1, e1);
    NoStaleRows(w2, e2);
    TwoEvents(BEGIN, e0, e1);
    OneEvent(w2, e2);
    RunsConcat(BEGIN, [e0, e1], [e2]);
    assert [e0, e1] + [e2] == CrashedImport();
  }

  /** The re-run commits the row but cannot mark the item: the active file is queued. */
  lemma ThrowingMarkQueuesActive()
    ensures var events := CrashedImport() + [Resume(0, false, true, 0, 3)];
            Runs(BEGIN, events) && QueuedWhileActive(After(BEGIN, events).db, 0)
  {
    hide Runs, After;
    var e := Resume(0, false, true, 0, 3);
    CrashedImportRuns();
    var w := After(BEGIN, CrashedImport());
    OneEvent(w, e);
    RunsConcat(BEGIN, CrashedImport(), [e]);
    FewWrites(w.db, [Commit(0, Disabled, Null), MarkFailed(0), Enqueue(0)], 3, 0);
    var row := Row(0, 0, Some(0), Uploaded, 0);
    assert w.db.staging == map[0 := row];
    var committed := Apply(w.db, Commit(0, Disabled, Null), 0);
    assert committed.objects == map[0 := Object(0, Null)] && committed.queue == map[];
    assert Apply(committed, MarkFailed(0), 0) == committed;
    assert Trace(w, e) == [Commit(0, Disabled, Null), MarkFailed(0), Enqueue(0)];
    var db := Step(w, e).db;
    assert db == Apply(committed, Enqueue(0), 0);
    assert db.objects[0].file == 0 && 1 in db.queue && db.queue[1].file == 0;
  }

  /** A copy that commits, and whose next step throws: the active file is queued. */
  lemma LateStepQueuesActive()
    ensures var events := [Start(0, 0, 0), Finish(0, true, false, false, Disabled, Null, true, 0, 2), Late(0, 0, 1)];
            Runs(BEGIN, events) && QueuedWhileActive(After(BEGIN, events).db, 0)
  {
    hide Runs, After;
    var e0, e1 := Start(0, 0, 0), Finish(0, true, false, false, Disabled, Null, true, 0, 2);
    var e2 := Late(0, 0, 1);
    StartStep(BEGIN, e0);
    var w1 := Step(BEGIN, e0);
    FewWrites(w1.db, [MarkUploaded(0, 0), Commit(0, Disabled, Null)], 2, 0);
    var w2 := Step(w1, e1);
    FewWrites(w2.db, [Enqueue(0)], 1, 0);
    var db := Step(w2, e2).db;
    assert db.objects[0].file == 0 && 1 in db.queue && db.queue[1].file == 0;
    TwoEvents(BEGIN, e0, e1);
    OneEvent(w2, e2);
    RunsConcat(BEGIN, [e0, e1], [e2]);
    assert [e0, e1] + [e2] == [e0, e1, e2];
  }

  lemma {:induction false} RunsConcat(w: World, a: seq<Event>, b: seq<Event>)
    requires Runs(w, a) && Runs(After(w, a), b)
    ensures Runs(w, a + b) && After(w, a + b) == After(After(w, a), b)
    decreases |a|
  {
    hide Possible, Step;
    if a == [] {
      assert a + b == b;
    } else {
      assert (a + b)[1..] == a[1..] + b && (a + b)[0] == a[0];
      RunsConcat(Step(w, a[0]), a[1..], b);
    }
  }

  lemma FinishCutAtOne(w: World, e: Event)
    requires e.Finish? && Possible(w, e) && e.verified && e.cut == 1
    ensures Step(w, e) == World(Apply(w.db, MarkUploaded(e.id, w.nextFile), e.now), false, {}, {},
                                w.nextFile + 1, w.cutoff)
  {
    hide CommitRow;
    FewWrites(w.db, Trace(w, e), 1, e.now);
  }

  lemma NoStaleRows(w: World, e: Event)
    requires e.Startup? && Possible(w, e) && e.ids == []
    ensures Step(w, e) == World(w.db, true, w.live, w.closing, w.nextFile, e.cutoff)
  {
  }

  // ---- The services

  lemma {:induction false} RecoverTraceSnoc(db: Db, ids: seq<nat>, id: nat)
    requires id in db.staging && forall i :: i in ids ==> i in db.staging
    ensures forall i :: i in ids + [id] ==> i in db.staging
    ensures RecoverTrace(db, ids + [id]) == RecoverTrace(db, ids) + RecoverRow(db, id)
  {
    hide RecoverRow;
    if ids == [] {
      assert [id][1..] == [];
    } else {
      assert (ids + [id])[1..] == ids[1..] + [id] && (ids + [id])[0] == ids[0];
      RecoverTraceSnoc(db, ids[1..], id);
      Assoc(RecoverRow(db, ids[0]), RecoverTrace(db, ids[1..]), RecoverRow(db, id));
    }
  }

  lemma RecoverTraceConcat(db: Db, a: seq<nat>, b: seq<nat>)
    requires forall i :: i in a + b ==> i in db.staging
    ensures (forall i :: i in a ==> i in db.staging) && (forall i :: i in b ==> i in db.staging)
    ensures RecoverTrace(db, a + b) == RecoverTrace(db, a) + RecoverTrace(db, b)
  {
    hide RecoverRow;
    assert forall i :: i in a ==> i in a + b;
    assert forall i :: i in b ==> i in a + b;
    if a == [] {
      assert a + b == b;
    } else {
      assert (a + b)[1..] == a[1..] + b && (a + b)[0] == a[0];
      RecoverTraceConcat(db, a[1..], b);
      Assoc(RecoverRow(db, a[0]), RecoverTrace(db, a[1..]), RecoverTrace(db, b));
    }
  }

  /** The tables and a process that dies after `budget` more writes. */
  class Gateway {
    var db: Db
    var budget: nat

    constructor (db: Db, budget: nat)
      ensures this.db == db && this.budget == budget
    {
      this.db, this.budget := db, budget;
    }

    method Exec(w: Write, now: int) returns (alive: bool)
      modifies this
      ensures alive == (old(budget) > 0)
      ensures alive ==> db == Apply(old(db), w, now) && budget == old(budget) - 1
      ensures !alive ==> db == old(db) && budget == 0
    {
      alive := budget > 0;
      if alive {
        db, budget := Apply(db, w, now), budget - 1;
      }
    }

    /** `copy` and `upload`, once the bytes are on Drive. */
    method FinishUpload(id: nat, file: File, verified: bool, refused: bool, ifAbsent: bool,
          versioning: Versioning, version: Version, now: int)
      returns (committed: bool)
      modifies this
      ensures var trace := FinishTrace(old(db), id, file, verified, refused, ifAbsent, versioning, version, now);
              && db == ApplyAll(old(db), Cut(trace, old(budget)), now)
              && (committed <==> old(budget) >= 2 && |trace| == 2 && verified)
    {
      hide Apply, CanCommit;
      committed := false;
      FewWrites(db, FinishTrace(db, id, file, verified, refused, ifAbsent, versioning, version, now), budget, now);
      var alive := true;
      if verified {
        alive := Exec(MarkUploaded(id, file), now);
        if !alive {
          return;
        }
        if !refused && CanCommit(db, id, ifAbsent) {
          committed := Exec(Commit(id, versioning, version), now);
          return;
        }
      }
      // The catch block.
      alive := Exec(MarkFailed(id), now);
      if alive {
        alive := Exec(Enqueue(file), now);
      }
    }

    /** The start of `copyItem`, on the row an earlier run of the item left. */
    method ResumeItem(id: nat, refused: bool, markThrows: bool, now: int)
      requires id in db.staging
      modifies this
      ensures db == ApplyAll(old(db), Cut(ResumeTrace(old(db), id, refused, markThrows), old(budget)), now)
    {
      hide Apply, CanCommit;
      var row := db.staging[id];
      FewWrites(db, ResumeTrace(db, id, refused, markThrows), budget, now);
      var alive := true;
      if row.status.Committed? {
        return;
      }
      if row.status.Uploaded? {
        if !refused && CanCommit(db, id, true) {
          alive := Exec(Commit(id, Disabled, Null), now);
          if !alive || !markThrows {
            return;
          }
        }
        alive := Exec(MarkFailed(id), now);
        if alive && row.file.Some? {
          alive := Exec(Enqueue(row.file.value), now);
        }
        return;
      }
      if row.status.Uploading? {
        alive := Exec(MarkFailed(id), now);
      }
      if alive {
        alive := Exec(DeleteRow(id), now);
      }
    }

    method RecoverRowNow(id: nat, now: int) returns (alive: bool)
      requires id in db.staging
      modifies this
      ensures var writes := RecoverRow(old(db), id);
              && db == ApplyAll(old(db), Cut(writes, old(budget)), now)
              && (alive <==> old(budget) >= |writes|)
              && (alive ==> budget == old(budget) - |writes|)
    {
      hide Apply;
      var row := db.staging[id];
      FewWrites(db, RecoverRow(db, id), budget, now);
      if row.file.None? {
        alive := Exec(MarkFailed(id), now);
        return;
      }
      if row.key in db.objects && db.objects[row.key].file == row.file.value {
        alive := Exec(MarkCommitted(id), now);
        return;
      }
      alive := Exec(Enqueue(row.file.value), now);
      if alive {
        alive := Exec(MarkFailed(id), now);
      }
    }

    /** `recoverStaleStaging` over the rows that `listStale` returned. */
    method RecoverStaleStaging(ids: seq<nat>, now: int) returns (examined: nat)
      requires forall id :: id in ids ==> id in db.staging
      requires forall j, k :: 0 <= j < k < |ids| ==> ids[j] != ids[k]
      modifies this
      ensures db == ApplyAll(old(db), Cut(RecoverTrace(old(db), ids), old(budget)), now)
      ensures examined == |ids| <==> old(budget) >= |RecoverTrace(old(db), ids)|
    {
      hide Apply, RecoverRow, RecoverTrace;
      examined := 0;
      ghost var begin, all := db, RecoverTrace(db, ids);
      RecoverNone(begin);
      while examined < |ids|
        invariant examined <= |ids|
        invariant forall id :: id in ids[..examined] ==> id in begin.staging
        invariant var done := RecoverTrace(begin, ids[..examined]);
                  && |done| <= old(budget) && budget == old(budget) - |done|
                  && db == ApplyAll(begin, done, now)
        invariant SameRows(begin, db, ids[examined..])
      {
        var id := ids[examined];
        ghost var before := db;
        ghost var done := RecoverTrace(begin, ids[..examined]);
        ghost var writes := RecoverRow(begin, id);
        assert ids[examined..][0] == id;
        SameRow(begin, db, id);
        var alive := RecoverRowNow(id, now);
        assert ids[..examined + 1] == ids[..examined] + [id];
        RecoverTraceSnoc(begin, ids[..examined], id);
        assert ids == ids[..examined + 1] + ids[examined + 1..];
        RecoverTraceConcat(begin, ids[..examined + 1], ids[examined + 1..]);
        ApplyConcat(begin, done, Cut(writes, old(budget) - |done|), now);
        if !alive {
          DeadHere(done, writes, RecoverTrace(begin, ids[examined + 1..]), old(budget));
          return;
        }
        RowWrites(before, id, ids[examined..], now);
        assert ids[examined..][1..] == ids[examined + 1..];
        examined := examined + 1;
      }
      assert ids[..|ids|] == ids;
    }
  }

  lemma DeadHere(done: seq<Write>, writes: seq<Write>, rest: seq<Write>, budget: nat)
    requires |done| <= budget < |done| + |writes|
    ensures Cut(done + writes + rest, budget) == done + Cut(writes, budget - |done|)
    ensures budget < |done + writes + rest|
  {
  }

  lemma RecoverNone(db: Db)
    ensures RecoverTrace(db, []) == []
  {
  }

  /** The rows still to come, and the namespace, are as they were. */
  predicate SameRows(begin: Db, db: Db, ids: seq<nat>) {
    && db.objects == begin.objects
    && forall id :: id in ids ==> id in begin.staging && id in db.staging && db.staging[id] == begin.staging[id]
  }

  lemma SameRow(begin: Db, db: Db, id: nat)
    requires id in begin.staging && id in db.staging && db.staging[id] == begin.staging[id]
    requires db.objects == begin.objects
    ensures RecoverRow(db, id) == RecoverRow(begin, id)
  {
  }

  /** Recovering one row leaves the others. */
  lemma RowWrites(db: Db, id: nat, ids: seq<nat>, now: int)
    requires id in db.staging && ids != [] && ids[0] == id
    requires forall k :: 0 < k < |ids| ==> ids[k] != id && ids[k] in db.staging
    ensures var next := ApplyAll(db, RecoverRow(db, id), now);
            SameRows(db, next, ids[1..])
  {
    FewWrites(db, RecoverRow(db, id), 9, now);
    var next := ApplyAll(db, RecoverRow(db, id), now);
    forall i | i in ids[1..] ensures i != id && i in db.staging {
      var k :| 0 <= k < |ids| - 1 && ids[1..][k] == i;
      assert ids[k + 1] == i;
    }
  }

  // ---- The cleanup worker

  /** When a refused deletion is tried again: with backoff, and from the twelfth attempt on once a day. */
  function RetryAt(row: CleanupRow, backoff: nat -> int, now: int): int {
    if row.attempts + 1 >= MAX_ATTEMPTS then now + DAY_MS else backoff(row.attempts + 1)
  }

  /** The queue after the worker has dealt with some rows of it. */
  ghost predicate Drained(before: Db, after: Db, batch: seq<nat>, outcomes: seq<Outcome>, backoff: nat -> int, now: int)
    requires |batch| <= |outcomes| && forall r :: r in batch ==> r in before.queue
  {
    && after == before.(queue := after.queue, gone := after.gone)
    && (forall r :: r in before.queue && r !in batch ==> r in after.queue && after.queue[r] == before.queue[r])
    && (forall r :: r in after.queue ==> r in before.queue)
    && (forall k :: 0 <= k < |batch| ==> RowDrained(before, after, batch[k], outcomes[k], backoff, now))
    && (forall f :: f in after.gone <==>
          f in before.gone
          || exists k :: 0 <= k < |batch| && outcomes[k] != Refused && before.queue[batch[k]].file == f)
  }

  /** A row leaves the queue exactly when its file is gone; a refused one stays, with one attempt more. */
  ghost predicate RowDrained(before: Db, after: Db, r: nat, outcome: Outcome, backoff: nat -> int, now: int)
    requires r in before.queue
  {
    var row := before.queue[r];
    if outcome == Refused
    then r in after.queue && after.queue[r] == CleanupRow(row.file, row.attempts + 1, RetryAt(row, backoff, now))
    else r !in after.queue && row.file in after.gone
  }

  class CleanupWorker {
    var db: Db
    var running: bool
    var stopping: bool

    constructor (db: Db)
      ensures this.db == db && !running && !stopping
    {
      this.db, running, stopping := db, false, false;
    }

    /** One drain of a due batch; `stop` is called after `stopAfter` of its rows. */
    method RunOnce(batch: seq<nat>, outcomes: seq<Outcome>, backoff: nat -> int, stopAfter: nat, now: int)
      returns (processed: nat, retried: nat, completed: nat)
      requires |batch| <= |outcomes| && forall r :: r in batch ==> r in db.queue
      requires forall j, k :: 0 <= j < k < |batch| ==> batch[j] != batch[k]
      modifies this
      ensures old(running || stopping) ==> db == old(db) && processed == 0 && running == old(running)
      ensures !old(running || stopping) ==> !running && processed == if stopAfter < |batch| then stopAfter else |batch|
      ensures processed <= |batch| && processed == retried + completed
      ensures !old(running || stopping) ==> Drained(old(db), db, batch[..processed], outcomes, backoff, now)
    {
      processed, retried, completed := 0, 0, 0;
      if running || stopping {
        return;
      }
      running := true;
      stopping := stopAfter == 0;
      ghost var before := db;
      while processed < |batch| && !stopping
        invariant processed <= |batch| && processed == retried + completed
        invariant processed <= stopAfter && (stopping <==> processed == stopAfter)
        invariant Drained(before, db, batch[..processed], outcomes, backoff, now)
      {
        var r := batch[processed];
        assert batch[..processed + 1] == batch[..processed] + [r];
        ghost var current := db;
        StillQueued(before, db, batch[..processed], outcomes, backoff, now, r);
        var row := db.queue[r];
        var outcome := outcomes[processed];
        if outcome.Refused? {
          var retry := row.(attempts := row.attempts + 1, nextAttempt := RetryAt(row, backoff, now));
          db := db.(queue := db.queue[r := retry]);
          retried := retried + 1;
        } else {
          db := db.(gone := db.gone + {row.file}, queue := db.queue - {r});
          completed := completed + 1;
        }
        DrainedNext(before, current, db, batch[..processed], outcomes, backoff, now, r);
        processed := processed + 1;
        stopping := processed == stopAfter;
      }
      running := false;
    }
  }

  lemma StillQueued(before: Db, db: Db, done: seq<nat>, outcomes: seq<Outcome>, backoff: nat -> int, now: int, r: nat)
    requires |done| <= |outcomes| && (forall q :: q in done ==> q in before.queue) && r in before.queue && r !in done
    requires Drained(before, db, done, outcomes, backoff, now)
    ensures r in db.queue && db.queue[r] == before.queue[r]
  {
  }

  lemma DrainedNext(before: Db, db: Db, next: Db, done: seq<nat>, outcomes: seq<Outcome>, backoff: nat -> int,
        now: int, r: nat)
    requires |done| < |outcomes| && (forall q :: q in done ==> q in before.queue) && r in before.queue && r !in done
    requires Drained(before, db, done, outcomes, backoff, now) && r in db.queue && db.queue[r] == before.queue[r]
    requires var row := db.queue[r];
             next == if outcomes[|done|].Refused?
                     then db.(queue := db.queue[r :=
                                CleanupRow(row.file, row.attempts + 1, RetryAt(row, backoff, now))])
                     else db.(gone := db.gone + {row.file}, queue := db.queue - {r})
    ensures Drained(before, next, done + [r], outcomes, backoff, now)
  {
    var all := done + [r];
    forall k | 0 <= k < |all| ensures RowDrained(before, next, all[k], outcomes[k], backoff, now) {
      if k < |done| {
        assert RowDrained(before, db, done[k], outcomes[k], backoff, now);
        assert done[k] != r;
      }
    }
    forall f ensures f in next.gone <==>
      f in before.gone || exists k :: 0 <= k < |all| && outcomes[k] != Refused && before.queue[all[k]].file == f
    {
      if f in db.gone && f !in before.gone {
        var k :| 0 <= k < |done| && outcomes[k] != Refused && before.queue[done[k]].file == f;
        assert all[k] == done[k];
      }
      if f in next.gone && f !in db.gone {
        assert all[|done|] == r;
      }
      if k :| 0 <= k < |all| && outcomes[k] != Refused && before.queue[all[k]].file == f {
        if k < |done| {
          assert done[k] == all[k];
        }
      }
    }
  }
}
