/**
 * The backup client's uploads: a stream read in fixed-size pieces and sent as one
 * PUT or as a multipart upload that is aborted on failure
 * (apps/server/src/backup/s3-client.ts, apps/server/src/backup/chunk-reader.ts).
 */
module S3Upload {
  import opened Bytes
  import opened ByteSource
  import opened JsBits

  // ---- Cutting a stream into parts

  function First(s: seq<Byte>, n: nat): seq<Byte> { if |s| <= n then s else s[..n] }
  function Rest(s: seq<Byte>, n: nat): seq<Byte> { if |s| <= n then [] else s[n..] }

  /** All pieces but the last hold exactly n bytes. */
  function Pieces(s: seq<Byte>, n: nat): seq<seq<Byte>>
    requires n > 0
    decreases |s|
  {
    if s == [] then [] else [First(s, n)] + Pieces(Rest(s, n), n)
  }

  lemma {:induction false} PiecesShape(s: seq<Byte>, n: nat)
    requires n > 0
    ensures var p := Pieces(s, n);
            && Flatten(p) == s
            && (forall k :: 0 <= k < |p| - 1 ==> |p[k]| == n)
            && (s != [] ==> p != [] && 0 < |p[|p| - 1]| <= n)
    ensures |s| <= n && s != [] ==> Pieces(s, n) == [s]
    ensures |s| > n ==> |Pieces(s, n)| > 1
    decreases |s|
  {
    if s != [] {
      var rest := Rest(s, n);
      PiecesShape(rest, n);
      var p := [First(s, n)] + Pieces(rest, n);
      assert p[1..] == Pieces(rest, n);
      assert First(s, n) + rest == s;
      forall k | 0 <= k < |p| - 1 ensures |p[k]| == n {
        if k > 0 {
          assert p[k] == Pieces(rest, n)[k - 1];
        }
      }
    }
  }

  /** The number of pieces is at most a bound exactly when that many pieces could hold the stream. */
  lemma {:induction false} PieceCount(s: seq<Byte>, n: nat, bound: nat)
    requires n > 0
    ensures |Pieces(s, n)| <= bound <==> |s| <= bound * n
    decreases |s|
  {
    if s != [] {
      if bound == 0 {
      } else {
        PieceCount(Rest(s, n), n, bound - 1);
        MulSum(bound - 1, 1, n);
        MulGrows(bound - 1, n);
      }
    }
  }

  // ---- Reading

  /** `broken` says how the source ends: with an error instead of a normal end. */
  class ChunkReader {
    const source: ChunkSource
    const broken: bool
    var pending: Option<seq<Byte>>
    var exhausted: bool

    constructor (source: ChunkSource, broken: bool)
      ensures this.source == source && this.broken == broken && Left() == Flatten(source.chunks) && Valid()
    {
      this.source, this.broken, pending, exhausted := source, broken, None, false;
    }

    ghost predicate Valid()
      reads this, source
    {
      exhausted ==> source.chunks == [] && !broken
    }

    /** The bytes still to be read. */
    ghost function Left(): seq<Byte>
      reads this, source
    {
      (if pending.Some? then pending.value else []) + Flatten(source.chunks)
    }

    /** Up to `size` bytes, fewer only at the end; None when the source fails. */
    method Read(size: nat) returns (r: Option<seq<Byte>>)
      requires Valid()
      modifies this, source
      ensures Valid()
      ensures r.None? <==> broken && |old(Left())| < size
      ensures r.Some? ==> r.value == First(old(Left()), size) && Left() == Rest(old(Left()), size)
    {
      hide Flatten, First, Rest;
      var pieces: seq<seq<Byte>> := [];
      var filled := 0;
      ghost var all := Left();
      FlattenNone();
      while filled < size
        invariant Valid()
        invariant Flatten(pieces) + Left() == all && |Flatten(pieces)| == filled <= size
        decreases size - filled, |source.chunks|, if pending.Some? then 1 else 0
      {
        var chunk := pending;
        pending := None;
        if chunk.None? {
          if exhausted {
            break;
          }
          FlattenHead(source.chunks);
          chunk := source.Read();
          if chunk.None? {
            if broken {
              return None;
            }
            exhausted := true;
            break;
          }
        }
        var take := if |chunk.value| < size - filled then |chunk.value| else size - filled;
        FlattenSnoc(pieces, chunk.value[..take]);
        TakeSome(Flatten(pieces), chunk.value, Flatten(source.chunks), take);
        pieces := pieces + [chunk.value[..take]];
        if take < |chunk.value| {
          pending := Some(chunk.value[take..]);
        }
        filled := filled + take;
      }
      Cut(Flatten(pieces), Left(), size);
      r := Some(Flatten(pieces));
    }

    method Cancel()
      modifies source
      ensures source.chunks == []
    {
      source.Cancel();
    }
  }

  lemma FlattenNone()
    ensures Flatten<Byte>([]) == []
  {
  }

  lemma FlattenHead(chunks: seq<seq<Byte>>)
    ensures chunks == [] ==> Flatten(chunks) == []
    ensures chunks != [] ==> Flatten(chunks) == chunks[0] + Flatten(chunks[1..])
  {
  }

  /** Moving the front of a chunk from what is left to what was read. */
  lemma TakeSome(read: seq<Byte>, chunk: seq<Byte>, rest: seq<Byte>, take: nat)
    requires take <= |chunk|
    ensures (read + chunk[..take]) + (chunk[take..] + rest) == read + (chunk + rest)
    ensures take == |chunk| ==> (read + chunk[..take]) + rest == read + (chunk + rest)
  {
    assert chunk == chunk[..take] + chunk[take..];
  }

  lemma Cut(a: seq<Byte>, b: seq<Byte>, n: nat)
    requires |a| == n || (|a| <= n && b == [])
    ensures First(a + b, n) == a && Rest(a + b, n) == b
  {
  }

  // ---- Sending

  const MAX_PARTS := 10_000
  const MIB := 1024 * 1024

  datatype PartRef = PartRef(number: nat, etag: nat)

  datatype Request =
    | Put(body: seq<Byte>)
    | Create
    | UploadPart(number: nat, body: seq<Byte>)
    | Complete(parts: seq<PartRef>)
    | Abort

  /** The destination: what it was sent, and what it answers to each request, None being a failure. */
  class S3Client {
    const answers: nat -> Option<nat>
    var sent: seq<Request>

    constructor (answers: nat -> Option<nat>)
      ensures this.answers == answers && sent == []
    {
      this.answers, sent := answers, [];
    }

    method Send(r: Request) returns (answer: Option<nat>)
      modifies this
      ensures sent == old(sent) + [r] && answer == answers(|old(sent)|)
    {
      answer := answers(|sent|);
      sent := sent + [r];
    }
  }

  /** Parts numbered from `first`. */
  function Parts(pieces: seq<seq<Byte>>, first: nat): seq<Request> {
    seq(|pieces|, i requires 0 <= i < |pieces| => UploadPart(first + i, pieces[i]))
  }

  /** The references to the first k parts, with the destination's own etags; its requests start at `base`. */
  function Refs(answers: nat -> Option<nat>, base: nat, k: nat): seq<PartRef> {
    seq(k, i requires 0 <= i < k => PartRef(i + 1, match answers(base + i) case Some(e) => e case None => 0))
  }

  /** Everything a multipart upload sends when nothing fails; its first request has index `base`. */
  function MultipartPlan(answers: nat -> Option<nat>, base: nat, pieces: seq<seq<Byte>>): seq<Request> {
    [Create] + Parts(pieces, 1) + [Complete(Refs(answers, base + 1, |pieces|))]
  }

  /** What an upload sends when nothing fails: one PUT exactly when the stream fits in one part. */
  function Plan(answers: nat -> Option<nat>, base: nat, body: seq<Byte>, partSize: nat): seq<Request>
    requires partSize > 0
  {
    if |body| <= partSize then [Put(body)] else MultipartPlan(answers, base, Pieces(body, partSize))
  }

  predicate AllAnswered(answers: nat -> Option<nat>, base: nat, n: nat) {
    forall i :: base <= i < base + n ==> answers(i).Some?
  }

  lemma PartsSnoc(pieces: seq<seq<Byte>>, first: nat, p: seq<Byte>)
    ensures Parts(pieces + [p], first) == Parts(pieces, first) + [UploadPart(first + |pieces|, p)]
  {
  }

  lemma RefsSnoc(answers: nat -> Option<nat>, base: nat, k: nat)
    requires answers(base + k).Some?
    ensures Refs(answers, base, k + 1) == Refs(answers, base, k) + [PartRef(k + 1, answers(base + k).value)]
  {
  }

  /** A part that is sent next extends what was sent along the plan. */
  lemma PlanPrefix(answers: nat -> Option<nat>, base: nat, sent: seq<seq<Byte>>, left: seq<seq<Byte>>)
    ensures |Parts(sent, 1)| == |sent| <= |MultipartPlan(answers, base, sent + left)| - 2
    ensures [Create] + Parts(sent, 1) == MultipartPlan(answers, base, sent + left)[..1 + |sent|]
    ensures |MultipartPlan(answers, base, sent + left)| == |sent| + |left| + 2
  {
    var all := Parts(sent + left, 1);
    assert forall i :: 0 <= i < |sent| ==> (sent + left)[i] == sent[i];
    assert Parts(sent, 1) == all[..|sent|];
    assert [Create] + Parts(sent, 1) == ([Create] + all)[..1 + |sent|];
  }

  lemma PiecesCons(s: seq<Byte>, n: nat)
    requires n > 0 && s != []
    ensures Pieces(s, n) == [First(s, n)] + Pieces(Rest(s, n), n)
  {
  }

  /**
   * Why an upload ends after its first `done` requests: the last of them failed, there
   * are more parts than allowed, or the source broke off, with all whole parts of it
   * sent if it had two.
   */
  predicate Stopped(answers: nat -> Option<nat>, base: nat, body: seq<Byte>, partSize: nat, broken: bool, done: nat)
    requires partSize > 0
  {
    || (done > 0 && answers(base + done - 1).None?)
    || (done == 10_001 && |Pieces(body, partSize)| > 10_000)
    || (broken && done == (if |body| < 2 * partSize then 0 else 1 + |body| / partSize) <= 10_001)
  }

  /**
   * The parts and the completion, once the upload was created. On success everything
   * in the plan was sent; otherwise its first `done` requests.
   */
  method SendParts(client: S3Client, reader: ChunkReader, first: seq<Byte>, second: seq<Byte>, partSize: nat,
        ghost body: seq<Byte>)
    returns (ok: bool, ghost done: nat)
    requires partSize > 0 && |body| > partSize && reader.Valid()
    requires first == First(body, partSize) && second == First(Rest(body, partSize), partSize)
    requires reader.Left() == Rest(Rest(body, partSize), partSize) && (|second| < partSize ==> !reader.broken)
    requires client.sent != [] && client.sent[|client.sent| - 1] == Create
    modifies client, reader, reader.source
    ensures var base := |old(client.sent)|;
            var pieces := Pieces(body, partSize);
            var plan := MultipartPlan(client.answers, base - 1, pieces);
            && reader.Valid()
            && (ok <==> !reader.broken && |pieces| <= MAX_PARTS && AllAnswered(client.answers, base, |pieces| + 1))
            && 1 <= done <= |plan| && done <= MAX_PARTS + 2 && (ok ==> done == |plan|)
            && client.sent == old(client.sent)[..base - 1] + plan[..done]
            && AllAnswered(client.answers, base, if done < 2 then 0 else done - 2)
            && (!ok ==> Stopped(client.answers, base - 1, body, partSize, reader.broken, done))
  {
    hide Pieces, Parts, Refs, MultipartPlan, First, Rest, Flatten, Stopped, Whole;
    ok, done := false, 1;
    ghost var pre := client.sent[..|client.sent| - 1];
    ghost var base := |client.sent|;
    ghost var sent: seq<seq<Byte>>, left := [], body;
    var parts: seq<PartRef> := [];
    var chunk, queued, partNumber := first, Some(second), 1;
    StartOfPlan(client.answers, base, pre, client.sent);
    WholeStart(|body|, partSize);
    SizeOfFirst(body, partSize);
    while |chunk| > 0
      invariant reader.Valid()
      invariant Pieces(body, partSize) == sent + Pieces(left, partSize)
      invariant chunk == First(left, partSize) && (|chunk| < partSize ==> !reader.broken)
      invariant queued.Some? ==> sent == [] && left == body && queued.value == second
                                 && reader.Left() == Rest(Rest(left, partSize), partSize)
      invariant queued.None? ==> reader.Left() == Rest(left, partSize) && sent != []
      invariant partNumber == |sent| + 1 <= MAX_PARTS + 1 && done == partNumber
      invariant client.sent == pre + ([Create] + Parts(sent, 1))
      invariant parts == Refs(client.answers, base, |sent|) && AllAnswered(client.answers, base, |sent|)
      invariant reader.broken ==> Whole(|sent|, |left|, |body|, partSize)
      decreases |left|
    {
      SizeOfFirst(left, partSize);
      PiecesCons(left, partSize);
      PlanPrefix(client.answers, base - 1, sent, Pieces(left, partSize));
      if partNumber > MAX_PARTS {
        StopAtLimit(client.answers, base - 1, body, partSize, reader.broken, sent, Pieces(left, partSize));
        return;
      }
      PartsSnoc(sent, 1, chunk);
      var etag := client.Send(UploadPart(partNumber, chunk));
      done := done + 1;
      ghost var rest := Rest(left, partSize);
      WholeNext(|sent|, left, |body|, partSize);
      Assoc(sent, [chunk], Pieces(rest, partSize));
      PlanPrefix(client.answers, base - 1, sent + [chunk], Pieces(rest, partSize));
      Assoc(pre, [Create] + Parts(sent, 1), [UploadPart(partNumber, chunk)]);
      Assoc([Create], Parts(sent, 1), [UploadPart(partNumber, chunk)]);
      if etag.None? {
        assert client.answers(base + |sent|).None?;
        StopAtFailure(client.answers, base - 1, body, partSize, reader.broken, done);
        return;
      }
      RefsSnoc(client.answers, base, |sent|);
      parts := parts + [PartRef(partNumber, etag.value)];
      sent, left := sent + [chunk], rest;
      if queued.Some? {
        chunk, queued := queued.value, None;
      } else {
        SizeOfFirst(reader.Left(), partSize);
        var next := reader.Read(partSize);
        if next.None? {
          StopAtBreak(client.answers, base - 1, body, partSize, |sent|, |left|);
          return;
        }
        chunk := next.value;
      }
      partNumber := partNumber + 1;
    }
    SizeOfFirst(left, partSize);
    PiecesNone(partSize);
    assert sent + [] == sent;
    PlanPrefix(client.answers, base - 1, sent, []);
    PlanWhole(client.answers, base - 1, sent);
    Assoc(pre, [Create] + Parts(sent, 1), [Complete(parts)]);
    var answer := client.Send(Complete(parts));
    ok, done := answer.Some?, done + 1;
    if !ok {
      StopAtFailure(client.answers, base - 1, body, partSize, reader.broken, done);
    }
  }

  /** What was sent is whole parts, and with what is left it is everything. */
  predicate Whole(sent: nat, left: nat, size: nat, partSize: nat) { sent * partSize + left == size }

  lemma WholeStart(size: nat, partSize: nat)
    ensures Whole(0, size, size, partSize)
  {
  }

  lemma WholeNext(sent: nat, left: seq<Byte>, size: nat, partSize: nat)
    requires partSize > 0
    ensures Whole(sent, |left|, size, partSize) && |First(left, partSize)| >= partSize ==>
              Whole(sent + 1, |Rest(left, partSize)|, size, partSize)
  {
    assert (sent + 1) * partSize == sent * partSize + partSize;
  }

  lemma StopAtFailure(answers: nat -> Option<nat>, base: nat, body: seq<Byte>, partSize: nat, broken: bool, done: nat)
    requires partSize > 0 && done > 0 && answers(base + done - 1).None?
    ensures Stopped(answers, base, body, partSize, broken, done)
  {
  }

  lemma StopAtLimit(answers: nat -> Option<nat>, base: nat, body: seq<Byte>, partSize: nat, broken: bool,
        sent: seq<seq<Byte>>, more: seq<seq<Byte>>)
    requires partSize > 0 && Pieces(body, partSize) == sent + more && more != [] && |sent| == MAX_PARTS
    ensures Stopped(answers, base, body, partSize, broken, |sent| + 1)
  {
  }

  lemma StopAtBreak(answers: nat -> Option<nat>, base: nat, body: seq<Byte>, partSize: nat, sent: nat, left: nat)
    requires partSize > 0 && 2 <= sent <= MAX_PARTS && Whole(sent, left, |body|, partSize) && left < partSize
    ensures Stopped(answers, base, body, partSize, true, sent + 1)
  {
    ModIs(|body|, partSize, sent, left);
    TwiceAtMost(sent, partSize);
  }

  lemma TwiceAtMost(sent: nat, partSize: nat)
    requires sent >= 2
    ensures sent * partSize >= 2 * partSize
  {
    assert (sent - 2) * partSize >= 0;
  }

  lemma PiecesNone(n: nat)
    requires n > 0
    ensures Pieces([], n) == []
  {
  }

  lemma PlanWhole(answers: nat -> Option<nat>, base: nat, pieces: seq<seq<Byte>>)
    ensures var plan := MultipartPlan(answers, base, pieces);
            plan == ([Create] + Parts(pieces, 1)) + [Complete(Refs(answers, base + 1, |pieces|))]
            && plan[..|plan|] == plan
  {
  }

  lemma SizeOfFirst(s: seq<Byte>, n: nat)
    requires n > 0
    ensures First(s, n) == [] <==> s == []
    ensures s != [] ==> |Rest(s, n)| < |s|
    ensures |First(s, n)| < n ==> Rest(s, n) == [] && |s| < n
  {
  }

  lemma StartOfPlan(answers: nat -> Option<nat>, base: nat, pre: seq<Request>, sent: seq<Request>)
    requires sent != [] && sent[|sent| - 1] == Create && pre == sent[..|sent| - 1]
    ensures sent == pre + ([Create] + Parts([], 1)) && Refs(answers, base, 0) == []
  {
  }

  lemma StartRead(s: seq<Byte>, n: nat)
    requires n > 0
    ensures |s| < n ==> First(s, n) == s && |First(s, n)| < n
    ensures |s| >= n ==> |First(s, n)| == n && (First(Rest(s, n), n) == [] <==> |s| == n)
    ensures |s| == n ==> First(s, n) == s
  {
  }

  lemma TakeAll(plan: seq<Request>, base: seq<Request>)
    ensures plan[..|plan|] == plan && base + [] == base
    ensures base[..|base|] == base
  {
  }

  /** How an upload ended: everything was sent, nothing was created, or it was aborted. */
  datatype Ending = Finished | FailedBefore | Aborted

  predicate Created(answers: nat -> Option<nat>, base: nat, body: seq<Byte>, partSize: nat, broken: bool) {
    |body| > partSize && !(broken && |body| < 2 * partSize) && answers(base).Some?
  }

  /** Everything the upload needs goes right. */
  predicate Succeeds(answers: nat -> Option<nat>, base: nat, body: seq<Byte>, partSize: nat, broken: bool)
    requires partSize > 0
  {
    && !broken && AllAnswered(answers, base, |Plan(answers, base, body, partSize)|)
    && (|body| > partSize ==> |Pieces(body, partSize)| <= MAX_PARTS)
  }

  /**
   * `uploadStream`, for any cutting of the source: on success it has sent exactly the
   * plan; a failure after the upload was created always ends with the abort, one
   * before it never does, and in both the source is cancelled.
   */
  method UploadStream(client: S3Client, source: ChunkSource, broken: bool, partSize: nat)
    returns (ending: Ending, ghost done: nat)
    requires partSize > 0
    modifies client, source
    ensures var base := |old(client.sent)|;
            var body := Flatten(old(source.chunks));
            var plan := Plan(client.answers, base, body, partSize);
            && (ending.Finished? <==> Succeeds(client.answers, base, body, partSize, broken))
            && (!ending.Finished? ==> source.chunks == [])
            && (ending.Aborted? <==> Created(client.answers, base, body, partSize, broken) && !ending.Finished?)
            && done <= |plan| && (ending.Finished? ==> done == |plan|) && (ending.Aborted? ==> done >= 1)
            && client.sent == old(client.sent) + plan[..done] + (if ending.Aborted? then [Abort] else [])
            && (forall i :: base <= i < base + done - 1 ==> client.answers(i).Some?)
            && (!ending.Finished? ==> Stopped(client.answers, base, body, partSize, broken, done))
  {
    hide Pieces, Parts, Refs, First, Rest, Flatten;
    ghost var body, before := Flatten(source.chunks), client.sent;
    ghost var plan := Plan(client.answers, |before|, body, partSize);
    var reader := new ChunkReader(source, broken);
    ending, done := FailedBefore, 0;
    StartRead(body, partSize);
    StartRead(Rest(body, partSize), partSize);
    RestSize(body, partSize);
    TakeAll(plan, before);
    var first := reader.Read(partSize);
    if first.None? {
      reader.Cancel();
      return;
    }
    var second := Some([]);
    if |first.value| == partSize {
      second := reader.Read(partSize);
      if second.None? {
        reader.Cancel();
        return;
      }
    }
    if |second.value| == 0 {
      assert first.value == body;
      done := 1;
      var answer := client.Send(Put(first.value));
      if answer.None? {
        assert !AllAnswered(client.answers, |before|, |plan|);
        reader.Cancel();
        return;
      }
      ending := Finished;
      return;
    }
    assert plan == MultipartPlan(client.answers, |before|, Pieces(body, partSize));
    done := 1;
    var uploadId := client.Send(Create);
    if uploadId.None? {
      assert !AllAnswered(client.answers, |before|, |plan|);
      reader.Cancel();
      return;
    }
    var ok: bool;
    ok, done := SendParts(client, reader, first.value, second.value, partSize, body);
    PlanLength(client.answers, |before|, Pieces(body, partSize));
    if ok {
      ending := Finished;
    } else {
      var answer := client.Send(Abort);
      ending := Aborted;
      reader.Cancel();
    }
  }

  lemma RestSize(s: seq<Byte>, n: nat)
    ensures |s| >= n ==> |Rest(s, n)| == |s| - n
    ensures |s| < n ==> Rest(s, n) == []
  {
  }

  lemma PlanLength(answers: nat -> Option<nat>, base: nat, pieces: seq<seq<Byte>>)
    ensures var n := |MultipartPlan(answers, base, pieces)|;
            && n == |pieces| + 2
            && (AllAnswered(answers, base, n) <==> answers(base).Some? && AllAnswered(answers, base + 1, |pieces| + 1))
  {
    var n := |MultipartPlan(answers, base, pieces)|;
    if answers(base).Some? && AllAnswered(answers, base + 1, |pieces| + 1) {
      forall i | base <= i < base + n ensures answers(i).Some? {
      }
    }
  }

  /** A single PUT is the whole plan exactly when the stream fits in one part. */
  lemma OnePutExactly(answers: nat -> Option<nat>, base: nat, body: seq<Byte>, partSize: nat)
    requires partSize > 0
    ensures |Plan(answers, base, body, partSize)| == 1 <==> |body| <= partSize
    ensures |body| <= partSize ==> Plan(answers, base, body, partSize) == [Put(body)]
    ensures |body| > partSize ==> IsMultipart(answers, base, Plan(answers, base, body, partSize), body, partSize)
  {
    hide Pieces;
    if |body| > partSize {
      var pieces := Pieces(body, partSize);
      PiecesShape(body, partSize);
      PlanLength(answers, base, pieces);
      var plan := MultipartPlan(answers, base, pieces);
      forall k | 0 <= k < |pieces| ensures plan[k + 1] == UploadPart(k + 1, pieces[k]) {
        assert plan[k + 1] == Parts(pieces, 1)[k];
      }
    }
  }

  /** Part k of an upload whose creation is request `base`, with the tag that its own request was answered with. */
  ghost predicate Tagged(answers: nat -> Option<nat>, base: nat, parts: seq<PartRef>, count: nat) {
    && |parts| == count
    && forall k :: 0 <= k < count ==>
         parts[k].number == k + 1 && (answers(base + 1 + k).Some? ==> parts[k].etag == answers(base + 1 + k).value)
  }

  /**
   * A creation, the parts in order, numbered from one, and the completion, which lists
   * them with the tags that they were answered with.
   */
  ghost predicate IsMultipart(answers: nat -> Option<nat>, base: nat, plan: seq<Request>, body: seq<Byte>,
        partSize: nat)
    requires partSize > 0
  {
    var pieces := Pieces(body, partSize);
    && Flatten(pieces) == body && |pieces| > 1 && |plan| == |pieces| + 2
    && plan[0] == Create && plan[|plan| - 1].Complete? && Tagged(answers, base, plan[|plan| - 1].parts, |pieces|)
    && (forall k :: 0 <= k < |pieces| ==> plan[k + 1] == UploadPart(k + 1, pieces[k]))
    && (forall k :: 0 <= k < |pieces| - 1 ==> |pieces[k]| == partSize)
    && 0 < |pieces[|pieces| - 1]| <= partSize
  }

  // ---- The size of a part

  /** Rounded up division of nonnegative integers. */
  function CeilDiv(a: nat, b: nat): (r: nat)
    requires b > 0
  {
    (a + b - 1) / b
  }

  function PartSizeFor(sizeHint: nat, configured: nat): nat {
    var needed := CeilDiv(sizeHint, (MAX_PARTS - 1) * MIB) * MIB;
    if configured >= needed then configured else needed
  }

  /** A stream no longer than the hint fits in 9999 parts, one fewer than the destination allows. */
  lemma PartSizeFits(sizeHint: nat, configured: nat, body: seq<Byte>)
    requires configured > 0 && |body| <= sizeHint
    ensures PartSizeFor(sizeHint, configured) >= configured
    ensures |Pieces(body, PartSizeFor(sizeHint, configured))| <= MAX_PARTS - 1
  {
    var n := PartSizeFor(sizeHint, configured);
    var d := (MAX_PARTS - 1) * MIB;
    DivMod(sizeHint + d - 1, d);
    PieceCount(body, n, MAX_PARTS - 1);
  }

  /** The part size is the configured one or, if larger, the least whole number of MiB with which 9999 parts do. */
  lemma PartSizeExactly(sizeHint: nat, configured: nat) returns (mib: nat)
    ensures mib * 1_048_576 * 9_999 >= sizeHint && (mib > 0 ==> (mib - 1) * 1_048_576 * 9_999 < sizeHint)
    ensures PartSizeFor(sizeHint, configured) == if configured >= mib * 1_048_576 then configured else mib * 1_048_576
  {
    var d := 1_048_576 * 9_999;
    mib := CeilDiv(sizeHint, d);
    DivMod(sizeHint + d - 1, d);
  }

  // ---- Retries

  datatype Attempt = Answered | Retryable | Fatal

  /** `send`: the last attempt decides, and only retryable failures are followed by another. */
  method SendWithRetries(attempts: nat -> Attempt, maxAttempts: int) returns (result: Attempt, made: nat)
    ensures 1 <= made <= (if maxAttempts < 1 then 1 else maxAttempts)
    ensures result == attempts(made) && forall k :: 1 <= k < made ==> attempts(k).Retryable?
    ensures result.Retryable? ==> made == if maxAttempts < 1 then 1 else maxAttempts
  {
    var limit := if maxAttempts < 1 then 1 else maxAttempts;
    made := 1;
    while true
      invariant 1 <= made <= limit && forall k :: 1 <= k < made ==> attempts(k).Retryable?
      decreases limit - made
    {
      result := attempts(made);
      if !result.Retryable? || made >= limit {
        return;
      }
      made := made + 1;
    }
  }
}
