/**
 * The upload orchestrator (apps/server/src/drive/upload-streaming.ts): small
 * bodies of known length go up in one request, anything else through a resumable
 * session in fixed-size chunks with the last one held back until the end is known.
 */
module StreamingUpload {
  import opened Bytes
  import opened ByteSource
  import opened DriveStorage
  import opened ObjectCrypto

  const RESUMABLE_ALIGNMENT: nat := 256 * 1024

  datatype Settings = Settings(contentLength: Option<nat>, maxBytes: nat, resumableThreshold: nat, chunkSize: nat)

  /** Digests over the plaintext, left uninterpreted. */
  datatype Digests = Digests(md5: seq<Byte> -> string, sha256: seq<Byte> -> string)

  datatype Result =
    | Done(uploaded: Uploaded, size: nat, md5Hex: string, sha256Hex: string)
    | EntityTooLarge

  function AlignChunk(chunkSize: nat): (target: nat)
    ensures target > 0 && target % RESUMABLE_ALIGNMENT == 0
    ensures chunkSize >= RESUMABLE_ALIGNMENT ==> chunkSize - RESUMABLE_ALIGNMENT < target <= chunkSize
  {
    if chunkSize < RESUMABLE_ALIGNMENT then RESUMABLE_ALIGNMENT
    else (chunkSize / RESUMABLE_ALIGNMENT) * RESUMABLE_ALIGNMENT
  }

  /** The largest multiple of 256 KiB up to the configured size, and at least one. */
  lemma AlignExactly(chunkSize: nat) returns (k: nat)
    ensures AlignChunk(chunkSize) == k * 262_144 && k >= 1
    ensures k > 1 ==> k * 262_144 <= chunkSize
    ensures chunkSize < (k + 1) * 262_144
  {
    k := AlignChunk(chunkSize) / RESUMABLE_ALIGNMENT;
  }

  /** What ends up stored for a body: the body, or its encryption from the cipher's position. */
  ghost function Stored(cipher: Option<CtrCipher>, body: seq<Byte>): (r: seq<Byte>)
    reads if cipher.Some? then {cipher.value} else {}
    ensures |r| == |body|
  {
    match cipher
    case None => body
    case Some(c) => Crypt(c.cipher, c.start, c.position, body)
  }

  // ---- The chunk protocol

  /** The chunks a stored body of n bytes is sent in, from an offset on. */
  function Plan(offset: nat, n: nat, target: nat, contentLength: Option<nat>): seq<Sent>
    requires offset <= n && target > 0
    decreases n - offset
  {
    if n - offset <= target then [Sent(offset, n - offset, Some(n), true)]
    else [Sent(offset, target, contentLength, false)] + Plan(offset + target, n, target, contentLength)
  }

  /**
   * Contiguous offsets from `offset` to n, every chunk but the last of exactly the
   * target size and announcing the declared length, exactly the last one final with
   * the real length, and empty only if nothing is left.
   */
  predicate WellPlanned(plan: seq<Sent>, offset: nat, n: nat, target: nat, declared: Option<nat>) {
    var last := |plan| - 1;
    && |plan| > 0
    && plan[0].startOffset == offset
    && (forall i :: 0 <= i < last ==>
          plan[i].size == target && !plan[i].isFinal && plan[i].totalBytes == declared)
    && (forall i :: 0 <= i < last ==> plan[i + 1].startOffset == plan[i].startOffset + plan[i].size)
    && plan[last].isFinal && plan[last].totalBytes == Some(n)
    && plan[last].startOffset + plan[last].size == n
    && plan[last].size <= target
    && (plan[last].size == 0 <==> n == offset)
  }

  lemma WellPlannedCons(first: Sent, rest: seq<Sent>, offset: nat, n: nat, target: nat, declared: Option<nat>)
    requires first == Sent(offset, target, declared, false)
    requires WellPlanned(rest, offset + target, n, target, declared) && offset + target < n && target > 0
    ensures WellPlanned([first] + rest, offset, n, target, declared)
  {
    var plan := [first] + rest;
    forall i | 0 <= i < |plan| - 1
      ensures plan[i].size == target && !plan[i].isFinal && plan[i].totalBytes == declared
      ensures plan[i + 1].startOffset == plan[i].startOffset + plan[i].size
    {
      if i > 0 {
        assert plan[i] == rest[i - 1] && plan[i + 1] == rest[i - 1 + 1];
      }
    }
  }

  /** The plan for a body of any length is well planned. */
  lemma {:induction false} PlanShape(offset: nat, n: nat, target: nat, contentLength: Option<nat>)
    requires offset <= n && target > 0
    ensures WellPlanned(Plan(offset, n, target, contentLength), offset, n, target, contentLength)
    decreases n - offset
  {
    if n - offset > target {
      hide WellPlanned;
      PlanShape(offset + target, n, target, contentLength);
      WellPlannedCons(Sent(offset, target, contentLength, false), Plan(offset + target, n, target, contentLength),
                      offset, n, target, contentLength);
    }
  }

  lemma {:induction false} PlanSnoc(offset: nat, n: nat, target: nat, contentLength: Option<nat>, sent: seq<Sent>,
                                    all: seq<Sent>)
    requires offset <= n && target > 0 && n - offset > target
    requires all == sent + Plan(offset, n, target, contentLength)
    ensures all == (sent + [Sent(offset, target, contentLength, false)])
                   + Plan(offset + target, n, target, contentLength)
  {
  }

  // ---- One request

  method UploadMultipart(storage: InMemoryDriveStorage, body: ChunkSource, cipher: Option<CtrCipher>, d: Digests,
                         s: Settings) returns (result: Result)
    requires storage.Valid()
    modifies storage, body, if cipher.Some? then {cipher.value} else {}
    ensures storage.Valid()
    ensures Outcome(storage, old(storage.blobs), old(Flatten(body.chunks)), old(Stored(cipher, Flatten(body.chunks))),
                    d, s, result)
  {
    hide Stored;
    ghost var all := Flatten(body.chunks);
    ghost var stored := Stored(cipher, all);
    var hashed: seq<Byte> := [];
    var chunks: seq<seq<Byte>> := [];
    var done := false;
    while !done
      invariant storage.Valid() && storage.blobs == old(storage.blobs)
      invariant hashed + Flatten(body.chunks) == all && |hashed| == |Flatten(chunks)| <= s.maxBytes
      invariant Flatten(chunks) + Stored(cipher, Flatten(body.chunks)) == stored
      invariant done ==> body.chunks == []
      decreases |body.chunks|, !done
    {
      var piece, refused;
      piece, hashed, done, refused := NextPiece(body, cipher, hashed, s, all);
      if refused {
        return EntityTooLarge;
      }
      FlattenSnoc(chunks, piece);
      Assoc(Flatten(chunks), piece, Stored(cipher, Flatten(body.chunks)));
      chunks := chunks + [piece];
    }
    assert hashed == all && Flatten(chunks) == stored;
    var bytes := ConcatChunks(chunks, |hashed|);
    var uploaded := storage.UploadObject(bytes);
    return Done(uploaded, |hashed|, d.md5(hashed), d.sha256(hashed));
  }

  /**
   * One read: the bytes are counted against the limit, hashed and enciphered. At
   * the end of the body the cipher is finished, which for CTR adds nothing.
   */
  method NextPiece(body: ChunkSource, cipher: Option<CtrCipher>, hashed: seq<Byte>, s: Settings, ghost all: seq<Byte>)
    returns (piece: seq<Byte>, counted: seq<Byte>, done: bool, refused: bool)
    requires hashed + Flatten(body.chunks) == all && |hashed| <= s.maxBytes
    modifies body, if cipher.Some? then {cipher.value} else {}
    ensures refused ==> |all| > s.maxBytes
    ensures !refused ==>
              && counted + Flatten(body.chunks) == all && |counted| == |hashed| + |piece| <= s.maxBytes
              && old(Stored(cipher, Flatten(body.chunks))) == piece + Stored(cipher, Flatten(body.chunks))
    ensures done ==> body.chunks == [] && piece == []
    ensures !done ==> |body.chunks| < old(|body.chunks|)
  {
    ghost var pending := Flatten(body.chunks);
    piece, counted, done, refused := [], hashed, false, false;
    var next := body.Read();
    if next == None {
      done := true;
      if cipher.Some? {
        piece := cipher.value.Final();
      }
      assert Stored(cipher, []) == [];
    } else {
      counted := hashed + next.value;
      Assoc(hashed, next.value, Flatten(body.chunks));
      if |counted| > s.maxBytes {
        refused := true;
      } else {
        piece := Encipher(cipher, next.value, pending);
      }
    }
  }

  /** The next piece of the body through the cipher, if there is one. */
  method Encipher(cipher: Option<CtrCipher>, value: seq<Byte>, ghost pending: seq<Byte>) returns (piece: seq<Byte>)
    requires value <= pending
    modifies if cipher.Some? then {cipher.value} else {}
    ensures |piece| == |value|
    ensures old(Stored(cipher, pending)) == piece + Stored(cipher, pending[|value|..])
  {
    hide Crypt;
    match cipher
    case None =>
      piece := value;
    case Some(c) =>
      CryptConcat(c.cipher, c.start, c.position, value, pending[|value|..]);
      assert pending == value + pending[|value|..];
      piece := c.Update(value);
  }

  /**
   * What either way of uploading does: a body past the limit stores nothing, and
   * any other becomes one new blob holding the (enciphered) body, reported with
   * the size and digests of the plaintext.
   */
  ghost predicate Outcome(storage: InMemoryDriveStorage, before: map<nat, seq<Byte>>, body: seq<Byte>,
                          stored: seq<Byte>, d: Digests, s: Settings, result: Result)
    reads storage
  {
    if |body| > s.maxBytes then result == EntityTooLarge && storage.blobs == before
    else
      && result.Done?
      && result == Done(Uploaded(result.uploaded.driveFileId, |body|), |body|, d.md5(body), d.sha256(body))
      && result.uploaded.driveFileId !in before
      && storage.blobs == before[result.uploaded.driveFileId := stored]
  }

  // ---- A resumable session

  /** A session part way through its plan. */
  ghost predicate Midway(storage: InMemoryDriveStorage, session: nat, buffer: seq<Byte>, rest: seq<Byte>,
                         stored: seq<Byte>, uploadedSize: nat, target: nat, contentLength: Option<nat>)
    reads storage
  {
    && storage.Valid() && target > 0
    && session in storage.sessions && session in storage.log
    && var taken := Flatten(storage.sessions[session].chunks);
       && storage.sessions[session].committed == uploadedSize == |taken|
       && taken + buffer + rest == stored
       && uploadedSize <= |stored|
       && (|buffer| > 0 || uploadedSize == 0)
       && storage.log[session] + Plan(uploadedSize, |stored|, target, contentLength)
          == Plan(0, |stored|, target, contentLength)
  }

  lemma MidwayStart(storage: InMemoryDriveStorage, session: nat, stored: seq<Byte>, target: nat,
                    contentLength: Option<nat>)
    requires storage.Valid() && target > 0
    requires session in storage.sessions && storage.sessions[session] == Session([], 0)
    requires session in storage.log && storage.log[session] == []
    ensures Midway(storage, session, [], stored, stored, 0, target, contentLength)
  {
    assert [] + Plan(0, |stored|, target, contentLength) == Plan(0, |stored|, target, contentLength);
  }

  lemma MidwayTakes(storage: InMemoryDriveStorage, session: nat, buffer: seq<Byte>, piece: seq<Byte>, rest: seq<Byte>,
                    stored: seq<Byte>, uploadedSize: nat, target: nat, contentLength: Option<nat>)
    requires Midway(storage, session, buffer, piece + rest, stored, uploadedSize, target, contentLength)
    ensures Midway(storage, session, buffer + piece, rest, stored, uploadedSize, target, contentLength)
  {
    var taken := Flatten(storage.sessions[session].chunks);
    assert taken + buffer + (piece + rest) == taken + (buffer + piece) + rest;
  }

  /** A session whose plan has been carried out: its blob is stored. */
  ghost predicate Finished(storage: InMemoryDriveStorage, session: nat, before: map<nat, seq<Byte>>, up: Uploaded,
                           stored: seq<Byte>, target: nat, contentLength: Option<nat>)
    reads storage
  {
    && storage.Valid() && target > 0
    && up.size == |stored| && up.driveFileId !in before
    && storage.blobs == before[up.driveFileId := stored]
    && session in storage.log && storage.log[session] == Plan(0, |stored|, target, contentLength)
  }

  lemma FinishedFacts(storage: InMemoryDriveStorage, session: nat, before: map<nat, seq<Byte>>, up: Uploaded,
                      stored: seq<Byte>, target: nat, contentLength: Option<nat>)
    requires Finished(storage, session, before, up, stored, target, contentLength)
    ensures storage.Valid() && up == Uploaded(up.driveFileId, |stored|) && up.driveFileId !in before && target > 0
    ensures storage.blobs == before[up.driveFileId := stored]
    ensures session in storage.log && storage.log[session] == Plan(0, |stored|, target, contentLength)
  {
  }

  /** One chunk of the plan. */
  method SendChunk(storage: InMemoryDriveStorage, session: nat, chunk: seq<Byte>, ghost left: seq<Byte>,
                   ghost rest: seq<Byte>, ghost stored: seq<Byte>, uploadedSize: nat, target: nat,
                   contentLength: Option<nat>, total: Option<nat>, isFinal: bool) returns (progress: Progress)
    requires Midway(storage, session, chunk + left, rest, stored, uploadedSize, target, contentLength)
    requires isFinal ==> left == [] && rest == [] && |chunk| <= target && total == Some(uploadedSize + |chunk|)
    requires !isFinal ==> |chunk| == target && |left| > 0 && total == contentLength
    modifies storage
    ensures storage.Valid() && progress.Progress? && progress.committedBytes == uploadedSize + |chunk|
    ensures !isFinal ==>
              && progress.uploaded == None && storage.blobs == old(storage.blobs)
              && Midway(storage, session, left, rest, stored, progress.committedBytes, target, contentLength)
    ensures isFinal ==>
              && progress.uploaded.Some?
              && Finished(storage, session, old(storage.blobs), progress.uploaded.value, stored, target, contentLength)
  {
    ghost var taken := storage.sessions[session].chunks;
    FlattenSnoc(taken, chunk);
    assert Flatten(taken) + (chunk + left) + rest == (Flatten(taken) + chunk) + left + rest;
    if !isFinal {
      PlanSnoc(uploadedSize, |stored|, target, contentLength, storage.log[session],
               Plan(0, |stored|, target, contentLength));
    } else {
      assert (Flatten(taken) + chunk) + [] + [] == Flatten(taken) + chunk;
    }
    progress := storage.UploadResumableChunk(session, chunk, uploadedSize, total, isFinal);
  }

  /**
   * The inner loop after each read: full chunks go out while more than one is
   * buffered, and at the end of the body whatever is left goes out as the final one.
   */
  method SendBuffered(storage: InMemoryDriveStorage, session: nat, buffer: seq<Byte>, ghost rest: seq<Byte>,
                      ghost stored: seq<Byte>, uploadedSize: nat, target: nat, s: Settings, done: bool)
    returns (left: seq<Byte>, committed: nat, uploaded: Option<Uploaded>)
    requires Midway(storage, session, buffer, rest, stored, uploadedSize, target, s.contentLength)
    requires done ==> rest == [] && |buffer| <= target
    requires uploadedSize + |buffer| <= s.maxBytes
    modifies storage
    ensures uploaded == None ==>
              && Midway(storage, session, left, rest, stored, committed, target, s.contentLength)
              && |left| <= target && committed + |left| == uploadedSize + |buffer|
              && storage.blobs == old(storage.blobs)
    ensures done ==> left == [] && (uploaded == None <==> buffer == [])
    ensures !done ==> uploaded == None
    ensures uploaded != None ==>
              && committed == |stored|
              && Finished(storage, session, old(storage.blobs), uploaded.value, stored, target, s.contentLength)
  {
    left, committed, uploaded := buffer, uploadedSize, None;
    while |left| > target || (done && |left| > 0)
      invariant uploaded == None ==>
                  && Midway(storage, session, left, rest, stored, committed, target, s.contentLength)
                  && committed + |left| == uploadedSize + |buffer| && storage.blobs == old(storage.blobs)
      invariant done ==> |left| <= target && (uploaded == None <==> left == buffer)
      invariant done && left != buffer ==> left == []
      invariant uploaded != None ==>
                  && done && left == [] && buffer != [] && committed == |stored|
                  && Finished(storage, session, old(storage.blobs), uploaded.value, stored, target, s.contentLength)
      decreases |left|
    {
      var take := if done then |left| else target;
      var chunk := left[..take];
      assert left == chunk + left[take..];
      left := left[take..];
      var isFinal := done && left == [];
      var total := if isFinal then Some(committed + |chunk|) else s.contentLength;
      if s.contentLength != None && committed + |chunk| > s.maxBytes {
        assert false;  // the running count has already refused such a body
      }
      var progress := SendChunk(storage, session, chunk, left, rest, stored, committed, target, s.contentLength,
                                total, isFinal);
      committed := progress.committedBytes;
      if progress.uploaded != None {
        uploaded := progress.uploaded;
      }
      if !isFinal && |left| < target {
        break;
      }
    }
  }

  /** Where the outer loop stands: midway through the plan, or finished with the last read. */
  ghost predicate Sending(storage: InMemoryDriveStorage, session: nat, before: map<nat, seq<Byte>>, buffer: seq<Byte>,
                          rest: seq<Byte>, stored: seq<Byte>, uploadedSize: nat, uploaded: Option<Uploaded>,
                          counted: nat, target: nat, s: Settings, done: bool)
    reads storage
  {
    && storage.Valid()
    && (done ==> buffer == [])
    && match uploaded
       case None =>
         && Midway(storage, session, buffer, rest, stored, uploadedSize, target, s.contentLength)
         && uploadedSize + |buffer| == counted && |buffer| <= target && storage.blobs == before
       case Some(up) =>
         && done && uploadedSize == |stored|
         && Finished(storage, session, before, up, stored, target, s.contentLength)
  }

  /** Also says which chunks the session was sent: exactly the plan for the stored body. */
  method UploadResumable(storage: InMemoryDriveStorage, body: ChunkSource, cipher: Option<CtrCipher>, d: Digests,
                         s: Settings) returns (result: Result, session: nat)
    requires storage.Valid()
    modifies storage, body, if cipher.Some? then {cipher.value} else {}
    ensures storage.Valid()
    ensures Outcome(storage, old(storage.blobs), old(Flatten(body.chunks)), old(Stored(cipher, Flatten(body.chunks))),
                    d, s, result)
    ensures result.Done? ==>
              session in storage.log
              && storage.log[session] == Plan(0, result.size, AlignChunk(s.chunkSize), s.contentLength)
  {
    hide AlignChunk, Stored, Midway, Plan, Finished, InMemoryDriveStorage.Valid;
    ghost var all := Flatten(body.chunks);
    ghost var stored := Stored(cipher, all);
    var target := AlignChunk(s.chunkSize);
    session := storage.BeginResumableUpload();
    var hashed: seq<Byte> := [];
    var buffer: seq<Byte> := [];
    var uploadedSize: nat := 0;
    var uploaded: Option<Uploaded> := None;
    var done := false;
    MidwayStart(storage, session, stored, target, s.contentLength);
    while !done
      invariant hashed + Flatten(body.chunks) == all && |hashed| <= s.maxBytes && (done ==> body.chunks == [])
      invariant Sending(storage, session, old(storage.blobs), buffer, Stored(cipher, Flatten(body.chunks)), stored,
                        uploadedSize, uploaded, |hashed|, target, s, done)
      decreases |body.chunks|, !done
    {
      var piece, refused;
      piece, hashed, done, refused := NextPiece(body, cipher, hashed, s, all);
      if refused {
        return EntityTooLarge, session;
      }
      ghost var rest := Stored(cipher, Flatten(body.chunks));
      MidwayTakes(storage, session, buffer, piece, rest, stored, uploadedSize, target, s.contentLength);
      buffer, uploadedSize, uploaded :=
        SendBuffered(storage, session, buffer + piece, rest, stored, uploadedSize, target, s, done);
    }
    assert hashed == all;
    var up, size := CloseSession(storage, session, old(storage.blobs), buffer, stored, uploadedSize, uploaded, |hashed|,
                                 target, s);
    FinishedFacts(storage, session, old(storage.blobs), up, stored, target, s.contentLength);
    return Done(up, size, d.md5(hashed), d.sha256(hashed)), session;
  }

  /** After the last read: only an empty body is still open, and an empty final chunk closes it. */
  method CloseSession(storage: InMemoryDriveStorage, session: nat, ghost before: map<nat, seq<Byte>>, buffer: seq<Byte>,
                      ghost stored: seq<Byte>, uploadedSize: nat, uploaded: Option<Uploaded>, ghost counted: nat,
                      target: nat, s: Settings) returns (up: Uploaded, size: nat)
    requires Sending(storage, session, before, buffer, [], stored, uploadedSize, uploaded, counted, target, s, true)
    modifies storage
    ensures size == |stored| && Finished(storage, session, before, up, stored, target, s.contentLength)
  {
    if uploaded != None {
      return uploaded.value, uploadedSize;
    }
    assert [] + buffer == buffer;
    var progress := SendChunk(storage, session, [], [], [], stored, uploadedSize, target, s.contentLength,
                              Some(uploadedSize), true);
    return progress.uploaded.value, progress.committedBytes;
  }

  // ---- Choosing between them

  /** A declared length past the limit is refused unread; otherwise the route makes no difference. */
  method StreamingUpload(storage: InMemoryDriveStorage, body: ChunkSource, cipher: Option<CtrCipher>, d: Digests,
                         s: Settings) returns (result: Result)
    requires storage.Valid()
    modifies storage, body, if cipher.Some? then {cipher.value} else {}
    ensures storage.Valid()
    ensures s.contentLength != None && s.contentLength.value > s.maxBytes ==>
              result == EntityTooLarge && storage.blobs == old(storage.blobs) && body.chunks == old(body.chunks)
    ensures !(s.contentLength != None && s.contentLength.value > s.maxBytes) ==>
              Outcome(storage, old(storage.blobs), old(Flatten(body.chunks)),
                      old(Stored(cipher, Flatten(body.chunks))), d, s, result)
  {
    if s.contentLength != None && s.contentLength.value > s.maxBytes {
      return EntityTooLarge;
    }
    var useResumable :=
      s.contentLength == None
      || s.contentLength.value > s.resumableThreshold
      || s.contentLength.value > s.chunkSize;
    if useResumable {
      var session;
      result, session := UploadResumable(storage, body, cipher, d, s);
    } else {
      result := UploadMultipart(storage, body, cipher, d, s);
    }
  }
}
