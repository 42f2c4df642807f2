/**
 * The storage contract behind the gateway, as its in-memory implementation fixes
 * it (apps/server/src/drive/in-memory-storage.ts): whole-body uploads, resumable
 * sessions that commit every chunk in full, and ranged downloads.
 */
module DriveStorage {
  import opened Bytes
  import opened Range

  datatype Session = Session(chunks: seq<seq<Byte>>, committed: nat)

  datatype Uploaded = Uploaded(driveFileId: nat, size: nat)

  /** What a chunk upload answers. */
  datatype Progress = Progress(committedBytes: nat, uploaded: Option<Uploaded>) | InvalidSession

  /** One accepted chunk, as the storage saw it. */
  datatype Sent = Sent(startOffset: nat, size: nat, totalBytes: Option<nat>, isFinal: bool)

  class InMemoryDriveStorage {
    var blobs: map<nat, seq<Byte>>
    var sessions: map<nat, Session>
    /** Ids handed out so far lie below this, standing for fresh random ids. */
    var nextId: nat
    /** The chunks each session was sent, in order. */
    ghost var log: map<nat, seq<Sent>>

    constructor ()
      ensures Valid() && blobs == map[] && sessions == map[]
    {
      blobs, sessions, nextId, log := map[], map[], 0, map[];
    }

    ghost predicate Valid()
      reads this
    {
      && (forall id :: id in blobs || id in sessions || id in log ==> id < nextId)
      && (forall id :: id in sessions ==>
            id in log && sessions[id].committed == |Flatten(sessions[id].chunks)|)
    }

    method UploadObject(body: seq<Byte>) returns (uploaded: Uploaded)
      requires Valid()
      modifies this
      ensures Valid()
      ensures uploaded.driveFileId !in old(blobs) && uploaded.size == |body|
      ensures blobs == old(blobs)[uploaded.driveFileId := body] && sessions == old(sessions)
    {
      var id := nextId;
      nextId := nextId + 1;
      blobs := blobs[id := body];
      return Uploaded(id, |body|);
    }

    method BeginResumableUpload() returns (sessionUrl: nat)
      requires Valid()
      modifies this
      ensures Valid() && blobs == old(blobs)
      ensures sessionUrl !in old(sessions) && sessions == old(sessions)[sessionUrl := Session([], 0)]
      ensures log == old(log)[sessionUrl := []]
    {
      sessionUrl := nextId;
      nextId := nextId + 1;
      sessions := sessions[sessionUrl := Session([], 0)];
      log := log[sessionUrl := []];
    }

    /**
     * A chunk at the committed offset is taken in full; at any other offset nothing
     * changes and the committed offset is reported. The final chunk makes the blob.
     */
    method UploadResumableChunk(sessionUrl: nat, chunk: seq<Byte>, startOffset: nat, totalBytes: Option<nat>,
                                isFinal: bool) returns (progress: Progress)
      requires Valid()
      modifies this
      ensures Valid()
      ensures sessionUrl !in old(sessions) ==>
                progress == InvalidSession && blobs == old(blobs) && sessions == old(sessions) && log == old(log)
      ensures sessionUrl in old(sessions) && startOffset != old(sessions)[sessionUrl].committed ==>
                && progress == Progress(old(sessions)[sessionUrl].committed, None)
                && blobs == old(blobs) && sessions == old(sessions) && log == old(log)
      ensures sessionUrl in old(sessions) && startOffset == old(sessions)[sessionUrl].committed ==>
                var s := old(sessions)[sessionUrl];
                var taken := Session(s.chunks + [chunk], s.committed + |chunk|);
                && log == old(log)[sessionUrl :=
                              old(log)[sessionUrl] + [Sent(startOffset, |chunk|, totalBytes, isFinal)]]
                && (!isFinal ==>
                      && progress == Progress(taken.committed, None)
                      && sessions == old(sessions)[sessionUrl := taken] && blobs == old(blobs))
                && (isFinal ==>
                      && progress.Progress? && progress.uploaded.Some?
                      && var up := progress.uploaded.value;
                         && progress.committedBytes == taken.committed == up.size
                         && up.driveFileId !in old(blobs)
                         && blobs == old(blobs)[up.driveFileId := Flatten(taken.chunks)]
                         && sessions == old(sessions) - {sessionUrl})
    {
      if sessionUrl !in sessions {
        return InvalidSession;
      }
      var session := sessions[sessionUrl];
      if startOffset != session.committed {
        return Progress(session.committed, None);
      }
      FlattenSnoc(session.chunks, chunk);
      session := Session(session.chunks + [chunk], session.committed + |chunk|);
      sessions := sessions[sessionUrl := session];
      log := log[sessionUrl := log[sessionUrl] + [Sent(startOffset, |chunk|, totalBytes, isFinal)]];
      if !isFinal {
        return Progress(session.committed, None);
      }
      var bytes := ConcatChunks(session.chunks, session.committed);
      var id := nextId;
      nextId := nextId + 1;
      blobs := blobs[id := bytes];
      sessions := sessions - {sessionUrl};
      return Progress(session.committed, Some(Uploaded(id, |bytes|)));
    }

    /** The blob, or the slice a range header asks for; None is a 404. */
    method DownloadObject(driveFileId: nat, range: Option<string>) returns (body: Option<seq<Byte>>)
      ensures driveFileId !in blobs ==> body == None
      ensures driveFileId in blobs ==>
                body == Some(match range
                             case None => blobs[driveFileId]
                             case Some(header) => Slice(blobs[driveFileId], header))
    {
      if driveFileId !in blobs {
        return None;
      }
      match range
      case None => return Some(blobs[driveFileId]);
      case Some(header) => return Some(Slice(blobs[driveFileId], header));
    }
  }

  function Slice(bytes: seq<Byte>, header: string): seq<Byte> {
    match StorageSlice(header, |bytes|)
    case None => bytes
    case Some(span) => bytes[span.0..span.1]
  }

  /** Chunks copied one after another into a buffer of the committed size. */
  method ConcatChunks(chunks: seq<seq<Byte>>, total: nat) returns (bytes: seq<Byte>)
    requires total == |Flatten(chunks)|
    ensures bytes == Flatten(chunks)
  {
    var out := new Byte[total];
    var offset := 0;
    for k := 0 to |chunks|
      invariant offset == |Flatten(chunks[..k])| <= total && out[..offset] == Flatten(chunks[..k])
    {
      FlattenTake(chunks, k);
      SetAt(out, chunks[k], offset);
      offset := offset + |chunks[k]|;
    }
    assert chunks[..|chunks|] == chunks;
    bytes := out[..];
  }

  /** `out.set(chunk, offset)` */
  method SetAt(out: array<Byte>, chunk: seq<Byte>, offset: nat)
    requires offset + |chunk| <= out.Length
    modifies out
    ensures out[..offset + |chunk|] == old(out[..offset]) + chunk
  {
    for i := 0 to |chunk|
      invariant out[..offset] == old(out[..offset])
      invariant forall j :: 0 <= j < i ==> out[offset + j] == chunk[j]
    {
      out[offset + i] := chunk[i];
    }
  }
}
