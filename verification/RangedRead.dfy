/**
 * Reading an object, whole or in part, through the storage and the seeked
 * decryptor (apps/server/src/s3/copy-source.ts and
 * apps/server/src/services/encryption-service.ts).
 */
module RangedRead {
  import opened Bytes
  import opened ByteSource
  import opened DriveStorage
  import opened ObjectCrypto
  import opened Range

  /** The data key's block cipher and the stored IV of an encrypted object. */
  datatype Encryption = Encryption(cipher: BlockCipher, iv: seq<Byte>)

  /** What the storage holds for a plaintext. */
  function AtRest(encryption: Option<Encryption>, plain: seq<Byte>): (r: seq<Byte>)
    ensures |r| == |plain|
  {
    match encryption
    case None => plain
    case Some(e) => Crypt(e.cipher, e.iv, 0, plain)
  }

  lemma NotEncrypted(plain: seq<Byte>)
    ensures AtRest(None, plain) == plain
  {
  }

  /** The stored bytes of any span, decrypted at its start, are that span of the plaintext. */
  lemma SpanDecrypts(e: Encryption, plain: seq<Byte>, lo: nat, hi: nat)
    requires lo <= hi <= |plain|
    ensures Crypt(e.cipher, e.iv, lo, AtRest(Some(e), plain)[lo..hi]) == plain[lo..hi]
  {
    hide Crypt;
    CryptSlice(e.cipher, e.iv, 0, plain, lo, hi);
    CryptInvolution(e.cipher, e.iv, lo, plain[lo..hi]);
  }

  /** The storage answers the forwarded header of an accepted range with exactly its span. */
  lemma AcceptedSpan(header: string, blob: seq<Byte>)
    requires ParseRange(header, |blob|).Part?
    ensures var r := ParseRange(header, |blob|).range;
            r.start <= r.end < |blob| && Slice(blob, r.headerValue) == blob[r.start..r.end + 1]
  {
    hide ParseRange, StorageSlice;
    AcceptedRange(header, |blob|);
    var r := ParseRange(header, |blob|).range;
    ForwardedHeaderReadBack(r.start, r.end, |blob|);
  }

  /**
   * For every accepted range header and every way the network cuts the answer,
   * what comes out is exactly that slice of the original plaintext; without a
   * range it is all of it. None stands for a missing file.
   */
  method OpenStream(storage: InMemoryDriveStorage, driveFileId: nat, header: string, size: nat,
                    encryption: Option<Encryption>, cut: seq<Byte> -> seq<seq<Byte>>, ghost plain: seq<Byte>)
    returns (parsed: Parsed, out: Option<seq<seq<Byte>>>)
    requires driveFileId in storage.blobs ==> storage.blobs[driveFileId] == AtRest(encryption, plain)
    requires size == |plain| <= MAX_SAFE_INTEGER
    requires forall s: seq<Byte> :: Flatten(cut(s)) == s
    ensures parsed == ParseRange(header, size)
    ensures driveFileId !in storage.blobs || !(parsed.Whole? || parsed.Part?) <==> out == None
    ensures out != None ==>
              Flatten(out.value) == if parsed.Part? then plain[parsed.range.start..parsed.range.end + 1] else plain
  {
    hide ParseRange, Crypt, Slice, AtRest;
    parsed := ParseRange(header, size);
    if !parsed.Whole? && !parsed.Part? {
      return parsed, None;
    }
    var range := if parsed.Part? then Some(parsed.range.headerValue) else None;
    var upstream := storage.DownloadObject(driveFileId, range);
    if upstream == None {
      return parsed, None;
    }
    var start := if parsed.Part? then parsed.range.start else 0;
    ghost var stop := if parsed.Part? then parsed.range.end + 1 else |plain|;
    if parsed.Part? {
      AcceptedSpan(header, AtRest(encryption, plain));
    }
    assert upstream.value == AtRest(encryption, plain)[start..stop];
    var chunks := cut(upstream.value);
    if encryption == None {
      NotEncrypted(plain);
      return parsed, Some(chunks);
    }
    SpanDecrypts(encryption.value, plain, start, stop);
    var source := new ChunkSource(chunks);
    out := DecryptStream(encryption.value.cipher, encryption.value.iv, source, start);
  }
}
