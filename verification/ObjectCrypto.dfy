/**
 * AES-CTR object encryption with a seekable counter
 * (apps/server/src/security/object-crypto.ts). The block cipher itself is left
 * uninterpreted; only the arithmetic of the counter and the XOR with the
 * keystream are modelled.
 */
module ObjectCrypto {
  import opened Bytes
  import opened ByteSource
  import opened JsBits

  const AES_BLOCK_BYTES: nat := 16
  const MAX_SAFE_INTEGER: nat := 0x1F_FFFF_FFFF_FFFF

  /** Byte i of the encryption, under one key, of a counter block. */
  type BlockCipher = (seq<Byte>, nat) -> Byte

  // ---- Big-endian numbers

  function Pow256(n: nat): (r: nat)
    ensures r > 0
  {
    if n == 0 then 1 else 256 * Pow256(n - 1)
  }

  /** n as a block of `length` bytes holds it: modulo 256^length. */
  function Wrapped(n: nat, length: nat): nat {
    n % Pow256(length)
  }

  /** The number of the cipher block that holds a byte offset. */
  function BlockNumber(offset: nat): nat {
    offset / AES_BLOCK_BYTES
  }

  function BigEndian(s: seq<Byte>): nat {
    if s == [] then 0 else BigEndian(s[..|s| - 1]) * 256 + s[|s| - 1]
  }

  /** The big-endian bytes of n modulo 256^length. */
  function ToBigEndian(n: nat, length: nat): (s: seq<Byte>)
    ensures |s| == length
  {
    if length == 0 then [] else ToBigEndian(n / 256, length - 1) + [n % 256]
  }

  lemma {:induction false} BigEndianBound(s: seq<Byte>)
    ensures BigEndian(s) < Pow256(|s|)
  {
    if s != [] {
      BigEndianBound(s[..|s| - 1]);
    }
  }

  lemma {:induction false} BigEndianPrepend(b: Byte, s: seq<Byte>)
    ensures BigEndian([b] + s) == b * Pow256(|s|) + BigEndian(s)
  {
    if s == [] {
      assert [b] + s == [b];
      assert [b][..0] == [];
    } else {
      var n := |s| - 1;
      var t := [b] + s;
      assert t[..|t| - 1] == [b] + s[..n] && t[|t| - 1] == s[n];
      BigEndianPrepend(b, s[..n]);
      assert b * Pow256(n) * 256 == b * Pow256(n + 1);
    }
  }

  lemma {:induction false} ToBigEndianInverts(s: seq<Byte>)
    ensures ToBigEndian(BigEndian(s), |s|) == s
  {
    if s != [] {
      var n := |s| - 1;
      ToBigEndianInverts(s[..n]);
      assert BigEndian(s) / 256 == BigEndian(s[..n]) && BigEndian(s) % 256 == s[n];
      assert s == s[..n] + [s[n]];
    }
  }

  // ---- Seeking the counter

  /** The sum in progress: bytes not reached yet plus what is still to add, above the bytes already set. */
  function Partial(high: seq<Byte>, increment: nat, low: seq<Byte>): nat {
    (BigEndian(high) + increment) * Pow256(|low|) + BigEndian(low)
  }

  /** One byte of the addition with carry leaves the sum in progress as it was. */
  lemma CarryStep(high: seq<Byte>, increment: nat, low: seq<Byte>)
    requires high != []
    ensures var n := |high| - 1;
            var sum := high[n] + increment % 256;
            Partial(high, increment, low)
            == Partial(high[..n], increment / 256 + sum / 256, [sum % 256] + low)
  {
    var n := |high| - 1;
    var sum := high[n] + increment % 256;
    var prefix, scale := BigEndian(high[..n]), Pow256(|low|);
    var carried := increment / 256 + sum / 256;
    assert BigEndian(high) + increment == (prefix + carried) * 256 + sum % 256;
    BigEndianPrepend(sum % 256, low);
    MulSum((prefix + carried) * 256, sum % 256, scale);
    MulAssoc(prefix + carried, 256, scale);
    assert Pow256(|low| + 1) == 256 * scale;
  }

  /** When the bytes run out, or nothing is left to add, the bytes are the sum modulo the block. */
  lemma CarryEnd(high: seq<Byte>, increment: nat, low: seq<Byte>)
    requires high == [] || increment == 0
    ensures BigEndian(high + low) == Wrapped(Partial(high, increment, low), |high + low|)
  {
    JoinBigEndian(high, low);
    BigEndianBound(high + low);
    assert BigEndian([]) == 0;
    if high == [] {
      assert high + low == low;
      ModIs(Partial(high, increment, low), Pow256(|low|), increment, BigEndian(low));
    } else {
      ModIs(Partial(high, increment, low), Pow256(|high + low|), 0, BigEndian(high + low));
    }
  }

  /**
   * The counter block for a byte offset: the IV plus the block number, as a
   * big-endian number that wraps within the block. None is the RangeError.
   */
  method CounterBlockAt(iv: seq<Byte>, byteOffset: int) returns (r: Option<seq<Byte>>)
    ensures match r
            case None => byteOffset < 0 || byteOffset > 9_007_199_254_740_991
            case Some(block) =>
              && 0 <= byteOffset <= 9_007_199_254_740_991
              && |block| == |iv|
              && BigEndian(block) == Wrapped(BigEndian(iv) + BlockNumber(byteOffset), |iv|)
  {
    hide Pow256, BigEndian, Partial, Wrapped, BlockNumber;
    if byteOffset < 0 || byteOffset > MAX_SAFE_INTEGER {
      return None;
    }
    var block := BufferFrom(iv);
    var increment := BlockNumber(byteOffset);
    ghost var total := BigEndian(iv) + increment;
    var left := block.Length;
    assert block[..left] == iv && block[left..] == [];
    PartialStart(iv, increment);
    while left > 0 && increment > 0
      invariant 0 <= left <= block.Length && increment >= 0
      invariant Partial(block[..left], increment, block[left..]) == total
      decreases left
    {
      left := left - 1;
      increment := AddByte(block, left, increment);
    }
    CarryEnd(block[..left], increment, block[left..]);
    assert block[..left] + block[left..] == block[..];
    r := Some(block[..]);
  }

  method BufferFrom(s: seq<Byte>) returns (block: array<Byte>)
    ensures fresh(block) && block[..] == s
  {
    block := new Byte[|s|](i requires 0 <= i < |s| => s[i]);
  }

  /** Adds into one byte and returns what is left for the bytes above it. */
  method AddByte(block: array<Byte>, index: nat, increment: nat) returns (carry: nat)
    requires index < block.Length
    modifies block
    ensures Partial(block[..index], carry, block[index..])
            == old(Partial(block[..index + 1], increment, block[index + 1..]))
  {
    hide Partial;
    ghost var high, low := block[..index + 1], block[index + 1..];
    CarryStep(high, increment, low);
    var sum := block[index] + increment % 256;
    block[index] := sum % 256;
    carry := increment / 256 + sum / 256;
    assert block[index..] == [sum % 256] + low;
    assert block[..index] == high[..index];
  }

  lemma PartialStart(iv: seq<Byte>, increment: nat)
    ensures Partial(iv, increment, []) == BigEndian(iv) + increment
  {
    assert BigEndian([]) == 0 && Pow256(0) == 1;
  }

  lemma {:induction false} JoinBigEndian(a: seq<Byte>, b: seq<Byte>)
    ensures BigEndian(a + b) == BigEndian(a) * Pow256(|b|) + BigEndian(b)
  {
    if b == [] {
      assert a + b == a;
    } else {
      var n := |b| - 1;
      assert (a + b)[..|a + b| - 1] == a + b[..n];
      JoinBigEndian(a, b[..n]);
      MulSum(BigEndian(a) * Pow256(n), BigEndian(b[..n]), 256);
      MulAssoc(BigEndian(a), Pow256(n), 256);
    }
  }

  // ---- The keystream

  function Xor(a: Byte, b: Byte): Byte {
    assert Pow2(8) == 256;
    XorBound(a, b, 8);
    BitXor(a, b)
  }

  /** Keystream byte p of a cipher whose first counter block is `start`. */
  function Keystream(cipher: BlockCipher, start: seq<Byte>, p: nat): Byte {
    cipher(ToBigEndian(Wrapped(BigEndian(start) + BlockNumber(p), |start|), |start|), p % AES_BLOCK_BYTES)
  }

  /** CTR encryption, or decryption, of data that starts at keystream position p. */
  function Crypt(cipher: BlockCipher, start: seq<Byte>, p: nat, data: seq<Byte>): (r: seq<Byte>)
    ensures |r| == |data|
  {
    seq(|data|, i requires 0 <= i < |data| => Xor(data[i], Keystream(cipher, start, p + i)))
  }

  lemma CryptConcat(cipher: BlockCipher, start: seq<Byte>, p: nat, a: seq<Byte>, b: seq<Byte>)
    ensures Crypt(cipher, start, p, a + b) == Crypt(cipher, start, p, a) + Crypt(cipher, start, p + |a|, b)
  {
    hide Xor, Keystream;
  }

  /** Any slice of the ciphertext is the encryption of that slice at its own position. */
  lemma CryptSlice(cipher: BlockCipher, start: seq<Byte>, p: nat, data: seq<Byte>, lo: nat, hi: nat)
    requires lo <= hi <= |data|
    ensures Crypt(cipher, start, p, data)[lo..hi] == Crypt(cipher, start, p + lo, data[lo..hi])
  {
    hide Xor, Keystream;
  }

  /**
   * Counter mode as in section 6.5 of NIST SP 800-38A, for a cipher with blocks of 16
   * bytes: byte i of data at position p is combined with byte (p + i) mod 16 of the
   * block that the IV plus (p + i) / 16, as a big-endian number modulo 2^128, is
   * enciphered to.
   */
  lemma CryptExactly(cipher: BlockCipher, iv: seq<Byte>, p: nat, data: seq<Byte>, i: nat, counter: seq<Byte>)
    requires |iv| == |counter| == 16 && i < |data|
    requires BigEndian(counter) == (BigEndian(iv) + (p + i) / 16) % Pow2(128)
    ensures Crypt(cipher, iv, p, data)[i] == BitXor(data[i], cipher(counter, (p + i) % 16))
  {
    hide BigEndian, Xor, Keystream, Wrapped, Pow2;
    WrappedIs(BigEndian(iv) + (p + i) / 16);
    KeystreamIs(cipher, iv, p + i, counter);
    XorIs(data[i], Keystream(cipher, iv, p + i));
  }

  lemma WrappedIs(n: nat)
    ensures Wrapped(n, 16) == n % Pow2(128)
  {
    hide Pow2, Pow256;
    Pow256Is(16);
  }

  lemma KeystreamIs(cipher: BlockCipher, iv: seq<Byte>, q: nat, counter: seq<Byte>)
    requires |iv| == |counter| == 16 && BigEndian(counter) == Wrapped(BigEndian(iv) + q / 16, 16)
    ensures Keystream(cipher, iv, q) == cipher(counter, q % 16)
  {
    hide BigEndian, Wrapped;
    BigEndianBack(counter);
  }

  lemma XorIs(a: Byte, b: Byte)
    ensures Xor(a, b) == BitXor(a, b)
  {
  }

  lemma {:induction false} Pow256Is(n: nat)
    ensures Pow256(n) == Pow2(8 * n)
  {
    if n > 0 {
      Pow256Is(n - 1);
      Pow2Add(8 * (n - 1), 8);
      assert Pow2(8) == 256;
    }
  }

  /** A block is the only one with its number, and the big-endian number is that of its bytes in order. */
  lemma {:induction false} BigEndianBack(s: seq<Byte>)
    ensures ToBigEndian(BigEndian(s), |s|) == s
  {
    if s != [] {
      var n := |s| - 1;
      BigEndianBack(s[..n]);
      assert BigEndian(s) / 256 == BigEndian(s[..n]) && BigEndian(s) % 256 == s[n];
    }
  }

  lemma BigEndianReads(s: seq<Byte>, b: Byte)
    ensures BigEndian(s + [b]) == 256 * BigEndian(s) + b && BigEndian([]) == 0
  {
    assert (s + [b])[..|s|] == s;
  }

  lemma CryptInvolution(cipher: BlockCipher, start: seq<Byte>, p: nat, data: seq<Byte>)
    ensures Crypt(cipher, start, p, Crypt(cipher, start, p, data)) == data
  {
    hide Keystream;
    var once := Crypt(cipher, start, p, data);
    var twice := Crypt(cipher, start, p, once);
    forall i | 0 <= i < |data| ensures twice[i] == data[i] {
      XorSelfInverse(data[i], Keystream(cipher, start, p + i));
    }
  }

  /** A cipher started at the seeked counter runs through the same keystream. */
  lemma SeekedKeystream(cipher: BlockCipher, iv: seq<Byte>, block: seq<Byte>, offset: nat, j: nat)
    requires |block| == |iv|
    requires BigEndian(block) == Wrapped(BigEndian(iv) + BlockNumber(offset), |iv|)
    ensures Keystream(cipher, block, offset % 16 + j) == Keystream(cipher, iv, offset + j)
  {
    hide Pow256, BigEndian, ToBigEndian;
    SeekedBlock(BigEndian(iv), offset, j, Pow256(|iv|));
  }

  lemma SeekedBlock(v: nat, offset: nat, j: nat, m: nat)
    requires m > 0
    ensures (((v + offset / 16) % m) + (offset % 16 + j) / 16) % m == (v + (offset + j) / 16) % m
    ensures (offset % 16 + j) % 16 == (offset + j) % 16
  {
    var a, b := offset / 16, (offset % 16 + j) / 16;
    assert a + b == (offset + j) / 16;
    ModAdd(v + a, b, m);
  }

  lemma ModAdd(a: nat, b: nat, m: nat)
    requires m > 0
    ensures (a % m + b) % m == (a + b) % m
  {
    DivMod(a, m);
    DivMod(a % m + b, m);
    var q := a / m + (a % m + b) / m;
    MulSum(a / m, (a % m + b) / m, m);
    ModIs(a + b, m, q, (a % m + b) % m);
  }

  lemma SeekedCrypt(cipher: BlockCipher, iv: seq<Byte>, block: seq<Byte>, offset: nat, data: seq<Byte>)
    requires |block| == |iv|
    requires BigEndian(block) == Wrapped(BigEndian(iv) + BlockNumber(offset), |iv|)
    ensures Crypt(cipher, block, offset % 16, data) == Crypt(cipher, iv, offset, data)
  {
    hide Keystream, Xor, BigEndian, Pow256;
    var a, b := Crypt(cipher, block, offset % 16, data), Crypt(cipher, iv, offset, data);
    forall i | 0 <= i < |data| ensures a[i] == b[i] {
      SeekedKeystream(cipher, iv, block, offset, i);
    }
  }

  // ---- Streams

  /** A running CTR cipher: `update` advances its position in the keystream. */
  class CtrCipher {
    const cipher: BlockCipher
    const start: seq<Byte>
    var position: nat

    constructor (cipher: BlockCipher, start: seq<Byte>)
      ensures this.cipher == cipher && this.start == start && position == 0
    {
      this.cipher, this.start, position := cipher, start, 0;
    }

    method Update(chunk: seq<Byte>) returns (out: seq<Byte>)
      modifies this
      ensures out == Crypt(cipher, start, old(position), chunk)
      ensures position == old(position) + |chunk|
    {
      out := Crypt(cipher, start, position, chunk);
      position := position + |chunk|;
    }

    /** CTR is length-preserving: nothing is held back for the end. */
    method Final() returns (tail: seq<Byte>)
      ensures tail == []
    {
      tail := [];
    }
  }

  /** Pull a whole stream through a cipher, chunk by chunk; empty chunks are skipped. */
  method TransformThrough(source: ChunkSource, cipher: CtrCipher) returns (out: seq<seq<Byte>>)
    modifies source, cipher
    ensures Flatten(out) == old(Crypt(cipher.cipher, cipher.start, cipher.position, Flatten(source.chunks)))
    ensures forall c :: c in out ==> c != []
  {
    hide Crypt;
    ghost var c, s, p := cipher.cipher, cipher.start, cipher.position;
    ghost var all := Flatten(source.chunks);
    ghost var done: seq<Byte> := [];
    CryptEmpty(c, s, p);
    out := [];
    while true
      invariant done + Flatten(source.chunks) == all
      invariant cipher.position == p + |done|
      invariant Flatten(out) == Crypt(c, s, p, done)
      invariant forall c :: c in out ==> c != []
      decreases |source.chunks|
    {
      var next := source.Read();
      match next
      case None =>
        var tail := cipher.Final();
        assert done == all;
        return if tail != [] then out + [tail] else out;
      case Some(value) =>
        if value != [] {
          CryptConcat(c, s, p, done, value);
          var piece := cipher.Update(value);
          CryptLength(c, s, p + |done|, value);
          FlattenSnoc(out, piece);
          out := out + [piece];
        }
        assert (done + value) + Flatten(source.chunks) == done + (value + Flatten(source.chunks));
        assert value == [] ==> done + value == done;
        done := done + value;
    }
  }

  lemma CryptEmpty(cipher: BlockCipher, start: seq<Byte>, p: nat)
    ensures Crypt(cipher, start, p, []) == []
  {
  }

  lemma CryptLength(cipher: BlockCipher, start: seq<Byte>, p: nat, data: seq<Byte>)
    ensures |Crypt(cipher, start, p, data)| == |data|
  {
  }

  /** Encrypt from the first byte. */
  method EncryptStream(cipher: BlockCipher, iv: seq<Byte>, source: ChunkSource) returns (out: seq<seq<Byte>>)
    modifies source
    ensures Flatten(out) == Crypt(cipher, iv, 0, old(Flatten(source.chunks)))
  {
    var c := new CtrCipher(cipher, iv);
    out := TransformThrough(source, c);
  }

  /**
   * The decryption of bytes that were stored from `byteOffset` on: the counter starts
   * at that position's block and the keystream before it is thrown away. None is the
   * RangeError.
   */
  method DecryptStream(cipher: BlockCipher, iv: seq<Byte>, source: ChunkSource, byteOffset: int)
    returns (out: Option<seq<seq<Byte>>>)
    modifies source
    ensures out == None <==> byteOffset < 0 || byteOffset > MAX_SAFE_INTEGER
    ensures out != None ==> Flatten(out.value) == Crypt(cipher, iv, byteOffset, old(Flatten(source.chunks)))
  {
    hide Crypt;
    var block := CounterBlockAt(iv, byteOffset);
    if block == None {
      return None;
    }
    var decipher := new CtrCipher(cipher, block.value);
    var partialBlockBytes := byteOffset % AES_BLOCK_BYTES;
    if partialBlockBytes > 0 {
      var _ := decipher.Update(seq(partialBlockBytes, _ => 0));
    }
    SeekedCrypt(cipher, iv, block.value, byteOffset, Flatten(source.chunks));
    var pieces := TransformThrough(source, decipher);
    return Some(pieces);
  }
}
