/**
 * The base32 codec of TOTP secrets (apps/server/src/security/totp.ts). Both
 * directions shift through a 32-bit accumulator that is never masked, so its
 * high bits overflow; only its low, pending bits ever reach the output.
 */
module Totp {
  import opened Bytes
  import opened JsBits

  const BASE32_ALPHABET: string := "ABCDEFGHIJKLMNOPQRSTUVWXYZ234567"

  predicate IsSymbol(c: char) { 'A' <= c <= 'Z' || '2' <= c <= '7' }

  function SymbolValue(c: char): (v: nat)
    requires IsSymbol(c)
    ensures v < 32
  {
    if 'A' <= c <= 'Z' then c as int - 'A' as int else c as int - '2' as int + 26
  }

  lemma AlphabetOrder(v: nat)
    requires v < 32
    ensures IsSymbol(BASE32_ALPHABET[v]) && SymbolValue(BASE32_ALPHABET[v]) == v
  {
  }

  predicate AllSymbols(s: string) { forall i :: 0 <= i < |s| ==> IsSymbol(s[i]) }

  // ---- What the two directions mean, as bit strings

  function ByteBits(s: seq<Byte>): (r: seq<nat>)
    ensures |r| == 8 * |s|
  {
    if s == [] then [] else ByteBits(s[..|s| - 1]) + Bits(s[|s| - 1], 8)
  }

  function SymbolBits(s: string): (r: seq<nat>)
    requires AllSymbols(s)
    ensures |r| == 5 * |s|
  {
    if s == [] then [] else SymbolBits(s[..|s| - 1]) + Bits(SymbolValue(s[|s| - 1]), 5)
  }

  /** Zero bits that complete the last group of five. */
  function Padding(n: nat): (r: nat)
    ensures r < 5 && (8 * n + r) % 5 == 0
  {
    (5 - (8 * n) % 5) % 5
  }

  /** Section 6 of RFC 4648 without padding characters. */
  predicate IsEncoding(buf: seq<Byte>, out: string) {
    AllSymbols(out) && SymbolBits(out) == ByteBits(buf) + Zeros(Padding(|buf|))
  }

  /** As many whole bytes as the symbols hold, and the bits of each. */
  predicate IsDecoding(clean: string, out: seq<Byte>) {
    && AllSymbols(clean)
    && |out| == 5 * |clean| / 8
    && ByteBits(out) == SymbolBits(clean)[..8 * |out|]
  }

  /** What decoding keeps of its input: upper-cased, everything else dropped. */
  function Clean(s: string): (r: string)
    ensures AllSymbols(r)
    ensures AllSymbols(s) ==> r == s
  {
    if s == [] then [] else (if IsSymbol(s[0]) then [s[0]] else []) + Clean(s[1..])
  }

  // ---- The accumulator

  lemma ShiftIn(value: Word, bits: nat, k: nat, x: nat)
    requires bits + k <= 32 && x < Pow2(k) && k <= 8
    ensures BitOr(Shl(value, k), x) < TWO_32
    ensures Bits(BitOr(Shl(value, k), x), bits + k) == Bits(value, bits) + Bits(x, k)
  {
    hide Shl, BitOr;
    var w := Shl(value, k);
    var high := value % Pow2(32 - k);
    Wrap(value, k);
    WrappedLow(value, k);
    OrDisjoint(w, x, k);
    BitsConcat(high, bits, x, k);
    BitsMod(high, bits);
    BitsMod(value, bits);
    Pow2Add(32 - k - bits, bits);
    ModOfMod(value, Pow2(bits), Pow2(32 - k - bits));
  }

  lemma WrapMul(value: nat, p: nat, m: nat)
    requires p > 0 && m > 0
    ensures m * p > 0 && (value * p) % (m * p) == (value % m) * p
    ensures (value % m) * p + p <= m * p
  {
    var q, r := value / m, value % m;
    DivMod(value, m);
    MulSum(q * m, r, p);
    MulAssoc(q, m, p);
    MulMonotone(r + 1, m, p);
    MulSum(r, 1, p);
    MulMonotone(0, r, p);
    ModIs(value * p, m * p, q, r * p);
  }

  lemma MulMonotone(a: nat, b: nat, c: nat)
    requires a <= b
    ensures a * c <= b * c
  {
    assert (b - a) * c >= 0;
  }

  lemma Word32()
    ensures Pow2(32) == TWO_32
  {
    assert Pow2(8) == 256;
    Pow2Add(8, 8);
    Pow2Add(16, 16);
  }

  /** Wrapping at 32 bits drops high bits and leaves room for what is or-ed in. */
  lemma Wrap(value: Word, k: nat)
    requires k <= 8
    ensures Shl(value, k) == (value % Pow2(32 - k)) * Pow2(k)
    ensures Shl(value, k) + Pow2(k) <= TWO_32
  {
    Pow2Add(32 - k, k);
    Word32();
    WrapMul(value, Pow2(k), Pow2(32 - k));
  }

  lemma WrappedLow(value: Word, k: nat)
    requires k <= 8
    ensures Shl(value, k) % Pow2(k) == 0
  {
    hide Shl;
    Wrap(value, k);
    ModIs(Shl(value, k), Pow2(k), value % Pow2(32 - k), 0);
  }

  lemma ModOfMod(v: nat, a: nat, b: nat)
    requires a > 0 && b > 0
    ensures a * b > 0 && (v % (b * a)) % a == v % a
  {
    assert b * a > 0;
    var m := b * a;
    DivMod(v, m);
    var r := v % m;
    DivMod(r, a);
    assert v == ((v / m) * b + r / a) * a + r % a by {
      assert (v / m) * (b * a) == ((v / m) * b) * a;
    }
    ModIs(v, a, (v / m) * b + r / a, r % a);
  }

  /** Taking the top k of the pending bits. */
  lemma TakeTop(value: Word, bits: nat, k: nat)
    requires k <= bits
    ensures Bits(value, bits) == Bits(BitAnd(Ushr(value, bits - k), Pow2(k) - 1), k) + Bits(value, bits - k)
  {
    BitsSplit(value, k, bits - k);
    AndLowMask(Ushr(value, bits - k), k);
    BitsMod(Ushr(value, bits - k), k);
  }

  /** The last, short group is completed with zeros. */
  lemma TakeLast(value: Word, bits: nat)
    requires 0 < bits < 5
    ensures Bits(BitAnd(Shl(value, 5 - bits), 31), 5) == Bits(value, bits) + Zeros(5 - bits)
  {
    assert Pow2(5) == 32;
    var w := Shl(value, 5 - bits);
    AndLowMask(w, 5);
    BitsMod(w, 5);
    ShiftIn(value, bits, 5 - bits, 0);
    OrDisjoint(w, 0, 0);
    BitsOfZero(5 - bits);
  }

  // ---- Encoding

  /** The symbols so far and the pending bits are the bits of the bytes taken in. */
  predicate Encoding(done: seq<Byte>, out: string, value: Word, bits: nat) {
    AllSymbols(out) && SymbolBits(out) + Bits(value, bits) == ByteBits(done)
  }

  lemma SmallPowers()
    ensures Pow2(5) == 32 && Pow2(8) == 256
  {
  }

  lemma EncodeTakesByte(done: seq<Byte>, b: Byte, out: string, value: Word, bits: nat)
    requires Encoding(done, out, value, bits) && bits < 5
    ensures BitOr(Shl(value, 8), b) < TWO_32
    ensures Encoding(done + [b], out, BitOr(Shl(value, 8), b), bits + 8)
  {
    hide BitOr, Shl, Bits, Pow2, SymbolBits, AllSymbols;
    SmallPowers();
    ShiftIn(value, bits, 8, b);
    assert (done + [b])[..|done|] == done;
    assert SymbolBits(out) + (Bits(value, bits) + Bits(b, 8)) == (SymbolBits(out) + Bits(value, bits)) + Bits(b, 8);
  }

  lemma EncodeEmits(done: seq<Byte>, out: string, value: Word, bits: nat)
    requires Encoding(done, out, value, bits) && bits >= 5
    ensures Encoding(done, out + [BASE32_ALPHABET[BitAnd(Ushr(value, bits - 5), 31)]], value, bits - 5)
  {
    hide BitAnd, Ushr, Bits, Pow2, SymbolBits, AllSymbols, ByteBits;
    SmallPowers();
    var index := BitAnd(Ushr(value, bits - 5), 31);
    TakeTop(value, bits, 5);
    AddSymbol(out, index);
    assert SymbolBits(out) + (Bits(index, 5) + Bits(value, bits - 5))
        == (SymbolBits(out) + Bits(index, 5)) + Bits(value, bits - 5);
  }

  lemma AddSymbol(out: string, index: nat)
    requires AllSymbols(out) && index < 32
    ensures var next := out + [BASE32_ALPHABET[index]];
            AllSymbols(next) && SymbolBits(next) == SymbolBits(out) + Bits(index, 5)
  {
    AlphabetOrder(index);
    var next := out + [BASE32_ALPHABET[index]];
    assert next[..|next| - 1] == out;
  }

  lemma EncodeLast(done: seq<Byte>, out: string, value: Word, bits: nat)
    requires Encoding(done, out, value, bits) && bits < 5
    ensures bits == 0 ==> IsEncoding(done, out)
    ensures bits > 0 ==> IsEncoding(done, out + [BASE32_ALPHABET[BitAnd(Shl(value, 5 - bits), 31)]])
  {
    hide BitAnd, Shl, Padding, Bits, SymbolBits, ByteBits, AllSymbols;
    PaddingIs(|done|, |out|, bits);
    var symbol := BitAnd(Shl(value, 5 - bits), 31);
    if bits > 0 {
      TakeLast(value, bits);
      AddSymbol(out, symbol);
      Assoc(SymbolBits(out), Bits(value, bits), Zeros(5 - bits));
    } else {
      assert SymbolBits(out) + Bits(value, 0) == SymbolBits(out);
      assert ByteBits(done) + Zeros(0) == ByteBits(done);
    }
  }

  lemma PaddingIs(n: nat, symbols: nat, bits: nat)
    requires 5 * symbols + bits == 8 * n && bits < 5
    ensures Padding(n) == if bits == 0 then 0 else 5 - bits
  {
    ModIs(8 * n, 5, symbols, bits);
  }

  method Base32Encode(buf: seq<Byte>) returns (out: string)
    ensures IsEncoding(buf, out)
  {
    hide Encoding, IsEncoding, BitOr, BitAnd, Shl, Ushr;
    var bits: nat := 0;
    var value: Word := 0;
    out := "";
    EncodeStart();
    for i := 0 to |buf|
      invariant bits < 5 && Encoding(buf[..i], out, value, bits)
    {
      EncodeTakesByte(buf[..i], buf[i], out, value, bits);
      assert buf[..i] + [buf[i]] == buf[..i + 1];
      value := BitOr(Shl(value, 8), buf[i]);
      bits := bits + 8;
      while bits >= 5
        invariant Encoding(buf[..i + 1], out, value, bits)
      {
        EncodeEmits(buf[..i + 1], out, value, bits);
        out := out + [BASE32_ALPHABET[BitAnd(Ushr(value, bits - 5), 31)]];
        bits := bits - 5;
      }
    }
    assert buf[..|buf|] == buf;
    EncodeLast(buf, out, value, bits);
    if bits > 0 {
      out := out + [BASE32_ALPHABET[BitAnd(Shl(value, 5 - bits), 31)]];
    }
  }

  lemma EncodeStart()
    ensures Encoding([], "", 0, 0)
  {
  }

  // ---- Decoding

  predicate Decoding(done: string, out: seq<Byte>, value: Word, bits: nat) {
    AllSymbols(done) && ByteBits(out) + Bits(value, bits) == SymbolBits(done)
  }

  lemma DecodeTakesSymbol(done: string, c: char, out: seq<Byte>, value: Word, bits: nat)
    requires Decoding(done, out, value, bits) && bits < 8 && IsSymbol(c)
    ensures BitOr(Shl(value, 5), SymbolValue(c)) < TWO_32
    ensures Decoding(done + [c], out, BitOr(Shl(value, 5), SymbolValue(c)), bits + 5)
  {
    hide BitOr, Shl, SymbolValue;
    assert Pow2(5) == 32;
    ShiftIn(value, bits, 5, SymbolValue(c));
    assert (done + [c])[..|done|] == done;
    assert ByteBits(out) + (Bits(value, bits) + Bits(SymbolValue(c), 5))
        == (ByteBits(out) + Bits(value, bits)) + Bits(SymbolValue(c), 5);
  }

  lemma DecodeEmits(done: string, out: seq<Byte>, value: Word, bits: nat)
    requires Decoding(done, out, value, bits) && bits >= 8
    ensures Decoding(done, out + [BitAnd(Ushr(value, bits - 8), 255)], value, bits - 8)
  {
    hide BitAnd, Ushr;
    assert Pow2(8) == 256;
    var byte: Byte := BitAnd(Ushr(value, bits - 8), 255);
    TakeTop(value, bits, 8);
    assert (out + [byte])[..|out|] == out;
    assert ByteBits(out) + (Bits(byte, 8) + Bits(value, bits - 8))
        == (ByteBits(out) + Bits(byte, 8)) + Bits(value, bits - 8);
  }

  lemma DecodeEnds(clean: string, out: seq<Byte>, value: Word, bits: nat)
    requires Decoding(clean, out, value, bits) && bits < 8
    ensures IsDecoding(clean, out)
  {
    assert 8 * |out| + bits == 5 * |clean|;
    assert ByteBits(out) == (ByteBits(out) + Bits(value, bits))[..8 * |out|];
  }

  /** `upper` is Unicode upper-casing, which fixes the alphabet's own symbols. */
  method Base32Decode(upper: string -> string, input: string) returns (out: seq<Byte>)
    ensures IsDecoding(Clean(upper(input)), out)
  {
    hide Decoding, IsDecoding, BitOr, BitAnd, Shl, Ushr, SymbolValue;
    var clean := Clean(upper(input));
    var bits: nat := 0;
    var value: Word := 0;
    out := [];
    DecodeStart();
    for i := 0 to |clean|
      invariant bits < 8 && Decoding(clean[..i], out, value, bits)
    {
      DecodeTakesSymbol(clean[..i], clean[i], out, value, bits);
      assert clean[..i] + [clean[i]] == clean[..i + 1];
      value := BitOr(Shl(value, 5), SymbolValue(clean[i]));
      bits := bits + 5;
      if bits >= 8 {
        DecodeEmits(clean[..i + 1], out, value, bits);
        out := out + [BitAnd(Ushr(value, bits - 8), 255)];
        bits := bits - 8;
      }
    }
    assert clean[..|clean|] == clean;
    DecodeEnds(clean, out, value, bits);
  }

  lemma DecodeStart()
    ensures Decoding("", [], 0, 0)
  {
  }

  // ---- What the codec promises

  lemma {:induction false} ByteBitsInjective(a: seq<Byte>, b: seq<Byte>)
    requires ByteBits(a) == ByteBits(b)
    ensures a == b
  {
    assert |a| == |b|;
    if a != [] {
      var n := |a| - 1;
      assert ByteBits(a)[..8 * n] == ByteBits(a[..n]) && ByteBits(b)[..8 * n] == ByteBits(b[..n]);
      assert ByteBits(a)[8 * n..] == Bits(a[n], 8) && ByteBits(b)[8 * n..] == Bits(b[n], 8);
      assert Pow2(8) == 256;
      BitsInjective(a[n], b[n], 8);
      ByteBitsInjective(a[..n], b[..n]);
      assert a == a[..n] + [a[n]] && b == b[..n] + [b[n]];
    }
  }

  lemma EncodedLength(buf: seq<Byte>, s: string)
    requires IsEncoding(buf, s)
    ensures |s| == (8 * |buf| + 4) / 5
  {
    assert 5 * |s| == 8 * |buf| + Padding(|buf|);
  }

  /** Whatever the decoder returns for an encoding is what was encoded. */
  lemma DecodeInvertsEncode(buf: seq<Byte>, s: string, out: seq<Byte>)
    requires IsEncoding(buf, s) && IsDecoding(s, out)
    ensures out == buf
  {
    EncodedLength(buf, s);
    assert |out| == |buf|;
    assert ByteBits(out) == ByteBits(buf);
    ByteBitsInjective(out, buf);
  }

  method RoundTrip(upper: string -> string, buf: seq<Byte>) returns (encoded: string, decoded: seq<Byte>)
    requires forall s: string :: AllSymbols(s) ==> upper(s) == s
    ensures decoded == buf && |encoded| == (8 * |buf| + 4) / 5
  {
    encoded := Base32Encode(buf);
    decoded := Base32Decode(upper, encoded);
    EncodedLength(buf, encoded);
    DecodeInvertsEncode(buf, encoded, decoded);
  }
}
