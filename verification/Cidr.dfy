/**
 * IPv4 ranges in policy conditions (ipInCidr in apps/server/src/s3/policy.ts), with
 * JavaScript's 32-bit operators. `Number` applied to text is a parameter: the integer
 * it gives, or None.
 */
module Cidr {
  import opened Bytes
  import opened Digits
  import opened JsBits

  /** One to three digits, at most 255. */
  function Octet(part: string): Option<nat> {
    if 1 <= |part| <= 3 && AllDigits(part) && DecimalValue(part) <= 255 then Some(DecimalValue(part)) else None
  }

  predicate AllOctets(parts: seq<string>) { forall p :: p in parts ==> Octet(p).Some? }

  /** The parts as the digits of a number to the base 256. */
  function Combined(parts: seq<string>): nat
    requires AllOctets(parts)
  {
    if parts == [] then 0
    else
      var n := |parts| - 1;
      Combined(parts[..n]) * 256 + Octet(parts[n]).value
  }

  /** An address in dotted form as a number. */
  function Address(text: string): Option<nat> {
    var parts := Split(text, '.');
    if |parts| == 4 && AllOctets(parts) then Some(Combined(parts)) else None
  }

  /** A decimal number of one to three digits up to 255. */
  predicate IsOctet(part: string, value: nat) {
    && (|part| == 1 || |part| == 2 || |part| == 3) && AllDigits(part)
    && value == DecimalValue(part) && value < 256
  }

  lemma OctetExactly(part: string, value: nat)
    ensures Octet(part) == Some(value) <==> IsOctet(part, value)
  {
  }

  datatype Part = Part(text: string, value: nat)

  /** Four parts in dotted form, and their number. */
  predicate IsDotted(text: string, parts: seq<Part>, value: nat) {
    && |parts| == 4 && (forall i :: 0 <= i < 4 ==> IsOctet(parts[i].text, parts[i].value))
    && text == parts[0].text + "." + parts[1].text + "." + parts[2].text + "." + parts[3].text
    && value == parts[0].value * 0x100_0000 + parts[1].value * 0x1_0000 + parts[2].value * 0x100 + parts[3].value
  }

  /** A dotted address is four such numbers, the first the most significant. */
  lemma AddressExactly(text: string, value: nat)
    ensures Address(text) == Some(value) <==> exists parts :: IsDotted(text, parts, value)
  {
    hide Address, IsDotted;
    if Address(text) == Some(value) {
      var parts := DottedOf(text, value);
    }
    if parts :| IsDotted(text, parts, value) {
      DottedIs(text, parts, value);
    }
  }

  lemma DottedOf(text: string, value: nat) returns (dotted: seq<Part>)
    requires Address(text) == Some(value)
    ensures IsDotted(text, dotted, value)
  {
    hide Octet, IsOctet, Split, Combined;
    var parts := Split(text, '.');
    var p, q, r, s := parts[0], parts[1], parts[2], parts[3];
    assert parts == [p, q, r, s] && p in parts && q in parts && r in parts && s in parts;
    FourCombined(p, q, r, s);
    var a, b, c, d := Octet(p).value, Octet(q).value, Octet(r).value, Octet(s).value;
    OctetExactly(p, a);
    OctetExactly(q, b);
    OctetExactly(r, c);
    OctetExactly(s, d);
    SplitJoins(text, '.');
    JoinFour(p, q, r, s);
    dotted := [Part(p, a), Part(q, b), Part(r, c), Part(s, d)];
  }

  lemma DottedIs(text: string, parts: seq<Part>, value: nat)
    requires IsDotted(text, parts, value)
    ensures Address(text) == Some(value)
  {
    hide Octet, IsOctet, Split, Combined;
    var p, q, r, s := parts[0], parts[1], parts[2], parts[3];
    OctetExactly(p.text, p.value);
    OctetExactly(q.text, q.value);
    OctetExactly(r.text, r.value);
    OctetExactly(s.text, s.value);
    SplitFour(p.text, q.text, r.text, s.text, p.value, q.value, r.value, s.value);
    FourCombined(p.text, q.text, r.text, s.text);
  }

  lemma FourCombined(p: string, q: string, r: string, s: string)
    requires AllOctets([p, q, r, s])
    ensures Octet(p).Some? && Octet(q).Some? && Octet(r).Some? && Octet(s).Some?
    ensures Combined([p, q, r, s]) == Octet(p).value * 0x100_0000 + Octet(q).value * 0x1_0000
                                     + Octet(r).value * 0x100 + Octet(s).value
  {
    hide Octet;
    var all := [p, q, r, s];
    assert p in all && q in all && r in all && s in all;
    assert all[..3] == [p, q, r] && [p, q, r][..2] == [p, q] && [p, q][..1] == [p] && [p][..0] == [];
    assert Combined([p]) == Octet(p).value;
    assert Combined([p, q]) == Octet(p).value * 256 + Octet(q).value;
    assert Combined([p, q, r]) == Combined([p, q]) * 256 + Octet(r).value;
  }

  lemma JoinFour(p: string, q: string, r: string, s: string)
    ensures Join([p, q, r, s], '.') == p + "." + q + "." + r + "." + s
  {
    assert [p, q, r, s][1..] == [q, r, s] && [q, r, s][1..] == [r, s] && [r, s][1..] == [s];
    assert Join([r, s], '.') == r + ['.'] + Join([s], '.');
    assert Join([q, r, s], '.') == q + ['.'] + Join([r, s], '.');
  }

  /** The pieces of a text with a separator between them again. */
  function Join(pieces: seq<string>, separator: char): string {
    if pieces == [] then "" else if |pieces| == 1 then pieces[0]
    else pieces[0] + [separator] + Join(pieces[1..], separator)
  }

  lemma {:induction false} SplitJoins(text: string, separator: char)
    ensures Join(Split(text, separator), separator) == text
  {
    if text != "" {
      SplitJoins(text[1..], separator);
      var rest := Split(text[1..], separator);
      assert text == [text[0]] + text[1..];
      if text[0] == separator {
        assert ([""] + rest)[1..] == rest;
      } else {
        var first := [[text[0]] + rest[0]];
        assert (first + rest[1..])[1..] == rest[1..];
      }
    }
  }

  lemma PlainDigits(part: string, value: nat)
    requires IsOctet(part, value)
    ensures '.' !in part
  {
  }

  lemma SplitFour(p: string, q: string, r: string, s: string, a: nat, b: nat, c: nat, d: nat)
    requires IsOctet(p, a) && IsOctet(q, b) && IsOctet(r, c) && IsOctet(s, d)
    ensures Split(p + "." + q + "." + r + "." + s, '.') == [p, q, r, s]
  {
    hide IsOctet, Split;
    PlainDigits(p, a);
    PlainDigits(q, b);
    PlainDigits(r, c);
    PlainDigits(s, d);
    SplitPlain(r, s, '.');
    SplitPlain(q, r + ['.'] + s, '.');
    SplitPlain(p, q + ['.'] + (r + ['.'] + s), '.');
    SplitPlain(s, "", '.');
    assert p + "." + q + "." + r + "." + s == p + ['.'] + (q + ['.'] + (r + ['.'] + s));
  }

  lemma {:induction false} CombinedBound(parts: seq<string>)
    requires AllOctets(parts)
    ensures Combined(parts) < Pow2(8 * |parts|)
  {
    if parts != [] {
      var n := |parts| - 1;
      CombinedBound(parts[..n]);
      Pow2Add(8 * n, 8);
      Pow2Eight();
      var c := Combined(parts[..n]);
      assert (c + 1) * 256 <= Pow2(8 * n) * 256;
    }
  }

  lemma Pow2Eight()
    ensures Pow2(8) == 256
  {
    assert Pow2(4) == 16;
  }

  lemma Pow2Word()
    ensures Pow2(24) == 0x100_0000 && Pow2(32) == TWO_32
  {
    Pow2Eight();
    Pow2Add(8, 8);
    Pow2Add(16, 8);
    Pow2Add(16, 16);
  }

  /** Shifting in an octet never loses bits of the three before it. */
  lemma ShiftIn(out: Word, octet: nat)
    requires out < Pow2(24) && octet <= 255
    ensures BitOr(Shl(out, 8), octet) == out * 256 + octet
  {
    Pow2Word();
    Pow2Eight();
    ModIs(out * 256, TWO_32, 0, out * 256);
    ModIs(out * 256, 256, out, 0);
    OrDisjoint(out * 256, octet, 8);
  }

  method ToInt(text: string) returns (r: Option<nat>)
    ensures r == Address(text)
    ensures r.Some? ==> r.value < TWO_32
  {
    hide Split, Octet, Pow2, Combined, BitOr, Shl;
    var parts := Split(text, '.');
    Pow2Word();
    if |parts| != 4 {
      return None;
    }
    var out: Word := 0;
    NothingCombined();
    for i := 0 to |parts|
      invariant AllOctets(parts[..i]) && out == Combined(parts[..i])
    {
      assert parts[..i + 1] == parts[..i] + [parts[i]];
      var octet := Octet(parts[i]);
      if octet.None? {
        assert parts[i] in parts;
        return None;
      }
      CombinedBound(parts[..i]);
      Pow2Grows(8 * i, 24);
      OctetBound(parts[i]);
      ShiftIn(out, octet.value);
      CombinedNext(parts, i);
      CombinedBound(parts[..i + 1]);
      Pow2Grows(8 * (i + 1), 32);
      out := BitOr(Shl(out, 8), octet.value);
    }
    assert parts[..|parts|] == parts;
    r := Some(out);
  }

  lemma OctetBound(part: string)
    ensures Octet(part).Some? ==> Octet(part).value <= 255
  {
  }

  lemma NothingCombined()
    ensures Combined([]) == 0
  {
  }

  lemma CombinedNext(parts: seq<string>, i: nat)
    requires i < |parts| && AllOctets(parts[..i]) && Octet(parts[i]).Some?
    ensures AllOctets(parts[..i + 1])
    ensures Combined(parts[..i + 1]) == Combined(parts[..i]) * 256 + Octet(parts[i]).value
  {
    assert parts[..i + 1][..i] == parts[..i];
    assert parts[..i + 1] == parts[..i] + [parts[i]];
  }

  // ---- Ranges

  /** The size of a range's prefix: 32 when there is no slash. */
  function PrefixBits(number: string -> Option<int>, pieces: seq<string>): Option<nat> {
    if |pieces| < 2 then Some(32)
    else match number(pieces[1])
      case None => None
      case Some(bits) => if 0 <= bits <= 32 then Some(bits) else None
  }

  /** The meaning: both are addresses, and their top bits agree as quotients. */
  predicate InRange(number: string -> Option<int>, ip: string, cidr: string) {
    var pieces := Split(cidr, '/');
    var bits := PrefixBits(number, pieces);
    && bits.Some? && Address(ip).Some? && Address(pieces[0]).Some?
    && Address(ip).value / Pow2(32 - bits.value) == Address(pieces[0]).value / Pow2(32 - bits.value)
  }

  /** The mask keeps the top bits. */
  lemma MaskIs(k: nat)
    requires k < 32
    ensures Shl(0xffff_ffff, k) == Pow2(32) - Pow2(k)
  {
    hide Pow2;
    var p := Pow2(k);
    Pow2Word();
    Pow2Grows(k, 32);
    ModIs(0xffff_ffff * p, TWO_32, p - 1, TWO_32 - p);
  }

  lemma SameTop(x: nat, y: nat, p: nat)
    requires p > 0
    ensures x - x % p == y - y % p <==> x / p == y / p
  {
    DivMod(x, p);
    DivMod(y, p);
    var d := x / p - y / p;
    assert (x - x % p) - (y - y % p) == d * p;
    if d != 0 {
      NonZeroMul(d, p);
    }
  }

  method IpInCidr(number: string -> Option<int>, ip: string, cidr: string) returns (inside: bool)
    ensures inside <==> InRange(number, ip, cidr)
  {
    hide Address, Pow2, BitAnd, Shl, Split;
    var pieces := Split(cidr, '/');
    var range := pieces[0];
    if range == "" {
      EmptyIsNoAddress();
      return false;
    }
    var bits := 32;
    if |pieces| >= 2 {
      var given := number(pieces[1]);
      if given.None? || given.value < 0 || given.value > 32 {
        return false;
      }
      bits := given.value;
    }
    var ipInt := ToInt(ip);
    var rangeInt := ToInt(range);
    if ipInt.None? || rangeInt.None? {
      return false;
    }
    Pow2Word();
    if bits == 0 {
      SmallQuotient(ipInt.value);
      SmallQuotient(rangeInt.value);
      return true;
    }
    MaskIs(32 - bits);
    AndHighMask(ipInt.value, 32 - bits, 32);
    AndHighMask(rangeInt.value, 32 - bits, 32);
    SameTop(ipInt.value, rangeInt.value, Pow2(32 - bits));
    var mask: nat := Shl(0xffff_ffff, 32 - bits);
    inside := BitAnd(ipInt.value, mask) == BitAnd(rangeInt.value, mask);
  }

  lemma EmptyIsNoAddress()
    ensures Address("").None?
  {
    assert Split("", '.') == [""];
  }

  lemma SmallQuotient(x: nat)
    requires x < TWO_32
    ensures x / Pow2(32) == 0
  {
    Pow2Word();
  }

  // ---- Malformed ranges

  /** An address, alone or with one or two decimal digits of at most 32 after its one slash. */
  predicate WellFormed(cidr: string) {
    var pieces := Split(cidr, '/');
    && |pieces| <= 2 && Address(pieces[0]).Some?
    && (|pieces| == 2 ==> 1 <= |pieces[1]| <= 2 && AllDigits(pieces[1]) && DecimalValue(pieces[1]) <= 32)
  }

  /** What the code goes by: the first piece is an address and the second, if any, a number up to 32 to `Number`. */
  predicate Accepted(number: string -> Option<int>, cidr: string) {
    var pieces := Split(cidr, '/');
    PrefixBits(number, pieces).Some? && Address(pieces[0]).Some?
  }

  /** A range holds some address, its own to begin with, exactly when the code accepts it. */
  lemma HoldsSomeExactly(number: string -> Option<int>, cidr: string)
    ensures (exists ip :: InRange(number, ip, cidr)) <==> Accepted(number, cidr)
  {
    hide Address, Split;
    if Accepted(number, cidr) {
      var range := Split(cidr, '/')[0];
      assert InRange(number, range, cidr);
    }
  }

  /**
   * "A malformed range never matches" holds of a malformed range if and only if its
   * first piece is no address or `Number` makes nothing between 0 and 32 of its second.
   */
  lemma MalformedNeverMatchesExactly(number: string -> Option<int>, cidr: string)
    requires !WellFormed(cidr)
    ensures (forall ip :: !InRange(number, ip, cidr)) <==>
      || Address(Split(cidr, '/')[0]).None?
      || (|Split(cidr, '/')| >= 2
          && match number(Split(cidr, '/')[1]) case None => true case Some(bits) => bits < 0 || bits > 32)
  {
    hide Address, Split, WellFormed;
    HoldsSomeExactly(number, cidr);
  }

  /** A well-formed range is accepted, given that `Number` reads decimal digits as such. */
  lemma WellFormedAccepted(number: string -> Option<int>, cidr: string)
    requires WellFormed(cidr)
    requires forall text :: text != "" && AllDigits(text) ==> number(text) == Some(DecimalValue(text))
    ensures Accepted(number, cidr)
  {
    hide Address, Split;
  }

  /** What follows a second slash is not looked at. */
  lemma SecondSlashIgnored(number: string -> Option<int>, ip: string, range: string, prefix: string, more: string)
    requires '/' !in range && '/' !in prefix
    ensures InRange(number, ip, range + "/" + prefix + "/" + more) <==> InRange(number, ip, range + "/" + prefix)
    ensures !WellFormed(range + "/" + prefix + "/" + more)
  {
    hide Address;
    var long := range + "/" + prefix + "/" + more;
    SplitPlain(range, prefix + ['/'] + more, '/');
    SplitPlain(prefix, more, '/');
    assert range + ['/'] + (prefix + ['/'] + more) == long;
    SplitPlain(range, prefix, '/');
    assert range + ['/'] + prefix == range + "/" + prefix;
    assert Split(long, '/') == [range] + ([prefix] + Split(more, '/'));
    assert |Split(long, '/')| >= 3;
  }

  /**
   * The case at hand: a slash with nothing after it. `Number("")` is zero, so the
   * range holds every address.
   */
  lemma EmptyPrefixHoldsAll(number: string -> Option<int>, ip: string, range: string)
    requires number("") == Some(0) && '/' !in range && Address(range).Some? && Address(ip).Some?
    ensures InRange(number, ip, range + "/") && !WellFormed(range + "/")
  {
    hide Address;
    SplitPlain(range, "", '/');
    assert range + ['/'] + "" == range + "/";
    assert Split("", '/') == [""];
    AddressBound(ip);
    AddressBound(range);
    SmallQuotient(Address(ip).value);
    SmallQuotient(Address(range).value);
  }

  lemma AddressBound(text: string)
    ensures Address(text).Some? ==> Address(text).value < TWO_32
  {
    Pow2Word();
    if Address(text).Some? {
      CombinedBound(Split(text, '.'));
    }
  }
}
