/**
 * HTTP byte ranges (apps/server/src/s3/range.ts): one `bytes=` range is resolved
 * against an object's size and printed again for the storage behind the gateway.
 */
module Range {
  import opened Digits
  import opened Bytes
  import JsBits

  /** The least whole number that JavaScript's Number reads as Infinity. */
  const NUMBER_OVERFLOW: int := JsBits.Pow2(1024) - JsBits.Pow2(970)

  const PREFIX: string := "bytes="

  datatype ResolvedRange = ResolvedRange(start: nat, end: nat, length: nat, totalSize: nat, headerValue: string)

  /** A whole-object answer, one range, or the two errors. */
  datatype Parsed = Whole | Part(range: ResolvedRange) | NotImplemented | InvalidRange

  // ---- Digits

  function Decimal(n: nat): (s: string)
    ensures s != "" && AllDigits(s) && DecimalValue(s) == n
  {
    var digit := [('0' as int + n % 10) as char];
    if n < 10 then digit
    else
      var s := Decimal(n / 10) + digit;
      assert s[..|s| - 1] == Decimal(n / 10);
      s
  }

  // ---- The header

  /** JavaScript's white space and line terminators, which `trim` removes. */
  predicate IsSpace(c: char) {
    c in "\t\n\r " || c == '\U{0B}' || c == '\U{0C}' || c == '\U{A0}' || c == '\U{1680}'
    || '\U{2000}' <= c <= '\U{200A}'
    || c == '\U{2028}' || c == '\U{2029}' || c == '\U{202F}' || c == '\U{205F}' || c == '\U{3000}' || c == '\U{FEFF}'
  }

  function TrimStart(s: string): string {
    if s != "" && IsSpace(s[0]) then TrimStart(s[1..]) else s
  }

  function TrimEnd(s: string): string {
    if s != "" && IsSpace(s[|s| - 1]) then TrimEnd(s[..|s| - 1]) else s
  }

  function LowerAscii(c: char): char {
    if 'A' <= c <= 'Z' then (c as int + 32) as char else c
  }

  predicate HasBytesPrefix(s: string) {
    |s| >= |PREFIX| && forall i :: 0 <= i < |PREFIX| ==> LowerAscii(s[i]) == PREFIX[i]
  }

  function FindChar(s: string, c: char): (i: int)
    ensures i == -1 ==> c !in s
    ensures i != -1 ==> 0 <= i < |s| && s[i] == c && c !in s[..i]
  {
    if s == "" then -1
    else if s[0] == c then 0
    else
      var i := FindChar(s[1..], c);
      assert i != -1 ==> s[..i + 1] == [s[0]] + s[1..][..i];
      if i == -1 then -1 else i + 1
  }

  /** What a range asks for, before the object's size is known. */
  datatype Request = FromTo(first: nat, last: nat) | From(first: nat) | Suffix(count: nat)

  /** Digits, a dash, digits; not both empty. */
  function ParseSpec(spec: string): Option<Request> {
    var dash := FindChar(spec, '-');
    if dash == -1 || !AllDigits(spec[..dash]) || !AllDigits(spec[dash + 1..]) then None
    else
      var first, last := spec[..dash], spec[dash + 1..];
      if first == "" && last == "" then None
      else if first == "" then Some(Suffix(DecimalValue(last)))
      else if last == "" then Some(From(DecimalValue(first)))
      else Some(FromTo(DecimalValue(first), DecimalValue(last)))
  }

  function Finite(n: nat): bool { n < NUMBER_OVERFLOW }

  function Resolve(start: nat, end: nat, totalSize: nat): ResolvedRange
    requires start <= end
  {
    ResolvedRange(start, end, end - start + 1, totalSize, PREFIX + Decimal(start) + "-" + Decimal(end))
  }

  function ResolveRequest(req: Request, totalSize: nat): Parsed {
    if totalSize == 0 then InvalidRange
    else match req
         case Suffix(count) =>
           if !Finite(count) || count == 0 then InvalidRange
           else Part(Resolve(if count < totalSize then totalSize - count else 0, totalSize - 1, totalSize))
         case From(first) =>
           if !Finite(first) || first >= totalSize then InvalidRange
           else Part(Resolve(first, totalSize - 1, totalSize))
         case FromTo(first, last) =>
           if !Finite(first) || !Finite(last) || first >= totalSize || first > last then InvalidRange
           else Part(Resolve(first, if last < totalSize - 1 then last else totalSize - 1, totalSize))
  }

  /** `parseRange`; a missing header is the empty string. */
  function ParseRange(header: string, totalSize: nat): Parsed {
    var trimmed := TrimEnd(TrimStart(header));
    if header == "" || !HasBytesPrefix(trimmed) then Whole
    else
      var spec := trimmed[|PREFIX|..];
      if ',' in spec then NotImplemented
      else match ParseSpec(spec)
           case None => InvalidRange
           case Some(req) => ResolveRequest(req, totalSize)
  }

  // ---- What a header means

  /** The code points that JavaScript trims. */
  const SPACES: set<int> := {
    9, 10, 11, 12, 13, 32, 160, 5760, 8192, 8193, 8194, 8195, 8196, 8197, 8198, 8199, 8200, 8201, 8202,
    8232, 8233, 8239, 8287, 12288, 65279}

  lemma SpacesExactly(c: char)
    ensures IsSpace(c) <==> c as int in SPACES
  {
    assert c in "\t\n\r " <==> c as int in {9, 10, 13, 32};
  }

  predicate AllSpace(s: string) { forall i :: 0 <= i < |s| ==> s[i] as int in SPACES }

  predicate Trimmed(s: string) { s == "" || (s[0] as int !in SPACES && s[|s| - 1] as int !in SPACES) }

  lemma {:induction false} TrimStartSkips(a: string, core: string)
    requires AllSpace(a) && (core == "" || core[0] as int !in SPACES)
    ensures TrimStart(a + core) == core
  {
    hide IsSpace;
    if a == "" {
      assert a + core == core;
      if core != "" {
        SpacesExactly(core[0]);
      }
    } else {
      SpacesExactly(a[0]);
      assert (a + core)[1..] == a[1..] + core;
      TrimStartSkips(a[1..], core);
    }
  }

  lemma {:induction false} TrimEndSkips(core: string, b: string)
    requires AllSpace(b) && (core == "" || core[|core| - 1] as int !in SPACES)
    ensures TrimEnd(core + b) == core
  {
    hide IsSpace;
    if b == "" {
      assert core + b == core;
      if core != "" {
        SpacesExactly(core[|core| - 1]);
      }
    } else {
      var n := |b| - 1;
      SpacesExactly(b[n]);
      assert (core + b)[..|core| + n] == core + b[..n] && (core + b)[|core| + n] == b[n];
      TrimEndSkips(core, b[..n]);
    }
  }

  lemma TrimsTo(a: string, core: string, b: string)
    requires AllSpace(a) && AllSpace(b) && Trimmed(core)
    ensures TrimEnd(TrimStart(a + core + b)) == core
  {
    hide IsSpace;
    if core == "" {
      assert a + core + b == (a + b) + "" && AllSpace(a + b);
      TrimStartSkips(a + b, "");
      TrimEndSkips("", "");
    } else {
      assert a + core + b == a + (core + b);
      TrimStartSkips(a, core + b);
      TrimEndSkips(core, b);
    }
  }

  /** The unit, in any case. */
  predicate IsUnit(s: string) {
    |s| == 6 && s[0] in "bB" && s[1] in "yY" && s[2] in "tT" && s[3] in "eE" && s[4] in "sS" && s[5] == '='
  }

  lemma LowerIs(c: char, lower: char)
    requires 'a' <= lower <= 'z'
    ensures LowerAscii(c) == lower <==> c == lower || c as int == lower as int - 32
  {
  }

  lemma UnitExactly(s: string)
    ensures HasBytesPrefix(s) <==> |s| >= 6 && IsUnit(s[..6])
  {
    hide LowerAscii;
    if |s| >= 6 {
      LowerIs(s[0], 'b');
      LowerIs(s[1], 'y');
      LowerIs(s[2], 't');
      LowerIs(s[3], 'e');
      LowerIs(s[4], 's');
      EqualsIs(s[5]);
      assert PREFIX[0] == 'b' && PREFIX[1] == 'y' && PREFIX[2] == 't' && PREFIX[3] == 'e' && PREFIX[4] == 's';
    }
  }

  lemma EqualsIs(c: char)
    ensures LowerAscii(c) == '=' <==> c == '='
  {
  }

  /** What a specification after the unit asks for: at least one number, around one dash. */
  predicate Specifies(spec: string, first: string, last: string) {
    AllDigits(first) && AllDigits(last) && (first != "" || last != "") && spec == first + "-" + last
  }

  /** With two numbers from the first to the second, with one from it to the end, or that many at the end. */
  function Asked(first: string, last: string): Request
    requires AllDigits(first) && AllDigits(last)
  {
    if last == "" then From(DecimalValue(first))
    else if first == "" then Suffix(DecimalValue(last))
    else FromTo(DecimalValue(first), DecimalValue(last))
  }

  lemma SpecExactly(spec: string)
    ensures forall first, last :: Specifies(spec, first, last) ==> ParseSpec(spec) == Some(Asked(first, last))
    ensures ParseSpec(spec).Some? ==> exists first, last :: Specifies(spec, first, last)
  {
    forall first, last | Specifies(spec, first, last) ensures ParseSpec(spec) == Some(Asked(first, last)) {
      DashAfterDigits(first, last);
      assert spec[..|first|] == first && spec[|first| + 1..] == last;
    }
    if ParseSpec(spec).Some? {
      var dash := FindChar(spec, '-');
      assert spec == spec[..dash] + "-" + spec[dash + 1..];
      assert Specifies(spec, spec[..dash], spec[dash + 1..]);
    }
  }

  /**
   * Every header, with white space around it or not: without the unit it asks for the
   * whole object; several ranges are not served; one range is resolved, by the lemma
   * that follows; anything else is refused.
   */
  lemma HeaderExactly(a: string, core: string, b: string, unit: string, spec: string, first: string, last: string,
                      totalSize: nat)
    requires AllSpace(a) && AllSpace(b) && Trimmed(core)
    ensures var p := ParseRange(a + core + b, totalSize);
            && (!(|core| >= 6 && IsUnit(core[..6])) ==> p == Whole)
            && (core == unit + spec && IsUnit(unit) ==>
                  && (',' in spec ==> p == NotImplemented)
                  && (Specifies(spec, first, last) ==> p == ResolveRequest(Asked(first, last), totalSize))
                  && (',' !in spec && (forall f, l :: !Specifies(spec, f, l)) ==> p == InvalidRange))
  {
    hide HasBytesPrefix, ParseSpec, ResolveRequest, TrimStart, TrimEnd, AllDigits, DecimalValue;
    TrimsTo(a, core, b);
    UnitExactly(core);
    if a + core + b == "" {
      assert core == "";
    }
    if core == unit + spec && IsUnit(unit) {
      assert core[..6] == unit && core[6..] == spec;
      SpecExactly(spec);
      if Specifies(spec, first, last) {
        PlainSpec(spec, first, last);
      }
    }
  }

  lemma PlainSpec(spec: string, first: string, last: string)
    requires Specifies(spec, first, last)
    ensures ',' !in spec
  {
  }

  // ---- What a range means

  /** Byte i of an object of this size is among those asked for (section 14.1.2 of RFC 9110). */
  predicate Wants(req: Request, totalSize: nat, i: nat) {
    i < totalSize &&
    match req
    case FromTo(first, last) => first <= i <= last
    case From(first) => first <= i
    case Suffix(count) => i + count >= totalSize
  }

  predicate FiniteRequest(req: Request) {
    match req
    case FromTo(first, last) => Finite(first) && Finite(last)
    case From(first) => Finite(first)
    case Suffix(count) => Finite(count)
  }

  /**
   * A request resolves to exactly the bytes it asks for; it is refused exactly
   * when it asks for none (or its numbers overflow).
   */
  lemma ResolvesToWanted(req: Request, totalSize: nat)
    requires FiniteRequest(req)
    ensures var p := ResolveRequest(req, totalSize);
            && (p == InvalidRange <==> forall i :: 0 <= i < totalSize ==> !Wants(req, totalSize, i))
            && (p != InvalidRange ==>
                  && p.Part? && p.range.start <= p.range.end < totalSize
                  && p.range.length == p.range.end - p.range.start + 1
                  && forall i :: 0 <= i < totalSize ==>
                       (Wants(req, totalSize, i) <==> p.range.start <= i <= p.range.end))
  {
    var p := ResolveRequest(req, totalSize);
    if p.Part? {
      assert Wants(req, totalSize, p.range.start);
    } else {
      assert p == InvalidRange;
      forall i | 0 <= i < totalSize ensures !Wants(req, totalSize, i) {
      }
    }
  }

  /** Numbers too large for JavaScript are refused, and a resolved range says what it is of. */
  lemma ResolvedExactly(req: Request, totalSize: nat)
    ensures var p := ResolveRequest(req, totalSize);
            && p != Whole && p != NotImplemented
            && (!FiniteRequest(req) ==> p == InvalidRange)
            && (p.Part? ==>
                  && p.range.totalSize == totalSize
                  && p.range.headerValue == "bytes=" + Decimal(p.range.start) + "-" + Decimal(p.range.end))
    ensures forall n: nat :: Finite(n) <==> n < JsBits.Pow2(1024) - JsBits.Pow2(970)
  {
    hide Decimal, JsBits.Pow2;
  }

  lemma AcceptedRange(header: string, totalSize: nat)
    requires ParseRange(header, totalSize).Part?
    ensures var r := ParseRange(header, totalSize).range;
            r == Resolve(r.start, r.end, totalSize) && r.start <= r.end < totalSize
  {
    hide Decimal, FindChar, TrimStart, TrimEnd, HasBytesPrefix, ParseSpec, Finite;
  }

  // ---- The storage's reading of the forwarded header

  /** The half-open slice a stored blob answers a `bytes=a-b` header with; None is the whole blob. */
  function StorageSlice(header: string, total: nat): (r: Option<(nat, nat)>)
    ensures r != None ==> r.value.0 <= r.value.1 <= total
  {
    if |header| < |PREFIX| || header[..|PREFIX|] != PREFIX then None
    else
      var spec := header[|PREFIX|..];
      var dash := FindChar(spec, '-');
      if dash == -1 || !AllDigits(spec[..dash]) || !AllDigits(spec[dash + 1..]) then None
      else
        var start := if spec[..dash] == "" then 0 else DecimalValue(spec[..dash]);
        var stop := if spec[dash + 1..] == "" || DecimalValue(spec[dash + 1..]) + 1 > total then total
                    else DecimalValue(spec[dash + 1..]) + 1;
        var lo := if start > total then total else start;
        Some((lo, if stop < lo then lo else stop))
  }

  /** Which bytes the storage answers with: those from the first number, if any, to the second, if any. */
  lemma SliceExactly(first: string, last: string, total: nat, i: nat)
    requires AllDigits(first) && AllDigits(last) && i < total
    ensures var span := StorageSlice("bytes=" + first + "-" + last, total);
            span.Some? && (span.value.0 <= i < span.value.1 <==>
                             (first == "" || DecimalValue(first) <= i) && (last == "" || i <= DecimalValue(last)))
  {
    var header := "bytes=" + first + "-" + last;
    assert header == PREFIX + (first + "-" + last);
    assert header[..|PREFIX|] == PREFIX && header[|PREFIX|..] == first + "-" + last;
    DashAfterDigits(first, last);
    var spec := first + "-" + last;
    assert spec[..|first|] == first && spec[|first| + 1..] == last;
  }

  predicate Spans(header: string, first: string, last: string) {
    AllDigits(first) && AllDigits(last) && header == "bytes=" + first + "-" + last
  }

  /** Any other header is answered with the whole blob. */
  lemma SlicesExactly(header: string, total: nat)
    ensures StorageSlice(header, total).Some? <==> exists first, last :: Spans(header, first, last)
  {
    hide StorageSlice, Spans;
    if StorageSlice(header, total).Some? {
      var first, last := SliceSpans(header, total);
    }
    if first, last :| Spans(header, first, last) {
      SpansSlice(header, first, last, total);
    }
  }

  lemma SliceSpans(header: string, total: nat) returns (first: string, last: string)
    requires StorageSlice(header, total).Some?
    ensures Spans(header, first, last)
  {
    hide DecimalValue, AllDigits;
    var spec := header[|PREFIX|..];
    var dash := FindChar(spec, '-');
    first, last := spec[..dash], spec[dash + 1..];
    assert header == PREFIX + spec && spec == first + "-" + last;
  }

  lemma SpansSlice(header: string, first: string, last: string, total: nat)
    requires Spans(header, first, last)
    ensures StorageSlice(header, total).Some?
  {
    hide DecimalValue, AllDigits, FindChar;
    assert header == PREFIX + (first + "-" + last);
    var spec := header[|PREFIX|..];
    DashAfterDigits(first, last);
    assert spec == first + "-" + last;
    assert spec[..|first|] == first && spec[|first| + 1..] == last;
  }

  lemma DashAfterDigits(first: string, rest: string)
    requires AllDigits(first)
    ensures FindChar(first + "-" + rest, '-') == |first|
  {
    var s := first + "-" + rest;
    assert forall k :: 0 <= k < |first| ==> s[k] == first[k];
    FindCharIs(s, '-', |first|);
  }

  lemma {:induction false} FindCharIs(s: string, c: char, k: nat)
    requires k < |s| && s[k] == c && forall j :: 0 <= j < k ==> s[j] != c
    ensures FindChar(s, c) == k
  {
    if k > 0 {
      assert s[0] != c;
      FindCharIs(s[1..], c, k - 1);
    }
  }

  /** The header the gateway forwards is read back as the very same span. */
  lemma ForwardedHeaderReadBack(start: nat, end: nat, totalSize: nat)
    requires start <= end < totalSize
    ensures StorageSlice(Resolve(start, end, totalSize).headerValue, totalSize) == Some((start, end + 1))
  {
    hide Decimal, FindChar;
    var header := Resolve(start, end, totalSize).headerValue;
    assert header[..|PREFIX|] == PREFIX;
    var spec := Decimal(start) + "-" + Decimal(end);
    assert header == PREFIX + spec by {
      assert PREFIX + Decimal(start) + "-" + Decimal(end) == PREFIX + (Decimal(start) + "-" + Decimal(end));
    }
    assert header[|PREFIX|..] == spec;
    DashAfterDigits(Decimal(start), Decimal(end));
    assert spec[..|Decimal(start)|] == Decimal(start);
    assert spec[|Decimal(start)| + 1..] == Decimal(end);
  }
}
