/**
 * The percent-encoding and the canonical query of AWS Signature Version 4
 * (apps/server/src/auth/sigv4-canonical.ts, and its use in
 * apps/server/src/backup/s3-client.ts). Texts are their UTF-8 bytes, as in sections
 * 2.1 and 2.3 of RFC 3986; what encoding leaves is ASCII.
 */
module SigV4 {
  import opened Bytes
  import opened Digits

  type Text = seq<Byte>

  const PERCENT: Byte := 0x25
  const AMPERSAND: Byte := 0x26
  const PLUS: Byte := 0x2b
  const SLASH: Byte := 0x2f
  const EQUALS: Byte := 0x3d
  const SPACE: Byte := 0x20

  predicate Unreserved(b: Byte) {
    (0x41 <= b <= 0x5a) || (0x61 <= b <= 0x7a) || (0x30 <= b <= 0x39)
    || b == 0x2d || b == 0x5f || b == 0x2e || b == 0x7e
  }

  /** An upper-case hexadecimal digit. */
  function Digit(n: int): Byte
    requires 0 <= n < 16
  {
    if n < 10 then 0x30 + n else 0x41 + n - 10
  }

  function EncodeByte(b: Byte, encodeSlash: bool): Text {
    if Unreserved(b) || (b == SLASH && !encodeSlash) then [b]
    else [PERCENT, Digit(b / 16), Digit(b % 16)]
  }

  function Encoded(s: Text, encodeSlash: bool): Text {
    if s == [] then [] else EncodeByte(s[0], encodeSlash) + Encoded(s[1..], encodeSlash)
  }

  lemma {:induction false} EncodedSnoc(s: Text, b: Byte, encodeSlash: bool)
    ensures Encoded(s + [b], encodeSlash) == Encoded(s, encodeSlash) + EncodeByte(b, encodeSlash)
  {
    hide EncodeByte;
    if s == [] {
      assert [b][1..] == [];
    } else {
      assert (s + [b])[1..] == s[1..] + [b] && (s + [b])[0] == s[0];
      EncodedSnoc(s[1..], b, encodeSlash);
      Assoc(EncodeByte(s[0], encodeSlash), Encoded(s[1..], encodeSlash), EncodeByte(b, encodeSlash));
    }
  }

  method UriEncode(input: Text, encodeSlash: bool) returns (out: Text)
    ensures out == Encoded(input, encodeSlash) && Decoded(out) == input
  {
    hide Encoded;
    DecodeInvertsEncode(input, encodeSlash);
    out := [];
    EncodedNone(encodeSlash);
    for i := 0 to |input|
      invariant out == Encoded(input[..i], encodeSlash)
    {
      var ch := input[i];
      EncodedSnoc(input[..i], ch, encodeSlash);
      assert input[..i + 1] == input[..i] + [ch];
      if Unreserved(ch) {
        out := out + [ch];
      } else if ch == SLASH {
        out := out + if encodeSlash then [PERCENT, 0x32, 0x46] else [SLASH];
      } else {
        out := out + [PERCENT, Digit(ch / 16), Digit(ch % 16)];
      }
    }
    assert input[..|input|] == input;
  }

  lemma EncodedNone(encodeSlash: bool)
    ensures Encoded([], encodeSlash) == []
  {
  }

  // ---- Decoding

  /** Form decoding: a plus sign is a space, and a percent sign without two digits stands for itself. */
  function Decoded(s: Text): Text {
    if s == [] then []
    else if s[0] == PERCENT && |s| >= 3 && HexDigit(s[1]) && HexDigit(s[2])
    then [16 * HexDigitValue(s[1]) + HexDigitValue(s[2])] + Decoded(s[3..])
    else [if s[0] == PLUS then SPACE else s[0]] + Decoded(s[1..])
  }

  lemma DecodeOne(b: Byte, encodeSlash: bool, rest: Text)
    ensures Decoded(EncodeByte(b, encodeSlash) + rest) == [b] + Decoded(rest)
  {
    var e := EncodeByte(b, encodeSlash);
    var s := e + rest;
    if |e| == 1 {
      assert s[1..] == rest;
    } else {
      assert s[3..] == rest;
      DigitBack(b / 16);
      DigitBack(b % 16);
    }
  }

  lemma DigitBack(n: int)
    requires 0 <= n < 16
    ensures HexDigit(Digit(n)) && HexDigitValue(Digit(n)) == n
  {
  }

  /** Percent-decoding undoes the encoding, with slashes encoded or not. */
  lemma {:induction false} DecodeInvertsEncode(s: Text, encodeSlash: bool)
    ensures Decoded(Encoded(s, encodeSlash)) == s
  {
    hide EncodeByte;
    if s == [] {
      assert Decoded([]) == [];
    } else {
      DecodeOne(s[0], encodeSlash, Encoded(s[1..], encodeSlash));
      DecodeInvertsEncode(s[1..], encodeSlash);
    }
  }

  /** So no two texts have the same encoding. */
  lemma EncodeInjective(s: Text, t: Text, encodeSlash: bool)
    ensures Encoded(s, encodeSlash) == Encoded(t, encodeSlash) <==> s == t
  {
    DecodeInvertsEncode(s, encodeSlash);
    DecodeInvertsEncode(t, encodeSlash);
  }

  /** Neither separator of a query survives encoding. */
  lemma {:induction false} EncodedIsPlain(s: Text)
    ensures AMPERSAND !in Encoded(s, true) && EQUALS !in Encoded(s, true) && PLUS !in Encoded(s, true)
  {
    if s != [] {
      EncodedIsPlain(s[1..]);
    }
  }

  /** The characters that section 2.3 of RFC 3986 leaves as they are. */
  const UPPER := "ABCDEFGHIJKLMNOPQRSTUVWXYZ"
  const LOWER := "abcdefghijklmnopqrstuvwxyz"
  const UNRESERVED := UPPER + LOWER + "0123456789" + "-._~"

  lemma UpperIs(b: Byte)
    ensures 0x41 <= b <= 0x5a <==> b as char in UPPER
  {
    assert |UPPER| == 26 && forall i :: 0 <= i < 26 ==> UPPER[i] as int == 0x41 + i;
    if 0x41 <= b <= 0x5a {
      assert UPPER[b - 0x41] == b as char;
    }
  }

  lemma LowerIs(b: Byte)
    ensures 0x61 <= b <= 0x7a <==> b as char in LOWER
  {
    assert |LOWER| == 26 && forall i :: 0 <= i < 26 ==> LOWER[i] as int == 0x61 + i;
    if 0x61 <= b <= 0x7a {
      assert LOWER[b - 0x61] == b as char;
    }
  }

  lemma DecimalIs(b: Byte)
    ensures 0x30 <= b <= 0x39 <==> b as char in "0123456789"
  {
    var digits := "0123456789";
    assert forall i :: 0 <= i < 10 ==> digits[i] as int == 0x30 + i;
    if 0x30 <= b <= 0x39 {
      assert digits[b - 0x30] == b as char;
    }
  }

  lemma UnreservedIs(b: Byte)
    ensures Unreserved(b) <==> b as char in UNRESERVED
  {
    UpperIs(b);
    LowerIs(b);
    DecimalIs(b);
    var c := b as char;
    assert c in UNRESERVED <==> c in UPPER || c in LOWER || c in "0123456789" || c in "-._~";
    assert c in "-._~" <==> c == '-' || c == '.' || c == '_' || c == '~';
  }

  /**
   * What each byte is encoded as: itself when it is one of these or a slash to be
   * kept, and else a percent sign and two upper-case hexadecimal digits.
   */
  lemma EncodesAs(b: Byte, encodeSlash: bool)
    ensures EncodeByte(b, encodeSlash) ==
              if b as char in UNRESERVED || (b as char == '/' && !encodeSlash) then [b]
              else ['%' as int, "0123456789ABCDEF"[b / 16] as int, "0123456789ABCDEF"[b % 16] as int]
  {
    hide Unreserved;
    UnreservedIs(b);
    HexIs(b / 16);
    HexIs(b % 16);
  }

  lemma HexIs(n: int)
    requires 0 <= n < 16
    ensures Digit(n) == "0123456789ABCDEF"[n] as int
  {
    var digits := "0123456789ABCDEF";
    assert forall i :: 0 <= i < 10 ==> digits[i] as int == 0x30 + i;
    assert forall i :: 10 <= i < 16 ==> digits[i] as int == 0x41 + (i - 10);
  }

  /** What decoding makes of the text that encoding never writes. */
  lemma DecodesPlus(rest: Text)
    ensures Decoded(['+' as int] + rest) == [' ' as int] + Decoded(rest)
    ensures Decoded(['%' as int]) == ['%' as int]
  {
    assert (['+' as int] + rest)[1..] == rest;
    assert ['%' as int][1..] == [];
  }

  // ---- The order of the pairs

  datatype Pair = Pair(name: Text, value: Text)

  /** The order of strings, by their characters and then by length. */
  predicate Lex(a: Text, b: Text) {
    a == [] || (b != [] && (a[0] < b[0] || (a[0] == b[0] && Lex(a[1..], b[1..]))))
  }

  /** That is: one is the beginning of the other, or has the smaller character where they first differ. */
  lemma LexExactly(a: Text, b: Text)
    ensures Lex(a, b) <==> a <= b || exists i :: DiffersAt(a, b, i)
  {
    hide Lex, DiffersAt;
    if Lex(a, b) {
      LexShows(a, b);
    }
    if a <= b {
      PrefixLex(a, b);
    }
    if i :| DiffersAt(a, b, i) {
      DifferenceLex(a, b, i);
    }
  }

  predicate DiffersAt(a: Text, b: Text, i: int) { 0 <= i < |a| && i < |b| && a[..i] == b[..i] && a[i] < b[i] }

  lemma {:induction false} LexShows(a: Text, b: Text)
    requires Lex(a, b)
    ensures a <= b || exists i :: DiffersAt(a, b, i)
  {
    if a != [] {
      if a[0] < b[0] {
        assert DiffersAt(a, b, 0);
      } else {
        LexShows(a[1..], b[1..]);
        assert a == [a[0]] + a[1..] && b == [b[0]] + b[1..];
        if i :| DiffersAt(a[1..], b[1..], i) {
          assert a[..i + 1] == [a[0]] + a[1..][..i] && b[..i + 1] == [b[0]] + b[1..][..i];
          assert DiffersAt(a, b, i + 1);
        }
      }
    }
  }

  lemma {:induction false} PrefixLex(a: Text, b: Text)
    requires a <= b
    ensures Lex(a, b)
  {
    if a != [] {
      assert a[0] == b[0] && a[1..] <= b[1..];
      PrefixLex(a[1..], b[1..]);
    }
  }

  lemma {:induction false} DifferenceLex(a: Text, b: Text, i: int)
    requires DiffersAt(a, b, i)
    ensures Lex(a, b)
  {
    if i > 0 {
      assert a[..i][0] == b[..i][0];
      assert a[1..][..i - 1] == a[..i][1..] && b[1..][..i - 1] == b[..i][1..];
      DifferenceLex(a[1..], b[1..], i - 1);
    }
  }

  predicate PairLeq(a: Pair, b: Pair) { if a.name != b.name then Lex(a.name, b.name) else Lex(a.value, b.value) }

  lemma {:induction false} LexTotal(a: Text, b: Text)
    ensures Lex(a, b) || Lex(b, a)
    ensures Lex(a, b) && Lex(b, a) ==> a == b
  {
    if a != [] && b != [] {
      LexTotal(a[1..], b[1..]);
      assert a == [a[0]] + a[1..] && b == [b[0]] + b[1..];
    }
  }

  lemma {:induction false} LexTransitive(a: Text, b: Text, c: Text)
    requires Lex(a, b) && Lex(b, c)
    ensures Lex(a, c)
  {
    if a != [] && a[0] == b[0] == c[0] {
      LexTransitive(a[1..], b[1..], c[1..]);
    }
  }

  function EncodedPair(p: Pair): Pair { Pair(Encoded(p.name, true), Encoded(p.value, true)) }

  /** The order in which parameters are signed: that of their encodings. */
  predicate Leq(a: Pair, b: Pair) { PairLeq(EncodedPair(a), EncodedPair(b)) }

  lemma LeqTotal(a: Pair, b: Pair)
    ensures Leq(a, b) || Leq(b, a)
    ensures Leq(a, b) && Leq(b, a) ==> a == b
  {
    hide Lex, Encoded;
    var x, y := EncodedPair(a), EncodedPair(b);
    LexTotal(x.name, y.name);
    LexTotal(x.value, y.value);
    EncodeInjective(a.name, b.name, true);
    EncodeInjective(a.value, b.value, true);
  }

  lemma LeqTransitive(a: Pair, b: Pair, c: Pair)
    requires Leq(a, b) && Leq(b, c)
    ensures Leq(a, c)
  {
    hide Lex, Encoded;
    var x, y, z := EncodedPair(a), EncodedPair(b), EncodedPair(c);
    LexTotal(x.name, y.name);
    LexTotal(y.name, z.name);
    if x.name == y.name == z.name {
      LexTransitive(x.value, y.value, z.value);
    } else if x.name != y.name && y.name != z.name {
      LexTransitive(x.name, y.name, z.name);
      LexTotal(x.name, z.name);
    }
  }

  // ---- Sorting

  predicate SortedPairs(s: seq<Pair>) { forall i, j :: 0 <= i < j < |s| ==> Leq(s[i], s[j]) }

  function Insert(p: Pair, s: seq<Pair>): seq<Pair> {
    if s == [] then [p] else if Leq(p, s[0]) then [p] + s else [s[0]] + Insert(p, s[1..])
  }

  /** What `Array.prototype.sort` makes of the parameters. */
  function Sort(s: seq<Pair>): seq<Pair> { if s == [] then [] else Insert(s[0], Sort(s[1..])) }

  lemma ConsSorted(first: Pair, rest: seq<Pair>, s: seq<Pair>, p: Pair)
    requires s != [] && first == s[0] && SortedPairs(s) && Leq(first, p) && SortedPairs(rest)
    requires multiset(rest) == multiset(s[1..]) + multiset{p}
    ensures SortedPairs([first] + rest)
  {
    hide Leq;
    forall q | q in rest ensures Leq(first, q) {
      assert q in multiset(rest);
    }
  }

  lemma {:induction false} InsertSorts(p: Pair, s: seq<Pair>)
    requires SortedPairs(s)
    ensures SortedPairs(Insert(p, s)) && multiset(Insert(p, s)) == multiset(s) + multiset{p}
  {
    hide Leq;
    if s != [] {
      assert s == [s[0]] + s[1..];
      LeqTotal(p, s[0]);
      if Leq(p, s[0]) {
        forall j | 0 <= j < |s| ensures Leq(p, s[j]) {
          if j > 0 {
            LeqTransitive(p, s[0], s[j]);
          }
        }
      } else {
        InsertSorts(p, s[1..]);
        ConsSorted(s[0], Insert(p, s[1..]), s, p);
      }
    }
  }

  lemma {:induction false} SortSorts(s: seq<Pair>)
    ensures SortedPairs(Sort(s)) && multiset(Sort(s)) == multiset(s)
  {
    hide Leq, Insert, SortedPairs;
    if s == [] {
      SortedNone();
    } else {
      SortSorts(s[1..]);
      InsertSorts(s[0], Sort(s[1..]));
      assert s == [s[0]] + s[1..];
    }
  }

  lemma SortedNone()
    ensures SortedPairs([])
  {
  }

  /** There is only one way to sort. */
  lemma {:induction false} SortedUnique(s: seq<Pair>, t: seq<Pair>)
    requires SortedPairs(s) && SortedPairs(t) && multiset(s) == multiset(t)
    ensures s == t
  {
    hide Leq, SortedPairs;
    SameSize(s, t);
    if s != [] {
      assert s[0] in multiset(t) && t[0] in multiset(s);
      LeastFirst(s, t[0]);
      LeastFirst(t, s[0]);
      LeqTotal(s[0], t[0]);
      Tail(s);
      Tail(t);
      SortedUnique(s[1..], t[1..]);
      assert s == [s[0]] + s[1..] && t == [t[0]] + t[1..];
    }
  }

  lemma SameSize(s: seq<Pair>, t: seq<Pair>)
    requires multiset(s) == multiset(t)
    ensures |s| == |t|
  {
    assert |multiset(s)| == |s| && |multiset(t)| == |t|;
  }

  lemma Tail(s: seq<Pair>)
    requires s != []
    ensures multiset(s[1..]) == multiset(s) - multiset{s[0]}
    ensures SortedPairs(s) ==> SortedPairs(s[1..])
  {
    hide Leq;
    assert s == [s[0]] + s[1..];
  }

  lemma LeastFirst(s: seq<Pair>, p: Pair)
    requires SortedPairs(s) && s != [] && p in s
    ensures Leq(s[0], p)
  {
    hide Leq;
    LeqTotal(s[0], s[0]);
  }

  // ---- The query

  function PairText(p: Pair): Text { Encoded(p.name, true) + [EQUALS] + Encoded(p.value, true) }

  /** Pairs, encoded and joined. */
  function Joined(s: seq<Pair>): Text {
    if s == [] then []
    else if |s| == 1 then PairText(s[0])
    else PairText(s[0]) + [AMPERSAND] + Joined(s[1..])
  }

  function CanonicalQuery(query: seq<Pair>): Text { Joined(Sort(query)) }

  // The code encodes first and sorts the encodings, which comes to the same.

  function InsertEncoded(p: Pair, s: seq<Pair>): seq<Pair> {
    if s == [] then [p] else if PairLeq(p, s[0]) then [p] + s else [s[0]] + InsertEncoded(p, s[1..])
  }

  function SortEncoded(s: seq<Pair>): seq<Pair> { if s == [] then [] else InsertEncoded(s[0], SortEncoded(s[1..])) }

  function EncodedPairs(s: seq<Pair>): seq<Pair> { if s == [] then [] else [EncodedPair(s[0])] + EncodedPairs(s[1..]) }

  lemma {:induction false} InsertEncodes(p: Pair, s: seq<Pair>)
    ensures EncodedPairs(Insert(p, s)) == InsertEncoded(EncodedPair(p), EncodedPairs(s))
  {
    hide PairLeq, EncodedPair;
    if s == [] {
      assert [p][1..] == [];
    } else if Leq(p, s[0]) {
      assert ([p] + s)[1..] == s;
    } else {
      InsertEncodes(p, s[1..]);
      var rest := Insert(p, s[1..]);
      assert ([s[0]] + rest)[1..] == rest;
      assert EncodedPairs(s)[1..] == EncodedPairs(s[1..]);
    }
  }

  lemma {:induction false} EncodeThenSort(s: seq<Pair>)
    ensures SortEncoded(EncodedPairs(s)) == EncodedPairs(Sort(s))
  {
    hide PairLeq, EncodedPair, Insert, InsertEncoded;
    if s != [] {
      EncodeThenSort(s[1..]);
      InsertEncodes(s[0], Sort(s[1..]));
      assert EncodedPairs(s)[1..] == EncodedPairs(s[1..]);
    }
  }

  lemma {:induction false} EncodedPairsSnoc(s: seq<Pair>, p: Pair)
    ensures EncodedPairs(s + [p]) == EncodedPairs(s) + [EncodedPair(p)]
  {
    hide EncodedPair;
    if s == [] {
      assert [p][1..] == [];
    } else {
      assert (s + [p])[1..] == s[1..] + [p] && (s + [p])[0] == s[0];
      EncodedPairsSnoc(s[1..], p);
    }
  }

  /** Encoded pairs, each as name=value, with ampersands between. */
  function JoinEncoded(s: seq<Pair>): Text {
    if s == [] then []
    else if |s| == 1 then s[0].name + [EQUALS] + s[0].value
    else s[0].name + [EQUALS] + s[0].value + [AMPERSAND] + JoinEncoded(s[1..])
  }

  lemma {:induction false} JoinedEncodes(s: seq<Pair>)
    ensures JoinEncoded(EncodedPairs(s)) == Joined(s)
    ensures |EncodedPairs(s)| == |s|
  {
    hide Encoded;
    if s != [] {
      JoinedEncodes(s[1..]);
      assert EncodedPairs(s)[1..] == EncodedPairs(s[1..]);
    }
  }

  method BuildCanonicalQuery(query: seq<Pair>) returns (out: Text)
    ensures out == CanonicalQuery(query) && multiset(Parsed(out)) == multiset(query)
  {
    hide Encoded, Joined, SortEncoded, EncodedPairs, Sort, Parsed;
    SentAsSigned(query);
    var pairs: seq<Pair> := [];
    NoPairs();
    for i := 0 to |query|
      invariant pairs == EncodedPairs(query[..i])
    {
      var name := UriEncode(query[i].name, true);
      var value := UriEncode(query[i].value, true);
      EncodedPairsSnoc(query[..i], query[i]);
      assert query[..i + 1] == query[..i] + [query[i]];
      pairs := pairs + [Pair(name, value)];
    }
    assert query[..|query|] == query;
    EncodeThenSort(query);
    JoinedEncodes(Sort(query));
    pairs := SortEncoded(pairs);
    out := JoinEncoded(pairs);
  }

  lemma NoPairs()
    ensures EncodedPairs([]) == []
  {
  }

  /** The pieces of a text, with one character between. */
  function JoinedBy(pieces: seq<Text>, mark: Byte): Text {
    if pieces == [] then [] else if |pieces| == 1 then pieces[0] else pieces[0] + [mark] + JoinedBy(pieces[1..], mark)
  }

  function Pieces(s: seq<Pair>): seq<Text> {
    seq(|s|, i requires 0 <= i < |s| => Encoded(s[i].name, true) + ['=' as int] + Encoded(s[i].value, true))
  }

  /**
   * The canonical query, character by character: name=value of every parameter,
   * encoded, joined by ampersands, in the order of the encoded names and, for one
   * name, of the encoded values.
   */
  lemma CanonicalText(query: seq<Pair>)
    ensures var sorted := Sort(query);
            && multiset(sorted) == multiset(query)
            && CanonicalQuery(query) == JoinedBy(Pieces(sorted), '&' as int)
            && forall i, j :: 0 <= i < j < |sorted| ==>
                 var a, b := sorted[i], sorted[j];
                 if Encoded(a.name, true) != Encoded(b.name, true)
                 then Lex(Encoded(a.name, true), Encoded(b.name, true))
                 else Lex(Encoded(a.value, true), Encoded(b.value, true))
  {
    hide Sort, Encoded, Lex;
    SortSorts(query);
    JoinedText(Sort(query));
  }

  lemma {:induction false} JoinedText(s: seq<Pair>)
    ensures Joined(s) == JoinedBy(Pieces(s), '&' as int)
  {
    hide Encoded;
    if |s| > 1 {
      JoinedText(s[1..]);
      assert Pieces(s)[1..] == Pieces(s[1..]);
    }
  }

  /** What comes before the first equals sign, and what comes after it. */
  function CutAtEquals(s: Text): (Text, Text) {
    if s == [] then ([], [])
    else if s[0] == EQUALS then ([], s[1..])
    else var (a, b) := CutAtEquals(s[1..]); ([s[0]] + a, b)
  }

  function ParsedPair(piece: Text): Pair {
    var (name, value) := CutAtEquals(piece);
    Pair(Decoded(name), Decoded(value))
  }

  function ParsedPieces(pieces: seq<Text>): seq<Pair> {
    if pieces == [] then []
    else (if pieces[0] == [] then [] else [ParsedPair(pieces[0])]) + ParsedPieces(pieces[1..])
  }

  /** A query string as `URLSearchParams` reads it. */
  function Parsed(s: Text): seq<Pair> { ParsedPieces(Split(s, AMPERSAND)) }

  lemma {:induction false} CutPlain(a: Text, b: Text)
    requires EQUALS !in a
    ensures CutAtEquals(a + [EQUALS] + b) == (a, b)
  {
    var s := a + [EQUALS] + b;
    if a == [] {
      assert s[1..] == b;
    } else {
      assert s[1..] == a[1..] + [EQUALS] + b;
      CutPlain(a[1..], b);
      assert [a[0]] + a[1..] == a;
    }
  }

  lemma PairBack(p: Pair)
    ensures ParsedPair(PairText(p)) == p && AMPERSAND !in PairText(p) && PairText(p) != []
  {
    EncodedIsPlain(p.name);
    EncodedIsPlain(p.value);
    CutPlain(Encoded(p.name, true), Encoded(p.value, true));
    DecodeInvertsEncode(p.name, true);
    DecodeInvertsEncode(p.value, true);
  }

  /** Parsing gives back exactly the pairs that were joined, in their order. */
  lemma {:induction false} ParseInvertsJoin(s: seq<Pair>)
    ensures Parsed(Joined(s)) == s
  {
    hide PairText, ParsedPair;
    if s == [] {
      assert Split([], AMPERSAND) == [[]];
      assert ParsedPieces([[]]) == ParsedPieces([[]][1..]);
    } else {
      var first := PairText(s[0]);
      PairBack(s[0]);
      SplitPlain(first, Joined(s[1..]), AMPERSAND);
      assert s == [s[0]] + s[1..];
      if |s| == 1 {
        assert ParsedPieces([first]) == [s[0]] + ParsedPieces([first][1..]);
      } else {
        ParseInvertsJoin(s[1..]);
        var pieces := Split(Joined(s[1..]), AMPERSAND);
        assert ([first] + pieces)[1..] == pieces;
      }
    }
  }

  /**
   * The canonical query depends only on which parameters there are and how often,
   * and tells any two such collections apart.
   */
  lemma CanonicalExactly(p: seq<Pair>, q: seq<Pair>)
    ensures CanonicalQuery(p) == CanonicalQuery(q) <==> multiset(p) == multiset(q)
  {
    hide Joined, Sort, SortedPairs;
    SortSorts(p);
    SortSorts(q);
    ParseInvertsJoin(Sort(p));
    ParseInvertsJoin(Sort(q));
    if multiset(p) == multiset(q) {
      SortedUnique(Sort(p), Sort(q));
    }
  }

  /**
   * Read again and canonicalized again it is unchanged, so a client that sends it as
   * the query has sent what it signs.
   */
  lemma SentAsSigned(query: seq<Pair>)
    ensures Parsed(CanonicalQuery(query)) == Sort(query)
    ensures multiset(Parsed(CanonicalQuery(query))) == multiset(query)
    ensures CanonicalQuery(Parsed(CanonicalQuery(query))) == CanonicalQuery(query)
  {
    hide Joined, Sort, SortedPairs;
    SortSorts(query);
    ParseInvertsJoin(Sort(query));
    CanonicalExactly(Sort(query), query);
  }
}
