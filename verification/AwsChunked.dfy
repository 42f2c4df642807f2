/**
 * The decoder for aws-chunked uploads (apps/server/src/s3/aws-chunked.ts): each
 * chunk carries a signature over its bytes and the signature before it, so the
 * chunks form a chain that starts at the request's own signature.
 */
module AwsChunked {
  import opened Bytes
  import opened ByteSource
  import opened Digits
  import opened Lookahead

  const CRLF: seq<Byte> := [0x0D, 0x0A]
  const MAX_HEADER_BYTES: nat := 8 * 1024
  const MAX_SAFE_INTEGER: nat := 0x1F_FFFF_FFFF_FFFF
  const BOM: seq<Byte> := [0xEF, 0xBB, 0xBF]
  /** ";chunk-signature=" */
  const MARK: seq<Byte> :=
    [0x3B, 0x63, 0x68, 0x75, 0x6E, 0x6B, 0x2D, 0x73, 0x69, 0x67, 0x6E, 0x61, 0x74, 0x75, 0x72, 0x65, 0x3D]
  const SIGNATURE_LENGTH: nat := 64

  /** The keyed hash of a chunk, chained on the previous signature; left uninterpreted. */
  type Signer = (seq<Byte>, seq<Byte>) -> seq<Byte>

  datatype Fault =
    | TruncatedHeader | HeaderTooLarge | MalformedHeader | InvalidSize
    | TruncatedBody | MalformedDelimiter | SignatureMismatch | LengthMismatch

  // ---- Chunk headers

  predicate IsSignature(s: seq<Byte>) { |s| == SIGNATURE_LENGTH && forall i :: 0 <= i < |s| ==> LowerHex(s[i]) }

  /** The decoder strips one leading byte-order mark, as TextDecoder does. */
  function StripBom(line: seq<Byte>): seq<Byte> {
    if BOM <= line then line[3..] else line
  }

  datatype Header = Header(size: nat, signature: seq<Byte>)

  /** One or more hex digits, the mark, then exactly 64 lower-case hex digits. */
  function ParseHeader(line: seq<Byte>): (h: Option<Header>)
    ensures h.Some? ==> IsSignature(h.value.signature)
  {
    var text := StripBom(line);
    var n := |text| - (|MARK| + SIGNATURE_LENGTH);
    if n >= 1 && AllHex(text[..n]) && text[n..n + |MARK|] == MARK && IsSignature(text[n + |MARK|..])
    then Some(Header(HexValue(text[..n]), text[n + |MARK|..]))
    else None
  }

  // ---- The whole-stream specification

  datatype Step = Bad(fault: Fault) | Frame(chunk: seq<Byte>, signature: seq<Byte>, rest: seq<Byte>)

  function DecodeBody(sign: Signer, h: Header, body: seq<Byte>, previous: seq<Byte>): (step: Step)
    ensures step.Frame? ==> |step.rest| < |body|
  {
    if h.size > MAX_SAFE_INTEGER then Bad(InvalidSize)
    else if |body| < h.size + 2 then Bad(TruncatedBody)
    else if body[h.size..h.size + 2] != CRLF then Bad(MalformedDelimiter)
    else if h.signature != sign(previous, body[..h.size]) then Bad(SignatureMismatch)
    else Frame(body[..h.size], h.signature, body[h.size + 2..])
  }

  function DecodeStep(sign: Signer, wire: seq<Byte>, previous: seq<Byte>): (step: Step)
    ensures step.Frame? ==> |step.rest| < |wire|
  {
    var end := IndexOf(wire, CRLF);
    if end == -1 then Bad(if |wire| > MAX_HEADER_BYTES then HeaderTooLarge else TruncatedHeader)
    else match ParseHeader(wire[..end])
         case None => Bad(MalformedHeader)
         case Some(h) => DecodeBody(sign, h, wire[end + 2..], previous)
  }

  datatype End = Closed | Failed(fault: Fault)
  datatype Run = Run(emitted: seq<seq<Byte>>, end: End)

  /** How a stream ends once its terminal chunk has been verified. */
  function Terminal(decoded: nat, expected: Option<nat>): End {
    if expected != None && decoded != expected.value then Failed(LengthMismatch) else Closed
  }

  function Decode(sign: Signer, wire: seq<Byte>, previous: seq<Byte>, decoded: nat, expected: Option<nat>): Run
    decreases |wire|
  {
    match DecodeStep(sign, wire, previous)
    case Bad(fault) => Run([], Failed(fault))
    case Frame(chunk, signature, rest) =>
      if chunk == [] then Run([], Terminal(decoded, expected))
      else
        var later := Decode(sign, rest, signature, decoded + |chunk|, expected);
        Run([chunk] + later.emitted, later.end)
  }

  /** Every chunk header ends within the header limit. */
  predicate HeadersFit(sign: Signer, wire: seq<Byte>, previous: seq<Byte>)
    decreases |wire|
  {
    && Reachable(wire, CRLF, MAX_HEADER_BYTES)
    && (match DecodeStep(sign, wire, previous)
        case Bad(_) => true
        case Frame(chunk, signature, rest) => chunk != [] ==> HeadersFit(sign, rest, signature))
  }

  lemma DecodeIs(sign: Signer, wire: seq<Byte>, previous: seq<Byte>, decoded: nat, expected: Option<nat>)
    ensures Decode(sign, wire, previous, decoded, expected) == match DecodeStep(sign, wire, previous)
              case Bad(fault) => Run([], Failed(fault))
              case Frame(chunk, signature, rest) =>
                if chunk == [] then Run([], Terminal(decoded, expected))
                else
                  var later := Decode(sign, rest, signature, decoded + |chunk|, expected);
                  Run([chunk] + later.emitted, later.end)
  {
  }

  lemma HeadersFitIs(sign: Signer, wire: seq<Byte>, previous: seq<Byte>)
    ensures HeadersFit(sign, wire, previous) ==> Reachable(wire, CRLF, MAX_HEADER_BYTES)
    ensures HeadersFit(sign, wire, previous) ==> match DecodeStep(sign, wire, previous)
              case Bad(_) => true
              case Frame(chunk, signature, rest) => chunk != [] ==> HeadersFit(sign, rest, signature)
  {
  }

  // ---- The decoder

  datatype Event = Emit(chunk: seq<Byte>) | Close | Fail(fault: Fault) | Idle

  datatype LineResult = Line(bytes: seq<Byte>) | NoLine(fault: Fault)

  class Decoder {
    const sign: Signer
    const expectedLength: Option<nat>
    const reader: ChunkSource
    var buffer: seq<Byte>
    var previousSignature: seq<Byte>
    var decodedLength: nat
    var finished: bool
    /** The signing key has been overwritten with zeroes. */
    var keyWiped: bool

    constructor (reader: ChunkSource, sign: Signer, seed: seq<Byte>, expectedLength: Option<nat>)
      ensures this.reader == reader && this.sign == sign && this.expectedLength == expectedLength
      ensures Wire() == Flatten(reader.chunks) && previousSignature == seed && decodedLength == 0
      ensures !finished && !keyWiped
    {
      this.reader, this.sign, this.expectedLength := reader, sign, expectedLength;
      buffer, previousSignature, decodedLength := [], seed, 0;
      finished, keyWiped := false, false;
    }

    /** The bytes not decoded yet, arrived or not. */
    ghost function Wire(): seq<Byte>
      reads this, reader
    {
      buffer + Flatten(reader.chunks)
    }

    /** Where the first CRLF of the buffer is, or -1. */
    method FindCrlf() returns (r: int)
      ensures r == IndexOf(buffer, CRLF)
    {
      var index := 0;
      while index + 1 < |buffer|
        invariant 0 <= index
        invariant forall k :: 0 <= k < index ==> !OccursAt(buffer, CRLF, k)
      {
        if buffer[index] == 13 && buffer[index + 1] == 10 {
          assert buffer[index..index + 2] == CRLF;
          IndexIs(buffer, CRLF, index);
          return index;
        }
        assert buffer[index..index + |CRLF|][0] == buffer[index];
        assert buffer[index..index + |CRLF|][1] == buffer[index + 1];
        index := index + 1;
      }
      IndexOfFirst(buffer, CRLF);
      r := -1;
    }

    method ReadLine() returns (line: LineResult)
      modifies this`buffer, reader
      ensures var wire := old(Wire());
              var end := IndexOf(wire, CRLF);
              && (line.Line? ==> end != -1 && line.bytes == wire[..end] && Wire() == wire[end + 2..])
              && (line.NoLine? ==>
                    line.fault == (if |wire| > MAX_HEADER_BYTES then HeaderTooLarge else TruncatedHeader))
              && (Reachable(wire, CRLF, MAX_HEADER_BYTES) ==> (line.Line? <==> end != -1))
      ensures old(Find(buffer, reader.chunks, CRLF, MAX_HEADER_BYTES)) == if line.Line? then |line.bytes| else -1
    {
      hide IndexOf;
      ghost var wire := Wire();
      FindSound(buffer, reader.chunks, CRLF, MAX_HEADER_BYTES);
      ghost var answer := Find(buffer, reader.chunks, CRLF, MAX_HEADER_BYTES);
      while true
        invariant Wire() == wire
        invariant Find(buffer, reader.chunks, CRLF, MAX_HEADER_BYTES) == answer
        decreases |reader.chunks|
      {
        var index := FindCrlf();
        if index != -1 {
          line := Line(buffer[..index]);
          buffer := buffer[index + 2..];
          return;
        }
        if |buffer| > MAX_HEADER_BYTES {
          return NoLine(HeaderTooLarge);
        }
        var next := reader.Read();
        match next
        case None => return NoLine(TruncatedHeader);
        case Some(value) => buffer := buffer + value;
      }
    }

    method Ensure(length: nat) returns (enough: bool)
      modifies this`buffer, reader
      ensures Wire() == old(Wire())
      ensures enough == (|Wire()| >= length)
      ensures enough ==> |buffer| >= length
    {
      while |buffer| < length
        invariant Wire() == old(Wire())
        decreases |reader.chunks|
      {
        var next := reader.Read();
        match next
        case None => return false;
        case Some(value) => buffer := buffer + value;
      }
      return true;
    }

    /** The body of one frame, checked and taken off the buffer. */
    method ReadFrame(h: Header) returns (fault: Option<Fault>, chunk: seq<Byte>)
      modifies this`buffer, this`previousSignature, reader
      ensures match old(DecodeBody(sign, h, Wire(), previousSignature))
              case Bad(f) => fault == Some(f)
              case Frame(c, s, rest) => fault == None && chunk == c && previousSignature == s && Wire() == rest
    {
      ghost var wire := Wire();
      chunk := [];
      if h.size > MAX_SAFE_INTEGER {
        return Some(InvalidSize), [];
      }
      var enough := Ensure(h.size + 2);
      if !enough {
        return Some(TruncatedBody), [];
      }
      chunk := buffer[..h.size];
      assert wire[..h.size] == chunk && wire[h.size..h.size + 2] == buffer[h.size..h.size + 2];
      if buffer[h.size] != 13 || buffer[h.size + 1] != 10 {
        assert buffer[h.size..h.size + 2] != CRLF by {
          assert buffer[h.size..h.size + 2][0] == buffer[h.size];
          assert buffer[h.size..h.size + 2][1] == buffer[h.size + 1];
        }
        return Some(MalformedDelimiter), [];
      }
      assert buffer[h.size..h.size + 2] == CRLF;
      buffer := buffer[h.size + 2..];
      assert Wire() == wire[h.size + 2..];
      if h.signature != sign(previousSignature, chunk) {
        return Some(SignatureMismatch), [];
      }
      previousSignature := h.signature;
      fault := None;
    }

    method Stop()
      modifies this`finished, this`keyWiped
      ensures finished && keyWiped
    {
      finished, keyWiped := true, true;
    }

    /** What one `pull` may do, given the step the whole-stream decoder takes. */
    ghost predicate Follows(step: Step, before: nat, event: Event)
      reads this, reader
    {
      match step
      case Bad(fault) => event == Fail(fault)
      case Frame(chunk, signature, rest) =>
        && previousSignature == signature && Wire() == rest && decodedLength == before + |chunk|
        && (if chunk != [] then event == Emit(chunk)
            else event == match Terminal(before, expectedLength)
                          case Closed => Close
                          case Failed(fault) => Fail(fault))
    }

    /** One `pull`; the key is wiped exactly when the stream has ended. */
    method Pull() returns (event: Event)
      requires keyWiped == finished
      modifies this, reader
      ensures keyWiped == finished
      ensures old(finished) ==> event == Idle && finished
      ensures !old(finished) ==> event != Idle && finished == (event.Close? || event.Fail?)
      ensures !old(finished) ==>
                || Follows(old(DecodeStep(sign, Wire(), previousSignature)), old(decodedLength), event)
                || (event == Fail(HeaderTooLarge) && !old(Reachable(Wire(), CRLF, MAX_HEADER_BYTES)))
    {
      hide IndexOf, ParseHeader;
      if finished {
        return Idle;
      }
      var line := ReadLine();
      if line.NoLine? {
        Stop();
        return Fail(line.fault);
      }
      var h := ParseHeader(line.bytes);
      if h == None {
        Stop();
        return Fail(MalformedHeader);
      }
      var fault, chunk := ReadFrame(h.value);
      if fault != None {
        Stop();
        return Fail(fault.value);
      }
      decodedLength := decodedLength + |chunk|;
      if h.value.size == 0 {
        Stop();
        return if expectedLength != None && decodedLength != expectedLength.value then Fail(LengthMismatch) else Close;
      }
      event := Emit(chunk);
    }

    /**
     * A whole run: for every cutting of the wire it emits what the whole-stream
     * decoder emits and ends as it ends. Only a header past the limit can make a
     * run stop sooner, and then what it emitted is still a prefix.
     */
    method DecodeAll() returns (emitted: seq<seq<Byte>>, end: End)
      requires !finished && !keyWiped && decodedLength == 0
      modifies this, reader
      ensures finished && keyWiped
      ensures var run := old(Decode(sign, Wire(), previousSignature, 0, expectedLength));
              && (old(HeadersFit(sign, Wire(), previousSignature)) ==> Run(emitted, end) == run)
              && (Run(emitted, end) == run || (end == Failed(HeaderTooLarge) && emitted <= run.emitted))
    {
      hide IndexOf, DecodeStep, Decode, HeadersFit;
      ghost var run := Decode(sign, Wire(), previousSignature, 0, expectedLength);
      ghost var fit := HeadersFit(sign, Wire(), previousSignature);
      emitted := [];
      while true
        invariant !finished && !keyWiped
        invariant var later := Decode(sign, Wire(), previousSignature, decodedLength, expectedLength);
                  run == Run(emitted + later.emitted, later.end)
        invariant fit ==> HeadersFit(sign, Wire(), previousSignature)
        decreases |Wire()|
      {
        ghost var later := Decode(sign, Wire(), previousSignature, decodedLength, expectedLength);
        DecodeIs(sign, Wire(), previousSignature, decodedLength, expectedLength);
        HeadersFitIs(sign, Wire(), previousSignature);
        var event := Pull();
        match event
        case Emit(chunk) =>
          assert emitted + later.emitted == (emitted + [chunk]) + later.emitted[1..];
          emitted := emitted + [chunk];
        case Close => return emitted, Closed;
        case Fail(fault) => return emitted, Failed(fault);
        case Idle => assert false;
      }
    }
  }

  // ---- What a client sends

  /** A data chunk with the spelling of its size; any hex spelling is allowed. */
  datatype Piece = Piece(size: seq<Byte>, data: seq<Byte>)

  predicate GoodPiece(p: Piece) {
    && p.size != [] && AllHex(p.size) && HexValue(p.size) == |p.data|
    && |p.data| <= MAX_SAFE_INTEGER
    && |p.size| + |MARK| + SIGNATURE_LENGTH < MAX_HEADER_BYTES
  }

  function HeaderLine(size: seq<Byte>, signature: seq<Byte>): seq<Byte> { size + MARK + signature }

  /** One frame, signed after `previous`, followed by `tail`. */
  function EncodeFrame(sign: Signer, p: Piece, previous: seq<Byte>, tail: seq<Byte>): seq<Byte> {
    HeaderLine(p.size, sign(previous, p.data)) + (CRLF + (p.data + (CRLF + tail)))
  }

  /** Data chunks, then the terminal empty chunk, then whatever follows. */
  function Encode(sign: Signer, pieces: seq<Piece>, terminal: Piece, previous: seq<Byte>, tail: seq<Byte>): seq<Byte> {
    if pieces == [] then EncodeFrame(sign, terminal, previous, tail)
    else EncodeFrame(sign, pieces[0], previous,
                     Encode(sign, pieces[1..], terminal, sign(previous, pieces[0].data), tail))
  }

  function Datas(pieces: seq<Piece>): seq<seq<Byte>> {
    if pieces == [] then [] else [pieces[0].data] + Datas(pieces[1..])
  }

  function TotalLength(chunks: seq<seq<Byte>>): nat {
    if chunks == [] then 0 else |chunks[0]| + TotalLength(chunks[1..])
  }

  /** The usual spelling of a size exists, so every chunk can be sent. */
  function HexText(n: nat): (s: seq<Byte>)
    ensures s != [] && AllHex(s) && HexValue(s) == n
  {
    var digit: Byte := if n % 16 < 10 then 0x30 + n % 16 else 0x61 + n % 16 - 10;
    if n < 16 then [digit]
    else
      var s := HexText(n / 16) + [digit];
      assert s[..|s| - 1] == HexText(n / 16);
      s
  }

  lemma HeaderLineParses(size: seq<Byte>, signature: seq<Byte>)
    requires size != [] && AllHex(size) && IsSignature(signature)
    ensures ParseHeader(HeaderLine(size, signature)) == Some(Header(HexValue(size), signature))
    ensures forall i :: 0 <= i < |HeaderLine(size, signature)| ==> HeaderLine(size, signature)[i] != 13
  {
    var line := HeaderLine(size, signature);
    assert line[0] == size[0];
    var n := |size|;
    assert line[..n] == size && line[n..n + |MARK|] == MARK && line[n + |MARK|..] == signature;
    forall i | 0 <= i < |line| ensures line[i] != 13 {
      if n <= i < n + |MARK| {
        assert line[i] == MARK[i - n];
      }
    }
  }

  /** A line without a carriage return ends at the first CRLF after it. */
  lemma LineEnds(line: seq<Byte>, tail: seq<Byte>)
    requires forall i :: 0 <= i < |line| ==> line[i] != 13
    ensures IndexOf(line + (CRLF + tail), CRLF) == |line|
    ensures (line + (CRLF + tail))[..|line|] == line && (line + (CRLF + tail))[|line| + 2..] == tail
  {
    var wire := line + (CRLF + tail);
    assert wire[|line|..|line| + 2] == CRLF;
    forall j | 0 <= j < |line| ensures !OccursAt(wire, CRLF, j) {
      assert wire[j] == line[j];
      if j + 2 <= |wire| {
        assert wire[j..j + |CRLF|][0] == wire[j];
      }
    }
    IndexIs(wire, CRLF, |line|);
  }

  lemma EncodedFrameStep(sign: Signer, p: Piece, previous: seq<Byte>, tail: seq<Byte>)
    requires GoodPiece(p) && IsSignature(sign(previous, p.data))
    ensures var wire := EncodeFrame(sign, p, previous, tail);
            && Reachable(wire, CRLF, MAX_HEADER_BYTES)
            && DecodeStep(sign, wire, previous) == Frame(p.data, sign(previous, p.data), tail)
  {
    hide IndexOf, ParseHeader;
    var signature := sign(previous, p.data);
    HeaderLineParses(p.size, signature);
    LineEnds(HeaderLine(p.size, signature), p.data + (CRLF + tail));
    var body := p.data + (CRLF + tail);
    assert body[..|p.data|] == p.data;
    assert body[|p.data|..|p.data| + 2] == CRLF;
    assert body[|p.data| + 2..] == tail;
  }

  /**
   * The decoder inverts the encoder for every split of the payload: it emits the
   * chunks in order and closes, unless the declared length was wrong.
   */
  lemma {:induction false} DecodeInvertsEncode(sign: Signer, pieces: seq<Piece>, terminal: Piece, previous: seq<Byte>,
                                               tail: seq<Byte>, decoded: nat, expected: Option<nat>)
    requires forall a: seq<Byte>, b: seq<Byte> :: IsSignature(sign(a, b))
    requires forall p :: p in pieces ==> GoodPiece(p) && p.data != []
    requires GoodPiece(terminal) && terminal.data == []
    ensures var wire := Encode(sign, pieces, terminal, previous, tail);
            && HeadersFit(sign, wire, previous)
            && Decode(sign, wire, previous, decoded, expected)
               == Run(Datas(pieces), Terminal(decoded + TotalLength(Datas(pieces)), expected))
    decreases |pieces|
  {
    hide IndexOf, ParseHeader, DecodeStep, EncodeFrame, Reachable;
    if pieces == [] {
      EncodedFrameStep(sign, terminal, previous, tail);
    } else {
      var p := pieces[0];
      var signature := sign(previous, p.data);
      var rest := Encode(sign, pieces[1..], terminal, signature, tail);
      EncodedFrameStep(sign, p, previous, rest);
      DecodeInvertsEncode(sign, pieces[1..], terminal, signature, tail, decoded + |p.data|, expected);
    }
  }

  // ---- What any stream can make the decoder emit

  /** The signature that a chain of chunks ends on. */
  function Chain(sign: Signer, seed: seq<Byte>, chunks: seq<seq<Byte>>): seq<Byte>
    decreases |chunks|
  {
    if chunks == [] then seed else Chain(sign, sign(seed, chunks[0]), chunks[1..])
  }

  /**
   * `wire` starts with frames holding `chunks`, each with a header that carries
   * the chain's own signature for it, and goes on with `rest`.
   */
  predicate Authentic(sign: Signer, wire: seq<Byte>, previous: seq<Byte>, chunks: seq<seq<Byte>>, rest: seq<Byte>)
    decreases |chunks|
  {
    if chunks == [] then wire == rest
    else
      var end := IndexOf(wire, CRLF);
      && end != -1
      && ParseHeader(wire[..end]) == Some(Header(|chunks[0]|, sign(previous, chunks[0])))
      && chunks[0] + CRLF <= wire[end + 2..]
      && Authentic(sign, wire[end + 2..][|chunks[0]| + 2..], sign(previous, chunks[0]), chunks[1..], rest)
  }

  lemma FrameAuthentic(sign: Signer, wire: seq<Byte>, previous: seq<Byte>)
    requires DecodeStep(sign, wire, previous).Frame?
    ensures var step := DecodeStep(sign, wire, previous);
            var end := IndexOf(wire, CRLF);
            && end != -1 && step.signature == sign(previous, step.chunk)
            && ParseHeader(wire[..end]) == Some(Header(|step.chunk|, step.signature))
            && step.chunk + CRLF <= wire[end + 2..]
            && step.rest == wire[end + 2..][|step.chunk| + 2..]
  {
    hide IndexOf, ParseHeader;
    var body := wire[IndexOf(wire, CRLF) + 2..];
    var step := DecodeStep(sign, wire, previous);
    assert body[..|step.chunk| + 2] == step.chunk + body[|step.chunk|..|step.chunk| + 2];
  }

  lemma AuthenticNil(sign: Signer, wire: seq<Byte>, previous: seq<Byte>)
    ensures Authentic(sign, wire, previous, [], wire)
  {
  }

  lemma AuthenticCons(sign: Signer, wire: seq<Byte>, previous: seq<Byte>, more: seq<seq<Byte>>, rest: seq<Byte>)
    requires var step := DecodeStep(sign, wire, previous);
             step.Frame? && Authentic(sign, step.rest, step.signature, more, rest)
    ensures Authentic(sign, wire, previous, [DecodeStep(sign, wire, previous).chunk] + more, rest)
  {
    hide IndexOf, ParseHeader, DecodeStep;
    FrameAuthentic(sign, wire, previous);
    var chunks := [DecodeStep(sign, wire, previous).chunk] + more;
    assert chunks[1..] == more;
  }

  /**
   * For any bytes whatever: the emitted chunks are framed at the front of the
   * stream under signatures that extend the chain from the seed, and a normal
   * close means the empty chunk was signed next and any declared length was met.
   */
  lemma {:induction false} EmittedIsAuthentic(sign: Signer, wire: seq<Byte>, previous: seq<Byte>, decoded: nat,
                                              expected: Option<nat>)
    returns (rest: seq<Byte>)
    ensures var run := Decode(sign, wire, previous, decoded, expected);
            && (forall c :: c in run.emitted ==> c != [])
            && (run.end != Closed ==> Authentic(sign, wire, previous, run.emitted, rest))
            && (run.end == Closed ==>
                  && Authentic(sign, wire, previous, run.emitted + [[]], rest)
                  && (expected != None ==> decoded + TotalLength(run.emitted) == expected.value))
    decreases |wire|
  {
    hide IndexOf, ParseHeader, DecodeStep, Authentic;
    var run := Decode(sign, wire, previous, decoded, expected);
    match DecodeStep(sign, wire, previous)
    case Bad(_) =>
      rest := wire;
      AuthenticNil(sign, wire, previous);
    case Frame(chunk, signature, after) =>
      if chunk == [] {
        rest := if Terminal(decoded, expected) == Closed then after else wire;
        AuthenticNil(sign, wire, previous);
        AuthenticNil(sign, after, signature);
        AuthenticCons(sign, wire, previous, [], after);
        assert run.emitted + [[]] == [[]] + [];
      } else {
        rest := EmittedIsAuthentic(sign, after, signature, decoded + |chunk|, expected);
        var more := run.emitted[1..] + if run.end == Closed then [[]] else [];
        assert run.emitted[1..] + [] == run.emitted[1..];
        AuthenticCons(sign, wire, previous, more, rest);
        assert [chunk] + more == run.emitted + if run.end == Closed then [[]] else [];
        assert run.emitted + [] == run.emitted;
      }
  }

  // ---- Every stream, and what is made of it

  lemma MarkText()
    ensures MARK == seq(17, i requires 0 <= i < 17 => ";chunk-signature="[i] as int)
  {
  }

  /** A chunk header: a size in hexadecimal digits, the mark, and 64 lower-case hexadecimal digits. */
  predicate Spells(line: seq<Byte>, digits: seq<Byte>, signature: seq<Byte>) {
    && digits != [] && AllHex(digits)
    && |signature| == 64 && (forall i :: 0 <= i < 64 ==> LowerHex(signature[i]))
    && (line == digits + MARK + signature || line == [0xEF, 0xBB, 0xBF] + (digits + MARK + signature))
  }

  ghost predicate HeaderIs(line: seq<Byte>, size: nat, signature: seq<Byte>) {
    exists digits :: Spells(line, digits, signature) && size == HexValue(digits)
  }

  lemma BomStripped(text: seq<Byte>)
    requires text != [] && HexDigit(text[0])
    ensures StripBom(text) == text && StripBom([0xEF, 0xBB, 0xBF] + text) == text
  {
    assert !HexDigit(BOM[0]);
    assert ([0xEF, 0xBB, 0xBF] + text)[3..] == text;
  }

  lemma SameText(line: seq<Byte>, other: seq<Byte>)
    requires StripBom(line) == StripBom(other)
    ensures ParseHeader(line) == ParseHeader(other)
  {
  }

  lemma SpellsIsRead(line: seq<Byte>, digits: seq<Byte>, signature: seq<Byte>)
    requires Spells(line, digits, signature)
    ensures ParseHeader(line) == Some(Header(HexValue(digits), signature))
  {
    hide ParseHeader, StripBom;
    HeaderLineParses(digits, signature);
    var text := HeaderLine(digits, signature);
    assert text[0] == digits[0] && HexDigit(digits[0]);
    BomStripped(text);
    SameText(line, text);
  }

  lemma HeaderExactly(line: seq<Byte>, size: nat, signature: seq<Byte>)
    ensures ParseHeader(line) == Some(Header(size, signature)) <==> HeaderIs(line, size, signature)
  {
    if ParseHeader(line) == Some(Header(size, signature)) {
      var text := StripBom(line);
      var n := |text| - (|MARK| + SIGNATURE_LENGTH);
      assert text == text[..n] + MARK + signature;
      assert BOM <= line ==> line == BOM + text;
      assert Spells(line, text[..n], signature);
    }
    if HeaderIs(line, size, signature) {
      var digits :| Spells(line, digits, signature) && size == HexValue(digits);
      SpellsIsRead(line, digits, signature);
    }
  }

  /** What is wrong with a stream that does not begin with an authentic frame. */
  ghost predicate Cause(sign: Signer, wire: seq<Byte>, previous: seq<Byte>, fault: Fault) {
    var end := IndexOf(wire, CRLF);
    if end == -1 then fault == (if |wire| > 8192 then HeaderTooLarge else TruncatedHeader)
    else
      var line, body := wire[..end], wire[end + 2..];
      || (fault == MalformedHeader && forall size, signature :: !HeaderIs(line, size, signature))
      || exists size, signature ::
           HeaderIs(line, size, signature) && BodyCause(sign, size, signature, body, previous, fault)
  }

  predicate BodyCause(sign: Signer, size: nat, signature: seq<Byte>, body: seq<Byte>, previous: seq<Byte>,
        fault: Fault) {
    match fault
    case InvalidSize => size > 9_007_199_254_740_991
    case TruncatedBody => size <= 9_007_199_254_740_991 && |body| < size + 2
    case MalformedDelimiter =>
      size <= 9_007_199_254_740_991 && |body| >= size + 2 && !([0x0D, 0x0A] <= body[size..])
    case SignatureMismatch =>
      && size <= 9_007_199_254_740_991 && |body| >= size + 2 && [0x0D, 0x0A] <= body[size..]
      && signature != sign(previous, body[..size])
    case _ => false
  }

  /** Of any stream whatever: the first frame is refused for a reason if and only if there is that reason. */
  lemma StepExactly(sign: Signer, wire: seq<Byte>, previous: seq<Byte>, fault: Fault)
    ensures DecodeStep(sign, wire, previous) == Bad(fault) <==> Cause(sign, wire, previous, fault)
  {
    hide IndexOf, ParseHeader, HeaderIs, BodyCause, DecodeBody;
    var end := IndexOf(wire, CRLF);
    if end != -1 {
      var line, body := wire[..end], wire[end + 2..];
      forall size: nat, signature: seq<Byte> | HeaderIs(line, size, signature)
        ensures ParseHeader(line) == Some(Header(size, signature))
      {
        HeaderExactly(line, size, signature);
      }
      match ParseHeader(line)
      case None =>
        if Cause(sign, wire, previous, fault) && fault != MalformedHeader {
          assert false;
        }
        if size, signature :| HeaderIs(line, size, signature) {
          assert false;
        }
      case Some(h) =>
        HeaderExactly(line, h.size, h.signature);
        BodyExactly(sign, h, body, previous, fault);
    }
  }

  lemma BodyExactly(sign: Signer, h: Header, body: seq<Byte>, previous: seq<Byte>, fault: Fault)
    ensures DecodeBody(sign, h, body, previous) == Bad(fault)
            <==> BodyCause(sign, h.size, h.signature, body, previous, fault)
  {
    if |body| >= h.size + 2 {
      assert body[h.size..h.size + 2] == body[h.size..][..2];
    }
  }

  /**
   * How a run that fails has failed: after the authentic chunks it emitted the stream
   * goes on with a frame that has that fault, or it ended with an authentic empty
   * chunk and another length than was declared.
   */
  lemma {:induction false} FailureExactly(sign: Signer, wire: seq<Byte>, previous: seq<Byte>, decoded: nat,
                                          expected: Option<nat>) returns (rest: seq<Byte>, last: seq<Byte>)
    requires Decode(sign, wire, previous, decoded, expected).end.Failed?
    ensures var run := Decode(sign, wire, previous, decoded, expected);
            if run.end.fault == LengthMismatch
            then Authentic(sign, wire, previous, run.emitted + [[]], rest)
                 && expected.Some? && decoded + TotalLength(run.emitted) != expected.value
            else Authentic(sign, wire, previous, run.emitted, rest)
                 && last == Chain(sign, previous, run.emitted) && Cause(sign, rest, last, run.end.fault)
    decreases |wire|
  {
    hide IndexOf, ParseHeader, DecodeStep, Authentic, Cause;
    DecodeIs(sign, wire, previous, decoded, expected);
    var run := Decode(sign, wire, previous, decoded, expected);
    match DecodeStep(sign, wire, previous)
    case Bad(fault) =>
      rest, last := wire, previous;
      AuthenticNil(sign, wire, previous);
      StepExactly(sign, wire, previous, fault);
      NoLengthFault(sign, wire, previous);
    case Frame(chunk, signature, after) =>
      FrameAuthentic(sign, wire, previous);
      if chunk == [] {
        rest, last := after, signature;
        AuthenticNil(sign, after, signature);
        AuthenticCons(sign, wire, previous, [], after);
        assert run.emitted + [[]] == [[]] + [];
      } else {
        rest, last := FailureExactly(sign, after, signature, decoded + |chunk|, expected);
        var later := Decode(sign, after, signature, decoded + |chunk|, expected);
        var more := later.emitted + if run.end.fault == LengthMismatch then [[]] else [];
        assert later.emitted + [] == later.emitted;
        AuthenticCons(sign, wire, previous, more, rest);
        assert [chunk] + more == run.emitted + if run.end.fault == LengthMismatch then [[]] else [];
        assert run.emitted + [] == run.emitted && run.emitted[1..] == later.emitted;
      }
  }

  lemma NoLengthFault(sign: Signer, wire: seq<Byte>, previous: seq<Byte>)
    ensures DecodeStep(sign, wire, previous) != Bad(LengthMismatch)
  {
    hide IndexOf, ParseHeader;
  }

  /** The stream has, at a place, the frame of a chunk under a signature. */
  predicate FrameAt(wire: seq<Byte>, at: nat, chunk: seq<Byte>, signature: seq<Byte>) {
    && at <= |wire|
    && var end := IndexOf(wire[at..], CRLF);
       && end != -1
       && ParseHeader(wire[at..][..end]) == Some(Header(|chunk|, signature))
       && chunk + CRLF <= wire[at..][end + 2..]
  }

  lemma AuthenticHead(sign: Signer, wire: seq<Byte>, previous: seq<Byte>, chunks: seq<seq<Byte>>, rest: seq<Byte>)
    returns (size: nat)
    requires chunks != [] && Authentic(sign, wire, previous, chunks, rest)
    ensures FrameAt(wire, 0, chunks[0], sign(previous, chunks[0]))
    ensures size <= |wire| && Authentic(sign, wire[size..], sign(previous, chunks[0]), chunks[1..], rest)
  {
    hide ParseHeader;
    assert wire[0..] == wire;
    var end := IndexOf(wire, CRLF);
    size := end + 2 + |chunks[0]| + 2;
    assert |chunks[0] + CRLF| == |chunks[0]| + 2;
    DropDrop(wire, end + 2, |chunks[0]| + 2);
  }

  lemma ChainCons(sign: Signer, seed: seq<Byte>, chunks: seq<seq<Byte>>, k: nat)
    requires 0 < k <= |chunks|
    ensures Chain(sign, seed, chunks[..k]) == Chain(sign, sign(seed, chunks[0]), chunks[1..][..k - 1])
  {
    assert chunks[..k][1..] == chunks[1..][..k - 1];
  }

  /** In an authentic stream the k-th frame carries the chain over the chunks up to its own. */
  lemma {:induction false} FrameCarriesChain(sign: Signer, wire: seq<Byte>, seed: seq<Byte>,
        chunks: seq<seq<Byte>>, rest: seq<Byte>, k: nat)
    returns (at: nat)
    requires Authentic(sign, wire, seed, chunks, rest) && k < |chunks|
    ensures FrameAt(wire, at, chunks[k], Chain(sign, seed, chunks[..k + 1]))
    decreases k
  {
    hide Authentic, FrameAt;
    var size := AuthenticHead(sign, wire, seed, chunks, rest);
    ChainCons(sign, seed, chunks, k + 1);
    if k == 0 {
      at := 0;
    } else {
      var further := FrameCarriesChain(sign, wire[size..], sign(seed, chunks[0]), chunks[1..], rest, k - 1);
      FrameFurther(wire, size, further, chunks[k], Chain(sign, seed, chunks[..k + 1]));
      at := size + further;
    }
  }

  lemma FrameFurther(wire: seq<Byte>, size: nat, further: nat, chunk: seq<Byte>, signature: seq<Byte>)
    requires size <= |wire| && FrameAt(wire[size..], further, chunk, signature)
    ensures FrameAt(wire, size + further, chunk, signature)
  {
    hide IndexOf, ParseHeader;
    DropDrop(wire, size, further);
  }

  /**
   * Of whatever bytes: each chunk the decoder emits stands in them under a signature
   * that is the chain, from the seed, over all chunks up to and with it.
   */
  lemma EmittedCarriesChain(sign: Signer, wire: seq<Byte>, seed: seq<Byte>, expected: Option<nat>, k: nat)
    returns (at: nat)
    requires k < |Decode(sign, wire, seed, 0, expected).emitted|
    ensures var emitted := Decode(sign, wire, seed, 0, expected).emitted;
            FrameAt(wire, at, emitted[k], Chain(sign, seed, emitted[..k + 1]))
  {
    hide Authentic, FrameAt, Decode;
    var run := Decode(sign, wire, seed, 0, expected);
    var rest := EmittedIsAuthentic(sign, wire, seed, 0, expected);
    var chunks := if run.end == Closed then run.emitted + [[]] else run.emitted;
    at := FrameCarriesChain(sign, wire, seed, chunks, rest, k);
    assert chunks[..k + 1] == run.emitted[..k + 1];
  }
}
