/**
 * The streaming multipart/form-data reader behind presigned POST uploads
 * (apps/server/src/s3/multipart-form.ts). The specification, `Parse` and
 * `FileBytes`, reads the whole body at once; the cursor, the parser and the file
 * stream below see it in whatever chunks arrive.
 */
module MultipartForm {
  import opened Bytes
  import opened ByteSource
  import opened Lookahead

  const DASH_DASH: seq<Byte> := [0x2D, 0x2D]
  const CRLF: seq<Byte> := [0x0D, 0x0A]
  const CRLF_CRLF: seq<Byte> := [0x0D, 0x0A, 0x0D, 0x0A]

  /** What the header regexes extract; an empty name is reported as none. */
  datatype PartHeaders = PartHeaders(name: Option<string>, filename: Option<string>, contentType: Option<string>)

  /** Text decoding, header parsing and case folding, none of which looks at chunks. */
  datatype TextRules = TextRules(
    headersOf: seq<Byte> -> PartHeaders,
    lower: string -> string,
    decode: seq<Byte> -> string)

  datatype Limits = Limits(maxFieldBytes: nat, maxFieldCount: nat)

  datatype Refusal =
    | MissingBoundary | MalformedBody | TruncatedBody | MalformedBoundary
    | MalformedHeaders | MissingName | TooManyFields | EntityTooLarge

  /** A parsed form; `content` is everything that follows the file part's headers. */
  datatype Form =
    | Refused(why: Refusal)
    | NoFile(fields: map<string, string>)
    | WithFile(fields: map<string, string>, headers: PartHeaders, content: seq<Byte>)

  function FirstDelimiter(boundary: seq<Byte>): seq<Byte> { DASH_DASH + boundary }
  function Delimiter(boundary: seq<Byte>): seq<Byte> { CRLF + DASH_DASH + boundary }

  /** The marks as text. */
  lemma Marks(boundary: seq<Byte>)
    ensures FirstDelimiter(boundary) == ['-' as int, '-' as int] + boundary
    ensures Delimiter(boundary) == ['\r' as int, '\n' as int, '-' as int, '-' as int] + boundary
    ensures CRLF_CRLF == CRLF + CRLF && CRLF == ['\r' as int, '\n' as int] && DASH_DASH == ['-' as int, '-' as int]
  {
  }

  // ---- The whole-body specification

  function Parse(t: TextRules, l: Limits, boundary: Option<seq<Byte>>, body: seq<Byte>): Form {
    if boundary == None then Refused(MissingBoundary) else
    var first := FirstDelimiter(boundary.value);
    var start := IndexOf(body, first);
    if start == -1 then Refused(MalformedBody)
    else ParseParts(t, l, Delimiter(boundary.value), body[start + |first|..], map[], 0)
  }

  function Keep(fields: map<string, string>, name: string, value: string): map<string, string> {
    if name in fields then fields else fields[name := value]
  }

  /** A part's headers: either the form ends here, or a field's value follows. */
  datatype Head = Ended(form: Form) | FieldHead(name: string, content: seq<Byte>)

  function ParseHead(t: TextRules, l: Limits, body: seq<Byte>, fields: map<string, string>): (head: Head)
    ensures head.FieldHead? ==> |head.content| < |body|
  {
    if |body| < 2 then Ended(Refused(TruncatedBody))
    else if body[..2] == DASH_DASH then Ended(NoFile(fields))
    else if body[..2] != CRLF then Ended(Refused(MalformedBoundary))
    else
      var part := body[2..];
      var headerEnd := IndexOf(part, CRLF_CRLF);
      if headerEnd == -1 then Ended(Refused(MalformedHeaders))
      else
        var headers := t.headersOf(part[..headerEnd]);
        if headers.name == None then Ended(Refused(MissingName))
        else if t.lower(headers.name.value) == "file" then Ended(WithFile(fields, headers, part[headerEnd + 4..]))
        else if |fields| >= l.maxFieldCount then Ended(Refused(TooManyFields))
        else FieldHead(t.lower(headers.name.value), part[headerEnd + 4..])
  }

  datatype Step = Done(form: Form) | Next(rest: seq<Byte>, fields: map<string, string>, fieldBytes: nat)

  function ParseValue(t: TextRules, l: Limits, delimiter: seq<Byte>, name: string, content: seq<Byte>,
                      fields: map<string, string>, fieldBytes: nat): (step: Step)
    ensures step.Next? ==> |step.rest| <= |content| && step.fieldBytes <= l.maxFieldBytes
  {
    var valueEnd := IndexOf(content, delimiter);
    if valueEnd == -1 || fieldBytes + valueEnd > l.maxFieldBytes then Done(Refused(EntityTooLarge))
    else Next(content[valueEnd + |delimiter|..],
              Keep(fields, name, t.decode(content[..valueEnd])),
              fieldBytes + valueEnd)
  }

  function ParsePart(t: TextRules, l: Limits, delimiter: seq<Byte>, body: seq<Byte>,
                     fields: map<string, string>, fieldBytes: nat): (step: Step)
    ensures step.Next? ==> |step.rest| < |body| && step.fieldBytes <= l.maxFieldBytes
  {
    match ParseHead(t, l, body, fields)
    case Ended(form) => Done(form)
    case FieldHead(name, content) => ParseValue(t, l, delimiter, name, content, fields, fieldBytes)
  }

  function ParseParts(t: TextRules, l: Limits, delimiter: seq<Byte>, body: seq<Byte>,
                      fields: map<string, string>, fieldBytes: nat): Form
    decreases |body|
  {
    match ParsePart(t, l, delimiter, body, fields, fieldBytes)
    case Done(form) => form
    case Next(rest, kept, used) => ParseParts(t, l, delimiter, rest, kept, used)
  }

  /** Every delimiter the parse looks for lies within what remains of its limit. */
  predicate Fits(t: TextRules, l: Limits, boundary: Option<seq<Byte>>, body: seq<Byte>) {
    boundary == None ||
    var first := FirstDelimiter(boundary.value);
    var start := IndexOf(body, first);
    && Reachable(body, first, l.maxFieldBytes)
    && (start != -1 ==> PartsFit(t, l, Delimiter(boundary.value), body[start + |first|..], map[], 0))
  }

  predicate HeadFits(l: Limits, body: seq<Byte>) {
    (|body| >= 2 && body[..2] == CRLF) ==> Reachable(body[2..], CRLF_CRLF, l.maxFieldBytes)
  }

  predicate PartFits(t: TextRules, l: Limits, delimiter: seq<Byte>, body: seq<Byte>,
                     fields: map<string, string>, fieldBytes: nat)
  {
    && HeadFits(l, body)
    && (match ParseHead(t, l, body, fields)
        case Ended(_) => true
        case FieldHead(_, content) => Reachable(content, delimiter, l.maxFieldBytes - fieldBytes))
  }

  predicate PartsFit(t: TextRules, l: Limits, delimiter: seq<Byte>, body: seq<Byte>,
                     fields: map<string, string>, fieldBytes: nat)
    decreases |body|
  {
    && PartFits(t, l, delimiter, body, fields, fieldBytes)
    && (match ParsePart(t, l, delimiter, body, fields, fieldBytes)
        case Done(_) => true
        case Next(rest, kept, used) => PartsFit(t, l, delimiter, rest, kept, used))
  }

  lemma PartsNext(t: TextRules, l: Limits, delimiter: seq<Byte>, body: seq<Byte>, fields: map<string, string>,
                  fieldBytes: nat, rest: seq<Byte>, kept: map<string, string>, used: nat)
    requires ParsePart(t, l, delimiter, body, fields, fieldBytes) == Next(rest, kept, used)
    ensures ParseParts(t, l, delimiter, body, fields, fieldBytes) == ParseParts(t, l, delimiter, rest, kept, used)
    ensures PartsFit(t, l, delimiter, body, fields, fieldBytes)
            == (PartFits(t, l, delimiter, body, fields, fieldBytes) && PartsFit(t, l, delimiter, rest, kept, used))
  {
  }

  lemma PartsDone(t: TextRules, l: Limits, delimiter: seq<Byte>, body: seq<Byte>, fields: map<string, string>,
                  fieldBytes: nat, form: Form)
    requires ParsePart(t, l, delimiter, body, fields, fieldBytes) == Done(form)
    ensures ParseParts(t, l, delimiter, body, fields, fieldBytes) == form
    ensures PartsFit(t, l, delimiter, body, fields, fieldBytes) == PartFits(t, l, delimiter, body, fields, fieldBytes)
  {
  }

  /** The refusals a body can draw only because a limit was met before a delimiter. */
  predicate LimitRefusal(why: Refusal) {
    why == MalformedBody || why == MalformedHeaders || why == EntityTooLarge
  }

  /** The file part's bytes, and whether the closing delimiter was there. */
  function FileBytes(content: seq<Byte>, delimiter: seq<Byte>): (r: (seq<Byte>, bool))
    requires |delimiter| > 0
    ensures r.0 <= content
  {
    var end := IndexOf(content, delimiter);
    if end != -1 then (content[..end], true)
    else if |content| < |delimiter| then ([], false)
    else (content[..|content| - (|delimiter| - 1)], false)
  }

  // ---- The cursor

  /** The source's own search: two nested loops over the buffer. */
  method SearchBuffer(haystack: seq<Byte>, needle: seq<Byte>) returns (r: int)
    requires needle != []
    ensures r == IndexOf(haystack, needle)
  {
    var i := 0;
    while i + |needle| <= |haystack|
      invariant 0 <= i
      invariant forall k :: 0 <= k < i ==> !OccursAt(haystack, needle, k)
    {
      var j := 0;
      while j < |needle| && haystack[i + j] == needle[j]
        invariant 0 <= j <= |needle|
        invariant haystack[i..i + j] == needle[..j]
      {
        assert haystack[i..i + j + 1] == haystack[i..i + j] + [haystack[i + j]];
        assert needle[..j + 1] == needle[..j] + [needle[j]];
        j := j + 1;
      }
      if j == |needle| {
        assert needle[..j] == needle;
        IndexIs(haystack, needle, i);
        return i;
      }
      assert haystack[i..i + |needle|][j] != needle[j];
      i := i + 1;
    }
    r := -1;
    IndexOfFirst(haystack, needle);
  }

  class BodyCursor {
    var pending: seq<Byte>
    var exhausted: bool
    const reader: ChunkSource
    /** The size of the largest chunk. */
    ghost const largest: nat
    /** The most bytes that the buffer has held. */
    ghost var peak: nat

    constructor (reader: ChunkSource)
      ensures this.reader == reader && pending == [] && Valid()
      ensures largest == Largest(reader.chunks) && peak == 0
    {
      this.reader := reader;
      largest := Largest(reader.chunks);
      pending := [];
      exhausted := false;
      peak := 0;
    }

    ghost predicate Valid()
      reads this, reader
    {
      (exhausted ==> reader.chunks == []) && Largest(reader.chunks) <= largest && |pending| <= peak
    }

    /** Everything not consumed yet, arrived or not. */
    ghost function Rest(): seq<Byte>
      reads this, reader
    {
      pending + Flatten(reader.chunks)
    }

    method Pull() returns (more: bool)
      requires Valid()
      modifies this, reader
      ensures Valid() && Rest() == old(Rest())
      ensures more == (old(reader.chunks) != [])
      ensures !more ==> pending == old(pending) && reader.chunks == []
      ensures more ==> pending == old(pending) + old(reader.chunks)[0] && reader.chunks == old(reader.chunks)[1..]
      ensures peak <= old(peak) || peak <= |old(pending)| + largest
    {
      if exhausted {
        return false;
      }
      var next := reader.Read();
      match next
      case None =>
        exhausted := true;
        return false;
      case Some(value) =>
        pending := pending + value;
        peak := Max(peak, |pending|);
        return true;
    }

    /** Grow the buffer until `needle` appears, the limit is passed or the body ends. */
    method FindWithin(needle: seq<Byte>, limit: int) returns (found: int)
      requires Valid() && needle != []
      modifies this, reader
      ensures Valid() && Rest() == old(Rest())
      ensures found == Find(old(pending), old(reader.chunks), needle, limit)
      ensures found == -1 || (found == IndexOf(Rest(), needle) && found + |needle| <= |pending|)
      ensures Reachable(Rest(), needle, limit) ==> found == IndexOf(Rest(), needle)
      ensures peak <= old(peak) || peak <= limit + largest
    {
      FindSound(pending, reader.chunks, needle, limit);
      ghost var answer := Find(pending, reader.chunks, needle, limit);
      while true
        invariant Valid() && Rest() == old(Rest())
        invariant Find(pending, reader.chunks, needle, limit) == answer
        invariant peak <= old(peak) || peak <= limit + largest
        decreases |reader.chunks|
      {
        found := SearchBuffer(pending, needle);
        if found != -1 || |pending| > limit {
          return;
        }
        var more := Pull();
        if !more {
          found := SearchBuffer(pending, needle);
          return;
        }
      }
    }

    method Consume(count: nat) returns (taken: seq<Byte>)
      requires Valid() && count <= |pending|
      modifies this
      ensures Valid() && taken == old(pending)[..count] && pending == old(pending)[count..] && peak == old(peak)
      ensures Rest() == old(Rest())[count..] && taken == old(Rest())[..count]
    {
      taken := pending[..count];
      pending := pending[count..];
    }

    method Ensure(count: nat) returns (enough: bool)
      requires Valid()
      modifies this, reader
      ensures Valid() && Rest() == old(Rest())
      ensures enough == (|Rest()| >= count)
      ensures enough ==> |pending| >= count
      ensures peak <= old(peak) || peak <= count - 1 + largest
    {
      while |pending| < count
        invariant Valid() && Rest() == old(Rest())
        invariant peak <= old(peak) || peak <= count - 1 + largest
        decreases |reader.chunks|
      {
        var more := Pull();
        if !more {
          return false;
        }
      }
      return true;
    }

    method Cancel()
      modifies reader
      ensures reader.chunks == [] && Largest(reader.chunks) == 0
    {
      reader.Cancel();
    }
  }

  // ---- The file part as a stream

  datatype FileEvent = Chunk(bytes: seq<Byte>) | Closed(tail: seq<Byte>) | Errored | Idle

  /** Releasing bytes that cannot start a delimiter leaves the same file to come. */
  lemma ReleaseKeepsFile(content: seq<Byte>, delimiter: seq<Byte>, k: nat)
    requires delimiter != [] && k + (|delimiter| - 1) <= |content|
    requires forall i :: 0 <= i < k ==> !OccursAt(content, delimiter, i)
    ensures FileBytes(content, delimiter).0 == content[..k] + FileBytes(content[k..], delimiter).0
    ensures FileBytes(content, delimiter).1 == FileBytes(content[k..], delimiter).1
  {
    IndexOfDrop(content, delimiter, k);
    var end := IndexOf(content, delimiter);
    if end != -1 {
      assert content[..end] == content[..k] + content[k..][..end - k];
    } else if |content| >= |delimiter| {
      var n := |content| - (|delimiter| - 1);
      assert content[..n] == content[..k] + content[k..][..n - k];
    }
  }

  /** What the buffer alone decides of the file to come. */
  lemma BufferDecides(pending: seq<Byte>, later: seq<Byte>, delimiter: seq<Byte>)
    requires delimiter != []
    ensures var found, rest := IndexOf(pending, delimiter), pending + later;
            var k := |pending| - (|delimiter| - 1);
            && (found != -1 ==> found < |pending| && FileBytes(rest, delimiter) == (pending[..found], true))
            && (found == -1 && k > 0 ==>
                  FileBytes(rest, delimiter)
                  == (pending[..k] + FileBytes(rest[k..], delimiter).0, FileBytes(rest[k..], delimiter).1))
            && (found == -1 && k <= 0 && later == [] ==> FileBytes(rest, delimiter) == ([], false))
  {
    hide IndexOf;
    IndexOfPrefix(pending, later, delimiter);
    IndexOfFirst(pending, delimiter);
    IndexOfFirst(pending + later, delimiter);
    var k := |pending| - (|delimiter| - 1);
    var found := IndexOf(pending, delimiter);
    if found != -1 {
      assert (pending + later)[..found] == pending[..found];
    } else if k > 0 {
      ReleaseKeepsFile(pending + later, delimiter, k);
      assert (pending + later)[..k] == pending[..k];
    } else if later == [] {
      assert pending + later == pending;
    }
  }

  class FileStream {
    const cursor: BodyCursor
    const delimiter: seq<Byte>
    var finished: bool
    /** What has been handed on so far. */
    ghost var emitted: seq<Byte>
    /** The part's bytes and whether it is closed, fixed when the stream is made. */
    ghost const whole: (seq<Byte>, bool)

    ghost predicate Valid()
      reads this, cursor, cursor.reader
    {
      && cursor.Valid()
      && delimiter != []
      && (!finished ==>
            var rest := FileBytes(cursor.Rest(), delimiter);
            whole == (emitted + rest.0, rest.1))
    }

    constructor (cursor: BodyCursor, delimiter: seq<Byte>)
      requires cursor.Valid() && delimiter != []
      ensures Valid() && !finished && emitted == []
      ensures this.cursor == cursor && this.delimiter == delimiter
      ensures whole == FileBytes(cursor.Rest(), delimiter)
    {
      this.cursor := cursor;
      this.delimiter := delimiter;
      finished := false;
      emitted := [];
      whole := FileBytes(cursor.Rest(), delimiter);
      new;
      assert emitted + whole.0 == whole.0;
    }

    /** One `pull`: at most one chunk is released, or the stream ends. */
    method Pull() returns (event: FileEvent)
      requires Valid()
      modifies this, cursor, cursor.reader
      ensures Valid()
      ensures match event
              case Idle => old(finished) && finished && emitted == old(emitted)
              case Chunk(bytes) => !finished && bytes != [] && emitted == old(emitted) + bytes
                                   && |cursor.Rest()| < old(|cursor.Rest()|)
              case Closed(tail) => finished && !old(finished) && emitted == old(emitted) + tail
                                   && whole == (emitted, true)
              case Errored => finished && !old(finished) && emitted == old(emitted)
                              && whole == (emitted, false)
      ensures cursor.peak <= old(cursor.peak) || cursor.peak <= |delimiter| - 1 + cursor.largest
    {
      hide IndexOf, Largest, FileBytes;
      if finished {
        return Idle;
      }
      while true
        invariant Valid() && !finished && emitted == old(emitted)
        invariant cursor.Rest() == old(cursor.Rest())
        invariant cursor.peak <= old(cursor.peak) || cursor.peak <= |delimiter| - 1 + cursor.largest
        decreases |cursor.reader.chunks|
      {
        BufferDecides(cursor.pending, Flatten(cursor.reader.chunks), delimiter);
        var found := SearchBuffer(cursor.pending, delimiter);
        if found != -1 {
          finished := true;
          var tail := cursor.Consume(found);
          emitted := emitted + tail;
          cursor.Cancel();
          return Closed(tail);
        }
        var safe := |cursor.pending| - (|delimiter| - 1);
        if safe > 0 {
          ghost var before := emitted;
          var out := cursor.Consume(safe);
          emitted := emitted + out;
          assert before + (out + FileBytes(cursor.Rest(), delimiter).0)
              == emitted + FileBytes(cursor.Rest(), delimiter).0;
          return Chunk(out);
        }
        var more := cursor.Pull();
        if !more {
          finished := true;
          assert emitted + [] == emitted;
          return Errored;
        }
      }
    }

    /** Read the stream to its end, as the upload does. */
    method Drain() returns (bytes: seq<Byte>, closed: bool)
      requires Valid() && !finished && emitted == []
      modifies this, cursor, cursor.reader
      ensures (bytes, closed) == old(FileBytes(cursor.Rest(), delimiter))
      ensures cursor.peak <= old(cursor.peak) || cursor.peak <= |delimiter| - 1 + cursor.largest
    {
      hide Largest, FileBytes;
      bytes := [];
      assert emitted + FileBytes(cursor.Rest(), delimiter).0 == FileBytes(cursor.Rest(), delimiter).0;
      while true
        invariant Valid() && !finished && emitted == bytes
        invariant cursor.peak <= old(cursor.peak) || cursor.peak <= |delimiter| - 1 + cursor.largest
        decreases |cursor.Rest()|
      {
        var event := Pull();
        match event
        case Chunk(out) => bytes := bytes + out;
        case Closed(tail) => return bytes + tail, true;
        case Errored => return bytes, false;
        case Idle => assert false;
      }
    }
  }

  // ---- The parser

  datatype Outcome =
    | Rejected(why: Refusal)
    | FieldsOnly(fields: map<string, string>)
    | FieldsAndFile(fields: map<string, string>, headers: PartHeaders, stream: FileStream)

  /** The parser's outcome as a whole-body form. */
  ghost function FormOf(o: Outcome): Form
    reads if o.FieldsAndFile? then {o.stream, o.stream.cursor, o.stream.cursor.reader} else {}
  {
    match o
    case Rejected(why) => Refused(why)
    case FieldsOnly(fields) => NoFile(fields)
    case FieldsAndFile(fields, headers, stream) => WithFile(fields, headers, stream.cursor.Rest())
  }

  ghost predicate FreshStream(o: Outcome, delimiter: seq<Byte>)
    reads if o.FieldsAndFile? then {o.stream, o.stream.cursor, o.stream.cursor.reader} else {}
  {
    o.FieldsAndFile? ==>
      o.stream.Valid() && !o.stream.finished && o.stream.emitted == [] && o.stream.delimiter == delimiter
  }

  /**
   * For every cutting of the body: within the limits the result is exactly the
   * whole-body parse, and past them it is that parse or a refusal, never another form.
   */
  method ParseMultipartForm(t: TextRules, l: Limits, boundary: Option<seq<Byte>>, reader: ChunkSource)
    returns (outcome: Outcome, ghost peak: nat)
    modifies reader
    ensures outcome.FieldsAndFile? ==> fresh(outcome.stream) && fresh(outcome.stream.cursor)
    ensures boundary != None ==> FreshStream(outcome, Delimiter(boundary.value))
    ensures var body := old(Flatten(reader.chunks));
            && (Fits(t, l, boundary, body) ==> FormOf(outcome) == Parse(t, l, boundary, body))
            && (FormOf(outcome) == Parse(t, l, boundary, body)
                || (outcome.Rejected? && LimitRefusal(outcome.why)))
    ensures peak <= HeldAtMost(l, old(Largest(reader.chunks)))
    ensures outcome.FieldsAndFile? ==>
              outcome.stream.cursor.peak == peak && outcome.stream.cursor.largest == old(Largest(reader.chunks))
  {
    hide IndexOf, ParseParts, PartsFit, Largest;
    if boundary == None {
      return Rejected(MissingBoundary), 0;
    }
    var delimiter := Delimiter(boundary.value);
    var firstDelimiter := FirstDelimiter(boundary.value);
    var cursor := new BodyCursor(reader);
    assert cursor.Rest() == Flatten(reader.chunks);
    var start := cursor.FindWithin(firstDelimiter, l.maxFieldBytes);
    if start == -1 {
      cursor.Cancel();
      return Rejected(MalformedBody), cursor.peak;
    }
    var _ := cursor.Consume(start + |firstDelimiter|);
    outcome := ReadParts(t, l, delimiter, cursor);
    peak := cursor.peak;
  }

  /** A form within its limits is buffered up to the limit and one more chunk, whatever its file's size. */
  function HeldAtMost(l: Limits, largest: nat): int { Max(l.maxFieldBytes, 1) + largest }

  datatype HeadResult = HeadEnd(outcome: Outcome) | HeadField(name: string)

  ghost predicate RefinesHead(r: HeadResult, cursor: BodyCursor, head: Head)
    reads cursor, cursor.reader
    reads if r.HeadEnd? && r.outcome.FieldsAndFile?
          then {r.outcome.stream, r.outcome.stream.cursor, r.outcome.stream.cursor.reader} else {}
  {
    match r
    case HeadEnd(outcome) => head == Ended(FormOf(outcome))
    case HeadField(name) => head == FieldHead(name, cursor.Rest())
  }

  /** A part's headers, up to and with the empty line after them. */
  method ReadBlock(l: Limits, cursor: BodyCursor) returns (block: Option<seq<Byte>>)
    requires cursor.Valid()
    modifies cursor, cursor.reader
    ensures cursor.Valid()
    ensures var part := old(cursor.Rest());
            var end := IndexOf(part, CRLF_CRLF);
            && (block != None ==>
                  end == |block.value| && block.value == part[..end] && cursor.Rest() == part[end + 4..])
            && (Reachable(part, CRLF_CRLF, l.maxFieldBytes) ==> (block == None <==> end == -1))
    ensures cursor.peak <= old(cursor.peak) || cursor.peak <= l.maxFieldBytes + cursor.largest
  {
    hide IndexOf, Largest;
    ghost var part := cursor.Rest();
    var headerEnd := cursor.FindWithin(CRLF_CRLF, l.maxFieldBytes);
    if headerEnd == -1 {
      cursor.Cancel();
      return None;
    }
    var headerBytes := cursor.Consume(headerEnd);
    var _ := cursor.Consume(|CRLF_CRLF|);
    DropDrop(part, headerEnd, 4);
    return Some(headerBytes);
  }

  /** From the end of one delimiter to the end of the next part's headers. */
  method ReadHead(t: TextRules, l: Limits, delimiter: seq<Byte>, cursor: BodyCursor, fields: map<string, string>)
    returns (r: HeadResult)
    requires cursor.Valid() && delimiter != []
    modifies cursor, cursor.reader
    ensures cursor.Valid()
    ensures r.HeadEnd? && r.outcome.FieldsAndFile? ==> fresh(r.outcome.stream) && r.outcome.stream.cursor == cursor
    ensures r.HeadEnd? ==> FreshStream(r.outcome, delimiter)
    ensures var head := old(ParseHead(t, l, cursor.Rest(), fields));
            && (old(HeadFits(l, cursor.Rest())) ==> RefinesHead(r, cursor, head))
            && (RefinesHead(r, cursor, head) || r == HeadEnd(Rejected(MalformedHeaders)))
    ensures cursor.peak <= old(cursor.peak) || cursor.peak <= HeldAtMost(l, cursor.largest)
  {
    hide IndexOf, Largest, Reachable;
    ghost var rest := cursor.Rest();
    ghost var head := ParseHead(t, l, rest, fields);
    var enough := cursor.Ensure(2);
    if !enough {
      cursor.Cancel();
      return HeadEnd(Rejected(TruncatedBody));
    }
    var marker := cursor.pending[..2];
    assert marker == rest[..2];
    if marker == DASH_DASH {
      cursor.Cancel();
      return HeadEnd(FieldsOnly(fields));
    }
    if marker != CRLF {
      cursor.Cancel();
      return HeadEnd(Rejected(MalformedBoundary));
    }
    var _ := cursor.Consume(2);
    assert cursor.Rest() == rest[2..];
    var block := ReadBlock(l, cursor);
    if block == None {
      return HeadEnd(Rejected(MalformedHeaders));
    }
    var headers := t.headersOf(block.value);
    if headers.name == None {
      cursor.Cancel();
      return HeadEnd(Rejected(MissingName));
    }
    var fieldName := t.lower(headers.name.value);
    if fieldName == "file" {
      var stream := new FileStream(cursor, delimiter);
      return HeadEnd(FieldsAndFile(fields, headers, stream));
    }
    if |fields| >= l.maxFieldCount {
      cursor.Cancel();
      return HeadEnd(Rejected(TooManyFields));
    }
    return HeadField(fieldName);
  }

  /** A field's value, up to the end of the delimiter that closes it. */
  method ReadValue(l: Limits, delimiter: seq<Byte>, cursor: BodyCursor, fieldBytes: nat)
    returns (value: Option<seq<Byte>>)
    requires cursor.Valid() && delimiter != [] && fieldBytes <= l.maxFieldBytes
    modifies cursor, cursor.reader
    ensures cursor.Valid()
    ensures var content := old(cursor.Rest());
            var end := IndexOf(content, delimiter);
            && (value != None ==>
                  && end == |value.value| && fieldBytes + end <= l.maxFieldBytes
                  && value.value == content[..end] && cursor.Rest() == content[end + |delimiter|..])
            && (Reachable(content, delimiter, l.maxFieldBytes - fieldBytes) ==>
                  (value == None <==> end == -1 || fieldBytes + end > l.maxFieldBytes))
    ensures cursor.peak <= old(cursor.peak) || cursor.peak <= l.maxFieldBytes - fieldBytes + cursor.largest
  {
    hide IndexOf, Largest;
    ghost var content := cursor.Rest();
    var valueEnd := cursor.FindWithin(delimiter, l.maxFieldBytes - fieldBytes);
    if valueEnd == -1 {
      cursor.Cancel();
      return None;
    }
    var valueBytes := cursor.Consume(valueEnd);
    if fieldBytes + |valueBytes| > l.maxFieldBytes {
      cursor.Cancel();
      return None;
    }
    var _ := cursor.Consume(|delimiter|);
    DropDrop(content, valueEnd, |delimiter|);
    return Some(valueBytes);
  }

  method ReadParts(t: TextRules, l: Limits, delimiter: seq<Byte>, cursor: BodyCursor) returns (outcome: Outcome)
    requires cursor.Valid() && delimiter != []
    modifies cursor, cursor.reader
    ensures outcome.FieldsAndFile? ==> fresh(outcome.stream) && outcome.stream.cursor == cursor
    ensures FreshStream(outcome, delimiter)
    ensures var form := old(ParseParts(t, l, delimiter, cursor.Rest(), map[], 0));
            && (old(PartsFit(t, l, delimiter, cursor.Rest(), map[], 0)) ==> FormOf(outcome) == form)
            && (FormOf(outcome) == form || (outcome.Rejected? && LimitRefusal(outcome.why)))
    ensures cursor.peak <= old(cursor.peak) || cursor.peak <= HeldAtMost(l, cursor.largest)
  {
    hide IndexOf, ParseHead, HeadFits, Largest;
    ghost var form := ParseParts(t, l, delimiter, cursor.Rest(), map[], 0);
    ghost var fits := PartsFit(t, l, delimiter, cursor.Rest(), map[], 0);
    var fields: map<string, string> := map[];
    var fieldBytes := 0;
    while true
      invariant cursor.Valid()
      invariant 0 <= fieldBytes <= l.maxFieldBytes
      invariant ParseParts(t, l, delimiter, cursor.Rest(), fields, fieldBytes) == form
      invariant fits ==> PartsFit(t, l, delimiter, cursor.Rest(), fields, fieldBytes)
      invariant cursor.peak <= old(cursor.peak) || cursor.peak <= HeldAtMost(l, cursor.largest)
      decreases |cursor.Rest()|
    {
      var head := ReadHead(t, l, delimiter, cursor, fields);
      match head
      case HeadEnd(end) => return end;
      case HeadField(name) =>
        var value := ReadValue(l, delimiter, cursor, fieldBytes);
        if value == None {
          return Rejected(EntityTooLarge);
        }
        fieldBytes := fieldBytes + |value.value|;
        fields := Keep(fields, name, t.decode(value.value));
    }
  }

  // ---- What a client sends

  /** A part's raw header block and its raw bytes. */
  datatype Part = Part(block: seq<Byte>, bytes: seq<Byte>)

  /** A form in S3's order: plain fields first, then at most one file. */
  datatype SentForm = SentForm(preamble: seq<Byte>, fields: seq<Part>, file: Option<Part>, epilogue: seq<Byte>)

  function Render(boundary: seq<Byte>, f: SentForm): seq<Byte> {
    f.preamble + FirstDelimiter(boundary) + RenderParts(Delimiter(boundary), f.fields, f.file, f.epilogue)
  }

  function RenderPart(delimiter: seq<Byte>, p: Part): seq<Byte> {
    CRLF + p.block + CRLF_CRLF + p.bytes + delimiter
  }

  function RenderParts(delimiter: seq<Byte>, fields: seq<Part>, file: Option<Part>, epilogue: seq<Byte>): seq<Byte> {
    if fields != [] then RenderPart(delimiter, fields[0]) + RenderParts(delimiter, fields[1..], file, epilogue)
    else match file
         case None => DASH_DASH + epilogue
         case Some(p) => RenderPart(delimiter, p) + epilogue
  }

  /** Appending the delimiter creates no earlier occurrence of it. */
  predicate Delimited(s: seq<Byte>, delimiter: seq<Byte>) {
    IndexOf(s + delimiter, delimiter) == |s|
  }

  predicate GoodPart(t: TextRules, l: Limits, delimiter: seq<Byte>, p: Part, isFile: bool) {
    && Delimited(p.block, CRLF_CRLF)
    && |p.block| + 4 <= l.maxFieldBytes + 1
    && Delimited(p.bytes, delimiter)
    && t.headersOf(p.block).name != None
    && (t.lower(t.headersOf(p.block).name.value) == "file") == isFile
  }

  function NameOf(t: TextRules, p: Part): string
    requires t.headersOf(p.block).name != None
  {
    t.lower(t.headersOf(p.block).name.value)
  }

  /** The fields, one by one, within what the earlier ones left of the limits. */
  predicate GoodFields(t: TextRules, l: Limits, delimiter: seq<Byte>, parts: seq<Part>,
                       fields: map<string, string>, fieldBytes: nat)
  {
    parts == [] || (
      && GoodPart(t, l, delimiter, parts[0], false)
      && |fields| < l.maxFieldCount
      && |parts[0].bytes| + |delimiter| <= l.maxFieldBytes - fieldBytes + 1
      && GoodFields(t, l, delimiter, parts[1..],
                    Keep(fields, NameOf(t, parts[0]), t.decode(parts[0].bytes)), fieldBytes + |parts[0].bytes|))
  }

  function Collected(t: TextRules, parts: seq<Part>, fields: map<string, string>): map<string, string>
    requires forall p :: p in parts ==> t.headersOf(p.block).name != None
  {
    if parts == [] then fields
    else Collected(t, parts[1..], Keep(fields, NameOf(t, parts[0]), t.decode(parts[0].bytes)))
  }

  predicate Good(t: TextRules, l: Limits, boundary: seq<Byte>, f: SentForm) {
    && Delimited(f.preamble, FirstDelimiter(boundary))
    && |f.preamble| + |FirstDelimiter(boundary)| <= l.maxFieldBytes + 1
    && GoodFields(t, l, Delimiter(boundary), f.fields, map[], 0)
    && (f.file != None ==> GoodPart(t, l, Delimiter(boundary), f.file.value, true))
  }

  lemma {:induction false} GoodFieldsNamed(t: TextRules, l: Limits, delimiter: seq<Byte>, parts: seq<Part>,
                                           fields: map<string, string>, fieldBytes: nat)
    requires GoodFields(t, l, delimiter, parts, fields, fieldBytes)
    ensures forall p :: p in parts ==> t.headersOf(p.block).name != None
  {
    if parts != [] {
      GoodFieldsNamed(t, l, delimiter, parts[1..],
                      Keep(fields, NameOf(t, parts[0]), t.decode(parts[0].bytes)), fieldBytes + |parts[0].bytes|);
    }
  }

  lemma DelimitedSplits(s: seq<Byte>, delimiter: seq<Byte>, tail: seq<Byte>)
    requires Delimited(s, delimiter)
    ensures IndexOf(s + delimiter + tail, delimiter) == |s|
    ensures (s + delimiter + tail)[..|s|] == s
    ensures (s + delimiter + tail)[|s| + |delimiter|..] == tail
  {
    IndexOfPrefix(s + delimiter, tail, delimiter);
  }

  /** Reading back one rendered part. */
  lemma RenderedPart(p: Part, delimiter: seq<Byte>, tail: seq<Byte>)
    requires Delimited(p.block, CRLF_CRLF) && Delimited(p.bytes, delimiter)
    ensures var body := RenderPart(delimiter, p) + tail;
            && |body| >= 2 && body[..2] == CRLF
            && IndexOf(body[2..], CRLF_CRLF) == |p.block|
            && body[2..][..|p.block|] == p.block
            && body[2..][|p.block| + 4..] == p.bytes + delimiter + tail
            && IndexOf(p.bytes + delimiter + tail, delimiter) == |p.bytes|
  {
    var body := RenderPart(delimiter, p) + tail;
    assert body[2..] == p.block + CRLF_CRLF + (p.bytes + delimiter + tail);
    DelimitedSplits(p.block, CRLF_CRLF, p.bytes + delimiter + tail);
    DelimitedSplits(p.bytes, delimiter, tail);
  }

  lemma RenderedFieldStep(t: TextRules, l: Limits, delimiter: seq<Byte>, p: Part, tail: seq<Byte>,
                          fields: map<string, string>, fieldBytes: nat)
    requires GoodPart(t, l, delimiter, p, false)
    requires |fields| < l.maxFieldCount && delimiter != []
    requires |p.bytes| + |delimiter| <= l.maxFieldBytes - fieldBytes + 1
    ensures var body := RenderPart(delimiter, p) + tail;
            && PartFits(t, l, delimiter, body, fields, fieldBytes)
            && ParsePart(t, l, delimiter, body, fields, fieldBytes)
               == Next(tail, Keep(fields, NameOf(t, p), t.decode(p.bytes)), fieldBytes + |p.bytes|)
  {
    RenderedPart(p, delimiter, tail);
    DelimitedSplits(p.bytes, delimiter, tail);
  }

  lemma RenderedFileStep(t: TextRules, l: Limits, delimiter: seq<Byte>, p: Part, tail: seq<Byte>,
                         fields: map<string, string>, fieldBytes: nat)
    requires GoodPart(t, l, delimiter, p, true)
    ensures var body := RenderPart(delimiter, p) + tail;
            && PartFits(t, l, delimiter, body, fields, fieldBytes)
            && ParsePart(t, l, delimiter, body, fields, fieldBytes)
               == Done(WithFile(fields, t.headersOf(p.block), p.bytes + delimiter + tail))
  {
    RenderedPart(p, delimiter, tail);
  }

  lemma RenderedEndStep(t: TextRules, l: Limits, delimiter: seq<Byte>, epilogue: seq<Byte>,
                        fields: map<string, string>, fieldBytes: nat)
    ensures PartFits(t, l, delimiter, DASH_DASH + epilogue, fields, fieldBytes)
    ensures ParsePart(t, l, delimiter, DASH_DASH + epilogue, fields, fieldBytes) == Done(NoFile(fields))
  {
    assert (DASH_DASH + epilogue)[..2] == DASH_DASH;
  }

  lemma {:induction false} ParseRenderedParts(t: TextRules, l: Limits, delimiter: seq<Byte>, parts: seq<Part>,
                                              file: Option<Part>, epilogue: seq<Byte>,
                                              fields: map<string, string>, fieldBytes: nat)
    requires delimiter != []
    requires GoodFields(t, l, delimiter, parts, fields, fieldBytes)
    requires file != None ==> GoodPart(t, l, delimiter, file.value, true)
    requires forall p :: p in parts ==> t.headersOf(p.block).name != None
    ensures var body := RenderParts(delimiter, parts, file, epilogue);
            && PartsFit(t, l, delimiter, body, fields, fieldBytes)
            && ParseParts(t, l, delimiter, body, fields, fieldBytes)
               == (match file
                   case None => NoFile(Collected(t, parts, fields))
                   case Some(p) => WithFile(Collected(t, parts, fields), t.headersOf(p.block),
                                            p.bytes + delimiter + epilogue))
    decreases |parts|
  {
    hide IndexOf, ParsePart, PartFits;
    var body := RenderParts(delimiter, parts, file, epilogue);
    if parts != [] {
      var p := parts[0];
      var tail := RenderParts(delimiter, parts[1..], file, epilogue);
      var kept := Keep(fields, NameOf(t, p), t.decode(p.bytes));
      assert body == RenderPart(delimiter, p) + tail;
      RenderedFieldStep(t, l, delimiter, p, tail, fields, fieldBytes);
      PartsNext(t, l, delimiter, body, fields, fieldBytes, tail, kept, fieldBytes + |p.bytes|);
      ParseRenderedParts(t, l, delimiter, parts[1..], file, epilogue, kept, fieldBytes + |p.bytes|);
    } else if file != None {
      RenderedFileStep(t, l, delimiter, file.value, epilogue, fields, fieldBytes);
      PartsDone(t, l, delimiter, body, fields, fieldBytes,
                WithFile(fields, t.headersOf(file.value.block), file.value.bytes + delimiter + epilogue));
    } else {
      RenderedEndStep(t, l, delimiter, epilogue, fields, fieldBytes);
      PartsDone(t, l, delimiter, body, fields, fieldBytes, NoFile(fields));
    }
  }

  /**
   * Round trip: whatever form a client renders, the parser's specification reads
   * back its fields, its file headers and exactly its file bytes, within the limits.
   */
  lemma ParseInvertsRender(t: TextRules, l: Limits, boundary: seq<Byte>, f: SentForm)
    requires Good(t, l, boundary, f)
    requires forall p :: p in f.fields ==> t.headersOf(p.block).name != None
    ensures Fits(t, l, Some(boundary), Render(boundary, f))
    ensures var form := Parse(t, l, Some(boundary), Render(boundary, f));
            match f.file
            case None => form == NoFile(Collected(t, f.fields, map[]))
            case Some(p) =>
              && form.WithFile?
              && form.fields == Collected(t, f.fields, map[])
              && form.headers == t.headersOf(p.block)
              && FileBytes(form.content, Delimiter(boundary)) == (p.bytes, true)
  {
    var delimiter := Delimiter(boundary);
    var tail := RenderParts(delimiter, f.fields, f.file, f.epilogue);
    DelimitedSplits(f.preamble, FirstDelimiter(boundary), tail);
    ParseRenderedParts(t, l, delimiter, f.fields, f.file, f.epilogue, map[], 0);
    if f.file != None {
      DelimitedSplits(f.file.value.bytes, delimiter, f.epilogue);
    }
  }

  // ---- Every body, and what is made of it

  /** How a body goes on after its fields: it closes, has a file, or is wrong in one of six ways. */
  datatype Tail =
    | Close(epilogue: seq<Byte>)
    | File(block: seq<Byte>, content: seq<Byte>)
    | Short(rest: seq<Byte>)
    | Stray(rest: seq<Byte>)
    | Headless(rest: seq<Byte>)
    | Nameless(block: seq<Byte>, content: seq<Byte>)
    | Excess(block: seq<Byte>, content: seq<Byte>)
    | TooLarge(block: seq<Byte>, content: seq<Byte>)

  /** A body with a first delimiter: what precedes it, its fields, and how it goes on. */
  datatype Shape = Shape(preamble: seq<Byte>, fields: seq<Part>, tail: Tail)

  function TailText(tail: Tail): seq<Byte> {
    match tail
    case Close(epilogue) => DASH_DASH + epilogue
    case Short(rest) => rest
    case Stray(rest) => rest
    case Headless(rest) => CRLF + rest
    case _ => CRLF + tail.block + CRLF_CRLF + tail.content
  }

  function FieldsText(delimiter: seq<Byte>, parts: seq<Part>, tail: Tail): seq<Byte> {
    if parts == [] then TailText(tail)
    else RenderPart(delimiter, parts[0]) + FieldsText(delimiter, parts[1..], tail)
  }

  function Text(boundary: seq<Byte>, shape: Shape): seq<Byte> {
    shape.preamble + FirstDelimiter(boundary) + FieldsText(Delimiter(boundary), shape.fields, shape.tail)
  }

  /** A header block that names a field, or the file. */
  predicate Names(t: TextRules, block: seq<Byte>, isFile: bool) {
    && Delimited(block, CRLF_CRLF) && t.headersOf(block).name.Some?
    && (t.lower(t.headersOf(block).name.value) == "file" <==> isFile)
  }

  /** A field within what the fields before it, `count` names and `used` bytes, left of the limits. */
  predicate FieldWithin(t: TextRules, l: Limits, delimiter: seq<Byte>, p: Part, count: nat, used: nat) {
    && Names(t, p.block, false) && Delimited(p.bytes, delimiter)
    && count < l.maxFieldCount && used + |p.bytes| <= l.maxFieldBytes
  }

  /** What makes a tail what it is, after `count` names and `used` bytes. */
  ghost predicate TailIs(t: TextRules, l: Limits, delimiter: seq<Byte>, tail: Tail, count: nat, used: nat) {
    match tail
    case Close(_) => true
    case File(block, _) => Names(t, block, true)
    case Short(rest) => |rest| < 2
    case Stray(rest) => |rest| >= 2 && !(DASH_DASH <= rest) && !(CRLF <= rest)
    case Headless(rest) => forall i :: !OccursAt(rest, CRLF_CRLF, i)
    case Nameless(block, _) => Delimited(block, CRLF_CRLF) && t.headersOf(block).name.None?
    case Excess(block, _) => Names(t, block, false) && count >= l.maxFieldCount
    case TooLarge(block, content) =>
      && Names(t, block, false) && count < l.maxFieldCount
      && forall i :: OccursAt(content, delimiter, i) ==> used + i > l.maxFieldBytes
  }

  ghost predicate FieldsAre(t: TextRules, l: Limits, delimiter: seq<Byte>, parts: seq<Part>, tail: Tail,
                            fields: map<string, string>, used: nat)
  {
    if parts == [] then TailIs(t, l, delimiter, tail, |fields|, used)
    else
      && FieldWithin(t, l, delimiter, parts[0], |fields|, used)
      && FieldsAre(t, l, delimiter, parts[1..], tail,
                   Keep(fields, NameOf(t, parts[0]), t.decode(parts[0].bytes)), used + |parts[0].bytes|)
  }

  ghost predicate ShapeIs(t: TextRules, l: Limits, boundary: seq<Byte>, shape: Shape) {
    && Delimited(shape.preamble, FirstDelimiter(boundary))
    && FieldsAre(t, l, Delimiter(boundary), shape.fields, shape.tail, map[], 0)
  }

  function TailForm(t: TextRules, tail: Tail, fields: map<string, string>): Form {
    match tail
    case Close(_) => NoFile(fields)
    case File(block, content) => WithFile(fields, t.headersOf(block), content)
    case Short(_) => Refused(TruncatedBody)
    case Stray(_) => Refused(MalformedBoundary)
    case Headless(_) => Refused(MalformedHeaders)
    case Nameless(_, _) => Refused(MissingName)
    case Excess(_, _) => Refused(TooManyFields)
    case TooLarge(_, _) => Refused(EntityTooLarge)
  }

  lemma {:induction false} FieldsNamed(t: TextRules, l: Limits, delimiter: seq<Byte>, parts: seq<Part>, tail: Tail,
                                       fields: map<string, string>, used: nat)
    requires FieldsAre(t, l, delimiter, parts, tail, fields, used)
    ensures forall p :: p in parts ==> t.headersOf(p.block).name != None
  {
    if parts != [] {
      FieldsNamed(t, l, delimiter, parts[1..], tail,
                  Keep(fields, NameOf(t, parts[0]), t.decode(parts[0].bytes)), used + |parts[0].bytes|);
    }
  }

  ghost function ShapeForm(t: TextRules, l: Limits, boundary: seq<Byte>, shape: Shape): Form
    requires ShapeIs(t, l, boundary, shape)
  {
    FieldsNamed(t, l, Delimiter(boundary), shape.fields, shape.tail, map[], 0);
    TailForm(t, shape.tail, Collected(t, shape.fields, map[]))
  }

  /** Reading a header block that is really there. */
  lemma HeadRead(t: TextRules, l: Limits, block: seq<Byte>, content: seq<Byte>, fields: map<string, string>)
    requires Delimited(block, CRLF_CRLF)
    ensures var body := CRLF + block + CRLF_CRLF + content;
            var name := t.headersOf(block).name;
            ParseHead(t, l, body, fields) ==
              if name.None? then Ended(Refused(MissingName))
              else if t.lower(name.value) == "file" then Ended(WithFile(fields, t.headersOf(block), content))
              else if |fields| >= l.maxFieldCount then Ended(Refused(TooManyFields))
              else FieldHead(t.lower(name.value), content)
  {
    var body := CRLF + block + CRLF_CRLF + content;
    assert body[..2] == CRLF;
    assert body[2..] == block + CRLF_CRLF + content;
    DelimitedSplits(block, CRLF_CRLF, content);
  }

  lemma TailRead(t: TextRules, l: Limits, delimiter: seq<Byte>, tail: Tail, fields: map<string, string>, used: nat)
    requires TailIs(t, l, delimiter, tail, |fields|, used)
    ensures ParsePart(t, l, delimiter, TailText(tail), fields, used) == Done(TailForm(t, tail, fields))
  {
    var body := TailText(tail);
    match tail
    case Close(epilogue) => assert body[..2] == DASH_DASH;
    case Short(_) =>
    case Stray(rest) => assert body[..2] <= rest;
    case Headless(rest) =>
      assert body[..2] == CRLF && body[2..] == rest;
      IndexOfFirst(rest, CRLF_CRLF);
    case _ =>
      hide ParseHead;
      HeadRead(t, l, tail.block, tail.content, fields);
      IndexOfFirst(tail.content, delimiter);
  }

  lemma FieldRead(t: TextRules, l: Limits, delimiter: seq<Byte>, p: Part, rest: seq<Byte>,
                  fields: map<string, string>, used: nat)
    requires FieldWithin(t, l, delimiter, p, |fields|, used)
    ensures ParsePart(t, l, delimiter, RenderPart(delimiter, p) + rest, fields, used)
            == Next(rest, Keep(fields, NameOf(t, p), t.decode(p.bytes)), used + |p.bytes|)
  {
    hide ParseHead;
    var content := p.bytes + delimiter + rest;
    assert RenderPart(delimiter, p) + rest == CRLF + p.block + CRLF_CRLF + content;
    HeadRead(t, l, p.block, content, fields);
    DelimitedSplits(p.bytes, delimiter, rest);
  }

  lemma {:induction false} FieldsRead(t: TextRules, l: Limits, delimiter: seq<Byte>, parts: seq<Part>, tail: Tail,
                                      fields: map<string, string>, used: nat)
    requires FieldsAre(t, l, delimiter, parts, tail, fields, used)
    requires forall p :: p in parts ==> t.headersOf(p.block).name != None
    ensures ParseParts(t, l, delimiter, FieldsText(delimiter, parts, tail), fields, used)
            == TailForm(t, tail, Collected(t, parts, fields))
    decreases |parts|
  {
    hide IndexOf, ParsePart, TailIs, FieldWithin, TailForm, TailText;
    if parts == [] {
      TailRead(t, l, delimiter, tail, fields, used);
    } else {
      var p := parts[0];
      FieldRead(t, l, delimiter, p, FieldsText(delimiter, parts[1..], tail), fields, used);
      FieldsRead(t, l, delimiter, parts[1..], tail, Keep(fields, NameOf(t, p), t.decode(p.bytes)), used + |p.bytes|);
    }
  }

  /** A text of some shape is read as that shape says. */
  lemma ShapeRead(t: TextRules, l: Limits, boundary: seq<Byte>, shape: Shape)
    requires ShapeIs(t, l, boundary, shape)
    ensures Parse(t, l, Some(boundary), Text(boundary, shape)) == ShapeForm(t, l, boundary, shape)
  {
    hide IndexOf, ParseParts, FieldsAre, TailForm;
    FieldsNamed(t, l, Delimiter(boundary), shape.fields, shape.tail, map[], 0);
    DelimitedSplits(shape.preamble, FirstDelimiter(boundary),
                    FieldsText(Delimiter(boundary), shape.fields, shape.tail));
    FieldsRead(t, l, Delimiter(boundary), shape.fields, shape.tail, map[], 0);
  }

  /** Where a needle is first found, the text before it is delimited by it. */
  lemma FoundSplits(s: seq<Byte>, needle: seq<Byte>)
    requires IndexOf(s, needle) != -1
    ensures var k := IndexOf(s, needle);
            Delimited(s[..k], needle) && s == s[..k] + needle + s[k + |needle|..]
  {
    var k := IndexOf(s, needle);
    IndexOfFirst(s, needle);
    var head := s[..k + |needle|];
    assert s[..k] + needle == head && s == head + s[k + |needle|..];
    forall j | 0 <= j < k && OccursAt(head, needle, j) ensures false {
      OccursPrefix(head, s[k + |needle|..], needle, j);
    }
    OccursPrefix(head, s[k + |needle|..], needle, k);
    IndexIs(head, needle, k);
  }

  /** The field, or else the tail, that a body begins with. */
  lemma PartOf(t: TextRules, l: Limits, delimiter: seq<Byte>, body: seq<Byte>, fields: map<string, string>, used: nat)
    returns (field: Option<Part>, rest: seq<Byte>, tail: Tail)
    requires delimiter != []
    ensures match field
            case Some(p) => FieldWithin(t, l, delimiter, p, |fields|, used)
                            && body == RenderPart(delimiter, p) + rest && |rest| < |body|
            case None => TailIs(t, l, delimiter, tail, |fields|, used) && body == TailText(tail)
  {
    hide IndexOf;
    field, rest := None, [];
    if |body| < 2 {
      tail := Short(body);
    } else if body[..2] == DASH_DASH {
      tail := Close(body[2..]);
      assert body == body[..2] + body[2..];
    } else if body[..2] != CRLF {
      tail := Stray(body);
    } else {
      assert body == body[..2] + body[2..];
      var part := body[2..];
      IndexOfFirst(part, CRLF_CRLF);
      if IndexOf(part, CRLF_CRLF) == -1 {
        tail := Headless(part);
      } else {
        FoundSplits(part, CRLF_CRLF);
        var k := IndexOf(part, CRLF_CRLF);
        var block, content := part[..k], part[k + 4..];
        assert body == CRLF + block + CRLF_CRLF + content;
        field, rest, tail := PartAfterHead(t, l, delimiter, body, block, content, fields, used);
      }
    }
  }

  lemma PartAfterHead(t: TextRules, l: Limits, delimiter: seq<Byte>, body: seq<Byte>, block: seq<Byte>,
                      content: seq<Byte>, fields: map<string, string>, used: nat)
    returns (field: Option<Part>, rest: seq<Byte>, tail: Tail)
    requires delimiter != [] && body == CRLF + block + CRLF_CRLF + content && Delimited(block, CRLF_CRLF)
    ensures match field
            case Some(p) => FieldWithin(t, l, delimiter, p, |fields|, used)
                            && body == RenderPart(delimiter, p) + rest && |rest| < |body|
            case None => TailIs(t, l, delimiter, tail, |fields|, used) && body == TailText(tail)
  {
    hide IndexOf, Delimited;
    field, rest, tail := None, [], Nameless(block, content);
    if t.headersOf(block).name.Some? {
      IndexOfFirst(content, delimiter);
      var end := IndexOf(content, delimiter);
      if t.lower(t.headersOf(block).name.value) == "file" {
        tail := File(block, content);
      } else if |fields| >= l.maxFieldCount {
        tail := Excess(block, content);
      } else if end == -1 || used + end > l.maxFieldBytes {
        tail := TooLarge(block, content);
      } else {
        FoundSplits(content, delimiter);
        field, rest := Some(Part(block, content[..end])), content[end + |delimiter|..];
        assert body == RenderPart(delimiter, field.value) + rest;
      }
    }
  }

  lemma {:induction false} FieldsOf(t: TextRules, l: Limits, delimiter: seq<Byte>, body: seq<Byte>,
                                    fields: map<string, string>, used: nat)
    returns (parts: seq<Part>, tail: Tail)
    requires delimiter != []
    ensures FieldsAre(t, l, delimiter, parts, tail, fields, used) && body == FieldsText(delimiter, parts, tail)
    decreases |body|
  {
    hide FieldWithin, TailIs, TailText, RenderPart;
    var field, rest, last := PartOf(t, l, delimiter, body, fields, used);
    if field.None? {
      parts, tail := [], last;
    } else {
      var p := field.value;
      FieldIsNamed(t, l, delimiter, p, |fields|, used);
      var more, end := FieldsOf(t, l, delimiter, rest, Keep(fields, NameOf(t, p), t.decode(p.bytes)), used + |p.bytes|);
      parts, tail := [p] + more, end;
      assert parts[1..] == more;
    }
  }

  lemma FieldIsNamed(t: TextRules, l: Limits, delimiter: seq<Byte>, p: Part, count: nat, used: nat)
    requires FieldWithin(t, l, delimiter, p, count, used)
    ensures t.headersOf(p.block).name != None
  {
  }

  /** Every body that has a first delimiter is the text of some shape. */
  lemma ShapeOf(t: TextRules, l: Limits, boundary: seq<Byte>, body: seq<Byte>) returns (shape: Shape)
    requires exists i :: OccursAt(body, FirstDelimiter(boundary), i)
    ensures ShapeIs(t, l, boundary, shape) && Text(boundary, shape) == body
  {
    hide IndexOf, FieldsAre, FieldsText, Delimited;
    var first := FirstDelimiter(boundary);
    IndexOfFirst(body, first);
    FoundSplits(body, first);
    var k := IndexOf(body, first);
    var parts, tail := FieldsOf(t, l, Delimiter(boundary), body[k + |first|..], map[], 0);
    shape := Shape(body[..k], parts, tail);
  }

  /**
   * Of every body whatever: what is read is what its shape says, and it has one, or it
   * has no first delimiter. So the parser accepts nothing but a closed form or an open
   * file part after fields within the limits, and every refusal has its own cause.
   */
  lemma ParseExactly(t: TextRules, l: Limits, boundary: seq<Byte>, body: seq<Byte>, form: Form)
    ensures Parse(t, l, Some(boundary), body) == form <==>
              if exists i :: OccursAt(body, FirstDelimiter(boundary), i)
              then exists shape :: ShapeIs(t, l, boundary, shape) && Text(boundary, shape) == body
                                   && form == ShapeForm(t, l, boundary, shape)
              else form == Refused(MalformedBody)
    ensures Parse(t, l, None, body) == Refused(MissingBoundary)
  {
    hide ParseParts, ShapeIs, Text, ShapeForm;
    IndexOfFirst(body, FirstDelimiter(boundary));
    if exists i :: OccursAt(body, FirstDelimiter(boundary), i) {
      var own := ShapeOf(t, l, boundary, body);
      ShapeRead(t, l, boundary, own);
      forall shape | ShapeIs(t, l, boundary, shape) && Text(boundary, shape) == body
        ensures ShapeForm(t, l, boundary, shape) == Parse(t, l, Some(boundary), body)
      {
        ShapeRead(t, l, boundary, shape);
      }
    }
  }

  /** The names and bytes of what was accepted are within the limits. */
  lemma {:induction false} FieldsCounted(t: TextRules, l: Limits, delimiter: seq<Byte>, parts: seq<Part>, tail: Tail,
                                         fields: map<string, string>, used: nat)
    requires FieldsAre(t, l, delimiter, parts, tail, fields, used)
    requires |fields| <= l.maxFieldCount && used <= l.maxFieldBytes
    requires forall p :: p in parts ==> t.headersOf(p.block).name != None
    ensures |Collected(t, parts, fields)| <= l.maxFieldCount
    ensures used + |Flatten(Values(parts))| <= l.maxFieldBytes
    decreases |parts|
  {
    if parts != [] {
      var kept := Keep(fields, NameOf(t, parts[0]), t.decode(parts[0].bytes));
      assert |kept| <= |fields| + 1;
      FieldsCounted(t, l, delimiter, parts[1..], tail, kept, used + |parts[0].bytes|);
      assert Values(parts)[1..] == Values(parts[1..]);
    }
  }

  function Values(parts: seq<Part>): seq<seq<Byte>> {
    if parts == [] then [] else [parts[0].bytes] + Values(parts[1..])
  }

  /** The tail begins right after some delimiter. */
  lemma {:induction false} TailAfterDelimiter(boundary: seq<Byte>, before: seq<Byte>, parts: seq<Part>, tail: Tail)
    returns (i: nat)
    ensures var body := before + FirstDelimiter(boundary) + FieldsText(Delimiter(boundary), parts, tail);
            OccursAt(body, FirstDelimiter(boundary) + TailText(tail), i)
            && i + |FirstDelimiter(boundary)| + |TailText(tail)| == |body|
    decreases |parts|
  {
    hide TailText, OccursAt;
    var first := FirstDelimiter(boundary);
    var body := before + first + FieldsText(Delimiter(boundary), parts, tail);
    if parts == [] {
      i := |before|;
      OccursLast(before, first + TailText(tail));
      assert body == before + (first + TailText(tail));
    } else {
      var p := parts[0];
      var further := before + first + CRLF + p.block + CRLF_CRLF + p.bytes + CRLF;
      i := TailAfterDelimiter(boundary, further, parts[1..], tail);
      assert body == further + first + FieldsText(Delimiter(boundary), parts[1..], tail);
    }
  }

  /**
   * What an accepted form shows: without a file, the closing delimiter with its two
   * dashes was there; with one, a delimiter, a header block that names the file, and
   * then the content; and the fields are within their limit.
   */
  lemma AcceptedIsComplete(t: TextRules, l: Limits, boundary: seq<Byte>, body: seq<Byte>)
    ensures var form := Parse(t, l, Some(boundary), body);
            && (form.NoFile? ==> |form.fields| <= l.maxFieldCount
                                 && exists i :: OccursAt(body, FirstDelimiter(boundary) + DASH_DASH, i))
            && (form.WithFile? ==>
                  && |form.fields| <= l.maxFieldCount
                  && exists block, i :: Names(t, block, true) && form.headers == t.headersOf(block)
                       && OccursAt(body, FirstDelimiter(boundary) + (CRLF + block + CRLF_CRLF + form.content), i))
  {
    hide ParseParts, Parse, FieldsAre, Text;
    var form := Parse(t, l, Some(boundary), body);
    if !form.Refused? {
      ParseExactly(t, l, boundary, body, form);
      var shape :| ShapeIs(t, l, boundary, shape) && Text(boundary, shape) == body
                   && form == ShapeForm(t, l, boundary, shape);
      ShapeShows(t, l, boundary, shape);
    }
  }

  lemma ShapeShows(t: TextRules, l: Limits, boundary: seq<Byte>, shape: Shape)
    requires ShapeIs(t, l, boundary, shape)
    ensures var form, body := ShapeForm(t, l, boundary, shape), Text(boundary, shape);
            && (form.NoFile? ==> |form.fields| <= l.maxFieldCount
                                 && exists i :: OccursAt(body, FirstDelimiter(boundary) + DASH_DASH, i))
            && (form.WithFile? ==>
                  && |form.fields| <= l.maxFieldCount
                  && exists block, i :: Names(t, block, true) && form.headers == t.headersOf(block)
                       && OccursAt(body, FirstDelimiter(boundary) + (CRLF + block + CRLF_CRLF + form.content), i))
  {
    hide OccursAt, FieldsAre, FieldsText, Names, NameOf;
    var delimiter, first := Delimiter(boundary), FirstDelimiter(boundary);
    FieldsNamed(t, l, delimiter, shape.fields, shape.tail, map[], 0);
    FieldsCounted(t, l, delimiter, shape.fields, shape.tail, map[], 0);
    TailHolds(t, l, delimiter, shape.fields, shape.tail, map[], 0);
    var i := TailAfterDelimiter(boundary, shape.preamble, shape.fields, shape.tail);
    match shape.tail
    case Close(epilogue) =>
      assert first + (DASH_DASH + epilogue) == (first + DASH_DASH) + epilogue;
      NeedlePrefix(Text(boundary, shape), first + DASH_DASH, epilogue, i);
    case File(block, content) =>
      assert OccursAt(Text(boundary, shape), first + (CRLF + block + CRLF_CRLF + content), i);
    case _ =>
  }

  lemma NeedlePrefix(s: seq<Byte>, needle: seq<Byte>, more: seq<Byte>, i: nat)
    requires OccursAt(s, needle + more, i)
    ensures OccursAt(s, needle, i)
  {
    assert s[i..i + |needle|] == s[i..i + |needle + more|][..|needle|];
  }

  lemma OccursLast(before: seq<Byte>, needle: seq<Byte>)
    ensures OccursAt(before + needle, needle, |before|)
  {
  }

  lemma {:induction false} TailHolds(t: TextRules, l: Limits, delimiter: seq<Byte>, parts: seq<Part>, tail: Tail,
                                     fields: map<string, string>, used: nat)
    requires FieldsAre(t, l, delimiter, parts, tail, fields, used)
    ensures tail.File? ==> Names(t, tail.block, true)
    decreases |parts|
  {
    if parts != [] {
      TailHolds(t, l, delimiter, parts[1..], tail,
                Keep(fields, NameOf(t, parts[0]), t.decode(parts[0].bytes)), used + |parts[0].bytes|);
    }
  }

  /** A well-formed form without a file that is cut off anywhere before its last dash is refused. */
  lemma CutOffIsRefused(t: TextRules, l: Limits, boundary: seq<Byte>, f: SentForm, n: nat)
    requires Good(t, l, boundary, f) && f.file.None?
    requires n < |Render(boundary, f)| - |f.epilogue|
    ensures Parse(t, l, Some(boundary), Render(boundary, f)[..n]).Refused?
  {
    hide IndexOf, ParseParts, RenderParts, GoodFields;
    var first, delimiter := FirstDelimiter(boundary), Delimiter(boundary);
    var whole := Render(boundary, f);
    var body := whole[..n];
    var rest := RenderParts(delimiter, f.fields, None, f.epilogue);
    DelimitedSplits(f.preamble, first, rest);
    IndexOfPrefix(body, whole[n..], first);
    assert body + whole[n..] == whole;
    if IndexOf(body, first) != -1 {
      var at := |f.preamble| + |first|;
      assert body[at..] == rest[..n - at];
      CutOffParts(t, l, delimiter, f.fields, f.epilogue, map[], 0, n - at);
    }
  }

  lemma {:induction false} CutOffParts(t: TextRules, l: Limits, delimiter: seq<Byte>, parts: seq<Part>,
                                       epilogue: seq<Byte>, fields: map<string, string>, used: nat, n: nat)
    requires GoodFields(t, l, delimiter, parts, fields, used) && delimiter != []
    requires n < |RenderParts(delimiter, parts, None, epilogue)| - |epilogue|
    ensures ParseParts(t, l, delimiter, RenderParts(delimiter, parts, None, epilogue)[..n], fields, used).Refused?
    decreases |parts|
  {
    hide IndexOf, ParsePart, GoodPart, RenderPart;
    var whole := RenderParts(delimiter, parts, None, epilogue);
    if parts == [] {
      ShortRefused(t, l, delimiter, whole[..n], fields, used);
    } else {
      var p, rest := parts[0], RenderParts(delimiter, parts[1..], None, epilogue);
      var size := |RenderPart(delimiter, p)|;
      if n < size {
        assert whole[..n] == RenderPart(delimiter, p)[..n];
        CutOffPart(t, l, delimiter, p, fields, used, n);
      } else {
        assert whole[..n] == RenderPart(delimiter, p) + rest[..n - size];
        GoodIsWithin(t, l, delimiter, p, fields, used);
        FieldRead(t, l, delimiter, p, rest[..n - size], fields, used);
        CutOffParts(t, l, delimiter, parts[1..], epilogue,
                    Keep(fields, NameOf(t, p), t.decode(p.bytes)), used + |p.bytes|, n - size);
      }
    }
  }

  lemma GoodIsWithin(t: TextRules, l: Limits, delimiter: seq<Byte>, p: Part, fields: map<string, string>, used: nat)
    requires GoodPart(t, l, delimiter, p, false) && |fields| < l.maxFieldCount && delimiter != []
    requires |p.bytes| + |delimiter| <= l.maxFieldBytes - used + 1
    ensures FieldWithin(t, l, delimiter, p, |fields|, used) && t.headersOf(p.block).name != None
  {
    hide IndexOf;
  }

  lemma ShortRefused(t: TextRules, l: Limits, delimiter: seq<Byte>, body: seq<Byte>, fields: map<string, string>,
                     used: nat)
    requires |body| < 2
    ensures ParsePart(t, l, delimiter, body, fields, used) == Done(Refused(TruncatedBody))
  {
  }

  lemma CutOffPart(t: TextRules, l: Limits, delimiter: seq<Byte>, p: Part, fields: map<string, string>, used: nat,
                   n: nat)
    requires GoodPart(t, l, delimiter, p, false) && |fields| < l.maxFieldCount && delimiter != []
    requires n < |RenderPart(delimiter, p)|
    ensures var step := ParsePart(t, l, delimiter, RenderPart(delimiter, p)[..n], fields, used);
            step.Done? && step.form.Refused?
  {
    hide IndexOf;
    var whole := RenderPart(delimiter, p);
    var body := whole[..n];
    if n >= 2 {
      assert body[..2] == CRLF;
      var part, after := body[2..], whole[n..];
      var end := p.block + CRLF_CRLF + (p.bytes + delimiter);
      assert part + after == end;
      DelimitedSplits(p.block, CRLF_CRLF, p.bytes + delimiter);
      IndexOfPrefix(part, after, CRLF_CRLF);
      if IndexOf(part, CRLF_CRLF) != -1 {
        var k := |p.block|;
        var content := part[k + 4..];
        assert part[..k] == end[..k] == p.block;
        assert content + after == end[k + 4..] == p.bytes + delimiter;
        IndexOfPrefix(content, after, delimiter);
      }
    }
  }

  /** A repeated field keeps its first value, and no field is invented or lost. */
  lemma {:induction false} FirstValueWins(t: TextRules, parts: seq<Part>, fields: map<string, string>, name: string)
    requires forall p :: p in parts ==> t.headersOf(p.block).name != None
    ensures name in Collected(t, parts, fields) <==>
            name in fields || exists i :: 0 <= i < |parts| && NameOf(t, parts[i]) == name
    ensures name in fields ==> Collected(t, parts, fields)[name] == fields[name]
    ensures name !in fields ==>
              forall i :: 0 <= i < |parts| && NameOf(t, parts[i]) == name
                          && (forall j :: 0 <= j < i ==> NameOf(t, parts[j]) != name)
                          ==> Collected(t, parts, fields)[name] == t.decode(parts[i].bytes)
    decreases |parts|
  {
    if parts != [] {
      var kept := Keep(fields, NameOf(t, parts[0]), t.decode(parts[0].bytes));
      FirstValueWins(t, parts[1..], kept, name);
      assert forall i :: 0 < i < |parts| ==> parts[i] == parts[1..][i - 1];
      forall i | 0 <= i < |parts| && NameOf(t, parts[i]) == name && name !in fields
                 && (forall j :: 0 <= j < i ==> NameOf(t, parts[j]) != name)
        ensures name in Collected(t, parts, fields)
        ensures Collected(t, parts, fields)[name] == t.decode(parts[i].bytes)
      {
        if i > 0 {
          assert NameOf(t, parts[0]) != name;
          forall j | 0 <= j < i - 1 ensures NameOf(t, parts[1..][j]) != name {
            assert parts[1..][j] == parts[j + 1];
          }
          assert NameOf(t, parts[1..][i - 1]) == name;
        }
      }
    }
  }

  /** Without a closing delimiter the stream never ends well, and emits only a prefix. */
  lemma TruncatedFileNeverCloses(content: seq<Byte>, delimiter: seq<Byte>)
    requires delimiter != []
    ensures FileBytes(content, delimiter).1 <==> exists i :: OccursAt(content, delimiter, i)
    ensures FileBytes(content, delimiter).1 ==>
              FileBytes(content, delimiter).0 + delimiter <= content
    ensures FileBytes(content, delimiter).0 <= content
    ensures !FileBytes(content, delimiter).1 ==>
              |FileBytes(content, delimiter).0| == if |content| < |delimiter| then 0 else |content| - |delimiter| + 1
  {
    IndexOfFirst(content, delimiter);
    var end := IndexOf(content, delimiter);
    if end != -1 {
      assert content[..end] + delimiter == content[..end + |delimiter|];
    }
  }
}
