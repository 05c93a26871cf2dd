/** The live stream on the wire: frames written by the receiver, cut into arbitrary chunks, and read back
    by the bridge. The format is the event stream of section 9.2.6 of the HTML standard. */
module SseStream {
  import opened Options
  import Lines

  /** What the receiver writes. Numbers and payloads are text already; a payload is one line. */
  datatype Wire = Live(id: string, json: string) | Update(json: string) | Reset(id: string, json: string) | Retry | Heartbeat

  /** What the bridge makes of one block. */
  datatype Frame = Frame(id: Option<string>, event: Option<string>, data: Option<string>)

  // ----- writing

  function Field(name: string, value: string): string { name + ": " + value }

  function WireLines(w: Wire): (lines: seq<string>)
    ensures lines != []
  {
    match w
    case Live(id, json) => [Field("id", id), Field("event", "live"), Field("data", json)]
    case Update(json) => [Field("event", "live-update"), Field("data", json)]
    case Reset(id, json) => [Field("id", id), Field("event", "reset"), Field("data", json)]
    case Retry => [Field("retry", "3000")]
    case Heartbeat => [": heartbeat"]
  }

  function Block(w: Wire): string { Lines.Join(WireLines(w), '\n') }

  /** One write to the response. */
  function FormatFrame(w: Wire): string { Block(w) + "\n\n" }

  /** Text fit for one field of one line. */
  predicate OneLine(s: string) { s != "" && '\n' !in s && s[|s| - 1] != '\r' }

  predicate WellFormed(w: Wire) {
    match w
    case Live(id, json) => OneLine(id) && OneLine(json)
    case Update(json) => OneLine(json)
    case Reset(id, json) => OneLine(id) && OneLine(json)
    case _ => true
  }

  function Sent(w: Wire): Frame {
    match w
    case Live(id, json) => Frame(Some(id), Some("live"), Some(json))
    case Update(json) => Frame(None, Some("live-update"), Some(json))
    case Reset(id, json) => Frame(Some(id), Some("reset"), Some(json))
    case _ => Frame(None, None, None)
  }

  // ----- parsing one block

  /** The fields seen so far. */
  datatype Fields = Fields(id: Option<string>, event: Option<string>, data: seq<string>)

  const NO_FIELDS: Fields := Fields(None, None, [])

  function StripReturn(raw: string): string {
    if raw != "" && raw[|raw| - 1] == '\r' then raw[..|raw| - 1] else raw
  }

  function StripSpace(value: string): string {
    if value != "" && value[0] == ' ' then value[1..] else value
  }

  function WithField(f: Fields, name: string, value: string): Fields {
    if name == "id" then f.(id := Some(value))
    else if name == "event" then f.(event := Some(value))
    else if name == "data" then f.(data := f.data + [value])
    else f
  }

  function WithLine(f: Fields, raw: string): Fields {
    var line := StripReturn(raw);
    if line == "" || line[0] == ':' then f
    else
      var colon := Lines.IndexOf(line, ':');
      if colon.None? then WithField(f, line, "")
      else WithField(f, line[..colon.value], StripSpace(line[colon.value + 1..]))
  }

  function WithLines(f: Fields, lines: seq<string>): Fields
    decreases |lines|
  {
    if lines == [] then f else WithLines(WithLine(f, lines[0]), lines[1..])
  }

  function FrameOf(f: Fields): Frame {
    Frame(f.id, f.event, if f.data == [] then None else Some(Lines.Join(f.data, '\n')))
  }

  function Parsed(block: string): Frame { FrameOf(WithLines(NO_FIELDS, Lines.Split(block, '\n'))) }

  method ParseSseFrame(block: string) returns (frame: Frame)
    ensures frame == Parsed(block)
  {
    var fields := NO_FIELDS;
    var lines := Lines.Split(block, '\n');
    for i := 0 to |lines|
      invariant WithLines(fields, lines[i..]) == WithLines(NO_FIELDS, lines)
    {
      assert lines[i..][1..] == lines[i + 1..];
      fields := WithLine(fields, lines[i]);
    }
    frame := FrameOf(fields);
  }

  lemma FieldIsRead(f: Fields, name: string, value: string)
    requires name != "" && ':' !in name && (value == "" || value[|value| - 1] != '\r')
    ensures WithLine(f, Field(name, value)) == WithField(f, name, value)
  {
    hide WithField, Lines.IndexOf;
    var line := Field(name, value);
    assert line[|line| - 1] == if value == "" then ' ' else value[|value| - 1];
    assert line[0] == name[0];
    assert line == name + [':'] + (" " + value);
    Lines.IndexAfter(name, ':', " " + value);
    assert line[..|name|] == name && line[|name| + 1..] == " " + value;
    assert (" " + value)[1..] == value;
  }

  /** A field's text: the space after the colon may be missing unless the value begins with one, and the
      colon unless there is a value. */
  predicate IsFieldText(text: string, name: string, value: string) {
    || text == name + ": " + value
    || (text == name + ":" + value && (value == "" || value[0] != ' '))
    || (text == name && value == "")
  }

  /** A field's line, which a carriage return may end. */
  ghost predicate IsFieldLine(line: string, name: string, value: string) {
    && name != "" && ':' !in name && '\r' !in name && (value == "" || value[|value| - 1] != '\r')
    && exists text :: IsFieldText(text, name, value) && (line == text || line == text + "\r")
  }

  lemma FieldTextIsRead(f: Fields, text: string, name: string, value: string)
    requires name != "" && ':' !in name && '\r' !in name && (value == "" || value[|value| - 1] != '\r')
    requires IsFieldText(text, name, value)
    ensures text[0] == name[0] && text[|text| - 1] != '\r'
    ensures WithLine(f, text) == WithField(f, name, value)
  {
    hide Lines.IndexOf, WithField;
    if text == name + ": " + value {
      FieldIsRead(f, name, value);
    } else if text == name + ":" + value {
      assert text == name + [':'] + value && text[|text| - 1] == if value == "" then ':' else value[|value| - 1];
      Lines.IndexAfter(name, ':', value);
      assert text[..|name|] == name && text[|name| + 1..] == value;
    } else {
      assert text[|text| - 1] in name;
      assert Lines.IndexOf(text, ':').None?;
    }
  }

  /** Such a line sets the id or the event or adds a line of data; a field of any other name is ignored. */
  lemma FieldLineIsRead(f: Fields, line: string, name: string, value: string)
    requires IsFieldLine(line, name, value)
    ensures WithLine(f, line) ==
            if name == "id" then f.(id := Some(value)) else if name == "event" then f.(event := Some(value))
            else if name == "data" then f.(data := f.data + [value]) else f
  {
    hide IsFieldText, Lines.IndexOf;
    var text :| IsFieldText(text, name, value) && (line == text || line == text + "\r");
    FieldTextIsRead(f, text, name, value);
    assert StripReturn(line) == text && StripReturn(text) == text;
  }

  /** Empty lines and comments set nothing. */
  lemma OtherLinesAreIgnored(f: Fields, line: string)
    requires line == "" || line == "\r" || line[0] == ':'
    ensures WithLine(f, line) == f
  {
  }

  lemma {:induction false} DataLinesAdd(f: Fields, lines: seq<string>, values: seq<string>)
    requires |lines| == |values| && forall i :: 0 <= i < |lines| ==> IsFieldLine(lines[i], "data", values[i])
    ensures WithLines(f, lines) == f.(data := f.data + values)
    decreases |lines|
  {
    hide WithLine, IsFieldLine;
    if lines == [] {
      assert f.data + values == f.data;
    } else {
      FieldLineIsRead(f, lines[0], "data", values[0]);
      DataLinesAdd(WithLine(f, lines[0]), lines[1..], values[1..]);
      assert f.data + [values[0]] + values[1..] == f.data + values;
    }
  }

  /** Data spread over several lines is put together again, with a line feed between the lines. */
  lemma DataLinesJoin(lines: seq<string>, values: seq<string>)
    requires lines != [] && |lines| == |values| && Lines.NoneHas(lines, '\n')
    requires forall i :: 0 <= i < |lines| ==> IsFieldLine(lines[i], "data", values[i])
    ensures Parsed(Lines.Join(lines, '\n')) == Frame(None, None, Some(Lines.Join(values, '\n')))
  {
    hide IsFieldLine;
    Lines.SplitJoin(lines, '\n');
    DataLinesAdd(NO_FIELDS, lines, values);
    assert NO_FIELDS.data + values == values;
  }

  lemma LinesAreWhole(w: Wire)
    requires WellFormed(w)
    ensures Lines.NoneHas(WireLines(w), '\n') && forall i :: 0 <= i < |WireLines(w)| ==> WireLines(w)[i] != ""
  {
  }

  lemma BlockLines(w: Wire)
    requires WellFormed(w)
    ensures Lines.Split(Block(w), '\n') == WireLines(w)
  {
    hide WellFormed, WireLines;
    LinesAreWhole(w);
    Lines.SplitJoin(WireLines(w), '\n');
  }

  /** Parsing a written block gives back what was sent. */
  lemma BlockRoundTrip(w: Wire)
    requires WellFormed(w)
    ensures Parsed(Block(w)) == Sent(w)
  {
    hide Lines.Split, Lines.IndexOf, WithLine, Block, Field;
    BlockLines(w);
    var lines := WireLines(w);
    match w
    case Live(id, json) =>
      ThreeLines(lines[0], lines[1], lines[2]);
      FieldIsRead(NO_FIELDS, "id", id);
      FieldIsRead(Fields(Some(id), None, []), "event", "live");
      FieldIsRead(Fields(Some(id), Some("live"), []), "data", json);
    case Reset(id, json) =>
      ThreeLines(lines[0], lines[1], lines[2]);
      FieldIsRead(NO_FIELDS, "id", id);
      FieldIsRead(Fields(Some(id), None, []), "event", "reset");
      FieldIsRead(Fields(Some(id), Some("reset"), []), "data", json);
    case Update(json) =>
      TwoLines(lines[0], lines[1]);
      FieldIsRead(NO_FIELDS, "event", "live-update");
      FieldIsRead(Fields(None, Some("live-update"), []), "data", json);
    case Retry =>
      OneLineOnly(lines[0]);
      FieldIsRead(NO_FIELDS, "retry", "3000");
    case Heartbeat =>
      OneLineOnly(lines[0]);
      CommentIsSkipped();
  }

  lemma CommentIsSkipped()
    ensures WithLine(NO_FIELDS, ": heartbeat") == NO_FIELDS
  {
  }

  lemma OneMoreLine(f: Fields, line: string, rest: seq<string>)
    ensures WithLines(f, [line] + rest) == WithLines(WithLine(f, line), rest)
  {
    hide WithLine;
    assert ([line] + rest)[1..] == rest;
  }

  lemma OneLineOnly(a: string)
    ensures WithLines(NO_FIELDS, [a]) == WithLine(NO_FIELDS, a)
  {
    OneMoreLine(NO_FIELDS, a, []);
    assert [a] + [] == [a];
  }

  lemma TwoLines(a: string, b: string)
    ensures WithLines(NO_FIELDS, [a, b]) == WithLine(WithLine(NO_FIELDS, a), b)
  {
    hide WithLine;
    OneMoreLine(NO_FIELDS, a, [b]);
    OneMoreLine(WithLine(NO_FIELDS, a), b, []);
    assert [a] + [b] == [a, b] && [b] + [] == [b];
  }

  lemma ThreeLines(a: string, b: string, c: string)
    ensures WithLines(NO_FIELDS, [a, b, c]) == WithLine(WithLine(WithLine(NO_FIELDS, a), b), c)
  {
    hide WithLine;
    OneMoreLine(NO_FIELDS, a, [b, c]);
    OneMoreLine(WithLine(NO_FIELDS, a), b, [c]);
    OneMoreLine(WithLine(WithLine(NO_FIELDS, a), b), c, []);
    assert [a] + [b, c] == [a, b, c] && [b] + [c] == [b, c] && [c] + [] == [c];
  }

  // ----- cutting the stream into blocks

  /** The first blank line: two line feeds in a row. */
  function FindGap(buffer: string): (at: Option<nat>)
    ensures at.Some? ==> at.value + 2 <= |buffer|
  {
    if |buffer| < 2 then None
    else if buffer[0] == '\n' && buffer[1] == '\n' then Some(0)
    else
      var rest := FindGap(buffer[1..]);
      if rest.None? then None else Some(rest.value + 1)
  }

  /** Every complete block, and what is left in the buffer. */
  function Drain(buffer: string): (seq<string>, string)
    decreases |buffer|
  {
    var at := FindGap(buffer);
    if at.None? then ([], buffer)
    else
      var (blocks, rest) := Drain(buffer[at.value + 2..]);
      ([buffer[..at.value]] + blocks, rest)
  }

  function Blocks(stream: string): seq<string> { Drain(stream).0 }

  function Rest(stream: string): string { Drain(stream).1 }

  function Concat(chunks: seq<string>): string {
    if chunks == [] then "" else Concat(chunks[..|chunks| - 1]) + chunks[|chunks| - 1]
  }

  lemma {:induction false} GapStays(buffer: string, more: string)
    requires FindGap(buffer).Some?
    ensures FindGap(buffer + more) == FindGap(buffer)
  {
    if !(buffer[0] == '\n' && buffer[1] == '\n') {
      GapStays(buffer[1..], more);
      assert (buffer + more)[1..] == buffer[1..] + more;
    }
  }

  /** More bytes only add blocks: what was cut off before stays cut off. */
  lemma {:induction false} DrainGrows(stream: string, more: string)
    ensures Blocks(stream + more) == Blocks(stream) + Blocks(Rest(stream) + more)
    ensures Rest(stream + more) == Rest(Rest(stream) + more)
    decreases |stream|
  {
    var at := FindGap(stream);
    if at.None? {
      assert [] + Blocks(stream + more) == Blocks(stream + more);
    } else {
      GapStays(stream, more);
      var tail := stream[at.value + 2..];
      assert (stream + more)[at.value + 2..] == tail + more;
      assert (stream + more)[..at.value] == stream[..at.value];
      DrainGrows(tail, more);
      assert [stream[..at.value]] + (Blocks(tail) + Blocks(Rest(tail) + more)) == ([stream[..at.value]] + Blocks(tail)) + Blocks(Rest(tail) + more);
    }
  }

  /** The buffer never exceeds the limit when a chunk is added to what is left. */
  ghost predicate Fits(chunks: seq<string>, limit: nat) {
    forall k {:trigger chunks[k]} :: 0 <= k < |chunks| ==> |Rest(Concat(chunks[..k]))| + |chunks[k]| <= limit
  }

  /** The first chunk that makes the buffer too long. */
  ghost predicate OverflowsAt(chunks: seq<string>, limit: nat, k: int) {
    && 0 <= k < |chunks| && |Rest(Concat(chunks[..k]))| + |chunks[k]| > limit
    && forall j {:trigger chunks[j]} :: 0 <= j < k ==> |Rest(Concat(chunks[..j]))| + |chunks[j]| <= limit
  }

  /** The bridge's two loops: chunks into the buffer, complete blocks out of it. It gives up at the first
      chunk that makes the buffer too long. */
  method ReadStream(chunks: seq<string>, limit: nat) returns (frames: seq<Frame>, ok: bool)
    ensures ok <==> Fits(chunks, limit)
    ensures ok ==> frames == ParsedAll(Blocks(Concat(chunks)))
    ensures !ok ==> exists k :: OverflowsAt(chunks, limit, k) && frames == ParsedAll(Blocks(Concat(chunks[..k])))
  {
    hide Rest, Blocks, Parsed;
    frames, ok := [], true;
    NothingToRead();
    var buffer := "";
    for i := 0 to |chunks|
      invariant ok && buffer == Rest(Concat(chunks[..i])) && frames == ParsedAll(Blocks(Concat(chunks[..i])))
      invariant forall k {:trigger chunks[k]} :: 0 <= k < i ==> |Rest(Concat(chunks[..k]))| + |chunks[k]| <= limit
    {
      ghost var before := Concat(chunks[..i]);
      assert chunks[..i + 1][..i] == chunks[..i];
      DrainGrows(before, chunks[i]);
      buffer := buffer + chunks[i];
      if |buffer| > limit {
        ok := false;
        assert OverflowsAt(chunks, limit, i);
        return;
      }
      var more;
      more, buffer := DrainBuffer(buffer);
      ParsedAllSplits(Blocks(before), Blocks(Rest(before) + chunks[i]));
      frames := frames + more;
    }
    assert chunks[..|chunks|] == chunks;
  }

  method DrainBuffer(start: string) returns (frames: seq<Frame>, buffer: string)
    ensures frames == ParsedAll(Blocks(start)) && buffer == Rest(start)
  {
    hide Parsed;
    buffer := start;
    frames := [];
    ghost var cut: seq<string> := [];
    while FindGap(buffer).Some?
      invariant frames == ParsedAll(cut) && cut + Blocks(buffer) == Blocks(start) && Rest(buffer) == Rest(start)
      decreases |buffer|
    {
      var at := FindGap(buffer).value;
      var block := buffer[..at];
      var frame := ParseSseFrame(block);
      ParsedAllSplits(cut, [block]);
      assert ParsedAll([block]) == [frame];
      assert cut + ([block] + Blocks(buffer[at + 2..])) == cut + [block] + Blocks(buffer[at + 2..]);
      cut := cut + [block];
      frames := frames + [frame];
      buffer := buffer[at + 2..];
    }
    assert cut + [] == cut;
  }

  function ParsedAll(blocks: seq<string>): seq<Frame> {
    if blocks == [] then [] else [Parsed(blocks[0])] + ParsedAll(blocks[1..])
  }

  lemma {:induction false} ParsedAllSplits(a: seq<string>, b: seq<string>)
    ensures ParsedAll(a + b) == ParsedAll(a) + ParsedAll(b)
  {
    hide Parsed;
    if a == [] {
      assert a + b == b;
    } else {
      assert (a + b)[1..] == a[1..] + b;
      ParsedAllSplits(a[1..], b);
    }
  }

  // ----- from the receiver to the bridge

  function Written(wires: seq<Wire>): string {
    if wires == [] then "" else FormatFrame(wires[0]) + Written(wires[1..])
  }

  function SentAll(wires: seq<Wire>): seq<Frame> {
    if wires == [] then [] else [Sent(wires[0])] + SentAll(wires[1..])
  }

  lemma {:induction false} GapAfterLine(line: string, rest: string)
    requires '\n' !in line
    ensures rest == "" || rest[0] != '\n' ==>
              FindGap(line + "\n" + rest) == match FindGap(rest) case None => None case Some(at) => Some(|line| + 1 + at)
    ensures FindGap(line + "\n\n" + rest) == Some(|line|)
  {
    var one, two := line + "\n" + rest, line + "\n\n" + rest;
    if line == "" {
      assert one[1..] == rest;
    } else {
      GapAfterLine(line[1..], rest);
      assert one[1..] == line[1..] + "\n" + rest && two[1..] == line[1..] + "\n\n" + rest;
      assert one[0] == line[0] && two[0] == line[0];
    }
  }

  /** The first blank line after joined, non-empty lines is the one that ends them. */
  lemma {:induction false} GapAfterLines(lines: seq<string>, rest: string)
    requires lines != [] && Lines.NoneHas(lines, '\n') && forall i :: 0 <= i < |lines| ==> lines[i] != ""
    ensures FindGap(Lines.Join(lines, '\n') + "\n\n" + rest) == Some(|Lines.Join(lines, '\n')|)
  {
    if |lines| == 1 {
      GapAfterLine(lines[0], rest);
    } else {
      var tail := Lines.Join(lines[1..], '\n');
      GapAfterLines(lines[1..], rest);
      GapAfterLine(lines[0], tail + "\n\n" + rest);
      assert tail[0] == lines[1][0] && lines[1][0] in lines[1];
      assert lines[0] + "\n" + (tail + "\n\n" + rest) == Lines.Join(lines, '\n') + "\n\n" + rest;
    }
  }

  lemma FirstBlock(w: Wire, rest: string)
    requires WellFormed(w)
    ensures Blocks(FormatFrame(w) + rest) == [Block(w)] + Blocks(rest) && Rest(FormatFrame(w) + rest) == Rest(rest)
  {
    hide WellFormed, WireLines, FindGap;
    LinesAreWhole(w);
    GapAfterLines(WireLines(w), rest);
    var s := FormatFrame(w) + rest;
    assert s == Block(w) + "\n\n" + rest;
    assert s[..|Block(w)|] == Block(w) && s[|Block(w)| + 2..] == rest;
  }

  lemma {:induction false} WrittenReadsBack(wires: seq<Wire>)
    requires forall i :: 0 <= i < |wires| ==> WellFormed(wires[i])
    ensures ParsedAll(Blocks(Written(wires))) == SentAll(wires) && Rest(Written(wires)) == ""
  {
    hide WellFormed, Block, Parsed, Sent, FormatFrame;
    if wires == [] {
      NothingToRead();
    } else {
      WrittenReadsBack(wires[1..]);
      FirstBlock(wires[0], Written(wires[1..]));
      BlockRoundTrip(wires[0]);
      assert ([Block(wires[0])] + Blocks(Written(wires[1..])))[1..] == Blocks(Written(wires[1..]));
    }
  }

  lemma NothingToRead()
    ensures Blocks("") == [] && Rest("") == ""
  {
  }

  /** However the transport cuts the stream, what the bridge reads is what the receiver sent, frame by
      frame, with nothing left over. */
  lemma ChunksDoNotMatter(wires: seq<Wire>, chunks: seq<string>)
    requires forall i :: 0 <= i < |wires| ==> WellFormed(wires[i])
    requires Concat(chunks) == Written(wires)
    ensures ParsedAll(Blocks(Concat(chunks))) == SentAll(wires) && Rest(Concat(chunks)) == ""
  {
    WrittenReadsBack(wires);
  }

  /** A connection cut anywhere: the bridge has read a prefix of the frames, none twice and none torn. */
  lemma CutStreamReadsPrefix(wires: seq<Wire>, read: string, unread: string)
    requires (forall i :: 0 <= i < |wires| ==> WellFormed(wires[i])) && read + unread == Written(wires)
    ensures ParsedAll(Blocks(read)) <= SentAll(wires)
  {
    WrittenReadsBack(wires);
    DrainGrows(read, unread);
    ParsedAllSplits(Blocks(read), Blocks(Rest(read) + unread));
  }

  /** The bridge cuts a block exactly where two line feeds meet. */
  lemma NoBlockExactlyWhen(text: string)
    ensures Blocks(text) == [] <==> forall i :: 0 <= i < |text| - 1 ==> text[i] != '\n' || text[i + 1] != '\n'
  {
    NoGapExactlyWhen(text);
  }

  /** The standard also ends lines with a carriage return and line feed; the bridge looks for two line
      feeds only, so it never sees a blank line of such a stream and leaves all of it in the buffer. The
      receiver writes none. */
  lemma ReturnsHideBlankLines(text: string)
    requires forall i :: 0 <= i < |text| && text[i] == '\n' ==> i > 0 && text[i - 1] == '\r'
    ensures Blocks(text) == [] && Rest(text) == text
  {
    forall i | 0 <= i < |text| - 1
      ensures text[i] != '\n' || text[i + 1] != '\n'
    {
      assert text[i + 1] == '\n' ==> text[i + 1 - 1] == '\r';
    }
    NoGapExactlyWhen(text);
  }

  lemma {:induction false} NoGapExactlyWhen(s: string)
    ensures FindGap(s).None? <==> forall i :: 0 <= i < |s| - 1 ==> s[i] != '\n' || s[i + 1] != '\n'
  {
    if |s| >= 2 {
      var tail := s[1..];
      NoGapExactlyWhen(tail);
      assert forall i :: 0 < i < |s| ==> s[i] == tail[i - 1];
    }
  }
}
