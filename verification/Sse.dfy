/**
 Server-Sent Events decoding (`sse.rs`; WHATWG HTML sections 9.2.5 and 9.2.6): the
 frames of a byte stream, and the incremental decoder that finds them in pieces.
 */
module Sse {
  import opened Wrappers
  import opened Words
  import opened Text
  import opened Seqs

  const LF: u8 := 10
  const CR: u8 := 13
  const DONE_SENTINEL := "[DONE]"

  datatype SseEvent = Data(payload: string) | Done

  // ----------------------------------------------------------------- frame ends ---

  /** The length of the blank-line pattern that starts at byte `i`; 0 when none does. */
  function BreakAt(b: seq<u8>, i: nat): nat {
    if i >= |b| then 0
    else if b[i] == LF then
      if i + 1 < |b| && b[i + 1] == LF then 2
      else if i + 2 < |b| && b[i + 1] == CR && b[i + 2] == LF then 3
      else 0
    else if b[i] == CR then
      if i + 2 < |b| && b[i + 1] == LF && b[i + 2] == CR then
        if i + 3 < |b| && b[i + 3] == LF then 4 else 0
      else if i + 1 < |b| && b[i + 1] == CR then 2
      else 0
    else 0
  }

  /** Where the first frame at or after `i` ends, and where the next one starts. */
  function FrameEndFrom(b: seq<u8>, i: nat): (r: Option<(nat, nat)>)
    ensures r.Some? ==> i <= r.value.0 < r.value.1 <= |b|
    decreases |b| - i
  {
    if i >= |b| then None
    else if BreakAt(b, i) > 0 then Some((i, i + BreakAt(b, i)))
    else FrameEndFrom(b, i + 1)
  }

  function FrameEnd(b: seq<u8>): (r: Option<(nat, nat)>)
    ensures r.Some? ==> r.value.0 < r.value.1 <= |b|
  {
    FrameEndFrom(b, 0)
  }

  /** `find_frame_end`. */
  method FindFrameEnd(b: seq<u8>) returns (r: Option<(nat, nat)>)
    ensures r == FrameEnd(b)
  {
    var i := 0;
    while i < |b|
      invariant 0 <= i <= |b| && FrameEnd(b) == FrameEndFrom(b, i)
    {
      if b[i] == LF {
        if i + 1 < |b| && b[i + 1] == LF {
          return Some((i, i + 2));
        }
        if i + 2 < |b| && b[i + 1] == CR && b[i + 2] == LF {
          return Some((i, i + 3));
        }
      } else if b[i] == CR {
        if i + 2 < |b| && b[i + 1] == LF && b[i + 2] == CR {
          if i + 3 < |b| && b[i + 3] == LF {
            return Some((i, i + 4));
          }
        } else if i + 1 < |b| && b[i + 1] == CR {
          return Some((i, i + 2));
        }
      }
      i := i + 1;
    }
    return None;
  }

  /** More bytes never change a pattern already seen; and where more bytes complete a
      pattern, nothing behind it had matched yet. */
  lemma BreakStable(x: seq<u8>, y: seq<u8>, i: nat)
    ensures BreakAt(x, i) > 0 ==> BreakAt(x + y, i) == BreakAt(x, i)
    ensures i < |x| && BreakAt(x, i) == 0 && BreakAt(x + y, i) > 0 ==>
              forall j :: i < j ==> BreakAt(x, j) == 0
  {
    if i < |x| {
      assert (x + y)[i] == x[i];
      assert i + 1 < |x| ==> (x + y)[i + 1] == x[i + 1];
      assert i + 2 < |x| ==> (x + y)[i + 2] == x[i + 2];
      assert i + 3 < |x| ==> (x + y)[i + 3] == x[i + 3];
    }
  }

  lemma {:induction false} FrameEndAt(x: seq<u8>, i: nat)
    requires FrameEndFrom(x, i).Some?
    ensures BreakAt(x, FrameEndFrom(x, i).value.0) > 0
    decreases |x| - i
  {
    if BreakAt(x, i) == 0 {
      FrameEndAt(x, i + 1);
    }
  }

  lemma {:induction false} FrameEndFromStable(x: seq<u8>, y: seq<u8>, i: nat)
    requires FrameEndFrom(x, i).Some?
    ensures FrameEndFrom(x + y, i) == FrameEndFrom(x, i)
    decreases |x| - i
  {
    BreakStable(x, y, i);
    if BreakAt(x, i) == 0 {
      FrameEndAt(x, i + 1);
      FrameEndFromStable(x, y, i + 1);
    }
  }

  /** A frame end found in a prefix is the frame end of the whole stream. */
  lemma FrameEndStable(x: seq<u8>, y: seq<u8>)
    requires FrameEnd(x).Some?
    ensures FrameEnd(x + y) == FrameEnd(x)
  {
    FrameEndFromStable(x, y, 0);
  }

  // --------------------------------------------------------------------- a frame ---

  /** The payload a line carries, if it is a `data:` line. */
  function LineData(line: string): Option<string> {
    var line := StripSuffixChar(line, '\r');
    if line == "" || line[0] == ':' then None
    else
      match StripPrefix(line, "data:")
      case None => None
      case Some(rest) => Some(if rest != "" && rest[0] == ' ' then rest[1..] else rest)
  }

  function DataLines(lines: seq<string>): seq<string> {
    if lines == [] then []
    else
      (match LineData(lines[0]) case None => [] case Some(d) => [d]) + DataLines(lines[1..])
  }

  /** The event of a frame that carries the data lines `data`. */
  function EventOf(data: seq<string>): Option<SseEvent> {
    if data == [] then None
    else
      var payload := Join(data, "\n");
      Some(if Trim(payload) == DONE_SENTINEL then Done else Data(payload))
  }

  function FrameEvent(frame: seq<u8>): Option<SseEvent> {
    EventOf(DataLines(Split(DecodeLossy(frame), '\n')))
  }

  lemma {:induction false} DataLinesAppend(a: seq<string>, line: string)
    ensures DataLines(a + [line]) == DataLines(a) + match LineData(line) case None => [] case Some(d) => [d]
  {
    if a == [] {
      assert [line][1..] == [];
    } else {
      assert (a + [line])[1..] == a[1..] + [line];
      DataLinesAppend(a[1..], line);
    }
  }

  /** `decode_frame`. */
  method DecodeFrame(frame: seq<u8>) returns (r: Option<SseEvent>)
    ensures r == FrameEvent(frame)
  {
    hide LineData;
    var lines := Split(DecodeLossy(frame), '\n');
    var data: seq<string> := [];
    for i := 0 to |lines|
      invariant data == DataLines(lines[..i])
    {
      assert lines[..i + 1] == lines[..i] + [lines[i]];
      DataLinesAppend(lines[..i], lines[i]);
      match LineData(lines[i]) {
        case None =>
        case Some(d) => data := data + [d];
      }
    }
    assert lines[..|lines|] == lines;
    if data == [] {
      return None;
    }
    var payload := Join(data, "\n");
    if Trim(payload) == DONE_SENTINEL {
      return Some(Done);
    }
    return Some(Data(payload));
  }

  // ------------------------------------------------------------------ the decoder ---

  datatype Drained = Drained(events: seq<SseEvent>, rest: seq<u8>, done: bool)

  function Emit(e: Option<SseEvent>): seq<SseEvent> {
    match e case None => [] case Some(event) => [event]
  }

  function Preceded(events: seq<SseEvent>, d: Drained): Drained {
    d.(events := events + d.events)
  }

  /** Take every complete frame off the front of `b`; stop for good at the sentinel. */
  function Drain(b: seq<u8>): Drained
    decreases |b|
  {
    match FrameEnd(b)
    case None => Drained([], b, false)
    case Some((end, next)) =>
      var event := FrameEvent(b[..end]);
      if event == Some(Done) then Drained([Done], [], true)
      else
        Preceded(Emit(event), Drain(b[next..]))
  }

  lemma PrecededTwice(a: seq<SseEvent>, b: seq<SseEvent>, d: Drained)
    ensures Preceded([], d) == d
    ensures Preceded(a, Preceded(b, d)) == Preceded(a + b, d)
  {
    assert [] + d.events == d.events;
    assert a + (b + d.events) == a + b + d.events;
  }

  /** One iteration of the draining loop, `out` being the events found so far. */
  lemma DrainStep(b: seq<u8>, out: seq<SseEvent>)
    ensures var end := FrameEnd(b);
            Preceded(out, Drain(b)) ==
            if end.None? then Drained(out, b, false)
            else
              var event := FrameEvent(b[..end.value.0]);
              if event == Some(Done) then Drained(out + [Done], [], true)
              else Preceded(out + Emit(event), Drain(b[end.value.1..]))
  {
    hide FrameEvent, FrameEnd;
    if FrameEnd(b).Some? {
      PrecededTwice(out, Emit(FrameEvent(b[..FrameEnd(b).value.0])), Drain(b[FrameEnd(b).value.1..]));
    } else {
      assert out + [] == out;
    }
  }

  /** The state of a decoder: bytes not yet terminated by a blank line, and whether the
      sentinel has been seen. */
  datatype DecoderState = DecoderState(buffer: seq<u8>, done: bool)

  function Pushed(s: DecoderState, bytes: seq<u8>): (DecoderState, seq<SseEvent>) {
    if s.done then (s, [])
    else
      var d := Drain(s.buffer + bytes);
      (DecoderState(d.rest, d.done), d.events)
  }

  function Finished(s: DecoderState): seq<SseEvent> {
    if s.buffer == [] then [] else Emit(FrameEvent(s.buffer))
  }

  class SseDecoder {
    var buffer: seq<u8>
    var done: bool

    constructor ()
      ensures State() == DecoderState([], false)
    {
      buffer, done := [], false;
    }

    ghost function State(): DecoderState
      reads this
    {
      DecoderState(buffer, done)
    }

    /** Feed the bytes of one read; returns every event they complete. */
    method Push(bytes: seq<u8>) returns (out: seq<SseEvent>)
      modifies this
      ensures (State(), out) == Pushed(old(State()), bytes)
    {
      hide FrameEnd, FrameEvent, Drain, Preceded;
      out := [];
      if done {
        return;
      }
      buffer := buffer + bytes;
      ghost var whole := Drain(buffer);
      PrecededTwice([], [], whole);
      while true
        invariant !done
        invariant whole == Preceded(out, Drain(buffer))
        decreases |buffer|
      {
        DrainStep(buffer, out);
        var found := FindFrameEnd(buffer);
        if found.None? {
          break;
        }
        var (end, next) := found.value;
        var frame := buffer[..end];
        buffer := buffer[next..];
        var event := DecodeFrame(frame);
        if event.Some? {
          if event.value == Done {
            done := true;
          }
          out := out + [event.value];
        }
        if done {
          buffer := [];
          break;
        }
        assert event.None? ==> out + [] == out;
      }
    }

    /** Flush a stream that ended without its blank line. */
    method Finish() returns (out: seq<SseEvent>)
      modifies this`buffer
      ensures buffer == [] && out == Finished(old(State()))
    {
      if buffer == [] {
        return [];
      }
      var frame := buffer;
      buffer := [];
      var event := DecodeFrame(frame);
      return if event.None? then [] else [event.value];
    }
  }

  // -------------------------------------------------- independence from the cutting ---

  lemma PrecededEvents(events: seq<SseEvent>, d: Drained)
    ensures Preceded(events, d) == Drained(events + d.events, d.rest, d.done)
  {
  }

  /** Draining in two steps is draining at once. */
  lemma {:induction false} DrainAppend(x: seq<u8>, y: seq<u8>)
    ensures var d := Drain(x);
            Drain(x + y) == if d.done then d else Preceded(d.events, Drain(d.rest + y))
    decreases |x|
  {
    hide FrameEvent, FrameEnd, Preceded;
    if FrameEnd(x).None? {
      PrecededTwice([], [], Drain(x + y));
    } else {
      var (end, next) := FrameEnd(x).value;
      FrameEndStable(x, y);
      assert (x + y)[..end] == x[..end] && (x + y)[next..] == x[next..] + y;
      DrainAppend(x[next..], y);
      var d, event := Drain(x[next..]), FrameEvent(x[..end]);
      if event != Some(Done) {
        PrecededEvents(Emit(event), d);
        PrecededTwice(Emit(event), d.events, Drain(d.rest + y));
      }
    }
  }

  function PushAll(s: DecoderState, chunks: seq<seq<u8>>): (DecoderState, seq<SseEvent>)
    decreases |chunks|
  {
    if chunks == [] then (s, [])
    else
      var (s1, first) := Pushed(s, chunks[0]);
      var (s2, rest) := PushAll(s1, chunks[1..]);
      (s2, first + rest)
  }

  /** No complete frame is waiting in the buffer: true initially and after every push. */
  predicate Settled(s: DecoderState) {
    FrameEnd(s.buffer).None? && (s.done ==> s.buffer == [])
  }

  lemma {:induction false} PushSettles(b: seq<u8>)
    ensures Settled(DecoderState(Drain(b).rest, Drain(b).done))
    decreases |b|
  {
    hide FrameEvent;
    if FrameEnd(b).Some? {
      PushSettles(b[FrameEnd(b).value.1..]);
    }
  }

  lemma PushNothing(s: DecoderState)
    requires Settled(s)
    ensures Pushed(s, []) == (s, [])
  {
    assert s.buffer + [] == s.buffer;
  }

  lemma PushTwice(s: DecoderState, x: seq<u8>, y: seq<u8>)
    requires Settled(s)
    ensures Settled(Pushed(s, x).0)
    ensures var (s1, first) := Pushed(s, x);
            var (s2, second) := Pushed(s1, y);
            Pushed(s, x + y) == (s2, first + second)
  {
    hide FrameEvent, FrameEnd, Drain, Preceded;
    var none: seq<SseEvent> := [];
    assert none + none == none;
    if !s.done {
      PushSettles(s.buffer + x);
      var d := Drain(s.buffer + x);
      DrainAppend(s.buffer + x, y);
      assert s.buffer + x + y == s.buffer + (x + y);
      assert d.events + none == d.events;
      if !d.done {
        PrecededEvents(d.events, Drain(d.rest + y));
      }
    }
  }

  /** Decoding does not depend on how the stream is cut into pushes: the events, the
      residual buffer, the sentinel flag, and with them what `finish` returns, are
      those of one push of the whole. */
  lemma {:induction false} ChunkingInvariance(s: DecoderState, chunks: seq<seq<u8>>)
    requires Settled(s)
    ensures PushAll(s, chunks) == Pushed(s, Flatten(chunks))
    decreases |chunks|
  {
    hide Settled, Pushed;
    if chunks == [] {
      PushNothing(s);
    } else {
      PushTwice(s, chunks[0], Flatten(chunks[1..]));
      ChunkingInvariance(Pushed(s, chunks[0]).0, chunks[1..]);
    }
  }

  // --------------------------------------------------------------- framing round trip ---

  /** A line as a server sends it: a `data:` field, with or without the optional space, or
      a line that carries none: a comment, another field, anything that is not `data:`. */
  datatype OutLine = Field(data: string, space: bool) | Other(text: string) {
    function Text(): string {
      match this
      case Field(data, space) => "data:" + (if space then " " else "") + data
      case Other(text) => text
    }

    /** It is one line, not a blank one, and says what it is meant to say. */
    predicate Sendable() {
      && '\n' !in Text() && '\r' !in Text()
      && match this
         case Field(data, space) => space || data == "" || data[0] != ' '
         case Other(text) => text != "" && (text[0] == ':' || !("data:" <= text))
    }
  }

  predicate AllSendable(lines: seq<OutLine>) {
    forall line :: line in lines ==> line.Sendable()
  }

  /** The data a frame's lines carry. */
  function Carried(lines: seq<OutLine>): seq<string> {
    if lines == [] then []
    else (if lines[0].Field? then [lines[0].data] else []) + Carried(lines[1..])
  }

  /** Comments and other fields anywhere among the lines add nothing. */
  lemma {:induction false} OthersCarryNothing(a: seq<OutLine>, text: string, b: seq<OutLine>)
    ensures Carried(a + [Other(text)] + b) == Carried(a + b)
  {
    if a == [] {
      assert a + [Other(text)] + b == [Other(text)] + b && a + b == b;
      assert ([Other(text)] + b)[1..] == b;
    } else {
      assert (a + [Other(text)] + b)[1..] == a[1..] + [Other(text)] + b && (a + b)[1..] == a[1..] + b;
      OthersCarryNothing(a[1..], text, b);
    }
  }

  function FrameText(lines: seq<OutLine>, eol: string): string {
    if lines == [] then ""
    else if |lines| == 1 then lines[0].Text()
    else lines[0].Text() + eol + FrameText(lines[1..], eol)
  }

  predicate IsEol(eol: string) {
    eol == "\n" || eol == "\r\n"
  }

  /** The framed text starts with its first line, ended as `eol` ends it. */
  function FirstFramed(lines: seq<OutLine>, eol: string): string
    requires lines != []
  {
    lines[0].Text() + if |lines| > 1 && eol == "\r\n" then "\r" else ""
  }

  lemma FrameTextSplit(lines: seq<OutLine>, eol: string)
    requires lines != [] && IsEol(eol) && '\n' !in lines[0].Text()
    ensures var first := FirstFramed(lines, eol);
            Split(FrameText(lines, eol), '\n')
            == if |lines| == 1 then [first] else [first] + Split(FrameText(lines[1..], eol), '\n')
  {
    hide OutLine.Text;
    var first := FirstFramed(lines, eol);
    assert '\n' !in first;
    if |lines| == 1 {
      assert FrameText(lines, eol) == first;
      SplitFirst(first, "", '\n');
    } else {
      var tail := FrameText(lines[1..], eol);
      assert FrameText(lines, eol) == first + ['\n'] + tail;
      SplitFirst(first, tail, '\n');
    }
  }

  lemma DataOfLine(text: string)
    requires text != "" && text[|text| - 1] != '\r'
    ensures LineData(text + "\r") == LineData(text)
    ensures text[0] == ':' || !("data:" <= text) ==> LineData(text) == None
    ensures text[0] != ':' && "data:" <= text ==>
              LineData(text) == Some(if |text| > 5 && text[5] == ' ' then text[6..] else text[5..])
  {
    assert (text + "\r")[..|text|] == text;
    assert "data:" <= text && |text| > 5 && text[5] == ' ' ==> text[5..][1..] == text[6..];
  }

  /** What each kind of line contributes, with or without a carriage return at its end. */
  lemma LineDataOfSent(line: OutLine)
    requires line.Sendable()
    ensures LineData(line.Text()) == (if line.Field? then Some(line.data) else None)
    ensures LineData(line.Text() + "\r") == LineData(line.Text())
  {
    hide LineData;
    var text := line.Text();
    if line.Field? {
      assert text[..5] == "data:";
      assert text[5..] == (if line.space then " " else "") + line.data;
      assert line.space ==> text[6..] == line.data;
    }
    assert text[|text| - 1] in text;
    DataOfLine(text);
  }

  /** Splitting the framed text at LF and reading each line gives the data it carries. */
  lemma {:induction false} FrameTextLines(lines: seq<OutLine>, eol: string)
    requires lines != [] && IsEol(eol) && AllSendable(lines)
    ensures DataLines(Split(FrameText(lines, eol), '\n')) == Carried(lines)
    decreases |lines|
  {
    assert lines[0] in lines;
    FrameTextSplit(lines, eol);
    LineDataOfSent(lines[0]);
    hide LineData, Split, FrameText, OutLine.Text, OutLine.Sendable;
    var first := FirstFramed(lines, eol);
    assert first == lines[0].Text() || first == lines[0].Text() + "\r";
    assert lines[0].Text() + "" == lines[0].Text();
    if |lines| == 1 {
      assert [first][1..] == [];
      assert Carried(lines[1..]) == [];
    } else {
      assert AllSendable(lines[1..]);
      FrameTextLines(lines[1..], eol);
      var pieces := Split(FrameText(lines[1..], eol), '\n');
      assert ([first] + pieces)[1..] == pieces;
    }
  }

  predicate FlowsAt(t: seq<u8>, k: nat)
    requires k < |t|
  {
    && (t[k] == LF ==> k + 1 < |t| && t[k + 1] != LF && t[k + 1] != CR)
    && (t[k] == CR ==> k + 2 < |t| && t[k + 1] == LF && t[k + 2] != CR)
  }

  /** Every line ending in `t` is a single one, with its next line begun inside `t`: no
      blank line starts in `t`, whatever follows. */
  predicate Flowing(t: seq<u8>) {
    forall k :: 0 <= k < |t| ==> FlowsAt(t, k)
  }

  lemma FlowingHasNoBreak(t: seq<u8>, z: seq<u8>, k: nat)
    requires Flowing(t) && k < |t|
    ensures BreakAt(t + z, k) == 0
  {
    var b := t + z;
    assert FlowsAt(t, k);
    assert b[k] == t[k];
    assert k + 1 < |t| ==> b[k + 1] == t[k + 1];
    assert k + 2 < |t| ==> b[k + 2] == t[k + 2];
  }

  lemma {:induction false} FrameEndPast(t: seq<u8>, z: seq<u8>, k: nat)
    requires Flowing(t) && k <= |t|
    ensures FrameEndFrom(t + z, k) == FrameEndFrom(t + z, |t|)
    decreases |t| - k
  {
    if k < |t| {
      FlowingHasNoBreak(t, z, k);
      FrameEndPast(t, z, k + 1);
    }
  }

  lemma FlowingConcat(a: seq<u8>, b: seq<u8>)
    requires Flowing(a) && Flowing(b)
    ensures Flowing(a + b)
  {
    var c := a + b;
    forall k | 0 <= k < |c| ensures FlowsAt(c, k) {
      if k < |a| {
        assert FlowsAt(a, k);
        assert k + 1 < |a| ==> c[k + 1] == a[k + 1];
        assert k + 2 < |a| ==> c[k + 2] == a[k + 2];
      } else {
        assert FlowsAt(b, k - |a|);
        assert k + 1 < |c| ==> c[k + 1] == b[k + 1 - |a|];
        assert k + 2 < |c| ==> c[k + 2] == b[k + 2 - |a|];
      }
    }
  }

  function EolBytes(eol: string): seq<u8>
    requires IsEol(eol)
  {
    if eol == "\n" then [LF] else [CR, LF]
  }

  lemma EolEncoded(eol: string)
    requires IsEol(eol)
    ensures Encode(eol) == EolBytes(eol)
  {
    assert eol[1..] == if eol == "\n" then "" else "\n";
    assert EncodeChar('\n') == [LF] && EncodeChar('\r') == [CR];
    assert Encode("\n"[1..]) == [];
    assert Encode("\n") == [LF];
  }

  lemma FlowingEol(eol: string, t: seq<u8>)
    requires IsEol(eol) && Flowing(t) && t != [] && t[0] != LF && t[0] != CR
    ensures Flowing(EolBytes(eol) + t)
  {
    var e := EolBytes(eol);
    var c := e + t;
    forall k | 0 <= k < |c| ensures FlowsAt(c, k) {
      assert k + 1 < |c| && k + 1 >= |e| ==> c[k + 1] == t[k + 1 - |e|];
      assert k + 2 < |c| && k + 2 >= |e| ==> c[k + 2] == t[k + 2 - |e|];
      if k >= |e| {
        assert FlowsAt(t, k - |e|);
      }
    }
  }

  lemma FlowingLine(text: string)
    requires '\n' !in text && '\r' !in text && text != ""
    ensures var t := Encode(text); Flowing(t) && t != [] && t[0] != LF && t[0] != CR
  {
    EncodedByte(text, LF);
    EncodedByte(text, CR);
    assert EncodeChar(text[0])[0] in EncodeChar(text[0]);
    assert Encode(text)[0] in Encode(text);
  }

  lemma SentIsNotBlank(line: OutLine)
    requires line.Sendable()
    ensures line.Text() != ""
  {
  }

  lemma {:induction false} FlowingFrame(lines: seq<OutLine>, eol: string)
    requires lines != [] && IsEol(eol) && AllSendable(lines)
    ensures var t := Encode(FrameText(lines, eol)); Flowing(t) && t != [] && t[0] != LF && t[0] != CR
    decreases |lines|
  {
    hide Flowing, Encode, OutLine.Text;
    assert lines[0] in lines;
    SentIsNotBlank(lines[0]);
    var head := lines[0].Text();
    FlowingLine(head);
    if |lines| > 1 {
      assert AllSendable(lines[1..]);
      FlowingFrame(lines[1..], eol);
      var tail := FrameText(lines[1..], eol);
      EncodeConcat(head, eol + tail);
      EncodeConcat(eol, tail);
      EolEncoded(eol);
      assert FrameText(lines, eol) == head + (eol + tail);
      FlowingEol(eol, Encode(tail));
      FlowingConcat(Encode(head), EolBytes(eol) + Encode(tail));
    }
  }

  /** A frame as a server sends it: its lines and a blank line. */
  function Sent(lines: seq<OutLine>, eol: string): seq<u8> {
    Encode(FrameText(lines, eol)) + Encode(eol) + Encode(eol)
  }

  lemma BreakIsFrameEnd(b: seq<u8>, i: nat)
    requires BreakAt(b, i) > 0
    ensures FrameEndFrom(b, i) == Some((i, i + BreakAt(b, i)))
  {
  }

  lemma BlankLineBreaks(t: seq<u8>, eol: string, more: seq<u8>)
    requires IsEol(eol) && Flowing(t)
    ensures var e := EolBytes(eol);
            FrameEnd(t + e + e + more) == Some((|t|, |t| + |e| + |e|))
  {
    var e := EolBytes(eol);
    var z := e + e + more;
    assert t + e + e + more == t + z;
    FrameEndPast(t, z, 0);
    hide FrameEndFrom;
    assert forall k :: 0 <= k < |z| ==> (t + z)[|t| + k] == z[k];
    assert z[0] == e[0] && z[|e|] == e[0] && (|e| == 2 ==> z[1] == LF && z[3] == LF);
    assert BreakAt(t + z, |t|) == |e| + |e|;
    BreakIsFrameEnd(t + z, |t|);
  }

  lemma FrameEventOfSent(lines: seq<OutLine>, eol: string)
    requires lines != [] && IsEol(eol) && AllSendable(lines)
    ensures FrameEvent(Encode(FrameText(lines, eol))) == EventOf(Carried(lines))
  {
    hide Split, FrameText, DataLines, Encode, EventOf;
    FrameTextLines(lines, eol);
    var text := FrameText(lines, eol);
    DecodeEncoded(text, []);
    assert Encode(text) + [] == Encode(text);
    assert text + "" == text;
  }

  /** What a frame decodes to, whatever lines it has and whatever follows it: its data lines
      joined by LF, or nothing when it has none, or the sentinel, which ends the stream. */
  lemma SentDecodes(lines: seq<OutLine>, eol: string, more: seq<u8>)
    requires lines != [] && IsEol(eol) && AllSendable(lines)
    ensures var payload := Join(Carried(lines), "\n");
            Drain(Sent(lines, eol) + more) ==
            if Carried(lines) == [] then Drain(more)
            else if Trim(payload) == "[DONE]" then Drained([Done], [], true)
            else Preceded([Data(payload)], Drain(more))
  {
    hide FrameEvent, Flowing, Preceded, FrameEnd, Encode, FrameText, Carried, Join, Trim;
    var t := Encode(FrameText(lines, eol));
    FlowingFrame(lines, eol);
    EolEncoded(eol);
    var e := EolBytes(eol);
    BlankLineBreaks(t, eol, more);
    FrameEventOfSent(lines, eol);
    PrecededTwice([], [], Drain(more));
    var b := t + e + e + more;
    assert Sent(lines, eol) + more == b;
    assert b[..|t|] == t && b[|t| + |e| + |e|..] == more;
  }

  // -------------------------------------------------------------------- whole payloads ---

  /** The lines a payload is framed in: one `data: ` line per line of it. */
  function LinesOf(texts: seq<string>): (lines: seq<OutLine>)
    ensures |lines| == |texts| && Carried(lines) == texts
    ensures forall k :: 0 <= k < |texts| ==> lines[k] == Field(texts[k], true)
  {
    if texts == [] then [] else [Field(texts[0], true)] + LinesOf(texts[1..])
  }

  function Framed(payload: string, eol: string): seq<u8> {
    Sent(LinesOf(Split(payload, '\n')), eol)
  }

  lemma PayloadLines(payload: string)
    requires '\r' !in payload
    ensures AllSendable(LinesOf(Split(payload, '\n')))
  {
    var texts := Split(payload, '\n');
    forall k | 0 <= k < |texts| ensures Field(texts[k], true).Sendable() {
      SplitPiece(payload, '\n', k);
    }
  }

  /** A framed payload decodes back to itself, and decoding goes on behind it; a framed
      sentinel ends the stream for good. */
  lemma FramedDecodes(payload: string, eol: string, more: seq<u8>)
    requires '\r' !in payload && IsEol(eol)
    ensures Drain(Framed(payload, eol) + more) ==
            if Trim(payload) == DONE_SENTINEL then Drained([Done], [], true)
            else Preceded([Data(payload)], Drain(more))
  {
    hide Sent, Drain, Trim, Preceded, Join, Split;
    PayloadLines(payload);
    JoinOfSplit(payload, '\n');
    SentDecodes(LinesOf(Split(payload, '\n')), eol, more);
  }

  function SentAll(frames: seq<seq<OutLine>>, eol: string): seq<u8> {
    if frames == [] then [] else Sent(frames[0], eol) + SentAll(frames[1..], eol)
  }

  /** The payloads of the frames that have one. */
  function Payloads(frames: seq<seq<OutLine>>): seq<SseEvent> {
    if frames == [] then []
    else
      (if Carried(frames[0]) == [] then [] else [Data(Join(Carried(frames[0]), "\n"))]) + Payloads(frames[1..])
  }

  /** A frame of sendable lines, and not the sentinel. */
  predicate OrdinaryFrame(lines: seq<OutLine>) {
    lines != [] && AllSendable(lines) && Trim(Join(Carried(lines), "\n")) != DONE_SENTINEL
  }

  predicate Ordinary(frames: seq<seq<OutLine>>) {
    forall lines :: lines in frames ==> OrdinaryFrame(lines)
  }

  lemma {:induction false} SentAllDecodes(frames: seq<seq<OutLine>>, eol: string, more: seq<u8>)
    requires IsEol(eol) && Ordinary(frames)
    ensures Drain(SentAll(frames, eol) + more) == Preceded(Payloads(frames), Drain(more))
    decreases |frames|
  {
    hide Sent, Drain, Preceded, Carried, Join, Trim, AllSendable;
    if frames == [] {
      PrecededTwice([], [], Drain(more));
      assert [] + more == more;
    } else {
      var rest := SentAll(frames[1..], eol) + more;
      assert OrdinaryFrame(frames[0]);
      forall lines | lines in frames[1..] ensures OrdinaryFrame(lines) {
        assert lines in frames;
      }
      Associative(Sent(frames[0], eol), SentAll(frames[1..], eol), more);
      SentDecodes(frames[0], eol, rest);
      SentAllDecodes(frames[1..], eol, more);
      PrecededTwice([Data(Join(Carried(frames[0]), "\n"))], Payloads(frames[1..]), Drain(more));
      assert Payloads(frames[1..]) == [] + Payloads(frames[1..]);
    }
  }

  /** A frame whose blank line never comes stays in the buffer, whole, and the flush decodes
      it. */
  lemma UnendedStays(lines: seq<OutLine>, eol: string)
    requires lines != [] && IsEol(eol) && AllSendable(lines)
    ensures var t := Encode(FrameText(lines, eol));
            && Drain(t) == Drained([], t, false) && t != []
            && Finished(DecoderState(t, false)) == Emit(EventOf(Carried(lines)))
  {
    hide FrameEvent, Flowing, Encode, FrameText, Carried, EventOf;
    var t := Encode(FrameText(lines, eol));
    FlowingFrame(lines, eol);
    FrameEndPast(t, [], 0);
    assert t + [] == t;
    FrameEventOfSent(lines, eol);
  }

  lemma SentinelIsItself()
    ensures Trim(DONE_SENTINEL) == DONE_SENTINEL && '\r' !in DONE_SENTINEL
  {
  }

  /** A server's whole stream, with comments and other fields wherever it likes and cut into
      reads anywhere, is decoded to exactly the payloads of its frames, in order, and then
      the sentinel; whatever the server sends after the sentinel is ignored. */
  lemma StreamRoundTrip(frames: seq<seq<OutLine>>, eol: string, after: seq<u8>, chunks: seq<seq<u8>>)
    requires IsEol(eol) && Ordinary(frames)
    requires Flatten(chunks) == SentAll(frames, eol) + (Framed(DONE_SENTINEL, eol) + after)
    ensures PushAll(DecoderState([], false), chunks) == (DecoderState([], true), Payloads(frames) + [Done])
  {
    hide Framed, Drain, SentAll, Payloads, Ordinary, Trim;
    var s := DecoderState([], false);
    var stream := Flatten(chunks);
    assert FrameEnd(s.buffer).None?;
    ChunkingInvariance(s, chunks);
    assert [] + stream == stream;
    SentinelIsItself();
    SentAllDecodes(frames, eol, Framed(DONE_SENTINEL, eol) + after);
    FramedDecodes(DONE_SENTINEL, eol, after);
  }
}
