/**
 The AI event protocol (`openai.rs`) as functions of values: what one exchange emits
 for the increments it is given, and why neither the cut of the stream nor a
 cancellation can break the protocol.
 */
module AiProtocol {
  import opened Wrappers
  import opened Words
  import opened Text
  import opened Seqs
  import opened Sse
  import opened Http

  datatype Usage = Usage(prompt: nat, completion: nat, total: nat)

  const NO_USAGE := Usage(0, 0, 0)

  /** What a `data:` payload parses to; the JSON itself is not part of this model. */
  datatype Frame = Garbled(reason: string) | Chunk(usage: Option<Usage>, text: Option<string>)

  type Codec = string -> Frame

  datatype Event = AiChunk(id: string, text: string) | AiFinished(id: string, usage: Usage) | Log(line: string)

  /** The two cancellation channels as a delivery samples them. */
  datatype Flags = Flags(stop: bool, token: bool) {
    predicate Aborted() {
      stop || token
    }
  }

  /** When the environment raises the channels: the sample of the k-th delivery. */
  type Schedule = nat -> Flags

  ghost predicate Monotone(seen: Schedule) {
    forall i: nat, j: nat :: i <= j ==> (seen(i).stop ==> seen(j).stop) && (seen(i).token ==> seen(j).token)
  }

  /** The state an exchange accumulates. */
  datatype Progress = Progress(decoder: DecoderState, usage: Usage, sawContent: bool, sawDone: bool, events: seq<Event>)

  const START := Progress(DecoderState([], false), NO_USAGE, false, false, [])

  // --------------------------------------------------------------------- one delivery ---

  /** A parsed chunk: its usage replaces the last one, its text becomes an event. */
  function TakeChunk(p: Progress, usage: Option<Usage>, text: Option<string>, id: string): Progress {
    var p := if usage.Some? then p.(usage := usage.value) else p;
    if text.Some? then p.(sawContent := true, events := p.events + [AiChunk(id, text.value)]) else p
  }

  /** A payload: an unparseable one is logged and skipped. */
  function TakeData(p: Progress, payload: string, id: string, codec: Codec): Progress {
    match codec(payload)
    case Garbled(reason) => p.(events := p.events + [Log("ai: skipped an unparseable stream frame: " + reason + "\n")])
    case Chunk(usage, text) => TakeChunk(p, usage, text, id)
  }

  /** The events of one delivery, in order; the sentinel ends it. */
  function TakeAll(p: Progress, events: seq<SseEvent>, id: string, codec: Codec): Progress
    decreases |events|
  {
    if events == [] then p
    else
      match events[0]
      case Done => p.(sawDone := true)
      case Data(payload) => TakeAll(TakeData(p, payload, id, codec), events[1..], id, codec)
  }

  /** One call of the callback: a batch whose delivery saw a cancellation is refused as
      a whole. */
  function Deliver(p: Progress, bytes: seq<u8>, flags: Flags, id: string, codec: Codec): (Progress, Option<AiError>) {
    var (decoder, events) := Pushed(p.decoder, bytes);
    var p := p.(decoder := decoder);
    if events != [] && flags.Aborted() then (p, Some(Cancelled(id)))
    else (TakeAll(p, events, id, codec), None)
  }

  /** The deliveries of an exchange up to the first refusal. */
  function Run(log: seq<seq<u8>>, seen: Schedule, id: string, codec: Codec): (Progress, Option<AiError>) {
    if log == [] then (START, None)
    else
      var (p, refusal) := Run(log[..|log| - 1], seen, id, codec);
      if refusal.Some? then (p, refusal) else Deliver(p, log[|log| - 1], seen(|log| - 1), id, codec)
  }

  /** The callback's verdict, as the reader of the response sees it. */
  function Verdict(seen: Schedule, id: string, codec: Codec): seq<seq<u8>> -> Option<AiError> {
    log => Run(log, seen, id, codec).1
  }

  // ------------------------------------------------------------------ after the stream ---

  /** Flush the frame that arrived without its blank line; the boolean is false when
      the flush was cancelled. */
  function Flush(p: Progress, flags: Flags, id: string, codec: Codec): (Progress, bool) {
    var events := Finished(p.decoder);
    var p := p.(decoder := p.decoder.(buffer := []));
    if events == [] then (p, true)
    else if flags.Aborted() then (p, false)
    else
      match events[0]
      case Done => (p, true)
      case Data(payload) =>
        match codec(payload)
        case Garbled(_) => (p, true)
        case Chunk(usage, text) => (TakeChunk(p, usage, text, id), true)
  }

  const NO_CONTENT := "ai: provider returned no content\n"
  const BAD_ANSWER := "ai: provider answered with an error status\n"
  const RETRYING := "ai: provider rejected `stream_options`; retrying without it\n"

  /** The end of an exchange: what it emits in all, and its result. */
  function Settle(p: Progress, outcome: Result<Response, AiError>, flags: Flags, id: string, codec: Codec)
    : (seq<Event>, Result<Usage, AiError>)
  {
    match outcome
    case Err(e) => (p.events, Err(e))
    case Ok(response) =>
      var (p, flushed) := Flush(p, flags, id, codec);
      if !flushed then (p.events, Err(Cancelled(id)))
      else if !response.IsSuccess() then
        (p.events + [Log(BAD_ANSWER)], Err(BadStatus(response.status, DecodeLossy(response.body))))
      else
        (p.events + [AiFinished(id, p.usage)]
           + (if !p.sawContent && p.usage.total == 0 then [Log(NO_CONTENT)] else []),
         Ok(p.usage))
  }

  /** A whole exchange that delivered `log` and ended its read in `outcome`. */
  function ExchangeOf(log: seq<seq<u8>>, outcome: Result<Response, AiError>, seen: Schedule, id: string, codec: Codec)
    : (seq<Event>, Result<Usage, AiError>)
  {
    Settle(Run(log, seen, id, codec).0, outcome, seen(|log|), id, codec)
  }

  // -------------------------------------------------------------------- event shapes ---

  predicate NoFinish(events: seq<Event>) {
    forall e :: e in events ==> !e.AiFinished?
  }

  predicate NoChunk(events: seq<Event>) {
    forall e :: e in events ==> !e.AiChunk?
  }

  predicate FinishesAt(events: seq<Event>, k: nat)
    requires k < |events|
  {
    && events[k].AiFinished?
    && NoFinish(events[..k])
    && NoFinish(events[k + 1..]) && NoChunk(events[k + 1..])
  }

  /** Exactly one `AiFinished`, and every `AiChunk` before it. */
  ghost predicate FinishedOnce(events: seq<Event>) {
    exists k :: 0 <= k < |events| && FinishesAt(events, k)
  }

  lemma FinishAppended(before: seq<Event>, finish: Event, after: seq<Event>)
    requires NoFinish(before) && finish.AiFinished? && NoFinish(after) && NoChunk(after)
    ensures FinishedOnce(before + [finish] + after)
  {
    var events := before + [finish] + after;
    assert events[..|before|] == before && events[|before| + 1..] == after;
    assert FinishesAt(events, |before|);
  }

  lemma TakeChunkQuiet(p: Progress, usage: Option<Usage>, text: Option<string>, id: string)
    requires NoFinish(p.events)
    ensures NoFinish(TakeChunk(p, usage, text, id).events)
  {
  }

  lemma {:induction false} TakeAllQuiet(p: Progress, events: seq<SseEvent>, id: string, codec: Codec)
    requires NoFinish(p.events)
    ensures NoFinish(TakeAll(p, events, id, codec).events)
    decreases |events|
  {
    if events != [] && events[0].Data? {
      var payload := events[0].payload;
      if codec(payload).Chunk? {
        TakeChunkQuiet(p, codec(payload).usage, codec(payload).text, id);
      }
      TakeAllQuiet(TakeData(p, payload, id, codec), events[1..], id, codec);
    }
  }

  lemma {:induction false} RunQuiet(log: seq<seq<u8>>, seen: Schedule, id: string, codec: Codec)
    ensures NoFinish(Run(log, seen, id, codec).0.events)
  {
    hide Pushed, TakeAll;
    if log != [] {
      RunQuiet(log[..|log| - 1], seen, id, codec);
      var (p, refusal) := Run(log[..|log| - 1], seen, id, codec);
      var (decoder, events) := Pushed(p.decoder, log[|log| - 1]);
      TakeAllQuiet(p.(decoder := decoder), events, id, codec);
    }
  }

  lemma FlushQuiet(p: Progress, flags: Flags, id: string, codec: Codec)
    requires NoFinish(p.events)
    ensures NoFinish(Flush(p, flags, id, codec).0.events)
  {
    hide Finished;
  }

  /** An exchange emits the terminal event exactly when it succeeds. */
  lemma ExchangeFinishes(log: seq<seq<u8>>, outcome: Result<Response, AiError>, seen: Schedule, id: string,
                         codec: Codec)
    ensures var (events, r) := ExchangeOf(log, outcome, seen, id, codec);
            if r.Ok? then FinishedOnce(events) else NoFinish(events)
  {
    hide FinishedOnce, Finished, DecodeLossy, Response.IsSuccess;
    RunQuiet(log, seen, id, codec);
    hide Run;
    var p := Run(log, seen, id, codec).0;
    FlushQuiet(p, seen(|log|), id, codec);
    var (q, flushed) := Flush(p, seen(|log|), id, codec);
    hide Flush;
    FinishAppended(q.events, AiFinished(id, q.usage), []);
    FinishAppended(q.events, AiFinished(id, q.usage), [Log(NO_CONTENT)]);
  }

  // ----------------------------------------------------------------- cancellation ---

  /** A delivery that saw a cancellation emits nothing. */
  lemma AbortedDeliversNothing(p: Progress, bytes: seq<u8>, flags: Flags, id: string, codec: Codec)
    requires flags.Aborted()
    ensures Deliver(p, bytes, flags, id, codec).0.events == p.events
  {
    hide Pushed;
  }

  /** From the first delivery that sees a cancellation on, an exchange emits nothing
      more from its stream. */
  lemma {:induction false} NothingAfterCancel(log: seq<seq<u8>>, k: nat, seen: Schedule, id: string, codec: Codec)
    requires Monotone(seen) && k <= |log| && seen(k).Aborted()
    ensures Run(log, seen, id, codec).0.events == Run(log[..k], seen, id, codec).0.events
    decreases |log|
  {
    hide Deliver;
    if k < |log| {
      var front := log[..|log| - 1];
      assert front[..k] == log[..k];
      NothingAfterCancel(front, k, seen, id, codec);
      assert seen(|log| - 1).Aborted();
      AbortedDeliversNothing(Run(front, seen, id, codec).0, log[|log| - 1], seen(|log| - 1), id, codec);
    } else {
      assert log[..k] == log;
    }
  }

  /** So a cancelled exchange has emitted the chunks of the deliveries before the
      cancellation, and the flush at the end adds none. */
  lemma CancelledExchange(log: seq<seq<u8>>, outcome: Result<Response, AiError>, k: nat, seen: Schedule, id: string,
                          codec: Codec)
    requires Monotone(seen) && k <= |log| && seen(k).Aborted()
    ensures var events := ExchangeOf(log, outcome, seen, id, codec).0;
            var before := Run(log[..k], seen, id, codec).0.events;
            before <= events && NoChunk(events[|before|..])
  {
    hide Finished, DecodeLossy, Response.IsSuccess;
    NothingAfterCancel(log, k, seen, id, codec);
    hide Run;
    assert seen(|log|).Aborted();
  }

  // ------------------------------------------- independence from the cut, end to end ---

  ghost predicate NeverAborted(seen: Schedule) {
    forall k: nat :: seen(k) == Flags(false, false)
  }

  lemma {:induction false} TakeAllAppend(p: Progress, a: seq<SseEvent>, b: seq<SseEvent>, id: string, codec: Codec)
    requires Done !in a
    ensures TakeAll(p, a + b, id, codec) == TakeAll(TakeAll(p, a, id, codec), b, id, codec)
    decreases |a|
  {
    hide TakeData;
    if a == [] {
      assert a + b == b;
    } else {
      assert (a + b)[0] == a[0] && (a + b)[1..] == a[1..] + b;
      assert a[0] in a;
      TakeAllAppend(TakeData(p, a[0].payload, id, codec), a[1..], b, id, codec);
    }
  }

  /** The decoder is a bystander of the events it produced. */
  lemma {:induction false} TakeAllKeepsDecoder(p: Progress, decoder: DecoderState, events: seq<SseEvent>, id: string,
                                               codec: Codec)
    ensures TakeAll(p.(decoder := decoder), events, id, codec) == TakeAll(p, events, id, codec).(decoder := decoder)
    ensures TakeAll(p, events, id, codec).decoder == p.decoder
    decreases |events|
  {
    if events != [] && events[0].Data? {
      var payload := events[0].payload;
      assert TakeData(p.(decoder := decoder), payload, id, codec)
          == TakeData(p, payload, id, codec).(decoder := decoder);
      assert TakeData(p, payload, id, codec).decoder == p.decoder;
      hide TakeData;
      TakeAllKeepsDecoder(TakeData(p, payload, id, codec), decoder, events[1..], id, codec);
    }
  }

  /** The sentinel is only ever the last event, and it closes the decoder. */
  lemma {:induction false} DoneCloses(b: seq<u8>)
    ensures !Drain(b).done ==> Done !in Drain(b).events
    decreases |b|
  {
    hide FrameEvent;
    if FrameEnd(b).Some? {
      DoneCloses(b[FrameEnd(b).value.1..]);
    }
  }

  lemma NothingTaken(p: Progress, id: string, codec: Codec)
    ensures TakeAll(p, [], id, codec) == p
  {
  }

  lemma SentinelStops(s: DecoderState, x: seq<u8>, y: seq<u8>)
    ensures var (s1, first) := Pushed(s, x);
            Done in first ==> Pushed(s1, y).1 == []
  {
    hide Drain;
    DoneCloses(s.buffer + x);
  }

  lemma DeliverTwice(p: Progress, x: seq<u8>, y: seq<u8>, id: string, codec: Codec)
    requires Settled(p.decoder)
    ensures var quiet := Flags(false, false);
            && Settled(Deliver(p, x, quiet, id, codec).0.decoder)
            && Deliver(Deliver(p, x, quiet, id, codec).0, y, quiet, id, codec) == Deliver(p, x + y, quiet, id, codec)
  {
    PushTwice(p.decoder, x, y);
    var (d1, first) := Pushed(p.decoder, x);
    var (d2, second) := Pushed(d1, y);
    SentinelStops(p.decoder, x, y);
    hide Pushed, Settled, TakeAll;
    TakeAllKeepsDecoder(p, d1, first, id, codec);
    TakeAllKeepsDecoder(p, d2, first + second, id, codec);
    TakeAllKeepsDecoder(TakeAll(p, first, id, codec), d2, second, id, codec);
    if Done !in first {
      TakeAllAppend(p, first, second, id, codec);
    } else {
      NothingTaken(TakeAll(p, first, id, codec), id, codec);
      assert first + [] == first;
    }
  }

  lemma StartIsSettled()
    ensures Settled(START.decoder)
  {
  }

  lemma NothingDelivered(id: string, codec: Codec)
    ensures Deliver(START, [], Flags(false, false), id, codec) == (START, None)
  {
    StartIsSettled();
    PushNothing(START.decoder);
  }

  lemma RunStep(log: seq<seq<u8>>, seen: Schedule, id: string, codec: Codec)
    requires log != [] && Run(log[..|log| - 1], seen, id, codec).1.None?
    ensures Run(log, seen, id, codec)
         == Deliver(Run(log[..|log| - 1], seen, id, codec).0, log[|log| - 1], seen(|log| - 1), id, codec)
  {
    hide Deliver;
  }

  lemma {:induction false} NeverRefused(log: seq<seq<u8>>, seen: Schedule, id: string, codec: Codec)
    requires NeverAborted(seen)
    ensures Run(log, seen, id, codec).1.None?
  {
    hide Pushed, TakeAll;
    if log != [] {
      NeverRefused(log[..|log| - 1], seen, id, codec);
    }
  }

  lemma RunOfNothing(seen: Schedule, id: string, codec: Codec)
    ensures Run([], seen, id, codec) == (START, None) && Flatten<u8>([]) == []
  {
  }

  /** An exchange that is never cancelled has processed its increments as if they had
      come in one piece. */
  lemma {:induction false} RunIsOneDelivery(log: seq<seq<u8>>, seen: Schedule, id: string, codec: Codec)
    requires NeverAborted(seen)
    ensures Run(log, seen, id, codec) == Deliver(START, Flatten(log), Flags(false, false), id, codec)
    ensures Settled(Run(log, seen, id, codec).0.decoder)
    decreases |log|
  {
    hide Deliver, Settled, Run, Pushed, Flatten;
    StartIsSettled();
    if log == [] {
      RunOfNothing(seen, id, codec);
      NothingDelivered(id, codec);
    } else {
      var front, last := log[..|log| - 1], log[|log| - 1];
      RunIsOneDelivery(front, seen, id, codec);
      NeverRefused(front, seen, id, codec);
      RunStep(log, seen, id, codec);
      assert log == front + [last] && seen(|front|) == Flags(false, false);
      FlattenAppend(front, last);
      DeliverTwice(START, Flatten(front), last, id, codec);
      DeliverTwice(START, Flatten(log), [], id, codec);
    }
  }

  // ----------------------------------------------------- what a whole stream amounts to ---

  /** The events a payload makes: a chunk's text, the log line of one that does not parse. */
  function Emits(payload: string, id: string, codec: Codec): seq<Event> {
    var frame := codec(payload);
    if frame.Garbled? then [Log("ai: skipped an unparseable stream frame: " + frame.reason + "\n")]
    else if frame.text.Some? then [AiChunk(id, frame.text.value)]
    else []
  }

  function EmitsAll(payloads: seq<string>, id: string, codec: Codec): seq<Event> {
    if payloads == [] then [] else Emits(payloads[0], id, codec) + EmitsAll(payloads[1..], id, codec)
  }

  predicate HasText(payload: string, codec: Codec) {
    codec(payload).Chunk? && codec(payload).text.Some?
  }

  /** The last usage that any payload reports. */
  function LastUsage(payloads: seq<string>, codec: Codec): Usage {
    if payloads == [] then NO_USAGE
    else
      var frame := codec(payloads[|payloads| - 1]);
      if frame.Chunk? && frame.usage.Some? then frame.usage.value else LastUsage(payloads[..|payloads| - 1], codec)
  }

  function Datas(payloads: seq<string>): (events: seq<SseEvent>)
    ensures |events| == |payloads| && forall k :: 0 <= k < |events| ==> events[k] == Data(payloads[k])
  {
    if payloads == [] then [] else [Data(payloads[0])] + Datas(payloads[1..])
  }

  lemma DatasAppend(front: seq<string>, last: string)
    ensures Datas(front + [last]) == Datas(front) + [Data(last)] && Done !in Datas(front)
  {
  }

  lemma {:induction false} EmitsAppend(front: seq<string>, last: string, id: string, codec: Codec)
    ensures EmitsAll(front + [last], id, codec) == EmitsAll(front, id, codec) + Emits(last, id, codec)
  {
    hide Emits;
    if front == [] {
      assert [last][1..] == [];
      assert [] + Emits(last, id, codec) == Emits(last, id, codec) + [];
    } else {
      assert (front + [last])[1..] == front[1..] + [last];
      EmitsAppend(front[1..], last, id, codec);
      Associative(Emits(front[0], id, codec), EmitsAll(front[1..], id, codec), Emits(last, id, codec));
    }
  }

  lemma OneTaken(p: Progress, payload: string, id: string, codec: Codec)
    ensures var q := TakeAll(p, [Data(payload)], id, codec);
            && q.events == p.events + Emits(payload, id, codec)
            && q.usage == (if codec(payload).Chunk? && codec(payload).usage.Some? then codec(payload).usage.value
                           else p.usage)
            && (q.sawContent <==> p.sawContent || HasText(payload, codec))
            && q.decoder == p.decoder && q.sawDone == p.sawDone
  {
    assert [Data(payload)][1..] == [];
    assert p.events + [] == p.events;
  }

  /** Payloads one after another: each makes its events in order, the last usage stands, and
      any text counts as content. */
  lemma {:induction false} PayloadsTaken(payloads: seq<string>, decoder: DecoderState, id: string, codec: Codec)
    ensures TakeAll(START.(decoder := decoder), Datas(payloads), id, codec)
         == Progress(decoder, LastUsage(payloads, codec),
                     exists k :: 0 <= k < |payloads| && HasText(payloads[k], codec),
                     false, EmitsAll(payloads, id, codec))
    decreases |payloads|
  {
    hide TakeAll, HasText, Emits;
    if payloads == [] {
      NothingTaken(START.(decoder := decoder), id, codec);
    } else {
      var front, last := payloads[..|payloads| - 1], payloads[|payloads| - 1];
      assert payloads == front + [last];
      DatasAppend(front, last);
      PayloadsTaken(front, decoder, id, codec);
      TakeAllAppend(START.(decoder := decoder), Datas(front), [Data(last)], id, codec);
      OneTaken(TakeAll(START.(decoder := decoder), Datas(front), id, codec), last, id, codec);
      EmitsAppend(front, last, id, codec);
      assert forall k :: 0 <= k < |front| ==> payloads[k] == front[k];
    }
  }

  /** The sentinel ends what is taken. */
  lemma SentinelTaken(p: Progress, payloads: seq<string>, id: string, codec: Codec)
    ensures TakeAll(p, Datas(payloads) + [Done], id, codec)
         == TakeAll(p, Datas(payloads), id, codec).(sawDone := true)
  {
    hide TakeData;
    DatasAppend(payloads, "");
    TakeAllAppend(p, Datas(payloads), [Done], id, codec);
  }

  /** The payloads of a stream's frames. */
  function PayloadTexts(frames: seq<seq<OutLine>>): seq<string> {
    if frames == [] then []
    else (if Carried(frames[0]) == [] then [] else [Join(Carried(frames[0]), "\n")]) + PayloadTexts(frames[1..])
  }

  lemma {:induction false} PayloadsAreDatas(frames: seq<seq<OutLine>>)
    ensures Payloads(frames) == Datas(PayloadTexts(frames))
  {
    hide Carried, Join;
    if frames != [] {
      PayloadsAreDatas(frames[1..]);
    }
  }

  /** What a successful exchange with these payloads emits and returns. */
  function Success(payloads: seq<string>, id: string, codec: Codec): (seq<Event>, Result<Usage, AiError>) {
    var usage := LastUsage(payloads, codec);
    (EmitsAll(payloads, id, codec) + [AiFinished(id, usage)]
       + (if (forall k :: 0 <= k < |payloads| ==> !HasText(payloads[k], codec)) && usage.total == 0
          then [Log("ai: provider returned no content\n")] else []),
     Ok(usage))
  }

  lemma WholeRun(log: seq<seq<u8>>, stream: seq<u8>, seen: Schedule, id: string, codec: Codec)
    requires NeverAborted(seen) && Flatten(log) == stream
    ensures var d := Drain(stream);
            Run(log, seen, id, codec).0
            == TakeAll(START.(decoder := DecoderState(d.rest, d.done)), d.events, id, codec)
  {
    hide Drain, TakeAll, Run;
    RunIsOneDelivery(log, seen, id, codec);
    assert [] + stream == stream;
  }

  lemma Succeeds(p: Progress, response: Response, flags: Flags, payloads: seq<string>, id: string, codec: Codec)
    requires p.decoder.buffer == [] && response.status / 100 == 2
    requires p.events == EmitsAll(payloads, id, codec) && p.usage == LastUsage(payloads, codec)
    requires p.sawContent <==> exists k :: 0 <= k < |payloads| && HasText(payloads[k], codec)
    ensures Settle(p, Ok(response), flags, id, codec) == Success(payloads, id, codec)
  {
    hide EmitsAll, LastUsage, HasText, DecodeLossy;
  }

  /** From the server's frames to the events: a stream with its sentinel, cut into deliveries
      anywhere and answered with a 2xx status, emits the events of its payloads in order and
      one `AiFinished` with the last usage reported. */
  lemma ServedStream(frames: seq<seq<OutLine>>, eol: string, after: seq<u8>, log: seq<seq<u8>>, response: Response,
                     seen: Schedule, id: string, codec: Codec)
    requires NeverAborted(seen) && IsEol(eol) && Ordinary(frames) && response.status / 100 == 2
    requires Flatten(log) == SentAll(frames, eol) + (Framed(DONE_SENTINEL, eol) + after)
    ensures ExchangeOf(log, Ok(response), seen, id, codec) == Success(PayloadTexts(frames), id, codec)
  {
    hide Drain, TakeAll, Run, Settle, SentAll, Framed, Payloads, Ordinary, Success, EmitsAll, LastUsage, HasText, Trim;
    var payloads := PayloadTexts(frames);
    WholeRun(log, Flatten(log), seen, id, codec);
    SentAllDecodes(frames, eol, Framed(DONE_SENTINEL, eol) + after);
    SentinelIsItself();
    FramedDecodes(DONE_SENTINEL, eol, after);
    PrecededEvents(Payloads(frames), Drained([Done], [], true));
    PayloadsAreDatas(frames);
    var decoder := DecoderState([], true);
    SentinelTaken(START.(decoder := decoder), payloads, id, codec);
    PayloadsTaken(payloads, decoder, id, codec);
    Succeeds(Run(log, seen, id, codec).0, response, seen(|log|), payloads, id, codec);
  }

  /** The payload of a last frame that lacks its blank line, if it says anything. */
  function Residual(lines: seq<OutLine>, codec: Codec): (r: seq<string>)
    ensures |r| <= 1
  {
    var payload := Join(Carried(lines), "\n");
    if Carried(lines) == [] || Trim(payload) == DONE_SENTINEL || codec(payload).Garbled? then [] else [payload]
  }

  lemma FlushTakes(p: Progress, lines: seq<OutLine>, flags: Flags, id: string, codec: Codec)
    requires Finished(p.decoder) == Emit(EventOf(Carried(lines))) && !flags.Aborted()
    ensures Flush(p, flags, id, codec)
         == (TakeAll(p.(decoder := p.decoder.(buffer := [])), Datas(Residual(lines, codec)), id, codec), true)
  {
    hide Finished, Carried, Join, Trim;
    var cleared := p.(decoder := p.decoder.(buffer := []));
    NothingTaken(cleared, id, codec);
    var residual := Residual(lines, codec);
    assert residual == [] || Datas(residual) == [Data(residual[0])];
    assert residual != [] ==> Datas(residual)[1..] == [];
  }

  lemma ResidualTaken(payloads: seq<string>, residual: seq<string>, id: string, codec: Codec)
    requires |residual| <= 1
    ensures var start := START.(decoder := DecoderState([], false));
            TakeAll(TakeAll(start, Datas(payloads), id, codec), Datas(residual), id, codec)
            == TakeAll(start, Datas(payloads + residual), id, codec)
  {
    hide TakeAll;
    if residual == [] {
      NothingTaken(TakeAll(START.(decoder := DecoderState([], false)), Datas(payloads), id, codec), id, codec);
      assert payloads + residual == payloads;
    } else {
      assert residual == [residual[0]];
      DatasAppend(payloads, residual[0]);
      assert Datas(residual) == [Data(residual[0])];
      TakeAllAppend(START.(decoder := DecoderState([], false)), Datas(payloads), Datas(residual), id, codec);
    }
  }

  lemma SettlesAfterFlush(p: Progress, q: Progress, response: Response, flags: Flags, id: string, codec: Codec)
    requires Flush(p, flags, id, codec) == (q, true) && q.decoder.buffer == []
    ensures Settle(p, Ok(response), flags, id, codec) == Settle(q, Ok(response), flags, id, codec)
  {
    hide DecodeLossy;
  }

  /** A stream that closes inside its last frame loses nothing of it: the flush takes its
      payload as well, and passes over one that does not parse. */
  lemma UnendedStream(frames: seq<seq<OutLine>>, last: seq<OutLine>, eol: string, log: seq<seq<u8>>, response: Response,
                      seen: Schedule, id: string, codec: Codec)
    requires NeverAborted(seen) && IsEol(eol) && Ordinary(frames) && response.status / 100 == 2
    requires last != [] && AllSendable(last)
    requires Flatten(log) == SentAll(frames, eol) + Encode(FrameText(last, eol))
    ensures ExchangeOf(log, Ok(response), seen, id, codec)
         == Success(PayloadTexts(frames) + Residual(last, codec), id, codec)
  {
    hide Drain, TakeAll, Run, Settle, SentAll, Payloads, Ordinary, Success, EmitsAll, LastUsage, HasText, FrameText;
    hide Encode, Finished, Residual, EventOf, Carried, Flush, DecodeLossy, PayloadTexts, AllSendable;
    var payloads, t := PayloadTexts(frames), Encode(FrameText(last, eol));
    var residual := Residual(last, codec);
    WholeRun(log, Flatten(log), seen, id, codec);
    SentAllDecodes(frames, eol, t);
    UnendedStays(last, eol);
    PrecededEvents(Payloads(frames), Drained([], t, false));
    assert Payloads(frames) + [] == Payloads(frames);
    PayloadsAreDatas(frames);
    var p := Run(log, seen, id, codec).0;
    TakeAllKeepsDecoder(START, DecoderState(t, false), Datas(payloads), id, codec);
    TakeAllKeepsDecoder(START, DecoderState([], false), Datas(payloads), id, codec);
    FlushTakes(p, last, seen(|log|), id, codec);
    ResidualTaken(payloads, residual, id, codec);
    PayloadsTaken(payloads + residual, DecoderState([], false), id, codec);
    var q := Flush(p, seen(|log|), id, codec).0;
    Succeeds(q, response, seen(|log|), payloads + residual, id, codec);
    SettlesAfterFlush(p, q, response, seen(|log|), id, codec);
  }

  /** The result of an exchange: the failure of its read, a cancelled flush, or the status. */
  lemma ResultIsStatus(log: seq<seq<u8>>, outcome: Result<Response, AiError>, seen: Schedule, id: string, codec: Codec)
    ensures var r := ExchangeOf(log, outcome, seen, id, codec).1;
            var cancelled := Finished(Run(log, seen, id, codec).0.decoder) != [] && seen(|log|).Aborted();
            && (outcome.Err? ==> r == Err(outcome.error))
            && (outcome.Ok? && cancelled ==> r == Err(Cancelled(id)))
            && (outcome.Ok? && !cancelled ==>
                  if outcome.value.status / 100 == 2 then r.Ok?
                  else r == Err(BadStatus(outcome.value.status, DecodeLossy(outcome.value.body))))
  {
    hide Run, Finished, DecodeLossy, TakeChunk;
  }

  // ---------------------------------------------------------------- socket to events ---

  /** The response carries no bytes but its body: it is not chunked, and nothing follows
      the declared length. */
  ghost predicate PlainBody(all: seq<u8>) {
    match FindHeaderEnd(all)
    case None => true
    case Some(h) =>
      match ParseHead(all[..h])
      case Err(_) => true
      case Ok(head) => head.framing.UntilClose? || (head.framing.Length? && |all[h + 4..]| <= head.framing.n)
  }

  /** The bytes behind the header, if there is a readable one. */
  function BodyBytes(all: seq<u8>): seq<u8> {
    match FindHeaderEnd(all)
    case None => []
    case Some(h) => if ParseHead(all[..h]).Ok? then all[h + 4..] else []
  }

  lemma SeenIsBodyBytes(all: seq<u8>, seen: seq<u8>)
    requires SeenIsBody(all, seen) && PlainBody(all)
    ensures seen == BodyBytes(all)
  {
    hide FindHeaderEnd, ParseHead;
    if FindHeaderEnd(all).Some? {
      var h := FindHeaderEnd(all).value;
      if ParseHead(all[..h]).Ok? {
        SeenIsWholeBody(all, h, ParseHead(all[..h]).value, seen);
      }
    }
  }

  /** End to end: for an uncancelled exchange whose response is not chunked and carries
      no bytes beyond its declared length, the events emitted and the result are those
      of the whole body delivered at once, however the socket cut the stream. */
  lemma EndToEnd(all: seq<u8>, end: Option<AiError>, log: seq<seq<u8>>, outcome: Result<Response, AiError>,
                 seen: Schedule, id: string, codec: Codec)
    requires NeverAborted(seen) && UnderCeilings(all) && PlainBody(all)
    requires ResponseEnded(Verdict(seen, id, codec), log, all, end, outcome)
    ensures outcome == ResponseOf(all, end)
    ensures ExchangeOf(log, outcome, seen, id, codec)
         == Settle(Deliver(START, BodyBytes(all), Flags(false, false), id, codec).0, ResponseOf(all, end),
                   Flags(false, false), id, codec)
  {
    hide Deliver, Run, ResponseOf, UnderCeilings, SeenIsBody, PlainBody, BodyBytes, Settle;
    NeverRefused(log, seen, id, codec);
    RunIsOneDelivery(log, seen, id, codec);
    SeenIsBodyBytes(all, Flatten(log));
  }
}
