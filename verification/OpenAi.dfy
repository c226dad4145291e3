/** The OpenAI-compatible provider (`openai.rs`): requests, cancellation, event stream. */
module OpenAi {
  import opened Wrappers
  import opened Words
  import opened Text
  import opened Sse
  import opened Http
  import opened HttpMessages
  import opened AiProtocol

  /** The event sink; this one never fails. */
  class EventSink {
    var events: seq<Event>

    constructor ()
      ensures events == []
    {
      events := [];
    }

    method Emit(e: Event)
      modifies this
      ensures events == old(events) + [e]
    {
      events := events + [e];
    }
  }

  /** The closure an exchange hands to the transport: decoder, usage, what was seen, and
      the sink it emits to. */
  class StreamConsumer {
    const id: string
    const codec: Codec
    const sink: EventSink
    const decoder: SseDecoder
    var usage: Usage
    var sawContent: bool
    var sawDone: bool
    /** Events the sink held when the exchange began. */
    ghost const before: seq<Event>

    ghost predicate Valid()
      reads this, sink
    {
      before <= sink.events
    }

    ghost function Progress(): Progress
      requires Valid()
      reads this, sink, decoder
    {
      AiProtocol.Progress(decoder.State(), usage, sawContent, sawDone, sink.events[|before|..])
    }

    constructor (id: string, codec: Codec, sink: EventSink)
      ensures Valid() && Progress() == START && before == sink.events
      ensures this.id == id && this.codec == codec && this.sink == sink && fresh(decoder)
    {
      this.id, this.codec, this.sink := id, codec, sink;
      decoder := new SseDecoder();
      usage, sawContent, sawDone := NO_USAGE, false, false;
      before := sink.events;
    }

    method Emit(e: Event)
      requires Valid()
      modifies sink
      ensures Valid() && Progress() == old(Progress()).(events := old(Progress()).events + [e])
    {
      sink.Emit(e);
      assert sink.events[|before|..] == old(sink.events)[|before|..] + [e];
    }

    method OnChunk(newUsage: Option<Usage>, text: Option<string>)
      requires Valid()
      modifies this, sink
      ensures Valid() && Progress() == TakeChunk(old(Progress()), newUsage, text, id)
    {
      if newUsage.Some? {
        usage := newUsage.value;
      }
      if text.Some? {
        sawContent := true;
        Emit(AiChunk(id, text.value));
      }
    }

    /** The callback: one body increment, with the cancellation channels as sampled
        before the events of this read are handled. */
    method OnBody(bytes: seq<u8>, flags: Flags) returns (r: Option<AiError>)
      requires Valid()
      modifies this, sink, decoder
      ensures Valid() && (Progress(), r) == Deliver(old(Progress()), bytes, flags, id, codec)
    {
      hide Pushed;
      var aborted := flags.Aborted();
      var batch := decoder.Push(bytes);
      ghost var start := Progress();
      ghost var whole := TakeAll(start, batch, id, codec);
      assert batch[0..] == batch;
      for k := 0 to |batch|
        invariant Valid()
        invariant k == 0 || !aborted
        invariant k == 0 ==> Progress() == start
        invariant TakeAll(Progress(), batch[k..], id, codec) == whole
      {
        if aborted {
          return Some(Cancelled(id));
        }
        assert batch[k..][1..] == batch[k + 1..];
        match batch[k] {
          case Done =>
            sawDone := true;
            return None;
          case Data(payload) =>
            match codec(payload) {
              case Garbled(reason) =>
                Emit(Log("ai: skipped an unparseable stream frame: " + reason + "\n"));
              case Chunk(newUsage, text) =>
                OnChunk(newUsage, text);
            }
        }
      }
      return None;
    }

    /** Flush a final frame that arrived without its blank line. */
    method OnEnd(flags: Flags) returns (flushed: bool)
      requires Valid()
      modifies this, sink, decoder
      ensures Valid() && (Progress(), flushed) == Flush(old(Progress()), flags, id, codec)
    {
      var batch := decoder.Finish();
      if batch == [] {
        return true;
      }
      if flags.Aborted() {
        return false;
      }
      match batch[0] {
        case Done =>
        case Data(payload) =>
          match codec(payload) {
            case Garbled(_) =>
            case Chunk(newUsage, text) => OnChunk(newUsage, text);
          }
      }
      return true;
    }
  }

  // ----------------------------------------------------------------- the provider ---

  /** Set by `cancel` while an exchange runs. */
  class StopFlag {
    var raised: bool

    constructor ()
      ensures !raised
    {
      raised := false;
    }
  }

  /** A live request the provider can cancel. */
  datatype LiveRequest = LiveRequest(id: string, stop: StopFlag)

  /** What other threads do to a running exchange: whether `cancel` is called for its
      request just before the k-th delivery, and whether the token is found cancelled then. */
  datatype Channels = Channels(cancels: nat -> bool, token: nat -> bool)

  function RaisedBy(cancels: nat -> bool, k: nat): bool {
    cancels(k) || (k > 0 && RaisedBy(cancels, k - 1))
  }

  /** What the deliveries sample: a flag stays raised once `cancel` raised it. */
  function SeenOf(c: Channels): Schedule {
    (k: nat) => Flags(RaisedBy(c.cancels, k), c.token(k))
  }

  ghost predicate Stays(token: nat -> bool) {
    forall i: nat, j: nat :: i <= j && token(i) ==> token(j)
  }

  lemma {:induction false} RaisedStays(cancels: nat -> bool, i: nat, j: nat)
    requires i <= j && RaisedBy(cancels, i)
    ensures RaisedBy(cancels, j)
    decreases j
  {
    if i < j {
      RaisedStays(cancels, i, j - 1);
    }
  }

  /** Of the two channels only the token needs its owner's promise that it stays raised. */
  lemma SeenIsMonotone(c: Channels)
    requires Stays(c.token)
    ensures Monotone(SeenOf(c))
  {
    forall i: nat, j: nat | i <= j
      ensures (SeenOf(c)(i).stop ==> SeenOf(c)(j).stop) && (SeenOf(c)(i).token ==> SeenOf(c)(j).token)
    {
      if RaisedBy(c.cancels, i) {
        RaisedStays(c.cancels, i, j);
      }
    }
  }

  /** What the environment does to an exchange: the connection fails, or the socket
      delivers these reads while other threads act. */
  datatype Attempt =
    | NoConnection(error: AiError, channels: Channels)
    | Connected(events: seq<ReadEvent>, channels: Channels)
  {
    function Seen(): Schedule {
      SeenOf(channels)
    }
  }

  datatype Config = Config(baseUrl: string, model: string)

  datatype Request = Request(id: string, stream: bool)

  /** The registered requests without those of `id`. */
  function Without(live: seq<LiveRequest>, id: string): seq<LiveRequest> {
    if live == [] then []
    else if live[0].id == id then Without(live[1..], id)
    else [live[0]] + Without(live[1..], id)
  }

  lemma {:induction false} WithoutAppended(live: seq<LiveRequest>, last: LiveRequest)
    ensures Without(live + [last], last.id) == Without(live, last.id)
  {
    if live == [] {
      assert [last][1..] == [];
    } else {
      assert (live + [last])[1..] == live[1..] + [last];
      WithoutAppended(live[1..], last);
    }
  }

  /** The flags of the live exchanges of one request. */
  ghost function StopsOf(live: seq<LiveRequest>, id: string): set<StopFlag> {
    set k | 0 <= k < |live| && live[k].id == id :: live[k].stop
  }

  ghost predicate DistinctStops(live: seq<LiveRequest>) {
    forall i, j :: 0 <= i < j < |live| ==> live[i].stop != live[j].stop
  }

  lemma RestIsDistinct(live: seq<LiveRequest>)
    requires live != [] && DistinctStops(live)
    ensures DistinctStops(live[1..])
    ensures forall e :: e in live[1..] ==> e in live && e.stop != live[0].stop
  {
    var rest := live[1..];
    assert forall k :: 0 <= k < |rest| ==> rest[k] == live[k + 1];
  }

  lemma PrependIsDistinct(first: LiveRequest, rest: seq<LiveRequest>)
    requires DistinctStops(rest) && forall e :: e in rest ==> e.stop != first.stop
    ensures DistinctStops([first] + rest)
  {
    assert forall k :: 0 <= k < |rest| ==> rest[k] in rest;
  }

  lemma {:induction false} WithoutIsDistinct(live: seq<LiveRequest>, id: string)
    requires DistinctStops(live)
    ensures DistinctStops(Without(live, id))
    ensures forall e :: e in Without(live, id) ==> e in live && e.id != id
  {
    if live != [] {
      RestIsDistinct(live);
      WithoutIsDistinct(live[1..], id);
      hide DistinctStops;
      if live[0].id != id {
        PrependIsDistinct(live[0], Without(live[1..], id));
      }
    }
  }

  lemma {:induction false} WithoutTwice(live: seq<LiveRequest>, id: string)
    ensures Without(Without(live, id), id) == Without(live, id)
  {
    if live != [] {
      WithoutTwice(live[1..], id);
    }
  }

  /** No request of `id` stays registered, and every other one does. */
  lemma {:induction false} WithoutKeepsOthers(live: seq<LiveRequest>, id: string, entry: LiveRequest)
    ensures entry in Without(live, id) <==> entry in live && entry.id != id
  {
    if live != [] {
      WithoutKeepsOthers(live[1..], id, entry);
      assert live == [live[0]] + live[1..];
    }
  }

  // ------------------------------------------------------------------ one or two tries ---

  function TakeBytes(s: string, limit: nat): string {
    if s == "" || |EncodeChar(s[0])| > limit then ""
    else [s[0]] + TakeBytes(s[1..], limit - |EncodeChar(s[0])|)
  }

  /** `E_AI_UNAVAILABLE`, as opposed to a timeout or a cancellation. */
  predicate IsUnavailable(e: AiError) {
    match e
    case BadStatus(status, _) => status != 408
    case Timeout(_) => false
    case Cancelled(_) => false
    case _ => true
  }

  /** The detail text of an error, as far as the retry decision reads it. */
  function DetailOf(e: AiError): Option<string> {
    match e
    case BadStatus(_, body) => if Trim(body) == "" then None else Some(TakeBytes(Trim(body), 2048))
    case Unreachable(_, reason) => Some(reason)
    case Unparseable(_, reason) => Some(reason)
    case UnsupportedEncoding(_) => Some("this build speaks uncompressed HTTP only")
    case _ => None
  }

  /** `is_unknown_option_rejection`. */
  predicate RejectsOptions(e: AiError) {
    && IsUnavailable(e) && DetailOf(e).Some?
    && var detail := Lowercase(DetailOf(e).value);
       Contains(detail, "stream_options") || Contains(detail, "unknown field") || Contains(detail, "unsupported")
  }

  /** `TakeBytes` is the longest beginning of that many bytes that cuts no character. */
  lemma {:induction false} TakesTheMost(s: string, limit: nat)
    ensures var t := TakeBytes(s, limit);
            && t <= s && |Encode(t)| <= limit
            && (t != s ==> |Encode(s[..|t| + 1])| > limit)
    decreases |s|
  {
    if s != "" && |EncodeChar(s[0])| <= limit {
      var rest := limit - |EncodeChar(s[0])|;
      TakesTheMost(s[1..], rest);
      var t := TakeBytes(s, limit);
      assert t[1..] == TakeBytes(s[1..], rest);
      assert s == [s[0]] + s[1..];
      if t != s {
        assert s[..|t| + 1][1..] == s[1..][..|t[1..]| + 1];
      }
    } else if s != "" {
      assert s[..1][1..] == "";
    }
  }

  lemma NothingToTake()
    ensures TakeBytes("", 2048) == ""
  {
  }

  lemma NothingMentioned(part: string)
    requires part != ""
    ensures !Mentions("", part)
  {
  }

  lemma Phrases()
    ensures Lowercase("stream_options") == "stream_options" && Lowercase("unknown field") == "unknown field"
    ensures Lowercase("unsupported") == "unsupported"
  {
    hide Lowercase;
    AlreadyLower("stream_options");
    AlreadyLower("unknown field");
    AlreadyLower("unsupported");
  }

  /** Which answers count as a rejection of the option: any status but 408 whose body, trimmed
      and cut at 2048 bytes, mentions one of three phrases in letters of either case. */
  lemma RejectionIff(status: nat, body: string)
    ensures RejectsOptions(BadStatus(status, body)) <==>
            var detail := TakeBytes(Trim(body), 2048);
            && status != 408
            && (|| Mentions(detail, "stream_options") || Mentions(detail, "unknown field")
                || Mentions(detail, "unsupported"))
  {
    hide Trim, TakeBytes, Lowercase, Contains, Mentions;
    var detail := TakeBytes(Trim(body), 2048);
    Phrases();
    MentionsIff(detail, "stream_options");
    MentionsIff(detail, "unknown field");
    MentionsIff(detail, "unsupported");
    if Trim(body) == "" {
      NothingToTake();
      NothingMentioned("stream_options");
      NothingMentioned("unknown field");
      NothingMentioned("unsupported");
    }
  }

  /** A connection or a reply that failed for a reason counts as one if the reason mentions
      them. */
  lemma ReasonRejectionIff(context: string, reason: string)
    ensures var mentioned := Mentions(reason, "stream_options") || Mentions(reason, "unknown field")
                             || Mentions(reason, "unsupported");
            && (RejectsOptions(Unreachable(context, reason)) <==> mentioned)
            && (RejectsOptions(Unparseable(context, reason)) <==> mentioned)
  {
    hide Lowercase, Contains, Mentions;
    Phrases();
    MentionsIff(reason, "stream_options");
    MentionsIff(reason, "unknown field");
    MentionsIff(reason, "unsupported");
  }

  /** Of the other failures a deadline or a cancellation never does. */
  lemma StoppedIsNoRejection(e: AiError)
    ensures e.Timeout? || e.Cancelled? || e.NotConfigured? || e.NotStreaming? ==> !RejectsOptions(e)
  {
  }

  const FAILED := "ai: the request failed\n"

  predicate Retries(first: Result<Usage, AiError>, includeUsage: bool) {
    includeUsage && first.Err? && RejectsOptions(first.error)
  }

  function BothTries(e1: seq<Event>, r1: Result<Usage, AiError>, e2: seq<Event>, r2: Result<Usage, AiError>,
                     includeUsage: bool): (seq<Event>, Result<Usage, AiError>)
  {
    if Retries(r1, includeUsage) then (e1 + [Log(RETRYING)] + e2, r2) else (e1, r1)
  }

  /** The events and the result of a request from those of its exchanges. */
  function ChatOf(e1: seq<Event>, r1: Result<Usage, AiError>, e2: seq<Event>, r2: Result<Usage, AiError>,
                  includeUsage: bool, id: string): (seq<Event>, Result<Usage, AiError>)
  {
    var (events, r) := BothTries(e1, r1, e2, r2, includeUsage);
    match r
    case Ok(_) => (events, r)
    case Err(_) => (events + [Log(FAILED), AiFinished(id, NO_USAGE)], r)
  }

  /** An exchange's events carry the terminal event exactly when it succeeds. */
  ghost predicate WellEnded(events: seq<Event>, r: Result<Usage, AiError>) {
    if r.Ok? then FinishedOnce(events) else NoFinish(events)
  }

  lemma FinishPreceded(before: seq<Event>, events: seq<Event>)
    requires NoFinish(before) && FinishedOnce(events)
    ensures FinishedOnce(before + events)
  {
    var k :| 0 <= k < |events| && FinishesAt(events, k);
    var whole := before + events;
    assert whole[..|before| + k] == before + events[..k];
    assert whole[|before| + k + 1..] == events[k + 1..];
    assert FinishesAt(whole, |before| + k);
  }

  /** Whether one exchange runs or two, a request ends in exactly one `AiFinished`, and
      every `AiChunk` comes before it. */
  lemma ChatFinishesOnce(e1: seq<Event>, r1: Result<Usage, AiError>, e2: seq<Event>, r2: Result<Usage, AiError>,
                         includeUsage: bool, id: string)
    requires WellEnded(e1, r1) && (Retries(r1, includeUsage) ==> WellEnded(e2, r2))
    ensures FinishedOnce(ChatOf(e1, r1, e2, r2, includeUsage, id).0)
  {
    hide FinishedOnce, RejectsOptions;
    var tries := if Retries(r1, includeUsage) then e1 + [Log(RETRYING)] + e2 else e1;
    var last := if Retries(r1, includeUsage) then r2 else r1;
    if last.Ok? {
      if Retries(r1, includeUsage) {
        FinishPreceded(e1 + [Log(RETRYING)], e2);
      }
    } else {
      FinishAppended(tries + [Log(FAILED)], AiFinished(id, NO_USAGE), []);
      assert tries + [Log(FAILED), AiFinished(id, NO_USAGE)]
          == tries + [Log(FAILED)] + [AiFinished(id, NO_USAGE)] + [];
    }
  }

  /** What an exchange leaves: the events and the result of its attempt. */
  ghost predicate IsExchange(attempt: Attempt, log: seq<seq<u8>>, outcome: Result<Response, AiError>,
                             id: string, codec: Codec, events: seq<Event>, r: Result<Usage, AiError>)
  {
    match attempt
    case NoConnection(e, _) => events == [] && r == Err(e)
    case Connected(incoming, _) =>
      && ResponseEnded(Verdict(attempt.Seen(), id, codec), log, Content(incoming), EndOf(incoming), outcome)
      && (events, r) == ExchangeOf(log, outcome, attempt.Seen(), id, codec)
  }

  lemma ExchangeWellEnded(attempt: Attempt, log: seq<seq<u8>>, outcome: Result<Response, AiError>,
                          id: string, codec: Codec, events: seq<Event>, r: Result<Usage, AiError>)
    requires IsExchange(attempt, log, outcome, id, codec, events, r)
    ensures WellEnded(events, r)
  {
    hide ResponseEnded, ExchangeOf, FinishedOnce;
    if attempt.Connected? {
      ExchangeFinishes(log, outcome, attempt.Seen(), id, codec);
    }
  }

  lemma NothingRunYet(log: seq<seq<u8>>, seen: Schedule, id: string, codec: Codec)
    ensures Run(log[..0], seen, id, codec).0.events == []
  {
  }

  /** An exchange that starts cancelled emits no chunk at all. */
  lemma CancelledFromStart(attempt: Attempt, log: seq<seq<u8>>, outcome: Result<Response, AiError>,
                           id: string, codec: Codec, events: seq<Event>, r: Result<Usage, AiError>)
    requires IsExchange(attempt, log, outcome, id, codec, events, r)
    requires Monotone(attempt.Seen()) && attempt.Seen()(0).Aborted()
    ensures NoChunk(events)
  {
    hide ResponseEnded, ExchangeOf, Monotone;
    if attempt.Connected? {
      CancelledExchange(log, outcome, 0, attempt.Seen(), id, codec);
      NothingRunYet(log, attempt.Seen(), id, codec);
      assert events[0..] == events;
    }
  }

  /** The exchanges behind a request; the second one counts only if there was a retry. */
  datatype Chat = Chat(
    log1: seq<seq<u8>>, outcome1: Result<Response, AiError>, e1: seq<Event>, r1: Result<Usage, AiError>,
    log2: seq<seq<u8>>, outcome2: Result<Response, AiError>, e2: seq<Event>, r2: Result<Usage, AiError>)

  ghost predicate IsChat(chat: Chat, first: Attempt, second: Attempt, includeUsage: bool, id: string, codec: Codec) {
    && IsExchange(first, chat.log1, chat.outcome1, id, codec, chat.e1, chat.r1)
    && (Retries(chat.r1, includeUsage) ==> IsExchange(second, chat.log2, chat.outcome2, id, codec, chat.e2, chat.r2))
  }

  function TriesOf(chat: Chat, includeUsage: bool): (seq<Event>, Result<Usage, AiError>) {
    BothTries(chat.e1, chat.r1, chat.e2, chat.r2, includeUsage)
  }

  function EventsOf(chat: Chat, includeUsage: bool, id: string): (seq<Event>, Result<Usage, AiError>) {
    ChatOf(chat.e1, chat.r1, chat.e2, chat.r2, includeUsage, id)
  }

  lemma ChatIsFinished(chat: Chat, first: Attempt, second: Attempt, includeUsage: bool, id: string, codec: Codec)
    requires IsChat(chat, first, second, includeUsage, id, codec)
    ensures FinishedOnce(EventsOf(chat, includeUsage, id).0)
  {
    hide IsExchange, FinishedOnce, ChatOf, RejectsOptions;
    ExchangeWellEnded(first, chat.log1, chat.outcome1, id, codec, chat.e1, chat.r1);
    if Retries(chat.r1, includeUsage) {
      ExchangeWellEnded(second, chat.log2, chat.outcome2, id, codec, chat.e2, chat.r2);
    }
    ChatFinishesOnce(chat.e1, chat.r1, chat.e2, chat.r2, includeUsage, id);
  }

  /** The samples of both exchanges are samples of one token that stays raised; `n` is the
      last one of the first exchange. */
  ghost predicate OneToken(first: Channels, second: Channels, n: nat) {
    Stays(first.token) && Stays(second.token) && (first.token(n) ==> second.token(0))
  }

  /** The events of a request up to delivery `k` of its first exchange, or of its retry. */
  function EventsBefore(chat: Chat, first: Attempt, second: Attempt, retry: bool, k: nat, id: string, codec: Codec)
    : seq<Event>
    requires k <= |if retry then chat.log2 else chat.log1|
  {
    if retry then chat.e1 + [Log(RETRYING)] + Run(chat.log2[..k], second.Seen(), id, codec).0.events
    else Run(chat.log1[..k], first.Seen(), id, codec).0.events
  }

  lemma SampledToken(c: Channels, k: nat)
    requires c.token(k)
    ensures SeenOf(c)(k).Aborted()
  {
  }

  lemma ChunkFreeTail(front: seq<Event>, middle: seq<Event>, seen: seq<Event>, events: seq<Event>)
    requires seen <= middle && NoChunk(middle[|seen|..])
    requires front + middle <= events && NoChunk(events[|front + middle|..])
    ensures front + seen <= events && NoChunk(events[|front + seen|..])
  {
    assert events == front + middle + events[|front + middle|..];
    assert middle == seen + middle[|seen|..];
    assert events[|front + seen|..] == middle[|seen|..] + events[|front + middle|..];
  }

  /** Once a delivery, of the first exchange or of the retry, has found the token
      cancelled, the request emits no later chunk. */
  lemma NoChunkAfterToken(chat: Chat, first: Attempt, second: Attempt, includeUsage: bool, id: string, codec: Codec,
                          retry: bool, k: nat)
    requires IsChat(chat, first, second, includeUsage, id, codec)
    requires OneToken(first.channels, second.channels, |chat.log1|)
    requires if retry then
               && Retries(chat.r1, includeUsage) && second.Connected?
               && k <= |chat.log2| && second.channels.token(k)
             else first.Connected? && k <= |chat.log1| && first.channels.token(k)
    ensures var events := EventsOf(chat, includeUsage, id).0;
            var before := EventsBefore(chat, first, second, retry, k, id, codec);
            before <= events && NoChunk(events[|before|..])
  {
    hide Monotone, ExchangeOf, ResponseEnded, RejectsOptions, Run, SeenOf;
    SeenIsMonotone(first.channels);
    SeenIsMonotone(second.channels);
    var events, before := EventsOf(chat, includeUsage, id).0, EventsBefore(chat, first, second, retry, k, id, codec);
    if retry {
      SampledToken(second.channels, k);
      CancelledExchange(chat.log2, chat.outcome2, k, second.Seen(), id, codec);
      ChunkFreeTail(chat.e1 + [Log(RETRYING)], chat.e2, Run(chat.log2[..k], second.Seen(), id, codec).0.events, events);
    } else {
      SampledToken(first.channels, k);
      CancelledExchange(chat.log1, chat.outcome1, k, first.Seen(), id, codec);
      if Retries(chat.r1, includeUsage) {
        SampledToken(second.channels, 0);
        CancelledFromStart(second, chat.log2, chat.outcome2, id, codec, chat.e2, chat.r2);
      }
      ChunkFreeTail([], chat.e1, before, events);
    }
  }

  lemma ChatTail(chat: Chat, includeUsage: bool, id: string, before: seq<Event>)
    requires before <= chat.e1 && NoChunk(chat.e1[|before|..])
    ensures var events := EventsOf(chat, includeUsage, id).0;
            && before <= events
            && (NoChunk(events[|before|..]) <==> !Retries(chat.r1, includeUsage) || NoChunk(chat.e2))
  {
    hide RejectsOptions;
    var events, retried := EventsOf(chat, includeUsage, id).0, Retries(chat.r1, includeUsage);
    var tries := TriesOf(chat, includeUsage).0;
    var report := events[|tries|..];
    assert events == tries + report && NoChunk(report);
    var rest := chat.e1[|before|..];
    assert chat.e1 == before + rest;
    if retried {
      assert events[|before|..] == rest + [Log(RETRYING)] + chat.e2 + report;
      assert forall e :: e in chat.e2 ==> e in events[|before|..];
    } else {
      assert events[|before|..] == rest + report;
    }
  }

  /** After `cancel` during the first exchange the request emits no chunk exactly when it
      does not retry or its retry emits none: the retry registers a flag of its own. */
  lemma NoChunkAfterCancel(chat: Chat, first: Attempt, second: Attempt, includeUsage: bool, id: string, codec: Codec,
                           k: nat)
    requires IsChat(chat, first, second, includeUsage, id, codec)
    requires first.Connected? && Stays(first.channels.token) && k <= |chat.log1| && RaisedBy(first.channels.cancels, k)
    ensures var events := EventsOf(chat, includeUsage, id).0;
            var before := EventsBefore(chat, first, second, false, k, id, codec);
            && before <= events
            && (NoChunk(events[|before|..]) <==> !Retries(chat.r1, includeUsage) || NoChunk(chat.e2))
  {
    hide Monotone, ExchangeOf, ResponseEnded, RejectsOptions, Run, EventsOf, NoChunk;
    SeenIsMonotone(first.channels);
    CancelledExchange(chat.log1, chat.outcome1, k, first.Seen(), id, codec);
    ChatTail(chat, includeUsage, id, EventsBefore(chat, first, second, false, k, id, codec));
  }

  /** `cancel` during the retry stops every later chunk. */
  lemma NoChunkAfterRetryCancel(chat: Chat, first: Attempt, second: Attempt, includeUsage: bool, id: string,
                                codec: Codec, k: nat)
    requires IsChat(chat, first, second, includeUsage, id, codec) && Retries(chat.r1, includeUsage)
    requires second.Connected? && Stays(second.channels.token)
    requires k <= |chat.log2| && RaisedBy(second.channels.cancels, k)
    ensures var events := EventsOf(chat, includeUsage, id).0;
            var before := EventsBefore(chat, first, second, true, k, id, codec);
            before <= events && NoChunk(events[|before|..])
  {
    hide Monotone, ExchangeOf, ResponseEnded, RejectsOptions, Run;
    SeenIsMonotone(second.channels);
    CancelledExchange(chat.log2, chat.outcome2, k, second.Seen(), id, codec);
    ChunkFreeTail(chat.e1 + [Log(RETRYING)], chat.e2, Run(chat.log2[..k], second.Seen(), id, codec).0.events,
                  EventsOf(chat, includeUsage, id).0);
  }

  /** The response asks to leave the option out. */
  predicate AsksRetry(outcome: Result<Response, AiError>) {
    match outcome
    case Err(e) => RejectsOptions(e)
    case Ok(response) =>
      !response.IsSuccess() && RejectsOptions(BadStatus(response.status, DecodeLossy(response.body)))
  }

  /** The events that delivery `j` completes. */
  function Completes(log: seq<seq<u8>>, seen: Schedule, id: string, codec: Codec, j: nat): seq<SseEvent>
    requires j < |log|
  {
    Pushed(Run(log[..j], seen, id, codec).0.decoder, log[j]).1
  }

  /** No delivery from `k` on completes an event, nor does the flush where there is one. */
  ghost predicate QuietFrom(log: seq<seq<u8>>, outcome: Result<Response, AiError>, seen: Schedule, id: string,
                            codec: Codec, k: nat)
  {
    && (forall j :: k <= j < |log| ==> Completes(log, seen, id, codec, j) == [])
    && (outcome.Ok? ==> Finished(Run(log, seen, id, codec).0.decoder) == [])
  }

  lemma {:induction false} OnlyCancelled(log: seq<seq<u8>>, seen: Schedule, id: string, codec: Codec)
    ensures var refusal := Run(log, seen, id, codec).1; refusal.None? || refusal == Some(Cancelled(id))
  {
    hide Pushed, TakeAll;
    if log != [] {
      OnlyCancelled(log[..|log| - 1], seen, id, codec);
    }
  }

  /** A delivery that was accepted although it saw a cancellation completed no event. */
  lemma AcceptedIsQuiet(log: seq<seq<u8>>, seen: Schedule, id: string, codec: Codec, j: nat)
    requires j < |log| && seen(j).Aborted() && Run(log[..j + 1], seen, id, codec).1.None?
    ensures Completes(log, seen, id, codec, j) == []
  {
    hide Pushed, TakeAll;
    assert log[..j + 1][..j] == log[..j];
  }

  /** A request cancelled during its first exchange still retries exactly when the option
      was rejected and nothing since the cancellation completed an event: only a delivery
      or a flush that has an event to hand on looks at the flag. */
  lemma CancelledRetriesIff(chat: Chat, first: Attempt, second: Attempt, includeUsage: bool, id: string, codec: Codec,
                            k: nat)
    requires IsChat(chat, first, second, includeUsage, id, codec)
    requires first.Connected? && k <= |chat.log1| && RaisedBy(first.channels.cancels, k)
    ensures Retries(chat.r1, includeUsage)
       <==> includeUsage && AsksRetry(chat.outcome1) && QuietFrom(chat.log1, chat.outcome1, first.Seen(), id, codec, k)
  {
    hide Run, Pushed, Finished, IsResponseRead, Completes, DetailOf, Contains, Lowercase, RaisedBy, DecodeLossy;
    hide TakeChunk;
    var log, seen := chat.log1, first.Seen();
    forall j: nat | k <= j ensures seen(j).Aborted() {
      RaisedStays(first.channels.cancels, k, j);
    }
    OnlyCancelled(log, seen, id, codec);
    if !Refused(Verdict(seen, id, codec), log, 0) {
      forall j | k <= j < |log| ensures Completes(log, seen, id, codec, j) == [] {
        assert Verdict(seen, id, codec)(log[..j + 1]).None?;
        AcceptedIsQuiet(log, seen, id, codec, j);
      }
    }
  }

  class OpenAiProvider {
    const config: Option<Config>
    const includeUsage: bool
    var live: seq<LiveRequest>

    /** Every live exchange has a flag of its own. */
    ghost predicate Valid()
      reads this
    {
      DistinctStops(live)
    }

    constructor (config: Option<Config>, includeUsage: bool)
      ensures Valid() && this.config == config && this.includeUsage == includeUsage && live == []
    {
      this.config, this.includeUsage, live := config, includeUsage, [];
    }

    /** `remove_live_request`. */
    method RemoveLive(id: string)
      requires Valid()
      modifies this
      ensures Valid() && live == Without(old(live), id)
    {
      WithoutIsDistinct(live, id);
      live := Without(live, id);
    }

    /** `cancel`: raise the flag of every live exchange of that request, and no other. */
    method Cancel(id: string)
      requires Valid()
      modifies StopsOf(live, id)
      ensures forall stop :: stop in StopsOf(live, id) ==> stop.raised
    {
      for i := 0 to |live|
        invariant forall k :: 0 <= k < i && live[k].id == id ==> live[k].stop.raised
      {
        if live[i].id == id {
          live[i].stop.raised := true;
        }
      }
    }

    /** One HTTP round-trip. */
    method Exchange(id: string, attempt: Attempt, codec: Codec, sink: EventSink)
      returns (r: Result<Usage, AiError>, ghost log: seq<seq<u8>>, ghost outcome: Result<Response, AiError>)
      requires Valid()
      modifies this, sink, StopsOf(live, id)
      ensures Valid() && live == Without(old(live), id)
      ensures old(sink.events) <= sink.events
      ensures IsExchange(attempt, log, outcome, id, codec, sink.events[|old(sink.events)|..], r)
    {
      hide ResponseEnded, Run, Settle, Deliver, Flush, Content, EndOf;
      log, outcome := [], Err(NotStreaming);
      var stop := new StopFlag();
      WithoutAppended(live, LiveRequest(id, stop));
      live := live + [LiveRequest(id, stop)];
      assert live[|live| - 1] == LiveRequest(id, stop);
      match attempt {
        case NoConnection(e, _) =>
          r := Err(e);
        case Connected(incoming, channels) =>
          var socket := new Socket(incoming);
          var body := new BodySink(Verdict(attempt.Seen(), id, codec));
          var read := ReadResponse(socket, body);
          log, outcome := body.log, read;
          r := Replay(id, stop, body.log, read, channels, codec, sink);
      }
      RemoveLive(id);
    }

    /** What the callback did, increment by increment, while other threads raise the
        exchange's flag or the token, and the end of the exchange. */
    method Replay(id: string, stop: StopFlag, log: seq<seq<u8>>, outcome: Result<Response, AiError>, channels: Channels,
                  codec: Codec, sink: EventSink)
      returns (r: Result<Usage, AiError>)
      requires Valid() && LiveRequest(id, stop) in live && !stop.raised
      modifies sink, StopsOf(live, id)
      ensures old(sink.events) <= sink.events
      ensures (sink.events[|old(sink.events)|..], r) == ExchangeOf(log, outcome, SeenOf(channels), id, codec)
    {
      hide Deliver, Flush, Finished;
      var seen := SeenOf(channels);
      var consumer := new StreamConsumer(id, codec, sink);
      var refused := false;
      assert log[..0] == [];
      for k := 0 to |log|
        invariant consumer.Valid() && consumer.sink == sink && consumer.id == id && consumer.codec == codec
        invariant consumer.before == old(sink.events) && fresh(consumer) && fresh(consumer.decoder)
        invariant consumer.Progress() == Run(log[..k], seen, id, codec).0
        invariant refused <==> Run(log[..k], seen, id, codec).1.Some?
        invariant stop.raised <==> k > 0 && RaisedBy(channels.cancels, k - 1)
      {
        assert log[..k + 1][..k] == log[..k];
        var flags := Sample(id, stop, channels, k);
        if !refused {
          var refusal := consumer.OnBody(log[k], flags);
          refused := refusal.Some?;
        }
      }
      assert log[..|log|] == log;
      match outcome {
        case Err(e) =>
          return Err(e);
        case Ok(response) =>
          var flags := Sample(id, stop, channels, |log|);
          var flushed := consumer.OnEnd(flags);
          if !flushed {
            return Err(Cancelled(id));
          }
          if !response.IsSuccess() {
            consumer.Emit(Log(BAD_ANSWER));
            return Err(BadStatus(response.status, DecodeLossy(response.body)));
          }
          consumer.Emit(AiFinished(id, consumer.usage));
          assert consumer.Progress().events + [] == consumer.Progress().events;
          if !consumer.sawContent && consumer.usage.total == 0 {
            consumer.Emit(Log(NO_CONTENT));
          }
          return Ok(consumer.usage);
      }
    }

    /** Another thread may call `cancel`; then the two channels are read, as
        `aborted_now` does. */
    method Sample(id: string, stop: StopFlag, channels: Channels, k: nat) returns (flags: Flags)
      requires Valid() && LiveRequest(id, stop) in live
      requires stop.raised <==> k > 0 && RaisedBy(channels.cancels, k - 1)
      modifies StopsOf(live, id)
      ensures flags == SeenOf(channels)(k) && (stop.raised <==> RaisedBy(channels.cancels, k))
    {
      if channels.cancels(k) {
        Cancel(id);
      }
      return Flags(stop.raised, channels.token(k));
    }

    /** `chat_completions`.  A request refused up front emits nothing; any other leaves
        the events of its one or two exchanges, with exactly one `AiFinished` after
        every `AiChunk`. */
    method ChatCompletions(request: Request, cancelled: bool, first: Attempt, second: Attempt, codec: Codec,
                           sink: EventSink)
      returns (r: Result<Usage, AiError>, accepted: bool, ghost chat: Chat)
      requires Valid()
      modifies this, sink, StopsOf(live, request.id)
      ensures Valid()
      ensures old(sink.events) <= sink.events
      ensures accepted <==> !cancelled && request.stream && config.Some?
                            && Trim(config.value.baseUrl) != "" && Trim(config.value.model) != ""
      ensures !accepted ==> r.Err? && sink.events == old(sink.events) && live == old(live)
      ensures accepted ==> live == Without(old(live), request.id)
      ensures accepted ==> FinishedOnce(sink.events[|old(sink.events)|..])
      ensures accepted ==> IsChat(chat, first, second, includeUsage, request.id, codec)
                           && (sink.events[|old(sink.events)|..], r) == EventsOf(chat, includeUsage, request.id)
    {
      hide IsExchange, FinishedOnce, RejectsOptions;
      chat := Chat([], Err(NotStreaming), [], Err(NotStreaming), [], Err(NotStreaming), [], Err(NotStreaming));
      if cancelled {
        return Err(Cancelled(request.id)), false, chat;
      }
      if config.None? {
        return Err(NotConfigured("the provider is switched off")), false, chat;
      }
      if Trim(config.value.baseUrl) == "" || Trim(config.value.model) == "" {
        return Err(NotConfigured("base_url or model is blank")), false, chat;
      }
      if !request.stream {
        return Err(NotStreaming), false, chat;
      }
      WithoutTwice(live, request.id);
      r, chat := TryTwice(request.id, first, second, codec, sink);
      RemoveLive(request.id);
      ghost var tries := sink.events;
      if r.Err? {
        sink.Emit(Log(FAILED));
        sink.Emit(AiFinished(request.id, NO_USAGE));
        assert sink.events[|old(sink.events)|..]
            == tries[|old(sink.events)|..] + [Log(FAILED), AiFinished(request.id, NO_USAGE)];
      }
      ChatIsFinished(chat, first, second, includeUsage, request.id, codec);
      return r, true, chat;
    }

    /** The first exchange and, when the server rejected `stream_options`, one retry. */
    method TryTwice(id: string, first: Attempt, second: Attempt, codec: Codec, sink: EventSink)
      returns (r: Result<Usage, AiError>, ghost chat: Chat)
      requires Valid()
      modifies this, sink, StopsOf(live, id)
      ensures Valid()
      ensures old(sink.events) <= sink.events && live == Without(old(live), id)
      ensures IsChat(chat, first, second, includeUsage, id, codec)
      ensures (sink.events[|old(sink.events)|..], r) == TriesOf(chat, includeUsage)
    {
      hide IsExchange, RejectsOptions;
      ghost var start := sink.events;
      ghost var log, outcome;
      WithoutTwice(live, id);
      WithoutIsDistinct(live, id);
      r, log, outcome := Exchange(id, first, codec, sink);
      ghost var e1 := sink.events[|start|..];
      chat := Chat(log, outcome, e1, r, log, outcome, e1, r);
      if Retries(r, includeUsage) {
        sink.Emit(Log(RETRYING));
        ghost var mid := sink.events;
        r, log, outcome := Exchange(id, second, codec, sink);
        chat := chat.(log2 := log, outcome2 := outcome, e2 := sink.events[|mid|..], r2 := r);
        assert sink.events[|start|..] == e1 + [Log(RETRYING)] + chat.e2;
      }
    }
  }
}
