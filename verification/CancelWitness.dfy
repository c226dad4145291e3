/**
 A request that emits a chunk after `cancel` (`openai.rs`).  The first response, a refusal
 of the option, arrives in one read; `cancel` is called right behind that read, so no wait
 sees the flag, and its body completes no event, so no delivery looks at it either.  The
 retry, which has a flag of its own, answers.
 */
module CancelWitness {
  import opened Wrappers
  import opened Words
  import opened Text
  import opened Seqs
  import Chunked
  import opened Sse
  import opened Http
  import opened HttpMessages
  import opened AiProtocol
  import opened OpenAi

  const REASON := "unsupported"
  const REFUSAL := OutHead("HTTP/1.1", 400, "", [OutField("Content-Length", " ", DecimalDigits(11), "")])
  const ANSWER := OutHead("HTTP/1.1", 200, "", [])

  const QUIET := Channels((k: nat) => false, (k: nat) => false)

  /** `cancel` is called just before the first delivery. */
  const CANCELLED := Channels((k: nat) => k == 0, (k: nat) => false)

  const FIRST := Connected([Bytes(Message(REFUSAL, Encode(REASON)))], CANCELLED)

  const SECOND := Connected([Bytes(Message(ANSWER, Framed("x", "\n")))], QUIET)

  // -------------------------------------------------------------------- the responses ---

  lemma OtherName(f: OutField, name: string)
    requires |f.name| != |name|
    ensures FirstOf([f], name) == 1
  {
    assert [f][1..] == [];
  }

  lemma TightName()
    ensures Tight("Content-Length")
  {
  }

  lemma DigitsAreTight(n: nat)
    ensures var s := DecimalDigits(n); Tight(s) && '\r' !in s && ':' !in s
  {
    hide DecimalDigits;
    var s := DecimalDigits(n);
    assert s[0] in s && s[|s| - 1] in s;
  }

  lemma RefusalIsValid()
    ensures REFUSAL.Valid()
  {
    hide DecimalDigits, Tight;
    DigitsAreTight(11);
    TightName();
    assert REFUSAL.fields[0].Line() == "Content-Length:" + " " + DecimalDigits(11) + "";
  }

  lemma RefusalFraming()
    ensures REFUSAL.Valid() && FramingOf(Headers(REFUSAL.fields)) == Ok(Length(11))
  {
    hide DecimalDigits, FramingOf, OutField.Valid, Mentions, Numeric;
    RefusalIsValid();
    OtherName(REFUSAL.fields[0], "Content-Encoding");
    OtherName(REFUSAL.fields[0], "Transfer-Encoding");
    assert FirstOf(REFUSAL.fields, "Content-Length") == 0;
    FramingIs(REFUSAL.fields, 11);
  }

  lemma AnswerFraming()
    ensures ANSWER.Valid() && FramingOf(Headers(ANSWER.fields)) == Ok(UntilClose)
  {
    FramingIs([], 0);
  }

  lemma OneDelivery(body: seq<u8>)
    ensures Flatten([body]) == body && [body][..1] == [body] && [body][..0] == []
  {
    assert [body][1..] == [] && body + [] == body;
  }

  lemma OneRead(message: seq<u8>)
    ensures Content([Bytes(message)]) == message && EndOf([Bytes(message)]) == None
  {
    assert [Bytes(message)][1..] == [] && message + [] == message;
  }

  /** A response read in one piece, its body accepted in one delivery. */
  lemma ReadWhole(verdict: seq<seq<u8>> -> Option<AiError>, h: OutHead, framing: Framing, body: seq<u8>)
    requires h.Valid() && FramingOf(Headers(h.fields)) == Ok(framing)
    requires BodyOf(framing, body, None) == Ok(body) && verdict([body]).None?
    ensures ResponseEnded(verdict, [body], Message(h, body), None,
                          Ok(Response(h.code, h.reason, Headers(h.fields), body)))
  {
    hide ResponseOf, Flatten, UnderCeilings, BodyOf, SeenIsBody, FramingOf, Message, OutHead.Valid;
    MessageParses(h, framing, body, None);
    MessageSeen(h, framing, body, body);
    OneDelivery(body);
  }

  // ------------------------------------------------------------- the first exchange ---

  lemma {:induction false} NoBreakWithin(b: seq<u8>, i: nat)
    requires LF !in b && CR !in b && i <= |b|
    ensures FrameEndFrom(b, i) == None
    decreases |b| - i
  {
    if i < |b| {
      NoBreakWithin(b, i + 1);
    }
  }

  lemma ReasonIsNoFrame()
    ensures Drain(Encode(REASON)) == Drained([], Encode(REASON), false)
    ensures FrameEvent(Encode(REASON)) == None && Encode(REASON) != []
  {
    hide Encode, Split, DecodeLossy;
    EncodedByte(REASON, LF);
    LineBytes(REASON);
    NoBreakWithin(Encode(REASON), 0);
    DecodedText(REASON);
    SplitFirst(REASON, "", '\n');
    assert REASON[0] == 'u' && "data:"[0] == 'd';
    assert LineData(REASON) == None;
    assert [REASON][1..] == [];
    assert DataLines([REASON]) == [];
  }

  lemma {:induction false} TakesAll(s: string, limit: nat)
    requires |s| <= limit && forall k :: 0 <= k < |s| ==> s[k] as int < 0x80
    ensures TakeBytes(s, limit) == s
  {
    if s != "" {
      assert s == [s[0]] + s[1..];
      TakesAll(s[1..], limit - 1);
    }
  }

  lemma ReasonRejects()
    ensures RejectsOptions(BadStatus(400, REASON))
  {
    hide Trim, TakeBytes, Lowercase;
    TrimUnspaced(REASON);
    TakesAll(REASON, 2048);
    AlreadyLower(REASON);
  }

  lemma {:induction false} PlainText(s: string)
    requires forall k :: 0 <= k < |s| ==> s[k] as int < 0x80
    ensures |Encode(s)| == |s|
  {
    if s != "" {
      PlainText(s[1..]);
    }
  }

  lemma WholeLength(body: seq<u8>)
    ensures BodyOf(Length(|body|), body, None) == Ok(body) && BodyOf(UntilClose, body, None) == Ok(body)
  {
    hide Chunked.Decode, Chunked.Arrived;
    assert body[..|body|] == body;
  }

  lemma ReasonIsWhole()
    ensures BodyOf(Length(11), Encode(REASON), None) == Ok(Encode(REASON))
  {
    hide Encode, BodyOf;
    PlainText(REASON);
    WholeLength(Encode(REASON));
  }

  lemma OneRun(body: seq<u8>, seen: Schedule, id: string, codec: Codec)
    ensures Run([body], seen, id, codec) == Deliver(START, body, seen(0), id, codec)
  {
    hide Deliver;
    OneDelivery(body);
  }

  lemma NothingTakenFrom(s: seq<u8>, id: string, codec: Codec)
    ensures [] + s == s && forall p :: TakeAll(p, [], id, codec) == p
  {
  }

  /** The refusal: no chunk, and a retry although the flag was raised throughout. */
  lemma FirstExchange(id: string, codec: Codec)
    ensures var body := Encode(REASON);
            var outcome := Ok(Response(400, "", Headers(REFUSAL.fields), body));
            && IsExchange(FIRST, [body], outcome, id, codec, [Log(BAD_ANSWER)], Err(BadStatus(400, REASON)))
            && Retries(Err(BadStatus(400, REASON)), true)
  {
    hide Encode, FrameEvent, DecodeLossy, ResponseEnded, Run, Content, EndOf, RejectsOptions, Drain, TakeAll, BodyOf;
    hide FramingOf, OutHead.Valid, Message, Headers;
    var body, seen := Encode(REASON), FIRST.Seen();
    ReasonIsNoFrame();
    ReasonRejects();
    DecodedText(REASON);
    NothingTakenFrom(body, id, codec);
    OneRun(body, seen, id, codec);
    RefusalFraming();
    ReasonIsWhole();
    ReadWhole(Verdict(seen, id, codec), REFUSAL, Length(11), body);
    OneRead(Message(REFUSAL, body));
    assert [] + [Log(BAD_ANSWER)] == [Log(BAD_ANSWER)];
  }

  // ------------------------------------------------------------------------ the retry ---

  function Parse(payload: string): Frame {
    Chunk(None, Some(payload))
  }

  lemma AnswerDecodes()
    ensures Drain(Framed("x", "\n")) == Drained([Data("x")], [], false)
  {
    hide Framed;
    FramedDecodes("x", "\n", []);
    assert Framed("x", "\n") + [] == Framed("x", "\n");
    TrimUnspaced("x");
    assert Drain([]) == Drained([], [], false);
    assert [Data("x")] + [] == [Data("x")];
  }

  lemma OneTaken(p: Progress, id: string)
    ensures TakeAll(p, [Data("x")], id, Parse)
         == p.(sawContent := true, events := p.events + [AiChunk(id, "x")])
  {
    assert [Data("x")][1..] == [];
  }

  /** What the answer leaves in an exchange. */
  function Answered(id: string): Progress {
    START.(sawContent := true, events := [AiChunk(id, "x")])
  }

  lemma RunOfAnswer(seen: Schedule, id: string)
    ensures Run([Framed("x", "\n")], seen, id, Parse)
         == if seen(0).Aborted() then (START, Some(Cancelled(id))) else (Answered(id), None)
  {
    hide Framed, Drain, TakeAll, Run;
    var body := Framed("x", "\n");
    AnswerDecodes();
    NothingTakenFrom(body, id, Parse);
    OneTaken(START, id);
    OneRun(body, seen, id, Parse);
    assert START.events + [AiChunk(id, "x")] == [AiChunk(id, "x")];
  }

  lemma SettlesAnswer(response: Response, flags: Flags, id: string)
    requires response.IsSuccess()
    ensures Settle(Answered(id), Ok(response), flags, id, Parse)
         == ([AiChunk(id, "x"), AiFinished(id, NO_USAGE)], Ok(NO_USAGE))
  {
    hide DecodeLossy;
    assert [AiChunk(id, "x")] + [AiFinished(id, NO_USAGE)] + [] == [AiChunk(id, "x"), AiFinished(id, NO_USAGE)];
  }

  lemma SecondExchange(id: string)
    ensures var body := Framed("x", "\n");
            IsExchange(SECOND, [body], Ok(Response(200, "", [], body)), id, Parse,
                       [AiChunk(id, "x"), AiFinished(id, NO_USAGE)], Ok(NO_USAGE))
  {
    hide Framed, ResponseEnded, Run, Content, EndOf, Settle, Message, Answered, BodyOf, FramingOf, OutHead.Valid;
    var body, seen := Framed("x", "\n"), SECOND.Seen();
    RunOfAnswer(seen, id);
    SettlesAnswer(Response(200, "", [], body), seen(1), id);
    AnswerFraming();
    WholeLength(body);
    assert Headers(ANSWER.fields) == [];
    ReadWhole(Verdict(seen, id, Parse), ANSWER, UntilClose, body);
    OneRead(Message(ANSWER, body));
  }

  function Witness(id: string): Chat {
    var first, second := Encode(REASON), Framed("x", "\n");
    Chat([first], Ok(Response(400, "", Headers(REFUSAL.fields), first)), [Log(BAD_ANSWER)], Err(BadStatus(400, REASON)),
         [second], Ok(Response(200, "", [], second)), [AiChunk(id, "x"), AiFinished(id, NO_USAGE)], Ok(NO_USAGE))
  }

  /** `cancel` is called before the first delivery, and a chunk follows all the same. */
  lemma ChunkAfterCancel(id: string)
    ensures IsChat(Witness(id), FIRST, SECOND, true, id, Parse)
    ensures RaisedBy(FIRST.channels.cancels, 0) && EventsBefore(Witness(id), FIRST, SECOND, false, 0, id, Parse) == []
    ensures EventsOf(Witness(id), true, id).0
         == [Log(BAD_ANSWER), Log(RETRYING), AiChunk(id, "x"), AiFinished(id, NO_USAGE)]
  {
    hide IsExchange, Encode, Framed, RejectsOptions;
    FirstExchange(id, Parse);
    SecondExchange(id);
    NothingRunYet(Witness(id).log1, FIRST.Seen(), id, Parse);
  }
}
