/**
 Reading one HTTP response from a socket (`http.rs`; RFC 9112 sections 6.3 and 7.1),
 and why the result does not depend on how the socket cuts the bytes.
 */
module Http {
  import opened Wrappers
  import opened Words
  import opened Text
  import opened Seqs
  import opened Chunked

  const MAX_RESPONSE_BYTES: nat := 32 * 1024 * 1024
  const MAX_HEADER_BYTES: nat := 256 * 1024
  const CRLFCRLF: seq<u8> := [13, 10, 13, 10]

  /** The failures of this layer, with the detail text the code attaches. */
  datatype AiError =
    | Unreachable(context: string, reason: string)
    | Unparseable(context: string, reason: string)
    | UnsupportedEncoding(encoding: string)
    | BadStatus(status: nat, body: string)
    | Timeout(context: string)
    | Cancelled(id: string)
    | NotConfigured(reason: string)
    | NotStreaming

  datatype Response = Response(status: nat, reason: string, headers: seq<(string, string)>, body: seq<u8>) {
    predicate IsSuccess() {
      200 <= status < 300
    }
  }

  // ----------------------------------------------------------------- header parsing ---

  /** `find_header_end`: where the first CRLFCRLF starts. */
  function FindHeaderEnd(b: seq<u8>): (r: Option<nat>)
    ensures r.Some? ==> r.value + 4 <= |b|
    decreases |b|
  {
    if |b| < 4 then None
    else if b[..4] == CRLFCRLF then Some(0)
    else
      match FindHeaderEnd(b[1..])
      case None => None
      case Some(k) => Some(k + 1)
  }

  /** Version, status and reason of a status line. */
  function ParseStatusLine(line: string): Result<(nat, string), AiError> {
    var (version, rest) := match SplitOnce(line, ' ') case Some(p) => p case None => (line, "");
    var (status, reason) := match SplitOnce(rest, ' ') case Some(p) => p case None => (rest, "");
    match ParseUnsigned(status, 10, U16_LIMIT)
    case Some(code) => if "HTTP/" <= version then Ok((code, reason)) else Err(Unparseable("HTTP status line", line))
    case None => Err(Unparseable("HTTP status line", line))
  }

  function ParseHeaders(lines: seq<string>): seq<(string, string)> {
    if lines == [] then []
    else
      (match SplitOnce(lines[0], ':')
       case Some((name, value)) => [(Trim(name), Trim(value))]
       case None => []) + ParseHeaders(lines[1..])
  }

  /** The first header of that name, ignoring ASCII case. */
  function HeaderValue(headers: seq<(string, string)>, name: string): Option<string> {
    if headers == [] then None
    else if Lowercase(headers[0].0) == Lowercase(name) then Some(headers[0].1)
    else HeaderValue(headers[1..], name)
  }

  datatype Framing = ChunkedBody | Length(n: nat) | UntilClose

  datatype Head = Head(status: nat, reason: string, headers: seq<(string, string)>, framing: Framing)

  /** The bytes delivered before the stream closes or fails. */
  function Content(events: seq<ReadEvent>): seq<u8> {
    if events == [] || events[0].Fails? then [] else events[0].data + Content(events[1..])
  }

  function FramingOf(headers: seq<(string, string)>): Result<Framing, AiError> {
    var encoding := HeaderValue(headers, "Content-Encoding");
    if encoding.Some? && Lowercase(Trim(encoding.value)) != "identity" then
      Err(UnsupportedEncoding(Lowercase(Trim(encoding.value))))
    else
      var transfer := HeaderValue(headers, "Transfer-Encoding");
      var length := HeaderValue(headers, "Content-Length");
      if transfer.Some? && Contains(Lowercase(transfer.value), "chunked") then Ok(ChunkedBody)
      else if length.Some? && ParseUnsigned(Trim(length.value), 10, U64_LIMIT).Some? then
        Ok(Length(ParseUnsigned(Trim(length.value), 10, U64_LIMIT).value))
      else Ok(UntilClose)
  }

  function ParseHead(bytes: seq<u8>): Result<Head, AiError> {
    var lines := SplitCrlf(DecodeLossy(bytes));
    match ParseStatusLine(lines[0])
    case Err(e) => Err(e)
    case Ok((status, reason)) =>
      var headers := ParseHeaders(lines[1..]);
      match FramingOf(headers)
      case Err(e) => Err(e)
      case Ok(framing) => Ok(Head(status, reason, headers, framing))
  }

  // ------------------------------------------------- what the bytes alone determine ---

  /** How a body that has begun with `body` stands: decided, or in need of more. */
  function BodyVerdict(framing: Framing, body: seq<u8>): Option<Result<seq<u8>, AiError>> {
    match framing
    case ChunkedBody =>
      (match Decode(body)
       case Complete(decoded) => Some(Ok(decoded))
       case Malformed(line) => Some(Err(Unparseable("chunked response body", line)))
       case NeedMore => None)
    case Length(n) => if |body| >= n then Some(Ok(body[..n])) else None
    case UntilClose => None
  }

  /** What an undecided body becomes when the stream closes. */
  function BodyAtClose(framing: Framing, body: seq<u8>): Result<seq<u8>, AiError> {
    match framing
    case ChunkedBody => Ok(Arrived(body))
    case Length(_) => Err(Unreachable("reading the response body", "stream ended early"))
    case UntilClose => Ok(body)
  }

  /** The body of a stream of which `body` follows the header: closed cleanly when
      `end` is `None`, failed otherwise. */
  function BodyOf(framing: Framing, body: seq<u8>, end: Option<AiError>): Result<seq<u8>, AiError> {
    match BodyVerdict(framing, body)
    case Some(r) => r
    case None => match end case None => BodyAtClose(framing, body) case Some(e) => Err(e)
  }

  function WithBody(head: Head, body: Result<seq<u8>, AiError>): Result<Response, AiError> {
    match body
    case Ok(b) => Ok(Response(head.status, head.reason, head.headers, b))
    case Err(e) => Err(e)
  }

  /** The response of a stream that delivers `bytes` in all and then closes or fails. */
  function ResponseOf(bytes: seq<u8>, end: Option<AiError>): Result<Response, AiError> {
    match FindHeaderEnd(bytes)
    case None =>
      (match end
       case None => Err(Unreachable("reading the response headers",
                                    "the provider closed the connection before sending a complete response"))
       case Some(e) => Err(e))
    case Some(h) =>
      match ParseHead(bytes[..h])
      case Err(e) => Err(e)
      case Ok(head) => WithBody(head, BodyOf(head.framing, bytes[h + 4..], end))
  }

  /** Neither ceiling can be hit, however the bytes are cut. */
  predicate UnderCeilings(bytes: seq<u8>) {
    && |bytes| <= MAX_RESPONSE_BYTES
    && match FindHeaderEnd(bytes)
       case None => |bytes| <= MAX_HEADER_BYTES
       case Some(h) => h + 3 <= MAX_HEADER_BYTES
  }

  /** A ceiling was hit. */
  function TooLarge(context: string): AiError {
    Unparseable(context, "too large")
  }

  predicate IsTooLarge<T>(r: Result<T, AiError>) {
    r.Err? && r.error.Unparseable? && r.error.reason == "too large"
  }

  // ---------------------------------------------------------------- prefix stability ---

  lemma {:induction false} HeaderEndStable(x: seq<u8>, y: seq<u8>)
    requires FindHeaderEnd(x).Some?
    ensures FindHeaderEnd(x + y) == FindHeaderEnd(x)
    decreases |x|
  {
    assert (x + y)[..4] == x[..4];
    if x[..4] != CRLFCRLF {
      HeaderEndStable(x[1..], y);
      assert (x + y)[1..] == x[1..] + y;
    }
  }

  /** A header end that only later bytes complete starts in the last three bytes. */
  lemma {:induction false} HeaderEndLate(x: seq<u8>, y: seq<u8>)
    requires FindHeaderEnd(x).None? && FindHeaderEnd(x + y).Some?
    ensures |x| < FindHeaderEnd(x + y).value + 4
    decreases |x|
  {
    if |x| >= 4 {
      assert (x + y)[..4] == x[..4];
      assert (x + y)[1..] == x[1..] + y;
      HeaderEndLate(x[1..], y);
    }
  }

  lemma FourFrom(b: seq<u8>, k: nat)
    requires k + 5 <= |b|
    ensures b[1..][k..k + 4] == b[k + 1..k + 5]
  {
  }

  /** The header ends at the first CRLFCRLF. */
  lemma {:induction false} HeaderEndIsFirst(b: seq<u8>, k: nat)
    requires k + 4 <= |b| && b[k..k + 4] == CRLFCRLF
    ensures FindHeaderEnd(b).Some? && FindHeaderEnd(b).value <= k
    ensures b[FindHeaderEnd(b).value..FindHeaderEnd(b).value + 4] == CRLFCRLF
    decreases |b|
  {
    if b[..4] != CRLFCRLF {
      assert k > 0;
      FourFrom(b, k - 1);
      HeaderEndIsFirst(b[1..], k - 1);
      FourFrom(b, FindHeaderEnd(b[1..]).value);
    }
  }

  /** Once a body is decided, more bytes do not change it. */
  lemma BodyVerdictStable(framing: Framing, x: seq<u8>, y: seq<u8>)
    requires BodyVerdict(framing, x).Some?
    ensures BodyVerdict(framing, x + y) == BodyVerdict(framing, x)
  {
    match framing {
      case ChunkedBody => VerdictStable(x, y);
      case Length(n) => assert (x + y)[..n] == x[..n];
      case UntilClose =>
    }
  }

  lemma CeilingsOnPrefix(x: seq<u8>, y: seq<u8>)
    requires UnderCeilings(x + y)
    ensures |x| <= MAX_RESPONSE_BYTES
    ensures FindHeaderEnd(x).None? ==> |x| <= MAX_HEADER_BYTES
  {
    if FindHeaderEnd(x).None? && FindHeaderEnd(x + y).Some? {
      HeaderEndLate(x, y);
    }
  }

  // --------------------------------------------------------------------- the socket ---

  /** What a read returns: some bytes, or a failure (deadline, abort, I/O). */
  datatype ReadEvent = Bytes(data: seq<u8>) | Fails(error: AiError)

  /** The failure that ends the stream; `None` when it closes cleanly. */
  function EndOf(events: seq<ReadEvent>): Option<AiError> {
    if events == [] then None
    else if events[0].Fails? then Some(events[0].error)
    else EndOf(events[1..])
  }

  datatype ReadOutcome = More(data: seq<u8>) | Closed | Failed(error: AiError)

  class Socket {
    var pending: seq<ReadEvent>

    constructor (events: seq<ReadEvent>)
      ensures pending == events
    {
      pending := events;
    }

    /** `read_more` into a buffer that holds `held` bytes. */
    method ReadMore(held: nat, context: string) returns (r: ReadOutcome)
      modifies this
      ensures r.Closed? ==> old(pending) == []
      ensures r.More? ==> old(pending) != [] && old(pending)[0] == Bytes(r.data)
                          && held + |r.data| <= MAX_RESPONSE_BYTES
      ensures r.Failed? ==>
                && old(pending) != []
                && match old(pending)[0]
                   case Bytes(d) => held + |d| > MAX_RESPONSE_BYTES && r.error == TooLarge(context)
                   case Fails(e) => r.error == e
      ensures old(pending) != [] ==> pending == old(pending)[1..]
      ensures old(pending) == [] ==> pending == []
    {
      if pending == [] {
        return Closed;
      }
      var event := pending[0];
      pending := pending[1..];
      match event {
        case Fails(e) => return Failed(e);
        case Bytes(data) =>
          if held + |data| > MAX_RESPONSE_BYTES {
            return Failed(TooLarge(context));
          }
          return More(data);
      }
    }
  }

  /** The `on_body` callback: it sees every increment in order, and `verdict` says when
      it answers with an error. */
  class BodySink {
    var log: seq<seq<u8>>
    const verdict: seq<seq<u8>> -> Option<AiError>

    constructor (verdict: seq<seq<u8>> -> Option<AiError>)
      ensures this.verdict == verdict && log == []
    {
      this.verdict := verdict;
      log := [];
    }

    method Accept(bytes: seq<u8>) returns (r: Option<AiError>)
      modifies this
      ensures log == old(log) + [bytes] && r == verdict(log)
    {
      log := log + [bytes];
      return verdict(log);
    }
  }

  // ------------------------------------------------------------------ reading a body ---

  /** Every increment after the first `from` was accepted. */
  ghost predicate Accepted(verdict: seq<seq<u8>> -> Option<AiError>, log: seq<seq<u8>>, from: nat) {
    forall n :: from < n <= |log| ==> verdict(log[..n]).None?
  }

  /** `last` is the first increment after `from` that was refused. */
  ghost predicate Refused(verdict: seq<seq<u8>> -> Option<AiError>, log: seq<seq<u8>>, from: nat) {
    |log| > from && verdict(log).Some? && Accepted(verdict, log[..|log| - 1], from)
  }

  /** The result of reading a body of which `total` is everything the stream delivers
      and `seen` what the callback was given: reading goes on until the bytes decide
      the body or the stream ends, and the result is that of all the bytes. */
  ghost predicate IsBodyRead(framing: Framing, total: seq<u8>, end: Option<AiError>, seen: seq<u8>,
                             r: Result<seq<u8>, AiError>)
  {
    && seen <= total
    && (|| (r == BodyOf(framing, total, end) && (seen == total || BodyVerdict(framing, seen).Some?))
        || (|total| > MAX_RESPONSE_BYTES && IsTooLarge(r)))
  }

  lemma Decided(framing: Framing, body: seq<u8>, more: seq<u8>, end: Option<AiError>)
    requires BodyVerdict(framing, body).Some?
    ensures IsBodyRead(framing, body + more, end, body, BodyVerdict(framing, body).value)
  {
    hide BodyVerdict;
    BodyVerdictStable(framing, body, more);
  }

  datatype Growth = Grown(body: seq<u8>) | AtEnd | Stopped(error: AiError)

  /** The progress of a read: `body` is what arrived and what the callback accepted,
      and together with what the socket still holds it is the whole stream. */
  ghost predicate InProgress(socket: Socket, sink: BodySink, from: nat, body: seq<u8>, total: seq<u8>,
                             end: Option<AiError>)
    reads socket, sink
  {
    && body + Content(socket.pending) == total && EndOf(socket.pending) == end
    && Flatten(sink.log) == body && Accepted(sink.verdict, sink.log, from)
    && from <= |sink.log|
  }

  /** How a read that ended in `r` left the callback. */
  ghost predicate ReadEnded(sink: BodySink, from: nat, framing: Framing, total: seq<u8>, end: Option<AiError>,
                            r: Result<seq<u8>, AiError>)
    reads sink
  {
    if Refused(sink.verdict, sink.log, from) then r == Err(sink.verdict(sink.log).value)
    else Accepted(sink.verdict, sink.log, from) && IsBodyRead(framing, total, end, Flatten(sink.log), r)
  }

  lemma EndsInFailure(framing: Framing, body: seq<u8>, events: seq<ReadEvent>, e: AiError)
    requires BodyVerdict(framing, body).None? && events != []
    requires match events[0]
             case Bytes(d) => |body| + |d| > MAX_RESPONSE_BYTES && e == TooLarge("reading the response body")
             case Fails(f) => e == f
    ensures IsBodyRead(framing, body + Content(events), EndOf(events), body, Err(e))
  {
    hide BodyVerdict;
    if events[0].Fails? {
      assert body + [] == body;
    }
  }

  lemma NotRefused(verdict: seq<seq<u8>> -> Option<AiError>, log: seq<seq<u8>>, from: nat)
    requires Accepted(verdict, log, from)
    ensures !Refused(verdict, log, from)
  {
    assert log[..|log|] == log;
  }

  lemma AcceptedAppend(verdict: seq<seq<u8>> -> Option<AiError>, log: seq<seq<u8>>, from: nat, last: seq<u8>)
    requires Accepted(verdict, log, from) && from <= |log|
    ensures if verdict(log + [last]).Some? then Refused(verdict, log + [last], from)
            else Accepted(verdict, log + [last], from)
  {
    var grown := log + [last];
    assert grown[..|log|] == log;
    forall n | from < n <= |log| ensures verdict(grown[..n]).None? {
      assert grown[..n] == log[..n];
    }
    assert grown[..|grown|] == grown;
  }

  /** Read once and hand the increment to the callback. */
  method Grow(socket: Socket, sink: BodySink, ghost from: nat, ghost framing: Framing, body: seq<u8>,
              ghost total: seq<u8>, ghost end: Option<AiError>)
    returns (r: Growth)
    requires InProgress(socket, sink, from, body, total, end) && BodyVerdict(framing, body).None?
    modifies socket, sink
    ensures old(sink.log) <= sink.log
    ensures r.Grown? ==> InProgress(socket, sink, from, r.body, total, end) && |socket.pending| < |old(socket.pending)|
    ensures r.AtEnd? ==> body == total && end == None && sink.log == old(sink.log)
    ensures r.Stopped? ==> ReadEnded(sink, from, framing, total, end, Err(r.error))
  {
    hide BodyVerdict, BodyOf;
    var outcome := socket.ReadMore(|body|, "reading the response body");
    match outcome {
      case Closed =>
        assert body + [] == body;
        return AtEnd;
      case Failed(e) =>
        NotRefused(sink.verdict, sink.log, from);
        EndsInFailure(framing, body, old(socket.pending), e);
        return Stopped(e);
      case More(data) =>
        Associative(body, data, Content(socket.pending));
        if data != [] {
          FlattenAppend(sink.log, data);
          var refusal := sink.Accept(data);
          AcceptedAppend(sink.verdict, old(sink.log), from, data);
          if refusal.Some? {
            return Stopped(refusal.value);
          }
        } else {
          assert body + data == body;
        }
        return Grown(body + data);
    }
  }

  lemma ReadDecided(socket: Socket, sink: BodySink, from: nat, framing: Framing, body: seq<u8>,
                    total: seq<u8>, end: Option<AiError>)
    requires InProgress(socket, sink, from, body, total, end) && BodyVerdict(framing, body).Some?
    ensures ReadEnded(sink, from, framing, total, end, BodyVerdict(framing, body).value)
  {
    hide BodyVerdict, IsBodyRead;
    NotRefused(sink.verdict, sink.log, from);
    Decided(framing, body, Content(socket.pending), end);
  }

  lemma ReadClosed(sink: BodySink, from: nat, framing: Framing, body: seq<u8>)
    requires Accepted(sink.verdict, sink.log, from) && Flatten(sink.log) == body
    requires BodyVerdict(framing, body).None?
    ensures ReadEnded(sink, from, framing, body, None, BodyAtClose(framing, body))
  {
    hide BodyVerdict, BodyAtClose;
    NotRefused(sink.verdict, sink.log, from);
  }

  /** The three ways `read_response_with` reads a body. */
  method ReadBody(socket: Socket, sink: BodySink, ghost from: nat, framing: Framing, first: seq<u8>,
                  ghost total: seq<u8>, ghost end: Option<AiError>)
    returns (r: Result<seq<u8>, AiError>)
    requires InProgress(socket, sink, from, first, total, end)
    modifies socket, sink
    ensures old(sink.log) <= sink.log
    ensures ReadEnded(sink, from, framing, total, end, r)
  {
    hide Refused, ReadEnded, Decode, Arrived;
    var body := first;
    while true
      invariant InProgress(socket, sink, from, body, total, end) && old(sink.log) <= sink.log
      decreases |socket.pending|
    {
      // Has the framing seen enough?
      match framing {
        case ChunkedBody =>
          var state := DecodeChunked(body);
          match state {
            case Complete(decoded) =>
              ReadDecided(socket, sink, from, framing, body, total, end);
              return Ok(decoded);
            case Malformed(line) =>
              ReadDecided(socket, sink, from, framing, body, total, end);
              return Err(Unparseable("chunked response body", line));
            case NeedMore =>
          }
        case Length(n) =>
          if |body| >= n {
            ReadDecided(socket, sink, from, framing, body, total, end);
            return Ok(body[..n]);
          }
        case UntilClose =>
      }
      assert BodyVerdict(framing, body).None?;
      var growth := Grow(socket, sink, from, framing, body, total, end);
      match growth {
        case Stopped(e) =>
          return Err(e);
        case Grown(more) =>
          body := more;
        case AtEnd =>
          ReadClosed(sink, from, framing, body);
          match framing {
            case ChunkedBody =>
              var partial := DecodeChunkedPartial(body);
              return Ok(partial);
            case Length(_) =>
              return Err(Unreachable("reading the response body", "stream ended early"));
            case UntilClose =>
              return Ok(body);
          }
      }
    }
  }

  // -------------------------------------------------------------- reading a response ---

  /** The callback is given the bytes after the header, all of them or as many as it
      takes to decide the body. */
  ghost predicate SeenIsBody(all: seq<u8>, seen: seq<u8>) {
    match FindHeaderEnd(all)
    case None => seen == []
    case Some(h) =>
      match ParseHead(all[..h])
      case Err(_) => seen == []
      case Ok(head) => seen <= all[h + 4..] && (seen == all[h + 4..] || BodyVerdict(head.framing, seen).Some?)
  }

  /** The result of reading a stream that delivers `all` and then ends in `end`, when the
      callback was given `seen` and refused none of it. */
  ghost predicate IsResponseRead(all: seq<u8>, end: Option<AiError>, seen: seq<u8>, r: Result<Response, AiError>) {
    || (!UnderCeilings(all) && IsTooLarge(r))
    || (r == ResponseOf(all, end) && SeenIsBody(all, seen))
  }

  /** How reading a stream may end, `log` being the increments the callback was given:
      with its refusal of the last one, or with the response of the bytes. */
  ghost predicate ResponseEnded(verdict: seq<seq<u8>> -> Option<AiError>, log: seq<seq<u8>>,
                                all: seq<u8>, end: Option<AiError>, r: Result<Response, AiError>)
  {
    if Refused(verdict, log, 0) then r == Err(verdict(log).value)
    else Accepted(verdict, log, 0) && IsResponseRead(all, end, Flatten(log), r)
  }

  /** Without chunked framing and without bytes beyond the declared length, the callback
      is given the whole body. */
  lemma SeenIsWholeBody(all: seq<u8>, h: nat, head: Head, seen: seq<u8>)
    requires FindHeaderEnd(all) == Some(h) && ParseHead(all[..h]) == Ok(head)
    requires SeenIsBody(all, seen)
    requires head.framing.UntilClose? || (head.framing.Length? && |all[h + 4..]| <= head.framing.n)
    ensures seen == all[h + 4..]
  {
    hide FindHeaderEnd, ParseHead;
  }

  lemma CeilingHit(buf: seq<u8>, more: seq<u8>)
    requires FindHeaderEnd(buf).None?
    ensures |buf| > MAX_HEADER_BYTES || |buf + more| > MAX_RESPONSE_BYTES ==> !UnderCeilings(buf + more)
  {
    if UnderCeilings(buf + more) {
      CeilingsOnPrefix(buf, more);
    }
  }

  /** The header block, and what was read beyond it. */
  method ReadHeader(socket: Socket, ghost all: seq<u8>, ghost end: Option<AiError>)
    returns (r: Result<(nat, seq<u8>), AiError>)
    requires all == Content(socket.pending) && end == EndOf(socket.pending)
    modifies socket
    ensures r.Ok? ==> var (h, buf) := r.value;
                      && h + 4 <= |buf| && FindHeaderEnd(all) == Some(h) && all[..h] == buf[..h]
                      && buf + Content(socket.pending) == all && EndOf(socket.pending) == end
    ensures r.Err? ==> IsResponseRead(all, end, [], Err(r.error))
  {
    hide FindHeaderEnd;
    var buf: seq<u8> := [];
    assert [] + all == all;
    while true
      invariant buf + Content(socket.pending) == all && EndOf(socket.pending) == end
      decreases |socket.pending|
    {
      var found := FindHeaderEnd(buf);
      if found.Some? {
        HeaderEndStable(buf, Content(socket.pending));
        return Ok((found.value, buf));
      }
      if |buf| > MAX_HEADER_BYTES {
        CeilingHit(buf, Content(socket.pending));
        return Err(TooLarge("response headers"));
      }
      var outcome := socket.ReadMore(|buf|, "reading the response headers");
      assert buf + [] == buf;
      match outcome {
        case Closed =>
          return Err(Unreachable("reading the response headers",
                                 "the provider closed the connection before sending a complete response"));
        case Failed(e) =>
          if all != buf {
            CeilingHit(buf, all[|buf|..]);
          }
          return Err(e);
        case More(data) =>
          Associative(buf, data, Content(socket.pending));
          buf := buf + data;
      }
    }
  }

  lemma EndsBeforeBody(verdict: seq<seq<u8>> -> Option<AiError>, all: seq<u8>, end: Option<AiError>,
                       r: Result<Response, AiError>)
    requires IsResponseRead(all, end, [], r)
    ensures ResponseEnded(verdict, [], all, end, r)
  {
    hide IsResponseRead;
  }

  lemma HeadRefused(all: seq<u8>, h: nat, end: Option<AiError>, e: AiError)
    requires FindHeaderEnd(all) == Some(h) && ParseHead(all[..h]) == Err(e)
    ensures IsResponseRead(all, end, [], Err(e))
  {
    hide FindHeaderEnd, ParseHead, UnderCeilings;
  }

  lemma EndsInRefusal(verdict: seq<seq<u8>> -> Option<AiError>, log: seq<seq<u8>>, all: seq<u8>, end: Option<AiError>)
    requires Refused(verdict, log, 0)
    ensures verdict(log).Some? && ResponseEnded(verdict, log, all, end, Err(verdict(log).value))
  {
    hide IsResponseRead;
  }

  lemma NothingRefused(verdict: seq<seq<u8>> -> Option<AiError>)
    ensures Accepted(verdict, [], 0) && !Refused(verdict, [], 0) && Flatten<u8>([]) == []
  {
  }

  lemma ResponseFromBody(sink: BodySink, head: Head, h: nat, all: seq<u8>, end: Option<AiError>, read: Result<seq<u8>,
                         AiError>)
    requires FindHeaderEnd(all) == Some(h) && ParseHead(all[..h]) == Ok(head)
    requires ReadEnded(sink, 0, head.framing, all[h + 4..], end, read)
    ensures ResponseEnded(sink.verdict, sink.log, all, end, WithBody(head, read))
  {
    hide FindHeaderEnd, ParseHead, BodyVerdict, BodyOf;
  }

  /** `read_response_with`.  Whatever way the socket cuts the stream, the response is the
      one its bytes determine, and the callback saw exactly the body bytes consumed. */
  method ReadResponse(socket: Socket, sink: BodySink) returns (r: Result<Response, AiError>)
    requires sink.log == []
    modifies socket, sink
    ensures ResponseEnded(sink.verdict, sink.log, Content(old(socket.pending)), EndOf(old(socket.pending)), r)
  {
    hide FindHeaderEnd, ParseHead, BodyVerdict, BodyOf, UnderCeilings, IsBodyRead, Content, EndOf, ResponseEnded,
         IsResponseRead, SeenIsBody, Refused, Accepted, ReadEnded, Flatten;
    ghost var all, end := Content(socket.pending), EndOf(socket.pending);
    NothingRefused(sink.verdict);
    var header := ReadHeader(socket, all, end);
    if header.Err? {
      EndsBeforeBody(sink.verdict, all, end, Err(header.error));
      return Err(header.error);
    }
    var (h, buf) := header.value;
    var parsed := ParseHead(buf[..h]);
    if parsed.Err? {
      HeadRefused(all, h, end, parsed.error);
      EndsBeforeBody(sink.verdict, all, end, Err(parsed.error));
      return Err(parsed.error);
    }
    var head := parsed.value;
    var body := buf[h + 4..];
    ghost var total := all[h + 4..];
    assert total == body + Content(socket.pending);
    if body != [] {
      AcceptedAppend(sink.verdict, sink.log, 0, body);
      FlattenAppend(sink.log, body);
      assert [] + body == body;
      var refusal := sink.Accept(body);
      if refusal.Some? {
        EndsInRefusal(sink.verdict, sink.log, all, end);
        return Err(refusal.value);
      }
    }
    var read := ReadBody(socket, sink, 0, head.framing, body, total, end);
    ResponseFromBody(sink, head, h, all, end, read);
    return WithBody(head, read);
  }
}
