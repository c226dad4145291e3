/**
 What an HTTP message means to the reader of `http.rs` (RFC 9112 sections 2.1, 5, 6.3 and
 7.1): from a status line, header fields and body bytes, as a server writes them, to the
 response.
 */
module HttpMessages {
  import opened Wrappers
  import opened Words
  import opened Text
  import opened Seqs
  import opened Chunked
  import opened Http

  // ------------------------------------------------------------------- the writing side ---

  /** A header field with the whitespace around its value. */
  datatype OutField = OutField(name: string, before: string, value: string, after: string) {
    function Line(): string {
      name + ":" + before + value + after
    }

    predicate Valid() {
      && ':' !in name && '\r' !in Line()
      && Tight(name) && Tight(value) && Blank(before) && Blank(after)
    }
  }

  function FieldLines(fields: seq<OutField>): (lines: seq<string>)
    ensures |lines| == |fields| && forall k :: 0 <= k < |lines| ==> lines[k] == fields[k].Line()
  {
    if fields == [] then [] else [fields[0].Line()] + FieldLines(fields[1..])
  }

  datatype OutHead = OutHead(version: string, code: nat, reason: string, fields: seq<OutField>) {
    function StatusLine(): string {
      version + " " + DecimalDigits(code) + if reason == "" then "" else " " + reason
    }

    /** It is lines of text, the first of three parts. */
    predicate Written() {
      && version != "" && ' ' !in version && '\r' !in version && '\r' !in reason
      && forall k :: 0 <= k < |fields| ==> fields[k].Valid()
    }

    predicate Valid() {
      Written() && "HTTP/" <= version && code < 0x1_0000
    }

    function Text(): string {
      Join([StatusLine()] + FieldLines(fields), "\r\n")
    }
  }

  /** Names and values, as the response reports them. */
  function Headers(fields: seq<OutField>): seq<(string, string)> {
    if fields == [] then [] else [(fields[0].name, fields[0].value)] + Headers(fields[1..])
  }

  function Message(h: OutHead, body: seq<u8>): seq<u8> {
    Encode(h.Text()) + CRLFCRLF + body
  }

  // --------------------------------------------------------------------- header blocks ---

  lemma {:induction false} OneLine(s: string)
    requires '\r' !in s
    ensures SplitCrlf(s) == [s]
    decreases |s|
  {
    if s != "" {
      OneLine(s[1..]);
      assert [s[0]] + s[1..] == s;
    }
  }

  lemma {:induction false} FirstLine(line: string, rest: string)
    requires '\r' !in line
    ensures SplitCrlf(line + "\r\n" + rest) == [line] + SplitCrlf(rest)
    decreases |line|
  {
    var s := line + "\r\n" + rest;
    if line == "" {
      assert s[2..] == rest;
    } else {
      assert s[1..] == line[1..] + "\r\n" + rest;
      FirstLine(line[1..], rest);
      assert [line[0]] + line[1..] == line;
    }
  }

  predicate AllLines(lines: seq<string>) {
    forall k :: 0 <= k < |lines| ==> lines[k] != "" && '\r' !in lines[k]
  }

  /** Lines without a carriage return come apart where they were joined. */
  lemma {:induction false} SplitJoined(lines: seq<string>)
    requires lines != [] && AllLines(lines)
    ensures SplitCrlf(Join(lines, "\r\n")) == lines
    decreases |lines|
  {
    if |lines| == 1 {
      OneLine(lines[0]);
    } else {
      SplitJoined(lines[1..]);
      FirstLine(lines[0], Join(lines[1..], "\r\n"));
      assert lines == [lines[0]] + lines[1..];
    }
  }

  /** No blank line starts inside the block, and the block does not start with one. */
  ghost predicate OneBlock(block: seq<u8>) {
    && (block != [] ==> block[0] != CR)
    && forall k :: 0 <= k < |block| && block[k] == CR ==> k + 2 < |block| && block[k + 2] != CR
  }

  lemma OneBreak(a: seq<u8>, b: seq<u8>)
    requires a != [] && CR !in a && b != [] && OneBlock(b)
    ensures OneBlock(a + CRLF + b)
  {
    var c := a + CRLF + b;
    assert forall k :: 0 <= k < |a| ==> c[k] == a[k] && a[k] in a;
    assert forall k :: |a| + 2 <= k < |c| ==> c[k] == b[k - |a| - 2];
  }

  lemma NoBreak(a: seq<u8>)
    requires CR !in a
    ensures OneBlock(a)
  {
  }

  lemma LineBytes(line: string)
    requires line != "" && '\r' !in line
    ensures CR !in Encode(line) && Encode(line) != []
  {
    EncodedByte(line, CR);
  }

  lemma LineEnd()
    ensures Encode("\r\n") == CRLF
  {
    assert "\r\n"[1..] == "\n" && "\n"[1..] == "";
    assert Encode("\n") == [LF];
  }

  lemma {:induction false} JoinedIsOneBlock(lines: seq<string>)
    requires lines != [] && AllLines(lines)
    ensures var b := Encode(Join(lines, "\r\n")); OneBlock(b) && b != []
    decreases |lines|
  {
    hide Encode, OneBlock;
    LineBytes(lines[0]);
    if |lines| == 1 {
      NoBreak(Encode(lines[0]));
    } else {
      var rest := Join(lines[1..], "\r\n");
      JoinedIsOneBlock(lines[1..]);
      EncodeConcat(lines[0] + "\r\n", rest);
      EncodeConcat(lines[0], "\r\n");
      LineEnd();
      OneBreak(Encode(lines[0]), Encode(rest));
    }
  }

  lemma {:induction false} HeaderAt(block: seq<u8>, body: seq<u8>)
    requires forall k :: 0 <= k < |block| && block[k] == CR ==> k + 2 < |block| && block[k + 2] != CR
    ensures FindHeaderEnd(block + CRLFCRLF + body) == Some(|block|)
    decreases |block|
  {
    var b := block + CRLFCRLF + body;
    if block == [] {
      assert b[..4] == CRLFCRLF;
    } else {
      assert b[0] == block[0] && (block[0] == CR ==> b[2] == block[2]);
      assert b[..4][0] != CRLFCRLF[0] || b[..4][2] != CRLFCRLF[2];
      assert b[1..] == block[1..] + CRLFCRLF + body;
      assert forall k :: 0 <= k < |block| - 1 ==> block[1..][k] == block[k + 1];
      HeaderAt(block[1..], body);
    }
  }

  // ------------------------------------------------------------------ lines of a block ---

  lemma {:induction false} SplitOnceAt(before: string, c: char, after: string)
    requires c !in before
    ensures SplitOnce(before + [c] + after, c) == Some((before, after))
  {
    var s := before + [c] + after;
    if before == "" {
      assert s[1..] == after;
    } else {
      assert s[1..] == before[1..] + [c] + after;
      SplitOnceAt(before[1..], c, after);
      assert [before[0]] + before[1..] == before;
    }
  }

  lemma {:induction false} NoneToSplit(s: string, c: char)
    requires c !in s
    ensures SplitOnce(s, c) == None
  {
    if s != "" {
      NoneToSplit(s[1..], c);
    }
  }

  lemma StatusLineSplits(h: OutHead)
    requires h.Written()
    ensures var rest := DecimalDigits(h.code) + if h.reason == "" then "" else " " + h.reason;
            && SplitOnce(h.StatusLine(), ' ') == Some((h.version, rest))
            && SplitOnce(rest, ' ') == if h.reason == "" then None else Some((DecimalDigits(h.code), h.reason))
    ensures h.StatusLine() != "" && '\r' !in h.StatusLine()
  {
    hide SplitOnce, DecimalDigits;
    var digits := DecimalDigits(h.code);
    var rest := digits + if h.reason == "" then "" else " " + h.reason;
    assert h.StatusLine() == h.version + [' '] + rest;
    SplitOnceAt(h.version, ' ', rest);
    if h.reason == "" {
      assert rest == digits;
      NoneToSplit(digits, ' ');
    } else {
      assert rest == digits + [' '] + h.reason;
      SplitOnceAt(digits, ' ', h.reason);
    }
  }

  lemma StatusLineParses(h: OutHead)
    requires h.Valid()
    ensures ParseStatusLine(h.StatusLine()) == Ok((h.code, h.reason))
  {
    hide SplitOnce, ParseUnsigned, DecimalDigits;
    StatusLineSplits(h);
    ParseDecimal(h.code, U16_LIMIT);
    assert DecimalDigits(h.code) + "" == DecimalDigits(h.code);
  }

  lemma FieldParses(f: OutField)
    requires f.Valid()
    ensures SplitOnce(f.Line(), ':') == Some((f.name, f.before + f.value + f.after))
    ensures Trim(f.name) == f.name && Trim(f.before + f.value + f.after) == f.value
    ensures f.Line() != "" && '\r' !in f.Line()
  {
    hide Trim, SplitOnce;
    assert f.Line() == f.name + [':'] + (f.before + f.value + f.after);
    SplitOnceAt(f.name, ':', f.before + f.value + f.after);
    TrimPadded(f.before, f.value, f.after);
    TrimPadded("", f.name, "");
    assert "" + f.name + "" == f.name;
  }

  lemma {:induction false} FieldsParse(fields: seq<OutField>)
    requires forall k :: 0 <= k < |fields| ==> fields[k].Valid()
    ensures ParseHeaders(FieldLines(fields)) == Headers(fields)
  {
    hide Trim, SplitOnce, OutField.Line;
    if fields != [] {
      FieldParses(fields[0]);
      FieldsParse(fields[1..]);
      assert FieldLines(fields)[1..] == FieldLines(fields[1..]);
    }
  }

  lemma DecodedText(s: string)
    ensures DecodeLossy(Encode(s)) == s
  {
    DecodeEncoded(s, []);
    hide Encode;
    assert Encode(s) + [] == Encode(s) && s + "" == s;
  }

  lemma LinesAreSound(h: OutHead)
    requires h.Written()
    ensures var lines := [h.StatusLine()] + FieldLines(h.fields);
            AllLines(lines)
  {
    hide OutHead.StatusLine, OutField.Line, OutField.Valid;
    StatusLineSplits(h);
    forall k | 0 <= k < |h.fields| ensures h.fields[k].Line() != "" && '\r' !in h.fields[k].Line() {
      FieldParses(h.fields[k]);
    }
  }

  /** A header block parses to what was written, in every field, and its framing is that of
      its fields. */
  lemma HeadParses(h: OutHead)
    requires h.Valid()
    ensures ParseHead(Encode(h.Text()))
         == match FramingOf(Headers(h.fields))
            case Ok(framing) => Ok(Head(h.code, h.reason, Headers(h.fields), framing))
            case Err(e) => Err(e)
    ensures OneBlock(Encode(h.Text()))
  {
    hide Encode, DecodeLossy, SplitCrlf, ParseStatusLine, ParseHeaders, FramingOf, Join, OutHead.StatusLine;
    var lines := [h.StatusLine()] + FieldLines(h.fields);
    LinesAreSound(h);
    DecodedText(h.Text());
    SplitJoined(lines);
    JoinedIsOneBlock(lines);
    StatusLineParses(h);
    FieldsParse(h.fields);
    assert lines[0] == h.StatusLine() && lines[1..] == FieldLines(h.fields);
  }

  // -------------------------------------------------------- which fields frame the body ---

  ghost predicate SameLetter(a: char, b: char) {
    || a == b
    || ('A' <= a <= 'Z' && b as int == a as int + 32)
    || ('A' <= b <= 'Z' && a as int == b as int + 32)
  }

  /** The same text, ASCII case aside. */
  ghost predicate Same(a: string, b: string) {
    |a| == |b| && forall k :: 0 <= k < |a| ==> SameLetter(a[k], b[k])
  }

  lemma SameIff(a: string, b: string)
    ensures Same(a, b) <==> Lowercase(a) == Lowercase(b)
  {
    LowercaseAt(a);
    LowercaseAt(b);
    hide Lowercase;
    if Lowercase(a) == Lowercase(b) {
      forall k | 0 <= k < |a| ensures SameLetter(a[k], b[k]) {
        assert Lowercase(a)[k] == Lowercase(b)[k];
      }
    }
  }

  /** The first field of that name, or the number of fields. */
  ghost function FirstOf(fields: seq<OutField>, name: string): (k: nat)
    ensures k <= |fields| && (k < |fields| ==> Same(fields[k].name, name))
    ensures forall j :: 0 <= j < k ==> !Same(fields[j].name, name)
  {
    if fields == [] || Same(fields[0].name, name) then 0 else 1 + FirstOf(fields[1..], name)
  }

  /** A lookup finds the first field of the name, whatever the case of its letters. */
  lemma {:induction false} LookupIsFirst(fields: seq<OutField>, name: string)
    ensures var k := FirstOf(fields, name);
            HeaderValue(Headers(fields), name) == if k < |fields| then Some(fields[k].value) else None
  {
    hide Same, Lowercase;
    if fields != [] {
      SameIff(fields[0].name, name);
      LookupIsFirst(fields[1..], name);
    }
  }

  ghost predicate MentionsAt(s: string, part: string, k: nat) {
    k + |part| <= |s| && Same(s[k..k + |part|], part)
  }

  /** `part` occurs in `s`, ASCII case aside. */
  ghost predicate Mentions(s: string, part: string) {
    exists k: nat :: MentionsAt(s, part, k)
  }

  lemma {:induction false} SliceLowered(s: string, n: nat)
    requires n <= |s|
    ensures Lowercase(s[..n]) == Lowercase(s)[..n]
  {
    if n > 0 {
      SliceLowered(s[1..], n - 1);
      assert s[..n][1..] == s[1..][..n - 1];
    }
  }

  lemma FrontIsSame(s: string, part: string)
    requires Lowercase(part) == part
    ensures part <= Lowercase(s) <==> MentionsAt(s, part, 0)
  {
    LowercaseAt(s);
    hide Lowercase, Same;
    if |part| <= |s| {
      SliceLowered(s, |part|);
      SameIff(s[..|part|], part);
      assert s[0..|part|] == s[..|part|];
    }
  }

  lemma SliceOfRest(s: string, k: nat, n: nat)
    requires k + 1 + n <= |s|
    ensures s[1..][k..k + n] == s[k + 1..k + 1 + n]
  {
  }

  lemma MentionsStep(s: string, part: string)
    requires s != ""
    ensures Mentions(s, part) <==> MentionsAt(s, part, 0) || Mentions(s[1..], part)
  {
    hide Same;
    forall k: nat ensures MentionsAt(s, part, k + 1) <==> MentionsAt(s[1..], part, k) {
      if k + 1 + |part| <= |s| {
        SliceOfRest(s, k, |part|);
      }
    }
    if Mentions(s, part) {
      var k: nat :| MentionsAt(s, part, k);
      assert k > 0 ==> MentionsAt(s, part, k - 1 + 1) && MentionsAt(s[1..], part, k - 1);
    }
  }

  lemma {:induction false} MentionsIff(s: string, part: string)
    requires Lowercase(part) == part
    ensures Mentions(s, part) <==> Contains(Lowercase(s), part)
    decreases |s|
  {
    FrontIsSame(s, part);
    hide Same;
    if s == "" {
      assert Mentions(s, part) <==> MentionsAt(s, part, 0);
    } else {
      hide Mentions, MentionsAt;
      MentionsIff(s[1..], part);
      MentionsStep(s, part);
      assert Lowercase(s)[1..] == Lowercase(s[1..]);
    }
  }

  /** The content is not encoded. */
  ghost predicate Unencoded(fields: seq<OutField>) {
    var k := FirstOf(fields, "Content-Encoding");
    k == |fields| || Same(fields[k].value, "identity")
  }

  /** The first `Transfer-Encoding` names chunked, alone or among others. */
  ghost predicate SaysChunked(fields: seq<OutField>) {
    var k := FirstOf(fields, "Transfer-Encoding");
    k < |fields| && Mentions(fields[k].value, "chunked")
  }

  /** The first `Content-Length` is the number `n`. */
  ghost predicate SaysLength(fields: seq<OutField>, n: nat) {
    var k := FirstOf(fields, "Content-Length");
    n < U64_LIMIT && k < |fields| && fields[k].value == DecimalDigits(n)
  }

  predicate Numeric(s: string) {
    s != "" && forall i :: 0 <= i < |s| ==> '0' <= s[i] <= '9' || s[i] == '+'
  }

  /** There is no `Content-Length`, or the first one is no number. */
  ghost predicate SaysNoLength(fields: seq<OutField>) {
    var k := FirstOf(fields, "Content-Length");
    k == |fields| || !Numeric(fields[k].value)
  }

  lemma TightIsTrimmed(s: string)
    requires Tight(s)
    ensures Trim(s) == s
  {
    hide Trim;
    TrimPadded("", s, "");
    assert "" + s + "" == s;
  }

  lemma ValuesAreTrimmed(fields: seq<OutField>)
    requires forall k :: 0 <= k < |fields| ==> fields[k].Valid()
    ensures forall k :: 0 <= k < |fields| ==> Trim(fields[k].value) == fields[k].value
  {
    hide Trim;
    forall k | 0 <= k < |fields| ensures Trim(fields[k].value) == fields[k].value {
      assert fields[k].Valid();
      TightIsTrimmed(fields[k].value);
    }
  }

  lemma Constants()
    ensures Lowercase("identity") == "identity" && Lowercase("chunked") == "chunked"
  {
    hide Lowercase;
    AlreadyLower("identity");
    AlreadyLower("chunked");
  }

  lemma NoNumber(s: string)
    requires !Numeric(s)
    ensures ParseUnsigned(s, 10, U64_LIMIT) == None
  {
    var digits := if |s| > 1 && s[0] == '+' then s[1..] else s;
    if s != "" {
      var i :| 0 <= i < |s| && !('0' <= s[i] <= '9') && s[i] != '+';
      assert s[i] in digits;
      assert DigitValue(s[i]).None? || DigitValue(s[i]).value >= 10;
    }
  }

  /** Which fields give which framing: chunked whatever length is declared, then the length,
      then the end of the stream; and any other content encoding is refused. */
  lemma FramingIs(fields: seq<OutField>, n: nat)
    requires forall k :: 0 <= k < |fields| ==> fields[k].Valid()
    ensures !Unencoded(fields) ==>
              FramingOf(Headers(fields))
              == Err(UnsupportedEncoding(Lowercase(fields[FirstOf(fields, "Content-Encoding")].value)))
    ensures Unencoded(fields) && SaysChunked(fields) ==> FramingOf(Headers(fields)) == Ok(ChunkedBody)
    ensures Unencoded(fields) && !SaysChunked(fields) && SaysLength(fields, n) ==>
              FramingOf(Headers(fields)) == Ok(Length(n))
    ensures Unencoded(fields) && !SaysChunked(fields) && SaysNoLength(fields) ==>
              FramingOf(Headers(fields)) == Ok(UntilClose)
  {
    hide HeaderValue, Headers, ParseUnsigned, Trim, Lowercase, Contains, Same, Mentions, Numeric, DecimalDigits;
    Constants();
    ValuesAreTrimmed(fields);
    LookupIsFirst(fields, "Content-Encoding");
    LookupIsFirst(fields, "Transfer-Encoding");
    LookupIsFirst(fields, "Content-Length");
    var encoding, transfer := FirstOf(fields, "Content-Encoding"), FirstOf(fields, "Transfer-Encoding");
    var length := FirstOf(fields, "Content-Length");
    if encoding < |fields| {
      SameIff(fields[encoding].value, "identity");
    }
    if transfer < |fields| {
      MentionsIff(fields[transfer].value, "chunked");
    }
    if SaysLength(fields, n) {
      ParseDecimal(n, U64_LIMIT);
    }
    if length < |fields| && !Numeric(fields[length].value) {
      NoNumber(fields[length].value);
    }
  }

  // ------------------------------------------------------------------ whole messages ---

  /** What of a whole message the callback sees: its body, or as much as decides it. */
  lemma MessageSeen(h: OutHead, framing: Framing, body: seq<u8>, seen: seq<u8>)
    requires h.Valid() && FramingOf(Headers(h.fields)) == Ok(framing)
    ensures SeenIsBody(Message(h, body), seen)
       <==> seen <= body && (seen == body || BodyVerdict(framing, seen).Some?)
  {
    hide FindHeaderEnd, ParseHead, FramingOf, Encode, BodyVerdict, OutHead.Text;
    var block := Encode(h.Text());
    var all := Message(h, body);
    HeadParses(h);
    HeaderAt(block, body);
    assert all[..|block|] == block && all[|block| + 4..] == body;
  }

  /** The response of a whole message is its head with the body of its framing. */
  lemma MessageParses(h: OutHead, framing: Framing, body: seq<u8>, end: Option<AiError>)
    requires h.Valid() && FramingOf(Headers(h.fields)) == Ok(framing)
    ensures ResponseOf(Message(h, body), end)
         == WithBody(Head(h.code, h.reason, Headers(h.fields), framing), BodyOf(framing, body, end))
  {
    hide FindHeaderEnd, ParseHead, FramingOf, Encode, BodyOf, OutHead.Text;
    var block := Encode(h.Text());
    var all := Message(h, body);
    HeadParses(h);
    HeaderAt(block, body);
    assert all[..|block|] == block && all[|block| + 4..] == body;
  }

  /** A chunked message is read as its chunks' data, whatever length it declares, whatever
      trails it and however the stream ends. */
  lemma ChunkedMessage(h: OutHead, cs: seq<OutChunk>, zero: SizeText, extensions: seq<u8>, trailing: seq<u8>,
                       end: Option<AiError>)
    requires h.Valid() && Unencoded(h.fields) && SaysChunked(h.fields)
    requires (forall c :: c in cs ==> ValidChunk(c)) && zero.Says(0) && ValidExtensions(extensions)
    ensures ResponseOf(Message(h, EncodeChunks(cs) + Terminator(zero, extensions, trailing)), end)
         == Ok(Response(h.code, h.reason, Headers(h.fields), Body(cs)))
  {
    hide FramingOf, Unencoded, SaysChunked, ResponseOf, Decode, Terminator;
    FramingIs(h.fields, 0);
    ChunkedRoundTrip(cs, zero, extensions, trailing);
    MessageParses(h, ChunkedBody, EncodeChunks(cs) + Terminator(zero, extensions, trailing), end);
  }

  /** A chunked message cut inside a chunk: the chunks before it when the stream closes, the
      failure when it fails. */
  lemma CutChunkedMessage(h: OutHead, cs: seq<OutChunk>, next: OutChunk, part: seq<u8>, end: Option<AiError>)
    requires h.Valid() && Unencoded(h.fields) && SaysChunked(h.fields)
    requires (forall c :: c in cs ==> ValidChunk(c)) && ValidChunk(next) && part < EncodeChunk(next)
    ensures ResponseOf(Message(h, EncodeChunks(cs) + part), end)
         == match end
            case None => Ok(Response(h.code, h.reason, Headers(h.fields), Body(cs)))
            case Some(e) => Err(e)
  {
    hide FramingOf, Unencoded, SaysChunked, ResponseOf, Decode, Arrived, EncodeChunk;
    FramingIs(h.fields, 0);
    CutTransfer(cs, next, part);
    MessageParses(h, ChunkedBody, EncodeChunks(cs) + part, end);
  }

  /** A message of declared length: that many bytes once they are there, and otherwise an
      error, even when the stream closes cleanly. */
  lemma LengthMessage(h: OutHead, n: nat, body: seq<u8>, end: Option<AiError>)
    requires h.Valid() && Unencoded(h.fields) && !SaysChunked(h.fields) && SaysLength(h.fields, n)
    ensures |body| >= n ==>
              ResponseOf(Message(h, body), end) == Ok(Response(h.code, h.reason, Headers(h.fields), body[..n]))
    ensures |body| < n ==>
              ResponseOf(Message(h, body), end)
              == match end
                 case None => Err(Unreachable("reading the response body", "stream ended early"))
                 case Some(e) => Err(e)
  {
    hide FramingOf, Unencoded, SaysChunked, SaysLength, ResponseOf;
    FramingIs(h.fields, n);
    MessageParses(h, Length(n), body, end);
  }

  /** A message that is neither: every byte up to the close. */
  lemma CloseMessage(h: OutHead, body: seq<u8>, end: Option<AiError>)
    requires h.Valid() && Unencoded(h.fields) && !SaysChunked(h.fields) && SaysNoLength(h.fields)
    ensures ResponseOf(Message(h, body), end)
         == match end
            case None => Ok(Response(h.code, h.reason, Headers(h.fields), body))
            case Some(e) => Err(e)
  {
    hide FramingOf, Unencoded, SaysChunked, SaysNoLength, ResponseOf;
    FramingIs(h.fields, 0);
    MessageParses(h, UntilClose, body, end);
  }

  lemma OtherStatusLine(h: OutHead)
    requires h.Written() && !h.Valid()
    ensures ParseStatusLine(h.StatusLine()) == Err(Unparseable("HTTP status line", h.StatusLine()))
  {
    hide SplitOnce, ParseUnsigned, DecimalDigits;
    StatusLineSplits(h);
    ParseDecimal(h.code, U16_LIMIT);
    assert DecimalDigits(h.code) + "" == DecimalDigits(h.code);
  }

  /** A first line of another protocol, or with a status of 65536 or more, is refused, and
      with it the message. */
  lemma OtherProtocol(h: OutHead, body: seq<u8>, end: Option<AiError>)
    requires h.Written() && !h.Valid()
    ensures ResponseOf(Message(h, body), end) == Err(Unparseable("HTTP status line", h.StatusLine()))
  {
    hide FindHeaderEnd, SplitCrlf, DecodeLossy, Encode, ParseHeaders, FramingOf, Join, ParseStatusLine;
    hide OutHead.StatusLine, OutHead.Written;
    var lines := [h.StatusLine()] + FieldLines(h.fields);
    LinesAreSound(h);
    DecodedText(h.Text());
    SplitJoined(lines);
    JoinedIsOneBlock(lines);
    OtherStatusLine(h);
    var block := Encode(h.Text());
    var all := Message(h, body);
    HeaderAt(block, body);
    assert all[..|block|] == block && lines[0] == h.StatusLine();
  }

  /** Encoded content is refused before its body is looked at. */
  lemma EncodedMessage(h: OutHead, body: seq<u8>, end: Option<AiError>)
    requires h.Valid() && !Unencoded(h.fields)
    ensures ResponseOf(Message(h, body), end)
         == Err(UnsupportedEncoding(Lowercase(h.fields[FirstOf(h.fields, "Content-Encoding")].value)))
  {
    hide FramingOf, FindHeaderEnd, ParseHead, Encode, OutHead.Text, Lowercase;
    var block := Encode(h.Text());
    var all := Message(h, body);
    FramingIs(h.fields, 0);
    HeadParses(h);
    HeaderAt(block, body);
    assert all[..|block|] == block;
  }
}
