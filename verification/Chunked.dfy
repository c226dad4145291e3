/**
 `Transfer-Encoding: chunked` (`http.rs`; RFC 9112 section 7.1): decoding a body that
 may not have arrived in full, and its encoder.
 */
module Chunked {
  import opened Wrappers
  import opened Words
  import opened Text
  import opened Seqs

  const CR: u8 := 13
  const LF: u8 := 10
  const CRLF: seq<u8> := [13, 10]

  datatype ChunkedState = Complete(decoded: seq<u8>) | NeedMore | Malformed(line: string)

  /** `find_crlf` on the bytes from some position on. */
  function FindCrlf(b: seq<u8>): (r: Option<nat>)
    ensures r.Some? ==> r.value + 2 <= |b|
    decreases |b|
  {
    if |b| < 2 then None
    else if b[0] == CR && b[1] == LF then Some(0)
    else
      match FindCrlf(b[1..])
      case None => None
      case Some(k) => Some(k + 1)
  }

  /** The size a chunk header announces. */
  function SizeOf(line: seq<u8>): Option<nat> {
    ParseUnsigned(Trim(Split(DecodeLossy(line), ';')[0]), 16, U64_LIMIT)
  }

  /** What stands at the front of a chunked body. */
  datatype Front = Last | Chunk(data: seq<u8>, next: nat) | Incomplete | Bad(line: string)

  function FrontOf(b: seq<u8>): (r: Front)
    ensures r.Chunk? ==> 0 < r.next <= |b|
  {
    match FindCrlf(b)
    case None => Incomplete
    case Some(end) =>
      match SizeOf(b[..end])
      case None => Bad(DecodeLossy(b[..end]))
      case Some(size) =>
        if size == 0 then Last
        else if |b| < end + 2 + size + 2 then Incomplete
        else Chunk(b[end + 2..end + 2 + size], end + 2 + size + 2)
  }

  function Prefixed(data: seq<u8>, s: ChunkedState): ChunkedState {
    match s case Complete(d) => Complete(data + d) case _ => s
  }

  function Decode(b: seq<u8>): ChunkedState
    decreases |b|
  {
    match FrontOf(b)
    case Last => Complete([])
    case Chunk(data, next) => Prefixed(data, Decode(b[next..]))
    case Incomplete => NeedMore
    case Bad(line) => Malformed(line)
  }

  /** The data of the chunks that arrived in full. */
  function Arrived(b: seq<u8>): seq<u8>
    decreases |b|
  {
    match FrontOf(b)
    case Chunk(data, next) => data + Arrived(b[next..])
    case _ => []
  }

  lemma PrefixedTwice(a: seq<u8>, b: seq<u8>, s: ChunkedState)
    ensures Prefixed([], s) == s
    ensures Prefixed(a, Prefixed(b, s)) == Prefixed(a + b, s)
  {
    if s.Complete? {
      assert [] + s.decoded == s.decoded;
      assert a + (b + s.decoded) == a + b + s.decoded;
    }
  }

  /** One iteration of either decoding loop at `pos`, `decoded` being the data so far. */
  lemma DecodeStep(body: seq<u8>, pos: nat, decoded: seq<u8>)
    requires pos <= |body|
    ensures var front := FrontOf(body[pos..]);
            && (front.Last? ==> Prefixed(decoded, Decode(body[pos..])) == Complete(decoded))
            && (front.Incomplete? ==> Prefixed(decoded, Decode(body[pos..])) == NeedMore)
            && (front.Bad? ==> Prefixed(decoded, Decode(body[pos..])) == Malformed(front.line))
            && (front.Chunk? ==>
                  && Prefixed(decoded, Decode(body[pos..]))
                     == Prefixed(decoded + front.data, Decode(body[pos + front.next..]))
                  && decoded + Arrived(body[pos..]) == decoded + front.data + Arrived(body[pos + front.next..]))
            && (!front.Chunk? ==> decoded + Arrived(body[pos..]) == decoded)
  {
    hide FrontOf;
    var front := FrontOf(body[pos..]);
    assert decoded + [] == decoded;
    if front.Chunk? {
      assert body[pos..][front.next..] == body[pos + front.next..];
      PrefixedTwice(decoded, front.data, Decode(body[pos + front.next..]));
      Associative(decoded, front.data, Arrived(body[pos + front.next..]));
    }
  }

  /** `decode_chunked`. */
  method DecodeChunked(body: seq<u8>) returns (r: ChunkedState)
    ensures r == Decode(body)
  {
    hide SizeOf, Decode, Arrived, Prefixed, DecodeLossy;
    var decoded: seq<u8> := [];
    var pos := 0;
    PrefixedTwice([], [], Decode(body));
    assert body[0..] == body;
    while true
      invariant 0 <= pos <= |body| && Decode(body) == Prefixed(decoded, Decode(body[pos..]))
      decreases |body| - pos
    {
      DecodeStep(body, pos, decoded);
      var rest := body[pos..];
      var end := FindCrlf(rest);
      if end.None? {
        return NeedMore;
      }
      var size := SizeOf(rest[..end.value]);
      if size.None? {
        return Malformed(DecodeLossy(rest[..end.value]));
      }
      var start := end.value + 2;
      if size.value == 0 {
        return Complete(decoded);
      }
      if |rest| < start + size.value + 2 {
        return NeedMore;
      }
      decoded := decoded + rest[start..start + size.value];
      pos := pos + (start + size.value + 2);
    }
  }

  /** `decode_chunked_partial`: a transfer that ended early. */
  method DecodeChunkedPartial(body: seq<u8>) returns (decoded: seq<u8>)
    ensures decoded == Arrived(body)
  {
    hide SizeOf, Decode, Arrived, Prefixed, DecodeLossy;
    decoded := [];
    var pos := 0;
    assert body[0..] == body;
    assert [] + Arrived(body) == Arrived(body);
    while true
      invariant 0 <= pos <= |body| && Arrived(body) == decoded + Arrived(body[pos..])
      decreases |body| - pos
    {
      DecodeStep(body, pos, decoded);
      var rest := body[pos..];
      var end := FindCrlf(rest);
      if end.None? {
        break;
      }
      var size := SizeOf(rest[..end.value]);
      if size.None? || size.value == 0 {
        break;
      }
      var start := end.value + 2;
      if |rest| < start + size.value + 2 {
        break;
      }
      decoded := decoded + rest[start..start + size.value];
      pos := pos + (start + size.value + 2);
    }
  }

  // ------------------------------------------------------------ stability and order ---

  lemma {:induction false} FindCrlfStable(x: seq<u8>, y: seq<u8>)
    requires FindCrlf(x).Some?
    ensures FindCrlf(x + y) == FindCrlf(x)
    decreases |x|
  {
    assert (x + y)[0] == x[0] && (x + y)[1] == x[1];
    if !(x[0] == CR && x[1] == LF) {
      FindCrlfStable(x[1..], y);
      assert (x + y)[1..] == x[1..] + y;
    }
  }

  lemma FrontStable(x: seq<u8>, y: seq<u8>)
    requires !FrontOf(x).Incomplete?
    ensures FrontOf(x + y) == FrontOf(x)
  {
    hide SizeOf;
    FindCrlfStable(x, y);
    var end := FindCrlf(x).value;
    assert (x + y)[..end] == x[..end];
    if FrontOf(x).Chunk? {
      var size := SizeOf(x[..end]).value;
      assert (x + y)[end + 2..end + 2 + size] == x[end + 2..end + 2 + size];
    }
  }

  /** A verdict other than "need more" does not change when more bytes arrive. */
  lemma {:induction false} VerdictStable(x: seq<u8>, y: seq<u8>)
    requires !Decode(x).NeedMore?
    ensures Decode(x + y) == Decode(x)
    decreases |x|
  {
    hide FrontOf;
    FrontStable(x, y);
    if FrontOf(x).Chunk? {
      var next := FrontOf(x).next;
      VerdictStable(x[next..], y);
      assert (x + y)[next..] == x[next..] + y;
    }
  }

  /** More bytes only extend what has arrived. */
  lemma {:induction false} ArrivedMonotone(x: seq<u8>, y: seq<u8>)
    ensures Arrived(x) <= Arrived(x + y)
    decreases |x|
  {
    hide FrontOf;
    if FrontOf(x).Chunk? {
      FrontStable(x, y);
      var next := FrontOf(x).next;
      ArrivedMonotone(x[next..], y);
      assert (x + y)[next..] == x[next..] + y;
    }
  }

  /** Once the body is complete, what arrived is the body. */
  lemma {:induction false} ArrivedIsComplete(x: seq<u8>)
    requires Decode(x).Complete?
    ensures Arrived(x) == Decode(x).decoded
    decreases |x|
  {
    hide FrontOf;
    if FrontOf(x).Chunk? {
      ArrivedIsComplete(x[FrontOf(x).next..]);
    }
  }

  // -------------------------------------------------------------- 64-bit arithmetic ---

  /** A byte vector is shorter than this. */
  const VEC_LIMIT := 0x8000_0000_0000_0000

  /** `decode_chunked` from `pos` on with its 64-bit additions; `None` where the end of a
      chunk does not fit in 64 bits and the addition overflows. */
  function DecodeWords(body: seq<u8>, pos: nat): Option<ChunkedState>
    requires pos <= |body|
    decreases |body| - pos
  {
    var rest := body[pos..];
    match FindCrlf(rest)
    case None => Some(NeedMore)
    case Some(end) =>
      match SizeOf(rest[..end])
      case None => Some(Malformed(DecodeLossy(rest[..end])))
      case Some(size) =>
        var start := pos + end + 2;
        if size == 0 then Some(Complete([]))
        else if start + size + 2 >= U64_LIMIT then None
        else if |body| < start + size + 2 then Some(NeedMore)
        else
          var more := DecodeWords(body, start + size + 2);
          if more.None? then None else Some(Prefixed(body[start..start + size], more.value))
  }

  /** `decode_chunked_partial` in the same way. */
  function PartialWords(body: seq<u8>, pos: nat): Option<seq<u8>>
    requires pos <= |body|
    decreases |body| - pos
  {
    var rest := body[pos..];
    match FindCrlf(rest)
    case None => Some([])
    case Some(end) =>
      match SizeOf(rest[..end])
      case None => Some([])
      case Some(size) =>
        var start := pos + end + 2;
        if size == 0 then Some([])
        else if start + size + 2 >= U64_LIMIT then None
        else if |body| < start + size + 2 then Some([])
        else
          var more := PartialWords(body, start + size + 2);
          if more.None? then None else Some(body[start..start + size] + more.value)
  }

  /** Where the chunks that arrived in full end. */
  function ChunksEnd(b: seq<u8>): (n: nat)
    ensures n <= |b|
    decreases |b|
  {
    match FrontOf(b)
    case Chunk(_, next) => next + ChunksEnd(b[next..])
    case _ => 0
  }

  /** The size line at `pos` announces a chunk whose end does not fit in 64 bits. */
  predicate TooBigAt(body: seq<u8>, pos: nat)
    requires pos <= |body|
  {
    var end := FindCrlf(body[pos..]);
    && end.Some?
    && var size := SizeOf(body[pos..][..end.value]);
       size.Some? && size.value > 0 && pos + end.value + 2 + size.value + 2 >= U64_LIMIT
  }

  lemma WordsStep(body: seq<u8>, pos: nat)
    requires pos <= |body| < VEC_LIMIT
    ensures var front := FrontOf(body[pos..]);
            && (front.Chunk? ==>
                  var more, partial := DecodeWords(body, pos + front.next), PartialWords(body, pos + front.next);
                  && DecodeWords(body, pos) == (if more.None? then None else Some(Prefixed(front.data, more.value)))
                  && PartialWords(body, pos) == (if partial.None? then None else Some(front.data + partial.value)))
            && (!front.Chunk? ==>
                  && DecodeWords(body, pos) == (if TooBigAt(body, pos) then None else Some(Decode(body[pos..])))
                  && PartialWords(body, pos) == if TooBigAt(body, pos) then None else Some([]))
  {
    hide SizeOf, Prefixed, DecodeLossy;
    var rest := body[pos..];
    var front := FrontOf(rest);
    if front.Chunk? {
      var end := FindCrlf(rest).value;
      var size := SizeOf(rest[..end]).value;
      assert rest[end + 2..end + 2 + size] == body[pos + end + 2..pos + end + 2 + size];
    }
  }

  /** Both decoders agree with the model exactly when the size line at which the whole
      chunks end announces a chunk that fits in 64 bits. */
  lemma {:induction false} WordsAgreeIff(body: seq<u8>, pos: nat)
    requires pos <= |body| < VEC_LIMIT
    ensures var stop := pos + ChunksEnd(body[pos..]);
            if TooBigAt(body, stop) then DecodeWords(body, pos) == None && PartialWords(body, pos) == None
            else
              && DecodeWords(body, pos) == Some(Decode(body[pos..]))
              && PartialWords(body, pos) == Some(Arrived(body[pos..]))
    decreases |body| - pos
  {
    hide FrontOf, TooBigAt, Prefixed, DecodeWords, PartialWords;
    WordsStep(body, pos);
    var front := FrontOf(body[pos..]);
    if front.Chunk? {
      WordsAgreeIff(body, pos + front.next);
      assert body[pos..][front.next..] == body[pos + front.next..];
    }
  }

  // ------------------------------------------------------------------- the encoder ---

  /** A size as a sender may write it: hexadecimal digits of either case, zeros in front, and
      blanks behind. */
  datatype SizeText = SizeText(digits: string, pad: string) {
    ghost predicate Says(size: nat) {
      && SpellsHex(digits, size)
      && forall k :: 0 <= k < |pad| ==> pad[k] == ' ' || pad[k] == '\t'
    }
  }

  /** A chunk with its size line. */
  datatype OutChunk = OutChunk(data: seq<u8>, size: SizeText, extensions: seq<u8>)

  predicate CrlfAt(b: seq<u8>, k: nat)
    requires k + 1 < |b|
  {
    b[k] == CR && b[k + 1] == LF
  }

  predicate NoCrlf(b: seq<u8>) {
    forall k :: 0 <= k < |b| - 1 ==> !CrlfAt(b, k)
  }

  /** Extensions start at a semicolon and contain no CRLF; they need not be UTF-8. */
  predicate ValidExtensions(e: seq<u8>) {
    (e == [] || e[0] == ';' as int) && NoCrlf(e)
  }

  ghost predicate ValidChunk(c: OutChunk) {
    0 < |c.data| < U64_LIMIT && c.size.Says(|c.data|) && ValidExtensions(c.extensions)
  }

  function Header(size: SizeText, extensions: seq<u8>): seq<u8> {
    Encode(size.digits + size.pad) + extensions
  }

  function EncodeChunk(c: OutChunk): seq<u8> {
    Header(c.size, c.extensions) + CRLF + c.data + CRLF
  }

  function EncodeChunks(cs: seq<OutChunk>): seq<u8> {
    if cs == [] then [] else EncodeChunk(cs[0]) + EncodeChunks(cs[1..])
  }

  function Body(cs: seq<OutChunk>): seq<u8> {
    if cs == [] then [] else cs[0].data + Body(cs[1..])
  }

  lemma {:induction false} FindCrlfAt(a: seq<u8>, rest: seq<u8>)
    requires NoCrlf(a)
    ensures FindCrlf(a + CRLF + rest) == Some(|a|)
    decreases |a|
  {
    var b := a + CRLF + rest;
    if a != [] {
      assert b[0] == a[0];
      assert |a| > 1 ==> b[1] == a[1];
      assert b[1..] == a[1..] + CRLF + rest;
      assert |a| > 1 ==> !CrlfAt(a, 0);
      forall k | 0 <= k < |a[1..]| - 1 ensures !CrlfAt(a[1..], k) {
        assert !CrlfAt(a, k + 1);
      }
      FindCrlfAt(a[1..], rest);
    }
  }

  lemma HeaderIsOneLine(digits: seq<u8>, extensions: seq<u8>)
    requires CR !in digits && NoCrlf(extensions)
    ensures NoCrlf(digits + extensions)
  {
    var h := digits + extensions;
    forall k | 0 <= k < |h| - 1 ensures !CrlfAt(h, k) {
      if k < |digits| {
        assert h[k] == digits[k] && digits[k] in digits;
      } else {
        assert h[k + 1] == extensions[k + 1 - |digits|];
        assert !CrlfAt(extensions, k - |digits|);
      }
    }
  }

  lemma HeaderSplit(digits: string, extensions: seq<u8>)
    requires ';' !in digits && (extensions == [] || extensions[0] == ';' as int)
    ensures Split(digits + DecodeLossy(extensions), ';')[0] == digits
  {
    if extensions == [] {
      assert digits + "" == digits;
      SplitFirst(digits, "", ';');
    } else {
      var rest := DecodeLossy(extensions[1..]);
      assert DecodeLossy(extensions) == [';'] + rest;
      assert digits + ([';'] + rest) == digits + [';'] + rest;
      SplitFirst(digits, rest, ';');
    }
  }

  /** The characters of a size line before its extensions. */
  lemma SizeCharacters(size: SizeText, n: nat)
    requires size.Says(n)
    ensures size.digits != ""
    ensures forall c :: c in size.digits ==> c as int < 0x80 && !IsWhitespace(c) && c != ';'
    ensures forall c :: c in size.digits + size.pad ==> c != ';' && c != '\r'
  {
    var zeros: nat :| zeros <= |size.digits| && Lowercase(size.digits) == Zeros(zeros) + HexDigits(n);
    LowercaseAt(size.digits);
    forall k | 0 <= k < |size.digits|
      ensures var c := size.digits[k]; c as int < 0x80 && !IsWhitespace(c) && c != ';' && c != '\r'
    {
      assert k >= zeros ==> Lowercase(size.digits)[k] in HexDigits(n);
    }
  }

  lemma HeaderFacts(size: SizeText, n: nat, extensions: seq<u8>)
    requires n < U64_LIMIT && size.Says(n) && ValidExtensions(extensions)
    ensures NoCrlf(Header(size, extensions)) && SizeOf(Header(size, extensions)) == Some(n)
  {
    hide Trim, ParseUnsigned, DecodeLossy, Encode;
    var text := size.digits + size.pad;
    SizeCharacters(size, n);
    EncodedByte(text, CR);
    HeaderIsOneLine(Encode(text), extensions);
    DecodeEncoded(text, extensions);
    HeaderSplit(text, extensions);
    TrimPadded("", size.digits, size.pad);
    assert "" + size.digits + size.pad == text;
    ParseHexText(size.digits, n, U64_LIMIT);
  }

  lemma FrontOfEncoded(c: OutChunk, rest: seq<u8>)
    requires ValidChunk(c)
    ensures FrontOf(EncodeChunk(c) + rest) == Chunk(c.data, |EncodeChunk(c)|)
  {
    hide SizeOf, Header;
    var h := Header(c.size, c.extensions);
    var b := EncodeChunk(c) + rest;
    HeaderFacts(c.size, |c.data|, c.extensions);
    assert b == h + CRLF + (c.data + CRLF + rest);
    FindCrlfAt(h, c.data + CRLF + rest);
    assert b[..|h|] == h;
    assert b[|h| + 2..|h| + 2 + |c.data|] == c.data;
  }

  /** A chunk of which only a part has arrived is not taken. */
  lemma FrontOfCut(c: OutChunk, part: seq<u8>)
    requires ValidChunk(c) && part < EncodeChunk(c)
    ensures FrontOf(part) == Incomplete
  {
    hide SizeOf;
    var missing := EncodeChunk(c)[|part|..];
    assert part + missing == EncodeChunk(c) + [];
    FrontOfEncoded(c, []);
    if !FrontOf(part).Incomplete? {
      FrontStable(part, missing);
    }
  }

  /** The terminator: a zero-size chunk header, and whatever follows it. */
  function Terminator(zero: SizeText, extensions: seq<u8>, trailing: seq<u8>): seq<u8> {
    Header(zero, extensions) + CRLF + trailing
  }

  lemma FrontOfTerminator(zero: SizeText, extensions: seq<u8>, trailing: seq<u8>)
    requires zero.Says(0) && ValidExtensions(extensions)
    ensures FrontOf(Terminator(zero, extensions, trailing)) == Last
  {
    hide SizeOf, Header;
    var h := Header(zero, extensions);
    HeaderFacts(zero, 0, extensions);
    FindCrlfAt(h, trailing);
    assert Terminator(zero, extensions, trailing)[..|h|] == h;
  }

  /** Whole chunks in front of any bytes are decoded off, in order. */
  lemma {:induction false} ChunksInFront(cs: seq<OutChunk>, rest: seq<u8>)
    requires forall c :: c in cs ==> ValidChunk(c)
    ensures Decode(EncodeChunks(cs) + rest) == Prefixed(Body(cs), Decode(rest))
    ensures Arrived(EncodeChunks(cs) + rest) == Body(cs) + Arrived(rest)
    decreases |cs|
  {
    hide FrontOf, EncodeChunk, Prefixed;
    if cs == [] {
      PrefixedTwice([], [], Decode(rest));
      assert EncodeChunks(cs) + rest == rest;
    } else {
      var first, later := EncodeChunk(cs[0]), EncodeChunks(cs[1..]) + rest;
      assert cs[0] in cs;
      assert EncodeChunks(cs) + rest == first + later;
      FrontOfEncoded(cs[0], later);
      assert (first + later)[|first|..] == later;
      ChunksInFront(cs[1..], rest);
      PrefixedTwice(cs[0].data, Body(cs[1..]), Decode(rest));
      Associative(cs[0].data, Body(cs[1..]), Arrived(rest));
    }
  }

  /** Decoding undoes encoding, whatever trails the terminator. */
  lemma ChunkedRoundTrip(cs: seq<OutChunk>, zero: SizeText, extensions: seq<u8>, trailing: seq<u8>)
    requires (forall c :: c in cs ==> ValidChunk(c)) && zero.Says(0) && ValidExtensions(extensions)
    ensures Decode(EncodeChunks(cs) + Terminator(zero, extensions, trailing)) == Complete(Body(cs))
  {
    hide Terminator, FrontOf;
    ChunksInFront(cs, Terminator(zero, extensions, trailing));
    FrontOfTerminator(zero, extensions, trailing);
    assert Body(cs) + [] == Body(cs);
  }

  /** A transfer cut inside a chunk yields exactly the chunks before it, and asks for more. */
  lemma CutTransfer(cs: seq<OutChunk>, next: OutChunk, part: seq<u8>)
    requires (forall c :: c in cs ==> ValidChunk(c)) && ValidChunk(next)
    requires part < EncodeChunk(next)
    ensures Arrived(EncodeChunks(cs) + part) == Body(cs)
    ensures Decode(EncodeChunks(cs) + part) == NeedMore
  {
    hide EncodeChunk, FrontOf;
    ChunksInFront(cs, part);
    FrontOfCut(next, part);
  }

  /** A first size line that says 2^64 - 1 overflows whatever follows, where unbounded
      arithmetic asks for more. */
  lemma LargestSizeOverflows(size: SizeText, extensions: seq<u8>, rest: seq<u8>)
    requires size.Says(0xFFFF_FFFF_FFFF_FFFF) && ValidExtensions(extensions)
    requires |Header(size, extensions) + CRLF + rest| < VEC_LIMIT
    ensures var body := Header(size, extensions) + CRLF + rest;
            DecodeWords(body, 0) == None && Decode(body) == NeedMore
  {
    hide SizeOf, Header, DecodeLossy;
    var h := Header(size, extensions);
    var body := h + CRLF + rest;
    HeaderFacts(size, 0xFFFF_FFFF_FFFF_FFFF, extensions);
    FindCrlfAt(h, rest);
    assert body[0..] == body && body[..|h|] == h;
  }
}
