/** The string operations the parsers rely on: UTF-8, whitespace, splitting, numbers. */
module Text {
  import opened Wrappers
  import opened Words
  import opened Seqs

  const REPLACEMENT := '\U{FFFD}'

  // ------------------------------------------------------------------------ UTF-8 ---

  function EncodeChar(c: char): (bytes: seq<u8>)
    ensures 1 <= |bytes| <= 4
    ensures c as int < 0x80 ==> bytes == [c as int]
    ensures c as int >= 0x80 ==> forall b :: b in bytes ==> b >= 0x80
  {
    var n := c as int;
    if n < 0x80 then [n]
    else if n < 0x800 then [0xC0 + n / 0x40, 0x80 + n % 0x40]
    else if n < 0x1_0000 then [0xE0 + n / 0x1000, 0x80 + n / 0x40 % 0x40, 0x80 + n % 0x40]
    else [0xF0 + n / 0x4_0000, 0x80 + n / 0x1000 % 0x40, 0x80 + n / 0x40 % 0x40, 0x80 + n % 0x40]
  }

  function Encode(s: string): seq<u8> {
    if s == "" then [] else EncodeChar(s[0]) + Encode(s[1..])
  }

  /** Byte `k`, or zero past the end. */
  function At(bytes: seq<u8>, k: nat): u8 {
    if k < |bytes| then bytes[k] else 0
  }

  predicate Continuation(b: u8) {
    0x80 <= b <= 0xBF
  }

  /** Which second bytes a lead byte of three or four bytes allows. */
  predicate SecondOk(lead: u8, b: u8) {
    if lead == 0xE0 then 0xA0 <= b <= 0xBF
    else if lead == 0xED then 0x80 <= b <= 0x9F
    else if lead == 0xF0 then 0x90 <= b <= 0xBF
    else if lead == 0xF4 then 0x80 <= b <= 0x8F
    else Continuation(b)
  }

  /** The bytes the first piece takes and its character; an invalid piece is its
      longest valid beginning and stands for one replacement character. */
  function DecodeFirst(bytes: seq<u8>): (r: (nat, char))
    requires bytes != []
    ensures 1 <= r.0 <= |bytes|
  {
    var lead, b1, b2, b3 := bytes[0], At(bytes, 1), At(bytes, 2), At(bytes, 3);
    if lead < 0x80 then (1, lead as char)
    else if 0xC2 <= lead <= 0xDF then
      if !Continuation(b1) then (1, REPLACEMENT)
      else (2, ((lead - 0xC0) * 0x40 + (b1 - 0x80)) as char)
    else if 0xE0 <= lead <= 0xEF then
      if !SecondOk(lead, b1) then (1, REPLACEMENT)
      else if !Continuation(b2) then (2, REPLACEMENT)
      else (3, ((lead - 0xE0) * 0x1000 + (b1 - 0x80) * 0x40 + (b2 - 0x80)) as char)
    else if 0xF0 <= lead <= 0xF4 then
      if !SecondOk(lead, b1) then (1, REPLACEMENT)
      else if !Continuation(b2) then (2, REPLACEMENT)
      else if !Continuation(b3) then (3, REPLACEMENT)
      else (4, ((lead - 0xF0) * 0x4_0000 + (b1 - 0x80) * 0x1000 + (b2 - 0x80) * 0x40 + (b3 - 0x80)) as char)
    else (1, REPLACEMENT)
  }

  /** `String::from_utf8_lossy`. */
  function DecodeLossy(bytes: seq<u8>): string {
    if bytes == [] then ""
    else
      var (n, c) := DecodeFirst(bytes);
      [c] + DecodeLossy(bytes[n..])
  }

  lemma SixBits(n: nat)
    ensures n == n / 0x40 * 0x40 + n % 0x40
    ensures n / 0x40 / 0x40 == n / 0x1000
    ensures n / 0x1000 / 0x40 == n / 0x4_0000
  {
  }

  lemma CodeBytes(c: char, rest: seq<u8>)
    ensures var code := EncodeChar(c); forall k :: 0 <= k < |code| ==> At(code + rest, k) == code[k]
    ensures (EncodeChar(c) + rest)[0] == EncodeChar(c)[0]
  {
  }

  lemma DecodeTwoBytes(c: char, rest: seq<u8>)
    requires 0x80 <= c as int < 0x800
    ensures DecodeFirst(EncodeChar(c) + rest) == (2, c)
  {
    CodeBytes(c, rest);
    SixBits(c as int);
    hide At, SecondOk;
  }

  lemma ThreeBytes(n: nat)
    requires 0x800 <= n < 0xD800 || 0xE000 <= n < 0x1_0000
    ensures SecondOk(0xE0 + n / 0x1000, 0x80 + n / 0x40 % 0x40)
    ensures n == n / 0x1000 * 0x1000 + n / 0x40 % 0x40 * 0x40 + n % 0x40
  {
    SixBits(n);
    SixBits(n / 0x40);
  }

  lemma DecodeThreeBytes(c: char, rest: seq<u8>)
    requires 0x800 <= c as int < 0x1_0000
    ensures DecodeFirst(EncodeChar(c) + rest) == (3, c)
  {
    CodeBytes(c, rest);
    ThreeBytes(c as int);
    hide At, SecondOk;
  }

  lemma FourBytes(n: nat)
    requires 0x1_0000 <= n < 0x11_0000
    ensures SecondOk(0xF0 + n / 0x4_0000, 0x80 + n / 0x1000 % 0x40)
    ensures n == n / 0x4_0000 * 0x4_0000 + n / 0x1000 % 0x40 * 0x1000 + n / 0x40 % 0x40 * 0x40 + n % 0x40
  {
    SixBits(n);
    SixBits(n / 0x40);
    SixBits(n / 0x1000);
  }

  lemma DecodeFourBytes(c: char, rest: seq<u8>)
    requires 0x1_0000 <= c as int
    ensures DecodeFirst(EncodeChar(c) + rest) == (4, c)
  {
    CodeBytes(c, rest);
    FourBytes(c as int);
    hide At, SecondOk;
  }

  lemma DecodeEncodedChar(c: char, rest: seq<u8>)
    ensures DecodeFirst(EncodeChar(c) + rest) == (|EncodeChar(c)|, c)
  {
    if c as int >= 0x1_0000 {
      DecodeFourBytes(c, rest);
      hide DecodeFirst;
    } else if c as int >= 0x800 {
      DecodeThreeBytes(c, rest);
      hide DecodeFirst;
    } else if c as int >= 0x80 {
      DecodeTwoBytes(c, rest);
      hide DecodeFirst;
    } else {
      CodeBytes(c, rest);
    }
  }

  lemma LastSix(front: nat, last: nat)
    requires last < 0x40
    ensures (front * 0x40 + last) / 0x40 == front && (front * 0x40 + last) % 0x40 == last
  {
  }

  lemma CodeOfTwo(lead: u8, b1: u8)
    requires 0xC2 <= lead <= 0xDF && 0x80 <= b1 <= 0xBF
    ensures EncodeChar(((lead - 0xC0) * 0x40 + (b1 - 0x80)) as char) == [lead, b1]
  {
  }

  lemma CodeOfThree(lead: u8, b1: u8, b2: u8)
    requires 0xE0 <= lead <= 0xEF && SecondOk(lead, b1) && Continuation(b2)
    ensures var n := (lead - 0xE0) * 0x1000 + (b1 - 0x80) * 0x40 + (b2 - 0x80);
            0x800 <= n < 0xD800 || 0xE000 <= n < 0x1_0000
    ensures EncodeChar(((lead - 0xE0) * 0x1000 + (b1 - 0x80) * 0x40 + (b2 - 0x80)) as char) == [lead, b1, b2]
  {
    var n := (lead - 0xE0) * 0x1000 + (b1 - 0x80) * 0x40 + (b2 - 0x80);
    var two := (lead - 0xE0) * 0x40 + (b1 - 0x80);
    LastSix(lead - 0xE0, b1 - 0x80);
    LastSix(two, b2 - 0x80);
    SixBits(n);
  }

  /** The range that the second byte of a four-byte form keeps to. */
  lemma FourInRange(lead: u8, b1: u8, last: nat)
    requires 0xF0 <= lead <= 0xF4 && SecondOk(lead, b1) && last < 0x1000
    ensures 0x1_0000 <= (lead - 0xF0) * 0x4_0000 + (b1 - 0x80) * 0x1000 + last < 0x11_0000
  {
  }

  lemma CodeOfFour(lead: u8, b1: u8, b2: u8, b3: u8)
    requires 0xF0 <= lead <= 0xF4 && SecondOk(lead, b1) && Continuation(b2) && Continuation(b3)
    ensures var n := (lead - 0xF0) * 0x4_0000 + (b1 - 0x80) * 0x1000 + (b2 - 0x80) * 0x40 + (b3 - 0x80);
            0x1_0000 <= n < 0x11_0000 && EncodeChar(n as char) == [lead, b1, b2, b3]
  {
    var n := (lead - 0xF0) * 0x4_0000 + (b1 - 0x80) * 0x1000 + (b2 - 0x80) * 0x40 + (b3 - 0x80);
    var two := (lead - 0xF0) * 0x40 + (b1 - 0x80);
    var three := two * 0x40 + (b2 - 0x80);
    FourInRange(lead, b1, (b2 - 0x80) * 0x40 + (b3 - 0x80));
    hide SecondOk;
    LastSix(lead - 0xF0, b1 - 0x80);
    LastSix(two, b2 - 0x80);
    LastSix(three, b3 - 0x80);
    SixBits(n);
    SixBits(three);
  }

  /** A character decoded from other bytes than its own is a replacement. */
  lemma FirstIsEncoded(bytes: seq<u8>)
    requires bytes != []
    ensures DecodeFirst(bytes).1 != REPLACEMENT ==> EncodeChar(DecodeFirst(bytes).1) == bytes[..DecodeFirst(bytes).0]
  {
    hide EncodeChar;
    var lead, b1, b2, b3 := bytes[0], At(bytes, 1), At(bytes, 2), At(bytes, 3);
    var n, c := DecodeFirst(bytes).0, DecodeFirst(bytes).1;
    if c != REPLACEMENT {
      if n == 1 {
        assert EncodeChar(c) == [lead];
      } else if n == 2 {
        CodeOfTwo(lead, b1);
      } else if n == 3 {
        CodeOfThree(lead, b1, b2);
      } else {
        CodeOfFour(lead, b1, b2, b3);
      }
    }
  }

  /** Nothing but a character's own bytes decodes to it; where no character's bytes
      stand in front, the piece becomes a replacement. */
  lemma FirstIffEncoded(bytes: seq<u8>, c: char)
    requires bytes != [] && c != REPLACEMENT
    ensures DecodeFirst(bytes).1 == c <==> EncodeChar(c) <= bytes
  {
    hide EncodeChar, DecodeFirst;
    if DecodeFirst(bytes).1 == c {
      FirstIsEncoded(bytes);
    }
    if EncodeChar(c) <= bytes {
      DecodeEncodedChar(c, bytes[|EncodeChar(c)|..]);
      assert bytes == EncodeChar(c) + bytes[|EncodeChar(c)|..];
    }
  }

  /** Decoding looks at most one byte past a piece it replaces. */
  lemma ReplacedAlike(x: seq<u8>, y: seq<u8>)
    requires x != [] && x[0] >= 0x80 && DecodeFirst(x).1 == REPLACEMENT
    requires DecodeFirst(x).0 < |x| && x[..DecodeFirst(x).0 + 1] <= y
    ensures DecodeFirst(x) == DecodeFirst(y) || EncodeChar(REPLACEMENT) <= x
  {
  }

  /** What becomes a replacement is one byte or a beginning of some character's bytes, and
      one byte more would be neither. */
  lemma ReplacedIsLongest(bytes: seq<u8>, d: char)
    requires bytes != [] && DecodeFirst(bytes).1 == REPLACEMENT && !(EncodeChar(REPLACEMENT) <= bytes)
    ensures DecodeFirst(bytes).0 == 1 || exists c :: bytes[..DecodeFirst(bytes).0] <= EncodeChar(c)
    ensures DecodeFirst(bytes).0 < |bytes| ==> !(bytes[..DecodeFirst(bytes).0 + 1] <= EncodeChar(d))
  {
    hide EncodeChar;
    var n := DecodeFirst(bytes).0;
    var lead, b1, b2 := bytes[0], At(bytes, 1), At(bytes, 2);
    if n == 2 && lead < 0xF0 {
      CodeOfThree(lead, b1, 0x80);
    } else if n == 2 {
      CodeOfFour(lead, b1, 0x80, 0x80);
    } else if n == 3 && lead < 0xF0 {
      CodeOfThree(lead, b1, b2);
    } else if n == 3 {
      CodeOfFour(lead, b1, b2, 0x80);
    }
    if n < |bytes| && bytes[..n + 1] <= EncodeChar(d) {
      DecodeEncodedChar(d, []);
      assert EncodeChar(d) + [] == EncodeChar(d);
      ReplacedAlike(bytes, EncodeChar(d));
    }
  }

  lemma DecodeCharStep(c: char, tail: seq<u8>)
    ensures DecodeLossy(EncodeChar(c) + tail) == [c] + DecodeLossy(tail)
  {
    hide DecodeFirst, EncodeChar;
    DecodeEncodedChar(c, tail);
    assert (EncodeChar(c) + tail)[|EncodeChar(c)|..] == tail;
  }

  /** Well-formed text survives lossy decoding, whatever bytes follow it. */
  lemma {:induction false} DecodeEncoded(s: string, rest: seq<u8>)
    ensures DecodeLossy(Encode(s) + rest) == s + DecodeLossy(rest)
  {
    hide EncodeChar, DecodeLossy;
    if s == "" {
      assert Encode(s) + rest == rest;
    } else {
      Associative(EncodeChar(s[0]), Encode(s[1..]), rest);
      DecodeCharStep(s[0], Encode(s[1..]) + rest);
      DecodeEncoded(s[1..], rest);
      Associative([s[0]], s[1..], DecodeLossy(rest));
      assert s == [s[0]] + s[1..];
    }
  }

  lemma {:induction false} EncodeConcat(a: string, b: string)
    ensures Encode(a + b) == Encode(a) + Encode(b)
  {
    hide EncodeChar;
    if a == "" {
      assert a + b == b;
    } else {
      EncodeConcat(a[1..], b);
      assert (a + b)[0] == a[0] && (a + b)[1..] == a[1..] + b;
      Associative(EncodeChar(a[0]), Encode(a[1..]), Encode(b));
    }
  }

  /** An ASCII byte occurs in encoded text only as that character. */
  lemma {:induction false} EncodedByte(s: string, b: u8)
    requires b < 0x80 && b as char !in s
    ensures b !in Encode(s)
  {
    if s != "" {
      assert s[0] in s;
      EncodedByte(s[1..], b);
    }
  }

  // ------------------------------------------------------------------- whitespace ---

  /** The characters with the Unicode `White_Space` property. */
  predicate IsWhitespace(c: char) {
    var n := c as int;
    || 9 <= n <= 13 || n == 0x20 || n == 0x85 || n == 0xA0 || n == 0x1680
    || 0x2000 <= n <= 0x200A || n == 0x2028 || n == 0x2029 || n == 0x202F || n == 0x205F || n == 0x3000
  }

  /** They are these 25. */
  lemma WhitespaceIs(c: char)
    ensures IsWhitespace(c) <==>
            c as int in {9, 10, 11, 12, 13, 32, 133, 160, 5760, 8192, 8193, 8194, 8195, 8196, 8197, 8198, 8199, 8200,
                         8201, 8202, 8232, 8233, 8239, 8287, 12288}
  {
  }

  function TrimStart(s: string): string {
    if s != "" && IsWhitespace(s[0]) then TrimStart(s[1..]) else s
  }

  function TrimEnd(s: string): string {
    if s != "" && IsWhitespace(s[|s| - 1]) then TrimEnd(s[..|s| - 1]) else s
  }

  function Trim(s: string): string {
    TrimEnd(TrimStart(s))
  }

  // --------------------------------------------------------------- split and join ---

  /** `s.split(c)`: the pieces between separators, at least one. */
  function Split(s: string, c: char): (pieces: seq<string>)
    ensures pieces != []
  {
    if s == "" then [""]
    else
      var rest := Split(s[1..], c);
      if s[0] == c then [""] + rest else [[s[0]] + rest[0]] + rest[1..]
  }

  function Join(pieces: seq<string>, separator: string): string {
    if pieces == [] then ""
    else if |pieces| == 1 then pieces[0]
    else pieces[0] + separator + Join(pieces[1..], separator)
  }

  lemma JoinAfterEmpty(pieces: seq<string>, c: char)
    requires pieces != []
    ensures Join([""] + pieces, [c]) == [c] + Join(pieces, [c])
  {
    assert ([""] + pieces)[1..] == pieces;
    hide Join;
  }

  lemma JoinPrepended(pieces: seq<string>, first: char, c: char)
    requires pieces != []
    ensures Join([[first] + pieces[0]] + pieces[1..], [c]) == [first] + Join(pieces, [c])
  {
    var longer := [[first] + pieces[0]] + pieces[1..];
    assert longer[0] == [first] + pieces[0] && longer[1..] == pieces[1..];
    if |pieces| > 1 {
      Associative([first], pieces[0], [c]);
      Associative([first], pieces[0] + [c], Join(pieces[1..], [c]));
    }
  }

  lemma {:induction false} JoinOfSplit(s: string, c: char)
    ensures Join(Split(s, c), [c]) == s
  {
    if s != "" {
      JoinOfSplit(s[1..], c);
      JoinAfterEmpty(Split(s[1..], c), c);
      JoinPrepended(Split(s[1..], c), s[0], c);
      hide Join;
      assert s == [s[0]] + s[1..];
    }
  }

  /** No piece of a split contains the separator, or anything not in the text. */
  lemma {:induction false} SplitPiece(s: string, c: char, k: nat)
    requires k < |Split(s, c)|
    ensures c !in Split(s, c)[k]
    ensures forall x :: x in Split(s, c)[k] ==> x in s
  {
    if s != "" {
      var rest := Split(s[1..], c);
      if s[0] == c {
        if k > 0 {
          SplitPiece(s[1..], c, k - 1);
        }
      } else {
        SplitPiece(s[1..], c, k);
      }
    }
  }

  /** Splitting after the first separator. */
  lemma {:induction false} SplitFirst(a: string, b: string, c: char)
    requires c !in a
    ensures Split(a, c) == [a]
    ensures Split(a + [c] + b, c) == [a] + Split(b, c)
  {
    if a == "" {
      assert (a + [c] + b)[1..] == b;
    } else {
      SplitFirst(a[1..], b, c);
      assert (a + [c] + b)[1..] == a[1..] + [c] + b;
      assert a == [a[0]] + a[1..];
    }
  }

  function StripPrefix(s: string, prefix: string): Option<string> {
    if prefix <= s then Some(s[|prefix|..]) else None
  }

  function StripSuffixChar(s: string, c: char): string {
    if s != "" && s[|s| - 1] == c then s[..|s| - 1] else s
  }

  // ---------------------------------------------------------------------- numbers ---

  /** The value of a digit, in any radix up to 16. */
  function DigitValue(c: char): Option<nat> {
    if '0' <= c <= '9' then Some(c as int - '0' as int)
    else if 'a' <= c <= 'f' then Some(c as int - 'a' as int + 10)
    else if 'A' <= c <= 'F' then Some(c as int - 'A' as int + 10)
    else None
  }

  predicate AllDigits(s: string, radix: nat) {
    forall c :: c in s ==> DigitValue(c).Some? && DigitValue(c).value < radix
  }

  function ValueOf(s: string, radix: nat): nat
    requires AllDigits(s, radix)
  {
    if s == "" then 0
    else
      assert s[|s| - 1] in s;
      Product(ValueOf(s[..|s| - 1], radix), radix) + DigitValue(s[|s| - 1]).value
  }

  /** `from_str_radix` of an unsigned type below `limit`: one leading `+` is allowed. */
  function ParseUnsigned(s: string, radix: nat, limit: nat): Option<nat> {
    var digits := if |s| > 1 && s[0] == '+' then s[1..] else s;
    if digits == "" || !AllDigits(digits, radix) || ValueOf(digits, radix) >= limit then None
    else Some(ValueOf(digits, radix))
  }

  function HexDigit(d: nat): (c: char)
    requires d < 16
    ensures DigitValue(c) == Some(d) && c as int < 0x80 && !IsWhitespace(c) && c != ';' && c != '+' && c != ':'
  {
    if d < 10 then (d + '0' as int) as char else (d - 10 + 'a' as int) as char
  }

  /** Lower-case hexadecimal without leading zeros. */
  function HexDigits(n: nat): (s: string)
    ensures s != "" && forall c :: c in s ==> c as int < 0x80 && !IsWhitespace(c) && c != ';' && c != '+' && c != ':'
  {
    if n < 16 then [HexDigit(n)] else HexDigits(n / 16) + [HexDigit(n % 16)]
  }

  lemma {:induction false} HexRoundTrip(n: nat)
    ensures AllDigits(HexDigits(n), 16) && ValueOf(HexDigits(n), 16) == n
  {
    var s := HexDigits(n);
    if n < 16 {
      assert s[..|s| - 1] == "";
    } else {
      HexRoundTrip(n / 16);
      assert s[..|s| - 1] == HexDigits(n / 16);
    }
  }

  lemma ParseHex(n: nat, limit: nat)
    requires n < limit
    ensures ParseUnsigned(HexDigits(n), 16, limit) == Some(n)
  {
    HexRoundTrip(n);
    assert HexDigits(n)[0] in HexDigits(n);
  }

  /** Decimal without leading zeros. */
  function DecimalDigits(n: nat): (s: string)
    ensures s != "" && forall c :: c in s ==> '0' <= c <= '9'
  {
    if n < 10 then [('0' as int + n) as char] else DecimalDigits(n / 10) + [('0' as int + n % 10) as char]
  }

  lemma {:induction false} DecimalRoundTrip(n: nat)
    ensures AllDigits(DecimalDigits(n), 10) && ValueOf(DecimalDigits(n), 10) == n
  {
    var s := DecimalDigits(n);
    if n < 10 {
      assert s[..|s| - 1] == "";
    } else {
      DecimalRoundTrip(n / 10);
      assert s[..|s| - 1] == DecimalDigits(n / 10);
    }
  }

  lemma ParseDecimal(n: nat, limit: nat)
    ensures ParseUnsigned(DecimalDigits(n), 10, limit) == if n < limit then Some(n) else None
  {
    DecimalRoundTrip(n);
    assert DecimalDigits(n)[0] in DecimalDigits(n);
  }

  /** The first and last characters are no whitespace. */
  predicate Tight(s: string) {
    s == "" || (!IsWhitespace(s[0]) && !IsWhitespace(s[|s| - 1]))
  }

  predicate Blank(s: string) {
    forall k :: 0 <= k < |s| ==> IsWhitespace(s[k])
  }

  lemma {:induction false} TrimFront(before: string, s: string)
    requires Blank(before) && (s == "" || !IsWhitespace(s[0]))
    ensures TrimStart(before + s) == s
  {
    hide IsWhitespace;
    if before == "" {
      assert before + s == s;
    } else {
      assert (before + s)[0] == before[0] && (before + s)[1..] == before[1..] + s;
      TrimFront(before[1..], s);
    }
  }

  lemma {:induction false} TrimBack(s: string, after: string)
    requires Blank(after) && (s == "" || !IsWhitespace(s[|s| - 1]))
    ensures TrimEnd(s + after) == s
    decreases |after|
  {
    hide IsWhitespace;
    if after == "" {
      assert s + after == s;
    } else {
      var last := |after| - 1;
      assert (s + after)[|s + after| - 1] == after[last] && (s + after)[..|s + after| - 1] == s + after[..last];
      TrimBack(s, after[..last]);
    }
  }

  /** Trimming takes off exactly the whitespace around. */
  lemma TrimPadded(before: string, s: string, after: string)
    requires Blank(before) && Tight(s) && Blank(after)
    ensures Trim(before + s + after) == s
  {
    hide IsWhitespace;
    if s == "" {
      assert Blank(before + after) && before + s + after == before + after + "";
      TrimFront(before + after, "");
    } else {
      assert before + s + after == before + (s + after);
      TrimFront(before, s + after);
      TrimBack(s, after);
    }
  }

  lemma TrimUnspaced(s: string)
    requires s != "" && forall c :: c in s ==> !IsWhitespace(c)
    ensures Trim(s) == s
  {
    assert s[0] in s && s[|s| - 1] in s;
  }

  // ------------------------------------------------------------- header field text ---

  function ToLower(c: char): char {
    if 'A' <= c <= 'Z' then (c as int + 32) as char else c
  }

  /** `to_ascii_lowercase`. */
  function Lowercase(s: string): (t: string)
    ensures |t| == |s|
  {
    if s == "" then "" else [ToLower(s[0])] + Lowercase(s[1..])
  }

  lemma {:induction false} LowercaseAt(s: string)
    ensures forall k :: 0 <= k < |s| ==> Lowercase(s)[k] == ToLower(s[k])
  {
    if s != "" {
      LowercaseAt(s[1..]);
    }
  }

  lemma {:induction false} AlreadyLower(s: string)
    requires forall k :: 0 <= k < |s| ==> !('A' <= s[k] <= 'Z')
    ensures Lowercase(s) == s
  {
    if s != "" {
      assert s == [s[0]] + s[1..];
      AlreadyLower(s[1..]);
    }
  }

  /** `k` zeros. */
  function Zeros(k: nat): (s: string)
    ensures |s| == k && forall i :: 0 <= i < k ==> s[i] == '0'
  {
    if k == 0 then "" else ['0'] + Zeros(k - 1)
  }

  lemma HexCases(c: char)
    ensures ToLower(c) == '0' || DigitValue(ToLower(c)).Some? ==> DigitValue(c) == DigitValue(ToLower(c))
  {
  }

  /** Digits read the same in either case. */
  lemma {:induction false} ValueIgnoresCase(s: string)
    requires AllDigits(Lowercase(s), 16)
    ensures AllDigits(s, 16) && ValueOf(s, 16) == ValueOf(Lowercase(s), 16)
    decreases |s|
  {
    hide DigitValue, ToLower;
    LowercaseAt(s);
    if s != "" {
      var front, last := s[..|s| - 1], s[|s| - 1];
      LowercaseAt(front);
      assert Lowercase(front) == Lowercase(s)[..|s| - 1];
      assert forall c :: c in Lowercase(front) ==> c in Lowercase(s);
      ValueIgnoresCase(front);
      HexCases(last);
      assert Lowercase(s)[|s| - 1] in Lowercase(s);
    }
  }

  lemma ZeroDigit()
    ensures DigitValue('0') == Some(0)
  {
  }

  lemma {:induction false} ValueOfZeros(k: nat)
    ensures AllDigits(Zeros(k), 16) && ValueOf(Zeros(k), 16) == 0
  {
    hide DigitValue;
    ZeroDigit();
    if k > 0 {
      assert Zeros(k)[..k - 1] == Zeros(k - 1);
      ValueOfZeros(k - 1);
    }
  }

  /** Zeros in front do not count. */
  lemma {:induction false} ValueOfPadded(zeros: nat, s: string)
    requires AllDigits(s, 16)
    ensures AllDigits(Zeros(zeros) + s, 16) && ValueOf(Zeros(zeros) + s, 16) == ValueOf(s, 16)
    decreases |s|
  {
    hide DigitValue, Zeros;
    var t := Zeros(zeros) + s;
    ValueOfZeros(zeros);
    if s == "" {
      assert t == Zeros(zeros);
    } else {
      assert t[..|t| - 1] == Zeros(zeros) + s[..|s| - 1];
      ValueOfPadded(zeros, s[..|s| - 1]);
    }
  }

  lemma PlusIsNoDigit()
    ensures DigitValue('+') == None
  {
  }

  /** `s` is the number `n` in hexadecimal: letters of either case, and zeros in front. */
  ghost predicate SpellsHex(s: string, n: nat) {
    exists zeros: nat :: zeros <= |s| && Lowercase(s) == Zeros(zeros) + HexDigits(n)
  }

  lemma SpelledHex(s: string, n: nat)
    requires SpellsHex(s, n)
    ensures s != "" && s[0] != '+' && AllDigits(s, 16) && ValueOf(s, 16) == n
  {
    hide DigitValue, ToLower, ValueOf;
    var zeros: nat :| zeros <= |s| && Lowercase(s) == Zeros(zeros) + HexDigits(n);
    HexRoundTrip(n);
    ValueOfPadded(zeros, HexDigits(n));
    ValueIgnoresCase(s);
    PlusIsNoDigit();
    assert s[0] in s;
  }

  lemma LastDigit(v: nat, d: nat)
    requires d < 16
    ensures HexDigits(16 * v + d) == if v == 0 then [HexDigit(d)] else HexDigits(v) + [HexDigit(d)]
  {
  }

  lemma LowerDigit(c: char)
    requires DigitValue(c).Some? && DigitValue(c).value < 16
    ensures [ToLower(c)] == [HexDigit(DigitValue(c).value)]
  {
  }

  lemma ZeroSpelled()
    ensures HexDigits(0) == "0"
  {
  }

  /** A digit behind a spelled number, or behind zeros, spells the longer number. */
  lemma DigitBehind(front: string, v: nat, c: char)
    requires SpellsHex(front, v) && DigitValue(c).Some? && DigitValue(c).value < 16
    ensures SpellsHex(front + [c], 16 * v + DigitValue(c).value)
  {
    hide DigitValue, ToLower, HexDigit;
    var d := DigitValue(c).value;
    LowercaseAt(front);
    LowercaseAt(front + [c]);
    LowerDigit(c);
    LastDigit(v, d);
    var zeros: nat :| zeros <= |front| && Lowercase(front) == Zeros(zeros) + HexDigits(v);
    assert Lowercase(front + [c]) == Lowercase(front) + [ToLower(c)];
    if v == 0 {
      ZeroSpelled();
      assert Zeros(zeros + 1) == Zeros(zeros) + "0";
      assert Lowercase(front + [c]) == Zeros(zeros + 1) + HexDigits(d);
    } else {
      assert Lowercase(front + [c]) == Zeros(zeros) + (HexDigits(v) + [HexDigit(d)]);
    }
  }

  lemma LoneDigit(c: char)
    requires DigitValue(c).Some? && DigitValue(c).value < 16
    ensures SpellsHex([c], DigitValue(c).value)
  {
    LowerDigit(c);
    LowercaseAt([c]);
    hide DigitValue, ToLower, HexDigit;
    LastDigit(0, DigitValue(c).value);
    assert Lowercase([c]) == Zeros(0) + HexDigits(DigitValue(c).value);
  }

  /** Hexadecimal digits always spell their value. */
  lemma {:induction false} DigitsSpell(s: string)
    requires s != "" && AllDigits(s, 16)
    ensures SpellsHex(s, ValueOf(s, 16))
    decreases |s|
  {
    hide DigitValue, SpellsHex;
    var front, c := s[..|s| - 1], s[|s| - 1];
    assert c in s && s == front + [c];
    if front == "" {
      assert s == [c];
      LoneDigit(c);
    } else {
      DigitsSpell(front);
      DigitBehind(front, ValueOf(front, 16), c);
    }
  }

  /** What parsing hexadecimal digits of a number below `limit` gives. */
  lemma ParseHexText(s: string, n: nat, limit: nat)
    requires SpellsHex(s, n)
    ensures ParseUnsigned(s, 16, limit) == if n < limit then Some(n) else None
  {
    hide DigitValue, ValueOf, AllDigits;
    SpelledHex(s, n);
  }

  /** One leading plus sign is passed over. */
  lemma PlusPassed(s: string, radix: nat, limit: nat)
    requires s != "" && s[0] != '+'
    ensures ParseUnsigned("+" + s, radix, limit) == ParseUnsigned(s, radix, limit)
  {
    assert ("+" + s)[1..] == s;
  }

  // ------------------------------------------------------------------ words and gaps ---

  /** Words with text between, before and behind them. */
  function Spread(words: seq<string>, gaps: seq<string>): string
    requires |gaps| == |words| + 1
  {
    if words == [] then gaps[0] else gaps[0] + words[0] + Spread(words[1..], gaps[1..])
  }

  /** Whitespace that separates: some between any two words. */
  predicate Separates(gaps: seq<string>) {
    forall k :: 0 <= k < |gaps| ==> Blank(gaps[k]) && (0 < k < |gaps| - 1 ==> gaps[k] != "")
  }

  predicate Contains(s: string, part: string)
    decreases |s|
  {
    part <= s || (s != "" && Contains(s[1..], part))
  }

  /** The text before and after the first `c`. */
  function SplitOnce(s: string, c: char): Option<(string, string)> {
    if s == "" then None
    else if s[0] == c then Some(("", s[1..]))
    else
      match SplitOnce(s[1..], c)
      case None => None
      case Some((before, after)) => Some(([s[0]] + before, after))
  }

  /** `s.split("\r\n")`. */
  function SplitCrlf(s: string): (pieces: seq<string>)
    ensures pieces != []
    decreases |s|
  {
    if s == "" then [""]
    else if |s| >= 2 && s[0] == '\r' && s[1] == '\n' then [""] + SplitCrlf(s[2..])
    else
      var rest := SplitCrlf(s[1..]);
      [[s[0]] + rest[0]] + rest[1..]
  }
}
