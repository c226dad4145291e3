/**
 The `info tlb` report of the QEMU monitor (`monitor.rs`): one
 `<vaddr>: <paddr> <nine flag columns>` line per mapping, and errors that say where the
 first malformed line starts.
 */
module InfoTlb {
  import opened Wrappers
  import opened Words
  import opened Seqs
  import opened Text

  datatype TlbFlags = TlbFlags(
    nx: bool, global: bool, ps: bool, dirty: bool, accessed: bool, pcd: bool, pwt: bool, user: bool, writable: bool)

  datatype Entry = Entry(virtualAddress: u64, physicalAddress: u64, flags: TlbFlags)

  datatype Reason =
    | ExpectedThreeFields
    | FlagsMissing
    | TrailingFields
    | NotAnAddressField(field: string)
    | NotHexadecimal
    | BadFlags(field: string)

  datatype ParseError = ParseError(line: nat, byteOffset: nat, text: string, reason: Reason)

  // ------------------------------------------------------------------- flag columns ---

  const LETTERS := "XGPDACTUW"

  predicate ColumnOk(text: string, k: nat)
    requires |text| == 9
  {
    k < 9 ==> text[k] == LETTERS[k] || text[k] == '-'
  }

  /** The flags a nine-column field stands for. */
  function FlagsOf(text: string): Option<TlbFlags> {
    if |text| != 9 || exists k :: 0 <= k < 9 && !ColumnOk(text, k) then None
    else Some(TlbFlags(text[0] == 'X', text[1] == 'G', text[2] == 'P', text[3] == 'D', text[4] == 'A',
                       text[5] == 'C', text[6] == 'T', text[7] == 'U', text[8] == 'W'))
  }

  function Column(letter: char, value: bool): char {
    if value then letter else '-'
  }

  /** The nine columns the monitor prints. */
  function RenderFlags(f: TlbFlags): string {
    [Column('X', f.nx), Column('G', f.global), Column('P', f.ps), Column('D', f.dirty), Column('A', f.accessed),
     Column('C', f.pcd), Column('T', f.pwt), Column('U', f.user), Column('W', f.writable)]
  }

  lemma Letters()
    ensures LETTERS[0] == 'X' && LETTERS[1] == 'G' && LETTERS[2] == 'P' && LETTERS[3] == 'D' && LETTERS[4] == 'A'
    ensures LETTERS[5] == 'C' && LETTERS[6] == 'T' && LETTERS[7] == 'U' && LETTERS[8] == 'W'
  {
  }

  /** The flag a position of the report is about. */
  function FlagAt(f: TlbFlags, k: nat): bool {
    if k == 0 then f.nx else if k == 1 then f.global else if k == 2 then f.ps else if k == 3 then f.dirty
    else if k == 4 then f.accessed else if k == 5 then f.pcd else if k == 6 then f.pwt else if k == 7 then f.user
    else f.writable
  }

  lemma RenderedColumn(f: TlbFlags, k: nat)
    requires k < 9
    ensures RenderFlags(f)[k] == Column(LETTERS[k], FlagAt(f, k)) && LETTERS[k] != '-'
  {
    Letters();
  }

  lemma DecodedColumn(text: string, f: TlbFlags, k: nat)
    requires k < 9 && FlagsOf(text) == Some(f)
    ensures text[k] == Column(LETTERS[k], FlagAt(f, k))
  {
    assert ColumnOk(text, k);
    Letters();
    assert FlagAt(f, k) <==> text[k] == LETTERS[k];
  }

  lemma SameColumns(f: TlbFlags, g: TlbFlags)
    requires FlagAt(f, 0) == FlagAt(g, 0) && FlagAt(f, 1) == FlagAt(g, 1) && FlagAt(f, 2) == FlagAt(g, 2)
    requires FlagAt(f, 3) == FlagAt(g, 3) && FlagAt(f, 4) == FlagAt(g, 4) && FlagAt(f, 5) == FlagAt(g, 5)
    requires FlagAt(f, 6) == FlagAt(g, 6) && FlagAt(f, 7) == FlagAt(g, 7) && FlagAt(f, 8) == FlagAt(g, 8)
    ensures f == g
  {
  }

  lemma RenderedLength(f: TlbFlags)
    ensures |RenderFlags(f)| == 9
  {
  }

  lemma DecodesRendered(f: TlbFlags)
    ensures FlagsOf(RenderFlags(f)) == Some(f)
  {
    hide RenderFlags, FlagAt;
    var text := RenderFlags(f);
    RenderedLength(f);
    forall k | 0 <= k < 9 ensures ColumnOk(text, k) {
      RenderedColumn(f, k);
    }
    assert FlagsOf(text).Some?;
    var g := FlagsOf(text).value;
    forall k | 0 <= k < 9 ensures FlagAt(f, k) == FlagAt(g, k) {
      DecodedColumn(text, g, k);
      RenderedColumn(f, k);
    }
    SameColumns(f, g);
  }

  /** Decoding is the two-sided inverse of printing. */
  lemma FlagsInverse(text: string, f: TlbFlags)
    ensures FlagsOf(text) == Some(f) <==> text == RenderFlags(f)
  {
    DecodesRendered(f);
    RenderedLength(f);
    if FlagsOf(text) == Some(f) {
      forall k | 0 <= k < 9 ensures text[k] == RenderFlags(f)[k] {
        DecodedColumn(text, f, k);
        RenderedColumn(f, k);
      }
      hide FlagAt, RenderFlags;
      assert |text| == 9;
    }
  }

  /** `decode_tlb_flags`. */
  method DecodeTlbFlags(text: string) returns (r: Option<TlbFlags>)
    ensures r == FlagsOf(text)
  {
    if |text| != 9 {
      return None;
    }
    var seen := new bool[9](_ => false);
    for position := 0 to 9
      invariant forall k :: 0 <= k < position ==> ColumnOk(text, k) && (seen[k] <==> text[k] == LETTERS[k])
      invariant forall k :: position <= k < 9 ==> !seen[k]
    {
      if text[position] == LETTERS[position] {
        seen[position] := true;
      } else if text[position] != '-' {
        assert !ColumnOk(text, position);
        return None;
      }
    }
    return Some(TlbFlags(seen[0], seen[1], seen[2], seen[3], seen[4], seen[5], seen[6], seen[7], seen[8]));
  }

  // ------------------------------------------------------------------------- lines ---

  datatype Line = Line(number: nat, offset: nat, text: string)

  function Prepend(c: char, pieces: seq<string>): (r: seq<string>)
    ensures r != []
  {
    if c == '\n' || pieces == [] then [[c]] + pieces else [[c] + pieces[0]] + pieces[1..]
  }

  /** `split_inclusive('\n')`: every piece keeps its newline. */
  function Pieces(s: string): (pieces: seq<string>)
    ensures pieces == [] <==> s == ""
  {
    if s == "" then [] else Prepend(s[0], Pieces(s[1..]))
  }

  function TrimNewlines(s: string): string {
    if s != "" && (s[|s| - 1] == '\n' || s[|s| - 1] == '\r') then TrimNewlines(s[..|s| - 1]) else s
  }

  function LinesFrom(pieces: seq<string>, number: nat, offset: nat): (lines: seq<Line>)
    ensures |lines| == |pieces|
  {
    if pieces == [] then []
    else
      [Line(number, offset, TrimNewlines(pieces[0]))]
      + LinesFrom(pieces[1..], number + 1, offset + |Encode(pieces[0])|)
  }

  function Lines(text: string): seq<Line> {
    LinesFrom(Pieces(text), 1, 0)
  }

  /** `lines_with_offsets`. */
  method LinesWithOffsets(text: string) returns (out: seq<Line>)
    ensures out == Lines(text)
  {
    hide Encode, Pieces;
    var pieces := Pieces(text);
    out := [];
    var offset: nat := 0;
    for index := 0 to |pieces|
      invariant out + LinesFrom(pieces[index..], index + 1, offset) == Lines(text)
    {
      var line := pieces[index];
      assert pieces[index..][0] == line && pieces[index..][1..] == pieces[index + 1..];
      out := out + [Line(index + 1, offset, TrimNewlines(line))];
      offset := offset + |Encode(line)|;
    }
  }

  function Newlines(s: string): nat {
    if s == "" then 0 else (if s[0] == '\n' then 1 else 0) + Newlines(s[1..])
  }

  lemma {:induction false} NewlinesConcat(a: string, b: string)
    ensures Newlines(a + b) == Newlines(a) + Newlines(b)
  {
    if a == "" {
      assert a + b == b;
    } else {
      assert (a + b)[0] == a[0] && (a + b)[1..] == a[1..] + b;
      NewlinesConcat(a[1..], b);
    }
  }

  /** A piece is one line: a newline at its end and nowhere else, and every piece but
      the last has one. */
  predicate OneLine(piece: string, last: bool) {
    && piece != ""
    && (forall j :: 0 <= j < |piece| - 1 ==> piece[j] != '\n')
    && (!last ==> piece[|piece| - 1] == '\n')
  }

  ghost predicate WholeLines(pieces: seq<string>) {
    forall k :: 0 <= k < |pieces| ==> OneLine(pieces[k], k == |pieces| - 1)
  }

  lemma FlattenPrepend(c: char, pieces: seq<string>)
    ensures Flatten(Prepend(c, pieces)) == [c] + Flatten(pieces)
  {
    if c != '\n' && pieces != [] {
      Associative([c], pieces[0], Flatten(pieces[1..]));
      assert Prepend(c, pieces)[1..] == pieces[1..];
    } else {
      assert Prepend(c, pieces)[1..] == pieces;
    }
  }

  lemma PrependKeepsLine(c: char, piece: string, last: bool)
    requires c != '\n' && OneLine(piece, last)
    ensures OneLine([c] + piece, last)
  {
    forall j | 0 <= j < |piece| ensures ([c] + piece)[j] != '\n' {
      if j > 0 {
        assert ([c] + piece)[j] == piece[j - 1];
      }
    }
  }

  lemma PrependKeepsLines(c: char, pieces: seq<string>)
    requires WholeLines(pieces)
    ensures WholeLines(Prepend(c, pieces))
  {
    var longer := Prepend(c, pieces);
    forall k | 0 <= k < |longer| ensures OneLine(longer[k], k == |longer| - 1) {
      if c == '\n' || pieces == [] {
        assert k > 0 ==> longer[k] == pieces[k - 1] && OneLine(pieces[k - 1], k - 1 == |pieces| - 1);
      } else if k == 0 {
        assert OneLine(pieces[0], 0 == |pieces| - 1);
        PrependKeepsLine(c, pieces[0], |pieces| == 1);
      } else {
        assert longer[k] == pieces[k] && OneLine(pieces[k], k == |pieces| - 1);
      }
    }
  }

  lemma {:induction false} PiecesAreLines(s: string)
    ensures Flatten(Pieces(s)) == s
    ensures WholeLines(Pieces(s))
  {
    if s != "" {
      PiecesAreLines(s[1..]);
      FlattenPrepend(s[0], Pieces(s[1..]));
      PrependKeepsLines(s[0], Pieces(s[1..]));
      hide Prepend, WholeLines;
      assert s == [s[0]] + s[1..];
    }
  }

  lemma EmptyEncoding()
    ensures Encode("") == []
  {
  }

  lemma {:induction false} LinesSuffix(pieces: seq<string>, number: nat, offset: nat, k: nat)
    requires k < |pieces|
    ensures LinesFrom(pieces, number, offset)[k]
         == Line(number + k, offset + |Encode(Flatten(pieces[..k]))|, TrimNewlines(pieces[k]))
  {
    hide Encode;
    if k == 0 {
      assert pieces[..0] == [];
      EmptyEncoding();
    } else {
      LinesSuffix(pieces[1..], number + 1, offset + |Encode(pieces[0])|, k - 1);
      assert pieces[..k] == [pieces[0]] + pieces[1..][..k - 1];
      assert pieces[..k][1..] == pieces[1..][..k - 1];
      EncodeConcat(pieces[0], Flatten(pieces[1..][..k - 1]));
    }
  }

  lemma RestIsLines(pieces: seq<string>)
    requires WholeLines(pieces) && pieces != []
    ensures WholeLines(pieces[1..])
  {
    forall j | 0 <= j < |pieces| - 1 ensures OneLine(pieces[1..][j], j == |pieces| - 2) {
      assert OneLine(pieces[j + 1], j + 1 == |pieces| - 1);
    }
  }

  lemma {:induction false} OneNewline(piece: string)
    requires OneLine(piece, false)
    ensures Newlines(piece) == 1
  {
    if |piece| > 1 {
      assert piece[0] != '\n';
      OneNewline(piece[1..]);
    } else {
      assert piece[1..] == "";
    }
  }

  lemma {:induction false} NewlinesOfLines(pieces: seq<string>, k: nat)
    requires k < |pieces| && WholeLines(pieces)
    ensures Newlines(Flatten(pieces[..k])) == k
  {
    if k == 0 {
      assert pieces[..0] == [];
    } else {
      assert pieces[..k][1..] == pieces[1..][..k - 1];
      NewlinesConcat(pieces[0], Flatten(pieces[1..][..k - 1]));
      assert OneLine(pieces[0], false);
      OneNewline(pieces[0]);
      RestIsLines(pieces);
      NewlinesOfLines(pieces[1..], k - 1);
    }
  }

  /** The text around line `k`: what is before it, the line itself, what follows. */
  ghost predicate LineAt(text: string, line: Line, before: string, piece: string, after: string) {
    && text == before + piece + after
    && (before == "" || before[|before| - 1] == '\n')
    && OneLine(piece, after == "")
    && line == Line(1 + Newlines(before), |Encode(before)|, TrimNewlines(piece))
  }

  lemma {:induction false} FlattenSplit(pieces: seq<string>, k: nat)
    requires k < |pieces|
    ensures Flatten(pieces) == Flatten(pieces[..k]) + pieces[k] + Flatten(pieces[k + 1..])
  {
    if k == 0 {
      assert pieces[..0] == [];
    } else {
      FlattenSplit(pieces[1..], k - 1);
      assert pieces[..k][1..] == pieces[1..][..k - 1];
      assert pieces[1..][k..] == pieces[k + 1..];
      var head, middle := pieces[0], Flatten(pieces[1..][..k - 1]);
      Associative(head, middle + pieces[k], Flatten(pieces[k + 1..]));
      Associative(head, middle, pieces[k]);
    }
  }

  lemma {:induction false} EndsWithNewline(pieces: seq<string>, k: nat)
    requires 0 < k < |pieces| && WholeLines(pieces)
    ensures var before := Flatten(pieces[..k]); before != "" && before[|before| - 1] == '\n'
  {
    assert OneLine(pieces[k - 1], false);
    assert pieces[..k] == pieces[..k - 1] + [pieces[k - 1]];
    FlattenAppend(pieces[..k - 1], pieces[k - 1]);
  }

  /** Line `k` carries its 1-based number and the byte offset at which it starts. */
  lemma LinePosition(text: string, k: nat) returns (before: string, piece: string, after: string)
    requires k < |Pieces(text)|
    ensures LineAt(text, Lines(text)[k], before, piece, after)
    ensures before == Flatten(Pieces(text)[..k]) && Newlines(before) == k
  {
    hide Pieces, Encode, LinesFrom, TrimNewlines, Newlines;
    var pieces := Pieces(text);
    PiecesAreLines(text);
    before, piece, after := Flatten(pieces[..k]), pieces[k], Flatten(pieces[k + 1..]);
    FlattenSplit(pieces, k);
    LinesSuffix(pieces, 1, 0, k);
    NewlinesOfLines(pieces, k);
    if k > 0 {
      EndsWithNewline(pieces, k);
    }
    assert OneLine(piece, k == |pieces| - 1);
    if k + 1 < |pieces| {
      assert OneLine(pieces[k + 1], k + 1 == |pieces| - 1);
      assert pieces[k + 1..][0] == pieces[k + 1];
    }
    if k == 0 {
      assert pieces[..0] == [];
    }
  }

  // ------------------------------------------------------------------------ parsing ---

  predicate IsHex(text: string) {
    text != "" && AllDigits(text, 16)
  }

  function ParseHexU64(text: string): Option<u64> {
    if IsHex(text) then ParseUnsigned(text, 16, U64_LIMIT) else None
  }

  /** The leading run of non-blank characters. */
  function Word(s: string): (w: string)
    ensures w <= s && (forall c :: c in w ==> !IsWhitespace(c))
    ensures s != "" && !IsWhitespace(s[0]) ==> w != ""
  {
    if s == "" || IsWhitespace(s[0]) then "" else [s[0]] + Word(s[1..])
  }

  /** `split_whitespace`. */
  function Fields(s: string): (fields: seq<string>)
    ensures forall w :: w in fields ==> w != "" && forall c :: c in w ==> !IsWhitespace(c)
    decreases |s|
  {
    if s == "" then []
    else if IsWhitespace(s[0]) then Fields(s[1..])
    else [Word(s)] + Fields(s[|Word(s)|..])
  }

  /** The reason a line is refused, or its entry; nothing for a blank line. */
  function LineResult(text: string): Option<Result<Entry, Reason>> {
    var fields := Fields(Trim(text));
    if fields == [] then None
    else if |fields| == 1 then Some(Err(ExpectedThreeFields))
    else if |fields| == 2 then Some(Err(FlagsMissing))
    else if |fields| > 3 then Some(Err(TrailingFields))
    else
      var address := fields[0];
      assert address in fields;
      if address[|address| - 1..] != ":" then Some(Err(NotAnAddressField(address)))
      else
        var virtual, physical := ParseHexU64(address[..|address| - 1]), ParseHexU64(fields[1]);
        if virtual.None? || physical.None? then Some(Err(NotHexadecimal))
        else
          var flags := FlagsOf(fields[2]);
          if flags.None? then Some(Err(BadFlags(fields[2])))
          else Some(Ok(Entry(virtual.value, physical.value, flags.value)))
  }

  function After(entries: seq<Entry>, rest: Result<seq<Entry>, ParseError>): Result<seq<Entry>, ParseError> {
    if rest.Ok? then Ok(entries + rest.value) else rest
  }

  /** The report of `lines`: the entries in order, or the first refused line. */
  function ParseLines(lines: seq<Line>): Result<seq<Entry>, ParseError> {
    if lines == [] then Ok([])
    else
      var first := LineResult(lines[0].text);
      if first == None then ParseLines(lines[1..])
      else if first.value.Err? then
        Err(ParseError(lines[0].number, lines[0].offset, lines[0].text, first.value.error))
      else After([first.value.value], ParseLines(lines[1..]))
  }

  function Parse(text: string): Result<seq<Entry>, ParseError> {
    ParseLines(Lines(text))
  }

  lemma AfterTwice(a: seq<Entry>, b: seq<Entry>, rest: Result<seq<Entry>, ParseError>)
    ensures After(a, After(b, rest)) == After(a + b, rest)
  {
    if rest.Ok? {
      Associative(a, b, rest.value);
    }
  }

  lemma AfterNothing(rest: Result<seq<Entry>, ParseError>)
    ensures After([], rest) == rest
  {
    if rest.Ok? {
      assert [] + rest.value == rest.value;
    }
  }

  /** `parse_info_tlb`. */
  method ParseInfoTlb(text: string) returns (r: Result<seq<Entry>, ParseError>)
    ensures r == Parse(text)
  {
    hide FlagsOf, Fields, Trim, ParseHexU64, Lines;
    var lines := LinesWithOffsets(text);
    var out: seq<Entry> := [];
    assert lines[0..] == lines;
    AfterNothing(ParseLines(lines));
    for i := 0 to |lines|
      invariant ParseLines(lines) == After(out, ParseLines(lines[i..]))
    {
      var line := lines[i];
      assert lines[i..][0] == line && lines[i..][1..] == lines[i + 1..];
      var fields := Fields(Trim(line.text));
      if fields == [] {
        continue;
      }
      if |fields| < 2 {
        return Err(ParseError(line.number, line.offset, line.text, ExpectedThreeFields));
      }
      if |fields| < 3 {
        return Err(ParseError(line.number, line.offset, line.text, FlagsMissing));
      }
      if |fields| > 3 {
        return Err(ParseError(line.number, line.offset, line.text, TrailingFields));
      }
      var address := fields[0];
      assert address in fields;
      if address[|address| - 1..] != ":" {
        return Err(ParseError(line.number, line.offset, line.text, NotAnAddressField(address)));
      }
      var virtual, physical := ParseHexU64(address[..|address| - 1]), ParseHexU64(fields[1]);
      if virtual.None? || physical.None? {
        return Err(ParseError(line.number, line.offset, line.text, NotHexadecimal));
      }
      var flags := DecodeTlbFlags(fields[2]);
      if flags.None? {
        return Err(ParseError(line.number, line.offset, line.text, BadFlags(fields[2])));
      }
      var entry := Entry(virtual.value, physical.value, flags.value);
      AfterTwice(out, [entry], ParseLines(lines[i + 1..]));
      out := out + [entry];
    }
    assert lines[|lines|..] == [] && out + [] == out;
    return Ok(out);
  }

  // -------------------------------------------------------------- the first bad line ---

  predicate Malformed(line: Line) {
    var r := LineResult(line.text);
    r.Some? && r.value.Err?
  }

  /** Line `k` is malformed and no earlier line is. */
  ghost predicate FirstMalformed(lines: seq<Line>, k: nat) {
    && k < |lines| && Malformed(lines[k])
    && forall j :: 0 <= j < k ==> !Malformed(lines[j])
  }

  lemma {:induction false} ErrorOfFirst(lines: seq<Line>, k: nat)
    requires FirstMalformed(lines, k)
    ensures ParseLines(lines)
         == Err(ParseError(lines[k].number, lines[k].offset, lines[k].text, LineResult(lines[k].text).value.error))
  {
    hide LineResult;
    if k > 0 {
      assert !Malformed(lines[0]);
      forall j | 0 <= j < k - 1 ensures !Malformed(lines[1..][j]) {
        assert !Malformed(lines[j + 1]);
      }
      ErrorOfFirst(lines[1..], k - 1);
    }
  }

  lemma {:induction false} SomeLineMalformed(lines: seq<Line>) returns (k: nat)
    requires ParseLines(lines).Err?
    ensures FirstMalformed(lines, k)
  {
    hide LineResult;
    if Malformed(lines[0]) {
      k := 0;
    } else {
      var rest := SomeLineMalformed(lines[1..]);
      k := rest + 1;
      forall j | 0 <= j < k ensures !Malformed(lines[j]) {
        if j > 0 {
          assert !Malformed(lines[1..][j - 1]);
        }
      }
    }
  }

  /** What an error says: the text splits around a malformed line that starts at the
      reported byte offset, has the reported number, and follows well-formed lines only. */
  ghost predicate Locates(text: string, e: ParseError, before: string, piece: string, after: string) {
    && LineAt(text, Line(e.line, e.byteOffset, e.text), before, piece, after)
    && LineResult(e.text) == Some(Err(e.reason))
    && Parse(before).Ok?
  }

  /** A finished line is the first piece of any text it starts. */
  lemma {:induction false} FirstPiece(line: string, rest: string)
    requires OneLine(line, false)
    ensures Pieces(line + rest) == [line] + Pieces(rest)
  {
    assert (line + rest)[1..] == line[1..] + rest;
    if |line| == 1 {
      assert line[1..] + rest == rest;
      assert line == [line[0]];
    } else {
      assert line[0] != '\n';
      FirstPiece(line[1..], rest);
      assert Pieces(line + rest) == [[line[0]] + line[1..]] + Pieces(rest);
      assert line == [line[0]] + line[1..];
    }
  }

  lemma {:induction false} PrefixPieces(pieces: seq<string>, k: nat)
    requires k < |pieces| && WholeLines(pieces)
    ensures Pieces(Flatten(pieces[..k])) == pieces[..k]
  {
    if k == 0 {
      assert pieces[..0] == [];
    } else {
      assert OneLine(pieces[0], false);
      RestIsLines(pieces);
      PrefixPieces(pieces[1..], k - 1);
      assert pieces[..k][1..] == pieces[1..][..k - 1];
      FirstPiece(pieces[0], Flatten(pieces[1..][..k - 1]));
      assert pieces[..k] == [pieces[0]] + pieces[1..][..k - 1];
    }
  }

  lemma {:induction false} LinesPrefix(pieces: seq<string>, number: nat, offset: nat, k: nat)
    requires k <= |pieces|
    ensures LinesFrom(pieces[..k], number, offset) == LinesFrom(pieces, number, offset)[..k]
  {
    hide Encode;
    if k > 0 {
      LinesPrefix(pieces[1..], number + 1, offset + |Encode(pieces[0])|, k - 1);
      assert pieces[..k][1..] == pieces[1..][..k - 1];
    }
  }

  /** A report that fails names its first malformed line, and where it starts. */
  lemma ErrorsLocateTheFirstBadLine(text: string, e: ParseError)
    returns (before: string, piece: string, after: string)
    requires Parse(text) == Err(e)
    ensures Locates(text, e, before, piece, after)
  {
    hide LineResult, Pieces, Encode, LinesFrom, TrimNewlines, Newlines;
    var lines := Lines(text);
    var k := SomeLineMalformed(lines);
    ErrorOfFirst(lines, k);
    before, piece, after := LinePosition(text, k);
    PiecesAreLines(text);
    PrefixPieces(Pieces(text), k);
    LinesPrefix(Pieces(text), 1, 0, k);
    if Parse(before).Err? {
      var j := SomeLineMalformed(Lines(before));
      assert false;
    }
  }

  lemma {:induction false} AcceptedMeansWellFormed(lines: seq<Line>, j: nat)
    requires ParseLines(lines).Ok? && j < |lines|
    ensures !Malformed(lines[j])
  {
    hide LineResult;
    if j > 0 {
      AcceptedMeansWellFormed(lines[1..], j - 1);
    }
  }

  lemma {:induction false} LonePiece(piece: string)
    requires OneLine(piece, true)
    ensures Pieces(piece) == [piece]
  {
    if |piece| == 1 {
      assert piece[1..] == "" && piece == [piece[0]];
    } else {
      assert piece[0] != '\n';
      LonePiece(piece[1..]);
      assert piece == [piece[0]] + piece[1..];
    }
  }

  lemma PieceThenRest(piece: string, after: string)
    requires OneLine(piece, after == "")
    ensures Pieces(piece + after) == [piece] + Pieces(after)
  {
    if after == "" {
      assert piece + after == piece;
      LonePiece(piece);
    } else {
      FirstPiece(piece, after);
    }
  }

  lemma PrependConcat(c: char, pieces: seq<string>, more: seq<string>)
    requires c == '\n' || pieces != []
    ensures Prepend(c, pieces + more) == Prepend(c, pieces) + more
  {
    if c != '\n' {
      assert (pieces + more)[1..] == pieces[1..] + more;
    }
  }

  /** Text made of whole lines splits on its own. */
  lemma {:induction false} PiecesConcat(before: string, rest: string)
    requires before == "" || before[|before| - 1] == '\n'
    ensures Pieces(before + rest) == Pieces(before) + Pieces(rest)
  {
    if before == "" {
      assert before + rest == rest;
    } else {
      assert (before + rest)[1..] == before[1..] + rest;
      PiecesConcat(before[1..], rest);
      PrependConcat(before[0], Pieces(before[1..]), Pieces(rest));
      hide Prepend;
    }
  }

  /** Whatever split of a text around a malformed line is found, with well-formed lines
      before it, is the one the error reports. */
  lemma LocatedErrorsAreReported(text: string, e: ParseError, before: string, piece: string, after: string)
    requires Locates(text, e, before, piece, after)
    ensures Parse(text) == Err(e)
  {
    hide LineResult, Pieces, Encode, LinesFrom, TrimNewlines, Newlines;
    var pieces, k := Pieces(text), |Pieces(before)|;
    assert text == before + (piece + after);
    PiecesConcat(before, piece + after);
    PieceThenRest(piece, after);
    PiecesAreLines(text);
    PiecesAreLines(before);
    assert pieces[..k] == Pieces(before) && pieces[k] == piece;
    LinesSuffix(pieces, 1, 0, k);
    NewlinesOfLines(pieces, k);
    LinesPrefix(pieces, 1, 0, k);
    var lines := Lines(text);
    forall j | 0 <= j < k ensures !Malformed(lines[j]) {
      AcceptedMeansWellFormed(Lines(before), j);
      assert lines[..k][j] == lines[j];
    }
    ErrorOfFirst(lines, k);
  }

  // -------------------------------------------------------- which lines are malformed ---

  predicate Solid(w: string) {
    w != "" && forall k :: 0 <= k < |w| ==> !IsWhitespace(w[k])
  }

  lemma {:induction false} WordOfSolid(w: string, rest: string)
    requires Solid(w) && (rest == "" || IsWhitespace(rest[0]))
    ensures Word(w + rest) == w
  {
    hide IsWhitespace;
    assert (w + rest)[1..] == w[1..] + rest;
    if |w| > 1 {
      assert forall k :: 0 <= k < |w| - 1 ==> w[1..][k] == w[k + 1];
      WordOfSolid(w[1..], rest);
    } else {
      assert w[1..] + rest == rest;
    }
  }

  lemma {:induction false} GapPassed(gap: string, rest: string)
    requires Blank(gap)
    ensures Fields(gap + rest) == Fields(rest)
    decreases |gap|
  {
    hide IsWhitespace;
    if gap == "" {
      assert gap + rest == rest;
    } else {
      assert (gap + rest)[1..] == gap[1..] + rest;
      GapPassed(gap[1..], rest);
    }
  }

  lemma SpreadStarts(words: seq<string>, gaps: seq<string>)
    requires |gaps| == |words| + 1 && Blank(gaps[0]) && (words != [] ==> gaps[0] != "")
    ensures var s := Spread(words, gaps); s == "" || IsWhitespace(s[0])
  {
    hide IsWhitespace;
  }

  /** Words come apart wherever there is whitespace between them. */
  lemma {:induction false} FieldsSpread(words: seq<string>, gaps: seq<string>)
    requires |gaps| == |words| + 1 && Separates(gaps) && forall k :: 0 <= k < |words| ==> Solid(words[k])
    ensures Fields(Spread(words, gaps)) == words
    decreases |words|
  {
    hide IsWhitespace, Word, Blank;
    assert Blank(gaps[0]);
    if words == [] {
      GapPassed(gaps[0], "");
      assert gaps[0] + "" == gaps[0];
    } else {
      var rest := Spread(words[1..], gaps[1..]);
      forall k | 0 <= k < |gaps| - 1
        ensures Blank(gaps[1..][k]) && (0 < k < |gaps| - 2 ==> gaps[1..][k] != "")
      {
        assert gaps[1..][k] == gaps[k + 1];
      }
      FieldsSpread(words[1..], gaps[1..]);
      assert gaps[0] + words[0] + rest == gaps[0] + (words[0] + rest);
      GapPassed(gaps[0], words[0] + rest);
      SpreadStarts(words[1..], gaps[1..]);
      WordOfSolid(words[0], rest);
      assert (words[0] + rest)[|words[0]|..] == rest;
      assert words == [words[0]] + words[1..];
    }
  }

  lemma {:induction false} WordBeforeBlank(s: string, c: char)
    requires IsWhitespace(c)
    ensures Word(s + [c]) == Word(s)
  {
    hide IsWhitespace;
    if s != "" && !IsWhitespace(s[0]) {
      assert (s + [c])[1..] == s[1..] + [c];
      WordBeforeBlank(s[1..], c);
    }
  }

  lemma {:induction false} FieldsBeforeBlank(s: string, c: char)
    requires IsWhitespace(c)
    ensures Fields(s + [c]) == Fields(s)
    decreases |s|
  {
    hide IsWhitespace;
    if s == "" {
      assert (s + [c])[1..] == "";
    } else if IsWhitespace(s[0]) {
      assert (s + [c])[1..] == s[1..] + [c];
      FieldsBeforeBlank(s[1..], c);
    } else {
      WordBeforeBlank(s, c);
      var n := |Word(s)|;
      assert (s + [c])[n..] == s[n..] + [c];
      FieldsBeforeBlank(s[n..], c);
    }
  }

  lemma {:induction false} FieldsOfTrimStart(s: string)
    ensures Fields(TrimStart(s)) == Fields(s)
  {
    hide IsWhitespace, Word;
    if s != "" && IsWhitespace(s[0]) {
      FieldsOfTrimStart(s[1..]);
    }
  }

  lemma {:induction false} FieldsOfTrimEnd(s: string)
    ensures Fields(TrimEnd(s)) == Fields(s)
    decreases |s|
  {
    hide IsWhitespace, Word, Fields;
    if s != "" && IsWhitespace(s[|s| - 1]) {
      FieldsOfTrimEnd(s[..|s| - 1]);
      FieldsBeforeBlank(s[..|s| - 1], s[|s| - 1]);
      assert s[..|s| - 1] + [s[|s| - 1]] == s;
    }
  }

  lemma LineWords(words: seq<string>, gaps: seq<string>)
    requires |gaps| == |words| + 1 && Separates(gaps) && forall k :: 0 <= k < |words| ==> Solid(words[k])
    ensures Fields(Trim(Spread(words, gaps))) == words
  {
    hide Fields, TrimStart, TrimEnd, Solid, Separates;
    var s := Spread(words, gaps);
    FieldsSpread(words, gaps);
    FieldsOfTrimStart(s);
    FieldsOfTrimEnd(TrimStart(s));
  }

  lemma NoSign(s: string)
    requires s != "" && AllDigits(s, 16)
    ensures s[0] != '+'
  {
    assert s[0] in s;
  }

  /** An address is any hexadecimal spelling of a number below 2^64. */
  lemma AddressIff(s: string, n: nat)
    ensures ParseHexU64(s) == Some(n) <==> SpellsHex(s, n) && n < 0x1_0000_0000_0000_0000
  {
    hide DigitValue, ValueOf, HexDigits, Zeros, SpellsHex;
    if SpellsHex(s, n) {
      SpelledHex(s, n);
      ParseHexText(s, n, U64_LIMIT);
    }
    if ParseHexU64(s) == Some(n) {
      NoSign(s);
      DigitsSpell(s);
    }
  }

  lemma DigitIsSolid(c: char)
    ensures DigitValue(c).Some? ==> !IsWhitespace(c)
    ensures !IsWhitespace(':')
  {
  }

  lemma SpelledIsSolid(s: string, n: nat)
    requires SpellsHex(s, n)
    ensures Solid(s) && Solid(s + ":")
  {
    SpelledHex(s, n);
    hide ValueOf, DigitValue, IsWhitespace, SpellsHex;
    forall k | 0 <= k < |s| ensures !IsWhitespace(s[k]) {
      assert s[k] in s;
      DigitIsSolid(s[k]);
    }
    DigitIsSolid('0');
  }

  lemma RenderedFlagsSolid(f: TlbFlags)
    ensures Solid(RenderFlags(f)) && '\n' !in RenderFlags(f)
  {
    forall c | c in RenderFlags(f) ensures c == '-' || 'A' <= c <= 'Z' {}
    assert forall k :: 0 <= k < 9 ==> RenderFlags(f)[k] in RenderFlags(f);
  }

  /** Three words make an entry, however they are spaced: a hexadecimal address with a colon,
      a hexadecimal address, and the nine columns of the flags. */
  lemma LineAccepted(virtual: string, physical: string, gaps: seq<string>, e: Entry)
    requires |gaps| == 4 && Separates(gaps)
    requires SpellsHex(virtual, e.virtualAddress) && SpellsHex(physical, e.physicalAddress)
    ensures LineResult(Spread([virtual + ":", physical, RenderFlags(e.flags)], gaps)) == Some(Ok(e))
  {
    hide Fields, Trim, FlagsOf, ParseHexU64, SpellsHex, RenderFlags, Spread, Separates, Solid;
    var words := [virtual + ":", physical, RenderFlags(e.flags)];
    SpelledIsSolid(virtual, e.virtualAddress);
    SpelledIsSolid(physical, e.physicalAddress);
    RenderedFlagsSolid(e.flags);
    LineWords(words, gaps);
    AddressIff(virtual, e.virtualAddress);
    AddressIff(physical, e.physicalAddress);
    FlagsInverse(RenderFlags(e.flags), e.flags);
    assert words[0][|words[0]| - 1..] == ":" && words[0][..|words[0]| - 1] == virtual;
  }

  predicate EndsInColon(w: string) {
    w != "" && w[|w| - 1] == ':'
  }

  lemma RefusedWords(virtual: string, physical: string, flags: string)
    ensures (forall n: u64 :: !SpellsHex(virtual, n)) <==> ParseHexU64(virtual).None?
    ensures (forall n: u64 :: !SpellsHex(physical, n)) <==> ParseHexU64(physical).None?
    ensures (forall f: TlbFlags :: flags != RenderFlags(f)) <==> FlagsOf(flags).None?
  {
    hide FlagsOf, ParseHexU64, SpellsHex, RenderFlags;
    forall n: nat ensures ParseHexU64(virtual) == Some(n) <==> SpellsHex(virtual, n) && n < U64_LIMIT {
      AddressIff(virtual, n);
    }
    forall n: nat ensures ParseHexU64(physical) == Some(n) <==> SpellsHex(physical, n) && n < U64_LIMIT {
      AddressIff(physical, n);
    }
    forall f: TlbFlags ensures FlagsOf(flags) == Some(f) <==> flags == RenderFlags(f) {
      FlagsInverse(flags, f);
    }
    if ParseHexU64(virtual).Some? {
      assert SpellsHex(virtual, ParseHexU64(virtual).value);
    }
    if ParseHexU64(physical).Some? {
      assert SpellsHex(physical, ParseHexU64(physical).value);
    }
  }

  /** Every other line is refused, for the first of these reasons that holds; a line without
      words is passed over. */
  lemma LineRefused(words: seq<string>, gaps: seq<string>)
    requires |gaps| == |words| + 1 && Separates(gaps) && forall k :: 0 <= k < |words| ==> Solid(words[k])
    ensures var r := LineResult(Spread(words, gaps));
            && (|words| == 0 ==> r == None)
            && (|words| == 1 ==> r == Some(Err(ExpectedThreeFields)))
            && (|words| == 2 ==> r == Some(Err(FlagsMissing)))
            && (|words| > 3 ==> r == Some(Err(TrailingFields)))
            && (|words| == 3 && !EndsInColon(words[0]) ==> r == Some(Err(NotAnAddressField(words[0]))))
            && (|words| == 3 && EndsInColon(words[0]) ==>
                  var virtual := words[0][..|words[0]| - 1];
                  && ((forall n: u64 :: !SpellsHex(virtual, n)) || (forall n: u64 :: !SpellsHex(words[1], n)) ==>
                        r == Some(Err(NotHexadecimal)))
                  && ((exists n: u64 :: SpellsHex(virtual, n)) && (exists n: u64 :: SpellsHex(words[1], n))
                      && (forall f: TlbFlags :: words[2] != RenderFlags(f)) ==>
                        r == Some(Err(BadFlags(words[2])))))
  {
    hide Fields, Trim, FlagsOf, ParseHexU64, SpellsHex, RenderFlags, Spread, Separates;
    LineWords(words, gaps);
    if |words| == 3 {
      var address := words[0];
      assert Solid(address) && (address[|address| - 1..] == ":" <==> EndsInColon(address));
      if EndsInColon(address) {
        RefusedWords(address[..|address| - 1], words[1], words[2]);
      }
    }
  }

  // ------------------------------------------------------------------- the round trip ---

  /** `%0<width>x`. */
  function HexPadded(n: nat, width: nat): (s: string)
    ensures |s| == width
    ensures forall c :: c in s ==> !IsWhitespace(c) && c != ':' && c != '\n'
  {
    if width == 0 then "" else HexPadded(n / 16, width - 1) + [HexDigit(n % 16)]
  }

  /** How many values `width` hexadecimal digits have. */
  function Pow16(width: nat): (p: nat)
    ensures p >= 1
  {
    Pow2(4 * width)
  }

  lemma Pow16Step(width: nat)
    requires width > 0
    ensures Pow16(width) == 16 * Pow16(width - 1)
  {
    Pow2By4(4 * (width - 1));
  }

  lemma Pow16Limit()
    ensures Pow16(16) == U64_LIMIT
  {
    Pow2Values();
    Pow2Sum(12, 4);
    Pow2Sum(16, 16);
    Pow2Sum(32, 32);
  }

  lemma {:induction false} PaddedValue(n: nat, width: nat)
    requires n < Pow16(width)
    ensures AllDigits(HexPadded(n, width), 16) && ValueOf(HexPadded(n, width), 16) == n
  {
    var s := HexPadded(n, width);
    if width == 0 {
      Pow2Zero();
    } else {
      Pow16Step(width);
      hide Pow16;
      PaddedValue(n / 16, width - 1);
      assert s[..|s| - 1] == HexPadded(n / 16, width - 1);
    }
  }

  lemma PaddedRoundTrip(n: u64)
    ensures ParseHexU64(HexPadded(n, 16)) == Some(n)
  {
    hide Pow16, HexPadded, AllDigits, ValueOf;
    Pow16Limit();
    PaddedValue(n, 16);
    NoSign(HexPadded(n, 16));
  }

  function Body(e: Entry): string {
    HexPadded(e.virtualAddress, 16) + ":" + " " + HexPadded(e.physicalAddress, 16) + " " + RenderFlags(e.flags)
  }

  /** The monitor's report of `entries`, one line each. */
  function Render(entries: seq<Entry>, ending: string): string {
    if entries == [] then "" else Body(entries[0]) + ending + Render(entries[1..], ending)
  }

  lemma FieldsOfSolid(w: string, rest: string)
    requires Solid(w)
    ensures Fields(w) == [w]
    ensures Fields(w + " " + rest) == [w] + Fields(rest)
  {
    assert w[0] in w;
    WordOfSolid(w, "");
    assert w + "" == w && w[|w|..] == "";
    WordOfSolid(w, " " + rest);
    assert w + " " + rest == w + (" " + rest);
    assert (w + " " + rest)[|w|..] == " " + rest && (" " + rest)[1..] == rest;
  }

  lemma TrimTight(s: string)
    requires s != "" && !IsWhitespace(s[0]) && !IsWhitespace(s[|s| - 1])
    ensures Trim(s) == s
  {
  }

  lemma AddressSolid(n: nat)
    ensures Solid(HexPadded(n, 16)) && Solid(HexPadded(n, 16) + ":")
  {
  }

  lemma BodyFields(e: Entry)
    ensures Fields(Body(e))
         == [HexPadded(e.virtualAddress, 16) + ":", HexPadded(e.physicalAddress, 16), RenderFlags(e.flags)]
  {
    hide RenderFlags, HexPadded, Fields, Solid;
    var v, p, f := HexPadded(e.virtualAddress, 16), HexPadded(e.physicalAddress, 16), RenderFlags(e.flags);
    AddressSolid(e.virtualAddress);
    AddressSolid(e.physicalAddress);
    RenderedFlagsSolid(e.flags);
    assert Body(e) == (v + ":") + " " + (p + " " + f);
    FieldsOfSolid(v + ":", p + " " + f);
    FieldsOfSolid(p, f);
    FieldsOfSolid(f, "");
  }

  lemma BodyEnds(e: Entry)
    ensures var b := Body(e); b != "" && '\n' !in b && !IsWhitespace(b[0]) && !IsWhitespace(b[|b| - 1])
  {
    hide RenderFlags, HexPadded;
    var v, p, f := HexPadded(e.virtualAddress, 16), HexPadded(e.physicalAddress, 16), RenderFlags(e.flags);
    RenderedFlagsSolid(e.flags);
    assert v[0] in v && f[|f| - 1] in f;
    assert Body(e)[|Body(e)| - 1] == f[|f| - 1];
  }

  /** A printed line parses back to its entry. */
  lemma BodyParses(e: Entry)
    ensures LineResult(Body(e)) == Some(Ok(e))
  {
    hide RenderFlags, FlagsOf, ParseHexU64, Fields, Body, Trim;
    BodyEnds(e);
    TrimTight(Body(e));
    BodyFields(e);
    PaddedRoundTrip(e.virtualAddress);
    PaddedRoundTrip(e.physicalAddress);
    FlagsInverse(RenderFlags(e.flags), e.flags);
    assert (HexPadded(e.virtualAddress, 16) + ":")[..16] == HexPadded(e.virtualAddress, 16);
  }

  lemma EndedLine(body: string, ending: string)
    requires body != "" && '\n' !in body && !IsWhitespace(body[|body| - 1]) && (ending == "\n" || ending == "\r\n")
    ensures TrimNewlines(body + ending) == body && OneLine(body + ending, false)
  {
    var line := body + ending;
    assert line[..|line| - 1] == if ending == "\n" then body else body + "\r";
    assert TrimNewlines(body) == body;
    assert (body + "\r")[..|body|] == body && TrimNewlines(body + "\r") == body;
    forall j | 0 <= j < |line| - 1 ensures line[j] != '\n' {
      assert j < |body| ==> line[j] == body[j];
    }
  }

  lemma NoPieces()
    ensures Pieces("") == []
  {
  }

  lemma {:induction false} RenderedLinesParse(entries: seq<Entry>, ending: string, number: nat, offset: nat)
    requires ending == "\n" || ending == "\r\n"
    ensures ParseLines(LinesFrom(Pieces(Render(entries, ending)), number, offset)) == Ok(entries)
  {
    hide Encode, LineResult, Body, Pieces, OneLine;
    if entries == [] {
      NoPieces();
    } else {
      var line := Body(entries[0]) + ending;
      BodyEnds(entries[0]);
      EndedLine(Body(entries[0]), ending);
      FirstPiece(line, Render(entries[1..], ending));
      BodyParses(entries[0]);
      RenderedLinesParse(entries[1..], ending, number + 1, offset + |Encode(line)|);
      assert entries == [entries[0]] + entries[1..];
    }
  }

  /** Parsing undoes printing, whichever way the lines end. */
  lemma RoundTrip(entries: seq<Entry>, ending: string)
    requires ending == "\n" || ending == "\r\n"
    ensures Parse(Render(entries, ending)) == Ok(entries)
  {
    RenderedLinesParse(entries, ending, 1, 0);
  }
}
