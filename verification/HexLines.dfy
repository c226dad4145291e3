/** The display rows of `hex.rs`: sixteen bytes as a hexadecimal and an ASCII column. */
module HexLines {
  import opened Wrappers
  import opened Words
  import opened Text

  const BYTES_PER_ROW: nat := 16

  datatype HexLine = HexLine(offset: nat, bytes: seq<u8>, hex: string, ascii: string, atEof: bool)

  /** The cell of a byte, or of a place past the end of the image. */
  function Cell(bytes: seq<u8>, k: nat): string {
    if k < |bytes| then [HexDigit(bytes[k] / 16), HexDigit(bytes[k] % 16)] else "??"
  }

  function Cells(bytes: seq<u8>, n: nat): (cells: seq<string>)
    ensures |cells| == n && forall k :: 0 <= k < n ==> cells[k] == Cell(bytes, k)
  {
    if n == 0 then [] else Cells(bytes, n - 1) + [Cell(bytes, n - 1)]
  }

  function HexText(bytes: seq<u8>): string {
    Join(Cells(bytes, BYTES_PER_ROW), " ")
  }

  /** A byte in the ASCII column: itself when it is a graphic character or a space. */
  function AsciiChar(bytes: seq<u8>, k: nat): char {
    if k >= |bytes| then ' '
    else if 0x20 <= bytes[k] <= 0x7E then bytes[k] as char
    else '.'
  }

  function AsciiText(bytes: seq<u8>, n: nat): (text: string)
    ensures |text| == n && forall k :: 0 <= k < n ==> text[k] == AsciiChar(bytes, k)
  {
    if n == 0 then "" else AsciiText(bytes, n - 1) + [AsciiChar(bytes, n - 1)]
  }

  /** The line of the bytes at an offset. */
  function LineOf(offset: nat, bytes: seq<u8>): HexLine {
    HexLine(offset, bytes, HexText(bytes), AsciiText(bytes, BYTES_PER_ROW), |bytes| < BYTES_PER_ROW)
  }

  lemma LineParts(offset: nat, bytes: seq<u8>)
    ensures var line := LineOf(offset, bytes);
            line.offset == offset && line.bytes == bytes && (line.atEof <==> |bytes| < BYTES_PER_ROW)
  {
    hide HexText, AsciiText;
  }

  /** Every cell followed by a space. */
  function Spaced(cells: seq<string>): string {
    if cells == [] then "" else Spaced(cells[..|cells| - 1]) + cells[|cells| - 1] + " "
  }

  lemma {:induction false} JoinAppend(cells: seq<string>, last: string)
    requires cells != []
    ensures Join(cells + [last], " ") == Join(cells, " ") + " " + last
  {
    assert (cells + [last])[1..] == cells[1..] + [last];
    if |cells| > 1 {
      JoinAppend(cells[1..], last);
      assert (cells + [last])[0] == cells[0];
      var head := cells[0] + " ";
      assert head + (Join(cells[1..], " ") + " " + last) == head + Join(cells[1..], " ") + " " + last;
    } else {
      assert cells[1..] + [last] == [last];
    }
  }

  lemma {:induction false} SpacedIsJoin(cells: seq<string>)
    requires cells != []
    ensures Spaced(cells) == Join(cells, " ") + " "
  {
    var front, last := cells[..|cells| - 1], cells[|cells| - 1];
    assert cells == front + [last];
    if front != [] {
      SpacedIsJoin(front);
      JoinAppend(front, last);
    }
  }

  lemma {:induction false} JoinEndsIn(cells: seq<string>)
    requires cells != [] && cells[|cells| - 1] != ""
    ensures var text, last := Join(cells, " "), cells[|cells| - 1];
            text != "" && text[|text| - 1] == last[|last| - 1]
  {
    if |cells| > 1 {
      JoinEndsIn(cells[1..]);
    }
  }

  lemma SpaceTrims(text: string)
    ensures IsWhitespace(' ')
    ensures text != "" && !IsWhitespace(text[|text| - 1]) ==> TrimEnd(text) == text
  {
  }

  /** Trimming the spaced cells leaves them joined. */
  lemma TrimmedCells(cells: seq<string>)
    requires cells != [] && forall c :: c in cells ==> c != "" && !IsWhitespace(c[|c| - 1])
    ensures TrimEnd(Spaced(cells)) == Join(cells, " ")
  {
    hide IsWhitespace;
    SpacedIsJoin(cells);
    JoinEndsIn(cells);
    var text := Join(cells, " ");
    assert cells[|cells| - 1] in cells;
    hide Join, Spaced;
    assert (text + " ")[..|text|] == text;
    SpaceTrims(text);
  }

  lemma CellIsSolid(bytes: seq<u8>, k: nat)
    ensures var c := Cell(bytes, k); |c| == 2 && c[0] != ' ' && c[1] != ' ' && !IsWhitespace(c[1])
  {
  }

  /** `render_line`. */
  method RenderLine(offset: nat, bytes: seq<u8>, atEof: bool) returns (line: HexLine)
    ensures line == LineOf(offset, bytes).(atEof := atEof)
  {
    hide Cell, AsciiChar, IsWhitespace, Join, TrimEnd;
    var hex, ascii := "", "";
    for index := 0 to BYTES_PER_ROW
      invariant hex == Spaced(Cells(bytes, index)) && ascii == AsciiText(bytes, index)
    {
      assert Cells(bytes, index + 1)[..index] == Cells(bytes, index);
      hex := hex + Cell(bytes, index) + " ";
      ascii := ascii + [AsciiChar(bytes, index)];
    }
    var cells := Cells(bytes, BYTES_PER_ROW);
    forall c | c in cells ensures c != "" && !IsWhitespace(c[|c| - 1]) {
      var k :| 0 <= k < |cells| && cells[k] == c;
      CellIsSolid(bytes, k);
    }
    TrimmedCells(cells);
    return HexLine(offset, bytes, TrimEnd(hex), ascii, atEof);
  }

  // -------------------------------------------------------------- reading a line back ---

  /** The byte a cell shows. */
  function CellByte(cell: string): Option<nat> {
    if |cell| == 2 && DigitValue(cell[0]).Some? && DigitValue(cell[1]).Some? then
      Some(DigitValue(cell[0]).value * 16 + DigitValue(cell[1]).value)
    else None
  }

  /** The bytes of a hexadecimal column, up to the first cell past the end. */
  function BytesIn(cells: seq<string>): seq<nat> {
    if cells == [] || CellByte(cells[0]).None? then []
    else [CellByte(cells[0]).value] + BytesIn(cells[1..])
  }

  lemma {:induction false} SplitJoined(cells: seq<string>)
    requires cells != [] && forall c :: c in cells ==> ' ' !in c
    ensures Split(Join(cells, " "), ' ') == cells
  {
    assert cells[0] in cells;
    if |cells| == 1 {
      SplitFirst(cells[0], "", ' ');
    } else {
      SplitFirst(cells[0], Join(cells[1..], " "), ' ');
      SplitJoined(cells[1..]);
      assert cells == [cells[0]] + cells[1..];
    }
  }

  lemma {:induction false} CellsShow(bytes: seq<u8>, n: nat, k: nat)
    requires k <= n && |bytes| <= n
    ensures k <= |bytes| ==> BytesIn(Cells(bytes, n)[k..]) == bytes[k..]
    decreases n - k
  {
    var cells := Cells(bytes, n);
    hide Cells;
    if k < |bytes| {
      assert cells[k..][0] == cells[k] && cells[k..][1..] == cells[k + 1..];
      CellsShow(bytes, n, k + 1);
      assert bytes[k..] == [bytes[k]] + bytes[k + 1..];
    } else if k == |bytes| < n {
      assert cells[k..][0] == "??";
    }
  }

  /** The hexadecimal column of a row tells exactly its bytes. */
  lemma HexColumnReadsBack(bytes: seq<u8>)
    requires |bytes| <= BYTES_PER_ROW
    ensures BytesIn(Split(HexText(bytes), ' ')) == bytes
  {
    var cells := Cells(bytes, BYTES_PER_ROW);
    hide Cells, Cell, BytesIn;
    forall c | c in cells ensures ' ' !in c {
      var k :| 0 <= k < |cells| && cells[k] == c;
      CellIsSolid(bytes, k);
    }
    SplitJoined(cells);
    CellsShow(bytes, BYTES_PER_ROW, 0);
    assert cells[0..] == cells && bytes[0..] == bytes;
  }

  /** The ASCII column: the graphic characters and the space as themselves, a dot for any
      other byte, and a space past the end. */
  lemma AsciiColumn(offset: nat, bytes: seq<u8>, k: nat)
    requires k < 16
    ensures var line := LineOf(offset, bytes);
            && |line.ascii| == 16
            && (k >= |bytes| ==> line.ascii[k] == ' ')
            && (k < |bytes| && ' ' as int <= bytes[k] <= '~' as int ==> line.ascii[k] as int == bytes[k])
            && (k < |bytes| && (bytes[k] < ' ' as int || bytes[k] > '~' as int) ==> line.ascii[k] == '.')
  {
    hide HexText;
  }
}
