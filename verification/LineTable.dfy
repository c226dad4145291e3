/** The address-to-line table of `source.rs`: from point rows to coalesced intervals. */
module LineTable {
  import opened Wrappers
  import opened Words

  datatype Tag = Tag(file: string, line: u32, column: Option<u32>)

  /** A line row: where it starts and what it names. */
  datatype Row = Row(start: u64, tag: Tag)

  datatype LineRange = LineRange(start: nat, end: nat, tag: Tag)

  // -------------------------------------------------------------------- sorting ---

  predicate Sorted(rows: seq<Row>) {
    forall i, j :: 0 <= i < j < |rows| ==> rows[i].start <= rows[j].start
  }

  /** No two rows start at one address below `top`. */
  predicate DistinctBelow(rows: seq<Row>, top: nat) {
    forall i, j :: 0 <= i < j < |rows| && rows[i].start == rows[j].start ==> rows[i].start >= top
  }

  predicate DistinctStarts(rows: seq<Row>) {
    DistinctBelow(rows, U64_LIMIT)
  }

  /** Every row starts below the last address. */
  predicate Bounded(rows: seq<Row>) {
    forall row :: row in rows ==> row.start < U64_LIMIT - 1
  }

  /** Insert in front of the rows that start no earlier. */
  function Insert(row: Row, rows: seq<Row>): seq<Row> {
    if rows == [] || row.start <= rows[0].start then [row] + rows
    else [rows[0]] + Insert(row, rows[1..])
  }

  /** `sort_by_key(start)`: stable. */
  function Sort(rows: seq<Row>): seq<Row> {
    if rows == [] then [] else Insert(rows[0], Sort(rows[1..]))
  }

  /** The rows that start at `start`, in order. */
  function StartingAt(rows: seq<Row>, start: u64): seq<Row> {
    if rows == [] then []
    else (if rows[0].start == start then [rows[0]] else []) + StartingAt(rows[1..], start)
  }

  lemma {:induction false} InsertElements(row: Row, rows: seq<Row>)
    ensures multiset(Insert(row, rows)) == multiset{row} + multiset(rows)
  {
    if rows != [] && row.start > rows[0].start {
      InsertElements(row, rows[1..]);
      assert rows == [rows[0]] + rows[1..];
    }
  }

  lemma PrependSorted(row: Row, rows: seq<Row>)
    requires Sorted(rows) && forall k :: 0 <= k < |rows| ==> row.start <= rows[k].start
    ensures Sorted([row] + rows)
  {
  }

  lemma {:induction false} InsertSorted(row: Row, rows: seq<Row>)
    requires Sorted(rows)
    ensures Sorted(Insert(row, rows))
  {
    if rows != [] && row.start > rows[0].start {
      InsertSorted(row, rows[1..]);
      InsertElements(row, rows[1..]);
      var rest := Insert(row, rows[1..]);
      hide Insert;
      forall k | 0 <= k < |rest| ensures rows[0].start <= rest[k].start {
        assert rest[k] in multiset(rest);
        assert rest[k] == row || rest[k] in rows[1..];
      }
      PrependSorted(rows[0], rest);
    }
  }

  lemma StartingAtPrepend(row: Row, rows: seq<Row>, start: u64)
    ensures StartingAt([row] + rows, start)
         == if row.start == start then [row] + StartingAt(rows, start) else StartingAt(rows, start)
  {
    assert ([row] + rows)[1..] == rows;
  }

  lemma {:induction false} InsertStable(row: Row, rows: seq<Row>, start: u64)
    ensures StartingAt(Insert(row, rows), start)
         == if row.start == start then [row] + StartingAt(rows, start) else StartingAt(rows, start)
  {
    if rows == [] || row.start <= rows[0].start {
      StartingAtPrepend(row, rows, start);
    } else {
      InsertStable(row, rows[1..], start);
      StartingAtPrepend(rows[0], Insert(row, rows[1..]), start);
      StartingAtPrepend(rows[0], rows[1..], start);
      hide StartingAt;
      assert rows == [rows[0]] + rows[1..];
    }
  }

  lemma {:induction false} SortElements(rows: seq<Row>)
    ensures Sorted(Sort(rows))
    ensures multiset(Sort(rows)) == multiset(rows)
  {
    if rows != [] {
      SortElements(rows[1..]);
      InsertElements(rows[0], Sort(rows[1..]));
      InsertSorted(rows[0], Sort(rows[1..]));
      hide Insert, Sorted;
      assert rows == [rows[0]] + rows[1..];
    }
  }

  lemma {:induction false} SortStable(rows: seq<Row>, start: u64)
    ensures StartingAt(Sort(rows), start) == StartingAt(rows, start)
  {
    if rows != [] {
      SortStable(rows[1..], start);
      InsertStable(rows[0], Sort(rows[1..]), start);
      StartingAtPrepend(rows[0], rows[1..], start);
      hide StartingAt, Insert;
      assert rows == [rows[0]] + rows[1..];
    }
  }

  /** Sorting is a stable permutation into ascending starts. */
  lemma SortIsStablePermutation(rows: seq<Row>, start: u64)
    ensures Sorted(Sort(rows))
    ensures multiset(Sort(rows)) == multiset(rows)
    ensures StartingAt(Sort(rows), start) == StartingAt(rows, start)
  {
    SortElements(rows);
    SortStable(rows, start);
  }

  // ------------------------------------------------------------------- coalescing ---

  /** Where the interval of row `i` ends: at the next row, but never before the row
      covers one address. */
  function EndAt(rows: seq<Row>, i: nat): nat
    requires i < |rows|
  {
    var least := SaturatingAdd(rows[i].start, 1);
    var next := if i + 1 < |rows| then rows[i + 1].start else least;
    if next >= least then next else least
  }

  /** Extend the last interval to `end` when it abuts the row and names the same line;
      otherwise begin a new one. */
  function AddRow(segments: seq<LineRange>, row: Row, end: nat): (r: seq<LineRange>)
    ensures r != []
  {
    var last := |segments| - 1;
    if segments != [] && segments[last].end == row.start && segments[last].tag == row.tag then
      segments[..last] + [segments[last].(end := end)]
    else segments + [LineRange(row.start, end, row.tag)]
  }

  /** The intervals after the first `n` rows. */
  function SegmentsOf(rows: seq<Row>, n: nat): (segments: seq<LineRange>)
    requires n <= |rows|
    ensures n > 0 ==> segments != []
  {
    if n == 0 then [] else AddRow(SegmentsOf(rows, n - 1), rows[n - 1], EndAt(rows, n - 1))
  }

  /** `build_segments`, from the collected rows on. */
  method BuildSegments(rows: seq<Row>) returns (out: seq<LineRange>)
    ensures out == SegmentsOf(Sort(rows), |Sort(rows)|)
  {
    hide Sort;
    var sorted := Sort(rows);
    out := [];
    for index := 0 to |sorted|
      invariant out == SegmentsOf(sorted, index)
    {
      var row := sorted[index];
      var least := SaturatingAdd(row.start, 1);
      var end := if index + 1 < |sorted| then sorted[index + 1].start else least;
      if end < least {
        end := least;
      }
      if out != [] && out[|out| - 1].end == row.start && out[|out| - 1].tag == row.tag {
        out := out[..|out| - 1] + [out[|out| - 1].(end := end)];
      } else {
        out := out + [LineRange(row.start, end, row.tag)];
      }
    }
  }

  // ----------------------------------------------------------------- what it means ---

  predicate NonOverlapping(segments: seq<LineRange>) {
    forall k :: 0 <= k < |segments| - 1 ==> segments[k].end <= segments[k + 1].start
  }

  /** Sorted, contiguous, non-empty, and no two neighbours alike. */
  predicate Tiling(segments: seq<LineRange>) {
    && (forall k :: 0 <= k < |segments| ==> segments[k].start < segments[k].end)
    && (forall k :: 0 <= k < |segments| - 1 ==>
          segments[k].end == segments[k + 1].start && segments[k].tag != segments[k + 1].tag)
  }

  ghost predicate Names(s: LineRange, rows: seq<Row>) {
    && (exists row :: row in rows && row.start == s.start)
    && (forall row :: row in rows && s.start <= row.start < s.end ==> row.tag == s.tag)
  }

  /** Every segment starts at a row and names what each row inside it names. */
  ghost predicate Faithful(segments: seq<LineRange>, rows: seq<Row>) {
    forall s :: s in segments ==> Names(s, rows)
  }

  predicate Strict(rows: seq<Row>) {
    forall i, j :: 0 <= i < j < |rows| ==> rows[i].start < rows[j].start
  }

  lemma ExtendTiles(segments: seq<LineRange>, end: nat)
    requires Tiling(segments) && segments != [] && segments[|segments| - 1].end < end
    ensures Tiling(segments[..|segments| - 1] + [segments[|segments| - 1].(end := end)])
  {
    var r := segments[..|segments| - 1] + [segments[|segments| - 1].(end := end)];
    assert forall k :: 0 <= k < |segments| - 1 ==> r[k] == segments[k];
  }

  lemma AppendTiles(segments: seq<LineRange>, s: LineRange)
    requires Tiling(segments) && s.start < s.end
    requires segments == [] || (segments[|segments| - 1].end == s.start && segments[|segments| - 1].tag != s.tag)
    ensures Tiling(segments + [s])
  {
    assert forall k :: 0 <= k < |segments| ==> (segments + [s])[k] == segments[k];
  }

  lemma AddRowTiles(segments: seq<LineRange>, row: Row, end: nat)
    requires Tiling(segments) && row.start < end
    requires segments == [] || segments[|segments| - 1].end == row.start
    ensures var r := AddRow(segments, row, end);
            && Tiling(r) && r[|r| - 1].end == end
            && r[0].start == if segments == [] then row.start else segments[0].start
  {
    var last := |segments| - 1;
    if segments != [] && segments[last].tag == row.tag {
      ExtendTiles(segments, end);
    } else {
      AppendTiles(segments, LineRange(row.start, end, row.tag));
    }
    hide Tiling;
  }

  lemma NothingTiles()
    ensures Tiling([])
  {
  }

  lemma {:induction false} SegmentsTile(rows: seq<Row>, n: nat)
    requires Strict(rows) && Bounded(rows) && n <= |rows|
    ensures var segments := SegmentsOf(rows, n);
            && Tiling(segments)
            && (n > 0 ==> segments[0].start == rows[0].start && segments[|segments| - 1].end == EndAt(rows, n - 1))
  {
    hide Tiling, AddRow;
    if n > 0 {
      SegmentsTile(rows, n - 1);
      assert rows[n - 1] in rows;
      AddRowTiles(SegmentsOf(rows, n - 1), rows[n - 1], EndAt(rows, n - 1));
    } else {
      NothingTiles();
    }
  }

  lemma NamesStill(s: LineRange, rows: seq<Row>, row: Row)
    requires Names(s, rows) && s.end <= row.start
    ensures Names(s, rows + [row])
  {
    var r :| r in rows && r.start == s.start;
    assert r in rows + [row];
  }

  lemma NamesExtended(s: LineRange, rows: seq<Row>, row: Row, end: nat)
    requires Names(s, rows) && s.end == row.start && s.tag == row.tag
    requires forall r :: r in rows ==> r.start < row.start
    ensures Names(s.(end := end), rows + [row])
  {
    var r :| r in rows && r.start == s.start;
    assert r in rows + [row];
  }

  lemma AddRowFaithful(segments: seq<LineRange>, rows: seq<Row>, row: Row, end: nat)
    requires Faithful(segments, rows)
    requires forall s :: s in segments ==> s.end <= row.start
    requires forall r :: r in rows ==> r.start < row.start
    requires row.start < end
    ensures Faithful(AddRow(segments, row, end), rows + [row])
  {
    var after := AddRow(segments, row, end);
    forall s | s in after ensures Names(s, rows + [row]) {
      if s in segments {
        NamesStill(s, rows, row);
      } else if s.start == row.start {
        assert row in rows + [row];
      } else {
        NamesExtended(segments[|segments| - 1], rows, row, end);
      }
    }
  }

  lemma RowsBefore(rows: seq<Row>, n: nat)
    requires Strict(rows) && 0 < n <= |rows|
    ensures forall r :: r in rows[..n - 1] ==> r.start < rows[n - 1].start
  {
  }

  lemma {:induction false} TilingOrdered(segments: seq<LineRange>, i: nat, j: nat)
    requires Tiling(segments) && i <= j < |segments|
    ensures segments[i].start <= segments[j].start && segments[i].end <= segments[j].end
    ensures i < j ==> segments[i].end <= segments[j].start
    decreases j - i
  {
    if i < j {
      TilingOrdered(segments, i + 1, j);
    }
  }

  lemma EndsBefore(rows: seq<Row>, segments: seq<LineRange>, n: nat)
    requires Strict(rows) && Bounded(rows) && 0 < n <= |rows| && Tiling(segments)
    requires n > 1 ==> segments != [] && segments[|segments| - 1].end == EndAt(rows, n - 2)
    requires n == 1 ==> segments == []
    ensures forall s :: s in segments ==> s.end <= rows[n - 1].start
    ensures rows[n - 1].start < EndAt(rows, n - 1)
  {
    assert rows[n - 1] in rows;
    hide Tiling;
    forall s | s in segments ensures s.end <= rows[n - 1].start {
      var k :| 0 <= k < |segments| && segments[k] == s;
      TilingOrdered(segments, k, |segments| - 1);
    }
  }

  lemma FaithfulStep(rows: seq<Row>, segments: seq<LineRange>, n: nat)
    requires Strict(rows) && Bounded(rows) && 0 < n <= |rows| && Tiling(segments)
    requires n > 1 ==> segments != [] && segments[|segments| - 1].end == EndAt(rows, n - 2)
    requires n == 1 ==> segments == []
    requires Faithful(segments, rows[..n - 1])
    ensures Faithful(AddRow(segments, rows[n - 1], EndAt(rows, n - 1)), rows[..n])
  {
    hide AddRow, Faithful, Tiling, Bounded, Strict, EndAt;
    EndsBefore(rows, segments, n);
    RowsBefore(rows, n);
    AddRowFaithful(segments, rows[..n - 1], rows[n - 1], EndAt(rows, n - 1));
    assert rows[..n] == rows[..n - 1] + [rows[n - 1]];
  }

  lemma {:induction false} SegmentsFaithful(rows: seq<Row>, n: nat)
    requires Strict(rows) && Bounded(rows) && n <= |rows|
    ensures Faithful(SegmentsOf(rows, n), rows[..n])
  {
    if n > 0 {
      hide AddRow, Faithful, Tiling, Bounded, Strict, EndAt;
      SegmentsFaithful(rows, n - 1);
      SegmentsTile(rows, n - 1);
      FaithfulStep(rows, SegmentsOf(rows, n - 1), n);
    }
  }

  // ------------------------------------------------------------------------ lookup ---

  predicate Covers(s: LineRange, address: u64) {
    s.start <= address < s.end
  }

  /** Starts and ends both ascend. */
  predicate Ordered(segments: seq<LineRange>) {
    forall i, j :: 0 <= i <= j < |segments| ==>
      segments[i].start <= segments[j].start && segments[i].end <= segments[j].end
  }

  /** `line_range_for_address`: binary search.  It returns a segment that covers the
      address, and in an ordered table none only where none covers it. */
  method LineRangeForAddress(segments: seq<LineRange>, address: u64) returns (r: Option<LineRange>)
    ensures r.Some? ==> r.value in segments && Covers(r.value, address)
    ensures r.None? && Ordered(segments) ==> forall s :: s in segments ==> !Covers(s, address)
  {
    var low, high := 0, |segments|;
    while low < high
      invariant 0 <= low <= high <= |segments|
      invariant Ordered(segments) ==> forall k :: 0 <= k < low ==> segments[k].end <= address
      invariant Ordered(segments) ==> forall k :: high <= k < |segments| ==> address < segments[k].start
    {
      var mid := low + (high - low) / 2;
      if address < segments[mid].start {
        high := mid;
      } else if address >= segments[mid].end {
        low := mid + 1;
      } else {
        return Some(segments[mid]);
      }
    }
    return None;
  }

  lemma NothingOrdered()
    ensures Ordered([])
  {
  }

  lemma EndsAscend(rows: seq<Row>, i: nat)
    requires Sorted(rows) && i + 1 < |rows|
    ensures rows[i].start <= rows[i + 1].start && EndAt(rows, i) <= EndAt(rows, i + 1)
  {
  }

  lemma EndIsBehind(rows: seq<Row>, i: nat)
    requires i < |rows|
    ensures EndAt(rows, i) >= rows[i].start
  {
  }

  lemma AddRowOrdered(segments: seq<LineRange>, row: Row, end: nat)
    requires Ordered(segments) && row.start <= end
    requires segments != [] ==> segments[|segments| - 1].start <= row.start && segments[|segments| - 1].end <= end
    ensures var r := AddRow(segments, row, end);
            Ordered(r) && r[|r| - 1].end == end && r[|r| - 1].start <= row.start
  {
    var r, last := AddRow(segments, row, end), |segments| - 1;
    assert forall k :: 0 <= k < last ==> r[k] == segments[k];
    assert segments != [] ==> r[last].start == segments[last].start && segments[last].end <= r[last].end;
    forall i, j | 0 <= i <= j < |r| ensures r[i].start <= r[j].start && r[i].end <= r[j].end {
      if j < |segments| {
        assert segments[i].start <= segments[j].start && segments[i].end <= segments[j].end;
      } else if i < |segments| {
        assert segments[i].start <= segments[last].start && segments[i].end <= segments[last].end;
      }
    }
  }

  lemma {:induction false} SegmentsOrdered(rows: seq<Row>, n: nat)
    requires Sorted(rows) && n <= |rows|
    ensures var segments := SegmentsOf(rows, n);
            && Ordered(segments)
            && (n > 0 ==> segments[|segments| - 1].end == EndAt(rows, n - 1)
                          && segments[|segments| - 1].start <= rows[n - 1].start)
  {
    hide AddRow, EndAt, Sorted, Ordered;
    if n == 0 {
      NothingOrdered();
    } else {
      SegmentsOrdered(rows, n - 1);
      if n > 1 {
        EndsAscend(rows, n - 2);
      }
      EndIsBehind(rows, n - 1);
      AddRowOrdered(SegmentsOf(rows, n - 1), rows[n - 1], EndAt(rows, n - 1));
    }
  }

  /** The saturating end leaves the last address uncovered, whatever the rows are: even
      one that starts there is never found. */
  lemma {:induction false} LastAddressIsNeverCovered(rows: seq<Row>, n: nat, s: LineRange)
    requires n <= |rows| && s in SegmentsOf(rows, n)
    ensures s.end <= U64_LIMIT - 1 && !Covers(s, U64_LIMIT - 1)
  {
    if n > 0 {
      var before := SegmentsOf(rows, n - 1);
      if s in before {
        LastAddressIsNeverCovered(rows, n - 1, s);
      }
    }
  }

  /** `row` is a raw row in force at `address`: one with the greatest start that does
      not exceed it. */
  ghost predicate InForce(rows: seq<Row>, row: Row, address: u64) {
    && row in rows && row.start <= address
    && forall other :: other in rows && other.start <= address ==> other.start <= row.start
  }

  predicate InInterval(rows: seq<Row>, k: nat, address: u64) {
    k < |rows| && rows[k].start <= address < EndAt(rows, k)
  }

  ghost predicate CoveredAs(segments: seq<LineRange>, address: u64, tag: Tag) {
    exists s :: s in segments && Covers(s, address) && s.tag == tag
  }

  ghost predicate RowCovers(rows: seq<Row>, n: nat, address: u64, tag: Tag) {
    exists k :: 0 <= k < n && InInterval(rows, k, address) && rows[k].tag == tag
  }

  lemma AddRowCovers(segments: seq<LineRange>, row: Row, end: nat, address: u64, tag: Tag)
    requires row.start <= end && (segments != [] ==> segments[|segments| - 1].start <= segments[|segments| - 1].end)
    ensures CoveredAs(AddRow(segments, row, end), address, tag)
       <==> CoveredAs(segments, address, tag) || (row.start <= address < end && row.tag == tag)
  {
    var r, last := AddRow(segments, row, end), |segments| - 1;
    assert r[|r| - 1] in r;
    if segments != [] && segments[last].end == row.start && segments[last].tag == row.tag {
      assert segments == segments[..last] + [segments[last]];
      assert forall s :: s in r <==> s in segments[..last] || s == r[last];
      assert forall s :: s in segments <==> s in segments[..last] || s == segments[last];
      if CoveredAs(segments, address, tag) {
        var s :| s in segments && Covers(s, address) && s.tag == tag;
        assert s in r || Covers(r[last], address);
      }
    } else {
      assert forall s :: s in r <==> s in segments || s == r[|segments|];
    }
  }

  lemma {:induction false} LastRunsForward(rows: seq<Row>, n: nat)
    requires 0 < n <= |rows|
    ensures var a := SegmentsOf(rows, n); a[|a| - 1].start <= a[|a| - 1].end
  {
    if n > 1 {
      LastRunsForward(rows, n - 1);
    }
  }

  lemma NothingCovered(address: u64, tag: Tag)
    ensures !CoveredAs([], address, tag)
  {
  }

  /** The segments are the intervals of the rows, line for line: coalescing neither
      drops nor adds an address. */
  lemma {:induction false} SegmentsAreIntervals(rows: seq<Row>, n: nat, address: u64, tag: Tag)
    requires n <= |rows|
    ensures CoveredAs(SegmentsOf(rows, n), address, tag) <==> RowCovers(rows, n, address, tag)
  {
    hide AddRow, CoveredAs, EndAt;
    if n == 0 {
      NothingCovered(address, tag);
    } else {
      SegmentsAreIntervals(rows, n - 1, address, tag);
      EndIsBehind(rows, n - 1);
      if n > 1 {
        LastRunsForward(rows, n - 1);
      }
      AddRowCovers(SegmentsOf(rows, n - 1), rows[n - 1], EndAt(rows, n - 1), address, tag);
      hide SegmentsOf;
      assert InInterval(rows, n - 1, address) ==> rows[n - 1].start <= address < EndAt(rows, n - 1);
    }
  }

  /** A row whose interval holds an address is in force there. */
  lemma IntervalIsInForce(rows: seq<Row>, k: nat, address: u64)
    requires Sorted(rows) && InInterval(rows, k, address)
    ensures InForce(rows, rows[k], address)
    ensures address < U64_LIMIT - 1 && exists row :: row in rows && address <= row.start
  {
    forall other | other in rows && other.start <= address ensures other.start <= rows[k].start {
      var j :| 0 <= j < |rows| && rows[j] == other;
      if j > k {
        assert rows[k + 1].start <= rows[j].start;
      }
    }
    if k + 1 < |rows| && address < rows[k + 1].start {
      assert rows[k + 1] in rows;
    } else {
      assert rows[k] in rows && address <= rows[k].start;
    }
  }

  /** Between the first and the last start some interval holds every address but the
      last one. */
  lemma {:induction false} SomeInterval(rows: seq<Row>, k: nat, address: u64) returns (i: nat)
    requires Sorted(rows) && k < |rows| && rows[k].start <= address < U64_LIMIT - 1
    requires exists row :: row in rows && address <= row.start
    ensures InInterval(rows, i, address)
    decreases |rows| - k
  {
    if k + 1 < |rows| && rows[k + 1].start <= address {
      i := SomeInterval(rows, k + 1, address);
    } else {
      i := k;
      if k + 1 == |rows| {
        var row :| row in rows && address <= row.start;
        var j :| 0 <= j < |rows| && rows[j] == row;
        assert rows[j].start <= rows[k].start;
      }
    }
  }

  lemma SameRows(raw: seq<Row>, row: Row)
    ensures row in Sort(raw) <==> row in raw
  {
    SortIsStablePermutation(raw, 0);
    assert row in multiset(Sort(raw)) <==> row in multiset(raw);
  }

  lemma {:induction false} StartsOnce(rows: seq<Row>, start: u64, top: nat)
    requires DistinctBelow(rows, top) && start < top
    ensures |StartingAt(rows, start)| <= 1
    ensures (forall row :: row in rows ==> row.start != start) ==> StartingAt(rows, start) == []
  {
    if rows != [] {
      StartsOnce(rows[1..], start, top);
      assert rows[0] in rows;
      assert forall row :: row in rows[1..] ==> row in rows && (row.start == rows[0].start ==> row.start >= top);
    }
  }

  lemma {:induction false} StartsAt(rows: seq<Row>, j: nat)
    requires j < |rows|
    ensures |StartingAt(rows, rows[j].start)| >= 1
    decreases j
  {
    if j > 0 {
      StartsAt(rows[1..], j - 1);
    }
  }

  lemma {:induction false} StartsTwice(rows: seq<Row>, i: nat, j: nat)
    requires i < j < |rows| && rows[i].start == rows[j].start
    ensures |StartingAt(rows, rows[i].start)| >= 2
    decreases j
  {
    if i > 0 {
      StartsTwice(rows[1..], i - 1, j - 1);
    } else {
      StartsAt(rows[1..], j - 1);
    }
  }

  /** Sorting changes neither whether starts repeat nor how far they reach. */
  lemma SortKeepsStarts(raw: seq<Row>, top: nat)
    ensures DistinctBelow(Sort(raw), top) <==> DistinctBelow(raw, top)
    ensures Bounded(Sort(raw)) <==> Bounded(raw)
  {
    hide StartingAt, Sort;
    var rows := Sort(raw);
    forall row ensures row in rows <==> row in raw { SameRows(raw, row); }
    if !DistinctBelow(rows, top) {
      var i, j :| 0 <= i < j < |rows| && rows[i].start == rows[j].start < top;
      StartsTwice(rows, i, j);
      SortIsStablePermutation(raw, rows[i].start);
      if DistinctBelow(raw, top) {
        StartsOnce(raw, rows[i].start, top);
      }
    }
    if !DistinctBelow(raw, top) {
      var i, j :| 0 <= i < j < |raw| && raw[i].start == raw[j].start < top;
      StartsTwice(raw, i, j);
      SortIsStablePermutation(raw, raw[i].start);
      if DistinctBelow(rows, top) {
        StartsOnce(rows, raw[i].start, top);
      }
    }
  }

  lemma SortedStrict(raw: seq<Row>)
    requires DistinctStarts(raw) && Bounded(raw)
    ensures Strict(Sort(raw)) && Bounded(Sort(raw))
  {
    SortIsStablePermutation(raw, 0);
    SortKeepsStarts(raw, U64_LIMIT);
  }

  lemma SameInForce(raw: seq<Row>, row: Row, address: u64)
    ensures InForce(Sort(raw), row, address) <==> InForce(raw, row, address)
  {
    hide Sort;
    forall other ensures other in Sort(raw) <==> other in raw { SameRows(raw, other); }
  }

  lemma InForceRow(rows: seq<Row>, row: Row, address: u64)
    requires InForce(rows, row, address)
    ensures row in rows && row.start <= address
  {
  }

  lemma IntervalIndex(rows: seq<Row>, k: nat, address: u64)
    requires InInterval(rows, k, address)
    ensures k < |rows|
  {
  }

  /** Looking an address up in the built table is looking it up in the raw rows, whatever
      they are: the table is ordered, a covering segment names a row in force, and the
      covered addresses are those from the first start to the last, short of 2^64 - 1. */
  lemma LookupIsNaive(raw: seq<Row>, address: u64)
    ensures var segments := SegmentsOf(Sort(raw), |Sort(raw)|);
            && Ordered(segments)
            && (forall s :: s in segments && Covers(s, address) ==>
                  exists row :: InForce(raw, row, address) && row.tag == s.tag)
            && ((exists s :: s in segments && Covers(s, address)) <==>
                  && address < U64_LIMIT - 1
                  && (exists row :: row in raw && row.start <= address)
                  && (exists row :: row in raw && address <= row.start))
  {
    hide Ordered, SegmentsOf, Covers, InForce, InInterval, Sort;
    var rows := Sort(raw);
    var segments := SegmentsOf(rows, |rows|);
    SortIsStablePermutation(raw, 0);
    SegmentsOrdered(rows, |rows|);
    forall row ensures row in rows <==> row in raw { SameRows(raw, row); }
    forall s | s in segments && Covers(s, address)
      ensures exists row :: InForce(raw, row, address) && row.tag == s.tag
      ensures address < U64_LIMIT - 1 && (exists row :: row in raw && address <= row.start)
    {
      assert CoveredAs(segments, address, s.tag);
      SegmentsAreIntervals(rows, |rows|, address, s.tag);
      var k :| 0 <= k < |rows| && InInterval(rows, k, address) && rows[k].tag == s.tag;
      IntervalIsInForce(rows, k, address);
      SameInForce(raw, rows[k], address);
    }
    forall row | InForce(raw, row, address) ensures row in raw && row.start <= address {
      InForceRow(raw, row, address);
    }
    if && address < U64_LIMIT - 1
       && (exists row :: row in raw && row.start <= address)
       && (exists row :: row in raw && address <= row.start)
    {
      var low :| low in rows && low.start <= address;
      var k :| 0 <= k < |rows| && rows[k] == low;
      var i := SomeInterval(rows, k, address);
      IntervalIndex(rows, i, address);
      SegmentsAreIntervals(rows, |rows|, address, rows[i].tag);
      assert RowCovers(rows, |rows|, address, rows[i].tag);
    }
  }

  lemma SameFaithful(segments: seq<LineRange>, rows: seq<Row>, raw: seq<Row>)
    requires Faithful(segments, rows) && forall row :: row in rows <==> row in raw
    ensures Faithful(segments, raw)
  {
    forall s | s in segments ensures Names(s, raw) {
      assert Names(s, rows);
      var row :| row in rows && row.start == s.start;
      assert row in raw;
    }
  }

  /** With distinct starts below the last address the segments of the raw rows are
      contiguous and maximally coalesced, and name what each row inside them names. */
  lemma BuiltTableTiles(raw: seq<Row>)
    requires DistinctStarts(raw) && Bounded(raw)
    ensures var segments := SegmentsOf(Sort(raw), |Sort(raw)|);
            Tiling(segments) && Faithful(segments, raw)
  {
    hide Sort, SegmentsOf, Tiling;
    var rows := Sort(raw);
    SortedStrict(raw);
    SegmentsTile(rows, |rows|);
    SegmentsFaithful(rows, |rows|);
    assert rows[..|rows|] == rows;
    forall row ensures row in rows <==> row in raw { SameRows(raw, row); }
    SameFaithful(SegmentsOf(rows, |rows|), rows, raw);
  }

  // ------------------------------------------------------------------ repeated starts ---

  /** `b` keeps all of `a` but its last segment, and that one's start. */
  predicate Persists(a: seq<LineRange>, b: seq<LineRange>) {
    && a != [] && |a| <= |b|
    && a[..|a| - 1] == b[..|a| - 1]
    && a[|a| - 1].start == b[|a| - 1].start
  }

  lemma PersistsTwice(a: seq<LineRange>, b: seq<LineRange>, c: seq<LineRange>)
    requires Persists(a, b) && Persists(b, c)
    ensures Persists(a, c)
  {
    assert b[..|a| - 1] == b[..|b| - 1][..|a| - 1] && c[..|a| - 1] == c[..|b| - 1][..|a| - 1];
    if |a| < |b| {
      assert b[|a| - 1] == b[..|b| - 1][|a| - 1] && c[|a| - 1] == c[..|b| - 1][|a| - 1];
    }
  }

  lemma AddRowPersists(segments: seq<LineRange>, row: Row, end: nat)
    requires segments != []
    ensures Persists(segments, AddRow(segments, row, end))
  {
  }

  /** What later rows leave of the segments built so far: all but the last, and where
      the last one starts. */
  lemma {:induction false} SegmentsPersist(rows: seq<Row>, n: nat, m: nat)
    requires 0 < n <= m <= |rows|
    ensures Persists(SegmentsOf(rows, n), SegmentsOf(rows, m))
    decreases m - n
  {
    if n < m {
      hide AddRow, EndAt, Persists;
      SegmentsPersist(rows, n, m - 1);
      AddRowPersists(SegmentsOf(rows, m - 1), rows[m - 1], EndAt(rows, m - 1));
      PersistsTwice(SegmentsOf(rows, n), SegmentsOf(rows, m - 1), SegmentsOf(rows, m));
    }
  }

  lemma {:induction false} LastSegment(rows: seq<Row>, n: nat)
    requires 0 < n <= |rows|
    ensures var a := SegmentsOf(rows, n); a[|a| - 1].end == EndAt(rows, n - 1)
  {
  }

  lemma AddRowApart(segments: seq<LineRange>, row: Row, end: nat)
    requires segments != [] && segments[|segments| - 1].end != row.start
    ensures AddRow(segments, row, end) == segments + [LineRange(row.start, end, row.tag)]
  {
  }

  lemma OverlapAt(a: seq<LineRange>, next: LineRange, c: seq<LineRange>)
    requires a != [] && Persists(a + [next], c) && a[|a| - 1].end > next.start
    ensures !NonOverlapping(c)
  {
    assert (a + [next])[..|a|] == a;
    assert c[|a| - 1] == c[..|a|][|a| - 1];
  }

  /** Two sorted rows with one start make two overlapping neighbours. */
  lemma RepeatOverlaps(rows: seq<Row>, i: nat)
    requires i + 1 < |rows| && rows[i].start == rows[i + 1].start < U64_LIMIT - 1
    ensures !NonOverlapping(SegmentsOf(rows, |rows|))
  {
    assert EndAt(rows, i) == rows[i + 1].start + 1;
    hide AddRow, EndAt, NonOverlapping, Persists;
    var a := SegmentsOf(rows, i + 1);
    assert SegmentsOf(rows, i + 2) == AddRow(a, rows[i + 1], EndAt(rows, i + 1));
    LastSegment(rows, i + 1);
    SegmentsPersist(rows, i + 2, |rows|);
    hide SegmentsOf;
    AddRowApart(a, rows[i + 1], EndAt(rows, i + 1));
    OverlapAt(a, LineRange(rows[i + 1].start, EndAt(rows, i + 1), rows[i + 1].tag), SegmentsOf(rows, |rows|));
  }

  lemma Abuts(rows: seq<Row>, i: nat)
    requires Sorted(rows) && DistinctBelow(rows, U64_LIMIT - 1) && i + 1 < |rows|
    ensures EndAt(rows, i) == rows[i + 1].start
  {
    assert rows[i].start <= rows[i + 1].start;
    assert rows[i].start == rows[i + 1].start ==> rows[i].start >= U64_LIMIT - 1;
  }

  lemma AddRowKeepsApart(segments: seq<LineRange>, row: Row, end: nat)
    requires segments != [] && NonOverlapping(segments) && segments[|segments| - 1].end == row.start
    ensures NonOverlapping(AddRow(segments, row, end))
  {
    var r := AddRow(segments, row, end);
    assert forall k :: 0 <= k < |segments| - 1 ==> r[k] == segments[k];
  }

  /** While no start below the last address repeats, every row begins where the interval
      before it ends. */
  lemma {:induction false} AbuttingApart(rows: seq<Row>, n: nat)
    requires Sorted(rows) && DistinctBelow(rows, U64_LIMIT - 1) && n <= |rows|
    ensures NonOverlapping(SegmentsOf(rows, n))
  {
    if n > 1 {
      AbuttingApart(rows, n - 1);
      LastSegment(rows, n - 1);
      hide Sorted, DistinctBelow, AddRow, NonOverlapping;
      Abuts(rows, n - 2);
      AddRowKeepsApart(SegmentsOf(rows, n - 1), rows[n - 1], EndAt(rows, n - 1));
    } else if n == 1 {
      assert SegmentsOf(rows, 0) == [];
    }
  }

  /** The table is free of overlaps exactly when no two rows share a start below the last
      address, whatever the rows are. */
  lemma OverlapIffRepeatedStart(raw: seq<Row>)
    ensures NonOverlapping(SegmentsOf(Sort(raw), |Sort(raw)|)) <==> DistinctBelow(raw, U64_LIMIT - 1)
  {
    hide Sort, SegmentsOf, NonOverlapping;
    var rows := Sort(raw);
    SortKeepsStarts(raw, U64_LIMIT - 1);
    SortIsStablePermutation(raw, 0);
    if DistinctBelow(rows, U64_LIMIT - 1) {
      AbuttingApart(rows, |rows|);
    } else {
      var i, j :| 0 <= i < j < |rows| && rows[i].start == rows[j].start < U64_LIMIT - 1;
      assert rows[i].start <= rows[i + 1].start && (i + 1 < j ==> rows[i + 1].start <= rows[j].start);
      RepeatOverlaps(rows, i);
    }
  }
}
