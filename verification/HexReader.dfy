/** The windowed, read-only view of one growing file: `HexReader` of `hex.rs`. */
module HexReader {
  import opened Wrappers
  import opened Words
  import opened Seqs
  import opened Recency
  import opened WindowCache
  import opened HexLines

  datatype ImageStats = ImageStats(
    syscalls: nat, hits: nat, misses: nat, residentWindows: nat, residentBytes: nat,
    bytesServed: nat, bytesRead: nat, shortReads: nat)

  /** The rows of a file of `len` bytes, `count` of them from row `first` on. */
  function RowsOf(f: seq<u8>, len: nat, first: nat, count: nat): seq<HexLine>
    decreases count
  {
    var offset := first * BYTES_PER_ROW;
    if count == 0 || offset >= len then []
    else
      [LineOf(offset, Slice(f, offset, Min(offset + BYTES_PER_ROW, len)))] + RowsOf(f, len, first + 1, count - 1)
  }

  function RowBytes(lines: seq<HexLine>): seq<u8> {
    if lines == [] then [] else lines[0].bytes + RowBytes(lines[1..])
  }

  lemma EmptySlice(f: seq<u8>, at: nat)
    ensures Slice(f, at, at) == []
  {
  }

  lemma NextRow(f: seq<u8>, len: nat, row: nat, left: nat)
    ensures row * BYTES_PER_ROW >= len || left == 0 ==> RowsOf(f, len, row, left) == []
    ensures row * BYTES_PER_ROW < len && left > 0 ==>
              var offset := row * BYTES_PER_ROW;
              RowsOf(f, len, row, left)
              == [LineOf(offset, Slice(f, offset, Min(offset + BYTES_PER_ROW, len)))]
                 + RowsOf(f, len, row + 1, left - 1)
  {
    hide Slice;
  }

  /** The rows of a range are its bytes, in order, none lost and none repeated. */
  lemma {:induction false} RowsCover(f: seq<u8>, len: nat, first: nat, count: nat)
    requires len <= |f|
    ensures RowBytes(RowsOf(f, len, first, count))
         == Slice(f, Min(first * BYTES_PER_ROW, len), Min((first + count) * BYTES_PER_ROW, len))
    decreases count
  {
    hide Slice, LineOf;
    NextRow(f, len, first, count);
    var offset, to := first * BYTES_PER_ROW, Min((first + count) * BYTES_PER_ROW, len);
    if count > 0 && offset < len {
      RowsCover(f, len, first + 1, count - 1);
      hide RowsOf;
      LineParts(offset, Slice(f, offset, Min(offset + BYTES_PER_ROW, len)));
      SliceAppend(f, offset, Min(offset + BYTES_PER_ROW, len), to);
      assert RowsOf(f, len, first, count)[1..] == RowsOf(f, len, first + 1, count - 1);
    } else {
      EmptySlice(f, to);
    }
  }

  lemma RowSize(f: seq<u8>, len: nat, offset: nat)
    requires offset < len <= |f|
    ensures |Slice(f, offset, Min(offset + BYTES_PER_ROW, len))| < BYTES_PER_ROW <==> offset + BYTES_PER_ROW > len
  {
  }

  /** Row `k` shows the 16 bytes at its offset; only the last row of the file is short. */
  lemma {:induction false} RowAt(f: seq<u8>, len: nat, first: nat, count: nat, k: nat)
    requires len <= |f| && k < |RowsOf(f, len, first, count)|
    ensures var row := RowsOf(f, len, first, count)[k];
            && row.offset == (first + k) * BYTES_PER_ROW
            && row.bytes == Slice(f, row.offset, Min(row.offset + BYTES_PER_ROW, len))
            && (row.atEof <==> row.offset + BYTES_PER_ROW > len)
    decreases count
  {
    hide Slice, LineOf;
    NextRow(f, len, first, count);
    if k > 0 {
      RowAt(f, len, first + 1, count - 1, k - 1);
    } else {
      var offset := first * BYTES_PER_ROW;
      LineParts(offset, Slice(f, offset, Min(offset + BYTES_PER_ROW, len)));
      RowSize(f, len, offset);
    }
    hide RowsOf;
  }

  /** `line` is row `row`, showing a prefix of the file's bytes there. */
  ghost predicate Shows(line: HexLine, f: seq<u8>, len: nat, row: nat) {
    var offset := row * BYTES_PER_ROW;
    && line.offset == offset < len
    && line.bytes <= Slice(f, offset, Min(offset + BYTES_PER_ROW, len))
    && line == LineOf(offset, line.bytes)
  }

  /** The rows of a range up to the recorded length, whatever the cache holds. */
  ghost predicate ShownRows(lines: seq<HexLine>, f: seq<u8>, len: nat, first: nat, count: nat) {
    && |lines| <= count && (|lines| < count ==> (first + |lines|) * BYTES_PER_ROW >= len)
    && forall k :: 0 <= k < |lines| ==> Shows(lines[k], f, len, first + k)
  }

  lemma RowOffset(first: u64, index: u64, len: nat)
    requires len < U64_LIMIT
    ensures var offset := SaturatingMul(SaturatingAdd(first, index), BYTES_PER_ROW);
            && (offset >= len <==> (first + index) * BYTES_PER_ROW >= len)
            && (offset < len ==> offset == (first + index) * BYTES_PER_ROW)
  {
  }

  lemma ReadShows(c: Cache, d: Disk, position: nat, end: nat)
    requires position <= end && IsPrefixRead(c, d, position, end, Read(c, d, position, end))
    ensures var r := Read(c, d, position, end);
            && (r.failed ==> d.broken)
            && r.bytes <= Slice(d.file, position, end)
            && (IsExactRead(c, d, position, end, r) ==>
                  UpToDate(r.cache.entries, d.file, d.size) && (!r.failed ==> r.bytes == Slice(d.file, position, end)))
  {
    hide Read, Coherent, Refreshed, Slice, UpToDate, ReadTrace;
  }

  lemma ShownRow(line: HexLine, f: seq<u8>, len: nat, row: nat)
    requires line.offset == row * BYTES_PER_ROW < len
    requires line.bytes <= Slice(f, line.offset, Min(line.offset + BYTES_PER_ROW, len))
    requires line == LineOf(line.offset, line.bytes)
    ensures Shows(line, f, len, row)
  {
  }

  /** The file behind the descriptor.  Other processes append to it; a descriptor
      that has become invalid makes every read or every `stat` fail. */
  class DiskFile {
    var content: seq<u8>
    var broken: bool
    var unstatable: bool

    constructor (content: seq<u8>)
      ensures this.content == content && !broken && !unstatable
    {
      this.content, broken, unstatable := content, false, false;
    }

    /** The size of the file, or the failure of `stat`. */
    method Stat() returns (r: Option<nat>)
      ensures r == if unstatable then None else Some(|content|)
    {
      return if unstatable then None else Some(|content|);
    }

    /** `pread`: no file position, and a short result past the end. */
    method ReadAt(offset: nat, wanted: nat) returns (r: Option<seq<u8>>)
      ensures r == if broken then None else Some(Slice(content, offset, offset + wanted))
    {
      if broken {
        return None;
      }
      return Some(content[Min(offset, |content|)..Min(offset + wanted, |content|)]);
    }
  }

  /** How often a read of `count` bytes that returned `n` counts itself as short: once
      where it ran out of bytes, once more where it returned fewer than asked for. */
  function Ticks(offset: u64, count: u64, n: nat): nat {
    (if offset + n < SaturatingAdd(offset, count) then 1 else 0) + (if n < count then 1 else 0)
  }

  /** The same for a reader that agrees with a file of `length` bytes: a short read
      counts twice, and once only where the end of its range saturates. */
  function FreshTicks(length: nat, offset: u64, count: u64): nat {
    if offset + count < U64_LIMIT then
      if count > 0 && length < offset + count then 2 else 0
    else if offset < U64_LIMIT - 1 && length < U64_LIMIT - 1 then 2
    else 1
  }

  lemma TicksCounted(offset: u64, count: u64, n: nat)
    ensures Ticks(offset, count, n)
         == (if offset + n < SaturatingAdd(offset, count) then 1 else 0) + (if n < count then 1 else 0)
  {
  }

  lemma FreshTicksCounted(f: seq<u8>, offset: u64, count: u64, c: Cache, d: Disk)
    requires d.file == f
    requires var end := SaturatingAdd(offset, count); IsExactRead(c, d, offset, end, Read(c, d, offset, end))
    ensures var r := Read(c, d, offset, SaturatingAdd(offset, count));
            !r.failed ==> Ticks(offset, count, |r.bytes|) == FreshTicks(|f|, offset, count)
  {
    hide Read, UpToDate, ReadTrace;
  }

  /** A short read is counted exactly once only where the end of its range saturates;
      everywhere else not at all or twice, as for two bytes of a one-byte file. */
  lemma OneTickIffSaturated(length: nat, offset: u64, count: u64)
    ensures FreshTicks(1, 0, 2) == 2
    ensures FreshTicks(length, offset, count) == 1
       <==> offset + count >= U64_LIMIT && (offset == U64_LIMIT - 1 || length >= U64_LIMIT - 1)
  {
  }

  /** A read with the bytes already served put in front. */
  function Behind(out: seq<u8>, rest: ReadResult): ReadResult {
    rest.(bytes := out + rest.bytes)
  }

  lemma BehindTwice(out: seq<u8>, taken: seq<u8>, rest: ReadResult)
    ensures Behind(out, Behind(taken, rest)) == Behind(out + taken, rest)
  {
    Associative(out, taken, rest.bytes);
  }

  lemma BehindNothing(out: seq<u8>, c: Cache)
    ensures Behind(out, ReadResult(c, [], false)) == ReadResult(c, out, false)
  {
  }

  /** What any read promises, for the cache, the bytes and the traffic it causes. */
  lemma ReadPromises(c: Cache, d: Disk, position: nat, end: nat)
    requires position <= end && IsLru(c, d.capacity) && Coherent(c.entries, d.file, d.size)
    ensures var r := Read(c, d, position, end);
            && IsLru(r.cache, d.capacity) && Coherent(r.cache.entries, d.file, d.size)
            && IsPrefixRead(c, d, position, end, r)
            && (r.failed ==> d.broken)
            && (UpToDate(c.entries, d.file, d.size) ==> IsExactRead(c, d, position, end, r))
            && (UpToDate(c.entries, d.file, d.size) && !d.broken ==>
                  && (NeitherEndCuts(|d.file|, d.size, position, end) ==>
                        r.cache.bytesRead - c.bytesRead <= |r.bytes|)
                  && (AllBefore(c.entries, IndexAt(position, d.size)) ==>
                        (r.cache.bytesRead - c.bytesRead <= |r.bytes|
                         <==> NeitherEndCuts(|d.file|, d.size, position, end))))
    ensures Behind([], Read(c, d, position, end)) == Read(c, d, position, end)
  {
    hide Read, IsLru, Coherent, UpToDate, Slice, StaleAt, AllBefore, IndexAt, NeitherEndCuts, IsExactRead, ReadTrace;
    ReadKeepsLru(c, d, position, end);
    ReadIsPrefix(c, d, position, end);
    assert [] + Read(c, d, position, end).bytes == Read(c, d, position, end).bytes;
    if UpToDate(c.entries, d.file, d.size) {
      ReadIsExact(c, d, position, end);
      if !d.broken {
        BytesReadWithinServed(c, d, position, end);
      }
    }
  }

  lemma ClearKeepsLru(c: Cache, capacity: nat)
    requires IsLru(c, capacity)
    ensures IsLru(c.(entries := [], trace := c.trace + [Clear]), capacity)
  {
    assert (c.trace + [Clear])[..|c.trace|] == c.trace;
  }

  class HexReader {
    const file: DiskFile
    const windowSize: nat
    const capacity: nat
    var len: nat
    /** Most recently used first. */
    var cache: seq<Entry>
    var syscalls: nat
    var hits: nat
    var misses: nat
    var bytesServed: nat
    var bytesRead: nat
    var shortReads: nat
    /** Everything that ever happened to the cache. */
    ghost var trace: Trace

    /** The cache and its counters as one value. */
    ghost function Contents(): Cache
      reads this
    {
      Cache(cache, hits, misses, syscalls, bytesRead, trace)
    }

    ghost function Env(): Env
      reads file
    {
      WindowCache.Env(file.content, file.broken, windowSize, capacity)
    }

    /** The cache is the LRU cache of its own history and never disagrees with the
        file on a byte it holds. */
    ghost predicate Valid()
      reads this, file
    {
      && windowSize >= 1 && capacity >= 1
      && IsLru(Contents(), capacity)
      && Coherent(cache, file.content, windowSize)
    }

    /** The file has not grown past any cached window. */
    ghost predicate Fresh()
      reads this, file
    {
      UpToDate(cache, file.content, windowSize)
    }

    constructor (file: DiskFile, windowSize: nat, capacity: nat)
      ensures Valid() && Fresh()
      ensures this.file == file && len == |file.content|
      ensures Contents() == Cache([], 0, 0, 0, 0, [])
      ensures this.windowSize == (if windowSize >= 1 then windowSize else 1)
      ensures this.capacity == (if capacity >= 1 then capacity else 1)
      ensures bytesServed == shortReads == 0
    {
      this.file := file;
      this.windowSize := if windowSize >= 1 then windowSize else 1;
      this.capacity := if capacity >= 1 then capacity else 1;
      len := |file.content|;
      cache, trace := [], [];
      syscalls, hits, misses, bytesServed, bytesRead, shortReads := 0, 0, 0, 0, 0, 0;
    }

    /** `with_options`: fails when the path cannot be opened or the file not stat-ed. */
    static method WithOptions(path: Option<DiskFile>, windowSize: nat, capacity: nat) returns (r: Option<HexReader>)
      ensures r.Some? <==> path.Some? && !path.value.unstatable
      ensures r.Some? ==>
                && fresh(r.value) && r.value.file == path.value
                && r.value.Valid() && r.value.Fresh()
                && r.value.Contents() == Cache([], 0, 0, 0, 0, []) && r.value.len == |path.value.content|
                && r.value.windowSize == (if windowSize >= 1 then windowSize else 1)
                && r.value.capacity == (if capacity >= 1 then capacity else 1)
    {
      if path.None? {
        return None;
      }
      var size := path.value.Stat();
      if size.None? {
        return None;
      }
      var reader := new HexReader(path.value, windowSize, capacity);
      return Some(reader);
    }

    /** Re-stat the file; the cached windows are kept, and so is the size on failure. */
    method RefreshLen() returns (r: Option<nat>)
      requires Valid()
      modifies this`len
      ensures Valid()
      ensures r == (if file.unstatable then None else Some(|file.content|))
      ensures len == if r.Some? then r.value else old(len)
    {
      r := file.Stat();
      if r.Some? {
        len := r.value;
      }
    }

    method ClearCache()
      requires Valid()
      modifies this`cache, this`trace
      ensures Valid() && Fresh()
      ensures Contents() == old(Contents()).(entries := [], trace := old(trace) + [Clear])
    {
      hide IsLru;
      ClearKeepsLru(Contents(), capacity);
      cache := [];
      trace := trace + [Clear];
    }

    /** Environment step: another process appends to the file. */
    method FileGrows(more: seq<u8>)
      requires Valid()
      modifies file`content
      ensures Valid() && file.content == old(file.content) + more
    {
      CoherentAfterGrowth(cache, file.content, more, windowSize);
      file.content := file.content + more;
    }

    /** The configured memory bound in bytes. */
    function ByteBound(): nat {
      windowSize * capacity
    }

    method Stats() returns (s: ImageStats)
      requires Valid()
      ensures s == ImageStats(syscalls, hits, misses, |cache|, windowSize * |cache|,
                              bytesServed, bytesRead, shortReads)
      ensures TotalBytes(cache) <= s.residentBytes <= ByteBound()
    {
      MemoryBound(cache, file.content, windowSize, capacity);
      return ImageStats(syscalls, hits, misses, |cache|, windowSize * |cache|,
                        bytesServed, bytesRead, shortReads);
    }

    /** The window `index`, from the cache or from a single read. */
    method Window(index: nat) returns (r: Option<seq<u8>>)
      requires windowSize >= 1 && capacity >= 1 && StartOf(index, windowSize) < U64_LIMIT
      modifies this`cache, this`hits, this`misses, this`syscalls, this`bytesRead, this`trace
      ensures (Contents(), r) == Lookup(old(Contents()), Env(), index)
    {
      hide WindowOf, Take, StartOf;
      var position := 0;
      assert cache[0..] == cache;
      while position < |cache| && cache[position].index != index
        invariant position <= |cache|
        invariant PositionOf(cache, index) == position + PositionOf(cache[position..], index)
      {
        assert cache[position..][1..] == cache[position + 1..];
        position := position + 1;
      }
      if position < |cache| {
        Promote(position);
        return Some(cache[0].data);
      }
      r := Load(index);
    }

    /** Move a cached window to the front. */
    method Promote(position: nat)
      requires position < |cache|
      modifies this`cache, this`hits, this`trace
      ensures cache == [old(cache)[position]] + old(cache)[..position] + old(cache)[position + 1..]
      ensures hits == old(hits) + 1 && trace == old(trace) + [Use(old(cache)[position].index)]
    {
      trace := trace + [Use(cache[position].index)];
      cache := [cache[position]] + cache[..position] + cache[position + 1..];
      hits := hits + 1;
    }

    /** Read a window that is not cached. */
    method Load(index: nat) returns (r: Option<seq<u8>>)
      requires windowSize >= 1 && capacity >= 1 && StartOf(index, windowSize) < U64_LIMIT
      requires PositionOf(cache, index) == |cache|
      modifies this`cache, this`misses, this`syscalls, this`bytesRead, this`trace
      ensures (Contents(), r) == Lookup(old(Contents()), Env(), index)
    {
      hide Take, StartOf;
      misses := misses + 1;
      StartIsProduct(index, windowSize);
      var buffer := file.ReadAt(SaturatingMul(index, windowSize), windowSize);
      if buffer.None? {
        trace := trace + [Fault(index)];
        return None;
      }
      syscalls := syscalls + 1;
      bytesRead := bytesRead + |buffer.value|;
      trace := trace + [Use(index)];
      Push(Entry(index, buffer.value));
      return Some(cache[0].data);
    }

    /** Push a window to the front and drop windows from the back. */
    method Push(e: Entry)
      requires capacity >= 1
      modifies this`cache
      ensures cache == Take([e] + old(cache), capacity) && cache != [] && cache[0] == e
    {
      cache := [e] + cache;
      ghost var pushed := cache;
      while |cache| > capacity
        invariant 1 <= |cache| && Take(pushed, capacity) <= cache <= pushed
        decreases |cache|
      {
        cache := cache[..|cache| - 1];
      }
    }

    /** Read `count` bytes at `offset`.  What comes back is a prefix of the file's
        bytes there, cut short only by a window cached before the file grew past it;
        on a file that agrees with the cache it is exactly those bytes.  The last three
        clauses say when the counters keep to what their comments promise. */
    method ReadRange(offset: u64, count: u64) returns (r: Option<seq<u8>>)
      requires Valid()
      modifies this`cache, this`hits, this`misses, this`syscalls, this`bytesRead, this`trace,
               this`bytesServed, this`shortReads
      ensures Valid()
      ensures var end := SaturatingAdd(offset, count);
              var read := Read(old(Contents()), Env(), offset, end);
              && Contents() == read.cache
              && r == (if read.failed then None else Some(read.bytes))
              && IsPrefixRead(old(Contents()), Env(), offset, end, read)
              && (old(Fresh()) ==> IsExactRead(old(Contents()), Env(), offset, end, read))
      ensures r.Some? ==> bytesServed == old(bytesServed) + |r.value|
                          && shortReads == old(shortReads) + Ticks(offset, count, |r.value|)
      ensures old(Fresh()) && r.Some? ==>
                shortReads == old(shortReads) + FreshTicks(|file.content|, offset, count)
      ensures old(Fresh()) && !file.broken
              && NeitherEndCuts(|file.content|, windowSize, offset, SaturatingAdd(offset, count)) ==>
                bytesRead - old(bytesRead) <= bytesServed - old(bytesServed)
      ensures old(Fresh()) && !file.broken && AllBefore(old(cache), IndexAt(offset, windowSize)) ==>
                (bytesRead - old(bytesRead) <= bytesServed - old(bytesServed)
                 <==> NeitherEndCuts(|file.content|, windowSize, offset, SaturatingAdd(offset, count)))
    {
      hide IsLru, Coherent, UpToDate, Slice, Supply, WindowOf, Lookup, IsPrefixRead, IsExactRead, Read, StartOf,
           IndexAt, WithinAt, NeitherEndCuts, AllBefore, Ticks, FreshTicks, ReadTrace;
      ghost var start, served, ticks := Contents(), bytesServed, shortReads;
      var end := SaturatingAdd(offset, count);
      ReadPromises(start, Env(), offset, end);
      var out: seq<u8> := [];
      var position := offset;
      while position < end
        invariant position == offset + |out| <= end
        invariant Read(start, Env(), offset, end) == Behind(out, Read(Contents(), Env(), position, end))
        invariant bytesServed == served && shortReads == ticks
        decreases end - position
      {
        Locate(position, windowSize);
        ReadStep(Contents(), Env(), position, end);
        var index := IndexAt(position, windowSize);
        var window := Window(index);
        if window.None? {
          return None;
        }
        var within := WithinAt(position, windowSize);
        var available := SaturatingSub(|window.value|, within);
        SupplyIs(window.value, windowSize, position, end);
        if available == 0 {
          // The file, or the cached part of it, ends exactly here.
          shortReads := shortReads + 1;
          break;
        }
        var take := Min(available, end - position);
        BehindTwice(out, window.value[within..within + take], Read(Contents(), Env(), position + take, end));
        out := out + window.value[within..within + take];
        position := position + take;
      }
      if position == end {
        ReadEnds(Contents(), Env(), end, end);
      }
      BehindNothing(out, Contents());
      bytesServed := bytesServed + |out|;
      if |out| < count {
        shortReads := shortReads + 1;
      }
      TicksCounted(offset, count, |out|);
      if old(Fresh()) {
        FreshTicksCounted(file.content, offset, count, start, Env());
      }
      return Some(out);
    }

    /** `count` rows of 16 bytes from row `first` on, as far as the recorded length
        goes: every one shows bytes of the file at its place, and on a reader that agrees
        with the file they are exactly the rows of the file. */
    method ReadLines(first: u64, count: u64) returns (r: Option<seq<HexLine>>)
      requires Valid() && len < U64_LIMIT
      modifies this`cache, this`hits, this`misses, this`syscalls, this`bytesRead, this`trace,
               this`bytesServed, this`shortReads
      ensures Valid()
      ensures r.None? ==> file.broken
      ensures r.Some? ==> ShownRows(r.value, file.content, len, first, count)
      ensures old(Fresh()) ==> Fresh()
      ensures old(Fresh()) && r.Some? ==> r.value == RowsOf(file.content, len, first, count)
    {
      hide IsLru, Coherent, UpToDate, Slice, Read, StaleAt, Refreshed, RowsOf, ReadTrace, IndexAt, AllBefore,
           NeitherEndCuts, Ticks, FreshTicks, HexText, AsciiText, SaturatingMul, Shows, IsPrefixRead, IsExactRead;
      var lines: seq<HexLine> := [];
      var index := 0;
      while index < count
        invariant index <= count && |lines| == index
        invariant Valid()
        invariant forall k :: 0 <= k < index ==> Shows(lines[k], file.content, len, first + k)
        invariant old(Fresh()) ==> Fresh()
        invariant old(Fresh()) ==>
                    RowsOf(file.content, len, first, count)
                    == lines + RowsOf(file.content, len, first + index, count - index)
      {
        NextRow(file.content, len, first + index, count - index);
        var row := SaturatingAdd(first, index);
        var offset := SaturatingMul(row, BYTES_PER_ROW);
        RowOffset(first, index, len);
        if offset >= len {
          break;
        }
        var wanted := Min(len - offset, BYTES_PER_ROW);
        ghost var before := Contents();
        var bytes := ReadRange(offset, wanted);
        ReadShows(before, Env(), offset, offset + wanted);
        if bytes.None? {
          return None;
        }
        var atEof := |bytes.value| < BYTES_PER_ROW;
        var line := RenderLine(offset, bytes.value, atEof);
        ShownRow(line, file.content, len, first + index);
        lines := lines + [line];
        index := index + 1;
      }
      NextRow(file.content, len, first + index, count - index);
      return Some(lines);
    }
  }
}
