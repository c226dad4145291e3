/**
 The window cache of `hex.rs` as a function of values: what one access and one
 read do to the cached windows and their counters, and what a read returns.
 `HexReader` is the imperative form.
 */
module WindowCache {
  import opened Wrappers
  import opened Words
  import opened Recency
  import opened Seqs

  datatype Entry = Entry(index: nat, data: seq<u8>)

  /** Cached windows, most recently used first, the counters that describe their
      traffic, and the history that explains them. */
  datatype Cache = Cache(
    entries: seq<Entry>, hits: nat, misses: nat, syscalls: nat, bytesRead: nat, trace: Trace)

  /** The file as it is now, and the geometry of the cache. */
  datatype Env = Env(file: seq<u8>, broken: bool, size: nat, capacity: nat)

  type Disk = e: Env | e.size >= 1 && e.capacity >= 1 witness Env([], false, 1, 1)

  /** The bytes of `f` between `from` and `to`, as far as the file has them. */
  function Slice(f: seq<u8>, from: nat, to: nat): seq<u8> {
    if from <= to then f[Min(from, |f|)..Min(to, |f|)] else []
  }

  /** `index * size`, `position / size` and `position % size`, by repeated addition
      so that proofs about windows stay linear; see `WindowArithmetic`. */
  function StartOf(index: nat, size: nat): nat {
    if index == 0 then 0 else size + StartOf(index - 1, size)
  }

  function IndexAt(position: nat, size: nat): nat
    requires size >= 1
  {
    if position < size then 0 else 1 + IndexAt(position - size, size)
  }

  function WithinAt(position: nat, size: nat): nat
    requires size >= 1
  {
    if position < size then position else WithinAt(position - size, size)
  }

  function WindowOf(f: seq<u8>, index: nat, size: nat): seq<u8> {
    Slice(f, StartOf(index, size), StartOf(index, size) + size)
  }

  function Indices(entries: seq<Entry>): seq<nat> {
    seq(|entries|, k requires 0 <= k < |entries| => entries[k].index)
  }

  function TotalBytes(entries: seq<Entry>): nat {
    if entries == [] then 0 else |entries[0].data| + TotalBytes(entries[1..])
  }

  /** Position of window `index`, or the number of entries. */
  function PositionOf(entries: seq<Entry>, index: nat): (p: nat)
    ensures p <= |entries|
    ensures p < |entries| ==> entries[p].index == index
    ensures forall k :: 0 <= k < p ==> entries[k].index != index
  {
    if entries == [] || entries[0].index == index then 0 else 1 + PositionOf(entries[1..], index)
  }

  /** One window access: a hit moves the window to the front, a miss reads it and
      evicts from the back. */
  function Lookup(c: Cache, d: Disk, index: nat): (Cache, Option<seq<u8>>) {
    var p := PositionOf(c.entries, index);
    if p < |c.entries| then
      var e := c.entries[p];
      (c.(entries := [e] + c.entries[..p] + c.entries[p + 1..],
          hits := c.hits + 1, trace := c.trace + [Use(index)]), Some(e.data))
    else if d.broken then
      (c.(misses := c.misses + 1, trace := c.trace + [Fault(index)]), None)
    else
      var data := WindowOf(d.file, index, d.size);
      (c.(entries := Take([Entry(index, data)] + c.entries, d.capacity),
          misses := c.misses + 1, syscalls := c.syscalls + 1, bytesRead := c.bytesRead + |data|,
          trace := c.trace + [Use(index)]), Some(data))
  }

  datatype ReadResult = ReadResult(cache: Cache, bytes: seq<u8>, failed: bool)

  /** The bytes a window supplies for the range `[position, end)`. */
  function Supply(data: seq<u8>, size: nat, position: nat, end: nat): seq<u8>
    requires size >= 1 && position < end
  {
    var within := WithinAt(position, size);
    data[Min(within, |data|)..Min(within + (end - position), |data|)]
  }

  /** A whole read: window after window until the range or the bytes end. */
  function Read(c: Cache, d: Disk, position: nat, end: nat): ReadResult
    decreases end - position
  {
    if position >= end then ReadResult(c, [], false)
    else
      var (c', window) := Lookup(c, d, IndexAt(position, d.size));
      match window
      case None => ReadResult(c', [], true)
      case Some(data) =>
        var taken := Supply(data, d.size, position, end);
        if taken == [] then ReadResult(c', [], false)
        else
          var rest := Read(c', d, position + |taken|, end);
          rest.(bytes := taken + rest.bytes)
  }

  // ---------------------------------------------------------------- invariants ---

  /** The cache is the LRU cache of its own history. */
  ghost predicate IsLru(c: Cache, capacity: nat) {
    && Indices(c.entries) == Take(Recent(c.trace), capacity)
    && c.misses == Misses(c.trace, capacity)
    && c.hits == Hits(c.trace, capacity)
    && c.syscalls + Faults(c.trace) == c.misses
  }

  /** Every cached window is a prefix of that window of the file. */
  ghost predicate Coherent(entries: seq<Entry>, f: seq<u8>, size: nat) {
    forall e :: e in entries ==> e.data <= WindowOf(f, e.index, size)
  }

  /** Every cached window is that window of the file. */
  ghost predicate UpToDate(entries: seq<Entry>, f: seq<u8>, size: nat) {
    forall e :: e in entries ==> e.data == WindowOf(f, e.index, size)
  }

  /** The cache holds a window of the file that stops short of byte `position`. */
  ghost predicate StaleAt(entries: seq<Entry>, d: Disk, position: nat) {
    exists e :: e in entries && e.index == IndexAt(position, d.size)
                && |e.data| <= WithinAt(position, d.size) < |WindowOf(d.file, e.index, d.size)|
  }

  // ------------------------------------------------------------------- slices ---

  lemma SliceFacts(f: seq<u8>, more: seq<u8>, from: nat, to: nat)
    requires from <= to
    ensures |Slice(f, from, to)| <= to - from
    ensures Slice(f, from, to) <= Slice(f + more, from, to)
  {
  }

  lemma SliceAppend(f: seq<u8>, from: nat, mid: nat, to: nat)
    requires from <= mid <= to && (mid <= |f| || mid == to || mid == from)
    ensures Slice(f, from, to) == Slice(f, from, mid) + Slice(f, mid, to)
  {
  }

  lemma {:induction false} Locate(position: nat, size: nat)
    requires size >= 1
    ensures position == StartOf(IndexAt(position, size), size) + WithinAt(position, size)
    ensures WithinAt(position, size) < size
  {
    if position >= size {
      Locate(position - size, size);
    }
  }

  lemma {:induction false} StartIsProduct(index: nat, size: nat)
    ensures StartOf(index, size) == index * size
  {
    if index > 0 {
      StartIsProduct(index - 1, size);
      Distribute(size, 1, index - 1);
    }
  }

  /** The window arithmetic is multiplication and truncating division. */
  lemma WindowArithmetic(position: nat, size: nat)
    requires size >= 1
    ensures IndexAt(position, size) == position / size
    ensures WithinAt(position, size) == position % size
  {
    Locate(position, size);
    var q, r := IndexAt(position, size), WithinAt(position, size);
    StartIsProduct(q, size);
    DivisionIsUnique(position, size, q, r);
  }

  lemma MulNat(a: nat, b: nat)
    ensures a * b >= 0
  {
  }

  lemma WindowBound(f: seq<u8>, index: nat, size: nat)
    ensures |WindowOf(f, index, size)| <= size
  {
    SliceFacts(f, [], StartOf(index, size), StartOf(index, size) + size);
  }

  lemma {:induction false} TotalBytesBound(entries: seq<Entry>, size: nat)
    requires forall e :: e in entries ==> |e.data| <= size
    ensures TotalBytes(entries) <= size * |entries|
  {
    if entries != [] {
      TotalBytesBound(entries[1..], size);
      assert entries[0] in entries;
      assert |entries| == 1 + |entries[1..]|;
      Distribute(size, 1, |entries[1..]|);
    }
  }

  /** The windows a cache holds never exceed the configured bound. */
  lemma MemoryBound(entries: seq<Entry>, f: seq<u8>, size: nat, capacity: nat)
    requires Coherent(entries, f, size) && |Indices(entries)| <= capacity
    ensures TotalBytes(entries) <= size * |entries| <= size * capacity
  {
    hide WindowOf, TotalBytes;
    forall e | e in entries ensures |e.data| <= size {
      WindowBound(f, e.index, size);
    }
    TotalBytesBound(entries, size);
    Distribute(size, |entries|, capacity - |entries|);
    MulNat(size, capacity - |entries|);
  }

  lemma ReadEnds(c: Cache, d: Disk, position: nat, end: nat)
    requires position >= end
    ensures Read(c, d, position, end) == ReadResult(c, [], false)
  {
  }

  /** One iteration of the reading loop: the window fails, supplies nothing more, or
      supplies `taken` and the read goes on behind it. */
  lemma ReadStep(c: Cache, d: Disk, position: nat, end: nat)
    requires position < end
    ensures var (c', window) := Lookup(c, d, IndexAt(position, d.size));
            Read(c, d, position, end) ==
            if window.None? then ReadResult(c', [], true)
            else
              var taken := Supply(window.value, d.size, position, end);
              if taken == [] then ReadResult(c', [], false)
              else
                var rest := Read(c', d, position + |taken|, end);
                rest.(bytes := taken + rest.bytes)
  {
    hide Lookup, Supply;
  }

  /** What `Supply` takes, in the code's terms. */
  lemma SupplyIs(data: seq<u8>, size: nat, position: nat, end: nat)
    requires size >= 1 && position < end
    ensures var within := WithinAt(position, size);
            var available := SaturatingSub(|data|, within);
            && (available == 0 <==> Supply(data, size, position, end) == [])
            && (available > 0 ==> Supply(data, size, position, end)
                                  == data[within..within + Min(available, end - position)])
  {
  }

  /** Appending to the file keeps every cached window a prefix of its window. */
  lemma CoherentAfterGrowth(entries: seq<Entry>, f: seq<u8>, more: seq<u8>, size: nat)
    requires Coherent(entries, f, size)
    ensures Coherent(entries, f + more, size)
  {
    forall e | e in entries
      ensures e.data <= WindowOf(f + more, e.index, size)
    {
      SliceFacts(f, more, StartOf(e.index, size), StartOf(e.index, size) + size);
    }
  }

  lemma PrefixSlice(data: seq<u8>, whole: seq<u8>, from: nat, to: nat)
    requires data <= whole && from <= to <= |data|
    ensures data[from..to] == whole[from..to]
  {
    assert data == whole[..|data|];
  }

  lemma SliceOfSlice(f: seq<u8>, start: nat, to: nat, i: nat, j: nat)
    requires start <= to <= |f| && i <= j <= to - start
    ensures f[start..to][i..j] == f[start + i..start + j]
  {
    forall k | 0 <= k < j - i ensures f[start..to][i..j][k] == f[start + i..start + j][k] {
      assert f[start..to][i + k] == f[start + (i + k)];
    }
  }

  lemma SupplyFrom(f: seq<u8>, size: nat, data: seq<u8>, start: nat, within: nat, end: nat)
    requires within < size && start + within < end
    requires data <= Slice(f, start, start + size)
    ensures var taken := data[Min(within, |data|)..Min(within + (end - (start + within)), |data|)];
            && taken == Slice(f, start + within, start + within + |taken|)
            && (taken != [] ==> start + within + |taken| <= |f|)
            && (taken == [] ==> |data| <= within)
            && (start + within < |f| ==> within < |Slice(f, start, start + size)|)
  {
    if within < |data| {
      var to, stop := Min(start + size, |f|), Min(within + (end - (start + within)), |data|);
      PrefixSlice(data, f[start..to], within, stop);
      SliceOfSlice(f, start, to, within, stop);
    } else {
      assert Slice(f, start + within, start + within) == [];
    }
  }

  /** A cached prefix of the window supplies the next bytes of the file, and
      supplies none only if the file has none or the cached window is stale. */
  lemma SupplyIsNextBytes(d: Disk, data: seq<u8>, position: nat, end: nat)
    requires position < end
    requires data <= WindowOf(d.file, IndexAt(position, d.size), d.size)
    ensures var taken := Supply(data, d.size, position, end);
            && position + |taken| <= end
            && taken == Slice(d.file, position, position + |taken|)
            && (taken != [] ==> position + |taken| <= |d.file|)
            && (taken == [] && position < |d.file| ==>
                |data| <= WithinAt(position, d.size) < |WindowOf(d.file, IndexAt(position, d.size), d.size)|)
  {
    hide Slice, StartOf, WithinAt, IndexAt;
    Locate(position, d.size);
    SupplyFrom(d.file, d.size, data, StartOf(IndexAt(position, d.size), d.size),
               WithinAt(position, d.size), end);
  }

  // ------------------------------------------------------------------ one access ---

  lemma CachedIffListed(entries: seq<Entry>, index: nat)
    ensures index in Indices(entries) <==> PositionOf(entries, index) < |entries|
  {
    if PositionOf(entries, index) < |entries| {
      assert Indices(entries)[PositionOf(entries, index)] == index;
    }
  }

  lemma IndicesMoved(entries: seq<Entry>, p: nat)
    requires p < |entries|
    ensures var list := Indices(entries);
            && |list| == |entries| && list[p] == entries[p].index
            && Indices([entries[p]] + entries[..p] + entries[p + 1..]) == [list[p]] + (list[..p] + list[p + 1..])
  {
  }

  lemma IndicesPushed(entries: seq<Entry>, e: Entry, capacity: nat)
    ensures Indices(Take([e] + entries, capacity)) == Take([e.index] + Indices(entries), capacity)
  {
  }

  /** On the index list an access is exactly one LRU touch. */
  lemma AccessTouches(c: Cache, d: Disk, index: nat)
    requires Distinct(Indices(c.entries))
    ensures var (c', window) := Lookup(c, d, index);
            Indices(c'.entries) ==
            if window.Some? then Touch(Indices(c.entries), index, d.capacity) else Indices(c.entries)
  {
    hide Distinct, Remove, WindowOf, Indices, PositionOf;
    var list := Indices(c.entries);
    var p := PositionOf(c.entries, index);
    CachedIffListed(c.entries, index);
    if p < |c.entries| {
      IndicesMoved(c.entries, p);
      RemoveAt(list, p);
    } else if !d.broken {
      IndicesPushed(c.entries, Entry(index, WindowOf(d.file, index, d.size)), d.capacity);
    }
  }

  lemma AccessKeepsLru(c: Cache, d: Disk, index: nat)
    requires IsLru(c, d.capacity)
    ensures IsLru(Lookup(c, d, index).0, d.capacity)
  {
    hide WindowOf, Touch, Remove, Distinct, LastUse;
    var c' := Lookup(c, d, index).0;
    assert c'.trace[..|c'.trace| - 1] == c.trace;
    RecentIsRecencyOrder(c.trace);
    PrefixDistinct(Recent(c.trace), |Indices(c.entries)|);
    AccessTouches(c, d, index);
    TouchTracksRecency(Recent(c.trace), index, d.capacity);
    CachedIffListed(c.entries, index);
  }

  /** Every window of `after` was in `before` or is up to date. */
  ghost predicate Refreshed(before: seq<Entry>, after: seq<Entry>, d: Disk) {
    forall e :: e in after ==> e in before || e.data == WindowOf(d.file, e.index, d.size)
  }

  /** An access serves a prefix of the window, stale only if it was cached so. */
  lemma AccessOutcome(c: Cache, d: Disk, index: nat)
    requires Coherent(c.entries, d.file, d.size)
    ensures var (c', window) := Lookup(c, d, index);
            && Coherent(c'.entries, d.file, d.size)
            && Refreshed(c.entries, c'.entries, d)
            && (window.None? ==> d.broken)
            && (window.Some? ==>
                  && window.value <= WindowOf(d.file, index, d.size)
                  && c'.trace == c.trace + [Use(index)]
                  && (window.value == WindowOf(d.file, index, d.size)
                      || Entry(index, window.value) in c.entries))
  {
    hide WindowOf, IsLru;
    var (c', window) := Lookup(c, d, index);
    assert forall e :: e in c'.entries ==>
        e in c.entries || e == Entry(index, WindowOf(d.file, index, d.size));
  }

  // ---------------------------------------------------------------- whole reads ---

  /** Every read leaves an LRU cache, whatever the file did in between. */
  lemma {:induction false} ReadKeepsLru(c: Cache, d: Disk, position: nat, end: nat)
    requires IsLru(c, d.capacity)
    ensures IsLru(Read(c, d, position, end).cache, d.capacity)
    decreases end - position
  {
    hide IsLru, Lookup, Supply;
    if position < end {
      var (c', window) := Lookup(c, d, IndexAt(position, d.size));
      AccessKeepsLru(c, d, IndexAt(position, d.size));
      if window.Some? {
        var taken := Supply(window.value, d.size, position, end);
        if taken != [] {
          ReadKeepsLru(c', d, position + |taken|, end);
        }
      }
    }
  }

  /** What a read of `[position, end)` may return: a prefix of the file's bytes
      there, cut short only by a window cached before the file grew past it. */
  ghost predicate IsPrefixRead(c: Cache, d: Disk, position: nat, end: nat, r: ReadResult)
    requires position <= end
  {
    && Coherent(r.cache.entries, d.file, d.size)
    && Refreshed(c.entries, r.cache.entries, d)
    && r.bytes <= Slice(d.file, position, end)
    && (r.failed ==> d.broken)
    && (!r.failed && |r.bytes| < |Slice(d.file, position, end)|
        ==> StaleAt(c.entries, d, position + |r.bytes|))
  }

  lemma StopsAt(c: Cache, c': Cache, d: Disk, position: nat, end: nat, failed: bool)
    requires position <= end
    requires Coherent(c'.entries, d.file, d.size) && Refreshed(c.entries, c'.entries, d)
    requires failed ==> d.broken
    requires failed || position == end || position >= |d.file| || StaleAt(c.entries, d, position)
    ensures IsPrefixRead(c, d, position, end, ReadResult(c', [], failed))
  {
    hide WindowOf, IndexAt, WithinAt, StaleAt;
  }

  lemma ContinuesFrom(c: Cache, c': Cache, d: Disk, position: nat, taken: seq<u8>, end: nat, rest: ReadResult)
    requires position + |taken| <= end && position + |taken| <= |d.file|
    requires taken == Slice(d.file, position, position + |taken|)
    requires Refreshed(c.entries, c'.entries, d)
    requires IsPrefixRead(c', d, position + |taken|, end, rest)
    ensures Coherent(rest.cache.entries, d.file, d.size)
    ensures IsPrefixRead(c, d, position, end, rest.(bytes := taken + rest.bytes))
  {
    hide WindowOf, IndexAt, WithinAt;
    SliceAppend(d.file, position, position + |taken|, end);
    hide Slice;
    var stop := position + |taken| + |rest.bytes|;
    if StaleAt(c'.entries, d, stop) {
      assert StaleAt(c.entries, d, stop);
    }
  }

  lemma {:induction false} ReadIsPrefix(c: Cache, d: Disk, position: nat, end: nat)
    requires position <= end && Coherent(c.entries, d.file, d.size)
    ensures IsPrefixRead(c, d, position, end, Read(c, d, position, end))
    ensures Coherent(Read(c, d, position, end).cache.entries, d.file, d.size)
    decreases end - position
  {
    hide Lookup, Supply, Slice, WindowOf, IndexAt, WithinAt, IsPrefixRead, Coherent;
    if position == end {
      StopsAt(c, c, d, position, end, false);
    } else {
      var (c', window) := Lookup(c, d, IndexAt(position, d.size));
      AccessOutcome(c, d, IndexAt(position, d.size));
      if window.None? {
        StopsAt(c, c', d, position, end, true);
      } else {
        SupplyIsNextBytes(d, window.value, position, end);
        var taken := Supply(window.value, d.size, position, end);
        if taken == [] {
          StopsAt(c, c', d, position, end, false);
        } else {
          ReadIsPrefix(c', d, position + |taken|, end);
          ContinuesFrom(c, c', d, position, taken, end, Read(c', d, position + |taken|, end));
        }
      }
    }
  }

  /** The accesses of a read on a file that agrees with the cache: they depend on
      the file and the range alone. */
  function ReadTrace(f: seq<u8>, size: nat, position: nat, end: nat): Trace
    requires size >= 1
    decreases end - position
  {
    if position >= end then []
    else
      var index := IndexAt(position, size);
      var taken := Supply(WindowOf(f, index, size), size, position, end);
      [Use(index)] + if taken == [] then [] else ReadTrace(f, size, position + |taken|, end)
  }

  /** A read that is plain random access, made by the accesses the file dictates. */
  ghost predicate IsExactRead(c: Cache, d: Disk, position: nat, end: nat, r: ReadResult)
    requires position <= end
  {
    && UpToDate(r.cache.entries, d.file, d.size)
    && (!r.failed ==> r.bytes == Slice(d.file, position, end)
                      && r.cache.trace == c.trace + ReadTrace(d.file, d.size, position, end))
  }

  lemma UpToDateAccess(c: Cache, d: Disk, index: nat)
    requires UpToDate(c.entries, d.file, d.size)
    ensures UpToDate(Lookup(c, d, index).0.entries, d.file, d.size)
    ensures Lookup(c, d, index).1.Some? ==> Lookup(c, d, index).1.value == WindowOf(d.file, index, d.size)
  {
    hide Lookup, WindowOf;
    AccessOutcome(c, d, index);
  }

  lemma AccessIsTraced(c: Cache, d: Disk, index: nat)
    requires Lookup(c, d, index).1.Some?
    ensures Lookup(c, d, index).0.trace == c.trace + [Use(index)]
  {
  }

  lemma NothingPast(f: seq<u8>, position: nat, end: nat)
    requires |f| <= position <= end
    ensures Slice(f, position, end) == []
  {
  }

  /** When no cached window is out of date a read is plain random access. */
  lemma {:induction false} ReadIsExact(c: Cache, d: Disk, position: nat, end: nat)
    requires position <= end && UpToDate(c.entries, d.file, d.size)
    ensures IsExactRead(c, d, position, end, Read(c, d, position, end))
    decreases end - position
  {
    hide Lookup, Supply, Slice, WindowOf, IndexAt, WithinAt, UpToDate;
    if position == end {
      assert Slice(d.file, end, end) == [] by { SliceFacts(d.file, [], end, end); }
    } else {
      var index := IndexAt(position, d.size);
      var (c', window) := Lookup(c, d, index);
      UpToDateAccess(c, d, index);
      if window.Some? {
        AccessIsTraced(c, d, index);
        var taken := Supply(window.value, d.size, position, end);
        SupplyIsNextBytes(d, window.value, position, end);
        if taken == [] {
          NothingPast(d.file, position, end);
        } else {
          ReadIsExact(c', d, position + |taken|, end);
          SliceAppend(d.file, position, position + |taken|, end);
          Associative(c.trace, [Use(index)], ReadTrace(d.file, d.size, position + |taken|, end));
        }
      }
    }
  }

  // -------------------------------------------------- bytes read and bytes served ---

  lemma {:induction false} LocateUnique(index: nat, within: nat, size: nat)
    requires within < size
    ensures IndexAt(StartOf(index, size) + within, size) == index
    ensures WithinAt(StartOf(index, size) + within, size) == within
  {
    if index > 0 {
      LocateUnique(index - 1, within, size);
    }
  }

  lemma NextStart(index: nat, size: nat)
    ensures StartOf(index + 1, size) == StartOf(index, size) + size
  {
  }

  /** Every cached window lies before window `index`. */
  ghost predicate AllBefore(entries: seq<Entry>, index: nat) {
    forall e :: e in entries ==> e.index < index
  }

  /** Where the windows of a range end: the end of the window of its last byte. */
  function WindowsEnd(end: nat, size: nat): nat
    requires size >= 1 && end >= 1
  {
    StartOf(IndexAt(end - 1, size), size) + size
  }

  /** An access on a file that agrees with the cache serves the window and leaves it at
      the front; it loads the window unless it was cached. */
  lemma FreshAccess(c: Cache, d: Disk, index: nat)
    requires UpToDate(c.entries, d.file, d.size) && !d.broken
    ensures var (c', window) := Lookup(c, d, index);
            && window == Some(WindowOf(d.file, index, d.size))
            && UpToDate(c'.entries, d.file, d.size)
            && c'.entries != [] && c'.entries[0] == Entry(index, WindowOf(d.file, index, d.size))
            && c.bytesRead <= c'.bytesRead <= c.bytesRead + |WindowOf(d.file, index, d.size)|
  {
    UpToDateAccess(c, d, index);
    hide WindowOf, UpToDate;
    var p := PositionOf(c.entries, index);
    if p < |c.entries| {
      assert Lookup(c, d, index).0.entries[0] == c.entries[p];
    }
  }

  lemma ColdAccess(c: Cache, d: Disk, index: nat)
    requires AllBefore(c.entries, index) && !d.broken
    ensures var c' := Lookup(c, d, index).0;
            && c'.bytesRead == c.bytesRead + |WindowOf(d.file, index, d.size)|
            && AllBefore(c'.entries, index + 1)
  {
    hide WindowOf;
    assert PositionOf(c.entries, index) == |c.entries|;
  }

  /** The window at the front is served again without reading. */
  lemma FrontAccess(c: Cache, d: Disk)
    requires c.entries != []
    ensures var (c', window) := Lookup(c, d, c.entries[0].index);
            window == Some(c.entries[0].data) && c'.bytesRead == c.bytesRead
  {
    assert PositionOf(c.entries, c.entries[0].index) == 0;
  }

  lemma WindowIsSlice(f: seq<u8>, index: nat, size: nat)
    ensures WindowOf(f, index, size) == Slice(f, StartOf(index, size), StartOf(index, size) + size)
  {
  }

  /** A non-empty supply ends at the end of the range, of the window or of the file. */
  lemma TakesToTheEdge(f: seq<u8>, size: nat, start: nat, position: nat, end: nat, data: seq<u8>, taken: seq<u8>)
    requires size >= 1 && start <= position < start + size && position < end
    requires WithinAt(position, size) == position - start
    requires data == Slice(f, start, start + size) && taken == Supply(data, size, position, end)
    ensures position + |taken| <= start + size
    ensures taken == [] ==> |f| <= position
    ensures taken != [] ==> position + |taken| == Min(end, Min(start + size, |f|))
  {
    hide WithinAt;
  }

  /** The window a read is in is its last one: the range or the file ends in it. */
  lemma ReadStops(c: Cache, d: Disk, index: nat, position: nat, end: nat)
    requires position < end && !d.broken && index == IndexAt(position, d.size)
    requires UpToDate(c.entries, d.file, d.size)
    requires var edge := StartOf(index, d.size) + d.size; end <= edge || |d.file| < edge
    ensures Read(c, d, position, end).cache.bytesRead == Lookup(c, d, index).0.bytesRead
  {
    hide Lookup, Supply, WindowOf, IndexAt, WithinAt, StartOf, UpToDate, Read, Slice, IsLru;
    var f, size, start, data := d.file, d.size, StartOf(index, d.size), WindowOf(d.file, index, d.size);
    var taken := Supply(data, size, position, end);
    var next := position + |taken|;
    WindowIsSlice(f, index, size);
    Locate(position, size);
    FreshAccess(c, d, index);
    ReadStep(c, d, position, end);
    TakesToTheEdge(f, size, start, position, end, data, taken);
    var c' := Lookup(c, d, index).0;
    if taken != [] {
      if next < end {
        LocateUnique(index, next - start, size);
        FrontAccess(c', d);
        ReadStep(c', d, next, end);
        TakesToTheEdge(f, size, start, next, end, data, Supply(data, size, next, end));
      } else {
        ReadEnds(c', d, next, end);
      }
    }
  }

  /** The range and the file go on behind the window a read is in. */
  lemma ReadGoesOn(c: Cache, d: Disk, index: nat, position: nat, end: nat)
    requires position < end && !d.broken && index == IndexAt(position, d.size)
    requires UpToDate(c.entries, d.file, d.size)
    requires var edge := StartOf(index, d.size) + d.size; edge < end && edge <= |d.file|
    ensures Read(c, d, position, end).cache
         == Read(Lookup(c, d, index).0, d, StartOf(index, d.size) + d.size, end).cache
  {
    hide Lookup, Supply, WindowOf, IndexAt, WithinAt, StartOf, UpToDate, Read, Slice, IsLru;
    var f, size, start, data := d.file, d.size, StartOf(index, d.size), WindowOf(d.file, index, d.size);
    WindowIsSlice(f, index, size);
    Locate(position, size);
    FreshAccess(c, d, index);
    ReadStep(c, d, position, end);
    TakesToTheEdge(f, size, start, position, end, data, Supply(data, size, position, end));
  }

  lemma {:induction false} StartsAscend(i: nat, j: nat, size: nat, a: nat, b: nat)
    requires size >= 1 && a <= b && i == IndexAt(a, size) && j == IndexAt(b, size)
    ensures i <= j && StartOf(i, size) <= StartOf(j, size)
    decreases b
  {
    if a >= size {
      StartsAscend(i - 1, j - 1, size, a - size, b - size);
    }
  }

  lemma SliceClipped(f: seq<u8>, from: nat, mid: nat, to: nat)
    requires from <= mid <= to && |f| <= mid
    ensures Slice(f, from, mid) == Slice(f, from, to)
  {
  }

  /** A read takes from the file at most the windows of its range, each whole and once;
      behind every cached window it takes exactly those. */
  lemma {:induction false} BytesTaken(c: Cache, d: Disk, position: nat, end: nat)
    requires position < end && !d.broken && UpToDate(c.entries, d.file, d.size)
    ensures var taken := Read(c, d, position, end).cache.bytesRead - c.bytesRead;
            var windows := |Slice(d.file, StartOf(IndexAt(position, d.size), d.size), WindowsEnd(end, d.size))|;
            && 0 <= taken <= windows
            && (AllBefore(c.entries, IndexAt(position, d.size)) ==> taken == windows)
    decreases end - position
  {
    hide Lookup, Supply, WindowOf, IndexAt, WithinAt, StartOf, AllBefore, UpToDate, Read, Slice, IsLru;
    var f, size, index := d.file, d.size, IndexAt(position, d.size);
    var start := StartOf(index, size);
    var edge, last := start + size, WindowsEnd(end, size);
    WindowIsSlice(f, index, size);
    Locate(position, size);
    Locate(end - 1, size);
    StartsAscend(index, IndexAt(end - 1, size), size, position, end - 1);
    FreshAccess(c, d, index);
    if AllBefore(c.entries, index) {
      ColdAccess(c, d, index);
    }
    if edge < end && edge <= |f| {
      NextStart(index, size);
      LocateUnique(index + 1, 0, size);
      ReadGoesOn(c, d, index, position, end);
      BytesTaken(Lookup(c, d, index).0, d, edge, end);
      SliceAppend(f, start, edge, last);
    } else {
      ReadStops(c, d, index, position, end);
      if end <= edge {
        LocateUnique(index, end - 1 - start, size);
      } else {
        SliceClipped(f, start, edge, last);
      }
    }
  }

  lemma WindowsEndIs(end: nat, size: nat)
    requires size >= 1 && end >= 1
    ensures WindowsEnd(end, size) >= end
    ensures WindowsEnd(end, size) == end <==> WithinAt(end, size) == 0
  {
    Locate(end - 1, size);
    var index, within := IndexAt(end - 1, size), WithinAt(end - 1, size);
    NextStart(index, size);
    if within + 1 == size {
      LocateUnique(index + 1, 0, size);
    } else {
      LocateUnique(index, within + 1, size);
    }
  }

  lemma SliceSizes(f: seq<u8>, lo: nat, position: nat, end: nat, hi: nat)
    requires lo <= position < end <= hi
    ensures |Slice(f, lo, hi)| <= |Slice(f, position, end)| <==>
            (lo == position || |f| <= lo) && (hi == end || |f| <= end)
  {
  }

  /** Neither end of a range lies inside a window, except where a file of `length` bytes
      does not reach. */
  predicate NeitherEndCuts(length: nat, size: nat, position: nat, end: nat)
    requires size >= 1
  {
    || position == end
    || ((position % size == 0 || length <= position - position % size) && (end % size == 0 || length <= end))
  }

  lemma UpToDateIsCoherent(entries: seq<Entry>, f: seq<u8>, size: nat)
    requires UpToDate(entries, f, size)
    ensures Coherent(entries, f, size)
  {
  }

  lemma NotFailing(c: Cache, d: Disk, position: nat, end: nat)
    requires position <= end && !d.broken && UpToDate(c.entries, d.file, d.size)
    ensures !Read(c, d, position, end).failed
  {
    hide Read, Coherent;
    UpToDateIsCoherent(c.entries, d.file, d.size);
    ReadIsPrefix(c, d, position, end);
  }

  /** What the counters owe each other: a read takes no more bytes from the file than it
      serves when neither end of its range cuts a window that the file reaches into, and,
      behind every cached window, only then. */
  lemma BytesReadWithinServed(c: Cache, d: Disk, position: nat, end: nat)
    requires position <= end && !d.broken && UpToDate(c.entries, d.file, d.size)
    ensures var r := Read(c, d, position, end);
            var whole := NeitherEndCuts(|d.file|, d.size, position, end);
            && !r.failed && r.bytes == Slice(d.file, position, end)
            && (whole ==> r.cache.bytesRead - c.bytesRead <= |r.bytes|)
            && (AllBefore(c.entries, IndexAt(position, d.size)) && !whole ==>
                  r.cache.bytesRead - c.bytesRead > |r.bytes|)
  {
    hide Lookup, Supply, WindowOf, IndexAt, WithinAt, StartOf, AllBefore, UpToDate, Read, IsLru, Coherent, WindowsEnd;
    hide ReadTrace, Slice;
    NotFailing(c, d, position, end);
    ReadIsExact(c, d, position, end);
    if position == end {
      ReadEnds(c, d, end, end);
    } else {
      BytesTaken(c, d, position, end);
      Locate(position, d.size);
      WindowsEndIs(end, d.size);
      WindowArithmetic(position, d.size);
      WindowArithmetic(end, d.size);
      SliceSizes(d.file, StartOf(IndexAt(position, d.size), d.size), position, end, WindowsEnd(end, d.size));
    }
  }

  /** So reading one byte of a two-byte file through two-byte windows reads two. */
  lemma ReadsMoreThanItServes()
    ensures var empty := Cache([], 0, 0, 0, 0, []);
            var r := Read(empty, Env([1, 2], false, 2, 1), 0, 1);
            !r.failed && r.bytes == [1] && r.cache.bytesRead == 2
  {
    var empty, d := Cache([], 0, 0, 0, 0, []), Env([1, 2], false, 2, 1);
    NotFailing(empty, d, 0, 1);
    ReadIsExact(empty, d, 0, 1);
    BytesTaken(empty, d, 0, 1);
    hide Read;
    assert StartOf(IndexAt(0, 2), 2) == 0 && WindowsEnd(1, 2) == 2;
    assert Slice([1, 2], 0, 2) == [1, 2] && Slice([1, 2], 0, 1) == [1];
  }

  // ------------------------------------------------------------------ runs of reads ---

  /** A run of reads, each given by its position and end. */
  function ReadMany(c: Cache, d: Disk, ranges: seq<(nat, nat)>): Cache
    decreases |ranges|
  {
    if ranges == [] then c
    else ReadMany(Read(c, d, ranges[0].0, ranges[0].1).cache, d, ranges[1..])
  }

  function ManyTrace(f: seq<u8>, size: nat, ranges: seq<(nat, nat)>): Trace
    requires size >= 1
  {
    if ranges == [] then []
    else ReadTrace(f, size, ranges[0].0, ranges[0].1) + ManyTrace(f, size, ranges[1..])
  }

  lemma {:induction false} ReadManyTraced(c: Cache, d: Disk, ranges: seq<(nat, nat)>)
    requires forall k :: 0 <= k < |ranges| ==> ranges[k].0 <= ranges[k].1
    requires IsLru(c, d.capacity) && UpToDate(c.entries, d.file, d.size) && !d.broken
    ensures var c' := ReadMany(c, d, ranges);
            IsLru(c', d.capacity) && c'.trace == c.trace + ManyTrace(d.file, d.size, ranges)
    decreases |ranges|
  {
    hide IsLru, UpToDate, Coherent, Read, ReadTrace, Slice;
    if ranges != [] {
      var (from, to) := ranges[0];
      ReadKeepsLru(c, d, from, to);
      ReadIsExact(c, d, from, to);
      UpToDateIsCoherent(c.entries, d.file, d.size);
      ReadIsPrefix(c, d, from, to);
      ReadManyTraced(Read(c, d, from, to).cache, d, ranges[1..]);
      Associative(c.trace, ReadTrace(d.file, d.size, from, to), ManyTrace(d.file, d.size, ranges[1..]));
    }
  }

  /** What a run of reads serves of a file that agrees with the cache. */
  function ServedMany(f: seq<u8>, ranges: seq<(nat, nat)>): nat {
    if ranges == [] then 0
    else |Slice(f, ranges[0].0, ranges[0].1)| + ServedMany(f, ranges[1..])
  }

  /** Over a run of reads too, whatever is cached when it begins, no more is read than
      served when no range cuts a window. */
  lemma {:induction false} RunWithinServed(c: Cache, d: Disk, ranges: seq<(nat, nat)>)
    requires !d.broken && UpToDate(c.entries, d.file, d.size)
    requires forall k :: 0 <= k < |ranges| ==>
               ranges[k].0 <= ranges[k].1 && NeitherEndCuts(|d.file|, d.size, ranges[k].0, ranges[k].1)
    ensures ReadMany(c, d, ranges).bytesRead - c.bytesRead <= ServedMany(d.file, ranges)
    decreases |ranges|
  {
    hide UpToDate, Read, ReadTrace, Slice, NeitherEndCuts, AllBefore, IndexAt;
    if ranges != [] {
      var (from, to) := ranges[0];
      BytesReadWithinServed(c, d, from, to);
      ReadIsExact(c, d, from, to);
      RunWithinServed(Read(c, d, from, to).cache, d, ranges[1..]);
    }
  }

  /** The bytes an LRU cache of that capacity loads over a history of accesses. */
  function LoadedBytes(f: seq<u8>, size: nat, t: Trace, capacity: nat): nat {
    if t == [] then 0
    else
      var before := t[..|t| - 1];
      LoadedBytes(f, size, before, capacity) +
      match t[|t| - 1]
      case Use(i) => if i in Take(Recent(before), capacity) then 0 else |WindowOf(f, i, size)|
      case Clear => 0
      case Fault(_) => 0
  }

  lemma AccessLoads(c: Cache, d: Disk, index: nat)
    requires IsLru(c, d.capacity) && !d.broken
    ensures var c' := Lookup(c, d, index).0;
            c'.bytesRead - c.bytesRead
            == LoadedBytes(d.file, d.size, c'.trace, d.capacity) - LoadedBytes(d.file, d.size, c.trace, d.capacity)
  {
    hide WindowOf, Misses, Hits, Faults, Recent;
    var c' := Lookup(c, d, index).0;
    assert c'.trace[..|c'.trace| - 1] == c.trace;
    CachedIffListed(c.entries, index);
  }

  /** The bytes a read takes are those the LRU cache of its history loads. */
  lemma {:induction false} ReadLoads(c: Cache, d: Disk, position: nat, end: nat)
    requires IsLru(c, d.capacity) && !d.broken
    ensures var c' := Read(c, d, position, end).cache;
            c'.bytesRead - c.bytesRead
            == LoadedBytes(d.file, d.size, c'.trace, d.capacity) - LoadedBytes(d.file, d.size, c.trace, d.capacity)
    decreases end - position
  {
    hide IsLru, Lookup, Supply, LoadedBytes, IndexAt;
    if position < end {
      var (c', window) := Lookup(c, d, IndexAt(position, d.size));
      AccessKeepsLru(c, d, IndexAt(position, d.size));
      AccessLoads(c, d, IndexAt(position, d.size));
      if window.Some? {
        var taken := Supply(window.value, d.size, position, end);
        if taken != [] {
          ReadLoads(c', d, position + |taken|, end);
        }
      }
    }
  }

  /** What a run of reads takes from the file, exactly: what the LRU cache of the accesses
      loads, which the file, the geometry and the ranges alone determine. */
  lemma {:induction false} RunLoads(c: Cache, d: Disk, ranges: seq<(nat, nat)>)
    requires forall k :: 0 <= k < |ranges| ==> ranges[k].0 <= ranges[k].1
    requires IsLru(c, d.capacity) && UpToDate(c.entries, d.file, d.size) && !d.broken
    ensures ReadMany(c, d, ranges).bytesRead - c.bytesRead
         == LoadedBytes(d.file, d.size, c.trace + ManyTrace(d.file, d.size, ranges), d.capacity)
            - LoadedBytes(d.file, d.size, c.trace, d.capacity)
    decreases |ranges|
  {
    hide IsLru, UpToDate, Coherent, Read, ReadTrace, Slice, LoadedBytes;
    if ranges != [] {
      var (from, to) := ranges[0];
      ReadKeepsLru(c, d, from, to);
      ReadIsExact(c, d, from, to);
      NotFailing(c, d, from, to);
      ReadLoads(c, d, from, to);
      RunLoads(Read(c, d, from, to).cache, d, ranges[1..]);
      Associative(c.trace, ReadTrace(d.file, d.size, from, to), ManyTrace(d.file, d.size, ranges[1..]));
    } else {
      assert c.trace + [] == c.trace;
    }
  }

  // ------------------------------------------------------------ without eviction ---

  /** The bytes of the listed windows. */
  function WindowsTotal(f: seq<u8>, size: nat, list: seq<nat>): nat {
    if list == [] then 0 else |WindowOf(f, list[0], size)| + WindowsTotal(f, size, list[1..])
  }

  lemma {:induction false} WindowsWithout(f: seq<u8>, size: nat, list: seq<nat>, x: nat)
    requires Distinct(list)
    ensures WindowsTotal(f, size, list)
         == WindowsTotal(f, size, Remove(list, x)) + if x in list then |WindowOf(f, x, size)| else 0
    ensures |list| <= |Remove(list, x)| + 1 && (x !in list ==> |Remove(list, x)| == |list|)
  {
    hide WindowOf, StartOf;
    if list != [] {
      assert list == [list[0]] + list[1..];
      WindowsWithout(f, size, list[1..], x);
      if list[0] == x {
        assert x !in list[1..];
        RemoveAbsent(list[1..], x);
      } else {
        assert ([list[0]] + Remove(list[1..], x))[1..] == Remove(list[1..], x);
      }
    }
  }

  /** A cache that never evicts loads each window it uses once. */
  lemma {:induction false} LoadedWithoutEviction(f: seq<u8>, size: nat, t: Trace, capacity: nat)
    requires forall e :: e in t ==> !e.Clear?
    requires |Recent(t)| <= capacity
    ensures LoadedBytes(f, size, t, capacity) == WindowsTotal(f, size, Recent(t))
  {
    hide WindowOf, Distinct, Remove, LastUse;
    if t != [] {
      var before := t[..|t| - 1];
      assert t[|t| - 1] in t && forall e :: e in before ==> e in t;
      RecentIsRecencyOrder(before);
      if t[|t| - 1].Use? {
        var i := t[|t| - 1].index;
        WindowsWithout(f, size, Recent(before), i);
        assert ([i] + Remove(Recent(before), i))[1..] == Remove(Recent(before), i);
      }
      LoadedWithoutEviction(f, size, before, capacity);
    }
  }

  lemma NoClearIn(a: Trace, b: Trace)
    requires forall e :: e in a ==> !e.Clear?
    requires forall e :: e in b ==> !e.Clear?
    ensures forall e :: e in a + b ==> !e.Clear?
  {
  }

  lemma {:induction false} ReadNeverClears(f: seq<u8>, size: nat, position: nat, end: nat)
    requires size >= 1
    ensures forall e :: e in ReadTrace(f, size, position, end) ==> !e.Clear?
    decreases end - position
  {
    hide WindowOf, IndexAt, Supply;
    if position < end {
      var index := IndexAt(position, size);
      var taken := Supply(WindowOf(f, index, size), size, position, end);
      if taken != [] {
        ReadNeverClears(f, size, position + |taken|, end);
        NoClearIn([Use(index)], ReadTrace(f, size, position + |taken|, end));
      }
    }
  }

  lemma {:induction false} RunNeverClears(f: seq<u8>, size: nat, ranges: seq<(nat, nat)>)
    requires size >= 1
    ensures forall e :: e in ManyTrace(f, size, ranges) ==> !e.Clear?
  {
    hide ReadTrace;
    if ranges != [] {
      ReadNeverClears(f, size, ranges[0].0, ranges[0].1);
      RunNeverClears(f, size, ranges[1..]);
      NoClearIn(ReadTrace(f, size, ranges[0].0, ranges[0].1), ManyTrace(f, size, ranges[1..]));
    }
  }

  /** A new reader whose cache has room for every window its reads touch takes each of
      them from the file once: its total stays within what it serves exactly when those
      windows together do. */
  lemma RoomyRunLoadsOnce(c: Cache, d: Disk, ranges: seq<(nat, nat)>)
    requires c == Cache([], 0, 0, 0, 0, []) && !d.broken
    requires forall k :: 0 <= k < |ranges| ==> ranges[k].0 <= ranges[k].1
    requires |Recent(ManyTrace(d.file, d.size, ranges))| <= d.capacity
    ensures ReadMany(c, d, ranges).bytesRead
         == WindowsTotal(d.file, d.size, Recent(ManyTrace(d.file, d.size, ranges)))
  {
    hide ManyTrace, ReadMany, WindowsTotal;
    RunLoads(c, d, ranges);
    RunNeverClears(d.file, d.size, ranges);
    var t := ManyTrace(d.file, d.size, ranges);
    assert [] + t == t;
    LoadedWithoutEviction(d.file, d.size, t, d.capacity);
  }

  // ---------------------------------------------------- two readers of one file ---

  lemma {:induction false} LargerCacheLoadsNoMore(f: seq<u8>, size: nat, t: Trace, from: nat, c1: nat, c2: nat)
    requires c1 <= c2 && from <= |t|
    ensures LoadedBytes(f, size, t, c2) - LoadedBytes(f, size, t[..from], c2)
         <= LoadedBytes(f, size, t, c1) - LoadedBytes(f, size, t[..from], c1)
  {
    hide WindowOf, Recent;
    if from < |t| {
      var before := t[..|t| - 1];
      assert before[..from] == t[..from];
      LargerCacheLoadsNoMore(f, size, before, from, c1, c2);
      SmallerCacheIsPrefix(before, c1, c2);
    } else {
      assert t[..from] == t;
    }
  }

  lemma LargerReaderLoadsNoMore(c1: Cache, d1: Disk, c2: Cache, d2: Disk, ranges: seq<(nat, nat)>)
    requires forall k :: 0 <= k < |ranges| ==> ranges[k].0 <= ranges[k].1
    requires d1.file == d2.file && d1.size == d2.size && d1.capacity <= d2.capacity
    requires !d1.broken && !d2.broken && c1.trace == c2.trace
    requires IsLru(c1, d1.capacity) && UpToDate(c1.entries, d1.file, d1.size)
    requires IsLru(c2, d2.capacity) && UpToDate(c2.entries, d2.file, d2.size)
    ensures ReadMany(c2, d2, ranges).bytesRead - c2.bytesRead <= ReadMany(c1, d1, ranges).bytesRead - c1.bytesRead
  {
    hide IsLru, UpToDate, ReadMany, ManyTrace, LoadedBytes;
    RunLoads(c1, d1, ranges);
    RunLoads(c2, d2, ranges);
    var t := c1.trace + ManyTrace(d1.file, d1.size, ranges);
    assert t[..|c1.trace|] == c1.trace;
    LargerCacheLoadsNoMore(d1.file, d1.size, t, |c1.trace|, d1.capacity, d2.capacity);
  }

  /** Two readers of one file with equal windows, given the same reads: the smaller
      cache always holds a prefix of what the larger one holds, and the larger one
      never misses more, reads the file more often or takes more bytes from it. */
  lemma LargerReaderNeverReadsMore(c1: Cache, d1: Disk, c2: Cache, d2: Disk, ranges: seq<(nat, nat)>)
    requires forall k :: 0 <= k < |ranges| ==> ranges[k].0 <= ranges[k].1
    requires d1.file == d2.file && d1.size == d2.size && d1.capacity <= d2.capacity
    requires !d1.broken && !d2.broken && c1.trace == c2.trace
    requires IsLru(c1, d1.capacity) && UpToDate(c1.entries, d1.file, d1.size)
    requires IsLru(c2, d2.capacity) && UpToDate(c2.entries, d2.file, d2.size)
    ensures var e1, e2 := ReadMany(c1, d1, ranges), ReadMany(c2, d2, ranges);
            && Indices(e1.entries) <= Indices(e2.entries)
            && e2.misses <= e1.misses
            && e2.syscalls <= e1.syscalls
            && e2.bytesRead - c2.bytesRead <= e1.bytesRead - c1.bytesRead
            && e2.hits + e2.misses == e1.hits + e1.misses
  {
    hide UpToDate, Recent, Misses, Hits, Faults, ReadMany, ManyTrace;
    LargerReaderLoadsNoMore(c1, d1, c2, d2, ranges);
    ReadManyTraced(c1, d1, ranges);
    ReadManyTraced(c2, d2, ranges);
    var t := ReadMany(c1, d1, ranges).trace;
    SmallerCacheIsPrefix(t, d1.capacity, d2.capacity);
    LargerCacheNeverMissesMore(t, d1.capacity, d2.capacity);
  }
}
