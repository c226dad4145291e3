/** The walker of `pagetable.rs`: the loops over the levels, against the walk they compute. */
module Walker {
  import opened Wrappers
  import opened Words
  import opened GuestMemory
  import opened PageTable
  import opened Translation

  /** `Walker::walk`. */
  method Walk(mem: Memory, la57: bool, cr3: u64, address: u64) returns (r: Result<PageTableWalk, WalkError>)
    ensures r == WalkOf(mem, la57, cr3, address)
  {
    hide Canonical, Judge, Guarded, Fetch, Finish, LevelsToVisit, PageTableEntry.TableAddress, Level.Below;
    if !Canonical(address, CanonicalBits(la57)) {
      return Err(NonCanonical(address, CanonicalBits(la57)));
    }
    var levelsToVisit := LevelsToVisit(la57);
    var table := Cr3Table(cr3);
    var visited: seq<nat> := [];
    var levels: seq<WalkLevel> := [];
    var depth := 0;
    ghost var whole := Guarded(mem, address, Top(la57), table, []);
    TrailShape(mem, address, Top(la57), table, []);
    LevelsAreChain(la57);
    assert [] + whole.levels == whole.levels;
    while true
      invariant 0 <= depth < |levelsToVisit|
      invariant var rest := Guarded(mem, address, levelsToVisit[depth], table, visited);
                whole == Trail(levels + rest.levels, rest.end)
      decreases |levelsToVisit| - depth
    {
      var level := levelsToVisit[depth];
      GuardedStep(mem, address, level, table, visited, levels);
      if Blocked(mem, table) {
        return Err(TableNotInRam(level, table));
      }
      if table in visited {
        return Err(Cycle(table, level));
      }
      var fetched := Fetch(mem, level, table, address);
      if fetched.Err? {
        return Err(fetched.error);
      }
      visited := visited + [table];
      var step := fetched.value;
      levels := levels + [step];
      match Judge(step) {
        case Fails(e) =>
          return Err(e);
        case Reaches(size) =>
          return Finish(mem, la57, address, levels, size);
        case Descends =>
          table := step.entry.TableAddress();
          depth := depth + 1;
      }
    }
  }

  /** `Walker::partial_path`: walk down to level `stop` without judging the entries. */
  method PartialPath(mem: Memory, la57: bool, cr3: u64, address: u64, stop: Level)
    returns (r: Result<seq<WalkLevel>, WalkError>)
    ensures r == Retrace(mem, address, Top(la57), Cr3Table(cr3), [], stop)
  {
    hide Fetch, LevelsToVisit, PageTableEntry.TableAddress, Level.Below;
    var levelsToVisit := LevelsToVisit(la57);
    var table := Cr3Table(cr3);
    var visited: seq<nat> := [];
    var out: seq<WalkLevel> := [];
    ghost var whole := Retrace(mem, address, Top(la57), table, [], stop);
    LevelsAreChain(la57);
    PrependedTwice([], WalkLevel(Pt, 0, 0, 0, PageTableEntry(0)), whole);
    for depth := 0 to |levelsToVisit|
      invariant depth < |levelsToVisit| ==>
                  whole == Prepended(out, Retrace(mem, address, levelsToVisit[depth], table, visited, stop))
      invariant depth == |levelsToVisit| ==> whole == Ok(out)
    {
      var level := levelsToVisit[depth];
      if Blocked(mem, table) {
        return Err(TableNotInRam(level, table));
      }
      if table in visited {
        return Err(Cycle(table, level));
      }
      var fetched := Fetch(mem, level, table, address);
      if fetched.Err? {
        return Err(fetched.error);
      }
      visited := visited + [table];
      if level != stop && !level.Pt? {
        PrependedTwice(out, fetched.value,
                       Retrace(mem, address, level.Below(), fetched.value.entry.TableAddress(), visited, stop));
      }
      out := out + [fetched.value];
      if level == stop {
        return Ok(out);
      }
      table := fetched.value.entry.TableAddress();
    }
    return Ok(out);
  }

  /** `Walker::walk_or_explain`. */
  method WalkOrExplain(mem: Memory, la57: bool, cr3: u64, address: u64)
    returns (r: Result<Result<PageTableWalk, Hole>, WalkError>)
    ensures r == WalkOrExplainOf(mem, la57, cr3, address)
    ensures r.Err? ==> !r.error.NotPresent?
    ensures r.Ok? && r.value.Err? ==> exists raw :: ExplainsHole(mem, la57, cr3, address, r.value.error, raw)
  {
    hide Canonical, Guarded, Retrace, ExplainsHole, Judge, PageTableEntry.LeafAddress;
    var walked := Walk(mem, la57, cr3, address);
    match walked {
      case Ok(walk) =>
        r := Ok(Ok(walk));
      case Err(NotPresent(level, index, _)) =>
        var partial := PartialPath(mem, la57, cr3, address, level);
        if partial.Err? {
          r := Err(partial.error);
        } else {
          var path := partial.value;
          var entryAddress := if path == [] then 0 else path[|path| - 1].entryAddress;
          var above := if path == [] then [] else path[..|path| - 1];
          r := Ok(Err(Hole(above, level, index, entryAddress)));
        }
      case Err(other) =>
        r := Err(other);
    }
    HolesAreExplained(mem, la57, cr3, address);
  }

  // -------------------------------------------------------------- walking live memory ---

  /** The eight bytes at `at` overlap no entry of the walk. */
  predicate MissesPath(w: PageTableWalk, at: nat) {
    forall k :: 0 <= k < |w.levels| ==> at + 8 <= w.levels[k].entryAddress || w.levels[k].entryAddress + 8 <= at
  }

  /** The eight bytes at `at` are the last entry of the walk, and `value` is another leaf
      of its size. */
  predicate ReplacesLeaf(w: PageTableWalk, at: nat, value: u64) {
    && w.levels != []
    && var last := w.levels[|w.levels| - 1];
       at == last.entryAddress && Judge(last.(entry := PageTableEntry(value))) == Reaches(w.leafSize)
  }

  /** The walk after its leaf became `value`. */
  function WithLeaf(w: PageTableWalk, value: u64, size: u64): Result<PageTableWalk, WalkError>
    requires w.levels != []
  {
    var base := PageTableEntry(value).LeafAddress(w.leafSize);
    if base + w.pageOffset >= size then Err(LeafOutOfRange(base + w.pageOffset))
    else Ok(w.(levels := ReplaceLast(w.levels, value), physicalBase := base, leaf := PageTableEntry(value)))
  }

  lemma LeafIsInRam(m: map<nat, u8>, size: u64, la57: bool, cr3: u64, address: u64, w: PageTableWalk)
    requires WalkOf(RamView(m, size), la57, cr3, address) == Ok(w) && w.levels != []
    ensures w.levels[|w.levels| - 1].entryAddress + 8 <= size
  {
    hide WalkOf, ReadU64Of, Linked, Canonical, Judge, AllDescend, PageTableEntry.LeafAddress;
    WalkOkIsPath(RamView(m, size), la57, cr3, address, w);
    LastEntryReadable(RamView(m, size), address, Top(la57), Cr3Table(cr3), w.levels);
    ReadSucceeded(m, size, w.levels[|w.levels| - 1].entryAddress);
  }

  /** A word is written to RAM and the walk repeated: a write off the path changes
      nothing, a new leaf moves only the base. */
  method WriteAndWalk(ram: GuestRam, la57: bool, cr3: u64, address: u64, at: u64, value: u64)
    returns (r: Result<PageTableWalk, WalkError>)
    modifies ram
    ensures r == WalkOf(ram.View(), la57, cr3, address)
    ensures var before := old(WalkOf(ram.View(), la57, cr3, address));
            && (before.Ok? && MissesPath(before.value, at) ==> r == before)
            && (before.Ok? && ReplacesLeaf(before.value, at, value) ==> r == WithLeaf(before.value, value, ram.size))
  {
    hide WalkOf, PutBytes, LeBytes, RamView, Judge;
    ghost var before := WalkOf(ram.View(), la57, cr3, address);
    ghost var bytes := ram.bytes;
    var written := ram.WriteU64(at, value);
    if before.Ok? {
      if MissesPath(before.value, at) {
        WriteOffPath(bytes, ram.size, la57, cr3, address, before.value, at, LeBytes(value, 8)[..Fit(ram.size, at, 8)]);
      }
      if ReplacesLeaf(before.value, at, value) {
        LeafIsInRam(bytes, ram.size, la57, cr3, address, before.value);
        assert LeBytes(value, 8)[..8] == LeBytes(value, 8);
        OverwriteLeaf(bytes, ram.size, la57, cr3, address, before.value, value);
      }
    }
    r := Walk(ram.View(), la57, cr3, address);
  }
}
