/** What the page-table walk of `pagetable.rs` guarantees, for every memory. */
module Translation {
  import opened Wrappers
  import opened Words
  import opened Seqs
  import opened GuestMemory
  import opened PageTable

  // -------------------------------------------------------------- canonical form ---

  /** Bits 63 down to `from` are all equal. */
  ghost predicate TopBitsEqual(address: u64, from: nat) {
    forall k :: from <= k < 64 ==> (Bit(address, k) <==> Bit(address, from))
  }

  lemma TopBits(address: u64, from: nat, width: nat)
    requires 1 <= width && from + width == 64
    requires Shr(address, from) < Pow2(width)
    ensures TopBitsEqual(address, from) <==>
            Shr(address, from) == 0 || Shr(address, from) == Pow2(width) - 1
  {
    var top := Shr(address, from);
    forall k: nat ensures Bit(address, from + k) <==> Bit(top, k) { ShrSum(address, from, k); }
    hide Shr, Pow2, Bit;
    if TopBitsEqual(address, from) {
      forall k | 0 <= k < width ensures Bit(top, k) <==> Bit(top, 0) {
        assert Bit(address, from + k) <==> Bit(address, from + 0);
      }
      UniformBits(top, width, Bit(top, 0));
    } else if top == 0 || top == Pow2(width) - 1 {
      UniformBits(top, width, top != 0);
      forall k | from <= k < 64 ensures Bit(address, k) <==> Bit(address, from) {
        assert Bit(address, from + (k - from)) <==> Bit(top, k - from);
        assert Bit(address, from + 0) <==> Bit(top, 0);
      }
    }
  }

  lemma ModOfSum(q: nat, r: nat)
    requires r < U64_LIMIT
    ensures (q * U64_LIMIT + r) % U64_LIMIT == r
  {
  }

  lemma ShiftedUp48(address: u64, high: nat, low: nat)
    requires address == high * 0x1_0000_0000_0000 + low && low < 0x1_0000_0000_0000
    ensures Shl64(address, 16) == low * 0x1_0000
  {
    Pow2Values();
    hide Pow2;
    ModOfSum(high, low * 0x1_0000);
  }

  lemma WrapsUp(x: int, unit: nat)
    requires unit == 0x80 || unit == 0x1_0000
    requires -U64_LIMIT < x < 0
    ensures x * unit / unit % U64_LIMIT == x + U64_LIMIT
  {
    assert x * unit / unit == x;
  }

  lemma ShiftedDown48(low: nat)
    requires low < 0x1_0000_0000_0000
    ensures AsSigned(low * 0x1_0000) / 0x1_0000 % U64_LIMIT
         == if low >= 0x8000_0000_0000 then low + 0xFFFF_0000_0000_0000 else low
  {
    if low >= 0x8000_0000_0000 {
      assert AsSigned(low * 0x1_0000) == (low - 0x1_0000_0000_0000) * 0x1_0000;
      WrapsUp(low - 0x1_0000_0000_0000, 0x1_0000);
    } else {
      DivisionIsUnique(low * 0x1_0000, 0x1_0000, low, 0);
    }
  }

  lemma Shifted48(address: u64, high: nat, low: nat)
    requires address == high * 0x1_0000_0000_0000 + low && low < 0x1_0000_0000_0000
    ensures SignExtend(address, 48) == if low >= 0x8000_0000_0000 then low + 0xFFFF_0000_0000_0000 else low
  {
    Pow2Values();
    hide Pow2, Shl64, AsSigned;
    ShiftedUp48(address, high, low);
    ShiftedDown48(low);
  }

  /** Dividing by the sign bit keeps the bits above it and adds the sign bit below. */
  lemma Copies(address: u64, high: nat, low: nat, sign: nat)
    requires sign == 0x8000_0000_0000 || sign == 0x100_0000_0000_0000
    requires address == high * (2 * sign) + low && low < 2 * sign
    ensures address / sign == 2 * high + (if low >= sign then 1 else 0)
  {
    DivisionIsUnique(address, sign, 2 * high + (if low >= sign then 1 else 0), if low >= sign then low - sign else low);
  }

  lemma SignExtend48(address: u64)
    ensures Canonical(address, 48) <==> address / 0x8000_0000_0000 in {0, 0x1_FFFF}
  {
    var high, low := address / 0x1_0000_0000_0000, address % 0x1_0000_0000_0000;
    Shifted48(address, high, low);
    Copies(address, high, low, 0x8000_0000_0000);
    hide SignExtend;
  }

  lemma ShiftedUp57(address: u64, high: nat, low: nat)
    requires address == high * 0x200_0000_0000_0000 + low && low < 0x200_0000_0000_0000
    ensures Shl64(address, 7) == low * 0x80
  {
    Pow2Values();
    hide Pow2;
    ModOfSum(high, low * 0x80);
  }

  lemma ShiftedDown57(low: nat)
    requires low < 0x200_0000_0000_0000
    ensures AsSigned(low * 0x80) / 0x80 % U64_LIMIT
         == if low >= 0x100_0000_0000_0000 then low + 0xFE00_0000_0000_0000 else low
  {
    if low >= 0x100_0000_0000_0000 {
      assert AsSigned(low * 0x80) == (low - 0x200_0000_0000_0000) * 0x80;
      WrapsUp(low - 0x200_0000_0000_0000, 0x80);
    } else {
      DivisionIsUnique(low * 0x80, 0x80, low, 0);
    }
  }

  lemma Shifted57(address: u64, high: nat, low: nat)
    requires address == high * 0x200_0000_0000_0000 + low && low < 0x200_0000_0000_0000
    ensures SignExtend(address, 57) == if low >= 0x100_0000_0000_0000 then low + 0xFE00_0000_0000_0000 else low
  {
    Pow2Values();
    hide Pow2, Shl64, AsSigned;
    ShiftedUp57(address, high, low);
    ShiftedDown57(low);
  }

  lemma SignExtend57(address: u64)
    ensures Canonical(address, 57) <==> address / 0x100_0000_0000_0000 in {0, 0xFF}
  {
    var high, low := address / 0x200_0000_0000_0000, address % 0x200_0000_0000_0000;
    Shifted57(address, high, low);
    Copies(address, high, low, 0x100_0000_0000_0000);
    hide SignExtend;
  }

  /** Widths that leave no bit to extend accept every address. */
  lemma EdgeWidths(address: u64, bits: nat)
    requires bits == 0 || bits >= 64
    ensures Canonical(address, bits)
  {
  }

  /** Sign extension from bit 47 (56) reproduces an address exactly when bits 63..47
      (63..56) all agree. */
  lemma CanonicalIffTopBitsEqual(address: u64)
    ensures Canonical(address, 48) <==> TopBitsEqual(address, 47)
    ensures Canonical(address, 57) <==> TopBitsEqual(address, 56)
  {
    hide Canonical, TopBitsEqual, Shr;
    Pow2Values();
    Pow2Sum(40, 7);
    Pow2Sum(40, 16);
    Pow2Sum(16, 1);
    Pow2Sum(7, 1);
    ShrIsDiv(address, 47);
    ShrIsDiv(address, 56);
    TopBits(address, 47, 17);
    TopBits(address, 56, 8);
    SignExtend48(address);
    SignExtend57(address);
  }

  // ----------------------------------------------------- the guard changes nothing ---

  predicate IsCycle(v: Verdict) {
    v.Fails? && v.error.Cycle?
  }

  lemma FetchShape(mem: Memory, level: Level, table: nat, address: u64)
    ensures match Fetch(mem, level, table, address)
            case Err(e) => e.Unreadable?
            case Ok(step) =>
              && step.level == level && step.tableAddress == table
              && step.index == IndexOf(level, address) < 512
              && step.entryAddress == table + 8 * step.index
              && mem.readU64(step.entryAddress) == Ok(step.entry.raw)
  {
  }

  lemma JudgeShape(step: WalkLevel)
    ensures Judge(step).Fails? ==> Judge(step).error.NotPresent? || Judge(step).error.ReservedPageSizeBit?
    ensures Judge(step).Descends? ==> !step.level.Pt? && step.entry.Present() && !step.entry.PageSize()
  {
  }

  /** A walk that does not answer `Cycle` is the walk without the guard. */
  lemma {:induction false} GuardedRefinesPlain(mem: Memory, address: u64, level: Level, table: nat, visited: seq<nat>)
    requires !IsCycle(Guarded(mem, address, level, table, visited).end)
    ensures Guarded(mem, address, level, table, visited) == Plain(mem, address, level, table)
    decreases 4 - level.Depth()
  {
    hide Judge, Fetch;
    var fetched := Fetch(mem, level, table, address);
    FetchShape(mem, level, table, address);
    if !Blocked(mem, table) && table !in visited && fetched.Ok? && Judge(fetched.value).Descends? {
      JudgeShape(fetched.value);
      GuardedRefinesPlain(mem, address, level.Below(), fetched.value.entry.TableAddress(), visited + [table]);
    }
  }

  /** The walk without its list of visited tables. */
  function PlainWalkOf(mem: Memory, la57: bool, cr3: u64, address: u64): Result<PageTableWalk, WalkError> {
    if !Canonical(address, CanonicalBits(la57)) then Err(NonCanonical(address, CanonicalBits(la57)))
    else
      TrailShape(mem, address, Top(la57), Cr3Table(cr3), []);
      Conclude(mem, la57, address, Plain(mem, address, Top(la57), Cr3Table(cr3)))
  }

  lemma WalkRefinesPlain(mem: Memory, la57: bool, cr3: u64, address: u64)
    requires var r := WalkOf(mem, la57, cr3, address); !(r.Err? && r.error.Cycle?)
    ensures WalkOf(mem, la57, cr3, address) == PlainWalkOf(mem, la57, cr3, address)
  {
    hide Canonical, Guarded, Plain, PageTableEntry.LeafAddress;
    TrailShape(mem, address, Top(la57), Cr3Table(cr3), []);
    if Canonical(address, CanonicalBits(la57)) {
      GuardedRefinesPlain(mem, address, Top(la57), Cr3Table(cr3), []);
    }
  }

  /** The first table of `tables` that repeats an earlier one or one of `visited`. */
  function FirstRepeat(visited: seq<nat>, tables: seq<nat>): (k: nat)
    ensures k <= |tables|
    decreases |tables|
  {
    if tables == [] || tables[0] in visited then 0
    else 1 + FirstRepeat(visited + [tables[0]], tables[1..])
  }

  lemma {:induction false} FirstRepeatIsFirst(visited: seq<nat>, tables: seq<nat>)
    requires Distinct(visited)
    ensures var k := FirstRepeat(visited, tables);
            && Distinct(visited + tables[..k])
            && (k < |tables| ==> tables[k] in visited + tables[..k])
    decreases |tables|
  {
    if tables != [] && tables[0] !in visited {
      FirstRepeatIsFirst(visited + [tables[0]], tables[1..]);
      var k := FirstRepeat(visited + [tables[0]], tables[1..]);
      assert visited + [tables[0]] + tables[1..][..k] == visited + tables[..k + 1];
    } else {
      assert visited + tables[..0] == visited;
    }
  }

  lemma RepeatStep(visited: seq<nat>, table: nat, rest: seq<nat>)
    ensures FirstRepeat(visited, [table] + rest)
         == if table in visited then 0 else 1 + FirstRepeat(visited + [table], rest)
    ensures rest == [] && table !in visited ==> FirstRepeat(visited, [table] + rest) == 1
  {
    assert ([table] + rest)[1..] == rest;
  }

  lemma BelowIsDeeper(level: Level)
    requires !level.Pt?
    ensures level.Below().Depth() == level.Depth() + 1 && level.Below().Span() * 512 == level.Span()
  {
  }

  /** `Cycle` is answered exactly when the chain of tables from CR3 repeats, and it
      names the first table that does and the level that reached it again. */
  lemma {:induction false} CycleIffTablesRepeat(mem: Memory, address: u64, level: Level, table: nat, visited: seq<nat>)
    requires forall v :: v in visited ==> !Blocked(mem, v)
    ensures var end := Guarded(mem, address, level, table, visited).end;
            var tables := Tables(mem, address, level, table);
            var k := FirstRepeat(visited, tables);
            && (IsCycle(end) <==> k < |tables|)
            && (IsCycle(end) ==> end.error.address == tables[k]
                                 && end.error.level.Depth() == level.Depth() + k)
    decreases 4 - level.Depth()
  {
    hide Judge, Fetch, IndexOf, Blocked, PageTableEntry.TableAddress, FirstRepeat;
    var fetched := Fetch(mem, level, table, address);
    FetchShape(mem, level, table, address);
    var tables := Tables(mem, address, level, table);
    assert tables == [table] + tables[1..];
    RepeatStep(visited, table, tables[1..]);
    if !Blocked(mem, table) && table !in visited && fetched.Ok? {
      JudgeShape(fetched.value);
      if Judge(fetched.value).Descends? {
        CycleIffTablesRepeat(mem, address, level.Below(), fetched.value.entry.TableAddress(), visited + [table]);
        BelowIsDeeper(level);
      }
    }
  }

  // ----------------------------------------------------------------- leaf addresses ---

  lemma AlignedField(x: nat, count: nat, unit: nat)
    requires count >= 1 && unit >= 1
    ensures x % count * unit % unit == 0
    ensures x % count * unit + unit <= count * unit
  {
    var f := x % count;
    DivisionIsUnique(f * unit, unit, f, 0);
    Distribute(unit, f, 1);
    Distribute(unit, f + 1, count - f - 1);
    MulDouble(unit, count - f - 1);
  }

  /** A leaf's base is aligned to its size and its last byte is a 52-bit address, so
      adding an offset never overflows and or-ing it in is the same. */
  lemma LeafBounds(entry: PageTableEntry, size: LeafSize)
    ensures entry.LeafAddress(size) % size.Bytes() == 0
    ensures entry.LeafAddress(size) + size.Bytes() <= PHYSICAL_LIMIT
  {
    match size {
      case Page4K => AlignedField(entry.raw / 0x1000, 0x100_0000_0000, 0x1000);
      case Huge2M => AlignedField(entry.raw / 0x20_0000, 0x8000_0000, 0x20_0000);
      case Huge1G => AlignedField(entry.raw / 0x4000_0000, 0x40_0000, 0x4000_0000);
    }
  }

  /** Every entry a walk reads lies below 2^52, where the code's read of RAM is the
      modelled one. */
  lemma EntryReadsAreExact(m: map<nat, u8>, size: u64, parent: PageTableEntry, level: Level, address: u64)
    ensures var at := parent.TableAddress() + 8 * IndexOf(level, address);
            at + 8 <= PHYSICAL_LIMIT && ReadU64Words(m, size, at) == Some(ReadU64Of(m, size, at))
  {
    hide ReadU64Of, ReadU64Words;
    LeafBounds(parent, Page4K);
    SaturationShowsInWordIff(m, size, parent.TableAddress() + 8 * IndexOf(level, address));
  }

  // -------------------------------------------------------- what a walk certifies ---

  /** `levels` is the chain of entries for `address` from `table` at `level` down:
      each entry is the one memory holds at its table's index, and each table is the
      one the entry above points to. */
  ghost predicate Linked(mem: Memory, address: u64, level: Level, table: nat, levels: seq<WalkLevel>)
    decreases levels
  {
    levels == [] ||
    (var step := levels[0];
     && !Blocked(mem, table)
     && step.level == level
     && step.tableAddress == table
     && step.index == IndexOf(level, address)
     && step.entryAddress == table + 8 * step.index
     && mem.readU64(step.entryAddress) == Ok(step.entry.raw)
     && (|levels| > 1 ==> !level.Pt? && Linked(mem, address, level.Below(), step.entry.TableAddress(), levels[1..])))
  }

  function TablesOf(levels: seq<WalkLevel>): (t: seq<nat>)
    ensures |t| == |levels|
    ensures forall k :: 0 <= k < |levels| ==> t[k] == levels[k].tableAddress
  {
    if levels == [] then [] else [levels[0].tableAddress] + TablesOf(levels[1..])
  }

  /** Every entry above the last points to a table. */
  ghost predicate AllDescend(levels: seq<WalkLevel>) {
    forall k :: 0 <= k < |levels| - 1 ==> Judge(levels[k]).Descends?
  }

  /** A complete path: linked, through distinct tables, down to a leaf of `size`. */
  ghost predicate IsPath(mem: Memory, address: u64, level: Level, table: nat, visited: seq<nat>,
                         levels: seq<WalkLevel>, size: LeafSize)
  {
    && levels != []
    && Linked(mem, address, level, table, levels)
    && AllDescend(levels)
    && Judge(levels[|levels| - 1]) == Reaches(size)
    && Distinct(visited + TablesOf(levels))
  }

  lemma LinkedStep(mem: Memory, address: u64, level: Level, table: nat, levels: seq<WalkLevel>)
    requires levels != [] && Linked(mem, address, level, table, levels)
    ensures !Blocked(mem, table) && Fetch(mem, level, table, address) == Ok(levels[0])
  {
  }

  lemma LinkedAlone(mem: Memory, address: u64, level: Level, table: nat, step: WalkLevel)
    requires !Blocked(mem, table) && Fetch(mem, level, table, address) == Ok(step)
    ensures Linked(mem, address, level, table, [step]) && AllDescend([step])
  {
    hide Judge, IndexOf, Blocked;
    FetchShape(mem, level, table, address);
    hide Fetch;
  }

  lemma LinkedExtends(mem: Memory, address: u64, level: Level, table: nat, step: WalkLevel, rest: seq<WalkLevel>)
    requires !level.Pt? && !Blocked(mem, table) && Fetch(mem, level, table, address) == Ok(step)
    requires Linked(mem, address, level.Below(), step.entry.TableAddress(), rest)
    ensures Linked(mem, address, level, table, [step] + rest)
  {
    hide Judge, IndexOf, Blocked, PageTableEntry.TableAddress;
    FetchShape(mem, level, table, address);
    hide Fetch;
    assert ([step] + rest)[1..] == rest;
  }

  lemma DescendExtends(step: WalkLevel, rest: seq<WalkLevel>)
    requires Judge(step).Descends? && AllDescend(rest)
    ensures AllDescend([step] + rest)
  {
    hide Judge;
    forall k | 0 <= k < |[step] + rest| - 1 ensures Judge(([step] + rest)[k]).Descends? {
      if k > 0 {
        assert ([step] + rest)[k] == rest[k - 1];
      }
    }
  }

  /** Adding an entry that descends on top of a complete path. */
  lemma PathExtends(mem: Memory, address: u64, level: Level, table: nat, visited: seq<nat>,
                    step: WalkLevel, rest: seq<WalkLevel>, size: LeafSize)
    requires !level.Pt? && !Blocked(mem, table)
    requires Fetch(mem, level, table, address) == Ok(step) && Judge(step).Descends?
    requires IsPath(mem, address, level.Below(), step.entry.TableAddress(), visited + [table], rest, size)
    ensures IsPath(mem, address, level, table, visited, [step] + rest, size)
  {
    hide Judge, IndexOf, Blocked, PageTableEntry.TableAddress, AllDescend, Fetch, Distinct;
    FetchShape(mem, level, table, address);
    var levels := [step] + rest;
    assert levels[1..] == rest && levels[|levels| - 1] == rest[|rest| - 1];
    assert TablesOf(levels) == [table] + TablesOf(rest);
    assert visited + ([table] + TablesOf(rest)) == visited + [table] + TablesOf(rest);
    DescendExtends(step, rest);
  }

  lemma LeafIsPath(mem: Memory, address: u64, level: Level, table: nat, visited: seq<nat>, step: WalkLevel)
    requires Distinct(visited) && table !in visited && !Blocked(mem, table)
    requires Fetch(mem, level, table, address) == Ok(step) && Judge(step).Reaches?
    ensures IsPath(mem, address, level, table, visited, [step], Judge(step).size)
  {
    hide Judge, IndexOf, Blocked, PageTableEntry.TableAddress;
    FetchShape(mem, level, table, address);
    assert [step][1..] == [];
    assert TablesOf([step]) == [table];
  }

  /** A finished walk is a complete path ... */
  lemma {:induction false} WalkIsPath(mem: Memory, address: u64, level: Level, table: nat, visited: seq<nat>)
    requires Distinct(visited) && Guarded(mem, address, level, table, visited).end.Reaches?
    ensures var t := Guarded(mem, address, level, table, visited);
            IsPath(mem, address, level, table, visited, t.levels, t.end.size)
    decreases 4 - level.Depth()
  {
    hide Judge, Fetch, IsPath;
    FetchShape(mem, level, table, address);
    var step := Fetch(mem, level, table, address).value;
    if Judge(step).Descends? {
      JudgeShape(step);
      var next := step.entry.TableAddress();
      WalkIsPath(mem, address, level.Below(), next, visited + [table]);
      var rest := Guarded(mem, address, level.Below(), next, visited + [table]);
      PathExtends(mem, address, level, table, visited, step, rest.levels, rest.end.size);
    } else {
      LeafIsPath(mem, address, level, table, visited, step);
    }
  }

  lemma PathTail(mem: Memory, address: u64, level: Level, table: nat, visited: seq<nat>,
                 levels: seq<WalkLevel>, size: LeafSize)
    requires IsPath(mem, address, level, table, visited, levels, size) && |levels| > 1
    ensures !level.Pt? && Judge(levels[0]).Descends?
    ensures IsPath(mem, address, level.Below(), levels[0].entry.TableAddress(), visited + [table], levels[1..], size)
  {
    hide Judge;
    var rest := levels[1..];
    assert visited + [table] + TablesOf(rest) == visited + TablesOf(levels);
    assert forall k :: 0 <= k < |rest| - 1 ==> rest[k] == levels[k + 1];
    assert rest[|rest| - 1] == levels[|levels| - 1];
  }

  lemma NotRepeated(visited: seq<nat>, rest: seq<nat>)
    requires rest != [] && Distinct(visited + rest)
    ensures rest[0] !in visited
  {
    forall i | 0 <= i < |visited| ensures visited[i] != rest[0] {
      assert (visited + rest)[i] == visited[i] && (visited + rest)[|visited|] == rest[0];
    }
  }

  /** ... and every complete path is what the walk finds. */
  lemma {:induction false} PathIsWalk(mem: Memory, address: u64, level: Level, table: nat, visited: seq<nat>,
                                      levels: seq<WalkLevel>, size: LeafSize)
    requires IsPath(mem, address, level, table, visited, levels, size)
    ensures Guarded(mem, address, level, table, visited) == Trail(levels, Reaches(size))
    decreases |levels|
  {
    hide Judge, Fetch;
    LinkedStep(mem, address, level, table, levels);
    assert levels == [levels[0]] + levels[1..];
    assert TablesOf(levels) == [table] + TablesOf(levels[1..]);
    NotRepeated(visited, TablesOf(levels));
    if |levels| > 1 {
      var rest := levels[1..];
      PathTail(mem, address, level, table, visited, levels, size);
      PathIsWalk(mem, address, level.Below(), levels[0].entry.TableAddress(), visited + [table], rest, size);
    } else {
      assert levels == [levels[0]];
    }
  }

  /** Everything a finished walk claims. */
  ghost predicate IsWalk(mem: Memory, la57: bool, cr3: u64, address: u64, w: PageTableWalk) {
    && Canonical(address, CanonicalBits(la57))
    && IsPath(mem, address, Top(la57), Cr3Table(cr3), [], w.levels, w.leafSize)
    && w.address == address && w.la57 == la57
    && w.leaf == w.levels[|w.levels| - 1].entry
    && w.physicalBase == w.leaf.LeafAddress(w.leafSize)
    && w.pageOffset == address % w.leafSize.Bytes()
    && !Blocked(mem, w.physicalBase + w.pageOffset)
  }

  lemma NothingDistinct()
    ensures Distinct([])
  {
  }

  lemma WalkOkIsPath(mem: Memory, la57: bool, cr3: u64, address: u64, w: PageTableWalk)
    requires WalkOf(mem, la57, cr3, address) == Ok(w)
    ensures IsWalk(mem, la57, cr3, address, w)
  {
    hide Canonical, Guarded, Judge, PageTableEntry.LeafAddress, IsPath;
    TrailShape(mem, address, Top(la57), Cr3Table(cr3), []);
    NothingDistinct();
    WalkIsPath(mem, address, Top(la57), Cr3Table(cr3), []);
  }

  lemma PathIsWalkOk(mem: Memory, la57: bool, cr3: u64, address: u64, w: PageTableWalk)
    requires IsWalk(mem, la57, cr3, address, w)
    ensures WalkOf(mem, la57, cr3, address) == Ok(w)
  {
    hide Canonical, Guarded, Judge, PageTableEntry.LeafAddress, Linked, AllDescend, Distinct;
    PathIsWalk(mem, address, Top(la57), Cr3Table(cr3), [], w.levels, w.leafSize);
    LeafBounds(w.leaf, w.leafSize);
  }

  /** Soundness and completeness: `walk` answers `Ok(w)` exactly for the complete
      path from CR3 that `w` describes. */
  lemma WalkOkIffPath(mem: Memory, la57: bool, cr3: u64, address: u64, w: PageTableWalk)
    ensures WalkOf(mem, la57, cr3, address) == Ok(w) <==> IsWalk(mem, la57, cr3, address, w)
  {
    hide WalkOf, IsWalk;
    if WalkOf(mem, la57, cr3, address) == Ok(w) {
      WalkOkIsPath(mem, la57, cr3, address, w);
    }
    if IsWalk(mem, la57, cr3, address, w) {
      PathIsWalkOk(mem, la57, cr3, address, w);
    }
  }

  /** Which entries end a walk at a leaf: PS decides before P is looked at, so a huge
      entry that is not present is a leaf all the same. */
  lemma LeafIff(step: WalkLevel)
    ensures Judge(step).Reaches? <==>
            if step.entry.PageSize() then step.level.HugePageAllowed() else step.level.Pt? && step.entry.Present()
    ensures Judge(step) == Reaches(Page4K) ==> step.entry.Present() && !step.entry.PageSize()
    ensures Judge(step).Reaches? && Judge(step).size != Page4K ==> step.entry.PageSize()
  {
  }

  /** What a finished walk says about presence: every entry above the last one is
      present and no leaf, and so is the last one of a 4 KiB page; the last one of a
      huge page only has PS set. */
  lemma PresenceOnPath(mem: Memory, la57: bool, cr3: u64, address: u64, w: PageTableWalk, k: nat)
    requires WalkOf(mem, la57, cr3, address) == Ok(w) && k < |w.levels|
    ensures var entry := w.levels[k].entry;
            if k < |w.levels| - 1 then entry.Present() && !entry.PageSize()
            else if w.leafSize.Page4K? then entry.Present() && !entry.PageSize()
            else entry.PageSize()
  {
    hide Canonical, WalkOf, Judge, Linked, Distinct;
    hide PageTableEntry.LeafAddress, PageTableEntry.Present, PageTableEntry.PageSize;
    WalkOkIsPath(mem, la57, cr3, address, w);
    JudgeShape(w.levels[k]);
    LeafIff(w.levels[k]);
  }

  lemma RepeatIffNotDistinct(tables: seq<nat>)
    ensures FirstRepeat([], tables) < |tables| <==> !Distinct(tables)
  {
    FirstRepeatIsFirst([], tables);
    var k := FirstRepeat([], tables);
    hide FirstRepeat;
    assert [] + tables[..k] == tables[..k];
    if k == |tables| {
      assert tables[..k] == tables;
    }
  }

  /** The recursion itself never answers `NonCanonical` or `LeafOutOfRange`. */
  lemma {:induction false} OnlyGuardRefuses(mem: Memory, address: u64, level: Level, table: nat, visited: seq<nat>)
    ensures var end := Guarded(mem, address, level, table, visited).end;
            end.Fails? ==> !end.error.NonCanonical? && !end.error.LeafOutOfRange?
    decreases 4 - level.Depth()
  {
    hide Judge, Fetch;
    FetchShape(mem, level, table, address);
    var fetched := Fetch(mem, level, table, address);
    if fetched.Ok? {
      JudgeShape(fetched.value);
      if Judge(fetched.value).Descends? {
        OnlyGuardRefuses(mem, address, level.Below(), fetched.value.entry.TableAddress(), visited + [table]);
      }
    }
  }

  /** Which walks are refused before any table is read, and which as cyclic. */
  lemma WalkRefusals(mem: Memory, la57: bool, cr3: u64, address: u64)
    ensures var r := WalkOf(mem, la57, cr3, address);
            var tables := Tables(mem, address, Top(la57), Cr3Table(cr3));
            && (r.Err? && r.error.NonCanonical? <==> !TopBitsEqual(address, if la57 then 56 else 47))
            && (r.Err? && r.error.Cycle? <==> TopBitsEqual(address, if la57 then 56 else 47) && !Distinct(tables))
  {
    hide Canonical, TopBitsEqual, Guarded, Tables, PageTableEntry.LeafAddress;
    CanonicalIffTopBitsEqual(address);
    var tables := Tables(mem, address, Top(la57), Cr3Table(cr3));
    NothingDistinct();
    TrailShape(mem, address, Top(la57), Cr3Table(cr3), []);
    CycleIffTablesRepeat(mem, address, Top(la57), Cr3Table(cr3), []);
    RepeatIffNotDistinct(tables);
    OnlyGuardRefuses(mem, address, Top(la57), Cr3Table(cr3), []);
  }

  // ------------------------------------------------------- the address a walk spells ---

  /** Each level's index is nine bits of the address: 56:48, 47:39, 38:30, 29:21 and 20:12,
      from PML5 down. */
  lemma IndicesAreFields(address: u64)
    ensures IndexOf(Pml5, address) == Field(address, 48, 9) && IndexOf(Pml4, address) == Field(address, 39, 9)
    ensures IndexOf(Pdpt, address) == Field(address, 30, 9) && IndexOf(Pd, address) == Field(address, 21, 9)
    ensures IndexOf(Pt, address) == Field(address, 12, 9)
  {
    Pow2Values();
    Pow2Sum(7, 2);
    Pow2Sum(30, 9);
    Pow2Sum(40, 8);
    assert Pow2(2) == 4;
    Pow2Double(8);
    Pow2Double(1);
    hide Pow2;
  }

  /** What an index of that level is worth in the address. */
  function Worth(level: Level): nat {
    match level
    case Pml5 => 0x1_0000_0000_0000
    case Pml4 => 0x80_0000_0000
    case Pdpt => 0x4000_0000
    case Pd => 0x20_0000
    case Pt => 0x1000
  }

  /** The part of an address that the indices of a path spell. */
  function Spelled(levels: seq<WalkLevel>): nat {
    if levels == [] then 0 else levels[0].index * Worth(levels[0].level) + Spelled(levels[1..])
  }

  lemma Digit(a: nat, unit: nat)
    requires unit >= 1
    ensures a % (unit * 512) == a / unit % 512 * unit + a % unit
  {
    var q, r := a / unit / 512, a / unit % 512;
    assert a / unit == q * 512 + r;
    Expand(q, 512, r, unit);
    ScaleBelow(r, 512, unit);
    DivisionIsUnique(a, unit * 512, q, r * unit + a % unit);
  }

  lemma IndexIsDigit(level: Level, address: u64)
    ensures address % (Worth(level) * 512) == IndexOf(level, address) * Worth(level) + address % Worth(level)
    ensures !level.Pt? ==> Worth(level.Below()) * 512 == Worth(level)
  {
    Digit(address, Worth(level));
  }

  lemma LeafWorth(step: WalkLevel, size: LeafSize)
    requires Judge(step) == Reaches(size)
    ensures size.Bytes() == Worth(step.level)
  {
  }

  lemma {:induction false} PathSpells(mem: Memory, address: u64, level: Level, table: nat, levels: seq<WalkLevel>,
                                      size: LeafSize)
    requires levels != [] && Linked(mem, address, level, table, levels)
    requires Judge(levels[|levels| - 1]) == Reaches(size)
    ensures address % (Worth(level) * 512) == Spelled(levels) + address % size.Bytes()
    decreases |levels|
  {
    hide Judge, IndexOf, Worth, Level.Below, LeafSize.Bytes;
    IndexIsDigit(level, address);
    if |levels| == 1 {
      LeafWorth(levels[0], size);
      assert Spelled(levels[1..]) == 0;
    } else {
      PathSpells(mem, address, level.Below(), levels[0].entry.TableAddress(), levels[1..], size);
    }
  }

  /** The entries of a finished walk are those of its address and of no other: their
      indices and the offset spell its low 48 bits, or 57 under LA57. */
  lemma WalkSpellsAddress(mem: Memory, la57: bool, cr3: u64, address: u64, w: PageTableWalk)
    requires WalkOf(mem, la57, cr3, address) == Ok(w)
    ensures Spelled(w.levels) + w.pageOffset
         == address % if la57 then 0x200_0000_0000_0000 else 0x1_0000_0000_0000
  {
    hide WalkOf, Canonical, Judge, Linked, Distinct, AllDescend, PageTableEntry.LeafAddress, Spelled;
    WalkOkIsPath(mem, la57, cr3, address, w);
    PathSpells(mem, address, Top(la57), Cr3Table(cr3), w.levels, w.leafSize);
  }

  // ----------------------------------------------------------------- affine pages ---

  /** `physical_address` ors base and offset: that is their sum. */
  lemma OrIsSum(entry: PageTableEntry, size: LeafSize, address: u64)
    ensures Or(entry.LeafAddress(size), address % size.Bytes()) == entry.LeafAddress(size) + address % size.Bytes()
  {
    hide PageTableEntry.LeafAddress, Or;
    LeafBounds(entry, size);
    Pow2Values();
    OrDisjoint(entry.LeafAddress(size), address % size.Bytes(),
               match size case Page4K => 12 case Huge2M => 21 case Huge1G => 30);
  }

  lemma DivThrough(a: nat, b: nat, unit: nat, k: nat)
    requires unit >= 1 && k >= 1 && a / unit == b / unit
    ensures unit * k >= 1 && a / (unit * k) == b / (unit * k)
  {
    DivTwice(a, unit, k);
    DivTwice(b, unit, k);
  }

  /** Addresses of one page agree on every index bit above the page offset. */
  lemma SamePageIndex(level: Level, size: LeafSize, a: u64, b: u64)
    requires level.Span() >= size.Bytes() && a / size.Bytes() == b / size.Bytes()
    ensures IndexOf(level, a) == IndexOf(level, b)
  {
    var unit := size.Bytes();
    match level {
      case Pml5 =>
        DivThrough(a, b, unit,
                   if unit == 0x1000 then 0x10_0000_0000 else if unit == 0x20_0000 then 0x800_0000 else 0x4_0000);
      case Pml4 =>
        DivThrough(a, b, unit, if unit == 0x1000 then 0x800_0000 else if unit == 0x20_0000 then 0x4_0000 else 0x200);
      case Pdpt => DivThrough(a, b, unit, if unit == 0x1000 then 0x4_0000 else if unit == 0x20_0000 then 0x200 else 1);
      case Pd => DivThrough(a, b, unit, if unit == 0x1000 then 0x200 else 1);
      case Pt => DivThrough(a, b, unit, 1);
    }
  }

  lemma SamePageCanonical(la57: bool, size: LeafSize, a: u64, b: u64)
    requires a / size.Bytes() == b / size.Bytes()
    ensures Canonical(a, CanonicalBits(la57)) <==> Canonical(b, CanonicalBits(la57))
  {
    hide Canonical;
    SignExtend48(a);
    SignExtend48(b);
    SignExtend57(a);
    SignExtend57(b);
    DivThrough(a, b, size.Bytes(), 0x8000_0000_0000 / size.Bytes());
    DivThrough(a, b, size.Bytes(), 0x100_0000_0000_0000 / size.Bytes());
  }

  /** A walk ends at a level no coarser than the page it found. */
  lemma {:induction false} ReachedSpan(mem: Memory, address: u64, level: Level, table: nat, visited: seq<nat>)
    requires Guarded(mem, address, level, table, visited).end.Reaches?
    ensures level.Span() >= Guarded(mem, address, level, table, visited).end.size.Bytes()
    decreases 4 - level.Depth()
  {
    hide Fetch, IndexOf;
    FetchShape(mem, level, table, address);
    var step := Fetch(mem, level, table, address).value;
    if Judge(step).Descends? {
      ReachedSpan(mem, address, level.Below(), step.entry.TableAddress(), visited + [table]);
    }
  }

  /** Every address of the page a walk found follows the identical path. */
  lemma {:induction false} SamePageSamePath(mem: Memory, a: u64, b: u64, level: Level, table: nat, visited: seq<nat>)
    requires Guarded(mem, a, level, table, visited).end.Reaches?
    requires var unit := Guarded(mem, a, level, table, visited).end.size.Bytes(); a / unit == b / unit
    ensures Guarded(mem, b, level, table, visited) == Guarded(mem, a, level, table, visited)
    decreases 4 - level.Depth()
  {
    hide Judge, IndexOf, Blocked, PageTableEntry.TableAddress;
    ReachedSpan(mem, a, level, table, visited);
    SamePageIndex(level, Guarded(mem, a, level, table, visited).end.size, a, b);
    FetchShape(mem, level, table, a);
    var step := Fetch(mem, level, table, a).value;
    assert Fetch(mem, level, table, b) == Ok(step);
    hide Fetch;
    JudgeShape(step);
    if Judge(step).Descends? {
      SamePageSamePath(mem, a, b, level.Below(), step.entry.TableAddress(), visited + [table]);
    }
  }

  lemma InPage(a: nat, b: nat, unit: nat)
    requires unit >= 1 && a - a % unit <= b < a - a % unit + unit
    ensures a / unit == b / unit && b % unit == b - (a - a % unit)
  {
    DivisionIsUnique(b, unit, a / unit, b - (a - a % unit));
  }

  /** Translation is affine on the whole page.  If `a` resolves to `w`, every address
      `b` of the page resolves along the same entries to the address as far into the
      physical page as `b` is into the virtual one, or is refused for exactly that
      address when it lies outside RAM; the sum never overflows. */
  lemma TranslationIsAffine(mem: Memory, la57: bool, cr3: u64, a: u64, b: u64, w: PageTableWalk)
    requires WalkOf(mem, la57, cr3, a) == Ok(w)
    requires w.VirtualRange().0 <= b < w.VirtualRange().1
    ensures var physical := w.PhysicalRange().0 + (b - w.VirtualRange().0);
            && w.PhysicalRange().0 <= physical < w.PhysicalRange().1 <= PHYSICAL_LIMIT
            && (if Blocked(mem, physical)
                then WalkOf(mem, la57, cr3, b) == Err(LeafOutOfRange(physical))
                else
                  var v := w.(address := b, pageOffset := b - w.VirtualRange().0);
                  WalkOf(mem, la57, cr3, b) == Ok(v) && v.PhysicalAddress() == physical)
  {
    hide Canonical, Guarded, Or, PageTableEntry.LeafAddress, Blocked;
    var trail := Guarded(mem, a, Top(la57), Cr3Table(cr3), []);
    TrailShape(mem, a, Top(la57), Cr3Table(cr3), []);
    InPage(a, b, w.leafSize.Bytes());
    SamePageCanonical(la57, w.leafSize, a, b);
    SamePageSamePath(mem, a, b, Top(la57), Cr3Table(cr3), []);
    LeafBounds(w.leaf, w.leafSize);
    OrIsSum(w.leaf, w.leafSize, b);
  }

  lemma Multiple(a: nat, unit: nat)
    requires unit >= 1
    ensures a - a % unit == a / unit * unit
  {
  }

  lemma ScaleUp(a: nat, b: nat, unit: nat)
    requires a <= b
    ensures a * unit <= b * unit
  {
    Distribute(unit, a, b - a);
    MulDouble(unit, b - a);
  }

  lemma PageBelow(q: nat, r: nat, unit: nat, pages: nat)
    requires r < unit && q * unit + r < pages * unit
    ensures q * unit + unit <= pages * unit
    ensures q * unit + unit < pages * unit <==> q * unit + r < pages * unit - unit
  {
    if q >= pages {
      ScaleUp(pages, q, unit);
      assert false;
    }
    ScaleUp(q + 1, pages, unit);
    if q + 1 < pages {
      ScaleUp(q + 2, pages, unit);
    }
  }

  lemma TopPage(address: u64, unit: nat, pages: nat)
    requires unit >= 1 && pages >= 1 && U64_LIMIT == pages * unit
    ensures var base := address / unit * unit;
            && base + unit <= U64_LIMIT
            && (base + unit < U64_LIMIT <==> address < U64_LIMIT - unit)
  {
    var q, r := address / unit, address % unit;
    assert address == q * unit + r;
    PageBelow(q, r, unit, pages);
  }

  /** The end of a leaf's virtual range fits in 64 bits exactly when the page is not the
      topmost one of the address space. */
  lemma VirtualRangeFitsIff(w: PageTableWalk)
    ensures w.VirtualRange().1 <= U64_LIMIT
    ensures w.VirtualRange().1 < U64_LIMIT <==> w.address < U64_LIMIT - w.leafSize.Bytes()
  {
    var size, base := w.leafSize.Bytes(), w.VirtualRange().0;
    Multiple(w.address, size);
    match w.leafSize {
      case Page4K => TopPage(w.address, size, 0x10_0000_0000_0000);
      case Huge2M => TopPage(w.address, size, 0x800_0000_0000);
      case Huge1G => TopPage(w.address, size, 0x4_0000_0000);
    }
  }

  // ------------------------------------------------------- writes to guest memory ---

  lemma SameRam(m1: Memory, m2: Memory, table: nat)
    requires m1.ramSize == m2.ramSize && m1.isRam == m2.isRam
    ensures Blocked(m1, table) <==> Blocked(m2, table)
  {
  }

  lemma FetchSame(m1: Memory, m2: Memory, level: Level, table: nat, address: u64)
    requires Fetch(m1, level, table, address).Ok?
    requires var at := Fetch(m1, level, table, address).value.entryAddress; m2.readU64(at) == m1.readU64(at)
    ensures Fetch(m2, level, table, address) == Fetch(m1, level, table, address)
  {
  }

  /** A finished walk depends only on the entries it read. */
  lemma {:induction false} WalkDependsOnPath(m1: Memory, m2: Memory, address: u64, level: Level, table: nat,
                                             visited: seq<nat>)
    requires m1.ramSize == m2.ramSize && m1.isRam == m2.isRam
    requires forall step :: step in Guarded(m1, address, level, table, visited).levels ==>
               m2.readU64(step.entryAddress) == m1.readU64(step.entryAddress)
    requires Guarded(m1, address, level, table, visited).end.Reaches?
    ensures Guarded(m2, address, level, table, visited) == Guarded(m1, address, level, table, visited)
    decreases 4 - level.Depth()
  {
    hide Judge, IndexOf, Fetch, Blocked, PageTableEntry.TableAddress;
    var levels := Guarded(m1, address, level, table, visited).levels;
    FetchShape(m1, level, table, address);
    SameRam(m1, m2, table);
    var step := Fetch(m1, level, table, address).value;
    assert levels[0] == step;
    FetchSame(m1, m2, level, table, address);
    JudgeShape(step);
    if Judge(step).Descends? {
      var rest := Guarded(m1, address, level.Below(), step.entry.TableAddress(), visited + [table]).levels;
      assert levels == [step] + rest;
      WalkDependsOnPath(m1, m2, address, level.Below(), step.entry.TableAddress(), visited + [table]);
    }
  }

  /** A write that misses every entry of a walk leaves the walk as it was. */
  lemma WriteOffPath(m: map<nat, u8>, size: u64, la57: bool, cr3: u64, address: u64, w: PageTableWalk,
                     at: nat, data: seq<u8>)
    requires WalkOf(RamView(m, size), la57, cr3, address) == Ok(w)
    requires forall k :: 0 <= k < |w.levels| ==>
               at + |data| <= w.levels[k].entryAddress || w.levels[k].entryAddress + 8 <= at
    ensures WalkOf(RamView(PutBytes(m, at, data), size), la57, cr3, address) == Ok(w)
  {
    hide Canonical, Guarded, PageTableEntry.LeafAddress, ReadU64Of, PutBytes;
    var m1, m2 := RamView(m, size), RamView(PutBytes(m, at, data), size);
    TrailShape(m1, address, Top(la57), Cr3Table(cr3), []);
    forall step | step in w.levels ensures m2.readU64(step.entryAddress) == m1.readU64(step.entryAddress) {
      ReadElsewhere(m, size, at, data, step.entryAddress);
    }
    assert m1.isRam == m2.isRam;
    WalkDependsOnPath(m1, m2, address, Top(la57), Cr3Table(cr3), []);
  }

  /** The tables of a path are 4 KiB aligned, and hold the entries read from them. */
  lemma {:induction false} TableAligned(mem: Memory, address: u64, level: Level, table: nat, levels: seq<WalkLevel>,
                                        k: nat)
    requires table % 0x1000 == 0 && Linked(mem, address, level, table, levels) && k < |levels|
    ensures levels[k].tableAddress % 0x1000 == 0 && levels[k].index < 512
    ensures levels[k].entryAddress == levels[k].tableAddress + 8 * levels[k].index
    decreases k
  {
    if k > 0 {
      LeafBounds(levels[0].entry, Page4K);
      TableAligned(mem, address, level.Below(), levels[0].entry.TableAddress(), levels[1..], k - 1);
    }
  }

  lemma ApartInTables(a: nat, b: nat, i: nat, j: nat)
    requires a % 0x1000 == 0 && b % 0x1000 == 0 && a != b && i < 512 && j < 512
    ensures a + 8 * i + 8 <= b + 8 * j || b + 8 * j + 8 <= a + 8 * i
  {
    assert a / 0x1000 != b / 0x1000;
  }

  /** The entries of a path lie in distinct aligned tables, so no two overlap. */
  lemma EntriesDisjoint(mem: Memory, address: u64, level: Level, table: nat, levels: seq<WalkLevel>, i: nat, j: nat)
    requires table % 0x1000 == 0 && Linked(mem, address, level, table, levels) && Distinct(TablesOf(levels))
    requires i < j < |levels|
    ensures levels[i].entryAddress + 8 <= levels[j].entryAddress || levels[j].entryAddress + 8 <= levels[i].entryAddress
  {
    hide Linked;
    TableAligned(mem, address, level, table, levels, i);
    TableAligned(mem, address, level, table, levels, j);
    assert TablesOf(levels)[i] != TablesOf(levels)[j];
    ApartInTables(levels[i].tableAddress, levels[j].tableAddress, levels[i].index, levels[j].index);
  }

  function ReplaceLast(levels: seq<WalkLevel>, raw: u64): seq<WalkLevel>
    requires levels != []
  {
    var last := levels[|levels| - 1];
    levels[..|levels| - 1] + [last.(entry := PageTableEntry(raw))]
  }

  /** Memory `m2` holds the entries of `levels`, except that the last one is `raw`. */
  ghost predicate HoldsReplaced(m1: Memory, m2: Memory, levels: seq<WalkLevel>, raw: u64) {
    && m1.ramSize == m2.ramSize && m1.isRam == m2.isRam
    && levels != []
    && m2.readU64(levels[|levels| - 1].entryAddress) == Ok(raw)
    && forall k :: 0 <= k < |levels| - 1 ==> m2.readU64(levels[k].entryAddress) == m1.readU64(levels[k].entryAddress)
  }

  lemma {:induction false} LinkedReplaced(m1: Memory, m2: Memory, address: u64, level: Level, table: nat,
                                          levels: seq<WalkLevel>, raw: u64)
    requires HoldsReplaced(m1, m2, levels, raw) && Linked(m1, address, level, table, levels)
    ensures Linked(m2, address, level, table, ReplaceLast(levels, raw))
    decreases |levels|
  {
    hide IndexOf, PageTableEntry.TableAddress;
    var replaced := ReplaceLast(levels, raw);
    if |levels| > 1 {
      var rest := levels[1..];
      assert rest[|rest| - 1] == levels[|levels| - 1];
      assert forall k :: 0 <= k < |rest| - 1 ==> rest[k] == levels[k + 1];
      LinkedReplaced(m1, m2, address, level.Below(), levels[0].entry.TableAddress(), rest, raw);
      assert replaced[1..] == ReplaceLast(rest, raw);
      assert replaced[0] == levels[0];
    }
  }

  lemma LastReplaced(levels: seq<WalkLevel>, raw: u64)
    requires levels != []
    ensures var replaced := ReplaceLast(levels, raw);
            && replaced != [] && |replaced| == |levels|
            && replaced[|replaced| - 1] == levels[|levels| - 1].(entry := PageTableEntry(raw))
            && TablesOf(replaced) == TablesOf(levels)
            && (AllDescend(levels) ==> AllDescend(replaced))
  {
    hide Judge;
    var replaced := ReplaceLast(levels, raw);
    assert forall k :: 0 <= k < |levels| - 1 ==> replaced[k] == levels[k];
    assert TablesOf(replaced) == TablesOf(levels);
  }

  lemma PathReplaced(m1: Memory, m2: Memory, address: u64, level: Level, table: nat,
                     levels: seq<WalkLevel>, size: LeafSize, raw: u64)
    requires IsPath(m1, address, level, table, [], levels, size) && HoldsReplaced(m1, m2, levels, raw)
    requires Judge(levels[|levels| - 1].(entry := PageTableEntry(raw))) == Reaches(size)
    ensures IsPath(m2, address, level, table, [], ReplaceLast(levels, raw), size)
  {
    hide Judge, Linked, HoldsReplaced, Distinct, AllDescend, ReplaceLast;
    LinkedReplaced(m1, m2, address, level, table, levels, raw);
    LastReplaced(levels, raw);
  }

  lemma ReadSucceeded(m: map<nat, u8>, size: u64, at: nat)
    requires ReadU64Of(m, size, at).Ok?
    ensures at + 8 <= size
  {
  }

  lemma {:induction false} LastEntryReadable(mem: Memory, address: u64, level: Level, table: nat,
                                             levels: seq<WalkLevel>)
    requires levels != [] && Linked(mem, address, level, table, levels)
    ensures var last := levels[|levels| - 1]; mem.readU64(last.entryAddress) == Ok(last.entry.raw)
    decreases |levels|
  {
    if |levels| > 1 {
      LastEntryReadable(mem, address, level.Below(), levels[0].entry.TableAddress(), levels[1..]);
    }
  }

  /** Writing a word over the final entry of a path replaces that entry and no other. */
  lemma OverwriteHolds(m: map<nat, u8>, size: u64, address: u64, level: Level, table: nat,
                       levels: seq<WalkLevel>, raw: u64)
    requires table % 0x1000 == 0 && levels != []
    requires Linked(RamView(m, size), address, level, table, levels) && Distinct(TablesOf(levels))
    ensures var m' := PutBytes(m, levels[|levels| - 1].entryAddress, LeBytes(raw, 8));
            HoldsReplaced(RamView(m, size), RamView(m', size), levels, raw)
  {
    hide ReadU64Of, PutBytes, LeBytes, Linked, Distinct;
    var last := |levels| - 1;
    var at := levels[last].entryAddress;
    var m1, m2 := RamView(m, size), RamView(PutBytes(m, at, LeBytes(raw, 8)), size);
    forall k | 0 <= k < last
      ensures m2.readU64(levels[k].entryAddress) == m1.readU64(levels[k].entryAddress)
    {
      EntriesDisjoint(m1, address, level, table, levels, k, last);
      ReadElsewhere(m, size, at, LeBytes(raw, 8), levels[k].entryAddress);
    }
    LastEntryReadable(m1, address, level, table, levels);
    ReadSucceeded(m, size, at);
    ReadAfterWrite(m, size, at, raw);
    assert m1.isRam == m2.isRam;
  }

  lemma CrTableAligned(cr3: u64)
    ensures Cr3Table(cr3) % 0x1000 == 0
  {
    LeafBounds(PageTableEntry(cr3), Page4K);
  }

  lemma OverwriteKeepsPath(m: map<nat, u8>, size: u64, la57: bool, cr3: u64, address: u64, w: PageTableWalk, raw: u64)
    requires IsWalk(RamView(m, size), la57, cr3, address, w)
    requires Judge(w.levels[|w.levels| - 1].(entry := PageTableEntry(raw))) == Reaches(w.leafSize)
    ensures var m' := PutBytes(m, w.levels[|w.levels| - 1].entryAddress, LeBytes(raw, 8));
            Guarded(RamView(m', size), address, Top(la57), Cr3Table(cr3), [])
            == Trail(ReplaceLast(w.levels, raw), Reaches(w.leafSize))
  {
    hide Canonical, Judge, PageTableEntry.LeafAddress, RamView, PutBytes, LeBytes, Linked, AllDescend, Distinct;
    hide Guarded, HoldsReplaced;
    var m1 := RamView(m, size);
    var m2 := RamView(PutBytes(m, w.levels[|w.levels| - 1].entryAddress, LeBytes(raw, 8)), size);
    CrTableAligned(cr3);
    assert [] + TablesOf(w.levels) == TablesOf(w.levels);
    OverwriteHolds(m, size, address, Top(la57), Cr3Table(cr3), w.levels, raw);
    PathReplaced(m1, m2, address, Top(la57), Cr3Table(cr3), w.levels, w.leafSize, raw);
    PathIsWalk(m2, address, Top(la57), Cr3Table(cr3), [], ReplaceLast(w.levels, raw), w.leafSize);
  }

  /** Overwriting the final entry of a walk with another leaf of the same size keeps
      the path and changes only where the page resolves to: the write cannot touch an
      upper entry, because the tables of a finished walk are distinct and aligned. */
  lemma OverwriteLeaf(m: map<nat, u8>, size: u64, la57: bool, cr3: u64, address: u64, w: PageTableWalk, raw: u64)
    requires WalkOf(RamView(m, size), la57, cr3, address) == Ok(w)
    requires w.levels != []
    requires Judge(w.levels[|w.levels| - 1].(entry := PageTableEntry(raw))) == Reaches(w.leafSize)
    ensures var entry := PageTableEntry(raw);
            var base := entry.LeafAddress(w.leafSize);
            var m' := PutBytes(m, w.levels[|w.levels| - 1].entryAddress, LeBytes(raw, 8));
            WalkOf(RamView(m', size), la57, cr3, address) ==
            if base + w.pageOffset >= size then Err(LeafOutOfRange(base + w.pageOffset))
            else Ok(w.(levels := ReplaceLast(w.levels, raw), physicalBase := base, leaf := entry))
  {
    hide Canonical, Judge, PageTableEntry.LeafAddress, PutBytes, LeBytes, IsPath, Guarded;
    WalkOkIsPath(RamView(m, size), la57, cr3, address, w);
    OverwriteKeepsPath(m, size, la57, cr3, address, w, raw);
    LeafBounds(PageTableEntry(raw), w.leafSize);
  }

  // ------------------------------------------------------------------------ holes ---

  /** Retracing the walk down to level `stop`, as `partial_path` does: the guards are
      the same, the entries are not judged. */
  function Retrace(mem: Memory, address: u64, level: Level, table: nat, visited: seq<nat>, stop: Level)
    : Result<seq<WalkLevel>, WalkError>
    decreases 4 - level.Depth()
  {
    if Blocked(mem, table) then Err(TableNotInRam(level, table))
    else if table in visited then Err(Cycle(table, level))
    else
      match Fetch(mem, level, table, address)
      case Err(e) => Err(e)
      case Ok(step) =>
        if level == stop || level.Pt? then Ok([step])
        else
          match Retrace(mem, address, level.Below(), step.entry.TableAddress(), visited + [table], stop)
          case Err(e) => Err(e)
          case Ok(rest) => Ok([step] + rest)
  }

  lemma JudgeHole(step: WalkLevel)
    requires Judge(step).Fails? && Judge(step).error.NotPresent?
    ensures Judge(step).error == NotPresent(step.level, step.index, step.entry.raw) && !step.entry.Present()
  {
  }

  /** Where the walk finds a hole, retracing to its level reads the same entries. */
  lemma {:induction false} RetraceFollowsWalk(mem: Memory, address: u64, level: Level, table: nat, visited: seq<nat>)
    requires var end := Guarded(mem, address, level, table, visited).end; end.Fails? && end.error.NotPresent?
    ensures var t := Guarded(mem, address, level, table, visited);
            && Retrace(mem, address, level, table, visited, t.end.error.level) == Ok(t.levels)
            && t.levels != []
            && t.end.error.level.Depth() >= level.Depth()
            && Linked(mem, address, level, table, t.levels)
            && AllDescend(t.levels)
            && Judge(t.levels[|t.levels| - 1]) == t.end
    decreases 4 - level.Depth()
  {
    hide Judge, Fetch, IndexOf, Blocked, PageTableEntry.TableAddress, Linked, AllDescend;
    FetchShape(mem, level, table, address);
    var t := Guarded(mem, address, level, table, visited);
    var step := Fetch(mem, level, table, address).value;
    JudgeShape(step);
    if Judge(step).Descends? {
      var next := step.entry.TableAddress();
      RetraceFollowsWalk(mem, address, level.Below(), next, visited + [table]);
      var rest := Guarded(mem, address, level.Below(), next, visited + [table]).levels;
      BelowIsDeeper(level);
      LinkedExtends(mem, address, level, table, step, rest);
      DescendExtends(step, rest);
    } else {
      LinkedAlone(mem, address, level, table, step);
      JudgeHole(step);
    }
  }

  /** `walk_or_explain`: the walk, with a hole reported as a finding. */
  function WalkOrExplainOf(mem: Memory, la57: bool, cr3: u64, address: u64)
    : Result<Result<PageTableWalk, Hole>, WalkError>
  {
    match WalkOf(mem, la57, cr3, address)
    case Ok(w) => Ok(Ok(w))
    case Err(NotPresent(level, index, _)) =>
      (match Retrace(mem, address, Top(la57), Cr3Table(cr3), [], level)
       case Err(e) => Err(e)
       case Ok(path) =>
         if path == [] then Ok(Err(Hole([], level, index, 0)))
         else Ok(Err(Hole(path[..|path| - 1], level, index, path[|path| - 1].entryAddress))))
    case Err(other) => Err(other)
  }

  /** `hole` is the absent entry `raw` of `address`: memory holds it there, it is not
      present, and the levels of the hole lead from CR3 exactly to it. */
  ghost predicate ExplainsHole(mem: Memory, la57: bool, cr3: u64, address: u64, hole: Hole, raw: u64) {
    && hole.entryAddress >= 8 * hole.index
    && mem.readU64(hole.entryAddress) == Ok(raw)
    && !PageTableEntry(raw).Present()
    && var absent := WalkLevel(hole.level, hole.index, hole.entryAddress - 8 * hole.index, hole.entryAddress,
                               PageTableEntry(raw));
       && Linked(mem, address, Top(la57), Cr3Table(cr3), hole.levels + [absent])
       && AllDescend(hole.levels + [absent])
  }

  lemma {:induction false} LastEntryPlace(mem: Memory, address: u64, level: Level, table: nat, levels: seq<WalkLevel>)
    requires levels != [] && Linked(mem, address, level, table, levels)
    ensures var last := levels[|levels| - 1]; last.entryAddress == last.tableAddress + 8 * last.index
    decreases |levels|
  {
    if |levels| > 1 {
      LastEntryPlace(mem, address, level.Below(), levels[0].entry.TableAddress(), levels[1..]);
    }
  }

  lemma HoleOfTrail(mem: Memory, la57: bool, cr3: u64, address: u64, levels: seq<WalkLevel>)
    requires levels != [] && Linked(mem, address, Top(la57), Cr3Table(cr3), levels) && AllDescend(levels)
    requires var v := Judge(levels[|levels| - 1]); v.Fails? && v.error.NotPresent?
    ensures var absent := levels[|levels| - 1];
            ExplainsHole(mem, la57, cr3, address,
                         Hole(levels[..|levels| - 1], absent.level, absent.index, absent.entryAddress),
                         absent.entry.raw)
  {
    hide Judge, Linked, AllDescend, PageTableEntry.Present, PageTableEntry.TableAddress;
    var absent := levels[|levels| - 1];
    JudgeHole(absent);
    LastEntryReadable(mem, address, Top(la57), Cr3Table(cr3), levels);
    LastEntryPlace(mem, address, Top(la57), Cr3Table(cr3), levels);
    assert levels[..|levels| - 1] + [absent] == levels;
  }

  /** A hole never turns into an error: it comes back with exactly the levels that
      resolved above it and with the physical address of the absent entry.  Every
      other outcome passes unchanged. */
  lemma HolesAreExplained(mem: Memory, la57: bool, cr3: u64, address: u64)
    ensures match WalkOf(mem, la57, cr3, address)
            case Ok(w) => WalkOrExplainOf(mem, la57, cr3, address) == Ok(Ok(w))
            case Err(NotPresent(level, index, raw)) =>
              (match WalkOrExplainOf(mem, la57, cr3, address)
               case Ok(Err(hole)) =>
                 hole.level == level && hole.index == index && ExplainsHole(mem, la57, cr3, address, hole, raw)
               case _ => false)
            case Err(other) => WalkOrExplainOf(mem, la57, cr3, address) == Err(other)
  {
    hide Canonical, Guarded, Judge, Retrace, PageTableEntry.LeafAddress, ExplainsHole;
    var table := Cr3Table(cr3);
    var t := Guarded(mem, address, Top(la57), table, []);
    TrailShape(mem, address, Top(la57), table, []);
    if t.end.Fails? && t.end.error.NotPresent? {
      RetraceFollowsWalk(mem, address, Top(la57), table, []);
      HoleOfTrail(mem, la57, cr3, address, t.levels);
      JudgeHole(t.levels[|t.levels| - 1]);
    }
  }

  /** `rest`, with the levels already collected in front. */
  function Prepended(levels: seq<WalkLevel>, rest: Result<seq<WalkLevel>, WalkError>)
    : Result<seq<WalkLevel>, WalkError>
  {
    match rest
    case Err(e) => Err(e)
    case Ok(more) => Ok(levels + more)
  }

  lemma PrependedTwice(levels: seq<WalkLevel>, step: WalkLevel, rest: Result<seq<WalkLevel>, WalkError>)
    ensures Prepended([], rest) == rest
    ensures Prepended(levels, Prepended([step], rest)) == Prepended(levels + [step], rest)
  {
    if rest.Ok? {
      assert [] + rest.value == rest.value;
      assert levels + ([step] + rest.value) == levels + [step] + rest.value;
    }
  }

  /** The list of levels is the chain from the top down. */
  lemma LevelsAreChain(la57: bool)
    ensures var levels := LevelsToVisit(la57);
            && levels != []
            && levels[0] == Top(la57)
            && levels[|levels| - 1].Pt?
            && forall d :: 0 <= d < |levels| - 1 ==> !levels[d].Pt? && levels[d + 1] == levels[d].Below()
  {
  }

  /** One iteration of the walk's loop, `levels` being the entries read so far. */
  lemma GuardedStep(mem: Memory, address: u64, level: Level, table: nat, visited: seq<nat>, levels: seq<WalkLevel>)
    ensures var t := Guarded(mem, address, level, table, visited);
            var whole := Trail(levels + t.levels, t.end);
            if Blocked(mem, table) then whole == Trail(levels, Fails(TableNotInRam(level, table)))
            else if table in visited then whole == Trail(levels, Fails(Cycle(table, level)))
            else
              var fetched := Fetch(mem, level, table, address);
              if fetched.Err? then whole == Trail(levels, Fails(fetched.error))
              else if !Judge(fetched.value).Descends? then
                whole == Trail(levels + [fetched.value], Judge(fetched.value))
              else
                && !level.Pt?
                && var next := fetched.value.entry.TableAddress();
                   var rest := Guarded(mem, address, level.Below(), next, visited + [table]);
                   whole == Trail(levels + [fetched.value] + rest.levels, rest.end)
  {
    hide Judge, Fetch, IndexOf, Blocked, PageTableEntry.TableAddress;
    assert levels + [] == levels;
    FetchShape(mem, level, table, address);
    if Fetch(mem, level, table, address).Ok? {
      var step := Fetch(mem, level, table, address).value;
      JudgeShape(step);
      if Judge(step).Descends? {
        var rest := Guarded(mem, address, level.Below(), step.entry.TableAddress(), visited + [table]);
        assert levels + ([step] + rest.levels) == levels + [step] + rest.levels;
      }
    }
  }
}
