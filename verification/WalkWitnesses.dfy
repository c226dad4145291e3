/** RAM images on which the walk of `pagetable.rs` and the processor's answer apart, and
    one whose leaf ends at 2^64. */
module WalkWitnesses {
  import opened Wrappers
  import opened Words
  import opened GuestMemory
  import opened PageTable
  import opened Translation
  import opened Architecture

  /** A processor without reserved address bits, with no-execute and 1 GiB pages. */
  const FULL := Cpu(52, true, true)
  const RAM_SIZE: u64 := 0x4000_0000

  const ABSENT_LEAF: seq<(nat, u64)> := [(0x1000, 0x2001), (0x2000, 0x80)]
  const PAT_LEAF: seq<(nat, u64)> := [(0x1000, 0x2001), (0x2000, 0x3001), (0x3000, 0x4001), (0x4000, 0x5081)]
  const RESERVED_LEAF: seq<(nat, u64)> := [(0x1000, 0x2001), (0x2000, 0x3001), (0x3000, 0x2083)]
  const TOP_LEAF: seq<(nat, u64)> := [(0x1FF8, 0x2001), (0x2FF8, 0x81)]

  // ---------------------------------------------------------------------- the images ---

  /** RAM that holds `words[k].1` at `words[k].0`, and zeros elsewhere. */
  function Poked(words: seq<(nat, u64)>): map<nat, u8> {
    if words == [] then map[]
    else
      var (at, value) := words[|words| - 1];
      PutBytes(Poked(words[..|words| - 1]), at, LeBytes(value, 8))
  }

  function Image(words: seq<(nat, u64)>): Memory {
    RamView(Poked(words), RAM_SIZE)
  }

  predicate Apart(words: seq<(nat, u64)>) {
    forall i, j :: 0 <= i < j < |words| ==> words[i].0 + 8 <= words[j].0
  }

  lemma {:induction false} PokedReads(words: seq<(nat, u64)>, k: nat)
    requires Apart(words) && k < |words| && words[k].0 + 8 <= RAM_SIZE
    ensures Image(words).readU64(words[k].0) == Ok(words[k].1)
    decreases |words|
  {
    hide ReadU64Of, PutBytes, LeBytes;
    var front := words[..|words| - 1];
    var (at, value) := words[|words| - 1];
    if k == |front| {
      ReadAfterWrite(Poked(front), RAM_SIZE, at, value);
    } else {
      PokedReads(front, k);
      assert front[k] == words[k];
      ReadElsewhere(Poked(front), RAM_SIZE, at, LeBytes(value, 8), words[k].0);
    }
  }

  ghost predicate RamBelow(mem: Memory, size: nat) {
    forall a: nat :: a < size ==> !Blocked(mem, a)
  }

  // ------------------------------------------------------------- one step of a walk ---

  function EntryFor(level: Level, table: nat, address: u64, raw: u64): WalkLevel {
    var index := IndexOf(level, address);
    WalkLevel(level, index, table, table + index * 8, PageTableEntry(raw))
  }

  function Onto(step: WalkLevel, rest: Trail): Trail {
    Trail([step] + rest.levels, rest.end)
  }

  /** Both walks at a table whose entry for the address is `raw`. */
  lemma StepAt(mem: Memory, level: Level, table: nat, visited: seq<nat>, address: u64, raw: u64)
    requires mem.readU64(table + IndexOf(level, address) * 8) == Ok(raw) && !Blocked(mem, table) && table !in visited
    ensures var step := EntryFor(level, table, address, raw);
            && (!Judge(step).Descends? ==> Guarded(mem, address, level, table, visited) == Trail([step], Judge(step)))
            && (!SdmJudge(FULL, step).Descends? ==>
                  SdmWalk(FULL, mem, address, level, table) == Trail([step], SdmJudge(FULL, step)))
  {
    assert Fetch(mem, level, table, address) == Ok(EntryFor(level, table, address, raw));
    hide Fetch, Judge, SdmJudge, IndexOf, Blocked, PageTableEntry.TableAddress;
  }

  lemma NoAddressBitReserved(raw: u64)
    ensures Field(raw, FULL.physicalBits, 52 - FULL.physicalBits) == 0
  {
    Pow2Zero();
    hide Pow2;
  }

  lemma PointsDown(step: WalkLevel)
    requires !step.level.Pt? && step.entry.raw in {0x2001, 0x3001, 0x4001}
    ensures Judge(step) == SdmJudge(FULL, step) == Descends
    ensures step.entry.TableAddress() == step.entry.raw - 1
  {
    NoAddressBitReserved(step.entry.raw);
    hide Field;
  }

  /** And one step down, past an entry that points to the table `next`. */
  lemma DownAt(mem: Memory, level: Level, table: nat, visited: seq<nat>, address: u64, raw: u64, next: nat)
    requires mem.readU64(table + IndexOf(level, address) * 8) == Ok(raw) && !Blocked(mem, table) && table !in visited
    requires !level.Pt? && raw in {0x2001, 0x3001, 0x4001} && next == raw - 1
    ensures var step := EntryFor(level, table, address, raw);
            && Guarded(mem, address, level, table, visited)
               == Onto(step, Guarded(mem, address, level.Below(), next, visited + [table]))
            && SdmWalk(FULL, mem, address, level, table)
               == Onto(step, SdmWalk(FULL, mem, address, level.Below(), next))
  {
    var step := EntryFor(level, table, address, raw);
    assert Fetch(mem, level, table, address) == Ok(step);
    PointsDown(step);
    hide Fetch, Judge, SdmJudge, IndexOf, Blocked, PageTableEntry.TableAddress;
  }

  lemma AtCr3()
    ensures Cr3Table(0x1000) == 0x1000
  {
  }

  lemma AtZero(level: Level)
    ensures IndexOf(level, 0) == 0
  {
  }

  lemma ZeroIsCanonical()
    ensures Canonical(0, 48)
  {
    SignExtend48(0);
  }

  /** A leaf at physical 0 is a finished walk of any address whose offset is in RAM. */
  lemma LeafAtZero(mem: Memory, address: u64, t: Trail, size: LeafSize)
    requires t.levels != [] && t.end == Reaches(size) && t.levels[|t.levels| - 1].entry.LeafAddress(size) == 0
    requires !Blocked(mem, address % size.Bytes())
    ensures var r := Conclude(mem, false, address, t); r.Ok? && r.value.address == address && r.value.leafSize == size
  {
    hide PageTableEntry.LeafAddress, Blocked;
  }

  // ----------------------------------------------------------------- an absent leaf ---

  lemma AbsentHuge()
    ensures var step := EntryFor(Pdpt, 0x2000, 0, 0x80);
            && Judge(step) == Reaches(Huge1G) && SdmJudge(FULL, step) == Fails(NotPresent(Pdpt, 0, 0x80))
            && step.entry.LeafAddress(Huge1G) == 0
  {
    hide Field, IndexOf, ReservedSet;
    AtZero(Pdpt);
  }

  lemma AbsentLeafIn(mem: Memory)
    requires RamBelow(mem, 0x6000) && mem.readU64(0x1000) == Ok(0x2001) && mem.readU64(0x2000) == Ok(0x80)
    ensures WalkOf(mem, false, 0x1000, 0).Ok?
    ensures SdmWalkOf(FULL, mem, false, 0x1000, 0) == Err(NotPresent(Pdpt, 0, 0x80))
  {
    hide Fetch, Canonical, Guarded, SdmWalk, Judge, SdmJudge, Blocked, Cr3Table, IndexOf;
    hide PageTableEntry.TableAddress, PageTableEntry.LeafAddress;
    ZeroIsCanonical();
    AtCr3();
    AtZero(Pml4);
    AtZero(Pdpt);
    DownAt(mem, Pml4, 0x1000, [], 0, 0x2001, 0x2000);
    StepAt(mem, Pdpt, 0x2000, [] + [0x1000], 0, 0x80);
    AbsentHuge();
    LeafAtZero(mem, 0, Guarded(mem, 0, Pml4, 0x1000, []), Huge1G);
  }

  /** A huge entry of 0x80 alone, with P clear: the walk ends at a leaf, the processor
      faults. */
  lemma AbsentLeafIsFound()
    ensures WalkOf(Image(ABSENT_LEAF), false, 0x1000, 0).Ok?
    ensures SdmWalkOf(FULL, Image(ABSENT_LEAF), false, 0x1000, 0) == Err(NotPresent(Pdpt, 0, 0x80))
  {
    PokedReads(ABSENT_LEAF, 0);
    PokedReads(ABSENT_LEAF, 1);
    hide Poked, ReadU64Of, WalkOf, SdmWalkOf;
    AbsentLeafIn(Image(ABSENT_LEAF));
  }

  // ------------------------------------------------------------- a reserved huge leaf ---

  lemma TwoDown(mem: Memory)
    requires RamBelow(mem, 0x6000) && mem.readU64(0x1000) == Ok(0x2001) && mem.readU64(0x2000) == Ok(0x3001)
    ensures var high, low := EntryFor(Pml4, 0x1000, 0, 0x2001), EntryFor(Pdpt, 0x2000, 0, 0x3001);
            && Guarded(mem, 0, Pml4, 0x1000, [])
               == Onto(high, Onto(low, Guarded(mem, 0, Pd, 0x3000, [0x1000, 0x2000])))
            && SdmWalk(FULL, mem, 0, Pml4, 0x1000) == Onto(high, Onto(low, SdmWalk(FULL, mem, 0, Pd, 0x3000)))
  {
    hide Guarded, SdmWalk, Blocked, IndexOf;
    AtZero(Pml4);
    AtZero(Pdpt);
    DownAt(mem, Pml4, 0x1000, [], 0, 0x2001, 0x2000);
    DownAt(mem, Pdpt, 0x2000, [0x1000], 0, 0x3001, 0x3000);
    assert [] + [0x1000] == [0x1000] && [0x1000] + [0x2000] == [0x1000, 0x2000];
  }

  lemma ReservedHuge()
    ensures var step := EntryFor(Pd, 0x3000, 0, 0x2083);
            && Judge(step) == Reaches(Huge2M) && SdmJudge(FULL, step) == Fails(ReservedPageSizeBit(Pd, 0x2083))
            && step.entry.LeafAddress(Huge2M) == 0 && step.entry.Present()
  {
    NoAddressBitReserved(0x2083);
    hide Field, IndexOf;
  }

  lemma ReservedHugeIn(mem: Memory)
    requires RamBelow(mem, 0x6000) && mem.readU64(0x1000) == Ok(0x2001) && mem.readU64(0x2000) == Ok(0x3001)
    requires mem.readU64(0x3000) == Ok(0x2083)
    ensures var r := WalkOf(mem, false, 0x1000, 0); r.Ok? && r.value.leaf.Present()
    ensures SdmWalkOf(FULL, mem, false, 0x1000, 0) == Err(ReservedPageSizeBit(Pd, 0x2083))
  {
    hide Fetch, Canonical, Guarded, SdmWalk, Judge, SdmJudge, Blocked, Cr3Table, IndexOf;
    hide PageTableEntry.TableAddress, PageTableEntry.LeafAddress, PageTableEntry.Present;
    ZeroIsCanonical();
    AtCr3();
    AtZero(Pd);
    TwoDown(mem);
    StepAt(mem, Pd, 0x3000, [0x1000, 0x2000], 0, 0x2083);
    ReservedHuge();
    LeafAtZero(mem, 0, Guarded(mem, 0, Pml4, 0x1000, []), Huge2M);
  }

  /** A present 2 MiB entry with its reserved bit 13 set: the walk ends at it, the
      processor faults. */
  lemma ReservedHugeIsFound()
    ensures var r := WalkOf(Image(RESERVED_LEAF), false, 0x1000, 0); r.Ok? && r.value.leaf.Present()
    ensures SdmWalkOf(FULL, Image(RESERVED_LEAF), false, 0x1000, 0) == Err(ReservedPageSizeBit(Pd, 0x2083))
  {
    PokedReads(RESERVED_LEAF, 0);
    PokedReads(RESERVED_LEAF, 1);
    PokedReads(RESERVED_LEAF, 2);
    hide Poked, ReadU64Of, WalkOf, SdmWalkOf;
    ReservedHugeIn(Image(RESERVED_LEAF));
  }

  // ------------------------------------------------------------------- a PAT entry ---

  lemma PatEntry()
    ensures var step := EntryFor(Pt, 0x4000, 0, 0x5081);
            Judge(step) == Fails(ReservedPageSizeBit(Pt, 0x5081)) && SdmJudge(FULL, step) == Reaches(Page4K)
  {
    NoAddressBitReserved(0x5081);
    hide Field, IndexOf;
  }

  lemma PageAt5000(mem: Memory, t: Trail)
    requires t.levels != [] && t.end == Reaches(Page4K) && t.levels[|t.levels| - 1].entry.raw == 0x5081
    requires !Blocked(mem, 0x5000)
    ensures var r := Conclude(mem, false, 0, t); r.Ok? && r.value.physicalBase == 0x5000
  {
  }

  ghost predicate PatImage(mem: Memory) {
    && RamBelow(mem, 0x6000) && mem.readU64(0x1000) == Ok(0x2001) && mem.readU64(0x2000) == Ok(0x3001)
    && mem.readU64(0x3000) == Ok(0x4001) && mem.readU64(0x4000) == Ok(0x5081)
  }

  lemma PatTrails(mem: Memory)
    requires PatImage(mem)
    ensures Guarded(mem, 0, Pml4, 0x1000, []).end == Fails(ReservedPageSizeBit(Pt, 0x5081))
    ensures var t := SdmWalk(FULL, mem, 0, Pml4, 0x1000);
            t.end == Reaches(Page4K) && t.levels != [] && t.levels[|t.levels| - 1].entry.raw == 0x5081
  {
    hide Guarded, SdmWalk, Judge, SdmJudge, Blocked, IndexOf;
    AtZero(Pd);
    AtZero(Pt);
    TwoDown(mem);
    DownAt(mem, Pd, 0x3000, [0x1000, 0x2000], 0, 0x4001, 0x4000);
    StepAt(mem, Pt, 0x4000, [0x1000, 0x2000] + [0x3000], 0, 0x5081);
    PatEntry();
  }

  lemma PatLeafIn(mem: Memory)
    requires PatImage(mem)
    ensures WalkOf(mem, false, 0x1000, 0) == Err(ReservedPageSizeBit(Pt, 0x5081))
    ensures var r := SdmWalkOf(FULL, mem, false, 0x1000, 0); r.Ok? && r.value.physicalBase == 0x5000
  {
    hide Canonical, Guarded, SdmWalk, Blocked, Cr3Table, Conclude;
    ZeroIsCanonical();
    AtCr3();
    TrailShape(mem, 0, Pml4, 0x1000, []);
    PatTrails(mem);
    ConcludedFailure(mem, false, 0, Guarded(mem, 0, Pml4, 0x1000, []));
    PageAt5000(mem, SdmWalk(FULL, mem, 0, Pml4, 0x1000));
  }

  /** A present 4 KiB entry with PAT set: the walk refuses it, the processor maps it. */
  lemma PatIsRefused()
    ensures WalkOf(Image(PAT_LEAF), false, 0x1000, 0) == Err(ReservedPageSizeBit(Pt, 0x5081))
    ensures var r := SdmWalkOf(FULL, Image(PAT_LEAF), false, 0x1000, 0); r.Ok? && r.value.physicalBase == 0x5000
  {
    PokedReads(PAT_LEAF, 0);
    PokedReads(PAT_LEAF, 1);
    PokedReads(PAT_LEAF, 2);
    PokedReads(PAT_LEAF, 3);
    hide Poked, ReadU64Of, WalkOf, SdmWalkOf;
    PatLeafIn(Image(PAT_LEAF));
  }

  // ------------------------------------------------------------------ the topmost page ---

  const TOP: u64 := U64_LIMIT - 1

  lemma AtTop()
    ensures IndexOf(Pml4, TOP) == IndexOf(Pdpt, TOP) == 511 && Canonical(TOP, 48) && TOP % 0x4000_0000 == 0x3FFF_FFFF
  {
    SignExtend48(TOP);
    hide Canonical;
  }

  lemma TopHuge()
    ensures var step := EntryFor(Pdpt, 0x2000, TOP, 0x81);
            Judge(step) == Reaches(Huge1G) && step.entry.LeafAddress(Huge1G) == 0
  {
  }

  lemma TopRange(w: PageTableWalk)
    requires w.address == TOP && w.leafSize == Huge1G
    ensures w.VirtualRange().1 == U64_LIMIT
  {
  }

  lemma TopPageIn(mem: Memory)
    requires RamBelow(mem, RAM_SIZE) && mem.readU64(0x1FF8) == Ok(0x2001) && mem.readU64(0x2FF8) == Ok(0x81)
    ensures var r := WalkOf(mem, false, 0x1000, TOP); r.Ok? && r.value.VirtualRange().1 == U64_LIMIT
  {
    hide Fetch, Canonical, Guarded, SdmWalk, Judge, SdmJudge, Blocked, Cr3Table, IndexOf, PageTableWalk.VirtualRange;
    hide PageTableEntry.TableAddress, PageTableEntry.LeafAddress;
    AtTop();
    AtCr3();
    DownAt(mem, Pml4, 0x1000, [], TOP, 0x2001, 0x2000);
    StepAt(mem, Pdpt, 0x2000, [] + [0x1000], TOP, 0x81);
    TopHuge();
    LeafAtZero(mem, TOP, Guarded(mem, TOP, Pml4, 0x1000, []), Huge1G);
    TopRange(WalkOf(mem, false, 0x1000, TOP).value);
  }

  /** The last 1 GiB of the address space mapped: its virtual range ends at 2^64. */
  lemma TopPageIsMapped()
    ensures var r := WalkOf(Image(TOP_LEAF), false, 0x1000, TOP); r.Ok? && r.value.VirtualRange().1 == U64_LIMIT
  {
    PokedReads(TOP_LEAF, 0);
    PokedReads(TOP_LEAF, 1);
    hide Poked, ReadU64Of, WalkOf, PageTableWalk.VirtualRange;
    TopPageIn(Image(TOP_LEAF));
  }
}
