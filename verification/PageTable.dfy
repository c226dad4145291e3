/**
 The x86-64 page-table walk of `pagetable.rs` (Intel SDM Vol. 3A section 4.5) as a
 function of a memory source: levels, entries, outcomes, and the guarded walk next
 to the plain one it refines.
 */
module PageTable {
  import opened Wrappers
  import opened Words
  import opened GuestMemory

  const ENTRY_ADDRESS_MASK := 0x000F_FFFF_FFFF_F000
  const HUGE_1G_MASK := 0x000F_FFFF_C000_0000
  const HUGE_2M_MASK := 0x000F_FFFF_FFE0_0000
  const PHYSICAL_LIMIT := 0x10_0000_0000_0000

  datatype Level = Pml5 | Pml4 | Pdpt | Pd | Pt {
    function Depth(): nat {
      match this
      case Pml5 => 0
      case Pml4 => 1
      case Pdpt => 2
      case Pd => 3
      case Pt => 4
    }

    /** The bytes of virtual address space one entry of this level spans: two to
        the power of the lowest index bit. */
    function Span(): nat {
      match this
      case Pml5 => 0x1_0000_0000_0000
      case Pml4 => 0x80_0000_0000
      case Pdpt => 0x4000_0000
      case Pd => 0x20_0000
      case Pt => 0x1000
    }

    predicate HugePageAllowed() {
      Pdpt? || Pd?
    }

    function Below(): Level
      requires !Pt?
    {
      match this
      case Pml5 => Pml4
      case Pml4 => Pdpt
      case Pdpt => Pd
      case Pd => Pt
    }
  }

  datatype LeafSize = Page4K | Huge2M | Huge1G {
    function Bytes(): nat {
      match this
      case Page4K => 0x1000
      case Huge2M => 0x20_0000
      case Huge1G => 0x4000_0000
    }
  }

  /** A raw entry and the fields the walk reads from it. */
  datatype PageTableEntry = PageTableEntry(raw: u64) {
    predicate Present() {
      raw % 2 == 1
    }

    predicate PageSize() {
      raw / 0x80 % 2 == 1
    }

    /** Bits 51:12: the address of the next table, or of a 4 KiB page. */
    function TableAddress(): nat {
      raw / 0x1000 % 0x100_0000_0000 * 0x1000
    }

    /** The base of a leaf, by the mask its size requires. */
    function LeafAddress(size: LeafSize): nat {
      match size
      case Page4K => TableAddress()
      case Huge2M => raw / 0x20_0000 % 0x8000_0000 * 0x20_0000
      case Huge1G => raw / 0x4000_0000 % 0x40_0000 * 0x4000_0000
    }
  }

  datatype WalkLevel = WalkLevel(
    level: Level, index: nat, tableAddress: nat, entryAddress: nat, entry: PageTableEntry)

  datatype WalkError =
    | NonCanonical(address: nat, bits: nat)
    | TableNotInRam(level: Level, address: nat)
    | Unreadable(level: Level, source: MemoryError)
    | NotPresent(level: Level, index: nat, raw: u64)
    | Cycle(address: nat, level: Level)
    | ReservedPageSizeBit(level: Level, raw: u64)
    | LeafOutOfRange(address: nat)

  datatype PageTableWalk = PageTableWalk(
    address: u64, levels: seq<WalkLevel>, leafSize: LeafSize, physicalBase: nat,
    pageOffset: nat, leaf: PageTableEntry, la57: bool)
  {
    function PhysicalAddress(): nat {
      Or(physicalBase, pageOffset)
    }

    function PhysicalRange(): (nat, nat) {
      (physicalBase, physicalBase + leafSize.Bytes())
    }

    function VirtualRange(): (nat, nat) {
      var base := address - address % leafSize.Bytes();
      (base, base + leafSize.Bytes())
    }
  }

  /** A hole: the levels above it, and where the absent entry is. */
  datatype Hole = Hole(levels: seq<WalkLevel>, level: Level, index: nat, entryAddress: nat)

  // -------------------------------------------------------------- canonical form ---

  function Shl64(x: u64, n: nat): u64 {
    x * Pow2(n) % U64_LIMIT
  }

  function AsSigned(x: u64): int {
    if x >= 0x8000_0000_0000_0000 then x - U64_LIMIT else x
  }

  /** Sign-extend the low `bits` bits by shifting up and arithmetically down. */
  function SignExtend(address: u64, bits: nat): int
    requires 1 <= bits <= 64
  {
    AsSigned(Shl64(address, 64 - bits)) / Pow2(64 - bits) % U64_LIMIT
  }

  predicate Canonical(address: u64, bits: nat) {
    if !(1 <= bits <= 64) || bits == 64 then true else SignExtend(address, bits) == address
  }

  function CanonicalBits(la57: bool): nat {
    if la57 then 57 else 48
  }

  // ------------------------------------------------------------------- the walk ---

  function Top(la57: bool): Level {
    if la57 then Pml5 else Pml4
  }

  /** The levels a walk visits, top-down. */
  function LevelsToVisit(la57: bool): seq<Level> {
    (if la57 then [Pml5] else []) + [Pml4, Pdpt, Pd, Pt]
  }

  function IndexOf(level: Level, address: u64): nat {
    address / level.Span() % 512
  }

  predicate Blocked(mem: Memory, address: nat) {
    mem.ramSize.Some? && !mem.isRam(address)
  }

  /** Read the entry a table holds for `address`. */
  function Fetch(mem: Memory, level: Level, table: nat, address: u64): Result<WalkLevel, WalkError> {
    var index := IndexOf(level, address);
    var entryAddress := table + index * 8;
    match mem.readU64(entryAddress)
    case Ok(raw) => Ok(WalkLevel(level, index, table, entryAddress, PageTableEntry(raw)))
    case Err(source) => Err(Unreadable(level, source))
  }

  datatype Verdict = Fails(error: WalkError) | Reaches(size: LeafSize) | Descends

  /** What an entry means at its level.  PS is looked at before P. */
  function Judge(step: WalkLevel): Verdict {
    if step.entry.PageSize() && !step.level.HugePageAllowed() then
      Fails(ReservedPageSizeBit(step.level, step.entry.raw))
    else if step.entry.PageSize() then Reaches(if step.level.Pdpt? then Huge1G else Huge2M)
    else if !step.entry.Present() then Fails(NotPresent(step.level, step.index, step.entry.raw))
    else if step.level.Pt? then Reaches(Page4K)
    else Descends
  }

  /** The entries a walk read, and how it ended. */
  datatype Trail = Trail(levels: seq<WalkLevel>, end: Verdict)

  /** The walk with its guards: RAM, then the tables already visited. */
  function Guarded(mem: Memory, address: u64, level: Level, table: nat, visited: seq<nat>): Trail
    decreases 4 - level.Depth()
  {
    if Blocked(mem, table) then Trail([], Fails(TableNotInRam(level, table)))
    else if table in visited then Trail([], Fails(Cycle(table, level)))
    else
      match Fetch(mem, level, table, address)
      case Err(e) => Trail([], Fails(e))
      case Ok(step) =>
        var verdict := Judge(step);
        if verdict.Descends? then
          var rest := Guarded(mem, address, level.Below(), step.entry.TableAddress(), visited + [table]);
          Trail([step] + rest.levels, rest.end)
        else Trail([step], verdict)
  }

  /** The same recursion without the list of visited tables.  It judges entries as the
      code does; `Architecture` compares it with the processor's walk. */
  function Plain(mem: Memory, address: u64, level: Level, table: nat): Trail
    decreases 4 - level.Depth()
  {
    if Blocked(mem, table) then Trail([], Fails(TableNotInRam(level, table)))
    else
      match Fetch(mem, level, table, address)
      case Err(e) => Trail([], Fails(e))
      case Ok(step) =>
        var verdict := Judge(step);
        if verdict.Descends? then
          var rest := Plain(mem, address, level.Below(), step.entry.TableAddress());
          Trail([step] + rest.levels, rest.end)
        else Trail([step], verdict)
  }

  /** The tables that recursion reaches, in order. */
  function Tables(mem: Memory, address: u64, level: Level, table: nat): seq<nat>
    decreases 4 - level.Depth()
  {
    if Blocked(mem, table) then [table]
    else
      match Fetch(mem, level, table, address)
      case Err(_) => [table]
      case Ok(step) =>
        [table] + if Judge(step).Descends?
                  then Tables(mem, address, level.Below(), step.entry.TableAddress())
                  else []
  }

  /** Turn a leaf into a finished walk, unless its address leaves RAM. */
  function Finish(mem: Memory, la57: bool, address: u64, levels: seq<WalkLevel>, size: LeafSize)
    : Result<PageTableWalk, WalkError>
    requires levels != []
  {
    var leaf := levels[|levels| - 1].entry;
    var base := leaf.LeafAddress(size);
    var offset := address % size.Bytes();
    if base + offset >= U64_LIMIT then Err(LeafOutOfRange(base))
    else if Blocked(mem, base + offset) then Err(LeafOutOfRange(base + offset))
    else Ok(PageTableWalk(address, levels, size, base, offset, leaf, la57))
  }

  function Conclude(mem: Memory, la57: bool, address: u64, trail: Trail): Result<PageTableWalk, WalkError>
    requires trail.end.Reaches? ==> trail.levels != []
    requires !trail.end.Descends?
  {
    match trail.end
    case Fails(e) => Err(e)
    case Reaches(size) => Finish(mem, la57, address, trail.levels, size)
  }

  function Cr3Table(cr3: u64): nat {
    PageTableEntry(cr3).TableAddress()
  }

  lemma {:induction false} TrailShape(mem: Memory, address: u64, level: Level, table: nat, visited: seq<nat>)
    ensures var t := Guarded(mem, address, level, table, visited);
            !t.end.Descends? && (t.end.Reaches? ==> t.levels != [])
    ensures var t := Plain(mem, address, level, table);
            !t.end.Descends? && (t.end.Reaches? ==> t.levels != [])
    decreases 4 - level.Depth()
  {
    if Fetch(mem, level, table, address).Ok? && Judge(Fetch(mem, level, table, address).value).Descends? {
      var next := Fetch(mem, level, table, address).value.entry.TableAddress();
      TrailShape(mem, address, level.Below(), next, visited + [table]);
    }
  }

  /** The walk of `address` from CR3, as the code performs it. */
  function WalkOf(mem: Memory, la57: bool, cr3: u64, address: u64): Result<PageTableWalk, WalkError> {
    if !Canonical(address, CanonicalBits(la57)) then Err(NonCanonical(address, CanonicalBits(la57)))
    else
      TrailShape(mem, address, Top(la57), Cr3Table(cr3), []);
      Conclude(mem, la57, address, Guarded(mem, address, Top(la57), Cr3Table(cr3), []))
  }

  // -------------------------------------------------------------- field encodings ---

  /** P is bit 0 and PS bit 7. */
  lemma FlagsAreBits(raw: u64)
    ensures PageTableEntry(raw).Present() <==> And(raw, 0x1) == 0x1
    ensures PageTableEntry(raw).PageSize() <==> And(raw, 0x80) == 0x80
  {
    hide And;
    Pow2Values();
    AndFieldMask(raw, 0, 1);
    AndFieldMask(raw, 7, 1);
    assert Pow2(1) == 2 && Pow2(0) == 1;
  }

  /** The field extractions are the masks of the code. */
  lemma MasksAreFields(raw: u64)
    ensures And(raw, ENTRY_ADDRESS_MASK) == PageTableEntry(raw).LeafAddress(Page4K)
    ensures And(raw, HUGE_2M_MASK) == PageTableEntry(raw).LeafAddress(Huge2M)
    ensures And(raw, HUGE_1G_MASK) == PageTableEntry(raw).LeafAddress(Huge1G)
  {
    hide And, Pow2;
    Pow2Values();
    AndFieldMask(raw, 12, 40);
    AndFieldMask(raw, 21, 31);
    AndFieldMask(raw, 30, 22);
  }
}
