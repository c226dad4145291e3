/**
 The walk of `pagetable.rs` against the walk the processor performs (Intel SDM Vol. 3A
 section 4.5).  The processor looks at P before anything else, faults on a present entry
 with a reserved bit set, and has PAT in bit 7 of a 4 KiB entry; the code looks at PS
 first, at no other reserved bit, and refuses that one.  Here is exactly when the two
 agree, for every processor.
 */
module Architecture {
  import opened Wrappers
  import opened Words
  import opened Seqs
  import opened GuestMemory
  import opened PageTable
  import opened Translation

  /** What a processor's reserved bits depend on: its physical-address width, whether
      no-execute is enabled, and whether it has 1 GiB pages. */
  datatype Cpu = Cpu(physicalBits: PhysicalBits, noExecute: bool, gigabytePages: bool)

  type PhysicalBits = n: nat | 32 <= n <= 52 witness 52

  /** A present entry with one of these bits set faults: physical-address bits the
      processor does not have, bit 63 without no-execute, PS where no page can be, and the
      bits of a huge page's address below its alignment. */
  predicate ReservedSet(cpu: Cpu, step: WalkLevel) {
    var raw := step.entry.raw;
    || Field(raw, cpu.physicalBits, 52 - cpu.physicalBits) != 0
    || (!cpu.noExecute && raw / 0x8000_0000_0000_0000 == 1)
    || (step.entry.PageSize() &&
        match step.level
        case Pml5 => true
        case Pml4 => true
        case Pdpt => !cpu.gigabytePages || raw / 0x2000 % 0x2_0000 != 0
        case Pd => raw / 0x2000 % 0x100 != 0
        case Pt => false)
  }

  /** What an entry means to the processor. */
  function SdmJudge(cpu: Cpu, step: WalkLevel): Verdict {
    if !step.entry.Present() then Fails(NotPresent(step.level, step.index, step.entry.raw))
    else if ReservedSet(cpu, step) then Fails(ReservedPageSizeBit(step.level, step.entry.raw))
    else if step.level.Pt? then Reaches(Page4K)
    else if !step.entry.PageSize() then Descends
    else Reaches(if step.level.Pdpt? then Huge1G else Huge2M)
  }

  function SdmWalk(cpu: Cpu, mem: Memory, address: u64, level: Level, table: nat): (t: Trail)
    ensures !t.end.Descends? && (t.end.Reaches? ==> t.levels != []) && !IsCycle(t.end)
    decreases 4 - level.Depth()
  {
    if Blocked(mem, table) then Trail([], Fails(TableNotInRam(level, table)))
    else
      match Fetch(mem, level, table, address)
      case Err(e) => Trail([], Fails(e))
      case Ok(step) =>
        var verdict := SdmJudge(cpu, step);
        if verdict.Descends? then
          var rest := SdmWalk(cpu, mem, address, level.Below(), step.entry.TableAddress());
          Trail([step] + rest.levels, rest.end)
        else Trail([step], verdict)
  }

  /** The processor's translation of `address` from CR3. */
  function SdmWalkOf(cpu: Cpu, mem: Memory, la57: bool, cr3: u64, address: u64): Result<PageTableWalk, WalkError> {
    if !Canonical(address, CanonicalBits(la57)) then Err(NonCanonical(address, CanonicalBits(la57)))
    else Conclude(mem, la57, address, SdmWalk(cpu, mem, address, Top(la57), Cr3Table(cr3)))
  }

  /** An entry the two read differently: absent with PS set, or present with a reserved
      bit set that the code does not refuse, or a sound 4 KiB entry with PAT set. */
  predicate Odd(cpu: Cpu, step: WalkLevel) {
    if !step.entry.Present() then step.entry.PageSize()
    else if ReservedSet(cpu, step) then !step.entry.PageSize() || step.level.HugePageAllowed()
    else step.entry.PageSize() && step.level.Pt?
  }

  predicate NoneOdd(cpu: Cpu, levels: seq<WalkLevel>) {
    forall step :: step in levels ==> !Odd(cpu, step)
  }

  predicate NoneReserved(cpu: Cpu, levels: seq<WalkLevel>) {
    forall step :: step in levels ==> !ReservedSet(cpu, step)
  }

  // ----------------------------------------------------- what the source calls reserved ---

  /** `reserved_bits_set`: bits 58:52. */
  predicate ReservedBitsSet(entry: PageTableEntry) {
    entry.raw / 0x10_0000_0000_0000 % 0x80 != 0
  }

  lemma ModThenDiv(x: nat, unit: nat, k: nat)
    requires unit >= 1 && k >= 1
    ensures unit * k >= 1 && x / unit % k == x % (unit * k) / unit
  {
    DivTwice(x, unit, k);
    var q, s := x / unit / k, x / unit % k;
    var r := s * unit + x % unit;
    assert x / unit == q * k + s;
    assert x == x / unit * unit + x % unit;
    Expand(q, k, s, unit);
    ScaleBelow(s, k, unit);
    DivisionIsUnique(x, unit * k, q, r);
    DivisionIsUnique(r, unit, s, x % unit);
  }

  /** An address field below bit 52 depends on the low 52 bits alone. */
  lemma FieldBelow52(x: nat, low: nat)
    requires low <= 52
    ensures Field(x, low, 52 - low) == x % 0x10_0000_0000_0000 / Pow2(low)
  {
    Pow2Values();
    Pow2Sum(40, 12);
    Pow2Sum(low, 52 - low);
    hide Pow2;
    ModThenDiv(x, Pow2(low), Pow2(52 - low));
  }

  /** The entry with its bits 62:52 replaced. */
  function WithHighField(entry: PageTableEntry, field: nat): PageTableEntry
    requires field < 0x800
  {
    PageTableEntry(entry.raw / 0x8000_0000_0000_0000 * 0x8000_0000_0000_0000 + field * 0x10_0000_0000_0000
                   + entry.raw % 0x10_0000_0000_0000)
  }

  lemma HighFieldParts(entry: PageTableEntry, field: nat)
    requires field < 0x800
    ensures var raw, other := entry.raw, WithHighField(entry, field).raw;
            && other % 0x10_0000_0000_0000 == raw % 0x10_0000_0000_0000
            && other / 0x8000_0000_0000_0000 == raw / 0x8000_0000_0000_0000
            && (ReservedBitsSet(WithHighField(entry, field)) <==> field % 0x80 != 0)
  {
    var h, low := entry.raw / 0x8000_0000_0000_0000, entry.raw % 0x10_0000_0000_0000;
    var other := WithHighField(entry, field).raw;
    DivisionIsUnique(other, 0x10_0000_0000_0000, h * 0x800 + field, low);
    DivisionIsUnique(other, 0x8000_0000_0000_0000, h, field * 0x10_0000_0000_0000 + low);
    DivisionIsUnique(h * 0x800 + field, 0x80, h * 0x10 + field / 0x80, field % 0x80);
  }

  lemma ModOfLow(h: nat, r: nat)
    ensures var x := h * 0x10_0000_0000_0000 + r;
            && x % 2 == r % 2 && x % 0x100 == r % 0x100
            && x % 0x20_0000 == r % 0x20_0000 && x % 0x4000_0000 == r % 0x4000_0000
  {
    var x := h * 0x10_0000_0000_0000 + r;
    DivisionIsUnique(x, 2, h * 0x8_0000_0000_0000 + r / 2, r % 2);
    DivisionIsUnique(x, 0x100, h * 0x1000_0000_0000 + r / 0x100, r % 0x100);
    DivisionIsUnique(x, 0x20_0000, h * 0x8000_0000 + r / 0x20_0000, r % 0x20_0000);
    DivisionIsUnique(x, 0x4000_0000, h * 0x40_0000 + r / 0x4000_0000, r % 0x4000_0000);
  }

  /** The bits of an entry that have a meaning lie below bit 52 or are bit 63. */
  lemma LowBits(x: nat, y: nat)
    requires x % 0x10_0000_0000_0000 == y % 0x10_0000_0000_0000
    ensures x % 2 == y % 2 && x / 0x80 % 2 == y / 0x80 % 2
    ensures x / 0x2000 % 0x100 == y / 0x2000 % 0x100 && x / 0x2000 % 0x2_0000 == y / 0x2000 % 0x2_0000
  {
    ModOfLow(x / 0x10_0000_0000_0000, x % 0x10_0000_0000_0000);
    ModOfLow(y / 0x10_0000_0000_0000, y % 0x10_0000_0000_0000);
    ModThenDiv(x, 0x80, 2);
    ModThenDiv(y, 0x80, 2);
    ModThenDiv(x, 0x2000, 0x100);
    ModThenDiv(y, 0x2000, 0x100);
    ModThenDiv(x, 0x2000, 0x2_0000);
    ModThenDiv(y, 0x2000, 0x2_0000);
  }

  /** The processor ignores bits 62:52, so the source's `reserved_bits_set`, which any
      value of them sets or clears, says nothing about a fault. */
  lemma ReservedFlagSaysNothing(cpu: Cpu, step: WalkLevel, field: nat)
    requires field < 0x800
    ensures var other := step.(entry := WithHighField(step.entry, field));
            && (ReservedSet(cpu, other) <==> ReservedSet(cpu, step))
            && (other.entry.Present() <==> step.entry.Present())
            && (ReservedBitsSet(other.entry) <==> field % 0x80 != 0)
  {
    hide Field, ReservedBitsSet;
    HighFieldParts(step.entry, field);
    LowBits(WithHighField(step.entry, field).raw, step.entry.raw);
    FieldBelow52(step.entry.raw, cpu.physicalBits);
    FieldBelow52(WithHighField(step.entry, field).raw, cpu.physicalBits);
  }

  // ---------------------------------------------------------------- the recursions ---

  lemma SdmRefusesUpperPageSize(cpu: Cpu, step: WalkLevel)
    ensures step.entry.PageSize() && (step.level.Pml5? || step.level.Pml4?) ==> ReservedSet(cpu, step)
  {
    hide Field;
  }

  lemma JudgedAlike(cpu: Cpu, step: WalkLevel)
    ensures Judge(step) == SdmJudge(cpu, step) <==> !Odd(cpu, step)
    ensures SdmJudge(cpu, step).Descends? ==> Judge(step).Descends?
    ensures Odd(cpu, step) ==> !SdmJudge(cpu, step).Descends?
    ensures SdmJudge(cpu, step) == Reaches(Page4K) ==> step.level.Pt?
  {
    hide Field;
    SdmRefusesUpperPageSize(cpu, step);
  }

  lemma NoneOddPrepended(cpu: Cpu, step: WalkLevel, rest: seq<WalkLevel>)
    ensures NoneOdd(cpu, [step] + rest) <==> !Odd(cpu, step) && NoneOdd(cpu, rest)
  {
    hide Odd;
    if NoneOdd(cpu, [step] + rest) {
      assert step in [step] + rest;
      assert forall s :: s in rest ==> s in [step] + rest;
    }
  }

  lemma NothingOdd(cpu: Cpu)
    ensures NoneOdd(cpu, [])
  {
  }

  /** The verdict on an entry, as opposed to a table that cannot be read. */
  predicate Judged(v: Verdict) {
    v.Reaches? || (v.Fails? && (v.error.NotPresent? || v.error.ReservedPageSizeBit?))
  }

  lemma NothingDescends()
    ensures AllDescend([])
  {
  }

  lemma JudgeNamesLevel(step: WalkLevel)
    ensures Judge(step).Fails? && Judge(step).error.ReservedPageSizeBit? ==> Judge(step).error.level == step.level
    ensures Judge(step).Fails? ==> !Judge(step).error.LeafOutOfRange?
  {
  }

  /** How the code's recursion ends: its upper entries descend, its last one was judged,
      and it names no level above the one it began at. */
  lemma {:induction false} PlainShape(mem: Memory, address: u64, level: Level, table: nat)
    ensures var t := Plain(mem, address, level, table);
            && AllDescend(t.levels)
            && (Judged(t.end) ==> t.levels != [] && t.end == Judge(t.levels[|t.levels| - 1]))
            && (t.end.Fails? ==> !t.end.error.LeafOutOfRange?)
            && (t.end.Fails? && t.end.error.ReservedPageSizeBit? ==> t.end.error.level.Depth() >= level.Depth())
    decreases 4 - level.Depth()
  {
    hide Judge, IndexOf, Blocked, PageTableEntry.TableAddress, AllDescend, Fetch;
    FetchShape(mem, level, table, address);
    NothingDescends();
    var fetched := Fetch(mem, level, table, address);
    if !Blocked(mem, table) && fetched.Ok? {
      var step := fetched.value;
      JudgeShape(step);
      JudgeNamesLevel(step);
      LinkedAlone(mem, address, level, table, step);
      if Judge(step).Descends? {
        PlainShape(mem, address, level.Below(), step.entry.TableAddress());
        BelowIsDeeper(level);
        DescendExtends(step, Plain(mem, address, level.Below(), step.entry.TableAddress()).levels);
      }
    }
  }

  /** How the processor's path relates to the code's: the same without an odd entry, else
      its beginning, up to and including the first odd entry, which ends it. */
  ghost predicate EndsAtFirstOdd(cpu: Cpu, plain: Trail, sdm: Trail) {
    if NoneOdd(cpu, sdm.levels) then sdm == plain
    else
      && sdm.levels != [] && sdm.levels <= plain.levels
      && var last := |sdm.levels| - 1;
         && NoneOdd(cpu, sdm.levels[..last]) && Odd(cpu, sdm.levels[last])
         && sdm.end == SdmJudge(cpu, sdm.levels[last])
  }

  /** The same behind one more entry that is not odd. */
  lemma FirstOddPrepended(cpu: Cpu, step: WalkLevel, plain: Trail, sdm: Trail)
    requires EndsAtFirstOdd(cpu, plain, sdm) && !Odd(cpu, step)
    ensures EndsAtFirstOdd(cpu, Trail([step] + plain.levels, plain.end), Trail([step] + sdm.levels, sdm.end))
  {
    hide NoneOdd, Odd, SdmJudge;
    var rest := sdm.levels;
    NoneOddPrepended(cpu, step, rest);
    if !NoneOdd(cpu, rest) {
      NoneOddPrepended(cpu, step, rest[..|rest| - 1]);
      assert ([step] + rest)[..|rest|] == [step] + rest[..|rest| - 1];
    }
  }

  lemma OddAlone(cpu: Cpu, step: WalkLevel, plain: Trail)
    requires plain.levels != [] && plain.levels[0] == step
    requires Odd(cpu, step) || (plain == Trail([step], Judge(step)) && Judge(step) == SdmJudge(cpu, step))
    ensures EndsAtFirstOdd(cpu, plain, Trail([step], SdmJudge(cpu, step)))
  {
    hide NoneOdd, Odd, SdmJudge, Judge;
    NothingOdd(cpu);
    NoneOddPrepended(cpu, step, []);
    assert [step] + [] == [step] && [step][..0] == [];
  }

  lemma NoEntry(cpu: Cpu, t: Trail)
    requires t.levels == []
    ensures EndsAtFirstOdd(cpu, t, t)
  {
  }

  /** The processor's path is the code's up to and including the first odd entry, which
      ends it; without one the two paths and their ends are the same. */
  lemma {:induction false} SdmEndsAtFirstOdd(cpu: Cpu, mem: Memory, address: u64, level: Level, table: nat)
    ensures EndsAtFirstOdd(cpu, Plain(mem, address, level, table), SdmWalk(cpu, mem, address, level, table))
    decreases 4 - level.Depth()
  {
    hide Judge, SdmJudge, IndexOf, Blocked, PageTableEntry.TableAddress, Odd, NoneOdd, Fetch, EndsAtFirstOdd;
    FetchShape(mem, level, table, address);
    var fetched := Fetch(mem, level, table, address);
    if Blocked(mem, table) || fetched.Err? {
      NoEntry(cpu, Plain(mem, address, level, table));
    } else {
      var step := fetched.value;
      JudgedAlike(cpu, step);
      JudgeShape(step);
      if SdmJudge(cpu, step).Descends? {
        var next := step.entry.TableAddress();
        SdmEndsAtFirstOdd(cpu, mem, address, level.Below(), next);
        FirstOddPrepended(cpu, step, Plain(mem, address, level.Below(), next),
                          SdmWalk(cpu, mem, address, level.Below(), next));
      } else {
        OddAlone(cpu, step, Plain(mem, address, level, table));
      }
    }
  }

  lemma OddVerdicts(cpu: Cpu, step: WalkLevel)
    requires Odd(cpu, step)
    ensures Judged(SdmJudge(cpu, step)) && !(Judge(step).Reaches? && SdmJudge(cpu, step).Reaches?)
    ensures Judge(step).Descends? ==> SdmJudge(cpu, step) == Fails(ReservedPageSizeBit(step.level, step.entry.raw))
  {
    hide ReservedSet;
  }

  /** Where the processor meets an odd entry, the two end differently, and not both at a
      page. */
  lemma {:induction false} OddEndsApart(cpu: Cpu, mem: Memory, address: u64, level: Level, table: nat)
    requires !NoneOdd(cpu, SdmWalk(cpu, mem, address, level, table).levels)
    ensures var plain, sdm := Plain(mem, address, level, table).end, SdmWalk(cpu, mem, address, level, table).end;
            && plain != sdm && Judged(sdm) && !(plain.Reaches? && sdm.Reaches?)
    decreases 4 - level.Depth()
  {
    hide Judge, SdmJudge, IndexOf, Blocked, PageTableEntry.TableAddress, Odd, NoneOdd, Fetch;
    FetchShape(mem, level, table, address);
    NothingOdd(cpu);
    var step := Fetch(mem, level, table, address).value;
    JudgedAlike(cpu, step);
    JudgeShape(step);
    if SdmJudge(cpu, step).Descends? {
      NoneOddPrepended(cpu, step, SdmWalk(cpu, mem, address, level.Below(), step.entry.TableAddress()).levels);
      OddEndsApart(cpu, mem, address, level.Below(), step.entry.TableAddress());
    } else {
      NoneOddPrepended(cpu, step, []);
      assert [step] + [] == [step];
      OddVerdicts(cpu, step);
      if Judge(step).Descends? {
        PlainShape(mem, address, level.Below(), step.entry.TableAddress());
        BelowIsDeeper(level);
      }
    }
  }

  /** The code's recursion is the processor's exactly when the processor meets no odd
      entry. */
  lemma PlainIsSdm(cpu: Cpu, mem: Memory, address: u64, level: Level, table: nat)
    ensures Plain(mem, address, level, table) == SdmWalk(cpu, mem, address, level, table)
       <==> NoneOdd(cpu, SdmWalk(cpu, mem, address, level, table).levels)
  {
    hide Plain, SdmWalk, NoneOdd;
    SdmEndsAtFirstOdd(cpu, mem, address, level, table);
    if !NoneOdd(cpu, SdmWalk(cpu, mem, address, level, table).levels) {
      OddEndsApart(cpu, mem, address, level, table);
    }
  }

  // --------------------------------------------------------------- the whole walk ---

  lemma ConcludedApart(mem: Memory, la57: bool, address: u64, a: Trail, b: Trail)
    requires !a.end.Descends? && (a.end.Reaches? ==> a.levels != [])
    requires !b.end.Descends? && (b.end.Reaches? ==> b.levels != [])
    requires a.end != b.end && !(a.end.Reaches? && b.end.Reaches?)
    requires (a.end.Fails? ==> !a.end.error.LeafOutOfRange?) && (b.end.Fails? ==> !b.end.error.LeafOutOfRange?)
    ensures Conclude(mem, la57, address, a) != Conclude(mem, la57, address, b)
  {
    hide PageTableEntry.LeafAddress, Blocked;
  }

  lemma NeverCycle(mem: Memory, la57: bool, address: u64, t: Trail)
    requires !t.end.Descends? && (t.end.Reaches? ==> t.levels != []) && !IsCycle(t.end)
    ensures var r := Conclude(mem, la57, address, t); r.Err? ==> !r.error.Cycle?
  {
    hide PageTableEntry.LeafAddress, Blocked;
  }

  lemma ConcludedCycle(mem: Memory, la57: bool, address: u64, t: Trail)
    requires IsCycle(t.end)
    ensures var r := Conclude(mem, la57, address, t); r.Err? && r.error.Cycle?
  {
  }

  /** `walk` gives the processor's answer exactly when the address is not canonical, or
      the chain of tables does not repeat and the processor meets no odd entry. */
  lemma WalkIsSdmIff(cpu: Cpu, mem: Memory, la57: bool, cr3: u64, address: u64)
    ensures WalkOf(mem, la57, cr3, address) == SdmWalkOf(cpu, mem, la57, cr3, address)
       <==> (Canonical(address, CanonicalBits(la57)) ==>
               && Distinct(Tables(mem, address, Top(la57), Cr3Table(cr3)))
               && NoneOdd(cpu, SdmWalk(cpu, mem, address, Top(la57), Cr3Table(cr3)).levels))
  {
    hide Canonical, Guarded, Plain, SdmWalk, Tables, Conclude, NoneOdd, Distinct;
    var table := Cr3Table(cr3);
    TrailShape(mem, address, Top(la57), table, []);
    CycleIffTablesRepeat(mem, address, Top(la57), table, []);
    RepeatIffNotDistinct(Tables(mem, address, Top(la57), table));
    PlainIsSdm(cpu, mem, address, Top(la57), table);
    if Canonical(address, CanonicalBits(la57)) {
      var guarded := Guarded(mem, address, Top(la57), table, []);
      var sdm := SdmWalk(cpu, mem, address, Top(la57), table);
      NeverCycle(mem, la57, address, sdm);
      if IsCycle(guarded.end) {
        ConcludedCycle(mem, la57, address, guarded);
      } else {
        GuardedRefinesPlain(mem, address, Top(la57), table, []);
        PlainShape(mem, address, Top(la57), table);
        if !NoneOdd(cpu, sdm.levels) {
          OddEndsApart(cpu, mem, address, Top(la57), table);
          ConcludedApart(mem, la57, address, guarded, sdm);
        }
      }
    }
  }

  // -------------------------------------------------------------- the ways to differ ---

  /** The trail behind a walk that ended in no cycle. */
  lemma WalkedPlain(mem: Memory, la57: bool, cr3: u64, address: u64)
    requires Canonical(address, CanonicalBits(la57))
    requires var r := WalkOf(mem, la57, cr3, address); r.Err? ==> !r.error.Cycle?
    ensures var t := Plain(mem, address, Top(la57), Cr3Table(cr3));
            && !t.end.Descends? && (t.end.Reaches? ==> t.levels != [])
            && WalkOf(mem, la57, cr3, address) == Conclude(mem, la57, address, t)
  {
    hide Canonical, Guarded, Plain;
    TrailShape(mem, address, Top(la57), Cr3Table(cr3), []);
    if IsCycle(Guarded(mem, address, Top(la57), Cr3Table(cr3), []).end) {
      ConcludedCycle(mem, la57, address, Guarded(mem, address, Top(la57), Cr3Table(cr3), []));
    } else {
      GuardedRefinesPlain(mem, address, Top(la57), Cr3Table(cr3), []);
    }
  }

  lemma ReachedWhole(mem: Memory, la57: bool, address: u64, t: Trail, w: PageTableWalk)
    requires !t.end.Descends? && (t.end.Reaches? ==> t.levels != [])
    requires Conclude(mem, la57, address, t) == Ok(w)
    ensures t.levels != [] && t.end == Reaches(w.leafSize) && t.levels == w.levels
    ensures w.leaf == w.levels[|w.levels| - 1].entry
  {
    hide PageTableEntry.LeafAddress, Blocked;
  }

  /** On a path to a leaf an entry is odd exactly when it is absent or has a reserved bit
      set. */
  lemma OddOnPath(cpu: Cpu, step: WalkLevel)
    requires !Judge(step).Fails?
    ensures Odd(cpu, step) <==> !step.entry.Present() || ReservedSet(cpu, step)
    ensures Judge(step).Descends? ==> step.entry.Present()
  {
    hide ReservedSet;
  }

  lemma PathVerdicts(levels: seq<WalkLevel>, size: LeafSize)
    requires levels != [] && AllDescend(levels) && Judge(levels[|levels| - 1]) == Reaches(size)
    ensures forall step :: step in levels ==> !Judge(step).Fails?
    ensures forall k :: 0 <= k < |levels| - 1 ==> Judge(levels[k]).Descends?
  {
    hide Judge;
  }

  lemma CanonicalWalked(mem: Memory, la57: bool, cr3: u64, address: u64)
    requires var r := WalkOf(mem, la57, cr3, address); r.Err? ==> !r.error.NonCanonical?
    ensures Canonical(address, CanonicalBits(la57))
  {
    hide Canonical;
  }

  lemma ConcludedFailure(mem: Memory, la57: bool, address: u64, t: Trail)
    requires t.end.Fails?
    ensures Conclude(mem, la57, address, t) == Err(t.end.error)
  {
  }

  /** The odd entries of a path lie among the entries the processor reads, up to the
      first. */
  lemma OddAmong(cpu: Cpu, levels: seq<WalkLevel>, part: seq<WalkLevel>)
    requires part <= levels
    requires NoneOdd(cpu, part) ==> part == levels
    requires NoneOdd(cpu, part) || part != []
    ensures NoneOdd(cpu, part) <==> NoneOdd(cpu, levels)
    ensures NoneOdd(cpu, levels) <==> forall step :: step in levels ==> !Odd(cpu, step)
  {
    hide Odd;
    forall step | step in part ensures step in levels {
      var k :| 0 <= k < |part| && part[k] == step;
      assert levels[k] == step;
    }
  }

  /** A finished walk is the processor's exactly when its leaf is present and no entry on
      its path has a reserved bit set; otherwise the processor faults. */
  lemma FinishedWalkIsSdmIff(cpu: Cpu, mem: Memory, la57: bool, cr3: u64, address: u64, w: PageTableWalk)
    requires WalkOf(mem, la57, cr3, address) == Ok(w)
    ensures SdmWalkOf(cpu, mem, la57, cr3, address) == Ok(w) <==> w.leaf.Present() && NoneReserved(cpu, w.levels)
    ensures SdmWalkOf(cpu, mem, la57, cr3, address) == Ok(w)
         || (var r := SdmWalkOf(cpu, mem, la57, cr3, address);
             r.Err? && (r.error.NotPresent? || r.error.ReservedPageSizeBit?))
  {
    hide Canonical, Guarded, Plain, SdmWalk, Conclude, Judge, SdmJudge, Odd, NoneOdd, ReservedSet;
    var table := Cr3Table(cr3);
    CanonicalWalked(mem, la57, cr3, address);
    WalkedPlain(mem, la57, cr3, address);
    PlainShape(mem, address, Top(la57), table);
    var plain, sdm := Plain(mem, address, Top(la57), table), SdmWalk(cpu, mem, address, Top(la57), table);
    ReachedWhole(mem, la57, address, plain, w);
    PathVerdicts(w.levels, w.leafSize);
    SdmEndsAtFirstOdd(cpu, mem, address, Top(la57), table);
    forall step | step in w.levels
      ensures Odd(cpu, step) <==> !step.entry.Present() || ReservedSet(cpu, step)
      ensures Judge(step).Descends? ==> step.entry.Present()
    {
      OddOnPath(cpu, step);
    }
    OddAmong(cpu, w.levels, sdm.levels);
    if !NoneOdd(cpu, sdm.levels) {
      OddEndsApart(cpu, mem, address, Top(la57), table);
      ConcludedFailure(mem, la57, address, sdm);
    }
  }

  lemma RefusedAtLast(mem: Memory, la57: bool, address: u64, t: Trail, level: Level, raw: u64)
    requires !t.end.Descends? && (t.end.Reaches? ==> t.levels != [])
    requires Conclude(mem, la57, address, t) == Err(ReservedPageSizeBit(level, raw))
    ensures t.end == Fails(ReservedPageSizeBit(level, raw))
  {
    hide PageTableEntry.LeafAddress, Blocked;
  }

  lemma RefusedStep(cpu: Cpu, step: WalkLevel, level: Level, raw: u64)
    requires Judge(step) == Fails(ReservedPageSizeBit(level, raw))
    ensures step.level == level && step.entry.raw == raw
    ensures SdmJudge(cpu, step) == Reaches(Page4K) <==> level.Pt? && step.entry.Present() && !ReservedSet(cpu, step)
    ensures SdmJudge(cpu, step) == Reaches(Page4K) ==> Odd(cpu, step)
  {
    hide ReservedSet;
  }

  lemma RefusedPath(cpu: Cpu, levels: seq<WalkLevel>, sdm: Trail, level: Level, raw: u64)
    requires levels != [] && AllDescend(levels)
    requires Judge(levels[|levels| - 1]) == Fails(ReservedPageSizeBit(level, raw))
    requires EndsAtFirstOdd(cpu, Trail(levels, Fails(ReservedPageSizeBit(level, raw))), sdm)
    ensures sdm.end == Reaches(Page4K) <==> level.Pt? && PageTableEntry(raw).Present() && NoneReserved(cpu, levels)
  {
    hide Judge, SdmJudge, Odd, ReservedSet;
    var top := |levels| - 1;
    RefusedStep(cpu, levels[top], level, raw);
    assert PageTableEntry(raw) == levels[top].entry;
    forall k | 0 <= k < top
      ensures Odd(cpu, levels[k]) <==> ReservedSet(cpu, levels[k])
      ensures SdmJudge(cpu, levels[k]) != Reaches(Page4K)
    {
      OddOnPath(cpu, levels[k]);
      JudgeShape(levels[k]);
      JudgedAlike(cpu, levels[k]);
    }
    assert NoneReserved(cpu, levels) <==> forall k :: 0 <= k <= top ==> !ReservedSet(cpu, levels[k]);
    if !NoneOdd(cpu, sdm.levels) {
      var last := |sdm.levels| - 1;
      assert sdm.levels[last] == levels[last];
      var before := sdm.levels[..last];
      assert forall k :: 0 <= k < last ==> before[k] == levels[k] && before[k] in before;
    } else {
      assert levels[top] in levels;
    }
  }

  /** Where the walk refuses an entry for its bit 7, the processor maps the page exactly
      when it is a present 4 KiB entry and no entry on the path has a reserved bit set:
      there the bit is PAT. */
  lemma RefusedBitSeven(cpu: Cpu, mem: Memory, la57: bool, cr3: u64, address: u64, level: Level, raw: u64)
    requires WalkOf(mem, la57, cr3, address) == Err(ReservedPageSizeBit(level, raw))
    ensures var levels := Plain(mem, address, Top(la57), Cr3Table(cr3)).levels;
            SdmWalk(cpu, mem, address, Top(la57), Cr3Table(cr3)).end == Reaches(Page4K)
            <==> level.Pt? && PageTableEntry(raw).Present() && NoneReserved(cpu, levels)
  {
    hide Canonical, Guarded, Plain, SdmWalk, Conclude, Judge, SdmJudge, Odd, NoneOdd, ReservedSet, AllDescend;
    var table := Cr3Table(cr3);
    CanonicalWalked(mem, la57, cr3, address);
    WalkedPlain(mem, la57, cr3, address);
    PlainShape(mem, address, Top(la57), table);
    var plain, sdm := Plain(mem, address, Top(la57), table), SdmWalk(cpu, mem, address, Top(la57), table);
    RefusedAtLast(mem, la57, address, plain, level, raw);
    SdmEndsAtFirstOdd(cpu, mem, address, Top(la57), table);
    RefusedPath(cpu, plain.levels, sdm, level, raw);
  }
}
