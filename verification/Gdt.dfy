/**
 Reading a global descriptor table (`descriptor.rs`; Intel SDM Vol. 3A sections 3.4.5
 and 7.2.3): 8-byte slots, some of which are the second half of a 16-byte descriptor.
 */
module Gdt {
  import opened Wrappers
  import opened Words
  import opened GuestMemory

  // ---------------------------------------------------------------- descriptors ---

  datatype SegmentDescriptor = SegmentDescriptor(
    offset: nat, raw: u64, base: nat, limit: nat, accessed: bool, readableWritable: bool,
    directionOrConforming: bool, isCode: bool, dpl: nat, present: bool, available: bool,
    longMode: bool, defaultSize32: bool, granularity4K: bool)

  datatype SystemDescriptor = SystemDescriptor(
    offset: nat, kind: nat, base: nat, limit: nat, dpl: nat, present: bool, available: bool,
    granularity4K: bool, rawLow: u64, rawHigh: Option<u64>)

  datatype GdtEntry =
    | Null(offset: nat)
    | Segment(segment: SegmentDescriptor)
    | System(system: SystemDescriptor)
    | HighHalf(offset: nat, raw: u64, lowHalfOffset: nat)
  {
    function Offset(): nat {
      match this
      case Null(o) => o
      case Segment(d) => d.offset
      case System(d) => d.offset
      case HighHalf(o, _, _) => o
    }
  }

  // The pieces of a descriptor, from bit 0 up (Intel SDM Vol. 3A section 3.4.5).

  function LimitLow(raw: u64): nat {
    raw % 0x1_0000
  }

  function BaseLow(raw: u64): nat {
    raw / 0x1_0000 % 0x1_0000
  }

  function BaseMid(raw: u64): nat {
    raw / 0x1_0000_0000 % 0x100
  }

  function Access(raw: u64): nat {
    raw / 0x100_0000_0000 % 0x100
  }

  function LimitHigh(raw: u64): nat {
    raw / 0x1_0000_0000_0000 % 0x10
  }

  /** Bits 55:52: AVL, L, D/B, G. */
  function FlagBits(raw: u64): nat {
    raw / 0x10_0000_0000_0000 % 0x10
  }

  function BaseHigh(raw: u64): nat {
    raw / 0x100_0000_0000_0000 % 0x100
  }

  function LimitField(raw: u64): nat {
    LimitHigh(raw) * 0x1_0000 + LimitLow(raw)
  }

  function BaseField(raw: u64): nat {
    BaseHigh(raw) * 0x100_0000 + BaseMid(raw) * 0x1_0000 + BaseLow(raw)
  }

  /** The limit as the CPU scales it. */
  function Scaled(field: nat, granularity4K: bool): nat {
    if granularity4K then field * 0x1000 + 0xFFF else field
  }

  function DecodeSegment(offset: nat, raw: u64): SegmentDescriptor {
    var access, flags := Access(raw), FlagBits(raw);
    SegmentDescriptor(
      offset, raw, BaseField(raw), Scaled(LimitField(raw), flags / 8 == 1),
      access % 2 == 1, access / 2 % 2 == 1, access / 4 % 2 == 1, access / 8 % 2 == 1,
      access / 32 % 4, access / 128 == 1,
      flags % 2 == 1, flags / 2 % 2 == 1, flags / 4 % 2 == 1, flags / 8 == 1)
  }

  /** The base of a two-slot descriptor takes the upper half of its second slot. */
  function DecodeSystem(offset: nat, raw: u64, high: Option<u64>): SystemDescriptor {
    var access, flags := Access(raw), FlagBits(raw);
    var upper := if high.Some? then high.value / U32_LIMIT else 0;
    SystemDescriptor(
      offset, access % 16, BaseField(raw) + upper * U32_LIMIT, Scaled(LimitField(raw), flags / 8 == 1),
      access / 32 % 4, access / 128 == 1, flags % 2 == 1, flags / 8 == 1, raw, high)
  }

  /** The `S` bit: a code or data segment, as opposed to a system descriptor. */
  predicate IsSegment(raw: u64) {
    Access(raw) / 16 % 2 == 1
  }

  /** LDT, 64-bit TSS (available or busy) and 64-bit call gate take two slots. */
  predicate TakesTwoSlots(raw: u64) {
    Access(raw) % 16 in {2, 9, 11, 12}
  }

  // --------------------------------------------------- a descriptor keeps every bit ---

  function FromBool(b: bool): nat {
    if b then 1 else 0
  }

  function Assemble(limitLow: nat, baseLow: nat, baseMid: nat, access: nat, limitHigh: nat, flags: nat,
                    baseHigh: nat): nat
  {
    limitLow + baseLow * 0x1_0000 + baseMid * 0x1_0000_0000 + access * 0x100_0000_0000
    + limitHigh * 0x1_0000_0000_0000 + flags * 0x10_0000_0000_0000 + baseHigh * 0x100_0000_0000_0000
  }

  /** The descriptor with these fields, each scattered to where it belongs. */
  function AssembleFields(limit: nat, base: nat, access: nat, flags: nat): nat {
    Assemble(limit % 0x1_0000, base % 0x1_0000, base / 0x1_0000 % 0x100, access, limit / 0x1_0000, flags,
             base / 0x100_0000)
  }

  function AccessByte(bit0: bool, bit1: bool, bit2: bool, bit3: bool, dpl: nat, bit7: bool): nat {
    FromBool(bit0) + 2 * FromBool(bit1) + 4 * FromBool(bit2) + 8 * FromBool(bit3) + 16 + 32 * dpl + 128 * FromBool(bit7)
  }

  function Nibble(bit0: bool, bit1: bool, bit2: bool, bit3: bool): nat {
    FromBool(bit0) + 2 * FromBool(bit1) + 4 * FromBool(bit2) + 8 * FromBool(bit3)
  }

  /** The raw descriptor of decoded fields (the `S` bit set). */
  function EncodeSegment(d: SegmentDescriptor): nat {
    var limit := if d.granularity4K then d.limit / 0x1000 else d.limit;
    var access := AccessByte(d.accessed, d.readableWritable, d.directionOrConforming, d.isCode, d.dpl, d.present);
    var flags := Nibble(d.available, d.longMode, d.defaultSize32, d.granularity4K);
    AssembleFields(limit, d.base, access, flags)
  }

  lemma LowDwordParts(raw: nat)
    ensures raw == raw % 0x1_0000 + raw / 0x1_0000 % 0x1_0000 * 0x1_0000 + raw / 0x1_0000_0000 * 0x1_0000_0000
  {
    DivTwice(raw, 0x1_0000, 0x1_0000);
    var a := raw / 0x1_0000;
    assert raw == raw % 0x1_0000 + 0x1_0000 * a;
    assert a == a % 0x1_0000 + 0x1_0000 * (a / 0x1_0000);
  }

  lemma HighDwordParts(half: u32)
    ensures half == half % 0x100 + half / 0x100 % 0x100 * 0x100 + half / 0x1_0000 % 0x10 * 0x1_0000
                    + half / 0x10_0000 % 0x10 * 0x10_0000 + half / 0x100_0000 * 0x100_0000
  {
    DivTwice(half, 0x100, 0x100);
    DivTwice(half, 0x1_0000, 0x10);
    DivTwice(half, 0x10_0000, 0x10);
    var a, b, c := half / 0x100, half / 0x1_0000, half / 0x10_0000;
    assert half == half % 0x100 + 0x100 * a;
    assert a == a % 0x100 + 0x100 * b;
    assert b == b % 0x10 + 0x10 * c;
    assert c == c % 0x10 + 0x10 * (half / 0x100_0000);
  }

  lemma HighDwordPieces(raw: u64)
    ensures var high := raw / 0x1_0000_0000;
            && high < U32_LIMIT
            && BaseMid(raw) == high % 0x100 && Access(raw) == high / 0x100 % 0x100
            && LimitHigh(raw) == high / 0x1_0000 % 0x10 && FlagBits(raw) == high / 0x10_0000 % 0x10
            && BaseHigh(raw) == high / 0x100_0000
  {
    DivTwice(raw, 0x1_0000_0000, 0x100);
    DivTwice(raw, 0x1_0000_0000, 0x1_0000);
    DivTwice(raw, 0x1_0000_0000, 0x10_0000);
    DivTwice(raw, 0x1_0000_0000, 0x100_0000);
  }

  lemma RawIsAssembled(raw: u64)
    ensures raw == Assemble(LimitLow(raw), BaseLow(raw), BaseMid(raw), Access(raw), LimitHigh(raw), FlagBits(raw),
                            BaseHigh(raw))
  {
    LowDwordParts(raw);
    HighDwordPieces(raw);
    HighDwordParts(raw / 0x1_0000_0000);
    hide Access, LimitHigh, FlagBits, BaseMid, BaseHigh;
  }

  lemma AccessByteParts(bit0: bool, bit1: bool, bit2: bool, bit3: bool, dpl: nat, bit7: bool)
    ensures AccessByte(bit0, bit1, bit2, bit3, dpl, bit7)
         == Nibble(bit0, bit1, bit2, bit3) + 16 * (1 + 2 * dpl + 8 * FromBool(bit7))
  {
  }

  lemma Parity(k: nat, x: nat)
    ensures (2 * k + x) % 2 == x % 2
  {
  }

  lemma SecondBit(high: nat, low: nat)
    ensures (16 * high + low) / 2 % 2 == low / 2 % 2
  {
    DivisionIsUnique(16 * high + low, 2, 8 * high + low / 2, low % 2);
    Parity(4 * high, low / 2);
  }

  lemma ThirdBit(high: nat, low: nat)
    ensures (16 * high + low) / 4 % 2 == low / 4 % 2
  {
    DivisionIsUnique(16 * high + low, 4, 4 * high + low / 4, low % 4);
    Parity(2 * high, low / 4);
  }

  lemma FourthBit(high: nat, low: nat)
    ensures (16 * high + low) / 8 % 2 == low / 8 % 2
  {
    DivisionIsUnique(16 * high + low, 8, 2 * high + low / 8, low % 8);
    Parity(high, low / 8);
  }

  lemma LowNibble(access: nat)
    ensures access % 16 % 2 == access % 2 && access % 16 / 2 % 2 == access / 2 % 2
    ensures access % 16 / 4 % 2 == access / 4 % 2 && access % 16 / 8 == access / 8 % 2
    ensures access == access % 16 + 16 * (access / 16)
  {
    var high, low := access / 16, access % 16;
    Parity(8 * high, low);
    SecondBit(high, low);
    ThirdBit(high, low);
    FourthBit(high, low);
  }

  lemma HighNibble(high: nat)
    requires high < 16 && high % 2 == 1
    ensures high == 1 + 2 * (high / 2 % 4) + 8 * FromBool(high / 8 == 1)
  {
  }

  lemma NibbleBits(flags: nat)
    requires flags < 0x10
    ensures flags == Nibble(flags % 2 == 1, flags / 2 % 2 == 1, flags / 4 % 2 == 1, flags / 8 == 1)
  {
  }

  lemma AccessBits(access: nat)
    requires access < 0x100 && access / 16 % 2 == 1
    ensures access == AccessByte(access % 2 == 1, access / 2 % 2 == 1, access / 4 % 2 == 1, access / 8 % 2 == 1,
                                 access / 32 % 4, access / 128 == 1)
  {
    LowNibble(access);
    HighNibble(access / 16);
    NibbleBits(access % 16);
    assert access / 16 / 2 == access / 32 && access / 16 / 8 == access / 128;
    AccessByteParts(access % 2 == 1, access / 2 % 2 == 1, access / 4 % 2 == 1, access / 8 % 2 == 1,
                    access / 32 % 4, access / 128 == 1);
    hide AccessByte, Nibble;
  }

  lemma Unscale(field: nat, granularity4K: bool)
    ensures (if granularity4K then Scaled(field, true) / 0x1000 else Scaled(field, false)) == field
  {
  }

  lemma Parts(low: nat, mid: nat, high: nat)
    requires low < 0x1_0000 && mid < 0x100
    ensures var b := high * 0x100_0000 + mid * 0x1_0000 + low;
            b % 0x1_0000 == low && b / 0x1_0000 % 0x100 == mid && b / 0x100_0000 == high
  {
  }

  lemma FieldParts(raw: u64)
    ensures LimitField(raw) % 0x1_0000 == LimitLow(raw) && LimitField(raw) / 0x1_0000 == LimitHigh(raw)
    ensures BaseField(raw) % 0x1_0000 == BaseLow(raw)
    ensures BaseField(raw) / 0x1_0000 % 0x100 == BaseMid(raw)
    ensures BaseField(raw) / 0x100_0000 == BaseHigh(raw)
  {
    Parts(BaseLow(raw), BaseMid(raw), BaseHigh(raw));
    DivisionIsUnique(LimitField(raw), 0x1_0000, LimitHigh(raw), LimitLow(raw));
    hide LimitHigh, BaseLow, BaseMid, BaseHigh;
  }

  /** A descriptor is its four fields. */
  lemma FieldsMakeRaw(raw: u64)
    ensures AssembleFields(LimitField(raw), BaseField(raw), Access(raw), FlagBits(raw)) == raw
  {
    RawIsAssembled(raw);
    FieldParts(raw);
    hide LimitField, BaseField, Access, FlagBits, Assemble, LimitLow, LimitHigh, BaseLow, BaseMid, BaseHigh;
  }

  lemma SegmentLimit(offset: nat, raw: u64)
    ensures var d := DecodeSegment(offset, raw);
            (if d.granularity4K then d.limit / 0x1000 else d.limit) == LimitField(raw) && d.base == BaseField(raw)
  {
    Unscale(LimitField(raw), FlagBits(raw) / 8 == 1);
    hide LimitField, BaseField, Access, FlagBits, Scaled;
  }

  lemma SegmentAttributes(offset: nat, raw: u64)
    requires IsSegment(raw)
    ensures var d := DecodeSegment(offset, raw);
            && AccessByte(d.accessed, d.readableWritable, d.directionOrConforming, d.isCode, d.dpl, d.present)
               == Access(raw)
            && Nibble(d.available, d.longMode, d.defaultSize32, d.granularity4K) == FlagBits(raw)
  {
    AccessBits(Access(raw));
    NibbleBits(FlagBits(raw));
    hide LimitField, BaseField, Access, FlagBits, AccessByte, Nibble, Scaled;
  }

  /** Decoding a segment descriptor loses nothing. */
  lemma SegmentRoundTrip(offset: nat, raw: u64)
    requires IsSegment(raw)
    ensures EncodeSegment(DecodeSegment(offset, raw)) == raw
  {
    FieldsMakeRaw(raw);
    SegmentLimit(offset, raw);
    SegmentAttributes(offset, raw);
    hide LimitField, BaseField, Access, FlagBits, AssembleFields, AccessByte, Nibble, DecodeSegment, IsSegment;
  }

  function SystemAccess(kind: nat, dpl: nat, present: bool): nat {
    kind + 32 * dpl + 128 * FromBool(present)
  }

  function SystemFlags(available: bool, unused: nat, granularity4K: bool): nat {
    FromBool(available) + 2 * unused + 8 * FromBool(granularity4K)
  }

  /** The low slot of a decoded system descriptor; `unused` is bits 54:53, which
      decoding drops. */
  function EncodeSystemLow(d: SystemDescriptor, unused: nat): nat {
    var limit := if d.granularity4K then d.limit / 0x1000 else d.limit;
    var base := d.base % U32_LIMIT;
    AssembleFields(limit, base, SystemAccess(d.kind, d.dpl, d.present),
                   SystemFlags(d.available, unused, d.granularity4K))
  }

  lemma SystemAccessBits(access: nat)
    requires access < 0x100 && access / 16 % 2 == 0
    ensures access == SystemAccess(access % 16, access / 32 % 4, access / 128 == 1)
  {
    var high := access / 16;
    assert access == access % 16 + 16 * high;
    assert high == 2 * (access / 32);
    assert access / 32 == access / 32 % 4 + 4 * (access / 128);
  }

  lemma SystemFlagBits(flags: nat)
    requires flags < 0x10
    ensures flags == SystemFlags(flags % 2 == 1, flags / 2 % 4, flags / 8 == 1)
  {
  }

  lemma BaseFits(raw: u64)
    ensures BaseField(raw) < U32_LIMIT
  {
  }

  lemma JoinedBase(low: u32, upper: nat)
    ensures (low + upper * U32_LIMIT) % U32_LIMIT == low && (low + upper * U32_LIMIT) / U32_LIMIT == upper
  {
  }

  lemma SystemLimit(offset: nat, raw: u64, high: Option<u64>)
    ensures var d := DecodeSystem(offset, raw, high);
            (if d.granularity4K then d.limit / 0x1000 else d.limit) == LimitField(raw)
  {
    Unscale(LimitField(raw), FlagBits(raw) / 8 == 1);
    hide LimitField, BaseField, Access, FlagBits, Scaled;
  }

  lemma SystemBase(offset: nat, raw: u64, high: Option<u64>)
    ensures var d := DecodeSystem(offset, raw, high);
            && d.base % U32_LIMIT == BaseField(raw)
            && d.base / U32_LIMIT == if high.Some? then high.value / U32_LIMIT else 0
  {
    BaseFits(raw);
    JoinedBase(BaseField(raw), if high.Some? then high.value / U32_LIMIT else 0);
    hide LimitField, BaseField, Access, FlagBits, Scaled;
  }

  lemma SystemAttributes(offset: nat, raw: u64, high: Option<u64>)
    requires !IsSegment(raw)
    ensures var d := DecodeSystem(offset, raw, high);
            && SystemAccess(d.kind, d.dpl, d.present) == Access(raw)
            && SystemFlags(d.available, FlagBits(raw) / 2 % 4, d.granularity4K) == FlagBits(raw)
  {
    SystemAccessBits(Access(raw));
    SystemFlagBits(FlagBits(raw));
    hide LimitField, BaseField, Access, FlagBits, SystemAccess, SystemFlags, Scaled;
  }

  /** Decoding a system descriptor loses only the two unused bits of its low slot, and
      puts the upper half of its second slot, when it has one, above its base. */
  lemma SystemRoundTrip(offset: nat, raw: u64, high: Option<u64>)
    requires !IsSegment(raw)
    ensures var d := DecodeSystem(offset, raw, high);
            && EncodeSystemLow(d, FlagBits(raw) / 2 % 4) == raw
            && d.base / U32_LIMIT == if high.Some? then high.value / U32_LIMIT else 0
  {
    FieldsMakeRaw(raw);
    SystemLimit(offset, raw, high);
    SystemBase(offset, raw, high);
    SystemAttributes(offset, raw, high);
    hide LimitField, BaseField, Access, FlagBits, AssembleFields, SystemAccess, SystemFlags, DecodeSystem, IsSegment;
  }

  /** The base of a two-slot descriptor (Intel SDM Vol. 3A section 7.2.3): bits 63:32 are
      the lower half of the second slot. */
  function SdmBase(raw: u64, high: u64): nat {
    BaseField(raw) + high % U32_LIMIT * U32_LIMIT
  }

  /** The decoded base is the architectural one exactly when both halves of the second
      slot are the same. */
  lemma BaseIsSdmIff(offset: nat, raw: u64, high: u64)
    ensures DecodeSystem(offset, raw, Some(high)).base == SdmBase(raw, high) <==> high / U32_LIMIT == high % U32_LIMIT
  {
    SystemBase(offset, raw, Some(high));
    BaseFits(raw);
    JoinedBase(BaseField(raw), high % U32_LIMIT);
    hide BaseField, Access, FlagBits, Scaled, LimitField;
  }

  lemma DecodedBase(offset: nat, raw: u64, high: u64)
    ensures DecodeSystem(offset, raw, Some(high)).base == BaseField(raw) + high / U32_LIMIT * U32_LIMIT
  {
    hide BaseField, Access, FlagBits, Scaled, LimitField;
  }

  lemma UpperDword(base: u64)
    ensures var upper := base / U32_LIMIT;
            && upper < U32_LIMIT && upper % U32_LIMIT == upper && upper / U32_LIMIT == 0
            && base == base % U32_LIMIT + upper * U32_LIMIT
  {
  }

  /** A descriptor laid out as the manual says for a base, its second slot holding nothing
      but the upper half, decodes to that base exactly when the base is below 4 GiB. */
  lemma LaidOutBaseIff(offset: nat, raw: u64, base: u64)
    requires BaseField(raw) == base % U32_LIMIT
    ensures SdmBase(raw, base / U32_LIMIT) == base
    ensures DecodeSystem(offset, raw, Some(base / U32_LIMIT)).base == base <==> base < U32_LIMIT
  {
    UpperDword(base);
    DecodedBase(offset, raw, base / U32_LIMIT);
    hide BaseField, DecodeSystem;
  }

  /** So a present 64-bit TSS in the higher half of the address space loses its upper half. */
  lemma HigherHalfTssIsLost()
    ensures var raw, high := 0x0000_8910_0000_0067, 0xFFFF_8000;
            && SdmBase(raw, high) == 0xFFFF_8000_0010_0000
            && DecodeSystem(8, raw, Some(high)).base == 0x0010_0000
  {
    assert BaseField(0x0000_8910_0000_0067) == 0x0010_0000;
    hide BaseField;
  }

  // ----------------------------------------------------------------------- the table ---

  datatype Gdt = Gdt(base: u64, limit: u32, entries: seq<GdtEntry>)

  function SlotCount(limit: u32): nat {
    (limit + 1) / 8
  }

  /** A limit is the last byte of the table: the slots are those that end within it. */
  lemma SlotsFill(limit: u32)
    ensures 8 * SlotCount(limit) <= limit + 1 < 8 * SlotCount(limit) + 8
  {
  }

  /** Offsets are truncated to 16 bits. */
  function OffsetOf(slot: nat): nat {
    8 * slot % U16_LIMIT
  }

  /** Slot `k` of the table holds `raw`. */
  predicate Holds(mem: Memory, base: nat, k: nat, raw: u64) {
    mem.readU64(base + 8 * k) == Ok(raw)
  }

  /** Entry `k` describes slot `k`, given the entries before it. */
  ghost predicate Describes(mem: Memory, base: nat, slots: nat, entries: seq<GdtEntry>, k: nat)
    requires k < |entries|
  {
    match entries[k]
    case Null(offset) => k == 0 && offset == 0 && Holds(mem, base, k, 0)
    case Segment(d) => Holds(mem, base, k, d.raw) && IsSegment(d.raw) && d == DecodeSegment(OffsetOf(k), d.raw)
    case System(d) =>
      && Holds(mem, base, k, d.rawLow) && !IsSegment(d.rawLow) && (k == 0 ==> d.rawLow != 0)
      && d == DecodeSystem(OffsetOf(k), d.rawLow, d.rawHigh)
      && (d.rawHigh.Some? <==> TakesTwoSlots(d.rawLow) && k + 1 < slots)
      && (d.rawHigh.Some? ==>
            && k + 1 < |entries|
            && entries[k + 1] == HighHalf(OffsetOf(k + 1), d.rawHigh.value, OffsetOf(k)))
    case HighHalf(_, raw, _) =>
      && Holds(mem, base, k, raw)
      && k > 0 && entries[k - 1].System? && entries[k - 1].system.rawHigh == Some(raw)
      && entries[k] == HighHalf(OffsetOf(k), raw, OffsetOf(k - 1))
  }

  /** The entries describe the first slots of the table, one entry a slot. */
  ghost predicate Tiles(mem: Memory, base: nat, slots: nat, entries: seq<GdtEntry>) {
    && |entries| <= slots
    && forall k :: 0 <= k < |entries| ==> Describes(mem, base, slots, entries, k)
  }

  lemma TilesAppend(mem: Memory, base: nat, slots: nat, entries: seq<GdtEntry>, more: seq<GdtEntry>)
    requires Tiles(mem, base, slots, entries) && |entries + more| <= slots
    requires forall k :: |entries| <= k < |entries + more| ==> Describes(mem, base, slots, entries + more, k)
    ensures Tiles(mem, base, slots, entries + more)
  {
    hide Holds, DecodeSegment, DecodeSystem, IsSegment, TakesTwoSlots, OffsetOf;
    var all := entries + more;
    forall k | 0 <= k < |entries| ensures Describes(mem, base, slots, all, k) {
      assert Describes(mem, base, slots, entries, k);
      assert all[k] == entries[k];
      assert k > 0 ==> all[k - 1] == entries[k - 1];
      assert k + 1 < |entries| ==> all[k + 1] == entries[k + 1];
    }
  }

  ghost predicate Readable(mem: Memory, base: nat, k: nat) {
    mem.readU64(base + 8 * k).Ok?
  }

  /** In RAM, a slot that comes after a readable one has a 64-bit address, and the code's
      read of it is the modelled one below a declared size of 2^64 - 1. */
  lemma SlotAddressesFit(m: map<nat, u8>, size: u64, base: u64, k: nat)
    requires k > 0 ==> Readable(RamView(m, size), base, k - 1)
    ensures base + 8 * k < U64_LIMIT
    ensures size < U64_LIMIT - 1 ==>
              ReadU64Words(m, size, base + 8 * k) == Some(RamView(m, size).readU64(base + 8 * k))
  {
    hide BytesAt, LittleEndian, Pow256;
    if size < U64_LIMIT - 1 {
      SaturationShowsInWordIff(m, size, base + 8 * k);
    }
  }

  /** Slot `k` cannot be read because of `e`, and every slot before it can. */
  ghost predicate FirstUnreadable(mem: Memory, base: nat, k: nat, e: MemoryError) {
    mem.readU64(base + 8 * k) == Err(e) && forall j :: 0 <= j < k ==> Readable(mem, base, j)
  }

  lemma TiledIsReadable(mem: Memory, base: nat, slots: nat, entries: seq<GdtEntry>)
    requires Tiles(mem, base, slots, entries)
    ensures forall k :: 0 <= k < |entries| ==> Readable(mem, base, k)
  {
    hide DecodeSegment, DecodeSystem, IsSegment, TakesTwoSlots, OffsetOf;
    forall k | 0 <= k < |entries| ensures Readable(mem, base, k) {
      assert Describes(mem, base, slots, entries, k);
    }
  }

  lemma NothingTiles(mem: Memory, base: nat, slots: nat)
    ensures Tiles(mem, base, slots, [])
  {
  }

  lemma SegmentDescribes(offset: nat, raw: u64)
    ensures DecodeSegment(offset, raw).raw == raw && DecodeSegment(offset, raw).offset == offset
  {
  }

  lemma SystemDescribes(offset: nat, raw: u64, high: Option<u64>)
    ensures var d := DecodeSystem(offset, raw, high); d.rawLow == raw && d.rawHigh == high && d.offset == offset
  {
  }

  /** `Gdt::read`. */
  method Read(mem: Memory, base: u64, limit: u32) returns (r: Result<Gdt, MemoryError>)
    ensures r.Ok? ==> r.value.base == base && r.value.limit == limit
                      && |r.value.entries| == SlotCount(limit)
                      && Tiles(mem, base, SlotCount(limit), r.value.entries)
    ensures r.Err? ==> exists k :: 0 <= k < SlotCount(limit) && FirstUnreadable(mem, base, k, r.error)
  {
    hide DecodeSegment, DecodeSystem, IsSegment, TakesTwoSlots, Tiles;
    var slots := SlotCount(limit);
    var entries: seq<GdtEntry> := [];
    NothingTiles(mem, base, slots);
    var index := 0;
    while index < slots
      invariant index == |entries| <= slots && Tiles(mem, base, slots, entries)
    {
      var address := base + 8 * index;
      var read := mem.readU64(address);
      TiledIsReadable(mem, base, slots, entries);
      if read.Err? {
        assert FirstUnreadable(mem, base, index, read.error);
        return Err(read.error);
      }
      var raw := read.value;
      if index == 0 && raw == 0 {
        TilesAppend(mem, base, slots, entries, [Null(OffsetOf(index))]);
        entries := entries + [Null(OffsetOf(index))];
        index := index + 1;
        continue;
      }
      if IsSegment(raw) {
        var segment := Segment(DecodeSegment(OffsetOf(index), raw));
        SegmentDescribes(OffsetOf(index), raw);
        TilesAppend(mem, base, slots, entries, [segment]);
        entries := entries + [segment];
        index := index + 1;
        continue;
      }
      if TakesTwoSlots(raw) && index + 1 < slots {
        var high := mem.readU64(address + 8);
        if high.Err? {
          assert address + 8 == base + 8 * (index + 1);
          assert Readable(mem, base, index) && FirstUnreadable(mem, base, index + 1, high.error);
          return Err(high.error);
        }
        var system := System(DecodeSystem(OffsetOf(index), raw, Some(high.value)));
        var half := HighHalf(OffsetOf(index + 1), high.value, OffsetOf(index));
        SystemDescribes(OffsetOf(index), raw, Some(high.value));
        assert address + 8 == base + 8 * (index + 1);
        TilesAppend(mem, base, slots, entries, [system, half]);
        entries := entries + [system, half];
        index := index + 2;
      } else {
        var system := System(DecodeSystem(OffsetOf(index), raw, None));
        SystemDescribes(OffsetOf(index), raw, None);
        TilesAppend(mem, base, slots, entries, [system]);
        entries := entries + [system];
        index := index + 1;
      }
    }
    return Ok(Gdt(base, limit, entries));
  }

  /** The first entry at an offset. */
  function EntryAt(entries: seq<GdtEntry>, offset: nat): Option<GdtEntry> {
    if entries == [] then None
    else if entries[0].Offset() == offset then Some(entries[0])
    else EntryAt(entries[1..], offset)
  }

  /** `entry_for_selector`: the entry at the selector's offset, the low three bits cut. */
  method EntryForSelector(entries: seq<GdtEntry>, selector: u16) returns (r: Option<GdtEntry>)
    ensures r == EntryAt(entries, selector / 8 * 8)
  {
    assert entries[0..] == entries;
    for k := 0 to |entries|
      invariant EntryAt(entries, selector / 8 * 8) == EntryAt(entries[k..], selector / 8 * 8)
    {
      assert entries[k..][1..] == entries[k + 1..];
      if entries[k].Offset() == selector / 8 * 8 {
        return Some(entries[k]);
      }
    }
    return None;
  }

  lemma {:induction false} EntryAtIs(entries: seq<GdtEntry>, offset: nat, k: nat)
    requires k < |entries| && entries[k].Offset() == offset
    requires forall j :: 0 <= j < k ==> entries[j].Offset() != offset
    ensures EntryAt(entries, offset) == Some(entries[k])
  {
    if k > 0 {
      assert entries[0].Offset() != offset;
      assert forall j :: 0 <= j < k - 1 ==> entries[1..][j] == entries[j + 1];
      EntryAtIs(entries[1..], offset, k - 1);
    }
  }

  lemma {:induction false} NoEntryAt(entries: seq<GdtEntry>, offset: nat)
    requires forall j :: 0 <= j < |entries| ==> entries[j].Offset() != offset
    ensures EntryAt(entries, offset) == None
  {
    if entries != [] {
      assert forall j :: 0 <= j < |entries| - 1 ==> entries[1..][j] == entries[j + 1];
      NoEntryAt(entries[1..], offset);
    }
  }

  /** In a table of at most 64 KiB entry `k` sits at offset `8 * k`, so a selector names
      the entry its upper bits index, and nothing beyond the table. */
  lemma SelectorsIndexEntries(mem: Memory, base: nat, slots: nat, entries: seq<GdtEntry>, selector: u16, k: nat)
    requires Tiles(mem, base, slots, entries) && slots <= 0x2000 && k < |entries|
    ensures entries[k].Offset() == 8 * k
    ensures entries[k].Offset() == selector / 8 * 8 <==> k == selector / 8
  {
    hide Holds, DecodeSegment, DecodeSystem, IsSegment, TakesTwoSlots;
    assert Describes(mem, base, slots, entries, k);
    if entries[k].Segment? {
      SegmentDescribes(OffsetOf(k), entries[k].segment.raw);
    } else if entries[k].System? {
      SystemDescribes(OffsetOf(k), entries[k].system.rawLow, entries[k].system.rawHigh);
    }
  }

  /** Looking a selector up in a table that was read is indexing it with the upper bits. */
  lemma SelectorLookup(mem: Memory, base: nat, entries: seq<GdtEntry>, selector: u16)
    requires Tiles(mem, base, |entries|, entries) && |entries| <= 0x2000
    ensures EntryAt(entries, selector / 8 * 8)
         == if selector / 8 < |entries| then Some(entries[selector / 8]) else None
  {
    hide Tiles, EntryAt, GdtEntry.Offset;
    forall k | 0 <= k < |entries| ensures entries[k].Offset() == selector / 8 * 8 <==> k == selector / 8 {
      SelectorsIndexEntries(mem, base, |entries|, entries, selector, k);
    }
    if selector / 8 < |entries| {
      EntryAtIs(entries, selector / 8 * 8, selector / 8);
    } else {
      NoEntryAt(entries, selector / 8 * 8);
    }
  }

  /** Every high half follows the two-slot system entry it names, and every two-slot
      system entry inside the table is followed by its high half: an LDT (type 2), a 64-bit
      TSS (9 and 11) or a 64-bit call gate (12). */
  lemma HighHalvesFollow(mem: Memory, base: nat, slots: nat, entries: seq<GdtEntry>, k: nat)
    requires Tiles(mem, base, slots, entries) && slots <= 0x2000 && k + 1 < |entries|
    ensures entries[k + 1].HighHalf? <==> entries[k].System? && entries[k].system.kind in {2, 9, 11, 12}
    ensures entries[k + 1].HighHalf? ==> entries[k + 1].lowHalfOffset == entries[k].Offset()
  {
    hide Holds, DecodeSegment, IsSegment;
    assert Describes(mem, base, slots, entries, k) && Describes(mem, base, slots, entries, k + 1);
  }
}
