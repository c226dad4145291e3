/**
 The interrupt descriptor table from both sides: the kernel that builds it
 (`fixtures/paging-kernel/idt.c`) and the reader that decodes it (`descriptor.rs`;
 Intel SDM Vol. 3A section 6.14).
 */
module Idt {
  import opened Wrappers
  import opened Words
  import opened GuestMemory

  const IDT_ENTRIES := 256
  const GDT_SELECTOR_CS := 0x08
  const IDT_GATE_INTERRUPT := 0x8E
  const GATE_SIZE := 16

  // ---------------------------------------------------------------- the kernel side ---

  /** `struct idt_entry`, packed. */
  datatype IdtEntry = IdtEntry(
    offsetLow: u16, selector: u16, ist: u8, typeAttr: u8, offsetMid: u16, offsetHigh: u32, zero: u32)

  function GateFor(handler: u64): IdtEntry {
    IdtEntry(handler % U16_LIMIT, GDT_SELECTOR_CS, 0, IDT_GATE_INTERRUPT,
             handler / 0x1_0000 % U16_LIMIT, handler / 0x1_0000_0000 % U32_LIMIT, 0)
  }

  /** The stub that serves a vector: its own below 32, the invalid-opcode stub above. */
  function StubOf(stubs: seq<u64>, vector: nat): u64
    requires |stubs| == 32
  {
    if vector < 32 then stubs[vector] else stubs[6]
  }

  class KernelIdt {
    const table: array<IdtEntry>
    var limit: nat

    constructor ()
      ensures fresh(table) && table.Length == IDT_ENTRIES
    {
      table := new IdtEntry[IDT_ENTRIES](_ => IdtEntry(0, 0, 0, 0, 0, 0, 0));
      limit := 0;
    }

    /** `set_gate`: field by field. */
    method SetGate(vector: nat, handler: u64)
      requires vector < table.Length
      modifies table
      ensures table[vector] == GateFor(handler)
      ensures forall k :: 0 <= k < table.Length && k != vector ==> table[k] == old(table[k])
    {
      table[vector] := table[vector].(offsetLow := handler % U16_LIMIT);
      table[vector] := table[vector].(selector := GDT_SELECTOR_CS);
      table[vector] := table[vector].(ist := 0);
      table[vector] := table[vector].(typeAttr := IDT_GATE_INTERRUPT);
      table[vector] := table[vector].(offsetMid := handler / 0x1_0000 % U16_LIMIT);
      table[vector] := table[vector].(offsetHigh := handler / 0x1_0000_0000 % U32_LIMIT);
      table[vector] := table[vector].(zero := 0);
    }

    /** `idt_init`: default every vector, then the dedicated stubs. */
    method Init(stubs: seq<u64>)
      requires |stubs| == 32 && table.Length == IDT_ENTRIES
      modifies this, table
      ensures limit == GATE_SIZE * IDT_ENTRIES - 1
      ensures forall v :: 0 <= v < IDT_ENTRIES ==> table[v] == GateFor(StubOf(stubs, v))
    {
      for i := 0 to IDT_ENTRIES
        invariant forall v :: 0 <= v < i ==> table[v] == GateFor(stubs[6])
      {
        SetGate(i, stubs[6]);
      }
      for i := 0 to 32
        invariant forall v :: 0 <= v < i ==> table[v] == GateFor(stubs[v])
        invariant forall v :: i <= v < IDT_ENTRIES ==> table[v] == GateFor(stubs[6])
      {
        SetGate(i, stubs[i]);
      }
      limit := GATE_SIZE * IDT_ENTRIES - 1;
    }
  }

  /** The 16 bytes of an entry in memory. */
  function EntryBytes(e: IdtEntry): (bytes: seq<u8>)
    ensures |bytes| == GATE_SIZE
  {
    LeBytes(e.offsetLow, 2) + LeBytes(e.selector, 2) + [e.ist, e.typeAttr]
    + LeBytes(e.offsetMid, 2) + LeBytes(e.offsetHigh, 4) + LeBytes(e.zero, 4)
  }

  /** The bytes of a table in memory. */
  function Image(table: seq<IdtEntry>): (bytes: seq<u8>)
    ensures |bytes| == GATE_SIZE * |table|
  {
    if table == [] then [] else Image(table[..|table| - 1]) + EntryBytes(table[|table| - 1])
  }

  // ---------------------------------------------------------------- the reader side ---

  datatype GateKind = Interrupt | Trap | Task

  datatype IdtGate = IdtGate(
    vector: nat, offset: nat, raw: seq<u8>, present: bool, dpl: nat, kind: GateKind,
    selector: nat, ist: nat, handler: nat)
  {
    predicate IsUninstalled() {
      forall b :: b in raw ==> b == 0
    }
  }

  datatype DescriptorError = MemoryFault(source: MemoryError) | InvalidGateType(descriptorType: nat)

  /** The kind a type field names; a table of zeros counts as an unused gate. */
  function KindOf(raw: seq<u8>): Option<GateKind>
    requires |raw| == GATE_SIZE
  {
    var descriptorType := raw[5] % 16;
    if descriptorType == 0xE then Some(Interrupt)
    else if descriptorType == 0xF then Some(Trap)
    else if descriptorType == 0x5 then Some(Task)
    else if forall b :: b in raw ==> b == 0 then Some(Interrupt)
    else None
  }

  /** The handler's three pieces: bits 15:0 and 63:48 of the low word, 31:0 of the high one. */
  function HandlerOf(raw: seq<u8>): nat
    requires |raw| == GATE_SIZE
  {
    var low, high := LittleEndian(raw[..8]), LittleEndian(raw[8..]);
    low % U16_LIMIT + low / 0x1_0000_0000_0000 % U16_LIMIT * 0x1_0000 + high % U32_LIMIT * 0x1_0000_0000
  }

  function DecodeGate(index: nat, raw: seq<u8>): Result<IdtGate, DescriptorError>
    requires |raw| == GATE_SIZE
  {
    match KindOf(raw)
    case None => Err(InvalidGateType(raw[5] % 16))
    case Some(kind) =>
      Ok(IdtGate(if index < 256 then index else 255, GATE_SIZE * index % U16_LIMIT, raw, raw[5] / 0x80 == 1,
                 raw[5] / 0x20 % 4, kind, LittleEndian(raw[2..4]), raw[4] % 8, HandlerOf(raw)))
  }

  datatype Idt = Idt(base: u64, limit: u32, gates: seq<IdtGate>)

  function GateCount(limit: u32): nat {
    (limit + 1) / GATE_SIZE
  }

  /** The source reads gates of whole size. */
  ghost predicate WholeReads(mem: Memory) {
    forall a: nat, n: nat :: mem.readBytes(a, n).Ok? ==> |mem.readBytes(a, n).value| == n
  }

  /** Gate `k` as read from memory. */
  ghost function GateAt(mem: Memory, base: nat, k: nat): Result<IdtGate, DescriptorError>
    requires WholeReads(mem)
  {
    var read := mem.readBytes(base + GATE_SIZE * k, GATE_SIZE);
    if read.Err? then Err(MemoryFault(read.error)) else DecodeGate(k, read.value)
  }

  function Behind(gates: seq<IdtGate>, rest: Result<seq<IdtGate>, DescriptorError>)
    : Result<seq<IdtGate>, DescriptorError>
  {
    if rest.Ok? then Ok(gates + rest.value) else rest
  }

  /** The gates from `k` on, or the first error. */
  ghost function GatesFrom(mem: Memory, base: nat, k: nat, count: nat): Result<seq<IdtGate>, DescriptorError>
    requires WholeReads(mem) && k <= count
    decreases count - k
  {
    if k == count then Ok([])
    else
      var gate := GateAt(mem, base, k);
      if gate.Err? then Err(gate.error) else Behind([gate.value], GatesFrom(mem, base, k + 1, count))
  }

  lemma BehindTwice(a: seq<IdtGate>, b: seq<IdtGate>, rest: Result<seq<IdtGate>, DescriptorError>)
    ensures Behind(a, Behind(b, rest)) == Behind(a + b, rest) && Behind([], rest) == rest
  {
    if rest.Ok? {
      assert a + (b + rest.value) == a + b + rest.value && [] + rest.value == rest.value;
    }
  }

  /** The table memory holds at `base`. */
  ghost function IdtOf(mem: Memory, base: u64, limit: u32): Result<Idt, DescriptorError>
    requires WholeReads(mem)
  {
    var gates := GatesFrom(mem, base, 0, GateCount(limit));
    if gates.Ok? then Ok(Idt(base, limit, gates.value)) else Err(gates.error)
  }

  lemma RawIsWhole(mem: Memory, address: nat, n: nat)
    requires WholeReads(mem) && mem.readBytes(address, n).Ok?
    ensures |mem.readBytes(address, n).value| == n
  {
  }

  /** In RAM, a gate that comes after a readable one has a 64-bit address, and the code's
      read of it is the modelled one below a declared size of 2^64 - 1. */
  lemma GateAddressesFit(m: map<nat, u8>, size: u64, base: u64, k: nat)
    requires k > 0 ==> RamView(m, size).readBytes(base + GATE_SIZE * (k - 1), GATE_SIZE).Ok?
    ensures base + GATE_SIZE * k < U64_LIMIT
    ensures size < U64_LIMIT - 1 ==>
              ReadBytesWords(m, size, base + GATE_SIZE * k, GATE_SIZE)
              == Some(RamView(m, size).readBytes(base + GATE_SIZE * k, GATE_SIZE))
  {
    hide BytesAt;
    if size < U64_LIMIT - 1 {
      SaturationShowsIff(m, size, base + GATE_SIZE * k, GATE_SIZE);
    }
  }

  /** `Idt::read`. */
  method Read(mem: Memory, base: u64, limit: u32) returns (r: Result<Idt, DescriptorError>)
    requires WholeReads(mem)
    ensures r == IdtOf(mem, base, limit)
  {
    hide DecodeGate, WholeReads;
    var gates: seq<IdtGate> := [];
    BehindTwice([], [], GatesFrom(mem, base, 0, GateCount(limit)));
    for index := 0 to GateCount(limit)
      invariant GatesFrom(mem, base, 0, GateCount(limit))
             == Behind(gates, GatesFrom(mem, base, index, GateCount(limit)))
    {
      var read := mem.readBytes(base + GATE_SIZE * index, GATE_SIZE);
      if read.Err? {
        return Err(MemoryFault(read.error));
      }
      RawIsWhole(mem, base + GATE_SIZE * index, GATE_SIZE);
      var gate := DecodeGate(index, read.value);
      if gate.Err? {
        return Err(gate.error);
      }
      BehindTwice(gates, [gate.value], GatesFrom(mem, base, index + 1, GateCount(limit)));
      gates := gates + [gate.value];
    }
    assert gates + [] == gates;
    return Ok(Idt(base, limit, gates));
  }

  ghost predicate FirstFailure(mem: Memory, base: nat, k: nat, j: nat, e: DescriptorError)
    requires WholeReads(mem)
  {
    GateAt(mem, base, j) == Err(e) && forall i :: k <= i < j ==> GateAt(mem, base, i).Ok?
  }

  /** What reading means: a table of exactly the gates memory holds, each at its own 16
      bytes, or the failure of the first gate that has one. */
  lemma {:induction false} GatesAreHeld(mem: Memory, base: nat, k: nat, count: nat)
    requires WholeReads(mem) && k <= count
    ensures var r := GatesFrom(mem, base, k, count);
            && (r.Ok? ==> |r.value| == count - k
                          && forall j :: k <= j < count ==> GateAt(mem, base, j) == Ok(r.value[j - k]))
            && (r.Err? ==> exists j :: k <= j < count && FirstFailure(mem, base, k, j, r.error))
    decreases count - k
  {
    hide GateAt, WholeReads;
    if k < count {
      GatesAreHeld(mem, base, k + 1, count);
      var r := GatesFrom(mem, base, k + 1, count);
      if GateAt(mem, base, k).Err? {
        assert FirstFailure(mem, base, k, k, GateAt(mem, base, k).error);
      } else if r.Err? {
        var j :| k + 1 <= j < count && FirstFailure(mem, base, k + 1, j, r.error);
        assert FirstFailure(mem, base, k, j, r.error);
      }
    }
  }

  /** `gate`: the first gate of a vector. */
  method Gate(gates: seq<IdtGate>, vector: u8) returns (r: Option<IdtGate>)
    ensures r.Some? ==> exists k :: 0 <= k < |gates| && gates[k] == r.value && r.value.vector == vector
                                    && forall j :: 0 <= j < k ==> gates[j].vector != vector
    ensures r.None? ==> forall k :: 0 <= k < |gates| ==> gates[k].vector != vector
  {
    for k := 0 to |gates|
      invariant forall j :: 0 <= j < k ==> gates[j].vector != vector
    {
      if gates[k].vector == vector {
        return Some(gates[k]);
      }
    }
    return None;
  }

  function InstalledVectors(gates: seq<IdtGate>): seq<nat> {
    if gates == [] then []
    else
      (if gates[0].present && !gates[0].IsUninstalled() then [gates[0].vector] else [])
      + InstalledVectors(gates[1..])
  }

  /** A present gate of that vector, not all zeros. */
  ghost predicate Shows(gate: IdtGate, v: nat) {
    gate.vector == v && gate.present && exists i :: 0 <= i < |gate.raw| && gate.raw[i] != 0
  }

  lemma ShowsIff(gate: IdtGate, v: nat)
    ensures Shows(gate, v) <==> gate.vector == v && gate.present && !gate.IsUninstalled()
  {
    assert forall i :: 0 <= i < |gate.raw| ==> gate.raw[i] in gate.raw;
  }

  /** The listed vectors are those of the gates that are present and not all zeros. */
  lemma {:induction false} InstalledIff(gates: seq<IdtGate>, v: nat)
    ensures v in InstalledVectors(gates) <==> exists k :: 0 <= k < |gates| && Shows(gates[k], v)
  {
    hide Shows, IdtGate.IsUninstalled;
    if gates != [] {
      InstalledIff(gates[1..], v);
      ShowsIff(gates[0], v);
      assert forall k :: 0 <= k < |gates| - 1 ==> gates[1..][k] == gates[k + 1];
    }
  }

  /** A limit is the last byte of the table: the gates are those that end within it. */
  lemma GatesFill(limit: u32)
    ensures 16 * GateCount(limit) <= limit + 1 < 16 * GateCount(limit) + 16
  {
  }

  // ------------------------------------------------------------------- the round trip ---

  /** The gate that a handler installed at `vector` must read back as. */
  function Expected(vector: nat, handler: u64): IdtGate {
    IdtGate(vector, GATE_SIZE * vector, EntryBytes(GateFor(handler)), true, 0, Interrupt, GDT_SELECTOR_CS, 0, handler)
  }

  lemma ScaleProduct(p: nat, v: nat)
    ensures Product(256 * p, v) == 256 * Product(p, v)
  {
  }

  lemma {:induction false} LittleEndianConcat(a: seq<u8>, b: seq<u8>)
    ensures LittleEndian(a + b) == LittleEndian(a) + Product(Pow256(|a|), LittleEndian(b))
  {
    if a == [] {
      assert a + b == b;
      Pow2Zero();
      hide LittleEndian;
    } else {
      hide Pow256;
      Pow256Step(|a|);
      assert (a + b)[0] == a[0] && (a + b)[1..] == a[1..] + b;
      LittleEndianConcat(a[1..], b);
      ScaleProduct(Pow256(|a| - 1), LittleEndian(b));
    }
  }

  /** The bytes between the low and middle pieces of the handler. */
  function Attributes(e: IdtEntry): seq<u8> {
    LeBytes(e.selector, 2) + [e.ist, e.typeAttr]
  }

  lemma JoinedWord(front: seq<u8>, middle: seq<u8>, back: seq<u8>)
    requires |front| == 2 && |middle| == 4 && |back| == 2
    ensures LittleEndian(front + middle + back)
         == LittleEndian(front) + 0x1_0000 * LittleEndian(middle) + 0x1_0000_0000_0000 * LittleEndian(back)
    ensures LittleEndian(front) < U16_LIMIT && LittleEndian(middle) < U32_LIMIT && LittleEndian(back) < U16_LIMIT
  {
    Pow256Values();
    LittleEndianConcat(front + middle, back);
    LittleEndianConcat(front, middle);
    hide LittleEndian, Pow256;
  }

  lemma LowBytes(e: IdtEntry)
    ensures EntryBytes(e)[..8] == LeBytes(e.offsetLow, 2) + Attributes(e) + LeBytes(e.offsetMid, 2)
  {
    hide LeBytes;
  }

  lemma TwoBytesBack(v: u16)
    ensures LittleEndian(LeBytes(v, 2)) == v
  {
    Pow256Values();
    BytesRoundTrip(v, 2);
  }

  lemma LowPieces(low: u16, middle: u32, high: u16)
    ensures var word := low + 0x1_0000 * middle + 0x1_0000_0000_0000 * high;
            word % U16_LIMIT == low && word / 0x1_0000_0000_0000 == high
  {
  }

  /** The low word of an entry: two pieces of the handler around the attributes. */
  lemma LowWord(e: IdtEntry)
    ensures var low := LittleEndian(EntryBytes(e)[..8]);
            low % U16_LIMIT == e.offsetLow && low / 0x1_0000_0000_0000 % U16_LIMIT == e.offsetMid
  {
    hide LittleEndian, LeBytes, Pow256, EntryBytes;
    LowBytes(e);
    JoinedWord(LeBytes(e.offsetLow, 2), Attributes(e), LeBytes(e.offsetMid, 2));
    TwoBytesBack(e.offsetLow);
    TwoBytesBack(e.offsetMid);
    LowPieces(e.offsetLow, LittleEndian(Attributes(e)), e.offsetMid);
  }

  function FourBytesFit(bytes: seq<u8>): (v: u32)
    requires |bytes| == 4
    ensures v == LittleEndian(bytes)
  {
    Pow256Values();
    LittleEndian(bytes)
  }

  lemma HighPieces(low: u32, high: nat)
    ensures (low + 0x1_0000_0000 * high) % U32_LIMIT == low
  {
  }

  /** For any 16 bytes at all: the handler is the little-endian word of bytes 0-1, 6-7
      and 8-11, and nothing else of the gate. */
  lemma HandlerBytes(raw: seq<u8>)
    requires |raw| == GATE_SIZE
    ensures LeBytes(HandlerOf(raw), 8) == raw[..2] + raw[6..8] + raw[8..12]
  {
    hide LittleEndian, LeBytes, Pow256;
    var bytes := raw[..2] + raw[6..8] + raw[8..12];
    assert raw[..8] == raw[..2] + raw[2..6] + raw[6..8];
    JoinedWord(raw[..2], raw[2..6], raw[6..8]);
    LowPieces(LittleEndian(raw[..2]), LittleEndian(raw[2..6]), LittleEndian(raw[6..8]));
    assert raw[8..] == raw[8..12] + raw[12..];
    LittleEndianConcat(raw[8..12], raw[12..]);
    HighPieces(FourBytesFit(raw[8..12]), LittleEndian(raw[12..]));
    LittleEndianConcat(raw[..2] + raw[6..8], raw[8..12]);
    LittleEndianConcat(raw[..2], raw[6..8]);
    Pow256Values();
    WordRoundTrip(bytes);
  }

  lemma HighWord(e: IdtEntry)
    ensures LittleEndian(EntryBytes(e)[8..]) % U32_LIMIT == e.offsetHigh
  {
    assert EntryBytes(e)[8..] == LeBytes(e.offsetHigh, 4) + LeBytes(e.zero, 4);
    LittleEndianConcat(LeBytes(e.offsetHigh, 4), LeBytes(e.zero, 4));
    Pow256Values();
    BytesRoundTrip(e.offsetHigh, 4);
    hide LittleEndian, LeBytes, Pow256, EntryBytes;
    HighPieces(e.offsetHigh, LittleEndian(LeBytes(e.zero, 4)));
  }

  lemma Pieces(handler: u64)
    ensures handler == handler % U16_LIMIT + handler / 0x1_0000 % U16_LIMIT * 0x1_0000
                       + handler / 0x1_0000_0000 % U32_LIMIT * 0x1_0000_0000
  {
    assert handler / 0x1_0000 / 0x1_0000 == handler / 0x1_0000_0000;
  }

  /** The entry of any gate: its handler in three pieces, IST in the low three bits of its
      byte, and type, DPL and P in theirs.  `ignored` is what the reader does not look at: the
      upper five bits of the IST byte, bit 4 of the attributes, and the last four bytes. */
  function AnyEntry(handler: u64, selector: u16, ist: nat, kind: GateKind, dpl: nat, present: bool,
                    ignored: (nat, bool, u32)): IdtEntry
    requires ist < 8 && dpl < 4 && ignored.0 < 32
  {
    var nibble := match kind case Interrupt => 14 case Trap => 15 case Task => 5;
    IdtEntry(handler % 0x1_0000, selector, ist + 8 * ignored.0,
             nibble + (if ignored.1 then 16 else 0) + 32 * dpl + (if present then 128 else 0),
             handler / 0x1_0000 % 0x1_0000, handler / 0x1_0000_0000, ignored.2)
  }

  lemma EntryPieces(e: IdtEntry)
    ensures var b := EntryBytes(e); LittleEndian(b[2..4]) == e.selector && b[4] == e.ist && b[5] == e.typeAttr
  {
    assert EntryBytes(e)[2..4] == LeBytes(e.selector, 2);
    TwoBytesBack(e.selector);
  }

  lemma AttributeParts(nibble: nat, bit4: bool, dpl: nat, present: bool)
    requires nibble < 16 && dpl < 4
    ensures var t := nibble + (if bit4 then 16 else 0) + 32 * dpl + (if present then 128 else 0);
            t % 16 == nibble && t / 32 % 4 == dpl && (t / 128 == 1 <==> present)
  {
  }

  lemma JoinedHandler(e: IdtEntry, handler: u64)
    requires e.offsetLow == handler % U16_LIMIT && e.offsetMid == handler / 0x1_0000 % U16_LIMIT
    requires e.offsetHigh == handler / 0x1_0000_0000
    ensures HandlerOf(EntryBytes(e)) == handler
  {
    hide EntryBytes, LittleEndian;
    LowWord(e);
    HighWord(e);
    Pieces(handler);
  }

  /** The three pieces of a handler join up again. */
  lemma HandlerRoundTrip(handler: u64)
    ensures HandlerOf(EntryBytes(GateFor(handler))) == handler
  {
    hide EntryBytes, HandlerOf;
    JoinedHandler(GateFor(handler), handler);
  }

  lemma LowThreeBits(ist: nat, above: nat)
    requires ist < 8
    ensures (ist + 8 * above) % 8 == ist
  {
  }

  lemma KindNamed(raw: seq<u8>, kind: GateKind)
    requires |raw| == GATE_SIZE
    requires raw[5] % 16 == match kind case Interrupt => 14 case Trap => 15 case Task => 5
    ensures KindOf(raw) == Some(kind)
  {
  }

  /** Decoding undoes the encoding of any gate, bit for bit; the vector stops at 255, and the
      offset wraps at 64 KiB. */
  lemma AnyGateRoundTrip(index: nat, handler: u64, selector: u16, ist: nat, kind: GateKind, dpl: nat, present: bool,
                         ignored: (nat, bool, u32))
    requires ist < 8 && dpl < 4 && ignored.0 < 32
    ensures var raw := EntryBytes(AnyEntry(handler, selector, ist, kind, dpl, present, ignored));
            var vector := if index <= 255 then index else 255;
            DecodeGate(index, raw)
            == Ok(IdtGate(vector, 16 * index % 0x1_0000, raw, present, dpl, kind, selector, ist, handler))
  {
    hide EntryBytes, LittleEndian, HandlerOf;
    var e := AnyEntry(handler, selector, ist, kind, dpl, present, ignored);
    EntryPieces(e);
    LowThreeBits(ist, ignored.0);
    AttributeParts(match kind case Interrupt => 14 case Trap => 15 case Task => 5, ignored.1, dpl, present);
    KindNamed(EntryBytes(e), kind);
    hide KindOf;
    JoinedHandler(e, handler);
  }

  lemma AttributeBytes(handler: u64)
    ensures EntryBytes(GateFor(handler))[5] == IDT_GATE_INTERRUPT
  {
    EntryPieces(GateFor(handler));
    hide EntryBytes;
  }

  /** Decoding undoes `set_gate`. */
  lemma GateRoundTrip(vector: nat, handler: u64)
    requires vector < IDT_ENTRIES
    ensures DecodeGate(vector, EntryBytes(GateFor(handler))) == Ok(Expected(vector, handler))
  {
    hide EntryBytes, DecodeGate;
    AnyGateRoundTrip(vector, handler, 8, 0, Interrupt, 0, true, (0, false, 0));
    assert AnyEntry(handler, 8, 0, Interrupt, 0, true, (0, false, 0)) == GateFor(handler);
  }

  /** The 16 bytes are refused exactly when some byte is not zero and the type is none of the
      three, and the refusal names the type; 16 zero bytes are a gate that is not installed. */
  lemma RefusedGateIff(index: nat, raw: seq<u8>)
    requires |raw| == 16
    ensures var zeros := forall k :: 0 <= k < 16 ==> raw[k] == 0;
            && (DecodeGate(index, raw).Err? <==> raw[5] % 16 !in {5, 14, 15} && !zeros)
            && (DecodeGate(index, raw).Err? ==> DecodeGate(index, raw).error == InvalidGateType(raw[5] % 16))
            && (zeros ==> !DecodeGate(index, raw).value.present && DecodeGate(index, raw).value.IsUninstalled())
  {
    hide HandlerOf, LittleEndian;
    assert forall b :: b in raw ==> exists k :: 0 <= k < 16 && raw[k] == b;
    assert forall k :: 0 <= k < 16 ==> raw[k] in raw;
  }

  ghost predicate EntryHeld(mem: Memory, base: nat, entry: IdtEntry, k: nat) {
    mem.readBytes(base + GATE_SIZE * k, GATE_SIZE) == Ok(EntryBytes(entry))
  }

  /** Memory holds the table at `base`, entry by entry. */
  ghost predicate TableHeld(mem: Memory, base: nat, table: seq<IdtEntry>) {
    forall k :: 0 <= k < |table| ==> EntryHeld(mem, base, table[k], k)
  }

  /** What `idt_init` builds from `stubs`. */
  ghost predicate BuiltFrom(table: seq<IdtEntry>, stubs: seq<u64>)
    requires |stubs| == 32
  {
    |table| == IDT_ENTRIES && forall v :: 0 <= v < IDT_ENTRIES ==> table[v] == GateFor(StubOf(stubs, v))
  }

  /** The gates a kernel built from `stubs` must read back as, vectors from `v` on. */
  function ExpectedGates(stubs: seq<u64>, v: nat): (gates: seq<IdtGate>)
    requires |stubs| == 32 && v <= IDT_ENTRIES
    ensures |gates| == IDT_ENTRIES - v
    ensures forall k :: 0 <= k < |gates| ==> gates[k] == Expected(v + k, StubOf(stubs, v + k))
    decreases IDT_ENTRIES - v
  {
    if v == IDT_ENTRIES then [] else [Expected(v, StubOf(stubs, v))] + ExpectedGates(stubs, v + 1)
  }

  function Vectors(v: nat): (vectors: seq<nat>)
    requires v <= IDT_ENTRIES
    ensures |vectors| == IDT_ENTRIES - v && forall k :: 0 <= k < |vectors| ==> vectors[k] == v + k
    decreases IDT_ENTRIES - v
  {
    if v == IDT_ENTRIES then [] else [v] + Vectors(v + 1)
  }

  lemma {:induction false} AllInstalled(stubs: seq<u64>, v: nat)
    requires |stubs| == 32 && v <= IDT_ENTRIES
    ensures InstalledVectors(ExpectedGates(stubs, v)) == Vectors(v)
    decreases IDT_ENTRIES - v
  {
    if v < IDT_ENTRIES {
      AllInstalled(stubs, v + 1);
      AttributeBytes(StubOf(stubs, v));
      var gates := ExpectedGates(stubs, v);
      assert gates[1..] == ExpectedGates(stubs, v + 1);
      assert gates[0].raw[5] in gates[0].raw;
      hide EntryBytes;
    }
  }

  /** The table the kernel builds, held in any memory, reads back gate for gate. */
  lemma {:induction false} HeldTableReadsBack(mem: Memory, base: nat, table: seq<IdtEntry>, stubs: seq<u64>, v: nat)
    requires |stubs| == 32 && BuiltFrom(table, stubs) && WholeReads(mem) && TableHeld(mem, base, table)
    requires v <= IDT_ENTRIES
    ensures GatesFrom(mem, base, v, IDT_ENTRIES) == Ok(ExpectedGates(stubs, v))
    decreases IDT_ENTRIES - v
  {
    hide DecodeGate, EntryBytes, GateFor, StubOf, Expected, WholeReads;
    if v < IDT_ENTRIES {
      assert EntryHeld(mem, base, table[v], v);
      GateRoundTrip(v, StubOf(stubs, v));
      HeldTableReadsBack(mem, base, table, stubs, v + 1);
    }
  }

  // ---------------------------------------------------------------- the table in RAM ---

  lemma {:induction false} ImageAt(table: seq<IdtEntry>, k: nat)
    requires k < |table|
    ensures Image(table)[GATE_SIZE * k..GATE_SIZE * k + GATE_SIZE] == EntryBytes(table[k])
  {
    hide EntryBytes;
    var front := table[..|table| - 1];
    if k < |front| {
      ImageAt(front, k);
      assert Image(table)[..|Image(front)|] == Image(front);
    }
  }

  /** A table stored in RAM is held there. */
  lemma StoredTableIsHeld(m: map<nat, u8>, size: u64, base: nat, table: seq<IdtEntry>)
    requires base + GATE_SIZE * |table| <= size
    ensures TableHeld(RamView(PutBytes(m, base, Image(table)), size), base, table)
    ensures WholeReads(RamView(m, size))
  {
    hide EntryBytes, Image, PutBytes, BytesAt;
    var image := Image(table);
    var mem := RamView(PutBytes(m, base, image), size);
    forall k | 0 <= k < |table| ensures EntryHeld(mem, base, table[k], k) {
      var at := base + GATE_SIZE * k;
      var bytes := BytesAt(PutBytes(m, base, image), at, GATE_SIZE);
      ImageAt(table, k);
      forall j | 0 <= j < GATE_SIZE ensures bytes[j] == EntryBytes(table[k])[j] {
        PutBytesReads(m, base, image, at + j);
        assert image[GATE_SIZE * k..GATE_SIZE * k + GATE_SIZE][j] == image[GATE_SIZE * k + j];
      }
      assert bytes == EntryBytes(table[k]);
    }
  }

  lemma TableSize(table: seq<IdtEntry>, stubs: seq<u64>)
    requires |stubs| == 32 && BuiltFrom(table, stubs)
    ensures |table| == IDT_ENTRIES
  {
  }

  /** From the stubs to the reader: the table the kernel builds, stored anywhere in RAM,
      is read at limit 4095 as 256 gates, each with the full handler of the stub that
      serves its vector, and all of them installed. */
  lemma KernelTableReadsBack(m: map<nat, u8>, size: u64, base: u64, table: seq<IdtEntry>, stubs: seq<u64>)
    requires |stubs| == 32 && BuiltFrom(table, stubs) && base + GATE_SIZE * IDT_ENTRIES <= size
    ensures var mem := RamView(PutBytes(m, base, Image(table)), size);
            && WholeReads(mem)
            && IdtOf(mem, base, GATE_SIZE * IDT_ENTRIES - 1)
               == Ok(Idt(base, GATE_SIZE * IDT_ENTRIES - 1, ExpectedGates(stubs, 0)))
    ensures InstalledVectors(ExpectedGates(stubs, 0)) == Vectors(0)
  {
    hide BuiltFrom, TableHeld, WholeReads, Image, PutBytes, RamView, ExpectedGates, GatesFrom, InstalledVectors;
    hide Vectors;
    TableSize(table, stubs);
    StoredTableIsHeld(m, size, base, table);
    StoredTableIsHeld(PutBytes(m, base, Image(table)), size, base, table);
    HeldTableReadsBack(RamView(PutBytes(m, base, Image(table)), size), base, table, stubs, 0);
    AllInstalled(stubs, 0);
  }
}
