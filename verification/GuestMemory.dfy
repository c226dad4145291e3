/** Guest physical memory (`guestmem.rs`): what a source of memory offers, and the
    sparse byte map that implements it. */
module GuestMemory {
  import opened Wrappers
  import opened Words

  datatype MemoryError =
    | NotInRam(address: nat)
    | Short(address: nat, wanted: nat, got: nat)
    | Source(address: nat, message: string)

  /** A memory source at one moment.  `isRam` is only consulted when the source
      knows its size. */
  datatype Memory = Memory(
    readU64: nat -> Result<u64, MemoryError>,
    readBytes: (nat, nat) -> Result<seq<u8>, MemoryError>,
    ramSize: Option<u64>,
    isRam: nat -> bool)

  // --------------------------------------------------------------- little endian ---

  /** How many values `n` bytes have. */
  function Pow256(n: nat): (p: nat)
    ensures p >= 1
  {
    Pow2(8 * n)
  }

  lemma Pow256Step(n: nat)
    requires n > 0
    ensures Pow256(n) == 256 * Pow256(n - 1)
  {
    Pow2By8(8 * (n - 1));
  }

  function LittleEndian(bytes: seq<u8>): (v: nat)
    ensures v < Pow256(|bytes|)
  {
    if bytes == [] then 0
    else
      Pow256Step(|bytes|);
      bytes[0] + 256 * LittleEndian(bytes[1..])
  }

  /** The low `n` bytes of `v`, least significant first. */
  function LeBytes(v: nat, n: nat): (bytes: seq<u8>)
    ensures |bytes| == n
  {
    if n == 0 then [] else [v % 256] + LeBytes(v / 256, n - 1)
  }

  lemma Pow256Values()
    ensures Pow256(1) == 0x100 && Pow256(2) == 0x1_0000 && Pow256(4) == 0x1_0000_0000
    ensures Pow256(6) == 0x1_0000_0000_0000 && Pow256(8) == U64_LIMIT
  {
    assert Pow256(0) == 1;
    hide Pow256;
    Pow256Step(1);
    Pow256Step(2);
    Pow256Step(3);
    Pow256Step(4);
    Pow256Step(5);
    Pow256Step(6);
    Pow256Step(7);
    Pow256Step(8);
  }

  lemma {:induction false} BytesRoundTrip(v: nat, n: nat)
    requires v < Pow256(n)
    ensures LittleEndian(LeBytes(v, n)) == v
  {
    hide Pow2;
    if n > 0 {
      Pow256Step(n);
      BytesRoundTrip(v / 256, n - 1);
      hide Pow256;
    } else {
      Pow2Zero();
    }
  }

  lemma LowByte(b: u8, high: nat)
    ensures (b + 256 * high) % 256 == b && (b + 256 * high) / 256 == high
  {
  }

  lemma {:induction false} WordRoundTrip(bytes: seq<u8>)
    ensures LeBytes(LittleEndian(bytes), |bytes|) == bytes
  {
    hide Pow256;
    if bytes != [] {
      WordRoundTrip(bytes[1..]);
      LowByte(bytes[0], LittleEndian(bytes[1..]));
    }
  }

  /** Byte `k` of `LeBytes` is what shifting right by `8 * k` leaves in the low byte. */
  lemma {:induction false} LeByteAt(v: nat, n: nat, k: nat)
    requires k < n
    ensures LeBytes(v, n)[k] == v / Pow256(k) % 256
  {
    if k > 0 {
      LeByteAt(v / 256, n - 1, k - 1);
      hide Pow256;
      Pow256Step(k);
      DivTwice(v, 256, Pow256(k - 1));
    } else {
      Pow2Zero();
      DivByOne(v);
    }
  }

  lemma MulSwap(a: nat, b: nat)
    ensures Product(a, 256 * b) == 256 * Product(a, b)
  {
  }

  lemma NoBytes(bytes: seq<u8>)
    requires bytes == []
    ensures LittleEndian(bytes) == 0
  {
  }

  /** Or-ing the next byte in above the bytes already read appends it. */
  lemma {:induction false} LittleEndianAppend(bytes: seq<u8>, b: u8)
    ensures LittleEndian(bytes + [b]) == LittleEndian(bytes) + Product(b, Pow256(|bytes|))
  {
    if bytes == [] {
      Pow2Zero();
      hide Pow2;
      assert bytes + [b] == [b];
      assert LittleEndian([b][1..]) == 0;
    } else {
      hide Pow256;
      assert (bytes + [b])[0] == bytes[0] && (bytes + [b])[1..] == bytes[1..] + [b];
      LittleEndianAppend(bytes[1..], b);
      Pow256Step(|bytes|);
      MulSwap(b, Pow256(|bytes| - 1));
    }
  }

  lemma {:induction false} OrCommutes(a: nat, b: nat)
    ensures Or(a, b) == Or(b, a)
    decreases a + b
  {
    if a != 0 || b != 0 {
      OrCommutes(a / 2, b / 2);
    }
  }

  lemma ShiftedIn(low: nat, b: nat, n: nat)
    requires low < Pow256(n)
    ensures Or(low, Product(b, Pow256(n))) == low + Product(b, Pow256(n))
  {
    hide Or, Pow2;
    var high := Product(b, Pow256(n));
    DivisionIsUnique(high, Pow256(n), b, 0);
    OrDisjoint(high, low, 8 * n);
    OrCommutes(low, high);
  }

  lemma ReadStep(bytes: seq<u8>, index: nat)
    requires index < |bytes|
    ensures Or(LittleEndian(bytes[..index]), Product(bytes[index], Pow256(index))) == LittleEndian(bytes[..index + 1])
  {
    hide Or, LittleEndian, Pow256, Product;
    assert bytes[..index + 1] == bytes[..index] + [bytes[index]];
    LittleEndianAppend(bytes[..index], bytes[index]);
    ShiftedIn(LittleEndian(bytes[..index]), bytes[index], index);
  }

  // -------------------------------------------------------------- the byte map ---

  /** Absent means "inside RAM, reads as zero". */
  function ByteAt(m: map<nat, u8>, address: nat): u8 {
    if address in m then m[address] else 0
  }

  function BytesAt(m: map<nat, u8>, address: nat, n: nat): (bytes: seq<u8>)
    ensures |bytes| == n && forall k :: 0 <= k < n ==> bytes[k] == ByteAt(m, address + k)
  {
    if n == 0 then [] else BytesAt(m, address, n - 1) + [ByteAt(m, address + n - 1)]
  }

  function PutBytes(m: map<nat, u8>, address: nat, data: seq<u8>): map<nat, u8> {
    if data == [] then m
    else PutBytes(m, address, data[..|data| - 1])[address + |data| - 1 := data[|data| - 1]]
  }

  /** The bytes of a write of `n` bytes that fit below `size`. */
  function Fit(size: nat, address: nat, n: nat): nat {
    Min(n, SaturatingSub(size, address))
  }

  function ReadBytesOf(m: map<nat, u8>, size: nat, address: nat, n: nat): Result<seq<u8>, MemoryError> {
    if address + n <= size then Ok(BytesAt(m, address, n))
    else if address >= size then Err(NotInRam(address))
    else Err(Short(address, n, size - address))
  }

  function ReadU64Of(m: map<nat, u8>, size: nat, address: nat): Result<u64, MemoryError> {
    match ReadBytesOf(m, size, address, 8)
    case Ok(bytes) => Pow256Values(); Ok(LittleEndian(bytes))
    case Err(e) => Err(e)
  }

  /** A read as the code computes it, with an end that saturates at 2^64 - 1; `None` is an
      address beyond 64 bits, which only a saturated end lets through. */
  function ReadBytesWords(m: map<nat, u8>, size: u64, address: u64, n: u64): Option<Result<seq<u8>, MemoryError>> {
    var end := SaturatingAdd(address, n);
    if end > size && address >= size then Some(Err(NotInRam(address)))
    else if end > size then Some(Err(Short(address, n, size - address)))
    else if n > 0 && address + n - 1 >= U64_LIMIT then None
    else Some(Ok(BytesAt(m, address, n)))
  }

  function ReadU64Words(m: map<nat, u8>, size: u64, address: u64): Option<Result<u64, MemoryError>> {
    match ReadBytesWords(m, size, address, 8)
    case None => None
    case Some(Err(e)) => Some(Err(e))
    case Some(Ok(bytes)) => Pow256Values(); Some(Ok(LittleEndian(bytes)))
  }

  /** The saturating end changes an answer exactly when the declared size is 2^64 - 1 and
      the read ends above it. */
  lemma SaturationShowsIff(m: map<nat, u8>, size: u64, address: u64, n: u64)
    ensures ReadBytesWords(m, size, address, n) == Some(ReadBytesOf(m, size, address, n))
       <==> !(size == U64_LIMIT - 1 && address + n >= U64_LIMIT)
  {
    hide BytesAt;
  }

  /** So the last byte of the address space reads as zero although it is outside a RAM of
      2^64 - 1 bytes, and two bytes from there overflow the address. */
  lemma SaturatedReadPasses()
    ensures ReadBytesWords(map[], U64_LIMIT - 1, U64_LIMIT - 1, 1) == Some(Ok([0]))
    ensures ReadBytesWords(map[], U64_LIMIT - 1, U64_LIMIT - 1, 2) == None
    ensures ReadBytesOf(map[], U64_LIMIT - 1, U64_LIMIT - 1, 1) == Err(NotInRam(U64_LIMIT - 1))
  {
    assert BytesAt(map[], U64_LIMIT - 1, 0) == [];
    assert BytesAt(map[], U64_LIMIT - 1, 1) == [0];
  }

  lemma SaturationShowsInWordIff(m: map<nat, u8>, size: u64, address: u64)
    ensures ReadU64Words(m, size, address) == Some(ReadU64Of(m, size, address))
       <==> !(size == U64_LIMIT - 1 && address + 8 >= U64_LIMIT)
  {
    hide BytesAt, LittleEndian, Pow256;
    SaturationShowsIff(m, size, address, 8);
  }

  /** The memory a byte map of `size` bytes stands for. */
  function RamView(m: map<nat, u8>, size: u64): Memory {
    Memory(a => ReadU64Of(m, size, a), (a, n) => ReadBytesOf(m, size, a, n), Some(size), a => a < size)
  }

  /** Where the bytes of a write land, and that nothing else changes. */
  lemma {:induction false} PutBytesReads(m: map<nat, u8>, address: nat, data: seq<u8>, x: nat)
    ensures ByteAt(PutBytes(m, address, data), x)
         == if address <= x < address + |data| then data[x - address] else ByteAt(m, x)
  {
    if data != [] {
      PutBytesReads(m, address, data[..|data| - 1], x);
    }
  }

  lemma ReadAfterWrite(m: map<nat, u8>, size: nat, address: nat, value: u64)
    requires address + 8 <= size
    ensures ReadU64Of(PutBytes(m, address, LeBytes(value, 8)), size, address) == Ok(value)
  {
    var data := LeBytes(value, 8);
    var m' := PutBytes(m, address, data);
    forall k | 0 <= k < 8 ensures BytesAt(m', address, 8)[k] == data[k] {
      PutBytesReads(m, address, data, address + k);
    }
    assert BytesAt(m', address, 8) == data;
    Pow256Values();
    BytesRoundTrip(value, 8);
  }

  lemma ReadElsewhere(m: map<nat, u8>, size: nat, address: nat, data: seq<u8>, x: nat)
    requires x + 8 <= address || address + |data| <= x
    ensures ReadU64Of(PutBytes(m, address, data), size, x) == ReadU64Of(m, size, x)
  {
    var m' := PutBytes(m, address, data);
    forall k | 0 <= k < 8 ensures BytesAt(m', x, 8)[k] == BytesAt(m, x, 8)[k] {
      PutBytesReads(m, address, data, x + k);
    }
    assert BytesAt(m', x, 8) == BytesAt(m, x, 8);
  }

  // ------------------------------------------------------------------- GuestRam ---

  /** The sparse byte map with its declared size. */
  class GuestRam {
    var bytes: map<nat, u8>
    const size: u64

    constructor (size: u64)
      ensures this.size == size && bytes == map[]
    {
      this.size := size;
      bytes := map[];
    }

    /** The RAM at this moment, as the walker sees it. */
    function View(): Memory
      reads this
    {
      RamView(bytes, size)
    }

    method WriteByte(address: u64, value: u8) returns (r: Result<(), MemoryError>)
      modifies this
      ensures if address < size
              then r == Ok(()) && bytes == old(bytes)[address := value]
              else r == Err(NotInRam(address)) && bytes == old(bytes)
    {
      if address >= size {
        return Err(NotInRam(address));
      }
      bytes := bytes[address := value];
      return Ok(());
    }

    /** Write byte by byte; a write that leaves RAM keeps the bytes that were inside. */
    method WriteBytes(address: u64, data: seq<u8>) returns (r: Result<(), MemoryError>)
      modifies this
      ensures var n := Fit(size, address, |data|);
              && bytes == PutBytes(old(bytes), address, data[..n])
              && r == if n == |data| then Ok(()) else Err(NotInRam(address + n))
    {
      for index := 0 to |data|
        invariant index <= Fit(size, address, |data|)
        invariant bytes == PutBytes(old(bytes), address, data[..index])
      {
        r := WriteByte(address + index, data[index]);
        if r.Err? {
          return r;
        }
        assert data[..index + 1][..index] == data[..index];
      }
      assert data[..|data|] == data;
      return Ok(());
    }

    /** Write a little-endian word by shifting its bytes out. */
    method WriteU64(address: u64, value: u64) returns (r: Result<(), MemoryError>)
      modifies this
      ensures var n := Fit(size, address, 8);
              && bytes == PutBytes(old(bytes), address, LeBytes(value, 8)[..n])
              && r == if n == 8 then Ok(()) else Err(NotInRam(address + n))
    {
      hide Pow256, LeBytes;
      ghost var data := LeBytes(value, 8);
      for index := 0 to 8
        invariant index <= Fit(size, address, 8)
        invariant bytes == PutBytes(old(bytes), address, data[..index])
      {
        LeByteAt(value, 8, index);
        r := WriteByte(address + index, value / Pow256(index) % 256);
        if r.Err? {
          return r;
        }
        assert data[..index + 1][..index] == data[..index];
      }
      return Ok(());
    }

    /** `None` is an address that does not fit in 64 bits. */
    method ReadBytes(address: u64, n: u64) returns (r: Option<Result<seq<u8>, MemoryError>>)
      ensures r == ReadBytesWords(bytes, size, address, n)
    {
      var end := SaturatingAdd(address, n);
      if end > size {
        if address >= size {
          return Some(Err(NotInRam(address)));
        }
        return Some(Err(Short(address, n, size - address)));
      }
      var out: seq<u8> := [];
      for offset := 0 to n
        invariant offset == 0 || address + offset - 1 < U64_LIMIT
        invariant out == BytesAt(bytes, address, offset)
      {
        if address + offset >= U64_LIMIT {
          return None;
        }
        out := out + [ByteAt(bytes, address + offset)];
      }
      return Some(Ok(out));
    }

    /** Read a little-endian word by or-ing shifted bytes together. */
    method ReadU64(address: u64) returns (r: Option<Result<u64, MemoryError>>)
      ensures r == ReadU64Words(bytes, size, address)
    {
      var answer := ReadBytes(address, 8);
      if answer.None? {
        return None;
      }
      var read := answer.value;
      if read.Err? {
        return Some(Err(read.error));
      }
      hide LittleEndian, BytesAt, Or, Pow256;
      assert LittleEndian(read.value[..0]) == 0 by { NoBytes(read.value[..0]); }
      var value: nat := 0;
      for index := 0 to 8
        invariant value == LittleEndian(read.value[..index])
      {
        ReadStep(read.value, index);
        value := Or(value, Product(read.value[index], Pow256(index)));
      }
      assert read.value[..8] == read.value;
      assert ReadU64Words(bytes, size, address).value.Ok?;
      return Some(Ok(value));
    }
  }
}
