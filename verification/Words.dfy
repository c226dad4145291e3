/** Machine words as bounded naturals, and the bitwise operators on them. */
module Words {
  const U16_LIMIT := 0x1_0000
  const U32_LIMIT := 0x1_0000_0000
  const U64_LIMIT := 0x1_0000_0000_0000_0000

  type u8 = x: nat | x < 0x100
  type u16 = x: nat | x < U16_LIMIT
  type u32 = x: nat | x < U32_LIMIT
  type u64 = x: nat | x < U64_LIMIT

  function Min(a: nat, b: nat): nat {
    if a <= b then a else b
  }

  function SaturatingAdd(a: u64, b: u64): u64 {
    if a + b < U64_LIMIT then a + b else U64_LIMIT - 1
  }

  function Product(a: nat, b: nat): nat {
    a * b
  }

  function SaturatingMul(a: nat, b: nat): u64 {
    var product := Product(a, b);
    if product < U64_LIMIT then product else U64_LIMIT - 1
  }

  function SaturatingSub(a: nat, b: nat): nat {
    if a >= b then a - b else 0
  }

  // ------------------------------------------------------------ bitwise operators ---

  function Pow2(n: nat): (p: nat)
    ensures p >= 1
  {
    if n == 0 then 1 else 2 * Pow2(n - 1)
  }

  lemma MulDouble(a: nat, b: nat)
    ensures a * (2 * b) == 2 * (a * b) && a * b >= 0
  {
  }

  lemma {:induction false} Pow2Sum(a: nat, b: nat)
    ensures Pow2(a + b) == Pow2(a) * Pow2(b)
  {
    if a > 0 {
      Pow2Sum(a - 1, b);
      MulDouble(Pow2(b), Pow2(a - 1));
    }
  }

  lemma Pow2Zero()
    ensures Pow2(0) == 1
  {
  }

  lemma DivByOne(x: nat)
    ensures x / 1 == x
  {
  }

  lemma Pow2By4(n: nat)
    ensures Pow2(n + 4) == 16 * Pow2(n)
  {
    assert Pow2(n + 2) == 4 * Pow2(n);
  }

  lemma Pow2By8(n: nat)
    ensures Pow2(n + 8) == 256 * Pow2(n)
  {
    Pow2By4(n);
    Pow2By4(n + 4);
  }

  lemma Pow2Values()
    ensures Pow2(7) == 0x80 && Pow2(12) == 0x1000 && Pow2(16) == 0x1_0000
    ensures Pow2(21) == 0x20_0000 && Pow2(22) == 0x40_0000 && Pow2(30) == 0x4000_0000
    ensures Pow2(31) == 0x8000_0000 && Pow2(40) == 0x100_0000_0000
  {
    assert Pow2(1) == 2 && Pow2(2) == 4 && Pow2(3) == 8 && Pow2(4) == 16 && Pow2(5) == 32;
    Pow2Sum(5, 2);
    Pow2Sum(7, 5);
    Pow2Sum(12, 4);
    Pow2Sum(16, 5);
    Pow2Sum(21, 1);
    Pow2Sum(16, 14);
    Pow2Sum(7, 7);
    Pow2Sum(30, 1);
    Pow2Sum(30, 10);
    Pow2Sum(5, 5);
  }

  /** `a & b`, bit by bit. */
  function And(a: nat, b: nat): nat {
    if a == 0 || b == 0 then 0
    else 2 * And(a / 2, b / 2) + if a % 2 == 1 && b % 2 == 1 then 1 else 0
  }

  /** `a | b`, bit by bit. */
  function Or(a: nat, b: nat): nat
    decreases a + b
  {
    if a == 0 && b == 0 then 0
    else 2 * Or(a / 2, b / 2) + if a % 2 == 1 || b % 2 == 1 then 1 else 0
  }

  /** `x >> n`. */
  function Shr(x: nat, n: nat): nat {
    if n == 0 then x else Shr(x / 2, n - 1)
  }

  /** Bit `k` of `x`. */
  predicate Bit(x: nat, k: nat) {
    Shr(x, k) % 2 == 1
  }

  /** `(x >> low) & (2^width - 1)`. */
  function Field(x: nat, low: nat, width: nat): nat {
    x / Pow2(low) % Pow2(width)
  }

  lemma AtLeastOnce(d: int, b: nat)
    ensures d >= 1 ==> d * b >= b
  {
  }

  lemma DivisionIsUnique(a: nat, b: nat, q: nat, r: nat)
    requires b >= 1 && a == q * b + r && r < b
    ensures q == a / b && r == a % b
  {
    var d := a / b - q;
    assert a == a / b * b + a % b;
    assert d * b == r - a % b;
    AtLeastOnce(d, b);
    AtLeastOnce(-d, b);
  }

  lemma Distribute(a: nat, b: nat, c: nat)
    ensures a * (b + c) == a * b + a * c
  {
  }

  lemma Expand(q: nat, k: nat, r: nat, unit: nat)
    ensures (q * k + r) * unit == q * (unit * k) + r * unit
  {
    assert q * (unit * k) == q * k * unit;
  }

  lemma ScaleBelow(r: nat, k: nat, unit: nat)
    requires r < k
    ensures r * unit + unit <= unit * k && r * unit >= 0
  {
    var d := k - r;
    assert unit * k == unit * r + unit * d;
    AtLeastOnce(d, unit);
  }

  /** Dividing twice is dividing by the product. */
  lemma DivTwice(x: nat, unit: nat, k: nat)
    requires unit >= 1 && k >= 1
    ensures unit * k >= 1 && x / (unit * k) == x / unit / k
  {
    var q, r := x / unit / k, x / unit % k;
    assert x / unit == q * k + r;
    assert x == x / unit * unit + x % unit;
    Expand(q, k, r, unit);
    ScaleBelow(r, k, unit);
    DivisionIsUnique(x, unit * k, q, r * unit + x % unit);
  }

  lemma ModByDouble(x: nat, p: nat)
    requires p >= 1
    ensures x % (2 * p) == 2 * (x / 2 % p) + x % 2
    ensures x / (2 * p) == x / 2 / p
  {
    var q, r := x / 2 / p, x / 2 % p;
    assert x / 2 == q * p + r;
    assert x == q * (2 * p) + (2 * r + x % 2);
    DivisionIsUnique(x, 2 * p, q, 2 * r + x % 2);
  }

  lemma {:induction false} ShrIsDiv(x: nat, n: nat)
    ensures Shr(x, n) == x / Pow2(n)
  {
    if n > 0 {
      ShrIsDiv(x / 2, n - 1);
      ModByDouble(x, Pow2(n - 1));
    }
  }

  lemma {:induction false} ShrSum(x: nat, a: nat, b: nat)
    ensures Shr(x, a + b) == Shr(Shr(x, a), b)
  {
    if a > 0 {
      ShrSum(x / 2, a - 1, b);
    }
  }

  ghost predicate AllBits(t: nat, width: nat, value: bool) {
    forall k :: 0 <= k < width ==> (Bit(t, k) <==> value)
  }

  /** A `width`-bit number with all bits clear is zero, with all bits set the maximum. */
  lemma {:induction false} UniformBits(t: nat, width: nat, value: bool)
    requires t < Pow2(width)
    ensures AllBits(t, width, value) <==> t == if value then Pow2(width) - 1 else 0
  {
    if width > 0 {
      UniformBits(t / 2, width - 1, value);
      forall k: nat ensures Bit(t, k + 1) <==> Bit(t / 2, k) {}
      assert Bit(t, 0) <==> t % 2 == 1;
      if AllBits(t, width, value) {
        forall k | 0 <= k < width - 1 ensures Bit(t / 2, k) <==> value {
          assert Bit(t, k + 1) <==> Bit(t / 2, k);
        }
      } else if AllBits(t / 2, width - 1, value) && (Bit(t, 0) <==> value) {
        forall k | 0 <= k < width ensures Bit(t, k) <==> value {
          if k > 0 {
            assert Bit(t, k - 1 + 1) <==> Bit(t / 2, k - 1);
          }
        }
      }
    }
  }

  lemma AndNothing(x: nat)
    ensures And(x, 0) == 0 && x % 1 == 0
  {
  }

  lemma Pow2Double(n: nat)
    requires n > 0
    ensures Pow2(n) == 2 * Pow2(n - 1)
  {
  }

  lemma AndOdd(x: nat, m: nat)
    ensures And(x, 2 * m + 1) == 2 * And(x / 2, m) + x % 2
  {
    assert (2 * m + 1) / 2 == m && (2 * m + 1) % 2 == 1;
  }

  /** Masking the low `width` bits is the remainder by `2^width`. */
  lemma {:induction false} AndLowMask(x: nat, width: nat)
    ensures And(x, Pow2(width) - 1) == x % Pow2(width)
  {
    hide And;
    if width > 0 {
      var p := Pow2(width - 1);
      AndLowMask(x / 2, width - 1);
      hide Pow2;
      Pow2Double(width);
      ModByDouble(x, p);
      AndOdd(x, p - 1);
    } else {
      AndNothing(x);
    }
  }

  lemma AndDouble(x: nat, m: nat)
    ensures And(x, 2 * m) == 2 * And(x / 2, m)
  {
    assert 2 * m / 2 == m && 2 * m % 2 == 0;
  }

  /** Masking `width` bits from bit `low` on picks that field and leaves it in place. */
  lemma {:induction false} AndFieldMask(x: nat, low: nat, width: nat)
    ensures And(x, (Pow2(width) - 1) * Pow2(low)) == Field(x, low, width) * Pow2(low)
  {
    if low == 0 {
      AndLowMask(x, width);
    } else {
      var p := Pow2(low - 1);
      var g := Field(x / 2, low - 1, width);
      AndFieldMask(x / 2, low - 1, width);
      ModByDouble(x, p);
      MulDouble(Pow2(width) - 1, p);
      MulDouble(g, p);
      AndDouble(x, (Pow2(width) - 1) * p);
    }
  }

  lemma {:induction false} OrZero(a: nat)
    ensures Or(a, 0) == a
  {
    if a > 0 {
      OrZero(a / 2);
    }
  }

  /** `|` of a multiple of `2^k` with a number below `2^k` is their sum. */
  lemma {:induction false} OrDisjoint(a: nat, b: nat, k: nat)
    requires a % Pow2(k) == 0 && b < Pow2(k)
    ensures Or(a, b) == a + b
    decreases k
  {
    if k == 0 {
      OrZero(a);
    } else {
      ModByDouble(a, Pow2(k - 1));
      OrDisjoint(a / 2, b / 2, k - 1);
    }
  }
}
