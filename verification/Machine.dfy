/**
 Go's fixed-width integers, as the generated code uses them: 64-bit `int` and
 `uint64` with wrap-around, the `int32` conversion, and the bit operators.
 Values are unbounded integers kept in range by subset types; every operation
 that can wrap in Go wraps explicitly here.
 */
module Machine {

  const TWO_32: int := 0x1_0000_0000
  const TWO_63: int := 0x8000_0000_0000_0000
  const TWO_64: int := 0x1_0000_0000_0000_0000

  /** The largest Go `int`, and so the length of the longest slice. */
  const MAX_INT: int := 0x7FFF_FFFF_FFFF_FFFF

  type byte = x: int | 0 <= x < 256
  type uint64 = x: int | 0 <= x < TWO_64
  type int64 = x: int | -TWO_63 <= x < TWO_63

  /** The `int` that a Go addition leaves behind. */
  function Wrap(x: int): (r: int64)
    ensures (r - x) % TWO_64 == 0
  {
    (x + TWO_63) % TWO_64 - TWO_63
  }

  /** `int(u)`: the same 64 bits, read as a signed number. */
  function ToInt(u: uint64): (r: int64)
    ensures (r - u) % TWO_64 == 0
  {
    if u < TWO_63 then u else u - TWO_64
  }

  /** `uint64(i)`. */
  function ToUint(i: int64): (r: uint64)
    ensures (r - i) % TWO_64 == 0
  {
    if i >= 0 then i else i + TWO_64
  }

  /** `int32(u)`: the low 32 bits, read as a signed number. */
  function Int32(u: uint64): (r: int)
    ensures -0x8000_0000 <= r < 0x8000_0000 && (r - u) % TWO_32 == 0
  {
    var low := u % TWO_32;
    if low < TWO_32 / 2 then low else low - TWO_32
  }

  function Pow2(n: nat): (p: int)
    ensures p >= 1
  {
    if n == 0 then 1 else 2 * Pow2(n - 1)
  }

  /** Bitwise or. */
  function Or(a: nat, b: nat): nat
    decreases a + b
  {
    if a == 0 && b == 0 then 0
    else (if a % 2 == 1 || b % 2 == 1 then 1 else 0) + 2 * Or(a / 2, b / 2)
  }

  /** Bitwise and. */
  function And(a: nat, b: nat): nat
    decreases a + b
  {
    if a == 0 && b == 0 then 0
    else (if a % 2 == 1 && b % 2 == 1 then 1 else 0) + 2 * And(a / 2, b / 2)
  }

  /** `x << s` on `uint64`: the bits shifted past position 63 are lost. */
  function Shl(x: uint64, s: nat): uint64 {
    x * Pow2(s) % TWO_64
  }

  /** `x >> s` on `uint64`. */
  function Shr(x: uint64, s: nat): int {
    x / Pow2(s)
  }

  /** `bits.Len64`: the number of bits needed to write `x`. */
  function Len64(x: nat): nat {
    if x == 0 then 0 else 1 + Len64(x / 2)
  }

  /** `a | b` on `int`. */
  function IntOr(a: int64, b: int64): int64
  {
    Pow2Values();
    OrInRange(ToUint(a), ToUint(b), 64);
    ToInt(Or(ToUint(a), ToUint(b)))
  }

  /** `x << s` on `int`. */
  function IntShl(x: int64, s: nat): int64 {
    ToInt(Shl(ToUint(x), s))
  }

  lemma Pow2Values()
    ensures Pow2(3) == 8 && Pow2(7) == 128 && Pow2(63) == TWO_63 && Pow2(64) == TWO_64
  {
    Pow2Add(7, 7);
    Pow2Add(14, 14);
    Pow2Add(28, 28);
    Pow2Add(56, 7);
    assert Pow2(4) == 16;
    assert Pow2(7) == 128;
    assert Pow2(64) == 2 * Pow2(63);
  }

  lemma {:induction false} Pow2Add(a: nat, b: nat)
    ensures Pow2(a + b) == Pow2(a) * Pow2(b)
  {
    if a == 0 {
    } else {
      Pow2Add(a - 1, b);
      assert 2 * (Pow2(a - 1) * Pow2(b)) == (2 * Pow2(a - 1)) * Pow2(b);
    }
  }

  /** The bit of `x` at position `k`. */
  predicate Bit(x: nat, k: nat) {
    x / Pow2(k) % 2 == 1
  }

  lemma BitHalf(x: nat, k: nat)
    requires k > 0
    ensures Bit(x, k) == Bit(x / 2, k - 1)
  {
    HalveDivision(x, Pow2(k - 1));
  }

  /** `|` and `&` act on every bit position by itself. */
  lemma {:induction false} BitwiseExact(a: nat, b: nat, k: nat)
    ensures Bit(Or(a, b), k) <==> Bit(a, k) || Bit(b, k)
    ensures Bit(And(a, b), k) <==> Bit(a, k) && Bit(b, k)
    decreases k
  {
    var o, n := Or(a, b), And(a, b);
    if k == 0 {
      LowestBit(a);
      LowestBit(b);
      LowestBit(o);
      LowestBit(n);
    } else {
      assert o / 2 == Or(a / 2, b / 2) && n / 2 == And(a / 2, b / 2);
      BitwiseExact(a / 2, b / 2, k - 1);
      hide Or, And, Bit;
      BitHalf(a, k);
      BitHalf(b, k);
      BitHalf(o, k);
      BitHalf(n, k);
    }
  }

  lemma LowestBit(x: nat)
    ensures Bit(x, 0) == (x % 2 == 1)
  {
  }

  /** `Len64` is the position behind the highest bit that is set. */
  lemma {:induction false} Len64Exact(x: nat)
    ensures x < Pow2(Len64(x))
    ensures x > 0 ==> Len64(x) > 0 && Pow2(Len64(x) - 1) <= x
  {
    if x == 0 {
    } else {
      Len64Exact(x / 2);
    }
  }

  /** Or-ing two numbers of at most `n` bits gives a number of at most `n` bits. */
  lemma {:induction false} OrInRange(a: nat, b: nat, n: nat)
    requires a < Pow2(n) && b < Pow2(n)
    ensures Or(a, b) < Pow2(n)
  {
    if n == 0 || (a == 0 && b == 0) {
    } else {
      OrInRange(a / 2, b / 2, n - 1);
    }
  }

  /** Numbers that share no bit position are joined by `|` as by `+`. */
  lemma {:induction false} OrDisjoint(a: nat, q: nat, s: nat)
    requires a < Pow2(s)
    ensures Or(a, q * Pow2(s)) == a + q * Pow2(s)
  {
    if s == 0 {
      OrZero(q);
    } else {
      var b := q * Pow2(s - 1);
      assert q * Pow2(s) == 2 * b;
      OrDisjoint(a / 2, q, s - 1);
      assert Or(a / 2, b) == a / 2 + b;
    }
  }

  lemma {:induction false} OrZero(b: nat)
    ensures Or(0, b) == b
  {
    if b == 0 {
    } else {
      OrZero(b / 2);
    }
  }

  /** `x & (2^s - 1)` keeps the low `s` bits. */
  lemma {:induction false} AndMask(x: nat, s: nat)
    ensures And(x, Pow2(s) - 1) == x % Pow2(s)
  {
    if s == 0 {
      AndZero(x);
    } else {
      var p := Pow2(s - 1);
      AndMask(x / 2, s - 1);
      assert (2 * p - 1) / 2 == p - 1 && (2 * p - 1) % 2 == 1;
      HalveDivision(x, p);
    }
  }

  lemma {:induction false} AndZero(x: nat)
    ensures And(x, 0) == 0
  {
    if x == 0 {
    } else {
      AndZero(x / 2);
    }
  }

  lemma HalveDivision(x: nat, p: nat)
    requires p > 0
    ensures x % (2 * p) == x % 2 + 2 * (x / 2 % p)
    ensures x / (2 * p) == x / 2 / p
  {
    var q, r := x / 2 / p, x / 2 % p;
    assert x / 2 == p * q + r;
    assert x == (2 * p) * q + (x % 2 + 2 * r);
    DivModUnique(x, 2 * p, q, x % 2 + 2 * r);
  }

  lemma DivModUnique(x: int, d: int, q: int, r: int)
    requires 0 <= r < d && x == d * q + r
    ensures x / d == q && x % d == r
  {
    var k := x / d - q;
    assert x == d * (x / d) + x % d;
    assert d * k == r - x % d;
    MulOutside(d, k);
  }

  lemma MulOutside(d: int, k: int)
    requires d > 0
    ensures k >= 1 ==> d * k >= d
    ensures k <= -1 ==> d * k <= -d
  {
  }

  /** The masks and shifts of the generated code, in arithmetic. */
  lemma MaskFacts(b: uint64)
    ensures And(b, 0x7F) == b % 128
    ensures And(b, 0x7) == b % 8
    ensures Or(b % 128, 0x80) == b % 128 + 128
    ensures Shr(b, 3) == b / 8 && Shr(b, 7) == b / 128
  {
    hide And, Or, Pow2;
    Pow2Values();
    AndMask(b, 7);
    AndMask(b, 3);
    OrDisjoint(b % 128, 1, 7);
  }

  /** Shifting left keeps the low `64 - s` bits and moves them up. */
  lemma ShlKeepsLowBits(d: uint64, s: nat)
    requires s <= 64
    ensures TWO_64 == Pow2(64 - s) * Pow2(s)
    ensures Shl(d, s) == (d % Pow2(64 - s)) * Pow2(s)
    ensures d * Pow2(s) == TWO_64 * (d / Pow2(64 - s)) + Shl(d, s)
    ensures Shl(d, s) <= TWO_64 - Pow2(s)
  {
    Pow2Add(64 - s, s);
    Pow2Values();
    hide Pow2;
    SplitProduct(d, Pow2(64 - s), Pow2(s));
  }

  lemma SplitProduct(d: nat, hi: int, lo: int)
    requires hi > 0 && lo > 0
    ensures d * lo == (hi * lo) * (d / hi) + (d % hi) * lo
    ensures 0 <= (d % hi) * lo <= hi * lo - lo
    ensures d * lo % (hi * lo) == (d % hi) * lo
  {
    var q, r := d / hi, d % hi;
    assert d == hi * q + r && 0 <= r < hi;
    Distribute(hi, lo, q, r);
    DivModUnique(d * lo, hi * lo, q, r * lo);
  }

  lemma Distribute(hi: int, lo: int, q: int, r: int)
    requires 0 <= r < hi && lo > 0
    ensures (hi * q + r) * lo == (hi * lo) * q + r * lo
    ensures 0 <= r * lo <= hi * lo - lo
  {
    MulLe(r, hi - 1, lo);
    assert (hi * q) * lo == (hi * lo) * q;
  }

  lemma MulLe(a: int, b: int, c: int)
    requires a <= b && c >= 0
    ensures a * c <= b * c
  {
  }

  /**
   The accumulation step of every varint loop: below bit `s` sit the bits read
   so far, and the next seven land on top of them, losing what passes bit 63.
   */
  lemma AccumulateStep(v: uint64, d: nat, s: nat)
    requires v < Pow2(s) && d < 128 && s <= 63
    ensures Or(v, Shl(d, s)) == (v + d * Pow2(s)) % TWO_64
    ensures Or(v, Shl(d, s)) < TWO_64
  {
    ShlKeepsLowBits(d, s);
    OrDisjoint(v, d % Pow2(64 - s), s);
    DivModUnique(v + d * Pow2(s), TWO_64, d / Pow2(64 - s), v + Shl(d, s));
  }

  /** The same step on `int`: the bits are the same, only the reading differs. */
  lemma IntStep(v: uint64, d: nat, s: nat)
    requires d < 128 && Or(v, Shl(d, s)) < TWO_64
    ensures IntOr(ToInt(v), IntShl(d, s)) == ToInt(Or(v, Shl(d, s)))
  {
    hide Or, Shl;
    assert ToUint(ToInt(v)) == v && ToUint(d) == d;
    assert ToUint(ToInt(Shl(d, s))) == Shl(d, s);
  }

  /**
   The three guards around a length prefix, in wrapping arithmetic, pass exactly
   when the length is below 2^63 and the true end lies inside the input.
   */
  lemma GuardsExact(u: uint64, iNdEx: int64, l: int64)
    requires 0 <= iNdEx <= l
    ensures (ToInt(u) >= 0 && Wrap(iNdEx + ToInt(u)) >= 0 && Wrap(iNdEx + ToInt(u)) <= l)
            <==> (u < TWO_63 && iNdEx + u <= l)
    ensures u < TWO_63 ==> (Wrap(iNdEx + ToInt(u)) < 0 <==> iNdEx + u > MAX_INT)
  {
    WrapValue(iNdEx + ToInt(u));
  }

  lemma WrapValue(x: int)
    requires -TWO_63 <= x < TWO_64
    ensures Wrap(x) == if x <= MAX_INT then x else x - TWO_64
  {
  }
}
