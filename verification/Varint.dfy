/**
 Base-128 varints: the closed-form length `sov*`, the in-place writer
 `encodeVarint*`, and the three reading loops that the generated code repeats
 inline (into a `uint64`, into an `int`, and skipping the value).
 */
module Varint {
  import opened Machine

  datatype Error =
    | UnexpectedEOF
    | IntOverflow
    | InvalidLength
    | UnexpectedEndOfGroup
    | IllegalWireType
    | EndGroupTag
    | IllegalTag
    | WrongWireType

  datatype Result<+T> = Ok(value: T) | Err(error: Error)

  /** One varint as a byte string: at most ten bytes, the last one below 0x80. */
  predicate IsVarint(b: seq<byte>) {
    1 <= |b| <= 10 && b[|b| - 1] < 128 && forall k :: 0 <= k < |b| - 1 ==> b[k] >= 128
  }

  /** The number written in base 128, least significant digit first. */
  function Digits(b: seq<byte>): nat {
    if |b| == 0 then 0 else b[0] % 128 + 128 * Digits(b[1..])
  }

  /** What a reading loop keeps of the number: its low 64 bits. */
  function Value(b: seq<byte>): uint64 {
    Digits(b) % TWO_64
  }

  /** The shortest varint for `v`. */
  function Encode(v: nat): (b: seq<byte>)
    ensures |b| >= 1
  {
    if v < 128 then [v] else [v % 128 + 128] + Encode(v / 128)
  }

  /** `sov*`: the closed form for the length of `Encode(v)`. */
  function Sov(v: uint64): int {
    (Len64(Or(v, 1)) + 6) / 7
  }

  /** The length of the varint at `s[i..]`, of which `k` continuation bytes are read. */
  function Scan(s: seq<byte>, i: nat, k: nat): (r: Result<nat>)
    requires i + k <= |s| && k <= 10
    ensures if r.Ok? then k < r.value <= 10 && i + r.value <= |s|
            else r.error in {IntOverflow, UnexpectedEOF}
    decreases 10 - k
  {
    if k == 10 then Err(IntOverflow)
    else if i + k == |s| then Err(UnexpectedEOF)
    else if s[i + k] < 128 then Ok(k + 1)
    else Scan(s, i, k + 1)
  }

  /** The value of the varint at `s[i..]` and the index just behind it. */
  function Read(s: seq<byte>, i: nat): (r: Result<(uint64, nat)>)
    requires i <= |s|
    ensures if r.Ok? then i < r.value.1 <= |s| && r.value.1 <= i + 10
            else r.error in {IntOverflow, UnexpectedEOF}
  {
    match Scan(s, i, 0)
    case Err(e) => Err(e)
    case Ok(n) => Ok((Value(s[i..i + n]), i + n))
  }

  /** `b` stands in `s` at index `i`. */
  predicate At(s: seq<byte>, i: nat, b: seq<byte>) {
    i + |b| <= |s| && forall k :: i <= k < i + |b| ==> s[k] == b[k - i]
  }

  lemma AtSlice(s: seq<byte>, i: nat, b: seq<byte>)
    ensures At(s, i, b) <==> i + |b| <= |s| && s[i..i + |b|] == b
  {
    if i + |b| <= |s| && s[i..i + |b|] == b {
      assert forall k :: i <= k < i + |b| ==> s[k] == s[i..i + |b|][k - i];
    }
  }

  lemma AtConcat(s: seq<byte>, i: nat, a: seq<byte>, b: seq<byte>)
    ensures At(s, i, a + b) <==> At(s, i, a) && At(s, i + |a|, b)
  {
    AtSlice(s, i, a + b);
    AtSlice(s, i, a);
    AtSlice(s, i + |a|, b);
    var j, n := i + |a|, i + |a| + |b|;
    if At(s, i, a + b) {
      assert s[i..j] == s[i..n][..|a|] && s[j..n] == s[i..n][|a|..];
    }
    if At(s, i, a) && At(s, j, b) {
      assert s[i..n] == s[i..j] + s[j..n];
    }
  }

  // ---------------------------------------------------------------- reading

  /** Scanning succeeds exactly at the end of a well-formed varint. */
  lemma {:induction false} ScanFrom(s: seq<byte>, i: nat, k: nat, n: nat)
    requires i + k <= |s| && k <= 10
    requires forall j :: i <= j < i + k ==> s[j] >= 128
    ensures Scan(s, i, k) == Ok(n) <==> (k < n && i + n <= |s| && IsVarint(s[i..i + n]))
    decreases 10 - k
  {
    if k < 10 && i + k < |s| && s[i + k] >= 128 {
      ScanFrom(s, i, k + 1, n);
    }
    if k < n && i + n <= |s| {
      assert s[i..i + n][k] == s[i + k];
    }
  }

  /** `Read` accepts exactly the well-formed varints, and returns their low 64 bits. */
  lemma ReadExact(s: seq<byte>, i: nat, v: uint64, next: nat)
    requires i <= |s|
    ensures Read(s, i) == Ok((v, next))
            <==> (i <= next <= |s| && IsVarint(s[i..next]) && v == Value(s[i..next]))
  {
    if next >= i {
      ScanFrom(s, i, 0, next - i);
      assert i + (next - i) == next;
    }
  }

  /** A varint standing at `i` is what is read there. */
  lemma ReadAt(s: seq<byte>, i: nat, b: seq<byte>)
    requires At(s, i, b) && IsVarint(b)
    ensures Read(s, i) == Ok((Value(b), i + |b|))
  {
    AtSlice(s, i, b);
    ReadExact(s, i, Value(b), i + |b|);
  }

  /** Two varints that start the same string are the same varint. */
  lemma PrefixFree(x: seq<byte>, t: seq<byte>, y: seq<byte>, u: seq<byte>)
    requires IsVarint(x) && IsVarint(y) && x + t == y + u
    ensures x == y && t == u
  {
    var s := x + t;
    AtSlice(s, 0, x);
    AtSlice(s, 0, y);
    assert s[0..|x|] == x && s[0..|y|] == (y + u)[0..|y|] == y;
    ReadAt(s, 0, x);
    ReadAt(s, 0, y);
    assert t == s[|x|..] && u == (y + u)[|y|..];
  }

  /** Reading from a suffix is reading at a shifted index. */
  lemma {:induction false} ScanShift(s: seq<byte>, p: nat, i: nat, k: nat)
    requires p + i + k <= |s| && k <= 10
    ensures Scan(s[p..], i, k) == Scan(s, p + i, k)
    decreases 10 - k
  {
    if k < 10 && p + i + k < |s| && s[p + i + k] >= 128 {
      ScanShift(s, p, i, k + 1);
    }
  }

  lemma ReadShift(s: seq<byte>, p: nat, i: nat)
    requires p + i <= |s|
    ensures match Read(s, p + i)
            case Ok((v, next)) => next >= p && Read(s[p..], i) == Ok((v, next - p))
            case Err(e) => Read(s[p..], i) == Err(e)
  {
    ScanShift(s, p, i, 0);
    match Scan(s, p + i, 0)
    case Ok(n) => assert s[p..][i..i + n] == s[p + i..p + i + n];
    case Err(_) =>
  }

  // ------------------------------------------------------------- arithmetic

  lemma {:induction false} DigitsAppend(b: seq<byte>, c: byte)
    ensures Digits(b + [c]) == Digits(b) + (c % 128) * Pow2(7 * |b|)
  {
    if |b| == 0 {
      assert b + [c] == [c] && [c][1..] == [];
      assert Digits([]) == 0;
    } else {
      assert (b + [c])[1..] == b[1..] + [c];
      DigitsAppend(b[1..], c);
      Pow2Add(7, 7 * (|b| - 1));
      Pow2Values();
      var p := Pow2(7 * (|b| - 1));
      assert 128 * ((c % 128) * p) == (c % 128) * (128 * p);
    }
  }

  lemma {:induction false} DigitsBound(b: seq<byte>)
    ensures Digits(b) < Pow2(7 * |b|)
  {
    if |b| == 0 {
    } else {
      DigitsBound(b[1..]);
      Pow2Add(7, 7 * (|b| - 1));
      Pow2Values();
    }
  }

  /** Up to nine bytes lose nothing. */
  lemma ShortValue(b: seq<byte>)
    requires |b| <= 9
    ensures Value(b) == Digits(b) < Pow2(7 * |b|) <= TWO_63
  {
    DigitsBound(b);
    Pow2Monotone(7 * |b|, 63);
    Pow2Values();
  }

  lemma {:induction false} Pow2Monotone(a: nat, b: nat)
    requires a <= b
    ensures Pow2(a) <= Pow2(b)
  {
    if a == b {
    } else {
      Pow2Monotone(a, b - 1);
    }
  }

  // -------------------------------------------------- the closed-form length

  lemma {:induction false} OrOne(x: nat)
    ensures Or(x, 1) == if x % 2 == 1 then x else x + 1
  {
    OrZero(x / 2);
    OrCommutes(x / 2, 0);
  }

  lemma {:induction false} OrCommutes(a: nat, b: nat)
    ensures Or(a, b) == Or(b, a)
    decreases a + b
  {
    if a == 0 && b == 0 {
    } else {
      OrCommutes(a / 2, b / 2);
    }
  }

  lemma {:induction false} Len64Shift(x: nat, n: nat)
    requires x >= Pow2(n)
    ensures Len64(x) == n + Len64(x / Pow2(n))
  {
    if n == 0 {
    } else {
      Len64Shift(x / 2, n - 1);
      HalveDivision(x, Pow2(n - 1));
    }
  }

  lemma {:induction false} Len64Bound(x: nat, n: nat)
    requires x < Pow2(n)
    ensures Len64(x) <= n
  {
    if x == 0 {
    } else {
      Len64Bound(x / 2, n - 1);
    }
  }

  /** The closed form is the length of the written varint, for every `uint64`. */
  lemma {:induction false} SovExact(v: uint64)
    ensures Sov(v) == |Encode(v)|
    decreases v
  {
    hide Or, Len64;
    LenOrOne(v);
    if v >= 128 {
      SovExact(v / 128);
    }
  }

  lemma LenOrOne(v: nat)
    ensures v < 128 ==> 1 <= Len64(Or(v, 1)) <= 7
    ensures v >= 128 ==> Len64(Or(v, 1)) == 7 + Len64(Or(v / 128, 1))
  {
    var w := Or(v, 1);
    OrOne(v);
    Pow2Values();
    hide Or, Pow2;
    if v < 128 {
      Len64Bound(w, 7);
    } else {
      Len64Shift(w, 7);
      assert w / 128 == v / 128;
      LenIgnoresLowBit(v / 128);
    }
  }

  lemma LenIgnoresLowBit(x: nat)
    requires x >= 1
    ensures Len64(Or(x, 1)) == Len64(x)
  {
    OrOne(x);
    assert Or(x, 1) / 2 == x / 2;
  }

  // ------------------------------------------------- writing, then reading

  /** What is written is `n` continuation bytes and a last byte, and stands for `v`. */
  lemma {:induction false} EncodeDigits(v: nat)
    ensures Digits(Encode(v)) == v
    ensures forall k :: 0 <= k < |Encode(v)| - 1 ==> Encode(v)[k] >= 128
    ensures Encode(v)[|Encode(v)| - 1] < 128
  {
    if v >= 128 {
      EncodeDigits(v / 128);
      assert Encode(v)[1..] == Encode(v / 128);
    } else {
      assert Encode(v)[1..] == [];
    }
  }

  /** `Encode(v)` has `n` bytes or fewer exactly when `v` has `7 * n` bits or fewer. */
  lemma {:induction false} EncodeLength(v: nat, n: nat)
    requires n >= 1
    ensures |Encode(v)| <= n <==> v < Pow2(7 * n)
    decreases n
  {
    Pow2Values();
    if n > 1 {
      Pow2Add(7, 7 * (n - 1));
      if v >= 128 {
        EncodeLength(v / 128, n - 1);
      } else {
        Pow2Monotone(7, 7 * n);
      }
    }
  }

  /** Every `uint64` is written as one varint with that value. */
  lemma EncodeIsVarint(v: uint64)
    ensures IsVarint(Encode(v)) && Value(Encode(v)) == v
  {
    EncodeDigits(v);
    Pow2Values();
    Pow2Monotone(64, 70);
    EncodeLength(v, 10);
  }

  /** Round trip: wherever `Encode(v)` stands, the loop reads `v` and stops behind it. */
  lemma ReadEncode(s: seq<byte>, i: nat, v: uint64)
    requires At(s, i, Encode(v))
    ensures Read(s, i) == Ok((v, i + Sov(v)))
  {
    EncodeIsVarint(v);
    SovExact(v);
    ReadAt(s, i, Encode(v));
  }

  /** No varint of value `v` is shorter than the written one. */
  lemma Minimal(b: seq<byte>)
    requires IsVarint(b)
    ensures |b| >= Sov(Value(b))
  {
    var v := Value(b);
    SovExact(v);
    if |b| <= 9 {
      ShortValue(b);
      EncodeLength(v, |b|);
    } else {
      EncodeIsVarint(v);
    }
  }

  /** Digit strings of one length are told apart by the number they write. */
  lemma {:induction false} DigitsInjective(b: seq<byte>, c: seq<byte>)
    requires |b| == |c| && Digits(b) == Digits(c)
    requires forall k :: 0 <= k < |b| ==> (b[k] < 128 <==> c[k] < 128)
    ensures b == c
  {
    if |b| == 0 {
    } else {
      DigitsInjective(b[1..], c[1..]);
      assert b == [b[0]] + b[1..] && c == [c[0]] + c[1..];
    }
  }

  /**
   Among varints of the shortest length the written one is the only one, as long
   as that length is at most nine; at ten bytes, where only the lowest bit of the
   last byte survives, exactly the odd last bytes are read as the same value.
   */
  lemma ShortestForms(b: seq<byte>, v: uint64)
    requires |b| == |Encode(v)|
    ensures Sov(v) <= 9 ==> ((IsVarint(b) && Value(b) == v) <==> b == Encode(v))
    ensures Sov(v) > 9 ==>
              |b| == 10 &&
              ((IsVarint(b) && Value(b) == v)
               <==> (b[..9] == Encode(v)[..9] && b[9] % 2 == 1 && b[9] < 128))
  {
    SovExact(v);
    EncodeIsVarint(v);
    if Sov(v) <= 9 {
      if IsVarint(b) && Value(b) == v {
        ShortValue(b);
        EncodeDigits(v);
        DigitsInjective(b, Encode(v));
      }
    } else {
      TenByteForms(b, v);
    }
  }

  lemma TenByteValue(b: seq<byte>)
    requires |b| == 10 && b[9] < 128
    ensures Digits(b) == Digits(b[..9]) + b[9] * TWO_63
    ensures Digits(b[..9]) < TWO_63
    ensures Value(b) == Digits(b[..9]) + (b[9] % 2) * TWO_63
  {
    assert b == b[..9] + [b[9]];
    DigitsAppend(b[..9], b[9]);
    Pow2Values();
    ShortValue(b[..9]);
  }

  lemma TenByteForms(b: seq<byte>, v: uint64)
    requires |b| == 10 == |Encode(v)|
    ensures (IsVarint(b) && Value(b) == v)
            <==> (b[..9] == Encode(v)[..9] && b[9] % 2 == 1 && b[9] < 128)
  {
    var e := Encode(v);
    EncodeIsVarint(v);
    EncodeDigits(v);
    TenByteValue(e);
    EncodeLength(v, 9);
    Pow2Values();
    assert v >= TWO_63 && e[9] % 2 == 1;
    if b[9] < 128 {
      TenByteValue(b);
      if IsVarint(b) && Value(b) == v {
        DigitsInjective(b[..9], e[..9]);
      }
      if b[..9] == e[..9] {
        assert forall k :: 0 <= k < 9 ==> b[k] == b[..9][k] == e[..9][k] == e[k];
      }
    }
  }
}
