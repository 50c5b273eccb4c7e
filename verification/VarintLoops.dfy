/**
 The loops of the generated code that write one varint into a buffer and read
 one from a byte slice. The reading loop appears in three shapes in the source:
 into a `uint64`, into an `int`, and without keeping the value.
 */
module VarintLoops {
  import opened Machine
  import opened Varint

  /** `encodeVarint*`: writes `v` so that it ends at `offset`; returns its start. */
  method EncodeVarint(dAtA: array<byte>, offset: int, v: uint64) returns (base: int)
    requires Sov(v) <= offset <= dAtA.Length
    modifies dAtA
    ensures 0 <= base == offset - Sov(v)
    ensures dAtA[base..offset] == Varint.Encode(v)
    ensures dAtA[..base] == old(dAtA[..base])
    ensures dAtA[offset..] == old(dAtA[offset..])
  {
    hide Sov, Or, And, Shr;
    SovExact(v);
    var pos, x := offset - Sov(v), v;
    base := pos;
    while x >= 0x80
      invariant 0 <= x < TWO_64
      invariant 0 <= base <= pos && pos + |Varint.Encode(x)| == offset
      invariant dAtA[base..pos] + Varint.Encode(x) == Varint.Encode(v)
      invariant dAtA[..base] == old(dAtA[..base])
      invariant dAtA[offset..] == old(dAtA[offset..])
      decreases x
    {
      MaskFacts(x);
      ghost var done := dAtA[base..pos];
      dAtA[pos] := Or(And(x, 0x7F), 0x80);
      assert dAtA[base..pos + 1] == done + [x % 128 + 128];
      x := Shr(x, 7);
      pos := pos + 1;
    }
    ghost var done := dAtA[base..pos];
    dAtA[pos] := x;
    assert dAtA[base..pos + 1] == done + [x];
  }

  /** The reading loop with a `uint64` accumulator. */
  method ReadUint64(dAtA: seq<byte>, start: nat) returns (r: Result<uint64>, iNdEx: nat)
    requires start <= |dAtA|
    ensures match Read(dAtA, start)
            case Ok((v, next)) => r == Ok(v) && iNdEx == next
            case Err(e) => r == Err(e)
  {
    hide Value, Or, And, Shl;
    EmptyValue(dAtA, start);
    var v: uint64, shift := 0, 0;
    iNdEx := start;
    while true
      invariant start <= iNdEx <= |dAtA| && shift == 7 * (iNdEx - start) <= 70
      invariant v == Value(dAtA[start..iNdEx])
      invariant Scan(dAtA, start, 0) == Scan(dAtA, start, iNdEx - start)
      decreases 70 - shift
    {
      if shift >= 64 {
        return Err(IntOverflow), iNdEx;
      }
      if iNdEx >= |dAtA| {
        return Err(UnexpectedEOF), iNdEx;
      }
      var b := dAtA[iNdEx];
      iNdEx := iNdEx + 1;
      ReadStep(dAtA, start, iNdEx - 1);
      v := Or(v, Shl(And(b, 0x7F), shift));
      if b < 0x80 {
        break;
      }
      shift := shift + 7;
    }
    assert Scan(dAtA, start, 0) == Ok(iNdEx - start);
    r := Ok(v);
  }

  /** The reading loop with an `int` accumulator: the same bits, read as signed. */
  method ReadInt(dAtA: seq<byte>, start: nat) returns (r: Result<int64>, iNdEx: nat)
    requires start <= |dAtA|
    ensures match Read(dAtA, start)
            case Ok((v, next)) => r == Ok(ToInt(v)) && iNdEx == next
            case Err(e) => r == Err(e)
  {
    hide Value, Or, And, Shl, IntOr, IntShl, ToInt;
    EmptyValue(dAtA, start);
    var v: int64, shift := 0, 0;
    iNdEx := start;
    while true
      invariant start <= iNdEx <= |dAtA| && shift == 7 * (iNdEx - start) <= 70
      invariant v == ToInt(Value(dAtA[start..iNdEx]))
      invariant Scan(dAtA, start, 0) == Scan(dAtA, start, iNdEx - start)
      decreases 70 - shift
    {
      if shift >= 64 {
        return Err(IntOverflow), iNdEx;
      }
      if iNdEx >= |dAtA| {
        return Err(UnexpectedEOF), iNdEx;
      }
      var b := dAtA[iNdEx];
      iNdEx := iNdEx + 1;
      ReadStep(dAtA, start, iNdEx - 1);
      IntStep(Value(dAtA[start..iNdEx - 1]), And(b, 0x7F), shift);
      v := IntOr(v, IntShl(And(b, 0x7F), shift));
      if b < 0x80 {
        break;
      }
      shift := shift + 7;
    }
    assert Scan(dAtA, start, 0) == Ok(iNdEx - start);
    r := Ok(v);
  }

  /** The reading loop that only looks for the end, as `skip*` does for wire type 0. */
  method SkipVarint(dAtA: seq<byte>, start: nat) returns (r: Result<nat>)
    requires start <= |dAtA|
    ensures match Read(dAtA, start)
            case Ok((_, next)) => r == Ok(next)
            case Err(e) => r == Err(e)
  {
    var iNdEx, shift := start, 0;
    while true
      invariant start <= iNdEx <= |dAtA| && shift == 7 * (iNdEx - start) <= 70
      invariant Scan(dAtA, start, 0) == Scan(dAtA, start, iNdEx - start)
      decreases 70 - shift
    {
      if shift >= 64 {
        return Err(IntOverflow);
      }
      if iNdEx >= |dAtA| {
        return Err(UnexpectedEOF);
      }
      iNdEx := iNdEx + 1;
      if dAtA[iNdEx - 1] < 0x80 {
        break;
      }
      shift := shift + 7;
    }
    assert Scan(dAtA, start, 0) == Ok(iNdEx - start);
    r := Ok(iNdEx);
  }

  lemma EmptyValue(dAtA: seq<byte>, start: nat)
    requires start <= |dAtA|
    ensures Value(dAtA[start..start]) == 0 == ToInt(0)
  {
  }

  /** One turn of a reading loop keeps "the accumulator is the value of what was read". */
  lemma ReadStep(dAtA: seq<byte>, start: nat, i: nat)
    requires start <= i < |dAtA| && i - start <= 9
    ensures And(dAtA[i], 0x7F) < 128
    ensures Or(Value(dAtA[start..i]), Shl(And(dAtA[i], 0x7F), 7 * (i - start)))
            == Value(dAtA[start..i + 1])
  {
    hide Or, And, Shl;
    var b, c, s := dAtA[start..i], dAtA[i], 7 * (i - start);
    assert dAtA[start..i + 1] == b + [c];
    MaskFacts(c);
    DigitsAppend(b, c);
    ShortValue(b);
    AccumulateStep(Value(b), c % 128, s);
  }
}
