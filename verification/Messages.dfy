/**
 The generated message types: their in-place, back-to-front writers and their
 `Unmarshal` loops. A Go slice that is written is an array with the slice's length
 beside it; its capacity is the array's. A slice that is only read is a sequence.
 */
module Messages {
  import opened Machine
  import opened Varint
  import opened VarintLoops
  import opened Grammar
  import opened Skip
  import opened Decoding
  import opened Laws
  import opened Errors
  import opened Encoding

  // ------------------------------------------------------------- shared code

  /** Go's `copy` into `dAtA[at:limit]`. */
  method Copy(dAtA: array<byte>, at: nat, limit: nat, src: seq<byte>)
    requires at + |src| <= limit <= dAtA.Length
    modifies dAtA
    ensures dAtA[..at] == old(dAtA[..at])
    ensures dAtA[at..at + |src|] == src
    ensures dAtA[at + |src|..] == old(dAtA[at + |src|..])
  {
    forall k | 0 <= k < |src| {
      dAtA[at + k] := src[k];
    }
  }

  /**
   The statements in front of every length-delimited field: its length varint, then
   its tag byte. They extend what is written at `offset` to the left.
   */
  method WriteHead(dAtA: array<byte>, offset: nat, size: uint64, tag: byte, ghost len: nat)
    returns (i: nat)
    requires 1 + |Encode(size)| <= offset <= len <= dAtA.Length
    modifies dAtA
    ensures i == offset - |Encode(size)| - 1
    ensures dAtA[..i] == old(dAtA[..i])
    ensures dAtA[i..len] == [tag] + (Encode(size) + old(dAtA[offset..len]))
    ensures dAtA[len..] == old(dAtA[len..])
  {
    hide Encode, Sov;
    SovExact(size);
    ghost var was := dAtA[..];
    var base := EncodeVarint(dAtA, offset, size);
    i := base - 1;
    ghost var mid := dAtA[..];
    assert mid[base..offset] == Encode(size) && mid[..base] == was[..base] && mid[offset..] == was[offset..];
    dAtA[i] := tag;
    Joined(was, mid, base, offset, len, Encode(size));
    assert dAtA[..] == mid[i := tag];
    Tagged(mid, i, len, tag);
  }

  /** Field 1 of `MsgUpdateParams` and `Module`: payload, length and tag, or nothing. */
  method WriteAuthority(dAtA: array<byte>, offset: nat, authority: seq<byte>, ghost len: nat)
    returns (i: nat)
    requires |AuthorityField(authority)| <= offset <= len <= dAtA.Length <= MAX_INT
    modifies dAtA
    ensures i == offset - |AuthorityField(authority)|
    ensures dAtA[..i] == old(dAtA[..i])
    ensures dAtA[i..len] == AuthorityField(authority) + old(dAtA[offset..len])
    ensures dAtA[len..] == old(dAtA[len..])
  {
    hide Encode;
    i := offset;
    if |authority| > 0 {
      ghost var was := dAtA[..];
      i := i - |authority|;
      Copy(dAtA, i, offset, authority);
      ghost var mid, at := dAtA[..], i;
      assert mid[..at] == was[..at] && mid[at..offset] == authority && mid[offset..] == was[offset..];
      Joined(was, mid, at, offset, len, authority);
      i := WriteHead(dAtA, i, |authority|, 0x0a, len);
      Regrouped(0x0a, Encode(|authority|), authority, was[offset..len]);
      Shorter(mid, was, i, at);
    }
  }

  lemma Regrouped(tag: byte, length: seq<byte>, payload: seq<byte>, rest: seq<byte>)
    ensures [tag] + (length + (payload + rest)) == ([tag] + (length + payload)) + rest
  {
  }

  lemma Shorter(a: seq<byte>, b: seq<byte>, i: nat, j: nat)
    requires i <= j <= |a| && j <= |b| && a[..j] == b[..j]
    ensures a[..i] == b[..i]
  {
    assert a[..i] == a[..j][..i] && b[..i] == b[..j][..i];
  }

  lemma Joined(was: seq<byte>, mid: seq<byte>, base: nat, offset: nat, len: nat, head: seq<byte>)
    requires |mid| == |was| && 0 < base <= offset <= len <= |mid|
    requires mid[base..offset] == head && mid[..base] == was[..base] && mid[offset..] == was[offset..]
    ensures mid[base..len] == head + was[offset..len] && mid[len..] == was[len..]
    ensures mid[..base - 1] == was[..base - 1]
  {
    Untouched(mid, was, base, offset, len);
    Split(mid, base, offset, len);
  }

  lemma Tagged(mid: seq<byte>, i: nat, len: nat, tag: byte)
    requires i < len <= |mid|
    ensures var now := mid[i := tag];
            && now[..i] == mid[..i] && now[len..] == mid[len..]
            && now[i..len] == [tag] + mid[i + 1..len]
  {
  }

  lemma Untouched(now: seq<byte>, was: seq<byte>, base: nat, offset: nat, len: nat)
    requires |now| == |was| && base <= offset <= len <= |now|
    requires now[..base] == was[..base] && now[offset..] == was[offset..]
    ensures now[offset..len] == was[offset..len] && now[len..] == was[len..]
    ensures base > 0 ==> now[..base - 1] == was[..base - 1]
  {
    assert now[offset..len] == now[offset..][..len - offset];
    assert was[offset..len] == was[offset..][..len - offset];
    assert now[len..] == now[offset..][len - offset..];
    assert was[len..] == was[offset..][len - offset..];
    if base > 0 {
      assert now[..base - 1] == now[..base][..base - 1];
      assert was[..base - 1] == was[..base][..base - 1];
    }
  }

  /** A writer has filled the last `n` bytes of `dAtA[:len]` with `bytes`, and nothing else. */
  twostate predicate WroteTail(dAtA: array<byte>, len: nat, n: int, bytes: seq<byte>)
    reads dAtA
  {
    && 0 <= n == |bytes| <= len <= dAtA.Length
    && dAtA[len - n..len] == bytes
    && dAtA[..len - n] == old(dAtA[..len - n])
    && dAtA[len..] == old(dAtA[len..])
  }

  /** The unknown-field branch of every `Unmarshal` loop. */
  method SkipBranch(dAtA: seq<byte>, preIndex: nat) returns (r: Status, iNdEx: nat)
    requires preIndex < |dAtA| <= MAX_INT
    ensures match SkipUnknown(dAtA, preIndex)
            case Next(next, _) => r == Success && iNdEx == next
            case Halt(f) => r == StatusOf(f)
  {
    hide SkipFrom, IsItem, Wrap;
    iNdEx := preIndex;
    var skippy := SkipField(dAtA[iNdEx..]);
    if skippy.Err? {
      return Failure(skippy.error), iNdEx;
    }
    WrapValue(iNdEx + skippy.value);
    if skippy.value < 0 || Wrap(iNdEx + skippy.value) < 0 {
      return Failure(InvalidLength), iNdEx;
    }
    if Wrap(iNdEx + skippy.value) > |dAtA| {
      return Failure(UnexpectedEOF), iNdEx;
    }
    iNdEx := Wrap(iNdEx + skippy.value);
    r := Success;
  }

  /** The head of every loop turn: the tag, and its two rejections. */
  method ReadTag(dAtA: seq<byte>, start: nat)
    returns (r: Status, fieldNum: int, wireType: int, iNdEx: nat)
    requires start < |dAtA|
    ensures match Read(dAtA, start)
            case Err(e) => r == Failure(e)
            case Ok((wire, j)) =>
              && iNdEx == j && fieldNum == FieldNumber(wire) && wireType == WireType(wire)
              && r == (if wireType == 4 then Failure(EndGroupTag)
                       else if fieldNum <= 0 then Failure(IllegalTag) else Success)
  {
    hide Read, Int32;
    var wire, j := ReadUint64(dAtA, start);
    if wire.Err? {
      return Failure(wire.error), 0, 0, j;
    }
    MaskFacts(wire.value);
    iNdEx := j;
    fieldNum := Int32(Shr(wire.value, 3));
    wireType := And(wire.value, 0x7);
    if wireType == 4 {
      r := Failure(EndGroupTag);
    } else if fieldNum <= 0 {
      r := Failure(IllegalTag);
    } else {
      r := Success;
    }
  }

  /** The bounds of a string payload: the length is read as `uint64`, then cast. */
  method StringBounds(dAtA: seq<byte>, start: nat) returns (r: Status, iNdEx: nat, postIndex: nat)
    requires start <= |dAtA| <= MAX_INT
    ensures match Prefix(dAtA, start)
            case Err(e) => r == Failure(e)
            case Ok((i, end)) =>
              if end > |dAtA| then r == StatusOf(Overrun(end))
              else r == Success && iNdEx == i && postIndex == end
  {
    hide Read, Wrap;
    iNdEx, postIndex := start, start;
    var stringLen, j := ReadUint64(dAtA, start);
    if stringLen.Err? {
      return Failure(stringLen.error), iNdEx, postIndex;
    }
    iNdEx := j;
    var intStringLen := ToInt(stringLen.value);
    if intStringLen < 0 {
      return Failure(InvalidLength), iNdEx, postIndex;
    }
    GuardsExact(stringLen.value, iNdEx, |dAtA|);
    if Wrap(iNdEx + intStringLen) < 0 {
      return Failure(InvalidLength), iNdEx, postIndex;
    }
    if Wrap(iNdEx + intStringLen) > |dAtA| {
      return Failure(UnexpectedEOF), iNdEx, postIndex;
    }
    WrapValue(iNdEx + intStringLen);
    postIndex := Wrap(iNdEx + intStringLen);
    r := Success;
  }

  /** The bounds of a nested message: the length is accumulated in an `int`. */
  method MessageBounds(dAtA: seq<byte>, start: nat) returns (r: Status, iNdEx: nat, postIndex: nat)
    requires start <= |dAtA| <= MAX_INT
    ensures match Prefix(dAtA, start)
            case Err(e) => r == Failure(e)
            case Ok((i, end)) =>
              if end > |dAtA| then r == StatusOf(Overrun(end))
              else r == Success && iNdEx == i && postIndex == end
  {
    hide Read, Wrap;
    iNdEx, postIndex := start, start;
    var msglen, j := ReadInt(dAtA, start);
    if msglen.Err? {
      return Failure(msglen.error), iNdEx, postIndex;
    }
    iNdEx := j;
    if msglen.value < 0 {
      return Failure(InvalidLength), iNdEx, postIndex;
    }
    WrapValue(iNdEx + msglen.value);
    if Wrap(iNdEx + msglen.value) < 0 {
      return Failure(InvalidLength), iNdEx, postIndex;
    }
    if Wrap(iNdEx + msglen.value) > |dAtA| {
      return Failure(UnexpectedEOF), iNdEx, postIndex;
    }
    postIndex := Wrap(iNdEx + msglen.value);
    r := Success;
  }

  /** All errors of an input at once. */
  lemma ErrorsExact(schema: Schema, s: seq<byte>, m: seq<byte>)
    requires |s| <= MAX_INT
    ensures forall e :: StatusOf(Decode(schema, s, 0, m).fault) == Failure(e) <==> Fails(schema, s, e)
  {
    hide Decode, Fails;
    forall e
      ensures StatusOf(Decode(schema, s, 0, m).fault) == Failure(e) <==> Fails(schema, s, e)
    {
      StatusExact(schema, s, m, e);
    }
  }

  // ------------------------------------------------------ the empty messages

  /** The three messages without fields; the generated code differs in names only. */
  datatype EmptyMessage = Params | MsgUpdateParamsResponse | QueryParamsRequest
  {
    function Size(): int {
      0
    }

    method MarshalToSizedBuffer(dAtA: array<byte>, len: nat) returns (n: int)
      requires len <= dAtA.Length
      ensures n == Size()
    {
      var i := len;
      n := len - i;
    }

    method Unmarshal(dAtA: seq<byte>) returns (r: Status)
      requires |dAtA| <= MAX_INT
      ensures r == StatusOf(Decode(EMPTY, dAtA, 0, []).fault)
      ensures r.Success? <==> IsParams(dAtA)
      ensures forall e :: r == Failure(e) <==> Fails(EMPTY, dAtA, e)
    {
      hide Read, SkipUnknown, FieldNumber, WireType, Fails;
      EmptyExact(dAtA);
      ErrorsExact(EMPTY, dAtA, []);
      var l, iNdEx := |dAtA|, 0;
      while iNdEx < l
        invariant 0 <= iNdEx <= l
        invariant Decode(EMPTY, dAtA, 0, []) == Decode(EMPTY, dAtA, iNdEx, [])
        decreases l - iNdEx
      {
        var preIndex := iNdEx;
        var status, fieldNum, wireType, j := ReadTag(dAtA, iNdEx);
        if status.Failure? {
          return status;
        }
        var skipped, k := SkipBranch(dAtA, preIndex);
        if skipped.Failure? {
          return skipped;
        }
        iNdEx := k;
        assert ReadField(EMPTY, dAtA, preIndex) == Next(iNdEx, Keep);
      }
      if iNdEx > l {
        assert false;
      }
      r := Success;
    }
  }

  /** The empty messages accept exactly the runs of complete fields with positive numbers. */
  lemma EmptyExact(s: seq<byte>)
    requires |s| <= MAX_INT
    ensures Decode(EMPTY, s, 0, []).fault.Clean? <==> IsParams(s)
  {
    hide Decode, AllComplete, FlatAll, AllPositive, AllAllowed;
    DecodeExact(EMPTY, s, []);
    if Decode(EMPTY, s, 0, []).fault.Clean? {
      var xs :| IsMessage(EMPTY, s, xs);
      PositiveIsAllowed(xs);
    }
    if IsParams(s) {
      var xs :| AllComplete(xs) && FlatAll(xs) == s && AllPositive(xs);
      PositiveIsAllowed(xs);
      assert IsMessage(EMPTY, s, xs);
    }
  }

  // --------------------------------------------------------- MsgUpdateParams

  /** `Module.Size`, with the additions of `int` that it performs. */
  function SizeModule(authority: seq<byte>): int64
    requires |authority| <= MAX_INT
  {
    var l := |authority|;
    if l > 0 then Wrap(Wrap(1 + l) + Sov(l)) else 0
  }

  /** `MsgUpdateParams.Size` goes on where `Module.Size` ends. */
  function SizeMsgUpdateParams(authority: seq<byte>): int64
    requires |authority| <= MAX_INT
  {
    Wrap(SizeModule(authority) + Wrap(Wrap(1 + Params.Size()) + Sov(Params.Size())))
  }

  /** `Size` is the length of the encoding exactly when that length is an `int`. */
  lemma ModuleSizeExact(authority: seq<byte>)
    requires |authority| <= MAX_INT
    ensures |authority| <= |EncodeModule(authority)| <= |authority| + 11
    ensures SizeModule(authority) == Wrap(|EncodeModule(authority)|)
    ensures SizeModule(authority) == |EncodeModule(authority)|
            <==> |EncodeModule(authority)| <= MAX_INT
  {
    hide Sov, AuthoritySize, EncodeModule, EncodeMsgUpdateParams, Wrap;
    SizeFacts(authority);
    SovBounds(|authority|);
    WrapFits(|EncodeModule(authority)|);
    if |authority| == 0 {
      WrapFits(0);
    } else {
      WrapSum(1 + |authority|, Sov(|authority|));
    }
  }

  lemma SizeExact(authority: seq<byte>)
    requires |authority| <= MAX_INT
    ensures SizeMsgUpdateParams(authority) == Wrap(|EncodeMsgUpdateParams(authority)|)
    ensures SizeMsgUpdateParams(authority) == |EncodeMsgUpdateParams(authority)|
            <==> |EncodeMsgUpdateParams(authority)| <= MAX_INT
  {
    hide Sov, AuthoritySize, EncodeModule, EncodeMsgUpdateParams, Wrap, SizeModule;
    SizeFacts(authority);
    ModuleSizeExact(authority);
    ParamsSize();
    WrapSum(|EncodeModule(authority)|, 2);
    WrapFits(|EncodeMsgUpdateParams(authority)|);
  }

  lemma ParamsSize()
    ensures Wrap(Wrap(1 + Params.Size()) + Sov(Params.Size())) == 2
  {
    SovExact(0);
  }

  lemma WrapFits(n: nat)
    requires n < TWO_64
    ensures Wrap(n) == n <==> n <= MAX_INT
  {
    WrapValue(n);
  }

  lemma SovBounds(v: uint64)
    ensures 1 <= Sov(v) <= 10
  {
    SovExact(v);
    EncodeIsVarint(v);
  }

  lemma WrapSum(a: int, b: int)
    ensures Wrap(Wrap(a) + b) == Wrap(a + b)
  {
  }

  class MsgUpdateParams {
    var Authority: seq<byte>
    var Params: EmptyMessage

    constructor ()
      ensures Authority == [] && Params == EmptyMessage.Params
    {
      Authority, Params := [], EmptyMessage.Params;
    }

    method MarshalToSizedBuffer(dAtA: array<byte>, len: nat) returns (n: int)
      requires |EncodeMsgUpdateParams(Authority)| <= len <= dAtA.Length <= MAX_INT
      modifies dAtA
      ensures WroteTail(dAtA, len, n, EncodeMsgUpdateParams(Authority))
    {
      hide Encode, AuthorityField;
      ghost var was := dAtA[..];
      var i := len;
      var size := Params.MarshalToSizedBuffer(dAtA, i);
      i := i - size;
      i := WriteHead(dAtA, i, size, 0x12, len);
      ghost var mid := dAtA[..];
      assert was[len..len] == [];
      assert mid[i..len] == Delimited(0x12, []);
      ghost var head := i;
      i := WriteAuthority(dAtA, i, Authority, len);
      Shorter(mid, was, i, head);
      n := len - i;
    }

    method Marshal() returns (dAtA: array<byte>, n: int)
      requires |EncodeMsgUpdateParams(Authority)| <= MAX_INT
      ensures fresh(dAtA) && n == dAtA.Length
      ensures dAtA[..n] == EncodeMsgUpdateParams(Authority)
    {
      AuthorityFits(Authority);
      SizeExact(Authority);
      hide EncodeMsgUpdateParams;
      var size := SizeMsgUpdateParams(Authority);
      dAtA := new byte[size](_ => 0);
      n := MarshalToSizedBuffer(dAtA, size);
    }

    /** `MarshalTo` takes the first `size` bytes of the buffer, up to its capacity. */
    method MarshalTo(dAtA: array<byte>) returns (n: int)
      requires |EncodeMsgUpdateParams(Authority)| <= dAtA.Length <= MAX_INT
      modifies dAtA
      ensures n == |EncodeMsgUpdateParams(Authority)|
      ensures dAtA[..n] == EncodeMsgUpdateParams(Authority) && dAtA[n..] == old(dAtA[n..])
    {
      AuthorityFits(Authority);
      SizeExact(Authority);
      hide EncodeMsgUpdateParams;
      n := MarshalToSizedBuffer(dAtA, SizeMsgUpdateParams(Authority));
    }

    /**
     `XXX_Marshal` without the deterministic flag: it writes at the end of `b[:cap(b)]`
     and returns the front `b[:n]`, whose bytes are those of `FrontOfTail`.
     */
    method XxxMarshal(b: array<byte>) returns (n: int)
      requires |EncodeMsgUpdateParams(Authority)| <= b.Length <= MAX_INT
      modifies b
      ensures 0 <= n <= b.Length
      ensures b[..n] == FrontOfTail(old(b[..]), EncodeMsgUpdateParams(Authority))
    {
      hide EncodeMsgUpdateParams;
      ghost var was := b[..];
      n := MarshalToSizedBuffer(b, b.Length);
      assert b[..] == was[..b.Length - n] + EncodeMsgUpdateParams(Authority);
    }

    method Unmarshal(dAtA: seq<byte>) returns (r: Status)
      requires |dAtA| <= MAX_INT
      modifies this
      ensures Params == old(Params)
      ensures var o := Decode(MSG_UPDATE_PARAMS, dAtA, 0, old(Authority));
              Authority == o.authority && r == StatusOf(o.fault)
      ensures r.Success? <==> exists xs :: IsMessage(MSG_UPDATE_PARAMS, dAtA, xs)
      ensures forall e :: r == Failure(e) <==> Fails(MSG_UPDATE_PARAMS, dAtA, e)
      ensures forall xs | IsMessage(MSG_UPDATE_PARAMS, dAtA, xs) ::
                Authority == LastString(MSG_UPDATE_PARAMS, xs, old(Authority))
      ensures exists xs :: IsFront(MSG_UPDATE_PARAMS, dAtA, xs)
      ensures forall xs | IsFront(MSG_UPDATE_PARAMS, dAtA, xs) ::
                Authority == LastString(MSG_UPDATE_PARAMS, xs, old(Authority))
    {
      hide Read, Prefix, SkipUnknown, FieldNumber, WireType, Fails, IsMessage, IsFront, IsParams;
      DecodeExact(MSG_UPDATE_PARAMS, dAtA, Authority);
      ErrorsExact(MSG_UPDATE_PARAMS, dAtA, Authority);
      FrontExact(MSG_UPDATE_PARAMS, dAtA, Authority);
      var l, iNdEx := |dAtA|, 0;
      while iNdEx < l
        invariant 0 <= iNdEx <= l && Params == old(Params)
        invariant Decode(MSG_UPDATE_PARAMS, dAtA, 0, old(Authority))
                  == Decode(MSG_UPDATE_PARAMS, dAtA, iNdEx, Authority)
        decreases l - iNdEx
      {
        var preIndex := iNdEx;
        var status, fieldNum, wireType, j := ReadTag(dAtA, iNdEx);
        if status.Failure? {
          return status;
        }
        iNdEx := j;
        match fieldNum {
          case 1 =>
            if wireType != 2 {
              return Failure(WrongWireType);
            }
            var bounds, start, postIndex := StringBounds(dAtA, iNdEx);
            if bounds.Failure? {
              return bounds;
            }
            Authority := dAtA[start..postIndex];
            iNdEx := postIndex;
            assert ReadField(MSG_UPDATE_PARAMS, dAtA, preIndex) == Next(iNdEx, Set(Authority));
          case 2 =>
            if wireType != 2 {
              return Failure(WrongWireType);
            }
            var bounds, start, postIndex := MessageBounds(dAtA, iNdEx);
            if bounds.Failure? {
              return bounds;
            }
            var nested := Params.Unmarshal(dAtA[start..postIndex]);
            if nested.Failure? {
              return nested;
            }
            iNdEx := postIndex;
            assert ReadField(MSG_UPDATE_PARAMS, dAtA, preIndex) == Next(iNdEx, Keep);
          case _ =>
            var skipped, k := SkipBranch(dAtA, preIndex);
            if skipped.Failure? {
              return skipped;
            }
            iNdEx := k;
            assert ReadField(MSG_UPDATE_PARAMS, dAtA, preIndex) == Next(iNdEx, Keep);
        }
      }
      if iNdEx > l {
        assert false;
      }
      r := Success;
    }
  }

  lemma AuthorityFits(authority: seq<byte>)
    requires |EncodeMsgUpdateParams(authority)| <= MAX_INT || |EncodeModule(authority)| <= MAX_INT
    ensures |authority| <= MAX_INT
  {
  }

  /** The first `|bytes|` bytes of a buffer at whose end `bytes` has been written. */
  function FrontOfTail(buffer: seq<byte>, bytes: seq<byte>): seq<byte>
    requires |bytes| <= |buffer|
  {
    (buffer[..|buffer| - |bytes|] + bytes)[..|bytes|]
  }

  /**
   The non-deterministic `XXX_Marshal` returns the encoding whatever the buffer held
   exactly when the capacity is the size; in a larger buffer of zeros it does not.
   */
  lemma XxxMarshalExact(authority: seq<byte>, capacity: nat)
    requires |EncodeMsgUpdateParams(authority)| <= capacity
    ensures (forall b: seq<byte> | |b| == capacity ::
               FrontOfTail(b, EncodeMsgUpdateParams(authority)) == EncodeMsgUpdateParams(authority))
            <==> capacity == |EncodeMsgUpdateParams(authority)|
  {
    var e := EncodeMsgUpdateParams(authority);
    FirstByte(authority);
    hide EncodeMsgUpdateParams;
    if capacity == |e| {
      forall b: seq<byte> | |b| == capacity
        ensures FrontOfTail(b, e) == e
      {
        assert b[..0] + e == e;
      }
    } else {
      var zeros: seq<byte> := seq(capacity, _ => 0);
      assert FrontOfTail(zeros, e)[0] == 0;
    }
  }

  lemma FirstByte(authority: seq<byte>)
    ensures |EncodeMsgUpdateParams(authority)| >= 2
    ensures EncodeMsgUpdateParams(authority)[0] == if |authority| == 0 then 0x12 else 0x0a
  {
    assert |Delimited(0x12, [])| >= 2;
  }

  // ------------------------------------------------------------------ Module

  class Module {
    var Authority: seq<byte>

    constructor ()
      ensures Authority == []
    {
      Authority := [];
    }

    method MarshalToSizedBuffer(dAtA: array<byte>, len: nat) returns (n: int)
      requires |EncodeModule(Authority)| <= len <= dAtA.Length <= MAX_INT
      modifies dAtA
      ensures WroteTail(dAtA, len, n, EncodeModule(Authority))
    {
      hide Encode, AuthorityField;
      var i := len;
      assert dAtA[len..len] == [];
      i := WriteAuthority(dAtA, i, Authority, len);
      n := len - i;
    }

    method Marshal() returns (dAtA: array<byte>, n: int)
      requires |EncodeModule(Authority)| <= MAX_INT
      ensures fresh(dAtA) && n == dAtA.Length
      ensures dAtA[..n] == EncodeModule(Authority)
    {
      AuthorityFits(Authority);
      ModuleSizeExact(Authority);
      hide EncodeModule, Wrap;
      var size := SizeModule(Authority);
      dAtA := new byte[size](_ => 0);
      n := MarshalToSizedBuffer(dAtA, size);
    }

    method Unmarshal(dAtA: seq<byte>) returns (r: Status)
      requires |dAtA| <= MAX_INT
      modifies this
      ensures var o := Decode(MODULE, dAtA, 0, old(Authority));
              Authority == o.authority && r == StatusOf(o.fault)
      ensures r.Success? <==> exists xs :: IsMessage(MODULE, dAtA, xs)
      ensures forall e :: r == Failure(e) <==> Fails(MODULE, dAtA, e)
      ensures forall xs | IsMessage(MODULE, dAtA, xs) ::
                Authority == LastString(MODULE, xs, old(Authority))
      ensures exists xs :: IsFront(MODULE, dAtA, xs)
      ensures forall xs | IsFront(MODULE, dAtA, xs) ::
                Authority == LastString(MODULE, xs, old(Authority))
    {
      hide Read, Prefix, SkipUnknown, FieldNumber, WireType, Fails, IsMessage, IsFront;
      DecodeExact(MODULE, dAtA, Authority);
      ErrorsExact(MODULE, dAtA, Authority);
      FrontExact(MODULE, dAtA, Authority);
      var l, iNdEx := |dAtA|, 0;
      while iNdEx < l
        invariant 0 <= iNdEx <= l
        invariant Decode(MODULE, dAtA, 0, old(Authority)) == Decode(MODULE, dAtA, iNdEx, Authority)
        decreases l - iNdEx
      {
        var preIndex := iNdEx;
        var status, fieldNum, wireType, j := ReadTag(dAtA, iNdEx);
        if status.Failure? {
          return status;
        }
        iNdEx := j;
        match fieldNum {
          case 1 =>
            if wireType != 2 {
              return Failure(WrongWireType);
            }
            var bounds, start, postIndex := StringBounds(dAtA, iNdEx);
            if bounds.Failure? {
              return bounds;
            }
            Authority := dAtA[start..postIndex];
            iNdEx := postIndex;
            assert ReadField(MODULE, dAtA, preIndex) == Next(iNdEx, Set(Authority));
          case _ =>
            var skipped, k := SkipBranch(dAtA, preIndex);
            if skipped.Failure? {
              return skipped;
            }
            iNdEx := k;
            assert ReadField(MODULE, dAtA, preIndex) == Next(iNdEx, Keep);
        }
      }
      if iNdEx > l {
        assert false;
      }
      r := Success;
    }
  }

  // ------------------------------------ GenesisState and QueryParamsResponse

  /** The two messages that hold one `Params` as field 1; again only names differ. */
  datatype ParamsHolder = GenesisState(Params: EmptyMessage) | QueryParamsResponse(Params: EmptyMessage)
  {
    method MarshalToSizedBuffer(dAtA: array<byte>, len: nat) returns (n: int)
      requires |GENESIS_BYTES| <= len <= dAtA.Length <= MAX_INT
      modifies dAtA
      ensures WroteTail(dAtA, len, n, GENESIS_BYTES)
    {
      hide Encode;
      var i := len;
      var size := Params.MarshalToSizedBuffer(dAtA, i);
      i := i - size;
      i := WriteHead(dAtA, i, size, 0x0a, len);
      n := len - i;
    }

    method Unmarshal(dAtA: seq<byte>) returns (r: Status)
      requires |dAtA| <= MAX_INT
      ensures r == StatusOf(Decode(GENESIS_STATE, dAtA, 0, []).fault)
      ensures r.Success? <==> exists xs :: IsMessage(GENESIS_STATE, dAtA, xs)
      ensures forall e :: r == Failure(e) <==> Fails(GENESIS_STATE, dAtA, e)
    {
      hide Read, Prefix, SkipUnknown, FieldNumber, WireType, Fails, IsMessage, IsParams;
      DecodeExact(GENESIS_STATE, dAtA, []);
      ErrorsExact(GENESIS_STATE, dAtA, []);
      var l, iNdEx := |dAtA|, 0;
      while iNdEx < l
        invariant 0 <= iNdEx <= l
        invariant Decode(GENESIS_STATE, dAtA, 0, []) == Decode(GENESIS_STATE, dAtA, iNdEx, [])
        decreases l - iNdEx
      {
        var preIndex := iNdEx;
        var status, fieldNum, wireType, j := ReadTag(dAtA, iNdEx);
        if status.Failure? {
          return status;
        }
        iNdEx := j;
        match fieldNum {
          case 1 =>
            if wireType != 2 {
              return Failure(WrongWireType);
            }
            var bounds, start, postIndex := MessageBounds(dAtA, iNdEx);
            if bounds.Failure? {
              return bounds;
            }
            var nested := Params.Unmarshal(dAtA[start..postIndex]);
            if nested.Failure? {
              return nested;
            }
            iNdEx := postIndex;
            assert ReadField(GENESIS_STATE, dAtA, preIndex) == Next(iNdEx, Keep);
          case _ =>
            var skipped, k := SkipBranch(dAtA, preIndex);
            if skipped.Failure? {
              return skipped;
            }
            iNdEx := k;
            assert ReadField(GENESIS_STATE, dAtA, preIndex) == Next(iNdEx, Keep);
        }
      }
      if iNdEx > l {
        assert false;
      }
      r := Success;
    }
  }
}
