/**
 `skip*`: walking over one unknown field with a single depth counter. The loop is
 specified by `SkipFrom`, over unbounded indices, and `SkipExact` says that it
 recognizes the grammar.
 */
module Skip {
  import opened Machine
  import opened Varint
  import opened Grammar
  import opened VarintLoops

  /** One turn of the loop: where it stops, and what it does to the depth. */
  datatype Token = Leaf(next: nat) | Open(next: nat) | Close(next: nat)

  /** `Done(next)` may point behind the input; the caller of the loop checks that. */
  datatype Walk = Done(next: nat) | Stuck(error: Error)

  /** A length prefix at `s[i..]`: where the payload starts and ends, if it were all there. */
  function Prefix(s: seq<byte>, i: nat): (r: Result<(nat, nat)>)
    requires i <= |s|
    ensures r.Ok? ==> i < r.value.0 <= r.value.1 <= r.value.0 + MAX_INT && r.value.0 <= |s|
  {
    match Read(s, i)
    case Err(e) => Err(e)
    case Ok((v, next)) => if v >= TWO_63 then Err(InvalidLength) else Ok((next, next + v))
  }

  function NextToken(s: seq<byte>, i: nat): (r: Result<Token>)
    requires i <= |s|
    ensures r.Ok? ==> r.value.next > i
  {
    match Read(s, i)
    case Err(e) => Err(e)
    case Ok((tag, j)) =>
      match WireType(tag)
      case 0 => (match Read(s, j) case Err(e) => Err(e) case Ok((_, next)) => Ok(Leaf(next)))
      case 1 => Ok(Leaf(j + 8))
      case 2 => (match Prefix(s, j) case Err(e) => Err(e) case Ok((_, end)) => Ok(Leaf(end)))
      case 3 => Ok(Open(j))
      case 4 => Ok(Close(j))
      case 5 => Ok(Leaf(j + 4))
      case _ => Err(IllegalWireType)
  }

  function DepthAfter(t: Token, depth: nat): int {
    match t case Leaf(_) => depth case Open(_) => depth + 1 case Close(_) => depth - 1
  }

  /** The rest of the loop, standing at `i` inside `depth` open groups. */
  function SkipFrom(s: seq<byte>, i: nat, depth: nat): (w: Walk)
    ensures w.Done? ==> w.next > i
    decreases |s| - i
  {
    if i >= |s| then Stuck(UnexpectedEOF)
    else match NextToken(s, i)
      case Err(e) => Stuck(e)
      case Ok(t) =>
        if DepthAfter(t, depth) < 0 then Stuck(UnexpectedEndOfGroup)
        else if DepthAfter(t, depth) == 0 then Done(t.next)
        else if t.next > MAX_INT then Stuck(InvalidLength)
        else SkipFrom(s, t.next, DepthAfter(t, depth))
  }

  // ------------------------------------------- the loop accepts the grammar

  /** The tokens of a field that is not a group: one leaf. */
  lemma LeafToken(x: Item, s: seq<byte>, i: nat)
    requires Complete(x) && !x.GroupItem? && At(s, i, Flat(x))
    ensures NextToken(s, i) == Ok(Leaf(i + |Flat(x)|))
  {
    hide Read, Scan, Value, Digits, IsVarint;
    AtConcat(s, i, x.tag, AfterTag(x));
    ReadAt(s, i, x.tag);
    match x
    case VarintItem(tag, body) => ReadAt(s, i + |tag|, body);
    case BytesItem(tag, length, payload) =>
      AtConcat(s, i + |tag|, length, payload);
      ReadAt(s, i + |tag|, length);
    case Fixed64Item(_, _) =>
    case Fixed32Item(_, _) =>
  }

  lemma TagToken(tag: seq<byte>, s: seq<byte>, i: nat)
    requires (IsTag(tag, 3) || IsTag(tag, 4)) && At(s, i, tag)
    ensures NextToken(s, i) == Ok(if IsTag(tag, 3) then Open(i + |tag|) else Close(i + |tag|))
  {
    ReadAt(s, i, tag);
  }

  /** What the loop makes of reaching `next` inside `depth` groups. */
  function Continue(s: seq<byte>, next: nat, depth: nat): Walk {
    if depth == 0 then Done(next) else SkipFrom(s, next, depth)
  }

  /** A complete field is walked over as a whole, at any depth. */
  lemma {:induction false} WalkItem(x: Item, s: seq<byte>, i: nat, depth: nat)
    requires Complete(x) && |s| <= MAX_INT && At(s, i, Flat(x))
    ensures SkipFrom(s, i, depth) == Continue(s, i + |Flat(x)|, depth)
    decreases x
  {
    hide NextToken, Value, IsVarint;
    ItemNonEmpty(x);
    if x.GroupItem? {
      var j, k := i + |x.tag|, i + |x.tag| + |FlatAll(x.members)|;
      AtConcat(s, i, x.tag, FlatAll(x.members) + x.end);
      AtConcat(s, j, FlatAll(x.members), x.end);
      TagToken(x.tag, s, i);
      assert SkipFrom(s, i, depth) == SkipFrom(s, j, depth + 1);
      WalkItems(x.members, s, j, depth + 1);
      TagToken(x.end, s, k);
    } else {
      LeafToken(x, s, i);
    }
  }

  lemma {:induction false} WalkItems(xs: Items, s: seq<byte>, i: nat, depth: nat)
    requires AllComplete(xs) && depth > 0 && |s| <= MAX_INT && At(s, i, FlatAll(xs))
    ensures SkipFrom(s, i, depth) == SkipFrom(s, i + |FlatAll(xs)|, depth)
    decreases xs
  {
    hide SkipFrom, NextToken, Read, Scan, Value, Digits, IsVarint;
    match xs
    case Nil =>
    case Cons(x, rest) =>
      AtConcat(s, i, Flat(x), FlatAll(rest));
      WalkItem(x, s, i, depth);
      WalkItems(rest, s, i + |Flat(x)|, depth);
  }

  // --------------------------------------------- and it accepts only that

  /** One open group, waiting: the fields still to come in it, and its end tag. */
  datatype Frame = Frame(members: Items, end: seq<byte>)

  predicate FramesComplete(fs: seq<Frame>) {
    forall k :: 0 <= k < |fs| ==> AllComplete(fs[k].members) && IsTag(fs[k].end, 4)
  }

  function FlatFrames(fs: seq<Frame>): seq<byte> {
    if |fs| == 0 then []
    else FlatAll(fs[0].members) + (fs[0].end + FlatFrames(fs[1..]))
  }

  /** A leaf token spans exactly one complete field, if it lies inside the input. */
  lemma LeafItem(s: seq<byte>, i: nat) returns (x: Item)
    requires i <= |s| && NextToken(s, i).Ok?
    requires NextToken(s, i).value.Leaf? && NextToken(s, i).value.next <= |s|
    ensures Complete(x) && Flat(x) == s[i..NextToken(s, i).value.next]
  {
    var next := NextToken(s, i).value.next;
    var Ok((v, j)) := Read(s, i);
    ReadExact(s, i, v, j);
    var tag := s[i..j];
    assert s[i..next] == tag + s[j..next];
    match WireType(v)
    case 0 =>
      var Ok((w, _)) := Read(s, j);
      ReadExact(s, j, w, next);
      x := VarintItem(tag, s[j..next]);
    case 1 => x := Fixed64Item(tag, s[j..next]);
    case 5 => x := Fixed32Item(tag, s[j..next]);
    case _ =>
      var Ok((w, k)) := Read(s, j);
      ReadExact(s, j, w, k);
      assert s[j..next] == s[j..k] + s[k..next];
      x := BytesItem(tag, s[j..k], s[k..next]);
  }

  lemma TagBytes(s: seq<byte>, i: nat) returns (tag: seq<byte>)
    requires i <= |s| && NextToken(s, i).Ok? && !NextToken(s, i).value.Leaf?
    ensures NextToken(s, i).value.next <= |s| && tag == s[i..NextToken(s, i).value.next]
    ensures IsTag(tag, if NextToken(s, i).value.Open? then 3 else 4)
  {
    var Ok((v, j)) := Read(s, i);
    ReadExact(s, i, v, j);
    tag := s[i..j];
  }

  /** A walk that ends inside the input has closed every group that was open. */
  lemma {:induction false} WalkFrames(s: seq<byte>, i: nat, depth: nat) returns (fs: seq<Frame>)
    requires depth > 0
    requires SkipFrom(s, i, depth).Done? && SkipFrom(s, i, depth).next <= |s|
    ensures |fs| == depth && FramesComplete(fs)
    ensures FlatFrames(fs) == s[i..SkipFrom(s, i, depth).next]
    decreases |s| - i
  {
    var t, n := NextToken(s, i).value, SkipFrom(s, i, depth).next;
    var gs: seq<Frame> := [];
    if DepthAfter(t, depth) > 0 {
      gs := WalkFrames(s, t.next, DepthAfter(t, depth));
    }
    assert FlatFrames(gs) == s[t.next..n];
    Split(s, i, t.next, n);
    match t
    case Leaf(_) =>
      var x := LeafItem(s, i);
      fs := Push(x, gs);
    case Open(_) =>
      var tag := TagBytes(s, i);
      fs := CloseFirst(tag, gs);
    case Close(_) =>
      var tag := TagBytes(s, i);
      fs := OpenOuter(tag, gs);
  }

  lemma Split(s: seq<byte>, i: nat, j: nat, n: nat)
    requires i <= j <= n <= |s|
    ensures s[i..n] == s[i..j] + s[j..n]
  {
  }

  /** An end-group tag is a group with nothing left in it. */
  lemma OpenOuter(tag: seq<byte>, gs: seq<Frame>) returns (fs: seq<Frame>)
    requires FramesComplete(gs) && IsTag(tag, 4)
    ensures |fs| == |gs| + 1 && FramesComplete(fs)
    ensures FlatFrames(fs) == tag + FlatFrames(gs)
  {
    fs := [Frame(Nil, tag)] + gs;
    assert fs[1..] == gs;
    assert FlatFrames(fs) == [] + (tag + FlatFrames(gs));
  }

  /** Put a field in front of what the innermost group still holds. */
  lemma Push(x: Item, gs: seq<Frame>) returns (fs: seq<Frame>)
    requires |gs| > 0 && FramesComplete(gs) && Complete(x)
    ensures |fs| == |gs| && FramesComplete(fs)
    ensures FlatFrames(fs) == Flat(x) + FlatFrames(gs)
  {
    fs := [Frame(Cons(x, gs[0].members), gs[0].end)] + gs[1..];
    assert fs[1..] == gs[1..];
    assert FlatFrames(fs) == (Flat(x) + FlatAll(gs[0].members)) + (gs[0].end + FlatFrames(gs[1..]));
  }

  /** Turn the innermost group, now complete, into a field of the one around it. */
  lemma CloseFirst(tag: seq<byte>, gs: seq<Frame>) returns (fs: seq<Frame>)
    requires |gs| > 1 && FramesComplete(gs) && IsTag(tag, 3)
    ensures |fs| == |gs| - 1 && FramesComplete(fs)
    ensures FlatFrames(fs) == tag + FlatFrames(gs)
  {
    var x := GroupItem(tag, gs[0].members, gs[0].end);
    fs := Push(x, gs[1..]);
    assert FlatFrames(fs) == (tag + (FlatAll(x.members) + x.end)) + FlatFrames(gs[1..]);
    assert FlatFrames(gs) == FlatAll(x.members) + (x.end + FlatFrames(gs[1..]));
  }

  /** From depth zero, a walk that ends inside the input has crossed one complete field. */
  lemma WalkedItem(s: seq<byte>) returns (x: Item)
    requires SkipFrom(s, 0, 0).Done? && SkipFrom(s, 0, 0).next <= |s|
    ensures Complete(x) && Flat(x) == s[..SkipFrom(s, 0, 0).next]
  {
    hide NextToken, Read, IsVarint, Value;
    var t, n := NextToken(s, 0).value, SkipFrom(s, 0, 0).next;
    if t.Leaf? {
      x := LeafItem(s, 0);
    } else {
      var fs := WalkFrames(s, t.next, 1);
      var tag := TagBytes(s, 0);
      x := GroupItem(tag, fs[0].members, fs[0].end);
      assert fs[1..] == [];
      assert FlatFrames(fs) == FlatAll(fs[0].members) + (fs[0].end + []);
      assert s[..n] == s[0..t.next] + s[t.next..n];
    }
  }

  /**
   The depth counter refines the grammar: the walk ends at `n` inside the input
   exactly when the first `n` bytes are one complete field.
   */
  lemma SkipExact(s: seq<byte>, n: nat)
    requires n <= |s| <= MAX_INT
    ensures SkipFrom(s, 0, 0) == Done(n) <==> IsItem(s[..n])
  {
    hide SkipFrom, Complete, Flat;
    if SkipFrom(s, 0, 0) == Done(n) {
      var x := WalkedItem(s);
    }
    if IsItem(s[..n]) {
      var x :| Complete(x) && Flat(x) == s[..n];
      assert At(s, 0, Flat(x));
      WalkItem(x, s, 0, 0);
    }
  }

  /** At most one prefix of an input is a complete field. */
  lemma ItemPrefixUnique(s: seq<byte>, m: nat, n: nat)
    requires m <= |s| && n <= |s| && IsItem(s[..m]) && IsItem(s[..n])
    ensures m == n
  {
    var x :| Complete(x) && Flat(x) == s[..m];
    var y :| Complete(y) && Flat(y) == s[..n];
    assert s == s[..m] + s[m..] == s[..n] + s[n..];
    Unambiguous(x, s[m..], y, s[n..]);
  }

  // ------------------------------------------------- appending more bytes

  lemma {:induction false} ScanAppend(s: seq<byte>, t: seq<byte>, i: nat, k: nat)
    requires i + k <= |s| && k <= 10 && Scan(s, i, k).Ok?
    ensures Scan(s + t, i, k) == Scan(s, i, k)
    decreases 10 - k
  {
    if s[i + k] >= 128 {
      ScanAppend(s, t, i, k + 1);
    }
  }

  lemma ReadAppend(s: seq<byte>, t: seq<byte>, i: nat)
    requires i <= |s| && Read(s, i).Ok?
    ensures Read(s + t, i) == Read(s, i)
  {
    ScanAppend(s, t, i, 0);
    var n := Scan(s, i, 0).value;
    assert (s + t)[i..i + n] == s[i..i + n];
  }

  lemma PrefixAppend(s: seq<byte>, t: seq<byte>, i: nat)
    requires i <= |s| && Prefix(s, i).Ok?
    ensures Prefix(s + t, i) == Prefix(s, i)
  {
    ReadAppend(s, t, i);
  }

  lemma TokenAppend(s: seq<byte>, t: seq<byte>, i: nat)
    requires i <= |s| && NextToken(s, i).Ok?
    ensures NextToken(s + t, i) == NextToken(s, i)
  {
    ReadAppend(s, t, i);
    var (tag, j) := Read(s, i).value;
    if WireType(tag) == 0 || WireType(tag) == 2 {
      ReadAppend(s, t, j);
    }
  }

  /** Once the walk knows where the field ends, further bytes cannot change that. */
  lemma {:induction false} SkipAppend(s: seq<byte>, t: seq<byte>, i: nat, depth: nat)
    requires SkipFrom(s, i, depth).Done?
    ensures SkipFrom(s + t, i, depth) == SkipFrom(s, i, depth)
    decreases |s| - i
  {
    TokenAppend(s, t, i);
    var k := NextToken(s, i).value;
    if DepthAfter(k, depth) > 0 {
      SkipAppend(s, t, k.next, DepthAfter(k, depth));
    }
  }

  // ---------------------------------------------------------------- the loop

  /** What `skip*` answers: an end behind 2^63 - 1 wraps, and is an invalid length. */
  function Skipped(s: seq<byte>): Result<int64> {
    match SkipFrom(s, 0, 0)
    case Done(n) => if n > MAX_INT then Err(InvalidLength) else Ok(n)
    case Stuck(e) => Err(e)
  }

  /**
   The depth counter refines the grammar: the answer is an index `n` inside the
   input exactly when the first `n` bytes are one complete field.
   */
  lemma SkippedExact(s: seq<byte>)
    requires |s| <= MAX_INT
    ensures forall n: nat | n <= |s| :: Skipped(s) == Ok(n) <==> IsItem(s[..n])
  {
    forall n: nat | n <= |s|
      ensures Skipped(s) == Ok(n) <==> IsItem(s[..n])
    {
      SkipExact(s, n);
    }
  }

  /** `skip*`: the loop over one unknown field. */
  method SkipField(dAtA: seq<byte>) returns (r: Result<int64>)
    requires |dAtA| <= MAX_INT
    ensures r == Skipped(dAtA)
    ensures r.Ok? ==> r.value > 0
    ensures forall n: nat | n <= |dAtA| :: r == Ok(n) <==> IsItem(dAtA[..n])
  {
    SkippedExact(dAtA);
    r := SkipLoop(dAtA);
  }

  method SkipLoop(dAtA: seq<byte>) returns (r: Result<int64>)
    requires |dAtA| <= MAX_INT
    ensures r == Skipped(dAtA)
  {
    hide Read, Or, And, Wrap;
    var l := |dAtA|;
    var iNdEx: int64, depth: int := 0, 0;
    while iNdEx < l
      invariant 0 <= iNdEx && depth >= 0
      invariant SkipFrom(dAtA, 0, 0) == SkipFrom(dAtA, iNdEx, depth)
      decreases l - iNdEx
    {
      var wire, j := ReadUint64(dAtA, iNdEx);
      if wire.Err? {
        return Err(wire.error);
      }
      MaskFacts(wire.value);
      ghost var start := iNdEx;
      iNdEx := j;
      var wireType := And(wire.value, 0x7);
      match wireType {
        case 0 =>
          var k := SkipVarint(dAtA, iNdEx);
          if k.Err? {
            return Err(k.error);
          }
          iNdEx := k.value;
        case 1 =>
          WrapValue(iNdEx + 8);
          iNdEx := Wrap(iNdEx + 8);
        case 2 =>
          var length, k := ReadInt(dAtA, iNdEx);
          if length.Err? {
            return Err(length.error);
          }
          iNdEx := k;
          if length.value < 0 {
            return Err(InvalidLength);
          }
          WrapValue(iNdEx + length.value);
          iNdEx := Wrap(iNdEx + length.value);
        case 3 =>
          depth := depth + 1;
        case 4 =>
          if depth == 0 {
            return Err(UnexpectedEndOfGroup);
          }
          depth := depth - 1;
        case 5 =>
          WrapValue(iNdEx + 4);
          iNdEx := Wrap(iNdEx + 4);
        case _ =>
          return Err(IllegalWireType);
      }
      ghost var t := NextToken(dAtA, start).value;
      assert t.next < TWO_64 && iNdEx == if t.next <= MAX_INT then t.next else t.next - TWO_64;
      if iNdEx < 0 {
        return Err(InvalidLength);
      }
      if depth == 0 {
        return Ok(iNdEx);
      }
    }
    r := Err(UnexpectedEOF);
  }
}
