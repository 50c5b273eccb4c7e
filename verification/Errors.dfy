/**
 Which error an input gets, told from its bytes: the fields in front, and what is
 wrong with the field behind them. Every error of `skip*` and of `Unmarshal` has its
 exact condition here.
 */
module Errors {
  import opened Machine
  import opened Varint
  import opened Grammar
  import opened Skip
  import opened Decoding
  import opened Laws

  // ------------------------------------------------------------- one varint

  /** Ten continuation bytes, or the end of the input behind fewer. */
  predicate ReadFails(s: seq<byte>, i: nat, e: Error) {
    && i <= |s|
    && match e
       case IntOverflow => i + 10 <= |s| && forall k :: i <= k < i + 10 ==> s[k] >= 128
       case UnexpectedEOF => |s| < i + 10 && forall k :: i <= k < |s| ==> s[k] >= 128
       case _ => false
  }

  lemma {:induction false} ScanFails(s: seq<byte>, i: nat, k: nat, e: Error)
    requires i + k <= |s| && k <= 10
    requires forall j :: i <= j < i + k ==> s[j] >= 128
    ensures Scan(s, i, k) == Err(e) <==> ReadFails(s, i, e)
    decreases 10 - k
  {
    if k < 10 && i + k < |s| {
      if s[i + k] >= 128 {
        ScanFails(s, i, k + 1, e);
      }
    }
  }

  /** The two errors of the reading loop, on the bytes. */
  lemma ReadErrorExact(s: seq<byte>, i: nat, e: Error)
    requires i <= |s|
    ensures Read(s, i) == Err(e) <==> ReadFails(s, i, e)
  {
    hide Value;
    ScanFails(s, i, 0, e);
  }

  /** A length prefix fails as a varint, or is 2^63 or more. */
  predicate LengthFails(s: seq<byte>, i: nat, e: Error) {
    || ReadFails(s, i, e)
    || (i <= |s| && Read(s, i).Ok? && Read(s, i).value.0 >= TWO_63 && e == InvalidLength)
  }

  lemma LengthErrorExact(s: seq<byte>, i: nat, e: Error)
    requires i <= |s|
    ensures Prefix(s, i) == Err(e) <==> LengthFails(s, i, e)
  {
    hide Read, ReadFails;
    ReadErrorExact(s, i, e);
  }

  // ------------------------------------------------------------- one token

  /** The tag does not read, its payload varint or length does not, or it is of type 6 or 7. */
  predicate TokenFails(s: seq<byte>, i: nat, e: Error) {
    || ReadFails(s, i, e)
    || (&& i <= |s| && Read(s, i).Ok?
        && var (tag, j) := Read(s, i).value;
        || (WireType(tag) == 0 && ReadFails(s, j, e))
        || (WireType(tag) == 2 && LengthFails(s, j, e))
        || (WireType(tag) >= 6 && e == IllegalWireType))
  }

  lemma TokenErrorExact(s: seq<byte>, i: nat, e: Error)
    requires i <= |s|
    ensures NextToken(s, i) == Err(e) <==> TokenFails(s, i, e)
  {
    hide Read, Prefix, ReadFails, LengthFails;
    ReadErrorExact(s, i, e);
    if Read(s, i).Ok? {
      var j := Read(s, i).value.1;
      ReadErrorExact(s, j, e);
      LengthErrorExact(s, j, e);
    }
  }

  /** What an end behind the input is called. */
  function LateEnd(end: nat): Error {
    if end > MAX_INT then InvalidLength else UnexpectedEOF
  }

  // -------------------------------------------------------- the skip loop

  /** A group that has been opened, and the complete fields read in it so far. */
  datatype Opening = Opening(tag: seq<byte>, members: Items)

  predicate OpeningsComplete(gs: seq<Opening>) {
    forall k :: 0 <= k < |gs| ==> IsTag(gs[k].tag, 3) && AllComplete(gs[k].members)
  }

  function FlatOpen(gs: seq<Opening>): seq<byte> {
    if |gs| == 0 then [] else gs[0].tag + (FlatAll(gs[0].members) + FlatOpen(gs[1..]))
  }

  /** What stops the loop at `i` inside `depth` open groups. */
  predicate StopsWith(s: seq<byte>, i: nat, depth: nat, e: Error) {
    && i <= |s|
    && (|| (i == |s| && e == UnexpectedEOF)
        || (i < |s| && TokenFails(s, i, e))
        || (i < |s| && NextToken(s, i).Ok? && NextToken(s, i).value.Close? && depth == 0
            && e == UnexpectedEndOfGroup)
        || (i < |s| && NextToken(s, i).Ok? && NextToken(s, i).value.next > |s| && depth > 0
            && e == LateEnd(NextToken(s, i).value.next)))
  }

  /** Open groups `gs` stand at the front of `s`, and behind them the loop stops. */
  ghost predicate WalkFails(s: seq<byte>, gs: seq<Opening>, e: Error) {
    && OpeningsComplete(gs) && At(s, 0, FlatOpen(gs))
    && StopsWith(s, |FlatOpen(gs)|, |gs|, e)
  }

  lemma StopIsStuck(s: seq<byte>, i: nat, depth: nat, e: Error)
    requires |s| <= MAX_INT && StopsWith(s, i, depth, e)
    ensures SkipFrom(s, i, depth) == Stuck(e)
  {
    hide TokenFails, NextToken;
    if i < |s| {
      TokenErrorExact(s, i, e);
      if NextToken(s, i).Ok? && NextToken(s, i).value.next > |s| {
        TagsEndInside(s, i);
      }
    }
  }

  /** Only a payload can end behind the input; tags are read. */
  lemma TagsEndInside(s: seq<byte>, i: nat)
    requires i <= |s| && NextToken(s, i).Ok?
    ensures NextToken(s, i).value.next > |s| ==> NextToken(s, i).value.Leaf?
  {
    hide Read, Prefix;
  }

  lemma {:induction false} WalkOpen(gs: seq<Opening>, s: seq<byte>, i: nat, depth: nat)
    requires OpeningsComplete(gs) && At(s, i, FlatOpen(gs)) && |s| <= MAX_INT
    ensures SkipFrom(s, i, depth) == SkipFrom(s, i + |FlatOpen(gs)|, depth + |gs|)
    decreases |gs|
  {
    hide SkipFrom, IsTag, FlatOpen, FlatAll, At, AllComplete, OpeningsComplete;
    if |gs| == 0 {
      NoOpenings(gs);
    } else {
      OpenParts(gs, s, i);
      var g, rest := gs[0], gs[1..];
      var j := i + |g.tag|;
      var k := j + |FlatAll(g.members)|;
      OpenStep(g.tag, s, i, depth);
      WalkItems(g.members, s, j, depth + 1);
      WalkOpen(rest, s, k, depth + 1);
      assert k + |FlatOpen(rest)| == i + |FlatOpen(gs)| && depth + 1 + |rest| == depth + |gs|;
    }
  }

  lemma NoOpenings(gs: seq<Opening>)
    requires |gs| == 0
    ensures FlatOpen(gs) == []
  {
  }

  lemma OpenParts(gs: seq<Opening>, s: seq<byte>, i: nat)
    requires |gs| > 0 && OpeningsComplete(gs) && At(s, i, FlatOpen(gs))
    ensures var j := i + |gs[0].tag|;
            var k := j + |FlatAll(gs[0].members)|;
            && IsTag(gs[0].tag, 3) && At(s, i, gs[0].tag)
            && AllComplete(gs[0].members) && At(s, j, FlatAll(gs[0].members))
            && OpeningsComplete(gs[1..]) && At(s, k, FlatOpen(gs[1..]))
            && i + |FlatOpen(gs)| == k + |FlatOpen(gs[1..])|
  {
    hide IsTag, AllComplete, At, FlatAll;
    var g, rest := gs[0], gs[1..];
    assert FlatOpen(gs) == g.tag + (FlatAll(g.members) + FlatOpen(rest));
    hide FlatOpen;
    AtConcat(s, i, g.tag, FlatAll(g.members) + FlatOpen(rest));
    AtConcat(s, i + |g.tag|, FlatAll(g.members), FlatOpen(rest));
  }

  lemma OpenStep(tag: seq<byte>, s: seq<byte>, i: nat, depth: nat)
    requires IsTag(tag, 3) && At(s, i, tag) && |s| <= MAX_INT
    ensures SkipFrom(s, i, depth) == SkipFrom(s, i + |tag|, depth + 1)
  {
    assert |tag| >= 1;
    hide NextToken, Value, IsVarint;
    TagToken(tag, s, i);
  }

  /** From some depth on: groups that close, then fields, then groups that stay open. */
  datatype Path = Path(closed: seq<Frame>, members: Items, pending: seq<Opening>)

  predicate PathComplete(p: Path) {
    FramesComplete(p.closed) && AllComplete(p.members) && OpeningsComplete(p.pending)
  }

  function FlatPath(p: Path): seq<byte> {
    FlatFrames(p.closed) + (FlatAll(p.members) + FlatOpen(p.pending))
  }

  /** Put a field in front. */
  lemma PathPush(x: Item, p: Path) returns (q: Path)
    requires PathComplete(p) && Complete(x)
    ensures PathComplete(q) && FlatPath(q) == Flat(x) + FlatPath(p)
    ensures |q.closed| == |p.closed| && q.pending == p.pending
  {
    hide FlatFrames, FlatOpen, Flat, Complete;
    if |p.closed| > 0 {
      var fs := Push(x, p.closed);
      q := p.(closed := fs);
    } else {
      q := p.(members := Cons(x, p.members));
      NoFrames(p.closed);
    }
  }

  lemma NoFrames(fs: seq<Frame>)
    requires |fs| == 0
    ensures FlatFrames(fs) == []
  {
  }

  /** Put a start-group tag in front: its group closes on the path, or stays open. */
  lemma PathOpen(tag: seq<byte>, p: Path) returns (q: Path)
    requires PathComplete(p) && IsTag(tag, 3)
    ensures PathComplete(q) && FlatPath(q) == tag + FlatPath(p)
    ensures |p.closed| > 0 ==> |q.closed| == |p.closed| - 1 && q.pending == p.pending
    ensures |p.closed| == 0 ==> q.closed == [] && q.members == Nil && |q.pending| == |p.pending| + 1
  {
    hide IsTag;
    if |p.closed| > 0 {
      var f := p.closed[0];
      var x := GroupItem(tag, f.members, f.end);
      q := PathPush(x, p.(closed := p.closed[1..]));
      GroupBytes(tag, f, FlatFrames(p.closed[1..]), FlatAll(p.members) + FlatOpen(p.pending));
    } else {
      var gs := [Opening(tag, p.members)] + p.pending;
      assert gs[1..] == p.pending;
      q := Path([], Nil, gs);
      assert FlatPath(q) == [] + ([] + (tag + (FlatAll(p.members) + FlatOpen(p.pending))));
      assert FlatPath(p) == [] + (FlatAll(p.members) + FlatOpen(p.pending));
    }
  }

  lemma GroupBytes(tag: seq<byte>, f: Frame, closed: seq<byte>, rest: seq<byte>)
    ensures Flat(GroupItem(tag, f.members, f.end)) + (closed + rest)
            == tag + ((FlatAll(f.members) + (f.end + closed)) + rest)
  {
  }

  /** Put an end-group tag in front. */
  lemma PathClose(tag: seq<byte>, p: Path) returns (q: Path)
    requires PathComplete(p) && IsTag(tag, 4)
    ensures PathComplete(q) && FlatPath(q) == tag + FlatPath(p)
    ensures |q.closed| == |p.closed| + 1 && q.pending == p.pending
  {
    hide IsTag, FlatFrames, FlatOpen;
    var fs := OpenOuter(tag, p.closed);
    q := p.(closed := fs);
  }

  /** Where a stuck walk has been: nothing closes that was not open, and the rest is open. */
  lemma {:induction false} StuckPath(s: seq<byte>, i: nat, depth: nat, e: Error) returns (p: Path)
    requires i <= |s| <= MAX_INT && SkipFrom(s, i, depth) == Stuck(e)
    ensures PathComplete(p) && At(s, i, FlatPath(p))
    ensures if depth == 0 then p.closed == [] && p.members == Nil else |p.closed| < depth
    ensures StopsWith(s, i + |FlatPath(p)|, depth - |p.closed| + |p.pending|, e)
    decreases |s| - i
  {
    hide NextToken, TokenFails, IsTag, Complete, Flat;
    p := Path([], Nil, []);
    if i < |s| {
      TokenErrorExact(s, i, e);
      if NextToken(s, i).Ok? {
        var t := NextToken(s, i).value;
        if DepthAfter(t, depth) > 0 {
          if t.next > |s| {
            TagsEndInside(s, i);
          } else {
            var q := StuckPath(s, t.next, DepthAfter(t, depth), e);
            p := PathStep(s, i, depth, q);
          }
        }
      }
    }
  }

  /** One token in front of a path. */
  lemma PathStep(s: seq<byte>, i: nat, depth: nat, q: Path) returns (p: Path)
    requires i < |s| && NextToken(s, i).Ok? && NextToken(s, i).value.next <= |s|
    requires DepthAfter(NextToken(s, i).value, depth) > 0
    requires PathComplete(q) && At(s, NextToken(s, i).value.next, FlatPath(q))
    requires |q.closed| < DepthAfter(NextToken(s, i).value, depth)
    ensures PathComplete(p) && At(s, i, FlatPath(p))
    ensures i + |FlatPath(p)| == NextToken(s, i).value.next + |FlatPath(q)|
    ensures if depth == 0 then p.closed == [] && p.members == Nil else |p.closed| < depth
    ensures depth - |p.closed| + |p.pending|
            == DepthAfter(NextToken(s, i).value, depth) - |q.closed| + |q.pending|
  {
    hide NextToken, IsTag, Complete, Flat, FlatPath, PathComplete;
    var t := NextToken(s, i).value;
    var head := s[i..t.next];
    match t {
      case Leaf(_) =>
        var x := LeafItem(s, i);
        p := PathPush(x, q);
      case Open(_) =>
        var tag := TagBytes(s, i);
        p := PathOpen(tag, q);
      case Close(_) =>
        var tag := TagBytes(s, i);
        p := PathClose(tag, q);
    }
    AtSlice(s, i, head);
    AtConcat(s, i, head, FlatPath(q));
  }

  lemma OnlyPending(p: Path)
    requires p.closed == [] && p.members == Nil
    ensures FlatPath(p) == FlatOpen(p.pending)
  {
    NoFrames(p.closed);
  }

  /**
   The skip loop gets stuck with an error exactly when the input starts with open groups,
   each followed by complete fields, and what follows stops the loop with that error.
   */
  lemma StuckExact(s: seq<byte>, e: Error)
    requires |s| <= MAX_INT
    ensures SkipFrom(s, 0, 0) == Stuck(e) <==> exists gs :: WalkFails(s, gs, e)
  {
    hide SkipFrom, StopsWith, OpeningsComplete, At, FlatPath, FlatOpen;
    if SkipFrom(s, 0, 0) == Stuck(e) {
      var p := StuckPath(s, 0, 0, e);
      OnlyPending(p);
      assert WalkFails(s, p.pending, e);
    }
    if gs :| WalkFails(s, gs, e) {
      WalkOpen(gs, s, 0, 0);
      StopIsStuck(s, |FlatOpen(gs)|, |gs|, e);
    }
  }

  // ------------------------------------------------------- the decoding loop

  /** A tag reads at `i`, of admitted wire type and positive number. */
  predicate AdmittedTag(s: seq<byte>, i: nat) {
    && i < |s| && Read(s, i).Ok?
    && WireType(Read(s, i).value.0) != 4 && FieldNumber(Read(s, i).value.0) > 0
  }

  predicate DeclaredTag(schema: Schema, s: seq<byte>, i: nat) {
    AdmittedTag(s, i) && FieldNumber(Read(s, i).value.0) in schema
  }

  predicate StrayEnd(s: seq<byte>, i: nat) {
    i < |s| && Read(s, i).Ok? && WireType(Read(s, i).value.0) == 4
  }

  predicate BadNumber(s: seq<byte>, i: nat) {
    && i < |s| && Read(s, i).Ok?
    && WireType(Read(s, i).value.0) != 4 && FieldNumber(Read(s, i).value.0) <= 0
  }

  predicate BadType(schema: Schema, s: seq<byte>, i: nat) {
    DeclaredTag(schema, s, i) && WireType(Read(s, i).value.0) != 2
  }

  predicate BadLength(schema: Schema, s: seq<byte>, i: nat, e: Error) {
    && DeclaredTag(schema, s, i) && WireType(Read(s, i).value.0) == 2
    && LengthFails(s, Read(s, i).value.1, e)
  }

  ghost predicate BadUnknown(schema: Schema, s: seq<byte>, i: nat, e: Error) {
    && AdmittedTag(s, i) && !DeclaredTag(schema, s, i)
    && exists gs :: WalkFails(s[i..], gs, e)
  }

  ghost predicate BadEnd(schema: Schema, s: seq<byte>, i: nat, e: Error) {
    exists end: nat :: PayloadMissing(schema, s, i, end) && e == LateEnd(end)
  }

  /** A nested message is all there, and fails itself. */
  ghost predicate BadNested(schema: Schema, s: seq<byte>, i: nat, e: Error)
    decreases |s|, 0
  {
    && DeclaredTag(schema, s, i) && WireType(Read(s, i).value.0) == 2
    && schema[FieldNumber(Read(s, i).value.0)].ParamsField?
    && Prefix(s, Read(s, i).value.1).Ok?
    && var (start, end) := Prefix(s, Read(s, i).value.1).value;
    && end <= |s| && Fails(EMPTY, s[start..end], e)
  }

  /** What is wrong with the field at `i`, cause by cause. */
  ghost predicate FieldFails(schema: Schema, s: seq<byte>, i: nat, e: Error)
    decreases |s|, 1
  {
    || ReadFails(s, i, e)
    || (StrayEnd(s, i) && e == EndGroupTag)
    || (BadNumber(s, i) && e == IllegalTag)
    || (BadType(schema, s, i) && e == WrongWireType)
    || BadLength(schema, s, i, e)
    || BadUnknown(schema, s, i, e)
    || BadEnd(schema, s, i, e)
    || BadNested(schema, s, i, e)
  }

  /** Allowed fields `xs` stand at the front of `s`, and something follows. */
  ghost predicate Front(schema: Schema, s: seq<byte>, xs: Items) {
    && AllComplete(xs) && AllAllowed(schema, xs)
    && At(s, 0, FlatAll(xs)) && |FlatAll(xs)| < |s|
  }

  /** `s` is a run of allowed fields, and then a field that fails with `e`. */
  ghost predicate Fails(schema: Schema, s: seq<byte>, e: Error)
    decreases |s|, 2
  {
    exists xs :: Front(schema, s, xs) && FieldFails(schema, s, |FlatAll(xs)|, e)
  }

  /** One loop turn halts with an error exactly when the field there fails with it. */
  lemma {:induction false} FieldErrorExact(schema: Schema, s: seq<byte>, i: nat, e: Error)
    requires i < |s| <= MAX_INT
    ensures (ReadField(schema, s, i).Halt? && StatusOf(ReadField(schema, s, i).fault) == Failure(e))
            <==> FieldFails(schema, s, i, e)
    decreases |s|, 1
  {
    hide Read, Prefix, SkipUnknown, FieldNumber, WireType, Fails, ReadFails, LengthFails, WalkFails;
    hide BadEnd, PayloadMissing, Decode;
    OverrunError(schema, s, i, e);
    ReadErrorExact(s, i, e);
    if AdmittedTag(s, i) && !DeclaredTag(schema, s, i) {
      UnknownError(s, i, e);
    }
    if DeclaredTag(schema, s, i) && WireType(Read(s, i).value.0) == 2 {
      DeclaredError(schema, s, i, e);
    }
  }

  lemma OverrunError(schema: Schema, s: seq<byte>, i: nat, e: Error)
    requires i < |s|
    ensures BadEnd(schema, s, i, e)
            <==> (ReadField(schema, s, i).Halt? && ReadField(schema, s, i).fault.Overrun?
                  && StatusOf(ReadField(schema, s, i).fault) == Failure(e))
  {
    hide ReadField, PayloadMissing;
    if end: nat :| PayloadMissing(schema, s, i, end) && e == LateEnd(end) {
      FieldOverrun(schema, s, i, end);
    }
    if ReadField(schema, s, i).Halt? && ReadField(schema, s, i).fault.Overrun? {
      FieldOverrun(schema, s, i, ReadField(schema, s, i).fault.end);
    }
  }

  lemma UnknownError(s: seq<byte>, i: nat, e: Error)
    requires i < |s| <= MAX_INT
    ensures SkipUnknown(s, i) == Halt(Failed(e)) <==> exists gs :: WalkFails(s[i..], gs, e)
  {
    hide SkipFrom, WalkFails;
    StuckExact(s[i..], e);
  }

  lemma {:induction false} DeclaredError(schema: Schema, s: seq<byte>, i: nat, e: Error)
    requires i < |s| <= MAX_INT
    requires DeclaredTag(schema, s, i) && WireType(Read(s, i).value.0) == 2
    ensures ReadField(schema, s, i) == Halt(Failed(e))
            <==> BadLength(schema, s, i, e) || BadNested(schema, s, i, e)
    decreases |s|, 0
  {
    hide Read, Prefix, SkipUnknown, FieldNumber, LengthFails, Fails, Decode;
    var (wire, j) := Read(s, i).value;
    LengthErrorExact(s, j, e);
    if Prefix(s, j).Ok? {
      var (start, end) := Prefix(s, j).value;
      if end <= |s| && schema[FieldNumber(wire)].ParamsField? {
        StatusExact(EMPTY, s[start..end], [], e);
      }
    }
  }

  /**
   The exact error of every input: `Unmarshal` fails with `e` if and only if the bytes
   are a run of allowed fields and then a field that fails with `e`.
   */
  lemma {:induction false} StatusExact(schema: Schema, s: seq<byte>, m: seq<byte>, e: Error)
    requires |s| <= MAX_INT
    ensures StatusOf(Decode(schema, s, 0, m).fault) == Failure(e) <==> Fails(schema, s, e)
    decreases |s|, 2
  {
    hide ReadField, FieldFails, AllComplete, AllAllowed, FlatAll;
    var ys := DecodedFields(schema, s, 0, m);
    if |FlatAll(ys)| < |s| {
      FieldErrorExact(schema, s, |FlatAll(ys)|, e);
      assert StatusOf(Decode(schema, s, 0, m).fault) == Failure(e) ==>
               Front(schema, s, ys) && FieldFails(schema, s, |FlatAll(ys)|, e);
    }
    if xs :| Front(schema, s, xs) && FieldFails(schema, s, |FlatAll(xs)|, e) {
      DecodeFront(schema, xs, s, 0, m);
      FieldErrorExact(schema, s, |FlatAll(xs)|, e);
    }
  }

  // ------------------------------------------------------ single errors

  lemma EmptyHasNoTypes(s: seq<byte>)
    ensures !Fails(EMPTY, s, WrongWireType)
  {
    hide Front, FieldFails, FlatAll;
    if Fails(EMPTY, s, WrongWireType) {
      var xs :| Front(EMPTY, s, xs) && FieldFails(EMPTY, s, |FlatAll(xs)|, WrongWireType);
      EmptyFieldHasNoType(s, |FlatAll(xs)|);
    }
  }

  lemma EmptyFieldHasNoType(s: seq<byte>, i: nat)
    ensures !FieldFails(EMPTY, s, i, WrongWireType)
  {
    hide Read, Prefix, NextToken, FieldNumber, WireType, FlatOpen, At, PayloadMissing, Fails;
  }

  /** A wrong wire type is reported exactly for a declared field of another type. */
  lemma WrongWireTypeExact(schema: Schema, s: seq<byte>, m: seq<byte>)
    requires |s| <= MAX_INT
    ensures StatusOf(Decode(schema, s, 0, m).fault) == Failure(WrongWireType)
            <==> exists xs :: Front(schema, s, xs) && BadType(schema, s, |FlatAll(xs)|)
  {
    hide Decode, Front, BadType, FlatAll;
    StatusExact(schema, s, m, WrongWireType);
    if xs :| Front(schema, s, xs) && FieldFails(schema, s, |FlatAll(xs)|, WrongWireType) {
      OnlyBadType(schema, s, |FlatAll(xs)|);
    }
    if xs :| Front(schema, s, xs) && BadType(schema, s, |FlatAll(xs)|) {
      assert FieldFails(schema, s, |FlatAll(xs)|, WrongWireType);
    }
  }

  lemma OnlyBadType(schema: Schema, s: seq<byte>, i: nat)
    requires FieldFails(schema, s, i, WrongWireType)
    ensures BadType(schema, s, i)
  {
    hide Read, Prefix, NextToken, FieldNumber, WireType, FlatOpen, At, PayloadMissing, Fails;
    if BadNested(schema, s, i, WrongWireType) {
      var (start, end) := Prefix(s, Read(s, i).value.1).value;
      EmptyHasNoTypes(s[start..end]);
    }
  }

  /**
   A tag whose number is zero or, as 32 bits, negative is rejected as illegal by every
   schema, unless its wire type is that of an end tag.
   */
  lemma IllegalTagRejected(schema: Schema, s: seq<byte>, xs: Items, tag: seq<byte>, m: seq<byte>)
    requires |s| <= MAX_INT && Front(schema, s, xs)
    requires IsVarint(tag) && At(s, |FlatAll(xs)|, tag) && Value(tag) % 8 != 4
    requires Value(tag) / 8 % 0x1_0000_0000 == 0 || Value(tag) / 8 % 0x1_0000_0000 >= 0x8000_0000
    ensures StatusOf(Decode(schema, s, 0, m).fault) == Failure(IllegalTag)
  {
    NumberExact(Value(tag), 0);
    hide Decode, Front, AllComplete, AllAllowed, FlatAll, Value, IsVarint, FieldNumber, Read;
    ReadAt(s, |FlatAll(xs)|, tag);
    assert BadNumber(s, |FlatAll(xs)|);
    hide FieldFails, BadNumber;
    NumberFails(schema, s, |FlatAll(xs)|);
    StatusExact(schema, s, m, IllegalTag);
  }

  lemma NumberFails(schema: Schema, s: seq<byte>, i: nat)
    requires BadNumber(s, i)
    ensures FieldFails(schema, s, i, IllegalTag)
  {
    hide BadNumber;
  }

  /** Field 1 of `MsgUpdateParams` sent as a varint, and a tag whose 32-bit number is -2^31. */
  lemma RejectedInputs(m: seq<byte>)
    ensures StatusOf(Decode(MSG_UPDATE_PARAMS, [0x08, 0x01], 0, m).fault) == Failure(WrongWireType)
    ensures StatusOf(Decode(MSG_UPDATE_PARAMS, [0x80, 0x80, 0x80, 0x80, 0x40, 0x00], 0, m).fault)
            == Failure(IllegalTag)
  {
    TagEight();
    var b: seq<byte> := [0x80, 0x80, 0x80, 0x80, 0x40, 0x00];
    NegativeTag(b);
    assert ReadField(MSG_UPDATE_PARAMS, b, 0) == Halt(Failed(IllegalTag)) by {
      hide Read;
    }
    assert ReadField(MSG_UPDATE_PARAMS, [0x08, 0x01], 0) == Halt(Failed(WrongWireType)) by {
      hide Read;
    }
    hide ReadField;
  }

  lemma TagEight()
    ensures Read([0x08, 0x01], 0) == Ok((8, 1))
  {
    var b: seq<byte> := [0x08, 0x01];
    assert b[0..1] == [0x08] && Digits([0x08][1..]) == 0;
    ReadExact(b, 0, 8, 1);
  }

  lemma NegativeTag(b: seq<byte>)
    requires b == [0x80, 0x80, 0x80, 0x80, 0x40, 0x00]
    ensures Read(b, 0) == Ok((0x4_0000_0000, 5))
    ensures FieldNumber(0x4_0000_0000) == -0x8000_0000
  {
    var tag := b[0..5];
    assert tag == [0x80, 0x80, 0x80, 0x80, 0x40];
    assert tag[1..] == [0x80, 0x80, 0x80, 0x40] && tag[1..][1..] == [0x80, 0x80, 0x40];
    assert tag[1..][1..][1..] == [0x80, 0x40] && tag[1..][1..][1..][1..] == [0x40];
    assert Digits([0x40]) == 0x40;
    assert Digits([0x80, 0x40]) == 0x2000 && Digits([0x80, 0x80, 0x40]) == 0x10_0000;
    assert Digits([0x80, 0x80, 0x80, 0x40]) == 0x800_0000;
    assert Digits(tag) == 0x4_0000_0000;
    ReadExact(b, 0, 0x4_0000_0000, 5);
  }
}
