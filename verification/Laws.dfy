/**
 Laws of decoding that relate several inputs, or several schemas: concatenation
 is merge, unknown fields are transparent, and forgetting declared fields keeps
 an input acceptable.
 */
module Laws {
  import opened Machine
  import opened Varint
  import opened Grammar
  import opened Skip
  import opened Decoding

  // ---------------------------------------------------------- concatenation

  /** A field read inside `a` is read the same when more bytes follow. */
  lemma FieldAppend(schema: Schema, a: seq<byte>, b: seq<byte>, i: nat)
    requires i < |a| && ReadField(schema, a, i).Next?
    ensures ReadField(schema, a + b, i) == ReadField(schema, a, i)
  {
    hide Read, Prefix, FieldNumber, SkipFrom;
    ReadAppend(a, b, i);
    var (wire, j) := Read(a, i).value;
    if FieldNumber(wire) !in schema {
      assert (a + b)[i..] == a[i..] + b;
      SkipAppend(a[i..], b, 0, 0);
    } else {
      PrefixAppend(a, b, j);
      var (start, end) := Prefix(a, j).value;
      assert (a + b)[start..end] == a[start..end];
    }
  }

  /** Decoding `a + b` gets through `a` as decoding `a` alone does. */
  lemma {:induction false} DecodeAppend(schema: Schema, a: seq<byte>, b: seq<byte>, i: nat, m: seq<byte>)
    requires i <= |a| && Decode(schema, a, i, m).fault.Clean?
    ensures Decode(schema, a + b, i, m)
            == Decode(schema, a + b, |a|, Decode(schema, a, i, m).authority)
    decreases |a| - i
  {
    hide ReadField;
    if i < |a| {
      FieldAppend(schema, a, b, i);
      var Next(next, u) := ReadField(schema, a, i);
      DecodeAppend(schema, a, b, next, Apply(u, m));
    }
  }

  /** The same fault, found `p` bytes further into a longer input. */
  function ShiftFault(f: Fault, p: nat): Fault {
    match f
    case Overrun(end) => Overrun(end + p)
    case Clean => f
    case Failed(_) => f
  }

  function ShiftStep(r: Step, p: nat): Step {
    match r
    case Next(next, u) => Next(next + p, u)
    case Halt(f) => Halt(ShiftFault(f, p))
  }

  lemma PrefixShift(s: seq<byte>, p: nat, i: nat)
    requires p + i <= |s|
    ensures match Prefix(s, p + i)
            case Ok((start, end)) => start >= p && Prefix(s[p..], i) == Ok((start - p, end - p))
            case Err(e) => Prefix(s[p..], i) == Err(e)
  {
    hide Read;
    ReadShift(s, p, i);
  }

  lemma FieldShift(schema: Schema, s: seq<byte>, p: nat, i: nat)
    requires p + i < |s|
    ensures ReadField(schema, s, p + i) == ShiftStep(ReadField(schema, s[p..], i), p)
  {
    hide Read, Prefix, FieldNumber, WireType, SkipFrom, Decode;
    ReadShift(s, p, i);
    assert s[p..][i..] == s[p + i..];
    if Read(s, p + i).Ok? {
      var (wire, j) := Read(s, p + i).value;
      PrefixShift(s, p, j - p);
      assert p + (j - p) == j;
      if Prefix(s, j).Ok? && Prefix(s, j).value.1 <= |s| {
        var (start, end) := Prefix(s, j).value;
        assert s[p..][start - p..end - p] == s[start..end];
      }
    }
  }

  lemma {:induction false} DecodeShift(schema: Schema, s: seq<byte>, p: nat, i: nat, m: seq<byte>)
    requires p + i <= |s|
    ensures var o := Decode(schema, s[p..], i, m);
            Decode(schema, s, p + i, m) == Outcome(o.authority, ShiftFault(o.fault, p))
    decreases |s| - i
  {
    hide ReadField;
    if p + i < |s| {
      FieldShift(schema, s, p, i);
      if ReadField(schema, s[p..], i).Next? {
        var Next(next, u) := ReadField(schema, s[p..], i);
        DecodeShift(schema, s, p, next, Apply(u, m));
      }
    }
  }

  /**
   Concatenation is merge: if `a` is accepted, decoding `a + b` into `m` is decoding
   `a` into `m` and then `b` into the result, fault included.
   */
  lemma ConcatIsMerge(schema: Schema, a: seq<byte>, b: seq<byte>, m: seq<byte>)
    requires Decode(schema, a, 0, m).fault.Clean?
    ensures var o := Decode(schema, b, 0, Decode(schema, a, 0, m).authority);
            Decode(schema, a + b, 0, m) == Outcome(o.authority, ShiftFault(o.fault, |a|))
  {
    hide Decode, ReadField;
    DecodeAppend(schema, a, b, 0, m);
    assert (a + b)[|a|..] == b;
    DecodeShift(schema, a + b, |a|, 0, Decode(schema, a, 0, m).authority);
  }

  // --------------------------------------------------------- where input ends

  function ShiftToken(t: Token, p: nat): Token {
    match t
    case Leaf(next) => Leaf(next + p)
    case Open(next) => Open(next + p)
    case Close(next) => Close(next + p)
  }

  lemma TokenShift(s: seq<byte>, p: nat, i: nat)
    requires p + i <= |s|
    ensures match NextToken(s[p..], i)
            case Ok(t) => NextToken(s, p + i) == Ok(ShiftToken(t, p))
            case Err(e) => NextToken(s, p + i) == Err(e)
  {
    hide Read, Prefix, WireType;
    ReadShift(s, p, i);
    if Read(s, p + i).Ok? {
      var j := Read(s, p + i).value.1;
      assert p + (j - p) == j;
      ReadShift(s, p, j - p);
      PrefixShift(s, p, j - p);
    }
  }

  /** A group that is closed ends inside the input: its end tag has been read. */
  lemma {:induction false} GroupEndsInside(s: seq<byte>, i: nat, depth: nat)
    requires depth > 0 && SkipFrom(s, i, depth).Done?
    ensures SkipFrom(s, i, depth).next <= |s|
    decreases |s| - i
  {
    hide Read, Prefix, WireType;
    var t := NextToken(s, i).value;
    if DepthAfter(t, depth) == 0 {
      assert t.Close?;
    } else {
      GroupEndsInside(s, t.next, DepthAfter(t, depth));
    }
  }

  lemma UnknownOverrun(s: seq<byte>, i: nat, end: nat)
    requires i < |s|
    ensures SkipUnknown(s, i) == Halt(Overrun(end))
            <==> NextToken(s, i) == Ok(Leaf(end)) && end > |s|
  {
    hide NextToken;
    TokenShift(s, i, 0);
    assert i + 0 == i;
    if NextToken(s[i..], 0).Ok? && NextToken(s[i..], 0).value.Open? {
      var t := NextToken(s[i..], 0).value;
      if SkipFrom(s[i..], t.next, 1).Done? {
        GroupEndsInside(s[i..], t.next, 1);
      }
    }
  }

  /**
   At `i` stands a tag that the loop admits, and the payload behind it, whose end its
   wire type or its length prefix gives, ends behind the input.
   */
  predicate PayloadMissing(schema: Schema, s: seq<byte>, i: nat, end: nat) {
    && i < |s| && Read(s, i).Ok?
    && var (tag, _) := Read(s, i).value;
    && FieldNumber(tag) > 0 && (FieldNumber(tag) in schema ==> WireType(tag) == 2)
    && NextToken(s, i) == Ok(Leaf(end)) && end > |s|
  }

  function Zeros(n: nat): (z: seq<byte>)
    ensures |z| == n
  {
    seq(n, _ => 0)
  }

  /**
   Such a payload is that of a field cut short: with as many bytes as are missing behind
   it, the input ends with one complete field that is not a group.
   */
  lemma MissingCompletes(s: seq<byte>, i: nat, end: nat) returns (x: Item)
    requires i < |s| < end && NextToken(s, i) == Ok(Leaf(end))
    ensures Complete(x) && !x.GroupItem? && Flat(x) == s[i..] + Zeros(end - |s|)
  {
    var t := Zeros(end - |s|);
    TokenAppend(s, t, i);
    x := LeafItem(s + t, i);
    assert (s + t)[i..end] == s[i..] + t;
    hide NextToken, Read, Value;
    if x.GroupItem? {
      assert At(s + t, i, Flat(x)) by {
        AtSlice(s + t, i, Flat(x));
      }
      AtConcat(s + t, i, x.tag, AfterTag(x));
      TagToken(x.tag, s + t, i);
    }
  }

  /** And of any such completion the token gives the length, once its tag and prefix read. */
  lemma CompletionEnds(s: seq<byte>, i: nat, t: seq<byte>, x: Item)
    requires i < |s| && NextToken(s, i).Ok?
    requires Complete(x) && !x.GroupItem? && Flat(x) == s[i..] + t
    ensures NextToken(s, i) == Ok(Leaf(|s| + |t|))
  {
    hide NextToken, Complete, Flat;
    assert (s + t)[i..] == s[i..] + t;
    AtSlice(s + t, i, Flat(x));
    LeafToken(x, s + t, i);
    TokenAppend(s, t, i);
  }

  lemma FieldOverrun(schema: Schema, s: seq<byte>, i: nat, end: nat)
    requires i < |s|
    ensures ReadField(schema, s, i) == Halt(Overrun(end)) <==> PayloadMissing(schema, s, i, end)
  {
    UnknownOverrun(s, i, end);
    hide Read, Prefix, FieldNumber, SkipUnknown, Decode;
  }

  /** `b` is a run of allowed fields, then a tag whose payload would end at `end`. */
  ghost predicate StopsAt(schema: Schema, b: seq<byte>, xs: Items, end: nat) {
    && AllComplete(xs) && AllAllowed(schema, xs) && At(b, 0, FlatAll(xs))
    && PayloadMissing(schema, b, |FlatAll(xs)|, end)
  }

  /** Decoding overruns to `end` exactly on the inputs that stop there. */
  lemma OverrunExact(schema: Schema, b: seq<byte>, m: seq<byte>, end: nat)
    requires |b| <= MAX_INT
    ensures Decode(schema, b, 0, m).fault == Overrun(end) <==> exists xs :: StopsAt(schema, b, xs, end)
  {
    hide ReadField, PayloadMissing, AllComplete, AllAllowed, FlatAll;
    var ys := DecodedFields(schema, b, 0, m);
    if Decode(schema, b, 0, m).fault == Overrun(end) {
      FieldOverrun(schema, b, |FlatAll(ys)|, end);
      assert StopsAt(schema, b, ys, end);
    }
    if xs :| StopsAt(schema, b, xs, end) {
      MissingInside(schema, b, |FlatAll(xs)|, end);
      DecodeFront(schema, xs, b, 0, m);
      FieldOverrun(schema, b, |FlatAll(xs)|, end);
    }
  }

  lemma MissingInside(schema: Schema, s: seq<byte>, i: nat, end: nat)
    requires PayloadMissing(schema, s, i, end)
    ensures i < |s| < end
  {
    hide Read, NextToken, FieldNumber, WireType;
  }

  /**
   `b` stops at a declared end that is an `int` counted from the start of `b`, and is
   none once `p` bytes stand in front.
   */
  ghost predicate StopsLate(schema: Schema, b: seq<byte>, p: nat) {
    exists xs, end: nat :: StopsAt(schema, b, xs, end) && MAX_INT - p < end <= MAX_INT
  }

  /** Bytes in front change the error of an input exactly if it stops late. */
  lemma ShiftedStatus(schema: Schema, b: seq<byte>, m: seq<byte>, p: nat)
    requires |b| <= MAX_INT
    ensures var f := Decode(schema, b, 0, m).fault;
            && StatusOf(ShiftFault(f, p)).Success? == StatusOf(f).Success?
            && (StatusOf(ShiftFault(f, p)) == StatusOf(f) <==> !StopsLate(schema, b, p))
  {
    hide Decode, StopsAt;
    var f := Decode(schema, b, 0, m).fault;
    if StopsLate(schema, b, p) {
      var xs, end: nat :| StopsAt(schema, b, xs, end) && MAX_INT - p < end <= MAX_INT;
      OverrunExact(schema, b, m, end);
    }
    if f.Overrun? {
      OverrunExact(schema, b, m, f.end);
    }
  }

  /**
   Go's error is the same for `a + b` and for `b` after `a`, except exactly when `b`
   stops at a payload whose declared end is an `int` without `a` in front and none with
   it: then EOF turns into invalid length. Success is always the same.
   */
  lemma ConcatStatusExact(schema: Schema, a: seq<byte>, b: seq<byte>, m: seq<byte>)
    requires Decode(schema, a, 0, m).fault.Clean? && |b| <= MAX_INT
    ensures var o := Decode(schema, b, 0, Decode(schema, a, 0, m).authority);
            var joint := Decode(schema, a + b, 0, m);
            && StatusOf(joint.fault).Success? == StatusOf(o.fault).Success?
            && (StatusOf(joint.fault) == StatusOf(o.fault) <==> !StopsLate(schema, b, |a|))
  {
    hide Decode, StopsLate;
    ConcatIsMerge(schema, a, b, m);
    ShiftedStatus(schema, b, Decode(schema, a, 0, m).authority, |a|);
  }

  /** An input that stops at a string field claiming to end exactly at 2^63 - 1. */
  lemma HugeString(b: seq<byte>, m: seq<byte>)
    requires b == [0x0a] + Encode(MAX_INT - 10)
    ensures Decode(MSG_UPDATE_PARAMS, b, 0, m) == Outcome(m, Overrun(MAX_INT))
  {
    var v: uint64 := MAX_INT - 10;
    NineBytes(v);
    TagOne(b);
    EncodeIsVarint(v);
    StandsAfterTag(0x0a, Encode(v));
    hide Encode, Read, Value, IsVarint, FieldNumber, WireType, At;
    ReadAt(b, 1, Encode(v));
    assert Prefix(b, 1) == Ok((10, MAX_INT));
    assert ReadField(MSG_UPDATE_PARAMS, b, 0) == Halt(Overrun(MAX_INT));
  }

  lemma StandsAfterTag(tag: byte, rest: seq<byte>)
    ensures At([tag] + rest, 1, rest)
  {
  }

  lemma NineBytes(v: uint64)
    requires TWO_63 / 2 <= v < TWO_63
    ensures |Encode(v)| == 9
  {
    Pow2Values();
    Pow2Add(56, 7);
    EncodeLength(v, 9);
    EncodeLength(v, 8);
  }

  lemma TagOne(b: seq<byte>)
    requires |b| >= 1 && b[0] == 0x0a
    ensures Read(b, 0) == Ok((10, 1)) && WireType(10) == 2 && FieldNumber(10) == 1
  {
    assert b[0..1] == [0x0a];
    assert Digits([0x0a][1..]) == 0;
    ReadExact(b, 0, 10, 1);
  }

  /** The exception happens: two bytes in front turn the EOF into an invalid length. */
  lemma ConcatStatusDiffers() returns (a: seq<byte>, b: seq<byte>)
    ensures Accepts(MSG_UPDATE_PARAMS, a)
    ensures StatusOf(Decode(MSG_UPDATE_PARAMS, b, 0, []).fault) == Failure(UnexpectedEOF)
    ensures StatusOf(Decode(MSG_UPDATE_PARAMS, a + b, 0, []).fault) == Failure(InvalidLength)
    ensures StopsLate(MSG_UPDATE_PARAMS, b, |a|)
  {
    a, b := [0x0a, 0x00], [0x0a] + Encode(MAX_INT - 10);
    NineBytes(MAX_INT - 10);
    EmptyString(a);
    hide Decode, Encode, StopsLate;
    HugeString(b, []);
    ConcatIsMerge(MSG_UPDATE_PARAMS, a, b, []);
    ConcatStatusExact(MSG_UPDATE_PARAMS, a, b, []);
  }

  lemma EmptyString(a: seq<byte>)
    requires a == [0x0a, 0x00]
    ensures Decode(MSG_UPDATE_PARAMS, a, 0, []) == Outcome([], Clean)
  {
    TagOne(a);
    assert a[1..2] == [0x00];
    assert Digits([0x00][1..]) == 0;
    ReadExact(a, 1, 0, 2);
    hide Read, Value, FieldNumber, WireType;
    assert a[2..2] == [];
    assert ReadField(MSG_UPDATE_PARAMS, a, 0) == Next(2, Set([]));
  }

  // ------------------------------------------------------------- truncation

  /** A varint cut short is read as before, or runs into the end. */
  lemma {:induction false} ScanCut(s: seq<byte>, k: nat, i: nat, j: nat)
    requires i + j <= k <= |s| && j <= 10 && Scan(s, i, j).Ok?
    ensures Scan(s[..k], i, j)
            == if i + Scan(s, i, j).value <= k then Scan(s, i, j) else Err(UnexpectedEOF)
    decreases 10 - j
  {
    if i + j < k && s[i + j] >= 128 {
      ScanCut(s, k, i, j + 1);
    }
  }

  lemma ReadCut(s: seq<byte>, k: nat, i: nat)
    requires i <= k <= |s| && Read(s, i).Ok?
    ensures Read(s[..k], i)
            == if Read(s, i).value.1 <= k then Read(s, i) else Err(UnexpectedEOF)
  {
    hide Value;
    ScanCut(s, k, i, 0);
    var n := Scan(s, i, 0).value;
    if i + n <= k {
      assert s[..k][i..i + n] == s[i..i + n];
    }
  }

  lemma PrefixCut(s: seq<byte>, k: nat, i: nat)
    requires i <= k <= |s| && Prefix(s, i).Ok?
    ensures Prefix(s[..k], i) == Prefix(s, i) || Prefix(s[..k], i) == Err(UnexpectedEOF)
  {
    hide Read;
    ReadCut(s, k, i);
  }

  lemma TokenCut(s: seq<byte>, k: nat, i: nat)
    requires i <= k <= |s| && NextToken(s, i).Ok?
    ensures NextToken(s[..k], i) == NextToken(s, i) || NextToken(s[..k], i) == Err(UnexpectedEOF)
  {
    hide Read, Prefix, WireType;
    ReadCut(s, k, i);
    var (tag, j) := Read(s, i).value;
    if j <= k && WireType(tag) == 0 {
      ReadCut(s, k, j);
    }
    if j <= k && WireType(tag) == 2 {
      PrefixCut(s, k, j);
    }
  }

  lemma {:induction false} SkipCut(s: seq<byte>, k: nat, i: nat, depth: nat)
    requires i <= k <= |s| <= MAX_INT
    requires SkipFrom(s, i, depth).Done? && SkipFrom(s, i, depth).next <= |s|
    ensures SkipFrom(s[..k], i, depth) == SkipFrom(s, i, depth)
            || SkipFrom(s[..k], i, depth) == Stuck(UnexpectedEOF)
    decreases |s| - i
  {
    hide NextToken;
    if i < k {
      TokenCut(s, k, i);
      var t := NextToken(s, i).value;
      if DepthAfter(t, depth) > 0 && t.next <= k {
        SkipCut(s, k, t.next, DepthAfter(t, depth));
      }
    }
  }

  predicate IsEOF(r: Step) {
    r.Halt? && StatusOf(r.fault) == Failure(UnexpectedEOF)
  }

  lemma UnknownCut(s: seq<byte>, k: nat, i: nat)
    requires i < k <= |s| <= MAX_INT && SkipUnknown(s, i).Next?
    ensures SkipUnknown(s[..k], i) == SkipUnknown(s, i) || IsEOF(SkipUnknown(s[..k], i))
  {
    hide SkipFrom;
    assert s[..k][i..] == s[i..][..k - i];
    SkipCut(s[i..], k - i, 0, 0);
  }

  lemma FieldCut(schema: Schema, s: seq<byte>, k: nat, i: nat)
    requires i < k <= |s| <= MAX_INT && ReadField(schema, s, i).Next?
    ensures ReadField(schema, s[..k], i) == ReadField(schema, s, i)
            || IsEOF(ReadField(schema, s[..k], i))
  {
    hide Read, Prefix, FieldNumber, WireType, SkipUnknown, Decode;
    ReadCut(s, k, i);
    var (wire, j) := Read(s, i).value;
    if j <= k {
      if FieldNumber(wire) !in schema {
        UnknownCut(s, k, i);
      } else {
        PrefixCut(s, k, j);
        var (start, end) := Prefix(s, j).value;
        if end <= k {
          assert s[..k][start..end] == s[start..end];
        }
      }
    }
  }

  /**
   A message cut short is still a message, if the cut is at a field boundary, or is
   reported as an unexpected EOF. No other error comes from truncation.
   */
  lemma {:induction false} TruncationIsEOF(schema: Schema, s: seq<byte>, k: nat, i: nat, m: seq<byte>)
    requires i <= k <= |s| <= MAX_INT && Decode(schema, s, i, m).fault.Clean?
    ensures var f := Decode(schema, s[..k], i, m).fault;
            f.Clean? || StatusOf(f) == Failure(UnexpectedEOF)
    decreases |s| - i
  {
    hide ReadField;
    if i < k {
      FieldCut(schema, s, k, i);
      var Next(next, u) := ReadField(schema, s, i);
      if ReadField(schema, s[..k], i).Next? {
        TruncationIsEOF(schema, s, k, next, Apply(u, m));
      }
    }
  }

  // --------------------------------------------------------- unknown fields

  /**
   A complete field of unknown positive number, groups included, can be put in at any
   item boundary: the receiver ends the same, and only the position of an overrun moves.
   */
  lemma UnknownIsTransparent(schema: Schema, a: seq<byte>, x: Item, b: seq<byte>, m: seq<byte>)
    requires Decode(schema, a, 0, m).fault.Clean?
    requires Complete(x) && Number(x) > 0 && Number(x) !in schema && |Flat(x)| <= MAX_INT
    ensures var o := Decode(schema, a + b, 0, m);
            Decode(schema, a + (Flat(x) + b), 0, m)
            == Outcome(o.authority, ShiftFault(o.fault, |Flat(x)|))
  {
    hide Decode, Flat, Complete, FieldNumber;
    var m1 := Decode(schema, a, 0, m).authority;
    UnknownAlone(schema, x, m1);
    ConcatIsMerge(schema, Flat(x), b, m1);
    ConcatIsMerge(schema, a, Flat(x) + b, m);
    ConcatIsMerge(schema, a, b, m);
  }

  /** The error is the same too, except exactly when `a + b` stops late for the insertion. */
  lemma UnknownStatusExact(schema: Schema, a: seq<byte>, x: Item, b: seq<byte>, m: seq<byte>)
    requires Decode(schema, a, 0, m).fault.Clean? && |a + b| <= MAX_INT
    requires Complete(x) && Number(x) > 0 && Number(x) !in schema && |Flat(x)| <= MAX_INT
    ensures var o, inserted := Decode(schema, a + b, 0, m), Decode(schema, a + (Flat(x) + b), 0, m);
            && StatusOf(inserted.fault).Success? == StatusOf(o.fault).Success?
            && (StatusOf(inserted.fault) == StatusOf(o.fault)
                <==> !StopsLate(schema, a + b, |Flat(x)|))
  {
    hide Decode, StopsLate, Flat, Complete, FieldNumber;
    UnknownIsTransparent(schema, a, x, b, m);
    ShiftedStatus(schema, a + b, m, |Flat(x)|);
  }

  lemma UnknownAlone(schema: Schema, x: Item, m: seq<byte>)
    requires Complete(x) && Number(x) > 0 && Number(x) !in schema && |Flat(x)| <= MAX_INT
    ensures Decode(schema, Flat(x), 0, m) == Outcome(m, Clean)
  {
    hide Flat, Complete, FieldNumber, Decode;
    var xs := Cons(x, Nil);
    assert FlatAll(xs) == Flat(x);
    AtWhole(Flat(x));
    DecodeItems(schema, xs, Flat(x), 0, m);
  }

  // ------------------------------------------------- forgetting declarations

  /** `sub` declares fewer fields, and asks no more of those it declares. */
  predicate Narrows(sub: Schema, sup: Schema) {
    forall n :: n in sub ==> n in sup && (sub[n] == sup[n] || sub[n].StringField?)
  }

  ghost predicate SameStrings(sub: Schema, sup: Schema) {
    forall n :: (n in sup && sup[n].StringField?) <==> (n in sub && sub[n].StringField?)
  }

  /**
   The length decoder inside the skip loop and the one of a declared field agree on every
   length-delimited field: the same error, the same overrun, or the same end.
   */
  lemma SkipDelimited(s: seq<byte>, i: nat)
    requires i < |s| && Read(s, i).Ok? && WireType(Read(s, i).value.0) == 2
    ensures SkipUnknown(s, i)
            == match Prefix(s, Read(s, i).value.1)
               case Err(e) => Halt(Failed(e))
               case Ok((_, end)) => if end > |s| then Halt(Overrun(end)) else Next(end, Keep)
  {
    TokenShift(s, i, 0);
    assert i + 0 == i;
    hide Read, Prefix, WireType;
    assert NextToken(s, i) == match Prefix(s, Read(s, i).value.1)
                              case Err(e) => Err(e)
                              case Ok((_, end)) => Ok(Leaf(end));
    hide NextToken;
  }

  lemma FieldNarrow(sub: Schema, sup: Schema, s: seq<byte>, i: nat)
    requires Narrows(sub, sup) && i < |s| && ReadField(sup, s, i).Next?
    ensures ReadField(sub, s, i).Next? && ReadField(sub, s, i).next == ReadField(sup, s, i).next
    ensures SameStrings(sub, sup) ==> ReadField(sub, s, i).update == ReadField(sup, s, i).update
  {
    hide Read, Prefix, FieldNumber, WireType, SkipUnknown, Decode;
    var (wire, j) := Read(s, i).value;
    if FieldNumber(wire) in sup && FieldNumber(wire) !in sub {
      SkipDelimited(s, i);
    }
  }

  lemma {:induction false} DecodeNarrow(sub: Schema, sup: Schema, s: seq<byte>, i: nat,
                                        m: seq<byte>, n: seq<byte>)
    requires Narrows(sub, sup) && Decode(sup, s, i, m).fault.Clean?
    ensures Decode(sub, s, i, n).fault.Clean?
    ensures SameStrings(sub, sup) && m == n ==> Decode(sub, s, i, n) == Decode(sup, s, i, m)
    decreases |s| - i
  {
    hide ReadField;
    if i < |s| {
      FieldNarrow(sub, sup, s, i);
      var Next(next, u) := ReadField(sup, s, i);
      DecodeNarrow(sub, sup, s, next, Apply(u, m), Apply(ReadField(sub, s, i).update, n));
    }
  }

  /**
   Language inclusion and projection: whatever `MsgUpdateParams` accepts, into any
   receiver, `Module` decodes to the same authority; whatever `GenesisState` accepts,
   `Module` accepts; and whatever `Module` accepts, the empty messages accept.
   */
  lemma Inclusions(s: seq<byte>, m: seq<byte>, n: seq<byte>)
    ensures Decode(MSG_UPDATE_PARAMS, s, 0, m).fault.Clean? ==>
              Decode(MODULE, s, 0, m) == Decode(MSG_UPDATE_PARAMS, s, 0, m)
    ensures Decode(GENESIS_STATE, s, 0, m).fault.Clean? ==> Decode(MODULE, s, 0, n).fault.Clean?
    ensures Decode(MODULE, s, 0, m).fault.Clean? ==> Decode(EMPTY, s, 0, n).fault.Clean?
  {
    hide Decode;
    if Decode(MSG_UPDATE_PARAMS, s, 0, m).fault.Clean? {
      DecodeNarrow(MODULE, MSG_UPDATE_PARAMS, s, 0, m, m);
    }
    if Decode(GENESIS_STATE, s, 0, m).fault.Clean? {
      DecodeNarrow(MODULE, GENESIS_STATE, s, 0, m, n);
    }
    if Decode(MODULE, s, 0, m).fault.Clean? {
      DecodeNarrow(EMPTY, MODULE, s, 0, m, n);
    }
  }

  /** Only declared string fields ever change the receiver. */
  lemma {:induction false} NoStringsNoChange(schema: Schema, s: seq<byte>, i: nat, m: seq<byte>)
    requires forall n :: n in schema ==> !schema[n].StringField?
    ensures Decode(schema, s, i, m).authority == m
    decreases |s| - i
  {
    if i < |s| && ReadField(schema, s, i).Next? {
      hide Read, Prefix, SkipFrom, FieldNumber, WireType;
      NoStringsNoChange(schema, s, ReadField(schema, s, i).next, m);
    }
  }

  /** Whether an input is accepted, and why not, does not depend on the receiver. */
  lemma {:induction false} FaultIgnoresReceiver(schema: Schema, s: seq<byte>, i: nat,
                                                m: seq<byte>, n: seq<byte>)
    ensures Decode(schema, s, i, m).fault == Decode(schema, s, i, n).fault
    decreases |s| - i
  {
    hide ReadField;
    if i < |s| && ReadField(schema, s, i).Next? {
      var Next(next, u) := ReadField(schema, s, i);
      FaultIgnoresReceiver(schema, s, next, Apply(u, m), Apply(u, n));
    }
  }

  // --------------------------------------------- an error that cannot surface

  /** Inside a group the depth never falls below zero. */
  lemma {:induction false} NoStrayEndInside(s: seq<byte>, i: nat, depth: nat)
    requires depth > 0
    ensures SkipFrom(s, i, depth) != Stuck(UnexpectedEndOfGroup)
    decreases |s| - i
  {
    hide Read, WireType;
    if i < |s| && NextToken(s, i).Ok? {
      var t := NextToken(s, i).value;
      if DepthAfter(t, depth) > 0 {
        NoStrayEndInside(s, t.next, DepthAfter(t, depth));
      }
    }
  }

  /** The skip loop reports a stray end of group exactly when it starts at an end tag. */
  lemma StrayEndExact(s: seq<byte>)
    ensures SkipFrom(s, 0, 0) == Stuck(UnexpectedEndOfGroup)
            <==> |s| > 0 && Read(s, 0).Ok? && WireType(Read(s, 0).value.0) == 4
  {
    hide Read, WireType;
    if |s| > 0 && NextToken(s, 0).Ok? && NextToken(s, 0).value.Open? {
      NoStrayEndInside(s, NextToken(s, 0).value.next, 1);
    }
  }

  lemma {:induction false} FieldNoStrayEnd(schema: Schema, s: seq<byte>, i: nat)
    requires i < |s|
    ensures ReadField(schema, s, i).Halt? ==>
              ReadField(schema, s, i).fault != Failed(UnexpectedEndOfGroup)
    decreases |s| - i, 0
  {
    hide Read, FieldNumber, WireType, SkipFrom;
    StrayEndExact(s[i..]);
    assert i + 0 == i;
    ReadShift(s, i, 0);
    if Read(s, i).Ok? && Prefix(s, Read(s, i).value.1).Ok? {
      var (start, end) := Prefix(s, Read(s, i).value.1).value;
      if end <= |s| {
        NoStrayEnd(EMPTY, s[start..end], 0, []);
      }
    }
  }

  /**
   No `Unmarshal` ever fails with the skip loop's "unexpected end of group": a stray
   end tag is always caught by the loop's own test first, on every input.
   */
  lemma {:induction false} NoStrayEnd(schema: Schema, s: seq<byte>, i: nat, m: seq<byte>)
    ensures StatusOf(Decode(schema, s, i, m).fault) != Failure(UnexpectedEndOfGroup)
    decreases |s| - i, 1
  {
    hide ReadField;
    if i < |s| {
      FieldNoStrayEnd(schema, s, i);
      if ReadField(schema, s, i).Next? {
        var Next(next, u) := ReadField(schema, s, i);
        NoStrayEnd(schema, s, next, Apply(u, m));
      }
    }
  }
}
