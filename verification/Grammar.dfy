/**
 The wire format as a grammar: what one complete field is, as a tree. Groups nest.
 This is the reference the decoding loops are measured against; it knows nothing
 of indices, depth counters or 64-bit sums.
 */
module Grammar {
  import opened Machine
  import opened Varint

  datatype Item =
    | VarintItem(tag: seq<byte>, body: seq<byte>)
    | Fixed64Item(tag: seq<byte>, body: seq<byte>)
    | BytesItem(tag: seq<byte>, length: seq<byte>, payload: seq<byte>)
    | GroupItem(tag: seq<byte>, members: Items, end: seq<byte>)
    | Fixed32Item(tag: seq<byte>, body: seq<byte>)

  datatype Items = Nil | Cons(head: Item, tail: Items)

  function WireType(tag: uint64): nat {
    tag % 8
  }

  /** `int32(wire >> 3)`: truncated, and possibly negative. */
  function FieldNumber(tag: uint64): int {
    Int32(tag / 8)
  }

  /** `tag` is one varint carrying wire type `wt`; its field number is not looked at. */
  predicate IsTag(tag: seq<byte>, wt: nat) {
    IsVarint(tag) && WireType(Value(tag)) == wt
  }

  /** The tree is a well-formed field. A group's end tag may carry any field number. */
  predicate Complete(x: Item) {
    match x
    case VarintItem(tag, body) => IsTag(tag, 0) && IsVarint(body)
    case Fixed64Item(tag, body) => IsTag(tag, 1) && |body| == 8
    case BytesItem(tag, length, payload) =>
      IsTag(tag, 2) && IsVarint(length) && |payload| == Value(length) <= MAX_INT
    case GroupItem(tag, members, end) => IsTag(tag, 3) && AllComplete(members) && IsTag(end, 4)
    case Fixed32Item(tag, body) => IsTag(tag, 5) && |body| == 4
  }

  predicate AllComplete(xs: Items) {
    match xs
    case Nil => true
    case Cons(x, rest) => Complete(x) && AllComplete(rest)
  }

  /** The bytes of a field. */
  function Flat(x: Item): seq<byte> {
    match x
    case VarintItem(tag, body) => tag + body
    case Fixed64Item(tag, body) => tag + body
    case BytesItem(tag, length, payload) => tag + (length + payload)
    case GroupItem(tag, members, end) => tag + (FlatAll(members) + end)
    case Fixed32Item(tag, body) => tag + body
  }

  function FlatAll(xs: Items): seq<byte> {
    match xs
    case Nil => []
    case Cons(x, rest) => Flat(x) + FlatAll(rest)
  }

  /** `b` is exactly one complete field. */
  ghost predicate IsItem(b: seq<byte>) {
    exists x :: Complete(x) && Flat(x) == b
  }

  function Append(xs: Items, ys: Items): Items {
    match xs
    case Nil => ys
    case Cons(x, rest) => Cons(x, Append(rest, ys))
  }

  lemma ItemNonEmpty(x: Item)
    requires Complete(x)
    ensures |Flat(x)| > |x.tag| >= 1
  {
  }

  // ------------------------------------------------------------ unambiguity

  /** The tag comes first in every field. */
  function AfterTag(x: Item): seq<byte> {
    match x
    case VarintItem(_, body) => body
    case Fixed64Item(_, body) => body
    case BytesItem(_, length, payload) => length + payload
    case GroupItem(_, members, end) => FlatAll(members) + end
    case Fixed32Item(_, body) => body
  }

  lemma SplitTag(x: Item, t: seq<byte>)
    ensures Flat(x) + t == x.tag + (AfterTag(x) + t)
  {
  }

  lemma Regroup(x: Item, rest: Items, t: seq<byte>)
    ensures FlatAll(Cons(x, rest)) + t == Flat(x) + (FlatAll(rest) + t)
  {
  }

  lemma Associate(a: seq<byte>, b: seq<byte>, c: seq<byte>)
    ensures (a + b) + c == a + (b + c)
  {
  }

  /** No field is a proper prefix of another, and its tree is determined by its bytes. */
  lemma {:induction false} Unambiguous(x: Item, t: seq<byte>, y: Item, u: seq<byte>)
    requires Complete(x) && Complete(y) && Flat(x) + t == Flat(y) + u
    ensures x == y && t == u
    decreases x
  {
    hide IsVarint, Value, FlatAll, Flat;
    SplitTag(x, t);
    SplitTag(y, u);
    PrefixFree(x.tag, AfterTag(x) + t, y.tag, AfterTag(y) + u);
    match x
    case VarintItem(_, body) => PrefixFree(body, t, y.body, u);
    case Fixed64Item(_, body) => CutEqual(body, t, y.body, u);
    case Fixed32Item(_, body) => CutEqual(body, t, y.body, u);
    case BytesItem(_, length, payload) =>
      Associate(length, payload, t);
      Associate(y.length, y.payload, u);
      PrefixFree(length, payload + t, y.length, y.payload + u);
      CutEqual(payload, t, y.payload, u);
    case GroupItem(_, members, end) =>
      Associate(FlatAll(members), end, t);
      Associate(FlatAll(y.members), y.end, u);
      UnambiguousList(members, end, t, y.members, y.end, u);
  }

  /** The same for a run of fields closed by an end-group tag. */
  lemma {:induction false} UnambiguousList(xs: Items, d: seq<byte>, t: seq<byte>,
                                           ys: Items, e: seq<byte>, u: seq<byte>)
    requires AllComplete(xs) && AllComplete(ys) && IsTag(d, 4) && IsTag(e, 4)
    requires FlatAll(xs) + (d + t) == FlatAll(ys) + (e + u)
    ensures xs == ys && d == e && t == u
    decreases xs
  {
    hide IsVarint, Value;
    match (xs, ys)
    case (Nil, Nil) =>
      assert FlatAll(xs) + (d + t) == d + t && FlatAll(ys) + (e + u) == e + u;
      PrefixFree(d, t, e, u);
    case (Nil, Cons(y, rest)) =>
      assert FlatAll(xs) + (d + t) == d + t;
      Regroup(y, rest, e + u);
      SplitTag(y, FlatAll(rest) + (e + u));
      PrefixFree(d, t, y.tag, AfterTag(y) + (FlatAll(rest) + (e + u)));
    case (Cons(x, rest), Nil) =>
      Regroup(x, rest, d + t);
      assert FlatAll(ys) + (e + u) == e + u;
      SplitTag(x, FlatAll(rest) + (d + t));
      PrefixFree(x.tag, AfterTag(x) + (FlatAll(rest) + (d + t)), e, u);
    case (Cons(x, xr), Cons(y, yr)) =>
      Regroup(x, xr, d + t);
      Regroup(y, yr, e + u);
      Unambiguous(x, FlatAll(xr) + (d + t), y, FlatAll(yr) + (e + u));
      UnambiguousList(xr, d, t, yr, e, u);
  }

  /** A byte string splits into fields in one way at most. */
  lemma {:induction false} UniqueSplit(xs: Items, ys: Items)
    requires AllComplete(xs) && AllComplete(ys) && FlatAll(xs) == FlatAll(ys)
    ensures xs == ys
  {
    match (xs, ys)
    case (Nil, Nil) =>
    case (Nil, Cons(y, _)) => ItemNonEmpty(y);
    case (Cons(x, _), Nil) => ItemNonEmpty(x);
    case (Cons(x, xr), Cons(y, yr)) =>
      Unambiguous(x, FlatAll(xr), y, FlatAll(yr));
      UniqueSplit(xr, yr);
  }

  lemma CutEqual(a: seq<byte>, t: seq<byte>, b: seq<byte>, u: seq<byte>)
    requires |a| == |b| && a + t == b + u
    ensures a == b && t == u
  {
    assert a == (a + t)[..|a|] && b == (b + u)[..|b|];
    assert t == (a + t)[|a|..] && u == (b + u)[|b|..];
  }

  // ------------------------------------------------- the format, in numbers

  /** A tag's number is its value above the low three bits, modulo 2^32 and signed. */
  lemma NumberExact(tag: uint64, n: int)
    ensures 1 <= n < 0x8000_0000 ==> (FieldNumber(tag) == n <==> tag / 8 % 0x1_0000_0000 == n)
    ensures FieldNumber(tag) <= 0
            <==> tag / 8 % 0x1_0000_0000 == 0 || tag / 8 % 0x1_0000_0000 >= 0x8000_0000
  {
  }

  lemma TagOfItem(tag: seq<byte>, b: seq<byte>) returns (x: Item)
    requires IsVarint(tag) && IsItem(tag + b)
    ensures Complete(x) && x.tag == tag && AfterTag(x) == b
  {
    x :| Complete(x) && Flat(x) == tag + b;
    SplitTag(x, []);
    hide IsVarint, Value;
    assert x.tag + AfterTag(x) == tag + b by {
      assert Flat(x) + [] == Flat(x) && AfterTag(x) + [] == AfterTag(x);
    }
    PrefixFree(x.tag, AfterTag(x), tag, b);
  }

  /** What may follow a tag, for each of the eight wire types. */
  lemma ShapesByType(tag: seq<byte>, b: seq<byte>)
    requires IsVarint(tag)
    ensures Value(tag) % 8 == 0 ==> (IsItem(tag + b) <==> IsVarint(b))
    ensures Value(tag) % 8 == 1 ==> (IsItem(tag + b) <==> |b| == 8)
    ensures Value(tag) % 8 == 5 ==> (IsItem(tag + b) <==> |b| == 4)
    ensures Value(tag) % 8 in {4, 6, 7} ==> !IsItem(tag + b)
  {
    hide IsVarint, Value;
    if Value(tag) % 8 == 0 && IsVarint(b) {
      assert Flat(VarintItem(tag, b)) == tag + b;
    }
    if Value(tag) % 8 == 1 && |b| == 8 {
      assert Flat(Fixed64Item(tag, b)) == tag + b;
    }
    if Value(tag) % 8 == 5 && |b| == 4 {
      assert Flat(Fixed32Item(tag, b)) == tag + b;
    }
    if IsItem(tag + b) {
      var x := TagOfItem(tag, b);
    }
  }

  lemma DelimitedShape(tag: seq<byte>, b: seq<byte>)
    requires IsVarint(tag) && Value(tag) % 8 == 2
    ensures IsItem(tag + b)
            <==> exists k :: 0 <= k <= |b| && IsVarint(b[..k]) && |b| - k == Value(b[..k]) <= MAX_INT
  {
    hide IsVarint, Value;
    if k :| 0 <= k <= |b| && IsVarint(b[..k]) && |b| - k == Value(b[..k]) <= MAX_INT {
      assert b == b[..k] + b[k..];
      assert Flat(BytesItem(tag, b[..k], b[k..])) == tag + b;
      assert Complete(BytesItem(tag, b[..k], b[k..]));
    }
    if IsItem(tag + b) {
      var x := TagOfItem(tag, b);
      assert b[..|x.length|] == x.length;
    }
  }

  /** Complete fields, then one end tag. */
  predicate GroupBody(xs: Items, end: seq<byte>, b: seq<byte>) {
    AllComplete(xs) && IsVarint(end) && Value(end) % 8 == 4 && b == FlatAll(xs) + end
  }

  lemma GroupShape(tag: seq<byte>, b: seq<byte>)
    requires IsVarint(tag) && Value(tag) % 8 == 3
    ensures IsItem(tag + b) <==> exists xs, end :: GroupBody(xs, end, b)
  {
    hide IsVarint, Value;
    if xs, end :| GroupBody(xs, end, b) {
      assert Flat(GroupItem(tag, xs, end)) == tag + b;
      assert Complete(GroupItem(tag, xs, end));
    }
    if IsItem(tag + b) {
      var x := TagOfItem(tag, b);
      assert GroupBody(x.members, x.end, b);
    }
  }
}
