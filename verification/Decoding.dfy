/**
 `Unmarshal`. One decoder, over a schema, says what every generated `Unmarshal`
 does on every input; it counts in unbounded integers and reports an end behind
 the input as `Overrun`, so that Go's error is a function of it (`StatusOf`).
 */
module Decoding {
  import opened Machine
  import opened Varint
  import opened Grammar
  import opened Skip

  /** The two kinds of field the messages declare: a string, and a nested `Params`. */
  datatype Kind = StringField | ParamsField

  type Schema = map<int, Kind>

  /** `Params`, `MsgUpdateParamsResponse` and `QueryParamsRequest` declare no field. */
  const EMPTY: Schema := map[]
  const MSG_UPDATE_PARAMS: Schema := map[1 := StringField, 2 := ParamsField]
  const MODULE: Schema := map[1 := StringField]
  /** `GenesisState` and `QueryParamsResponse`. */
  const GENESIS_STATE: Schema := map[1 := ParamsField]

  datatype Fault = Clean | Failed(error: Error) | Overrun(end: nat)

  /** What `Unmarshal` leaves in the receiver, and how it ended. `Params` holds nothing. */
  datatype Outcome = Outcome(authority: seq<byte>, fault: Fault)

  datatype Update = Keep | Set(authority: seq<byte>)

  datatype Step = Next(next: nat, update: Update) | Halt(fault: Fault)

  /** Go's `error` result. */
  datatype Status = Success | Failure(error: Error)

  /** An end behind the input is an EOF; one behind 2^63 - 1 has wrapped before that test. */
  function StatusOf(f: Fault): Status {
    match f
    case Clean => Success
    case Failed(e) => Failure(e)
    case Overrun(end) => Failure(if end > MAX_INT then InvalidLength else UnexpectedEOF)
  }

  function Apply(u: Update, authority: seq<byte>): seq<byte> {
    match u case Keep => authority case Set(a) => a
  }

  /** The `default` case: the field is handed to the skip loop, tag included. */
  function SkipUnknown(s: seq<byte>, i: nat): (r: Step)
    requires i < |s|
    ensures if r.Next? then i < r.next <= |s| && r.update == Keep else !r.fault.Clean?
  {
    match SkipFrom(s[i..], 0, 0)
    case Stuck(e) => Halt(Failed(e))
    case Done(n) => if i + n > |s| then Halt(Overrun(i + n)) else Next(i + n, Keep)
  }

  /** One turn of the `Unmarshal` loop. */
  function ReadField(schema: Schema, s: seq<byte>, i: nat): (r: Step)
    requires i < |s|
    ensures if r.Next? then i < r.next <= |s| else !r.fault.Clean?
    decreases |s| - i, 0
  {
    match Read(s, i)
    case Err(e) => Halt(Failed(e))
    case Ok((wire, j)) =>
      if WireType(wire) == 4 then Halt(Failed(EndGroupTag))
      else if FieldNumber(wire) <= 0 then Halt(Failed(IllegalTag))
      else if FieldNumber(wire) !in schema then SkipUnknown(s, i)
      else if WireType(wire) != 2 then Halt(Failed(WrongWireType))
      else match Prefix(s, j)
        case Err(e) => Halt(Failed(e))
        case Ok((start, end)) =>
          if end > |s| then Halt(Overrun(end))
          else match schema[FieldNumber(wire)]
            case StringField => Next(end, Set(s[start..end]))
            case ParamsField =>
              match StatusOf(Decode(EMPTY, s[start..end], 0, []).fault)
              case Success => Next(end, Keep)
              case Failure(e) => Halt(Failed(e))
  }

  /** The rest of the loop, standing at `i` with `authority` in the receiver. */
  function Decode(schema: Schema, s: seq<byte>, i: nat, authority: seq<byte>): Outcome
    decreases |s| - i, 1
  {
    if i >= |s| then Outcome(authority, Clean)
    else match ReadField(schema, s, i)
      case Halt(f) => Outcome(authority, f)
      case Next(next, u) => Decode(schema, s, next, Apply(u, authority))
  }

  predicate Accepts(schema: Schema, s: seq<byte>) {
    Decode(schema, s, 0, []).fault.Clean?
  }

  // ------------------------------------------------- messages as item lists

  function Number(x: Item): int {
    FieldNumber(Value(x.tag))
  }

  predicate AllPositive(xs: Items) {
    match xs
    case Nil => true
    case Cons(x, rest) => Number(x) > 0 && AllPositive(rest)
  }

  /** `b` splits into complete fields with positive numbers: a `Params` encoding. */
  ghost predicate IsParams(b: seq<byte>) {
    exists ys :: AllComplete(ys) && FlatAll(ys) == b && AllPositive(ys)
  }

  /** A declared field is length-delimited, and a nested one holds a `Params`. */
  ghost predicate Allowed(schema: Schema, x: Item) {
    && Number(x) > 0
    && (Number(x) in schema ==>
          && x.BytesItem?
          && (schema[Number(x)].ParamsField? ==> IsParams(x.payload)))
  }

  ghost predicate AllAllowed(schema: Schema, xs: Items) {
    match xs
    case Nil => true
    case Cons(x, rest) => Allowed(schema, x) && AllAllowed(schema, rest)
  }

  /** `xs` is the split of `s` into complete fields, all of them allowed. */
  ghost predicate IsMessage(schema: Schema, s: seq<byte>, xs: Items) {
    AllComplete(xs) && FlatAll(xs) == s && AllAllowed(schema, xs)
  }

  predicate IsString(schema: Schema, x: Item) {
    x.BytesItem? && Number(x) in schema && schema[Number(x)].StringField?
  }

  function UpdateOf(schema: Schema, x: Item): Update {
    if IsString(schema, x) then Set(x.payload) else Keep
  }

  /** "Last one wins". */
  function LastString(schema: Schema, xs: Items, authority: seq<byte>): seq<byte> {
    match xs
    case Nil => authority
    case Cons(x, rest) => LastString(schema, rest, Apply(UpdateOf(schema, x), authority))
  }

  predicate NoString(schema: Schema, xs: Items) {
    match xs
    case Nil => true
    case Cons(x, rest) => !IsString(schema, x) && NoString(schema, rest)
  }

  /** The fold keeps the start value, or the payload of the last string item. */
  lemma {:induction false} LastStringIsLast(schema: Schema, xs: Items, authority: seq<byte>)
    ensures NoString(schema, xs) ==> LastString(schema, xs, authority) == authority
    ensures !NoString(schema, xs) ==>
              exists ys, x, zs ::
                && xs == Append(ys, Cons(x, zs)) && IsString(schema, x) && NoString(schema, zs)
                && LastString(schema, xs, authority) == x.payload
  {
    if xs.Cons? {
      var x, rest := xs.head, xs.tail;
      LastStringIsLast(schema, rest, Apply(UpdateOf(schema, x), authority));
      if !NoString(schema, rest) {
        var ys, y, zs :| rest == Append(ys, Cons(y, zs)) && IsString(schema, y) && NoString(schema, zs)
          && LastString(schema, rest, Apply(UpdateOf(schema, x), authority)) == y.payload;
        assert xs == Append(Cons(x, ys), Cons(y, zs));
      } else if IsString(schema, x) {
        assert xs == Append(Nil, Cons(x, rest));
      }
    }
  }

  // --------------------------------------- allowed items decode, as a fold

  /** Allowed fields at `i` are folded into the receiver, and decoding goes on behind them. */
  lemma {:induction false} DecodeFront(schema: Schema, xs: Items, s: seq<byte>, i: nat, authority: seq<byte>)
    requires AllComplete(xs) && AllAllowed(schema, xs) && |s| <= MAX_INT && At(s, i, FlatAll(xs))
    ensures Decode(schema, s, i, authority)
            == Decode(schema, s, i + |FlatAll(xs)|, LastString(schema, xs, authority))
    decreases |s| - i, 1, xs
  {
    hide ReadField, Allowed, UpdateOf, Complete, Flat;
    match xs
    case Nil =>
    case Cons(x, rest) =>
      AtConcat(s, i, Flat(x), FlatAll(rest));
      ItemNonEmpty(x);
      FieldOfItem(schema, x, s, i);
      DecodeFront(schema, rest, s, i + |Flat(x)|, Apply(UpdateOf(schema, x), authority));
  }

  lemma {:induction false} DecodeItems(schema: Schema, xs: Items, s: seq<byte>, i: nat, authority: seq<byte>)
    requires AllComplete(xs) && AllAllowed(schema, xs) && |s| <= MAX_INT
    requires At(s, i, FlatAll(xs)) && i + |FlatAll(xs)| == |s|
    ensures Decode(schema, s, i, authority) == Outcome(LastString(schema, xs, authority), Clean)
    decreases |s| - i, 2
  {
    hide ReadField, AllAllowed, AllComplete, FlatAll;
    DecodeFront(schema, xs, s, i, authority);
  }

  lemma {:induction false} FieldOfItem(schema: Schema, x: Item, s: seq<byte>, i: nat)
    requires Complete(x) && Allowed(schema, x) && |s| <= MAX_INT && At(s, i, Flat(x))
    ensures |Flat(x)| > 0
    ensures ReadField(schema, s, i) == Next(i + |Flat(x)|, UpdateOf(schema, x))
    decreases |s| - i, 0
  {
    hide Read, Prefix, SkipUnknown, Value, IsVarint, FieldNumber;
    ItemNonEmpty(x);
    AtConcat(s, i, x.tag, AfterTag(x));
    assert IsVarint(x.tag);
    ReadAt(s, i, x.tag);
    if Number(x) !in schema {
      SkipOfItem(x, s, i);
    } else {
      PrefixOfItem(x, s, i);
      if schema[Number(x)].ParamsField? {
        var ys :| AllComplete(ys) && FlatAll(ys) == x.payload && AllPositive(ys);
        PositiveIsAllowed(ys);
        AtWhole(x.payload);
        DecodeItems(EMPTY, ys, x.payload, 0, []);
      }
    }
  }

  lemma AtWhole(s: seq<byte>)
    ensures At(s, 0, s)
  {
  }

  lemma SkipOfItem(x: Item, s: seq<byte>, i: nat)
    requires Complete(x) && |s| <= MAX_INT && At(s, i, Flat(x)) && i < |s|
    ensures SkipUnknown(s, i) == Next(i + |Flat(x)|, Keep)
  {
    hide SkipFrom, Complete, Flat;
    assert At(s[i..], 0, Flat(x));
    WalkItem(x, s[i..], 0, 0);
  }

  lemma PrefixOfItem(x: Item, s: seq<byte>, i: nat)
    requires Complete(x) && x.BytesItem? && At(s, i, Flat(x))
    ensures i + |x.tag| <= |s|
    ensures Prefix(s, i + |x.tag|) == Ok((i + |x.tag| + |x.length|, i + |Flat(x)|))
    ensures i + |Flat(x)| <= |s| && s[i + |x.tag| + |x.length|..i + |Flat(x)|] == x.payload
  {
    hide Read, Value, IsVarint;
    AtConcat(s, i, x.tag, x.length + x.payload);
    AtConcat(s, i + |x.tag|, x.length, x.payload);
    ReadAt(s, i + |x.tag|, x.length);
    AtSlice(s, i + |x.tag| + |x.length|, x.payload);
  }

  lemma {:induction false} PositiveIsAllowed(xs: Items)
    ensures AllAllowed(EMPTY, xs) <==> AllPositive(xs)
  {
    match xs
    case Nil =>
    case Cons(_, rest) => PositiveIsAllowed(rest);
  }

  // --------------------------------------- what decodes is allowed items

  lemma {:induction false} ItemsOfDecode(schema: Schema, s: seq<byte>, i: nat, authority: seq<byte>)
    returns (xs: Items)
    requires i <= |s| && Decode(schema, s, i, authority).fault.Clean?
    ensures AllComplete(xs) && FlatAll(xs) == s[i..] && AllAllowed(schema, xs)
    decreases |s| - i, 1
  {
    hide ReadField, Allowed, Complete, Flat;
    if i == |s| {
      xs := Nil;
    } else {
      var Next(next, u) := ReadField(schema, s, i);
      var x := ItemOfField(schema, s, i);
      var rest := ItemsOfDecode(schema, s, next, Apply(u, authority));
      xs := Cons(x, rest);
      assert s[i..] == s[i..next] + s[next..];
    }
  }

  lemma {:induction false} ItemOfField(schema: Schema, s: seq<byte>, i: nat) returns (x: Item)
    requires i < |s| && ReadField(schema, s, i).Next?
    ensures Complete(x) && Flat(x) == s[i..ReadField(schema, s, i).next] && Allowed(schema, x)
    decreases |s| - i, 0
  {
    hide Read, Prefix, SkipUnknown, Value, IsVarint, FieldNumber;
    var Ok((wire, j)) := Read(s, i);
    ReadExact(s, i, wire, j);
    if FieldNumber(wire) !in schema {
      x := ItemOfSkip(s, i);
    } else {
      x := ItemOfPrefix(s, i);
      if schema[FieldNumber(wire)].ParamsField? {
        var ys := ItemsOfDecode(EMPTY, x.payload, 0, []);
        assert x.payload[0..] == x.payload;
        PositiveIsAllowed(ys);
      }
    }
  }

  lemma ItemOfSkip(s: seq<byte>, i: nat) returns (x: Item)
    requires i < |s| && SkipUnknown(s, i).Next? && Read(s, i).Ok?
    ensures Complete(x) && Flat(x) == s[i..SkipUnknown(s, i).next]
    ensures Value(x.tag) == Read(s, i).value.0
  {
    hide SkipFrom, Read, Value, IsVarint;
    x := WalkedItem(s[i..]);
    assert s[i..][..|Flat(x)|] == s[i..SkipUnknown(s, i).next];
    AtSlice(s, i, Flat(x));
    AtConcat(s, i, x.tag, AfterTag(x));
    ReadAt(s, i, x.tag);
  }

  lemma ItemOfPrefix(s: seq<byte>, i: nat) returns (x: Item)
    requires i < |s| && Read(s, i).Ok? && WireType(Read(s, i).value.0) == 2
    requires Prefix(s, Read(s, i).value.1).Ok? && Prefix(s, Read(s, i).value.1).value.1 <= |s|
    ensures x.BytesItem? && Complete(x) && Value(x.tag) == Read(s, i).value.0
    ensures var (start, end) := Prefix(s, Read(s, i).value.1).value;
            Flat(x) == s[i..end] && x.payload == s[start..end]
  {
    hide Read, Value, IsVarint;
    var (wire, j) := Read(s, i).value;
    ReadExact(s, i, wire, j);
    var (v, start) := Read(s, j).value;
    ReadExact(s, j, v, start);
    var end := start + v;
    x := BytesItem(s[i..j], s[j..start], s[start..end]);
    assert s[i..end] == s[i..j] + (s[j..start] + s[start..end]);
  }

  /**
   The loop decodes exactly the messages: it succeeds if and only if the input
   splits into complete, allowed fields, and then leaves the last string.
   */
  lemma DecodeExact(schema: Schema, s: seq<byte>, authority: seq<byte>)
    requires |s| <= MAX_INT
    ensures Decode(schema, s, 0, authority).fault.Clean? <==> exists xs :: IsMessage(schema, s, xs)
    ensures forall xs | IsMessage(schema, s, xs) ::
              Decode(schema, s, 0, authority) == Outcome(LastString(schema, xs, authority), Clean)
  {
    hide Decode, AllComplete, FlatAll, AllAllowed;
    forall xs | IsMessage(schema, s, xs)
      ensures Decode(schema, s, 0, authority) == Outcome(LastString(schema, xs, authority), Clean)
    {
      AtWhole(s);
      DecodeItems(schema, xs, s, 0, authority);
    }
    if Decode(schema, s, 0, authority).fault.Clean? {
      var xs := ItemsOfDecode(schema, s, 0, authority);
      assert s[0..] == s;
      assert IsMessage(schema, s, xs);
    }
  }

  /** The split of an input is unique, so it alone decides which schemas accept it. */
  lemma AcceptsBySplit(schema: Schema, s: seq<byte>, xs: Items)
    requires |s| <= MAX_INT && AllComplete(xs) && FlatAll(xs) == s
    ensures Accepts(schema, s) <==> AllAllowed(schema, xs)
  {
    hide Decode, AllComplete, FlatAll, AllAllowed;
    DecodeExact(schema, s, []);
    if Accepts(schema, s) {
      var ys :| IsMessage(schema, s, ys);
      UniqueSplit(xs, ys);
    }
    if AllAllowed(schema, xs) {
      assert IsMessage(schema, s, xs);
    }
  }

  // ----------------------------------------------- what any input leaves behind

  /** `xs` are allowed fields at the front of `s`, and no further allowed field follows. */
  ghost predicate IsFront(schema: Schema, s: seq<byte>, xs: Items) {
    && AllComplete(xs) && AllAllowed(schema, xs) && At(s, 0, FlatAll(xs))
    && forall x :: Complete(x) && Allowed(schema, x) ==> !At(s, |FlatAll(xs)|, Flat(x))
  }

  /** The fields decoded before the loop ends or halts. */
  lemma {:induction false} DecodedFields(schema: Schema, s: seq<byte>, i: nat, authority: seq<byte>)
    returns (xs: Items)
    requires i <= |s|
    ensures AllComplete(xs) && AllAllowed(schema, xs) && At(s, i, FlatAll(xs))
    ensures Decode(schema, s, i, authority).authority == LastString(schema, xs, authority)
    ensures var j, f := i + |FlatAll(xs)|, Decode(schema, s, i, authority).fault;
            if j == |s| then f == Clean else ReadField(schema, s, j) == Halt(f)
    decreases |s| - i
  {
    hide ReadField, Allowed, UpdateOf, Complete, Flat;
    if i == |s| || ReadField(schema, s, i).Halt? {
      xs := Nil;
    } else {
      var Next(next, u) := ReadField(schema, s, i);
      var x := ItemOfField(schema, s, i);
      AtSlice(s, i, Flat(x));
      UpdateOfField(schema, x, s, i);
      var rest := DecodedFields(schema, s, next, Apply(u, authority));
      xs := Cons(x, rest);
      AtConcat(s, i, Flat(x), FlatAll(rest));
    }
  }

  /** The update of a turn is that of the field it read. */
  lemma UpdateOfField(schema: Schema, x: Item, s: seq<byte>, i: nat)
    requires i < |s| && ReadField(schema, s, i).Next?
    requires Complete(x) && Allowed(schema, x) && At(s, i, Flat(x))
    requires i + |Flat(x)| == ReadField(schema, s, i).next
    ensures ReadField(schema, s, i).update == UpdateOf(schema, x)
  {
    hide Read, Prefix, SkipUnknown, Value, IsVarint, FieldNumber, IsParams, Decode;
    AtConcat(s, i, x.tag, AfterTag(x));
    assert IsVarint(x.tag);
    ReadAt(s, i, x.tag);
    if Number(x) in schema {
      PrefixOfItem(x, s, i);
    }
  }

  /**
   On every input, accepted or not, there is a longest front of allowed fields; the
   receiver holds the fold of exactly those, and success means that they are everything.
   */
  lemma FrontExact(schema: Schema, s: seq<byte>, authority: seq<byte>)
    requires |s| <= MAX_INT
    ensures exists xs :: IsFront(schema, s, xs)
    ensures forall xs | IsFront(schema, s, xs) ::
              && Decode(schema, s, 0, authority).authority == LastString(schema, xs, authority)
              && (Decode(schema, s, 0, authority).fault.Clean? <==> FlatAll(xs) == s)
  {
    var ys := FrontOfDecode(schema, s);
    hide IsFront;
    forall xs | IsFront(schema, s, xs)
      ensures Decode(schema, s, 0, authority).authority == LastString(schema, xs, authority)
      ensures Decode(schema, s, 0, authority).fault.Clean? <==> FlatAll(xs) == s
    {
      OutcomeOfFront(schema, s, xs, authority);
    }
  }

  lemma FrontOfDecode(schema: Schema, s: seq<byte>) returns (xs: Items)
    requires |s| <= MAX_INT
    ensures IsFront(schema, s, xs)
  {
    hide Decode, ReadField, AllAllowed, AllComplete, FlatAll, Allowed, Complete, Flat;
    xs := DecodedFields(schema, s, 0, []);
    forall x | Complete(x) && Allowed(schema, x)
      ensures !At(s, |FlatAll(xs)|, Flat(x))
    {
      ItemNonEmpty(x);
      if At(s, |FlatAll(xs)|, Flat(x)) {
        FieldOfItem(schema, x, s, |FlatAll(xs)|);
      }
    }
  }

  lemma OutcomeOfFront(schema: Schema, s: seq<byte>, xs: Items, authority: seq<byte>)
    requires |s| <= MAX_INT && IsFront(schema, s, xs)
    ensures Decode(schema, s, 0, authority).authority == LastString(schema, xs, authority)
    ensures Decode(schema, s, 0, authority).fault.Clean? <==> FlatAll(xs) == s
  {
    hide ReadField, AllAllowed, AllComplete, FlatAll, Allowed, Complete, Flat;
    var j := |FlatAll(xs)|;
    DecodeFront(schema, xs, s, 0, authority);
    AtSlice(s, 0, FlatAll(xs));
    assert s[0..|s|] == s;
    if j < |s| && ReadField(schema, s, j).Next? {
      var x := ItemOfField(schema, s, j);
      AtSlice(s, j, Flat(x));
      assert false;
    }
  }
}
