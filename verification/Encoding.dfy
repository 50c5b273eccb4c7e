/**
 `Marshal`, as a value: the bytes each message is written as, front to back, and
 what the decoder makes of them.
 */
module Encoding {
  import opened Machine
  import opened Varint
  import opened Grammar
  import opened Decoding
  import opened Laws

  /** A length-delimited field: tag byte, length varint, payload. */
  function Delimited(tag: byte, payload: seq<byte>): seq<byte> {
    [tag] + (Encode(|payload|) + payload)
  }

  /** Field 1; the empty string is not written. */
  function AuthorityField(authority: seq<byte>): seq<byte> {
    if |authority| == 0 then [] else Delimited(0x0a, authority)
  }

  /** `Params` has no fields and encodes to nothing, but is written wherever it is nested. */
  function EncodeMsgUpdateParams(authority: seq<byte>): seq<byte> {
    AuthorityField(authority) + Delimited(0x12, [])
  }

  function EncodeModule(authority: seq<byte>): seq<byte> {
    AuthorityField(authority)
  }

  const GENESIS_BYTES: seq<byte> := Delimited(0x0a, [])

  // -------------------------------------------------------------- round trip

  function AuthorityItem(authority: seq<byte>): Item {
    BytesItem([0x0a], Encode(|authority|), authority)
  }

  const PARAMS_ITEM: Item := BytesItem([0x12], [0x00], [])

  lemma AuthorityItemFacts(authority: seq<byte>)
    requires |authority| <= MAX_INT
    ensures Complete(AuthorityItem(authority)) && Number(AuthorityItem(authority)) == 1
    ensures Flat(AuthorityItem(authority)) == Delimited(0x0a, authority)
  {
    EncodeIsVarint(|authority|);
    assert Digits([0x0a][1..]) == 0;
  }

  lemma ParamsItemFacts()
    ensures Complete(PARAMS_ITEM) && Number(PARAMS_ITEM) == 2
    ensures Flat(PARAMS_ITEM) == Delimited(0x12, []) == [0x12, 0x00]
    ensures IsParams([])
  {
    assert Digits([0x12][1..]) == 0 && Digits([0x00][1..]) == 0;
    assert AllComplete(Nil) && FlatAll(Nil) == [] && AllPositive(Nil);
  }

  function AuthorityItems(authority: seq<byte>, rest: Items): Items {
    if |authority| == 0 then rest else Cons(AuthorityItem(authority), rest)
  }

  /** The authority field alone, followed by allowed items without a string. */
  lemma DecodeAuthority(schema: Schema, authority: seq<byte>, rest: Items, m: seq<byte>)
    requires 1 in schema && schema[1].StringField?
    requires AllComplete(rest) && AllAllowed(schema, rest) && NoString(schema, rest)
    requires |AuthorityField(authority) + FlatAll(rest)| <= MAX_INT
    ensures Decode(schema, AuthorityField(authority) + FlatAll(rest), 0, m)
            == Outcome(if |authority| == 0 then m else authority, Clean)
  {
    var xs := AuthorityItems(authority, rest);
    var m1 := if |authority| == 0 then m else authority;
    AuthorityItemFacts(authority);
    LastStringIsLast(schema, rest, m1);
    var s := AuthorityField(authority) + FlatAll(rest);
    assert FlatAll(xs) == s;
    AtWhole(s);
    hide Decode, Flat, Complete, FieldNumber, Delimited;
    DecodeItems(schema, xs, s, 0, m);
  }

  /** Decoding what was marshalled merges the message into the receiver. */
  lemma MarshalledMerges(authority: seq<byte>, m: seq<byte>)
    requires |EncodeMsgUpdateParams(authority)| <= MAX_INT
    ensures Decode(MSG_UPDATE_PARAMS, EncodeMsgUpdateParams(authority), 0, m)
            == Outcome(if |authority| == 0 then m else authority, Clean)
  {
    hide Decode, Complete, FieldNumber, Delimited, Flat, AuthorityField;
    ParamsItemFacts();
    var rest := Cons(PARAMS_ITEM, Nil);
    assert FlatAll(rest) == Delimited(0x12, []);
    DecodeAuthority(MSG_UPDATE_PARAMS, authority, rest, m);
  }

  lemma ModuleMerges(authority: seq<byte>, m: seq<byte>)
    requires |EncodeModule(authority)| <= MAX_INT
    ensures Decode(MODULE, EncodeModule(authority), 0, m)
            == Outcome(if |authority| == 0 then m else authority, Clean)
  {
    hide Decode, AuthorityField;
    assert AuthorityField(authority) + FlatAll(Nil) == EncodeModule(authority);
    DecodeAuthority(MODULE, authority, Nil, m);
  }

  /** Round trip into a zero message, for every message whose encoding fits an `int`. */
  lemma RoundTrip(authority: seq<byte>)
    ensures |EncodeMsgUpdateParams(authority)| <= MAX_INT ==>
              Decode(MSG_UPDATE_PARAMS, EncodeMsgUpdateParams(authority), 0, [])
              == Outcome(authority, Clean)
    ensures |EncodeModule(authority)| <= MAX_INT ==>
              Decode(MODULE, EncodeModule(authority), 0, []) == Outcome(authority, Clean)
  {
    hide Decode, EncodeMsgUpdateParams, EncodeModule;
    if |EncodeMsgUpdateParams(authority)| <= MAX_INT {
      MarshalledMerges(authority, []);
    }
    if |EncodeModule(authority)| <= MAX_INT {
      ModuleMerges(authority, []);
    }
  }

  /** No two messages share an encoding. */
  lemma MarshalInjective(a: seq<byte>, b: seq<byte>)
    requires |EncodeMsgUpdateParams(a)| <= MAX_INT
    requires EncodeMsgUpdateParams(a) == EncodeMsgUpdateParams(b)
    ensures a == b
  {
    hide Decode, EncodeMsgUpdateParams;
    RoundTrip(a);
    RoundTrip(b);
  }

  // ------------------------------------------------- the length of encodings

  /** The bytes field 1 takes. */
  function AuthoritySize(authority: seq<byte>): nat {
    |AuthorityField(authority)|
  }

  lemma SizeFacts(authority: seq<byte>)
    requires |authority| <= MAX_INT
    ensures AuthoritySize(authority)
            == if |authority| == 0 then 0 else 1 + |authority| + Sov(|authority|)
    ensures |EncodeModule(authority)| == AuthoritySize(authority)
    ensures |EncodeMsgUpdateParams(authority)| == AuthoritySize(authority) + 2
  {
    SovExact(|authority|);
    ParamsItemFacts();
  }

  predicate HasNumber(xs: Items, n: int) {
    match xs
    case Nil => false
    case Cons(x, rest) => Number(x) == n || HasNumber(rest, n)
  }

  /** A string item is at least as long as the field written for its payload. */
  lemma StringItemLength(x: Item)
    requires Complete(x) && x.BytesItem?
    ensures |Flat(x)| >= 1 + Sov(|x.payload|) + |x.payload| >= AuthoritySize(x.payload)
  {
    Minimal(x.length);
    SovExact(|x.payload|);
  }

  lemma {:induction false} ItemsCoverStrings(xs: Items, m: seq<byte>)
    requires AllComplete(xs)
    ensures AuthoritySize(LastString(MSG_UPDATE_PARAMS, xs, m)) + (if HasNumber(xs, 2) then 2 else 0)
            <= AuthoritySize(m) + |FlatAll(xs)|
  {
    match xs
    case Nil =>
    case Cons(x, rest) =>
      hide Flat, Complete, FieldNumber, Value, AuthoritySize, Sov;
      ItemsCoverStrings(rest, Apply(UpdateOf(MSG_UPDATE_PARAMS, x), m));
      ItemNonEmpty(x);
      if IsString(MSG_UPDATE_PARAMS, x) {
        StringItemLength(x);
      }
  }

  /** Field `n` stands among the items of `s`; the split is unique (`UniqueSplit`). */
  ghost predicate HasField(s: seq<byte>, n: int) {
    exists xs :: AllComplete(xs) && FlatAll(xs) == s && HasNumber(xs, n)
  }

  /**
   Re-encoding: what decodes from `b` is written in at most two bytes more, and in no
   more bytes than `b` has when `b` carries the `Params` field. So among the inputs
   that carry it, `Marshal` writes a shortest one for each message.
   */
  lemma ReencodingBound(b: seq<byte>)
    requires |b| <= MAX_INT && Accepts(MSG_UPDATE_PARAMS, b)
    ensures var m := Decode(MSG_UPDATE_PARAMS, b, 0, []).authority;
            && |m| <= MAX_INT
            && |EncodeMsgUpdateParams(m)| <= |b| + 2
            && (HasField(b, 2) ==> |EncodeMsgUpdateParams(m)| <= |b|)
  {
    hide Decode, Flat, Complete, FieldNumber, AuthorityField, EncodeMsgUpdateParams, IsString;
    var xs := ItemsOfDecode(MSG_UPDATE_PARAMS, b, 0, []);
    assert b[0..] == b;
    DecodeExact(MSG_UPDATE_PARAMS, b, []);
    var m := LastString(MSG_UPDATE_PARAMS, xs, []);
    assert IsMessage(MSG_UPDATE_PARAMS, b, xs);
    ItemsCoverStrings(xs, []);
    EmptyAuthority();
    AuthorityLength(m);
    SizeFacts(m);
    if HasField(b, 2) {
      var ys :| AllComplete(ys) && FlatAll(ys) == b && HasNumber(ys, 2);
      UniqueSplit(xs, ys);
    }
  }

  lemma EmptyAuthority()
    ensures AuthoritySize([]) == 0
  {
  }

  lemma AuthorityLength(m: seq<byte>)
    ensures |m| <= AuthoritySize(m)
  {
  }

  /**
   Both bounds are reached: the empty input gains two bytes, and every marshalled input,
   which carries the `Params` field, gains none.
   */
  lemma ReencodingTight(m: seq<byte>)
    requires |EncodeMsgUpdateParams(m)| <= MAX_INT
    ensures var b: seq<byte> := [];
            var o := Decode(MSG_UPDATE_PARAMS, b, 0, []);
            o.fault.Clean? && |EncodeMsgUpdateParams(o.authority)| == |b| + 2
    ensures var b := EncodeMsgUpdateParams(m);
            var o := Decode(MSG_UPDATE_PARAMS, b, 0, []);
            o.fault.Clean? && HasField(b, 2) && |EncodeMsgUpdateParams(o.authority)| == |b|
  {
    SizeFacts([]);
    EmptyAuthority();
    RoundTrip(m);
    MarshalledCarriesParams(m);
    hide EncodeMsgUpdateParams, HasField;
  }

  lemma MarshalledCarriesParams(m: seq<byte>)
    requires |EncodeMsgUpdateParams(m)| <= MAX_INT
    ensures HasField(EncodeMsgUpdateParams(m), 2)
  {
    ParamsItemFacts();
    AuthorityItemFacts(m);
    var rest := Cons(PARAMS_ITEM, Nil);
    var xs := AuthorityItems(m, rest);
    assert FlatAll(rest) == Delimited(0x12, []);
    assert FlatAll(xs) == EncodeMsgUpdateParams(m);
    hide Flat, Complete, FieldNumber, AuthorityField;
    assert HasNumber(rest, 2) && HasNumber(xs, 2) && AllComplete(xs);
  }

  /** Decode-then-encode is a normal form: doing it again changes nothing. */
  lemma NormalForm(b: seq<byte>)
    requires |b| + 2 <= MAX_INT && Accepts(MSG_UPDATE_PARAMS, b)
    ensures var n := EncodeMsgUpdateParams(Decode(MSG_UPDATE_PARAMS, b, 0, []).authority);
            && Accepts(MSG_UPDATE_PARAMS, n)
            && EncodeMsgUpdateParams(Decode(MSG_UPDATE_PARAMS, n, 0, []).authority) == n
  {
    hide Decode, EncodeMsgUpdateParams;
    ReencodingBound(b);
    RoundTrip(Decode(MSG_UPDATE_PARAMS, b, 0, []).authority);
  }

  lemma {:induction false} FieldTakesTwoBytes(xs: Items, n: int)
    requires AllComplete(xs) && HasNumber(xs, n)
    ensures |FlatAll(xs)| >= 2
  {
    hide Flat, Complete, FieldNumber;
    ItemNonEmpty(xs.head);
  }

  /**
   The nested-only messages: their one encoding decodes cleanly, and no input that
   carries field 1 is shorter.
   */
  lemma GenesisExact(m: seq<byte>)
    ensures GENESIS_BYTES == [0x0a, 0x00]
    ensures Decode(GENESIS_STATE, GENESIS_BYTES, 0, m) == Outcome(m, Clean)
    ensures forall s :: HasField(s, 1) ==> |s| >= |GENESIS_BYTES|
  {
    AuthorityItemFacts([]);
    ParamsItemFacts();
    assert Encode(0) == [0];
    var xs := Cons(AuthorityItem([]), Nil);
    assert FlatAll(xs) == GENESIS_BYTES;
    AtWhole(GENESIS_BYTES);
    hide Decode, Flat, Complete, FieldNumber, Delimited;
    DecodeItems(GENESIS_STATE, xs, GENESIS_BYTES, 0, m);
    forall s | HasField(s, 1)
      ensures |s| >= 2
    {
      var ys :| AllComplete(ys) && FlatAll(ys) == s && HasNumber(ys, 1);
      FieldTakesTwoBytes(ys, 1);
    }
  }
}
