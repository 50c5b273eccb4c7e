/**
 `prepForZeroHeightGenesis`: the reward sweep into the community pool, the height
 resets and the jailing by allow-list. The keepers' stores are maps held by `App`.
 A Go panic is the result `false`.
 */
module ZeroHeight {
  import opened Machine

  type Addr = seq<byte>

  datatype Option<+T> = None | Some(value: T)

  /** Decimal coins, in units of 10^-18; a missing denomination is zero. */
  type Coins = map<string, nat>

  function Amount(c: Coins, denom: string): (n: nat)
    ensures denom in c ==> n == c[denom]
    ensures denom !in c ==> n == 0
  {
    if denom in c then c[denom] else 0
  }

  /** `DecCoins.Add`. */
  function AddCoins(a: Coins, b: Coins): (c: Coins)
    ensures c.Keys == a.Keys + b.Keys
    ensures forall d :: d in a && d in b ==> c[d] == a[d] + b[d]
    ensures forall d :: d in a && d !in b ==> c[d] == a[d]
    ensures forall d :: d !in a && d in b ==> c[d] == b[d]
    ensures forall d :: Amount(c, d) == Amount(a, d) + Amount(b, d)
  {
    map d | d in a.Keys + b.Keys :: Amount(a, d) + Amount(b, d)
  }

  /** The validator address codec. Several strings may parse to one address. */
  datatype Codec = Codec(parse: string -> Option<Addr>, format: Addr -> Option<string>)

  /** `other` stands for the fields this code never touches. */
  datatype Validator = Validator(operator: string, jailed: bool, unbondingHeight: int, other: seq<byte>)

  datatype Entry = Entry(creationHeight: int, other: seq<byte>)

  datatype Redelegation =
    Redelegation(delegator: string, source: string, destination: string, entries: seq<Entry>)

  datatype Unbonding = Unbonding(delegator: string, validator: string, entries: seq<Entry>)

  datatype Delegation = Delegation(delegator: string, validator: string)

  function RedelegationKey(r: Redelegation): (string, string, string) {
    (r.delegator, r.source, r.destination)
  }

  function UnbondingKey(u: Unbonding): (string, string) {
    (u.delegator, u.validator)
  }

  /** The same entries, created at height zero. */
  predicate HeightsZeroed(before: seq<Entry>, after: seq<Entry>) {
    && |after| == |before|
    && forall i :: 0 <= i < |after| ==>
         after[i].creationHeight == 0 && after[i].other == before[i].other
  }

  function ZeroEntries(es: seq<Entry>): (zs: seq<Entry>)
    ensures HeightsZeroed(es, zs)
  {
    seq(|es|, i requires 0 <= i < |es| => es[i].(creationHeight := 0))
  }

  /** What the reset makes of one validator whose canonical address string is `name`. */
  function ResetValidator(v: Validator, name: string, list: seq<string>): (r: Validator)
    ensures r.unbondingHeight == 0 && r.operator == v.operator && r.other == v.other
    ensures r.jailed <==> v.jailed || (|list| > 0 && name !in list)
  {
    v.(unbondingHeight := 0, jailed := v.jailed || (|list| > 0 && name !in list))
  }

  /** Every validator record is stored under the address its operator string spells. */
  predicate Keyed(codec: Codec, vs: map<Addr, Validator>) {
    forall a :: a in vs ==> codec.parse(vs[a].operator) == Some(a)
  }

  /** The validators outside `rest` are reset, those in `rest` are as before. */
  predicate ResetExcept(codec: Codec, before: map<Addr, Validator>, now: map<Addr, Validator>,
                        rest: set<Addr>, list: seq<string>) {
    && now.Keys == before.Keys
    && (forall a :: a in rest && a in now ==> now[a] == before[a])
    && (forall a :: a in now && a !in rest ==>
          && codec.format(a).Some?
          && now[a] == ResetValidator(before[a], codec.format(a).value, list))
  }

  lemma ResetStep(codec: Codec, before: map<Addr, Validator>, now: map<Addr, Validator>,
                  rest: set<Addr>, list: seq<string>, a: Addr)
    requires ResetExcept(codec, before, now, rest, list) && Keyed(codec, now)
    requires a in rest && a in now && codec.format(a).Some?
    ensures var next := now[a := ResetValidator(now[a], codec.format(a).value, list)];
            ResetExcept(codec, before, next, rest - {a}, list) && Keyed(codec, next)
    ensures codec.parse(now[a].operator) == Some(a)
  {
  }

  // ---------------------------------------------------------- sums of rewards

  /** All outstanding rewards of one denomination. */
  ghost function Total(rewards: map<Addr, Coins>, denom: string): (n: nat)
    ensures rewards == map[] ==> n == 0
    decreases |rewards|
  {
    if rewards == map[] then 0
    else
      var a :| a in rewards;
      Amount(rewards[a], denom) + Total(rewards - {a}, denom)
  }

  /** The sum does not depend on which validator is taken out first. */
  lemma {:induction false} TotalRemove(rewards: map<Addr, Coins>, a: Addr, denom: string)
    requires a in rewards
    ensures Total(rewards, denom) == Amount(rewards[a], denom) + Total(rewards - {a}, denom)
    decreases |rewards|
  {
    var b :| b in rewards && Total(rewards, denom) == Amount(rewards[b], denom) + Total(rewards - {b}, denom);
    if a != b {
      TotalRemove(rewards - {b}, a, denom);
      TotalRemove(rewards - {a}, b, denom);
      assert rewards - {b} - {a} == rewards - {a} - {b};
    }
  }

  function RewardsOf(rewards: map<Addr, Coins>, a: Addr): Coins {
    if a in rewards then rewards[a] else map[]
  }

  /** Emptying one validator's rewards takes exactly them out of the sum. */
  lemma TotalEmptied(rewards: map<Addr, Coins>, a: Addr, denom: string)
    ensures Total(rewards[a := map[]], denom) + Amount(RewardsOf(rewards, a), denom)
            == Total(rewards, denom)
  {
    var after := rewards[a := map[]];
    TotalRemove(after, a, denom);
    assert after - {a} == rewards - {a};
    if a in rewards {
      TotalRemove(rewards, a, denom);
    } else {
      assert rewards - {a} == rewards;
    }
  }

  // ------------------------------------------------------------ the allow-list

  /** Some string of the list denotes the address. */
  predicate Listed(codec: Codec, list: seq<string>, a: Addr) {
    exists k :: 0 <= k < |list| && codec.parse(list[k]) == Some(a)
  }

  /** What an allow-list is for: with a list, everyone it does not denote is jailed. */
  predicate JailedByAddress(codec: Codec, list: seq<string>, vs: map<Addr, Validator>,
                            after: map<Addr, Validator>) {
    forall a :: a in vs && a in after ==>
      (after[a].jailed <==> vs[a].jailed || (|list| > 0 && !Listed(codec, list, a)))
  }

  /** Formatting a stored validator's address gives a string that parses back to it. */
  predicate Canonical(codec: Codec, vs: map<Addr, Validator>) {
    forall a :: a in vs && codec.format(a).Some? ==> codec.parse(codec.format(a).value) == Some(a)
  }

  /** Every entry that spells a stored, unjailed validator comes with the canonical string. */
  predicate SpelledCanonically(codec: Codec, list: seq<string>, vs: map<Addr, Validator>) {
    forall k :: 0 <= k < |list| ==>
      match codec.parse(list[k])
      case None => true
      case Some(a) =>
        a in vs && !vs[a].jailed ==> codec.format(a).Some? && codec.format(a).value in list
  }

  /**
   The code looks a validator up by its canonical string, not by its address. The reset
   store jails by address exactly when the list spells the stored, unjailed validators
   canonically.
   */
  lemma AllowListExact(codec: Codec, list: seq<string>, vs: map<Addr, Validator>,
                       after: map<Addr, Validator>)
    requires Canonical(codec, vs) && ResetExcept(codec, vs, after, {}, list)
    ensures JailedByAddress(codec, list, vs, after) <==> SpelledCanonically(codec, list, vs)
  {
    forall a | a in vs && codec.format(a).value in list
      ensures Listed(codec, list, a)
    {
      var k :| 0 <= k < |list| && list[k] == codec.format(a).value;
    }
    if JailedByAddress(codec, list, vs, after) {
      forall k | 0 <= k < |list| && codec.parse(list[k]).Some? && codec.parse(list[k]).value in vs
        ensures var a := codec.parse(list[k]).value;
                !vs[a].jailed ==> codec.format(a).value in list
      {
        assert Listed(codec, list, codec.parse(list[k]).value);
      }
    }
  }

  /** A second spelling alone does not protect: the one listed validator comes out jailed. */
  lemma SecondSpellingJails()
    returns (codec: Codec, list: seq<string>, vs: map<Addr, Validator>, after: map<Addr, Validator>)
    ensures Keyed(codec, vs) && Canonical(codec, vs) && ResetExcept(codec, vs, after, {}, list)
    ensures forall k :: 0 <= k < |list| ==> codec.parse(list[k]).Some?
    ensures exists a :: a in vs && a in after && Listed(codec, list, a)
                        && !vs[a].jailed && after[a].jailed
    ensures !JailedByAddress(codec, list, vs, after)
  {
    codec := Codec(s => if s == "val" || s == "VAL" then Some([1]) else None,
                   a => if a == [1] then Some("val") else None);
    list := ["VAL"];
    var v := Validator("val", false, 7, []);
    vs, after := map[[1] := v], map[[1] := ResetValidator(v, "val", list)];
    assert codec.parse(list[0]) == Some([1]);
    assert [1] in vs && Listed(codec, list, [1]) && after[[1]].jailed;
  }

  // ------------------------------------------------------------------- the app

  class App {
    const codec: Codec
    /** The account address codec, as far as it is used: parsing. */
    const parseAccount: string -> Option<Addr>
    var delegations: seq<Delegation>
    var validators: map<Addr, Validator>
    var redelegations: map<(string, string, string), Redelegation>
    var unbondings: map<(string, string), Unbonding>
    var outstanding: map<Addr, Coins>
    var communityPool: Coins

    constructor (codec: Codec, parseAccount: string -> Option<Addr>)
      ensures this.codec == codec && this.parseAccount == parseAccount && Valid() && fresh(this)
    {
      this.codec, this.parseAccount := codec, parseAccount;
      delegations := [];
      validators, redelegations, unbondings := map[], map[], map[];
      outstanding, communityPool := map[], map[];
    }

    /** Every record is stored under the key that its own fields give. */
    ghost predicate Valid()
      reads this
    {
      && Keyed(codec, validators)
      && (forall k :: k in redelegations ==> RedelegationKey(redelegations[k]) == k)
      && (forall k :: k in unbondings ==> UnbondingKey(unbondings[k]) == k)
    }

    /** The addresses of the validators' operators. */
    ghost function Operators(): set<Addr>
      reads this
    {
      set a | a in validators && codec.parse(validators[a].operator).Some?
        :: codec.parse(validators[a].operator).value
    }

    /** The allow-list, checked and turned into a set of strings. */
    method ParseAllowList(list: seq<string>) returns (r: Option<set<string>>)
      ensures r.Some? <==> forall k :: 0 <= k < |list| ==> codec.parse(list[k]).Some?
      ensures r.Some? ==> forall s :: s in r.value <==> s in list
    {
      var allowed: set<string> := {};
      for i := 0 to |list|
        invariant forall k :: 0 <= k < i ==> codec.parse(list[k]).Some?
        invariant forall s :: s in allowed <==> s in list[..i]
      {
        if codec.parse(list[i]).None? {
          return None;
        }
        allowed := allowed + {list[i]};
        assert list[..i + 1] == list[..i] + [list[i]];
      }
      assert list[..|list|] == list;
      r := Some(allowed);
    }

    /**
     The loops over operators and delegations, before and behind the sweep, as far as this
     model goes: they parse the addresses they hand to the distribution keeper.
     */
    method ParseOperators() returns (ok: bool)
      ensures ok <==> forall a :: a in validators ==> codec.parse(validators[a].operator).Some?
    {
      var rest := validators.Keys;
      while rest != {}
        invariant rest <= validators.Keys
        invariant forall a :: a in validators.Keys - rest ==> codec.parse(validators[a].operator).Some?
        decreases |rest|
      {
        var a :| a in rest;
        rest := rest - {a};
        if codec.parse(validators[a].operator).None? {
          return false;
        }
      }
      ok := true;
    }

    /** Both addresses of every delegation must parse. */
    method ParseDelegations(dels: seq<Delegation>) returns (ok: bool)
      ensures ok <==> forall k :: 0 <= k < |dels| ==>
                codec.parse(dels[k].validator).Some? && parseAccount(dels[k].delegator).Some?
    {
      for i := 0 to |dels|
        invariant forall k :: 0 <= k < i ==>
                    codec.parse(dels[k].validator).Some? && parseAccount(dels[k].delegator).Some?
      {
        var valAddr := codec.parse(dels[i].validator);
        if valAddr.None? {
          return false;
        }
        var delAddr := parseAccount(dels[i].delegator);
        if delAddr.None? {
          return false;
        }
      }
      ok := true;
    }

    /** The distribution hook, as far as rewards go: it starts the validator at nothing. */
    method AfterValidatorCreated(a: Addr)
      modifies this`outstanding
      ensures outstanding == old(outstanding)[a := map[]]
    {
      outstanding := outstanding[a := map[]];
    }

    /** One validator's outstanding rewards go to the community pool. */
    method Donate(a: Addr)
      modifies this`outstanding, this`communityPool
      ensures outstanding == old(outstanding)[a := map[]]
      ensures communityPool == AddCoins(old(communityPool), RewardsOf(old(outstanding), a))
      ensures var rewards := if a in old(outstanding) then old(outstanding)[a] else map[];
              && communityPool.Keys == old(communityPool).Keys + rewards.Keys
              && forall d :: d in communityPool ==>
                   communityPool[d] == (if d in old(communityPool) then old(communityPool)[d] else 0)
                                       + (if d in rewards then rewards[d] else 0)
      ensures forall d :: Amount(communityPool, d) + Total(outstanding, d)
                          == old(Amount(communityPool, d) + Total(outstanding, d))
    {
      var rewards := RewardsOf(outstanding, a);
      communityPool := AddCoins(communityPool, rewards);
      AfterValidatorCreated(a);
      forall d
        ensures Amount(communityPool, d) + Total(outstanding, d)
                == old(Amount(communityPool, d) + Total(outstanding, d))
      {
        TotalEmptied(old(outstanding), a, d);
      }
    }

    /**
     The sweep over all validators. Whether it completes or panics on an operator string
     that does not parse, pool and outstanding rewards together stay what they were.
     */
    method SweepRewards() returns (ok: bool)
      modifies this`outstanding, this`communityPool
      ensures ok <==> forall a :: a in validators ==> codec.parse(validators[a].operator).Some?
      ensures forall d :: Amount(communityPool, d) + Total(outstanding, d)
                          == old(Amount(communityPool, d) + Total(outstanding, d))
      ensures ok ==> forall a :: a in Operators() ==> RewardsOf(outstanding, a) == map[]
      ensures forall a :: a !in Operators() ==>
                (a in outstanding <==> a in old(outstanding))
                && RewardsOf(outstanding, a) == RewardsOf(old(outstanding), a)
    {
      var rest := validators.Keys;
      while rest != {}
        invariant rest <= validators.Keys
        invariant forall a :: a in validators.Keys - rest ==>
                    && codec.parse(validators[a].operator).Some?
                    && RewardsOf(outstanding, codec.parse(validators[a].operator).value) == map[]
        invariant forall d :: Amount(communityPool, d) + Total(outstanding, d)
                              == old(Amount(communityPool, d) + Total(outstanding, d))
        invariant forall a :: a !in Operators() ==>
                    (a in outstanding <==> a in old(outstanding))
                    && RewardsOf(outstanding, a) == RewardsOf(old(outstanding), a)
        decreases |rest|
      {
        var k :| k in rest;
        rest := rest - {k};
        var valBz := codec.parse(validators[k].operator);
        if valBz.None? {
          return false;
        }
        assert valBz.value in Operators();
        Donate(valBz.value);
      }
      ok := true;
    }

    /** The inner loop over one record's entries. */
    method ZeroHeights(entries: seq<Entry>) returns (r: seq<Entry>)
      ensures r == ZeroEntries(entries)
      ensures |r| == |entries|
      ensures forall k :: 0 <= k < |r| ==>
                r[k].creationHeight == 0 && r[k].other == entries[k].other
    {
      r := entries;
      for i := 0 to |entries|
        invariant |r| == |entries|
        invariant forall k :: 0 <= k < i ==> r[k] == entries[k].(creationHeight := 0)
        invariant forall k :: i <= k < |r| ==> r[k] == entries[k]
      {
        r := r[i := r[i].(creationHeight := 0)];
      }
    }

    method ResetRedelegations()
      requires Valid()
      modifies this`redelegations
      ensures Valid() && redelegations.Keys == old(redelegations).Keys
      ensures forall k :: k in redelegations ==>
                redelegations[k]
                == old(redelegations)[k].(entries := ZeroEntries(old(redelegations)[k].entries))
      ensures forall k :: k in redelegations ==>
                && |redelegations[k].entries| == |old(redelegations)[k].entries|
                && (forall i :: 0 <= i < |redelegations[k].entries| ==>
                      && redelegations[k].entries[i].creationHeight == 0
                      && redelegations[k].entries[i].other == old(redelegations)[k].entries[i].other)
                && redelegations[k].delegator == old(redelegations)[k].delegator
                && redelegations[k].source == old(redelegations)[k].source
                && redelegations[k].destination == old(redelegations)[k].destination
    {
      hide ZeroEntries;
      var rest := redelegations.Keys;
      while rest != {}
        invariant rest <= redelegations.Keys == old(redelegations).Keys && Valid()
        invariant forall k :: k in rest ==> redelegations[k] == old(redelegations)[k]
        invariant forall k :: k in redelegations.Keys - rest ==>
                    redelegations[k]
                    == old(redelegations)[k].(entries := ZeroEntries(old(redelegations)[k].entries))
        decreases |rest|
      {
        var k :| k in rest;
        rest := rest - {k};
        var red := redelegations[k];
        var entries := ZeroHeights(red.entries);
        red := red.(entries := entries);
        redelegations := redelegations[RedelegationKey(red) := red];
      }
    }

    method ResetUnbondings()
      requires Valid()
      modifies this`unbondings
      ensures Valid() && unbondings.Keys == old(unbondings).Keys
      ensures forall k :: k in unbondings ==>
                unbondings[k]
                == old(unbondings)[k].(entries := ZeroEntries(old(unbondings)[k].entries))
      ensures forall k :: k in unbondings ==>
                && |unbondings[k].entries| == |old(unbondings)[k].entries|
                && (forall i :: 0 <= i < |unbondings[k].entries| ==>
                      && unbondings[k].entries[i].creationHeight == 0
                      && unbondings[k].entries[i].other == old(unbondings)[k].entries[i].other)
                && unbondings[k].delegator == old(unbondings)[k].delegator
                && unbondings[k].validator == old(unbondings)[k].validator
    {
      hide ZeroEntries;
      var rest := unbondings.Keys;
      while rest != {}
        invariant rest <= unbondings.Keys == old(unbondings).Keys && Valid()
        invariant forall k :: k in rest ==> unbondings[k] == old(unbondings)[k]
        invariant forall k :: k in unbondings.Keys - rest ==>
                    unbondings[k]
                    == old(unbondings)[k].(entries := ZeroEntries(old(unbondings)[k].entries))
        decreases |rest|
      {
        var k :| k in rest;
        rest := rest - {k};
        var ubd := unbondings[k];
        var entries := ZeroHeights(ubd.entries);
        ubd := ubd.(entries := entries);
        unbondings := unbondings[UnbondingKey(ubd) := ubd];
      }
    }

    method ResetFields(v: Validator, name: string, ghost list: seq<string>, apply: bool,
                       allowed: set<string>)
      returns (validator: Validator)
      requires apply == (|list| > 0) && forall s :: s in allowed <==> s in list
      ensures validator == ResetValidator(v, name, list) && validator.operator == v.operator
    {
      validator := v.(unbondingHeight := 0);
      if apply && name !in allowed {
        validator := validator.(jailed := true);
      }
    }

    /** Unbonding heights to zero; with a list, everyone missing from it is jailed. */
    method ResetValidators(ghost list: seq<string>, apply: bool, allowed: set<string>)
      returns (ok: bool)
      requires Valid()
      requires apply == (|list| > 0) && forall s :: s in allowed <==> s in list
      modifies this`validators
      ensures Valid() && validators.Keys == old(validators).Keys
      ensures ok <==> forall a :: a in validators ==> codec.format(a).Some?
      ensures ok ==> ResetExcept(codec, old(validators), validators, {}, list)
      ensures ok ==> forall a :: a in validators ==>
                validators[a] == ResetValidator(old(validators)[a], codec.format(a).value, list)
      ensures ok ==> forall a :: a in validators ==>
                && validators[a].unbondingHeight == 0
                && validators[a].operator == old(validators)[a].operator
                && validators[a].other == old(validators)[a].other
                && (validators[a].jailed
                    <==> old(validators)[a].jailed || (|list| > 0 && codec.format(a).value !in list))
      ensures ok && Canonical(codec, old(validators)) ==>
                (JailedByAddress(codec, list, old(validators), validators)
                 <==> SpelledCanonically(codec, list, old(validators)))
    {
      ghost var before := validators;
      var rest := validators.Keys;
      while rest != {}
        invariant rest <= validators.Keys && Keyed(codec, validators)
        invariant ResetExcept(codec, before, validators, rest, list)
        decreases |rest|
      {
        var a :| a in rest;
        var valAddr := codec.format(a);
        if valAddr.None? {
          return false;
        }
        ResetStep(codec, before, validators, rest, list, a);
        hide Keyed, ResetExcept, ResetValidator;
        rest := rest - {a};
        var validator := ResetFields(validators[a], valAddr.value, list, apply, allowed);
        var key := codec.parse(validator.operator);
        if key.None? {
          assert false;
        }
        validators := validators[key.value := validator];
      }
      if Canonical(codec, before) {
        AllowListExact(codec, list, before, validators);
      }
      ok := true;
    }

    /** The distribution phases: the parsing loops and, between them, the sweep. */
    method ResetDistribution() returns (ok: bool)
      requires Valid()
      modifies this`outstanding, this`communityPool
      ensures ok <==> forall k :: 0 <= k < |delegations| ==>
                codec.parse(delegations[k].validator).Some? && parseAccount(delegations[k].delegator).Some?
      ensures forall d :: Amount(communityPool, d) + Total(outstanding, d)
                          == old(Amount(communityPool, d) + Total(outstanding, d))
      ensures ok ==> forall a :: a in validators ==> RewardsOf(outstanding, a) == map[]
      ensures forall a :: a !in validators ==>
                RewardsOf(outstanding, a) == RewardsOf(old(outstanding), a)
    {
      OperatorsAreKeys();
      var parsed := ParseOperators();
      if !parsed {
        assert false;
      }
      var dels := delegations;
      ok := ParseDelegations(dels);
      if !ok {
        return;
      }
      var swept := SweepRewards();
      if !swept {
        assert false;
      }
      var again := ParseDelegations(dels);
      if !again {
        assert false;
      }
    }

    /**
     The phases in their order, up to the validator set update. If it does not panic,
     every reset is exact, and nothing else about the staking records has changed.
     */
    method PrepForZeroHeightGenesis(jailAllowedAddrs: seq<string>) returns (ok: bool)
      requires Valid()
      modifies this
      ensures Valid() && delegations == old(delegations)
      ensures ok <==> (forall k :: 0 <= k < |jailAllowedAddrs| ==> codec.parse(jailAllowedAddrs[k]).Some?)
                      && (forall k :: 0 <= k < |delegations| ==>
                            && codec.parse(delegations[k].validator).Some?
                            && parseAccount(delegations[k].delegator).Some?)
                      && (forall a :: a in old(validators) ==> codec.format(a).Some?)
      ensures forall d :: Amount(communityPool, d) + Total(outstanding, d)
                          == old(Amount(communityPool, d) + Total(outstanding, d))
      ensures ok ==> forall a :: a in validators ==> RewardsOf(outstanding, a) == map[]
      ensures forall a :: a !in validators ==>
                RewardsOf(outstanding, a) == RewardsOf(old(outstanding), a)
      ensures validators.Keys == old(validators).Keys
      ensures redelegations.Keys == old(redelegations).Keys && unbondings.Keys == old(unbondings).Keys
      ensures ok ==> forall a :: a in validators ==>
                validators[a]
                == ResetValidator(old(validators)[a], codec.format(a).value, jailAllowedAddrs)
      ensures ok && Canonical(codec, old(validators)) ==>
                (JailedByAddress(codec, jailAllowedAddrs, old(validators), validators)
                 <==> SpelledCanonically(codec, jailAllowedAddrs, old(validators)))
      ensures ok ==> forall k :: k in redelegations ==>
                redelegations[k]
                == old(redelegations)[k].(entries := ZeroEntries(old(redelegations)[k].entries))
      ensures ok ==> forall k :: k in unbondings ==>
                unbondings[k]
                == old(unbondings)[k].(entries := ZeroEntries(old(unbondings)[k].entries))
      ensures ok ==> forall k :: k in redelegations ==>
                && |redelegations[k].entries| == |old(redelegations)[k].entries|
                && (forall i :: 0 <= i < |redelegations[k].entries| ==>
                      && redelegations[k].entries[i].creationHeight == 0
                      && redelegations[k].entries[i].other == old(redelegations)[k].entries[i].other)
                && redelegations[k].delegator == old(redelegations)[k].delegator
                && redelegations[k].source == old(redelegations)[k].source
                && redelegations[k].destination == old(redelegations)[k].destination
      ensures ok ==> forall k :: k in unbondings ==>
                && |unbondings[k].entries| == |old(unbondings)[k].entries|
                && (forall i :: 0 <= i < |unbondings[k].entries| ==>
                      && unbondings[k].entries[i].creationHeight == 0
                      && unbondings[k].entries[i].other == old(unbondings)[k].entries[i].other)
                && unbondings[k].delegator == old(unbondings)[k].delegator
                && unbondings[k].validator == old(unbondings)[k].validator
      ensures ok ==> forall a :: a in validators ==>
                && validators[a].unbondingHeight == 0
                && validators[a].operator == old(validators)[a].operator
                && validators[a].other == old(validators)[a].other
                && (validators[a].jailed
                    <==> old(validators)[a].jailed || (|jailAllowedAddrs| > 0 && codec.format(a).value !in jailAllowedAddrs))
    {
      hide Canonical, JailedByAddress, SpelledCanonically, ResetExcept, ResetValidator;
      hide ZeroEntries, AddCoins;
      var applyAllowedAddrs := false;
      if |jailAllowedAddrs| > 0 {
        applyAllowedAddrs := true;
      }
      var allowed := ParseAllowList(jailAllowedAddrs);
      if allowed.None? {
        return false;
      }
      var distributed := ResetDistribution();
      if !distributed {
        return false;
      }
      ResetRedelegations();
      ResetUnbondings();
      ok := ResetValidators(jailAllowedAddrs, applyAllowedAddrs, allowed.value);
    }

    lemma OperatorsAreKeys()
      requires Valid()
      ensures Operators() == validators.Keys
    {
      forall a | a in validators.Keys
        ensures a in Operators()
      {
        assert codec.parse(validators[a].operator) == Some(a);
      }
    }
  }
}
