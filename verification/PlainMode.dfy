// Outside taproot mode the signature is made for the child key, which needs no taproot tweak; finalize
// asks for the taproot context all the same.
module PlainMode {
  import opened Wrappers
  import opened Curve
  import opened Signing
  import opened PartialSigs
  import opened Correctness
  import opened Bip47
  import opened Vault
  import opened Spend
  import opened EndToEnd
  import opened AnySigners

  /** The taproot tweak of a child key is a valid scalar and does not lead to infinity. */
  predicate TapTweakValid(c: Crypto, child: int)
    requires InGroup(c, child)
  {
    TapTweak(c, c.xb(child)) < c.n && AddExpTweak(c, EvenPoint(c, child), TapTweak(c, c.xb(child))).Some?
  }

  lemma TaprootFromExactly(c: Crypto, q0: int, il: nat)
    requires InGroup(c, q0) && AddExpTweak(c, q0, il).Some?
    ensures var child := AddExpTweak(c, q0, il).value;
      && (TaprootFrom(c, q0, il).Ok? <==> TapTweakValid(c, child))
      && (TaprootFrom(c, q0, il).Err? ==>
            TaprootFrom(c, q0, il) == Err(if TapTweak(c, c.xb(child)) >= c.n then MalformedQr else TaprootTweakFailed))
  {
    hide AddExpTweak, TapTweak, EvenPoint;
  }

  /** A built vault in terms of its aggregate key: its child key, and the context it starts from. */
  lemma ChildOfVault(c: Crypto, raws: seq<string>, index: nat)
    requires Build(c, raws).Ok?
    ensures var v := Build(c, raws).value;
      && VaultKey(c, v).Ok? && VaultCode(c, v).Ok?
      && var q0, pc := VaultKey(c, v).value.aggPubkey, VaultCode(c, v).value;
      && (ChildIl(c, pc, index).None? ==> ChildPubkey(c, pc, index).None?)
      && (ChildIl(c, pc, index).Some? ==>
            && ChildPubkey(c, pc, index) == AddExpTweak(c, q0, ChildIl(c, pc, index).value)
            && Taproot(c, v, index) == TaprootFrom(c, q0, ChildIl(c, pc, index).value))
  {
    hide Build, TaprootFrom, VaultKey, VaultCode, ChildIl, AddExpTweak, Ser;
    VaultCodeHoldsVaultKey(c, raws);
    var q0 := VaultKey(c, Build(c, raws).value).value.aggPubkey;
    assert c.lift(Ser(c, q0)) == Some(q0);
  }

  lemma PlainTweaks(c: Crypto, v: VaultConfig, index: nat, tweaks: seq<Tweak>)
    requires SessionTweaks(c, v, index, false) == Ok(tweaks)
    ensures VaultCode(c, v).Ok? && ChildIl(c, VaultCode(c, v).value, index).Some?
    ensures tweaks == [Tweak(ChildIl(c, VaultCode(c, v).value, index).value, false)]
  {
    hide VaultCode, ChildIl;
  }

  /** Outside taproot mode the session key is the child key. */
  lemma PlainKeyIsChildKey(c: Crypto, raws: seq<string>, k: State)
    requires Build(c, raws).Ok? && SessionIsCurrent(c, k, Build(c, raws).value) && !k.taproot
    requires GetSessionValues(c, k.session.value).Ok?
    ensures var v := Build(c, raws).value;
      && VaultCode(c, v).Ok?
      && ChildPubkey(c, VaultCode(c, v).value, k.index) == Some(GetSessionValues(c, k.session.value).value.q)
      && VaultKey(c, v).Ok? && ChildIl(c, VaultCode(c, v).value, k.index).Some?
      && Taproot(c, v, k.index) ==
         TaprootFrom(c, VaultKey(c, v).value.aggPubkey, ChildIl(c, VaultCode(c, v).value, k.index).value)
  {
    var v, s := Build(c, raws).value, k.session.value;
    assert SortedPks(c, v) == Ok(s.pks) && SessionTweaks(c, v, k.index, false) == Ok(s.tweaks);
    hide *;
    ChildOfVault(c, raws, k.index);
    PlainTweaks(c, v, k.index, s.tweaks);
    SessionPoint(c, s);
    SessionAggregates(c, v, s.pks);
    InternalKeyAgrees(c, VaultKey(c, v).value.aggPubkey, ChildIl(c, VaultCode(c, v).value, k.index).value);
  }

  /** So the taproot context exists exactly when the tweak of that key is valid. */
  lemma TaprootOfPlain(c: Crypto, raws: seq<string>, k: State)
    requires Build(c, raws).Ok? && SessionIsCurrent(c, k, Build(c, raws).value) && !k.taproot
    requires GetSessionValues(c, k.session.value).Ok?
    ensures var v, child := Build(c, raws).value, GetSessionValues(c, k.session.value).value.q;
      && InGroup(c, child)
      && (Taproot(c, v, k.index).Ok? <==> TapTweakValid(c, child))
      && (Taproot(c, v, k.index).Err? ==>
            Taproot(c, v, k.index).error == if TapTweak(c, c.xb(child)) >= c.n then MalformedQr else TaprootTweakFailed)
  {
    hide *;
    PlainKeyIsChildKey(c, raws, k);
    var v := Build(c, raws).value;
    ChildOfVault(c, raws, k.index);
    TaprootFromExactly(c, VaultKey(c, v).value.aggPubkey, ChildIl(c, VaultCode(c, v).value, k.index).value);
  }

  /**
   * A plain spend whose shares all verify, with a finite combined nonce and a message of 32 bytes, has a
   * signature that verifies under the child key. Finalize returns it exactly when the taproot tweak of
   * that child key is valid; otherwise it fails with the error of the tweak.
   */
  lemma PlainFinalizeExactly(c: Crypto, raws: seq<string>, k: State)
    requires Build(c, raws).Ok? && Assembled(c, k, Build(c, raws).value) && !k.taproot
    requires |Shares(k)| >= 2 && AllVerify(c, Shares(k), k.session.value) && |k.msg| == 32
    requires SessionNonce(c, k.session.value).Ok? && SessionNonce(c, k.session.value).value.Some?
    ensures var v := Build(c, raws).value;
      && VaultCode(c, v).Ok? && ChildPubkey(c, VaultCode(c, v).value, k.index).Some?
      && var child := ChildPubkey(c, VaultCode(c, v).value, k.index).value;
      && PartialSigAgg(c, Psigs(Shares(k)), k.session.value).Ok?
      && SchnorrVerify(c, PartialSigAgg(c, Psigs(Shares(k)), k.session.value).value, c.xb(child), k.msg)
      && (Finalize(c, k, v).Ok? <==> TapTweakValid(c, child))
      && (Finalize(c, k, v).Err? ==>
            Finalize(c, k, v) == Err(if TapTweak(c, c.xb(child)) >= c.n then MalformedQr else TaprootTweakFailed))
  {
    var v := Build(c, raws).value;
    assert SessionIsCurrent(c, k, v);
    hide *;
    AssembledAggregates(c, k, v);
    PlainKeyIsChildKey(c, raws, k);
    TaprootOfPlain(c, raws, k);
    FinalizeAnswers(c, k, v);
  }
}
