// A concrete plain spend that is lost: its partial signatures verify and add up to a signature that is
// valid under the child key, and finalize refuses it because of a taproot tweak it does not use.
module PlainExample {
  import opened Wrappers
  import opened Bytes
  import opened Zn
  import opened Curve
  import opened KeyAgg
  import opened Signing
  import opened PartialSigs
  import opened Correctness
  import opened Bip47
  import opened Vault
  import opened Identity
  import opened Spend
  import opened ToyGroup
  import opened OrderExample
  import opened ScannedVault
  import opened AnySigners
  import opened PlainMode

  lemma ToyResidues(c: Crypto)
    requires c == Toy()
    ensures c.n == 3 && InGroup(c, 1) && InGroup(c, 2) && c.even(1)
    ensures Mod(3, 1) == 1 && Mod(3, 2) == 2 && Mod(3, 4) == 1 && Mod(3, 5) == 2
  {
  }

  lemma ToyTags(c: Crypto, d: bytes)
    requires c == Toy()
    ensures c.n == 3 && c.tagged("TapTweak", d) == Zeros(31) + [3]
    ensures c.tagged("BIP0340/challenge", d) == Zeros(31) + [1] && c.tagged("MuSig/noncecoef", d) == Zeros(31) + [2]
  {
    hide Zeros, Lawful;
  }

  lemma ToyScalar(c: Crypto, x: byte)
    requires c.n == 3 && x < 3
    ensures ScalarOf(c, Zeros(31) + [x]) == x
  {
    hide Zeros, BE;
    ZerosInFront(31, x);
  }

  lemma ToyHashes(c: Crypto, d: bytes)
    requires c == Toy()
    ensures c.n == 3 && BE(c.tagged("TapTweak", d)) == 3
    ensures ScalarOf(c, c.tagged("BIP0340/challenge", d)) == 1 && ScalarOf(c, c.tagged("MuSig/noncecoef", d)) == 2
  {
    hide *;
    ToyTags(c, d);
    ZerosInFront(31, 3);
    ToyScalar(c, 1);
    ToyScalar(c, 2);
  }

  // ---- Nonces ----

  lemma OwnSums(c: Crypto)
    requires c == Toy()
    ensures PtAdd(c, Some(1), Some(1)) == Ok(Some(2)) && PtAdd(c, Some(2), Some(2)) == Ok(Some(1))
  {
    ToyResidues(c);
    hide Mod, Ser;
  }

  /** Two nonces 1, 2 add up to the nonce 2, 1. */
  lemma TwoNonces(c: Crypto)
    requires c == Toy() && InGroup(c, 1) && InGroup(c, 2)
    ensures NonceAgg(c, [PublicNonce(c, 1, 2), PublicNonce(c, 1, 2)]) == Ok(PublicNonce(c, 2, 1))
  {
    var pn := PublicNonce(c, 1, 2);
    assert PublicNonce(c, 2, 1) == SerExt(c, Some(2)) + SerExt(c, Some(1));
    assert PtAdd(c, None, Some(1)) == Ok(Some(1)) && PtAdd(c, None, Some(2)) == Ok(Some(2));
    assert [pn, pn][1..] == [pn] && [pn][1..] == [];
    OwnSums(c);
    hide *;
    PublicNonceHalves(c, 1, 2);
    NonceAggIs(c, [pn, pn]);
    NonceSumNext(c, [pn, pn], None, None);
    NonceSumNext(c, [pn], Some(1), Some(2));
    NonceSumEnds(c, Some(2), Some(1));
  }

  /** The nonce point of a signer, and of the session. */
  lemma ToyNoncePoints(c: Crypto)
    requires c == Toy() && InGroup(c, 1) && InGroup(c, 2)
    ensures NoncePoint(c, PublicNonce(c, 1, 2), 2) == Ok(Some(2))
    ensures NoncePoint(c, PublicNonce(c, 2, 1), 2) == Ok(Some(1))
  {
    ToyResidues(c);
    hide Toy, NoncePoint, PublicNonce, Mod;
    NoncePointOfSecrets(c, 1, 2, 2);
    NoncePointOfSecrets(c, 2, 1, 2);
    assert EffectiveNonce(c, 1, 2, 2) == 2 && EffectiveNonce(c, 2, 1, 2) == 1;
  }

  // ---- The session ----

  function Values(): SessionValues {
    SessionValues(1, 1, 0, 2, 1, 1)
  }

  lemma NoTweak(c: Crypto)
    requires c == Toy() && InGroup(c, 1)
    ensures ApplyTweaks(c, 1, [Tweak(0, false)]) == Ok(TweakAcc(1, 1, 0))
  {
    ToyResidues(c);
    OneTweak(c, TweakAcc(1, 1, 0), Tweak(0, false));
    hide Toy, Ser;
  }

  lemma ToySession(c: Crypto, s: SessionContext)
    requires c == Toy() && InGroup(c, 1) && InGroup(c, 2)
    requires s.aggnonce == PublicNonce(c, 2, 1) && s.tweaks == [Tweak(0, false)]
    requires Aggregate(c, s.pks).Ok? && Aggregate(c, s.pks).value.aggPubkey == 1
    ensures GetSessionValues(c, s) == Ok(Values()) && SessionNonce(c, s) == Ok(Some(1))
  {
    NoTweak(c);
    ToyNoncePoints(c);
    ToyHashes(c, s.aggnonce + c.xb(1) + s.msg);
    ToyHashes(c, c.xb(1) + c.xb(1) + s.msg);
    hide Toy, Aggregate, ApplyTweaks, PublicNonce, NoncePoint, ScalarOf;
    assert NonceCoeff(c, s, 1) == 2 && Challenge(c, c.xb(1), c.xb(1), s.msg) == 1;
  }

  /** The partial signature 1 satisfies the equation for a key whose weighted value is 2. */
  lemma ToyEquation(c: Crypto, p: int, a: nat)
    requires c == Toy() && 0 < p < 3 && a < 3 && p * a == 2
    ensures GoodValues(c, Values()) && InGroup(c, 2) && CheckEquation(c, Values(), 1, 2, p, a).Ok?
  {
    ToyResidues(c);
    hide Toy, Mod, CheckEquation;
    assert ParitySign(c, 1) == 1 && KeySign(c, Values()) == 1;
    CheckMeansEquation(c, Values(), 1, 2, p, a);
  }

  lemma ToyShareVerifies(c: Crypto, s: SessionContext, pk: bytes, p: int, a: nat)
    requires c == Toy() && InGroup(c, 1) && InGroup(c, 2) && GetSessionValues(c, s) == Ok(Values())
    requires c.lift(pk) == Some(p) && KeyAggCoeff(c, s.pks, pk) == Ok(a) && 0 < p < 3 && a < 3 && p * a == 2
    ensures ShareVerifies(c, Share(1, PublicNonce(c, 1, 2), pk), s)
  {
    ToyNoncePoints(c);
    ToyEquation(c, p, a);
    hide Toy, GetSessionValues, KeyAggCoeff, NoncePoint, PublicNonce, CheckEquation;
  }

  lemma ToyCoefficientsFound(c: Crypto, pks: seq<bytes>, pk: bytes, pk': bytes)
    requires c == Toy() && pk != pk' && pks == [pk, pk'] && Aggregate(c, pks).Ok?
    ensures KeyAggCoeff(c, pks, pk) == Ok(2) && KeyAggCoeff(c, pks, pk') == Ok(1)
  {
    assert pk in pks && pk' in pks;
    hide *;
    ToyCoefficients(c, pk, pk');
  }

  lemma ToySharesVerify(c: Crypto, s: SessionContext, pk: bytes, pk': bytes)
    requires c == Toy() && InGroup(c, 1) && InGroup(c, 2) && GetSessionValues(c, s) == Ok(Values())
    requires pk == Ser(c, 1) && pk' == Ser(c, 2) && pk != pk' && s.pks == [pk, pk'] && Aggregate(c, s.pks).Ok?
    ensures AllVerify(c, [Share(1, PublicNonce(c, 1, 2), pk), Share(1, PublicNonce(c, 1, 2), pk')], s)
  {
    assert c.lift(pk) == Some(1) && c.lift(pk') == Some(2);
    hide Toy, Ser, GetSessionValues, KeyAggCoeff, Coeff, Aggregate, PublicNonce, ShareVerifies, InGroup;
    ToyCoefficientsFound(c, s.pks, pk, pk');
    ToyShareVerifies(c, s, pk, 1, 2);
    ToyShareVerifies(c, s, pk', 2, 1);
  }

  // ---- The vault ----

  lemma ToyChild(c: Crypto, pc: PaymentCode, index: nat)
    requires c == Toy()
    ensures ChildIl(c, pc, index) == Some(0)
  {
    var h := c.hmac512(pc.chaincode, pc.pubkey + ToBE(index, 4));
    assert h[..32] == Zeros(31) + [0];
    ZerosInFront(31, 0);
  }

  /** Three scans that build a vault with the sorted keys 1 and 2. */
  lemma ToyVault(c: Crypto, pk: b33, pk': b33) returns (raws: seq<string>)
    requires c == Toy() && pk == Ser(c, 1) && pk' == Ser(c, 2)
    requires IsCompressed(pk) && IsCompressed(pk') && pk[0] < pk'[0]
    ensures Build(c, raws).Ok? && SortedPks(c, Build(c, raws).value) == Ok([pk, pk'])
  {
    var cc: b32, cc': b32 := Zeros(32), [1] + Zeros(31);
    assert cc[0] == 0 && cc'[0] == 1;
    hide *;
    OrderMattersFor(c, pk, pk', cc, cc');
    ToyCollects(c, pk, pk', cc, cc', cc);
    ToySorts(c, pk, pk', cc, cc);
    raws := [Printed(c, pk, cc), Printed(c, pk, cc'), Printed(c, pk', cc)];
    BuiltSorts(c, raws);
    SortedKeys([Pair(pk, cc), Pair(pk', cc)]);
  }

  // ---- The spend ----

  function SpendOf(c: Crypto, pk: b33, pk': b33, s: SessionContext): State
    requires InGroup(c, 1) && InGroup(c, 2)
  {
    var pn := PublicNonce(c, 1, 2);
    State(Zeros(32), 0, pk, Some(SecNonce(1, 2, pk)), Some(pn), [NonceEntry(pk', pn)], Some(s), Some(1),
          [PsigEntry(pk', 1)], false)
  }

  lemma SpendHolds(c: Crypto, pk: b33, pk': b33, s: SessionContext)
    requires InGroup(c, 1) && InGroup(c, 2)
    ensures var k, pn := SpendOf(c, pk, pk', s), PublicNonce(c, 1, 2);
      && Invariant(c, k) && AllNonces(k) == [pn, pn]
      && Shares(k) == [Share(1, pn, pk), Share(1, pn, pk')] && Pks(Shares(k)) == [pk, pk']
  {
    hide PublicNonce;
    var k := SpendOf(c, pk, pk', s);
    assert k.nonces[..0] == [];
    assert Matched([], k.psigs) == [];
  }

  lemma ToyTweaks(c: Crypto, v: VaultConfig, index: nat)
    requires c == Toy() && VaultCode(c, v).Ok?
    ensures SessionTweaks(c, v, index, false) == Ok([Tweak(0, false)])
  {
    hide VaultCode, ChildIl, Taproot, Toy;
    ToyChild(c, VaultCode(c, v).value, index);
  }

  lemma SpendIsCurrent(c: Crypto, v: VaultConfig, pk: b33, pk': b33, s: SessionContext)
    requires InGroup(c, 1) && InGroup(c, 2) && SortedPks(c, v) == Ok([pk, pk'])
    requires SessionTweaks(c, v, 0, false) == Ok([Tweak(0, false)])
    requires s == SessionContext(PublicNonce(c, 2, 1), [pk, pk'], [Tweak(0, false)], Zeros(32))
    requires NonceAgg(c, [PublicNonce(c, 1, 2), PublicNonce(c, 1, 2)]) == Ok(PublicNonce(c, 2, 1))
    ensures Invariant(c, SpendOf(c, pk, pk', s)) && Assembled(c, SpendOf(c, pk, pk', s), v)
  {
    hide SortedPks, SessionTweaks, NonceAgg, PublicNonce, AllNonces, Shares, Pks, Invariant;
    SpendHolds(c, pk, pk', s);
  }

  lemma SpendAssembled(c: Crypto, v: VaultConfig, pk: b33, pk': b33) returns (k: State)
    requires c == Toy() && InGroup(c, 1) && InGroup(c, 2) && pk == Ser(c, 1) && pk' == Ser(c, 2) && pk[0] < pk'[0]
    requires VaultCode(c, v).Ok? && SortedPks(c, v) == Ok([pk, pk'])
    ensures Invariant(c, k) && Assembled(c, k, v) && !k.taproot && |k.msg| == 32 && |Shares(k)| == 2
    ensures k.session.Some? && AllVerify(c, Shares(k), k.session.value)
    ensures SessionNonce(c, k.session.value) == Ok(Some(1))
  {
    var s := SessionContext(PublicNonce(c, 2, 1), [pk, pk'], [Tweak(0, false)], Zeros(32));
    k := SpendOf(c, pk, pk', s);
    assert k.session == Some(s) && !k.taproot && |k.msg| == 32;
    hide *;
    ToyAggregates(c, pk, pk');
    ToyTweaks(c, v, 0);
    TwoNonces(c);
    SpendHolds(c, pk, pk', s);
    SpendIsCurrent(c, v, pk, pk', s);
    ToySession(c, s);
    ToySharesVerify(c, s, pk, pk');
  }

  lemma TweakInvalid(c: Crypto, child: int)
    requires c == Toy() && InGroup(c, child)
    ensures TapTweak(c, c.xb(child)) >= c.n
  {
    ToyHashes(c, c.xb(child));
  }

  /** The spend, what it has for a signature, and that finalize fails for every signature there is. */
  lemma PlainSignatureLost() returns (c: Crypto, raws: seq<string>, k: State)
    ensures Build(c, raws).Ok?
    ensures Invariant(c, k) && Assembled(c, k, Build(c, raws).value) && AllVerify(c, Shares(k), k.session.value)
    ensures !k.taproot && |k.msg| == 32 && |Shares(k)| == 2
    ensures var v := Build(c, raws).value;
      && VaultCode(c, v).Ok? && ChildPubkey(c, VaultCode(c, v).value, k.index).Some?
      && PartialSigAgg(c, Psigs(Shares(k)), k.session.value).Ok?
      && SchnorrVerify(c, PartialSigAgg(c, Psigs(Shares(k)), k.session.value).value,
                       c.xb(ChildPubkey(c, VaultCode(c, v).value, k.index).value), k.msg)
      && Finalize(c, k, v) == Err(MalformedQr)
      && forall sig :: CheckFinal(c, k, v, sig) == Err(MalformedQr)
  {
    c := Toy();
    ToyResidues(c);
    ToyKeys(c);
    var pk: b33, pk': b33 := [2] + Zeros(32), [3] + Zeros(32);
    assert pk[0] == 2 && pk'[0] == 3 && IsCompressed(pk) && IsCompressed(pk');
    hide *;
    raws := ToyVault(c, pk, pk');
    var v := Build(c, raws).value;
    VaultCodeHoldsVaultKey(c, raws);
    k := SpendAssembled(c, v, pk, pk');
    LostFor(c, raws, k);
  }

  lemma LostFor(c: Crypto, raws: seq<string>, k: State)
    requires c == Toy() && Build(c, raws).Ok? && Assembled(c, k, Build(c, raws).value) && !k.taproot
    requires AllVerify(c, Shares(k), k.session.value) && |k.msg| == 32 && |Shares(k)| == 2
    requires SessionNonce(c, k.session.value) == Ok(Some(1))
    ensures var v := Build(c, raws).value;
      && VaultCode(c, v).Ok? && ChildPubkey(c, VaultCode(c, v).value, k.index).Some?
      && PartialSigAgg(c, Psigs(Shares(k)), k.session.value).Ok?
      && SchnorrVerify(c, PartialSigAgg(c, Psigs(Shares(k)), k.session.value).value,
                       c.xb(ChildPubkey(c, VaultCode(c, v).value, k.index).value), k.msg)
      && Finalize(c, k, v) == Err(MalformedQr)
      && forall sig :: CheckFinal(c, k, v, sig) == Err(MalformedQr)
  {
    var v := Build(c, raws).value;
    assert SessionIsCurrent(c, k, v);
    hide Toy, Build, Assembled, AllVerify, Shares, SessionNonce, GetSessionValues, PartialSigAgg, SchnorrVerify, Finalize,
      CheckFinal, VaultCode, ChildPubkey, Taproot, TapTweak, TapTweakValid, SessionIsCurrent;
    PlainFinalizeExactly(c, raws, k);
    AssembledAggregates(c, k, v);
    PlainKeyIsChildKey(c, raws, k);
    TaprootOfPlain(c, raws, k);
    TweakInvalid(c, ChildPubkey(c, VaultCode(c, v).value, k.index).value);
    forall sig
      ensures CheckFinal(c, k, v, sig) == Err(MalformedQr)
    {
      CheckFinalFails(c, k, v, sig);
    }
  }
}
