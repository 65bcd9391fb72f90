// The end of a ceremony with signers of any kind: what finalize answers when nothing is assumed of
// who made the nonces and the partial signatures the coordinator collected.
module AnySigners {
  import opened Wrappers
  import opened Curve
  import opened Signing
  import opened PartialSigs
  import opened Correctness
  import opened Vault
  import opened Spend
  import opened ScanOrder
  import opened Ceremony
  import opened EndToEnd

  /** The coordinator's session is current and made from all the nonces it holds; each of them has its
      partial signature, and together they carry the keys of the session. */
  ghost predicate Assembled(c: Crypto, k: State, v: VaultConfig) {
    && SessionIsCurrent(c, k, v)
    && NonceAgg(c, AllNonces(k)) == Ok(k.session.value.aggnonce)
    && |Shares(k)| == |AllNonces(k)|
    && multiset(Pks(Shares(k))) == multiset(k.session.value.pks)
  }

  ghost predicate AllVerify(c: Crypto, shares: seq<Share>, s: SessionContext) {
    forall sh :: sh in shares ==> ShareVerifies(c, sh, s)
  }

  lemma {:induction false} MatchedCount(nonces: seq<NonceEntry>, psigs: seq<PsigEntry>)
    ensures |Matched(nonces, psigs)| <= |nonces|
    ensures |Matched(nonces, psigs)| == |nonces| ==> Pubnonces(Matched(nonces, psigs)) == EntryNonces(nonces)
  {
    hide FindPsig;
    if nonces != [] {
      var n := |nonces| - 1;
      MatchedCount(nonces[..n], psigs);
      assert EntryNonces(nonces) == EntryNonces(nonces[..n]) + [nonces[n].pn];
      if |Matched(nonces, psigs)| == |nonces| {
        assert FindPsig(psigs, nonces[n].pk).Some?;
      }
    }
  }

  /** With a partial signature for every nonce, the shares hold all the nonces in order. */
  lemma SharesHoldAllNonces(k: State)
    requires |Shares(k)| == |AllNonces(k)|
    ensures Pubnonces(Shares(k)) == AllNonces(k)
  {
    MatchedCount(k.nonces, k.psigs);
    hide Matched, EntryNonces;
    assert |EntryNonces(k.nonces)| == |k.nonces|;
  }

  /** Verified shares aggregate, and the result is valid under the session's key exactly when the
      combined nonce is not infinity. */
  lemma AssembledAggregates(c: Crypto, k: State, v: VaultConfig)
    requires Assembled(c, k, v) && AllVerify(c, Shares(k), k.session.value)
    ensures var s := k.session.value;
      && GetSessionValues(c, s).Ok? && SessionNonce(c, s).Ok? && PartialSigAgg(c, Psigs(Shares(k)), s).Ok?
      && (SchnorrVerify(c, PartialSigAgg(c, Psigs(Shares(k)), s).value, c.xb(GetSessionValues(c, s).value.q), k.msg)
          <==> SessionNonce(c, s).value.Some?)
  {
    hide Shares, AllNonces, NonceAgg, SortedPks, SessionTweaks, GetSessionValues, SessionNonce, PartialSigAgg, ShareVerifies,
      SchnorrVerify, Pks, Psigs, Pubnonces;
    SharesHoldAllNonces(k);
    VerifiedPartialsAggregate(c, k.session.value, Shares(k));
  }

  /** The first share that fails its check. */
  lemma {:induction false} FirstBadShare(c: Crypto, shares: seq<Share>, s: SessionContext) returns (j: nat)
    requires VerifyAll(c, shares, s).Err?
    ensures j < |shares| && forall i :: 0 <= i < j ==> ShareVerifies(c, shares[i], s)
    ensures PartialSigVerify(c, shares[j].psig, shares[j].pubnonce, shares[j].pk, s) == Err(VerifyAll(c, shares, s).error)
  {
    hide PartialSigVerify;
    if PartialSigVerify(c, shares[0].psig, shares[0].pubnonce, shares[0].pk, s).Err? {
      j := 0;
    } else {
      var i := FirstBadShare(c, shares[1..], s);
      j := i + 1;
    }
  }

  lemma CheckFinalFails(c: Crypto, k: State, v: VaultConfig, sig: Signature)
    ensures Taproot(c, v, k.index).Err? ==> CheckFinal(c, k, v, sig) == Err(Taproot(c, v, k.index).error)
    ensures Taproot(c, v, k.index).Ok? && |k.msg| != 32 ==> CheckFinal(c, k, v, sig) == Err(MalformedQr)
    ensures Taproot(c, v, k.index).Ok? && |k.msg| == 32
            && LiftX(c, VerifyKey(Taproot(c, v, k.index).value, k.taproot)).Some?
            && !SchnorrVerify(c, sig, VerifyKey(Taproot(c, v, k.index).value, k.taproot), k.msg) ==>
              CheckFinal(c, k, v, sig) == Err(SignatureVerificationFailed)
  {
    hide Taproot, SchnorrVerify, VerifyKey, LiftX;
  }

  /** The vault's own checks of the aggregated signature of verified shares. */
  lemma CheckOfVerified(c: Crypto, k: State, v: VaultConfig)
    requires Assembled(c, k, v) && AllVerify(c, Shares(k), k.session.value)
    ensures SessionNonce(c, k.session.value).Ok? && PartialSigAgg(c, Psigs(Shares(k)), k.session.value).Ok?
    ensures CheckFinal(c, k, v, PartialSigAgg(c, Psigs(Shares(k)), k.session.value).value) ==
            if Taproot(c, v, k.index).Err? then Err(Taproot(c, v, k.index).error)
            else if |k.msg| != 32 then Err(MalformedQr)
            else if SessionNonce(c, k.session.value).value.None? then Err(SignatureVerificationFailed)
            else Ok(PartialSigAgg(c, Psigs(Shares(k)), k.session.value).value)
    ensures Taproot(c, v, k.index).Ok? && SessionNonce(c, k.session.value).value.Some? ==>
              SchnorrVerify(c, PartialSigAgg(c, Psigs(Shares(k)), k.session.value).value,
                            VerifyKey(Taproot(c, v, k.index).value, k.taproot), k.msg)
  {
    AssembledAggregates(c, k, v);
    hide *;
    var s := k.session.value;
    var sig := PartialSigAgg(c, Psigs(Shares(k)), s).value;
    CurrentParts(c, k, v);
    CheckFinalFails(c, k, v, sig);
    FinalCheck(c, v, k, sig);
    CheckReturns(c, k, v, sig);
    SessionPoint(c, s);
    LiftXOfPoint(c, GetSessionValues(c, s).value.q);
  }

  lemma CurrentParts(c: Crypto, k: State, v: VaultConfig)
    requires Assembled(c, k, v)
    ensures k.session.Some? && SortedPks(c, v) == Ok(k.session.value.pks)
    ensures SessionTweaks(c, v, k.index, k.taproot) == Ok(k.session.value.tweaks)
  {
    hide SortedPks, SessionTweaks, NonceAgg, AllNonces, Shares, Pks;
  }

  lemma FinalizeIs(c: Crypto, k: State, v: VaultConfig)
    requires k.session.Some?
    ensures |Shares(k)| < 2 ==> Finalize(c, k, v) == Err(NeedMoreSigners)
    ensures |Shares(k)| >= 2 && VerifyAll(c, Shares(k), k.session.value).Err? ==>
              Finalize(c, k, v) == Err(Musig(VerifyAll(c, Shares(k), k.session.value).error))
    ensures |Shares(k)| >= 2 && VerifyAll(c, Shares(k), k.session.value).Ok?
            && PartialSigAgg(c, Psigs(Shares(k)), k.session.value).Ok? ==>
              Finalize(c, k, v) == CheckFinal(c, k, v, PartialSigAgg(c, Psigs(Shares(k)), k.session.value).value)
  {
    hide Shares, VerifyAll, PartialSigAgg, Psigs, CheckFinal;
  }

  /** One of the shares fails its check with e, and none before it. */
  ghost predicate BlamesShare(c: Crypto, shares: seq<Share>, s: SessionContext, e: MusigError) {
    exists j :: 0 <= j < |shares| && FirstToFail(c, shares, s, j, e)
  }

  ghost predicate FirstToFail(c: Crypto, shares: seq<Share>, s: SessionContext, j: nat, e: MusigError)
    requires j < |shares|
  {
    && (forall i :: 0 <= i < j ==> ShareVerifies(c, shares[i], s))
    && PartialSigVerify(c, shares[j].psig, shares[j].pubnonce, shares[j].pk, s) == Err(e)
  }

  lemma BadShareBlamed(c: Crypto, shares: seq<Share>, s: SessionContext)
    requires VerifyAll(c, shares, s).Err?
    ensures BlamesShare(c, shares, s, VerifyAll(c, shares, s).error)
  {
    hide VerifyAll, PartialSigVerify, ShareVerifies;
    var j := FirstBadShare(c, shares, s);
    assert FirstToFail(c, shares, s, j, VerifyAll(c, shares, s).error);
  }

  /**
   * What finalize answers, whoever made the nonces and the partial signatures. It succeeds exactly when
   * there are two shares, all of them verify, the vault has a taproot context, the message has 32 bytes
   * and the combined nonce is not infinity, with a signature that verifies; and a failure names the
   * first of the shares that does not verify, or which of these conditions is not met.
   */
  lemma FinalizeAnswers(c: Crypto, k: State, v: VaultConfig)
    requires Assembled(c, k, v)
    ensures Finalize(c, k, v).Ok? <==>
              && |Shares(k)| >= 2 && AllVerify(c, Shares(k), k.session.value)
              && Taproot(c, v, k.index).Ok? && |k.msg| == 32
              && SessionNonce(c, k.session.value).Ok? && SessionNonce(c, k.session.value).value.Some?
    ensures Finalize(c, k, v).Ok? ==>
              && Taproot(c, v, k.index).Ok?
              && SchnorrVerify(c, Finalize(c, k, v).value, VerifyKey(Taproot(c, v, k.index).value, k.taproot), k.msg)
    ensures |Shares(k)| < 2 ==> Finalize(c, k, v) == Err(NeedMoreSigners)
    ensures |Shares(k)| >= 2 && !AllVerify(c, Shares(k), k.session.value) ==>
              && Finalize(c, k, v).Err? && Finalize(c, k, v).error.Musig?
              && BlamesShare(c, Shares(k), k.session.value, Finalize(c, k, v).error.e)
    ensures |Shares(k)| >= 2 && AllVerify(c, Shares(k), k.session.value) && Finalize(c, k, v).Err? ==>
              Finalize(c, k, v).error ==
              if Taproot(c, v, k.index).Err? then Taproot(c, v, k.index).error
              else if |k.msg| != 32 then MalformedQr
              else SignatureVerificationFailed
  {
    CurrentParts(c, k, v);
    var shares, s := Shares(k), k.session.value;
    hide Assembled, Shares, VerifyAll, PartialSigAgg, Finalize, CheckFinal, Taproot, SessionNonce, SchnorrVerify, VerifyKey,
      BlamesShare, ShareVerifies, SortedPks, SessionTweaks, Psigs;
    VerifyAllMeans(c, shares, s);
    FinalizeIs(c, k, v);
    if VerifyAll(c, shares, s).Err? {
      BadShareBlamed(c, shares, s);
    } else {
      CheckOfVerified(c, k, v);
    }
  }

  /** The honest case: the coordinator of a complete ceremony is in such a state. */
  lemma CompleteIsAssembled(c: Crypto, p: Setup, net: Net)
    requires ValidSetup(c, p) && NetOk(c, p, net) && Complete(c, p, net)
    ensures Assembled(c, net.devs[p.coord], p.v)
  {
    var k := net.devs[p.coord];
    assert k.pubnonce.Some? && k.myPsig.Some?;
    assert multiset(SortedPks(c, p.v).value) == multiset(DevicePks(c, p.sks));
    hide ValidSetup, NetOk, Complete, Shares, AllNonces, Pubnonces, Pks, NonceAgg, SortedPks, SessionTweaks, SessionFor,
      FindPsig, GetSessionValues, DevicePks;
    CoordinatorSession(c, p, net);
    EveryNonceMatched(c, p, net);
    ShareKeys(c, p, net);
    SharesOfState(k);
    SessionForParts(c, p.v, k.msg, k.index, p.taproot, k.session.value.aggnonce, k.session.value);
    CountNonces(k);
  }

  lemma CountNonces(k: State)
    requires k.pubnonce.Some?
    ensures |AllNonces(k)| == |k.nonces| + 1
  {
  }
}
