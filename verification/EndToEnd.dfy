// The end of a signing ceremony: when finalize succeeds, and that its signature is valid.
module EndToEnd {
  import opened Wrappers
  import opened Bytes
  import opened Curve
  import opened KeyAgg
  import opened Sorting
  import opened Signing
  import opened PartialSigs
  import opened Correctness
  import opened NonceGen
  import opened Bip47
  import opened Vault
  import opened Spend
  import opened ScanOrder
  import opened Ceremony

  /** The coordinator has its own nonce and partial signature and those of every other device. */
  ghost predicate Complete(c: Crypto, p: Setup, net: Net)
    requires ValidSetup(c, p) && |net.devs| == |p.sks|
  {
    var k := net.devs[p.coord];
    k.pubnonce.Some? && k.myPsig.Some? && NoncesComplete(c, p, k) && PsigsComplete(c, p, k)
  }

  // ---- The shares the coordinator assembles ----

  function EntryKeys(nonces: seq<NonceEntry>): (r: seq<bytes>)
    ensures |r| == |nonces|
  {
    seq(|nonces|, i requires 0 <= i < |nonces| => nonces[i].pk)
  }

  /** When every nonce has its partial signature, matching keeps all nonces in order. */
  lemma {:induction false} MatchedAt(nonces: seq<NonceEntry>, psigs: seq<PsigEntry>)
    requires forall i :: 0 <= i < |nonces| ==> FindPsig(psigs, nonces[i].pk).Some?
    ensures |Matched(nonces, psigs)| == |nonces|
    ensures forall i :: 0 <= i < |nonces| ==>
              Matched(nonces, psigs)[i] == Share(FindPsig(psigs, nonces[i].pk).value, nonces[i].pn, nonces[i].pk)
  {
    hide FindPsig;
    if nonces != [] {
      MatchedAt(nonces[..|nonces| - 1], psigs);
    }
  }

  lemma FoundPsig(psigs: seq<PsigEntry>, pk: bytes)
    requires HasPsig(psigs, pk)
    ensures FindPsig(psigs, pk).Some?
  {
    if psigs[0].pk != pk {
      var i :| 0 <= i < |psigs| && psigs[i].pk == pk;
      assert psigs[1..][i - 1].pk == pk;
      FoundPsig(psigs[1..], pk);
    }
  }

  /** An honest device's share. */
  function DeviceShare(d: State): Share
    requires d.myPsig.Some? && d.pubnonce.Some?
  {
    Share(d.myPsig.value, d.pubnonce.value, d.myPk)
  }

  lemma DeviceKeysUnique(c: Crypto, p: Setup, i: nat, j: nat)
    requires ValidSetup(c, p) && i < |p.sks| && j < |p.sks| && i != j
    ensures DevicePk(c, p.sks[i]) != DevicePk(c, p.sks[j])
  {
    hide SortedPks, DevicePks;
    if DevicePk(c, p.sks[i]) == DevicePk(c, p.sks[j]) {
      SerInjective(c, p.sks[i], p.sks[j]);
    }
  }

  /** Which device a collected nonce comes from. */
  lemma NonceOwner(c: Crypto, p: Setup, net: Net, j: nat) returns (i: nat)
    requires ValidSetup(c, p) && NetOk(c, p, net) && j < |net.devs[p.coord].nonces|
    ensures i < |p.sks| && i != p.coord && NonceOfDevice(c, p, net.devs, net.devs[p.coord].nonces[j], i)
    ensures net.devs[p.coord].nonces[j].pk == DevicePk(c, p.sks[i])
  {
    hide DeviceOk, PublishedOk, SortedPks, DevicePks, DistinctNonces, DistinctPsigs, DevicePk;
    assert net.devs[p.coord].nonces[j] in net.devs[p.coord].nonces;
    assert NonceIsFrom(c, p, net.devs, net.devs[p.coord].nonces[j]);
    i :| 0 <= i < |p.sks| && i != p.coord && NonceOfDevice(c, p, net.devs, net.devs[p.coord].nonces[j], i);
  }

  lemma PsigOwner(c: Crypto, p: Setup, net: Net, e: PsigEntry, i: nat)
    requires ValidSetup(c, p) && NetOk(c, p, net) && e in net.devs[p.coord].psigs
    requires i < |p.sks| && e.pk == DevicePk(c, p.sks[i])
    ensures net.devs[i].myPsig == Some(e.psig)
  {
    hide DeviceOk, PublishedOk, SortedPks, DevicePks, DistinctNonces, DistinctPsigs, DevicePk;
    assert PsigIsFrom(c, p, net.devs, e);
    var j :| 0 <= j < |p.sks| && j != p.coord && PsigOfDevice(c, p, net.devs, e, j);
    if i != j { DeviceKeysUnique(c, p, i, j); }
  }

  /** Every collected nonce belongs to a device whose share the coordinator has. */
  lemma MatchedShare(c: Crypto, p: Setup, net: Net, j: nat) returns (i: nat)
    requires ValidSetup(c, p) && NetOk(c, p, net) && Complete(c, p, net) && j < |net.devs[p.coord].nonces|
    ensures var k := net.devs[p.coord];
      && i < |p.sks| && i != p.coord && net.devs[i].myPsig.Some? && net.devs[i].pubnonce.Some?
      && k.nonces[j].pk == DevicePk(c, p.sks[i]) == net.devs[i].myPk
      && FindPsig(k.psigs, k.nonces[j].pk).Some?
      && Share(FindPsig(k.psigs, k.nonces[j].pk).value, k.nonces[j].pn, k.nonces[j].pk) == DeviceShare(net.devs[i])
  {
    i := NonceOwner(c, p, net, j);
    var k := net.devs[p.coord];
    assert DeviceOk(c, p, net.devs[i], p.sks[i], net.published);
    assert HasPsig(k.psigs, DevicePk(c, p.sks[i]));
    hide NetOk, ValidSetup, Complete, DevicePk, HasPsig;
    FoundPsig(k.psigs, k.nonces[j].pk);
    PsigOwner(c, p, net, PsigEntry(k.nonces[j].pk, FindPsig(k.psigs, k.nonces[j].pk).value), i);
  }

  lemma CoordinatorFacts(c: Crypto, p: Setup, net: Net)
    requires ValidSetup(c, p) && NetOk(c, p, net)
    ensures var k := net.devs[p.coord];
            DistinctNonces(k.nonces) && k.myPk == DevicePk(c, p.sks[p.coord])
  {
    hide SortedPks, DevicePks, DevicePk, PublishedOk, DistinctNonces, DistinctPsigs, IsPair, PublishedSession, Sign,
      NonceIsFrom, PsigIsFrom;
    assert DeviceOk(c, p, net.devs[p.coord], p.sks[p.coord], net.published);
  }

  lemma EveryNonceMatched(c: Crypto, p: Setup, net: Net)
    requires ValidSetup(c, p) && NetOk(c, p, net) && Complete(c, p, net)
    ensures var k := net.devs[p.coord];
            forall j :: 0 <= j < |k.nonces| ==> FindPsig(k.psigs, k.nonces[j].pk).Some?
  {
    var k := net.devs[p.coord];
    hide NetOk, SortedPks, DevicePks, DevicePk, NoncesComplete, PsigsComplete, FindPsig;
    forall j | 0 <= j < |k.nonces|
      ensures FindPsig(k.psigs, k.nonces[j].pk).Some?
    {
      var i := MatchedShare(c, p, net, j);
    }
  }

  /** The shares of a state whose nonces all have their partial signatures. */
  lemma SharesOfState(k: State)
    requires k.pubnonce.Some? && k.myPsig.Some?
    requires forall j :: 0 <= j < |k.nonces| ==> FindPsig(k.psigs, k.nonces[j].pk).Some?
    ensures |Shares(k)| == |k.nonces| + 1 && Shares(k)[0] == DeviceShare(k)
    ensures forall j :: 0 <= j < |k.nonces| ==>
              Shares(k)[j + 1] == Share(FindPsig(k.psigs, k.nonces[j].pk).value, k.nonces[j].pn, k.nonces[j].pk)
    ensures Pubnonces(Shares(k)) == AllNonces(k)
    ensures Pks(Shares(k)) == [k.myPk] + EntryKeys(k.nonces)
  {
    hide FindPsig, Matched, Pubnonces, Pks, AllNonces, EntryKeys;
    MatchedAt(k.nonces, k.psigs);
    PartsOfShares(k, Shares(k));
  }

  lemma PartsOfShares(k: State, shares: seq<Share>)
    requires k.pubnonce.Some? && |shares| == |k.nonces| + 1
    requires shares[0].pubnonce == k.pubnonce.value && shares[0].pk == k.myPk
    requires forall j :: 0 <= j < |k.nonces| ==> shares[j + 1].pubnonce == k.nonces[j].pn && shares[j + 1].pk == k.nonces[j].pk
    ensures Pubnonces(shares) == AllNonces(k)
    ensures Pks(shares) == [k.myPk] + EntryKeys(k.nonces)
  {
  }

  ghost predicate IsShareOf(d: State, sh: Share) {
    d.myPsig.Some? && d.pubnonce.Some? && sh == DeviceShare(d)
  }

  lemma LaterShare(c: Crypto, p: Setup, net: Net, j: nat) returns (i: nat)
    requires ValidSetup(c, p) && NetOk(c, p, net) && Complete(c, p, net) && j < |net.devs[p.coord].nonces|
    ensures i < |p.sks| && j + 1 < |Shares(net.devs[p.coord])|
    ensures IsShareOf(net.devs[i], Shares(net.devs[p.coord])[j + 1])
  {
    EveryNonceMatched(c, p, net);
    hide NetOk, SortedPks, DevicePks, DevicePk, NoncesComplete, PsigsComplete, FindPsig, Shares;
    SharesOfState(net.devs[p.coord]);
    i := MatchedShare(c, p, net, j);
  }

  lemma CoordinatorShares(c: Crypto, p: Setup, net: Net)
    requires ValidSetup(c, p) && NetOk(c, p, net) && Complete(c, p, net)
    ensures p.coord < |p.sks| == |net.devs|
    ensures var k := net.devs[p.coord]; |Shares(k)| == |k.nonces| + 1 && IsShareOf(k, Shares(k)[0])
  {
    assert p.coord < |p.sks| == |net.devs|;
    EveryNonceMatched(c, p, net);
    hide NetOk, SortedPks, DevicePks, DevicePk, NoncesComplete, PsigsComplete, FindPsig, Shares, IsShareOf;
    OwnShare(net.devs[p.coord]);
  }

  /** Every assembled share is an honest device's share. */
  lemma ShareIsDevice(c: Crypto, p: Setup, net: Net, j: nat) returns (i: nat)
    requires ValidSetup(c, p) && NetOk(c, p, net) && Complete(c, p, net) && j < |Shares(net.devs[p.coord])|
    ensures i < |p.sks| && IsShareOf(net.devs[i], Shares(net.devs[p.coord])[j])
  {
    hide *;
    CoordinatorShares(c, p, net);
    if j == 0 {
      i := p.coord;
    } else {
      i := LaterShare(c, p, net, j - 1);
    }
  }

  lemma OwnShare(k: State)
    requires k.pubnonce.Some? && k.myPsig.Some?
    requires forall j :: 0 <= j < |k.nonces| ==> FindPsig(k.psigs, k.nonces[j].pk).Some?
    ensures |Shares(k)| == |k.nonces| + 1 && IsShareOf(k, Shares(k)[0])
  {
    hide FindPsig, Shares;
    SharesOfState(k);
  }

  lemma EntryOfDevice(c: Crypto, p: Setup, k: State, i: nat) returns (j: nat)
    requires KeysInGroup(c, p.sks) && NoncesComplete(c, p, k) && i < |p.sks| && i != p.coord
    ensures j < |k.nonces| && k.nonces[j].pk == DevicePk(c, p.sks[i])
  {
    hide DevicePk;
    assert HasNonce(k.nonces, DevicePk(c, p.sks[i]));
    j :| 0 <= j < |k.nonces| && k.nonces[j].pk == DevicePk(c, p.sks[i]);
  }

  /** And every device has one. */
  lemma DeviceHasShare(c: Crypto, p: Setup, net: Net, i: nat)
    requires ValidSetup(c, p) && NetOk(c, p, net) && Complete(c, p, net) && i < |p.sks|
    ensures net.devs[i].myPsig.Some? && net.devs[i].pubnonce.Some?
    ensures DeviceShare(net.devs[i]) in Shares(net.devs[p.coord])
  {
    var k := net.devs[p.coord];
    EveryNonceMatched(c, p, net);
    hide NetOk, SortedPks, DevicePks, DevicePk, NoncesComplete, PsigsComplete, FindPsig, Shares;
    SharesOfState(k);
    if i == p.coord {
      assert Shares(k)[0] == DeviceShare(k);
    } else {
      var j := EntryOfDevice(c, p, k, i);
      var i' := MatchedShare(c, p, net, j);
      if i' != i { DeviceKeysUnique(c, p, i, i'); }
      assert Shares(k)[j + 1] == DeviceShare(net.devs[i]);
    }
  }

  /** The keys of the shares are exactly the vault's keys, each once. */
  lemma ShareKeys(c: Crypto, p: Setup, net: Net)
    requires ValidSetup(c, p) && NetOk(c, p, net) && Complete(c, p, net)
    ensures multiset(Pks(Shares(net.devs[p.coord]))) == multiset(DevicePks(c, p.sks))
  {
    var k := net.devs[p.coord];
    EveryNonceMatched(c, p, net);
    CoordinatorFacts(c, p, net);
    hide NetOk, SortedPks, DevicePks, DevicePk, NoncesComplete, PsigsComplete, FindPsig, Shares, Unique, EntryKeys;
    SharesOfState(k);
    forall j | 0 <= j < |k.nonces|
      ensures k.nonces[j].pk != k.myPk && k.nonces[j].pk in DevicePks(c, p.sks)
    {
      NotCoordinator(c, p, net, j);
    }
    DevicePksUnique(c, p);
    EntryKeysUnique(k.myPk, k.nonces);
    KeysCovered(c, p, k);
    SameKeysSameContents([k.myPk] + EntryKeys(k.nonces), DevicePks(c, p.sks));
  }

  lemma DevicePksUnique(c: Crypto, p: Setup)
    requires ValidSetup(c, p)
    ensures Unique(DevicePks(c, p.sks))
  {
    hide SortedPks, DevicePk;
    forall i, j | 0 <= i < j < |p.sks|
      ensures DevicePks(c, p.sks)[i] != DevicePks(c, p.sks)[j]
    {
      DeviceKeysUnique(c, p, i, j);
    }
  }

  lemma NotCoordinator(c: Crypto, p: Setup, net: Net, j: nat)
    requires ValidSetup(c, p) && NetOk(c, p, net) && j < |net.devs[p.coord].nonces|
    ensures net.devs[p.coord].nonces[j].pk != DevicePk(c, p.sks[p.coord])
    ensures net.devs[p.coord].nonces[j].pk in DevicePks(c, p.sks)
  {
    var pk := net.devs[p.coord].nonces[j].pk;
    hide NetOk, SortedPks, DevicePk, NonceOfDevice;
    var i := NonceOwner(c, p, net, j);
    DeviceKeysUnique(c, p, i, p.coord);
    assert DevicePks(c, p.sks)[i] == pk;
  }

  lemma EntryKeysUnique(pk: bytes, nonces: seq<NonceEntry>)
    requires DistinctNonces(nonces) && forall j :: 0 <= j < |nonces| ==> nonces[j].pk != pk
    ensures Unique([pk] + EntryKeys(nonces))
  {
  }

  lemma DeviceKeyIsEntry(c: Crypto, p: Setup, k: State, i: nat)
    requires KeysInGroup(c, p.sks) && p.coord < |p.sks| && NoncesComplete(c, p, k) && i < |p.sks|
    requires k.myPk == DevicePk(c, p.sks[p.coord])
    ensures DevicePk(c, p.sks[i]) in [k.myPk] + EntryKeys(k.nonces)
  {
    hide DevicePk, NoncesComplete;
    if i != p.coord {
      var j := EntryOfDevice(c, p, k, i);
      assert EntryKeys(k.nonces)[j] == DevicePk(c, p.sks[i]);
    }
  }

  /** The same keys turn up in both lists. */
  lemma KeysCovered(c: Crypto, p: Setup, k: State)
    requires KeysInGroup(c, p.sks) && p.coord < |p.sks| && NoncesComplete(c, p, k)
    requires k.myPk == DevicePk(c, p.sks[p.coord])
    requires forall j :: 0 <= j < |k.nonces| ==> k.nonces[j].pk in DevicePks(c, p.sks)
    ensures forall x :: x in [k.myPk] + EntryKeys(k.nonces) <==> x in DevicePks(c, p.sks)
  {
    hide DevicePk, NoncesComplete;
    assert DevicePks(c, p.sks)[p.coord] == k.myPk;
    forall x | x in DevicePks(c, p.sks)
      ensures x in [k.myPk] + EntryKeys(k.nonces)
    {
      var i :| 0 <= i < |p.sks| && DevicePks(c, p.sks)[i] == x;
      DeviceKeyIsEntry(c, p, k, i);
    }
  }

  // ---- The session key and the vault's own key ----

  /** The vault's aggregate key is the key a session of the vault aggregates. */
  lemma SessionAggregates(c: Crypto, v: VaultConfig, pks: seq<bytes>)
    requires SortedPks(c, v) == Ok(pks)
    ensures VaultKey(c, v).Ok? <==> Aggregate(c, pks).Ok?
    ensures VaultKey(c, v).Ok? ==> VaultKey(c, v).value == Aggregate(c, pks).value
  {
    hide Aggregate, KeySort;
    match ParticipantKeys(c, v.participants)
    case None =>
    case Some(ks) =>
      KeySortCanonical(ks, ks);
      KeySortOfSorted(KeySort(ks));
  }

  /** The taproot context unfolded: the aggregate key and the child tweak it starts from. */
  lemma TaprootStart(c: Crypto, v: VaultConfig, index: nat)
    requires Taproot(c, v, index).Ok?
    ensures VaultKey(c, v).Ok? && VaultCode(c, v).Ok? && ChildIl(c, VaultCode(c, v).value, index).Some?
    ensures Taproot(c, v, index) == TaprootFrom(c, VaultKey(c, v).value.aggPubkey, ChildIl(c, VaultCode(c, v).value, index).value)
  {
    hide TaprootFrom, VaultKey, VaultCode, ChildIl;
  }

  lemma TaprootFromParts(c: Crypto, q0: int, il: nat)
    requires InGroup(c, q0) && TaprootFrom(c, q0, il).Ok?
    ensures AddExpTweak(c, q0, il).Some?
    ensures TaprootFrom(c, q0, il).value.internal == c.xb(AddExpTweak(c, q0, il).value)
    ensures TaprootFrom(c, q0, il).value.t == TapTweak(c, TaprootFrom(c, q0, il).value.internal)
  {
    hide AddExpTweak, TapTweak;
  }

  /** The key finalize checks against is the session's key, in both modes. */
  lemma VerifyKeyIsSessionKey(c: Crypto, v: VaultConfig, index: nat, taproot: bool, tweaks: seq<Tweak>, q0: int)
    requires InGroup(c, q0) && VaultKey(c, v).Ok? && VaultKey(c, v).value.aggPubkey == q0
    requires Taproot(c, v, index).Ok? && SessionTweaks(c, v, index, taproot) == Ok(tweaks)
    ensures ApplyTweaks(c, q0, tweaks).Ok?
    ensures c.xb(ApplyTweaks(c, q0, tweaks).value.q) == VerifyKey(Taproot(c, v, index).value, taproot)
  {
    TaprootStart(c, v, index);
    var il := ChildIl(c, VaultCode(c, v).value, index).value;
    hide Taproot, TaprootFrom, ApplyTweaks, VaultKey, VaultCode, ChildIl, TapTweak, AddExpTweak;
    TaprootFromParts(c, q0, il);
    if taproot {
      TaprootDerivationsAgree(c, q0, il);
    } else {
      InternalKeyAgrees(c, q0, il);
    }
  }

  // ---- Honest shares ----

  /** What makes a device's partial signature pass, visible before the check is made. */
  ghost predicate Sound(c: Crypto, d: State, v: SessionValues)
    requires d.myPsig.Some? && d.secnonce.Some?
  {
    NonDegenerate(c, v, d.myPsig.value, d.secnonce.value.k1, d.secnonce.value.k2)
  }

  lemma HonestShare(c: Crypto, p: Setup, d: State, sk: int, published: Option<Broadcast>)
    requires InGroup(c, sk) && DeviceOk(c, p, d, sk, published) && d.myPsig.Some?
    ensures d.secnonce.Some? && d.pubnonce.Some? && d.session.Some? && GetSessionValues(c, d.session.value).Ok?
    ensures ShareVerifies(c, DeviceShare(d), d.session.value) <==> Sound(c, d, GetSessionValues(c, d.session.value).value)
  {
    assert d.secnonce.value.pk == d.myPk && d.pubnonce.value == PublicNonce(c, d.secnonce.value.k1, d.secnonce.value.k2);
    hide Sign, PartialSigVerify, GetSessionValues, PublishedSession, NonDegenerate, PublicNonce, DevicePk;
    SignMatchesVerify(c, d.secnonce.value, sk, d.session.value);
  }

  /** In a complete ceremony all devices hold the published session. */
  lemma SameSession(c: Crypto, p: Setup, net: Net, i: nat)
    requires ValidSetup(c, p) && NetOk(c, p, net) && i < |p.sks|
    requires net.devs[i].myPsig.Some? && net.devs[p.coord].myPsig.Some?
    ensures net.devs[i].session.Some? && net.devs[i].session == net.devs[p.coord].session
    ensures DeviceOk(c, p, net.devs[i], p.sks[i], net.published)
  {
    hide SortedPks, DevicePks, DevicePk, PublishedSession, CollectionsOk, PublishedOk, IsPair, Sign;
    assert DeviceOk(c, p, net.devs[i], p.sks[i], net.published);
    assert DeviceOk(c, p, net.devs[p.coord], p.sks[p.coord], net.published);
  }

  lemma DeviceShareVerifies(c: Crypto, p: Setup, net: Net, i: nat)
    requires ValidSetup(c, p) && NetOk(c, p, net) && i < |p.sks|
    requires net.devs[i].myPsig.Some? && net.devs[p.coord].myPsig.Some?
    ensures net.devs[p.coord].session.Some? && net.devs[i].secnonce.Some? && net.devs[i].pubnonce.Some?
    ensures GetSessionValues(c, net.devs[p.coord].session.value).Ok?
    ensures ShareVerifies(c, DeviceShare(net.devs[i]), net.devs[p.coord].session.value)
            <==> Sound(c, net.devs[i], GetSessionValues(c, net.devs[p.coord].session.value).value)
  {
    assert |net.devs| == |p.sks|;
    hide NetOk, SortedPks, DevicePks, DeviceOk, ShareVerifies, Sound, GetSessionValues;
    SameSession(c, p, net, i);
    HonestShare(c, p, net.devs[i], p.sks[i], net.published);
  }

  /** All devices signed soundly. */
  ghost predicate AllSound(c: Crypto, p: Setup, net: Net, v: SessionValues)
    requires |net.devs| == |p.sks|
  {
    forall i :: 0 <= i < |p.sks| ==>
      net.devs[i].myPsig.Some? && net.devs[i].secnonce.Some? && Sound(c, net.devs[i], v)
  }

  lemma ShareVerifiesIfSound(c: Crypto, p: Setup, net: Net, j: nat)
    requires ValidSetup(c, p) && NetOk(c, p, net) && Complete(c, p, net) && j < |Shares(net.devs[p.coord])|
    requires net.devs[p.coord].session.Some? && GetSessionValues(c, net.devs[p.coord].session.value).Ok?
    requires AllSound(c, p, net, GetSessionValues(c, net.devs[p.coord].session.value).value)
    ensures ShareVerifies(c, Shares(net.devs[p.coord])[j], net.devs[p.coord].session.value)
  {
    assert |net.devs| == |p.sks|;
    hide NetOk, ShareVerifies, Sound, GetSessionValues, Shares, SortedPks, DevicePks, NoncesComplete, PsigsComplete;
    var i := ShareIsDevice(c, p, net, j);
    DeviceShareVerifies(c, p, net, i);
  }

  lemma AllVerifyIfSound(c: Crypto, p: Setup, net: Net)
    requires ValidSetup(c, p) && NetOk(c, p, net) && Complete(c, p, net)
    requires net.devs[p.coord].session.Some? && GetSessionValues(c, net.devs[p.coord].session.value).Ok?
    requires AllSound(c, p, net, GetSessionValues(c, net.devs[p.coord].session.value).value)
    ensures forall sh :: sh in Shares(net.devs[p.coord]) ==> ShareVerifies(c, sh, net.devs[p.coord].session.value)
  {
    var shares, session := Shares(net.devs[p.coord]), net.devs[p.coord].session.value;
    hide *;
    forall j | 0 <= j < |shares|
      ensures ShareVerifies(c, shares[j], session)
    {
      ShareVerifiesIfSound(c, p, net, j);
    }
    EveryMember(c, shares, session);
  }

  lemma EveryMember(c: Crypto, shares: seq<Share>, session: SessionContext)
    requires forall j :: 0 <= j < |shares| ==> ShareVerifies(c, shares[j], session)
    ensures forall sh :: sh in shares ==> ShareVerifies(c, sh, session)
  {
    hide *;
  }

  lemma SoundIfAllVerify(c: Crypto, p: Setup, net: Net)
    requires ValidSetup(c, p) && NetOk(c, p, net) && Complete(c, p, net)
    requires net.devs[p.coord].session.Some? && GetSessionValues(c, net.devs[p.coord].session.value).Ok?
    requires forall sh :: sh in Shares(net.devs[p.coord]) ==> ShareVerifies(c, sh, net.devs[p.coord].session.value)
    ensures AllSound(c, p, net, GetSessionValues(c, net.devs[p.coord].session.value).value)
  {
    assert |net.devs| == |p.sks|;
    hide NetOk, ShareVerifies, Sound, GetSessionValues, Shares, SortedPks, DevicePks, NoncesComplete, PsigsComplete;
    forall i | 0 <= i < |p.sks|
      ensures net.devs[i].myPsig.Some? && net.devs[i].secnonce.Some?
              && Sound(c, net.devs[i], GetSessionValues(c, net.devs[p.coord].session.value).value)
    {
      DeviceHasShare(c, p, net, i);
      DeviceShareVerifies(c, p, net, i);
    }
  }

  // ---- The result ----

  /** What is known of the coordinator once it holds a session it signed in. */
  lemma CoordinatorSession(c: Crypto, p: Setup, net: Net)
    requires ValidSetup(c, p) && NetOk(c, p, net) && Complete(c, p, net)
    ensures var k := net.devs[p.coord];
      && k.session.Some? && k.taproot == p.taproot
      && GetSessionValues(c, k.session.value).Ok?
      && NonceAgg(c, AllNonces(k)) == Ok(k.session.value.aggnonce)
      && SessionFor(c, p.v, k.msg, k.index, p.taproot, k.session.value.aggnonce) == Ok(k.session.value)
  {
    hide NonceAgg, SessionFor, SortedPks, DevicePks, DevicePk, CollectionsOk, IsPair, Sign, NoncesComplete, PsigsComplete,
      GetSessionValues;
    SameSession(c, p, net, p.coord);
    DeviceShareVerifies(c, p, net, p.coord);
    var b := net.published.value;
    SessionForParts(c, p.v, b.msg, b.index, p.taproot, b.aggnonce, net.devs[p.coord].session.value);
  }

  lemma SessionForParts(c: Crypto, v: VaultConfig, msg: bytes, index: nat, taproot: bool, aggnonce: b66, s: SessionContext)
    requires SessionFor(c, v, msg, index, taproot, aggnonce) == Ok(s)
    ensures SortedPks(c, v) == Ok(s.pks) && SessionTweaks(c, v, index, taproot) == Ok(s.tweaks)
    ensures s.msg == msg && s.aggnonce == aggnonce
  {
    hide SortedPks, SessionTweaks;
  }

  /** When the vault's own checks at the end of finalize succeed for a signature. */
  lemma FinalCheck(c: Crypto, v: VaultConfig, k: State, sig: Signature)
    requires k.session.Some? && GetSessionValues(c, k.session.value).Ok?
    requires SortedPks(c, v) == Ok(k.session.value.pks)
    requires SessionTweaks(c, v, k.index, k.taproot) == Ok(k.session.value.tweaks)
    ensures CheckFinal(c, k, v, sig).Ok? <==>
              && Taproot(c, v, k.index).Ok? && |k.msg| == 32
              && SchnorrVerify(c, sig, c.xb(GetSessionValues(c, k.session.value).value.q), k.msg)
    ensures Taproot(c, v, k.index).Ok? ==>
              VerifyKey(Taproot(c, v, k.index).value, k.taproot) == c.xb(GetSessionValues(c, k.session.value).value.q)
  {
    hide *;
    CheckFinalIs(c, k, v, sig);
    if Taproot(c, v, k.index).Ok? {
      KeyOfSession(c, v, k.session.value, k.index, k.taproot);
      LiftXOfPoint(c, GetSessionValues(c, k.session.value).value.q);
    }
  }

  lemma CheckFinalIs(c: Crypto, k: State, v: VaultConfig, sig: Signature)
    ensures CheckFinal(c, k, v, sig).Ok? <==>
              && Taproot(c, v, k.index).Ok? && |k.msg| == 32
              && LiftX(c, VerifyKey(Taproot(c, v, k.index).value, k.taproot)).Some?
              && SchnorrVerify(c, sig, VerifyKey(Taproot(c, v, k.index).value, k.taproot), k.msg)
  {
    hide Taproot, SchnorrVerify, VerifyKey, LiftX;
  }

  lemma KeyOfSession(c: Crypto, v: VaultConfig, s: SessionContext, index: nat, taproot: bool)
    requires GetSessionValues(c, s).Ok? && Taproot(c, v, index).Ok?
    requires SortedPks(c, v) == Ok(s.pks) && SessionTweaks(c, v, index, taproot) == Ok(s.tweaks)
    ensures InGroup(c, GetSessionValues(c, s).value.q)
    ensures VerifyKey(Taproot(c, v, index).value, taproot) == c.xb(GetSessionValues(c, s).value.q)
  {
    hide *;
    SessionPoint(c, s);
    TaprootStart(c, v, index);
    SessionAggregates(c, v, s.pks);
    VerifyKeyIsSessionKey(c, v, index, taproot, s.tweaks, Aggregate(c, s.pks).value.aggPubkey);
  }

  lemma SessionPoint(c: Crypto, s: SessionContext)
    requires GetSessionValues(c, s).Ok?
    ensures Aggregate(c, s.pks).Ok? && ApplyTweaks(c, Aggregate(c, s.pks).value.aggPubkey, s.tweaks).Ok?
    ensures ApplyTweaks(c, Aggregate(c, s.pks).value.aggPubkey, s.tweaks).value.q == GetSessionValues(c, s).value.q
    ensures InGroup(c, GetSessionValues(c, s).value.q)
  {
    hide Aggregate, ApplyTweaks, NoncePoint, NonceCoeff, Challenge;
  }

  /** The conditions a complete ceremony meets unless a hash outcome is degenerate: every device
      signed soundly, the combined nonce is not infinity, and the vault has a taproot context. */
  ghost predicate Healthy(c: Crypto, p: Setup, net: Net)
    requires ValidSetup(c, p) && |net.devs| == |p.sks|
    requires net.devs[p.coord].session.Some? && GetSessionValues(c, net.devs[p.coord].session.value).Ok?
  {
    var k := net.devs[p.coord];
    && AllSound(c, p, net, GetSessionValues(c, k.session.value).value)
    && SessionNonce(c, k.session.value).Ok? && SessionNonce(c, k.session.value).value.Some?
    && Taproot(c, p.v, k.index).Ok? && |k.msg| == 32
  }

  /** In a complete ceremony, verified shares aggregate, and the result is valid under the
      session's key exactly when the combined nonce is not infinity. */
  lemma SharesAggregate(c: Crypto, p: Setup, net: Net)
    requires ValidSetup(c, p) && NetOk(c, p, net) && Complete(c, p, net)
    requires net.devs[p.coord].session.Some?
    requires forall sh :: sh in Shares(net.devs[p.coord]) ==> ShareVerifies(c, sh, net.devs[p.coord].session.value)
    ensures var k := net.devs[p.coord];
            var s := k.session.value;
      && GetSessionValues(c, s).Ok? && SessionNonce(c, s).Ok? && PartialSigAgg(c, Psigs(Shares(k)), s).Ok?
      && (SchnorrVerify(c, PartialSigAgg(c, Psigs(Shares(k)), s).value, c.xb(GetSessionValues(c, s).value.q), s.msg)
          <==> SessionNonce(c, s).value.Some?)
  {
    var k := net.devs[p.coord];
    CoordinatorSession(c, p, net);
    EveryNonceMatched(c, p, net);
    ShareKeys(c, p, net);
    assert k.pubnonce.Some? && k.myPsig.Some?;
    assert multiset(SortedPks(c, p.v).value) == multiset(DevicePks(c, p.sks));
    hide *;
    SessionForParts(c, p.v, k.msg, k.index, p.taproot, k.session.value.aggnonce, k.session.value);
    SharesOfState(k);
    VerifiedPartialsAggregate(c, k.session.value, Shares(k));
  }

  /** In any complete and orderly state of the network, finalize succeeds exactly when the run is
      healthy, and what it returns is a valid BIP-340 signature of the message under the child key,
      or in taproot mode under the output key. */
  lemma FinalizeExactly(c: Crypto, p: Setup, net: Net)
    requires ValidSetup(c, p) && NetOk(c, p, net) && Complete(c, p, net)
    ensures net.devs[p.coord].session.Some? && GetSessionValues(c, net.devs[p.coord].session.value).Ok?
    ensures Finalize(c, net.devs[p.coord], p.v).Ok? <==> Healthy(c, p, net)
    ensures Finalize(c, net.devs[p.coord], p.v).Ok? ==>
              && Taproot(c, p.v, net.devs[p.coord].index).Ok?
              && SchnorrVerify(c, Finalize(c, net.devs[p.coord], p.v).value,
                               VerifyKey(Taproot(c, p.v, net.devs[p.coord].index).value, p.taproot),
                               net.devs[p.coord].msg)
  {
    var k := net.devs[p.coord];
    CoordinatorSession(c, p, net);
    EnoughShares(c, p, net);
    var s := k.session.value;
    hide NetOk, ValidSetup, Complete, Shares, PartialSigAgg, Finalize, CheckFinal, SchnorrVerify, GetSessionValues,
      SessionNonce, Taproot, VerifyKey, AllSound, ShareVerifies, SessionFor, NonceAgg, AllNonces;
    SessionForParts(c, p.v, k.msg, k.index, p.taproot, s.aggnonce, s);
    FinalizeShares(c, k, p.v);
    if Finalize(c, k, p.v).Ok? {
      SoundIfAllVerify(c, p, net);
      SharesAggregate(c, p, net);
      FinalCheck(c, p.v, k, PartialSigAgg(c, Psigs(Shares(k)), s).value);
    }
    if Healthy(c, p, net) {
      AllVerifyIfSound(c, p, net);
      SharesAggregate(c, p, net);
      FinalCheck(c, p.v, k, PartialSigAgg(c, Psigs(Shares(k)), s).value);
    }
  }

  /** With two devices or more there are at least two shares. */
  lemma EnoughShares(c: Crypto, p: Setup, net: Net)
    requires ValidSetup(c, p) && NetOk(c, p, net) && Complete(c, p, net)
    ensures |Shares(net.devs[p.coord])| >= 2
  {
    EveryNonceMatched(c, p, net);
    var k := net.devs[p.coord];
    var i := if p.coord == 0 then 1 else 0;
    hide NetOk, SortedPks, DevicePks, DevicePk, NoncesComplete, PsigsComplete, FindPsig, Shares;
    OwnShare(k);
    var j := EntryOfDevice(c, p, k, i);
  }

  /** The end-to-end result: N >= 2 devices holding the same vault start afresh and take honest
      steps in any order. Whenever the coordinator has everyone's nonce and partial signature,
      finalize succeeds exactly when the run is healthy, and its signature verifies. */
  lemma EndToEnd(c: Crypto, p: Setup, start: Net, events: seq<Event>)
    requires ValidSetup(c, p) && Start(c, p, start) && Honest(c, p, start, events)
    requires Complete(c, p, After(c, p, start, events))
    ensures var k := After(c, p, start, events).devs[p.coord];
      && k.session.Some? && GetSessionValues(c, k.session.value).Ok?
      && (Finalize(c, k, p.v).Ok? <==> Healthy(c, p, After(c, p, start, events)))
      && (Finalize(c, k, p.v).Ok? ==>
            && Taproot(c, p.v, k.index).Ok?
            && SchnorrVerify(c, Finalize(c, k, p.v).value, VerifyKey(Taproot(c, p.v, k.index).value, p.taproot), k.msg))
  {
    StartIsOk(c, p, start);
    RunOk(c, p, start, events);
    var last := After(c, p, start, events);
    hide *;
    FinalizeExactly(c, p, last);
  }
}
