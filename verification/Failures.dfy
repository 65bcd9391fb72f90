// Exactly when the call an honest step makes returns an error.
module Failures {
  import opened Wrappers
  import opened Bytes
  import opened Curve
  import opened KeyAgg
  import opened Signing
  import opened PartialSigs
  import opened Correctness
  import opened NonceGen
  import opened Vault
  import opened Spend
  import opened Ceremony
  import opened EndToEnd

  /** The call an event makes returns an error. */
  ghost predicate Fails(c: Crypto, p: Setup, net: Net, e: Event)
    requires ValidSetup(c, p) && |net.devs| == |p.sks| && Enabled(c, p, net, e)
  {
    match e
    case Generates(i, rand, aggX) => Spend.GenNonce(c, net.devs[i], rand, p.sks[i], aggX).1.Err?
    case Builds => Spend.BuildSession(c, net.devs[p.coord], p.v).1.Err?
    case Receives(i) =>
      var b := net.published.value;
      Spend.SetSession(c, net.devs[i], b.msg, b.index, b.aggnonce, p.v).1.Err?
    case Signs(i) => Spend.SignPartial(c, net.devs[i], p.sks[i]).1.Err?
    case NonceScanned(_) => false
    case PsigScanned(_) => false
  }

  lemma SetupParts(c: Crypto, p: Setup)
    requires ValidSetup(c, p)
    ensures p.coord < |p.sks| && KeysInGroup(c, p.sks)
    ensures forall i :: 0 <= i < |p.sks| ==> InGroup(c, p.sks[i])
  {
    hide SortedPks, DevicePks;
  }

  // ---- Round 1 ----

  /** One of the two nonce scalars hashed from this randomness is zero. */
  ghost predicate ZeroNonce(c: Crypto, d: State, sk: int, rand: b32, aggX: b32)
    requires InGroup(c, sk)
  {
    var masked := MaskedRand(c, rand, Some(sk));
    || NonceScalar(c, masked, d.myPk, Some(aggX), Some(d.msg), [], 0) == 0
    || NonceScalar(c, masked, d.myPk, Some(aggX), Some(d.msg), [], 1) == 0
  }

  lemma GenerateFails(c: Crypto, p: Setup, net: Net, i: nat, rand: b32, aggX: b32)
    requires ValidSetup(c, p) && |net.devs| == |p.sks| && Enabled(c, p, net, Generates(i, rand, aggX))
    ensures Fails(c, p, net, Generates(i, rand, aggX)) <==> ZeroNonce(c, net.devs[i], p.sks[i], rand, aggX)
  {
    hide ValidSetup, KeysInGroup, NonceScalar, MaskedRand, PublicNonce;
    SetupParts(c, p);
  }

  // ---- Round 2 ----

  lemma PairParses(c: Crypto, pk: bytes, sn: SecNonce, pn: b66)
    requires IsPair(c, pk, sn, pn)
    ensures NonceParses(c, pn)
  {
    hide CpointExt, Lo, Hi, PublicNonce;
    PublicNonceHalves(c, sn.k1, sn.k2);
  }

  lemma DeviceNonceParses(c: Crypto, p: Setup, d: State, sk: int, published: Option<Broadcast>)
    requires InGroup(c, sk) && DeviceOk(c, p, d, sk, published) && d.pubnonce.Some?
    ensures NonceParses(c, d.pubnonce.value)
  {
    hide IsPair, NonceParses, PublishedSession, Sign, DevicePk;
    PairParses(c, d.myPk, d.secnonce.value, d.pubnonce.value);
  }

  lemma CollectedNonceParses(c: Crypto, p: Setup, net: Net, e: NonceEntry)
    requires ValidSetup(c, p) && NetOk(c, p, net) && e in net.devs[p.coord].nonces
    ensures NonceParses(c, e.pn)
  {
    hide DeviceOk, PublishedOk, SortedPks, DevicePks, DistinctNonces, DistinctPsigs, DevicePk, NonceParses, PsigIsFrom;
    assert NonceIsFrom(c, p, net.devs, e);
    var i :| 0 <= i < |p.sks| && i != p.coord && NonceOfDevice(c, p, net.devs, e, i);
    DeviceNonceParses(c, p, net.devs[i], p.sks[i], net.published);
  }

  lemma OwnNonceParses(c: Crypto, p: Setup, net: Net)
    requires ValidSetup(c, p) && NetOk(c, p, net) && net.devs[p.coord].pubnonce.Some?
    ensures NonceParses(c, net.devs[p.coord].pubnonce.value)
  {
    hide DeviceOk, PublishedOk, CollectionsOk, SortedPks, DevicePks, DevicePk, NonceParses;
    DeviceNonceParses(c, p, net.devs[p.coord], p.sks[p.coord], net.published);
  }

  lemma AllNoncesAre(k: State)
    requires k.pubnonce.Some?
    ensures |AllNonces(k)| == |k.nonces| + 1
    ensures forall x :: x in AllNonces(k) ==> x == k.pubnonce.value || exists e :: e in k.nonces && e.pn == x
  {
    forall x | x in AllNonces(k)
      ensures x == k.pubnonce.value || exists e :: e in k.nonces && e.pn == x
    {
      var i :| 0 <= i < |AllNonces(k)| && AllNonces(k)[i] == x;
      if i > 0 { assert k.nonces[i - 1] in k.nonces; }
    }
  }

  /** With every nonce collected from an honest device, the nonces aggregate. */
  lemma HonestNoncesAggregate(c: Crypto, p: Setup, net: Net)
    requires ValidSetup(c, p) && NetOk(c, p, net) && net.devs[p.coord].pubnonce.Some?
    ensures NonceAgg(c, AllNonces(net.devs[p.coord])).Ok?
  {
    var k := net.devs[p.coord];
    hide ValidSetup, NetOk, NonceParses, NonceSum, AllNonces, SerExt;
    AllNoncesAre(k);
    forall x | x in AllNonces(k)
      ensures NonceParses(c, x)
    {
      if x == k.pubnonce.value {
        OwnNonceParses(c, p, net);
      } else {
        var e :| e in k.nonces && e.pn == x;
        CollectedNonceParses(c, p, net, e);
      }
    }
    NonceSumSucceeds(c, AllNonces(k), None, None);
  }

  lemma SomeOther(c: Crypto, p: Setup, k: State)
    requires ValidSetup(c, p) && NoncesComplete(c, p, k)
    ensures |k.nonces| >= 1
  {
    hide SortedPks, DevicePks, DevicePk;
    var i := if p.coord == 0 then 1 else 0;
    assert HasNonce(k.nonces, DevicePk(c, p.sks[i]));
  }

  lemma SessionForFails(c: Crypto, v: VaultConfig, msg: bytes, index: nat, taproot: bool, aggnonce: b66)
    requires SortedPks(c, v).Ok?
    ensures SessionFor(c, v, msg, index, taproot, aggnonce).Err? <==> SessionTweaks(c, v, index, taproot).Err?
  {
    hide SortedPks, SessionTweaks;
  }

  lemma BuildCallFails(c: Crypto, k: State, v: VaultConfig)
    requires |AllNonces(k)| >= 2 && NonceAgg(c, AllNonces(k)).Ok? && SortedPks(c, v).Ok?
    ensures Spend.BuildSession(c, k, v).1.Err? <==> SessionTweaks(c, v, k.index, k.taproot).Err?
  {
    hide AllNonces, NonceAgg, SessionFor, SessionTweaks, SortedPks;
    SessionForFails(c, v, k.msg, k.index, k.taproot, NonceAgg(c, AllNonces(k)).value);
  }

  lemma SetupSorts(c: Crypto, p: Setup)
    requires ValidSetup(c, p)
    ensures SortedPks(c, p.v).Ok?
    ensures forall i :: 0 <= i < |p.sks| ==> DevicePk(c, p.sks[i]) in SortedPks(c, p.v).value
  {
    hide SortedPks, DevicePk;
    var pks := SortedPks(c, p.v).value;
    forall i | 0 <= i < |p.sks|
      ensures DevicePk(c, p.sks[i]) in pks
    {
      assert DevicePks(c, p.sks)[i] in multiset(DevicePks(c, p.sks));
      assert DevicePks(c, p.sks)[i] in multiset(pks);
    }
  }

  lemma DeviceMode(c: Crypto, p: Setup, net: Net, i: nat)
    requires ValidSetup(c, p) && NetOk(c, p, net) && i < |p.sks|
    ensures |net.devs| == |p.sks| && net.devs[i].taproot == p.taproot
  {
    hide IsPair, PublishedSession, Sign, DevicePk, CollectionsOk, PublishedOk, SortedPks, DevicePks;
    assert DeviceOk(c, p, net.devs[i], p.sks[i], net.published);
  }

  lemma BuildIsReady(c: Crypto, p: Setup, net: Net)
    requires ValidSetup(c, p) && |net.devs| == |p.sks| && Enabled(c, p, net, Builds)
    ensures p.coord < |net.devs| && net.devs[p.coord].pubnonce.Some? && NoncesComplete(c, p, net.devs[p.coord])
    ensures Fails(c, p, net, Builds) <==> Spend.BuildSession(c, net.devs[p.coord], p.v).1.Err?
  {
    hide ValidSetup, NoncesComplete, Spend.BuildSession;
    SetupParts(c, p);
  }

  /** Building the session fails exactly when the vault has no tweaks for the coordinator's index. */
  lemma BuildFails(c: Crypto, p: Setup, net: Net)
    requires ValidSetup(c, p) && NetOk(c, p, net) && |net.devs| == |p.sks| && Enabled(c, p, net, Builds)
    ensures p.coord < |net.devs|
    ensures Fails(c, p, net, Builds) <==> SessionTweaks(c, p.v, net.devs[p.coord].index, p.taproot).Err?
  {
    hide *;
    SetupParts(c, p);
    DeviceMode(c, p, net, p.coord);
    BuildIsReady(c, p, net);
    SomeOther(c, p, net.devs[p.coord]);
    AllNoncesAre(net.devs[p.coord]);
    HonestNoncesAggregate(c, p, net);
    SetupSorts(c, p);
    BuildCallFails(c, net.devs[p.coord], p.v);
  }

  lemma PublishedIsBuilt(c: Crypto, p: Setup, net: Net)
    requires ValidSetup(c, p) && NetOk(c, p, net) && net.published.Some?
    ensures |net.devs| == |p.sks| && p.coord < |p.sks| && net.devs[p.coord].session.Some?
    ensures PublishedSession(c, p, net.published.value) == Ok(net.devs[p.coord].session.value)
    ensures net.devs[p.coord].msg == net.published.value.msg && net.devs[p.coord].index == net.published.value.index
  {
    hide IsPair, PublishedSession, Sign, DevicePk, CollectionsOk, SortedPks, DevicePks, NoncesComplete, NonceAgg, AllNonces;
    assert DeviceOk(c, p, net.devs[p.coord], p.sks[p.coord], net.published);
  }

  lemma SetCallFails(c: Crypto, p: Setup, d: State, b: Broadcast)
    requires d.taproot == p.taproot
    ensures Spend.SetSession(c, d, b.msg, b.index, b.aggnonce, p.v).1.Err? <==> PublishedSession(c, p, b).Err?
  {
    hide SessionFor;
  }

  lemma ReceiveIsSet(c: Crypto, p: Setup, net: Net, i: nat)
    requires ValidSetup(c, p) && |net.devs| == |p.sks| && Enabled(c, p, net, Receives(i))
    ensures i < |p.sks| && net.published.Some?
    ensures var b := net.published.value;
      Fails(c, p, net, Receives(i)) <==> Spend.SetSession(c, net.devs[i], b.msg, b.index, b.aggnonce, p.v).1.Err?
  {
    hide ValidSetup, Spend.SetSession;
  }

  /** Receiving the session never fails: the coordinator could build it. */
  lemma ReceiveSucceeds(c: Crypto, p: Setup, net: Net, i: nat)
    requires ValidSetup(c, p) && NetOk(c, p, net) && |net.devs| == |p.sks| && Enabled(c, p, net, Receives(i))
    ensures !Fails(c, p, net, Receives(i))
  {
    hide *;
    ReceiveIsSet(c, p, net, i);
    DeviceMode(c, p, net, i);
    PublishedIsBuilt(c, p, net);
    SetCallFails(c, p, net.devs[i], net.published.value);
  }

  // ---- Round 3 ----

  lemma SignCallFails(c: Crypto, d: State, sk: int)
    requires InGroup(c, sk) && d.session.Some? && d.secnonce.Some?
    requires InGroup(c, d.secnonce.value.k1) && InGroup(c, d.secnonce.value.k2) && d.secnonce.value.pk == Ser(c, sk)
    requires Ser(c, sk) in d.session.value.pks
    ensures Spend.SignPartial(c, d, sk).1.Err? <==> GetSessionValues(c, d.session.value).Err?
  {
    hide Aggregate, ApplyTweaks, NoncePoint, NonceCoeff, Challenge, SignScalar, Ser;
  }

  lemma SignerParts(c: Crypto, p: Setup, net: Net, i: nat)
    requires ValidSetup(c, p) && NetOk(c, p, net) && i < |p.sks|
    requires net.devs[i].session.Some? && net.devs[i].secnonce.Some?
    ensures |net.devs| == |p.sks| && net.published.Some?
    ensures var d := net.devs[i];
      && InGroup(c, p.sks[i])
      && InGroup(c, d.secnonce.value.k1) && InGroup(c, d.secnonce.value.k2)
      && d.secnonce.value.pk == Ser(c, p.sks[i])
      && PublishedSession(c, p, net.published.value) == Ok(d.session.value)
  {
    hide PublishedSession, Sign, CollectionsOk, PublishedOk, SortedPks, DevicePks, PublicNonce, Ser;
    assert DeviceOk(c, p, net.devs[i], p.sks[i], net.published);
  }

  lemma SignIsCalled(c: Crypto, p: Setup, net: Net, i: nat)
    requires ValidSetup(c, p) && |net.devs| == |p.sks| && Enabled(c, p, net, Signs(i))
    ensures i < |p.sks| && net.devs[i].session.Some? && net.devs[i].secnonce.Some? && InGroup(c, p.sks[i])
    ensures Fails(c, p, net, Signs(i)) <==> Spend.SignPartial(c, net.devs[i], p.sks[i]).1.Err?
  {
    hide ValidSetup, Spend.SignPartial, KeysInGroup;
    SetupParts(c, p);
  }

  lemma KeyIsPk(c: Crypto, sk: int)
    requires InGroup(c, sk)
    ensures DevicePk(c, sk) == Ser(c, sk)
  {
  }

  /** Signing fails exactly when the session has no values. */
  lemma SignFails(c: Crypto, p: Setup, net: Net, i: nat)
    requires ValidSetup(c, p) && NetOk(c, p, net) && |net.devs| == |p.sks| && Enabled(c, p, net, Signs(i))
    ensures i < |p.sks| && net.devs[i].session.Some?
    ensures Fails(c, p, net, Signs(i)) <==> GetSessionValues(c, net.devs[i].session.value).Err?
  {
    hide *;
    SignIsCalled(c, p, net, i);
    SignerParts(c, p, net, i);
    SetupSorts(c, p);
    KeyIsPk(c, p.sks[i]);
    PublishedKeys(c, p, net.published.value, net.devs[i].session.value);
    SignCallFails(c, net.devs[i], p.sks[i]);
  }

  lemma PublishedKeys(c: Crypto, p: Setup, b: Broadcast, s: SessionContext)
    requires PublishedSession(c, p, b) == Ok(s)
    ensures SortedPks(c, p.v) == Ok(s.pks) && SessionTweaks(c, p.v, b.index, p.taproot) == Ok(s.tweaks)
    ensures s.msg == b.msg && s.aggnonce == b.aggnonce
  {
    hide SessionFor;
    SessionForParts(c, p.v, b.msg, b.index, p.taproot, b.aggnonce, s);
  }
}
