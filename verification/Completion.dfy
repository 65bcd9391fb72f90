// The whole ceremony: when honest steps can be completed, when they cannot, and what finalize
// answers at the end.
module Completion {
  import opened Wrappers
  import opened Bytes
  import opened Curve
  import opened KeyAgg
  import opened Signing
  import opened PartialSigs
  import opened NonceGen
  import opened Bip47
  import opened Vault
  import opened Spend
  import opened Ceremony
  import opened EndToEnd
  import opened Failures
  import opened Progress

  // ---- When a session has values ----

  /** The hash that scales the second nonces is zero although their sum is not infinity. */
  ghost predicate ZeroCoefficient(c: Crypto, s: SessionContext) {
    && SessionKey(c, s).Ok? && NonceCoeff(c, s, SessionKey(c, s).value.q) == 0
    && CpointExt(c, Hi(s.aggnonce)).Ok? && CpointExt(c, Hi(s.aggnonce)).value.Some?
  }

  lemma NoncePointExists(c: Crypto, nonce: b66, b: nat)
    requires b < c.n && NonceParses(c, nonce)
    ensures NoncePoint(c, nonce, b).Ok? <==> b != 0 || CpointExt(c, Hi(nonce)).value.None?
  {
    hide CpointExt, Lo, Hi, PtAdd;
    var r1, r2 := CpointExt(c, Lo(nonce)).value, CpointExt(c, Hi(nonce)).value;
    if PtMul(c, r2, b).Ok? { PtAddIsAddition(c, r1, PtMul(c, r2, b).value); }
  }

  lemma ValuesUnlessZero(c: Crypto, s: SessionContext)
    requires SessionKey(c, s).Ok? && NonceParses(c, s.aggnonce)
    ensures GetSessionValues(c, s).Err? <==> ZeroCoefficient(c, s)
  {
    hide SessionKey, NoncePoint, NonceCoeff, CpointExt, Lo, Hi, Challenge;
    NoncePointExists(c, s.aggnonce, NonceCoeff(c, s, SessionKey(c, s).value.q));
  }

  lemma AggregateParses(c: Crypto, pns: seq<b66>, agg: b66)
    requires NonceAgg(c, pns) == Ok(agg)
    ensures NonceParses(c, agg)
  {
    var (r1, r2) := NonceSum(c, pns, None, None).value;
    hide NonceSum, CpointExt;
    assert Lo(agg) == SerExt(c, r1) && Hi(agg) == SerExt(c, r2);
    CpointExtInverts(c, r1);
    CpointExtInverts(c, r2);
  }

  lemma TaprootHasTweaks(c: Crypto, v: VaultConfig, index: nat, taproot: bool)
    requires Taproot(c, v, index).Ok?
    ensures SessionTweaks(c, v, index, taproot).Ok?
  {
    TaprootStart(c, v, index);
    hide Taproot, TaprootFrom, VaultKey, VaultCode, ChildIl;
  }

  lemma SessionKeyExists(c: Crypto, v: VaultConfig, index: nat, taproot: bool, s: SessionContext)
    requires Taproot(c, v, index).Ok?
    requires SortedPks(c, v) == Ok(s.pks) && SessionTweaks(c, v, index, taproot) == Ok(s.tweaks)
    ensures SessionKey(c, s).Ok?
  {
    TaprootStart(c, v, index);
    hide Taproot, TaprootFrom, VaultKey, VaultCode, ChildIl, SortedPks, SessionTweaks, Aggregate, ApplyTweaks;
    SessionAggregates(c, v, s.pks);
    VerifyKeyIsSessionKey(c, v, index, taproot, s.tweaks, Aggregate(c, s.pks).value.aggPubkey);
  }

  lemma PublishedNonce(c: Crypto, p: Setup, net: Net)
    requires ValidSetup(c, p) && NetOk(c, p, net) && net.published.Some?
    ensures NonceParses(c, net.published.value.aggnonce)
  {
    hide DeviceOk, CollectionsOk, NoncesComplete, NonceAgg, AllNonces, NonceParses, SortedPks, DevicePks;
    AggregateParses(c, AllNonces(net.devs[p.coord]), net.published.value.aggnonce);
  }

  /** Once published, the session has values exactly unless its coefficient is zero. */
  lemma ValuesExactly(c: Crypto, p: Setup, net: Net)
    requires ValidSetup(c, p) && NetOk(c, p, net) && net.published.Some?
    requires p.coord < |net.devs| && Taproot(c, p.v, net.devs[p.coord].index).Ok?
    ensures net.devs[p.coord].session.Some?
    ensures NoValues(c, p, net) <==> ZeroCoefficient(c, net.devs[p.coord].session.value)
  {
    PublishedIsBuilt(c, p, net);
    PublishedNonce(c, p, net);
    hide ValidSetup, NetOk, Taproot, PublishedSession, SessionKey, GetSessionValues, ZeroCoefficient, NonceParses, SortedPks,
      SessionTweaks;
    var s := net.devs[p.coord].session.value;
    PublishedKeys(c, p, net.published.value, s);
    SessionKeyExists(c, p.v, net.devs[p.coord].index, p.taproot, s);
    ValuesUnlessZero(c, s);
  }

  // ---- When nothing helps ----

  lemma CompleteIsPublished(c: Crypto, p: Setup, net: Net)
    requires ValidSetup(c, p) && NetOk(c, p, net) && Complete(c, p, net)
    ensures net.published.Some?
  {
    hide IsPair, PublishedSession, Sign, DevicePk, CollectionsOk, PublishedOk, SortedPks, DevicePks, NoncesComplete, PsigsComplete;
    assert DeviceOk(c, p, net.devs[p.coord], p.sks[p.coord], net.published);
  }

  lemma PublishedOnlyByBuilding(c: Crypto, p: Setup, net: Net, e: Event)
    requires ValidSetup(c, p) && |net.devs| == |p.sks| && Enabled(c, p, net, e)
    ensures !e.Builds? || Fails(c, p, net, e) ==> Step(c, p, net, e).published == net.published
  {
    hide ValidSetup, Spend.GenNonce, Spend.AddPubnonce, Spend.BuildSession, Spend.SetSession, Spend.SignPartial, Spend.AddPsig,
      HasNonce, HasPsig, NoncesComplete, DevicePk, KeysInGroup;
    SetupParts(c, p);
  }

  /** Without tweaks for the coordinator's index, no honest run completes. */
  lemma {:induction false} NoTweaksNoCompletion(c: Crypto, p: Setup, net: Net, events: seq<Event>)
    requires ValidSetup(c, p) && NetOk(c, p, net) && |net.devs| == |p.sks| && p.coord < |p.sks| && net.published.None?
    requires SessionTweaks(c, p.v, net.devs[p.coord].index, p.taproot).Err? && Honest(c, p, net, events)
    ensures !Complete(c, p, After(c, p, net, events))
    decreases |events|
  {
    hide ValidSetup, NetOk, Enabled, Step, Fails, Complete, SessionTweaks;
    if events == [] {
      if Complete(c, p, net) { CompleteIsPublished(c, p, net); }
    } else {
      var e := events[0];
      if e.Builds? { BuildFails(c, p, net); }
      PublishedOnlyByBuilding(c, p, net, e);
      StepOk(c, p, net, e);
      StepKeepsIndex(c, p, net, e);
      NoTweaksNoCompletion(c, p, Step(c, p, net, e), events[1..]);
    }
  }

  lemma BuildsAgain(c: Crypto, p: Setup, net: Net)
    requires ValidSetup(c, p) && NetOk(c, p, net) && |net.devs| == |p.sks| && net.published.Some? && Enabled(c, p, net, Builds)
    ensures Step(c, p, net, Builds).published == net.published
  {
    hide DeviceOk, CollectionsOk, PublishedOk, SortedPks, DevicePks, NoncesComplete, Spend.BuildSession;
    var k := net.devs[p.coord];
    assert DeviceOk(c, p, k, p.sks[p.coord], net.published);
    BuiltSession(c, p, k, net.published);
    var (k', r) := Spend.BuildSession(c, k, p.v);
    if r.Ok? {
      assert net.published == Some(Broadcast(k'.msg, k'.index, r.value));
    }
  }

  /** What was published is not replaced. */
  lemma PublicationStays(c: Crypto, p: Setup, net: Net, e: Event)
    requires ValidSetup(c, p) && NetOk(c, p, net) && |net.devs| == |p.sks| && net.published.Some? && Enabled(c, p, net, e)
    ensures Step(c, p, net, e).published == net.published
  {
    hide *;
    PublishedOnlyByBuilding(c, p, net, e);
    if e.Builds? { BuildsAgain(c, p, net); }
  }

  lemma CompleteHasValues(c: Crypto, p: Setup, net: Net)
    requires ValidSetup(c, p) && NetOk(c, p, net) && Complete(c, p, net)
    ensures p.coord < |net.devs| && net.devs[p.coord].session.Some? && !NoValues(c, p, net)
  {
    CoordinatorSession(c, p, net);
    hide ValidSetup, NetOk, Complete, GetSessionValues;
  }

  lemma NoValuesIsPublished(c: Crypto, p: Setup, net: Net)
    requires ValidSetup(c, p) && NetOk(c, p, net) && p.coord < |net.devs| && NoValues(c, p, net)
    ensures net.published.Some?
  {
    hide IsPair, PublishedSession, Sign, DevicePk, CollectionsOk, PublishedOk, SortedPks, DevicePks, GetSessionValues;
    assert DeviceOk(c, p, net.devs[p.coord], p.sks[p.coord], net.published);
  }

  lemma SessionStays(c: Crypto, p: Setup, net: Net, e: Event)
    requires ValidSetup(c, p) && NetOk(c, p, net) && |net.devs| == |p.sks| && p.coord < |p.sks|
    requires Enabled(c, p, net, e) && NoValues(c, p, net)
    ensures NoValues(c, p, Step(c, p, net, e))
  {
    hide ValidSetup, NetOk, Enabled, Step, PublishedSession, GetSessionValues;
    NoValuesIsPublished(c, p, net);
    PublicationStays(c, p, net, e);
    StepOk(c, p, net, e);
    PublishedIsBuilt(c, p, net);
    PublishedIsBuilt(c, p, Step(c, p, net, e));
  }

  /** With a published session that has no values, no honest run completes. */
  lemma {:induction false} NoValuesNoCompletion(c: Crypto, p: Setup, net: Net, events: seq<Event>)
    requires ValidSetup(c, p) && NetOk(c, p, net) && |net.devs| == |p.sks| && p.coord < |p.sks|
    requires NoValues(c, p, net) && Honest(c, p, net, events)
    ensures !Complete(c, p, After(c, p, net, events))
    decreases |events|
  {
    hide ValidSetup, NetOk, Enabled, Step, Complete, NoValues;
    if events == [] {
      if Complete(c, p, net) { CompleteHasValues(c, p, net); }
    } else {
      StepOk(c, p, net, events[0]);
      SessionStays(c, p, net, events[0]);
      NoValuesNoCompletion(c, p, Step(c, p, net, events[0]), events[1..]);
    }
  }

  // ---- The whole run ----

  lemma {:induction false} RunKeepsIndex(c: Crypto, p: Setup, net: Net, events: seq<Event>)
    requires ValidSetup(c, p) && NetOk(c, p, net) && |net.devs| == |p.sks| && p.coord < |p.sks| && Honest(c, p, net, events)
    ensures After(c, p, net, events).devs[p.coord].index == net.devs[p.coord].index
    decreases |events|
  {
    hide ValidSetup, NetOk, Enabled, Step;
    if events != [] {
      StepOk(c, p, net, events[0]);
      StepKeepsIndex(c, p, net, events[0]);
      RunKeepsIndex(c, p, Step(c, p, net, events[0]), events[1..]);
    }
  }

  /**
   * From every orderly state, hence from every state an honest run reaches, with a taproot context at
   * the coordinator's index and randomness that gives the missing nonces: further honest steps lead to
   * a published session, and to the coordinator holding everything unless the coefficient hash of that
   * session is zero. Then finalize succeeds exactly when the run is healthy, and the signature verifies.
   */
  lemma RunsToTheEnd(c: Crypto, p: Setup, net: Net, rs: seq<Randomness>) returns (events: seq<Event>)
    requires ValidSetup(c, p) && NetOk(c, p, net) && |net.devs| == |p.sks| && p.coord < |p.sks|
    requires NonceWillExist(c, p, net, rs) && Taproot(c, p.v, net.devs[p.coord].index).Ok?
    ensures Honest(c, p, net, events)
    ensures var last := After(c, p, net, events);
            var k := last.devs[p.coord];
      && k.session.Some? && k.index == net.devs[p.coord].index
      && (Complete(c, p, last) <==> !ZeroCoefficient(c, k.session.value))
      && (Complete(c, p, last) ==>
            && GetSessionValues(c, k.session.value).Ok?
            && (Finalize(c, k, p.v).Ok? <==> Healthy(c, p, last))
            && (Finalize(c, k, p.v).Ok? ==>
                  SchnorrVerify(c, Finalize(c, k, p.v).value, VerifyKey(Taproot(c, p.v, k.index).value, p.taproot), k.msg)))
  {
    hide *;
    TaprootHasTweaks(c, p.v, net.devs[p.coord].index, p.taproot);
    events := CanComplete(c, p, net, rs);
    RunOk(c, p, net, events);
    RunKeepsIndex(c, p, net, events);
    EndOfRun(c, p, After(c, p, net, events));
  }

  lemma EndOfRun(c: Crypto, p: Setup, last: Net)
    requires ValidSetup(c, p) && NetOk(c, p, last) && |last.devs| == |p.sks| && p.coord < |p.sks|
    requires Complete(c, p, last) || NoValues(c, p, last)
    requires Taproot(c, p.v, last.devs[p.coord].index).Ok?
    ensures var k := last.devs[p.coord];
      && k.session.Some?
      && (Complete(c, p, last) <==> !ZeroCoefficient(c, k.session.value))
      && (Complete(c, p, last) ==>
            && GetSessionValues(c, k.session.value).Ok?
            && (Finalize(c, k, p.v).Ok? <==> Healthy(c, p, last))
            && (Finalize(c, k, p.v).Ok? ==>
                  SchnorrVerify(c, Finalize(c, k, p.v).value, VerifyKey(Taproot(c, p.v, k.index).value, p.taproot), k.msg)))
  {
    hide *;
    if Complete(c, p, last) {
      CompleteHasValues(c, p, last);
      CompleteIsPublished(c, p, last);
      FinalizeExactly(c, p, last);
    } else {
      NoValuesIsPublished(c, p, last);
    }
    ValuesExactly(c, p, last);
  }
}
