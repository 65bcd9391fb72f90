// The ceremony does not get stuck: from every orderly state honest steps lead on until the
// coordinator holds everything, or holds a session in which nothing can be signed.
module Progress {
  import opened Bytes
  import opened Curve
  import opened Signing
  import opened PartialSigs
  import opened NonceGen
  import opened Vault
  import opened Spend
  import opened Ceremony
  import opened EndToEnd
  import opened Failures

  // ---- What steps add ----

  ghost predicate DeviceGrows(d: State, d': State) {
    && (d.pubnonce.Some? ==> d'.pubnonce.Some?)
    && (d.session.Some? ==> d'.session.Some?)
    && (d.myPsig.Some? ==> d'.myPsig.Some?)
    && d.nonces <= d'.nonces && d.psigs <= d'.psigs
  }

  ghost predicate Grows(net: Net, net': Net) {
    && |net.devs| == |net'.devs|
    && (net.published.Some? ==> net'.published.Some?)
    && forall i :: 0 <= i < |net.devs| ==> DeviceGrows(net.devs[i], net'.devs[i])
  }

  lemma GenerateGrows(c: Crypto, d: State, rand: b32, sk: int, x: b32)
    requires InGroup(c, sk)
    ensures DeviceGrows(d, Spend.GenNonce(c, d, rand, sk, x).0)
  {
    hide Generate;
  }

  lemma AddGrows(d: State, pk: bytes, pn: b66, psig: nat)
    ensures DeviceGrows(d, Spend.AddPubnonce(d, pk, pn)) && DeviceGrows(d, Spend.AddPsig(d, pk, psig))
  {
    hide HasNonce, HasPsig;
  }

  lemma BuildGrows(c: Crypto, d: State, v: VaultConfig)
    ensures DeviceGrows(d, Spend.BuildSession(c, d, v).0)
  {
    hide NonceAgg, AllNonces, SessionFor;
  }

  lemma SetGrows(c: Crypto, d: State, b: Broadcast, v: VaultConfig)
    ensures DeviceGrows(d, Spend.SetSession(c, d, b.msg, b.index, b.aggnonce, v).0)
  {
    hide SessionFor;
  }

  lemma SignGrows(c: Crypto, d: State, sk: int)
    requires InGroup(c, sk)
    ensures DeviceGrows(d, Spend.SignPartial(c, d, sk).0)
  {
    hide Sign;
  }

  lemma OneGrows(net: Net, i: nat, d: State)
    requires i < |net.devs| && DeviceGrows(net.devs[i], d)
    ensures Grows(net, WithDevice(net, i, d))
  {
  }

  lemma StepGrows(c: Crypto, p: Setup, net: Net, e: Event)
    requires ValidSetup(c, p) && |net.devs| == |p.sks| && Enabled(c, p, net, e)
    ensures Grows(net, Step(c, p, net, e))
  {
    hide *;
    SetupParts(c, p);
    var d := StepChanges(c, p, net, e);
    var i := Actor(p, e);
    OneGrows(net, i, d);
    GrowsWithMore(net, WithDevice(net, i, d), Step(c, p, net, e));
  }

  lemma GrowsWithMore(net: Net, mid: Net, next: Net)
    requires Grows(net, mid) && next.devs == mid.devs && (mid.published.Some? ==> next.published.Some?)
    ensures Grows(net, next)
  {
  }

  /** The device whose state an event changes. */
  function Actor(p: Setup, e: Event): nat {
    match e
    case Generates(i, _, _) => i
    case Receives(i) => i
    case Signs(i) => i
    case _ => p.coord
  }

  lemma StepChanges(c: Crypto, p: Setup, net: Net, e: Event) returns (d: State)
    requires ValidSetup(c, p) && |net.devs| == |p.sks| && Enabled(c, p, net, e)
    ensures Actor(p, e) < |net.devs| && DeviceGrows(net.devs[Actor(p, e)], d)
    ensures Step(c, p, net, e).devs == WithDevice(net, Actor(p, e), d).devs
    ensures net.published.Some? ==> Step(c, p, net, e).published.Some?
    ensures WithDevice(net, Actor(p, e), d).published == net.published
  {
    hide ValidSetup, Spend.GenNonce, Spend.AddPubnonce, Spend.BuildSession, Spend.SetSession, Spend.SignPartial, Spend.AddPsig,
      DeviceGrows, HasNonce, HasPsig, NoncesComplete, DevicePk, KeysInGroup;
    SetupParts(c, p);
    d := Step(c, p, net, e).devs[Actor(p, e)];
    match e
    case Generates(i, rand, aggX) => GenerateGrows(c, net.devs[i], rand, p.sks[i], aggX);
    case NonceScanned(i) => AddGrows(net.devs[p.coord], DevicePk(c, p.sks[i]), net.devs[i].pubnonce.value, 0);
    case Builds => BuildGrows(c, net.devs[p.coord], p.v);
    case Receives(i) => SetGrows(c, net.devs[i], net.published.value, p.v);
    case Signs(i) => SignGrows(c, net.devs[i], p.sks[i]);
    case PsigScanned(i) => AddGrows(net.devs[p.coord], DevicePk(c, p.sks[i]), Zeros(66), net.devs[i].myPsig.value);
  }

  // ---- What is still to be done ----

  datatype Goal = Generated | Scanned | Published | Received | Signed | SignatureScanned

  ghost predicate Has(c: Crypto, p: Setup, net: Net, i: nat, g: Goal)
    requires ValidSetup(c, p) && |net.devs| == |p.sks| && i < |p.sks|
  {
    var k := net.devs[p.coord];
    match g
    case Generated => net.devs[i].pubnonce.Some?
    case Scanned => i == p.coord || HasNonce(k.nonces, DevicePk(c, p.sks[i]))
    case Published => net.published.Some?
    case Received => net.devs[i].session.Some?
    case Signed => net.devs[i].myPsig.Some?
    case SignatureScanned => i == p.coord || HasPsig(k.psigs, DevicePk(c, p.sks[i]))
  }

  ghost predicate AllHave(c: Crypto, p: Setup, net: Net, g: Goal)
    requires ValidSetup(c, p) && |net.devs| == |p.sks|
  {
    forall i :: 0 <= i < |p.sks| ==> Has(c, p, net, i, g)
  }

  lemma PrefixHasNonce(xs: seq<NonceEntry>, ys: seq<NonceEntry>, pk: bytes)
    requires xs <= ys && HasNonce(xs, pk)
    ensures HasNonce(ys, pk)
  {
    var i :| 0 <= i < |xs| && xs[i].pk == pk;
    assert ys[i].pk == pk;
  }

  lemma PrefixHasPsig(xs: seq<PsigEntry>, ys: seq<PsigEntry>, pk: bytes)
    requires xs <= ys && HasPsig(xs, pk)
    ensures HasPsig(ys, pk)
  {
    var i :| 0 <= i < |xs| && xs[i].pk == pk;
    assert ys[i].pk == pk;
  }

  lemma HasIsKept(c: Crypto, p: Setup, net: Net, net': Net, i: nat, g: Goal)
    requires ValidSetup(c, p) && |net.devs| == |p.sks| && i < |p.sks| && Grows(net, net')
    requires Has(c, p, net, i, g)
    ensures Has(c, p, net', i, g)
  {
    assert DeviceGrows(net.devs[i], net'.devs[i]) && DeviceGrows(net.devs[p.coord], net'.devs[p.coord]);
    hide ValidSetup, Grows, HasNonce, HasPsig, DevicePk;
    if i != p.coord {
      if g == Scanned {
        PrefixHasNonce(net.devs[p.coord].nonces, net'.devs[p.coord].nonces, DevicePk(c, p.sks[i]));
      }
      if g == SignatureScanned {
        PrefixHasPsig(net.devs[p.coord].psigs, net'.devs[p.coord].psigs, DevicePk(c, p.sks[i]));
      }
    }
  }

  lemma AllHaveIsComplete(c: Crypto, p: Setup, net: Net)
    requires ValidSetup(c, p) && |net.devs| == |p.sks|
    requires AllHave(c, p, net, Generated) && AllHave(c, p, net, Scanned)
    requires AllHave(c, p, net, Signed) && AllHave(c, p, net, SignatureScanned)
    ensures Complete(c, p, net)
  {
    hide ValidSetup, HasNonce, HasPsig, DevicePk, KeysInGroup;
    SetupParts(c, p);
    assert Has(c, p, net, p.coord, Generated) && Has(c, p, net, p.coord, Signed);
    forall i | 0 <= i < |p.sks| && i != p.coord
      ensures HasNonce(net.devs[p.coord].nonces, DevicePk(c, p.sks[i]))
      ensures HasPsig(net.devs[p.coord].psigs, DevicePk(c, p.sks[i]))
    {
      assert Has(c, p, net, i, Scanned) && Has(c, p, net, i, SignatureScanned);
    }
  }

  /** What a device hashes into its nonce: its random bytes, and the aggregate key it was given. */
  datatype Randomness = Randomness(rand: b32, aggX: b32)

  /** The event that would reach a goal for a device. */
  function EventFor(i: nat, g: Goal, r: Randomness): Event {
    match g
    case Generated => Generates(i, r.rand, r.aggX)
    case Scanned => NonceScanned(i)
    case Published => Builds
    case Received => Receives(i)
    case Signed => Signs(i)
    case SignatureScanned => PsigScanned(i)
  }

  /** The goals a goal builds on are reached by all devices. */
  ghost predicate Ready(c: Crypto, p: Setup, net: Net, g: Goal)
    requires ValidSetup(c, p) && |net.devs| == |p.sks|
  {
    match g
    case Generated => true
    case Scanned => AllHave(c, p, net, Generated)
    case Published => AllHave(c, p, net, Generated) && AllHave(c, p, net, Scanned)
    case Received => AllHave(c, p, net, Generated) && AllHave(c, p, net, Published)
    case Signed => AllHave(c, p, net, Generated) && AllHave(c, p, net, Received)
    case SignatureScanned => AllHave(c, p, net, Signed)
  }

  lemma DevicesHavePairs(c: Crypto, p: Setup, net: Net, i: nat)
    requires ValidSetup(c, p) && NetOk(c, p, net) && i < |p.sks|
    ensures |net.devs| == |p.sks| && (net.devs[i].pubnonce.Some? ==> net.devs[i].secnonce.Some?)
  {
    hide IsPair, PublishedSession, Sign, DevicePk, CollectionsOk, PublishedOk, SortedPks, DevicePks;
    assert DeviceOk(c, p, net.devs[i], p.sks[i], net.published);
  }

  lemma ReadyIsEnabled(c: Crypto, p: Setup, net: Net, i: nat, g: Goal, r: Randomness)
    requires ValidSetup(c, p) && NetOk(c, p, net) && i < |p.sks|
    requires Ready(c, p, net, g) && !Has(c, p, net, i, g)
    ensures Enabled(c, p, net, EventFor(i, g, r))
  {
    hide ValidSetup, NetOk, HasNonce, HasPsig, DevicePk, KeysInGroup;
    SetupParts(c, p);
    DevicesHavePairs(c, p, net, i);
    match g
    case Generated =>
    case Scanned => assert Has(c, p, net, i, Generated);
    case Published =>
      assert Has(c, p, net, p.coord, Generated);
      forall j | 0 <= j < |p.sks| && j != p.coord
        ensures HasNonce(net.devs[p.coord].nonces, DevicePk(c, p.sks[j]))
      {
        assert Has(c, p, net, j, Scanned);
      }
    case Received => assert Has(c, p, net, i, Published);
    case Signed => assert Has(c, p, net, i, Generated) && Has(c, p, net, i, Received);
    case SignatureScanned => assert Has(c, p, net, i, Signed);
  }

  lemma AddedIsHad(k: State, pk: bytes, pn: b66, psig: nat)
    ensures HasNonce(AddPubnonce(k, pk, pn).nonces, pk)
    ensures HasPsig(AddPsig(k, pk, psig).psigs, pk)
  {
    var xs, ys := AddPubnonce(k, pk, pn).nonces, AddPsig(k, pk, psig).psigs;
    if !HasNonce(k.nonces, pk) { assert xs[|xs| - 1].pk == pk; }
    if !HasPsig(k.psigs, pk) { assert ys[|ys| - 1].pk == pk; }
  }

  /** An event reaches its goal, or its call fails. */
  lemma EventReachesGoal(c: Crypto, p: Setup, net: Net, i: nat, g: Goal, r: Randomness)
    requires ValidSetup(c, p) && |net.devs| == |p.sks| && i < |p.sks| && Enabled(c, p, net, EventFor(i, g, r))
    ensures Fails(c, p, net, EventFor(i, g, r)) || Has(c, p, Step(c, p, net, EventFor(i, g, r)), i, g)
  {
    hide ValidSetup, Generate, NonceAgg, SessionFor, Sign, HasNonce, HasPsig, NoncesComplete, DevicePk, AddPubnonce, AddPsig,
      KeysInGroup;
    SetupParts(c, p);
    if g == Scanned {
      AddedIsHad(net.devs[p.coord], DevicePk(c, p.sks[i]), net.devs[i].pubnonce.value, 0);
    }
    if g == SignatureScanned {
      AddedIsHad(net.devs[p.coord], DevicePk(c, p.sks[i]), Zeros(66), net.devs[i].myPsig.value);
    }
  }

  /** In an incomplete state some goal is open and everything it builds on is done. */
  lemma OpenGoal(c: Crypto, p: Setup, net: Net) returns (i: nat, g: Goal)
    requires ValidSetup(c, p) && |net.devs| == |p.sks| && !Complete(c, p, net)
    ensures i < |p.sks| && Ready(c, p, net, g) && !Has(c, p, net, i, g)
  {
    hide ValidSetup, Has, Complete;
    if !AllHave(c, p, net, Generated) { g := Generated; }
    else if !AllHave(c, p, net, Scanned) { g := Scanned; }
    else if !AllHave(c, p, net, Published) { g := Published; }
    else if !AllHave(c, p, net, Received) { g := Received; }
    else if !AllHave(c, p, net, Signed) { g := Signed; }
    else {
      if AllHave(c, p, net, SignatureScanned) { AllHaveIsComplete(c, p, net); }
      g := SignatureScanned;
    }
    i :| 0 <= i < |p.sks| && !Has(c, p, net, i, g);
  }

  // ---- Completion ----

  ghost function Open(c: Crypto, p: Setup, net: Net): set<(nat, Goal)>
    requires ValidSetup(c, p) && |net.devs| == |p.sks|
  {
    set i: nat, g: Goal | i < |p.sks| && !Has(c, p, net, i, g) :: (i, g)
  }

  lemma SmallerSet<T>(a: set<T>, b: set<T>, x: T)
    requires a <= b && x in b && x !in a
    ensures |a| < |b|
  {
    assert a <= b - {x};
    SubsetSize(a, b - {x});
  }

  lemma {:induction false} SubsetSize<T>(a: set<T>, b: set<T>)
    requires a <= b
    ensures |a| <= |b|
    decreases a
  {
    if a != {} {
      var x :| x in a;
      SubsetSize(a - {x}, b - {x});
    }
  }

  lemma FewerOpen(c: Crypto, p: Setup, net: Net, net': Net, i: nat, g: Goal)
    requires ValidSetup(c, p) && |net.devs| == |p.sks| && i < |p.sks| && Grows(net, net')
    requires !Has(c, p, net, i, g) && Has(c, p, net', i, g)
    ensures |Open(c, p, net')| < |Open(c, p, net)|
  {
    assert |net'.devs| == |net.devs|;
    hide ValidSetup, Has, Grows;
    forall j: nat, h | j < |p.sks| && !Has(c, p, net', j, h)
      ensures !Has(c, p, net, j, h)
    {
      if Has(c, p, net, j, h) { HasIsKept(c, p, net, net', j, h); }
    }
    SmallerSet(Open(c, p, net'), Open(c, p, net), (i, g));
  }

  // ---- What stays as it is ----

  /** No device that has yet to generate its nonce hashes the given randomness to a zero scalar. */
  ghost predicate NonceWillExist(c: Crypto, p: Setup, net: Net, rs: seq<Randomness>)
    requires ValidSetup(c, p) && |net.devs| == |p.sks|
  {
    && |rs| == |p.sks|
    && forall i :: 0 <= i < |p.sks| && net.devs[i].pubnonce.None? && InGroup(c, p.sks[i]) ==>
         !ZeroNonce(c, net.devs[i], p.sks[i], rs[i].rand, rs[i].aggX)
  }

  lemma StepKeepsText(c: Crypto, p: Setup, net: Net, e: Event)
    requires ValidSetup(c, p) && |net.devs| == |p.sks| && Enabled(c, p, net, e)
    ensures forall i :: 0 <= i < |p.sks| ==> Step(c, p, net, e).devs[i].myPk == net.devs[i].myPk
    ensures !e.Receives? ==>
      forall i :: 0 <= i < |p.sks| ==>
        Step(c, p, net, e).devs[i].msg == net.devs[i].msg && Step(c, p, net, e).devs[i].index == net.devs[i].index
  {
    hide ValidSetup, Generate, NonceAgg, AllNonces, SessionFor, Sign, HasNonce, HasPsig, NoncesComplete, DevicePk, KeysInGroup;
    SetupParts(c, p);
  }

  lemma SameZeroNonce(c: Crypto, d: State, d': State, sk: int, r: Randomness)
    requires InGroup(c, sk) && d'.myPk == d.myPk && d'.msg == d.msg
    ensures ZeroNonce(c, d, sk, r.rand, r.aggX) <==> ZeroNonce(c, d', sk, r.rand, r.aggX)
  {
    hide NonceScalar, MaskedRand;
  }

  lemma GrowsAt(net: Net, net': Net, i: nat)
    requires Grows(net, net') && i < |net.devs|
    ensures |net'.devs| == |net.devs| && (net'.devs[i].pubnonce.None? ==> net.devs[i].pubnonce.None?)
  {
  }

  lemma GeneratedAt(c: Crypto, p: Setup, net: Net, i: nat)
    requires ValidSetup(c, p) && |net.devs| == |p.sks| && i < |p.sks| && AllHave(c, p, net, Generated)
    ensures net.devs[i].pubnonce.Some?
  {
    hide ValidSetup;
    assert Has(c, p, net, i, Generated);
  }

  lemma NonceStillWillExist(c: Crypto, p: Setup, net: Net, e: Event, rs: seq<Randomness>)
    requires ValidSetup(c, p) && |net.devs| == |p.sks| && Enabled(c, p, net, e) && NonceWillExist(c, p, net, rs)
    requires e.Receives? ==> AllHave(c, p, net, Generated)
    ensures NonceWillExist(c, p, Step(c, p, net, e), rs)
  {
    hide ValidSetup, Enabled, Step, Grows, AllHave, ZeroNonce;
    StepKeepsText(c, p, net, e);
    StepGrows(c, p, net, e);
    var next := Step(c, p, net, e);
    forall i | 0 <= i < |p.sks| && next.devs[i].pubnonce.None? && InGroup(c, p.sks[i])
      ensures !ZeroNonce(c, next.devs[i], p.sks[i], rs[i].rand, rs[i].aggX)
    {
      GrowsAt(net, next, i);
      if e.Receives? {
        GeneratedAt(c, p, net, i);
      } else {
        SameZeroNonce(c, net.devs[i], next.devs[i], p.sks[i], rs[i]);
      }
    }
  }

  lemma SetIndex(c: Crypto, d: State, b: Broadcast, v: VaultConfig)
    ensures Spend.SetSession(c, d, b.msg, b.index, b.aggnonce, v).0.index == b.index
  {
    hide SessionFor;
  }

  lemma ReceiveChanges(c: Crypto, p: Setup, net: Net, i: nat)
    requires ValidSetup(c, p) && |net.devs| == |p.sks| && Enabled(c, p, net, Receives(i))
    ensures i < |p.sks| && net.published.Some?
    ensures forall j :: 0 <= j < |p.sks| ==>
      Step(c, p, net, Receives(i)).devs[j].index == if j == i then net.published.value.index else net.devs[j].index
  {
    hide ValidSetup, Spend.SetSession;
    SetIndex(c, net.devs[i], net.published.value, p.v);
  }

  lemma ReceivedIndex(c: Crypto, p: Setup, net: Net, i: nat)
    requires ValidSetup(c, p) && NetOk(c, p, net) && |net.devs| == |p.sks| && Enabled(c, p, net, Receives(i))
    ensures p.coord < |p.sks| && Step(c, p, net, Receives(i)).devs[p.coord].index == net.devs[p.coord].index
  {
    hide *;
    ReceiveChanges(c, p, net, i);
    PublishedIsBuilt(c, p, net);
  }

  /** The coordinator's index is settled from the start. */
  lemma StepKeepsIndex(c: Crypto, p: Setup, net: Net, e: Event)
    requires ValidSetup(c, p) && NetOk(c, p, net) && |net.devs| == |p.sks| && Enabled(c, p, net, e)
    ensures p.coord < |p.sks| && Step(c, p, net, e).devs[p.coord].index == net.devs[p.coord].index
  {
    hide *;
    SetupParts(c, p);
    if e.Receives? {
      ReceivedIndex(c, p, net, e.i);
    } else {
      StepKeepsText(c, p, net, e);
    }
  }

  // ---- The run to the end ----

  /** The session every device got has no values: nothing can be signed in it. */
  ghost predicate NoValues(c: Crypto, p: Setup, net: Net)
    requires p.coord < |net.devs|
  {
    net.devs[p.coord].session.Some? && GetSessionValues(c, net.devs[p.coord].session.value).Err?
  }

  /** The step towards an open goal fails only where the session has no values. */
  lemma OnlySigningFails(c: Crypto, p: Setup, net: Net, i: nat, g: Goal, rs: seq<Randomness>)
    requires ValidSetup(c, p) && NetOk(c, p, net) && |net.devs| == |p.sks| == |rs| && i < |p.sks| && p.coord < |p.sks|
    requires !Has(c, p, net, i, g) && Enabled(c, p, net, EventFor(i, g, rs[i])) && NonceWillExist(c, p, net, rs)
    requires SessionTweaks(c, p.v, net.devs[p.coord].index, p.taproot).Ok?
    ensures Fails(c, p, net, EventFor(i, g, rs[i])) ==> NoValues(c, p, net)
  {
    hide ValidSetup, NetOk, Enabled, Fails, SessionTweaks, ZeroNonce, GetSessionValues, HasNonce, HasPsig, KeysInGroup;
    SetupParts(c, p);
    match g
    case Generated => GenerateFails(c, p, net, i, rs[i].rand, rs[i].aggX);
    case Scanned => ScansSucceed(c, p, net, i);
    case Published => BuildFails(c, p, net);
    case Received => ReceiveSucceeds(c, p, net, i);
    case Signed =>
      SignFails(c, p, net, i);
      OneSession(c, p, net, i);
    case SignatureScanned => ScansSucceed(c, p, net, i);
  }

  lemma ScansSucceed(c: Crypto, p: Setup, net: Net, i: nat)
    requires ValidSetup(c, p) && |net.devs| == |p.sks|
    ensures Enabled(c, p, net, NonceScanned(i)) ==> !Fails(c, p, net, NonceScanned(i))
    ensures Enabled(c, p, net, PsigScanned(i)) ==> !Fails(c, p, net, PsigScanned(i))
  {
    hide ValidSetup;
  }

  lemma OneSession(c: Crypto, p: Setup, net: Net, i: nat)
    requires ValidSetup(c, p) && NetOk(c, p, net) && i < |p.sks| && net.devs[i].session.Some?
    ensures |net.devs| == |p.sks| && p.coord < |p.sks| && net.published.Some?
    ensures net.devs[p.coord].session == net.devs[i].session
  {
    hide IsPair, PublishedSession, Sign, DevicePk, CollectionsOk, SortedPks, DevicePks, NoncesComplete, NonceAgg, AllNonces;
    assert DeviceOk(c, p, net.devs[i], p.sks[i], net.published);
    assert DeviceOk(c, p, net.devs[p.coord], p.sks[p.coord], net.published);
  }

  lemma EventKind(i: nat, g: Goal, r: Randomness)
    ensures EventFor(i, g, r).Receives? <==> g == Received
  {
  }

  lemma ReadyToReceive(c: Crypto, p: Setup, net: Net)
    requires ValidSetup(c, p) && |net.devs| == |p.sks| && Ready(c, p, net, Received)
    ensures AllHave(c, p, net, Generated)
  {
    hide ValidSetup, AllHave;
  }

  /**
   * From every orderly state, if the vault has tweaks for the coordinator's index and the devices'
   * randomness gives nonces, further honest steps lead to the coordinator holding everything, or to a
   * published session that has no values.
   */
  lemma CanComplete(c: Crypto, p: Setup, net: Net, rs: seq<Randomness>) returns (events: seq<Event>)
    requires ValidSetup(c, p) && NetOk(c, p, net) && |net.devs| == |p.sks| && p.coord < |p.sks|
    requires NonceWillExist(c, p, net, rs) && SessionTweaks(c, p.v, net.devs[p.coord].index, p.taproot).Ok?
    ensures Honest(c, p, net, events)
    ensures Complete(c, p, After(c, p, net, events)) || NoValues(c, p, After(c, p, net, events))
    decreases |Open(c, p, net)|
  {
    assert |rs| == |p.sks|;
    hide ValidSetup, NetOk, Has, Complete, Step, Enabled, Fails, Open, Ready, Grows, EventFor, NonceWillExist, SessionTweaks,
      NoValues, AllHave;
    if Complete(c, p, net) || NoValues(c, p, net) {
      return [];
    }
    var i, g := OpenGoal(c, p, net);
    var e := EventFor(i, g, rs[i]);
    ReadyIsEnabled(c, p, net, i, g, rs[i]);
    EventReachesGoal(c, p, net, i, g, rs[i]);
    OnlySigningFails(c, p, net, i, g, rs);
    StepOk(c, p, net, e);
    StepGrows(c, p, net, e);
    FewerOpen(c, p, net, Step(c, p, net, e), i, g);
    EventKind(i, g, rs[i]);
    if g == Received { ReadyToReceive(c, p, net); }
    NonceStillWillExist(c, p, net, e, rs);
    StepKeepsIndex(c, p, net, e);
    var rest := CanComplete(c, p, Step(c, p, net, e), rs);
    events := [e] + rest;
    assert events[1..] == rest;
  }
}
