// The signing ceremony: several devices holding the same vault, one of them the coordinator,
// taking honest steps in any order, and what the coordinator's finalize then answers.
module Ceremony {
  import opened Wrappers
  import opened Bytes
  import opened Curve
  import opened Signing
  import opened PartialSigs
  import opened NonceGen
  import opened Vault
  import opened Spend

  /** The vault, the devices' secret keys, which device coordinates, and the mode. */
  datatype Setup = Setup(v: VaultConfig, sks: seq<int>, coord: nat, taproot: bool)

  function DevicePk(c: Crypto, sk: int): (pk: b33)
    requires InGroup(c, sk)
  {
    SerParts(c, sk);
    Ser(c, sk)
  }

  ghost predicate KeysInGroup(c: Crypto, sks: seq<int>) {
    forall i :: 0 <= i < |sks| ==> InGroup(c, sks[i])
  }

  ghost function DevicePks(c: Crypto, sks: seq<int>): (pks: seq<bytes>)
    requires KeysInGroup(c, sks)
    ensures |pks| == |sks|
  {
    seq(|sks|, i requires 0 <= i < |sks| => DevicePk(c, sks[i]))
  }

  /** At least two devices with different keys, which are the vault's participants. */
  ghost predicate ValidSetup(c: Crypto, p: Setup) {
    && |p.sks| >= 2 && p.coord < |p.sks| && KeysInGroup(c, p.sks)
    && (forall i, j :: 0 <= i < j < |p.sks| ==> p.sks[i] != p.sks[j])
    && SortedPks(c, p.v).Ok? && multiset(SortedPks(c, p.v).value) == multiset(DevicePks(c, p.sks))
  }

  /** What the coordinator shows every other device after round 2. */
  datatype Broadcast = Broadcast(msg: bytes, index: nat, aggnonce: b66)

  datatype Net = Net(devs: seq<State>, published: Option<Broadcast>)

  datatype Event =
    | Generates(i: nat, rand: b32, aggX: b32)   // a device generates its nonce
    | NonceScanned(i: nat)                      // the coordinator scans a device's nonce
    | Builds                                    // the coordinator builds the session and shows it
    | Receives(i: nat)                          // a device scans the session
    | Signs(i: nat)                             // a device signs
    | PsigScanned(i: nat)                       // the coordinator scans a partial signature

  /** A device starts with any message and index of its own, in the ceremony's mode. */
  ghost predicate Start(c: Crypto, p: Setup, net: Net)
    requires KeysInGroup(c, p.sks)
  {
    && |net.devs| == |p.sks| && net.published.None?
    && forall i :: 0 <= i < |p.sks| ==>
         net.devs[i] == New(net.devs[i].msg, net.devs[i].index, DevicePk(c, p.sks[i]), p.taproot)
  }

  /** The coordinator holds the nonce of every other device. */
  ghost predicate NoncesComplete(c: Crypto, p: Setup, k: State)
    requires KeysInGroup(c, p.sks)
  {
    forall i :: 0 <= i < |p.sks| && i != p.coord ==> HasNonce(k.nonces, DevicePk(c, p.sks[i]))
  }

  ghost predicate PsigsComplete(c: Crypto, p: Setup, k: State)
    requires KeysInGroup(c, p.sks)
  {
    forall i :: 0 <= i < |p.sks| && i != p.coord ==> HasPsig(k.psigs, DevicePk(c, p.sks[i]))
  }

  /** What a step needs to be taken at all. */
  predicate CanStep(p: Setup, net: Net, e: Event)
    requires |net.devs| == |p.sks| && p.coord < |p.sks|
  {
    match e
    case Generates(i, _, _) => i < |p.sks| && net.devs[i].pubnonce.None?
    case NonceScanned(i) => i < |p.sks| && i != p.coord && net.devs[i].pubnonce.Some?
    case Builds => net.devs[p.coord].pubnonce.Some?
    case Receives(i) => i < |p.sks| && net.published.Some?
    case Signs(i) => i < |p.sks| && net.devs[i].session.Some? && net.devs[i].secnonce.Some?
    case PsigScanned(i) => i < |p.sks| && i != p.coord && net.devs[i].myPsig.Some?
  }

  /** The honest steps: the coordinator builds the session once it holds all nonces. */
  ghost predicate Enabled(c: Crypto, p: Setup, net: Net, e: Event)
    requires ValidSetup(c, p) && |net.devs| == |p.sks|
  {
    CanStep(p, net, e) && (e.Builds? ==> NoncesComplete(c, p, net.devs[p.coord]))
  }

  function WithDevice(net: Net, i: nat, d: State): (next: Net)
    requires i < |net.devs|
    ensures |next.devs| == |net.devs|
  {
    net.(devs := net.devs[i := d])
  }

  /** The network after a step in which building and receiving use the vault v. */
  function Move(c: Crypto, p: Setup, v: VaultConfig, net: Net, e: Event): (next: Net)
    requires |net.devs| == |p.sks| && p.coord < |p.sks| && CanStep(p, net, e)
    requires forall i :: 0 <= i < |p.sks| ==> InGroup(c, p.sks[i])
    ensures |next.devs| == |p.sks|
  {
    match e
    case Generates(i, rand, aggX) =>
      WithDevice(net, i, Spend.GenNonce(c, net.devs[i], rand, p.sks[i], aggX).0)
    case NonceScanned(i) =>
      WithDevice(net, p.coord,
                 Spend.AddPubnonce(net.devs[p.coord], DevicePk(c, p.sks[i]), net.devs[i].pubnonce.value))
    case Builds =>
      var (k, r) := Spend.BuildSession(c, net.devs[p.coord], v);
      var after := WithDevice(net, p.coord, k);
      if r.Err? then after else after.(published := Some(Broadcast(k.msg, k.index, r.value)))
    case Receives(i) =>
      var b := net.published.value;
      WithDevice(net, i, Spend.SetSession(c, net.devs[i], b.msg, b.index, b.aggnonce, v).0)
    case Signs(i) =>
      WithDevice(net, i, Spend.SignPartial(c, net.devs[i], p.sks[i]).0)
    case PsigScanned(i) =>
      WithDevice(net, p.coord,
                 Spend.AddPsig(net.devs[p.coord], DevicePk(c, p.sks[i]), net.devs[i].myPsig.value))
  }

  ghost function Step(c: Crypto, p: Setup, net: Net, e: Event): (next: Net)
    requires ValidSetup(c, p) && |net.devs| == |p.sks| && Enabled(c, p, net, e)
    ensures |next.devs| == |p.sks|
  {
    Move(c, p, p.v, net, e)
  }

  /** A run of honest steps. */
  ghost predicate Honest(c: Crypto, p: Setup, net: Net, events: seq<Event>)
    requires ValidSetup(c, p) && |net.devs| == |p.sks|
    decreases |events|
  {
    events == [] || (Enabled(c, p, net, events[0]) && Honest(c, p, Step(c, p, net, events[0]), events[1..]))
  }

  ghost function After(c: Crypto, p: Setup, net: Net, events: seq<Event>): (last: Net)
    requires ValidSetup(c, p) && |net.devs| == |p.sks| && Honest(c, p, net, events)
    ensures |last.devs| == |p.sks|
    decreases |events|
  {
    if events == [] then net else After(c, p, Step(c, p, net, events[0]), events[1..])
  }

  // ---- What every honest step keeps ----

  /** The session every device arrives at from what was published. */
  function PublishedSession(c: Crypto, p: Setup, b: Broadcast): Result<SessionContext, VaultError> {
    SessionFor(c, p.v, b.msg, b.index, p.taproot, b.aggnonce)
  }

  /** A device's own data: a matching nonce pair, the published session, and a partial signature
      made from both. */
  ghost predicate DeviceOk(c: Crypto, p: Setup, d: State, sk: int, published: Option<Broadcast>)
    requires InGroup(c, sk)
  {
    && d.myPk == DevicePk(c, sk) && d.taproot == p.taproot
    && (d.secnonce.Some? <==> d.pubnonce.Some?)
    && (d.secnonce.Some? ==> IsPair(c, d.myPk, d.secnonce.value, d.pubnonce.value))
    && (d.session.Some? ==> published.Some? && PublishedSession(c, p, published.value) == Ok(d.session.value))
    && (d.myPsig.Some? ==> d.session.Some? && d.secnonce.Some?
                           && Sign(c, d.secnonce.value, sk, d.session.value) == Ok(d.myPsig.value))
  }

  /** A collected nonce is the one the device with that key generated. */
  ghost predicate NonceIsFrom(c: Crypto, p: Setup, devs: seq<State>, e: NonceEntry)
    requires KeysInGroup(c, p.sks) && |devs| == |p.sks|
  {
    exists i :: 0 <= i < |p.sks| && i != p.coord && NonceOfDevice(c, p, devs, e, i)
  }

  ghost predicate NonceOfDevice(c: Crypto, p: Setup, devs: seq<State>, e: NonceEntry, i: nat)
    requires KeysInGroup(c, p.sks) && |devs| == |p.sks| && i < |p.sks|
  {
    e.pk == DevicePk(c, p.sks[i]) && devs[i].pubnonce == Some(e.pn)
  }

  ghost predicate PsigIsFrom(c: Crypto, p: Setup, devs: seq<State>, e: PsigEntry)
    requires KeysInGroup(c, p.sks) && |devs| == |p.sks|
  {
    exists i :: 0 <= i < |p.sks| && i != p.coord && PsigOfDevice(c, p, devs, e, i)
  }

  ghost predicate PsigOfDevice(c: Crypto, p: Setup, devs: seq<State>, e: PsigEntry, i: nat)
    requires KeysInGroup(c, p.sks) && |devs| == |p.sks| && i < |p.sks|
  {
    e.pk == DevicePk(c, p.sks[i]) && devs[i].myPsig == Some(e.psig)
  }

  ghost predicate CollectionsOk(c: Crypto, p: Setup, devs: seq<State>)
    requires KeysInGroup(c, p.sks) && |devs| == |p.sks| && p.coord < |p.sks|
  {
    var k := devs[p.coord];
    && DistinctNonces(k.nonces) && DistinctPsigs(k.psigs)
    && (forall e :: e in k.nonces ==> NonceIsFrom(c, p, devs, e))
    && (forall e :: e in k.psigs ==> PsigIsFrom(c, p, devs, e))
  }

  /** What was published is the aggregate of all nonces, which are all collected by then, and the
      coordinator holds its own session. */
  ghost predicate PublishedOk(c: Crypto, p: Setup, k: State, published: Option<Broadcast>)
    requires KeysInGroup(c, p.sks)
  {
    published.Some? ==>
      && k.pubnonce.Some? && k.session.Some? && NoncesComplete(c, p, k)
      && NonceAgg(c, AllNonces(k)) == Ok(published.value.aggnonce)
      && k.msg == published.value.msg && k.index == published.value.index
  }

  ghost predicate NetOk(c: Crypto, p: Setup, net: Net)
    requires ValidSetup(c, p)
  {
    && |net.devs| == |p.sks|
    && (forall i :: 0 <= i < |p.sks| ==> DeviceOk(c, p, net.devs[i], p.sks[i], net.published))
    && CollectionsOk(c, p, net.devs)
    && PublishedOk(c, p, net.devs[p.coord], net.published)
  }

  lemma StartIsOk(c: Crypto, p: Setup, net: Net)
    requires ValidSetup(c, p) && Start(c, p, net)
    ensures NetOk(c, p, net)
  {
    hide SortedPks, DevicePk;
    forall i | 0 <= i < |p.sks|
      ensures DeviceOk(c, p, net.devs[i], p.sks[i], net.published)
    {
    }
  }

  /** Changing a device without touching its nonce or its partial signature once they are set
      leaves everything the coordinator collected in place. */
  ghost predicate Extends(d: State, d': State) {
    && (d.pubnonce.Some? ==> d'.pubnonce == d.pubnonce)
    && (d.myPsig.Some? ==> d'.myPsig == d.myPsig)
  }

  lemma CollectionsSurvive(c: Crypto, p: Setup, devs: seq<State>, i: nat, d: State)
    requires ValidSetup(c, p) && |devs| == |p.sks| && i < |p.sks|
    requires CollectionsOk(c, p, devs) && Extends(devs[i], d)
    requires i == p.coord ==> d.nonces == devs[i].nonces && d.psigs == devs[i].psigs
    ensures CollectionsOk(c, p, devs[i := d])
  {
    hide SortedPks, DevicePks, DevicePk, DistinctNonces, DistinctPsigs, Extends;
    var devs' := devs[i := d];
    var k, k' := devs[p.coord], devs'[p.coord];
    assert k'.nonces == k.nonces && k'.psigs == k.psigs;
    forall e | e in k'.nonces
      ensures NonceIsFrom(c, p, devs', e)
    {
      NonceSurvives(c, p, devs, i, d, e);
    }
    forall e | e in k'.psigs
      ensures PsigIsFrom(c, p, devs', e)
    {
      PsigSurvives(c, p, devs, i, d, e);
    }
  }

  lemma NonceSurvives(c: Crypto, p: Setup, devs: seq<State>, i: nat, d: State, e: NonceEntry)
    requires KeysInGroup(c, p.sks) && |devs| == |p.sks| && i < |p.sks|
    requires NonceIsFrom(c, p, devs, e) && Extends(devs[i], d)
    ensures NonceIsFrom(c, p, devs[i := d], e)
  {
    hide DevicePk;
    var j :| 0 <= j < |p.sks| && j != p.coord && NonceOfDevice(c, p, devs, e, j);
    assert NonceOfDevice(c, p, devs[i := d], e, j);
  }

  lemma PsigSurvives(c: Crypto, p: Setup, devs: seq<State>, i: nat, d: State, e: PsigEntry)
    requires KeysInGroup(c, p.sks) && |devs| == |p.sks| && i < |p.sks|
    requires PsigIsFrom(c, p, devs, e) && Extends(devs[i], d)
    ensures PsigIsFrom(c, p, devs[i := d], e)
  {
    hide DevicePk;
    var j :| 0 <= j < |p.sks| && j != p.coord && PsigOfDevice(c, p, devs, e, j);
    assert PsigOfDevice(c, p, devs[i := d], e, j);
  }

  /** An honest step of one device on its own data. */
  lemma OwnStep(c: Crypto, p: Setup, net: Net, i: nat, d: State)
    requires ValidSetup(c, p) && NetOk(c, p, net) && i < |p.sks|
    requires DeviceOk(c, p, d, p.sks[i], net.published) && Extends(net.devs[i], d)
    requires i == p.coord ==>
               && d.nonces == net.devs[i].nonces && d.psigs == net.devs[i].psigs
               && (net.published.Some? ==> d.session.Some? && d.pubnonce == net.devs[i].pubnonce
                                           && d.msg == net.devs[i].msg && d.index == net.devs[i].index)
    ensures NetOk(c, p, WithDevice(net, i, d))
  {
    hide DeviceOk, CollectionsOk, NonceAgg, HasNonce, DevicePk, KeysInGroup, SortedPks, DevicePks, Extends;
    CollectionsSurvive(c, p, net.devs, i, d);
  }

  lemma GeneratesOk(c: Crypto, p: Setup, net: Net, i: nat, rand: b32, aggX: b32)
    requires ValidSetup(c, p) && NetOk(c, p, net) && Enabled(c, p, net, Generates(i, rand, aggX))
    ensures NetOk(c, p, Step(c, p, net, Generates(i, rand, aggX)))
  {
    var d := net.devs[i];
    var d' := Spend.GenNonce(c, d, rand, p.sks[i], aggX).0;
    assert DeviceOk(c, p, d, p.sks[i], net.published);
    assert net.published.Some? ==> net.devs[p.coord].pubnonce.Some?;
    GeneratedDevice(c, p, d, p.sks[i], net.published, rand, aggX);
    hide DeviceOk, CollectionsOk, NetOk, GenNonce;
    OwnStep(c, p, net, i, d');
  }

  lemma GeneratedDevice(c: Crypto, p: Setup, d: State, sk: int, published: Option<Broadcast>, rand: b32, aggX: b32)
    requires InGroup(c, sk) && DeviceOk(c, p, d, sk, published) && d.pubnonce.None?
    ensures var d' := Spend.GenNonce(c, d, rand, sk, aggX).0;
            DeviceOk(c, p, d', sk, published) && Extends(d, d')
            && d' == d.(secnonce := d'.secnonce, pubnonce := d'.pubnonce)
  {
    hide Generate, IsPair, PublishedSession, Sign, DevicePk;
    GeneratedIsPair(c, rand, sk, d.myPk, aggX, d.msg);
  }

  lemma ReceivesOk(c: Crypto, p: Setup, net: Net, i: nat)
    requires ValidSetup(c, p) && NetOk(c, p, net) && Enabled(c, p, net, Receives(i))
    ensures NetOk(c, p, Step(c, p, net, Receives(i)))
  {
    var d, b := net.devs[i], net.published.value;
    var d' := Spend.SetSession(c, d, b.msg, b.index, b.aggnonce, p.v).0;
    assert DeviceOk(c, p, d, p.sks[i], net.published);
    ReceivedDevice(c, p, d, p.sks[i], b);
    hide DeviceOk, CollectionsOk, NetOk, SetSession, Extends;
    OwnStep(c, p, net, i, d');
  }

  lemma ReceivedDevice(c: Crypto, p: Setup, d: State, sk: int, b: Broadcast)
    requires InGroup(c, sk) && DeviceOk(c, p, d, sk, Some(b))
    ensures var d' := Spend.SetSession(c, d, b.msg, b.index, b.aggnonce, p.v).0;
            DeviceOk(c, p, d', sk, Some(b)) && Extends(d, d')
            && d' == d.(msg := b.msg, index := b.index, session := d'.session)
            && (d.session.Some? ==> d'.session.Some?)
  {
    hide SessionFor, IsPair, Sign, DevicePk;
  }

  lemma SignsOk(c: Crypto, p: Setup, net: Net, i: nat)
    requires ValidSetup(c, p) && NetOk(c, p, net) && Enabled(c, p, net, Signs(i))
    ensures NetOk(c, p, Step(c, p, net, Signs(i)))
  {
    var d := net.devs[i];
    var d' := Spend.SignPartial(c, d, p.sks[i]).0;
    assert DeviceOk(c, p, d, p.sks[i], net.published);
    SignedDevice(c, p, d, p.sks[i], net.published);
    hide DeviceOk, CollectionsOk, NetOk, SignPartial, Extends;
    OwnStep(c, p, net, i, d');
  }

  lemma SignedDevice(c: Crypto, p: Setup, d: State, sk: int, published: Option<Broadcast>)
    requires InGroup(c, sk) && DeviceOk(c, p, d, sk, published) && d.session.Some? && d.secnonce.Some?
    ensures var d' := Spend.SignPartial(c, d, sk).0;
            DeviceOk(c, p, d', sk, published) && Extends(d, d') && d' == d.(myPsig := d'.myPsig)
  {
    hide SessionFor, IsPair, Sign, DevicePk;
  }

  lemma CoordinatorDevice(c: Crypto, p: Setup, d: State, k: State, sk: int, published: Option<Broadcast>)
    requires InGroup(c, sk) && DeviceOk(c, p, d, sk, published) && k == d.(nonces := k.nonces, psigs := k.psigs)
    ensures DeviceOk(c, p, k, sk, published) && Extends(d, k)
    ensures k.pubnonce == d.pubnonce && k.msg == d.msg && k.index == d.index
  {
    hide IsPair, PublishedSession, Sign, DevicePk;
  }

  /** Everything collected is still attributed after the coordinator's own entry changed. */
  lemma AttributionsSurvive(c: Crypto, p: Setup, devs: seq<State>, i: nat, k: State)
    requires KeysInGroup(c, p.sks) && |devs| == |p.sks| && i < |p.sks| && Extends(devs[i], k)
    requires forall e :: e in k.nonces ==> NonceIsFrom(c, p, devs, e)
    requires forall e :: e in k.psigs ==> PsigIsFrom(c, p, devs, e)
    ensures forall e :: e in k.nonces ==> NonceIsFrom(c, p, devs[i := k], e)
    ensures forall e :: e in k.psigs ==> PsigIsFrom(c, p, devs[i := k], e)
  {
    hide NonceIsFrom, PsigIsFrom, Extends;
    forall e | e in k.nonces
      ensures NonceIsFrom(c, p, devs[i := k], e)
    {
      NonceSurvives(c, p, devs, i, k, e);
    }
    forall e | e in k.psigs
      ensures PsigIsFrom(c, p, devs[i := k], e)
    {
      PsigSurvives(c, p, devs, i, k, e);
    }
  }

  /** Adding to what the coordinator collected, from a device that has it. */
  lemma CoordinatorStep(c: Crypto, p: Setup, net: Net, k: State)
    requires ValidSetup(c, p) && NetOk(c, p, net)
    requires k == net.devs[p.coord].(nonces := k.nonces, psigs := k.psigs)
    requires DistinctNonces(k.nonces) && DistinctPsigs(k.psigs)
    requires forall e :: e in k.nonces ==> NonceIsFrom(c, p, net.devs, e)
    requires forall e :: e in k.psigs ==> PsigIsFrom(c, p, net.devs, e)
    requires net.published.Some? ==> k.nonces == net.devs[p.coord].nonces
    ensures NetOk(c, p, WithDevice(net, p.coord, k))
  {
    hide DeviceOk, Extends, NonceAgg, HasNonce, DevicePk, SortedPks, DevicePks, DistinctNonces,
      DistinctPsigs, NonceIsFrom, PsigIsFrom;
    CoordinatorDevice(c, p, net.devs[p.coord], k, p.sks[p.coord], net.published);
    AttributionsSurvive(c, p, net.devs, p.coord, k);
  }

  lemma AddedNonce(k: State, pk: bytes, pn: b66)
    requires DistinctNonces(k.nonces)
    ensures var k' := Spend.AddPubnonce(k, pk, pn);
            && DistinctNonces(k'.nonces) && k' == k.(nonces := k'.nonces)
            && (HasNonce(k.nonces, pk) ==> k' == k)
            && (forall e :: e in k'.nonces ==> e in k.nonces || e == NonceEntry(pk, pn))
  {
  }

  lemma AddedPsig(k: State, pk: bytes, psig: nat)
    requires DistinctPsigs(k.psigs)
    ensures var k' := Spend.AddPsig(k, pk, psig);
            && DistinctPsigs(k'.psigs) && k' == k.(psigs := k'.psigs)
            && (forall e :: e in k'.psigs ==> e in k.psigs || e == PsigEntry(pk, psig))
  {
  }

  lemma NonceScannedOk(c: Crypto, p: Setup, net: Net, i: nat)
    requires ValidSetup(c, p) && NetOk(c, p, net) && Enabled(c, p, net, NonceScanned(i))
    ensures NetOk(c, p, Step(c, p, net, NonceScanned(i)))
  {
    hide DeviceOk, NonceIsFrom, PsigIsFrom, NonceAgg, DevicePk, SortedPks, DevicePks, DistinctNonces,
      DistinctPsigs, AddPubnonce, HasNonce;
    var k, pk, pn := net.devs[p.coord], DevicePk(c, p.sks[i]), net.devs[i].pubnonce.value;
    NonceAttributed(c, p, net.devs, i);
    AddedNonce(k, pk, pn);
    CoordinatorStep(c, p, net, Spend.AddPubnonce(k, pk, pn));
  }

  lemma NonceAttributed(c: Crypto, p: Setup, devs: seq<State>, i: nat)
    requires KeysInGroup(c, p.sks) && |devs| == |p.sks| && i < |p.sks| && i != p.coord && devs[i].pubnonce.Some?
    ensures NonceIsFrom(c, p, devs, NonceEntry(DevicePk(c, p.sks[i]), devs[i].pubnonce.value))
  {
    hide DevicePk;
    assert NonceOfDevice(c, p, devs, NonceEntry(DevicePk(c, p.sks[i]), devs[i].pubnonce.value), i);
  }

  lemma PsigScannedOk(c: Crypto, p: Setup, net: Net, i: nat)
    requires ValidSetup(c, p) && NetOk(c, p, net) && Enabled(c, p, net, PsigScanned(i))
    ensures NetOk(c, p, Step(c, p, net, PsigScanned(i)))
  {
    hide DeviceOk, NonceIsFrom, PsigIsFrom, NonceAgg, DevicePk, SortedPks, DevicePks, DistinctNonces,
      DistinctPsigs, AddPsig, HasPsig, PublishedOk;
    var k, pk, psig := net.devs[p.coord], DevicePk(c, p.sks[i]), net.devs[i].myPsig.value;
    PsigAttributed(c, p, net.devs, i);
    AddedPsig(k, pk, psig);
    CoordinatorStep(c, p, net, Spend.AddPsig(k, pk, psig));
  }

  lemma PsigAttributed(c: Crypto, p: Setup, devs: seq<State>, i: nat)
    requires KeysInGroup(c, p.sks) && |devs| == |p.sks| && i < |p.sks| && i != p.coord && devs[i].myPsig.Some?
    ensures PsigIsFrom(c, p, devs, PsigEntry(DevicePk(c, p.sks[i]), devs[i].myPsig.value))
  {
    hide DevicePk;
    assert PsigOfDevice(c, p, devs, PsigEntry(DevicePk(c, p.sks[i]), devs[i].myPsig.value), i);
  }

  /** Building the session again publishes the same session. */
  lemma BuiltSession(c: Crypto, p: Setup, k: State, published: Option<Broadcast>)
    requires KeysInGroup(c, p.sks) && p.coord < |p.sks|
    requires DeviceOk(c, p, k, p.sks[p.coord], published) && PublishedOk(c, p, k, published)
    requires k.pubnonce.Some? && NoncesComplete(c, p, k)
    ensures var (k', r) := Spend.BuildSession(c, k, p.v);
            && k' == k.(session := k'.session)
            && (r.Err? ==> k' == k)
            && (r.Ok? ==>
                  var b := Some(Broadcast(k.msg, k.index, r.value));
                  && (published.Some? ==> published == b)
                  && DeviceOk(c, p, k', p.sks[p.coord], b) && PublishedOk(c, p, k', b))
  {
    hide NonceAgg, SessionFor, IsPair, Sign, DevicePk, NoncesComplete;
    assert forall st :: NoncesComplete(c, p, k.(session := st)) <==> NoncesComplete(c, p, k) by {
      SameNoncesComplete(c, p, k);
    }
  }

  lemma SameNoncesComplete(c: Crypto, p: Setup, k: State)
    requires KeysInGroup(c, p.sks)
    ensures forall st :: NoncesComplete(c, p, k.(session := st)) <==> NoncesComplete(c, p, k)
  {
    hide DevicePk, HasNonce;
  }

  lemma BuildsOk(c: Crypto, p: Setup, net: Net)
    requires ValidSetup(c, p) && NetOk(c, p, net) && Enabled(c, p, net, Builds)
    ensures NetOk(c, p, Step(c, p, net, Builds))
  {
    var k := net.devs[p.coord];
    assert DeviceOk(c, p, k, p.sks[p.coord], net.published);
    BuiltSession(c, p, k, net.published);
    var (k', r) := Spend.BuildSession(c, k, p.v);
    if r.Err? {
      assert net.devs[p.coord := k'] == net.devs;
    } else {
      var b := Some(Broadcast(k.msg, k.index, r.value));
      forall i | 0 <= i < |p.sks|
        ensures DeviceOk(c, p, net.devs[i], p.sks[i], b)
      {
        assert DeviceOk(c, p, net.devs[i], p.sks[i], net.published);
        if net.published.None? { NoSessionYet(c, p, net.devs[i], p.sks[i], b); }
      }
      assert Extends(k, k');
      hide DeviceOk, PublishedOk, BuildSession, CollectionsOk, Extends, SortedPks, DevicePks;
      CollectionsSurvive(c, p, net.devs, p.coord, k');
    }
  }

  lemma NoSessionYet(c: Crypto, p: Setup, d: State, sk: int, b: Option<Broadcast>)
    requires InGroup(c, sk) && DeviceOk(c, p, d, sk, None)
    ensures DeviceOk(c, p, d, sk, b)
  {
    hide IsPair, Sign, DevicePk;
  }

  /** Every honest step keeps the network in order. */
  lemma StepOk(c: Crypto, p: Setup, net: Net, e: Event)
    requires ValidSetup(c, p) && NetOk(c, p, net) && Enabled(c, p, net, e)
    ensures NetOk(c, p, Step(c, p, net, e))
  {
    hide NetOk, Step, Enabled, ValidSetup;
    match e
    case Generates(i, rand, aggX) => GeneratesOk(c, p, net, i, rand, aggX);
    case NonceScanned(i) => NonceScannedOk(c, p, net, i);
    case Builds => BuildsOk(c, p, net);
    case Receives(i) => ReceivesOk(c, p, net, i);
    case Signs(i) => SignsOk(c, p, net, i);
    case PsigScanned(i) => PsigScannedOk(c, p, net, i);
  }

  lemma {:induction false} RunOk(c: Crypto, p: Setup, net: Net, events: seq<Event>)
    requires ValidSetup(c, p) && NetOk(c, p, net) && Honest(c, p, net, events)
    ensures NetOk(c, p, After(c, p, net, events))
    decreases |events|
  {
    if events != [] {
      StepOk(c, p, net, events[0]);
      hide NetOk, Step, Enabled, ValidSetup;
      RunOk(c, p, Step(c, p, net, events[0]), events[1..]);
    }
  }
}
