// Vaults as the devices get them, by scanning payment codes: what they have in common, and the
// ceremony that starts from the scans.
module ScannedVault {
  import opened Wrappers
  import opened Bytes
  import opened Curve
  import opened KeyAgg
  import opened Sorting
  import opened PartialSigs
  import opened Bip47
  import opened Vault
  import opened Identity
  import opened Spend
  import opened Ceremony
  import opened EndToEnd

  // ---- The child key ----

  /** The internal key of a built vault is the child key of its own payment code. */
  lemma InternalKeyIsChildKey(c: Crypto, raws: seq<string>, index: nat)
    requires Build(c, raws).Ok? && Taproot(c, Build(c, raws).value, index).Ok?
    ensures var v := Build(c, raws).value;
      && VaultCode(c, v).Ok? && ChildPubkey(c, VaultCode(c, v).value, index).Some?
      && Taproot(c, v, index).value.internal == c.xb(ChildPubkey(c, VaultCode(c, v).value, index).value)
  {
    var v := Build(c, raws).value;
    hide Build, Taproot, TaprootFrom, VaultKey, VaultCode, ChildIl, AddExpTweak, Ser;
    VaultCodeHoldsVaultKey(c, raws);
    TaprootStart(c, v, index);
    var q, il := VaultKey(c, v).value.aggPubkey, ChildIl(c, VaultCode(c, v).value, index).value;
    TaprootFromParts(c, q, il);
    assert c.lift(Ser(c, q)) == Some(q);
  }

  // ---- One vault on every device ----

  lemma BuiltSorts(c: Crypto, raws: seq<string>)
    requires Build(c, raws).Ok?
    ensures Collect(c, raws).Ok? && |Collect(c, raws).value.pairs| >= 2
    ensures SortedPks(c, Build(c, raws).value) == Ok(KeySort(Keys(Collect(c, raws).value.pairs)))
  {
    hide Parse, AggregateCode, KeySort, Keys;
    BuiltCollects(c, raws);
    CleanParses(c, raws);
  }

  /** Vaults that agree in code and sorted keys give the same answers everywhere. */
  ghost predicate SameVault(c: Crypto, v: VaultConfig, w: VaultConfig) {
    v.aggregateCode == w.aggregateCode && SortedPks(c, v) == SortedPks(c, w)
  }

  lemma SameFirstPairsSameKeys(c: Crypto, xs: seq<string>, ys: seq<string>)
    requires SameFirstPairs(c, xs, ys)
    ensures SameKeys(c, xs, ys)
  {
    hide FirstPair;
  }

  lemma ScansGiveOneVault(c: Crypto, xs: seq<string>, ys: seq<string>)
    requires Build(c, xs).Ok? && AllParse(c, ys) && SameFirstPairs(c, xs, ys)
    ensures Build(c, ys).Ok? && SameVault(c, Build(c, xs).value, Build(c, ys).value)
  {
    BuiltCollects(c, xs);
    hide Build, Collect, AllParse, SameFirstPairs, SameKeys, SortedPks, KeySort, Keys, SortedPairs;
    CollectedParse(c, xs);
    SameFirstPairsSameKeys(c, xs, ys);
    SameKeysBuildAlike(c, xs, ys);
    SameCodeExactly(c, xs, ys);
    BuiltSorts(c, xs);
    BuiltSorts(c, ys);
    SameSortedKeys(c, xs, ys);
  }

  lemma SameSortedKeys(c: Crypto, xs: seq<string>, ys: seq<string>)
    requires AllParse(c, xs) && AllParse(c, ys) && SameKeys(c, xs, ys)
    ensures Collect(c, xs).Ok? && Collect(c, ys).Ok?
    ensures KeySort(Keys(Collect(c, xs).value.pairs)) == KeySort(Keys(Collect(c, ys).value.pairs))
  {
    hide Collect, AllParse, SameKeys, KeySort, Keys;
    SameKeysSameList(c, xs, ys);
    SortedKeys(Collect(c, xs).value.pairs);
    SortedKeys(Collect(c, ys).value.pairs);
  }

  lemma SameVaultSameTaproot(c: Crypto, v: VaultConfig, w: VaultConfig, index: nat)
    requires SameVault(c, v, w)
    ensures VaultKey(c, v) == VaultKey(c, w) && VaultCode(c, v) == VaultCode(c, w)
    ensures Taproot(c, v, index) == Taproot(c, w, index)
  {
    hide SortedPks, Aggregate, Parse, ChildIl, TaprootFrom, KeySort;
  }

  /** Every call a device makes with its own vault has the result it would have with another's. */
  lemma SameVaultSameCalls(c: Crypto, v: VaultConfig, w: VaultConfig, s: State, msg: bytes, index: nat, aggnonce: b66)
    requires SameVault(c, v, w)
    ensures Spend.BuildSession(c, s, v) == Spend.BuildSession(c, s, w)
    ensures Spend.SetSession(c, s, msg, index, aggnonce, v) == Spend.SetSession(c, s, msg, index, aggnonce, w)
    ensures Spend.Finalize(c, s, v) == Spend.Finalize(c, s, w)
  {
    hide SortedPks, Taproot, VaultCode, ChildIl, Signing.NonceAgg, AllNonces, Shares, VerifyAll, PartialSigAgg, SchnorrVerify, LiftX;
    forall i: nat
      ensures SessionTweaks(c, v, i, s.taproot) == SessionTweaks(c, w, i, s.taproot) && Taproot(c, v, i) == Taproot(c, w, i)
    {
      SameVaultSameTaproot(c, v, w, i);
    }
    hide SessionTweaks;
  }

  // ---- The ceremony from the scans ----

  /** The keys scanned are the devices' keys. */
  ghost predicate ScannedDevices(c: Crypto, raws: seq<string>, sks: seq<int>)
    requires KeysInGroup(c, sks)
  {
    forall pk :: FirstPair(c, raws, pk).Some? <==> pk in DevicePks(c, sks)
  }

  lemma DistinctDevices(c: Crypto, sks: seq<int>)
    requires KeysInGroup(c, sks) && forall i, j :: 0 <= i < j < |sks| ==> sks[i] != sks[j]
    ensures Unique(DevicePks(c, sks))
  {
    hide Ser;
    forall i, j | 0 <= i < j < |sks|
      ensures DevicePks(c, sks)[i] != DevicePks(c, sks)[j]
    {
      if Ser(c, sks[i]) == Ser(c, sks[j]) { SerInjective(c, sks[i], sks[j]); }
    }
  }

  lemma ScannedKeys(c: Crypto, raws: seq<string>, sks: seq<int>)
    requires Build(c, raws).Ok? && Collect(c, raws).Ok? && KeysInGroup(c, sks) && ScannedDevices(c, raws, sks)
    requires forall i, j :: 0 <= i < j < |sks| ==> sks[i] != sks[j]
    ensures multiset(Keys(Collect(c, raws).value.pairs)) == multiset(DevicePks(c, sks))
  {
    hide Build, Collect, Keys, FirstPair, DevicePks, AllParse;
    CollectedParse(c, raws);
    CollectKeepsKeys(c, raws);
    var pairs := Collect(c, raws).value.pairs;
    KeysOfDistinct(pairs);
    forall pk
      ensures pk in Keys(pairs) <==> pk in DevicePks(c, sks)
    {
      CollectKeepsFirst(c, raws, pk);
    }
    DistinctDevices(c, sks);
    SameKeysSameContents(Keys(pairs), DevicePks(c, sks));
  }

  /** A vault built from the codes of devices with different keys, scanned in any order and as often as
      one likes, is a setup for their ceremony. */
  lemma ScansMakeASetup(c: Crypto, raws: seq<string>, sks: seq<int>, coord: nat, taproot: bool)
    requires Build(c, raws).Ok? && KeysInGroup(c, sks) && coord < |sks| && ScannedDevices(c, raws, sks)
    requires forall i, j :: 0 <= i < j < |sks| ==> sks[i] != sks[j]
    ensures ValidSetup(c, Setup(Build(c, raws).value, sks, coord, taproot))
  {
    hide Build, Collect, KeySort, Keys, ScannedDevices, DevicePks, SortedPks;
    BuiltSorts(c, raws);
    ScannedKeys(c, raws, sks);
    var keys := Keys(Collect(c, raws).value.pairs);
    KeysLength(Collect(c, raws).value.pairs);
    KeySortCanonical(keys, keys);
    assert |multiset(keys)| == |keys| && |multiset(DevicePks(c, sks))| == |DevicePks(c, sks)|;
  }

  // ---- Every device with its own vault ----

  /** An honest step in which the device that makes it uses its own vault. */
  ghost function StepWith(c: Crypto, p: Setup, vs: seq<VaultConfig>, net: Net, e: Event): (next: Net)
    requires ValidSetup(c, p) && |vs| == |net.devs| == |p.sks| && Enabled(c, p, net, e)
    ensures |next.devs| == |p.sks|
  {
    Move(c, p, if e.Receives? then vs[e.i] else vs[p.coord], net, e)
  }

  ghost predicate HonestWith(c: Crypto, p: Setup, vs: seq<VaultConfig>, net: Net, events: seq<Event>)
    requires ValidSetup(c, p) && |vs| == |net.devs| == |p.sks|
    decreases |events|
  {
    events == [] ||
    (Enabled(c, p, net, events[0]) && HonestWith(c, p, vs, StepWith(c, p, vs, net, events[0]), events[1..]))
  }

  ghost function AfterWith(c: Crypto, p: Setup, vs: seq<VaultConfig>, net: Net, events: seq<Event>): (last: Net)
    requires ValidSetup(c, p) && |vs| == |net.devs| == |p.sks| && HonestWith(c, p, vs, net, events)
    ensures |last.devs| == |p.sks|
    decreases |events|
  {
    if events == [] then net else AfterWith(c, p, vs, StepWith(c, p, vs, net, events[0]), events[1..])
  }

  lemma SameVaultsSameStep(c: Crypto, p: Setup, vs: seq<VaultConfig>, net: Net, e: Event)
    requires ValidSetup(c, p) && |vs| == |net.devs| == |p.sks| && Enabled(c, p, net, e)
    requires forall i :: 0 <= i < |vs| ==> SameVault(c, p.v, vs[i])
    ensures StepWith(c, p, vs, net, e) == Step(c, p, net, e)
  {
    hide SameVault, BuildSession, SetSession, GenNonce, SignPartial, AddPubnonce, AddPsig, NoncesComplete, DevicePk, DevicePks,
      SortedPks;
    match e
    case Builds => SameVaultSameCalls(c, p.v, vs[p.coord], net.devs[p.coord], [], 0, Zeros(66));
    case Receives(i) =>
      var b := net.published.value;
      SameVaultSameCalls(c, p.v, vs[i], net.devs[i], b.msg, b.index, b.aggnonce);
    case _ =>
  }

  /** Devices with vaults that agree in code and sorted keys have the runs they would have with one. */
  lemma {:induction false} SameVaultsSameRun(c: Crypto, p: Setup, vs: seq<VaultConfig>, net: Net, events: seq<Event>)
    requires ValidSetup(c, p) && |vs| == |net.devs| == |p.sks|
    requires forall i :: 0 <= i < |vs| ==> SameVault(c, p.v, vs[i])
    ensures HonestWith(c, p, vs, net, events) <==> Honest(c, p, net, events)
    ensures Honest(c, p, net, events) ==> AfterWith(c, p, vs, net, events) == After(c, p, net, events)
    decreases |events|
  {
    hide ValidSetup, Enabled, Step, StepWith, SameVault;
    if events != [] && Enabled(c, p, net, events[0]) {
      SameVaultsSameStep(c, p, vs, net, events[0]);
      SameVaultsSameRun(c, p, vs, Step(c, p, net, events[0]), events[1..]);
    }
  }

  /** The vaults the devices built from what each of them scanned. */
  ghost predicate OwnVaults(c: Crypto, scans: seq<seq<string>>, vs: seq<VaultConfig>) {
    |vs| == |scans| && forall j :: 0 <= j < |scans| && Build(c, scans[j]).Ok? ==> vs[j] == Build(c, scans[j]).value
  }

  /** Every device scanned codes that parse, with the same first code for every key as the coordinator. */
  ghost predicate ScannedAlike(c: Crypto, scans: seq<seq<string>>, coord: nat)
    requires coord < |scans|
  {
    forall j :: 0 <= j < |scans| ==> AllParse(c, scans[j]) && SameFirstPairs(c, scans[coord], scans[j])
  }

  lemma AllBuildOneVault(c: Crypto, scans: seq<seq<string>>, coord: nat, vs: seq<VaultConfig>)
    requires coord < |scans| && Build(c, scans[coord]).Ok? && ScannedAlike(c, scans, coord) && OwnVaults(c, scans, vs)
    ensures forall j :: 0 <= j < |scans| ==>
              Build(c, scans[j]).Ok? && vs[j] == Build(c, scans[j]).value && SameVault(c, vs[coord], vs[j])
  {
    hide Build, AllParse, SameFirstPairs, SameVault;
    forall j | 0 <= j < |scans|
      ensures Build(c, scans[j]).Ok? && vs[j] == Build(c, scans[j]).value && SameVault(c, vs[coord], vs[j])
    {
      ScansGiveOneVault(c, scans[coord], scans[j]);
    }
  }

  /**
   * The end-to-end result from the scans: every device scanned the devices' codes, in its own order
   * and with its own repetitions but with the same first code for every key. Then all of them built
   * the vault, and after any honest run in which every device uses its own, finalize, with the vault of
   * any device, succeeds exactly when the run is healthy, with a signature that verifies under the child
   * key of that device's own aggregate payment code, or in taproot mode under the output key.
   */
  lemma EndToEndFromScans(c: Crypto, scans: seq<seq<string>>, vs: seq<VaultConfig>, sks: seq<int>, coord: nat, taproot: bool,
                          start: Net, events: seq<Event>, i: nat)
    requires |scans| == |sks| && coord < |sks| && i < |sks| && KeysInGroup(c, sks)
    requires forall j, k :: 0 <= j < k < |sks| ==> sks[j] != sks[k]
    requires Build(c, scans[coord]).Ok? && ScannedDevices(c, scans[coord], sks)
    requires ScannedAlike(c, scans, coord) && OwnVaults(c, scans, vs)
    requires var p := Setup(vs[coord], sks, coord, taproot);
      ValidSetup(c, p) ==>
        Start(c, p, start) && HonestWith(c, p, vs, start, events) && Complete(c, p, AfterWith(c, p, vs, start, events))
    ensures forall j :: 0 <= j < |scans| ==> Build(c, scans[j]).Ok? && vs[j] == Build(c, scans[j]).value
    ensures var p := Setup(vs[coord], sks, coord, taproot);
            var v := vs[i];
      && ValidSetup(c, p)
      && var last := AfterWith(c, p, vs, start, events);
         var k := last.devs[coord];
      && k.session.Some? && GetSessionValues(c, k.session.value).Ok?
      && (Finalize(c, k, v).Ok? <==> Healthy(c, p, last))
      && (Finalize(c, k, v).Ok? ==>
            && VaultCode(c, v).Ok? && ChildPubkey(c, VaultCode(c, v).value, k.index).Some? && Taproot(c, v, k.index).Ok?
            && SchnorrVerify(c, Finalize(c, k, v).value,
                             if taproot then Taproot(c, v, k.index).value.output
                             else c.xb(ChildPubkey(c, VaultCode(c, v).value, k.index).value), k.msg))
  {
    AllBuildOneVault(c, scans, coord, vs);
    var p := Setup(vs[coord], sks, coord, taproot);
    ScansMakeASetup(c, scans[coord], sks, coord, taproot);
    SameVaultsSameRun(c, p, vs, start, events);
    EndToEnd.EndToEnd(c, p, start, events);
    hide ValidSetup, Start, Honest, HonestWith, Complete, Finalize, Healthy, Build, Taproot, VaultCode, ChildPubkey,
      SchnorrVerify, GetSessionValues, SameVault, After, AfterWith, ScannedAlike, ScannedDevices, OwnVaults;
    var k := After(c, p, start, events).devs[coord];
    SameVaultSameCalls(c, p.v, vs[i], k, [], 0, Zeros(66));
    SameVaultSameTaproot(c, p.v, vs[i], k.index);
    if Finalize(c, k, vs[i]).Ok? {
      InternalKeyIsChildKey(c, scans[i], k.index);
    }
  }
}
