// The vault configuration: participants, the aggregate payment code, and the keys derived from it.
module Vault {
  import opened Wrappers
  import opened Bytes
  import opened Zn
  import opened Curve
  import opened KeyAgg
  import opened Signing
  import opened Bip47
  import opened Sorting

  datatype VaultError =
    | TooFewDevices
    | InvalidPaymentCode
    | Musig(e: MusigError)
    | ChildTweakFailed
    | TaprootTweakFailed
    | NotAParticipant
    | MalformedQr
    | WrongRound
    | NeedMoreSigners
    | SignatureVerificationFailed
    | InsufficientFunds
    | InvalidRecipient
    | InvalidUtxo

  /** The participants' payment codes in collection order, and the aggregate code. */
  datatype VaultConfig = VaultConfig(participants: seq<string>, aggregateCode: string)

  // ---- Building the vault ----

  datatype Pair = Pair(pk: b33, cc: b32)

  function PairKey(): Pair -> bytes {
    (p: Pair) => p.pk
  }

  function PairOf(pc: PaymentCode): Pair {
    Pair(pc.pubkey, pc.chaincode)
  }

  datatype Collected = Collected(clean: seq<string>, pairs: seq<Pair>)

  predicate Seen(pairs: seq<Pair>, pk: bytes) {
    exists i :: 0 <= i < |pairs| && pairs[i].pk == pk
  }

  /** A scanned code is kept unless its key was scanned before. */
  function Scan(a: Collected, raw: string, pc: PaymentCode): Collected {
    if Seen(a.pairs, pc.pubkey) then a else Collected(a.clean + [raw], a.pairs + [PairOf(pc)])
  }

  function Collect(c: Crypto, raws: seq<string>): Result<Collected, VaultError> {
    if raws == [] then Ok(Collected([], []))
    else
      match Collect(c, raws[..|raws| - 1])
      case Err(e) => Err(e)
      case Ok(a) =>
        match Parse(c, raws[|raws| - 1])
        case None => Err(InvalidPaymentCode)
        case Some(pc) => Ok(Scan(a, raws[|raws| - 1], pc))
  }

  function FlattenPairs(pairs: seq<Pair>): bytes {
    if pairs == [] then [] else pairs[0].pk + pairs[0].cc + FlattenPairs(pairs[1..])
  }

  function Keys(pairs: seq<Pair>): seq<bytes> {
    MapSeq(PairKey(), pairs)
  }

  /** The payment code of a key and a chain code. */
  function CodeFor(c: Crypto, q: int, cc: b32): (pc: PaymentCode)
    requires InGroup(c, q)
  {
    SerParts(c, q);
    var pk: b33 := Ser(c, q);
    PaymentCode(EncodePaymentCode(c, Payload(pk, cc)), pk, cc)
  }

  const CHAINCODE_TAG: string := "KeyOS DojoSigner MuSig2 BIP47 chaincode"

  function ChainCode(c: Crypto, sorted: seq<Pair>): b32 {
    c.tagged(CHAINCODE_TAG, FlattenPairs(sorted))
  }

  /** aggregate_payment_code: pairs sorted by key, keys aggregated, chain codes hashed. */
  function AggregateCode(c: Crypto, pairs: seq<Pair>): Result<PaymentCode, MusigError> {
    if |pairs| < 2 then Err(NotEnoughParticipants)
    else
      var sorted := SortBy(PairKey(), pairs);
      match Aggregate(c, Keys(sorted))
      case Err(e) => Err(e)
      case Ok(agg) => Ok(CodeFor(c, agg.aggPubkey, ChainCode(c, sorted)))
  }

  function Build(c: Crypto, raws: seq<string>): Result<VaultConfig, VaultError> {
    if |raws| < 2 then Err(TooFewDevices)
    else
      match Collect(c, raws)
      case Err(e) => Err(e)
      case Ok(a) =>
        if |a.pairs| < 2 then Err(TooFewDevices)
        else match AggregateCode(c, a.pairs)
          case Err(e) => Err(Musig(e))
          case Ok(pc) => Ok(VaultConfig(a.clean, pc.raw))
  }

  /** The scanning loop of VaultConfig::build, with its set of keys seen. */
  method ScanAll(c: Crypto, raws: seq<string>) returns (r: Result<Collected, VaultError>)
    ensures r == Collect(c, raws)
  {
    var seen: set<bytes> := {};
    var clean: seq<string> := [];
    var pairs: seq<Pair> := [];
    var i := 0;
    while i < |raws|
      invariant 0 <= i <= |raws|
      invariant Collect(c, raws[..i]) == Ok(Collected(clean, pairs))
      invariant forall pk :: pk in seen <==> Seen(pairs, pk)
    {
      hide Parse, Collect, Seen;
      CollectStep(c, raws, i);
      var pc := Parse(c, raws[i]);
      if pc.None? {
        CollectStops(c, raws, i + 1);
        return Err(InvalidPaymentCode);
      }
      var pk := pc.value.pubkey;
      if pk !in seen {
        SeenGrows(pairs, PairOf(pc.value));
        seen := seen + {pk};
        clean := clean + [raws[i]];
        pairs := pairs + [PairOf(pc.value)];
      }
      i := i + 1;
    }
    assert raws[..i] == raws;
    r := Ok(Collected(clean, pairs));
  }

  lemma CollectStep(c: Crypto, raws: seq<string>, i: nat)
    requires i < |raws| && Collect(c, raws[..i]).Ok?
    ensures Collect(c, raws[..i + 1]) ==
            match Parse(c, raws[i])
            case None => Err(InvalidPaymentCode)
            case Some(pc) => Ok(Scan(Collect(c, raws[..i]).value, raws[i], pc))
  {
    assert raws[..i + 1][..i] == raws[..i];
  }

  /** VaultConfig::build. */
  method BuildVault(c: Crypto, raws: seq<string>) returns (r: Result<VaultConfig, VaultError>)
    ensures r == Build(c, raws)
  {
    if |raws| < 2 {
      return Err(TooFewDevices);
    }
    var scanned := ScanAll(c, raws);
    if scanned.Err? {
      return Err(scanned.error);
    }
    if |scanned.value.pairs| < 2 {
      return Err(TooFewDevices);
    }
    var agg := AggregateCode(c, scanned.value.pairs);
    if agg.Err? {
      return Err(Musig(agg.error));
    }
    r := Ok(VaultConfig(scanned.value.clean, agg.value.raw));
  }

  lemma SeenGrows(pairs: seq<Pair>, p: Pair)
    ensures forall pk :: Seen(pairs + [p], pk) <==> Seen(pairs, pk) || pk == p.pk
  {
    var more := pairs + [p];
    forall pk
      ensures Seen(more, pk) <==> Seen(pairs, pk) || pk == p.pk
    {
      if Seen(pairs, pk) {
        var i :| 0 <= i < |pairs| && pairs[i].pk == pk;
        assert more[i].pk == pk;
      }
      assert more[|pairs|] == p;
    }
  }

  lemma {:induction false} CollectStops(c: Crypto, raws: seq<string>, k: nat)
    requires k <= |raws| && Collect(c, raws[..k]) == Err(InvalidPaymentCode)
    ensures Collect(c, raws) == Err(InvalidPaymentCode)
    decreases |raws|
  {
    if k < |raws| {
      var front := raws[..|raws| - 1];
      assert front[..k] == raws[..k];
      CollectStops(c, front, k);
    } else {
      assert raws[..k] == raws;
    }
  }

  // ---- One identity ----

  ghost predicate AllParse(c: Crypto, raws: seq<string>) {
    forall r :: r in raws ==> Parse(c, r).Some?
  }

  /** The (key, chain code) pairs scanned. */
  ghost predicate Scanned(c: Crypto, raws: seq<string>, p: Pair) {
    exists r :: r in raws && Parse(c, r).Some? && PairOf(Parse(c, r).value) == p
  }

  ghost predicate DistinctKeys(pairs: seq<Pair>) {
    forall i, j :: 0 <= i < j < |pairs| ==> pairs[i].pk != pairs[j].pk
  }

  /** Collecting succeeds when everything parses; it keeps one scanned pair for every key. */
  lemma {:induction false} CollectKeepsKeys(c: Crypto, raws: seq<string>)
    requires AllParse(c, raws)
    ensures Collect(c, raws).Ok?
    ensures var a := Collect(c, raws).value;
      && DistinctKeys(a.pairs)
      && (forall p :: p in a.pairs ==> Scanned(c, raws, p))
      && (forall p :: Scanned(c, raws, p) ==> Seen(a.pairs, p.pk))
  {
    hide Parse;
    if raws != [] {
      var front, last := raws[..|raws| - 1], raws[|raws| - 1];
      assert raws == front + [last];
      CollectKeepsKeys(c, front);
      var a := Collect(c, front).value;
      var pc := Parse(c, last).value;
      SeenGrows(a.pairs, PairOf(pc));
      assert last in raws;
      forall p | Scanned(c, front, p)
        ensures Scanned(c, raws, p)
      {
        var r :| r in front && Parse(c, r).Some? && PairOf(Parse(c, r).value) == p;
        assert r in raws;
      }
      assert Scanned(c, raws, PairOf(pc));
      forall p | Scanned(c, raws, p)
        ensures Scanned(c, front, p) || p == PairOf(pc)
      {
        var r :| r in raws && Parse(c, r).Some? && PairOf(Parse(c, r).value) == p;
        assert r in front || r == last;
      }
    }
  }

  lemma {:induction false} DistinctCount(pairs: seq<Pair>, p: Pair)
    requires DistinctKeys(pairs)
    ensures multiset(pairs)[p] == if p in pairs then 1 else 0
  {
    if pairs != [] {
      assert pairs == [pairs[0]] + pairs[1..];
      DistinctCount(pairs[1..], p);
    }
  }

  /** No key carries two chain codes. */
  ghost predicate OneChainCode(c: Crypto, raws: seq<string>) {
    forall p, q :: Scanned(c, raws, p) && Scanned(c, raws, q) && p.pk == q.pk ==> p == q
  }

  /** With one chain code per key, the collected pairs are exactly the scanned ones. */
  lemma CollectedAreScanned(c: Crypto, raws: seq<string>, p: Pair)
    requires AllParse(c, raws) && OneChainCode(c, raws)
    ensures Collect(c, raws).Ok? && DistinctKeys(Collect(c, raws).value.pairs)
    ensures p in Collect(c, raws).value.pairs <==> Scanned(c, raws, p)
  {
    CollectKeepsKeys(c, raws);
    var pairs := Collect(c, raws).value.pairs;
    if Scanned(c, raws, p) {
      assert Seen(pairs, p.pk);
      var i :| 0 <= i < |pairs| && pairs[i].pk == p.pk;
      assert pairs[i] in pairs;
    }
  }

  lemma SameContentsSameCode(c: Crypto, xs: seq<Pair>, ys: seq<Pair>)
    requires DistinctKeys(xs) && multiset(xs) == multiset(ys)
    ensures AggregateCode(c, xs) == AggregateCode(c, ys)
  {
    hide SortBy, Aggregate, Keys, CodeFor, ChainCode;
    assert |multiset(xs)| == |xs| && |multiset(ys)| == |ys|;
    SameContentsSorted(xs, ys);
  }

  lemma SameContentsSorted(xs: seq<Pair>, ys: seq<Pair>)
    requires DistinctKeys(xs) && multiset(xs) == multiset(ys)
    ensures SortBy(PairKey(), xs) == SortBy(PairKey(), ys)
  {
    hide SortBy, LexLe;
    SortContents(PairKey(), xs);
    SortContents(PairKey(), ys);
    SortSorted(PairKey(), xs);
    SortSorted(PairKey(), ys);
    var s := SortBy(PairKey(), xs);
    forall x, y | x in s && y in s && PairKey()(x) == PairKey()(y)
      ensures x == y
    {
      assert x in multiset(s) && y in multiset(s);
      assert x in xs && y in xs;
    }
    SortedIsUnique(PairKey(), s, SortBy(PairKey(), ys));
  }

  /** The pair first scanned for a key. */
  function FirstPair(c: Crypto, raws: seq<string>, pk: bytes): Option<Pair> {
    if raws == [] then None
    else
      var n := |raws| - 1;
      match FirstPair(c, raws[..n], pk)
      case Some(p) => Some(p)
      case None =>
        match Parse(c, raws[n])
        case None => None
        case Some(pc) => if pc.pubkey == pk then Some(PairOf(pc)) else None
  }

  /** The scan keeps, for every key, the pair first scanned for it. */
  lemma {:induction false} CollectKeepsFirst(c: Crypto, raws: seq<string>, pk: bytes)
    requires Collect(c, raws).Ok?
    ensures forall p: Pair :: p.pk == pk ==> (p in Collect(c, raws).value.pairs <==> FirstPair(c, raws, pk) == Some(p))
    ensures Seen(Collect(c, raws).value.pairs, pk) <==> FirstPair(c, raws, pk).Some?
    ensures FirstPair(c, raws, pk).Some? ==> FirstPair(c, raws, pk).value.pk == pk
  {
    hide Parse;
    if raws != [] {
      var front, last := raws[..|raws| - 1], raws[|raws| - 1];
      CollectKeepsFirst(c, front, pk);
      var a := Collect(c, front).value;
      var pc := Parse(c, last).value;
      SeenGrows(a.pairs, PairOf(pc));
      if !Seen(a.pairs, pk) {
        NotSeen(a.pairs, pk);
      }
    }
  }

  lemma NotSeen(pairs: seq<Pair>, pk: bytes)
    requires !Seen(pairs, pk)
    ensures forall p :: p in pairs ==> p.pk != pk
  {
    forall p | p in pairs
      ensures p.pk != pk
    {
      var i :| 0 <= i < |pairs| && pairs[i] == p;
    }
  }

  /** Two devices that scanned the same keys, and for every key the same pair first, build vaults
      with the same aggregate code or both fail, whatever the order and the repetitions. */
  lemma SameFirstPairsSameVault(c: Crypto, xs: seq<string>, ys: seq<string>)
    requires AllParse(c, xs) && AllParse(c, ys)
    requires forall pk :: FirstPair(c, xs, pk) == FirstPair(c, ys, pk)
    ensures Build(c, xs).Ok? <==> Build(c, ys).Ok?
    ensures Build(c, xs).Ok? ==> Build(c, xs).value.aggregateCode == Build(c, ys).value.aggregateCode
  {
    hide Parse, AggregateCode, Scanned, FirstPair;
    CollectKeepsKeys(c, xs);
    CollectKeepsKeys(c, ys);
    var a, b := Collect(c, xs).value.pairs, Collect(c, ys).value.pairs;
    forall p: Pair
      ensures multiset(a)[p] == multiset(b)[p]
    {
      CollectKeepsFirst(c, xs, p.pk);
      CollectKeepsFirst(c, ys, p.pk);
      DistinctCount(a, p);
      DistinctCount(b, p);
    }
    assert multiset(a) == multiset(b);
    assert |multiset(a)| == |a| && |multiset(b)| == |b|;
    SameContentsSameCode(c, a, b);
    CollectedCount(c, xs);
    CollectedCount(c, ys);
  }

  /** In particular when they scanned the same (key, chain code) pairs and no key has two codes. */
  lemma OneVaultIdentity(c: Crypto, xs: seq<string>, ys: seq<string>)
    requires AllParse(c, xs) && AllParse(c, ys) && OneChainCode(c, xs)
    requires forall p :: Scanned(c, xs, p) <==> Scanned(c, ys, p)
    ensures Build(c, xs).Ok? <==> Build(c, ys).Ok?
    ensures Build(c, xs).Ok? ==> Build(c, xs).value.aggregateCode == Build(c, ys).value.aggregateCode
  {
    hide Parse, Scanned, FirstPair, Build;
    forall pk
      ensures FirstPair(c, xs, pk) == FirstPair(c, ys, pk)
    {
      CollectKeepsKeys(c, xs);
      CollectKeepsKeys(c, ys);
      CollectKeepsFirst(c, xs, pk);
      CollectKeepsFirst(c, ys, pk);
      var f, g := FirstPair(c, xs, pk), FirstPair(c, ys, pk);
      if f.Some? {
        CollectedAreScanned(c, xs, f.value);
        CollectedAreScanned(c, ys, f.value);
      }
      if g.Some? {
        CollectedAreScanned(c, xs, g.value);
        CollectedAreScanned(c, ys, g.value);
      }
    }
    SameFirstPairsSameVault(c, xs, ys);
  }

  lemma {:induction false} CollectedCount(c: Crypto, raws: seq<string>)
    requires Collect(c, raws).Ok?
    ensures |Collect(c, raws).value.pairs| == |Collect(c, raws).value.clean| <= |raws|
  {
    hide Parse;
    if raws != [] { CollectedCount(c, raws[..|raws| - 1]); }
  }

  // ---- Keys derived from a vault ----

  /** The pubkeys of the participants, in collection order. */
  function ParticipantKeys(c: Crypto, raws: seq<string>): (r: Option<seq<bytes>>)
    ensures r.Some? ==> |r.value| == |raws|
  {
    if raws == [] then Some([])
    else
      var n := |raws| - 1;
      match ParticipantKeys(c, raws[..n])
      case None => None
      case Some(ks) =>
        match Parse(c, raws[n])
        case None => None
        case Some(pc) => Some(ks + [pc.pubkey])
  }

  /** sorted_pks. */
  function SortedPks(c: Crypto, v: VaultConfig): Result<seq<bytes>, VaultError> {
    match ParticipantKeys(c, v.participants)
    case None => Err(InvalidPaymentCode)
    case Some(ks) => Ok(KeySort(ks))
  }

  /** key_agg_sorted over sorted_pks: the key every session of the vault aggregates. */
  function VaultKey(c: Crypto, v: VaultConfig): (r: Result<KeyAggCtx, VaultError>)
    ensures r.Ok? ==> InGroup(c, r.value.aggPubkey)
  {
    match SortedPks(c, v)
    case Err(e) => Err(e)
    case Ok(pks) =>
      match Aggregate(c, KeySort(pks))
      case Err(e) => Err(Musig(e))
      case Ok(agg) => Ok(agg)
  }

  /** The parsed aggregate code. */
  function VaultCode(c: Crypto, v: VaultConfig): Result<PaymentCode, VaultError> {
    match Parse(c, v.aggregateCode)
    case None => Err(InvalidPaymentCode)
    case Some(pc) => Ok(pc)
  }

  lemma {:induction false} CleanParses(c: Crypto, raws: seq<string>)
    requires Collect(c, raws).Ok?
    ensures ParticipantKeys(c, Collect(c, raws).value.clean) == Some(Keys(Collect(c, raws).value.pairs))
  {
    hide Parse;
    if raws != [] {
      var front, last := raws[..|raws| - 1], raws[|raws| - 1];
      CleanParses(c, front);
      var a := Collect(c, front).value;
      var pc := Parse(c, last).value;
      hide Seen, Keys;
      OneMoreKey(c, a.clean, last, pc);
      KeysNext(a.pairs, PairOf(pc));
    }
  }

  lemma OneMoreKey(c: Crypto, clean: seq<string>, raw: string, pc: PaymentCode)
    requires ParticipantKeys(c, clean).Some? && Parse(c, raw) == Some(pc)
    ensures ParticipantKeys(c, clean + [raw]) == Some(ParticipantKeys(c, clean).value + [pc.pubkey])
  {
    hide Parse;
    assert (clean + [raw])[..|clean|] == clean;
  }

  lemma KeysNext(pairs: seq<Pair>, p: Pair)
    ensures Keys(pairs + [p]) == Keys(pairs) + [p.pk]
  {
  }

  lemma MapRemove<T, U>(g: T -> U, t: seq<T>, i: nat)
    requires i < |t|
    ensures multiset(MapSeq(g, t)) == multiset{g(t[i])} + multiset(MapSeq(g, t[..i] + t[i + 1..]))
  {
    var mt := MapSeq(g, t);
    var rest := t[..i] + t[i + 1..];
    assert MapSeq(g, rest) == mt[..i] + mt[i + 1..];
    assert mt == mt[..i] + ([mt[i]] + mt[i + 1..]);
    assert multiset(mt) == multiset(mt[..i]) + (multiset{mt[i]} + multiset(mt[i + 1..]));
  }

  /** Mapping respects contents. */
  lemma {:induction false} MapContents<T, U>(g: T -> U, s: seq<T>, t: seq<T>)
    requires multiset(s) == multiset(t)
    ensures multiset(MapSeq(g, s)) == multiset(MapSeq(g, t))
    decreases |s|
  {
    hide MapSeq;
    assert |multiset(s)| == |s| && |multiset(t)| == |t|;
    if s != [] {
      assert s[0] in multiset(t);
      var i :| 0 <= i < |t| && t[i] == s[0];
      var rest := t[..i] + t[i + 1..];
      MultisetRemove(t, i);
      TailContents(s);
      MapContents(g, s[1..], rest);
      MapRemove(g, t, i);
      MapRemove(g, s, 0);
      assert s[..0] + s[1..] == s[1..];
    }
  }

  /** Sorting the pairs by key and sorting the keys give the same key list. */
  lemma SortedKeys(pairs: seq<Pair>)
    ensures KeySort(Keys(pairs)) == Keys(SortBy(PairKey(), pairs))
  {
    var sorted := SortBy(PairKey(), pairs);
    SortContents(PairKey(), pairs);
    SortSorted(PairKey(), pairs);
    MapContents(PairKey(), sorted, pairs);
    assert SortedBy(Self(), Keys(sorted));
    KeySortCanonical(Keys(pairs), Keys(sorted));
    KeySortOfSorted(Keys(sorted));
  }

  /** The key inside a built vault's code is the key every signing session aggregates, although
      sessions derive it from the stored participants and duplicates were scanned. */
  lemma VaultCodeHoldsVaultKey(c: Crypto, raws: seq<string>)
    requires Build(c, raws).Ok?
    ensures var v := Build(c, raws).value;
      && VaultKey(c, v).Ok? && VaultCode(c, v).Ok?
      && VaultCode(c, v).value.pubkey == Ser(c, VaultKey(c, v).value.aggPubkey)
  {
    hide Parse, Aggregate, SortBy, Payload, EncodePaymentCode, ChainCode;
    CleanParses(c, raws);
    var pairs := Collect(c, raws).value.pairs;
    SortedKeys(pairs);
    var ks := Keys(pairs);
    KeySortCanonical(ks, ks);
    KeySortOfSorted(KeySort(ks));
    var sorted := SortBy(PairKey(), pairs);
    var q := Aggregate(c, Keys(sorted)).value.aggPubkey;
    SerParts(c, q);
    ParsePrinted(c, Ser(c, q), ChainCode(c, sorted));
  }

  // ---- The taproot context ----

  datatype TaprootContext = TaprootContext(internal: bytes, t: nat, output: bytes)

  /** The BIP-341 tweak of an internal key with no script tree. */
  function TapTweak(c: Crypto, internal: bytes): nat {
    BE(c.tagged("TapTweak", internal))
  }

  /** The internal key, tweak and output key reached from an aggregate key and a child tweak. */
  function TaprootFrom(c: Crypto, q0: int, il: nat): (r: Result<TaprootContext, VaultError>)
    requires InGroup(c, q0)
  {
    match AddExpTweak(c, q0, il)
    case None => Err(ChildTweakFailed)
    case Some(child) =>
      var internal := c.xb(child);
      var t := TapTweak(c, internal);
      if t >= c.n then Err(MalformedQr)
      else
        match AddExpTweak(c, EvenPoint(c, child), t)
        case None => Err(TaprootTweakFailed)
        case Some(q) => Ok(TaprootContext(internal, t, c.xb(q)))
  }

  function Taproot(c: Crypto, v: VaultConfig, index: nat): Result<TaprootContext, VaultError> {
    match VaultKey(c, v)
    case Err(e) => Err(e)
    case Ok(agg) =>
      match VaultCode(c, v)
      case Err(e) => Err(e)
      case Ok(pc) =>
        match ChildIl(c, pc, index)
        case None => Err(InvalidPaymentCode)
        case Some(il) => TaprootFrom(c, agg.aggPubkey, il)
  }

  lemma AddExpIsPtAdd(c: Crypto, p: int, t: nat)
    requires InGroup(c, p) && t < c.n
    ensures var tg: Option<int> := if t == 0 then None else Some(t);
      && Finite(c, tg) && PtAdd(c, Some(p), tg) == Ok(AddExpTweak(c, p, t))
  {
    hide Mod, PtAdd;
    PtAddIsAddition(c, Some(p), if t == 0 then None else Some(t));
  }

  /**
   * The context as BIP-341 has it: the child key of the vault's key is q0 + il, its x coordinate is the
   * internal key, and the output key is the x coordinate of the even point P with the internal key plus
   * the tweak hashed from it. It exists exactly if neither point is infinity and the tweak is below n.
   */
  lemma TaprootIsBip341(c: Crypto, v: VaultConfig, index: nat, il: nat, p: int)
    requires VaultKey(c, v).Ok? && VaultCode(c, v).Ok? && ChildIl(c, VaultCode(c, v).value, index) == Some(il)
    requires InGroup(c, p) && c.even(p)
    requires InGroup(c, Mod(c.n, VaultKey(c, v).value.aggPubkey + il)) ==>
               c.xb(p) == c.xb(Mod(c.n, VaultKey(c, v).value.aggPubkey + il))
    ensures var child := Mod(c.n, VaultKey(c, v).value.aggPubkey + il);
            var t := BE(c.tagged("TapTweak", c.xb(child)));
      && (Taproot(c, v, index).Ok? <==> child != 0 && t < c.n && Mod(c.n, p + t) != 0)
      && (Taproot(c, v, index).Ok? ==>
            Taproot(c, v, index).value == TaprootContext(c.xb(child), t, c.xb(Mod(c.n, p + t))))
  {
    hide VaultKey, VaultCode, ChildIl, Mod, BE;
    var q0 := VaultKey(c, v).value.aggPubkey;
    var child := Mod(c.n, q0 + il);
    if child != 0 {
      assert EvenPoint(c, child) == p;
    }
  }

  /** A tweak step with a valid scalar is add_exp_tweak on the signed key. */
  lemma StepIsAddExp(c: Crypto, a: TweakAcc, tw: Tweak)
    requires InGroup(c, a.q) && a.tacc < c.n && tw.t < c.n
    ensures var g := if tw.isXonly && !c.even(a.q) then -1 else 1;
      && (TweakStep(c, a, tw).Ok? <==> AddExpTweak(c, SignedPoint(c, g, a.q), tw.t).Some?)
      && (TweakStep(c, a, tw).Ok? ==>
            TweakStep(c, a, tw).value.q == AddExpTweak(c, SignedPoint(c, g, a.q), tw.t).value)
  {
    hide AddExpTweak, PtAdd, SignedPoint, SignedScalar;
    AddExpIsPtAdd(c, SignedPoint(c, if tw.isXonly && !c.even(a.q) then -1 else 1, a.q), tw.t);
  }

  lemma OneTweak(c: Crypto, a: TweakAcc, tw: Tweak)
    requires InGroup(c, a.q) && a.tacc < c.n
    ensures ApplyTweaksFrom(c, a, [tw]) == TweakStep(c, a, tw)
  {
    hide TweakStep;
    assert [tw][1..] == [];
  }

  lemma TwoTweaks(c: Crypto, a: TweakAcc, tw: Tweak, tx: Tweak)
    requires InGroup(c, a.q) && a.tacc < c.n
    ensures TweakStep(c, a, tw).Ok? ==> ApplyTweaksFrom(c, a, [tw, tx]) == TweakStep(c, TweakStep(c, a, tw).value, tx)
  {
    hide TweakStep;
    assert [tw, tx][1..] == [tx];
    if TweakStep(c, a, tw).Ok? {
      OneTweak(c, TweakStep(c, a, tw).value, tx);
    }
  }

  /** The child tweak alone: the session key has the internal key as its x coordinate. */
  lemma InternalKeyAgrees(c: Crypto, q0: int, il: nat)
    requires InGroup(c, q0) && il < c.n
    ensures ApplyTweaks(c, q0, [Tweak(il, false)]).Ok? <==> AddExpTweak(c, q0, il).Some?
    ensures ApplyTweaks(c, q0, [Tweak(il, false)]).Ok? ==>
              ApplyTweaks(c, q0, [Tweak(il, false)]).value.q == AddExpTweak(c, q0, il).value
    ensures TaprootFrom(c, q0, il).Ok? ==>
              && ApplyTweaks(c, q0, [Tweak(il, false)]).Ok?
              && c.xb(ApplyTweaks(c, q0, [Tweak(il, false)]).value.q) == TaprootFrom(c, q0, il).value.internal
  {
    hide AddExpTweak, TweakStep;
    OneTweak(c, TweakAcc(q0, 1, 0), Tweak(il, false));
    StepIsAddExp(c, TweakAcc(q0, 1, 0), Tweak(il, false));
  }

  /** Both derivations of the taproot key agree: the session's two tweaks succeed exactly when the
      vault's taproot context exists, and then lead to its output key, whatever the parities. */
  lemma TaprootDerivationsAgree(c: Crypto, q0: int, il: nat)
    requires InGroup(c, q0) && il < c.n && AddExpTweak(c, q0, il).Some?
    ensures var internal := c.xb(AddExpTweak(c, q0, il).value);
      var tweaks := [Tweak(il, false), Tweak(TapTweak(c, internal), true)];
      && (ApplyTweaks(c, q0, tweaks).Ok? <==> TaprootFrom(c, q0, il).Ok?)
      && (TaprootFrom(c, q0, il).Ok? ==>
            c.xb(ApplyTweaks(c, q0, tweaks).value.q) == TaprootFrom(c, q0, il).value.output)
  {
    hide AddExpTweak, TapTweak;
    var a := TweakAcc(q0, 1, 0);
    var child := AddExpTweak(c, q0, il).value;
    var plain, xonly := Tweak(il, false), Tweak(TapTweak(c, c.xb(child)), true);
    TwoTweaks(c, a, plain, xonly);
    StepIsAddExp(c, a, plain);
    var next := TweakStep(c, a, plain).value;
    if xonly.t < c.n {
      StepIsAddExp(c, next, xonly);
      EvenPointIsSigned(c, child);
    }
  }
}
