// When two scans of payment codes build the same vault: exactly when they agree on the pair scanned
// first for every key, up to a collision of the hash that makes the chain code.
module Identity {
  import opened Wrappers
  import opened Bytes
  import opened Curve
  import opened KeyAgg
  import opened Bip47
  import opened Sorting
  import opened Vault

  // ---- What a built vault holds ----

  lemma {:induction false} CollectedParse(c: Crypto, raws: seq<string>)
    requires Collect(c, raws).Ok?
    ensures AllParse(c, raws)
  {
    hide Parse;
    if raws != [] {
      CollectedParse(c, raws[..|raws| - 1]);
      assert raws == raws[..|raws| - 1] + [raws[|raws| - 1]];
    }
  }

  /** The pairs a scan keeps, sorted by key. */
  function SortedPairs(c: Crypto, raws: seq<string>): seq<Pair>
    requires Collect(c, raws).Ok?
  {
    SortBy(PairKey(), Collect(c, raws).value.pairs)
  }

  /** When a scan builds a vault, and with which code. */
  lemma BuildParts(c: Crypto, raws: seq<string>)
    requires Collect(c, raws).Ok?
    ensures Build(c, raws).Ok? <==>
      |Collect(c, raws).value.pairs| >= 2 && Aggregate(c, Keys(SortedPairs(c, raws))).Ok?
    ensures Build(c, raws).Ok? ==>
      Build(c, raws).value.aggregateCode
        == CodeFor(c, Aggregate(c, Keys(SortedPairs(c, raws))).value.aggPubkey, ChainCode(c, SortedPairs(c, raws))).raw
  {
    hide Parse, Aggregate, SortBy, CodeFor, ChainCode, Keys;
    CollectedCount(c, raws);
  }

  // ---- The same keys ----

  lemma KeysOfDistinct(pairs: seq<Pair>)
    requires DistinctKeys(pairs)
    ensures Unique(Keys(pairs))
    ensures forall pk :: pk in Keys(pairs) <==> Seen(pairs, pk)
  {
    forall pk
      ensures pk in Keys(pairs) <==> Seen(pairs, pk)
    {
      if Seen(pairs, pk) {
        var i :| 0 <= i < |pairs| && pairs[i].pk == pk;
        assert Keys(pairs)[i] == pk;
      }
      if pk in Keys(pairs) {
        var i :| 0 <= i < |pairs| && Keys(pairs)[i] == pk;
        assert pairs[i].pk == pk;
      }
    }
  }

  ghost predicate SameKeys(c: Crypto, xs: seq<string>, ys: seq<string>) {
    forall pk :: FirstPair(c, xs, pk).Some? <==> FirstPair(c, ys, pk).Some?
  }

  /** Scans of the same keys aggregate the same list of keys. */
  lemma SameKeysSameList(c: Crypto, xs: seq<string>, ys: seq<string>)
    requires AllParse(c, xs) && AllParse(c, ys) && SameKeys(c, xs, ys)
    ensures Collect(c, xs).Ok? && Collect(c, ys).Ok?
    ensures Keys(SortedPairs(c, xs)) == Keys(SortedPairs(c, ys))
    ensures |Collect(c, xs).value.pairs| == |Collect(c, ys).value.pairs|
  {
    CollectKeepsKeys(c, xs);
    CollectKeepsKeys(c, ys);
    hide AllParse, Collect, FirstPair, DistinctKeys, Seen, SortBy, KeySort, Keys;
    var a, b := Collect(c, xs).value.pairs, Collect(c, ys).value.pairs;
    KeysOfDistinct(a);
    KeysOfDistinct(b);
    forall pk
      ensures pk in Keys(a) <==> pk in Keys(b)
    {
      CollectKeepsFirst(c, xs, pk);
      CollectKeepsFirst(c, ys, pk);
    }
    SameKeysSameContents(Keys(a), Keys(b));
    SortedKeys(a);
    SortedKeys(b);
    KeySortCanonical(Keys(a), Keys(b));
    KeysLength(a);
    KeysLength(b);
    assert |multiset(Keys(a))| == |Keys(a)| && |multiset(Keys(b))| == |Keys(b)|;
  }

  lemma KeysLength(pairs: seq<Pair>)
    ensures |Keys(pairs)| == |pairs|
  {
  }

  /** So they all build a vault or none does, whatever chain codes were scanned and in which order. */
  lemma SameKeysBuildAlike(c: Crypto, xs: seq<string>, ys: seq<string>)
    requires AllParse(c, xs) && AllParse(c, ys) && SameKeys(c, xs, ys)
    ensures Build(c, xs).Ok? <==> Build(c, ys).Ok?
  {
    hide *;
    SameKeysSameList(c, xs, ys);
    BuildParts(c, xs);
    BuildParts(c, ys);
  }

  // ---- The same code ----

  lemma FlattenHead(pairs: seq<Pair>)
    requires pairs != []
    ensures FlattenPairs(pairs) == pairs[0].pk + (pairs[0].cc + FlattenPairs(pairs[1..]))
  {
  }

  /** The hashed string is cut back into its 65-byte pairs. */
  lemma {:induction false} FlattenInjective(xs: seq<Pair>, ys: seq<Pair>)
    requires FlattenPairs(xs) == FlattenPairs(ys)
    ensures xs == ys
    decreases |xs|
  {
    if xs != [] && ys != [] {
      FlattenHead(xs);
      FlattenHead(ys);
      hide FlattenPairs;
      SplitEqual(xs[0].pk, xs[0].cc + FlattenPairs(xs[1..]), ys[0].pk, ys[0].cc + FlattenPairs(ys[1..]));
      SplitEqual(xs[0].cc, FlattenPairs(xs[1..]), ys[0].cc, FlattenPairs(ys[1..]));
      FlattenInjective(xs[1..], ys[1..]);
      assert xs == [xs[0]] + xs[1..] && ys == [ys[0]] + ys[1..];
    }
  }

  /** A printed payment code determines its key and its chain code. */
  lemma CodeDetermines(c: Crypto, q: int, cc: b32, q': int, cc': b32)
    requires InGroup(c, q) && InGroup(c, q') && CodeFor(c, q, cc).raw == CodeFor(c, q', cc').raw
    ensures q == q' && cc == cc'
  {
    hide Payload, EncodePaymentCode, Parse;
    SerParts(c, q);
    SerParts(c, q');
    ParsePrinted(c, Ser(c, q), cc);
    ParsePrinted(c, Ser(c, q'), cc');
    SerInjective(c, q, q');
  }

  ghost predicate SameFirstPairs(c: Crypto, xs: seq<string>, ys: seq<string>) {
    forall pk :: FirstPair(c, xs, pk) == FirstPair(c, ys, pk)
  }

  /** The string whose hash is the vault's chain code. */
  function ChainInput(c: Crypto, raws: seq<string>): bytes
    requires Collect(c, raws).Ok?
  {
    FlattenPairs(SortedPairs(c, raws))
  }

  /** The two scans hash different strings to one chain code. */
  ghost predicate ChainCollision(c: Crypto, xs: seq<string>, ys: seq<string>)
    requires Collect(c, xs).Ok? && Collect(c, ys).Ok?
  {
    ChainInput(c, xs) != ChainInput(c, ys)
    && c.tagged(CHAINCODE_TAG, ChainInput(c, xs)) == c.tagged(CHAINCODE_TAG, ChainInput(c, ys))
  }

  lemma SameSortedSameFirst(c: Crypto, xs: seq<string>, ys: seq<string>)
    requires Collect(c, xs).Ok? && Collect(c, ys).Ok? && SortedPairs(c, xs) == SortedPairs(c, ys)
    ensures SameFirstPairs(c, xs, ys)
  {
    hide Collect, FirstPair, SortBy, Seen;
    var a, b := Collect(c, xs).value.pairs, Collect(c, ys).value.pairs;
    SortContents(PairKey(), a);
    SortContents(PairKey(), b);
    assert multiset(a) == multiset(b);
    assert forall p :: p in a <==> p in multiset(a);
    assert forall p :: p in b <==> p in multiset(b);
    forall pk
      ensures FirstPair(c, xs, pk) == FirstPair(c, ys, pk)
    {
      CollectKeepsFirst(c, xs, pk);
      CollectKeepsFirst(c, ys, pk);
      var f, g := FirstPair(c, xs, pk), FirstPair(c, ys, pk);
      if f.Some? { assert f.value in a; }
      if g.Some? { assert g.value in b; }
    }
  }

  /** Two built vaults with one code hashed their pairs to one chain code. */
  lemma SameCodeSameChain(c: Crypto, xs: seq<string>, ys: seq<string>)
    requires Build(c, xs).Ok? && Build(c, ys).Ok?
    requires Build(c, xs).value.aggregateCode == Build(c, ys).value.aggregateCode
    ensures Collect(c, xs).Ok? && Collect(c, ys).Ok?
    ensures c.tagged(CHAINCODE_TAG, ChainInput(c, xs)) == c.tagged(CHAINCODE_TAG, ChainInput(c, ys))
  {
    BuiltCollects(c, xs);
    BuiltCollects(c, ys);
    hide Build, Collect, Aggregate, SortedPairs, Keys, CodeFor, FlattenPairs;
    BuildParts(c, xs);
    BuildParts(c, ys);
    CodeDetermines(c, Aggregate(c, Keys(SortedPairs(c, xs))).value.aggPubkey, ChainCode(c, SortedPairs(c, xs)),
                   Aggregate(c, Keys(SortedPairs(c, ys))).value.aggPubkey, ChainCode(c, SortedPairs(c, ys)));
  }

  lemma BuiltCollects(c: Crypto, raws: seq<string>)
    requires Build(c, raws).Ok?
    ensures Collect(c, raws).Ok?
  {
    hide Collect, AggregateCode;
  }

  /**
   * Two vaults have one aggregate code if and only if the scans agree on the pair scanned first for
   * every key, the only exception being a collision of the chain code hash.
   */
  lemma SameCodeExactly(c: Crypto, xs: seq<string>, ys: seq<string>)
    requires Build(c, xs).Ok? && Build(c, ys).Ok?
    ensures Collect(c, xs).Ok? && Collect(c, ys).Ok?
    ensures SameFirstPairs(c, xs, ys) ==> Build(c, xs).value.aggregateCode == Build(c, ys).value.aggregateCode
    ensures Build(c, xs).value.aggregateCode == Build(c, ys).value.aggregateCode ==>
              SameFirstPairs(c, xs, ys) || ChainCollision(c, xs, ys)
  {
    BuiltCollects(c, xs);
    BuiltCollects(c, ys);
    hide Build, Collect, FirstPair, SortedPairs, FlattenPairs, AllParse;
    CollectedParse(c, xs);
    CollectedParse(c, ys);
    if SameFirstPairs(c, xs, ys) {
      SameFirstPairsSameVault(c, xs, ys);
    }
    if Build(c, xs).value.aggregateCode == Build(c, ys).value.aggregateCode {
      SameCodeSameChain(c, xs, ys);
      if ChainInput(c, xs) == ChainInput(c, ys) {
        FlattenInjective(SortedPairs(c, xs), SortedPairs(c, ys));
        SameSortedSameFirst(c, xs, ys);
      }
    }
  }

  // ---- Two chain codes for one key ----

  lemma {:induction false} FirstScanWins(c: Crypto, a: string, rest: seq<string>)
    requires Parse(c, a).Some?
    ensures FirstPair(c, [a] + rest, Parse(c, a).value.pubkey) == Some(PairOf(Parse(c, a).value))
  {
    hide Parse;
    if rest == [] {
      assert [a] + rest == [a] && [a][..0] == [];
      assert FirstPair(c, [], Parse(c, a).value.pubkey) == None;
    } else {
      FirstScanWins(c, a, rest[..|rest| - 1]);
      assert ([a] + rest)[..|rest|] == [a] + rest[..|rest| - 1];
    }
  }

  /** Whether a key was scanned does not depend on the order. */
  lemma FirstPairExists(c: Crypto, raws: seq<string>, pk: bytes)
    requires AllParse(c, raws)
    ensures FirstPair(c, raws, pk).Some? <==> exists p :: Scanned(c, raws, p) && p.pk == pk
  {
    CollectKeepsKeys(c, raws);
    CollectKeepsFirst(c, raws, pk);
    hide AllParse, Collect, FirstPair, Scanned;
    var pairs := Collect(c, raws).value.pairs;
    if FirstPair(c, raws, pk).Some? {
      assert FirstPair(c, raws, pk).value in pairs;
    }
  }

  lemma ScannedInAnyOrder(c: Crypto, xs: seq<string>, ys: seq<string>)
    requires multiset(xs) == multiset(ys)
    ensures AllParse(c, xs) <==> AllParse(c, ys)
    ensures forall p :: Scanned(c, xs, p) <==> Scanned(c, ys, p)
  {
    hide Parse;
    assert forall r :: r in xs <==> r in multiset(xs);
    assert forall r :: r in ys <==> r in multiset(ys);
    assert forall r :: r in xs <==> r in ys;
  }

  lemma SameKeysInAnyOrder(c: Crypto, xs: seq<string>, ys: seq<string>)
    requires AllParse(c, xs) && multiset(xs) == multiset(ys)
    ensures AllParse(c, ys) && SameKeys(c, xs, ys)
  {
    hide AllParse, FirstPair, Scanned;
    ScannedInAnyOrder(c, xs, ys);
    forall pk
      ensures FirstPair(c, xs, pk).Some? <==> FirstPair(c, ys, pk).Some?
    {
      FirstPairExists(c, xs, pk);
      FirstPairExists(c, ys, pk);
    }
  }

  /**
   * Scanning the same codes in another order builds a vault if and only if the first order does, and
   * the same vault if and only if the first pairs agree, up to a collision.
   */
  lemma OrderMattersExactly(c: Crypto, xs: seq<string>, ys: seq<string>)
    requires AllParse(c, xs) && multiset(xs) == multiset(ys)
    ensures Build(c, xs).Ok? <==> Build(c, ys).Ok?
    ensures Build(c, xs).Ok? ==>
      && Collect(c, xs).Ok? && Collect(c, ys).Ok?
      && (SameFirstPairs(c, xs, ys) ==> Build(c, xs).value.aggregateCode == Build(c, ys).value.aggregateCode)
      && (Build(c, xs).value.aggregateCode == Build(c, ys).value.aggregateCode ==>
            SameFirstPairs(c, xs, ys) || ChainCollision(c, xs, ys))
  {
    hide *;
    SameKeysInAnyOrder(c, xs, ys);
    SameKeysBuildAlike(c, xs, ys);
    if Build(c, xs).Ok? { SameCodeExactly(c, xs, ys); }
  }

  lemma TwoInFront(a: string, a': string, rest: seq<string>)
    ensures [a, a'] + rest == [a] + ([a'] + rest)
    ensures multiset([a, a'] + rest) == multiset([a', a] + rest)
  {
  }

  /**
   * A key scanned with two chain codes: swapping the two scans changes the aggregate code of every
   * vault they are part of, unless the chain code hash collides.
   */
  lemma TwoChainCodesOrderMatters(c: Crypto, a: string, a': string, rest: seq<string>)
    requires AllParse(c, [a, a'] + rest)
    requires Parse(c, a).Some? && Parse(c, a').Some? && Parse(c, a).value.pubkey == Parse(c, a').value.pubkey
    requires Parse(c, a).value.chaincode != Parse(c, a').value.chaincode
    ensures Build(c, [a, a'] + rest).Ok? <==> Build(c, [a', a] + rest).Ok?
    ensures Build(c, [a, a'] + rest).Ok? ==>
      && Collect(c, [a, a'] + rest).Ok? && Collect(c, [a', a] + rest).Ok?
      && (Build(c, [a, a'] + rest).value.aggregateCode != Build(c, [a', a] + rest).value.aggregateCode
          || ChainCollision(c, [a, a'] + rest, [a', a] + rest))
  {
    var pk := Parse(c, a).value.pubkey;
    hide Parse, Build, Collect, FirstPair, AllParse, ChainCollision;
    TwoInFront(a, a', rest);
    TwoInFront(a', a, rest);
    OrderMattersExactly(c, [a, a'] + rest, [a', a] + rest);
    FirstScanWins(c, a, [a'] + rest);
    FirstScanWins(c, a', [a] + rest);
    assert FirstPair(c, [a, a'] + rest, pk) != FirstPair(c, [a', a] + rest, pk);
  }

  /** The text a device shows for its key and chain code. */
  function Printed(c: Crypto, pk: b33, cc: b32): string {
    EncodePaymentCode(c, Payload(pk, cc))
  }

  /** Such texts exist: every compressed key prints with any two chain codes. */
  lemma TwoPrintedCodes(c: Crypto, pk: b33, cc: b32, cc': b32, rest: seq<string>)
    requires IsCompressed(pk) && cc != cc' && AllParse(c, rest)
    ensures var (xs, ys) := ([Printed(c, pk, cc), Printed(c, pk, cc')] + rest, [Printed(c, pk, cc'), Printed(c, pk, cc)] + rest);
      && (Build(c, xs).Ok? <==> Build(c, ys).Ok?)
      && (Build(c, xs).Ok? ==>
            && Collect(c, xs).Ok? && Collect(c, ys).Ok?
            && (Build(c, xs).value.aggregateCode != Build(c, ys).value.aggregateCode || ChainCollision(c, xs, ys)))
  {
    hide Parse, Build, Collect, ChainCollision, Payload, EncodePaymentCode;
    ParsePrinted(c, pk, cc);
    ParsePrinted(c, pk, cc');
    TwoChainCodesOrderMatters(c, Printed(c, pk, cc), Printed(c, pk, cc'), rest);
  }
}
