// The aggregate payment code of a built vault, from the pairs that were scanned.
module BuiltCode {
  import opened Wrappers
  import opened Bytes
  import opened Curve
  import opened KeyAgg
  import opened Bip47
  import opened Sorting
  import opened Vault
  import opened Identity

  /** The pairs scanned first for each key, in ascending order of the keys. */
  ghost predicate IsPairList(c: Crypto, raws: seq<string>, pairs: seq<Pair>) {
    && (forall i, j :: 0 <= i < j < |pairs| ==> LexLe(pairs[i].pk, pairs[j].pk) && pairs[i].pk != pairs[j].pk)
    && (forall p: Pair :: p in pairs <==> FirstPair(c, raws, p.pk) == Some(p))
  }

  /** Keys and chain codes one after the other, 65 bytes for each pair. */
  ghost predicate IsPairText(pairs: seq<Pair>, all: bytes) {
    && |all| == 65 * |pairs|
    && forall i :: 0 <= i < |pairs| ==> all[65 * i..65 * i + 33] == pairs[i].pk && all[65 * i + 33..65 * i + 65] == pairs[i].cc
  }

  lemma {:induction false} PairTextIsFlat(pairs: seq<Pair>, all: bytes)
    requires IsPairText(pairs, all)
    ensures all == FlattenPairs(pairs)
  {
    if pairs != [] {
      var rest := all[65..];
      forall i | 0 <= i < |pairs| - 1
        ensures rest[65 * i..65 * i + 33] == pairs[1..][i].pk && rest[65 * i + 33..65 * i + 65] == pairs[1..][i].cc
      {
        assert rest[65 * i..65 * i + 33] == all[65 * (i + 1)..65 * (i + 1) + 33];
        assert rest[65 * i + 33..65 * i + 65] == all[65 * (i + 1) + 33..65 * (i + 1) + 65];
      }
      PairTextIsFlat(pairs[1..], rest);
      assert all == all[0..33] + (all[33..65] + rest);
      FlattenHead(pairs);
    }
  }

  lemma PairListIsSorted(c: Crypto, raws: seq<string>, pairs: seq<Pair>)
    requires Collect(c, raws).Ok? && IsPairList(c, raws, pairs)
    ensures pairs == SortedPairs(c, raws) && |pairs| == |Collect(c, raws).value.pairs|
  {
    var kept := Collect(c, raws).value.pairs;
    hide Collect, FirstPair, SortBy, LexLe, AllParse;
    CollectedParse(c, raws);
    CollectKeepsKeys(c, raws);
    forall p: Pair
      ensures multiset(kept)[p] == multiset(pairs)[p]
    {
      CollectKeepsFirst(c, raws, p.pk);
      DistinctCount(kept, p);
      DistinctCount(pairs, p);
    }
    assert multiset(kept) == multiset(pairs);
    assert |multiset(kept)| == |kept| && |multiset(pairs)| == |pairs|;
    SameContentsSorted(pairs, kept);
    SortedAlready(pairs);
  }

  lemma SortedAlready(pairs: seq<Pair>)
    requires SortedBy(PairKey(), pairs) && DistinctKeys(pairs)
    ensures SortBy(PairKey(), pairs) == pairs
  {
    hide SortBy, LexLe;
    SortContents(PairKey(), pairs);
    SortSorted(PairKey(), pairs);
    forall x, y | x in pairs && y in pairs && PairKey()(x) == PairKey()(y)
      ensures x == y
    {
    }
    SortedIsUnique(PairKey(), pairs, SortBy(PairKey(), pairs));
  }

  /**
   * A scan of codes that parse builds a vault exactly if it has two keys at least and the keys, sorted,
   * aggregate. The code then holds the aggregate key, and as its chain code the tagged hash of all keys and
   * the chain codes first scanned for them, in the order of the keys.
   */
  lemma BuiltCodeExactly(c: Crypto, raws: seq<string>, pairs: seq<Pair>, all: bytes)
    requires AllParse(c, raws) && IsPairList(c, raws, pairs) && IsPairText(pairs, all)
    ensures Build(c, raws).Ok? <==> |pairs| >= 2 && Aggregate(c, Keys(pairs)).Ok?
    ensures Build(c, raws).Ok? ==>
      && Parse(c, Build(c, raws).value.aggregateCode).Some?
      && var pc := Parse(c, Build(c, raws).value.aggregateCode).value;
      && pc.pubkey == Ser(c, Aggregate(c, Keys(pairs)).value.aggPubkey)
      && pc.chaincode == c.tagged("KeyOS DojoSigner MuSig2 BIP47 chaincode", all)
  {
    CollectKeepsKeys(c, raws);
    HashedPairs(c, pairs, all);
    hide *;
    PairListIsSorted(c, raws, pairs);
    BuildParts(c, raws);
    if Build(c, raws).Ok? {
      CodeParses(c, Aggregate(c, Keys(pairs)).value.aggPubkey, ChainCode(c, pairs));
    }
  }

  lemma HashedPairs(c: Crypto, pairs: seq<Pair>, all: bytes)
    requires IsPairText(pairs, all)
    ensures ChainCode(c, pairs) == c.tagged("KeyOS DojoSigner MuSig2 BIP47 chaincode", all)
  {
    PairTextIsFlat(pairs, all);
    hide FlattenPairs, IsPairText;
  }

  lemma CodeParses(c: Crypto, q: int, cc: b32)
    requires InGroup(c, q)
    ensures Parse(c, CodeFor(c, q, cc).raw).Some?
    ensures Parse(c, CodeFor(c, q, cc).raw).value.pubkey == Ser(c, q) && Parse(c, CodeFor(c, q, cc).raw).value.chaincode == cc
  {
    hide Parse, Payload, EncodePaymentCode;
    SerParts(c, q);
    ParsePrinted(c, Ser(c, q), cc);
  }
}
