// Three scans, two of one device with different chain codes, that build different vaults in
// different orders: a group of order 3 and a chain code hash that tells their pairs apart are enough.
module OrderExample {
  import opened Wrappers
  import opened Bytes
  import opened Curve
  import opened KeyAgg
  import opened Bip47
  import opened Sorting
  import opened Vault
  import opened Identity
  import opened ToyGroup

  lemma OneMoreScan(c: Crypto, front: seq<string>, r: string, pc: PaymentCode)
    requires Collect(c, front).Ok? && Parse(c, r) == Some(pc)
    ensures Collect(c, front + [r]) == Ok(Scan(Collect(c, front).value, r, pc))
  {
    hide Parse, Scan;
    assert (front + [r])[..|front|] == front;
  }

  lemma ToyCollects(c: Crypto, pk: b33, pk': b33, cc: b32, cc': b32, other: b32)
    requires IsCompressed(pk) && IsCompressed(pk') && pk != pk'
    ensures var raws := [Printed(c, pk, cc), Printed(c, pk, cc'), Printed(c, pk', other)];
      && AllParse(c, raws)
      && Collect(c, raws).Ok? && Collect(c, raws).value.pairs == [Pair(pk, cc), Pair(pk', other)]
  {
    hide Payload, EncodePaymentCode, Parse, Collect;
    ParsePrinted(c, pk, cc);
    ParsePrinted(c, pk, cc');
    ParsePrinted(c, pk', other);
    var x, y, z := Printed(c, pk, cc), Printed(c, pk, cc'), Printed(c, pk', other);
    ThreeScans(c, x, y, z, PaymentCode(x, pk, cc), PaymentCode(y, pk, cc'), PaymentCode(z, pk', other));
  }

  lemma ThreeScans(c: Crypto, x: string, y: string, z: string, u: PaymentCode, v: PaymentCode, w: PaymentCode)
    requires Parse(c, x) == Some(u) && Parse(c, y) == Some(v) && Parse(c, z) == Some(w)
    requires u.pubkey == v.pubkey != w.pubkey
    ensures Collect(c, [x, y, z]).Ok? && Collect(c, [x, y, z]).value.pairs == [PairOf(u), PairOf(w)]
  {
    hide Parse, Collect, PairOf;
    assert [] + [x] == [x] && [x] + [y] == [x, y] && [x, y] + [z] == [x, y, z];
    NoScans(c);
    OneMoreScan(c, [], x, u);
    OneMoreScan(c, [x], y, v);
    OneMoreScan(c, [x, y], z, w);
    PairOfKey(u);
    PairOfKey(w);
    var p, q := PairOf(u), PairOf(w);
    assert [p][0].pk == u.pubkey;
    assert [] + [p] == [p] && [p] + [q] == [p, q];
    assert !Seen([], u.pubkey) && Seen([p], v.pubkey) && !Seen([p], w.pubkey);
  }

  lemma PairOfKey(pc: PaymentCode)
    ensures PairOf(pc).pk == pc.pubkey
  {
  }

  lemma NoScans(c: Crypto)
    ensures Collect(c, []) == Ok(Collected([], []))
  {
  }

  lemma ToySorts(c: Crypto, pk: b33, pk': b33, cc: b32, other: b32)
    requires c == Toy() && pk[0] < pk'[0]
    ensures var pairs := [Pair(pk, cc), Pair(pk', other)];
      && SortBy(PairKey(), pairs) == pairs && Keys(pairs) == [pk, pk']
      && c.tagged(CHAINCODE_TAG, FlattenPairs(pairs)) == cc
  {
    var p, q := Pair(pk, cc), Pair(pk', other);
    assert [p, q][1..] == [q] && [q][1..] == [];
    FlattenHead([p, q]);
    assert SortBy(PairKey(), [q]) == [q];
    var rest := FlattenPairs([q]);
    assert FlattenPairs([p, q]) == pk + (cc + rest);
    assert (pk + (cc + rest))[33..65] == cc;
  }

  lemma OrderMattersFor(c: Crypto, pk: b33, pk': b33, cc: b32, cc': b32)
    requires c == Toy() && pk == Ser(c, 1) && pk' == Ser(c, 2)
    requires IsCompressed(pk) && IsCompressed(pk') && pk[0] < pk'[0] && cc != cc'
    ensures var (a, a', b) := (Printed(c, pk, cc), Printed(c, pk, cc'), Printed(c, pk', cc));
      && Build(c, [a, a', b]).Ok? && Build(c, [a', a, b]).Ok?
      && Build(c, [a, a', b]).value.aggregateCode != Build(c, [a', a, b]).value.aggregateCode
  {
    hide Toy, Printed, Ser, Build, Collect, Aggregate, Keys, SortBy, FlattenPairs, PairKey, Parse;
    var a, a', b := Printed(c, pk, cc), Printed(c, pk, cc'), Printed(c, pk', cc);
    assert [a, a', b] == [a, a'] + [b] && [a', a, b] == [a', a] + [b];
    ToyCollects(c, pk, pk', cc, cc', cc);
    ToyCollects(c, pk, pk', cc', cc, cc);
    ToySorts(c, pk, pk', cc, cc);
    ToySorts(c, pk, pk', cc', cc);
    ToyAggregates(c, pk, pk');
    BuildParts(c, [a, a', b]);
    assert AllParse(c, [b]);
    TwoPrintedCodes(c, pk, cc, cc', [b]);
  }

  lemma SwapInFront(a: string, a': string, b: string)
    ensures multiset([a, a', b]) == multiset([a', a, b])
  {
  }

  /** Both orders build a vault, and the vaults have different codes. */
  lemma OrderMatters() returns (c: Crypto, xs: seq<string>, ys: seq<string>)
    ensures multiset(xs) == multiset(ys)
    ensures Build(c, xs).Ok? && Build(c, ys).Ok?
    ensures Build(c, xs).value.aggregateCode != Build(c, ys).value.aggregateCode
  {
    hide Toy, Build, Payload, EncodePaymentCode, Printed, Ser;
    c := Toy();
    ToyKeys(c);
    var pk: b33, pk': b33 := [2] + Zeros(32), [3] + Zeros(32);
    var cc: b32, cc': b32 := Zeros(32), [1] + Zeros(31);
    assert pk[0] == 2 && pk'[0] == 3 && cc[0] == 0 && cc'[0] == 1;
    hide Zeros;
    OrderMattersFor(c, pk, pk', cc, cc');
    xs := [Printed(c, pk, cc), Printed(c, pk, cc'), Printed(c, pk', cc)];
    ys := [Printed(c, pk, cc'), Printed(c, pk, cc), Printed(c, pk', cc)];
    SwapInFront(Printed(c, pk, cc), Printed(c, pk, cc'), Printed(c, pk', cc));
  }
}
