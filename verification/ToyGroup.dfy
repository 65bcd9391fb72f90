// A group of order 3 with hashes of a few chosen values, in which concrete cases can be computed.
module ToyGroup {
  import opened Wrappers
  import opened Bytes
  import opened Zn
  import opened Curve
  import opened KeyAgg
  import opened Vault

  /** The chain code is the first chain code hashed, the taproot tweak is 3, which is not below the order,
      the challenge is 1, and every other tagged hash has the value 2. */
  function Tagged(t: string, d: bytes): (h: bytes)
    ensures |h| == 32
  {
    if t == CHAINCODE_TAG && |d| >= 65 then d[33..65]
    else if t == "TapTweak" then Zeros(31) + [3]
    else if t == "BIP0340/challenge" then Zeros(31) + [1]
    else Zeros(31) + [2]
  }

  lemma RetagLawful(g: CryptoFns, tagged: (string, bytes) -> bytes)
    requires Lawful(g) && forall t, d :: |tagged(t, d)| == 32
    ensures Lawful(g.(tagged := tagged))
  {
    var c := g.(tagged := tagged);
    assert forall p :: Ser(c, p) == Ser(g, p);
  }

  function Toy(): (c: Crypto)
    ensures c == SmallestGroup().(tagged := Tagged)
  {
    RetagLawful(SmallestGroup(), Tagged);
    SmallestGroup().(tagged := Tagged)
  }

  lemma ToyKeys(c: Crypto)
    requires c == Toy()
    ensures Ser(c, 1) == [2] + Zeros(32) && Ser(c, 2) == [3] + Zeros(32)
  {
  }

  lemma {:induction false} ZerosInFront(k: nat, x: byte)
    ensures BE(Zeros(k) + [x]) == x
  {
    var s := Zeros(k) + [x];
    if k == 0 {
      assert s == [x] && s[1..] == [];
    } else {
      ZerosInFront(k - 1, x);
      assert s[1..] == Zeros(k - 1) + [x];
      ShiftMono(0, 0, |s| - 1);
    }
  }

  lemma ToyCoefficients(c: Crypto, pk: bytes, pk': bytes)
    requires c == Toy() && pk != pk'
    ensures Coeff(c, [pk, pk'], pk) == 2 && Coeff(c, [pk, pk'], pk') == 1
  {
    assert [pk, pk'][1..] == [pk'];
    ZerosInFront(31, 2);
    ModSmall(3, 2);
    hide BE, Zeros;
    assert FirstOther(pk, [pk']) == pk';
  }

  lemma ToyTerm(c: Crypto, pks: seq<bytes>, pk: bytes, p: int)
    requires c == Toy() && pks != [] && c.lift(pk) == Some(p) && 0 < p < 3 && p * Coeff(c, pks, pk) == 2
    ensures KeyTerm(c, pks, pk) == Ok(2)
  {
    hide Coeff;
    ModSmall(3, 2);
    assert Coeff(c, pks, pk) != 0;
  }

  lemma ToySum(c: Crypto, pks: seq<bytes>, pk: bytes, pk': bytes)
    requires c.n == 3 && pks != [] && KeyTerm(c, pks, pk) == Ok(2) && KeyTerm(c, pks, pk') == Ok(2)
    ensures KeySum(c, pks, [pk, pk'], None) == Ok(Some(1))
  {
    hide KeyTerm;
    assert Mod(3, 4) == 1;
    assert Combine(c, 2, 2) == Ok(1);
    assert KeyStep(c, pks, pk, None) == Ok(2) && KeyStep(c, pks, pk', Some(2)) == Ok(1);
    assert [pk, pk'][1..] == [pk'];
    assert KeySum(c, pks, [], Some(1)) == Ok(Some(1));
    assert [pk'][1..] == [];
    assert KeySum(c, pks, [pk'], Some(2)) == Ok(Some(1));
  }

  lemma ToyAggregates(c: Crypto, pk: bytes, pk': bytes)
    requires c == Toy() && pk == Ser(c, 1) && pk' == Ser(c, 2) && pk != pk'
    ensures Aggregate(c, [pk, pk']).Ok? && Aggregate(c, [pk, pk']).value.aggPubkey == 1
  {
    assert c.lift(pk) == Some(1) && c.lift(pk') == Some(2);
    hide Toy, Coeff, KeyTerm, KeySum, Ser;
    ToyCoefficients(c, pk, pk');
    ToyTerm(c, [pk, pk'], pk, 1);
    ToyTerm(c, [pk, pk'], pk', 2);
    ToySum(c, [pk, pk'], pk, pk');
  }
}
