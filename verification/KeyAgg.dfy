// BIP-327 key aggregation: the aggregate key as a weighted sum of the participants' keys.
module KeyAgg {
  import opened Wrappers
  import opened Bytes
  import opened Zn
  import opened Curve

  datatype KeyAggCtx = KeyAggCtx(pks: seq<bytes>, coeffs: seq<nat>, aggPubkey: int, aggXonly: bytes)

  /** The first key of `rest` other than `first`, and 33 zero bytes when there is none. */
  function FirstOther(first: bytes, rest: seq<bytes>): bytes {
    if rest == [] then Zeros(33)
    else if rest[0] != first then rest[0]
    else FirstOther(first, rest[1..])
  }

  function Flatten(pks: seq<bytes>): bytes {
    if pks == [] then [] else pks[0] + Flatten(pks[1..])
  }

  /** The coefficient of a key in a key list: it depends on the key, not on its position. */
  function Coeff(c: Crypto, pks: seq<bytes>, pk: bytes): (a: nat)
    requires pks != []
    ensures a < c.n
  {
    if pk == FirstOther(pks[0], pks[1..]) then 1
    else ScalarOf(c, c.tagged("KeyAgg coefficient", c.tagged("KeyAgg list", Flatten(pks)) + pk))
  }

  function Coeffs(c: Crypto, pks: seq<bytes>, some: seq<bytes>): (s: seq<nat>)
    requires pks != []
    ensures |s| == |some|
  {
    seq(|some|, i requires 0 <= i < |some| => Coeff(c, pks, some[i]))
  }

  /** One key's contribution to the aggregate. */
  function KeyTerm(c: Crypto, pks: seq<bytes>, pk: bytes): (r: Result<int, MusigError>)
    requires pks != []
    ensures r.Ok? ==> InGroup(c, r.value)
  {
    match c.lift(pk)
    case None => Err(InvalidPublicKey)
    case Some(p) => MulTweak(c, p, Coeff(c, pks, pk))
  }

  /** The accumulator after one more key. */
  function KeyStep(c: Crypto, pks: seq<bytes>, pk: bytes, acc: Option<int>): (r: Result<int, MusigError>)
    requires pks != []
    ensures r.Ok? ==> InGroup(c, r.value)
  {
    match KeyTerm(c, pks, pk)
    case Err(e) => Err(e)
    case Ok(term) => if acc.None? then Ok(term) else Combine(c, acc.value, term)
  }

  function KeySum(c: Crypto, pks: seq<bytes>, rest: seq<bytes>, acc: Option<int>): (r: Result<Option<int>, MusigError>)
    requires pks != [] && Finite(c, acc)
    ensures r.Ok? ==> Finite(c, r.value)
    decreases |rest|
  {
    if rest == [] then Ok(acc)
    else match KeyStep(c, pks, rest[0], acc)
      case Err(e) => Err(e)
      case Ok(sum) => KeySum(c, pks, rest[1..], Some(sum))
  }

  /** KeyAgg over the given keys in the given order. */
  function Aggregate(c: Crypto, pks: seq<bytes>): (r: Result<KeyAggCtx, MusigError>)
    ensures r.Ok? ==> InGroup(c, r.value.aggPubkey)
  {
    if pks == [] then Err(NotEnoughParticipants)
    else match KeySum(c, pks, pks, None)
      case Err(e) => Err(e)
      case Ok(None) => Err(AggregationFailed)
      case Ok(Some(q)) => Ok(KeyAggCtx(pks, Coeffs(c, pks, pks), q, c.xb(q)))
  }

  /** The j-th key is the first one that differs from the first key. */
  ghost predicate IsSecondKey(pks: seq<bytes>, j: nat)
    requires pks != []
  {
    0 < j < |pks| && pks[j] != pks[0] && forall i :: 0 <= i < j ==> pks[i] == pks[0]
  }

  ghost predicate OneKey(pks: seq<bytes>)
    requires pks != []
  {
    forall i :: 0 <= i < |pks| ==> pks[i] == pks[0]
  }

  method SecondKey(pks: seq<bytes>) returns (pk2: bytes)
    requires pks != []
    ensures pk2 == FirstOther(pks[0], pks[1..])
    ensures forall j: nat :: IsSecondKey(pks, j) ==> pk2 == pks[j]
    ensures OneKey(pks) ==> pk2 == Zeros(33)
  {
    var k := 1;
    while k < |pks|
      invariant 1 <= k <= |pks|
      invariant forall i :: 0 <= i < k ==> pks[i] == pks[0]
      invariant FirstOther(pks[0], pks[k..]) == FirstOther(pks[0], pks[1..])
    {
      assert pks[k..][1..] == pks[k + 1..];
      if pks[k] != pks[0] {
        return pks[k];
      }
      k := k + 1;
    }
    pk2 := Zeros(33);
  }

  /** One more key of the fold. */
  lemma KeySumNext(c: Crypto, pks: seq<bytes>, i: nat, acc: Option<int>)
    requires i < |pks| && Finite(c, acc)
    ensures var pk := pks[i];
      && (KeyStep(c, pks, pk, acc).Err? ==> KeySum(c, pks, pks[i..], acc) == Err(KeyStep(c, pks, pk, acc).error))
      && (KeyStep(c, pks, pk, acc).Ok? ==>
            KeySum(c, pks, pks[i..], acc) == KeySum(c, pks, pks[i + 1..], Some(KeyStep(c, pks, pk, acc).value)))
  {
    hide KeyStep;
    assert pks[i..][0] == pks[i] && pks[i..][1..] == pks[i + 1..];
  }

  lemma KeyStepIs(c: Crypto, pks: seq<bytes>, pk: bytes, acc: Option<int>)
    requires pks != []
    ensures c.lift(pk).None? ==> KeyStep(c, pks, pk, acc) == Err(InvalidPublicKey)
    ensures c.lift(pk).Some? ==> InGroup(c, c.lift(pk).value)
    ensures c.lift(pk).Some? ==>
      var term := MulTweak(c, c.lift(pk).value, Coeff(c, pks, pk));
      && (term.Err? ==> KeyStep(c, pks, pk, acc) == Err(term.error))
      && (term.Ok? ==> InGroup(c, term.value)
                       && KeyStep(c, pks, pk, acc) == if acc.None? then Ok(term.value) else Combine(c, acc.value, term.value))
  {
    hide Coeff, Combine;
  }

  lemma CoeffsNext(c: Crypto, pks: seq<bytes>, i: nat)
    requires i < |pks|
    ensures Coeffs(c, pks, pks[..i + 1]) == Coeffs(c, pks, pks[..i]) + [Coeff(c, pks, pks[i])]
  {
    hide Coeff;
  }

  lemma AggregateEnds(c: Crypto, pks: seq<bytes>, acc: Option<int>)
    requires pks != [] && Finite(c, acc)
    ensures KeySum(c, pks, pks[|pks|..], acc) == Ok(acc)
    ensures KeySum(c, pks, pks[0..], None) == KeySum(c, pks, pks, None)
    ensures Coeffs(c, pks, pks[..0]) == [] && Coeffs(c, pks, pks[..|pks|]) == Coeffs(c, pks, pks)
  {
    assert pks[|pks|..] == [] && pks[0..] == pks && pks[..|pks|] == pks && pks[..0] == [];
  }

  lemma AggregateIs(c: Crypto, pks: seq<bytes>)
    ensures pks == [] ==> Aggregate(c, pks) == Err(NotEnoughParticipants)
    ensures pks != [] && KeySum(c, pks, pks, None).Err? ==> Aggregate(c, pks) == Err(KeySum(c, pks, pks, None).error)
    ensures pks != [] && KeySum(c, pks, pks, None).Ok? && KeySum(c, pks, pks, None).value.Some? ==>
      var q := KeySum(c, pks, pks, None).value.value;
      Aggregate(c, pks) == Ok(KeyAggCtx(pks, Coeffs(c, pks, pks), q, c.xb(q)))
  {
    hide KeySum, Coeffs;
  }

  lemma FiniteAcc(c: Crypto, acc: Option<int>)
    ensures acc.None? ==> Finite(c, acc)
    ensures acc.Some? && InGroup(c, acc.value) ==> Finite(c, acc)
  {
  }

  /** The coefficient as the loop computes it from what it prepared. */
  method KeyCoefficient(c: Crypto, pks: seq<bytes>, pk2: bytes, l: bytes, pk: bytes) returns (coeff: nat)
    requires pks != [] && pk2 == FirstOther(pks[0], pks[1..]) && l == c.tagged("KeyAgg list", Flatten(pks))
    ensures coeff == Coeff(c, pks, pk) && coeff < c.n
  {
    hide FirstOther, Flatten, ScalarOf;
    if pk == pk2 {
      coeff := 1;
    } else {
      coeff := ScalarOf(c, c.tagged("KeyAgg coefficient", l + pk));
    }
  }

  /** key_agg: the loop over the participants. */
  method KeyAggregate(c: Crypto, pks: seq<bytes>) returns (r: Result<KeyAggCtx, MusigError>)
    ensures r == Aggregate(c, pks)
  {
    hide *;
    AggregateIs(c, pks);
    if pks == [] {
      return Err(NotEnoughParticipants);
    }
    var pk2 := SecondKey(pks);
    var l := c.tagged("KeyAgg list", Flatten(pks));
    var coeffs: seq<nat> := [];
    var sum: Option<int> := None;
    var i := 0;
    FiniteAcc(c, sum);
    AggregateEnds(c, pks, sum);
    while i < |pks|
      invariant 0 <= i <= |pks| && Finite(c, sum)
      invariant coeffs == Coeffs(c, pks, pks[..i])
      invariant KeySum(c, pks, pks[i..], sum) == KeySum(c, pks, pks, None)
      invariant sum.None? <==> i == 0
    {
      var pk := pks[i];
      KeySumNext(c, pks, i, sum);
      KeyStepIs(c, pks, pk, sum);
      CoeffsNext(c, pks, i);
      var coeff := KeyCoefficient(c, pks, pk2, l, pk);
      var point := c.lift(pk);
      if point.None? {
        return Err(InvalidPublicKey);
      }
      var term := MulTweak(c, point.value, coeff);
      if term.Err? {
        return Err(term.error);
      }
      if sum.None? {
        sum := Some(term.value);
      } else {
        var next := Combine(c, sum.value, term.value);
        if next.Err? {
          return Err(next.error);
        }
        sum := Some(next.value);
      }
      FiniteAcc(c, sum);
      coeffs := coeffs + [coeff];
      i := i + 1;
    }
    AggregateEnds(c, pks, sum);
    r := Ok(KeyAggCtx(pks, coeffs, sum.value, c.xb(sum.value)));
  }

  // ---- The coefficients of BIP-327 ----

  lemma {:induction false} FirstOtherIs(first: bytes, rest: seq<bytes>, j: nat)
    requires j < |rest| && rest[j] != first && forall i :: 0 <= i < j ==> rest[i] == first
    ensures FirstOther(first, rest) == rest[j]
  {
    if j > 0 {
      assert rest[1..][j - 1] == rest[j];
      FirstOtherIs(first, rest[1..], j - 1);
    }
  }

  lemma {:induction false} NoOther(first: bytes, rest: seq<bytes>)
    requires forall i :: 0 <= i < |rest| ==> rest[i] == first
    ensures FirstOther(first, rest) == Zeros(33)
  {
    if rest != [] { NoOther(first, rest[1..]); }
  }

  /** All keys of a list one after the other, in order. */
  lemma {:induction false} FlattenLayout(pks: seq<bytes>, i: nat)
    requires i < |pks| && forall k :: 0 <= k < |pks| ==> |pks[k]| == 33
    ensures |Flatten(pks)| == 33 * |pks| && Flatten(pks)[33 * i..33 * i + 33] == pks[i]
  {
    var rest := pks[1..];
    if i == 0 {
      if rest != [] { FlattenLayout(rest, 0); }
      assert Flatten(pks)[..33] == pks[0];
    } else {
      FlattenLayout(rest, i - 1);
      assert Flatten(pks)[33 * i..33 * i + 33] == Flatten(rest)[33 * (i - 1)..33 * (i - 1) + 33];
    }
  }

  /** The hashed coefficient of a key, over a hash of all keys in their order and the key itself. */
  function HashedCoeff(c: Crypto, all: bytes, pk: bytes): nat {
    Mod(c.n, BE(c.tagged("KeyAgg coefficient", c.tagged("KeyAgg list", all) + pk)))
  }

  /**
   * KeyAggCoeff of BIP-327: the first key that differs from the first one has coefficient 1, wherever it
   * is listed, and every other key the hash of the whole list and itself. In a list of one key repeated,
   * all of them have the hash.
   */
  lemma CoefficientExactly(c: Crypto, pks: seq<bytes>, all: bytes, j: nat, pk: bytes)
    requires pks != [] && forall k :: 0 <= k < |pks| ==> |pks[k]| == 33
    requires |all| == 33 * |pks| && forall k :: 0 <= k < |pks| ==> all[33 * k..33 * k + 33] == pks[k]
    ensures IsSecondKey(pks, j) ==> Coeff(c, pks, pk) == if pk == pks[j] then 1 else HashedCoeff(c, all, pk)
    ensures OneKey(pks) && pk != Zeros(33) ==> Coeff(c, pks, pk) == HashedCoeff(c, all, pk)
  {
    hide Mod, BE, FirstOther;
    AllKeysInOrder(pks, all);
    if IsSecondKey(pks, j) { FirstOtherIs(pks[0], pks[1..], j - 1); }
    if OneKey(pks) { NoOther(pks[0], pks[1..]); }
  }

  lemma AllKeysInOrder(pks: seq<bytes>, all: bytes)
    requires pks != [] && forall k :: 0 <= k < |pks| ==> |pks[k]| == 33
    requires |all| == 33 * |pks| && forall k :: 0 <= k < |pks| ==> all[33 * k..33 * k + 33] == pks[k]
    ensures Flatten(pks) == all
  {
    hide Flatten;
    FlattenLayout(pks, 0);
    forall x | 0 <= x < |all|
      ensures Flatten(pks)[x] == all[x]
    {
      var i, y := x / 33, x % 33;
      FlattenLayout(pks, i);
      assert all[33 * i..33 * i + 33][y] == all[x] && Flatten(pks)[33 * i..33 * i + 33][y] == Flatten(pks)[x];
    }
  }

  /** The point a serialized key denotes. */
  function PointOf(c: Crypto, pk: bytes): (p: int)
    ensures c.lift(pk).Some? ==> InGroup(c, p)
  {
    if c.lift(pk).Some? then c.lift(pk).value else 0
  }

  /** What a key weighs in the aggregate: point times coefficient. */
  function Weight(c: Crypto, pks: seq<bytes>): bytes -> int
    requires pks != []
  {
    pk => PointOf(c, pk) * Coeff(c, pks, pk)
  }

  lemma AddTerm(n: nat, acc: int, term: int, product: int, next: int)
    requires n > 0 && Cong(n, term, product) && Cong(n, next, acc + term)
    ensures Cong(n, next, acc + product)
  {
    CongShift(n, term, product, acc);
  }

  lemma FoldTerm(n: nat, acc: int, x: int, tail: int, next: int, total: int)
    requires n > 0 && Cong(n, next, acc + x) && Cong(n, total, next + tail)
    ensures Cong(n, total, acc + (x + tail))
  {
    CongShift(n, next, acc + x, tail);
  }

  lemma KeyTermIsWeight(c: Crypto, pks: seq<bytes>, pk: bytes)
    requires pks != [] && KeyTerm(c, pks, pk).Ok?
    ensures c.lift(pk).Some? && Coeff(c, pks, pk) != 0
    ensures Cong(c.n, KeyTerm(c, pks, pk).value, Weight(c, pks)(pk))
  {
    CongMod(c.n, PointOf(c, pk) * Coeff(c, pks, pk));
  }

  lemma KeyStepAdds(c: Crypto, pks: seq<bytes>, pk: bytes, acc: Option<int>, x: int)
    requires pks != [] && Finite(c, acc) && KeyStep(c, pks, pk, acc).Ok?
    requires Cong(c.n, KeyTerm(c, pks, pk).value, x)
    ensures Cong(c.n, KeyStep(c, pks, pk, acc).value, Val(acc) + x)
  {
    var term := KeyTerm(c, pks, pk).value;
    CongMod(c.n, Val(acc) + term);
    AddTerm(c.n, Val(acc), term, x, KeyStep(c, pks, pk, acc).value);
  }

  lemma KeySumHead(c: Crypto, pks: seq<bytes>, rest: seq<bytes>, acc: Option<int>)
    requires pks != [] && Finite(c, acc) && KeySum(c, pks, rest, acc).Ok?
    ensures rest == [] ==> KeySum(c, pks, rest, acc).value == acc
    ensures rest != [] ==>
      && KeyStep(c, pks, rest[0], acc).Ok? && Finite(c, Some(KeyStep(c, pks, rest[0], acc).value))
      && KeyTerm(c, pks, rest[0]).Ok?
      && KeySum(c, pks, rest, acc) == KeySum(c, pks, rest[1..], Some(KeyStep(c, pks, rest[0], acc).value))
  {
    hide KeyTerm, Combine;
  }

  lemma GroupIsPositive(c: Crypto, x: int)
    ensures c.n > 0 && Val(Some(x)) == x
  {
  }

  lemma {:induction false} KeySumFolds(c: Crypto, pks: seq<bytes>, rest: seq<bytes>, acc: Option<int>, w: bytes -> int)
    requires pks != [] && Finite(c, acc) && KeySum(c, pks, rest, acc).Ok?
    requires forall pk :: KeyTerm(c, pks, pk).Ok? ==> Cong(c.n, KeyTerm(c, pks, pk).value, w(pk))
    ensures Cong(c.n, Val(KeySum(c, pks, rest, acc).value), Val(acc) + Sum(w, rest))
    decreases |rest|
  {
    hide *;
    KeySumHead(c, pks, rest, acc);
    SumNext(w, rest);
    GroupIsPositive(c, 0);
    if rest == [] {
      CongReflexive(c.n, Val(acc));
    } else {
      var next := KeyStep(c, pks, rest[0], acc).value;
      GroupIsPositive(c, next);
      KeyStepAdds(c, pks, rest[0], acc, w(rest[0]));
      KeySumFolds(c, pks, rest[1..], Some(next), w);
      FoldTerm(c.n, Val(acc), w(rest[0]), Sum(w, rest[1..]), next,
               Val(KeySum(c, pks, rest[1..], Some(next)).value));
    }
  }

  lemma {:induction false} KeySumKeysAreGood(c: Crypto, pks: seq<bytes>, rest: seq<bytes>, acc: Option<int>)
    requires pks != [] && Finite(c, acc) && KeySum(c, pks, rest, acc).Ok?
    ensures forall pk :: pk in rest ==> c.lift(pk).Some? && Coeff(c, pks, pk) != 0
    decreases |rest|
  {
    if rest != [] {
      KeyTermIsWeight(c, pks, rest[0]);
      KeySumKeysAreGood(c, pks, rest[1..], Some(KeyStep(c, pks, rest[0], acc).value));
    }
  }

  /** The aggregate is the weighted sum of the keys, and every key is a point with a nonzero
      coefficient. */
  lemma AggregateIsWeightedSum(c: Crypto, pks: seq<bytes>)
    requires Aggregate(c, pks).Ok?
    ensures Cong(c.n, Aggregate(c, pks).value.aggPubkey, Sum(Weight(c, pks), pks))
    ensures forall pk :: pk in pks ==> c.lift(pk).Some? && Coeff(c, pks, pk) != 0
  {
    forall pk | KeyTerm(c, pks, pk).Ok?
      ensures Cong(c.n, KeyTerm(c, pks, pk).value, Weight(c, pks)(pk))
    {
      KeyTermIsWeight(c, pks, pk);
    }
    KeySumFolds(c, pks, pks, None, Weight(c, pks));
    KeySumKeysAreGood(c, pks, pks, None);
  }

  // ---- When keys aggregate ----

  /** The first k keys, weighted, sum to infinity on top of what was summed before. */
  ghost predicate PrefixVanishes(c: Crypto, pks: seq<bytes>, rest: seq<bytes>, acc: Option<int>, k: nat)
    requires pks != [] && k <= |rest|
  {
    Mod(c.n, Val(acc) + Sum(Weight(c, pks), rest[..k])) == 0
  }

  ghost predicate UsableKey(c: Crypto, pks: seq<bytes>, pk: bytes)
    requires pks != []
  {
    c.lift(pk).Some? && Coeff(c, pks, pk) != 0
  }

  lemma KeyTermSucceeds(c: Crypto, pks: seq<bytes>, pk: bytes)
    requires pks != []
    ensures KeyTerm(c, pks, pk).Ok? <==> UsableKey(c, pks, pk)
  {
  }

  lemma ResidueOfSum(n: nat, acc: int, term: int, weight: int)
    requires n > 0 && Cong(n, term, weight)
    ensures Mod(n, acc + term) == Mod(n, acc + weight)
  {
    CongShift(n, term, weight, acc);
  }

  lemma TermNotZero(c: Crypto, term: int)
    requires InGroup(c, term)
    ensures Mod(c.n, 0 + term) == term
  {
    ModSmall(c.n, term);
  }

  /** One more key can be added exactly if it is usable and the sum is not infinity. */
  lemma KeyStepSucceeds(c: Crypto, pks: seq<bytes>, pk: bytes, acc: Option<int>)
    requires pks != [] && Finite(c, acc)
    ensures KeyStep(c, pks, pk, acc).Ok?
       <==> UsableKey(c, pks, pk) && Mod(c.n, Val(acc) + Weight(c, pks)(pk)) != 0
    ensures KeyStep(c, pks, pk, acc).Ok? ==>
              Cong(c.n, KeyStep(c, pks, pk, acc).value, Val(acc) + Weight(c, pks)(pk))
  {
    KeyTermSucceeds(c, pks, pk);
    hide Coeff, KeyTerm, UsableKey, Weight, Mod;
    if KeyTerm(c, pks, pk).Ok? {
      KeyTermIsWeight(c, pks, pk);
      var term := KeyTerm(c, pks, pk).value;
      ResidueOfSum(c.n, Val(acc), term, Weight(c, pks)(pk));
      TermNotZero(c, term);
      if KeyStep(c, pks, pk, acc).Ok? { KeyStepAdds(c, pks, pk, acc, Weight(c, pks)(pk)); }
    }
  }

  lemma PrefixHead(w: bytes -> int, rest: seq<bytes>, k: nat)
    requires 0 < k <= |rest|
    ensures Sum(w, rest[..k]) == w(rest[0]) + Sum(w, rest[1..][..k - 1])
  {
    assert rest[..k][0] == rest[0] && rest[..k][1..] == rest[1..][..k - 1];
    hide Sum;
    SumNext(w, rest[..k]);
  }

  lemma PrefixAfterStep(c: Crypto, pks: seq<bytes>, rest: seq<bytes>, acc: Option<int>, next: int, k: nat)
    requires pks != [] && 0 < k <= |rest| && Cong(c.n, next, Val(acc) + Weight(c, pks)(rest[0]))
    ensures PrefixVanishes(c, pks, rest, acc, k) <==> PrefixVanishes(c, pks, rest[1..], Some(next), k - 1)
  {
    GroupIsPositive(c, next);
    hide Weight, Mod, Sum, Lawful;
    var w := Weight(c, pks);
    PrefixHead(w, rest, k);
    ShiftedPrefix(c.n, next, Val(acc), w(rest[0]), Sum(w, rest[1..][..k - 1]));
  }

  lemma ShiftedPrefix(n: nat, next: int, acc: int, x: int, tail: int)
    requires n > 0 && Cong(n, next, acc + x)
    ensures Mod(n, acc + (x + tail)) == Mod(n, next + tail)
  {
    hide Mod;
    CongShift(n, next, acc + x, tail);
  }

  lemma FirstPrefix(c: Crypto, pks: seq<bytes>, rest: seq<bytes>, acc: Option<int>)
    requires pks != [] && rest != []
    ensures PrefixVanishes(c, pks, rest, acc, 1) <==> Mod(c.n, Val(acc) + Weight(c, pks)(rest[0])) == 0
  {
    assert rest[..1][1..] == [];
    SumNext(Weight(c, pks), rest[..1]);
    hide Mod;
  }

  lemma {:induction false} KeySumSucceeds(c: Crypto, pks: seq<bytes>, rest: seq<bytes>, acc: Option<int>)
    requires pks != [] && Finite(c, acc)
    ensures KeySum(c, pks, rest, acc).Ok?
       <==> (forall pk :: pk in rest ==> UsableKey(c, pks, pk))
            && forall k :: 0 < k <= |rest| ==> !PrefixVanishes(c, pks, rest, acc, k)
    decreases |rest|
  {
    hide UsableKey, PrefixVanishes, KeyStep, Weight, Mod;
    if rest != [] {
      KeyStepSucceeds(c, pks, rest[0], acc);
      FirstPrefix(c, pks, rest, acc);
      assert rest == [rest[0]] + rest[1..];
      if KeyStep(c, pks, rest[0], acc).Ok? {
        var next := KeyStep(c, pks, rest[0], acc).value;
        KeySumSucceeds(c, pks, rest[1..], Some(next));
        forall k | 0 < k <= |rest|
          ensures PrefixVanishes(c, pks, rest, acc, k) <==> PrefixVanishes(c, pks, rest[1..], Some(next), k - 1)
        {
          PrefixAfterStep(c, pks, rest, acc, next, k);
        }
        NoSumYet(c, pks, rest[1..], next);
        assert forall k :: 0 < k <= |rest| - 1 ==>
                 (PrefixVanishes(c, pks, rest[1..], Some(next), k) <==> PrefixVanishes(c, pks, rest, acc, k + 1));
      } else {
        assert rest[0] in rest;
      }
    }
  }

  lemma NoSumYet(c: Crypto, pks: seq<bytes>, rest: seq<bytes>, next: int)
    requires pks != [] && InGroup(c, next)
    ensures !PrefixVanishes(c, pks, rest, Some(next), 0)
  {
    assert rest[..0] == [];
    ModSmall(c.n, next);
  }

  /** Keys aggregate exactly if there is one, all of them are points with a nonzero coefficient, and no
      prefix of the list sums to infinity. */
  lemma AggregateSucceeds(c: Crypto, pks: seq<bytes>)
    ensures Aggregate(c, pks).Ok?
       <==> pks != [] && (forall pk :: pk in pks ==> UsableKey(c, pks, pk))
            && forall k :: 0 < k <= |pks| ==> !PrefixVanishes(c, pks, pks, None, k)
  {
    hide UsableKey, PrefixVanishes, KeyStep, Coeffs;
    if pks != [] {
      KeySumSucceeds(c, pks, pks, None);
      if KeySum(c, pks, pks, None).Ok? { SomeSum(c, pks, pks, None); }
    }
  }

  lemma SomeSum(c: Crypto, pks: seq<bytes>, rest: seq<bytes>, acc: Option<int>)
    requires pks != [] && Finite(c, acc) && rest != [] && KeySum(c, pks, rest, acc).Ok?
    ensures KeySum(c, pks, rest, acc).value.Some?
    decreases |rest|
  {
    hide KeyStep;
    var next := KeyStep(c, pks, rest[0], acc).value;
    if |rest| == 1 {
      assert rest[1..] == [];
    } else {
      SomeSum(c, pks, rest[1..], Some(next));
    }
  }

  /** session_key_agg_coeff: the coefficient at the first position holding the key. */
  function PositionOf(pks: seq<bytes>, pk: bytes): (i: nat)
    requires pk in pks
    ensures i < |pks| && pks[i] == pk && pk !in pks[..i]
  {
    if pks[0] == pk then 0
    else
      var j := PositionOf(pks[1..], pk);
      assert pks[..j + 1] == [pks[0]] + pks[1..][..j];
      j + 1
  }

  function KeyAggCoeff(c: Crypto, pks: seq<bytes>, pk: bytes): (r: Result<nat, MusigError>)
    ensures r.Ok? <==> Aggregate(c, pks).Ok? && pk in pks
    ensures r.Ok? ==> r.value == Coeff(c, pks, pk)
  {
    match Aggregate(c, pks)
    case Err(e) => Err(e)
    case Ok(ctx) =>
      if pk !in ctx.pks then Err(SignerPubkeyMismatch)
      else Ok(ctx.coeffs[PositionOf(ctx.pks, pk)])
  }
}
