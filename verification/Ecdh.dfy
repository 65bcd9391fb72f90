// Threshold ECDH: the devices' partial points add up to the point a holder of the aggregate
// secret would compute.
module Ecdh {
  import opened Wrappers
  import opened Bytes
  import opened Zn
  import opened Curve
  import opened KeyAgg
  import opened Bip47
  import opened Vault

  /** ecdh_partial: the sender's point times coefficient times secret. */
  function EcdhPartial(c: Crypto, b: int, coeff: nat, secret: int): (r: Result<int, MusigError>)
    requires InGroup(c, b) && InGroup(c, secret) && coeff < c.n
    ensures r.Ok? ==> InGroup(c, r.value)
  {
    match MulTweak(c, secret, coeff)
    case Err(_) => Err(InvalidScalar)
    case Ok(tweaked) => MulTweak(c, b, tweaked)
  }

  /** ecdh_share of one device. */
  function EcdhShare(c: Crypto, v: VaultConfig, b: int, myPk: bytes, secret: int): Result<bytes, VaultError>
    requires InGroup(c, b) && InGroup(c, secret)
  {
    match VaultKey(c, v)
    case Err(e) => Err(e)
    case Ok(agg) =>
      if myPk !in agg.pks then Err(NotAParticipant)
      else
        VaultCoeffs(c, v);
        match EcdhPartial(c, b, agg.coeffs[PositionOf(agg.pks, myPk)], secret)
        case Err(e) => Err(Musig(e))
        case Ok(p) => Ok(Ser(c, p))
  }

  lemma VaultCoeffs(c: Crypto, v: VaultConfig)
    requires VaultKey(c, v).Ok?
    ensures var agg := VaultKey(c, v).value;
      && agg.pks != [] && Aggregate(c, agg.pks) == Ok(agg) && |agg.coeffs| == |agg.pks|
      && (forall i :: 0 <= i < |agg.pks| ==> agg.coeffs[i] == Coeff(c, agg.pks, agg.pks[i]))
  {
    hide Coeff, KeySum, SortedPks;
  }

  /** Adding the remaining partials to an accumulated point. */
  function CombineFrom(c: Crypto, acc: int, rest: seq<int>): (r: Result<int, MusigError>)
    ensures InGroup(c, acc) && r.Ok? ==> InGroup(c, r.value)
    decreases |rest|
  {
    if rest == [] then Ok(acc)
    else match Combine(c, acc, rest[0])
      case Err(e) => Err(e)
      case Ok(sum) => CombineFrom(c, sum, rest[1..])
  }

  function CombinePartials(c: Crypto, partials: seq<int>): Result<int, MusigError> {
    if partials == [] then Err(NotEnoughParticipants) else CombineFrom(c, partials[0], partials[1..])
  }

  /** combine_partials: the accumulator loop. */
  method SumPartials(c: Crypto, partials: seq<int>) returns (r: Result<int, MusigError>)
    ensures r == CombinePartials(c, partials)
  {
    if partials == [] {
      return Err(NotEnoughParticipants);
    }
    var acc := partials[0];
    var i := 1;
    while i < |partials|
      invariant 1 <= i <= |partials|
      invariant CombineFrom(c, acc, partials[i..]) == CombinePartials(c, partials)
    {
      assert partials[i..][0] == partials[i] && partials[i..][1..] == partials[i + 1..];
      var sum := Combine(c, acc, partials[i]);
      if sum.Err? {
        return Err(sum.error);
      }
      acc := sum.value;
      i := i + 1;
    }
    r := Ok(acc);
  }

  function ParsePoints(c: Crypto, shares: seq<bytes>): (r: Option<seq<int>>)
    ensures r.Some? ==> |r.value| == |shares|
    ensures r.Some? ==> forall i :: 0 <= i < |shares| ==> c.lift(shares[i]) == Some(r.value[i])
    ensures r.None? ==> exists i :: 0 <= i < |shares| && c.lift(shares[i]).None?
  {
    if shares == [] then Some([])
    else
      match c.lift(shares[0])
      case None => None
      case Some(p) =>
        match ParsePoints(c, shares[1..])
        case None => None
        case Some(ps) => Some([p] + ps)
  }

  /** combine_ecdh_shares: the x coordinate of the summed partial points. */
  function CombineEcdhShares(c: Crypto, shares: seq<bytes>): Result<bytes, VaultError> {
    match ParsePoints(c, shares)
    case None => Err(MalformedQr)
    case Some(points) =>
      match CombinePartials(c, points)
      case Err(e) => Err(Musig(e))
      case Ok(s) => Ok(c.xb(s))
  }

  // ---- The sum ----

  /** A point scaled by b. */
  function Scaled(c: Crypto, b: int, t: int): (r: int)
    requires InGroup(c, b) && InGroup(c, t)
    ensures InGroup(c, r) && r == Mod(c.n, b * t)
  {
    NoZeroDivisors(c.n, b, t);
    Mod(c.n, b * t)
  }

  lemma ScaledSum(n: nat, b: int, x: int, y: int)
    requires n > 0
    ensures Mod(n, Mod(n, b * x) + Mod(n, b * y)) == Mod(n, b * Mod(n, x + y))
  {
    CongMod(n, b * x);
    CongMod(n, b * y);
    CongMod(n, x + y);
    CongAdd(n, Mod(n, b * x), b * x, Mod(n, b * y), b * y);
    CongMul(n, b, b, Mod(n, x + y), x + y);
    Distribute(b, x, y);
  }

  /** Scaling commutes with adding points: if the sum exists, so does the scaled sum. */
  lemma CombineScaled(c: Crypto, b: int, x: int, y: int)
    requires InGroup(c, b) && InGroup(c, x) && InGroup(c, y) && Combine(c, x, y).Ok?
    ensures Combine(c, Scaled(c, b, x), Scaled(c, b, y)) == Ok(Scaled(c, b, Combine(c, x, y).value))
  {
    hide Mod;
    ScaledSum(c.n, b, x, y);
  }

  /** The contribution of each key in a list. */
  ghost predicate Contributions(c: Crypto, pks: seq<bytes>, b: int, rest: seq<bytes>, points: seq<int>)
    requires pks != [] && InGroup(c, b)
  {
    |points| == |rest| && forall i :: 0 <= i < |rest| ==> Contribution(c, pks, b, rest[i], points[i])
  }

  ghost predicate Contribution(c: Crypto, pks: seq<bytes>, b: int, pk: bytes, point: int)
    requires pks != [] && InGroup(c, b)
  {
    KeyTerm(c, pks, pk).Ok? && point == Scaled(c, b, KeyTerm(c, pks, pk).value)
  }

  /** The partial points, summed in the order in which the keys are aggregated, follow the key
      aggregation step by step: no prefix sum is infinity and the total is the scaled key. */
  lemma {:induction false} CombineFollowsKeyAgg(c: Crypto, pks: seq<bytes>, b: int, rest: seq<bytes>, acc: int, points: seq<int>)
    requires pks != [] && InGroup(c, b) && InGroup(c, acc) && Contributions(c, pks, b, rest, points)
    requires KeySum(c, pks, rest, Some(acc)).Ok?
    ensures KeySum(c, pks, rest, Some(acc)).value.Some?
    ensures CombineFrom(c, Scaled(c, b, acc), points) == Ok(Scaled(c, b, KeySum(c, pks, rest, Some(acc)).value.value))
    decreases |rest|
  {
    hide Scaled, KeyTerm, Combine;
    if rest != [] {
      assert Contribution(c, pks, b, rest[0], points[0]);
      var term := KeyTerm(c, pks, rest[0]).value;
      var next := Combine(c, acc, term).value;
      CombineScaled(c, b, acc, term);
      forall i | 0 <= i < |rest[1..]|
        ensures Contribution(c, pks, b, rest[1..][i], points[1..][i])
      {
        assert Contribution(c, pks, b, rest[i + 1], points[i + 1]);
      }
      CombineFollowsKeyAgg(c, pks, b, rest[1..], next, points[1..]);
    }
  }

  /** The partial points of all keys in aggregation order sum to the point over the aggregate. */
  lemma CombineAll(c: Crypto, pks: seq<bytes>, b: int, points: seq<int>)
    requires InGroup(c, b) && Aggregate(c, pks).Ok? && Contributions(c, pks, b, pks, points)
    ensures CombinePartials(c, points) == Ok(Scaled(c, b, Aggregate(c, pks).value.aggPubkey))
  {
    hide Scaled, KeyTerm, Combine;
    assert Contribution(c, pks, b, pks[0], points[0]);
    forall i | 0 <= i < |pks[1..]|
      ensures Contribution(c, pks, b, pks[1..][i], points[1..][i])
    {
      assert Contribution(c, pks, b, pks[i + 1], points[i + 1]);
    }
    CombineFollowsKeyAgg(c, pks, b, pks[1..], KeyTerm(c, pks, pks[0]).value, points[1..]);
  }

  function Itself(): int -> int {
    x => x
  }

  /** Whatever the order, a sum that exists is the residue of the plain sum. */
  lemma {:induction false} CombineAddsUp(c: Crypto, acc: int, rest: seq<int>)
    requires CombineFrom(c, acc, rest).Ok?
    ensures Cong(c.n, CombineFrom(c, acc, rest).value, acc + Sum(Itself(), rest))
    decreases |rest|
  {
    hide Mod;
    if rest != [] {
      var next := Combine(c, acc, rest[0]).value;
      CombineAddsUp(c, next, rest[1..]);
      CongMod(c.n, acc + rest[0]);
      CongShift(c.n, next, acc + rest[0], Sum(Itself(), rest[1..]));
    }
  }

  lemma CombinePartialsAddsUp(c: Crypto, points: seq<int>)
    requires CombinePartials(c, points).Ok?
    ensures Cong(c.n, CombinePartials(c, points).value, Sum(Itself(), points))
  {
    hide Mod;
    CombineAddsUp(c, points[0], points[1..]);
  }

  /** The first k points, added to an accumulated point, sum to infinity. */
  ghost predicate Vanishes(c: Crypto, acc: int, rest: seq<int>, k: nat)
    requires k <= |rest|
  {
    Mod(c.n, acc + Sum(Itself(), rest[..k])) == 0
  }

  lemma PrefixShift(c: Crypto, acc: int, rest: seq<int>, k: nat)
    requires 1 <= k <= |rest|
    ensures Vanishes(c, acc, rest, k) <==> Vanishes(c, Mod(c.n, acc + rest[0]), rest[1..], k - 1)
  {
    var next, tail := Mod(c.n, acc + rest[0]), Sum(Itself(), rest[1..][..k - 1]);
    assert rest[..k][1..] == rest[1..][..k - 1];
    hide Mod;
    CongMod(c.n, acc + rest[0]);
    CongShift(c.n, next, acc + rest[0], tail);
  }

  lemma NothingVanishes(c: Crypto, x: int, rest: seq<int>)
    ensures Vanishes(c, Mod(c.n, x), rest, 0) <==> Mod(c.n, x) == 0
  {
    assert rest[..0] == [];
    ModSmall(c.n, Mod(c.n, x));
  }

  /** combine refuses infinity at every step, so a sum exists exactly when no prefix vanishes. */
  lemma {:induction false} CombineFromSucceeds(c: Crypto, acc: int, rest: seq<int>)
    ensures CombineFrom(c, acc, rest).Ok? <==> forall k :: 1 <= k <= |rest| ==> !Vanishes(c, acc, rest, k)
    decreases |rest|
  {
    hide Mod, Vanishes;
    if rest != [] {
      var next := Mod(c.n, acc + rest[0]);
      forall k | 1 <= k <= |rest|
        ensures Vanishes(c, acc, rest, k) <==> Vanishes(c, next, rest[1..], k - 1)
      {
        PrefixShift(c, acc, rest, k);
      }
      NothingVanishes(c, acc + rest[0], rest[1..]);
      CombineFromSucceeds(c, next, rest[1..]);
      ShiftAll(c, acc, rest, next);
    }
  }

  lemma ShiftAll(c: Crypto, acc: int, rest: seq<int>, next: int)
    requires rest != []
    requires forall k :: 1 <= k <= |rest| ==> (Vanishes(c, acc, rest, k) <==> Vanishes(c, next, rest[1..], k - 1))
    ensures (forall k :: 1 <= k <= |rest| ==> !Vanishes(c, acc, rest, k))
       <==> !Vanishes(c, next, rest[1..], 0) && forall k :: 1 <= k <= |rest| - 1 ==> !Vanishes(c, next, rest[1..], k)
  {
    hide Vanishes;
    if forall k :: 1 <= k <= |rest| ==> !Vanishes(c, acc, rest, k) {
      forall k | 0 <= k <= |rest| - 1
        ensures !Vanishes(c, next, rest[1..], k)
      {
        assert !Vanishes(c, acc, rest, k + 1);
      }
    }
  }

  lemma CombinePartialsSucceeds(c: Crypto, points: seq<int>)
    ensures CombinePartials(c, points).Ok?
       <==> points != [] && forall k :: 2 <= k <= |points| ==> !Vanishes(c, 0, points, k)
  {
    hide Mod, CombineFrom;
    if points != [] {
      CombineFromSucceeds(c, points[0], points[1..]);
      forall k | 2 <= k <= |points|
        ensures Vanishes(c, 0, points, k) <==> Vanishes(c, points[0], points[1..], k - 1)
      {
        assert points[..k][1..] == points[1..][..k - 1];
      }
      ShiftByOne(c, points);
    }
  }

  lemma ShiftByOne(c: Crypto, points: seq<int>)
    requires points != []
    requires forall k :: 2 <= k <= |points| ==>
               (Vanishes(c, 0, points, k) <==> Vanishes(c, points[0], points[1..], k - 1))
    ensures (forall k :: 2 <= k <= |points| ==> !Vanishes(c, 0, points, k))
       <==> forall k :: 1 <= k <= |points| - 1 ==> !Vanishes(c, points[0], points[1..], k)
  {
    hide Vanishes;
    if forall k :: 2 <= k <= |points| ==> !Vanishes(c, 0, points, k) {
      forall k | 1 <= k <= |points| - 1
        ensures !Vanishes(c, points[0], points[1..], k)
      {
        assert !Vanishes(c, 0, points, k + 1);
      }
    }
  }

  /** In any other order the sum, when no prefix sum is infinity, is the same point. */
  lemma CombinePermutation(c: Crypto, points: seq<int>, others: seq<int>)
    requires multiset(points) == multiset(others) && CombinePartials(c, points).Ok? && CombinePartials(c, others).Ok?
    requires forall p :: p in points ==> InGroup(c, p)
    ensures CombinePartials(c, points).value == CombinePartials(c, others).value
  {
    hide Mod, Combine;
    assert points[0] in points && others[0] in multiset(others);
    assert others[0] in points;
    CombinePartialsAddsUp(c, points);
    CombinePartialsAddsUp(c, others);
    SumPermutation(Itself(), points, others);
    CongEqual(c.n, CombinePartials(c, points).value, CombinePartials(c, others).value);
  }

  // ---- Shares of a vault ----

  /** The shares of the participants with the given secrets, in that order. */
  ghost predicate SharesOf(c: Crypto, v: VaultConfig, b: int, secrets: seq<int>, shares: seq<bytes>)
    requires InGroup(c, b)
  {
    |shares| == |secrets| && forall i :: 0 <= i < |secrets| ==> ShareOfSecret(c, v, b, secrets[i], shares[i])
  }

  ghost predicate ShareOfSecret(c: Crypto, v: VaultConfig, b: int, secret: int, share: bytes)
    requires InGroup(c, b)
  {
    InGroup(c, secret) && EcdhShare(c, v, b, Ser(c, secret), secret) == Ok(share)
  }

  /** A device's share is the serialized contribution of its key. */
  lemma ShareIsContribution(c: Crypto, v: VaultConfig, b: int, secret: int, share: bytes)
    requires InGroup(c, b) && ShareOfSecret(c, v, b, secret, share)
    ensures VaultKey(c, v).Ok? && VaultKey(c, v).value.pks != []
    ensures c.lift(share).Some?
    ensures Contribution(c, VaultKey(c, v).value.pks, b, Ser(c, secret), c.lift(share).value)
  {
    VaultCoeffs(c, v);
    hide VaultKey, Coeff, Mod;
    var pks := VaultKey(c, v).value.pks;
    assert c.lift(Ser(c, secret)) == Some(secret);
  }

  lemma ShareAlwaysExists(c: Crypto, v: VaultConfig, b: int, secret: int)
    requires InGroup(c, b) && InGroup(c, secret) && VaultKey(c, v).Ok? && Ser(c, secret) in VaultKey(c, v).value.pks
    ensures EcdhShare(c, v, b, Ser(c, secret), secret).Ok?
  {
    VaultCoeffs(c, v);
    var agg := VaultKey(c, v).value;
    AggregateIsWeightedSum(c, agg.pks);
    hide VaultKey, Coeff, Mod, Aggregate;
  }

  /** The point a key contributes, as a function of the key. */
  function PointFor(c: Crypto, pks: seq<bytes>, b: int): bytes -> int
    requires pks != [] && InGroup(c, b)
  {
    (pk: bytes) => if KeyTerm(c, pks, pk).Ok? then Scaled(c, b, KeyTerm(c, pks, pk).value) else 0
  }

  ghost function SecretKeys(c: Crypto, secrets: seq<int>): (r: seq<bytes>)
    ensures |r| == |secrets|
  {
    seq(|secrets|, i requires 0 <= i < |secrets| => Ser(c, secrets[i]))
  }

  /** The parsed shares are the contributions of the keys behind them. */
  lemma SharesAreContributions(c: Crypto, v: VaultConfig, b: int, secrets: seq<int>, shares: seq<bytes>, points: seq<int>)
    requires InGroup(c, b) && VaultKey(c, v).Ok? && VaultKey(c, v).value.pks != []
    requires SharesOf(c, v, b, secrets, shares) && ParsePoints(c, shares) == Some(points)
    ensures points == MapSeq(PointFor(c, VaultKey(c, v).value.pks, b), SecretKeys(c, secrets))
    ensures forall p :: p in points ==> InGroup(c, p)
  {
    hide VaultKey, KeyTerm, Scaled, EcdhShare, ShareOfSecret;
    var pks := VaultKey(c, v).value.pks;
    forall i | 0 <= i < |shares|
      ensures points[i] == PointFor(c, pks, b)(Ser(c, secrets[i])) && InGroup(c, points[i])
    {
      ShareIsContribution(c, v, b, secrets[i], shares[i]);
    }
  }

  /** In aggregation order, every key contributes its point. */
  lemma CanonicalContributions(c: Crypto, pks: seq<bytes>, b: int)
    requires InGroup(c, b) && Aggregate(c, pks).Ok?
    ensures pks != [] && Contributions(c, pks, b, pks, MapSeq(PointFor(c, pks, b), pks))
  {
    AggregateIsWeightedSum(c, pks);
    var points := MapSeq(PointFor(c, pks, b), pks);
    hide Coeff, Mod, Aggregate, Scaled;
    forall i | 0 <= i < |pks|
      ensures Contribution(c, pks, b, pks[i], points[i])
    {
      assert pks[i] in pks;
    }
  }

  lemma SharesParse(c: Crypto, v: VaultConfig, b: int, secrets: seq<int>, shares: seq<bytes>)
    requires InGroup(c, b) && SharesOf(c, v, b, secrets, shares)
    ensures ParsePoints(c, shares).Some?
  {
    hide VaultKey, EcdhShare, ShareOfSecret, Contribution;
    forall i | 0 <= i < |shares|
      ensures c.lift(shares[i]).Some?
    {
      ShareIsContribution(c, v, b, secrets[i], shares[i]);
    }
  }

  // ---- When the shares combine ----

  lemma ContributionIsWeight(c: Crypto, pks: seq<bytes>, b: int, pk: bytes)
    requires pks != [] && InGroup(c, b) && KeyTerm(c, pks, pk).Ok?
    ensures Cong(c.n, PointFor(c, pks, b)(pk), b * Weight(c, pks)(pk))
  {
    KeyTermIsWeight(c, pks, pk);
    hide Mod, KeyTerm, Weight, Coeff;
    var term := KeyTerm(c, pks, pk).value;
    CongMod(c.n, b * term);
    CongMul(c.n, b, b, term, Weight(c, pks)(pk));
  }

  /** Contributions sum to b times what the keys weigh. */
  lemma {:induction false} SumOfContributions(c: Crypto, b: int, keys: seq<bytes>, f: bytes -> int, w: bytes -> int)
    requires forall pk :: pk in keys ==> Cong(c.n, f(pk), b * w(pk))
    ensures Cong(c.n, Sum(Itself(), MapSeq(f, keys)), b * Sum(w, keys))
  {
    hide Mod;
    if keys != [] {
      SumOfContributions(c, b, keys[1..], f, w);
      assert MapSeq(f, keys)[1..] == MapSeq(f, keys[1..]);
      CongAdd(c.n, f(keys[0]), b * w(keys[0]), Sum(Itself(), MapSeq(f, keys[1..])), b * Sum(w, keys[1..]));
      Distribute(b, w(keys[0]), Sum(w, keys[1..]));
    }
  }

  lemma ScaledVanishes(n: nat, b: nat, x: int, w: int)
    requires Prime(n) && 0 < b < n && Cong(n, x, b * w)
    ensures Mod(n, x) == 0 <==> Mod(n, w) == 0
  {
    var r := Mod(n, w);
    hide Mod;
    CongMod(n, w);
    CongMul(n, b, b, w, r);
    SameResidue(n, x, b * w, b * r);
    if r != 0 {
      NoZeroDivisors(n, b, r);
    } else {
      ModOfZero(n);
    }
  }

  lemma SameResidue(n: nat, x: int, y: int, z: int)
    requires n > 0 && Cong(n, x, y) && Cong(n, y, z)
    ensures Mod(n, x) == Mod(n, z)
  {
  }

  lemma ModOfZero(n: nat)
    requires n > 0
    ensures Mod(n, 0) == 0
  {
  }

  /** The first k participants' keys, each times its coefficient, sum to infinity. */
  ghost predicate PrefixAtInfinity(c: Crypto, pks: seq<bytes>, secrets: seq<int>, k: nat)
    requires pks != [] && k <= |secrets|
  {
    Mod(c.n, Sum(Weight(c, pks), SecretKeys(c, secrets)[..k])) == 0
  }

  lemma PrefixVanishes(c: Crypto, pks: seq<bytes>, b: int, secrets: seq<int>, k: nat)
    requires pks != [] && InGroup(c, b) && k <= |secrets|
    requires forall pk :: pk in SecretKeys(c, secrets) ==> KeyTerm(c, pks, pk).Ok?
    ensures Vanishes(c, 0, MapSeq(PointFor(c, pks, b), SecretKeys(c, secrets)), k)
       <==> PrefixAtInfinity(c, pks, secrets, k)
  {
    var keys := SecretKeys(c, secrets);
    var f, w := PointFor(c, pks, b), Weight(c, pks);
    hide Mod, KeyTerm, PointFor, Weight, SecretKeys;
    forall pk | pk in keys[..k]
      ensures Cong(c.n, f(pk), b * w(pk))
    {
      assert pk in keys;
      ContributionIsWeight(c, pks, b, pk);
    }
    SumOfContributions(c, b, keys[..k], f, w);
    assert MapSeq(f, keys)[..k] == MapSeq(f, keys[..k]);
    ScaledVanishes(c.n, b, Sum(Itself(), MapSeq(f, keys[..k])), Sum(w, keys[..k]));
  }

  lemma TermsOfShares(c: Crypto, v: VaultConfig, b: int, secrets: seq<int>, shares: seq<bytes>)
    requires InGroup(c, b) && VaultKey(c, v).Ok? && VaultKey(c, v).value.pks != []
    requires SharesOf(c, v, b, secrets, shares)
    ensures forall pk :: pk in SecretKeys(c, secrets) ==> KeyTerm(c, VaultKey(c, v).value.pks, pk).Ok?
  {
    hide VaultKey, KeyTerm, EcdhShare, ShareOfSecret;
    forall i | 0 <= i < |secrets|
      ensures KeyTerm(c, VaultKey(c, v).value.pks, Ser(c, secrets[i])).Ok?
    {
      ShareIsContribution(c, v, b, secrets[i], shares[i]);
    }
  }

  /** Shares combine exactly when no prefix sum is infinity, which does not depend on the point. */
  lemma SharesCombine(c: Crypto, v: VaultConfig, b: int, secrets: seq<int>, shares: seq<bytes>)
    requires InGroup(c, b) && VaultKey(c, v).Ok? && SharesOf(c, v, b, secrets, shares)
    ensures VaultKey(c, v).value.pks != []
    ensures CombineEcdhShares(c, shares).Ok?
       <==> secrets != [] && forall k :: 2 <= k <= |secrets| ==> !PrefixAtInfinity(c, VaultKey(c, v).value.pks, secrets, k)
  {
    VaultCoeffs(c, v);
    var pks := VaultKey(c, v).value.pks;
    SharesParse(c, v, b, secrets, shares);
    var points := ParsePoints(c, shares).value;
    SharesAreContributions(c, v, b, secrets, shares, points);
    TermsOfShares(c, v, b, secrets, shares);
    hide VaultKey, PointFor, SharesOf, CombinePartials, ParsePoints, Mod, Weight, Vanishes, PrefixAtInfinity, SecretKeys;
    CombinePartialsSucceeds(c, points);
    forall k | 2 <= k <= |secrets|
      ensures Vanishes(c, 0, points, k) <==> PrefixAtInfinity(c, pks, secrets, k)
    {
      PrefixVanishes(c, pks, b, secrets, k);
    }
  }

  /** Threshold ECDH: when every participant contributes one share over b, in any order, the shares
      combine exactly when no prefix sum is infinity, and then the combined x coordinate is the one
      a holder of the aggregate secret x computes, the x coordinate of x·B. */
  lemma ThresholdEcdh(c: Crypto, v: VaultConfig, b: int, secrets: seq<int>, shares: seq<bytes>)
    requires InGroup(c, b) && VaultKey(c, v).Ok? && SharesOf(c, v, b, secrets, shares)
    requires multiset(SecretKeys(c, secrets)) == multiset(VaultKey(c, v).value.pks)
    ensures VaultKey(c, v).value.pks != []
    ensures CombineEcdhShares(c, shares).Ok?
       <==> forall k :: 2 <= k <= |secrets| ==> !PrefixAtInfinity(c, VaultKey(c, v).value.pks, secrets, k)
    ensures CombineEcdhShares(c, shares).Ok? ==>
              CombineEcdhShares(c, shares).value == EcdhX(c, b, VaultKey(c, v).value.aggPubkey)
  {
    hide *;
    SharesCombine(c, v, b, secrets, shares);
    SomeSecret(c, secrets, VaultKey(c, v).value.pks);
    if CombineEcdhShares(c, shares).Ok? {
      CombinedX(c, v, b, secrets, shares);
    }
  }

  lemma SomeSecret(c: Crypto, secrets: seq<int>, pks: seq<bytes>)
    requires pks != [] && multiset(SecretKeys(c, secrets)) == multiset(pks)
    ensures secrets != []
  {
    assert pks[0] in multiset(pks);
    assert pks[0] in SecretKeys(c, secrets);
  }

  lemma CombinedX(c: Crypto, v: VaultConfig, b: int, secrets: seq<int>, shares: seq<bytes>)
    requires InGroup(c, b) && VaultKey(c, v).Ok? && SharesOf(c, v, b, secrets, shares)
    requires multiset(SecretKeys(c, secrets)) == multiset(VaultKey(c, v).value.pks)
    requires CombineEcdhShares(c, shares).Ok?
    ensures CombineEcdhShares(c, shares).value == EcdhX(c, b, VaultKey(c, v).value.aggPubkey)
  {
    VaultCoeffs(c, v);
    var agg := VaultKey(c, v).value;
    var points := ParsePoints(c, shares).value;
    var canonical := MapSeq(PointFor(c, agg.pks, b), agg.pks);
    SharesAreContributions(c, v, b, secrets, shares, points);
    CanonicalContributions(c, agg.pks, b);
    CombineAll(c, agg.pks, b, canonical);
    MapContents(PointFor(c, agg.pks, b), SecretKeys(c, secrets), agg.pks);
    hide VaultKey, PointFor, Contributions, SharesOf, Aggregate, CombinePartials, ParsePoints, Mod;
    CombinePermutation(c, points, canonical);
  }

  /** In aggregation order no prefix sum is infinity, because none was when the key was built. */
  lemma CanonicalOrderCombines(c: Crypto, v: VaultConfig, b: int, secrets: seq<int>, shares: seq<bytes>)
    requires InGroup(c, b) && VaultKey(c, v).Ok? && SharesOf(c, v, b, secrets, shares)
    requires SecretKeys(c, secrets) == VaultKey(c, v).value.pks
    ensures CombineEcdhShares(c, shares).Ok?
  {
    VaultCoeffs(c, v);
    var agg := VaultKey(c, v).value;
    SharesParse(c, v, b, secrets, shares);
    SharesAreContributions(c, v, b, secrets, shares, ParsePoints(c, shares).value);
    CanonicalContributions(c, agg.pks, b);
    hide VaultKey, PointFor, Contributions, SharesOf, Aggregate, CombinePartials, ParsePoints;
    CombineAll(c, agg.pks, b, ParsePoints(c, shares).value);
  }

  /** Hence the vault's round at an index has the result of the round of whoever holds the aggregate
      secret, and with a valid digest that round ends both loops: one address, at one index. */
  lemma VaultPaysSameAddress(c: Crypto, v: VaultConfig, pc: PaymentCode, index: nat, secrets: seq<int>, shares: seq<bytes>)
    requires ChildPubkey(c, pc, index).Some? && VaultKey(c, v).Ok?
    requires SharesOf(c, v, ChildPubkey(c, pc, index).value, secrets, shares)
    requires multiset(SecretKeys(c, secrets)) == multiset(VaultKey(c, v).value.pks)
    requires CombineEcdhShares(c, shares).Ok?
    ensures var sx := CombineEcdhShares(c, shares).value;
            var x := VaultKey(c, v).value.aggPubkey;
      && SharedRound(c, pc, sx, index) == PayRound(c, pc, x, index)
      && (BE(c.sha256(sx)) < c.n ==> SharedRound(c, pc, sx, index) != NextIndex)
  {
    ThresholdEcdh(c, v, ChildPubkey(c, pc, index).value, secrets, shares);
    hide VaultKey, CombineEcdhShares, SharesOf, ChildPubkey, EcdhX, AddExpTweak;
    SharedLoopOutcome(c, pc, CombineEcdhShares(c, shares).value, index);
  }
}
