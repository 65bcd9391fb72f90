// What BIP-327 promises of signing: honest partial signatures pass their check, and partial
// signatures that pass add up to a signature that BIP-340 accepts.
module Correctness {
  import opened Wrappers
  import opened Bytes
  import opened Zn
  import opened Curve
  import opened KeyAgg
  import opened Signing
  import opened PartialSigs

  /** The public nonce belonging to a secret nonce. */
  function PublicNonce(c: Crypto, k1: nat, k2: nat): (pn: b66)
    requires InGroup(c, k1) && InGroup(c, k2)
  {
    SerParts(c, k1);
    SerParts(c, k2);
    Ser(c, k1) + Ser(c, k2)
  }

  /** A nonce point is the first half plus b times the second. */
  lemma NoncePointValue(c: Crypto, nonce: b66, b: nat)
    requires b < c.n && NoncePoint(c, nonce, b).Ok?
    ensures Cong(c.n, Val(NoncePoint(c, nonce, b).value), LoVal(c)(nonce) + b * HiVal(c)(nonce))
  {
    hide CpointExt, Lo, Hi, PtMul, PtAdd, Mod, Cong, HalfVal;
    var r1, r2 := CpointExt(c, Lo(nonce)).value, CpointExt(c, Hi(nonce)).value;
    var br2 := PtMul(c, r2, b).value;
    HalfValIs(c, nonce);
    PtAddIsAddition(c, r1, br2);
    PtMulIsProduct(c, r2, b);
    ScaledSecondHalf(c.n, Val(PtAdd(c, r1, br2).value), Val(r1), Val(br2), b, Val(r2));
  }

  lemma PtMulIsProduct(c: Crypto, p: Option<int>, s: nat)
    requires Finite(c, p) && s < c.n && PtMul(c, p, s).Ok?
    ensures Cong(c.n, Val(PtMul(c, p, s).value), s * Val(p))
  {
    var x := Val(p);
    assert x * s == s * x;
    CongMod(c.n, x * s);
  }

  lemma ScaledSecondHalf(n: nat, total: int, x: int, y: int, b: int, z: int)
    requires n > 0 && total == Mod(n, x + y) && Cong(n, y, b * z)
    ensures Cong(n, total, x + b * z)
  {
    CongMod(n, x + y);
    CongShift(n, y, b * z, x);
  }

  lemma PublicNonceHalves(c: Crypto, k1: nat, k2: nat)
    requires InGroup(c, k1) && InGroup(c, k2)
    ensures CpointExt(c, Lo(PublicNonce(c, k1, k2))) == Ok(Some(k1))
    ensures CpointExt(c, Hi(PublicNonce(c, k1, k2))) == Ok(Some(k2))
  {
    assert Lo(PublicNonce(c, k1, k2)) == Ser(c, k1) && Hi(PublicNonce(c, k1, k2)) == Ser(c, k2);
    CpointExtInverts(c, Some(k1));
    CpointExtInverts(c, Some(k2));
  }

  /** A signer's effective nonce k1 + b·k2. */
  function EffectiveNonce(c: Crypto, k1: nat, k2: nat, b: nat): nat {
    Mod(c.n, k1 + b * k2)
  }

  lemma NoncePointOfSecrets(c: Crypto, k1: nat, k2: nat, b: nat)
    requires InGroup(c, k1) && InGroup(c, k2) && b < c.n
    ensures NoncePoint(c, PublicNonce(c, k1, k2), b).Ok? <==> b != 0
    ensures b != 0 ==> Val(NoncePoint(c, PublicNonce(c, k1, k2), b).value) == EffectiveNonce(c, k1, k2, b)
  {
    var pn := PublicNonce(c, k1, k2);
    PublicNonceHalves(c, k1, k2);
    if b != 0 {
      PtAddIsAddition(c, Some(k1), PtMul(c, Some(k2), b).value);
      NoncePointValue(c, pn, b);
      CongMod(c.n, k1 + b * k2);
      CongEqual(c.n, Val(NoncePoint(c, pn, b).value), EffectiveNonce(c, k1, k2, b));
    }
  }

  lemma FactorSign(g: int, k1: int, k2: int, b: int)
    ensures g * k1 + (g * k2) * b == g * (k1 + b * k2)
  {
    assert (g * k2) * b == g * (b * k2);
  }

  lemma NoncePartTerms(n: nat, g: int, k1: nat, k2: nat, b: nat, k1': nat, k2': nat, bk2: nat, s1: nat)
    requires n > 0 && Cong(n, k1', g * k1) && Cong(n, k2', g * k2) && Cong(n, bk2, k2' * b) && Cong(n, s1, k1' + bk2)
    ensures Cong(n, s1, g * (k1 + b * k2))
  {
    FactorSign(g, k1, k2, b);
    CongMul(n, k2', g * k2, b, b);
    CongAdd(n, k1', g * k1, bk2, (g * k2) * b);
  }

  lemma FactorShare(gp: int, d: int, a: int, e: int)
    ensures ((gp * d) * a) * e == gp * (e * (d * a))
  {
    var da := d * a;
    assert (gp * d) * a == gp * da;
    assert (gp * da) * e == gp * (e * da);
  }

  lemma KeyPartTerms(n: nat, gp: int, d: nat, a: nat, e: nat, d': nat, ad: nat, ead: nat)
    requires n > 0 && Cong(n, d', gp * d) && Cong(n, ad, d' * a) && Cong(n, ead, ad * e)
    ensures Cong(n, ead, gp * (e * (d * a)))
  {
    FactorShare(gp, d, a, e);
    CongMul(n, d', gp * d, a, a);
    CongMul(n, ad, (gp * d) * a, e, e);
  }

  lemma SignedSumOfParts(n: nat, g: int, re: int, nonce: int, s1: int, ead: int, share: int, total: int)
    requires n > 0 && Cong(n, s1, g * nonce) && Cong(n, re, nonce) && Cong(n, ead, share) && Cong(n, total, s1 + ead)
    ensures Cong(n, total, g * re + share)
  {
    CongMul(n, g, g, re, nonce);
    CongAdd(n, s1, g * re, ead, share);
  }

  /** The steps of the signer's computation, and what each is congruent to. */
  lemma SignSteps(c: Crypto, v: SessionValues, k1: nat, k2: nat, a: nat, d: nat)
    returns (k1': nat, k2': nat, d': nat, bk2: nat, ad: nat, s1: nat, ead: nat)
    requires GoodValues(c, v) && k1 < c.n && k2 < c.n && a < c.n && d < c.n && IsSign(KeySign(c, v))
    ensures Cong(c.n, k1', ParitySign(c, v.r) * k1) && Cong(c.n, k2', ParitySign(c, v.r) * k2)
    ensures Cong(c.n, d', KeySign(c, v) * d)
    ensures Cong(c.n, bk2, k2' * v.b) && Cong(c.n, s1, k1' + bk2)
    ensures Cong(c.n, ad, d' * a) && Cong(c.n, ead, ad * v.e)
    ensures Cong(c.n, SignScalar(c, v, k1, k2, a, d), s1 + ead)
  {
    hide Mod, Cong, ParitySign, KeySign, SignedScalar, ScalarMul, ScalarAdd;
    var g, gp := ParitySign(c, v.r), KeySign(c, v);
    k1', k2', d' := SignedScalar(c, g, k1), SignedScalar(c, g, k2), SignedScalar(c, gp, d);
    bk2, ad := ScalarMul(c, k2', v.b), ScalarMul(c, d', a);
    s1, ead := ScalarAdd(c, k1', bk2), ScalarMul(c, ad, v.e);
  }

  lemma EffectiveNonceIs(c: Crypto, k1: nat, k2: nat, b: nat)
    ensures c.n > 0 && Cong(c.n, EffectiveNonce(c, k1, k2, b), k1 + b * k2)
  {
    CongMod(c.n, k1 + b * k2);
  }

  lemma EquationIs(c: Crypto, v: SessionValues, psig: int, re: int, p: int, a: nat, share: int)
    requires share == KeySign(c, v) * (v.e * (p * a)) && c.n > 0
    requires Cong(c.n, psig, ParitySign(c, v.r) * re + share)
    ensures PsigEquation(c, v, psig, re, p, a)
  {
  }

  /** The signer's scalar satisfies the equation, through every combination of parities. */
  lemma SignSatisfiesEquation(c: Crypto, v: SessionValues, k1: nat, k2: nat, a: nat, d: nat)
    requires GoodValues(c, v) && k1 < c.n && k2 < c.n && a < c.n && d < c.n && IsSign(KeySign(c, v))
    ensures PsigEquation(c, v, SignScalar(c, v, k1, k2, a, d), EffectiveNonce(c, k1, k2, v.b), d, a)
  {
    hide *;
    var k1', k2', d', bk2, ad, s1, ead := SignSteps(c, v, k1, k2, a, d);
    var g, gp, re := ParitySign(c, v.r), KeySign(c, v), EffectiveNonce(c, k1, k2, v.b);
    EffectiveNonceIs(c, k1, k2, v.b);
    var nonce, share := k1 + v.b * k2, gp * (v.e * (d * a));
    NoncePartTerms(c.n, g, k1, k2, v.b, k1', k2', bk2, s1);
    KeyPartTerms(c.n, gp, d, a, v.e, d', ad, ead);
    SignedSumOfParts(c.n, g, re, nonce, s1, ead, share, SignScalar(c, v, k1, k2, a, d));
    EquationIs(c, v, SignScalar(c, v, k1, k2, a, d), re, d, a, share);
  }

  /** The conditions, all visible before the check is made, under which an honest partial
      signature is not degenerate. */
  predicate NonDegenerate(c: Crypto, v: SessionValues, psig: nat, k1: nat, k2: nat) {
    psig != 0 && v.b != 0 && v.e != 0 && EffectiveNonce(c, k1, k2, v.b) != 0
  }

  /** Sign and PartialSigVerify agree: whatever sign returns is accepted, except exactly when the
      scalar, the nonce coefficient, the challenge or the effective nonce is zero. */
  lemma SignMatchesVerify(c: Crypto, sn: SecNonce, sk: int, s: SessionContext)
    requires InGroup(c, sk) && Sign(c, sn, sk, s).Ok?
    ensures InGroup(c, sn.k1) && InGroup(c, sn.k2) && GetSessionValues(c, s).Ok?
    ensures PartialSigVerify(c, Sign(c, sn, sk, s).value, PublicNonce(c, sn.k1, sn.k2), sn.pk, s).Ok?
            <==> NonDegenerate(c, GetSessionValues(c, s).value, Sign(c, sn, sk, s).value, sn.k1, sn.k2)
  {
    SignParts(c, sn, sk, s);
    hide Sign, PartialSigVerify, GetSessionValues, KeyAggCoeff, Coeff, SignScalar, NoncePoint, PublicNonce, CheckEquation,
      GoodValues, KeySign, PsigEquation, EffectiveNonce, Mod;
    var v := GetSessionValues(c, s).value;
    var psig := Sign(c, sn, sk, s).value;
    var a := Coeff(c, s.pks, sn.pk);
    var pn := PublicNonce(c, sn.k1, sn.k2);
    KeySignIsSign(c, s);
    NoncePointOfSecrets(c, sn.k1, sn.k2, v.b);
    SignSatisfiesEquation(c, v, sn.k1, sn.k2, a, sk);
    VerifyParts(c, psig, pn, sn.pk, s, v, sk, a);
    var re := EffectiveNonce(c, sn.k1, sn.k2, v.b);
    if v.b != 0 && re != 0 {
      assert NoncePoint(c, pn, v.b).value == Some(re);
      CheckMeansEquation(c, v, psig, re, sk, a);
    }
  }

  /** What a successful `sign` has checked. */
  lemma SignParts(c: Crypto, sn: SecNonce, sk: int, s: SessionContext)
    requires InGroup(c, sk) && Sign(c, sn, sk, s).Ok?
    ensures InGroup(c, sn.k1) && InGroup(c, sn.k2) && GetSessionValues(c, s).Ok? && s.pks != []
    ensures GoodValues(c, GetSessionValues(c, s).value)
    ensures c.lift(sn.pk) == Some(sk)
    ensures KeyAggCoeff(c, s.pks, sn.pk) == Ok(Coeff(c, s.pks, sn.pk))
    ensures 0 != Coeff(c, s.pks, sn.pk) < c.n
    ensures Sign(c, sn, sk, s).value
         == SignScalar(c, GetSessionValues(c, s).value, sn.k1, sn.k2, Coeff(c, s.pks, sn.pk), sk) < c.n
  {
    hide GetSessionValues, SignScalar, Coeff, KeySum, Mod;
    AggregateIsWeightedSum(c, s.pks);
  }

  /** What the check comes down to once the key and the coefficient are known. */
  lemma VerifyParts(c: Crypto, psig: nat, pn: b66, pk: bytes, s: SessionContext, v: SessionValues, p: int, a: nat)
    requires GetSessionValues(c, s) == Ok(v) && GoodValues(c, v)
    requires InGroup(c, p) && c.lift(pk) == Some(p) && a < c.n && KeyAggCoeff(c, s.pks, pk) == Ok(a)
    ensures NoncePoint(c, pn, v.b).Ok? ==> Finite(c, NoncePoint(c, pn, v.b).value)
    ensures PartialSigVerify(c, psig, pn, pk, s).Ok?
       <==> psig != 0 && NoncePoint(c, pn, v.b).Ok? && NoncePoint(c, pn, v.b).value.Some?
            && CheckEquation(c, v, psig, NoncePoint(c, pn, v.b).value.value, p, a).Ok?
  {
    hide GetSessionValues, KeyAggCoeff, NoncePoint, CheckEquation;
  }

  // ---- Aggregation of verified partial signatures ----

  /** A partial signature with the public nonce and the key it is checked against. */
  datatype Share = Share(psig: nat, pubnonce: b66, pk: bytes)

  function Psigs(shares: seq<Share>): seq<nat> {
    MapSeq((x: Share) => x.psig, shares)
  }

  function Pubnonces(shares: seq<Share>): seq<b66> {
    MapSeq((x: Share) => x.pubnonce, shares)
  }

  function Pks(shares: seq<Share>): seq<bytes> {
    MapSeq((x: Share) => x.pk, shares)
  }

  predicate ShareVerifies(c: Crypto, sh: Share, s: SessionContext) {
    PartialSigVerify(c, sh.psig, sh.pubnonce, sh.pk, s).Ok?
  }

  /** The number an accepted share must be congruent to: its nonce and its weight, signed. */
  function ShareTerm(g: int, nonce: int, k: int, weight: int): int {
    g * nonce + k * weight
  }

  lemma EquationOverNonce(n: nat, psig: int, g: int, re: int, nonce: int, gp: int, e: int, w: int)
    requires n > 0 && Cong(n, psig, g * re + gp * (e * w)) && Cong(n, re, nonce)
    ensures Cong(n, psig, ShareTerm(g, nonce, gp * e, w))
  {
    MulAssociative(gp, e, w);
    CongMul(n, g, g, re, nonce);
    CongShift(n, g * re, g * nonce, gp * (e * w));
  }

  /** What an accepted share contributes, whoever made it. */
  lemma AcceptedShare(c: Crypto, v: SessionValues, psig: nat, pubnonce: b66, p: Option<int>, a: Result<nat, MusigError>)
    requires GoodValues(c, v) && IsSign(KeySign(c, v)) && Finite(c, p) && (a.Ok? ==> a.value < c.n)
    requires VerifyInSession(c, v, psig, pubnonce, p, a).Ok?
    ensures 0 < psig < c.n && a.Ok? && p.Some?
    ensures Cong(c.n, psig,
                 ShareTerm(ParitySign(c, v.r), LoVal(c)(pubnonce) + v.b * HiVal(c)(pubnonce),
                           KeySign(c, v) * v.e, p.value * a.value))
  {
    hide Mod, ShareTerm, KeySign, CheckEquation, NoncePoint, LoVal, HiVal;
    var re := NoncePoint(c, pubnonce, v.b).value.value;
    CheckMeansEquation(c, v, psig, re, p.value, a.value);
    NoncePointValue(c, pubnonce, v.b);
    EquationOverNonce(c.n, psig, ParitySign(c, v.r), re, LoVal(c)(pubnonce) + v.b * HiVal(c)(pubnonce),
                      KeySign(c, v), v.e, p.value * a.value);
  }

  // The summands of the aggregate, as functions of a share.

  function PsigOf(): Share -> int {
    (sh: Share) => sh.psig
  }

  function NonceOf(c: Crypto, b: nat): Share -> int {
    (sh: Share) => LoVal(c)(sh.pubnonce) + b * HiVal(c)(sh.pubnonce)
  }

  function WeightOf(c: Crypto, pks: seq<bytes>): Share -> int
    requires pks != []
  {
    (sh: Share) => Weight(c, pks)(sh.pk)
  }

  function TermOf(c: Crypto, pks: seq<bytes>, g: int, b: nat, k: int): Share -> int
    requires pks != []
  {
    (sh: Share) => ShareTerm(g, NonceOf(c, b)(sh), k, WeightOf(c, pks)(sh))
  }

  lemma TermOfShare(c: Crypto, pks: seq<bytes>, sh: Share, g: int, b: nat, k: int, p: Option<int>, a: Result<nat, MusigError>)
    requires pks != [] && p == c.lift(sh.pk) && p.Some? && a == Ok(Coeff(c, pks, sh.pk))
    ensures TermOf(c, pks, g, b, k)(sh) ==
            ShareTerm(g, LoVal(c)(sh.pubnonce) + b * HiVal(c)(sh.pubnonce), k, p.value * a.value)
  {
    hide Coeff, LoVal, HiVal, ShareTerm;
    assert WeightOf(c, pks)(sh) == Weight(c, pks)(sh.pk);
    assert Weight(c, pks)(sh.pk) == PointOf(c, sh.pk) * Coeff(c, pks, sh.pk);
    assert NonceOf(c, b)(sh) == LoVal(c)(sh.pubnonce) + b * HiVal(c)(sh.pubnonce);
    assert TermOf(c, pks, g, b, k)(sh) == ShareTerm(g, NonceOf(c, b)(sh), k, WeightOf(c, pks)(sh));
  }

  lemma CoeffOfMember(c: Crypto, pks: seq<bytes>, pk: bytes)
    requires KeyAggCoeff(c, pks, pk).Ok?
    ensures pks != [] && KeyAggCoeff(c, pks, pk) == Ok(Coeff(c, pks, pk))
  {
    hide Coeff;
  }

  lemma ShareEquation(c: Crypto, pks: seq<bytes>, v: SessionValues, sh: Share, p: Option<int>, a: Result<nat, MusigError>)
    requires GoodValues(c, v) && IsSign(KeySign(c, v)) && Finite(c, p)
    requires pks != [] && p == c.lift(sh.pk) && a == Ok(Coeff(c, pks, sh.pk))
    requires VerifyInSession(c, v, sh.psig, sh.pubnonce, p, a).Ok?
    ensures 0 < sh.psig < c.n
    ensures Cong(c.n, sh.psig, TermOf(c, pks, ParitySign(c, v.r), v.b, KeySign(c, v) * v.e)(sh))
  {
    hide Mod, ShareTerm, TermOf, Coeff, VerifyInSession, KeySign;
    AcceptedShare(c, v, sh.psig, sh.pubnonce, p, a);
    TermOfShare(c, pks, sh, ParitySign(c, v.r), v.b, KeySign(c, v) * v.e, p, a);
  }

  lemma VerifiesInSession(c: Crypto, sh: Share, s: SessionContext)
    requires ShareVerifies(c, sh, s)
    ensures GetSessionValues(c, s).Ok?
    ensures IsSign(KeySign(c, GetSessionValues(c, s).value))
    ensures VerifyInSession(c, GetSessionValues(c, s).value, sh.psig, sh.pubnonce, c.lift(sh.pk),
                            KeyAggCoeff(c, s.pks, sh.pk)).Ok?
  {
    KeySignIsSign(c, s);
  }

  /** The halves of an aggregate nonce are the sums of the halves. */
  lemma NonceAggHalves(c: Crypto, pns: seq<b66>, agg: b66)
    requires NonceAgg(c, pns) == Ok(agg)
    ensures Cong(c.n, LoVal(c)(agg), Sum(LoVal(c), pns))
    ensures Cong(c.n, HiVal(c)(agg), Sum(HiVal(c), pns))
  {
    hide NonceSum, CpointExt, SerExt, Cong;
    var s := NonceSum(c, pns, None, None).value;
    NonceSumFolds(c, pns, None, None, LoVal(c), HiVal(c));
    assert Lo(agg) == SerExt(c, s.0) && Hi(agg) == SerExt(c, s.1);
    CpointExtInverts(c, s.0);
    CpointExtInverts(c, s.1);
  }

  function Plain(): nat -> int {
    x => x
  }

  lemma {:induction false} PsigSumSucceeds(c: Crypto, psigs: seq<nat>, acc: nat)
    requires acc < c.n
    ensures PsigSum(c, psigs, acc).Ok? <==> forall i :: 0 <= i < |psigs| ==> psigs[i] < c.n
    decreases |psigs|
  {
    hide Mod;
    if psigs == [] {
    } else if psigs[0] < c.n {
      PsigSumSucceeds(c, psigs[1..], ScalarAdd(c, acc, psigs[0]));
      assert forall i :: 0 < i < |psigs| ==> psigs[i] == psigs[1..][i - 1];
      assert forall i :: 0 <= i < |psigs| - 1 ==> psigs[1..][i] == psigs[i + 1];
    }
  }

  lemma {:induction false} PsigSumAddsUp(c: Crypto, psigs: seq<nat>, acc: nat)
    requires acc < c.n && PsigSum(c, psigs, acc).Ok?
    ensures Cong(c.n, PsigSum(c, psigs, acc).value, acc + Sum(Plain(), psigs))
    decreases |psigs|
  {
    if psigs != [] {
      var next := ScalarAdd(c, acc, psigs[0]);
      PsigSumAddsUp(c, psigs[1..], next);
      CongShift(c.n, next, acc + psigs[0], Sum(Plain(), psigs[1..]));
    }
  }

  lemma SumOfPsigs(c: Crypto, s: SessionContext, shares: seq<Share>, v: SessionValues)
    requires GetSessionValues(c, s) == Ok(v) && s.pks != []
    requires forall sh :: sh in shares ==> ShareVerifies(c, sh, s)
    ensures forall sh :: sh in shares ==> 0 < sh.psig < c.n
    ensures Cong(c.n, Sum(PsigOf(), shares),
                 Sum(TermOf(c, s.pks, ParitySign(c, v.r), v.b, KeySign(c, v) * v.e), shares))
  {
    assert c.n > 0;
    hide *;
    var h := TermOf(c, s.pks, ParitySign(c, v.r), v.b, KeySign(c, v) * v.e);
    forall sh | sh in shares
      ensures 0 < sh.psig < c.n && Cong(c.n, PsigOf()(sh), h(sh))
    {
      VerifiesInSession(c, sh, s);
      VerifiedKey(c, v, sh, s.pks);
      CoeffOfMember(c, s.pks, sh.pk);
      ShareEquation(c, s.pks, v, sh, c.lift(sh.pk), KeyAggCoeff(c, s.pks, sh.pk));
      PsigOfShare(sh);
    }
    CongSum(c.n, PsigOf(), h, shares);
  }

  lemma PsigOfShare(sh: Share)
    ensures PsigOf()(sh) == sh.psig
  {
  }

  lemma VerifiedKey(c: Crypto, v: SessionValues, sh: Share, pks: seq<bytes>)
    requires GoodValues(c, v)
    requires VerifyInSession(c, v, sh.psig, sh.pubnonce, c.lift(sh.pk), KeyAggCoeff(c, pks, sh.pk)).Ok?
    ensures KeyAggCoeff(c, pks, sh.pk).Ok?
    ensures Finite(c, c.lift(sh.pk))
  {
    hide CheckEquation, NoncePoint;
  }

  // The three sums over the shares, each identified with a value of the session.

  function LoOf(c: Crypto): Share -> int {
    (sh: Share) => LoVal(c)(sh.pubnonce)
  }

  function HiOf(c: Crypto): Share -> int {
    (sh: Share) => HiVal(c)(sh.pubnonce)
  }

  lemma NonceTotal(c: Crypto, shares: seq<Share>, agg: b66, b: nat)
    requires NonceAgg(c, Pubnonces(shares)) == Ok(agg) && b < c.n && NoncePoint(c, agg, b).Ok?
    ensures Cong(c.n, Sum(NonceOf(c, b), shares), Val(NoncePoint(c, agg, b).value))
  {
    hide Mod, NonceAgg, NoncePoint, LoVal, HiVal;
    SumCombination(NonceOf(c, b), LoOf(c), HiOf(c), 1, b, shares);
    SumMap(LoOf(c), LoVal(c), (x: Share) => x.pubnonce, shares);
    SumMap(HiOf(c), HiVal(c), (x: Share) => x.pubnonce, shares);
    var pns := Pubnonces(shares);
    NonceAggHalves(c, pns, agg);
    NoncePointValue(c, agg, b);
    CongMul(c.n, b, b, HiVal(c)(agg), Sum(HiVal(c), pns));
    CongAdd(c.n, LoVal(c)(agg), Sum(LoVal(c), pns), b * HiVal(c)(agg), b * Sum(HiVal(c), pns));
  }

  lemma WeightTotal(c: Crypto, shares: seq<Share>, pks: seq<bytes>)
    requires Aggregate(c, pks).Ok? && pks != [] && multiset(Pks(shares)) == multiset(pks)
    ensures Cong(c.n, Sum(WeightOf(c, pks), shares), Aggregate(c, pks).value.aggPubkey)
  {
    hide Mod, Aggregate, Weight;
    SumMap(WeightOf(c, pks), Weight(c, pks), (x: Share) => x.pk, shares);
    SumPermutation(Weight(c, pks), Pks(shares), pks);
    AggregateIsWeightedSum(c, pks);
  }

  lemma PsigTotal(c: Crypto, shares: seq<Share>)
    ensures Sum(PsigOf(), shares) == Sum(Plain(), Psigs(shares))
  {
    SumMap(PsigOf(), Plain(), (x: Share) => x.psig, shares);
  }

  lemma TermTotal(c: Crypto, shares: seq<Share>, pks: seq<bytes>, g: int, b: nat, k: int)
    requires pks != []
    ensures Sum(TermOf(c, pks, g, b, k), shares) == g * Sum(NonceOf(c, b), shares) + k * Sum(WeightOf(c, pks), shares)
  {
    hide Weight, LoVal, HiVal;
    SumCombination(TermOf(c, pks, g, b, k), NonceOf(c, b), WeightOf(c, pks), g, k, shares);
  }

  lemma CongTimes(n: nat, k: int, a: int, b: int)
    requires n > 0 && Cong(n, a, b)
    ensures Cong(n, k * a, k * b)
  {
    CongMul(n, k, k, a, b);
  }

  lemma KeyTimesChallenge(gq: int, gacc: int, e: int, q0: int, tacc: int)
    ensures ((gq * gacc) * e) * q0 + (gq * tacc) * e == e * (gq * (gacc * q0 + tacc))
  {
    assert ((gq * gacc) * e) * q0 == e * (gq * (gacc * q0)) by {
      MulAssociative(gq, gacc, q0);
      var x := gq * gacc;
      assert (x * e) * q0 == e * (x * q0);
    }
    assert (gq * tacc) * e == e * (gq * tacc);
    Distribute(gq, gacc * q0, tacc);
    Distribute(e, gq * (gacc * q0), gq * tacc);
  }

  /** The final scalar: the summed key shares and the tweak term together make the tweaked key. */
  lemma KeyPartOfSum(n: nat, gq: int, gacc: int, e: nat, q0: int, tacc: nat, q: int, evenQ: int, gtacc: nat)
    requires n > 0 && Cong(n, q, gacc * q0 + tacc) && Cong(n, gtacc, gq * tacc) && Cong(n, evenQ, gq * q)
    ensures Cong(n, e * evenQ, ((gq * gacc) * e) * q0 + gtacc * e)
  {
    CongTimes(n, gq, q, gacc * q0 + tacc);
    CongTimes(n, e, evenQ, gq * (gacc * q0 + tacc));
    KeyTimesChallenge(gq, gacc, e, q0, tacc);
    CongMul(n, gtacc, gq * tacc, e, e);
    CongShift(n, gtacc * e, (gq * tacc) * e, ((gq * gacc) * e) * q0);
  }

  lemma FinalScalar(n: nat, sum: int, nonceTerm: int, keyTerm: int, tweakTerm: int, s: int, key: int)
    requires n > 0 && Cong(n, sum, nonceTerm + keyTerm) && Cong(n, s, sum + tweakTerm)
    requires Cong(n, key, keyTerm + tweakTerm)
    ensures Cong(n, s - key, nonceTerm)
  {
    CongShift(n, sum, nonceTerm + keyTerm, tweakTerm);
    CongAdd(n, s, nonceTerm + keyTerm + tweakTerm, key, keyTerm + tweakTerm);
  }

  /** How the session values arise. */
  lemma SessionParts(c: Crypto, s: SessionContext, v: SessionValues)
    requires GetSessionValues(c, s) == Ok(v)
    ensures SessionNonce(c, s).Ok? && SessionNonce(c, s) == NoncePoint(c, s.aggnonce, v.b)
    ensures v.r == (if SessionNonce(c, s).value.None? then 1 else SessionNonce(c, s).value.value)
    ensures v.e == Challenge(c, c.xb(v.r), c.xb(v.q), s.msg)
    ensures Aggregate(c, s.pks).Ok? && s.pks != []
    ensures TweakInvariant(c, Aggregate(c, s.pks).value.aggPubkey, TweakAcc(v.q, v.gacc, v.tacc))
  {
    hide ApplyTweaks, Challenge, NonceCoeff, NoncePoint, TweakInvariant;
    SessionKeyInvariant(c, s);
  }

  /** The signed values derived from a session, and what they are congruent to. */
  lemma SessionSigns(c: Crypto, v: SessionValues, q0: int)
    requires GoodValues(c, v) && TweakInvariant(c, q0, TweakAcc(v.q, v.gacc, v.tacc))
    ensures c.n > 0 && InGroup(c, v.q) && v.tacc < c.n && IsSign(ParitySign(c, v.q))
    ensures KeySign(c, v) == ParitySign(c, v.q) * v.gacc
    ensures Cong(c.n, v.q, v.gacc * q0 + v.tacc)
    ensures Cong(c.n, EvenPoint(c, v.q), ParitySign(c, v.q) * v.q)
    ensures Cong(c.n, SignedScalar(c, ParitySign(c, v.q), v.tacc), ParitySign(c, v.q) * v.tacc)
  {
    EvenPointIsSigned(c, v.q);
  }

  lemma SessionValuesAreGood(c: Crypto, s: SessionContext, v: SessionValues)
    requires GetSessionValues(c, s) == Ok(v)
    ensures GoodValues(c, v)
  {
  }

  /** The summed partial signatures: the signed R' and the signed aggregate key times e. */
  lemma SummedPsigs(c: Crypto, s: SessionContext, shares: seq<Share>, v: SessionValues)
    requires GetSessionValues(c, s) == Ok(v) && Aggregate(c, s.pks).Ok? && s.pks != []
    requires NoncePoint(c, s.aggnonce, v.b).Ok? && NonceAgg(c, Pubnonces(shares)) == Ok(s.aggnonce)
    requires multiset(Pks(shares)) == multiset(s.pks)
    requires forall sh :: sh in shares ==> ShareVerifies(c, sh, s)
    ensures forall sh :: sh in shares ==> 0 < sh.psig < c.n
    ensures Cong(c.n, Sum(Plain(), Psigs(shares)),
                 ParitySign(c, v.r) * Val(NoncePoint(c, s.aggnonce, v.b).value)
                 + (KeySign(c, v) * v.e) * Aggregate(c, s.pks).value.aggPubkey)
  {
    hide *;
    SessionValuesAreGood(c, s, v);
    SummedTerms(c, s, shares, v, ParitySign(c, v.r), KeySign(c, v) * v.e,
                Val(NoncePoint(c, s.aggnonce, v.b).value), Aggregate(c, s.pks).value.aggPubkey);
  }

  lemma SummedTerms(c: Crypto, s: SessionContext, shares: seq<Share>, v: SessionValues, g: int, k: int, rp: int, q0: int)
    requires GetSessionValues(c, s) == Ok(v) && Aggregate(c, s.pks).Ok? && s.pks != [] && c.n > 0 && v.b < c.n
    requires NoncePoint(c, s.aggnonce, v.b).Ok? && NonceAgg(c, Pubnonces(shares)) == Ok(s.aggnonce)
    requires multiset(Pks(shares)) == multiset(s.pks)
    requires forall sh :: sh in shares ==> ShareVerifies(c, sh, s)
    requires g == ParitySign(c, v.r) && k == KeySign(c, v) * v.e
    requires rp == Val(NoncePoint(c, s.aggnonce, v.b).value) && q0 == Aggregate(c, s.pks).value.aggPubkey
    ensures forall sh :: sh in shares ==> 0 < sh.psig < c.n
    ensures Cong(c.n, Sum(Plain(), Psigs(shares)), g * rp + k * q0)
  {
    hide *;
    SumOfPsigs(c, s, shares, v);
    PsigTotal(c, shares);
    TermTotal(c, shares, s.pks, g, v.b, k);
    NonceTotal(c, shares, s.aggnonce, v.b);
    WeightTotal(c, shares, s.pks);
    CombineTotals(c.n, Sum(Plain(), Psigs(shares)), Sum(TermOf(c, s.pks, g, v.b, k), shares),
                  Sum(NonceOf(c, v.b), shares), Sum(WeightOf(c, s.pks), shares), g, k, rp, q0);
  }

  lemma CombineTotals(n: nat, total: int, terms: int, nonces: int, weights: int, g: int, k: int, rp: int, q0: int)
    requires n > 0 && Cong(n, total, terms) && terms == g * nonces + k * weights
    requires Cong(n, nonces, rp) && Cong(n, weights, q0)
    ensures Cong(n, total, g * rp + k * q0)
  {
    hide Mod;
    CongTimes(n, g, nonces, rp);
    CongTimes(n, k, weights, q0);
    CongAdd(n, g * nonces, g * rp, k * weights, k * q0);
  }

  lemma {:induction false} PsigsBelowN(c: Crypto, shares: seq<Share>)
    requires forall sh :: sh in shares ==> 0 < sh.psig < c.n
    ensures PsigSum(c, Psigs(shares), 0).Ok?
    ensures Cong(c.n, PsigSum(c, Psigs(shares), 0).value, Sum(Plain(), Psigs(shares)))
  {
    forall i | 0 <= i < |shares|
      ensures Psigs(shares)[i] < c.n
    {
      assert shares[i] in shares;
    }
    PsigSumSucceeds(c, Psigs(shares), 0);
    PsigSumAddsUp(c, Psigs(shares), 0);
  }

  /** What PartialSigAgg adds to the summed partial signatures. */
  lemma PartialSigAggParts(c: Crypto, s: SessionContext, psigs: seq<nat>, v: SessionValues)
    requires GetSessionValues(c, s) == Ok(v) && PsigSum(c, psigs, 0).Ok?
    ensures PartialSigAgg(c, psigs, s).Ok? && PartialSigAgg(c, psigs, s).value.rx == c.xb(v.r)
    ensures PartialSigAgg(c, psigs, s).value.s < c.n
    ensures Cong(c.n, PartialSigAgg(c, psigs, s).value.s,
                 PsigSum(c, psigs, 0).value + SignedScalar(c, ParitySign(c, v.q), v.tacc) * v.e)
  {
    hide GetSessionValues, PsigSum;
    var sum, gtacc := PsigSum(c, psigs, 0).value, SignedScalar(c, ParitySign(c, v.q), v.tacc);
    CongShift(c.n, ScalarMul(c, gtacc, v.e), gtacc * v.e, sum);
  }

  /** The scalar of the aggregated signature, with the key's part taken out, is the signed R'. */
  lemma AggregateScalar(c: Crypto, s: SessionContext, shares: seq<Share>, v: SessionValues)
    requires GetSessionValues(c, s) == Ok(v)
    requires multiset(Pks(shares)) == multiset(s.pks) && NonceAgg(c, Pubnonces(shares)) == Ok(s.aggnonce)
    requires forall sh :: sh in shares ==> ShareVerifies(c, sh, s)
    ensures SessionNonce(c, s).Ok? && PartialSigAgg(c, Psigs(shares), s).Ok?
    ensures PartialSigAgg(c, Psigs(shares), s).value.rx == c.xb(v.r)
    ensures PartialSigAgg(c, Psigs(shares), s).value.s < c.n
    ensures Cong(c.n, PartialSigAgg(c, Psigs(shares), s).value.s - v.e * EvenPoint(c, v.q),
                 ParitySign(c, v.r) * Val(SessionNonce(c, s).value))
  {
    hide *;
    SessionValuesAreGood(c, s, v);
    SessionParts(c, s, v);
    var q0 := Aggregate(c, s.pks).value.aggPubkey;
    SessionSigns(c, v, q0);
    var psigs, gq := Psigs(shares), ParitySign(c, v.q);
    SummedPsigs(c, s, shares, v);
    PsigsBelowN(c, shares);
    PartialSigAggParts(c, s, psigs, v);
    RemoveKeyPart(c.n, ParitySign(c, v.r), Val(SessionNonce(c, s).value), gq, v.gacc, v.e, q0, v.tacc, v.q,
                  EvenPoint(c, v.q), SignedScalar(c, gq, v.tacc),
                  Sum(Plain(), psigs), PsigSum(c, psigs, 0).value, PartialSigAgg(c, psigs, s).value.s);
  }

  lemma RemoveKeyPart(n: nat, g: int, rp: int, gq: int, gacc: int, e: nat, q0: int, tacc: nat, q: int, evenQ: int,
                      gtacc: nat, total: int, sum: int, s: int)
    requires n > 0 && Cong(n, q, gacc * q0 + tacc) && Cong(n, gtacc, gq * tacc) && Cong(n, evenQ, gq * q)
    requires Cong(n, total, g * rp + ((gq * gacc) * e) * q0) && Cong(n, sum, total) && Cong(n, s, sum + gtacc * e)
    ensures Cong(n, s - e * evenQ, g * rp)
  {
    hide Mod;
    KeyPartOfSum(n, gq, gacc, e, q0, tacc, q, evenQ, gtacc);
    FinalScalar(n, sum, g * rp, ((gq * gacc) * e) * q0, gtacc * e, s, e * evenQ);
  }

  /** BIP-340 verification recovers the nonce point with even y, or infinity. */
  lemma RecoveredNonce(c: Crypto, r: int, rp: Option<int>, x: int)
    requires Finite(c, rp) && r == (if rp.None? then 1 else rp.value)
    requires Cong(c.n, x, ParitySign(c, r) * Val(rp))
    ensures Mod(c.n, x) == (if rp.None? then 0 else EvenPoint(c, r))
  {
    if rp.None? {
      ModSmall(c.n, 0);
    } else {
      EvenPointIsSigned(c, r);
      ModSmall(c.n, EvenPoint(c, r));
    }
  }

  lemma SchnorrAccepts(c: Crypto, v: SessionValues, rp: Option<int>, sig: Signature, msg: bytes)
    requires GoodValues(c, v) && Finite(c, rp) && v.r == (if rp.None? then 1 else rp.value)
    requires v.e == Challenge(c, c.xb(v.r), c.xb(v.q), msg)
    requires sig.rx == c.xb(v.r) && sig.s < c.n
    requires Cong(c.n, sig.s - v.e * EvenPoint(c, v.q), ParitySign(c, v.r) * Val(rp))
    ensures SchnorrVerify(c, sig, c.xb(v.q), msg) <==> rp.Some?
  {
    ChallengeIsVerifiers(c, c.xb(v.r), c.xb(v.q), msg);
    hide Mod, Challenge;
    LiftXOfPoint(c, v.q);
    RecoveredNonce(c, v.r, rp, sig.s - v.e * EvenPoint(c, v.q));
  }

  /** Partial signatures that pass their checks always aggregate, whoever made them, and for any
      key list, tweaks and message: the result is a signature BIP-340 accepts under the tweaked
      aggregate key exactly when the combined nonce R' is not infinity. */
  lemma VerifiedPartialsAggregate(c: Crypto, s: SessionContext, shares: seq<Share>)
    requires multiset(Pks(shares)) == multiset(s.pks) && NonceAgg(c, Pubnonces(shares)) == Ok(s.aggnonce)
    requires forall sh :: sh in shares ==> ShareVerifies(c, sh, s)
    ensures GetSessionValues(c, s).Ok? && SessionNonce(c, s).Ok? && PartialSigAgg(c, Psigs(shares), s).Ok?
    ensures SchnorrVerify(c, PartialSigAgg(c, Psigs(shares), s).value, c.xb(GetSessionValues(c, s).value.q), s.msg)
            <==> SessionNonce(c, s).value.Some?
  {
    hide *;
    SomeShare(c, s, shares);
    var v := GetSessionValues(c, s).value;
    SessionValuesAreGood(c, s, v);
    SessionParts(c, s, v);
    AggregateScalar(c, s, shares, v);
    SessionNonceIsFinite(c, s);
    SchnorrAccepts(c, v, SessionNonce(c, s).value, PartialSigAgg(c, Psigs(shares), s).value, s.msg);
  }

  lemma SomeShare(c: Crypto, s: SessionContext, shares: seq<Share>)
    requires NonceAgg(c, Pubnonces(shares)).Ok?
    requires forall sh :: sh in shares ==> ShareVerifies(c, sh, s)
    ensures shares != [] && GetSessionValues(c, s).Ok?
  {
    assert |Pubnonces(shares)| == |shares|;
    assert shares[0] in shares;
  }

  lemma SessionNonceIsFinite(c: Crypto, s: SessionContext)
    requires SessionNonce(c, s).Ok?
    ensures Finite(c, SessionNonce(c, s).value)
  {
  }
}
