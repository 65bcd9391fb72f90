// The signing session: session values, partial signatures, their verification and aggregation.
module PartialSigs {
  import opened Wrappers
  import opened Bytes
  import opened Zn
  import opened Curve
  import opened KeyAgg
  import opened Signing

  // ---- Session values ----

  /** The tweaked aggregate key of a session. */
  function SessionKey(c: Crypto, s: SessionContext): (r: Result<TweakAcc, MusigError>)
    ensures r.Ok? ==> InGroup(c, r.value.q) && r.value.tacc < c.n
  {
    match Aggregate(c, s.pks)
    case Err(e) => Err(e)
    case Ok(agg) => ApplyTweaks(c, agg.aggPubkey, s.tweaks)
  }

  function NonceCoeff(c: Crypto, s: SessionContext, q: int): (b: nat)
    ensures b < c.n
  {
    ScalarOf(c, c.tagged("MuSig/noncecoef", s.aggnonce + c.xb(q) + s.msg))
  }

  function Challenge(c: Crypto, rx: bytes, qx: bytes, msg: bytes): (e: nat)
    ensures e < c.n
  {
    ScalarOf(c, c.tagged("BIP0340/challenge", rx + qx + msg))
  }

  /** The point R1 + b·R2 of a nonce. */
  function NoncePoint(c: Crypto, nonce: b66, b: nat): (r: Result<Option<int>, MusigError>)
    requires b < c.n
    ensures r.Ok? ==> Finite(c, r.value)
  {
    match CpointExt(c, Lo(nonce))
    case Err(e) => Err(e)
    case Ok(r1) =>
      match CpointExt(c, Hi(nonce))
      case Err(e) => Err(e)
      case Ok(r2) =>
        match PtMul(c, r2, b)
        case Err(e) => Err(e)
        case Ok(br2) => PtAddIsAddition(c, r1, br2); PtAdd(c, r1, br2)
  }

  /** R' of the session: the final nonce before infinity is replaced by the generator. */
  function SessionNonce(c: Crypto, s: SessionContext): (r: Result<Option<int>, MusigError>)
    ensures r.Ok? ==> Finite(c, r.value)
  {
    match SessionKey(c, s)
    case Err(e) => Err(e)
    case Ok(key) => NoncePoint(c, s.aggnonce, NonceCoeff(c, s, key.q))
  }

  function GetSessionValues(c: Crypto, s: SessionContext): (r: Result<SessionValues, MusigError>)
    ensures r.Ok? ==> GoodValues(c, r.value)
  {
    match SessionKey(c, s)
    case Err(e) => Err(e)
    case Ok(key) =>
      var b := NonceCoeff(c, s, key.q);
      match NoncePoint(c, s.aggnonce, b)
      case Err(e) => Err(e)
      case Ok(rp) =>
        var r := if rp.None? then 1 else rp.value;
        Ok(SessionValues(key.q, key.gacc, key.tacc, b, r, Challenge(c, c.xb(r), c.xb(key.q), s.msg)))
  }

  predicate GoodValues(c: Crypto, v: SessionValues) {
    InGroup(c, v.q) && InGroup(c, v.r) && v.tacc < c.n && v.b < c.n && v.e < c.n
  }

  /** The coefficient hashes the aggregate nonce, the x coordinate of the session's key and the message,
      the challenge those of the nonce point, the key and the message. */
  lemma SessionHashes(c: Crypto, s: SessionContext, v: SessionValues, bIn: bytes, eIn: bytes)
    requires GetSessionValues(c, s) == Ok(v)
    requires |bIn| == 98 + |s.msg| && bIn[..66] == s.aggnonce && bIn[66..98] == c.xb(v.q) && bIn[98..] == s.msg
    requires |eIn| == 64 + |s.msg| && eIn[..32] == c.xb(v.r) && eIn[32..64] == c.xb(v.q) && eIn[64..] == s.msg
    ensures v.b == Mod(c.n, BE(c.tagged("MuSig/noncecoef", bIn)))
    ensures v.e == Mod(c.n, BE(c.tagged("BIP0340/challenge", eIn)))
  {
    HashedParts(c, s, v);
    hide *;
    JoinedParts(bIn, s.aggnonce, c.xb(v.q), s.msg);
    JoinedParts(eIn, c.xb(v.r), c.xb(v.q), s.msg);
  }

  lemma JoinedParts(all: bytes, x: bytes, y: bytes, z: bytes)
    requires |all| == |x| + |y| + |z| && all[..|x|] == x && all[|x|..|x| + |y|] == y && all[|x| + |y|..] == z
    ensures all == x + y + z
  {
  }

  lemma HashedParts(c: Crypto, s: SessionContext, v: SessionValues)
    requires GetSessionValues(c, s) == Ok(v)
    ensures |c.xb(v.r)| == 32 && |c.xb(v.q)| == 32
    ensures v.b == Mod(c.n, BE(c.tagged("MuSig/noncecoef", s.aggnonce + c.xb(v.q) + s.msg)))
    ensures v.e == Mod(c.n, BE(c.tagged("BIP0340/challenge", c.xb(v.r) + c.xb(v.q) + s.msg)))
  {
    hide SessionKey, NoncePoint, BE, Mod;
  }

  /** The sign the signers apply to the key: parity of Q times the accumulated sign. */
  function KeySign(c: Crypto, v: SessionValues): int {
    ParitySign(c, v.q) * v.gacc
  }

  /** The session key is the aggregate key up to sign, plus the accumulated tweak. */
  lemma SessionKeyInvariant(c: Crypto, s: SessionContext)
    requires SessionKey(c, s).Ok?
    ensures Aggregate(c, s.pks).Ok?
    ensures TweakInvariant(c, Aggregate(c, s.pks).value.aggPubkey, SessionKey(c, s).value)
  {
    var q0 := Aggregate(c, s.pks).value.aggPubkey;
    InitialTweakInvariant(c, q0);
    TweaksKeepInvariant(c, q0, TweakAcc(q0, 1, 0), s.tweaks);
  }

  lemma KeySignIsSign(c: Crypto, s: SessionContext)
    requires GetSessionValues(c, s).Ok?
    ensures IsSign(GetSessionValues(c, s).value.gacc) && IsSign(KeySign(c, GetSessionValues(c, s).value))
  {
    SessionKeyInvariant(c, s);
  }

  // ---- Sign ----

  /** The scalar a signer computes from its secrets and the session. */
  function SignScalar(c: Crypto, v: SessionValues, k1: nat, k2: nat, a: nat, d: nat): (s: nat)
    requires GoodValues(c, v) && k1 < c.n && k2 < c.n && a < c.n && d < c.n
    ensures s < c.n
  {
    var g := ParitySign(c, v.r);
    var k1', k2' := SignedScalar(c, g, k1), SignedScalar(c, g, k2);
    var d' := SignedScalar(c, if KeySign(c, v) == -1 then -1 else 1, d);
    var bk2 := ScalarMul(c, k2', v.b);
    var ad := ScalarMul(c, d', a);
    ScalarAdd(c, ScalarAdd(c, k1', bk2), ScalarMul(c, ad, v.e))
  }

  function Sign(c: Crypto, sn: SecNonce, sk: int, s: SessionContext): (r: Result<nat, MusigError>)
    requires InGroup(c, sk)
    ensures r.Ok? ==> r.value < c.n
  {
    match GetSessionValues(c, s)
    case Err(e) => Err(e)
    case Ok(v) =>
      if sn.k1 == 0 || sn.k2 == 0 || sn.k1 >= c.n || sn.k2 >= c.n then Err(InvalidNonce)
      else if Ser(c, sk) != sn.pk then Err(SignerPubkeyMismatch)
      else match KeyAggCoeff(c, s.pks, sn.pk)
        case Err(e) => Err(e)
        case Ok(a) => Ok(SignScalar(c, v, sn.k1, sn.k2, a, sk))
  }

  /** sign: the secrets are negated in place as the parities demand. */
  method MakePartialSig(c: Crypto, sn: SecNonce, sk: int, s: SessionContext) returns (r: Result<nat, MusigError>)
    requires InGroup(c, sk)
    ensures r == Sign(c, sn, sk, s)
  {
    var sv := GetSessionValues(c, s);
    if sv.Err? {
      return Err(sv.error);
    }
    var v := sv.value;
    var k1, k2 := sn.k1, sn.k2;
    if k1 == 0 || k2 == 0 || k1 >= c.n || k2 >= c.n {
      return Err(InvalidNonce);
    }
    if !c.even(v.r) {
      k1 := ScalarNeg(c, k1);
      k2 := ScalarNeg(c, k2);
    }
    var pk := Ser(c, sk);
    if pk != sn.pk {
      return Err(SignerPubkeyMismatch);
    }
    var a := KeyAggCoeff(c, s.pks, pk);
    if a.Err? {
      return Err(a.error);
    }
    var g := if c.even(v.q) then 1 else -1;
    var d: nat := sk;
    if g * v.gacc == -1 {
      d := ScalarNeg(c, d);
    }
    var bk2 := ScalarMul(c, k2, v.b);
    var ad := ScalarMul(c, d, a.value);
    var ead := ScalarMul(c, ad, v.e);
    var s1 := ScalarAdd(c, k1, bk2);
    r := Ok(ScalarAdd(c, s1, ead));
  }

  // ---- PartialSigVerify ----

  function PartialSigVerify(c: Crypto, psig: nat, pubnonce: b66, pk: bytes, s: SessionContext): Result<(), MusigError> {
    match GetSessionValues(c, s)
    case Err(e) => Err(e)
    case Ok(v) => VerifyInSession(c, v, psig, pubnonce, c.lift(pk), KeyAggCoeff(c, s.pks, pk))
  }

  /** The check, given the session values, the signer's parsed key and its coefficient. */
  function VerifyInSession(c: Crypto, v: SessionValues, psig: nat, pubnonce: b66, p: Option<int>, a: Result<nat, MusigError>)
    : Result<(), MusigError>
    requires GoodValues(c, v) && Finite(c, p) && (a.Ok? ==> a.value < c.n)
  {
    if psig == 0 then Err(InvalidPartialSig)
    else match NoncePoint(c, pubnonce, v.b)
      case Err(e) => Err(e)
      case Ok(None) => Err(AggregationFailed)
      case Ok(Some(re)) =>
        match p
        case None => Err(InvalidPublicKey)
        case Some(q) =>
          match a
          case Err(e) => Err(e)
          case Ok(coeff) => CheckEquation(c, v, psig, re, q, coeff)
  }

  /** The right-hand side of the check: the signer's nonce plus its key share. */
  function RightHandSide(c: Crypto, v: SessionValues, re: int, p: int, a: nat): (r: Result<Option<int>, MusigError>)
    requires GoodValues(c, v) && InGroup(c, re) && InGroup(c, p) && a < c.n
  {
    var re' := SignedPoint(c, ParitySign(c, v.r), re);
    var eag := SignedScalar(c, if KeySign(c, v) == -1 then -1 else 1, ScalarMul(c, a, v.e));
    match MulTweak(c, p, eag)
    case Err(e) => Err(e)
    case Ok(pEag) => PtAdd(c, Some(re'), Some(pEag))
  }

  /** The last part of the check: compare psig·G with the right-hand side. */
  function CheckEquation(c: Crypto, v: SessionValues, psig: nat, re: int, p: int, a: nat): Result<(), MusigError>
    requires GoodValues(c, v) && InGroup(c, re) && InGroup(c, p) && a < c.n
  {
    match RightHandSide(c, v, re, p, a)
    case Err(e) => Err(e)
    case Ok(None) => Err(AggregationFailed)
    case Ok(Some(rhs)) =>
      if psig == 0 || psig >= c.n then Err(InvalidPartialSig)   // SecretKey::from_slice
      else if psig != rhs then Err(InvalidPartialSig)
      else Ok(())
  }

  /** What a partial signature must satisfy: s = ±(R1 + b·R2) ± e·a·P, signs by parity. */
  ghost predicate PsigEquation(c: Crypto, v: SessionValues, psig: int, re: int, p: int, a: nat) {
    c.n > 0 && Cong(c.n, psig, ParitySign(c, v.r) * re + KeySign(c, v) * (v.e * (p * a)))
  }

  lemma Reorder(p: int, gp: int, a: int, e: int)
    ensures p * (gp * (a * e)) == gp * (e * (p * a))
  {
    var ae := a * e;
    assert p * (gp * ae) == gp * (p * ae);
    assert p * ae == e * (p * a);
  }

  lemma KeyShareTerms(n: nat, gp: int, a: nat, e: nat, ea: nat, eag: nat, p: int, pEag: int)
    requires n > 0 && Cong(n, ea, a * e) && Cong(n, eag, gp * ea) && Cong(n, pEag, p * eag)
    ensures Cong(n, pEag, gp * (e * (p * a)))
  {
    CongMul(n, gp, gp, ea, a * e);
    CongMul(n, p, p, eag, gp * (a * e));
    Reorder(p, gp, a, e);
  }

  lemma RightHandSideValue(c: Crypto, v: SessionValues, re: int, p: int, a: nat)
    requires GoodValues(c, v) && InGroup(c, re) && InGroup(c, p) && a < c.n && IsSign(KeySign(c, v))
    ensures RightHandSide(c, v, re, p, a).Ok? <==> a != 0 && v.e != 0
    ensures RightHandSide(c, v, re, p, a).Ok? ==> Finite(c, RightHandSide(c, v, re, p, a).value)
    ensures RightHandSide(c, v, re, p, a).Ok? ==>
              PsigEquation(c, v, Val(RightHandSide(c, v, re, p, a).value), re, p, a)
  {
    hide Cong, Mod, PtAdd, MulTweak, ScalarMul, SignedScalar, SignedPoint;
    var g, gp := ParitySign(c, v.r), KeySign(c, v);
    var re' := SignedPoint(c, g, re);
    var ea := ScalarMul(c, a, v.e);
    var eag := SignedScalar(c, gp, ea);
    MulTweakIsProduct(c, p, eag);
    if eag != 0 {
      var pEag := MulTweak(c, p, eag).value;
      var share := gp * (v.e * (p * a));
      PtAddIsAddition(c, Some(re'), Some(pEag));
      KeyShareTerms(c.n, gp, a, v.e, ea, eag, p, pEag);
      CongMod(c.n, re' + pEag);
      AddBoth(c.n, Mod(c.n, re' + pEag), re', pEag, g * re, share);
    }
  }

  lemma MulTweakIsProduct(c: Crypto, p: int, s: nat)
    requires InGroup(c, p) && s < c.n
    ensures MulTweak(c, p, s).Ok? <==> s != 0
    ensures s != 0 ==> Cong(c.n, MulTweak(c, p, s).value, p * s)
  {
    CongMod(c.n, p * s);
  }

  lemma AddBoth(n: nat, sum: int, x: int, y: int, x': int, y': int)
    requires n > 0 && Cong(n, sum, x + y) && Cong(n, x, x') && Cong(n, y, y')
    ensures Cong(n, sum, x' + y')
  {
    CongAdd(n, x, x', y, y');
  }

  /** The check accepts exactly the nonzero scalars below n that satisfy the equation, provided
      the key's share is not cancelled by a zero challenge. */
  lemma CheckMeansEquation(c: Crypto, v: SessionValues, psig: nat, re: int, p: int, a: nat)
    requires GoodValues(c, v) && InGroup(c, re) && InGroup(c, p) && a < c.n && IsSign(KeySign(c, v))
    ensures CheckEquation(c, v, psig, re, p, a).Ok? <==>
              0 < psig < c.n && a != 0 && v.e != 0 && PsigEquation(c, v, psig, re, p, a)
  {
    RightHandSideValue(c, v, re, p, a);
    var r := RightHandSide(c, v, re, p, a);
    if r.Ok? && 0 < psig < c.n {
      if Cong(c.n, psig, Val(r.value)) { CongEqual(c.n, psig, Val(r.value)); }
    }
  }

  // ---- PartialSigAgg ----

  function PsigSum(c: Crypto, psigs: seq<nat>, acc: nat): (r: Result<nat, MusigError>)
    requires acc < c.n
    ensures r.Ok? ==> r.value < c.n
    decreases |psigs|
  {
    if psigs == [] then Ok(acc)
    else if psigs[0] >= c.n then Err(InvalidPartialSig)
    else PsigSum(c, psigs[1..], ScalarAdd(c, acc, psigs[0]))
  }

  function PartialSigAgg(c: Crypto, psigs: seq<nat>, s: SessionContext): (r: Result<Signature, MusigError>) {
    match GetSessionValues(c, s)
    case Err(e) => Err(e)
    case Ok(v) =>
      match PsigSum(c, psigs, 0)
      case Err(e) => Err(e)
      case Ok(sum) =>
        var gtacc := SignedScalar(c, ParitySign(c, v.q), v.tacc);
        Ok(Signature(c.xb(v.r), ScalarAdd(c, sum, ScalarMul(c, gtacc, v.e))))
  }

  /** partial_sig_agg: the loop over the partial signatures. */
  method AggregatePartialSigs(c: Crypto, psigs: seq<nat>, s: SessionContext) returns (r: Result<Signature, MusigError>)
    ensures r == PartialSigAgg(c, psigs, s)
  {
    var sv := GetSessionValues(c, s);
    if sv.Err? {
      return Err(sv.error);
    }
    var v := sv.value;
    var sum: nat := 0;
    var i := 0;
    assert psigs[0..] == psigs;
    while i < |psigs|
      invariant 0 <= i <= |psigs| && sum < c.n
      invariant PsigSum(c, psigs[i..], sum) == PsigSum(c, psigs, 0)
    {
      assert psigs[i..][0] == psigs[i] && psigs[i..][1..] == psigs[i + 1..];
      if psigs[i] >= c.n {
        return Err(InvalidPartialSig);
      }
      sum := ScalarAdd(c, sum, psigs[i]);
      i := i + 1;
    }
    var g := if c.even(v.q) then 1 else -1;
    var gtacc := v.tacc;
    if g == -1 {
      gtacc := ScalarNeg(c, v.tacc);
    }
    sum := ScalarAdd(c, sum, ScalarMul(c, gtacc, v.e));
    r := Ok(Signature(c.xb(v.r), sum));
  }

  // ---- BIP-340 verification ----

  /** Verify(pk, m, sig) of BIP-340, with its own challenge e = hash(rx || px || m) modulo n:
      R = s·G - e·P must have even y and x coordinate rx. */
  function SchnorrVerify(c: Crypto, sig: Signature, px: bytes, msg: bytes): bool {
    match LiftX(c, px)
    case None => false
    case Some(p) =>
      sig.s < c.n
      && var e := Mod(c.n, BE(c.tagged("BIP0340/challenge", sig.rx + px + msg)));
         var r := Mod(c.n, sig.s - e * p);
         r != 0 && c.even(r) && c.xb(r) == sig.rx
  }

  /** The challenge the signers answer is the one the verifier asks. */
  lemma ChallengeIsVerifiers(c: Crypto, rx: bytes, px: bytes, msg: bytes)
    ensures Challenge(c, rx, px, msg) == Mod(c.n, BE(c.tagged("BIP0340/challenge", rx + px + msg)))
  {
  }
}
