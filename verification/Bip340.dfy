// What the signature check at the end of a ceremony means, and what it binds.
module Bip340 {
  import opened Wrappers
  import opened Bytes
  import opened Zn
  import opened Curve
  import opened Signing
  import opened PartialSigs

  /** The number the challenge is hashed to, from the x coordinates of R and P and the message. */
  function ChallengeHash(c: Crypto, rx: bytes, px: bytes, msg: bytes): nat {
    BE(c.tagged("BIP0340/challenge", rx + px + msg))
  }

  /** The scalar belongs to even points P and R with the given x coordinates: s·G = R + e·P. */
  ghost predicate SchnorrEquation(c: Crypto, sig: Signature, px: bytes, msg: bytes, p: int, r: int) {
    && InGroup(c, p) && c.even(p) && c.xb(p) == px
    && InGroup(c, r) && c.even(r) && c.xb(r) == sig.rx
    && Cong(c.n, sig.s, r + ChallengeHash(c, sig.rx, px, msg) * p)
  }

  lemma LiftIsEvenPoint(c: Crypto, px: bytes, p: int)
    ensures LiftX(c, px) == Some(p) <==> InGroup(c, p) && c.even(p) && c.xb(p) == px
  {
    if LiftX(c, px) == Some(p) {
      assert Ser(c, p) == [2] + px;
      assert Ser(c, p)[0] == 2 && Ser(c, p)[1..] == px;
    }
    if InGroup(c, p) && c.even(p) && c.xb(p) == px {
      assert Ser(c, p) == [2] + px;
    }
  }

  /** Two even points with one x coordinate are the same. */
  lemma EvenPointIsUnique(c: Crypto, p: int, q: int)
    requires InGroup(c, p) && InGroup(c, q) && c.even(p) && c.even(q) && c.xb(p) == c.xb(q)
    ensures p == q
  {
  }

  /** The residue the verifier computes is r exactly when s is r plus the challenge times p. */
  lemma Recovers(n: nat, s: int, h: int, p: int, r: int)
    requires n > 0 && 0 < r < n
    ensures Mod(n, s - Mod(n, h) * p) == r <==> Cong(n, s, r + h * p)
  {
    var e := Mod(n, h);
    CongMod(n, h);
    CongReflexive(n, p);
    CongMul(n, e, h, p, p);
    CongMod(n, s - e * p);
    ModSmall(n, r);
    hide Mod;
    if Mod(n, s - e * p) == r {
      CongAdd(n, s - e * p, r, e * p, h * p);
    }
    if Cong(n, s, r + h * p) {
      CongAdd(n, s, r + h * p, e * p, h * p);
      CongEqual(n, Mod(n, s - e * p), r);
    }
  }

  lemma VerifyParts(c: Crypto, sig: Signature, px: bytes, msg: bytes, p: int)
    requires LiftX(c, px) == Some(p)
    ensures var r := Mod(c.n, sig.s - Mod(c.n, ChallengeHash(c, sig.rx, px, msg)) * p);
      SchnorrVerify(c, sig, px, msg) <==> sig.s < c.n && InGroup(c, r) && c.even(r) && c.xb(r) == sig.rx
  {
    hide Mod, BE, LiftX;
  }

  lemma VerifyForPoint(c: Crypto, sig: Signature, px: bytes, msg: bytes, p: int, r: int)
    requires SchnorrEquation(c, sig, px, msg, p, r) && sig.s < c.n
    ensures SchnorrVerify(c, sig, px, msg)
  {
    hide Mod, ChallengeHash, SchnorrVerify, LiftX;
    LiftIsEvenPoint(c, px, p);
    Recovers(c.n, sig.s, ChallengeHash(c, sig.rx, px, msg), p, r);
    VerifyParts(c, sig, px, msg, p);
  }

  lemma VerifiedPoints(c: Crypto, sig: Signature, px: bytes, msg: bytes) returns (p: int, r: int)
    requires SchnorrVerify(c, sig, px, msg)
    ensures SchnorrEquation(c, sig, px, msg, p, r) && sig.s < c.n
  {
    p := LiftX(c, px).value;
    hide Mod, ChallengeHash, SchnorrVerify, LiftX;
    LiftIsEvenPoint(c, px, p);
    VerifyParts(c, sig, px, msg, p);
    r := Mod(c.n, sig.s - Mod(c.n, ChallengeHash(c, sig.rx, px, msg)) * p);
    Recovers(c.n, sig.s, ChallengeHash(c, sig.rx, px, msg), p, r);
  }

  /** A signature verifies exactly if its scalar is reduced and satisfies the signer's equation of
      BIP-340 for some even points with the two x coordinates. */
  lemma VerifyMeansEquation(c: Crypto, sig: Signature, px: bytes, msg: bytes)
    ensures SchnorrVerify(c, sig, px, msg)
       <==> sig.s < c.n && exists p, r :: SchnorrEquation(c, sig, px, msg, p, r)
  {
    hide SchnorrVerify, SchnorrEquation;
    if SchnorrVerify(c, sig, px, msg) {
      var p, r := VerifiedPoints(c, sig, px, msg);
    }
    if p, r :| sig.s < c.n && SchnorrEquation(c, sig, px, msg, p, r) {
      VerifyForPoint(c, sig, px, msg, p, r);
    }
  }

  /** A signature is valid for one message only: if it verifies for two, their challenges agree modulo n. */
  lemma MessageIsBound(c: Crypto, sig: Signature, px: bytes, msg: bytes, msg': bytes)
    requires SchnorrVerify(c, sig, px, msg) && SchnorrVerify(c, sig, px, msg')
    ensures Cong(c.n, ChallengeHash(c, sig.rx, px, msg), ChallengeHash(c, sig.rx, px, msg'))
  {
    hide ChallengeHash, SchnorrVerify, Mod;
    var p, r := VerifiedPoints(c, sig, px, msg);
    var p', r' := VerifiedPoints(c, sig, px, msg');
    EvenPointIsUnique(c, p, p');
    EvenPointIsUnique(c, r, r');
    SameProduct(c.n, sig.s, r, ChallengeHash(c, sig.rx, px, msg), ChallengeHash(c, sig.rx, px, msg'), p);
  }

  lemma SameProduct(n: nat, s: int, r: int, h: int, h': int, p: nat)
    requires Prime(n) && 0 < p < n && Cong(n, s, r + h * p) && Cong(n, s, r + h' * p)
    ensures Cong(n, h, h')
  {
    hide Mod;
    CongAdd(n, s, r + h * p, s, r + h' * p);
    var d := Mod(n, h - h');
    CongMod(n, h - h');
    CongReflexive(n, p);
    CongMul(n, d, h - h', p, p);
    assert (r + h * p) - (r + h' * p) == (h - h') * p;
    assert Cong(n, d * p, 0);
    ModSmall(n, 0);
    if d != 0 { NoZeroDivisors(n, d, p); }
    CongShift(n, h - h', 0, h');
  }

  /** And with one nonce point: for a key, a message and rx there is one valid scalar at most. */
  lemma ScalarIsUnique(c: Crypto, sig: Signature, sig': Signature, px: bytes, msg: bytes)
    requires SchnorrVerify(c, sig, px, msg) && SchnorrVerify(c, sig', px, msg) && sig.rx == sig'.rx
    ensures sig == sig'
  {
    hide ChallengeHash, SchnorrVerify, Mod;
    var p, r := VerifiedPoints(c, sig, px, msg);
    var p', r' := VerifiedPoints(c, sig', px, msg);
    EvenPointIsUnique(c, p, p');
    EvenPointIsUnique(c, r, r');
    CongEqual(c.n, sig.s, sig'.s);
  }
}
