// The curve group as the repository sees it through libsecp256k1. A point other than infinity
// stands for its discrete logarithm, a number between 1 and n - 1; the generator is 1. What an
// encoding or a hash function returns is left open, subject to the laws of Lawful.
module Curve {
  import opened Wrappers
  import opened Bytes
  import opened Zn

  datatype CryptoFns = CryptoFns(
    n: nat,                              // the group order
    xb: int -> bytes,                    // the x coordinate of a point, 32 bytes
    even: int -> bool,                   // whether the y coordinate of a point is even
    lift: bytes -> Option<int>,          // PublicKey::from_slice
    tagged: (string, bytes) -> bytes,    // the BIP-340 tagged hash
    sha256: bytes -> bytes,
    sha256d: bytes -> bytes,             // SHA-256 applied twice
    hmac512: (bytes, bytes) -> bytes,    // HMAC-SHA512 of (key, data)
    p2pkh: bytes -> string               // the mainnet P2PKH address of a serialized key
  )

  predicate InGroup(c: CryptoFns, p: int) {
    0 < p < c.n
  }

  /** The compressed serialization of a point. */
  function Ser(c: CryptoFns, p: int): bytes {
    [if c.even(p) then 2 else 3] + c.xb(p)
  }

  /** What is assumed of the curve and the hashes: the order is prime, P and -P are the only two
      points with their x coordinate and have opposite parities, compressed encodings are unique,
      and hashes have their lengths. */
  ghost predicate Lawful(c: CryptoFns) {
    && Prime(c.n) && c.n > 2
    && (forall p :: InGroup(c, p) ==> |c.xb(p)| == 32)
    && (forall p, q :: InGroup(c, p) && InGroup(c, q) ==>
          (c.xb(p) == c.xb(q) <==> (p == q || p + q == c.n)))
    && (forall p, q :: InGroup(c, p) && InGroup(c, q) && p + q == c.n ==> c.even(p) != c.even(q))
    && (forall b :: c.lift(b).Some? ==> InGroup(c, c.lift(b).value) && Ser(c, c.lift(b).value) == b)
    && (forall p :: InGroup(c, p) ==> c.lift(Ser(c, p)) == Some(p))
    && (forall t, d :: |c.tagged(t, d)| == 32)
    && (forall d :: |c.sha256(d)| == 32)
    && (forall d :: |c.sha256d(d)| == 32)
    && (forall k, d :: |c.hmac512(k, d)| == 64)
  }

  /** The smallest group satisfying the laws, which shows that they are consistent. */
  function SmallestGroup(): (c: CryptoFns)
    ensures Lawful(c)
  {
    var x := Zeros(32);
    ThreeIsPrime();
    assert ([2] + x)[0] == 2 && ([3] + x)[0] == 3;
    CryptoFns(
      3, _ => x, p => p == 1,
      b => if b == [2] + x then Some(1) else if b == [3] + x then Some(2) else None,
      (t, d) => x, d => x, d => x, (k, d) => x + x, b => "")
  }

  lemma ThreeIsPrime()
    ensures Prime(3)
  {
    assert !Divides(2, 3);
  }

  type Crypto = c: CryptoFns | Lawful(c) witness SmallestGroup()

  datatype MusigError =
    | NotEnoughParticipants
    | InvalidPublicKey
    | InvalidScalar
    | AggregationFailed
    | InvalidNonce
    | InvalidTweak
    | SignerPubkeyMismatch
    | InvalidPartialSig
    | NonceGenFailed

  ghost predicate Finite(c: Crypto, p: Option<int>) {
    p.Some? ==> InGroup(c, p.value)
  }

  /** A point or infinity as a residue: infinity is 0. */
  function Val(p: Option<int>): int {
    if p.None? then 0 else p.value
  }

  lemma SerParts(c: Crypto, p: int)
    requires InGroup(c, p)
    ensures |Ser(c, p)| == 33
    ensures Ser(c, p)[0] == (if c.even(p) then 2 else 3) && Ser(c, p)[1..] == c.xb(p)
  {
  }

  lemma SerInjective(c: Crypto, p: int, q: int)
    requires InGroup(c, p) && InGroup(c, q) && Ser(c, p) == Ser(c, q)
    ensures p == q
  {
    assert c.lift(Ser(c, p)) == Some(p);
  }

  /** PublicKey::combine, which refuses a sum at infinity. */
  function Combine(c: Crypto, x: int, y: int): (r: Result<int, MusigError>)
    ensures r.Ok? ==> InGroup(c, r.value)
  {
    var s := Mod(c.n, x + y);
    if s == 0 then Err(AggregationFailed) else Ok(s)
  }

  /** PublicKey::mul_tweak, which refuses a zero scalar. */
  function MulTweak(c: Crypto, p: int, s: nat): (r: Result<int, MusigError>)
    requires InGroup(c, p) && s < c.n
    ensures r.Ok? ==> InGroup(c, r.value)
  {
    if s == 0 then Err(InvalidPublicKey)
    else
      NoZeroDivisors(c.n, p, s);
      Ok(Mod(c.n, p * s))
  }

  /** PublicKey::add_exp_tweak: p + t·G, refused at infinity only. */
  function AddExpTweak(c: Crypto, p: int, t: nat): (r: Option<int>)
    ensures r.Some? ==> InGroup(c, r.value)
  {
    var s := Mod(c.n, p + t);
    if s == 0 then None else Some(s)
  }

  /** cpoint_ext: 33 zero bytes are infinity, anything else must be a compressed key. */
  function CpointExt(c: Crypto, b: bytes): (r: Result<Option<int>, MusigError>)
    ensures r.Ok? ==> Finite(c, r.value)
  {
    if |b| != 33 then Err(InvalidPublicKey)
    else if forall k :: 0 <= k < |b| ==> b[k] == 0 then Ok(None)
    else match c.lift(b)
      case None => Err(InvalidPublicKey)
      case Some(p) => Ok(Some(p))
  }

  /** The encoding CpointExt reads: 33 zero bytes for infinity. */
  function SerExt(c: Crypto, p: Option<int>): (b: bytes)
    requires Finite(c, p)
    ensures |b| == 33
  {
    match p
    case None => Zeros(33)
    case Some(q) => SerParts(c, q); Ser(c, q)
  }

  lemma CpointExtInverts(c: Crypto, p: Option<int>)
    requires Finite(c, p)
    ensures CpointExt(c, SerExt(c, p)) == Ok(p)
  {
    if p.Some? {
      assert SerExt(c, p)[0] != 0;
    }
  }

  /** pt_add: an inverse pair is recognised by its serializations and sums to infinity. */
  function PtAdd(c: Crypto, a: Option<int>, b: Option<int>): Result<Option<int>, MusigError>
    requires Finite(c, a) && Finite(c, b)
  {
    if a.None? then Ok(b)
    else if b.None? then Ok(a)
    else
      SerParts(c, a.value); SerParts(c, b.value);
      var xs, ys := Ser(c, a.value), Ser(c, b.value);
      if xs[1..] == ys[1..] && xs[0] != ys[0] then Ok(None)
      else match Combine(c, a.value, b.value)
        case Ok(s) => Ok(Some(s))
        case Err(e) => Err(e)
  }

  /** pt_add never fails, and it is addition: a sum at infinity is exactly an inverse pair. */
  lemma PtAddIsAddition(c: Crypto, a: Option<int>, b: Option<int>)
    requires Finite(c, a) && Finite(c, b)
    ensures PtAdd(c, a, b).Ok? && Finite(c, PtAdd(c, a, b).value)
    ensures Val(PtAdd(c, a, b).value) == Mod(c.n, Val(a) + Val(b))
  {
    if a.Some? && b.Some? {
      var x, y := a.value, b.value;
      SerParts(c, x);
      SerParts(c, y);
      if x + y < c.n {
        ModSmall(c.n, x + y);
      } else {
        CongIntro(c.n, x + y, x + y - c.n, 1);
      }
      assert x + y == c.n ==> c.even(x) != c.even(y);
    } else {
      ModSmall(c.n, Val(a) + Val(b));
    }
  }

  /** pt_mul: infinity stays infinity whatever the scalar; otherwise mul_tweak decides. */
  function PtMul(c: Crypto, p: Option<int>, s: nat): (r: Result<Option<int>, MusigError>)
    requires Finite(c, p) && s < c.n
    ensures r.Ok? ==> Finite(c, r.value) && Val(r.value) == Mod(c.n, Val(p) * s)
    ensures r.Err? <==> p.Some? && s == 0
  {
    match p
    case None => ModSmall(c.n, 0); Ok(None)
    case Some(q) =>
      match MulTweak(c, q, s)
      case Ok(m) => Ok(Some(m))
      case Err(e) => Err(e)
  }

  lemma NegatedEncoding(c: Crypto, p: int)
    requires InGroup(c, p)
    ensures |Ser(c, p)| == 33
    ensures [5 - Ser(c, p)[0]] + Ser(c, p)[1..] == Ser(c, c.n - p)
  {
    SerParts(c, p);
    SerParts(c, c.n - p);
    assert p + (c.n - p) == c.n;
    assert c.even(p) != c.even(c.n - p) && c.xb(p) == c.xb(c.n - p);
  }

  /** pt_neg: swap the parity byte 02 <-> 03 and parse again, which gives the inverse point. */
  function PtNeg(c: Crypto, p: int): (r: int)
    requires InGroup(c, p)
    ensures r == c.n - p && InGroup(c, r)
  {
    NegatedEncoding(c, p);
    var ser := Ser(c, p);
    assert c.lift(Ser(c, c.n - p)) == Some(c.n - p);
    c.lift([5 - ser[0]] + ser[1..]).value
  }

  /** The point with p's x coordinate and an even y coordinate. */
  function EvenPoint(c: Crypto, p: int): (r: int)
    requires InGroup(c, p)
    ensures InGroup(c, r) && c.even(r) && c.xb(r) == c.xb(p)
  {
    assert p + (c.n - p) == c.n;
    if c.even(p) then p else c.n - p
  }

  /** x-only keys are read as the point with even y (lift_x of BIP-340). */
  function LiftX(c: Crypto, x: bytes): (r: Option<int>)
    ensures r.Some? ==> InGroup(c, r.value)
  {
    c.lift([2] + x)
  }

  lemma LiftXOfPoint(c: Crypto, p: int)
    requires InGroup(c, p)
    ensures LiftX(c, c.xb(p)) == Some(EvenPoint(c, p))
  {
    assert Ser(c, EvenPoint(c, p)) == [2] + c.xb(p);
  }

  // ---- Scalars, as numbers below n; Scalars.dfy proves the byte loops compute these ----

  function ScalarOf(c: Crypto, h: bytes): (r: nat)
    ensures r < c.n
  {
    Mod(c.n, BE(h))
  }

  function ScalarAdd(c: Crypto, a: int, b: int): (r: nat)
    ensures r < c.n && Cong(c.n, r, a + b)
  {
    CongMod(c.n, a + b);
    Mod(c.n, a + b)
  }

  function ScalarNeg(c: Crypto, a: int): (r: nat)
    ensures r < c.n && Cong(c.n, r, 0 - a)
  {
    CongMod(c.n, 0 - a);
    Mod(c.n, 0 - a)
  }

  /** scalar_mul_mod_n: a zero factor is answered before libsecp256k1 would refuse it. */
  function ScalarMul(c: Crypto, a: nat, b: nat): (r: nat)
    requires a < c.n && b < c.n
    ensures r < c.n && Cong(c.n, r, a * b)
    ensures r == 0 <==> a == 0 || b == 0
  {
    CongMod(c.n, a * b);
    if a == 0 || b == 0 then 0
    else
      NoZeroDivisors(c.n, a, b);
      Mod(c.n, a * b)
  }
}
