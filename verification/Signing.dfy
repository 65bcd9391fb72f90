// BIP-327 signing: nonce aggregation, tweaks, session values, partial signatures and their
// aggregation, together with BIP-340 verification as the standard the result must meet.
module Signing {
  import opened Wrappers
  import opened Bytes
  import opened Zn
  import opened Curve

  /** A 32-byte tweak as its value; only values below n are accepted. */
  datatype Tweak = Tweak(t: nat, isXonly: bool)

  datatype SessionContext = SessionContext(aggnonce: b66, pks: seq<bytes>, tweaks: seq<Tweak>, msg: bytes)

  datatype SessionValues = SessionValues(q: int, gacc: int, tacc: nat, b: nat, r: int, e: nat)

  datatype SecNonce = SecNonce(k1: nat, k2: nat, pk: bytes)

  datatype Signature = Signature(rx: bytes, s: nat)

  // ---- Signs ----

  predicate IsSign(g: int) {
    g == 1 || g == -1
  }

  /** 1 for a point with even y, -1 otherwise. */
  function ParitySign(c: Crypto, p: int): (g: int)
    ensures IsSign(g)
  {
    if c.even(p) then 1 else -1
  }

  /** A scalar negated modulo n when the sign says so. */
  function SignedScalar(c: Crypto, g: int, x: nat): (r: nat)
    requires IsSign(g) && x < c.n
    ensures r < c.n && Cong(c.n, r, g * x)
    ensures r == 0 <==> x == 0
  {
    assert Mod(c.n, 0 - x) == if x == 0 then 0 else c.n - x;
    if g == -1 then ScalarNeg(c, x) else x
  }

  function SignedPoint(c: Crypto, g: int, p: int): (r: int)
    requires IsSign(g) && InGroup(c, p)
    ensures InGroup(c, r) && Cong(c.n, r, g * p)
  {
    CongIntro(c.n, c.n - p, 0 - p, 1);
    if g == -1 then PtNeg(c, p) else p
  }

  lemma EvenPointIsSigned(c: Crypto, p: int)
    requires InGroup(c, p)
    ensures EvenPoint(c, p) == SignedPoint(c, ParitySign(c, p), p)
  {
  }

  // ---- Nonce aggregation ----

  function Lo(nonce: b66): b33 {
    nonce[..33]
  }

  function Hi(nonce: b66): b33 {
    nonce[33..]
  }

  function NonceSum(c: Crypto, rest: seq<b66>, r1: Option<int>, r2: Option<int>)
    : (r: Result<(Option<int>, Option<int>), MusigError>)
    requires Finite(c, r1) && Finite(c, r2)
    ensures r.Ok? ==> Finite(c, r.value.0) && Finite(c, r.value.1)
    decreases |rest|
  {
    if rest == [] then Ok((r1, r2))
    else
      match CpointExt(c, Lo(rest[0]))
      case Err(e) => Err(e)
      case Ok(p1) =>
        PtAddIsAddition(c, r1, p1);
        match CpointExt(c, Hi(rest[0]))
        case Err(e) => Err(e)
        case Ok(p2) =>
          PtAddIsAddition(c, r2, p2);
          NonceSum(c, rest[1..], PtAdd(c, r1, p1).value, PtAdd(c, r2, p2).value)
  }

  function NonceAgg(c: Crypto, pubnonces: seq<b66>): (r: Result<b66, MusigError>) {
    if pubnonces == [] then Err(NotEnoughParticipants)
    else match NonceSum(c, pubnonces, None, None)
      case Err(e) => Err(e)
      case Ok((r1, r2)) => Ok(SerExt(c, r1) + SerExt(c, r2))
  }

  lemma NonceSumNext(c: Crypto, rest: seq<b66>, r1: Option<int>, r2: Option<int>)
    requires Finite(c, r1) && Finite(c, r2) && rest != []
    ensures CpointExt(c, Lo(rest[0])).Err? ==> NonceSum(c, rest, r1, r2) == Err(CpointExt(c, Lo(rest[0])).error)
    ensures CpointExt(c, Lo(rest[0])).Ok? && CpointExt(c, Hi(rest[0])).Err? ==>
              NonceSum(c, rest, r1, r2) == Err(CpointExt(c, Hi(rest[0])).error)
    ensures CpointExt(c, Lo(rest[0])).Ok? && CpointExt(c, Hi(rest[0])).Ok? ==>
              var q1, q2 := PtAdd(c, r1, CpointExt(c, Lo(rest[0])).value), PtAdd(c, r2, CpointExt(c, Hi(rest[0])).value);
              && q1.Ok? && q2.Ok? && Finite(c, q1.value) && Finite(c, q2.value)
              && NonceSum(c, rest, r1, r2) == NonceSum(c, rest[1..], q1.value, q2.value)
  {
    hide CpointExt, PtAdd, Lo, Hi;
    if CpointExt(c, Lo(rest[0])).Ok? { PtAddIsAddition(c, r1, CpointExt(c, Lo(rest[0])).value); }
    if CpointExt(c, Hi(rest[0])).Ok? { PtAddIsAddition(c, r2, CpointExt(c, Hi(rest[0])).value); }
  }

  lemma NonceSumEnds(c: Crypto, r1: Option<int>, r2: Option<int>)
    requires Finite(c, r1) && Finite(c, r2)
    ensures NonceSum(c, [], r1, r2) == Ok((r1, r2))
  {
  }

  lemma HalvesAreFinite(c: Crypto, nonce: b66)
    ensures CpointExt(c, Lo(nonce)).Ok? ==> Finite(c, CpointExt(c, Lo(nonce)).value)
    ensures CpointExt(c, Hi(nonce)).Ok? ==> Finite(c, CpointExt(c, Hi(nonce)).value)
  {
  }

  lemma NonceAggIs(c: Crypto, pubnonces: seq<b66>)
    ensures Finite(c, None)
    ensures pubnonces == [] ==> NonceAgg(c, pubnonces) == Err(NotEnoughParticipants)
    ensures pubnonces != [] && NonceSum(c, pubnonces, None, None).Err? ==>
              NonceAgg(c, pubnonces) == Err(NonceSum(c, pubnonces, None, None).error)
    ensures pubnonces != [] && NonceSum(c, pubnonces, None, None).Ok? ==>
      var (r1, r2) := NonceSum(c, pubnonces, None, None).value;
      |SerExt(c, r1)| == |SerExt(c, r2)| == 33 && NonceAgg(c, pubnonces) == Ok(SerExt(c, r1) + SerExt(c, r2))
  {
    hide NonceSum;
  }

  /** nonce_agg: the loop over the signers. */
  method NonceAggregate(c: Crypto, pubnonces: seq<b66>) returns (r: Result<b66, MusigError>)
    ensures r == NonceAgg(c, pubnonces)
  {
    hide *;
    NonceAggIs(c, pubnonces);
    if pubnonces == [] {
      return Err(NotEnoughParticipants);
    }
    var r1: Option<int>, r2: Option<int> := None, None;
    var i := 0;
    assert pubnonces[0..] == pubnonces;
    while i < |pubnonces|
      invariant 0 <= i <= |pubnonces| && Finite(c, r1) && Finite(c, r2)
      invariant NonceSum(c, pubnonces[i..], r1, r2) == NonceSum(c, pubnonces, None, None)
    {
      assert pubnonces[i..][0] == pubnonces[i] && pubnonces[i..][1..] == pubnonces[i + 1..];
      NonceSumNext(c, pubnonces[i..], r1, r2);
      HalvesAreFinite(c, pubnonces[i]);
      var p1 := CpointExt(c, Lo(pubnonces[i]));
      if p1.Err? {
        return Err(p1.error);
      }
      PtAddIsAddition(c, r1, p1.value);
      r1 := PtAdd(c, r1, p1.value).value;
      var p2 := CpointExt(c, Hi(pubnonces[i]));
      if p2.Err? {
        return Err(p2.error);
      }
      PtAddIsAddition(c, r2, p2.value);
      r2 := PtAdd(c, r2, p2.value).value;
      i := i + 1;
    }
    assert pubnonces[i..] == [];
    NonceSumEnds(c, r1, r2);
    r := Ok(SerExt(c, r1) + SerExt(c, r2));
  }

  /** The point a half of a nonce encodes, as a residue. */
  function HalfVal(c: Crypto, half: b33): int {
    match CpointExt(c, half)
    case Ok(p) => Val(p)
    case Err(_) => 0
  }

  predicate NonceParses(c: Crypto, nonce: b66) {
    CpointExt(c, Lo(nonce)).Ok? && CpointExt(c, Hi(nonce)).Ok?
  }

  lemma AddPoint(c: Crypto, acc: Option<int>, p: Option<int>, tail: int, total: int)
    requires Finite(c, acc) && Finite(c, p)
    requires PtAdd(c, acc, p).Ok? && Finite(c, PtAdd(c, acc, p).value)
    requires Cong(c.n, total, Val(PtAdd(c, acc, p).value) + tail)
    ensures Cong(c.n, total, Val(acc) + (Val(p) + tail))
  {
    PtAddIsAddition(c, acc, p);
    CongMod(c.n, Val(acc) + Val(p));
    CongShift(c.n, Val(PtAdd(c, acc, p).value), Val(acc) + Val(p), tail);
  }

  /** Nonce aggregation succeeds exactly when every half parses. */
  lemma {:induction false} NonceSumSucceeds(c: Crypto, rest: seq<b66>, r1: Option<int>, r2: Option<int>)
    requires Finite(c, r1) && Finite(c, r2)
    ensures NonceSum(c, rest, r1, r2).Ok? <==> forall x :: x in rest ==> NonceParses(c, x)
    ensures NonceSum(c, rest, r1, r2).Err? ==> NonceSum(c, rest, r1, r2).error == InvalidPublicKey
    decreases |rest|
  {
    if rest != [] {
      if NonceParses(c, rest[0]) {
        var p1, p2 := CpointExt(c, Lo(rest[0])).value, CpointExt(c, Hi(rest[0])).value;
        PtAddIsAddition(c, r1, p1);
        PtAddIsAddition(c, r2, p2);
        NonceSumSucceeds(c, rest[1..], PtAdd(c, r1, p1).value, PtAdd(c, r2, p2).value);
      } else {
        assert rest[0] in rest;
      }
    }
  }

  lemma HalfValIs(c: Crypto, nonce: b66)
    ensures CpointExt(c, Lo(nonce)).Ok? ==> HalfVal(c, Lo(nonce)) == Val(CpointExt(c, Lo(nonce)).value)
    ensures CpointExt(c, Hi(nonce)).Ok? ==> HalfVal(c, Hi(nonce)) == Val(CpointExt(c, Hi(nonce)).value)
  {
    hide CpointExt, Lo, Hi;
  }

  lemma OrderIsPositive(c: Crypto)
    ensures c.n > 0
  {
  }

  lemma {:induction false} NonceSumFolds(c: Crypto, rest: seq<b66>, r1: Option<int>, r2: Option<int>,
                                         lo: b66 -> int, hi: b66 -> int)
    requires Finite(c, r1) && Finite(c, r2) && NonceSum(c, rest, r1, r2).Ok?
    requires forall x :: lo(x) == HalfVal(c, Lo(x)) && hi(x) == HalfVal(c, Hi(x))
    ensures Cong(c.n, Val(NonceSum(c, rest, r1, r2).value.0), Val(r1) + Sum(lo, rest))
    ensures Cong(c.n, Val(NonceSum(c, rest, r1, r2).value.1), Val(r2) + Sum(hi, rest))
    decreases |rest|
  {
    hide *;
    SumNext(lo, rest);
    SumNext(hi, rest);
    OrderIsPositive(c);
    if rest == [] {
      NonceSumEnds(c, r1, r2);
      CongReflexive(c.n, Val(r1));
      CongReflexive(c.n, Val(r2));
    } else {
      NonceSumNext(c, rest, r1, r2);
      HalfValIs(c, rest[0]);
      HalvesAreFinite(c, rest[0]);
      var p1, p2 := CpointExt(c, Lo(rest[0])).value, CpointExt(c, Hi(rest[0])).value;
      NonceSumFolds(c, rest[1..], PtAdd(c, r1, p1).value, PtAdd(c, r2, p2).value, lo, hi);
      var s := NonceSum(c, rest, r1, r2).value;
      AddPoint(c, r1, p1, Sum(lo, rest[1..]), Val(s.0));
      AddPoint(c, r2, p2, Sum(hi, rest[1..]), Val(s.1));
    }
  }

  function LoVal(c: Crypto): b66 -> int {
    (x: b66) => HalfVal(c, Lo(x))
  }

  function HiVal(c: Crypto): b66 -> int {
    (x: b66) => HalfVal(c, Hi(x))
  }

  lemma SameResidueSamePoint(c: Crypto, p: Option<int>, q: Option<int>, x: int)
    requires Finite(c, p) && Finite(c, q)
    requires Cong(c.n, Val(p), Val(None) + x) && Cong(c.n, Val(q), Val(None) + x)
    ensures p == q
  {
    CongEqual(c.n, Val(p), Val(q));
  }

  /** The order in which pubnonces are scanned does not change the aggregate nonce, nor whether
      there is one, even when partial sums pass through infinity. */
  lemma NonceAggPermutation(c: Crypto, xs: seq<b66>, ys: seq<b66>)
    requires multiset(xs) == multiset(ys)
    ensures NonceAgg(c, xs) == NonceAgg(c, ys)
  {
    hide NonceSum, SerExt;
    assert |multiset(xs)| == |xs| && |multiset(ys)| == |ys|;
    NonceSumPermutation(c, xs, ys);
  }

  lemma NonceSumPermutation(c: Crypto, xs: seq<b66>, ys: seq<b66>)
    requires multiset(xs) == multiset(ys)
    ensures NonceSum(c, xs, None, None) == NonceSum(c, ys, None, None)
  {
    hide NonceSum, NonceParses, HalfVal, CpointExt, Lo, Hi, Cong;
    NonceSumSucceeds(c, xs, None, None);
    NonceSumSucceeds(c, ys, None, None);
    assert forall x: b66 :: x in xs <==> x in multiset(xs);
    assert forall y: b66 :: y in ys <==> y in multiset(ys);
    SumPermutation(LoVal(c), xs, ys);
    SumPermutation(HiVal(c), xs, ys);
    var s, t := NonceSum(c, xs, None, None), NonceSum(c, ys, None, None);
    if s.Ok? {
      NonceSumFolds(c, xs, None, None, LoVal(c), HiVal(c));
      NonceSumFolds(c, ys, None, None, LoVal(c), HiVal(c));
      SameResidueSamePoint(c, s.value.0, t.value.0, Sum(LoVal(c), xs));
      SameResidueSamePoint(c, s.value.1, t.value.1, Sum(HiVal(c), xs));
    }
  }

  // ---- Tweaks ----

  datatype TweakAcc = TweakAcc(q: int, gacc: int, tacc: nat)

  /** One round of ApplyTweak. */
  function TweakStep(c: Crypto, a: TweakAcc, tw: Tweak): (r: Result<TweakAcc, MusigError>)
    requires InGroup(c, a.q) && a.tacc < c.n
    ensures r.Ok? ==> InGroup(c, r.value.q) && r.value.tacc < c.n
  {
    if tw.t >= c.n then Err(InvalidTweak)
    else
      var g := if tw.isXonly && !c.even(a.q) then -1 else 1;
      var gq := SignedPoint(c, g, a.q);
      var tg: Option<int> := if tw.t == 0 then None else Some(tw.t);
      PtAddIsAddition(c, Some(gq), tg);
      match PtAdd(c, Some(gq), tg).value
      case None => Err(AggregationFailed)
      case Some(q2) => Ok(TweakAcc(q2, a.gacc * g, ScalarAdd(c, tw.t, SignedScalar(c, g, a.tacc))))
  }

  function ApplyTweaksFrom(c: Crypto, a: TweakAcc, tweaks: seq<Tweak>): (r: Result<TweakAcc, MusigError>)
    requires InGroup(c, a.q) && a.tacc < c.n
    ensures r.Ok? ==> InGroup(c, r.value.q) && r.value.tacc < c.n
    decreases |tweaks|
  {
    if tweaks == [] then Ok(a)
    else match TweakStep(c, a, tweaks[0])
      case Err(e) => Err(e)
      case Ok(next) => ApplyTweaksFrom(c, next, tweaks[1..])
  }

  function ApplyTweaks(c: Crypto, q0: int, tweaks: seq<Tweak>): (r: Result<TweakAcc, MusigError>)
    requires InGroup(c, q0)
    ensures r.Ok? ==> InGroup(c, r.value.q) && r.value.tacc < c.n
  {
    ApplyTweaksFrom(c, TweakAcc(q0, 1, 0), tweaks)
  }

  /** The tweaked key is the signed original plus the accumulated tweak. */
  ghost predicate TweakInvariant(c: Crypto, q0: int, a: TweakAcc) {
    && InGroup(c, a.q) && IsSign(a.gacc) && a.tacc < c.n
    && Cong(c.n, a.q, a.gacc * q0 + a.tacc)
  }

  lemma SignedSum(n: nat, g: int, gacc: int, q0: int, q: int, tacc: int)
    requires n > 0 && Cong(n, q, gacc * q0 + tacc)
    ensures Cong(n, g * q, (gacc * g) * q0 + g * tacc)
  {
    CongMul(n, g, g, q, gacc * q0 + tacc);
    assert g * (gacc * q0 + tacc) == (gacc * g) * q0 + g * tacc;
  }

  /** Each round keeps the invariant, whatever the kind of the tweak and the parity of the key. */
  lemma TweakStepKeepsInvariant(c: Crypto, q0: int, a: TweakAcc, tw: Tweak)
    requires TweakInvariant(c, q0, a) && TweakStep(c, a, tw).Ok?
    ensures TweakInvariant(c, q0, TweakStep(c, a, tw).value)
  {
    hide Mod, Cong, PtAdd, SignedPoint, SignedScalar;
    var g := if tw.isXonly && !c.even(a.q) then -1 else 1;
    var gq, gt := SignedPoint(c, g, a.q), SignedScalar(c, g, a.tacc);
    var next := TweakStep(c, a, tw).value;
    var tg: Option<int> := if tw.t == 0 then None else Some(tw.t);
    PtAddIsAddition(c, Some(gq), tg);
    TweakArithmetic(c.n, g, a.gacc, q0, a.q, a.tacc, gq, gt, tw.t, next.q, next.tacc);
  }

  lemma TweakArithmetic(n: nat, g: int, gacc: int, q0: int, q: int, tacc: int, gq: int, gt: int, t: int,
                        q2: int, tacc2: int)
    requires n > 0 && Cong(n, q, gacc * q0 + tacc) && Cong(n, gq, g * q) && Cong(n, gt, g * tacc)
    requires q2 == Mod(n, gq + t) && tacc2 == Mod(n, t + gt)
    ensures Cong(n, q2, (gacc * g) * q0 + tacc2)
  {
    SignedSum(n, g, gacc, q0, q, tacc);
    CongMod(n, gq + t);
    CongMod(n, t + gt);
    var s := (gacc * g) * q0;
    CongShift(n, gq, s + g * tacc, t);
    CongShift(n, gt, g * tacc, s + t);
    CongShift(n, tacc2, t + gt, s);
  }

  lemma {:induction false} TweaksKeepInvariant(c: Crypto, q0: int, a: TweakAcc, tweaks: seq<Tweak>)
    requires TweakInvariant(c, q0, a) && ApplyTweaksFrom(c, a, tweaks).Ok?
    ensures TweakInvariant(c, q0, ApplyTweaksFrom(c, a, tweaks).value)
    decreases |tweaks|
  {
    if tweaks != [] {
      TweakStepKeepsInvariant(c, q0, a, tweaks[0]);
      TweaksKeepInvariant(c, q0, TweakStep(c, a, tweaks[0]).value, tweaks[1..]);
    }
  }

  lemma InitialTweakInvariant(c: Crypto, q0: int)
    requires InGroup(c, q0)
    ensures TweakInvariant(c, q0, TweakAcc(q0, 1, 0))
  {
  }

  lemma TweakEnds(c: Crypto, q0: int, tweaks: seq<Tweak>)
    requires InGroup(c, q0)
    ensures ApplyTweaksFrom(c, TweakAcc(q0, 1, 0), tweaks[0..]) == ApplyTweaks(c, q0, tweaks)
         == ApplyTweaksFrom(c, TweakAcc(q0, 1, 0), tweaks)
  {
    assert tweaks[0..] == tweaks;
  }

  lemma NoTweaks(c: Crypto, a: TweakAcc)
    requires InGroup(c, a.q) && a.tacc < c.n
    ensures ApplyTweaksFrom(c, a, []) == Ok(a)
  {
  }

  lemma NextTweak(c: Crypto, a: TweakAcc, tweaks: seq<Tweak>, i: nat)
    requires InGroup(c, a.q) && a.tacc < c.n && i < |tweaks|
    ensures TweakStep(c, a, tweaks[i]).Err? ==>
              ApplyTweaksFrom(c, a, tweaks[i..]) == Err(TweakStep(c, a, tweaks[i]).error)
    ensures TweakStep(c, a, tweaks[i]).Ok? ==>
              ApplyTweaksFrom(c, a, tweaks[i..]) == ApplyTweaksFrom(c, TweakStep(c, a, tweaks[i]).value, tweaks[i + 1..])
  {
    hide TweakStep;
    assert tweaks[i..][0] == tweaks[i] && tweaks[i..][1..] == tweaks[i + 1..];
  }

  /** apply_tweaks: the loop over the tweaks. */
  method TweakKey(c: Crypto, q0: int, tweaks: seq<Tweak>) returns (r: Result<TweakAcc, MusigError>)
    requires InGroup(c, q0)
    ensures r == ApplyTweaks(c, q0, tweaks)
    ensures r.Ok? ==> TweakInvariant(c, q0, r.value)
  {
    hide ApplyTweaksFrom, ApplyTweaks, TweakInvariant, SignedPoint, SignedScalar, ScalarAdd, PtAdd, Cong;
    var q, gacc: int, tacc: nat := q0, 1, 0;
    var i := 0;
    TweakEnds(c, q0, tweaks);
    while i < |tweaks|
      invariant 0 <= i <= |tweaks| && InGroup(c, q) && tacc < c.n
      invariant ApplyTweaksFrom(c, TweakAcc(q, gacc, tacc), tweaks[i..]) == ApplyTweaks(c, q0, tweaks)
    {
      var tw := tweaks[i];
      NextTweak(c, TweakAcc(q, gacc, tacc), tweaks, i);
      if tw.t >= c.n {
        return Err(InvalidTweak);
      }
      var g := if tw.isXonly && !c.even(q) then -1 else 1;
      var gq := SignedPoint(c, g, q);
      var tg: Option<int> := if tw.t == 0 then None else Some(tw.t);
      PtAddIsAddition(c, Some(gq), tg);
      var q2 := PtAdd(c, Some(gq), tg).value;
      if q2.None? {
        return Err(AggregationFailed);
      }
      q := q2.value;
      gacc := gacc * g;
      tacc := ScalarAdd(c, tw.t, SignedScalar(c, g, tacc));
      i := i + 1;
    }
    r := Ok(TweakAcc(q, gacc, tacc));
    assert tweaks[i..] == [];
    NoTweaks(c, TweakAcc(q, gacc, tacc));
    InitialTweakInvariant(c, q0);
    TweaksKeepInvariant(c, q0, TweakAcc(q0, 1, 0), tweaks);
  }
}
