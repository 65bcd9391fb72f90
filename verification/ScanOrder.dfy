// The order in which nonces and partial signatures are scanned does not change what finalize
// answers.
module ScanOrder {
  import opened Wrappers
  import opened Bytes
  import opened Zn
  import opened Curve
  import opened Signing
  import opened PartialSigs
  import opened Correctness
  import opened Vault
  import opened Spend

  /** With one entry per key, looking a key up finds its entry wherever it stands. */
  lemma {:induction false} FindsTheEntry(psigs: seq<PsigEntry>, pk: bytes, x: nat)
    requires DistinctPsigs(psigs) && PsigEntry(pk, x) in psigs
    ensures FindPsig(psigs, pk) == Some(x)
  {
    if psigs[0].pk != pk {
      assert PsigEntry(pk, x) in psigs[1..];
      FindsTheEntry(psigs[1..], pk, x);
    } else {
      var i :| 0 <= i < |psigs| && psigs[i] == PsigEntry(pk, x);
      assert i == 0;
    }
  }

  lemma SameLookup(psigs: seq<PsigEntry>, psigs': seq<PsigEntry>, pk: bytes)
    requires DistinctPsigs(psigs) && DistinctPsigs(psigs') && multiset(psigs) == multiset(psigs')
    ensures FindPsig(psigs, pk) == FindPsig(psigs', pk)
  {
    assert forall e :: e in psigs <==> e in multiset(psigs);
    assert forall e :: e in psigs' <==> e in multiset(psigs');
    var a, b := FindPsig(psigs, pk), FindPsig(psigs', pk);
    if a.Some? { FindsTheEntry(psigs', pk, a.value); }
    if b.Some? { FindsTheEntry(psigs, pk, b.value); }
  }

  /** The share one collected nonce gives rise to, if its signer delivered. */
  function ShareOf(e: NonceEntry, psigs: seq<PsigEntry>): seq<Share> {
    match FindPsig(psigs, e.pk)
    case None => []
    case Some(ps) => [Share(ps, e.pn, e.pk)]
  }

  lemma MatchedLast(nonces: seq<NonceEntry>, psigs: seq<PsigEntry>)
    requires nonces != []
    ensures Matched(nonces, psigs) == Matched(nonces[..|nonces| - 1], psigs) + ShareOf(nonces[|nonces| - 1], psigs)
  {
  }

  lemma {:induction false} MatchedRemove(nonces: seq<NonceEntry>, psigs: seq<PsigEntry>, i: nat)
    requires i < |nonces|
    ensures multiset(Matched(nonces, psigs)) ==
            multiset(Matched(nonces[..i] + nonces[i + 1..], psigs)) + multiset(ShareOf(nonces[i], psigs))
  {
    hide Matched, ShareOf;
    var n := |nonces| - 1;
    MatchedLast(nonces, psigs);
    if i == n {
      assert nonces[..i] + nonces[i + 1..] == nonces[..n];
    } else {
      var front := nonces[..n];
      var rest := nonces[..i] + nonces[i + 1..];
      MatchedRemove(front, psigs, i);
      assert rest[..|rest| - 1] == front[..i] + front[i + 1..];
      assert rest[|rest| - 1] == nonces[n];
      MatchedLast(rest, psigs);
    }
  }

  lemma {:induction false} MatchedSameLookup(nonces: seq<NonceEntry>, ps: seq<PsigEntry>, qs: seq<PsigEntry>)
    requires forall pk :: FindPsig(ps, pk) == FindPsig(qs, pk)
    ensures Matched(nonces, ps) == Matched(nonces, qs)
  {
    hide FindPsig;
    if nonces != [] { MatchedSameLookup(nonces[..|nonces| - 1], ps, qs); }
  }

  lemma RemoveMatched(nonces: seq<NonceEntry>, psigs: seq<PsigEntry>, i: nat) returns (rest: seq<NonceEntry>)
    requires i < |nonces|
    ensures |rest| == |nonces| - 1 && multiset(rest) == multiset(nonces) - multiset{nonces[i]}
    ensures multiset(Matched(nonces, psigs)) == multiset(Matched(rest, psigs)) + multiset(ShareOf(nonces[i], psigs))
  {
    hide Matched, ShareOf;
    rest := nonces[..i] + nonces[i + 1..];
    MultisetRemove(nonces, i);
    MatchedRemove(nonces, psigs, i);
  }

  /** The matched shares depend on what was collected, not on the order. */
  lemma {:induction false} MatchedContents(xs: seq<NonceEntry>, ys: seq<NonceEntry>, ps: seq<PsigEntry>)
    requires multiset(xs) == multiset(ys)
    ensures multiset(Matched(xs, ps)) == multiset(Matched(ys, ps))
    decreases |xs|
  {
    assert |multiset(xs)| == |xs| && |multiset(ys)| == |ys|;
    if xs == [] {
      assert ys == [];
    } else {
      hide Matched, ShareOf;
      assert xs[0] in multiset(ys);
      var i :| 0 <= i < |ys| && ys[i] == xs[0];
      var rest := RemoveMatched(ys, ps, i);
      var tail := RemoveMatched(xs, ps, 0);
      MatchedContents(tail, rest, ps);
    }
  }

  lemma {:induction false} VerifyAllMeans(c: Crypto, shares: seq<Share>, s: SessionContext)
    ensures VerifyAll(c, shares, s).Ok? <==> forall sh :: sh in shares ==> ShareVerifies(c, sh, s)
  {
    hide PartialSigVerify;
    if shares != [] {
      VerifyAllMeans(c, shares[1..], s);
      assert shares[0] in shares;
      assert forall sh :: sh in shares <==> sh == shares[0] || sh in shares[1..];
    }
  }

  /** Verified shares in another order aggregate to the same signature. */
  lemma AggregationPermutation(c: Crypto, xs: seq<Share>, ys: seq<Share>, s: SessionContext)
    requires multiset(xs) == multiset(ys)
    ensures PartialSigAgg(c, Psigs(xs), s).Ok? <==> PartialSigAgg(c, Psigs(ys), s).Ok?
    ensures PartialSigAgg(c, Psigs(xs), s).Ok? ==> PartialSigAgg(c, Psigs(xs), s) == PartialSigAgg(c, Psigs(ys), s)
  {
    var p, q := Psigs(xs), Psigs(ys);
    var psig := (x: Share) => x.psig;
    assert p == MapSeq(psig, xs) && q == MapSeq(psig, ys);
    MapContents(psig, xs, ys);
    hide Psigs, GetSessionValues, PsigSum;
    assert multiset(p) == multiset(q);
    PsigSumPermutation(c, p, q);
  }

  lemma PsigSumPermutation(c: Crypto, p: seq<nat>, q: seq<nat>)
    requires multiset(p) == multiset(q)
    ensures PsigSum(c, p, 0).Ok? <==> PsigSum(c, q, 0).Ok?
    ensures PsigSum(c, p, 0).Ok? ==> PsigSum(c, p, 0) == PsigSum(c, q, 0)
  {
    hide PsigSum, Mod;
    PsigSumSucceeds(c, p, 0);
    PsigSumSucceeds(c, q, 0);
    AllBelow(p, q, c.n);
    AllBelow(q, p, c.n);
    SumPermutation(Plain(), p, q);
    if PsigSum(c, p, 0).Ok? {
      PsigSumAddsUp(c, p, 0);
      PsigSumAddsUp(c, q, 0);
      CongEqual(c.n, PsigSum(c, p, 0).value, PsigSum(c, q, 0).value);
    }
  }

  lemma AllBelow(p: seq<nat>, q: seq<nat>, n: nat)
    requires multiset(p) == multiset(q)
    ensures (forall i :: 0 <= i < |p| ==> p[i] < n) ==> (forall i :: 0 <= i < |q| ==> q[i] < n)
  {
    if forall i :: 0 <= i < |p| ==> p[i] < n {
      forall i | 0 <= i < |q|
        ensures q[i] < n
      {
        assert q[i] in multiset(q);
        assert q[i] in p;
      }
    }
  }

  /** Two coordinators with the same session that hold the same nonces and partial signatures. */
  ghost predicate SameHoldings(s: State, t: State) {
    && t == s.(nonces := t.nonces, psigs := t.psigs)
    && DistinctPsigs(s.psigs) && DistinctPsigs(t.psigs)
    && multiset(s.nonces) == multiset(t.nonces) && multiset(s.psigs) == multiset(t.psigs)
  }

  /** They either both fail to finalize or produce the same signature. */
  lemma ScanOrderIrrelevant(c: Crypto, s: State, t: State, v: VaultConfig)
    requires SameHoldings(s, t)
    ensures Finalize(c, s, v).Ok? <==> Finalize(c, t, v).Ok?
    ensures Finalize(c, s, v).Ok? ==> Finalize(c, s, v) == Finalize(c, t, v)
  {
    SameShares(s, t);
    var xs, ys := Shares(s), Shares(t);
    if s.session.Some? {
      FinalizeShares(c, s, v);
      FinalizeShares(c, t, v);
      hide Shares, CheckFinal, ShareVerifies, PartialSigAgg, Finalize;
      assert |multiset(xs)| == |xs| && |multiset(ys)| == |ys|;
      assert forall x :: x in xs <==> x in multiset(xs);
      assert forall y :: y in ys <==> y in multiset(ys);
      AggregationPermutation(c, xs, ys, s.session.value);
      SameCheck(c, s, t, v);
    }
  }

  /** When finalize succeeds, and with what. */
  lemma FinalizeShares(c: Crypto, s: State, v: VaultConfig)
    requires s.session.Some?
    ensures Finalize(c, s, v).Ok? <==>
              && |Shares(s)| >= 2 && (forall sh :: sh in Shares(s) ==> ShareVerifies(c, sh, s.session.value))
              && PartialSigAgg(c, Psigs(Shares(s)), s.session.value).Ok?
              && CheckFinal(c, s, v, PartialSigAgg(c, Psigs(Shares(s)), s.session.value).value).Ok?
    ensures Finalize(c, s, v).Ok? ==>
              Finalize(c, s, v).value == PartialSigAgg(c, Psigs(Shares(s)), s.session.value).value
  {
    hide *;
    VerifyAllMeans(c, Shares(s), s.session.value);
    FinalizeSteps(c, s, v);
  }

  lemma FinalizeSteps(c: Crypto, s: State, v: VaultConfig)
    requires s.session.Some?
    ensures Finalize(c, s, v).Ok? <==>
              && |Shares(s)| >= 2 && VerifyAll(c, Shares(s), s.session.value).Ok?
              && PartialSigAgg(c, Psigs(Shares(s)), s.session.value).Ok?
              && CheckFinal(c, s, v, PartialSigAgg(c, Psigs(Shares(s)), s.session.value).value).Ok?
    ensures Finalize(c, s, v).Ok? ==>
              Finalize(c, s, v).value == PartialSigAgg(c, Psigs(Shares(s)), s.session.value).value
  {
    hide Shares, PartialSigAgg, VerifyAll, Psigs, CheckFinal;
    if PartialSigAgg(c, Psigs(Shares(s)), s.session.value).Ok? {
      CheckReturns(c, s, v, PartialSigAgg(c, Psigs(Shares(s)), s.session.value).value);
    }
  }

  lemma CheckReturns(c: Crypto, s: State, v: VaultConfig, sig: Signature)
    ensures CheckFinal(c, s, v, sig).Ok? ==> CheckFinal(c, s, v, sig).value == sig
  {
    hide Taproot, SchnorrVerify, LiftX, VerifyKey;
  }

  lemma SameCheck(c: Crypto, s: State, t: State, v: VaultConfig)
    requires t == s.(nonces := t.nonces, psigs := t.psigs)
    ensures forall sig :: CheckFinal(c, s, v, sig) == CheckFinal(c, t, v, sig)
  {
    hide Taproot, SchnorrVerify, LiftX;
  }

  lemma SameShares(s: State, t: State)
    requires SameHoldings(s, t)
    ensures multiset(Shares(s)) == multiset(Shares(t))
  {
    hide FindPsig;
    forall pk
      ensures FindPsig(s.psigs, pk) == FindPsig(t.psigs, pk)
    {
      SameLookup(s.psigs, t.psigs, pk);
    }
    hide Matched;
    MatchedSameLookup(s.nonces, s.psigs, t.psigs);
    MatchedContents(s.nonces, t.nonces, t.psigs);
  }
}
