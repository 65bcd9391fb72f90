// Coin selection for a payment: largest first until the inputs cover the amount and a fee that
// grows with the number of inputs, in the saturating 64-bit arithmetic the program uses.
module Coins {
  import opened Wrappers
  import opened Bytes
  import opened Sorting

  const SATS_MAX: nat := 0xFFFF_FFFF_FFFF_FFFF
  const DUST: nat := 546

  type u64 = v: int | 0 <= v <= SATS_MAX

  function Clip(v: nat): (r: u64) {
    if v > SATS_MAX then SATS_MAX else v
  }

  function SatAdd(a: u64, b: u64): u64 {
    Clip(a + b)
  }

  function SatSub(a: u64, b: u64): u64 {
    if a < b then 0 else a - b
  }

  lemma MulNonNegative(a: nat, b: nat)
    ensures a * b >= 0
  {
  }

  function SatMul(a: u64, b: nat): u64 {
    MulNonNegative(a, b);
    Clip(a * b)
  }

  datatype Outpoint = Outpoint(txid: b32, vout: nat)
  datatype Utxo = Utxo(outpoint: Outpoint, value: u64)

  /** The exact worth of a list of coins. */
  function Total(s: seq<Utxo>): (t: nat) {
    if s == [] then 0 else s[0].value + Total(s[1..])
  }

  function Kept(utxos: seq<Utxo>, exclude: Option<Outpoint>): (r: seq<Utxo>)
    ensures forall u :: u in r <==> u in utxos && exclude != Some(u.outpoint)
  {
    if utxos == [] then []
    else if exclude == Some(utxos[0].outpoint) then Kept(utxos[1..], exclude)
    else [utxos[0]] + Kept(utxos[1..], exclude)
  }

  /** Dropping the excluded outpoint drops nothing else, and no coin is listed more often. */
  lemma {:induction false} KeptCounts(utxos: seq<Utxo>, exclude: Option<Outpoint>, u: Utxo)
    ensures multiset(Kept(utxos, exclude))[u]
         == if exclude == Some(u.outpoint) then 0 else multiset(utxos)[u]
  {
    if utxos != [] {
      KeptCounts(utxos[1..], exclude, u);
      assert utxos == [utxos[0]] + utxos[1..];
    }
  }

  // ---- Fees ----

  /** Satoshis per virtual byte: the entered fee is for a transaction of 250, and never below 1. */
  function Rate(feeSats: u64): (r: u64)
    ensures r >= 1
    ensures if feeSats < 250 then r == 1 else 250 * r <= feeSats < 250 * (r + 1)
  {
    if feeSats / 250 < 1 then 1 else feeSats / 250
  }

  /** Estimated size of a P2WPKH transaction with k inputs and two outputs. */
  function Vsize(k: nat): nat {
    10 + 68 * k + 31 * 2
  }

  function Fee(rate: u64, k: nat): u64 {
    SatMul(rate, Vsize(k))
  }

  /** The test the selection loop makes, in saturating arithmetic. */
  predicate Covers(t: seq<Utxo>, amount: u64, rate: u64) {
    Clip(Total(t)) >= SatAdd(amount, Fee(rate, |t|))
  }

  /** What k inputs have to bring, in exact arithmetic: the amount, and the fee for 72 bytes and 68 more for
      every input. */
  function Need(amount: nat, rate: nat, k: nat): nat {
    amount + rate * (72 + 68 * k)
  }

  /** What the test is for. */
  predicate Affords(t: seq<Utxo>, amount: u64, rate: u64) {
    Total(t) >= Need(amount, rate, |t|)
  }

  /** The two agree except when the coins are worth 2^64 - 1 or more and the exact need is more still. */
  lemma CoversIsAffords(t: seq<Utxo>, amount: u64, rate: u64)
    ensures Covers(t, amount, rate)
       <==> Affords(t, amount, rate) || (Total(t) >= SATS_MAX && Need(amount, rate, |t|) > SATS_MAX)
  {
    MulNonNegative(rate, Vsize(|t|));
    assert Vsize(|t|) == 72 + 68 * |t|;
  }

  lemma NothingCoversNothing(s: seq<Utxo>, amount: u64, rate: u64)
    requires rate >= 1
    ensures !Covers(s[..0], amount, rate)
  {
    assert s[..0] == [];
    assert rate * Vsize(0) >= 72;
  }

  // ---- Largest first ----

  /** Sorting by this key is sorting by descending value. */
  function Rank(): Utxo -> bytes {
    (u: Utxo) => ToBE(SATS_MAX - u.value, 8)
  }

  lemma EightBytes()
    ensures Shift(1, 8) == SATS_MAX + 1
  {
    assert Shift(1, 4) == 0x1_0000_0000;
  }

  lemma RankIsValue(u: Utxo, v: Utxo)
    ensures LexLe(Rank()(u), Rank()(v)) <==> u.value >= v.value
  {
    hide ToBE, Shift, BE;
    EightBytes();
    BEToBE(SATS_MAX - u.value, 8);
    BEToBE(SATS_MAX - v.value, 8);
    LexIsNumeric(Rank()(u), Rank()(v));
  }

  predicate Descending(s: seq<Utxo>) {
    forall i, j :: 0 <= i < j < |s| ==> s[i].value >= s[j].value
  }

  function LargestFirst(s: seq<Utxo>): seq<Utxo> {
    SortBy(Rank(), s)
  }

  lemma LargestFirstSorts(s: seq<Utxo>)
    ensures Descending(LargestFirst(s))
    ensures multiset(LargestFirst(s)) == multiset(s) && |LargestFirst(s)| == |s|
  {
    hide SortBy, LexLe;
    SortSorted(Rank(), s);
    SortContents(Rank(), s);
    var r := LargestFirst(s);
    forall i, j | 0 <= i < j < |r|
      ensures r[i].value >= r[j].value
    {
      RankIsValue(r[i], r[j]);
    }
  }

  lemma {:induction false} TotalOfAppend(s: seq<Utxo>, t: seq<Utxo>)
    ensures Total(s + t) == Total(s) + Total(t)
  {
    if s == [] {
      assert s + t == t;
    } else {
      TotalOfAppend(s[1..], t);
      assert (s + t)[1..] == s[1..] + t;
    }
  }

  lemma TotalOfPrefix(s: seq<Utxo>, k: nat)
    requires k < |s|
    ensures Total(s[..k + 1]) == Total(s[..k]) + s[k].value
  {
    assert s[..k + 1] == s[..k] + [s[k]];
    TotalOfAppend(s[..k], [s[k]]);
  }

  lemma BagWithout(a: seq<Utxo>, u: Utxo, b: seq<Utxo>)
    ensures multiset(a + b) == multiset(a + ([u] + b)) - multiset{u}
  {
  }

  /** One occurrence of u taken out. */
  lemma Without(t: seq<Utxo>, u: Utxo) returns (rest: seq<Utxo>)
    requires u in t
    ensures |rest| == |t| - 1 && multiset(rest) == multiset(t) - multiset{u}
    ensures Total(rest) + u.value == Total(t)
  {
    var i :| 0 <= i < |t| && t[i] == u;
    rest := t[..i] + t[i + 1..];
    assert t == t[..i] + ([u] + t[i + 1..]);
    BagWithout(t[..i], u, t[i + 1..]);
    TotalOfAppend(t[..i], [u] + t[i + 1..]);
    TotalOfAppend([u], t[i + 1..]);
    TotalOfAppend(t[..i], t[i + 1..]);
  }

  lemma SubBagOfTail(s: seq<Utxo>, t: seq<Utxo>)
    requires s != [] && multiset(t) <= multiset(s) && s[0] !in t
    ensures multiset(t) <= multiset(s[1..])
  {
    assert s == [s[0]] + s[1..];
    assert multiset(t)[s[0]] == 0;
  }

  lemma PrefixHead(s: seq<Utxo>, k: nat)
    requires 0 < k <= |s|
    ensures Total(s[..k]) == s[0].value + Total(s[1..][..k - 1])
  {
    assert s[..k][1..] == s[1..][..k - 1];
  }

  lemma DescendingTail(s: seq<Utxo>)
    requires Descending(s) && s != []
    ensures Descending(s[1..])
    ensures forall k :: 0 <= k < |s| ==> s[0].value >= s[k].value
  {
  }

  lemma SubBagWithout(s: seq<Utxo>, t: seq<Utxo>, rest: seq<Utxo>)
    requires s != [] && s[0] in t && multiset(t) <= multiset(s)
    requires multiset(rest) == multiset(t) - multiset{s[0]}
    ensures multiset(rest) <= multiset(s[1..])
  {
    assert s == [s[0]] + s[1..];
  }

  lemma BagSize(s: seq<Utxo>, t: seq<Utxo>)
    requires multiset(t) <= multiset(s)
    ensures |t| <= |s|
    ensures t != [] ==> s != []
  {
    assert |multiset(t)| == |t| && |multiset(s)| == |s|;
    assert |multiset(s)| == |multiset(t)| + |multiset(s) - multiset(t)|;
  }

  /** The k largest coins are worth at least as much as any k coins. */
  lemma {:induction false} LargestAreBest(s: seq<Utxo>, t: seq<Utxo>)
    requires Descending(s) && multiset(t) <= multiset(s)
    ensures |t| <= |s| && Total(t) <= Total(s[..|t|])
    decreases |s|
  {
    hide *;
    BagSize(s, t);
    if t == [] {
      assert s[..|t|] == t;
    } else {
      var k := |t|;
      DescendingTail(s);
      if s[0] in t {
        var rest := Without(t, s[0]);
        SubBagWithout(s, t, rest);
        LargestAreBest(s[1..], rest);
        PrefixHead(s, k);
      } else {
        SubBagOfTail(s, t);
        LargestAreBest(s[1..], t);
        TotalOfPrefix(s, k);
        PrefixHead(s, k + 1);
      }
    }
  }

  lemma PrefixIsSubBag(s: seq<Utxo>, k: nat)
    requires k <= |s|
    ensures multiset(s[..k]) <= multiset(s)
  {
    assert s == s[..k] + s[k..];
  }

  /** If no prefix of fewer than n coins covers the payment, no choice of fewer than n coins does. */
  lemma NoSmallerChoice(s: seq<Utxo>, bag: multiset<Utxo>, n: nat, amount: u64, rate: u64)
    requires Descending(s) && multiset(s) == bag
    requires forall j :: 0 <= j < n && j <= |s| ==> !Covers(s[..j], amount, rate)
    ensures forall t :: multiset(t) <= bag && |t| < n ==> !Covers(t, amount, rate)
  {
    hide Total, Descending;
    forall t | multiset(t) <= bag && |t| < n
      ensures !Covers(t, amount, rate)
    {
      LargestAreBest(s, t);
      assert !Covers(s[..|t|], amount, rate);
    }
  }

  // ---- Selection ----

  datatype FundsError =
    | NoUtxos
    | Insufficient(available: u64, needed: u64, fee: u64)

  datatype Selection = Selection(picked: seq<Utxo>, total: u64, fee: u64)

  /** Some choice among the coins a payment may use. */
  ghost predicate Choice(t: seq<Utxo>, utxos: seq<Utxo>, exclude: Option<Outpoint>) {
    multiset(t) <= multiset(Kept(utxos, exclude))
  }

  /** No choice of fewer than n coins covers the payment. */
  ghost predicate NeedsAtLeast(n: nat, utxos: seq<Utxo>, exclude: Option<Outpoint>, amount: u64, rate: u64) {
    forall t :: Choice(t, utxos, exclude) && |t| < n ==> !Covers(t, amount, rate)
  }

  /** No choice of any size covers the payment. */
  ghost predicate Unpayable(utxos: seq<Utxo>, exclude: Option<Outpoint>, amount: u64, rate: u64) {
    forall t :: Choice(t, utxos, exclude) ==> !Covers(t, amount, rate)
  }

  lemma CoverIsPayable(t: seq<Utxo>, utxos: seq<Utxo>, exclude: Option<Outpoint>, amount: u64, rate: u64)
    requires Choice(t, utxos, exclude) && Covers(t, amount, rate)
    ensures !Unpayable(utxos, exclude, amount, rate)
  {
  }

  lemma TotalOfNone(s: seq<Utxo>)
    ensures Clip(Total(s[..0])) == 0
  {
    assert s[..0] == [];
  }

  lemma SatAddPrefix(s: seq<Utxo>, i: nat)
    requires i < |s|
    ensures SatAdd(Clip(Total(s[..i])), s[i].value) == Clip(Total(s[..i + 1]))
  {
    TotalOfPrefix(s, i);
  }

  lemma CoversPrefix(s: seq<Utxo>, i: nat, amount: u64, rate: u64)
    requires i <= |s|
    ensures Covers(s[..i], amount, rate) <==> Clip(Total(s[..i])) >= SatAdd(amount, Fee(rate, i))
  {
  }

  lemma SmallerChoicesFail(utxos: seq<Utxo>, exclude: Option<Outpoint>, s: seq<Utxo>, n: nat, amount: u64, rate: u64)
    requires s == LargestFirst(Kept(utxos, exclude)) && n <= |s|
    requires forall j :: 0 <= j < n ==> !Covers(s[..j], amount, rate)
    ensures NeedsAtLeast(n, utxos, exclude, amount, rate)
  {
    hide Total, Covers, LargestFirst, Kept;
    LargestFirstSorts(Kept(utxos, exclude));
    NoSmallerChoice(s, multiset(Kept(utxos, exclude)), n, amount, rate);
  }

  lemma ChoicesFail(utxos: seq<Utxo>, exclude: Option<Outpoint>, s: seq<Utxo>, amount: u64, rate: u64)
    requires s == LargestFirst(Kept(utxos, exclude))
    requires forall j :: 0 <= j <= |s| && j > 0 ==> !Covers(s[..j], amount, rate)
    requires rate >= 1
    ensures Unpayable(utxos, exclude, amount, rate)
  {
    hide Total, Covers, LargestFirst, Kept;
    LargestFirstSorts(Kept(utxos, exclude));
    NothingCoversNothing(s, amount, rate);
    NoSmallerChoice(s, multiset(Kept(utxos, exclude)), |s| + 1, amount, rate);
    forall t | Choice(t, utxos, exclude)
      ensures |t| <= |s|
    {
      BagSize(s, t);
    }
  }

  lemma PrefixIsChoice(utxos: seq<Utxo>, exclude: Option<Outpoint>, s: seq<Utxo>, i: nat)
    requires s == LargestFirst(Kept(utxos, exclude)) && i <= |s|
    ensures Choice(s[..i], utxos, exclude)
    ensures forall u :: u in s[..i] ==> u in utxos && exclude != Some(u.outpoint)
  {
    hide LargestFirst;
    LargestFirstSorts(Kept(utxos, exclude));
    PrefixIsSubBag(s, i);
    forall u | u in s[..i]
      ensures u in Kept(utxos, exclude)
    {
      assert u in multiset(s);
    }
  }

  /**
   * On success the picked coins cover the payment and no choice of fewer coins does; on failure no
   * choice of any size does. The excluded outpoint is not picked.
   */
  method SelectCoins(utxos: seq<Utxo>, amount: u64, feeSats: u64, exclude: Option<Outpoint>)
    returns (r: Result<Selection, FundsError>)
    ensures r.Ok? ==>
      && Choice(r.value.picked, utxos, exclude)
      && Covers(r.value.picked, amount, Rate(feeSats))
      && r.value.total == Clip(Total(r.value.picked))
      && r.value.fee == Fee(Rate(feeSats), |r.value.picked|)
      && (forall u :: u in r.value.picked ==> u in utxos && exclude != Some(u.outpoint))
      && NeedsAtLeast(|r.value.picked|, utxos, exclude, amount, Rate(feeSats))
    ensures r.Err? <==> Unpayable(utxos, exclude, amount, Rate(feeSats))
    ensures r == Err(NoUtxos) <==> Kept(utxos, exclude) == []
    ensures r.Err? && r.error.Insufficient? ==>
      r.error == Insufficient(Clip(Total(LargestFirst(Kept(utxos, exclude)))), amount,
                              Fee(Rate(feeSats), |Kept(utxos, exclude)|))
  {
    hide *;
    var kept := Kept(utxos, exclude);
    var rate := Rate(feeSats);
    LargestFirstSorts(kept);
    var available := LargestFirst(kept);
    if available == [] {
      assert kept == [];
      ChoicesFail(utxos, exclude, available, amount, rate);
      return Err(NoUtxos);
    }
    var i, total := 0, 0;
    TotalOfNone(available);
    NothingCoversNothing(available, amount, rate);
    while i < |available|
      invariant 0 <= i <= |available|
      invariant total == Clip(Total(available[..i]))
      invariant forall j :: 0 <= j <= i ==> !Covers(available[..j], amount, rate)
    {
      total := SatAdd(total, available[i].value);
      SatAddPrefix(available, i);
      i := i + 1;
      CoversPrefix(available, i, amount, rate);
      if total >= SatAdd(amount, Fee(rate, i)) {
        break;
      }
    }
    var fee := Fee(rate, i);
    CoversPrefix(available, i, amount, rate);
    if total < SatAdd(amount, fee) {
      assert available[..i] == available;
      ChoicesFail(utxos, exclude, available, amount, rate);
      return Err(Insufficient(total, amount, fee));
    }
    PrefixIsChoice(utxos, exclude, available, i);
    SmallerChoicesFail(utxos, exclude, available, i, amount, rate);
    CoverIsPayable(available[..i], utxos, exclude, amount, rate);
    r := Ok(Selection(available[..i], total, fee));
  }

  // ---- The selection in exact arithmetic ----

  lemma {:induction false} TotalOfInsert(u: Utxo, s: seq<Utxo>)
    ensures Total(InsertBy(Rank(), u, s)) == u.value + Total(s)
  {
    hide LexLe;
    var r := InsertBy(Rank(), u, s);
    if r[0] == u && r[1..] == s {
    } else {
      TotalOfInsert(u, s[1..]);
      assert r[1..] == InsertBy(Rank(), u, s[1..]);
    }
  }

  lemma {:induction false} TotalOfSorted(s: seq<Utxo>)
    ensures Total(LargestFirst(s)) == Total(s)
  {
    hide InsertBy;
    if s != [] {
      TotalOfSorted(s[1..]);
      TotalOfInsert(s[0], LargestFirst(s[1..]));
    }
  }

  lemma SubBagTotal(s: seq<Utxo>, t: seq<Utxo>)
    requires multiset(t) <= multiset(s)
    ensures Total(t) <= Total(s)
  {
    hide Total, LargestFirst, Descending;
    var r := LargestFirst(s);
    LargestFirstSorts(s);
    TotalOfSorted(s);
    LargestAreBest(r, t);
    assert r == r[..|t|] + r[|t|..];
    TotalOfAppend(r[..|t|], r[|t|..]);
  }

  /** What a choice needs grows with the number of its coins. */
  lemma NeedGrows(amount: u64, rate: u64, j: nat, k: nat)
    requires j <= k
    ensures Need(amount, rate, j) <= Need(amount, rate, k)
  {
    assert rate * (72 + 68 * k) == rate * (72 + 68 * j) + rate * (68 * (k - j));
  }

  /** All usable coins together saturate the sum, and so does what they would need. */
  predicate Saturates(utxos: seq<Utxo>, exclude: Option<Outpoint>, amount: u64, rate: u64) {
    var kept := Kept(utxos, exclude);
    Total(kept) >= SATS_MAX && Need(amount, rate, |kept|) > SATS_MAX
  }

  lemma CoveredChoice(utxos: seq<Utxo>, exclude: Option<Outpoint>, amount: u64, rate: u64, t: seq<Utxo>)
    requires Choice(t, utxos, exclude) && Covers(t, amount, rate)
    ensures Affords(t, amount, rate) || Saturates(utxos, exclude, amount, rate)
  {
    hide Total, Kept, Covers, Need;
    SubBagTotal(Kept(utxos, exclude), t);
    BagSize(Kept(utxos, exclude), t);
    NeedGrows(amount, rate, |t|, |Kept(utxos, exclude)|);
    CoversIsAffords(t, amount, rate);
  }

  /**
   * When a payment can be made, in exact arithmetic and for all coins: some choice is worth the amount
   * and the fee for its own number of inputs, or the sums of all coins saturate.
   */
  lemma PayableExactly(utxos: seq<Utxo>, exclude: Option<Outpoint>, amount: u64, rate: u64)
    ensures !Unpayable(utxos, exclude, amount, rate)
       <==> (exists t :: Choice(t, utxos, exclude) && Affords(t, amount, rate)) || Saturates(utxos, exclude, amount, rate)
  {
    hide Total, Covers, Affords, Kept;
    var kept := Kept(utxos, exclude);
    if !Unpayable(utxos, exclude, amount, rate) {
      var t :| Choice(t, utxos, exclude) && Covers(t, amount, rate);
      CoveredChoice(utxos, exclude, amount, rate, t);
    }
    if t :| Choice(t, utxos, exclude) && Affords(t, amount, rate) {
      CoversIsAffords(t, amount, rate);
    }
    if Saturates(utxos, exclude, amount, rate) {
      CoversIsAffords(kept, amount, rate);
      assert Choice(kept, utxos, exclude);
    }
  }

  lemma NotSaturated(utxos: seq<Utxo>, exclude: Option<Outpoint>, amount: u64, rate: u64)
    requires Total(Kept(utxos, exclude)) < SATS_MAX
    ensures !Saturates(utxos, exclude, amount, rate)
    ensures forall t :: Choice(t, utxos, exclude) ==> (Covers(t, amount, rate) <==> Affords(t, amount, rate))
  {
    hide Total, Kept, Covers, Affords;
    forall t | Choice(t, utxos, exclude)
      ensures Covers(t, amount, rate) <==> Affords(t, amount, rate)
    {
      SubBagTotal(Kept(utxos, exclude), t);
      CoversIsAffords(t, amount, rate);
    }
  }

  /**
   * Below saturation, that is with coins worth less than 2^64 - 1, both answers of the selection are
   * exact: it refuses if and only if no choice affords the payment, and no choice smaller than the
   * picked one does.
   */
  lemma SelectionIsExact(utxos: seq<Utxo>, exclude: Option<Outpoint>, amount: u64, rate: u64, n: nat)
    requires Total(Kept(utxos, exclude)) < SATS_MAX
    ensures Unpayable(utxos, exclude, amount, rate)
       <==> forall t :: Choice(t, utxos, exclude) ==> !Affords(t, amount, rate)
    ensures NeedsAtLeast(n, utxos, exclude, amount, rate)
       <==> forall t :: Choice(t, utxos, exclude) && |t| < n ==> !Affords(t, amount, rate)
  {
    hide Total, Kept, Covers, Affords;
    NotSaturated(utxos, exclude, amount, rate);
  }

  lemma NeedIsPositive(rate: u64, k: nat)
    requires rate >= 1
    ensures Need(0, rate, k) > 0
  {
  }

  /**
   * At 2^64 - 1 they are not: with one coin of that worth, an amount that leaves nothing for the fee
   * is payable, so the selection accepts it, although no choice affords it.
   */
  lemma SaturatedNeedPasses(coin: Utxo, feeSats: u64)
    requires coin.value == SATS_MAX
    ensures !Unpayable([coin], None, SATS_MAX, Rate(feeSats))
    ensures forall t :: Choice(t, [coin], None) ==> !Affords(t, SATS_MAX, Rate(feeSats))
  {
    var rate := Rate(feeSats);
    assert [coin][1..] == [] && Kept([coin], None) == [coin];
    assert Total([coin]) == SATS_MAX;
    hide Total, Kept, LargestFirst, Rate;
    NeedIsPositive(rate, 1);
    PayableExactly([coin], None, SATS_MAX, rate);
    forall t | Choice(t, [coin], None)
      ensures !Affords(t, SATS_MAX, rate)
    {
      SubBagTotal([coin], t);
      NeedIsPositive(rate, |t|);
    }
  }

  // ---- The payment transaction ----

  datatype Payee = Destination | Change | DataCarrier
  datatype Output = Output(value: u64, payee: Payee)
  datatype Payment = Payment(inputs: seq<Utxo>, outputs: seq<Output>)

  function Paid(outputs: seq<Output>): (t: nat) {
    if outputs == [] then 0 else outputs[0].value + Paid(outputs[1..])
  }

  lemma PaidOfTwo(a: Output, b: Output)
    ensures Paid([a]) == a.value && Paid([a, b]) == Paid([a] + [b]) == a.value + b.value
  {
    assert [a][1..] == [] && [a, b][1..] == [b] && [b][1..] == [] && [a] + [b] == [a, b];
  }

  /** Outputs leave `fee` to the miner up to a dust amount, which is what a second output would be. */
  predicate Splits(worth: nat, outputs: seq<Output>, fee: nat) {
    && worth - fee - 546 < Paid(outputs) <= worth - fee
    && (forall o :: o in outputs && o.payee == Change ==> o.value >= 546)
    && ((exists o :: o in outputs && o.payee == Change) ==> Paid(outputs) + fee == worth)
  }

  /** For coins worth at most 2^64 - 1, saturation shows only in an amount and fee beyond that. */
  lemma ExactChange(worth: nat, amount: u64, fee: u64)
    requires worth <= SATS_MAX && Clip(worth) >= SatAdd(amount, fee)
    ensures var change := SatSub(Clip(worth), SatAdd(amount, fee));
      if amount + fee <= SATS_MAX then change == worth - amount - fee else change == 0 && amount + fee > worth
  {
  }

  /**
   * The inputs are split exactly: the amount to the destination, the change, if any, of at least the
   * dust limit, and the estimated fee, to which less than the dust limit may be added. The one
   * exception is an amount and fee that saturate, which coins of 2^64 - 1 are taken to cover.
   */
  method BuildPayment(utxos: seq<Utxo>, amount: u64, feeSats: u64, exclude: Option<Outpoint>)
    returns (r: Result<Payment, FundsError>)
    ensures r.Ok? ==>
      && Choice(r.value.inputs, utxos, exclude)
      && NeedsAtLeast(|r.value.inputs|, utxos, exclude, amount, Rate(feeSats))
      && 1 <= |r.value.outputs| <= 2 && r.value.outputs[0] == Output(amount, Destination)
      && (|r.value.outputs| == 2 ==> r.value.outputs[1].payee == Change)
      && (Total(r.value.inputs) <= SATS_MAX ==>
            (Splits(Total(r.value.inputs), r.value.outputs, Fee(Rate(feeSats), |r.value.inputs|))
             <==> amount + Fee(Rate(feeSats), |r.value.inputs|) <= SATS_MAX))
    ensures r.Err? <==> Unpayable(utxos, exclude, amount, Rate(feeSats))
  {
    hide Total, Covers, Fee, Rate, Kept, LargestFirst, Paid, Clip, SatAdd, SatSub, Choice, NeedsAtLeast, Unpayable;
    var s := SelectCoins(utxos, amount, feeSats, exclude);
    if s.Err? {
      return Err(s.error);
    }
    var outputs := [Output(amount, Destination)];
    var change := SatSub(s.value.total, SatAdd(amount, s.value.fee));
    if change >= DUST {
      outputs := outputs + [Output(change, Change)];
    }
    PaidOfTwo(Output(amount, Destination), Output(change, Change));
    CoversTotal(s.value.picked, amount, Rate(feeSats));
    if Total(s.value.picked) <= SATS_MAX {
      ExactChange(Total(s.value.picked), amount, s.value.fee);
    }
    r := Ok(Payment(s.value.picked, outputs));
  }

  lemma CoversTotal(t: seq<Utxo>, amount: u64, rate: u64)
    requires Covers(t, amount, rate)
    ensures Clip(Total(t)) >= SatAdd(amount, Fee(rate, |t|))
  {
  }
}
