// What is hashed to a device's secret nonces, read off the strings, and what it depends on.
module NonceHash {
  import opened Wrappers
  import opened Bytes
  import opened Zn
  import opened Curve
  import opened Signing
  import opened Correctness
  import opened NonceGen
  import opened Spend
  import Vault

  /** What the random bytes become: with a secret key, its bytes under a mask hashed from them, which taken
      off again gives the key. */
  ghost predicate Masks(c: Crypto, rand: b32, sk: Option<int>, masked: b32)
    requires sk.Some? ==> InGroup(c, sk.value)
  {
    match sk
    case None => masked == rand
    case Some(d) => forall i :: 0 <= i < 32 ==> Xor(masked[i], c.tagged("MuSig/aux", rand)[i]) == ToBE(d, 32)[i]
  }

  lemma MaskHidesKey(c: Crypto, rand: b32, sk: Option<int>)
    requires sk.Some? ==> InGroup(c, sk.value)
    ensures Masks(c, rand, sk, MaskedRand(c, rand, sk))
  {
    hide ToBE;
    if sk.Some? {
      var key, aux := ToBE(sk.value, 32), c.tagged("MuSig/aux", rand);
      forall i | 0 <= i < 32
        ensures Xor(MaskedRand(c, rand, sk)[i], aux[i]) == key[i]
      {
        BitXorInvolutive(key[i], aux[i]);
      }
    }
  }

  /** So the same random bytes with two keys give two masked strings. */
  lemma KeyMatters(c: Crypto, rand: b32, sk: int, sk': int)
    requires InGroup(c, sk) && InGroup(c, sk') && sk != sk' && c.n <= Shift(1, 32)
    ensures MaskedRand(c, rand, Some(sk)) != MaskedRand(c, rand, Some(sk'))
  {
    MaskHidesKey(c, rand, Some(sk));
    MaskHidesKey(c, rand, Some(sk'));
    hide ToBE, MaskedRand;
    if MaskedRand(c, rand, Some(sk)) == MaskedRand(c, rand, Some(sk')) {
      assert ToBE(sk, 32) == ToBE(sk', 32);
      ToBEInjective(sk, sk', 32);
    }
  }

  // ---- The string ----

  /** The tail of the string: length of the extra input, the extra input, and the counter. */
  ghost predicate TailLayout(s: bytes, extra: bytes, i: byte) {
    && |s| == 4 + |extra| + 1 && (|extra| < 0x1_0000_0000 ==> BE(s[..4]) == |extra|)
    && s[4..4 + |extra|] == extra && s[4 + |extra|] == i
  }

  /** A message is announced by a one and its 8-byte length, a missing one by a zero. */
  ghost predicate MessageLayout(s: bytes, m: Option<bytes>, extra: bytes, i: byte) {
    match m
    case None => |s| >= 1 && s[0] == 0 && TailLayout(s[1..], extra, i)
    case Some(msg) =>
      && |s| >= 9 + |msg| && s[0] == 1 && (|msg| < LENGTH_LIMIT ==> BE(s[1..9]) == |msg|)
      && s[9..9 + |msg|] == msg && TailLayout(s[9 + |msg|..], extra, i)
  }

  ghost predicate AggLayout(s: bytes, aggpk: Option<b32>, m: Option<bytes>, extra: bytes, i: byte) {
    match aggpk
    case None => |s| >= 1 && s[0] == 0 && MessageLayout(s[1..], m, extra, i)
    case Some(a) => |s| >= 33 && s[0] == 32 && s[1..33] == a && MessageLayout(s[33..], m, extra, i)
  }

  /** The string of NonceGen in BIP-327: 32 masked bytes, the key behind its length, then the optional
      aggregate key, the optional message, the extra input and the counter. */
  ghost predicate Layout(s: bytes, r: b32, pk: b33, aggpk: Option<b32>, m: Option<bytes>, extra: bytes, i: byte) {
    |s| >= 66 && s[..32] == r && s[32] == 33 && s[33..66] == pk && AggLayout(s[66..], aggpk, m, extra, i)
  }

  lemma LengthOfExtra(len: nat)
    ensures len < 0x1_0000_0000 ==> BE(ToBE(len, 4)) == len
  {
    hide ToBE, BE;
    if len < 0x1_0000_0000 {
      assert Shift(1, 4) == 0x1_0000_0000;
      BEToBE(len, 4);
    }
  }

  lemma TailParts(len: bytes, extra: bytes, i: byte)
    requires |len| == 4
    ensures var s := len + (extra + [i]);
      |s| == 4 + |extra| + 1 && s[..4] == len && s[4..4 + |extra|] == extra && s[4 + |extra|] == i
  {
  }

  lemma TailIs(extra: bytes, i: byte)
    ensures TailLayout(ToBE(|extra|, 4) + (extra + [i]), extra, i)
  {
    hide ToBE, BE;
    LengthOfExtra(|extra|);
    TailParts(ToBE(|extra|, 4), extra, i);
  }

  lemma MessageIs(m: Option<bytes>, t: bytes, extra: bytes, i: byte)
    requires TailLayout(t, extra, i)
    ensures MessageLayout(MessagePart(m) + t, m, extra, i)
  {
    hide ToBE, BE, TailLayout;
    var s := MessagePart(m) + t;
    match m
    case None => assert s[1..] == t;
    case Some(msg) =>
      if |msg| < LENGTH_LIMIT {
        assert Shift(1, 8) == LENGTH_LIMIT;
        BEToBE(|msg|, 8);
      }
      assert s[1..9] == ToBE(|msg|, 8) && s[9..9 + |msg|] == msg && s[9 + |msg|..] == t;
  }

  lemma AggIs(aggpk: Option<b32>, t: bytes, m: Option<bytes>, extra: bytes, i: byte)
    requires MessageLayout(t, m, extra, i)
    ensures AggLayout(AggPart(aggpk) + t, aggpk, m, extra, i)
  {
    hide MessageLayout;
    var s := AggPart(aggpk) + t;
    match aggpk
    case None => assert s[1..] == t;
    case Some(a) => assert s[1..33] == a && s[33..] == t;
  }

  lemma NonceInputLayout(r: b32, pk: b33, aggpk: Option<b32>, m: Option<bytes>, extra: bytes, i: byte)
    ensures Layout(NonceInput(r, pk, aggpk, m, extra, i), r, pk, aggpk, m, extra, i)
  {
    hide ToBE, AggPart, MessagePart, AggLayout, MessageLayout, TailLayout;
    var t := ToBE(|extra|, 4) + (extra + [i]);
    var u := MessagePart(m) + t;
    var w := AggPart(aggpk) + u;
    TailIs(extra, i);
    MessageIs(m, t, extra, i);
    AggIs(aggpk, u, m, extra, i);
    var s := NonceInput(r, pk, aggpk, m, extra, i);
    assert s == r + ([33] + pk + w);
    assert s[..32] == r && s[33..66] == pk && s[66..] == w;
  }

  /** The number a string is hashed to, as a secret nonce. */
  function HashedNonce(c: Crypto, s: bytes): nat {
    Mod(c.n, BE(c.tagged("MuSig/nonce", s)))
  }

  lemma GenerateIs(c: Crypto, rand: b32, sk: Option<int>, pk: b33, aggpk: Option<b32>, m: Option<bytes>, extra: bytes)
    requires sk.Some? ==> InGroup(c, sk.value)
    ensures var masked := MaskedRand(c, rand, sk);
      var k1 := HashedNonce(c, NonceInput(masked, pk, aggpk, m, extra, 0));
      var k2 := HashedNonce(c, NonceInput(masked, pk, aggpk, m, extra, 1));
      if k1 == 0 || k2 == 0 then Generate(c, rand, sk, pk, aggpk, m, extra) == Err(NonceGenFailed)
      else
        && InGroup(c, k1) && InGroup(c, k2)
        && Generate(c, rand, sk, pk, aggpk, m, extra) == Ok((SecNonce(k1, k2, pk), PublicNonce(c, k1, k2)))
  {
    hide NonceInput, MaskedRand, BE, Mod, PublicNonce, Lawful;
  }

  /**
   * NonceGen of BIP-327: both nonces are hashed from the masked key, the public key and the optional inputs,
   * the first with counter 0 and the second with counter 1. It fails exactly if one of them is zero.
   */
  lemma GeneratedNonces(c: Crypto, rand: b32, sk: Option<int>, pk: b33, aggpk: Option<b32>, m: Option<bytes>, extra: bytes)
    returns (masked: b32, s1: bytes, s2: bytes)
    requires sk.Some? ==> InGroup(c, sk.value)
    ensures Masks(c, rand, sk, masked)
    ensures Layout(s1, masked, pk, aggpk, m, extra, 0) && Layout(s2, masked, pk, aggpk, m, extra, 1)
    ensures var k1, k2 := HashedNonce(c, s1), HashedNonce(c, s2);
      if k1 == 0 || k2 == 0 then Generate(c, rand, sk, pk, aggpk, m, extra) == Err(NonceGenFailed)
      else
        && InGroup(c, k1) && InGroup(c, k2)
        && Generate(c, rand, sk, pk, aggpk, m, extra) == Ok((SecNonce(k1, k2, pk), PublicNonce(c, k1, k2)))
  {
    masked := MaskedRand(c, rand, sk);
    s1 := NonceInput(masked, pk, aggpk, m, extra, 0);
    s2 := NonceInput(masked, pk, aggpk, m, extra, 1);
    GenerateIs(c, rand, sk, pk, aggpk, m, extra);
    hide *;
    MaskHidesKey(c, rand, sk);
    NonceInputLayout(masked, pk, aggpk, m, extra, 0);
    NonceInputLayout(masked, pk, aggpk, m, extra, 1);
  }

  /** In a spend: the device's own secret key and public key, the vault's aggregate key and the message. */
  lemma DeviceNonces(c: Crypto, s: State, rand: b32, sk: int, aggX: b32) returns (masked: b32, s1: bytes, s2: bytes)
    requires InGroup(c, sk)
    ensures Masks(c, rand, Some(sk), masked)
    ensures Layout(s1, masked, s.myPk, Some(aggX), Some(s.msg), [], 0)
    ensures Layout(s2, masked, s.myPk, Some(aggX), Some(s.msg), [], 1)
    ensures var k1, k2 := HashedNonce(c, s1), HashedNonce(c, s2);
      if k1 == 0 || k2 == 0 then GenNonce(c, s, rand, sk, aggX) == (s, Err(Vault.Musig(NonceGenFailed)))
      else
        && InGroup(c, k1) && InGroup(c, k2)
        && GenNonce(c, s, rand, sk, aggX)
           == (s.(secnonce := Some(SecNonce(k1, k2, s.myPk)), pubnonce := Some(PublicNonce(c, k1, k2))),
               Ok(PublicNonce(c, k1, k2)))
  {
    masked, s1, s2 := GeneratedNonces(c, rand, Some(sk), s.myPk, Some(aggX), Some(s.msg), []);
    hide Layout, Masks, HashedNonce, Generate, PublicNonce;
  }
}
