// BIP-327 nonce generation: what is hashed, why the hashed string is unambiguous, and the pair of
// nonces that comes out.
module NonceGen {
  import opened Wrappers
  import opened Bytes
  import opened Curve
  import opened Signing
  import opened Correctness

  function XorBytes(a: bytes, b: bytes): (r: bytes)
    requires |a| == |b|
    ensures |r| == |a|
  {
    seq(|a|, i requires 0 <= i < |a| => Xor(a[i], b[i]))
  }

  /** The randomness actually hashed: the secret key masked with a hash of the device's bytes. */
  function MaskedRand(c: Crypto, rand: b32, sk: Option<int>): (r: b32)
    requires sk.Some? ==> InGroup(c, sk.value)
  {
    if sk.None? then rand else XorBytes(ToBE(sk.value, 32), c.tagged("MuSig/aux", rand))
  }

  /** A missing message is one zero byte; a present one carries its length, even when empty. */
  function MessagePart(m: Option<bytes>): bytes {
    match m
    case None => [0]
    case Some(b) => [1] + ToBE(|b|, 8) + b
  }

  function AggPart(aggpk: Option<b32>): bytes {
    match aggpk
    case None => [0]
    case Some(a) => [32] + a
  }

  /** The string hashed for the i-th nonce, i = 0 or 1. */
  function NonceInput(r: b32, pk: b33, aggpk: Option<b32>, m: Option<bytes>, extra: bytes, i: byte): bytes {
    r + ([33] + pk + (AggPart(aggpk) + (MessagePart(m) + (ToBE(|extra|, 4) + (extra + [i])))))
  }

  lemma AggPartUnambiguous(a: Option<b32>, a': Option<b32>, y: bytes, y': bytes)
    requires AggPart(a) + y == AggPart(a') + y'
    ensures a == a' && y == y'
  {
    assert (AggPart(a) + y)[0] == AggPart(a)[0] && (AggPart(a') + y')[0] == AggPart(a')[0];
    SplitEqual(AggPart(a), y, AggPart(a'), y');
    if a.Some? {
      assert AggPart(a)[1..] == a.value && AggPart(a')[1..] == a'.value;
    }
  }

  const LENGTH_LIMIT: nat := 0x1_0000_0000_0000_0000

  lemma LengthPrefix(len: nat, len': nat)
    requires len < LENGTH_LIMIT && len' < LENGTH_LIMIT && ToBE(len, 8) == ToBE(len', 8)
    ensures len == len'
  {
    assert Shift(1, 8) == LENGTH_LIMIT;
    ToBEInjective(len, len', 8);
  }

  lemma MessagePartUnambiguous(m: Option<bytes>, m': Option<bytes>, y: bytes, y': bytes)
    requires m.Some? ==> |m.value| < LENGTH_LIMIT
    requires m'.Some? ==> |m'.value| < LENGTH_LIMIT
    requires MessagePart(m) + y == MessagePart(m') + y'
    ensures m == m' && y == y'
  {
    hide ToBE;
    assert (MessagePart(m) + y)[0] == MessagePart(m)[0] && (MessagePart(m') + y')[0] == MessagePart(m')[0];
    if m.None? {
      SplitEqual([0], y, [0], y');
    } else {
      MessageHead(m.value, y);
      MessageHead(m'.value, y');
      LengthThenText(m.value, y, m'.value, y');
    }
  }

  lemma MessageHead(m: bytes, y: bytes)
    ensures (MessagePart(Some(m)) + y)[1..] == ToBE(|m|, 8) + (m + y)
  {
    hide ToBE;
    AfterFirst([1], ToBE(|m|, 8), m, y);
  }

  lemma AfterFirst(flag: bytes, length: bytes, m: bytes, y: bytes)
    requires |flag| == 1
    ensures (flag + length + m + y)[1..] == length + (m + y)
  {
    assert flag + length + m + y == flag + (length + (m + y));
  }

  lemma LengthThenText(m: bytes, y: bytes, m': bytes, y': bytes)
    requires |m| < LENGTH_LIMIT && |m'| < LENGTH_LIMIT
    requires ToBE(|m|, 8) + (m + y) == ToBE(|m'|, 8) + (m' + y')
    ensures m == m' && y == y'
  {
    hide ToBE;
    SplitEqual(ToBE(|m|, 8), m + y, ToBE(|m'|, 8), m' + y');
    LengthPrefix(|m|, |m'|);
    SplitEqual(m, y, m', y');
  }

  lemma TailUnambiguous(e: bytes, e': bytes, i: byte, i': byte)
    requires ToBE(|e|, 4) + (e + [i]) == ToBE(|e'|, 4) + (e' + [i'])
    ensures e == e' && i == i'
  {
    hide ToBE;
    SplitEqual(ToBE(|e|, 4), e + [i], ToBE(|e'|, 4), e' + [i']);
    assert |e + [i]| == |e' + [i']|;
    SplitEqual(e, [i], e', [i']);
  }

  /** The hashed string determines everything that went into it. A missing message and an empty
      one differ, and so do the strings for k1 and k2; the extra input may have any length. */
  lemma NonceInputUnambiguous(r: b32, pk: b33, a: Option<b32>, m: Option<bytes>, e: bytes, i: byte,
                              r': b32, pk': b33, a': Option<b32>, m': Option<bytes>, e': bytes, i': byte)
    requires m.Some? ==> |m.value| < LENGTH_LIMIT
    requires m'.Some? ==> |m'.value| < LENGTH_LIMIT
    requires NonceInput(r, pk, a, m, e, i) == NonceInput(r', pk', a', m', e', i')
    ensures r == r' && pk == pk' && a == a' && m == m' && e == e' && i == i'
  {
    hide AggPart, MessagePart, ToBE;
    var t, t' := ToBE(|e|, 4) + (e + [i]), ToBE(|e'|, 4) + (e' + [i']);
    var u, u' := MessagePart(m) + t, MessagePart(m') + t';
    var w, w' := AggPart(a) + u, AggPart(a') + u';
    SplitEqual(r, [33] + pk + w, r', [33] + pk' + w');
    SplitEqual([33] + pk, w, [33] + pk', w');
    SplitEqual([33], pk, [33], pk');
    AggPartUnambiguous(a, a', u, u');
    MessagePartUnambiguous(m, m', t, t');
    TailUnambiguous(e, e', i, i');
  }

  function NonceScalar(c: Crypto, r: b32, pk: b33, aggpk: Option<b32>, m: Option<bytes>, extra: bytes, i: byte): (k: nat)
    ensures k < c.n
  {
    ScalarOf(c, c.tagged("MuSig/nonce", NonceInput(r, pk, aggpk, m, extra, i)))
  }

  function Generate(c: Crypto, rand: b32, sk: Option<int>, pk: b33, aggpk: Option<b32>, m: Option<bytes>, extra: bytes)
    : (r: Result<(SecNonce, b66), MusigError>)
    requires sk.Some? ==> InGroup(c, sk.value)
    ensures r.Ok? ==> IsPair(c, pk, r.value.0, r.value.1)
  {
    var masked := MaskedRand(c, rand, sk);
    var k1, k2 := NonceScalar(c, masked, pk, aggpk, m, extra, 0), NonceScalar(c, masked, pk, aggpk, m, extra, 1);
    if k1 == 0 || k2 == 0 then Err(NonceGenFailed)
    else Ok((SecNonce(k1, k2, pk), PublicNonce(c, k1, k2)))
  }

  /** A secret nonce with valid scalars for a key, and its public nonce. */
  predicate IsPair(c: Crypto, pk: bytes, sn: SecNonce, pn: b66) {
    InGroup(c, sn.k1) && InGroup(c, sn.k2) && sn.pk == pk && pn == PublicNonce(c, sn.k1, sn.k2)
  }

  /** The masking loop of nonce_gen. */
  method MaskRand(c: Crypto, rand: b32, sk: Option<int>) returns (r: b32)
    requires sk.Some? ==> InGroup(c, sk.value)
    ensures r == MaskedRand(c, rand, sk)
  {
    hide ToBE, Xor;
    var masked := new byte[32](i requires 0 <= i < 32 => rand[i]);
    if sk.Some? {
      var aux := c.tagged("MuSig/aux", rand);
      var skb := ToBE(sk.value, 32);
      for i := 0 to 32
        invariant forall k :: 0 <= k < i ==> masked[k] == Xor(skb[k], aux[k])
      {
        masked[i] := Xor(skb[i], aux[i]);
      }
      assert masked[..] == XorBytes(skb, aux);
    } else {
      assert masked[..] == rand;
    }
    r := masked[..];
  }

  /** The buffer the string is collected in, part by part. */
  lemma BufferIsInput(r: b32, pk: b33, a: bytes, m: bytes, len: bytes, extra: bytes, i: byte)
    ensures r + [33] + pk + a + m + len + extra + [i] == r + ([33] + pk + (a + (m + (len + (extra + [i])))))
  {
  }

  /** nonce_gen: the buffer filled step by step, and the two nonces. */
  method GenerateNonce(c: Crypto, rand: b32, sk: Option<int>, pk: b33, aggpk: Option<b32>, m: Option<bytes>, extra: bytes)
    returns (r: Result<(SecNonce, b66), MusigError>)
    requires sk.Some? ==> InGroup(c, sk.value)
    ensures r == Generate(c, rand, sk, pk, aggpk, m, extra)
  {
    hide ToBE, AggPart, MessagePart, MaskedRand, PublicNonce;
    var masked := MaskRand(c, rand, sk);
    var kInput: bytes := masked;
    kInput := kInput + [33];
    kInput := kInput + pk;
    kInput := kInput + AggPart(aggpk);
    kInput := kInput + MessagePart(m);
    kInput := kInput + ToBE(|extra|, 4);
    kInput := kInput + extra;
    var k1In, k2In := kInput + [0], kInput + [1];
    BufferIsInput(masked, pk, AggPart(aggpk), MessagePart(m), ToBE(|extra|, 4), extra, 0);
    BufferIsInput(masked, pk, AggPart(aggpk), MessagePart(m), ToBE(|extra|, 4), extra, 1);
    var k1 := ScalarOf(c, c.tagged("MuSig/nonce", k1In));
    var k2 := ScalarOf(c, c.tagged("MuSig/nonce", k2In));
    if k1 == 0 || k2 == 0 {
      return Err(NonceGenFailed);
    }
    r := Ok((SecNonce(k1, k2, pk), PublicNonce(c, k1, k2)));
  }
}
