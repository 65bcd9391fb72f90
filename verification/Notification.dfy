// The BIP-47 notification transaction: blinding the payment code and splitting the input's value.
module Notification {
  import opened Wrappers
  import opened Bytes
  import opened Zn
  import opened Curve
  import opened Bip47
  import opened Coins

  type b80 = s: bytes | |s| == 80 witness seq(80, _ => 0)

  /** The consensus encoding of an outpoint: the id, then the output number, little-endian. */
  function OutpointBytes(o: Outpoint): bytes {
    o.txid + [o.vout % 256, o.vout / 0x100 % 256, o.vout / 0x10000 % 256, o.vout / 0x1000000 % 256]
  }

  function Mask(c: Crypto, o: Outpoint, x: bytes): b64 {
    c.hmac512(OutpointBytes(o), x)
  }

  /** The x coordinate of the key and the chain code are masked, everything else is sent in clear. */
  function Blind(payload: b80, mask: b64): (r: b80) {
    seq(80, i requires 0 <= i < 80 => if 3 <= i < 67 then Xor(payload[i], mask[i - 3]) else payload[i])
  }

  method BlindPayload(payload: b80, mask: b64) returns (r: b80)
    ensures r == Blind(payload, mask)
  {
    hide Xor;
    var blinded := new byte[80](_ => 0);
    forall i | 0 <= i < 3 {
      blinded[i] := payload[i];
    }
    for i := 0 to 32
      invariant forall k :: 0 <= k < 3 ==> blinded[k] == payload[k]
      invariant forall k :: 3 <= k < 3 + i ==> blinded[k] == Xor(payload[k], mask[k - 3])
    {
      blinded[3 + i] := Xor(payload[3 + i], mask[i]);
    }
    for i := 0 to 32
      invariant forall k :: 0 <= k < 3 ==> blinded[k] == payload[k]
      invariant forall k :: 3 <= k < 35 + i ==> blinded[k] == Xor(payload[k], mask[k - 3])
    {
      blinded[35 + i] := Xor(payload[35 + i], mask[32 + i]);
    }
    forall i | 67 <= i < 80 {
      blinded[i] := payload[i];
    }
    r := blinded[..];
  }

  /** On the wire, bytes 3 to 66 are the payload under the mask, the others the payload itself: taking what
      was sent from the payload leaves the mask. */
  lemma BlindMasks(payload: b80, mask: b64, i: nat)
    requires i < 80
    ensures 3 <= i < 67 ==> Xor(Blind(payload, mask)[i], payload[i]) == mask[i - 3]
    ensures !(3 <= i < 67) ==> Blind(payload, mask)[i] == payload[i]
  {
    if 3 <= i < 67 {
      BitXorCommutes(payload[i], mask[i - 3]);
      BitXorInvolutive(mask[i - 3], payload[i]);
    }
  }

  /** An outpoint is its id and its output number in four bytes, the least significant first. */
  lemma OutpointLayout(o: Outpoint)
    requires o.vout < 0x1_0000_0000
    ensures var b := OutpointBytes(o);
      |b| == 36 && b[..32] == o.txid && ((b[35] as int * 256 + b[34]) * 256 + b[33]) * 256 + b[32] == o.vout
  {
    hide *;
    FourDigits(o.vout);
    OutpointParts(o);
  }

  lemma FourDigits(v: nat)
    requires v < 0x1_0000_0000
    ensures ((v / 0x1000000 % 256 * 256 + v / 0x10000 % 256) * 256 + v / 0x100 % 256) * 256 + v % 256 == v
  {
    assert v / 0x10000 == v / 0x100 / 256 && v / 0x1000000 == v / 0x10000 / 256;
  }

  lemma OutpointParts(o: Outpoint)
    ensures var b := OutpointBytes(o);
      && |b| == 36 && b[..32] == o.txid
      && b[32] == o.vout % 256 && b[33] == o.vout / 0x100 % 256
      && b[34] == o.vout / 0x10000 % 256 && b[35] == o.vout / 0x1000000 % 256
  {
  }

  lemma BlindTwice(payload: b80, mask: b64)
    ensures Blind(Blind(payload, mask), mask) == payload
  {
    forall i | 3 <= i < 67
      ensures Xor(Xor(payload[i], mask[i - 3]), mask[i - 3]) == payload[i]
    {
      BitXorInvolutive(payload[i], mask[i - 3]);
    }
  }

  /** Multiplying a public key by the other side's secret gives both sides one point. */
  lemma SharedPoint(c: Crypto, a: int, b: int)
    requires InGroup(c, a) && InGroup(c, b)
    ensures EcdhX(c, b, a) == EcdhX(c, a, b)
  {
    assert a * b == b * a;
  }

  /**
   * The recipient, who knows the secret b of the code's first child key and reads the designated
   * input's key a off the transaction, recovers the sender's payload from the data output.
   */
  lemma RecipientReadsPayload(c: Crypto, o: Outpoint, payload: b80, a: int, b: int)
    requires InGroup(c, a) && InGroup(c, b)
    ensures Blind(Blind(payload, Mask(c, o, EcdhX(c, b, a))), Mask(c, o, EcdhX(c, a, b))) == payload
  {
    SharedPoint(c, a, b);
    BlindTwice(payload, Mask(c, o, EcdhX(c, b, a)));
  }

  /**
   * What the recipient unmasks with: HMAC-SHA512 of the shared x coordinate, keyed with the outpoint, which is
   * xb(a·b) for the secret a of the input and the secret b of the code's first child key. Of the payload it
   * covers the x coordinate of the key and the chain code; version, features, parity and padding are in clear.
   */
  lemma MaskIsSharedSecret(c: Crypto, o: Outpoint, pubkey: b33, chaincode: b32, a: int, b: int, i: nat)
    requires InGroup(c, a) && InGroup(c, b) && i < 64
    ensures var payload: b80 := Payload(pubkey, chaincode);
            var sent := Blind(payload, Mask(c, o, EcdhX(c, b, a)));
      && Xor(sent[3 + i], if i < 32 then pubkey[1 + i] else chaincode[i - 32])
         == c.hmac512(OutpointBytes(o), c.xb(Mod(c.n, a * b)))[i]
      && sent[..3] == [1, 0, pubkey[0]] && sent[67..] == Zeros(13)
  {
    var payload: b80 := Payload(pubkey, chaincode);
    var mask := Mask(c, o, EcdhX(c, b, a));
    Bip47.SharedX(c, a, b);
    assert payload[3 + i] == if i < 32 then pubkey[1 + i] else chaincode[i - 32];
    BlindMasks(payload, mask, 3 + i);
  }

  // ---- The transaction ----

  const FEE: u64 := 4 * (10 + 68 + 91 + 31 + 31)
  const NOTIFICATION_DUST: u64 := 1000

  datatype NotificationError = BadPaymentCode | InputTooSmall(value: u64)

  datatype NotificationTx = NotificationTx(input: Utxo, data: b80, outputs: seq<Output>)

  /**
   * The largest coin is the designated input; with no coins there is no transaction, and with a
   * usable payment code building fails only when no coin pays for the dust output and the fee.
   */
  method BuildNotification(c: Crypto, coins: seq<Utxo>, secret: Utxo -> int, pc: PaymentCode, payload: b80)
    returns (r: Result<Option<NotificationTx>, NotificationError>)
    requires forall u :: u in coins ==> InGroup(c, secret(u))
    ensures r == Ok(None) <==> coins == []
    ensures r.Ok? && r.value.Some? ==>
      var tx := r.value.value;
      && tx.input in coins && (forall u :: u in coins ==> tx.input.value >= u.value)
      && ChildPubkey(c, pc, 0).Some?
      && tx.data == Blind(payload, Mask(c, tx.input.outpoint, EcdhX(c, ChildPubkey(c, pc, 0).value, secret(tx.input))))
      && |tx.outputs| >= 2 && tx.outputs[0] == Output(0, DataCarrier)
      && tx.outputs[1] == Output(1000, Destination)
      && Splits(tx.input.value, tx.outputs, 924)
    ensures r.Err? && r.error.InputTooSmall? ==>
      forall u :: u in coins ==> u.value < 1924
    ensures r == Err(BadPaymentCode) <==> coins != [] && ChildPubkey(c, pc, 0).None?
  {
    hide ChildPubkey, EcdhX, Mask, Blind, LargestFirst, Paid;
    if coins == [] {
      return Ok(None);
    }
    var available := LargestFirst(coins);
    LargestFirstSorts(coins);
    var input := available[0];
    HeadIsLargest(coins, available);
    var child := ChildPubkey(c, pc, 0);
    if child.None? {
      return Err(BadPaymentCode);
    }
    var data := BlindPayload(payload, Mask(c, input.outpoint, EcdhX(c, child.value, secret(input))));
    if input.value < SatAdd(NOTIFICATION_DUST, FEE) {
      return Err(InputTooSmall(input.value));
    }
    var change := input.value - NOTIFICATION_DUST - FEE;
    var outputs := [Output(0, DataCarrier), Output(NOTIFICATION_DUST, Destination)];
    if change >= DUST {
      outputs := outputs + [Output(change, Change)];
    }
    PaidOfThree(Output(0, DataCarrier), Output(NOTIFICATION_DUST, Destination), Output(change, Change));
    r := Ok(Some(NotificationTx(input, data, outputs)));
  }

  lemma HeadIsLargest(coins: seq<Utxo>, sorted: seq<Utxo>)
    requires Descending(sorted) && multiset(sorted) == multiset(coins) && sorted != []
    ensures sorted[0] in coins && forall u :: u in coins ==> sorted[0].value >= u.value
  {
    assert sorted[0] in multiset(coins);
    forall u | u in coins
      ensures sorted[0].value >= u.value
    {
      assert u in multiset(sorted);
    }
  }

  lemma PaidOfThree(a: Output, b: Output, d: Output)
    ensures Paid([a, b]) == a.value + b.value
    ensures Paid([a, b] + [d]) == a.value + b.value + d.value
  {
    PaidOfTwo(a, b);
    PaidOfTwo(b, d);
    assert ([a, b] + [d])[1..] == [b, d];
  }
}
