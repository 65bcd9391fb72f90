// BIP-47 payment codes: printing, parsing, child keys and payment addresses.
module Bip47 {
  import opened Wrappers
  import opened Bytes
  import opened Zn
  import opened Curve
  import opened Radix
  import opened Base58
  import opened Text
  import Prefix

  datatype PaymentCode = PaymentCode(raw: string, pubkey: b33, chaincode: b32)

  /** The 80-byte payload: version 1, no features, public key, chain code, zero padding. */
  function Payload(pubkey: b33, chaincode: b32): (p: bytes)
    ensures |p| == 80
  {
    [1, 0] + pubkey + chaincode + Zeros(13)
  }

  function EncodePaymentCode(c: Crypto, payload: bytes): string {
    Base58CheckEncode(c, [0x47] + payload)
  }

  predicate IsCompressed(pubkey: bytes) {
    |pubkey| == 33 && (pubkey[0] == 2 || pubkey[0] == 3)
  }

  /** The checks on a decoded payment code. */
  function FromDecoded(s: string, decoded: bytes): (r: Option<PaymentCode>)
    ensures r.Some? ==> IsCompressed(r.value.pubkey) && r.value.raw == s
  {
    if |decoded| != 81 || decoded[0] != 0x47 then None
    else
      var payload := decoded[1..];
      if payload[0] != 1 then None
      else if payload[2] != 2 && payload[2] != 3 then None
      else Some(PaymentCode(s, payload[2..35], payload[35..67]))
  }

  /** PaymentCode::parse. */
  function Parse(c: Crypto, raw: string): (r: Option<PaymentCode>)
    ensures r.Some? ==> IsCompressed(r.value.pubkey) && r.value.raw == Trim(raw)
  {
    var s := Trim(raw);
    if !("PM8T" <= s) then None
    else match Base58CheckDecode(c, s)
      case None => None
      case Some(decoded) => FromDecoded(s, decoded)
  }

  /** payload_from_code. */
  function PayloadFromCode(pc: PaymentCode): bytes {
    Payload(pc.pubkey, pc.chaincode)
  }

  /** What a version-1 payment code holds: a feature byte, the key, the chain code and padding. */
  function Body(feature: byte, pubkey: b33, chaincode: b32, padding: bytes): (d: bytes)
    ensures |d| == 68 + |padding|
  {
    [0x47, 1, feature] + pubkey + chaincode + padding
  }

  lemma BodyParts(feature: byte, pubkey: b33, chaincode: b32, padding: bytes)
    ensures var d := Body(feature, pubkey, chaincode, padding);
      && d[0] == 0x47 && d[1] == 1 && d[2] == feature && d[3] == pubkey[0]
      && d[3..36] == pubkey && d[36..68] == chaincode && d[68..] == padding
  {
  }

  lemma BodyOfParts(d: bytes)
    requires |d| == 81 && d[0] == 0x47 && d[1] == 1
    ensures d == Body(d[2], d[3..36], d[36..68], d[68..])
  {
    assert d == [d[0], d[1], d[2]] + d[3..36] + d[36..68] + d[68..];
  }

  lemma EncodeIsBody(c: Crypto, pubkey: b33, chaincode: b32)
    ensures EncodePaymentCode(c, Payload(pubkey, chaincode)) == Base58CheckEncode(c, Body(0, pubkey, chaincode, Zeros(13)))
  {
    hide Base58CheckEncode, Zeros;
    assert [0x47] + Payload(pubkey, chaincode) == Body(0, pubkey, chaincode, Zeros(13));
  }

  lemma ChecksummedParts(c: Crypto, d: bytes)
    requires |d| == 81
    ensures |Checksummed(c, d)| == 85 && forall i :: 0 <= i < 4 ==> Checksummed(c, d)[i] == d[i]
  {
  }

  /** The digits a code prints with. */
  lemma CodeDigits(c: Crypto, d: bytes) returns (ds: seq<nat>)
    requires |d| == 81 && d[0] != 0
    ensures ds == Reverse(ToDigits(58, BigEndian(256, Checksummed(c, d)))) && |ds| > 4
    ensures Digits(58, ds) && Base58CheckEncode(c, d) == Chars(ds)
  {
    var v := Checksummed(c, d);
    ChecksummedParts(c, d);
    hide Checksummed, BigEndian, ToDigits, Chars;
    var n := BigEndian(256, v);
    LongText(v);
    WrittenReadsBack(58, 0, n);
    LeadingZerosAre(v, 0);
    ds := Written(58, 0, n);
    assert ds == Reverse(ToDigits(58, n));
  }

  /** A code with a compressed key prints with PM8T in front exactly if its feature byte is zero. */
  lemma PrintedPrefix(c: Crypto, d: bytes)
    requires |d| == 81 && d[0] == 0x47 && d[1] == 1 && (d[3] == 2 || d[3] == 3)
    ensures Base58CheckEncode(c, d) != []
    ensures "PM8T" <= Base58CheckEncode(c, d) <==> d[2] == 0
  {
    hide Checksummed, BigEndian, ToDigits, Chars, Base58CheckEncode;
    ChecksummedParts(c, d);
    Prefix.LeadingFour(Checksummed(c, d));
    var ds := CodeDigits(c, d);
    PrefixChars(ds);
  }

  lemma LongText(v: bytes)
    requires |v| == 85 && v[0] != 0
    ensures |ToDigits(58, BigEndian(256, v))| > 4
  {
    var n := BigEndian(256, v);
    assert v == v[..1] + v[1..];
    Prefix.BigEndianSplit(256, v[..1], v[1..]);
    assert v[..1] == [] + [v[0]];
    assert BigEndian(256, v[..1]) == v[0];
    MulMono(1, v[0], Pow(256, 84));
    Prefix.PowAdd(256, 5, 79);
    MulMono(1, Pow(256, 79), Pow(256, 5));
    assert Pow(256, 5) == 1099511627776;
    ToDigitsIsCanonical(58, n);
    FourDigits(58, ToDigits(58, n));
  }

  lemma FourDigits(b: nat, ds: seq<nat>)
    requires b == 58 && Digits(b, ds) && LE(b, ds) >= 1099511627776
    ensures |ds| > 4
  {
    if |ds| <= 4 {
      SmallNumber(ds, |ds|);
    }
  }

  lemma {:induction false} SmallNumber(ds: seq<nat>, k: nat)
    requires Digits(58, ds) && |ds| <= k <= 4
    ensures LE(58, ds) < Pow(58, k) && Pow(58, k) <= Pow(58, 4) == 11316496
  {
    assert Pow(58, 2) == 3364;
    if ds != [] { SmallNumber(ds[1..], k - 1); }
  }

  lemma PrefixChars(ds: seq<nat>)
    requires Digits(58, ds) && |ds| > 4
    ensures |Chars(ds)| > 4
    ensures "PM8T" <= Chars(ds) <==> [22, 20, 7, 26] <= ds
  {
    IndexOfChar(ds[0]);
    IndexOfChar(ds[1]);
    IndexOfChar(ds[2]);
    IndexOfChar(ds[3]);
    assert IndexOf('P') == Some(22) && IndexOf('M') == Some(20) && IndexOf('8') == Some(7) && IndexOf('T') == Some(26);
    hide CharOf, IndexOf;
    var s := Chars(ds);
    assert s[0] == CharOf(ds[0]) && s[1] == CharOf(ds[1]) && s[2] == CharOf(ds[2]) && s[3] == CharOf(ds[3]);
  }

  lemma AlphabetIsNotWhite(d: nat)
    requires d < 58
    ensures !IsWhite(CharOf(d))
  {
  }

  lemma PrintedIsTrimmed(c: Crypto, data: bytes)
    requires Base58CheckEncode(c, data) != []
    ensures Trim(Base58CheckEncode(c, data)) == Base58CheckEncode(c, data)
  {
    var v := Checksummed(c, data);
    var ds := Written(58, LeadingZeros(v), BigEndian(256, v));
    WrittenReadsBack(58, LeadingZeros(v), BigEndian(256, v));
    AlphabetIsNotWhite(ds[0]);
    AlphabetIsNotWhite(ds[|ds| - 1]);
    TrimKeeps(Base58CheckEncode(c, data));
  }

  lemma FromDecodedBody(s: string, feature: byte, pubkey: b33, chaincode: b32, padding: bytes)
    requires IsCompressed(pubkey) && |padding| == 13
    ensures FromDecoded(s, Body(feature, pubkey, chaincode, padding)) == Some(PaymentCode(s, pubkey, chaincode))
  {
    var d := Body(feature, pubkey, chaincode, padding);
    BodyParts(feature, pubkey, chaincode, padding);
    assert d[1..][2..35] == d[3..36] && d[1..][35..67] == d[36..68];
  }

  /** The printed text of a code parses exactly if its feature byte is zero, whatever its padding. */
  lemma BodyParses(c: Crypto, feature: byte, pubkey: b33, chaincode: b32, padding: bytes)
    requires IsCompressed(pubkey) && |padding| == 13
    ensures var raw := Base58CheckEncode(c, Body(feature, pubkey, chaincode, padding));
      && Trim(raw) == raw
      && Parse(c, raw) == if feature == 0 then Some(PaymentCode(raw, pubkey, chaincode)) else None
  {
    hide Base58CheckEncode, Base58CheckDecode, FromDecoded, Body, Trim;
    var data := Body(feature, pubkey, chaincode, padding);
    var raw := Base58CheckEncode(c, data);
    BodyParts(feature, pubkey, chaincode, padding);
    PrintedPrefix(c, data);
    PrintedIsTrimmed(c, data);
    Base58CheckInverse(c, raw, data);
    FromDecodedBody(raw, feature, pubkey, chaincode, padding);
  }

  /** A printed payment code parses back to its key and chain code. */
  lemma ParsePrinted(c: Crypto, pubkey: b33, chaincode: b32)
    requires IsCompressed(pubkey)
    ensures var raw := EncodePaymentCode(c, Payload(pubkey, chaincode));
            Parse(c, raw) == Some(PaymentCode(raw, pubkey, chaincode))
  {
    hide *;
    EncodeIsBody(c, pubkey, chaincode);
    ThirteenZeros();
    BodyParses(c, 0, pubkey, chaincode, Zeros(13));
  }

  lemma ThirteenZeros()
    ensures |Zeros(13)| == 13
  {
  }

  lemma ParsedParts(c: Crypto, raw: string)
    requires Parse(c, raw).Some?
    ensures Base58CheckDecode(c, Trim(raw)).Some? && "PM8T" <= Trim(raw)
    ensures var d := Base58CheckDecode(c, Trim(raw)).value;
      && |d| == 81 && d[0] == 0x47 && d[1] == 1 && (d[3] == 2 || d[3] == 3)
      && Parse(c, raw).value == PaymentCode(Trim(raw), d[3..36], d[36..68])
  {
    hide Base58CheckDecode, Trim;
    var d := Base58CheckDecode(c, Trim(raw)).value;
    assert d[1..][2..35] == d[3..36] && d[1..][35..67] == d[36..68];
  }

  /** The test of the text refuses every code that sets a feature. */
  lemma ParsedBody(c: Crypto, raw: string) returns (padding: bytes)
    requires Parse(c, raw).Some?
    ensures |padding| == 13
    ensures var pc := Parse(c, raw).value;
      Base58CheckDecode(c, Trim(raw)) == Some(Body(0, pc.pubkey, pc.chaincode, padding))
  {
    ParsedParts(c, raw);
    hide Base58CheckDecode, Base58CheckEncode, Parse, Trim, Body;
    var d := Base58CheckDecode(c, Trim(raw)).value;
    Base58CheckInverse(c, Trim(raw), d);
    PrintedPrefix(c, d);
    BodyOfParts(d);
    padding := d[68..];
  }

  lemma SameTrim(c: Crypto, raw: string)
    requires Trim(Trim(raw)) == Trim(raw)
    ensures Parse(c, raw) == Parse(c, Trim(raw))
  {
    hide Trim, Base58CheckDecode, FromDecoded;
  }

  /**
   * What the parser accepts, for all texts: those that, trimmed, are printed for a version-1 code
   * without features, with a compressed key and any padding; it returns that key and chain code.
   */
  lemma ParsesExactly(c: Crypto, raw: string, pc: PaymentCode)
    ensures Parse(c, raw) == Some(pc)
       <==> IsCompressed(pc.pubkey) && pc.raw == Trim(raw)
            && exists padding :: |padding| == 13 && Trim(raw) == Base58CheckEncode(c, Body(0, pc.pubkey, pc.chaincode, padding))
  {
    if Parse(c, raw) == Some(pc) {
      var padding := ParsedBody(c, raw);
      ParsedParts(c, raw);
      Base58CheckInverse(c, Trim(raw), Body(0, pc.pubkey, pc.chaincode, padding));
    }
    hide Parse, Trim, Base58CheckDecode, Base58CheckEncode, Body;
    if IsCompressed(pc.pubkey) && pc.raw == Trim(raw) {
      if padding :| |padding| == 13 && Trim(raw) == Base58CheckEncode(c, Body(0, pc.pubkey, pc.chaincode, padding)) {
        BodyParses(c, 0, pc.pubkey, pc.chaincode, padding);
        SameTrim(c, raw);
      }
    }
  }

  lemma BodyInjective(pubkey: b33, chaincode: b32, padding: bytes, padding': bytes)
    ensures Body(0, pubkey, chaincode, padding) == Body(0, pubkey, chaincode, padding') <==> padding == padding'
  {
    hide Body;
    BodyParts(0, pubkey, chaincode, padding);
    BodyParts(0, pubkey, chaincode, padding');
  }

  /** A code that parses is the code printed for its key and chain code, up to white space around
      it, exactly when its padding is zero, which the parser does not look at. */
  lemma ParsedIsPrinted(c: Crypto, raw: string)
    requires Parse(c, raw).Some?
    ensures Base58CheckDecode(c, Trim(raw)).Some? && |Base58CheckDecode(c, Trim(raw)).value| == 81
    ensures EncodePaymentCode(c, PayloadFromCode(Parse(c, raw).value)) == Trim(raw)
       <==> Base58CheckDecode(c, Trim(raw)).value[68..] == Zeros(13)
  {
    var padding := ParsedBody(c, raw);
    hide Base58CheckDecode, Base58CheckEncode, Parse, Trim, Payload, Body, EncodePaymentCode, Zeros;
    var pc := Parse(c, raw).value;
    BodyParts(0, pc.pubkey, pc.chaincode, padding);
    EncodeIsBody(c, pc.pubkey, pc.chaincode);
    Base58CheckInverse(c, Trim(raw), Body(0, pc.pubkey, pc.chaincode, Zeros(13)));
    BodyInjective(pc.pubkey, pc.chaincode, padding, Zeros(13));
  }

  /** Every nonzero padding gives a code that parses and is not the one printed for its contents. */
  lemma PaddedCodeIsNotPrinted(c: Crypto, pubkey: b33, chaincode: b32, padding: bytes)
    requires IsCompressed(pubkey) && |padding| == 13 && padding != Zeros(13)
    ensures var raw := Base58CheckEncode(c, Body(0, pubkey, chaincode, padding));
      && Parse(c, raw) == Some(PaymentCode(raw, pubkey, chaincode))
      && EncodePaymentCode(c, PayloadFromCode(Parse(c, raw).value)) != raw
  {
    hide Base58CheckDecode, Base58CheckEncode, Parse, Trim, Payload, Body, EncodePaymentCode, Zeros;
    var raw := Base58CheckEncode(c, Body(0, pubkey, chaincode, padding));
    BodyParses(c, 0, pubkey, chaincode, padding);
    ParsedIsPrinted(c, raw);
    Base58CheckInverse(c, raw, Body(0, pubkey, chaincode, padding));
    BodyParts(0, pubkey, chaincode, padding);
  }

  // ---- Child keys ----

  /** child_il: the public BIP-32 tweak of a non-hardened child, refused at or above n. */
  function ChildIl(c: Crypto, pc: PaymentCode, index: nat): (r: Option<nat>)
    ensures r.Some? ==> r.value < c.n
  {
    var il := BE(c.hmac512(pc.chaincode, pc.pubkey + ToBE(index, 4))[..32]);
    if il >= c.n then None else Some(il)
  }

  function ChildPubkey(c: Crypto, pc: PaymentCode, index: nat): (r: Option<int>)
    ensures r.Some? ==> InGroup(c, r.value)
  {
    match c.lift(pc.pubkey)
    case None => None
    case Some(parent) =>
      match ChildIl(c, pc, index)
      case None => None
      case Some(il) => AddExpTweak(c, parent, il)
  }

  /** ecdh_x_coordinate: the raw x coordinate of secret times key. */
  function EcdhX(c: Crypto, p: int, secret: int): bytes
    requires InGroup(c, p) && InGroup(c, secret)
  {
    c.xb(MulTweak(c, p, secret).value)
  }

  // ---- Payment addresses ----

  /** One round of the address loops: an address, a failure, or the next index. */
  datatype Round = Address(addr: string, index: nat) | Failed | NextIndex

  const MAX_INDEX: nat := 0x1_0000_0000

  /** What both loops do with the shared x coordinate once the child key is known. */
  function FinishAddress(c: Crypto, b: int, sx: bytes, index: nat): Round
    requires InGroup(c, b)
  {
    var s := BE(c.sha256(sx));
    if s >= c.n then NextIndex
    else match AddExpTweak(c, b, s)
      case None => Failed
      case Some(bp) => Address(c.p2pkh(Ser(c, bp)), index)
  }

  function PayRound(c: Crypto, pc: PaymentCode, secret: int, index: nat): Round
    requires InGroup(c, secret)
  {
    match ChildPubkey(c, pc, index)
    case None => Failed
    case Some(b) => FinishAddress(c, b, EcdhX(c, b, secret), index)
  }

  function SharedRound(c: Crypto, pc: PaymentCode, sharedX: bytes, index: nat): Round {
    match ChildPubkey(c, pc, index)
    case None => Failed
    case Some(b) => FinishAddress(c, b, sharedX, index)
  }

  /** The index k rounds on: 32-bit indices wrap around. */
  function IndexAfter(index: nat, k: nat): nat {
    (index + k) % 0x1_0000_0000
  }

  lemma NextIndexAfter(index: nat, k: nat)
    ensures (IndexAfter(index, k) + 1) % MAX_INDEX == IndexAfter(index, k + 1)
  {
  }

  lemma FirstIndex(index: nat)
    requires index < MAX_INDEX
    ensures IndexAfter(index, 0) == index
  {
  }

  lemma AddressIndex(c: Crypto, pc: PaymentCode, secret: int, sharedX: bytes, index: nat)
    requires InGroup(c, secret)
    ensures PayRound(c, pc, secret, index).Address? ==> PayRound(c, pc, secret, index).index == index
    ensures SharedRound(c, pc, sharedX, index).Address? ==> SharedRound(c, pc, sharedX, index).index == index
  {
    hide ChildPubkey, AddExpTweak, EcdhX;
  }

  /**
   * payment_address, where some round ends its loop: the result is that of the first round that does
   * not ask for the next index, and an address comes with the index it belongs to.
   */
  method PaymentAddress(c: Crypto, pc: PaymentCode, secret: int, index: nat) returns (r: Round, ghost k: nat)
    requires InGroup(c, secret) && index < MAX_INDEX
    requires exists m: nat :: PayRound(c, pc, secret, IndexAfter(index, m)) != NextIndex
    ensures r == PayRound(c, pc, secret, IndexAfter(index, k)) && r != NextIndex
    ensures forall j :: 0 <= j < k ==> PayRound(c, pc, secret, IndexAfter(index, j)) == NextIndex
    ensures r.Address? ==> r.index == IndexAfter(index, k)
  {
    hide PayRound, IndexAfter;
    ghost var m: nat :| PayRound(c, pc, secret, IndexAfter(index, m)) != NextIndex;
    FirstIndex(index);
    var idx: nat := index;
    k := 0;
    while true
      invariant idx == IndexAfter(index, k) && k <= m
      invariant forall j :: 0 <= j < k ==> PayRound(c, pc, secret, IndexAfter(index, j)) == NextIndex
      decreases m - k
    {
      r := PayRound(c, pc, secret, idx);
      if r != NextIndex {
        AddressIndex(c, pc, secret, [], idx);
        return;
      }
      NextIndexAfter(index, k);
      idx := (idx + 1) % MAX_INDEX;
      k := k + 1;
    }
  }

  /** payment_address_from_shared_x, likewise. */
  method PaymentAddressFromSharedX(c: Crypto, pc: PaymentCode, sharedX: bytes, index: nat) returns (r: Round, ghost k: nat)
    requires index < MAX_INDEX
    requires exists m: nat :: SharedRound(c, pc, sharedX, IndexAfter(index, m)) != NextIndex
    ensures r == SharedRound(c, pc, sharedX, IndexAfter(index, k)) && r != NextIndex
    ensures forall j :: 0 <= j < k ==> SharedRound(c, pc, sharedX, IndexAfter(index, j)) == NextIndex
    ensures r.Address? ==> r.index == IndexAfter(index, k)
  {
    hide SharedRound, IndexAfter;
    ghost var m: nat :| SharedRound(c, pc, sharedX, IndexAfter(index, m)) != NextIndex;
    FirstIndex(index);
    var idx: nat := index;
    k := 0;
    while true
      invariant idx == IndexAfter(index, k) && k <= m
      invariant forall j :: 0 <= j < k ==> SharedRound(c, pc, sharedX, IndexAfter(index, j)) == NextIndex
      decreases m - k
    {
      r := SharedRound(c, pc, sharedX, idx);
      if r != NextIndex {
        AddressIndex(c, pc, 1, sharedX, idx);
        return;
      }
      NextIndexAfter(index, k);
      idx := (idx + 1) % MAX_INDEX;
      k := k + 1;
    }
  }

  /**
   * The digest does not depend on the index. A valid one lets every round end the loop, so the first
   * decides; an invalid one lets a round end the loop only by a failing child key, without an address.
   */
  lemma SharedLoopOutcome(c: Crypto, pc: PaymentCode, sharedX: bytes, index: nat)
    ensures BE(c.sha256(sharedX)) < c.n ==> SharedRound(c, pc, sharedX, index) != NextIndex
    ensures BE(c.sha256(sharedX)) >= c.n ==>
      SharedRound(c, pc, sharedX, index) == if ChildPubkey(c, pc, index).None? then Failed else NextIndex
  {
    hide ChildPubkey, AddExpTweak;
  }

  // ---- What is derived, and who can spend it ----

  /** The child tweak of BIP-32: HMAC-SHA512 under the chain code of the serialized key and the 32-bit
      index, of which the left half must be below the order. */
  lemma ChildTweakExactly(c: Crypto, pc: PaymentCode, index: nat, data: bytes)
    requires |data| == 37 && data[..33] == pc.pubkey && BE(data[33..]) == index
    ensures var il := BE(c.hmac512(pc.chaincode, data)[..32]);
      ChildIl(c, pc, index) == if il < c.n then Some(il) else None
  {
    hide BE, ToBE;
    ToBEOfBE(data[33..]);
    assert data == pc.pubkey + data[33..];
  }

  /** The child key has the secret x + il, where x is the secret of the code's key. */
  lemma ChildSecret(c: Crypto, pc: PaymentCode, index: nat, x: int)
    requires c.lift(pc.pubkey) == Some(x)
    ensures ChildIl(c, pc, index).None? ==> ChildPubkey(c, pc, index).None?
    ensures ChildIl(c, pc, index).Some? ==>
      var b := Mod(c.n, x + ChildIl(c, pc, index).value);
      ChildPubkey(c, pc, index) == if b == 0 then None else Some(b)
  {
    hide ChildIl, Mod;
  }

  /** The key paid has the secret b + s, where s is the digest of the shared x coordinate. */
  lemma PaidSecret(c: Crypto, b: int, sx: bytes, index: nat)
    requires InGroup(c, b)
    ensures var s := BE(c.sha256(sx));
            var k := Mod(c.n, b + s);
      FinishAddress(c, b, sx, index) ==
      if s >= c.n then NextIndex else if k == 0 then Failed else Address(c.p2pkh(Ser(c, k)), index)
  {
    hide Mod, BE, Ser, Lawful;
  }

  lemma SharedX(c: Crypto, a: int, b: int)
    requires InGroup(c, a) && InGroup(c, b)
    ensures InGroup(c, Mod(c.n, a * b)) && EcdhX(c, b, a) == c.xb(Mod(c.n, a * b))
  {
    NoZeroDivisors(c.n, a, b);
    assert a * b == b * a;
    hide Mod;
  }

  /**
   * The payee's side of BIP-47. The payee knows the secret x of its code and sees the sender's key, of
   * secret a. An address paid is the P2PKH address of the key whose secret is b + s: b = x + il is the
   * secret of the child key and s the digest of the x coordinate of the point that b makes of the
   * sender's key. No address is paid exactly if a tweak is invalid or a key is infinity, and the next
   * index is asked for exactly if the digest is not below the order.
   */
  lemma PayeeOwnsAddress(c: Crypto, pc: PaymentCode, a: int, x: int, index: nat)
    requires InGroup(c, a) && c.lift(pc.pubkey) == Some(x)
    ensures ChildIl(c, pc, index).None? ==> PayRound(c, pc, a, index) == Failed
    ensures ChildIl(c, pc, index).Some? ==>
      var b := Mod(c.n, x + ChildIl(c, pc, index).value);
      var s := BE(c.sha256(c.xb(Mod(c.n, a * b))));
      PayRound(c, pc, a, index) ==
      if b == 0 then Failed else if s >= c.n then NextIndex
      else if Mod(c.n, b + s) == 0 then Failed else Address(c.p2pkh(Ser(c, Mod(c.n, b + s))), index)
  {
    hide ChildIl, ChildPubkey, FinishAddress, Mod, BE, Ser, EcdhX, Lawful;
    ChildSecret(c, pc, index, x);
    if ChildPubkey(c, pc, index).Some? {
      var b := ChildPubkey(c, pc, index).value;
      SharedX(c, a, b);
      PaidSecret(c, b, EcdhX(c, b, a), index);
    }
  }

  /** The same for the precomputed shared x coordinate. */
  lemma PayeeOwnsSharedAddress(c: Crypto, pc: PaymentCode, sx: bytes, x: int, index: nat)
    requires c.lift(pc.pubkey) == Some(x)
    ensures ChildIl(c, pc, index).None? ==> SharedRound(c, pc, sx, index) == Failed
    ensures ChildIl(c, pc, index).Some? ==>
      var b := Mod(c.n, x + ChildIl(c, pc, index).value);
      var s := BE(c.sha256(sx));
      SharedRound(c, pc, sx, index) ==
      if b == 0 then Failed else if s >= c.n then NextIndex
      else if Mod(c.n, b + s) == 0 then Failed else Address(c.p2pkh(Ser(c, Mod(c.n, b + s))), index)
  {
    hide ChildIl, ChildPubkey, FinishAddress, Mod, BE, Ser, Lawful;
    ChildSecret(c, pc, index, x);
    if ChildPubkey(c, pc, index).Some? {
      PaidSecret(c, ChildPubkey(c, pc, index).value, sx, index);
    }
  }
}
