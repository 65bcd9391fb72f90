// The text payloads the devices show each other as QR codes.
module Qr {
  import opened Wrappers
  import opened Bytes
  import opened Text
  import Hex
  import Vault

  type u32 = x: int | 0 <= x < 0x1_0000_0000

  datatype VaultQr =
    | Setup(code: string)
    | Vault(code: string)
    | Nonce(pk: b33, pubnonce: b66)
    | Session(msg: bytes, index: u32, aggnonce: b66)
    | Psig(pk: b33, psig: b32)
    | Ecdh(pk: b33, share: b33)

  const PROTOCOL: string := "DOJOV1"

  // ---- Decimal numbers ----

  function DigitChar(v: nat): char
    requires v < 10
  {
    '0' + v as char
  }

  function PrintDecimal(v: nat): (s: string)
    ensures s != [] && '0' <= s[0] <= '9'
    ensures |s| > 1 ==> s[0] != '0'
    ensures forall ch :: ch in s ==> '0' <= ch <= '9'
  {
    if v < 10 then [DigitChar(v)] else PrintDecimal(v / 10) + [DigitChar(v % 10)]
  }

  /** The number a string of digits denotes. */
  function DecimalValue(s: string): Option<nat> {
    if s == [] then Some(0)
    else
      var last := s[|s| - 1];
      match DecimalValue(s[..|s| - 1])
      case None => None
      case Some(v) => if '0' <= last <= '9' then Some(10 * v + (last as int - '0' as int)) else None
  }

  /** str::parse for u32: a leading plus sign and leading zeros are accepted, an overflow is not. */
  function ParseU32(s: string): Option<u32> {
    var digits := if s != [] && s[0] == '+' then s[1..] else s;
    if digits == [] then None
    else
      match DecimalValue(digits)
      case None => None
      case Some(v) => if v < 0x1_0000_0000 then Some(v) else None
  }

  lemma {:induction false} DecimalValueOfPrinted(v: nat)
    ensures DecimalValue(PrintDecimal(v)) == Some(v)
  {
    var s := PrintDecimal(v);
    if v < 10 {
      assert s[..0] == [];
    } else {
      DecimalValueOfPrinted(v / 10);
      assert s[..|s| - 1] == PrintDecimal(v / 10);
    }
  }

  lemma ParsePrinted(v: u32)
    ensures ParseU32(PrintDecimal(v)) == Some(v)
  {
    DecimalValueOfPrinted(v);
  }

  function ZeroDigits(k: nat): string {
    seq(k, _ => '0')
  }

  lemma {:induction false} PrintedValue(k: nat, v: nat)
    ensures DecimalValue(ZeroDigits(k) + PrintDecimal(v)) == Some(v)
    decreases v, k
  {
    var s := ZeroDigits(k) + PrintDecimal(v);
    if v >= 10 {
      PrintedValue(k, v / 10);
      assert s[..|s| - 1] == ZeroDigits(k) + PrintDecimal(v / 10);
    } else if k == 0 {
      assert s[..|s| - 1] == [];
    } else {
      PrintedValue(k - 1, 0);
      assert s[..|s| - 1] == ZeroDigits(k) == ZeroDigits(k - 1) + PrintDecimal(0);
    }
  }

  lemma {:induction false} ValueIsPrinted(s: string) returns (k: nat)
    requires s != [] && DecimalValue(s).Some?
    ensures s == ZeroDigits(k) + PrintDecimal(DecimalValue(s).value)
  {
    var front, v := s[..|s| - 1], DecimalValue(s).value;
    var last := s[|s| - 1];
    assert s == front + [last];
    k := 0;
    if front != [] {
      k := ValueIsPrinted(front);
      if v < 10 {
        k := k + 1;
      }
      hide DecimalValue, PrintDecimal;
      LastDigit(front, last, DecimalValue(front).value, if v < 10 then k - 1 else k);
    }
  }

  /** One more digit behind a printed number: the print of ten times it and the digit, with another zero
      in front if it was zero. */
  lemma LastDigit(front: string, last: char, v: nat, k: nat)
    requires front == ZeroDigits(k) + PrintDecimal(v) && '0' <= last <= '9'
    ensures var w := 10 * v + (last as int - '0' as int);
      front + [last] == ZeroDigits(if w < 10 then k + 1 else k) + PrintDecimal(w)
  {
    if v == 0 {
      assert PrintDecimal(0) == ['0'];
      assert front == ZeroDigits(k + 1);
    }
  }

  /** A text is read as the index v if it is v printed, with any zeros and one plus sign in front of it. */
  lemma ParseExactly(s: string, v: u32)
    ensures ParseU32(s) == Some(v)
       <==> exists k: nat :: s == ZeroDigits(k) + PrintDecimal(v) || s == "+" + (ZeroDigits(k) + PrintDecimal(v))
  {
    hide DecimalValue, PrintDecimal;
    if ParseU32(s) == Some(v) {
      var digits := if s != [] && s[0] == '+' then s[1..] else s;
      var k := ValueIsPrinted(digits);
      assert s == digits || s == "+" + digits;
    }
    if k: nat :| s == ZeroDigits(k) + PrintDecimal(v) || s == "+" + (ZeroDigits(k) + PrintDecimal(v)) {
      var digits := ZeroDigits(k) + PrintDecimal(v);
      PrintedValue(k, v);
      assert '0' <= digits[0] <= '9';
      if s != digits { assert s[1..] == digits; }
    }
  }

  // ---- Encoding ----

  function Join(parts: seq<string>): string
    requires parts != []
  {
    if |parts| == 1 then parts[0] else parts[0] + ['|'] + Join(parts[1..])
  }

  function Kind(q: VaultQr): string {
    match q
    case Setup(_) => "SETUP"
    case Vault(_) => "VAULT"
    case Nonce(_, _) => "NONCE"
    case Session(_, _, _) => "SESSION"
    case Psig(_, _) => "PSIG"
    case Ecdh(_, _) => "ECDH"
  }

  function Fields(q: VaultQr): (r: seq<string>)
    ensures r != []
  {
    match q
    case Setup(code) => [code]
    case Vault(code) => [code]
    case Nonce(pk, pubnonce) => [Hex.Encode(pk), Hex.Encode(pubnonce)]
    case Session(msg, index, aggnonce) => [Hex.Encode(msg), PrintDecimal(index), Hex.Encode(aggnonce)]
    case Psig(pk, psig) => [Hex.Encode(pk), Hex.Encode(psig)]
    case Ecdh(pk, share) => [Hex.Encode(pk), Hex.Encode(share)]
  }

  function Encode(q: VaultQr): string {
    Join([PROTOCOL, Kind(q)] + Fields(q))
  }

  lemma JoinTwo(x: string, y: string)
    ensures Join([x, y]) == x + "|" + y
  {
    assert [x, y][1..] == [y];
  }

  lemma JoinThree(x: string, y: string, z: string)
    ensures Join([x, y, z]) == x + "|" + y + "|" + z
  {
    assert [x, y, z][1..] == [y, z];
    JoinTwo(y, z);
    assert x + ['|'] + (y + "|" + z) == x + "|" + y + "|" + z;
  }

  lemma JoinMore(x: string, y: string, rest: seq<string>)
    requires rest != []
    ensures Join([x, y] + rest) == x + "|" + y + "|" + Join(rest)
  {
    var parts := [x, y] + rest;
    assert parts[1..] == [y] + rest && parts[1..][1..] == rest;
    assert x + ['|'] + (y + ['|'] + Join(rest)) == x + "|" + y + "|" + Join(rest);
  }

  /** What the six payloads look like. */
  lemma Texts(q: VaultQr)
    ensures q.Setup? ==> Encode(q) == "DOJOV1" + "|" + "SETUP" + "|" + q.code
    ensures q.Vault? ==> Encode(q) == "DOJOV1" + "|" + "VAULT" + "|" + q.code
    ensures q.Nonce? ==> Encode(q) == "DOJOV1" + "|" + "NONCE" + "|" + (Hex.Encode(q.pk) + "|" + Hex.Encode(q.pubnonce))
    ensures q.Session? ==>
              Encode(q) == "DOJOV1" + "|" + "SESSION" + "|"
                           + (Hex.Encode(q.msg) + "|" + PrintDecimal(q.index) + "|" + Hex.Encode(q.aggnonce))
    ensures q.Psig? ==> Encode(q) == "DOJOV1" + "|" + "PSIG" + "|" + (Hex.Encode(q.pk) + "|" + Hex.Encode(q.psig))
    ensures q.Ecdh? ==> Encode(q) == "DOJOV1" + "|" + "ECDH" + "|" + (Hex.Encode(q.pk) + "|" + Hex.Encode(q.share))
  {
    hide Join, Hex.Encode, PrintDecimal;
    JoinMore(PROTOCOL, Kind(q), Fields(q));
    match q
    case Setup(code) => JoinOne(code);
    case Vault(code) => JoinOne(code);
    case Nonce(pk, pubnonce) => JoinTwo(Hex.Encode(pk), Hex.Encode(pubnonce));
    case Session(msg, index, aggnonce) => JoinThree(Hex.Encode(msg), PrintDecimal(index), Hex.Encode(aggnonce));
    case Psig(pk, psig) => JoinTwo(Hex.Encode(pk), Hex.Encode(psig));
    case Ecdh(pk, share) => JoinTwo(Hex.Encode(pk), Hex.Encode(share));
  }

  lemma JoinOne(x: string)
    ensures Join([x]) == x
  {
  }

  // ---- Decoding ----

  /** A field of exactly `len` bytes in hexadecimal. */
  function FixedHex(s: string, len: nat): (r: Option<bytes>)
    ensures r.Some? ==> |r.value| == len
  {
    var b := Hex.Decode(s);
    if b.Some? && |b.value| == len then b else None
  }

  function DecodeParts(parts: seq<string>): Result<VaultQr, Vault.VaultError> {
    if |parts| < 3 || parts[0] != PROTOCOL then Err(Vault.MalformedQr)
    else if parts[1] == "SETUP" && |parts| == 3 then Ok(Setup(parts[2]))
    else if parts[1] == "VAULT" && |parts| == 3 then Ok(Vault(parts[2]))
    else if parts[1] == "NONCE" && |parts| == 4 then
      match (FixedHex(parts[2], 33), FixedHex(parts[3], 66))
      case (Some(pk), Some(pubnonce)) => Ok(Nonce(pk, pubnonce))
      case (_, _) => Err(Vault.MalformedQr)
    else if parts[1] == "SESSION" && |parts| == 5 then
      match (Hex.Decode(parts[2]), ParseU32(parts[3]), FixedHex(parts[4], 66))
      case (Some(msg), Some(index), Some(aggnonce)) => Ok(Session(msg, index, aggnonce))
      case (_, _, _) => Err(Vault.MalformedQr)
    else if parts[1] == "PSIG" && |parts| == 4 then
      match (FixedHex(parts[2], 33), FixedHex(parts[3], 32))
      case (Some(pk), Some(psig)) => Ok(Psig(pk, psig))
      case (_, _) => Err(Vault.MalformedQr)
    else if parts[1] == "ECDH" && |parts| == 4 then
      match (FixedHex(parts[2], 33), FixedHex(parts[3], 33))
      case (Some(pk), Some(share)) => Ok(Ecdh(pk, share))
      case (_, _) => Err(Vault.MalformedQr)
    else Err(Vault.MalformedQr)
  }

  function Decode(s: string): Result<VaultQr, Vault.VaultError> {
    DecodeParts(Split(Trim(s), '|'))
  }

  // ---- Splitting what was joined ----

  lemma {:induction false} SplitJoin(parts: seq<string>)
    requires parts != [] && forall p :: p in parts ==> '|' !in p
    ensures Split(Join(parts), '|') == parts
  {
    hide Split;
    if |parts| == 1 {
      SplitWhole(parts[0], '|');
      assert parts == [parts[0]];
    } else {
      SplitJoin(parts[1..]);
      SplitAt(parts[0], '|', Join(parts[1..]));
      assert parts == [parts[0]] + parts[1..];
    }
  }

  lemma {:induction false} JoinEnds(parts: seq<string>)
    requires parts != [] && parts[0] != [] && parts[|parts| - 1] != []
    ensures Join(parts) != []
    ensures Join(parts)[0] == parts[0][0]
    ensures Join(parts)[|Join(parts)| - 1] == parts[|parts| - 1][|parts[|parts| - 1]| - 1]
    decreases |parts|
  {
    if |parts| == 2 {
      assert Join(parts[1..]) == parts[1];
    } else if |parts| > 2 {
      LastOfJoin(parts[1..]);
    }
  }

  lemma {:induction false} LastOfJoin(parts: seq<string>)
    requires parts != [] && parts[|parts| - 1] != []
    ensures Join(parts) != []
    ensures Join(parts)[|Join(parts)| - 1] == parts[|parts| - 1][|parts[|parts| - 1]| - 1]
    decreases |parts|
  {
    if |parts| > 1 {
      LastOfJoin(parts[1..]);
    }
  }

  // ---- Round trips ----

  /** Hexadecimal digits are neither separators nor white space. */
  lemma HexIsPlain(b: bytes)
    ensures '|' !in Hex.Encode(b)
    ensures b != [] ==> Hex.Encode(b) != [] && !IsWhite(Hex.Encode(b)[|Hex.Encode(b)| - 1])
  {
    var s := Hex.Encode(b);
    Hex.EncodeIsLower(b);
    hide Hex.Encode, IsWhite;
    DigitsArePlain();
    if b != [] {
      assert s[|s| - 1] in s;
    }
  }

  lemma DigitsArePlain()
    ensures forall ch :: ch in Hex.DIGITS ==> ch != '|' && !IsWhite(ch)
  {
  }

  lemma FixedHexReads(b: bytes)
    ensures FixedHex(Hex.Encode(b), |b|) == Some(b)
  {
    Hex.DecodeEncode(b);
  }

  /** Payloads other than payment codes are made of hexadecimal and decimal digits. */
  predicate IsCode(q: VaultQr) {
    q.Setup? || q.Vault?
  }

  lemma KindIsPlain(q: VaultQr)
    ensures '|' !in PROTOCOL && '|' !in Kind(q)
  {
  }

  lemma FieldsArePlain(q: VaultQr)
    requires !IsCode(q)
    ensures forall p :: p in Fields(q) ==> '|' !in p
    ensures var last := Fields(q)[|Fields(q)| - 1]; last != [] && !IsWhite(last[|last| - 1])
  {
    hide Hex.Encode, IsWhite, PrintDecimal;
    match q
    case Nonce(pk, pubnonce) => HexIsPlain(pk); HexIsPlain(pubnonce);
    case Session(msg, index, aggnonce) => HexIsPlain(msg); HexIsPlain(aggnonce);
    case Psig(pk, psig) => HexIsPlain(pk); HexIsPlain(psig);
    case Ecdh(pk, share) => HexIsPlain(pk); HexIsPlain(share);
  }

  lemma FieldsDecode(q: VaultQr)
    ensures DecodeParts([PROTOCOL, Kind(q)] + Fields(q)) == Ok(q)
  {
    hide Hex.Encode, Hex.Decode, FixedHex, PrintDecimal, ParseU32;
    match q
    case Setup(code) =>
    case Vault(code) =>
    case Nonce(pk, pubnonce) => FixedHexReads(pk); FixedHexReads(pubnonce);
    case Session(msg, index, aggnonce) => Hex.DecodeEncode(msg); ParsePrinted(index); FixedHexReads(aggnonce);
    case Psig(pk, psig) => FixedHexReads(pk); FixedHexReads(psig);
    case Ecdh(pk, share) => FixedHexReads(pk); FixedHexReads(share);
  }

  lemma TrimOfEncoded(parts: seq<string>)
    requires |parts| > 1 && parts[0] == PROTOCOL && parts[|parts| - 1] != []
    requires !IsWhite(parts[|parts| - 1][|parts[|parts| - 1]| - 1])
    ensures Trim(Join(parts)) == Join(parts)
  {
    JoinEnds(parts);
    assert PROTOCOL[0] == 'D';
    TrimKeeps(Join(parts));
  }

  /** A nonce, session, partial signature or share is read back as it was, whatever it holds. */
  lemma RoundTrip(q: VaultQr)
    requires !IsCode(q)
    ensures Decode(Encode(q)) == Ok(q)
  {
    hide Join, Trim, Split, DecodeParts, Fields, Kind, IsWhite;
    var parts := [PROTOCOL, Kind(q)] + Fields(q);
    KindIsPlain(q);
    FieldsArePlain(q);
    TrimOfEncoded(parts);
    SplitJoin(parts);
    FieldsDecode(q);
  }

  // ---- Payment codes ----

  function Head(kind: string): string {
    PROTOCOL + ['|'] + kind + ['|']
  }

  lemma EncodeCode(q: VaultQr)
    requires IsCode(q)
    ensures Encode(q) == Head(Kind(q)) + q.code
  {
    assert [PROTOCOL, Kind(q)] + Fields(q) == [PROTOCOL, Kind(q), q.code];
    assert [PROTOCOL, Kind(q), q.code][1..] == [Kind(q), q.code] && [Kind(q), q.code][1..] == [q.code];
    assert Join([Kind(q), q.code]) == Kind(q) + ['|'] + q.code;
    assert PROTOCOL + ['|'] + (Kind(q) + ['|'] + q.code) == Head(Kind(q)) + q.code;
  }

  lemma TrimOfCode(kind: string, code: string)
    ensures Trim(Head(kind) + code) == Head(kind) + TrimEnd(code)
  {
    var s := Head(kind) + code;
    assert s[0] == 'D';
    TrimEndOfAppend(Head(kind), code);
  }

  lemma SplitOfCode(kind: string, code: string)
    requires '|' !in kind
    ensures Split(Head(kind) + code, '|') == [PROTOCOL, kind] + Split(code, '|')
  {
    hide Split;
    SplitAt(PROTOCOL, '|', kind + ['|'] + code);
    SplitAt(kind, '|', code);
    assert Head(kind) + code == PROTOCOL + ['|'] + (kind + ['|'] + code);
  }

  lemma DecodeCode(kind: string, fields: seq<string>)
    requires kind == "SETUP" || kind == "VAULT"
    ensures |fields| > 1 ==> DecodeParts([PROTOCOL, kind] + fields) == Err(Vault.MalformedQr)
    ensures |fields| == 1 ==>
      DecodeParts([PROTOCOL, kind] + fields) == Ok(if kind == "SETUP" then Setup(fields[0]) else Vault(fields[0]))
  {
  }

  /** A payment code is read back without its trailing white space, and not at all if it holds a separator. */
  lemma CodeRoundTrip(q: VaultQr)
    requires IsCode(q)
    ensures Decode(Encode(q))
         == if '|' in q.code then Err(Vault.MalformedQr)
            else Ok(if q.Setup? then Setup(TrimEnd(q.code)) else Vault(TrimEnd(q.code)))
  {
    hide Encode, Join, Split, DecodeParts, Trim, Head;
    var code := TrimEnd(q.code);
    EncodeCode(q);
    TrimOfCode(Kind(q), q.code);
    TrimEndKeeps(q.code, '|');
    SplitOfCode(Kind(q), code);
    SplitCount(code, '|');
    if '|' !in code { SplitWhole(code, '|'); }
    DecodeCode(Kind(q), Split(code, '|'));
  }

  /** So encoding loses nothing exactly for the codes without a separator and trailing white space. */
  lemma RoundTripExact(q: VaultQr)
    ensures Decode(Encode(q)) == Ok(q) <==> (IsCode(q) ==> '|' !in q.code && TrimEnd(q.code) == q.code)
  {
    hide Decode, Encode, TrimEnd;
    if IsCode(q) { CodeRoundTrip(q); } else { RoundTrip(q); }
  }

  // ---- Injectivity ----

  lemma {:induction false} JoinHead(kind: string, fields: seq<string>)
    requires fields != []
    ensures Join([PROTOCOL, kind] + fields) == Head(kind) + Join(fields)
  {
    var parts := [PROTOCOL, kind] + fields;
    assert parts[1..] == [kind] + fields && parts[1..][1..] == fields;
    assert Join(parts[1..]) == kind + ['|'] + Join(fields);
    assert PROTOCOL + ['|'] + (kind + ['|'] + Join(fields)) == Head(kind) + Join(fields);
  }

  lemma KindOfEncoded(q: VaultQr)
    ensures |Split(Encode(q), '|')| > 1 && Split(Encode(q), '|')[1] == Kind(q)
  {
    hide Split, Join, Head, Kind, Fields;
    JoinHead(Kind(q), Fields(q));
    KindIsPlain(q);
    SplitOfCode(Kind(q), Join(Fields(q)));
  }

  lemma AppendInjective(x: string, y: string, z: string)
    requires x + y == x + z
    ensures y == z
  {
    assert y == (x + y)[|x|..] && z == (x + z)[|x|..];
  }

  lemma KindDecides(q: VaultQr, q': VaultQr)
    requires Kind(q) == Kind(q')
    ensures IsCode(q) <==> IsCode(q')
    ensures IsCode(q) && q.code == q'.code ==> q == q'
  {
    assert Kind(q)[0] == Kind(q')[0];
  }

  /** No two payloads, whatever they hold, look the same. */
  lemma EncodeInjective(q: VaultQr, q': VaultQr)
    requires Encode(q) == Encode(q')
    ensures q == q'
  {
    hide Encode, Decode, Kind, Head, Split;
    KindOfEncoded(q);
    KindOfEncoded(q');
    KindDecides(q, q');
    if IsCode(q) {
      EncodeCode(q);
      EncodeCode(q');
      AppendInjective(Head(Kind(q)), q.code, q'.code);
    } else {
      RoundTrip(q);
      RoundTrip(q');
    }
  }

  // ---- What is accepted ----

  /** The fields a payload may be read from: hexadecimal in either case, and any spelling of the index. */
  predicate Reads(fields: seq<string>, q: VaultQr) {
    match q
    case Setup(code) => fields == [code] && '|' !in code
    case Vault(code) => fields == [code] && '|' !in code
    case Nonce(pk, pubnonce) => |fields| == 2 && ReadsHex(fields[0], pk) && ReadsHex(fields[1], pubnonce)
    case Session(msg, index, aggnonce) =>
      |fields| == 3 && ReadsHex(fields[0], msg) && ParseU32(fields[1]) == Some(index) && ReadsHex(fields[2], aggnonce)
    case Psig(pk, psig) => |fields| == 2 && ReadsHex(fields[0], pk) && ReadsHex(fields[1], psig)
    case Ecdh(pk, share) => |fields| == 2 && ReadsHex(fields[0], pk) && ReadsHex(fields[1], share)
  }

  predicate ReadsHex(s: string, b: bytes) {
    Hex.Lower(s) == Hex.Encode(b)
  }

  lemma FixedHexIs(s: string, b: bytes)
    ensures FixedHex(s, |b|) == Some(b) <==> ReadsHex(s, b)
    ensures Hex.Decode(s) == Some(b) <==> ReadsHex(s, b)
  {
    Hex.DecodeIsEncode(s, b);
  }

  lemma ReadsHexPlain(s: string, b: bytes)
    requires ReadsHex(s, b)
    ensures '|' !in s
  {
    HexIsPlain(b);
    forall i | 0 <= i < |s|
      ensures s[i] != '|'
    {
      assert Hex.Lower(s)[i] in Hex.Encode(b);
    }
  }

  lemma {:induction false} DecimalPlain(s: string)
    requires DecimalValue(s).Some?
    ensures '|' !in s
  {
    if s != [] {
      DecimalPlain(s[..|s| - 1]);
      assert s == s[..|s| - 1] + [s[|s| - 1]];
    }
  }

  lemma ParsePlain(s: string)
    requires ParseU32(s).Some?
    ensures '|' !in s
  {
    if s[0] == '+' {
      DecimalPlain(s[1..]);
      assert s == ['+'] + s[1..];
    } else {
      DecimalPlain(s);
    }
  }

  lemma ReadsPlain(fields: seq<string>, q: VaultQr)
    requires Reads(fields, q)
    ensures fields != [] && forall p :: p in fields ==> '|' !in p
  {
    hide ReadsHex, ParseU32;
    if !IsCode(q) {
      ReadsHexPlain(fields[0], if q.Session? then q.msg else q.pk);
      match q
      case Nonce(_, pubnonce) => ReadsHexPlain(fields[1], pubnonce);
      case Session(_, _, aggnonce) => ParsePlain(fields[1]); ReadsHexPlain(fields[2], aggnonce);
      case Psig(_, psig) => ReadsHexPlain(fields[1], psig);
      case Ecdh(_, share) => ReadsHexPlain(fields[1], share);
    }
  }

  lemma DecodeReads(kind: string, fields: seq<string>, q: VaultQr)
    requires fields != [] && forall p :: p in fields ==> '|' !in p
    ensures DecodeParts([PROTOCOL, kind] + fields) == Ok(q) <==> kind == Kind(q) && Reads(fields, q)
  {
    hide ReadsHex, ParseU32, FixedHex, Hex.Decode;
    if |fields| == 2 && (q.Nonce? || q.Psig? || q.Ecdh?) {
      FixedHexIs(fields[0], q.pk);
      FixedHexIs(fields[1], if q.Nonce? then q.pubnonce else if q.Psig? then q.psig else q.share);
    }
    if |fields| == 3 && q.Session? {
      FixedHexIs(fields[0], q.msg);
      FixedHexIs(fields[2], q.aggnonce);
    }
  }

  lemma {:induction false} JoinSplit(s: string)
    ensures Join(Split(s, '|')) == s
  {
    if s != [] {
      var rest := Split(s[1..], '|');
      JoinSplit(s[1..]);
      if s[0] == '|' {
        assert ([[]] + rest)[1..] == rest;
      } else {
        var parts := [[s[0]] + rest[0]] + rest[1..];
        assert parts[1..] == rest[1..];
        assert |rest| > 1 ==> Join(parts) == [s[0]] + rest[0] + ['|'] + Join(rest[1..]);
      }
    }
  }

  /**
   * What is accepted, for all texts: the trimmed text is the protocol name, the kind of the payload
   * and fields that read as its contents, joined by separators.
   */
  lemma DecodeExact(s: string, q: VaultQr)
    ensures Decode(s) == Ok(q)
       <==> exists fields :: fields != [] && Trim(s) == Join([PROTOCOL, Kind(q)] + fields) && Reads(fields, q)
  {
    hide Join, Split, DecodeParts, Reads, Trim, Kind;
    if Decode(s) == Ok(q) {
      var parts := Split(Trim(s), '|');
      JoinSplit(Trim(s));
      AcceptedParts(parts, q);
      var fields := parts[2..];
      assert parts == [PROTOCOL, parts[1]] + fields;
      DecodeReads(parts[1], fields, q);
    }
    if fields :| fields != [] && Trim(s) == Join([PROTOCOL, Kind(q)] + fields) && Reads(fields, q) {
      ReadsPlain(fields, q);
      KindIsPlain(q);
      SplitJoin([PROTOCOL, Kind(q)] + fields);
      DecodeReads(Kind(q), fields, q);
    }
  }

  lemma AcceptedParts(parts: seq<string>, q: VaultQr)
    requires DecodeParts(parts) == Ok(q)
    ensures |parts| >= 3 && parts[0] == PROTOCOL
  {
  }
}
