// The credential envelope: a counter-mode keystream over HMAC-SHA256, a tag over the ciphertext,
// and the text "v1:nonce:ciphertext:tag" that carries them.
module Cred {
  import opened Wrappers
  import opened Bytes
  import opened Curve
  import opened Text
  import Hex

  // ---- HMAC-SHA256 ----

  function XorWith(pad: byte, k: bytes): (r: bytes)
    ensures |r| == |k|
  {
    seq(|k|, i requires 0 <= i < |k| => Xor(pad, k[i]))
  }

  /** The key as one 64-byte block: hashed if it is longer, then filled up with zeros. */
  function KeyBlock(c: Crypto, key: bytes): b64 {
    var k := if |key| > 64 then c.sha256(key) else key;
    k + Zeros(64 - |k|)
  }

  /** HMAC of RFC 2104 over SHA-256. */
  function HmacSha256(c: Crypto, key: bytes, data: bytes): b32 {
    c.sha256(XorWith(0x5c, KeyBlock(c, key)) + c.sha256(XorWith(0x36, KeyBlock(c, key)) + data))
  }

  method ComputeHmac(c: Crypto, key: bytes, data: bytes) returns (mac: b32)
    ensures mac == HmacSha256(c, key, data)
  {
    hide Xor;
    var k := new byte[64](_ => 0);
    var source := if |key| > 64 then c.sha256(key) else key;
    forall i | 0 <= i < |source| {
      k[i] := source[i];
    }
    ghost var block := k[..];
    assert block == KeyBlock(c, key);
    var ipad := new byte[64](_ => 0x36);
    var opad := new byte[64](_ => 0x5c);
    for i := 0 to 64
      invariant k[..] == block
      invariant forall j :: 0 <= j < i ==> ipad[j] == Xor(0x36, block[j]) && opad[j] == Xor(0x5c, block[j])
      invariant forall j :: i <= j < 64 ==> ipad[j] == 0x36 && opad[j] == 0x5c
    {
      ipad[i] := Xor(ipad[i], k[i]);
      opad[i] := Xor(opad[i], k[i]);
    }
    assert ipad[..] == XorWith(0x36, block) && opad[..] == XorWith(0x5c, block);
    var inner := c.sha256(ipad[..] + data);
    mac := c.sha256(opad[..] + inner);
  }

  // ---- The keystream ----

  const BLOCKS: nat := 0x1_0000_0000

  function KeystreamBlock(c: Crypto, key: b32, nonce: b16, counter: nat): b32 {
    HmacSha256(c, key, nonce + ToBE(counter, 4))
  }

  /** The keystream byte at position i; the block counter has 32 bits and starts over when they are used up. */
  function Keystream(c: Crypto, key: b32, nonce: b16, i: nat): byte {
    KeystreamBlock(c, key, nonce, i / 32 % BLOCKS)[i % 32]
  }

  function XorStream(c: Crypto, key: b32, nonce: b16, data: bytes): (r: bytes)
    ensures |r| == |data|
  {
    seq(|data|, i requires 0 <= i < |data| => Xor(data[i], Keystream(c, key, nonce, i)))
  }

  lemma PositionInChunk(chunk: nat, j: nat)
    requires j < 32
    ensures (chunk * 32 + j) / 32 == chunk && (chunk * 32 + j) % 32 == j
  {
  }

  method ApplyKeystream(c: Crypto, key: b32, nonce: b16, data: bytes) returns (r: bytes)
    ensures r == XorStream(c, key, nonce, data)
  {
    hide Xor, KeystreamBlock;
    var out := new byte[|data|](i requires 0 <= i < |data| => data[i]);
    var chunk := 0;
    while chunk * 32 < |data|
      invariant forall i :: 0 <= i < |data| && i < chunk * 32 ==> out[i] == Xor(data[i], Keystream(c, key, nonce, i))
      invariant forall i :: chunk * 32 <= i < |data| ==> out[i] == data[i]
      decreases |data| - chunk * 32
    {
      var ks := KeystreamBlock(c, key, nonce, chunk % BLOCKS);
      var start := chunk * 32;
      var len := if |data| - start < 32 then |data| - start else 32;
      for j := 0 to len
        invariant forall i :: 0 <= i < start + j ==> out[i] == Xor(data[i], Keystream(c, key, nonce, i))
        invariant forall i :: start + j <= i < |data| ==> out[i] == data[i]
      {
        PositionInChunk(chunk, j);
        out[start + j] := Xor(out[start + j], ks[j]);
      }
      chunk := chunk + 1;
    }
    r := out[..];
  }

  /** Decrypting is encrypting again. */
  lemma XorStreamTwice(c: Crypto, key: b32, nonce: b16, data: bytes)
    ensures XorStream(c, key, nonce, XorStream(c, key, nonce, data)) == data
  {
    hide Keystream;
    forall i | 0 <= i < |data|
      ensures Xor(Xor(data[i], Keystream(c, key, nonce, i)), Keystream(c, key, nonce, i)) == data[i]
    {
      BitXorInvolutive(data[i], Keystream(c, key, nonce, i));
    }
  }

  // ---- The tag ----

  function Tag(c: Crypto, key: b32, nonce: b16, ct: bytes): b32 {
    HmacSha256(c, key, nonce + ct)
  }

  /** ct_eq: the differences of all positions are accumulated before the result is looked at. */
  method ConstantTimeEquals(a: b32, b: bytes) returns (r: bool)
    ensures r <==> a == b
  {
    hide Xor, Or;
    if |b| != 32 {
      return false;
    }
    var diff: byte := 0;
    for i := 0 to 32
      invariant diff == 0 <==> forall j :: 0 <= j < i ==> a[j] == b[j]
    {
      DifferenceIsKept(diff, a[i], b[i]);
      diff := Or(diff, Xor(a[i], b[i]));
    }
    r := diff == 0;
  }

  lemma DifferenceIsKept(diff: byte, x: byte, y: byte)
    ensures Or(diff, Xor(x, y)) == 0 <==> diff == 0 && x == y
  {
    BitXorZero(x, y);
    BitOrZero(diff, Xor(x, y));
  }

  // ---- The envelope ----

  function Envelope(a: string, n: string, ct: string, t: string): string {
    a + [':'] + (n + [':'] + (ct + [':'] + t))
  }

  /** protect. */
  function Protect(c: Crypto, key: b32, nonce: b16, plaintext: bytes): string {
    var ct := XorStream(c, key, nonce, plaintext);
    Envelope("v1", Hex.Encode(nonce), Hex.Encode(ct), Hex.Encode(Tag(c, key, nonce, ct)))
  }

  predicate Continues(b: byte) {
    0x80 <= b <= 0xBF
  }

  /** Whether String::from_utf8 accepts the bytes. */
  predicate ValidUtf8(s: bytes) {
    if s == [] then true
    else if s[0] < 0x80 then ValidUtf8(s[1..])
    else if 0xC2 <= s[0] <= 0xDF then |s| >= 2 && Continues(s[1]) && ValidUtf8(s[2..])
    else if 0xE0 <= s[0] <= 0xEF then
      && |s| >= 3 && Continues(s[1]) && Continues(s[2])
      && (s[0] == 0xE0 ==> s[1] >= 0xA0) && (s[0] == 0xED ==> s[1] <= 0x9F)
      && ValidUtf8(s[3..])
    else
      && 0xF0 <= s[0] <= 0xF4
      && |s| >= 4 && Continues(s[1]) && Continues(s[2]) && Continues(s[3])
      && (s[0] == 0xF0 ==> s[1] >= 0x90) && (s[0] == 0xF4 ==> s[1] <= 0x8F)
      && ValidUtf8(s[4..])
  }

  /** unprotect; the text it returns is given by its UTF-8 bytes. */
  function Unprotect(c: Crypto, key: b32, envelope: string): Option<bytes> {
    var parts := SplitN(envelope, 4, ':');
    if |parts| != 4 || parts[0] != "v1" then None
    else
      match (Hex.Decode(parts[1]), Hex.Decode(parts[2]), Hex.Decode(parts[3]))
      case (Some(nonce), Some(ct), Some(t)) => Open(c, key, nonce, ct, t)
      case (_, _, _) => None
  }

  function Open(c: Crypto, key: b32, nonce: bytes, ct: bytes, t: bytes): Option<bytes> {
    if |nonce| != 16 || |t| != 32 || Tag(c, key, nonce, ct) != t then None
    else
      var text := XorStream(c, key, nonce, ct);
      if ValidUtf8(text) then Some(text) else None
  }

  /** A text splits into four given parts exactly when it is those parts joined. */
  lemma SplitIsJoin(s: string, a: string, n: string, ct: string, t: string)
    ensures SplitN(s, 4, ':') == [a, n, ct, t]
       <==> s == Envelope(a, n, ct, t) && ':' !in a && ':' !in n && ':' !in ct
  {
    if s == Envelope(a, n, ct, t) && ':' !in a && ':' !in n && ':' !in ct {
      SplitNAt(a, ':', n + [':'] + (ct + [':'] + t), 4);
      SplitNAt(n, ':', ct + [':'] + t, 3);
      SplitNAt(ct, ':', t, 2);
    }
    if SplitN(s, 4, ':') == [a, n, ct, t] {
      SplitJoins(s, a, n, ct, t);
    }
  }

  lemma SplitJoins(s: string, a: string, n: string, ct: string, t: string)
    requires SplitN(s, 4, ':') == [a, n, ct, t]
    ensures s == Envelope(a, n, ct, t) && ':' !in a && ':' !in n && ':' !in ct
  {
    var s1 := OneSplit(s, 4, a, [n, ct, t]);
    var s2 := OneSplit(s1, 3, n, [ct, t]);
    var s3 := OneSplit(s2, 2, ct, [t]);
  }

  lemma OneSplit(s: string, n: nat, head: string, tail: seq<string>) returns (rest: string)
    requires n >= 2 && SplitN(s, n, ':') == [head] + tail && tail != []
    ensures s == head + [':'] + rest && ':' !in head && SplitN(rest, n - 1, ':') == tail
    ensures n == 2 ==> tail == [rest]
  {
    var parts := SplitN(s, n, ':');
    var k := |Before(s, ':')|;
    assert |parts| >= 2;
    rest := s[k + 1..];
    assert parts[0] == head && parts[1..] == tail;
    assert s == s[..k] + [s[k]] + rest;
  }

  // ---- Upper and lower case ----

  lemma LowerColon(s: string)
    ensures ':' in Hex.Lower(s) <==> ':' in s
  {
    forall i | 0 <= i < |s|
      ensures Hex.Lower(s)[i] == ':' <==> s[i] == ':'
    {
    }
  }

  lemma LowerVersion(s: string)
    requires Hex.Lower(s) == "v1"
    ensures s == "v1"
  {
    assert Hex.Lower(s)[0] == 'v' && Hex.Lower(s)[1] == '1';
  }

  lemma LowerJoin(x: string, y: string)
    ensures Hex.Lower(x + [':'] + y) == Hex.Lower(x) + [':'] + Hex.Lower(y)
  {
    Hex.LowerParts(x + [':'], y);
    Hex.LowerParts(x, [':']);
    assert Hex.Lower([':']) == [':'];
  }

  lemma LowerEnvelope(a: string, n: string, ct: string, t: string)
    ensures Hex.Lower(Envelope(a, n, ct, t)) == Envelope(Hex.Lower(a), Hex.Lower(n), Hex.Lower(ct), Hex.Lower(t))
  {
    hide Hex.Lower;
    LowerJoin(a, n + [':'] + (ct + [':'] + t));
    LowerJoin(n, ct + [':'] + t);
    LowerJoin(ct, t);
  }

  /** A join in lower case comes from a join. */
  lemma UnlowerJoin(s: string, x: string, y: string) returns (u: string, v: string)
    requires Hex.Lower(s) == x + [':'] + y
    ensures s == u + [':'] + v && Hex.Lower(u) == x && Hex.Lower(v) == y
  {
    u := s[..|x|];
    v := s[|x| + 1..];
    assert x + [':'] + y == x + ([':'] + y);
    Hex.LowerOfParts(s, x, [':'] + y);
    assert (x + [':'] + y)[|x|] == ':' && Hex.Lower(s)[|x|] == ':';
    assert s == u + [s[|x|]] + v;
    LowerJoin(u, v);
    assert y == (x + [':'] + y)[|x| + 1..] && Hex.Lower(v) == (x + [':'] + Hex.Lower(v))[|x| + 1..];
  }

  /** What prints as an envelope up to letter case splits into parts that print as its parts. */
  lemma UnlowerEnvelope(s: string, n: string, ct: string, t: string)
    returns (n': string, ct': string, t': string)
    requires Hex.Lower(s) == Envelope("v1", n, ct, t) && ':' !in n && ':' !in ct
    ensures SplitN(s, 4, ':') == ["v1", n', ct', t']
    ensures Hex.Lower(n') == n && Hex.Lower(ct') == ct && Hex.Lower(t') == t
  {
    hide Hex.Lower, SplitN;
    var a, rest := UnlowerJoin(s, "v1", n + [':'] + (ct + [':'] + t));
    var rest';
    n', rest' := UnlowerJoin(rest, n, ct + [':'] + t);
    ct', t' := UnlowerJoin(rest', ct, t);
    LowerVersion(a);
    LowerColon(n');
    LowerColon(ct');
    SplitIsJoin(s, "v1", n', ct', t');
  }

  lemma NoColon(b: bytes)
    ensures ':' !in Hex.Encode(b)
  {
    hide Hex.Encode;
    Hex.EncodeIsLower(b);
  }

  // ---- What is accepted ----

  lemma UnprotectParts(c: Crypto, key: b32, envelope: string, n: string, ct: string, t: string)
    requires SplitN(envelope, 4, ':') == ["v1", n, ct, t]
    ensures Unprotect(c, key, envelope)
         == match (Hex.Decode(n), Hex.Decode(ct), Hex.Decode(t))
            case (Some(nonce), Some(data), Some(mac)) => Open(c, key, nonce, data, mac)
            case (_, _, _) => None
  {
    hide Hex.Decode, Open, SplitN;
  }

  lemma OpenIs(c: Crypto, key: b32, nonce: bytes, ct: bytes, t: bytes, p: bytes)
    ensures Open(c, key, nonce, ct, t) == Some(p)
       <==> |nonce| == 16 && ValidUtf8(p) && ct == XorStream(c, key, nonce, p) && t == Tag(c, key, nonce, ct)
  {
    hide XorStream, ValidUtf8, Tag;
    if |nonce| == 16 {
      XorStreamTwice(c, key, nonce, ct);
      XorStreamTwice(c, key, nonce, p);
    }
  }

  /** Unprotecting what was protected gives it back. */
  lemma AcceptsProtected(c: Crypto, key: b32, envelope: string, nonce: b16, p: bytes)
    requires Hex.Lower(envelope) == Protect(c, key, nonce, p) && ValidUtf8(p)
    ensures Unprotect(c, key, envelope) == Some(p)
  {
    hide XorStream, ValidUtf8, Tag, Open, Unprotect, Hex.Lower, Hex.Encode, Hex.Decode, SplitN, Envelope;
    var ct := XorStream(c, key, nonce, p);
    var t := Tag(c, key, nonce, ct);
    NoColon(nonce);
    NoColon(ct);
    var n', ct', t' := UnlowerEnvelope(envelope, Hex.Encode(nonce), Hex.Encode(ct), Hex.Encode(t));
    Hex.DecodeIsEncode(n', nonce);
    Hex.DecodeIsEncode(ct', ct);
    Hex.DecodeIsEncode(t', t);
    UnprotectParts(c, key, envelope, n', ct', t');
    OpenIs(c, key, nonce, ct, t, p);
  }

  lemma AcceptedIsProtected(c: Crypto, key: b32, envelope: string, p: bytes) returns (nonce: b16)
    requires Unprotect(c, key, envelope) == Some(p)
    ensures Hex.Lower(envelope) == Protect(c, key, nonce, p) && ValidUtf8(p)
  {
    hide XorStream, ValidUtf8, Tag, Open, Hex.Lower, Hex.Encode, Hex.Decode, SplitN, Envelope;
    var parts := SplitN(envelope, 4, ':');
    var (n, ct, t) := (Hex.Decode(parts[1]).value, Hex.Decode(parts[2]).value, Hex.Decode(parts[3]).value);
    assert parts == ["v1", parts[1], parts[2], parts[3]];
    SplitIsJoin(envelope, "v1", parts[1], parts[2], parts[3]);
    Hex.DecodeIsEncode(parts[1], n);
    Hex.DecodeIsEncode(parts[2], ct);
    Hex.DecodeIsEncode(parts[3], t);
    LowerEnvelope("v1", parts[1], parts[2], parts[3]);
    LowerOfVersion();
    OpenIs(c, key, n, ct, t, p);
    nonce := n;
  }

  lemma LowerOfVersion()
    ensures Hex.Lower("v1") == "v1"
  {
  }

  /**
   * Unprotect accepts exactly the envelopes that protect prints for this key, up to the case of the
   * hexadecimal letters, and returns what was protected.
   */
  lemma EnvelopeExact(c: Crypto, key: b32, envelope: string, p: bytes)
    ensures Unprotect(c, key, envelope) == Some(p)
       <==> ValidUtf8(p) && exists nonce: b16 :: Hex.Lower(envelope) == Protect(c, key, nonce, p)
  {
    hide *;
    if Unprotect(c, key, envelope) == Some(p) {
      var nonce := AcceptedIsProtected(c, key, envelope, p);
    }
    if nonce: b16 :| ValidUtf8(p) && Hex.Lower(envelope) == Protect(c, key, nonce, p) {
      AcceptsProtected(c, key, envelope, nonce, p);
    }
  }

  /** In particular for what protect itself returns, whatever the length of the plaintext. */
  lemma ProtectRoundTrip(c: Crypto, key: b32, nonce: b16, p: bytes)
    ensures Unprotect(c, key, Protect(c, key, nonce, p)) == if ValidUtf8(p) then Some(p) else None
  {
    hide Hex.Encode, Hex.Lower, XorStream, Tag, Unprotect, Envelope, ValidUtf8;
    var ct := XorStream(c, key, nonce, p);
    var t := Tag(c, key, nonce, ct);
    Hex.EncodeIsLower(nonce);
    Hex.EncodeIsLower(ct);
    Hex.EncodeIsLower(t);
    LowerOfVersion();
    LowerEnvelope("v1", Hex.Encode(nonce), Hex.Encode(ct), Hex.Encode(t));
    var envelope := Protect(c, key, nonce, p);
    if ValidUtf8(p) {
      AcceptsProtected(c, key, envelope, nonce, p);
    } else if Unprotect(c, key, envelope).Some? {
      var q := Unprotect(c, key, envelope).value;
      var nonce' := AcceptedIsProtected(c, key, envelope, q);
      ProtectInjective(c, key, nonce, nonce', p, q);
    }
  }

  /** An envelope determines its nonce and its plaintext. */
  lemma ProtectInjective(c: Crypto, key: b32, nonce: b16, nonce': b16, p: bytes, q: bytes)
    requires Protect(c, key, nonce, p) == Protect(c, key, nonce', q)
    ensures nonce == nonce' && p == q
  {
    hide Hex.Encode, Hex.Decode, XorStream, Tag, SplitN, Envelope;
    var ct, ct' := XorStream(c, key, nonce, p), XorStream(c, key, nonce', q);
    NoColon(nonce);
    NoColon(nonce');
    NoColon(ct);
    NoColon(ct');
    SplitIsJoin(Protect(c, key, nonce, p), "v1", Hex.Encode(nonce), Hex.Encode(ct), Hex.Encode(Tag(c, key, nonce, ct)));
    SplitIsJoin(Protect(c, key, nonce, p), "v1", Hex.Encode(nonce'), Hex.Encode(ct'), Hex.Encode(Tag(c, key, nonce', ct')));
    var parts := SplitN(Protect(c, key, nonce, p), 4, ':');
    assert parts[1] == Hex.Encode(nonce) == Hex.Encode(nonce') && parts[2] == Hex.Encode(ct) == Hex.Encode(ct');
    Hex.DecodeEncode(nonce);
    Hex.DecodeEncode(nonce');
    Hex.DecodeEncode(ct);
    Hex.DecodeEncode(ct');
    XorStreamTwice(c, key, nonce, p);
    XorStreamTwice(c, key, nonce, q);
  }
}
