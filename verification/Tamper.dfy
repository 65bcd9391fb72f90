// What the tag of a credential envelope covers, and what the keystream is made of.
module Tamper {
  import opened Wrappers
  import opened Bytes
  import opened Curve
  import opened Text
  import opened Cred
  import Hex

  ghost predicate Collision(c: Crypto, u: bytes, v: bytes) {
    u != v && c.sha256(u) == c.sha256(v)
  }

  // ---- HMAC ----

  /** The 64-byte block of a key: the key, or its hash if it is longer, and zeros behind it. */
  ghost predicate IsKeyBlock(c: Crypto, key: bytes, block: bytes) {
    var k := if |key| > 64 then c.sha256(key) else key;
    |block| == 64 && k <= block && forall i :: |k| <= i < 64 ==> block[i] == 0
  }

  ghost predicate IsPad(pad: byte, block: bytes, padded: bytes) {
    |padded| == |block| && forall i :: 0 <= i < |block| ==> Xor(padded[i], pad) == block[i]
  }

  lemma PadIs(pad: byte, block: bytes, padded: bytes)
    requires IsPad(pad, block, padded)
    ensures padded == XorWith(pad, block)
  {
    forall i | 0 <= i < |block|
      ensures padded[i] == Xor(pad, block[i])
    {
      BitXorInvolutive(padded[i], pad);
      BitXorCommutes(pad, block[i]);
      assert Xor(padded[i], pad) == block[i];
    }
  }

  lemma KeyBlockIs(c: Crypto, key: bytes, block: bytes)
    requires IsKeyBlock(c, key, block)
    ensures block == KeyBlock(c, key)
  {
  }

  /** RFC 2104: the outer pad hashed with the hash of the inner pad and the data. */
  lemma HmacIsRfc2104(c: Crypto, key: bytes, data: bytes, block: bytes, inner: bytes, outer: bytes)
    requires IsKeyBlock(c, key, block) && IsPad(0x36, block, inner) && IsPad(0x5c, block, outer)
    ensures HmacSha256(c, key, data) == c.sha256(outer + c.sha256(inner + data))
  {
    KeyBlockIs(c, key, block);
    PadIs(0x36, block, inner);
    PadIs(0x5c, block, outer);
    hide KeyBlock, XorWith, IsPad, IsKeyBlock;
  }

  lemma XorWithInjective(pad: byte, k: bytes, k': bytes)
    requires XorWith(pad, k) == XorWith(pad, k')
    ensures k == k'
  {
    assert |XorWith(pad, k)| == |k| && |XorWith(pad, k')| == |k'|;
    forall i | 0 <= i < |k|
      ensures k[i] == k'[i]
    {
      assert XorWith(pad, k)[i] == XorWith(pad, k')[i];
      BitXorCommutes(pad, k[i]);
      BitXorCommutes(pad, k'[i]);
      BitXorInvolutive(k[i], pad);
      BitXorInvolutive(k'[i], pad);
    }
  }

  lemma KeyBlockInjective(c: Crypto, key: b32, key': b32)
    requires KeyBlock(c, key) == KeyBlock(c, key')
    ensures key == key'
  {
    assert KeyBlock(c, key)[..32] == key && KeyBlock(c, key')[..32] == key';
  }

  /** Two codes agree only if key and data do, or SHA-256 collides. */
  lemma HmacBinds(c: Crypto, key: b32, key': b32, data: bytes, data': bytes) returns (u: bytes, v: bytes)
    requires HmacSha256(c, key, data) == HmacSha256(c, key', data')
    ensures (key == key' && data == data') || Collision(c, u, v)
  {
    var o, o' := XorWith(0x5c, KeyBlock(c, key)), XorWith(0x5c, KeyBlock(c, key'));
    var i, i' := XorWith(0x36, KeyBlock(c, key)), XorWith(0x36, KeyBlock(c, key'));
    u, v := o + c.sha256(i + data), o' + c.sha256(i' + data');
    hide KeyBlock, XorWith;
    if u == v {
      SplitEqual(o, c.sha256(i + data), o', c.sha256(i' + data'));
      XorWithInjective(0x5c, KeyBlock(c, key), KeyBlock(c, key'));
      KeyBlockInjective(c, key, key');
      u, v := i + data, i' + data';
      if u == v {
        SplitEqual(i, data, i', data');
      }
    }
  }

  // ---- The tag ----

  /** A tag belongs to one key, one nonce and one ciphertext, unless SHA-256 collides. */
  lemma TagBinds(c: Crypto, key: b32, key': b32, nonce: b16, nonce': b16, ct: bytes, ct': bytes) returns (u: bytes, v: bytes)
    requires Tag(c, key, nonce, ct) == Tag(c, key', nonce', ct')
    ensures (key == key' && nonce == nonce' && ct == ct') || Collision(c, u, v)
  {
    hide HmacSha256;
    u, v := HmacBinds(c, key, key', nonce + ct, nonce' + ct');
    if nonce + ct == nonce' + ct' {
      SplitEqual(nonce, ct, nonce', ct');
    }
  }

  /** The tag as it stands in an envelope. */
  function TagText(envelope: string): string {
    var parts := SplitN(envelope, 4, ':');
    if |parts| == 4 then parts[3] else ""
  }

  lemma AcceptedParts(c: Crypto, key: b32, envelope: string, p: bytes) returns (nonce: b16, ct: bytes)
    requires Unprotect(c, key, envelope) == Some(p)
    ensures Hex.Lower(envelope) == Envelope("v1", Hex.Encode(nonce), Hex.Encode(ct), Hex.Encode(Tag(c, key, nonce, ct)))
    ensures Hex.Decode(TagText(envelope)) == Some(Tag(c, key, nonce, ct)) && p == XorStream(c, key, nonce, ct)
  {
    hide XorStream, ValidUtf8, Tag, Hex.Lower, Hex.Encode, Hex.Decode, SplitN, Envelope;
    var parts := SplitN(envelope, 4, ':');
    nonce, ct := Hex.Decode(parts[1]).value, Hex.Decode(parts[2]).value;
    assert parts == ["v1", parts[1], parts[2], parts[3]];
    SplitIsJoin(envelope, "v1", parts[1], parts[2], parts[3]);
    Hex.DecodeIsEncode(parts[1], nonce);
    Hex.DecodeIsEncode(parts[2], ct);
    Hex.DecodeIsEncode(parts[3], Tag(c, key, nonce, ct));
    LowerEnvelope("v1", parts[1], parts[2], parts[3]);
    LowerOfVersion();
  }

  /**
   * Two accepted envelopes that carry one tag are the same up to letter case, with one key and one
   * plaintext, unless SHA-256 collides: whoever alters the nonce or the ciphertext of an envelope and keeps
   * its tag, or opens it with another key, gets nothing.
   */
  lemma AlteredEnvelopeRefused(c: Crypto, key: b32, key': b32, envelope: string, envelope': string, p: bytes, p': bytes)
    returns (u: bytes, v: bytes)
    requires Unprotect(c, key, envelope) == Some(p) && Unprotect(c, key', envelope') == Some(p')
    requires Hex.Lower(TagText(envelope)) == Hex.Lower(TagText(envelope'))
    ensures (key == key' && p == p' && Hex.Lower(envelope) == Hex.Lower(envelope')) || Collision(c, u, v)
  {
    hide XorStream, Tag, Unprotect, Hex.Lower, Hex.Encode, Hex.Decode, TagText, Envelope;
    var nonce, ct := AcceptedParts(c, key, envelope, p);
    var nonce', ct' := AcceptedParts(c, key', envelope', p');
    Hex.DecodeIsEncode(TagText(envelope), Tag(c, key, nonce, ct));
    Hex.DecodeIsEncode(TagText(envelope'), Tag(c, key, nonce, ct));
    u, v := TagBinds(c, key, key', nonce, nonce', ct, ct');
  }

  /** The envelope: version, nonce, ciphertext and its tag in hexadecimal, with colons between them. */
  lemma ProtectText(c: Crypto, key: b32, nonce: b16, p: bytes, ct: bytes)
    requires ct == XorStream(c, key, nonce, p)
    ensures Protect(c, key, nonce, p)
         == "v1:" + Hex.Encode(nonce) + ":" + Hex.Encode(ct) + ":" + Hex.Encode(HmacSha256(c, key, nonce + ct))
  {
    hide Hex.Encode, HmacSha256, XorStream;
    JoinedText(Hex.Encode(nonce), Hex.Encode(ct), Hex.Encode(HmacSha256(c, key, nonce + ct)));
  }

  lemma JoinedText(n: string, ct: string, t: string)
    ensures Envelope("v1", n, ct, t) == "v1:" + n + ":" + ct + ":" + t
  {
    assert "v1" + [':'] == "v1:";
  }

  // ---- The keystream ----

  /** Counter mode: byte i of the text is masked with byte i mod 32 of the HMAC of the nonce and the 32-bit
      counter i / 32. */
  lemma KeystreamIsCounterMode(c: Crypto, key: b32, nonce: b16, data: bytes, i: nat, block: bytes)
    requires i < |data| && |block| == 20 && block[..16] == nonce && BE(block[16..]) == i / 32 % 0x1_0000_0000
    ensures Xor(XorStream(c, key, nonce, data)[i], data[i]) == HmacSha256(c, key, block)[i % 32]
  {
    hide HmacSha256, BE, ToBE, Xor;
    ToBEOfBE(block[16..]);
    assert block == nonce + block[16..];
    XorMask(data[i], HmacSha256(c, key, block)[i % 32]);
  }

  lemma XorMask(x: byte, mask: byte)
    ensures Xor(Xor(x, mask), x) == mask
  {
    BitXorCommutes(x, mask);
    BitXorInvolutive(mask, x);
  }

  /** Two blocks of keystream agree only if key, nonce and counter do, or SHA-256 collides. */
  lemma BlocksDiffer(c: Crypto, key: b32, key': b32, nonce: b16, nonce': b16, counter: nat, counter': nat)
    returns (u: bytes, v: bytes)
    requires counter < BLOCKS && counter' < BLOCKS
    requires KeystreamBlock(c, key, nonce, counter) == KeystreamBlock(c, key', nonce', counter')
    ensures (key == key' && nonce == nonce' && counter == counter') || Collision(c, u, v)
  {
    hide HmacSha256, ToBE;
    u, v := HmacBinds(c, key, key', nonce + ToBE(counter, 4), nonce' + ToBE(counter', 4));
    if nonce + ToBE(counter, 4) == nonce' + ToBE(counter', 4) {
      SplitEqual(nonce, ToBE(counter, 4), nonce', ToBE(counter', 4));
      assert Shift(1, 4) == BLOCKS;
      ToBEInjective(counter, counter', 4);
    }
  }
}
