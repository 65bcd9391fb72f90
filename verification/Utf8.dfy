// UTF-8 as the encoding of characters: which byte strings are the encoding of some text.
module Utf8 {
  import opened Bytes
  import opened Cred
  import Zn

  /** The one to four bytes of a Unicode scalar value. */
  function CharBytes(ch: char): (b: bytes)
    ensures 1 <= |b| <= 4
  {
    var x := ch as int;
    if x < 0x80 then [x]
    else if x < 0x800 then [0xC0 + x / 64, 0x80 + x % 64]
    else if x < 0x10000 then [0xE0 + x / 4096, 0x80 + x / 64 % 64, 0x80 + x % 64]
    else [0xF0 + x / 262144, 0x80 + x / 4096 % 64, 0x80 + x / 64 % 64, 0x80 + x % 64]
  }

  function TextBytes(s: string): bytes {
    if s == [] then [] else CharBytes(s[0]) + TextBytes(s[1..])
  }

  lemma Sextets(x: nat, a: nat, b: nat, d: nat, e: nat)
    requires b < 64 && d < 64 && e < 64 && x == ((a * 64 + b) * 64 + d) * 64 + e
    ensures x % 64 == e && x / 64 % 64 == d && x / 4096 % 64 == b && x / 262144 == a
    ensures x / 4096 == a * 64 + b && x / 64 == (a * 64 + b) * 64 + d
  {
    Quotient(x, 64, (a * 64 + b) * 64 + d, e);
    Quotient(x, 4096, a * 64 + b, d * 64 + e);
    Quotient(x, 262144, a, b * 4096 + d * 64 + e);
    Quotient((a * 64 + b) * 64 + d, 64, a * 64 + b, d);
    Quotient(a * 64 + b, 64, a, b);
  }

  lemma Quotient(x: nat, n: nat, q: nat, r: nat)
    requires n > 0 && x == q * n + r && r < n
    ensures x / n == q && x % n == r
  {
    Zn.QuotientIs(x, n, q, r);
    assert x == n * (x / n) + x % n;
  }

  lemma TwoBytes(w: nat, a: nat) returns (ch: char)
    requires 0xC2 <= w <= 0xDF && 0x80 <= a <= 0xBF
    ensures CharBytes(ch) == [w, a]
  {
    var x := (w - 0xC0) * 64 + (a - 0x80);
    Sextets(x, 0, 0, w - 0xC0, a - 0x80);
    ch := x as char;
  }

  lemma ThreeBytes(w: nat, a: nat, b: nat) returns (ch: char)
    requires 0xE0 <= w <= 0xEF && 0x80 <= a <= 0xBF && 0x80 <= b <= 0xBF
    requires (w == 0xE0 ==> a >= 0xA0) && (w == 0xED ==> a <= 0x9F)
    ensures CharBytes(ch) == [w, a, b]
  {
    var x := ((w - 0xE0) * 64 + (a - 0x80)) * 64 + (b - 0x80);
    Sextets(x, 0, w - 0xE0, a - 0x80, b - 0x80);
    ch := x as char;
  }

  lemma FourBytes(w: nat, a: nat, b: nat, d: nat) returns (ch: char)
    requires 0xF0 <= w <= 0xF4 && 0x80 <= a <= 0xBF && 0x80 <= b <= 0xBF && 0x80 <= d <= 0xBF
    requires (w == 0xF0 ==> a >= 0x90) && (w == 0xF4 ==> a <= 0x8F)
    ensures CharBytes(ch) == [w, a, b, d]
  {
    var x := (((w - 0xF0) * 64 + (a - 0x80)) * 64 + (b - 0x80)) * 64 + (d - 0x80);
    Sextets(x, w - 0xF0, a - 0x80, b - 0x80, d - 0x80);
    ch := x as char;
  }

  lemma OneByte(w: nat) returns (ch: char)
    requires w < 0x80
    ensures CharBytes(ch) == [w]
  {
    ch := w as char;
  }

  /** A character is decoded from the front of valid bytes. */
  lemma FirstChar(s: bytes) returns (ch: char)
    requires s != [] && ValidUtf8(s)
    ensures CharBytes(ch) <= s && ValidUtf8(s[|CharBytes(ch)|..])
  {
    hide CharBytes;
    var w: nat := s[0];
    if w < 0x80 {
      ch := OneByte(w);
    } else if w <= 0xDF {
      ch := TwoBytes(w, s[1]);
    } else if w <= 0xEF {
      ch := ThreeBytes(w, s[1], s[2]);
    } else {
      ch := FourBytes(w, s[1], s[2], s[3]);
    }
  }

  /** The bytes of a character are those of one of the four forms the test knows. */
  lemma CharForm(ch: char)
    ensures var b := CharBytes(ch);
      if |b| == 1 then b[0] < 0x80
      else if |b| == 2 then 0xC2 <= b[0] <= 0xDF && Continues(b[1])
      else if |b| == 3 then
        && 0xE0 <= b[0] <= 0xEF && Continues(b[1]) && Continues(b[2])
        && (b[0] == 0xE0 ==> b[1] >= 0xA0) && (b[0] == 0xED ==> b[1] <= 0x9F)
      else
        && 0xF0 <= b[0] <= 0xF4 && Continues(b[1]) && Continues(b[2]) && Continues(b[3])
        && (b[0] == 0xF0 ==> b[1] >= 0x90) && (b[0] == 0xF4 ==> b[1] <= 0x8F)
  {
  }

  lemma CharIsValid(ch: char, rest: bytes)
    ensures ValidUtf8(CharBytes(ch) + rest) <==> ValidUtf8(rest)
  {
    CharForm(ch);
    hide CharBytes;
    var b := CharBytes(ch);
    var s := b + rest;
    assert s[|b|..] == rest;
    assert forall i :: 0 <= i < |b| ==> s[i] == b[i];
  }

  lemma {:induction false} ValidHasText(b: bytes) returns (s: string)
    requires ValidUtf8(b)
    ensures TextBytes(s) == b
    decreases |b|
  {
    if b == [] {
      s := [];
    } else {
      var ch := FirstChar(b);
      var rest := ValidHasText(b[|CharBytes(ch)|..]);
      s := [ch] + rest;
      assert s[1..] == rest;
    }
  }

  lemma {:induction false} TextIsValid(s: string)
    ensures ValidUtf8(TextBytes(s))
  {
    if s != [] {
      TextIsValid(s[1..]);
      CharIsValid(s[0], TextBytes(s[1..]));
    }
  }

  /** The test for UTF-8 accepts exactly the encodings of texts. */
  lemma ValidMeansText(b: bytes)
    ensures ValidUtf8(b) <==> exists s :: TextBytes(s) == b
  {
    hide *;
    if ValidUtf8(b) {
      var s := ValidHasText(b);
    }
    if s :| TextBytes(s) == b {
      TextIsValid(s);
    }
  }
}
