// Hexadecimal text: printed in lower case, read in either case.
module Hex {
  import opened Wrappers
  import opened Bytes

  const DIGITS: string := "0123456789abcdef"

  function HexChar(v: nat): char
    requires v < 16
  {
    DIGITS[v]
  }

  function HexValue(ch: char): (r: Option<nat>)
    ensures r.Some? ==> r.value < 16
  {
    if '0' <= ch <= '9' then Some(ch as int - '0' as int)
    else if 'a' <= ch <= 'f' then Some(ch as int - 'a' as int + 10)
    else if 'A' <= ch <= 'F' then Some(ch as int - 'A' as int + 10)
    else None
  }

  /** hex::encode. */
  function Encode(b: bytes): (s: string)
    ensures |s| == 2 * |b|
  {
    if b == [] then [] else [HexChar(b[0] / 16), HexChar(b[0] % 16)] + Encode(b[1..])
  }

  /** hex::decode, which refuses an odd number of digits and anything that is no digit. */
  function Decode(s: string): (r: Option<bytes>) {
    if s == [] then Some([])
    else if |s| == 1 then None
    else
      var (high, low, rest) := (HexValue(s[0]), HexValue(s[1]), Decode(s[2..]));
      if high.None? || low.None? || rest.None? then None
      else Some([high.value * 16 + low.value] + rest.value)
  }

  function LowerChar(ch: char): char {
    if 'A' <= ch <= 'F' then ch - 'A' + 'a' else ch
  }

  /** The letters A to F in lower case. */
  function Lower(s: string): (r: string)
    ensures |r| == |s|
  {
    seq(|s|, i requires 0 <= i < |s| => LowerChar(s[i]))
  }

  /** The digits are 0 to 9 and a to f, in this order. */
  lemma HexCharIs(v: nat)
    requires v < 16
    ensures HexChar(v) == if v < 10 then ('0' as int + v) as char else ('a' as int + (v - 10)) as char
  {
  }

  /** The two characters of byte i are its high and its low half. */
  lemma {:induction false} EncodeLayout(b: bytes, i: nat)
    requires i < |b|
    ensures Encode(b)[2 * i] == HexChar(b[i] / 16) && Encode(b)[2 * i + 1] == HexChar(b[i] % 16)
  {
    if i > 0 { EncodeLayout(b[1..], i - 1); }
  }

  lemma HexCharValue(v: nat)
    requires v < 16
    ensures HexValue(HexChar(v)) == Some(v) && LowerChar(HexChar(v)) == HexChar(v)
  {
  }

  lemma HexValueChar(ch: char, v: nat)
    requires v < 16
    ensures HexValue(ch) == Some(v) <==> LowerChar(ch) == HexChar(v)
  {
    HexCharValue(v);
    if LowerChar(ch) == HexChar(v) {
      assert HexValue(LowerChar(ch)) == HexValue(ch);
    }
  }

  lemma LowerParts(s: string, t: string)
    ensures Lower(s + t) == Lower(s) + Lower(t)
  {
  }

  lemma PairDigits(x: byte, high: nat, low: nat)
    requires high < 16 && low < 16
    ensures high * 16 + low == x <==> high == x / 16 && low == x % 16
  {
  }

  lemma DecodeLength(s: string)
    ensures Decode(s).Some? ==> |s| == 2 * |Decode(s).value|
  {
  }

  /** A text is read as b exactly when it is what is printed for b, up to the case of its letters. */
  lemma {:induction false} DecodeIsEncode(s: string, b: bytes)
    ensures Decode(s) == Some(b) <==> Lower(s) == Encode(b)
    decreases |s|
  {
    hide HexChar, LowerChar, HexValue;
    DecodeLength(s);
    if |s| >= 2 && b != [] {
      DecodeIsEncode(s[2..], b[1..]);
      assert s == s[..2] + s[2..];
      LowerParts(s[..2], s[2..]);
      assert Lower(s[..2]) == [LowerChar(s[0]), LowerChar(s[1])];
      HexValueChar(s[0], b[0] / 16);
      HexValueChar(s[1], b[0] % 16);
      EncodeHead(b);
      DecodeHead(s, b);
      ConcatEqual([LowerChar(s[0]), LowerChar(s[1])], Lower(s[2..]),
                  [HexChar(b[0] / 16), HexChar(b[0] % 16)], Encode(b[1..]));
    } else {
      assert Encode(b) == [] <==> b == [];
    }
  }

  lemma ConcatEqual(a: string, b: string, x: string, y: string)
    requires |a| == |x|
    ensures a + b == x + y <==> a == x && b == y
  {
    assert a == (a + b)[..|a|] && b == (a + b)[|a|..];
    assert x == (x + y)[..|x|] && y == (x + y)[|x|..];
  }

  lemma EncodeHead(b: bytes)
    requires b != []
    ensures Encode(b) == [HexChar(b[0] / 16), HexChar(b[0] % 16)] + Encode(b[1..])
  {
  }

  lemma DecodeHead(s: string, b: bytes)
    requires |s| >= 2 && b != []
    ensures Decode(s) == Some(b) <==>
      HexValue(s[0]) == Some(b[0] / 16) && HexValue(s[1]) == Some(b[0] % 16) && Decode(s[2..]) == Some(b[1..])
  {
    hide HexValue;
    assert b == [b[0]] + b[1..];
    if HexValue(s[0]).Some? && HexValue(s[1]).Some? {
      PairDigits(b[0], HexValue(s[0]).value, HexValue(s[1]).value);
    }
  }

  lemma {:induction false} EncodeIsLower(b: bytes)
    ensures Lower(Encode(b)) == Encode(b)
    ensures forall ch :: ch in Encode(b) ==> ch in DIGITS
  {
    if b != [] {
      EncodeIsLower(b[1..]);
      HexCharValue(b[0] / 16);
      HexCharValue(b[0] % 16);
      LowerParts([HexChar(b[0] / 16), HexChar(b[0] % 16)], Encode(b[1..]));
    }
  }

  /** Reading undoes printing. */
  lemma DecodeEncode(b: bytes)
    ensures Decode(Encode(b)) == Some(b)
  {
    EncodeIsLower(b);
    DecodeIsEncode(Encode(b), b);
  }

  lemma LowerOfParts(s: string, x: string, y: string)
    requires Lower(s) == x + y
    ensures Lower(s[..|x|]) == x && Lower(s[|x|..]) == y
  {
    assert s == s[..|x|] + s[|x|..];
    LowerParts(s[..|x|], s[|x|..]);
    assert x == (x + y)[..|x|] && y == (x + y)[|x|..];
  }
}
