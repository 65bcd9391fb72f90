// Byte strings, their big-endian value, their lexicographic order, and the bitwise operators
// the repository applies to single bytes.
module Bytes {
  import Zn

  type byte = x: int | 0 <= x < 256
  type bytes = seq<byte>
  type b16 = s: bytes | |s| == 16 witness seq(16, _ => 0)
  type b32 = s: bytes | |s| == 32 witness seq(32, _ => 0)
  type b33 = s: bytes | |s| == 33 witness seq(33, _ => 0)
  type b64 = s: bytes | |s| == 64 witness seq(64, _ => 0)
  type b66 = s: bytes | |s| == 66 witness seq(66, _ => 0)

  function Zeros(len: nat): (z: bytes)
    ensures |z| == len
  {
    seq(len, _ => 0)
  }

  function Pow(b: nat, e: nat): (p: nat)
    ensures b > 0 ==> p > 0
  {
    if e == 0 then 1 else b * Pow(b, e - 1)
  }

  /** d moved up by k byte positions: d times 256 to the k. */
  function Shift(d: nat, k: nat): (r: nat)
    ensures d > 0 ==> r > 0
  {
    if k == 0 then d else 256 * Shift(d, k - 1)
  }

  lemma {:induction false} ShiftAdd(x: nat, y: nat, k: nat)
    ensures Shift(x + y, k) == Shift(x, k) + Shift(y, k)
  {
    if k > 0 { ShiftAdd(x, y, k - 1); }
  }

  lemma {:induction false} ShiftCarry(x: nat, k: nat)
    ensures Shift(256 * x, k) == Shift(x, k + 1)
  {
    if k > 0 { ShiftCarry(x, k - 1); }
  }

  lemma {:induction false} ShiftMono(x: nat, y: nat, k: nat)
    requires x <= y
    ensures Shift(x, k) <= Shift(y, k)
    ensures Shift(0, k) == 0
  {
    if k > 0 { ShiftMono(x, y, k - 1); }
  }

  /** The number a byte string denotes, most significant byte first. */
  function BE(s: bytes): (v: nat) {
    if s == [] then 0 else Shift(s[0], |s| - 1) + BE(s[1..])
  }

  lemma {:induction false} BEBound(s: bytes)
    ensures BE(s) < Shift(1, |s|)
  {
    if s != [] {
      BEBound(s[1..]);
      ShiftMono(0, s[0], |s| - 1);
      ShiftMono(s[0], 255, |s| - 1);
      ShiftAdd(255, 1, |s| - 1);
      ShiftCarry(1, |s| - 1);
    }
  }

  /** A leading digit outweighs everything below it. */
  lemma LeadingDigit(x: nat, y: nat, u: nat, v: nat, k: nat)
    requires u < Shift(1, k) && v < Shift(1, k)
    ensures x < y ==> Shift(x, k) + u < Shift(y, k) + v
    ensures Shift(x, k) + u == Shift(y, k) + v ==> x == y && u == v
  {
    if x < y { ShiftMono(x + 1, y, k); ShiftAdd(x, 1, k); }
    if y < x { ShiftMono(y + 1, x, k); ShiftAdd(y, 1, k); }
  }

  /** Two strings cut at the same place agree in both parts. */
  lemma SplitEqual<T>(x: seq<T>, y: seq<T>, x': seq<T>, y': seq<T>)
    requires |x| == |x'| && x + y == x' + y'
    ensures x == x' && y == y'
  {
    assert (x + y)[..|x|] == x && (x' + y')[..|x|] == x';
    assert (x + y)[|x|..] == y && (x' + y')[|x|..] == y';
  }

  /** The order of Rust slices: the first difference decides, and a proper prefix is smaller. */
  predicate LexLe(a: bytes, b: bytes) {
    if a == [] then true
    else if b == [] then false
    else a[0] < b[0] || (a[0] == b[0] && LexLe(a[1..], b[1..]))
  }

  /** For strings of one length the slice order is the numeric order. */
  lemma {:induction false} LexIsNumeric(a: bytes, b: bytes)
    requires |a| == |b|
    ensures LexLe(a, b) <==> BE(a) <= BE(b)
  {
    if a != [] {
      BEBound(a[1..]);
      BEBound(b[1..]);
      LexIsNumeric(a[1..], b[1..]);
      LeadingDigit(a[0], b[0], BE(a[1..]), BE(b[1..]), |a| - 1);
      LeadingDigit(b[0], a[0], BE(b[1..]), BE(a[1..]), |a| - 1);
    }
  }

  lemma {:induction false} LexTotal(a: bytes, b: bytes)
    ensures LexLe(a, b) || LexLe(b, a)
    ensures LexLe(a, b) && LexLe(b, a) ==> a == b
  {
    if a != [] && b != [] {
      LexTotal(a[1..], b[1..]);
      assert a == [a[0]] + a[1..] && b == [b[0]] + b[1..];
    }
  }

  lemma {:induction false} LexTransitive(a: bytes, b: bytes, c: bytes)
    requires LexLe(a, b) && LexLe(b, c)
    ensures LexLe(a, c)
  {
    if a != [] && a[0] == b[0] == c[0] {
      LexTransitive(a[1..], b[1..], c[1..]);
    }
  }

  /** The `len` low-order bytes of v, most significant first (to_be_bytes). */
  function ToBE(v: nat, len: nat): (s: bytes)
    ensures |s| == len
  {
    if len == 0 then [] else ToBE(v / 256, len - 1) + [v % 256]
  }

  lemma {:induction false} BEAppend(s: bytes, b: byte)
    ensures BE(s + [b]) == BE(s) * 256 + b
  {
    if s == [] {
      assert (s + [b])[1..] == [];
    } else {
      BEAppend(s[1..], b);
      assert (s + [b])[1..] == s[1..] + [b];
    }
  }

  lemma {:induction false} BEToBE(v: nat, len: nat)
    requires v < Shift(1, len)
    ensures BE(ToBE(v, len)) == v
  {
    if len > 0 {
      assert v / 256 < Shift(1, len - 1);
      BEToBE(v / 256, len - 1);
      BEAppend(ToBE(v / 256, len - 1), v % 256);
    }
  }

  lemma ToBEInjective(v: nat, w: nat, len: nat)
    requires v < Shift(1, len) && w < Shift(1, len) && ToBE(v, len) == ToBE(w, len)
    ensures v == w
  {
    BEToBE(v, len);
    BEToBE(w, len);
  }

  /** Strings of one length that denote one number are the same. */
  lemma BEInjective(s: bytes, t: bytes)
    requires |s| == |t| && BE(s) == BE(t)
    ensures s == t
  {
    LexIsNumeric(s, t);
    LexIsNumeric(t, s);
    LexTotal(s, t);
  }

  lemma ToBEOfBE(s: bytes)
    ensures ToBE(BE(s), |s|) == s
  {
    BEBound(s);
    BEToBE(BE(s), |s|);
    BEInjective(ToBE(BE(s), |s|), s);
  }

  /** Bitwise exclusive or, defined bit by bit. */
  function BitXor(a: nat, b: nat): (r: nat) {
    if a == 0 && b == 0 then 0 else (a + b) % 2 + 2 * BitXor(a / 2, b / 2)
  }

  /** Bitwise or, defined bit by bit. */
  function BitOr(a: nat, b: nat): (r: nat) {
    if a == 0 && b == 0 then 0
    else (if a % 2 == 1 || b % 2 == 1 then 1 else 0) + 2 * BitOr(a / 2, b / 2)
  }

  lemma {:induction false} BitXorBound(a: nat, b: nat, k: nat)
    requires a < Pow(2, k) && b < Pow(2, k)
    ensures BitXor(a, b) < Pow(2, k)
  {
    if k > 0 && (a != 0 || b != 0) {
      BitXorBound(a / 2, b / 2, k - 1);
    }
  }

  lemma {:induction false} BitOrBound(a: nat, b: nat, k: nat)
    requires a < Pow(2, k) && b < Pow(2, k)
    ensures BitOr(a, b) < Pow(2, k)
  {
    if k > 0 && (a != 0 || b != 0) {
      BitOrBound(a / 2, b / 2, k - 1);
    }
  }

  lemma TwoToTheEight()
    ensures Pow(2, 8) == 256
  {
    assert Pow(2, 4) == 16;
  }

  function Xor(a: byte, b: byte): (r: byte) {
    TwoToTheEight();
    BitXorBound(a, b, 8);
    BitXor(a, b)
  }

  function Or(a: byte, b: byte): (r: byte) {
    TwoToTheEight();
    BitOrBound(a, b, 8);
    BitOr(a, b)
  }

  lemma BitXorUnfold(a: nat, b: nat)
    ensures BitXor(a, b) == (a + b) % 2 + 2 * BitXor(a / 2, b / 2)
  {
    if a == 0 && b == 0 {
      assert BitXor(0, 0) == 0;
    }
  }

  lemma BitXorParts(a: nat, b: nat)
    ensures BitXor(a, b) % 2 == (a + b) % 2 && BitXor(a, b) / 2 == BitXor(a / 2, b / 2)
  {
    hide BitXor;
    BitXorUnfold(a, b);
    LowBit((a + b) % 2, BitXor(a / 2, b / 2));
  }

  lemma LowBit(low: nat, rest: nat)
    requires low < 2
    ensures (low + 2 * rest) % 2 == low && (low + 2 * rest) / 2 == rest
  {
  }

  lemma ParityCancels(p: nat, a: nat, b: nat)
    requires p % 2 == (a + b) % 2
    ensures (p + b) % 2 == a % 2
  {
  }

  /** Applying one mask twice gives the byte back. */
  lemma {:induction false} BitXorInvolutive(a: nat, b: nat)
    ensures BitXor(BitXor(a, b), b) == a
    decreases a + b
  {
    if a != 0 || b != 0 {
      var y := BitXor(a, b);
      BitXorParts(a, b);
      BitXorInvolutive(a / 2, b / 2);
      BitXorUnfold(y, b);
      ParityCancels(y, a, b);
    } else {
      assert BitXor(0, 0) == 0;
    }
  }

  lemma {:induction false} BitXorCommutes(a: nat, b: nat)
    ensures BitXor(a, b) == BitXor(b, a)
    decreases a + b
  {
    if a != 0 || b != 0 {
      BitXorCommutes(a / 2, b / 2);
    }
  }

  /** Bit k of the exclusive or is the sum modulo 2 of the bits k. */
  lemma {:induction false} BitXorBits(a: nat, b: nat, k: nat)
    ensures BitXor(a, b) / Pow(2, k) % 2 == (a / Pow(2, k) + b / Pow(2, k)) % 2
  {
    BitXorParts(a, b);
    if k > 0 {
      BitXorBits(a / 2, b / 2, k - 1);
      HalveThenShift(a, Pow(2, k - 1));
      HalveThenShift(b, Pow(2, k - 1));
      HalveThenShift(BitXor(a, b), Pow(2, k - 1));
    }
  }

  lemma HalveThenShift(x: nat, p: nat)
    requires p > 0
    ensures x / (2 * p) == x / 2 / p
  {
    var q, r := x / 2 / p, x / 2 % p;
    assert x / 2 == q * p + r && x == 2 * (x / 2) + x % 2;
    assert x == q * (2 * p) + (2 * r + x % 2);
    Zn.QuotientIs(x, 2 * p, q, 2 * r + x % 2);
  }

  lemma {:induction false} BitXorZero(a: nat, b: nat)
    ensures BitXor(a, b) == 0 <==> a == b
    decreases a + b
  {
    if a != 0 || b != 0 {
      BitXorZero(a / 2, b / 2);
    }
  }

  lemma {:induction false} BitOrZero(a: nat, b: nat)
    ensures BitOr(a, b) == 0 <==> a == 0 && b == 0
    decreases a + b
  {
    if a != 0 || b != 0 {
      BitOrZero(a / 2, b / 2);
    }
  }
}
