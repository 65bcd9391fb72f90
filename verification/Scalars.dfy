// The hand-written 256-bit arithmetic modulo the curve order: byte loops with a carry or a
// borrow, each proved to compute the arithmetic it stands for.
module Scalars {
  import opened Bytes
  import opened Zn
  import opened Curve

  /** The order of secp256k1, most significant byte first. */
  const CURVE_ORDER: b32 := [
    0xFF, 0xFF, 0xFF, 0xFF, 0xFF, 0xFF, 0xFF, 0xFF, 0xFF, 0xFF, 0xFF, 0xFF, 0xFF, 0xFF, 0xFF, 0xFE,
    0xBA, 0xAE, 0xDC, 0xE6, 0xAF, 0x48, 0xA0, 0x3B, 0xBF, 0xD2, 0x5E, 0x8C, 0xD0, 0x36, 0x41, 0x41
  ]

  /** The order as SEC 2 gives it: 2^256 minus a number of 129 bits. */
  lemma OrderIs()
    ensures BE(CURVE_ORDER) == 0x1_0000000000000000_0000000000000000_0000000000000000_0000000000000000
                               - 0x1_45512319_50B75FC4_402DA173_2FC9BEBF
  {
    hide *;
    HighWords();
    LowWords();
    FourWords(CURVE_ORDER, 0xFFFFFFFFFFFFFFFF, 0xFFFFFFFFFFFFFFFE, 0xBAAEDCE6AF48A03B, 0xBFD25E8CD0364141);
    Joined();
  }

  lemma Joined()
    ensures ((0xFFFFFFFFFFFFFFFF * 0x1_0000_0000_0000_0000 + 0xFFFFFFFFFFFFFFFE) * 0x1_0000_0000_0000_0000
             + 0xBAAEDCE6AF48A03B) * 0x1_0000_0000_0000_0000 + 0xBFD25E8CD0364141
         == 0x1_0000000000000000_0000000000000000_0000000000000000_0000000000000000
            - 0x1_45512319_50B75FC4_402DA173_2FC9BEBF
  {
  }

  lemma FourWords(s: bytes, x: nat, y: nat, z: nat, w: nat)
    requires |s| == 32 && Word(s, 0) == x && Word(s, 8) == y && Word(s, 16) == z && Word(s, 24) == w
    ensures BE(s) == ((x * 0x1_0000_0000_0000_0000 + y) * 0x1_0000_0000_0000_0000 + z) * 0x1_0000_0000_0000_0000 + w
  {
    assert s[..32] == s && s[..0] == [];
    NoBytes();
    hide *;
    EightBytes(s, 0, x);
    EightBytes(s, 8, y);
    EightBytes(s, 16, z);
    EightBytes(s, 24, w);
  }

  lemma NoBytes()
    ensures BE([]) == 0
  {
  }

  /** The number of the eight bytes from i on. */
  function Word(s: bytes, i: nat): nat
    requires i + 8 <= |s|
  {
    ((((((s[i] as int * 256 + s[i + 1]) * 256 + s[i + 2]) * 256 + s[i + 3]) * 256 + s[i + 4]) * 256
      + s[i + 5]) * 256 + s[i + 6]) * 256 + s[i + 7]
  }

  lemma HighWords()
    ensures Word(CURVE_ORDER, 0) == 0xFFFFFFFFFFFFFFFF && Word(CURVE_ORDER, 8) == 0xFFFFFFFFFFFFFFFE
  {
  }

  lemma LowWords()
    ensures Word(CURVE_ORDER, 16) == 0xBAAEDCE6AF48A03B && Word(CURVE_ORDER, 24) == 0xBFD25E8CD0364141
  {
  }

  /** Eight more bytes of a string. */
  lemma EightBytes(s: bytes, i: nat, w: nat)
    requires i + 8 <= |s|
    requires w == Word(s, i)
    ensures BE(s[..i + 8]) == BE(s[..i]) * 0x1_0000_0000_0000_0000 + w
  {
    hide BE;
    OneByte(s, i);
    OneByte(s, i + 1);
    OneByte(s, i + 2);
    OneByte(s, i + 3);
    OneByte(s, i + 4);
    OneByte(s, i + 5);
    OneByte(s, i + 6);
    OneByte(s, i + 7);
  }

  lemma OneByte(s: bytes, i: nat)
    requires i < |s|
    ensures BE(s[..i + 1]) == BE(s[..i]) * 256 + s[i]
  {
    hide BE;
    assert s[..i + 1] == s[..i] + [s[i]];
    BEAppend(s[..i], s[i]);
  }

  /** All the loops use of the order is that its leading byte is 0xFF. */
  type GroupOrder = n: b32 | n[0] == 0xFF witness CURVE_ORDER

  /** A single subtraction reduces any 32-byte value, because the order exceeds half of 2^256. */
  lemma OrderBounds(n: GroupOrder)
    ensures 0 < BE(n) < Shift(1, |n|) < 2 * BE(n)
  {
    BEBound(n);
    HalfRadix(|n| - 1);
  }

  lemma HalfRadix(k: nat)
    ensures Shift(1, k + 1) < 2 * Shift(255, k)
  {
    var half: nat := 128;
    ShiftAdd(half, half - 1, k);
    ShiftAdd(half, half, k);
    ShiftCarry(1, k);
    assert Shift(half - 1, k) > 0;
  }

  /** The order as a number. */
  ghost function Value(n: GroupOrder): (v: nat)
    ensures v == BE(n) && 0 < v < Shift(1, |n|) < 2 * v
  {
    OrderBounds(n);
    BE(n)
  }

  lemma BETail(s: bytes, i: nat)
    requires i < |s|
    ensures BE(s[i..]) == Shift(s[i], |s| - i - 1) + BE(s[i + 1..])
  {
    assert s[i..][1..] == s[i + 1..];
  }

  /** Three digits in one column against one digit and a carry into the next column. */
  lemma ColumnBalance(x: nat, y: nat, z: nat, w: nat, carry: nat, k: nat)
    requires x + y + z == w + 256 * carry
    ensures Shift(x, k) + Shift(y, k) + Shift(z, k) == Shift(w, k) + Shift(carry, k + 1)
  {
    ShiftAdd(x + y, z, k);
    ShiftAdd(x, y, k);
    ShiftAdd(w, 256 * carry, k);
    ShiftCarry(carry, k);
  }

  /** One column of a long subtraction. */
  lemma SubtractColumn(a: bytes, b: bytes, v: bytes, i: nat, borrow: nat, newBorrow: nat)
    requires |a| == |b| == |v| && i < |a|
    requires BE(v[i + 1..]) == BE(a[i + 1..]) - BE(b[i + 1..]) + Shift(borrow, |a| - i - 1)
    requires v[i] as int + b[i] + borrow == a[i] as int + 256 * newBorrow
    ensures BE(v[i..]) == BE(a[i..]) - BE(b[i..]) + Shift(newBorrow, |a| - i)
  {
    BETail(a, i);
    BETail(b, i);
    BETail(v, i);
    ColumnBalance(v[i], b[i], borrow, a[i], newBorrow, |a| - i - 1);
  }

  /** A long subtraction of a smaller number leaves no borrow. */
  lemma NoBorrowLeft(a: bytes, b: bytes, v: bytes, borrow: nat)
    requires |a| == |b| == |v| && 0 <= borrow <= 1
    requires BE(v) == BE(a) - BE(b) + Shift(borrow, |a|)
    requires BE(a) >= BE(b)
    ensures BE(v) == BE(a) - BE(b)
  {
    hide BE, Shift;
    BEBound(v);
    ShiftMono(0, 0, |a|);
  }

  lemma NoDigits()
    ensures BE([]) == 0 && Shift(0, 0) == 0
  {
  }

  /** Below twice the modulus, reduction is at most one subtraction. */
  lemma ReduceOnce(n: int, a: int)
    requires 0 < n && 0 <= a < 2 * n
    ensures a % n == if a >= n then a - n else a
  {
    if a >= n { ModUnique(n, 1, a - n); } else { RemainderSmall(n, a); }
  }

  method SubN(n: GroupOrder, a: b32) returns (out: b32)
    requires BE(a) >= Value(n)
    ensures BE(out) == BE(a) - Value(n)
  {
    hide BE, Shift;
    var v := new byte[32](_ => 0);
    var borrow := 0;
    assert v[32..] == [] && a[32..] == [] && n[32..] == [];
    NoDigits();
    for i := 32 downto 0
      invariant 0 <= borrow <= 1
      invariant BE(v[i..]) == BE(a[i..]) - BE(n[i..]) + Shift(borrow, |a| - i)
    {
      ghost var tail := v[i + 1..];
      ghost var before: nat := borrow;
      var d := a[i] as int - n[i] - borrow;
      if d < 0 {
        v[i] := d + 256;
        borrow := 1;
      } else {
        v[i] := d;
        borrow := 0;
      }
      assert v[..][i + 1..] == tail && v[..][i..] == v[i..];
      SubtractColumn(a, n, v[..], i, before, borrow);
    }
    out := v[..];
    assert v[0..] == out && a[0..] == a && n[0..] == n;
    NoBorrowLeft(a, n, out, borrow);
  }

  /** A 32-byte string reduced modulo the order. */
  method ScalarFromBytesModN(n: GroupOrder, a: b32) returns (out: b32)
    ensures BE(out) == BE(a) % Value(n)
  {
    OrderBounds(n);
    BEBound(a);
    LexIsNumeric(n, a);
    ReduceOnce(Value(n), BE(a));
    if LexLe(n, a) {
      out := SubN(n, a);
    } else {
      out := a;
    }
  }

  /** One column of a long addition. */
  lemma AddColumn(a: bytes, b: bytes, v: bytes, i: nat, carry: nat, newCarry: nat)
    requires |a| == |b| && |v| == |a| + 1 && i < |a|
    requires BE(v[i + 2..]) + Shift(carry, |a| - i - 1) == BE(a[i + 1..]) + BE(b[i + 1..])
    requires v[i + 1] as int + 256 * newCarry == a[i] as int + b[i] + carry
    ensures BE(v[i + 1..]) + Shift(newCarry, |a| - i) == BE(a[i..]) + BE(b[i..])
  {
    BETail(a, i);
    BETail(b, i);
    BETail(v, i + 1);
    ColumnBalance(a[i], b[i], carry, v[i + 1], newCarry, |a| - i - 1);
  }

  /** The carry loop: a 33-byte sum of two 32-byte numbers. */
  method AddWithCarry(a: b32, b: b32) returns (v: array<byte>)
    ensures fresh(v) && v.Length == 33
    ensures BE(v[..]) == BE(a) + BE(b)
  {
    v := new byte[33](_ => 0);
    var carry := 0;
    for i := 32 downto 0
      invariant 0 <= carry <= 1
      invariant BE(v[i + 1..]) + Shift(carry, |a| - i) == BE(a[i..]) + BE(b[i..])
    {
      ghost var tail := v[i + 2..];
      ghost var before := carry;
      var s := a[i] as int + b[i] + carry;
      v[i + 1] := s % 256;
      carry := s / 256;
      assert v[..][i + 2..] == tail && v[..][i + 1..] == v[i + 1..];
      AddColumn(a, b, v[..], i, before, carry);
    }
    ghost var tail := v[1..];
    v[0] := carry;
    assert a[0..] == a && b[0..] == b;
    assert v[..][0..] == v[..] && v[..][1..] == tail;
    BETail(v[..], 0);
  }

  /** The borrow loop over 33 bytes, subtracting the order with a zero byte in front. */
  method SubtractOrder(n: GroupOrder, v: array<byte>)
    requires v.Length == 33 && BE(v[..]) >= Value(n)
    modifies v
    ensures BE(v[..]) == BE(old(v[..])) - Value(n)
  {
    hide BE, Shift;
    ghost var w := v[..];
    ghost var wide: bytes := [0] + n;
    LeadingZero(wide);
    assert wide[1..] == n;
    var borrow := 0;
    assert v[33..] == [] && w[33..] == [] && wide[33..] == [];
    NoDigits();
    for i := 33 downto 0
      invariant 0 <= borrow <= 1
      invariant v[..i] == w[..i]
      invariant BE(v[i..]) == BE(w[i..]) - BE(wide[i..]) + Shift(borrow, |w| - i)
    {
      ghost var tail := v[i + 1..];
      ghost var before := borrow;
      var nv: int := if i == 0 then 0 else n[i - 1];
      assert v[i] == w[i] by { assert v[..i + 1][i] == w[..i + 1][i]; }
      var d := v[i] as int - nv - borrow;
      if d < 0 {
        d := d + 256;
        borrow := 1;
      } else {
        borrow := 0;
      }
      v[i] := d;
      assert v[..][i + 1..] == tail && v[..][i..] == v[i..];
      SubtractColumn(w, wide, v[..], i, before, borrow);
    }
    assert v[0..] == v[..] && w[0..] == w && wide[0..] == wide;
    NoBorrowLeft(w, wide, v[..], borrow);
  }

  lemma LeadingZero(v: bytes)
    requires |v| > 0
    ensures v[0] == 0 ==> BE(v) == BE(v[1..])
    ensures v[0] != 0 ==> BE(v) >= Shift(1, |v| - 1)
  {
    ShiftMono(0, v[0], |v| - 1);
    if v[0] != 0 { ShiftMono(1, v[0], |v| - 1); }
  }

  /** The comparison of a 33-byte sum with the order, as the code makes it. */
  lemma WideCompare(n: GroupOrder, v: bytes)
    requires |v| == 33
    ensures (v[0] != 0 || LexLe(n, v[1..])) <==> BE(v) >= Value(n)
  {
    LexIsNumeric(n, v[1..]);
    LeadingZero(v);
    assert |v| - 1 == |n|;
  }

  /** (a + b) mod n, for operands below n. */
  method ScalarAddModN(n: GroupOrder, a: b32, b: b32) returns (out: b32)
    requires BE(a) < Value(n) && BE(b) < Value(n)
    ensures BE(out) == (BE(a) + BE(b)) % Value(n)
  {
    hide BE, LexLe;
    var v := AddWithCarry(a, b);
    ReduceOnce(Value(n), BE(a) + BE(b));
    WideCompare(n, v[..]);
    assert v[..][1..] == v[1..];
    var ge := if v[0] != 0 then true else LexLe(n, v[1..]);
    if ge {
      SubtractOrder(n, v);
    }
    out := v[1..];
    assert BE(v[..]) < Value(n) && |n| == |v[..]| - 1;
    LeadingZero(v[..]);
    assert v[..][1..] == out;
  }

  lemma {:induction false} AllZeroIsZero(a: bytes)
    ensures (forall k :: 0 <= k < |a| ==> a[k] == 0) <==> BE(a) == 0
  {
    if a != [] {
      AllZeroIsZero(a[1..]);
      if a[0] != 0 { ShiftMono(1, a[0], |a| - 1); }
      assert forall k :: 0 < k < |a| ==> a[k] == a[1..][k - 1];
    }
  }

  lemma NegateOnce(n: int, a: int)
    requires 0 < a < n
    ensures (0 - a) % n == n - a
  {
    ModUnique(n, -1, n - a);
  }

  /** The borrow loop that takes a number from the order. */
  method OrderMinus(n: GroupOrder, a: b32) returns (out: b32)
    requires BE(a) < Value(n)
    ensures BE(out) == Value(n) - BE(a)
  {
    hide BE, Shift;
    var v := new byte[32](_ => 0);
    var borrow := 0;
    assert v[32..] == [] && a[32..] == [] && n[32..] == [];
    NoDigits();
    for i := 32 downto 0
      invariant 0 <= borrow <= 1
      invariant BE(v[i..]) == BE(n[i..]) - BE(a[i..]) + Shift(borrow, |a| - i)
    {
      ghost var tail := v[i + 1..];
      ghost var before: nat := borrow;
      var d := n[i] as int - a[i] - borrow;
      if d < 0 {
        d := d + 256;
        borrow := 1;
      } else {
        borrow := 0;
      }
      v[i] := d;
      assert v[..][i + 1..] == tail && v[..][i..] == v[i..];
      SubtractColumn(n, a, v[..], i, before, borrow);
    }
    out := v[..];
    assert v[0..] == out && a[0..] == a && n[0..] == n;
    NoBorrowLeft(n, a, out, borrow);
  }

  /** (-a) mod n, for an operand below n. */
  method ScalarNegModN(n: GroupOrder, a: b32) returns (out: b32)
    requires BE(a) < Value(n)
    ensures BE(out) == (0 - BE(a)) % Value(n)
  {
    hide BE;
    AllZeroIsZero(a);
    if forall k :: 0 <= k < 32 ==> a[k] == 0 {
      out := Zeros(32);
      AllZeroIsZero(out);
      RemainderSmall(Value(n), 0);
    } else {
      out := OrderMinus(n, a);
      NegateOnce(Value(n), BE(a));
    }
  }

  // ---- The scalars of the protocol ----

  /**
   * With the group order as modulus, the byte strings the three functions return have the values the
   * protocol modules compute with.
   */
  lemma BytesRefineScalars(c: Crypto, n: GroupOrder, a: b32, b: b32)
    requires c.n == Value(n)
    ensures ScalarOf(c, a) == BE(a) % Value(n)
    ensures ScalarAdd(c, BE(a), BE(b)) == (BE(a) + BE(b)) % Value(n)
    ensures ScalarNeg(c, BE(a)) == (0 - BE(a)) % Value(n)
  {
    hide BE, Mod, Shift;
    ModIsRemainder(c.n, BE(a));
    ModIsRemainder(c.n, BE(a) + BE(b));
    ModIsRemainder(c.n, 0 - BE(a));
  }
}
