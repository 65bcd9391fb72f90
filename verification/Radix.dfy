// Positional notation in an arbitrary base: the digit-vector loops of Base58Check as functions,
// and the uniqueness of digits that makes printing and parsing inverse to each other.
module Radix {
  import opened Bytes
  import opened Zn

  /** The number a digit vector denotes, least significant digit first. */
  function LE(b: nat, ds: seq<nat>): nat {
    if ds == [] then 0 else ds[0] + b * LE(b, ds[1..])
  }

  /** The digits of n in base b, least significant first, none for zero. */
  function ToDigits(b: nat, n: nat): (ds: seq<nat>)
    requires b > 1
    ensures n > 0 ==> ds != []
  {
    if n == 0 then [] else
      QuotientSmaller(b, n);
      [n % b] + ToDigits(b, n / b)
  }

  lemma ProductAtLeast(b: int, q: int)
    requires b >= 2
    ensures q >= 0 ==> b * q >= 2 * q
    ensures q < 0 ==> b * q <= -b
  {
    if q >= 0 { assert (b - 2) * q >= 0; } else { assert b * (-1 - q) >= 0; }
  }

  lemma QuotientSmaller(b: nat, n: nat)
    requires b > 1 && n > 0
    ensures 0 <= n / b < n
  {
    var q, r := n / b, n % b;
    assert n == b * q + r && 0 <= r < b;
    ProductAtLeast(b, q);
  }

  ghost predicate Digits(b: nat, ds: seq<nat>) {
    forall i :: 0 <= i < |ds| ==> ds[i] < b
  }

  /** Digits with a nonzero most significant one. */
  ghost predicate Canonical(b: nat, ds: seq<nat>) {
    Digits(b, ds) && (ds != [] ==> ds[|ds| - 1] != 0)
  }

  /** One pass of the conversion loop: multiply a digit vector by m and add a carry. */
  function MulAdd(b: nat, m: nat, ds: seq<nat>, carry: nat): seq<nat>
    requires b > 1
  {
    if ds == [] then ToDigits(b, carry)
    else
      var val := ds[0] * m + carry;
      [val % b] + MulAdd(b, m, ds[1..], val / b)
  }

  lemma LowDigit(b: nat, r: nat, ds: seq<nat>)
    requires Canonical(b, ds) && r < b && (ds == [] ==> r != 0)
    ensures Canonical(b, [r] + ds)
    ensures LE(b, [r] + ds) == r + b * LE(b, ds)
  {
    assert ([r] + ds)[1..] == ds;
  }

  lemma ToDigitsNext(b: nat, n: nat)
    requires b > 1
    ensures n == 0 ==> ToDigits(b, n) == []
    ensures n > 0 ==> n / b < n && ToDigits(b, n) == [n % b] + ToDigits(b, n / b)
  {
    if n > 0 { QuotientSmaller(b, n); }
  }

  lemma {:induction false} ToDigitsIsCanonical(b: nat, n: nat)
    requires b > 1
    ensures Canonical(b, ToDigits(b, n)) && LE(b, ToDigits(b, n)) == n
  {
    ToDigitsNext(b, n);
    if n > 0 {
      hide ToDigits, Canonical;
      var q, r := n / b, n % b;
      assert n == b * q + r && 0 <= r < b;
      ToDigitsIsCanonical(b, q);
      LowDigit(b, r, ToDigits(b, q));
    }
  }

  lemma DigitSplit(b: nat, d: nat, x: nat)
    requires d < b
    ensures (d + b * x) % b == d && (d + b * x) / b == x
  {
    var n := d + b * x;
    assert b * x == x * b;
    ModUnique(b, x, d);
    assert n == b * (n / b) + n % b;
    ZeroProduct(b, n / b - x);
  }

  lemma ZeroProduct(b: int, k: int)
    requires b > 0 && b * k == 0
    ensures k == 0
  {
  }

  lemma NonzeroProduct(b: int, k: int)
    requires b > 0 && k != 0
    ensures b * k != 0
  {
  }

  /** A canonical digit vector is the digits of the number it denotes. */
  lemma {:induction false} CanonicalIsUnique(b: nat, ds: seq<nat>)
    requires b > 1 && Canonical(b, ds)
    ensures ToDigits(b, LE(b, ds)) == ds
    ensures ds != [] ==> LE(b, ds) > 0
  {
    if ds != [] {
      CanonicalIsUnique(b, ds[1..]);
      DigitSplit(b, ds[0], LE(b, ds[1..]));
      if LE(b, ds[1..]) > 0 { NonzeroProduct(b, LE(b, ds[1..])); }
      assert ds == [ds[0]] + ds[1..];
    }
  }

  lemma PassStep(b: nat, m: nat, d: nat, carry: nat, x: nat, y: nat)
    requires b > 0 && y == m * x + (d * m + carry) / b
    ensures (d * m + carry) % b + b * y == m * (d + b * x) + carry
  {
    var val := d * m + carry;
    assert val == b * (val / b) + val % b;
    assert b * y == b * (m * x) + b * (val / b) by { Distribute(b, m * x, val / b); }
    assert m * (d + b * x) == m * d + m * (b * x) by { Distribute(m, d, b * x); }
    assert m * (b * x) == b * (m * x);
  }

  /** A pass multiplies the number by m and adds the carry, in proper digits. */
  lemma {:induction false} MulAddValue(b: nat, m: nat, ds: seq<nat>, carry: nat)
    requires b > 1
    ensures LE(b, MulAdd(b, m, ds, carry)) == m * LE(b, ds) + carry
    ensures Digits(b, MulAdd(b, m, ds, carry))
  {
    if ds == [] {
      ToDigitsIsCanonical(b, carry);
    } else {
      var val := ds[0] * m + carry;
      var rest := MulAdd(b, m, ds[1..], val / b);
      MulAddValue(b, m, ds[1..], val / b);
      assert ([val % b] + rest)[1..] == rest;
      PassStep(b, m, ds[0], carry, LE(b, ds[1..]), LE(b, rest));
    }
  }

  lemma PositiveProduct(d: nat, m: nat)
    requires d > 0 && m > 0
    ensures d * m > 0
  {
  }

  /** A pass over canonical digits leaves canonical digits: the top digit never becomes zero. */
  lemma {:induction false} MulAddCanonical(b: nat, m: nat, ds: seq<nat>, carry: nat)
    requires b > 1 && m > 0 && Canonical(b, ds)
    ensures Canonical(b, MulAdd(b, m, ds, carry))
    ensures ds != [] ==> MulAdd(b, m, ds, carry) != []
  {
    if ds == [] {
      ToDigitsIsCanonical(b, carry);
    } else {
      var val := ds[0] * m + carry;
      var rest := MulAdd(b, m, ds[1..], val / b);
      MulAddCanonical(b, m, ds[1..], val / b);
      MulAddValue(b, m, ds, carry);
      if ds[1..] == [] && rest == [] {
        PositiveProduct(ds[0], m);
        assert val == b * (val / b) + val % b;
        assert val / b == 0 by { ToDigitsIsCanonical(b, val / b); }
      }
    }
  }

  /** Hence a pass over the digits of n yields the digits of m·n + carry. */
  lemma MulAddOfDigits(b: nat, m: nat, n: nat, carry: nat)
    requires b > 1 && m > 0
    ensures MulAdd(b, m, ToDigits(b, n), carry) == ToDigits(b, m * n + carry)
  {
    ToDigitsIsCanonical(b, n);
    MulAddCanonical(b, m, ToDigits(b, n), carry);
    MulAddValue(b, m, ToDigits(b, n), carry);
    CanonicalIsUnique(b, MulAdd(b, m, ToDigits(b, n), carry));
  }

  // ---- Most significant digit first, with leading zeros ----

  function Reverse<T>(s: seq<T>): (r: seq<T>)
    ensures |r| == |s|
    ensures forall i :: 0 <= i < |s| ==> r[i] == s[|s| - 1 - i]
  {
    seq(|s|, i requires 0 <= i < |s| => s[|s| - 1 - i])
  }

  lemma ReverseTwice<T>(s: seq<T>)
    ensures Reverse(Reverse(s)) == s
  {
  }

  /** The number a digit string denotes, most significant digit first. */
  function BigEndian(b: nat, ds: seq<nat>): nat {
    if ds == [] then 0 else b * BigEndian(b, ds[..|ds| - 1]) + ds[|ds| - 1]
  }

  lemma {:induction false} BigEndianReversed(b: nat, ds: seq<nat>)
    ensures BigEndian(b, ds) == LE(b, Reverse(ds))
  {
    if ds != [] {
      BigEndianReversed(b, ds[..|ds| - 1]);
      assert Reverse(ds)[1..] == Reverse(ds[..|ds| - 1]);
    }
  }

  /** The number of leading zero digits. */
  function LeadingZeros(ds: seq<nat>): (k: nat)
    ensures k <= |ds|
    ensures forall i :: 0 <= i < k ==> ds[i] == 0
    ensures k < |ds| ==> ds[k] != 0
  {
    if ds == [] || ds[0] != 0 then 0 else
      var k := LeadingZeros(ds[1..]);
      assert forall i :: 0 < i < k + 1 ==> ds[i] == ds[1..][i - 1];
      k + 1
  }

  lemma {:induction false} LeadingZerosAre(ds: seq<nat>, k: nat)
    requires k <= |ds| && (forall i :: 0 <= i < k ==> ds[i] == 0) && (k < |ds| ==> ds[k] != 0)
    ensures LeadingZeros(ds) == k
  {
    if k > 0 { LeadingZerosAre(ds[1..], k - 1); }
  }

  /** A digit string written out: leading zeros, then the digits of its value. */
  function Written(b: nat, zeros: nat, n: nat): seq<nat>
    requires b > 1
  {
    Zeros(zeros) + Reverse(ToDigits(b, n))
  }

  lemma {:induction false} LeadingZerosDoNotCount(b: nat, k: nat, ds: seq<nat>)
    ensures BigEndian(b, Zeros(k) + ds) == BigEndian(b, ds)
    decreases |ds|, k
  {
    var all := Zeros(k) + ds;
    if ds != [] {
      LeadingZerosDoNotCount(b, k, ds[..|ds| - 1]);
      assert all[..|all| - 1] == Zeros(k) + ds[..|ds| - 1];
    } else if k > 0 {
      LeadingZerosDoNotCount(b, k - 1, ds);
      assert all[..|all| - 1] == Zeros(k - 1) + ds;
      assert b * 0 == 0;
    } else {
      assert all == ds;
    }
  }

  /** Every digit string is what is written for its leading zeros and its value. */
  lemma WrittenIsUnique(b: nat, ds: seq<nat>)
    requires b > 1 && Digits(b, ds)
    ensures Written(b, LeadingZeros(ds), BigEndian(b, ds)) == ds
  {
    var k := LeadingZeros(ds);
    var rest := ds[k..];
    assert ds == Zeros(k) + rest;
    LeadingZerosDoNotCount(b, k, rest);
    BigEndianReversed(b, rest);
    assert Canonical(b, Reverse(rest));
    CanonicalIsUnique(b, Reverse(rest));
    ReverseTwice(rest);
  }

  /** And what is written has those leading zeros and that value. */
  lemma WrittenReadsBack(b: nat, zeros: nat, n: nat)
    requires b > 1
    ensures LeadingZeros(Written(b, zeros, n)) == zeros && BigEndian(b, Written(b, zeros, n)) == n
    ensures Digits(b, Written(b, zeros, n))
  {
    var ds := ToDigits(b, n);
    ToDigitsIsCanonical(b, n);
    LeadingZerosDoNotCount(b, zeros, Reverse(ds));
    BigEndianReversed(b, Reverse(ds));
    ReverseTwice(ds);
    LeadingZerosAre(Written(b, zeros, n), zeros);
  }
}
