// The leading characters of a printed payment code: a version-1 payload with a compressed key prints
// with PM8T in front exactly if it sets no feature, because of where its leading bytes put it among
// the powers of 58.
module Prefix {
  import opened Zn
  import opened Bytes
  import opened Radix

  const P58_112: nat :=
    0x11136004c7bfb3fdf32517e3e3d794fa01f66faa2bdb8d64cf3bef26955684be524237314149a7c107d18754da2176173c6ea019a68a7b9087e38183e0b5f9cf7e07cf8c10000000000000000000000000000
  const P256_81: nat :=
    0x1000000000000000000000000000000000000000000000000000000000000000000000000000000000000000000000000000000000000000000000000000000000000000000000000000000000000000000

  /** The digits of P, M, 8 and T in base 58. */
  const PM8T: nat := ((22 * 58 + 20) * 58 + 7) * 58 + 26

  lemma {:induction false} PowAdd(b: nat, i: nat, j: nat)
    ensures Pow(b, i + j) == Pow(b, i) * Pow(b, j)
  {
    if i > 0 {
      PowAdd(b, i - 1, j);
      MulAssociative(b, Pow(b, i - 1), Pow(b, j));
    }
  }

  lemma Doubling(b: nat, i: nat, p: nat)
    requires Pow(b, i) == p
    ensures Pow(b, 2 * i) == p * p
  {
    PowAdd(b, i, i);
  }

  lemma Power58()
    ensures Pow(58, 112) == P58_112
  {
    assert Pow(58, 7) == 0x202161caa80;
    Doubling(58, 7, 0x202161caa80);
    Doubling(58, 14, 0x4085ccd059a83bd8e4000);
    Doubling(58, 28, 0x10432c56a12dff3091863bfde930f0d98b10000000);
    Doubling(58, 56, 0x108772b112c02b225b7fda9db5d90418a149a9cac594da3e770289d70efe39b0caa6100000000000000);
  }

  lemma Power256()
    ensures Pow(256, 81) == P256_81
  {
    var p := 0x1000000000000000000;
    assert Pow(256, 9) == p;
    Doubling(256, 9, p);
    PowAdd(256, 18, 9);
    var q := p * p * p;
    Doubling(256, 27, q);
    PowAdd(256, 54, 27);
  }

  lemma SplitStep(b: nat, x: nat, p: nat, u: nat, d: nat)
    requires u < p && d < b
    ensures b * (x * p + u) + d == x * (b * p) + (b * u + d)
    ensures b * u + d < b * p
  {
    Distribute(b, x * p, u);
    MulMono(u + 1, p, b);
  }

  lemma {:induction false} BigEndianSplit(b: nat, x: seq<nat>, y: seq<nat>)
    requires b > 0 && Digits(b, y)
    ensures BigEndian(b, x + y) == BigEndian(b, x) * Pow(b, |y|) + BigEndian(b, y)
    ensures BigEndian(b, y) < Pow(b, |y|)
    decreases |y|
  {
    if y == [] {
      assert x + y == x;
    } else {
      var y', d := y[..|y| - 1], y[|y| - 1];
      BigEndianSplit(b, x, y');
      assert (x + y)[..|x + y| - 1] == x + y';
      SplitStep(b, BigEndian(b, x), Pow(b, |y'|), BigEndian(b, y'), d);
    }
  }

  lemma QuotientUnique(q: nat, r: nat, d: nat, p: nat)
    requires r < p && d * p <= q * p + r < (d + 1) * p
    ensures q == d
  {
    if q < d { MulMono(q + 1, d, p); }
    if q > d { MulMono(d + 1, q, p); }
  }

  lemma LongEnough(b: nat, be: seq<nat>, d: nat, k: nat)
    requires b > 1 && d > 0 && Digits(b, be) && d * Pow(b, k) <= BigEndian(b, be)
    ensures |be| >= k
  {
    hide Pow, BigEndian;
    MulMono(1, d, Pow(b, k));
    if |be| < k { TooShort(b, be, k); }
  }

  lemma TopValueIs(b: nat, be: seq<nat>, d: nat, k: nat)
    requires b > 1 && Digits(b, be) && |be| >= k
    requires d * Pow(b, k) <= BigEndian(b, be) < (d + 1) * Pow(b, k)
    ensures BigEndian(b, be[..|be| - k]) == d
  {
    hide Pow, BigEndian;
    var x, y := be[..|be| - k], be[|be| - k..];
    assert be == x + y;
    BigEndianSplit(b, x, y);
    QuotientUnique(BigEndian(b, x), BigEndian(b, y), d, Pow(b, k));
  }

  lemma DigitsOfTop(b: nat, x: seq<nat>)
    requires b > 1 && Digits(b, x) && (x != [] ==> x[0] != 0)
    ensures Reverse(ToDigits(b, BigEndian(b, x))) == x
  {
    BigEndianReversed(b, x);
    CanonicalIsUnique(b, Reverse(x));
    ReverseTwice(x);
  }

  /** The digits of a number, most significant first. */
  lemma DigitsReversed(b: nat, n: nat)
    requires b > 1
    ensures var be := Reverse(ToDigits(b, n));
      Digits(b, be) && BigEndian(b, be) == n && (be != [] ==> be[0] != 0)
  {
    var ds := ToDigits(b, n);
    ToDigitsIsCanonical(b, n);
    BigEndianReversed(b, Reverse(ds));
    ReverseTwice(ds);
  }

  lemma PrefixOfDigits(b: nat, be: seq<nat>, k: nat)
    requires Digits(b, be) && (be != [] ==> be[0] != 0) && k <= |be|
    ensures Digits(b, be[..k]) && (be[..k] != [] ==> be[..k][0] != 0) && be[..k] <= be
  {
  }

  /** A number between D and D + 1 times a power of the base has the digits of D on top. */
  lemma LeadingDigits(b: nat, n: nat, d: nat, k: nat)
    requires b > 1 && d > 0 && d * Pow(b, k) <= n < (d + 1) * Pow(b, k)
    ensures Reverse(ToDigits(b, d)) <= Reverse(ToDigits(b, n))
  {
    hide *;
    var be := Reverse(ToDigits(b, n));
    DigitsReversed(b, n);
    LongEnough(b, be, d, k);
    TopValueIs(b, be, d, k);
    PrefixOfDigits(b, be, |be| - k);
    DigitsOfTop(b, be[..|be| - k]);
  }

  lemma TooShort(b: nat, ds: seq<nat>, k: nat)
    requires b > 1 && Digits(b, ds) && |ds| < k
    ensures BigEndian(b, ds) < Pow(b, k)
  {
    BigEndianSplit(b, [], ds);
    assert [] + ds == ds;
    PowAdd(b, k - |ds|, |ds|);
    MulMono(1, Pow(b, k - |ds|), Pow(b, |ds|));
  }

  lemma DigitsOfPM8T()
    ensures ToDigits(58, PM8T) == [26, 7, 20, 22]
  {
    assert ToDigits(58, 22) == [22] + ToDigits(58, 0);
    assert ToDigits(58, 22 * 58 + 20) == [20] + ToDigits(58, 22);
    assert ToDigits(58, (22 * 58 + 20) * 58 + 7) == [7] + ToDigits(58, 22 * 58 + 20);
    assert ToDigits(58, PM8T) == [26] + ToDigits(58, (22 * 58 + 20) * 58 + 7);
  }

  /** The number of 85 bytes lies in the range its leading four bytes give. */
  lemma TopRange(v: bytes, d: nat)
    requires |v| == 85 && d == ((v[0] as int * 256 + v[1]) * 256 + v[2]) * 256 + v[3]
    ensures d * P256_81 <= BigEndian(256, v) < (d + 1) * P256_81
  {
    var top, rest := v[..4], v[4..];
    assert v == top + rest;
    BigEndianSplit(256, top, rest);
    TopValue(top);
    Power256();
  }

  lemma DigitsLead()
    ensures Reverse(ToDigits(58, PM8T)) == [22, 20, 7, 26]
  {
    DigitsOfPM8T();
    assert Reverse([26, 7, 20, 22]) == [22, 20, 7, 26];
  }

  /** 85 bytes starting 47 01 00 02 or 47 01 00 03 print as text starting with the digits of PM8T. */
  lemma NoFeatureLeads(v: bytes)
    requires |v| == 85 && v[0] == 0x47 && v[1] == 1 && v[2] == 0 && (v[3] == 2 || v[3] == 3)
    ensures [22, 20, 7, 26] <= Reverse(ToDigits(58, BigEndian(256, v)))
  {
    hide BigEndian, ToDigits, Reverse, Pow;
    TopRange(v, 0x47010000 + v[3] as int);
    Power58();
    assert PM8T * P58_112 <= 0x47010002 * P256_81;
    assert 0x47010004 * P256_81 <= (PM8T + 1) * P58_112;
    LeadingDigits(58, BigEndian(256, v), PM8T, 112);
    DigitsLead();
  }

  lemma FourValue(ds: seq<nat>)
    requires ds == [22, 20, 7, 26]
    ensures BigEndian(58, ds) == PM8T
  {
    assert ds[..3] == [22, 20, 7] && ds[..3][..2] == [22, 20] && ds[..2] == [22, 20] && [22, 20][..1] == [22] && [22][..0] == [];
    assert BigEndian(58, [22]) == 22;
    assert BigEndian(58, [22, 20]) == 22 * 58 + 20;
    assert [22, 20, 7][..2] == [22, 20];
    assert BigEndian(58, [22, 20, 7]) == (22 * 58 + 20) * 58 + 7;
  }

  /** Text starting with the digits of PM8T puts a number between PM8T and PM8T + 1 times a power. */
  lemma RangeOfLead(n: nat) returns (k: nat)
    requires [22, 20, 7, 26] <= Reverse(ToDigits(58, n))
    ensures PM8T * Pow(58, k) <= n < (PM8T + 1) * Pow(58, k)
  {
    hide ToDigits, Pow;
    var be := Reverse(ToDigits(58, n));
    DigitsReversed(58, n);
    var x, y := be[..4], be[4..];
    k := |y|;
    assert be == x + y && x == [22, 20, 7, 26];
    FourValue(x);
    BigEndianSplit(58, x, y);
    Distribute(Pow(58, k), PM8T, 1);
  }

  lemma {:induction false} PowGrows(b: nat, i: nat, j: nat)
    requires b > 0 && i <= j
    ensures Pow(b, i) <= Pow(b, j)
    decreases j
  {
    if i < j {
      PowGrows(b, i, j - 1);
      MulMono(1, b, Pow(b, j - 1));
    }
  }

  /** No power of 58 puts a number with a feature byte into the range of PM8T. */
  lemma FeatureOutOfRange(n: nat, k: nat)
    requires 0x47010100 * P256_81 <= n < 0x47020000 * P256_81
    ensures !(PM8T * Pow(58, k) <= n < (PM8T + 1) * Pow(58, k))
  {
    hide Pow;
    Power58();
    if k <= 112 {
      PowGrows(58, k, 112);
      MulMono(Pow(58, k), P58_112, PM8T + 1);
      assert (PM8T + 1) * P58_112 <= 0x47010100 * P256_81;
    } else {
      PowAdd(58, 1, 112);
      OnePower();
      PowGrows(58, 113, k);
      MulMono(58 * P58_112, Pow(58, k), PM8T);
      assert PM8T * (58 * P58_112) >= 0x47020000 * P256_81;
    }
  }

  lemma OnePower()
    ensures Pow(58, 1) == 58
  {
  }

  /**
   * 85 bytes of version 1 with a compressed key print as text starting with the digits of PM8T if and
   * only if the feature byte is zero.
   */
  lemma LeadingFour(v: bytes)
    requires |v| == 85 && v[0] == 0x47 && v[1] == 1 && (v[3] == 2 || v[3] == 3)
    ensures [22, 20, 7, 26] <= Reverse(ToDigits(58, BigEndian(256, v))) <==> v[2] == 0
  {
    hide BigEndian, ToDigits, Reverse, Pow;
    var n := BigEndian(256, v);
    if v[2] == 0 {
      NoFeatureLeads(v);
    } else if [22, 20, 7, 26] <= Reverse(ToDigits(58, n)) {
      TopRange(v, 0x47010000 + v[2] as int * 256 + v[3] as int);
      var k := RangeOfLead(n);
      FeatureOutOfRange(n, k);
    }
  }

  lemma TopValue(top: bytes)
    requires |top| == 4
    ensures BigEndian(256, top) == ((top[0] as int * 256 + top[1]) * 256 + top[2]) * 256 + top[3]
  {
    assert top[..3][..2] == top[..2] && top[..2][..1] == top[..1];
    assert BigEndian(256, top[..1]) == top[0];
    assert BigEndian(256, top[..2]) == top[0] as int * 256 + top[1];
    assert BigEndian(256, top[..3]) == (top[0] as int * 256 + top[1]) * 256 + top[2];
  }
}
