// Arithmetic modulo n: congruences, and the one number-theoretic fact the curve group rests on.
module Zn {
  /** a reduced modulo n, by whole steps of n. */
  function Mod(n: nat, a: int): (r: nat)
    requires n > 0
    ensures r < n
    decreases if a < 0 then n - a else a
  {
    if a < 0 then Mod(n, a + n) else if a < n then a else Mod(n, a - n)
  }

  /** a and b leave the same residue. */
  ghost predicate Cong(n: nat, a: int, b: int)
    requires n > 0
  {
    Mod(n, a) == Mod(n, b)
  }

  lemma MulMono(a: int, b: int, p: int)
    requires a <= b && 0 <= p
    ensures a * p <= b * p
  {
    assert (b - a) * p >= 0;
  }

  lemma MulAssociative(x: int, y: int, z: int)
    ensures x * (y * z) == (x * y) * z
  {
  }

  lemma TimesAtLeast(k: int, n: int)
    requires k >= 1 && n > 0
    ensures k * n >= n
  {
    assert (k - 1) * n >= 0;
  }

  lemma QuotientBetween(n: int, k: int)
    requires n > 0 && -n < k * n < n
    ensures k == 0
  {
    if k >= 1 { TimesAtLeast(k, n); }
    if -k >= 1 { TimesAtLeast(-k, n); }
  }

  lemma ModUnique(n: nat, q: int, r: int)
    requires n > 0 && 0 <= r < n
    ensures (q * n + r) % n == r
  {
    var x := q * n + r;
    assert x == n * (x / n) + x % n;
    assert (q - x / n) * n == x % n - r;
    QuotientBetween(n, q - x / n);
    assert (q - x / n) * n == 0;
  }

  lemma QuotientIs(n: nat, d: nat, q: nat, rest: nat)
    requires d > 0 && n == q * d + rest && rest < d
    ensures n / d == q
  {
    assert n == d * (n / d) + n % d;
    ModUnique(d, q, rest);
    assert (q - n / d) * d == 0;
    QuotientBetween(d, q - n / d);
  }

  lemma RemainderSmall(n: nat, a: int)
    requires 0 <= a < n
    ensures a % n == a
  {
    ModUnique(n, 0, a);
  }

  lemma {:induction false} ModIsRemainder(n: nat, a: int)
    requires n > 0
    ensures Mod(n, a) == a % n
    decreases if a < 0 then n - a else a
  {
    if a < 0 {
      ModIsRemainder(n, a + n);
      RemainderStep(n, a + n, -1);
    } else if a < n {
      RemainderSmall(n, a);
    } else {
      ModIsRemainder(n, a - n);
      RemainderStep(n, a - n, 1);
    }
  }

  lemma RemainderStep(n: nat, a: int, k: int)
    requires n > 0
    ensures (a + k * n) % n == a % n
  {
    assert a == n * (a / n) + a % n;
    assert a + k * n == (a / n + k) * n + a % n;
    ModUnique(n, a / n + k, a % n);
  }

  lemma ModSmall(n: nat, a: nat)
    requires a < n
    ensures Mod(n, a) == a
  {
  }

  /** Congruence is being a multiple of n apart. */
  lemma CongIntro(n: nat, a: int, b: int, k: int)
    requires n > 0 && a == b + k * n
    ensures Cong(n, a, b)
  {
    ModIsRemainder(n, a);
    ModIsRemainder(n, b);
    RemainderStep(n, b, k);
  }

  lemma CongWitness(n: nat, a: int, b: int) returns (k: int)
    requires n > 0 && Cong(n, a, b)
    ensures a == b + k * n
  {
    ModIsRemainder(n, a);
    ModIsRemainder(n, b);
    k := a / n - b / n;
    SameRemainder(n, a, b);
  }

  lemma SameRemainder(n: nat, a: int, b: int)
    requires n > 0 && a % n == b % n
    ensures a == b + (a / n - b / n) * n
  {
    assert a == n * (a / n) + a % n && b == n * (b / n) + b % n;
  }

  lemma CongMod(n: nat, a: int)
    requires n > 0
    ensures Cong(n, Mod(n, a), a)
  {
    ModSmall(n, Mod(n, a));
  }

  lemma CongAdd(n: nat, a: int, b: int, c: int, d: int)
    requires n > 0 && Cong(n, a, b) && Cong(n, c, d)
    ensures Cong(n, a + c, b + d)
    ensures Cong(n, a - c, b - d)
  {
    var j := CongWitness(n, a, b);
    var k := CongWitness(n, c, d);
    assert (j + k) * n == j * n + k * n && (j - k) * n == j * n - k * n;
    CongIntro(n, a + c, b + d, j + k);
    CongIntro(n, a - c, b - d, j - k);
  }

  lemma CongReflexive(n: nat, a: int)
    requires n > 0
    ensures Cong(n, a, a)
  {
  }

  lemma ProductOfSums(n: int, b: int, j: int, d: int, k: int)
    ensures (b + j * n) * (d + k * n) == b * d + (b * k + j * d + j * k * n) * n
  {
    var x, y := j * n, k * n;
    assert (b + x) * (d + y) == b * d + b * y + x * d + x * y;
    assert b * y == (b * k) * n && x * d == (j * d) * n && x * y == (j * k * n) * n;
  }

  lemma CongMul(n: nat, a: int, b: int, c: int, d: int)
    requires n > 0 && Cong(n, a, b) && Cong(n, c, d)
    ensures Cong(n, a * c, b * d)
  {
    var j := CongWitness(n, a, b);
    var k := CongWitness(n, c, d);
    ProductOfSums(n, b, j, d, k);
    CongIntro(n, a * c, b * d, b * k + j * d + j * k * n);
  }

  /** One summand of a sum replaced by a congruent one. */
  lemma CongShift(n: nat, a: int, b: int, d: int)
    requires n > 0 && Cong(n, a, b)
    ensures Cong(n, a + d, b + d) && Cong(n, d + a, d + b)
  {
    CongAdd(n, a, b, d, d);
  }

  /** Two reduced residues that are congruent are equal. */
  lemma CongEqual(n: nat, a: int, b: int)
    requires n > 0 && 0 <= a < n && 0 <= b < n && Cong(n, a, b)
    ensures a == b
  {
    ModSmall(n, a);
    ModSmall(n, b);
  }

  ghost predicate Divides(d: int, n: nat)
    requires d > 0
  {
    n % d == 0
  }

  ghost predicate Prime(n: nat) {
    n > 1 && forall d :: 1 < d < n ==> !Divides(d, n)
  }

  lemma MultipleStep(n: nat, a: nat, b: nat, q: nat, r: nat)
    requires n > 0 && n == a * q + r && Mod(n, a * b) == 0
    ensures Mod(n, r * b) == 0
  {
    ModSmall(n, 0);
    var k := CongWitness(n, a * b, 0);
    RemainderTimes(n, a, b, q, r, k);
    CongIntro(n, r * b, 0, b - q * k);
  }

  lemma RemainderTimes(n: int, a: int, b: int, q: int, r: int, k: int)
    requires n == a * q + r && a * b == k * n
    ensures r * b == (b - q * k) * n
  {
    assert r * b == n * b - q * (a * b);
    assert q * (k * n) == (q * k) * n;
  }

  /** No two residues below a prime multiply to zero. */
  lemma {:induction false} NoZeroDivisors(n: nat, a: nat, b: nat)
    requires Prime(n) && 0 < a < n && 0 < b < n
    ensures Mod(n, a * b) != 0
    decreases a
  {
    if Mod(n, a * b) == 0 {
      if a > 1 {
        hide Mod, Cong;
        var q, r := n / a, n % a;
        assert !Divides(a, n);
        assert n == a * q + r && 0 < r < a;
        NoZeroDivisors(n, r, b);
        MultipleStep(n, a, b, q, r);
      }
    }
  }

  /** A function summed over a sequence. */
  ghost function Sum<T>(f: T -> int, s: seq<T>): int {
    if s == [] then 0 else f(s[0]) + Sum(f, s[1..])
  }

  lemma SumNext<T>(f: T -> int, rest: seq<T>)
    ensures rest == [] ==> Sum(f, rest) == 0
    ensures rest != [] ==> Sum(f, rest) == f(rest[0]) + Sum(f, rest[1..])
  {
  }

  lemma {:induction false} SumAppend<T>(f: T -> int, s: seq<T>, t: seq<T>)
    ensures Sum(f, s + t) == Sum(f, s) + Sum(f, t)
  {
    if s == [] {
      assert s + t == t;
    } else {
      SumAppend(f, s[1..], t);
      assert (s + t)[1..] == s[1..] + t;
    }
  }

  lemma MultisetRemove<T>(t: seq<T>, i: nat)
    requires i < |t|
    ensures multiset(t[..i] + t[i + 1..]) == multiset(t) - multiset{t[i]}
  {
    assert t == t[..i] + ([t[i]] + t[i + 1..]);
    assert multiset(t) == multiset(t[..i]) + (multiset{t[i]} + multiset(t[i + 1..]));
  }

  lemma SumRemove<T>(f: T -> int, t: seq<T>, i: nat)
    requires i < |t|
    ensures Sum(f, t) == f(t[i]) + Sum(f, t[..i] + t[i + 1..])
  {
    var pre, post := t[..i], t[i..];
    assert t == pre + post;
    SumAppend(f, pre, post);
    assert post[0] == t[i] && post[1..] == t[i + 1..];
    SumAppend(f, pre, t[i + 1..]);
  }

  /** A sum depends only on which summands there are, not on their order. */
  lemma {:induction false} SumPermutation<T>(f: T -> int, s: seq<T>, t: seq<T>)
    requires multiset(s) == multiset(t)
    ensures Sum(f, s) == Sum(f, t)
    decreases |s|
  {
    if s == [] {
      assert |multiset(t)| == |t|;
    } else {
      assert s[0] in multiset(t);
      var i :| 0 <= i < |t| && t[i] == s[0];
      SumRemove(f, t, i);
      MultisetRemove(t, i);
      assert s == [s[0]] + s[1..];
      assert multiset(s[1..]) == multiset(s) - multiset{s[0]};
      SumPermutation(f, s[1..], t[..i] + t[i + 1..]);
    }
  }

  function MapSeq<T, U>(g: T -> U, s: seq<T>): (r: seq<U>)
    ensures |r| == |s|
  {
    seq(|s|, i requires 0 <= i < |s| => g(s[i]))
  }

  lemma {:induction false} SumMap<T, U>(f: T -> int, h: U -> int, g: T -> U, s: seq<T>)
    requires forall x :: x in s ==> f(x) == h(g(x))
    ensures Sum(f, s) == Sum(h, MapSeq(g, s))
  {
    if s != [] {
      SumMap(f, h, g, s[1..]);
      assert MapSeq(g, s)[1..] == MapSeq(g, s[1..]);
    }
  }

  /** Sums of congruent terms are congruent. */
  lemma {:induction false} CongSum<T>(n: nat, f: T -> int, h: T -> int, s: seq<T>)
    requires n > 0 && forall x :: x in s ==> Cong(n, f(x), h(x))
    ensures Cong(n, Sum(f, s), Sum(h, s))
  {
    if s != [] {
      CongSum(n, f, h, s[1..]);
      CongAdd(n, f(s[0]), h(s[0]), Sum(f, s[1..]), Sum(h, s[1..]));
    }
  }

  /** A weighted combination of two functions sums to the combination of their sums. */
  lemma {:induction false} SumCombination<T>(h: T -> int, u: T -> int, v: T -> int, a: int, b: int, s: seq<T>)
    requires forall x :: x in s ==> h(x) == a * u(x) + b * v(x)
    ensures Sum(h, s) == a * Sum(u, s) + b * Sum(v, s)
  {
    if s != [] {
      SumCombination(h, u, v, a, b, s[1..]);
      Distribute(a, u(s[0]), Sum(u, s[1..]));
      Distribute(b, v(s[0]), Sum(v, s[1..]));
    }
  }

  lemma Distribute(a: int, x: int, y: int)
    ensures a * (x + y) == a * x + a * y
  {
  }
}
