// Sorting by a byte-string key, as Vec::sort and Vec::sort_by_key do, and why a sorted list is
// determined by what it contains.
module Sorting {
  import opened Bytes

  /** x put before the first element whose key is not smaller, which keeps equal keys in order. */
  function InsertBy<T>(key: T -> bytes, x: T, s: seq<T>): seq<T> {
    if s == [] || LexLe(key(x), key(s[0])) then [x] + s
    else [s[0]] + InsertBy(key, x, s[1..])
  }

  function SortBy<T>(key: T -> bytes, s: seq<T>): seq<T> {
    if s == [] then [] else InsertBy(key, s[0], SortBy(key, s[1..]))
  }

  ghost predicate SortedBy<T>(key: T -> bytes, s: seq<T>) {
    forall i, j :: 0 <= i < j < |s| ==> LexLe(key(s[i]), key(s[j]))
  }

  lemma {:induction false} InsertContents<T>(key: T -> bytes, x: T, s: seq<T>)
    ensures multiset(InsertBy(key, x, s)) == multiset(s) + multiset{x}
  {
    if s != [] && !LexLe(key(x), key(s[0])) {
      InsertContents(key, x, s[1..]);
      assert s == [s[0]] + s[1..];
    }
  }

  lemma {:induction false} SortContents<T>(key: T -> bytes, s: seq<T>)
    ensures multiset(SortBy(key, s)) == multiset(s)
    ensures |SortBy(key, s)| == |s|
  {
    if s != [] {
      SortContents(key, s[1..]);
      InsertContents(key, s[0], SortBy(key, s[1..]));
      assert s == [s[0]] + s[1..];
    }
    assert |multiset(SortBy(key, s))| == |SortBy(key, s)| && |multiset(s)| == |s|;
  }

  lemma {:induction false} InsertSorted<T>(key: T -> bytes, x: T, s: seq<T>)
    requires SortedBy(key, s)
    ensures SortedBy(key, InsertBy(key, x, s))
  {
    if s == [] {
    } else if LexLe(key(x), key(s[0])) {
      forall j | 0 <= j < |s|
        ensures LexLe(key(x), key(s[j]))
      {
        if j > 0 { LexTransitive(key(x), key(s[0]), key(s[j])); }
      }
    } else {
      LexTotal(key(x), key(s[0]));
      var t := InsertBy(key, x, s[1..]);
      InsertSorted(key, x, s[1..]);
      InsertContents(key, x, s[1..]);
      forall j | 0 <= j < |t|
        ensures LexLe(key(s[0]), key(t[j]))
      {
        assert t[j] in multiset(t);
        if t[j] != x {
          assert t[j] in s[1..];
          var k :| 1 <= k < |s| && s[k] == t[j];
        }
      }
    }
  }

  lemma {:induction false} SortSorted<T>(key: T -> bytes, s: seq<T>)
    ensures SortedBy(key, SortBy(key, s))
  {
    if s != [] {
      SortSorted(key, s[1..]);
      InsertSorted(key, s[0], SortBy(key, s[1..]));
    }
  }

  lemma HeadIsLeast<T>(key: T -> bytes, s: seq<T>, x: T)
    requires SortedBy(key, s) && x in s
    ensures LexLe(key(s[0]), key(x))
  {
    var i :| 0 <= i < |s| && s[i] == x;
    LexTotal(key(x), key(x));
  }

  lemma TailContents<T>(s: seq<T>)
    requires s != []
    ensures multiset(s[1..]) == multiset(s) - multiset{s[0]}
  {
    assert s == [s[0]] + s[1..];
  }

  lemma SortedTail<T>(key: T -> bytes, s: seq<T>)
    requires SortedBy(key, s) && s != []
    ensures SortedBy(key, s[1..])
  {
    hide LexLe;
  }

  lemma SameHead<T>(key: T -> bytes, s: seq<T>, t: seq<T>)
    requires SortedBy(key, s) && SortedBy(key, t) && s != [] && t != []
    requires s[0] in t && t[0] in s
    ensures key(s[0]) == key(t[0])
  {
    HeadIsLeast(key, s, t[0]);
    HeadIsLeast(key, t, s[0]);
    LexTotal(key(s[0]), key(t[0]));
  }

  /** Two sorted lists with the same contents are equal, if equal keys mean equal elements. */
  lemma {:induction false} SortedIsUnique<T>(key: T -> bytes, s: seq<T>, t: seq<T>)
    requires SortedBy(key, s) && SortedBy(key, t) && multiset(s) == multiset(t)
    requires forall x, y :: x in s && y in s && key(x) == key(y) ==> x == y
    ensures s == t
    decreases |s|
  {
    hide LexLe, SortedBy;
    assert |multiset(s)| == |s| && |multiset(t)| == |t|;
    if s != [] {
      assert s[0] in multiset(t) && t[0] in multiset(s);
      SameHead(key, s, t);
      TailContents(s);
      TailContents(t);
      SortedTail(key, s);
      SortedTail(key, t);
      SortedIsUnique(key, s[1..], t[1..]);
      assert s == [s[0]] + s[1..] && t == [t[0]] + t[1..];
    }
  }

  // ---- Plain key lists ----

  predicate Unique(s: seq<bytes>) {
    forall i, j :: 0 <= i < j < |s| ==> s[i] != s[j]
  }

  lemma {:induction false} UniqueCount(s: seq<bytes>, x: bytes)
    requires Unique(s)
    ensures multiset(s)[x] == if x in s then 1 else 0
  {
    if s != [] {
      assert s == [s[0]] + s[1..];
      UniqueCount(s[1..], x);
    }
  }

  /** Lists without repetition that hold the same keys have the same contents. */
  lemma SameKeysSameContents(s: seq<bytes>, t: seq<bytes>)
    requires Unique(s) && Unique(t) && forall x :: x in s <==> x in t
    ensures multiset(s) == multiset(t)
  {
    forall x: bytes
      ensures multiset(s)[x] == multiset(t)[x]
    {
      UniqueCount(s, x);
      UniqueCount(t, x);
    }
  }

  function Self(): bytes -> bytes {
    x => x
  }

  /** KeySort of BIP-327. */
  function KeySort(pks: seq<bytes>): seq<bytes> {
    SortBy(Self(), pks)
  }

  /** Key order is determined by the keys: sorting is idempotent and ignores the input order. */
  lemma KeySortCanonical(pks: seq<bytes>, others: seq<bytes>)
    requires multiset(pks) == multiset(others)
    ensures KeySort(pks) == KeySort(others)
    ensures multiset(KeySort(pks)) == multiset(pks) && |KeySort(pks)| == |pks|
    ensures SortedBy(Self(), KeySort(pks))
  {
    SortContents(Self(), pks);
    SortContents(Self(), others);
    SortSorted(Self(), pks);
    SortSorted(Self(), others);
    SortedIsUnique(Self(), KeySort(pks), KeySort(others));
  }

  lemma KeySortOfSorted(pks: seq<bytes>)
    requires SortedBy(Self(), pks)
    ensures KeySort(pks) == pks
  {
    SortContents(Self(), pks);
    SortSorted(Self(), pks);
    SortedIsUnique(Self(), KeySort(pks), pks);
  }
}
