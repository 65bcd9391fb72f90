// The operations on text that the parsers share: trimming white space and splitting.
module Text {
  /** char::is_whitespace: the Unicode White_Space property. */
  predicate IsWhite(ch: char) {
    var x := ch as int;
    0x9 <= x <= 0xD || x == 0x20 || x == 0x85 || x == 0xA0 || x == 0x1680 || 0x2000 <= x <= 0x200A
    || x == 0x2028 || x == 0x2029 || x == 0x202F || x == 0x205F || x == 0x3000
  }

  function TrimStart(s: string): string {
    if s != [] && IsWhite(s[0]) then TrimStart(s[1..]) else s
  }

  function TrimEnd(s: string): (r: string)
    ensures r <= s
    ensures r != s ==> s != [] && IsWhite(s[|s| - 1])
  {
    if s != [] && IsWhite(s[|s| - 1]) then TrimEnd(s[..|s| - 1]) else s
  }

  function Trim(s: string): string {
    TrimEnd(TrimStart(s))
  }

  /** A text with no white space at either end is its own trimming. */
  lemma TrimKeeps(s: string)
    requires s != [] && !IsWhite(s[0]) && !IsWhite(s[|s| - 1])
    ensures Trim(s) == s
  {
  }

  ghost predicate AllWhite(s: string) {
    forall ch :: ch in s ==> IsWhite(ch)
  }

  lemma {:induction false} TrimStartIs(s: string) returns (a: string)
    ensures s == a + TrimStart(s) && AllWhite(a)
    ensures TrimStart(s) != [] ==> !IsWhite(TrimStart(s)[0])
  {
    a := [];
    if s != [] && IsWhite(s[0]) {
      a := TrimStartIs(s[1..]);
      a := [s[0]] + a;
      assert s == [s[0]] + s[1..];
    }
  }

  lemma {:induction false} TrimEndIs(s: string) returns (b: string)
    ensures s == TrimEnd(s) + b && AllWhite(b)
    ensures TrimEnd(s) != [] ==> !IsWhite(TrimEnd(s)[|TrimEnd(s)| - 1])
  {
    b := [];
    if s != [] && IsWhite(s[|s| - 1]) {
      b := TrimEndIs(s[..|s| - 1]);
      b := b + [s[|s| - 1]];
      assert s == s[..|s| - 1] + [s[|s| - 1]];
    }
  }

  /** t is what is left of a text between white space at both ends. */
  ghost predicate IsMiddle(s: string, a: string, t: string, b: string) {
    && s == a + t + b && AllWhite(a) && AllWhite(b)
    && (t != [] ==> !IsWhite(t[0]) && !IsWhite(t[|t| - 1]))
  }

  lemma TrimIsMiddle(s: string) returns (a: string, b: string)
    ensures IsMiddle(s, a, Trim(s), b)
  {
    a := TrimStartIs(s);
    b := TrimEndIs(TrimStart(s));
    assert a + (Trim(s) + b) == a + Trim(s) + b;
  }

  /** A middle starts no later than another does, if it has a character at all. */
  lemma StartsFirst(s: string, a: string, t: string, b: string, a': string, t': string, b': string)
    requires IsMiddle(s, a, t, b) && IsMiddle(s, a', t', b') && t != []
    ensures t' != [] && |a'| <= |a| && |a| + |t| <= |a'| + |t'|
  {
    var first, last := |a|, |a| + |t| - 1;
    assert s[first] == t[0] && s[last] == t[|t| - 1];
    NotInMargin(s, a', t', b', first);
    NotInMargin(s, a', t', b', last);
  }

  lemma MarginIsWhite(s: string, a: string, t: string, b: string, i: nat)
    requires IsMiddle(s, a, t, b) && i < |s| && (i < |a| || i >= |a| + |t|)
    ensures IsWhite(s[i])
  {
    hide IsWhite;
    assert s[i] == if i < |a| then a[i] else b[i - |a| - |t|];
  }

  lemma NotInMargin(s: string, a: string, t: string, b: string, i: nat)
    requires IsMiddle(s, a, t, b) && i < |s| && !IsWhite(s[i])
    ensures |a| <= i < |a| + |t|
  {
    hide IsWhite, IsMiddle;
    if i < |a| || i >= |a| + |t| { MarginIsWhite(s, a, t, b, i); }
  }

  lemma OneMiddle(s: string, a: string, t: string, b: string, a': string, t': string, b': string)
    requires IsMiddle(s, a, t, b) && IsMiddle(s, a', t', b') && t != []
    ensures t == t'
  {
    hide IsWhite;
    StartsFirst(s, a, t, b, a', t', b');
    StartsFirst(s, a', t', b', a, t, b);
    assert t == s[|a|..|a| + |t|] && t' == s[|a'|..|a'| + |t'|];
  }

  /** Trimming takes all the white space at both ends and nothing else. */
  lemma TrimExactly(s: string, t: string)
    ensures Trim(s) == t <==> exists a, b :: IsMiddle(s, a, t, b)
  {
    var a, b := TrimIsMiddle(s);
    if a', b' :| IsMiddle(s, a', t, b') {
      if t != [] {
        OneMiddle(s, a', t, b', a, Trim(s), b);
      } else if Trim(s) != [] {
        OneMiddle(s, a, Trim(s), b, a', t, b');
      }
    }
  }

  /** Only the end of the last part of a text is trimmed. */
  lemma {:induction false} TrimEndOfAppend(s: string, t: string)
    requires s != [] && !IsWhite(s[|s| - 1])
    ensures TrimEnd(s + t) == s + TrimEnd(t)
    decreases |t|
  {
    if t == [] {
      assert s + t == s;
    } else if IsWhite(t[|t| - 1]) {
      TrimEndOfAppend(s, t[..|t| - 1]);
      assert (s + t)[..|s + t| - 1] == s + t[..|t| - 1];
    }
  }

  lemma {:induction false} TrimEndKeeps(s: string, ch: char)
    requires !IsWhite(ch)
    ensures ch in TrimEnd(s) <==> ch in s
  {
    if s != [] && IsWhite(s[|s| - 1]) {
      TrimEndKeeps(s[..|s| - 1], ch);
      assert s == s[..|s| - 1] + [s[|s| - 1]];
    }
  }

  /** str::split at every occurrence of a character. */
  function Split(s: string, sep: char): (parts: seq<string>)
    ensures parts != []
    ensures forall p :: p in parts ==> sep !in p
  {
    if s == [] then [[]]
    else if s[0] == sep then [[]] + Split(s[1..], sep)
    else
      var rest := Split(s[1..], sep);
      [[s[0]] + rest[0]] + rest[1..]
  }

  lemma {:induction false} SplitWhole(s: string, sep: char)
    requires sep !in s
    ensures Split(s, sep) == [s]
  {
    if s != [] {
      SplitWhole(s[1..], sep);
      assert s == [s[0]] + s[1..];
    }
  }

  /** Splitting stops at the first separator and goes on behind it. */
  lemma {:induction false} SplitAt(head: string, sep: char, tail: string)
    requires sep !in head
    ensures Split(head + [sep] + tail, sep) == [head] + Split(tail, sep)
  {
    var s := head + [sep] + tail;
    if head == [] {
      assert s[1..] == tail;
    } else {
      SplitAt(head[1..], sep, tail);
      assert s[1..] == head[1..] + [sep] + tail;
      assert head == [head[0]] + head[1..];
    }
  }

  lemma {:induction false} SplitCount(s: string, sep: char)
    ensures |Split(s, sep)| > 1 <==> sep in s
  {
    if s != [] {
      SplitCount(s[1..], sep);
    }
  }

  /** What stands before the first separator. */
  function Before(s: string, sep: char): (r: string)
    ensures r <= s && sep !in r
    ensures |r| < |s| ==> s[|r|] == sep
    ensures |r| == |s| ==> sep !in s
  {
    if s == [] || s[0] == sep then [] else [s[0]] + Before(s[1..], sep)
  }

  lemma {:induction false} BeforeIs(head: string, sep: char, tail: string)
    requires sep !in head
    ensures Before(head + [sep] + tail, sep) == head
  {
    if head != [] {
      BeforeIs(head[1..], sep, tail);
      assert (head + [sep] + tail)[1..] == head[1..] + [sep] + tail;
      assert head == [head[0]] + head[1..];
    }
  }

  /** str::splitn: at most n parts, the last of which is not split any further. */
  function SplitN(s: string, n: nat, sep: char): (parts: seq<string>) {
    var head := Before(s, sep);
    if n == 0 then [] else if n == 1 || |head| == |s| then [s]
    else [head] + SplitN(s[|head| + 1..], n - 1, sep)
  }

  lemma SplitNAt(head: string, sep: char, tail: string, n: nat)
    requires sep !in head && n >= 2
    ensures SplitN(head + [sep] + tail, n, sep) == [head] + SplitN(tail, n - 1, sep)
  {
    BeforeIs(head, sep, tail);
    assert (head + [sep] + tail)[|head| + 1..] == tail;
  }
}
