// The base64 printer, against a strict reader for section 4 of RFC 4648.
module Base64 {
  import opened Wrappers
  import opened Bytes
  import Zn

  const UPPER: string := "ABCDEFGHIJKLMNOPQRSTUVWXYZ"
  const LOWER: string := "abcdefghijklmnopqrstuvwxyz"
  const ALPHABET: string := UPPER + LOWER + "0123456789" + "+/"

  function Symbol(v: nat): char
    requires v < 64
  {
    ALPHABET[v]
  }

  function SymbolValue(ch: char): (r: Option<nat>)
    ensures r.Some? ==> r.value < 64
  {
    if 'A' <= ch <= 'Z' then Some(ch as int - 'A' as int)
    else if 'a' <= ch <= 'z' then Some(ch as int - 'a' as int + 26)
    else if '0' <= ch <= '9' then Some(ch as int - '0' as int + 52)
    else if ch == '+' then Some(62)
    else if ch == '/' then Some(63)
    else None
  }

  lemma Letters(v: nat)
    requires v < 26
    ensures UPPER[v] == 'A' + v as char && LOWER[v] == 'a' + v as char
  {
  }

  lemma SymbolIs(v: nat)
    requires v < 64
    ensures Symbol(v)
         == if v < 26 then 'A' + v as char
            else if v < 52 then 'a' + (v - 26) as char
            else if v < 62 then '0' + (v - 52) as char
            else if v == 62 then '+' else '/'
  {
    if v < 26 { Letters(v); } else if v < 52 { Letters(v - 26); }
    assert v >= 52 ==> Symbol(v) == ("0123456789" + "+/")[v - 52];
  }

  lemma SymbolInverse(ch: char, v: nat)
    requires v < 64
    ensures SymbolValue(ch) == Some(v) <==> ch == Symbol(v)
    ensures Symbol(v) != '='
  {
    hide Symbol;
    SymbolIs(v);
  }

  // ---- Printing ----

  /** A chunk of up to three bytes as a 24-bit number, missing bytes being zero. */
  function Group(chunk: bytes): (n: nat)
    requires 1 <= |chunk| <= 3
  {
    var x: nat := chunk[0];
    var y: nat := if |chunk| > 1 then chunk[1] else 0;
    var z: nat := if |chunk| > 2 then chunk[2] else 0;
    x * 0x10000 + y * 0x100 + z
  }

  /** The number of leading bytes the next chunk takes. */
  function ChunkSize(len: nat): (k: nat)
    requires len > 0
    ensures 1 <= k <= 3 && k <= len
  {
    if len < 3 then len else 3
  }

  method EncodeBase64(data: bytes) returns (out: string)
    ensures Read(out) == Some(data)
  {
    PrintStart(data);
    hide *;
    out := "";
    var i := 0;
    while i < |data|
      invariant 0 <= i <= |data|
      invariant Print(data) == out + Print(data[i..])
      decreases |data| - i
    {
      var k := ChunkSize(|data| - i);
      var chunk := data[i..i + k];
      ghost var before := out;
      var n := Group(chunk);
      out := out + [Symbol(n / 0x40000 % 64)];
      out := out + [Symbol(n / 0x1000 % 64)];
      out := out + [if |chunk| > 1 then Symbol(n / 0x40 % 64) else '='];
      out := out + [if |chunk| > 2 then Symbol(n % 64) else '='];
      QuadSymbols(chunk);
      PrintMore(data, i, before, out);
      i := i + k;
    }
    PrintNothing();
    assert data[i..] == [] && out + [] == out;
    ReadIsPrint(out, data);
  }

  lemma PrintStart(data: bytes)
    ensures "" + Print(data[0..]) == Print(data)
  {
    assert data[0..] == data;
  }

  /** The text after one more chunk. */
  lemma PrintMore(data: bytes, i: nat, before: string, out: string)
    requires i < |data|
    requires var chunk := data[i..i + ChunkSize(|data| - i)];
      out == before + [Quad(chunk)[0]] + [Quad(chunk)[1]] + [Quad(chunk)[2]] + [Quad(chunk)[3]]
    ensures before + Print(data[i..]) == out + Print(data[i + ChunkSize(|data| - i)..])
  {
    hide Quad;
    var k := ChunkSize(|data| - i);
    var chunk := data[i..i + k];
    assert out == before + Quad(chunk);
    PrintNext(data[i..]);
    assert data[i..][..k] == chunk && data[i..][k..] == data[i + k..];
    assert before + (Quad(chunk) + Print(data[i + k..])) == out + Print(data[i + k..]);
  }

  lemma QuadSymbols(chunk: bytes)
    requires 1 <= |chunk| <= 3
    ensures Quad(chunk) == [Symbol(Group(chunk) / 0x40000 % 64), Symbol(Group(chunk) / 0x1000 % 64),
                            if |chunk| > 1 then Symbol(Group(chunk) / 0x40 % 64) else '=',
                            if |chunk| > 2 then Symbol(Group(chunk) % 64) else '=']
  {
    hide Symbol;
    var (x, y, z) := (chunk[0], if |chunk| > 1 then chunk[1] else 0, if |chunk| > 2 then chunk[2] else 0);
    Sextets(x, y, z);
  }

  lemma DigitIs(n: nat, d: nat, q: nat, high: nat, low: nat, rest: nat)
    requires d > 0 && n == q * d + rest && rest < d && q == high * 64 + low && low < 64
    ensures n / d % 64 == low
  {
    Zn.QuotientIs(n, d, q, rest);
    assert (high * 64 + low) % 64 == low;
  }

  /** The four 6-bit digits of three bytes. */
  lemma Sextets(x: nat, y: nat, z: nat)
    requires x < 256 && y < 256 && z < 256
    ensures var n := x * 0x10000 + y * 0x100 + z;
      && n / 0x40000 % 64 == x / 4
      && n / 0x1000 % 64 == x % 4 * 16 + y / 16
      && n / 0x40 % 64 == y % 16 * 4 + z / 64
      && n % 64 == z % 64
  {
    var n := x * 0x10000 + y * 0x100 + z;
    DigitIs(n, 0x40000, x / 4, 0, x / 4, x % 4 * 0x10000 + y * 0x100 + z);
    DigitIs(n, 0x1000, x * 16 + y / 16, x / 4, x % 4 * 16 + y / 16, y % 16 * 0x100 + z);
    DigitIs(n, 0x40, x * 0x400 + y * 4 + z / 64, x * 16 + y / 16, y % 16 * 4 + z / 64, z % 64);
    DigitIs(n, 1, n, x * 0x400 + y * 4 + z / 64, z % 64, 0);
  }

  /** Each symbol stands for six bits; the bits a short chunk lacks are zero or padded. */
  function Quad(chunk: bytes): (s: string)
    requires 1 <= |chunk| <= 3
    ensures |s| == 4
  {
    var (x, y, z) := (chunk[0], if |chunk| > 1 then chunk[1] else 0, if |chunk| > 2 then chunk[2] else 0);
    [Symbol(x / 4), Symbol(x % 4 * 16 + y / 16),
     if |chunk| > 1 then Symbol(y % 16 * 4 + z / 64) else '=',
     if |chunk| > 2 then Symbol(z % 64) else '=']
  }

  function Print(data: bytes): string {
    if data == [] then [] else Quad(data[..ChunkSize(|data|)]) + Print(data[ChunkSize(|data|)..])
  }

  lemma PrintNext(data: bytes)
    requires data != []
    ensures Print(data) == Quad(data[..ChunkSize(|data|)]) + Print(data[ChunkSize(|data|)..])
  {
    hide Quad;
  }

  lemma PrintNothing()
    ensures Print([]) == []
  {
  }

  // ---- Reading ----

  /** Four symbols, of which the last or the last two may be padding after zero bits. */
  function ReadQuad(s: string): (r: Option<bytes>)
    requires |s| == 4
    ensures r.Some? ==> 1 <= |r.value| <= 3
  {
    match (SymbolValue(s[0]), SymbolValue(s[1]))
    case (Some(a), Some(b)) =>
      (match (SymbolValue(s[2]), SymbolValue(s[3]))
       case (Some(d), Some(e)) => Some([a * 4 + b / 16, b % 16 * 16 + d / 4, d % 4 * 64 + e])
       case (Some(d), None) =>
         if s[3] == '=' && d % 4 == 0 then Some([a * 4 + b / 16, b % 16 * 16 + d / 4]) else None
       case (_, _) =>
         if s[2] == '=' && s[3] == '=' && b % 16 == 0 then Some([a * 4 + b / 16]) else None)
    case (_, _) => None
  }

  /** Padding may only end the text. */
  function Read(s: string): (r: Option<bytes>) {
    if s == [] then Some([])
    else if |s| < 4 then None
    else
      var first := ReadQuad(s[..4]);
      var rest := Read(s[4..]);
      if first.None? || rest.None? || (|first.value| < 3 && s[4..] != []) then None
      else Some(first.value + rest.value)
  }

  lemma Bits(a: nat, b: nat, d: nat, e: nat, x: byte, y: byte, z: byte)
    requires a < 64 && b < 64 && d < 64 && e < 64
    ensures a * 4 + b / 16 == x && b % 16 * 16 + d / 4 == y && d % 4 * 64 + e == z
       <==> a == x / 4 && b == x % 4 * 16 + y / 16 && d == y % 16 * 4 + z / 64 && e == z % 64
  {
    SixBits(a, b / 16, x, 4);
    SixBits(b % 16, d / 4, y, 16);
    SixBits(d % 4, e, z, 64);
    var (b1, b0, d1, d0) := (b / 16, b % 16, d / 4, d % 4);
    SplitSix(b, x % 4, y / 16, 16);
    SplitSix(d, y % 16, z / 64, 4);
  }

  /** A byte made of a high part and a part below k. */
  lemma SixBits(high: nat, low: nat, x: byte, k: nat)
    requires k == 4 || k == 16 || k == 64
    requires low < k
    ensures high * k + low == x <==> high == x / k && low == x % k
  {
  }

  /** A six-bit number from its parts. */
  lemma SplitSix(b: nat, high: nat, low: nat, k: nat)
    requires k == 4 || k == 16
    requires low < k
    ensures b == high * k + low <==> b / k == high && b % k == low
  {
  }

  lemma FullQuad(s: string, x: byte, y: byte, z: byte)
    requires |s| == 4
    ensures ReadQuad(s) == Some([x, y, z]) <==> s == Quad([x, y, z])
  {
    hide Symbol, SymbolValue;
    SymbolInverse(s[0], x / 4);
    SymbolInverse(s[1], x % 4 * 16 + y / 16);
    SymbolInverse(s[2], y % 16 * 4 + z / 64);
    SymbolInverse(s[3], z % 64);
    if SymbolValue(s[0]).Some? && SymbolValue(s[1]).Some? && SymbolValue(s[2]).Some? && SymbolValue(s[3]).Some? {
      Bits(SymbolValue(s[0]).value, SymbolValue(s[1]).value, SymbolValue(s[2]).value, SymbolValue(s[3]).value, x, y, z);
    }
  }

  /** Four symbols are three bytes if they have one value as numbers of 24 bits, in base 64 and in base 256. */
  lemma QuadIsNumber(s: string, x: byte, y: byte, z: byte)
    requires |s| == 4
    ensures ReadQuad(s) == Some([x, y, z])
       <==> && (forall i :: 0 <= i < 4 ==> SymbolValue(s[i]).Some?)
            && ((SymbolValue(s[0]).value * 64 + SymbolValue(s[1]).value) * 64 + SymbolValue(s[2]).value) * 64
               + SymbolValue(s[3]).value == (x as int * 256 + y) * 256 + z
  {
    hide SymbolValue;
    if forall i :: 0 <= i < 4 ==> SymbolValue(s[i]).Some? {
      var a, b, d, e := SymbolValue(s[0]).value, SymbolValue(s[1]).value, SymbolValue(s[2]).value, SymbolValue(s[3]).value;
      TwentyFourBits(a, b, d, e, x, y, z);
    }
  }

  lemma TwentyFourBits(a: nat, b: nat, d: nat, e: nat, x: byte, y: byte, z: byte)
    requires a < 64 && b < 64 && d < 64 && e < 64
    ensures a * 4 + b / 16 == x && b % 16 * 16 + d / 4 == y && d % 4 * 64 + e == z
       <==> ((a * 64 + b) * 64 + d) * 64 + e == (x as int * 256 + y) * 256 + z
  {
    var (b1, b0, d1, d0) := (b / 16, b % 16, d / 4, d % 4);
    assert ((a * 64 + b) * 64 + d) * 64 + e == ((a * 4 + b1) * 256 + (b0 * 16 + d1)) * 256 + (d0 * 64 + e);
    if ((a * 64 + b) * 64 + d) * 64 + e == (x as int * 256 + y) * 256 + z {
      assert a * 4 + b1 == x && b0 * 16 + d1 == y && d0 * 64 + e == z;
    }
  }

  lemma PaddedQuad(s: string, x: byte, y: byte)
    requires |s| == 4
    ensures ReadQuad(s) == Some([x, y]) <==> s == Quad([x, y])
  {
    hide Symbol, SymbolValue;
    SymbolInverse(s[0], x / 4);
    SymbolInverse(s[1], x % 4 * 16 + y / 16);
    SymbolInverse(s[2], y % 16 * 4);
    NoValueOfPadding();
    if SymbolValue(s[0]).Some? && SymbolValue(s[1]).Some? && SymbolValue(s[2]).Some? {
      Bits(SymbolValue(s[0]).value, SymbolValue(s[1]).value, SymbolValue(s[2]).value, 0, x, y, 0);
    }
  }

  lemma TwicePaddedQuad(s: string, x: byte)
    requires |s| == 4
    ensures ReadQuad(s) == Some([x]) <==> s == Quad([x])
  {
    hide Symbol, SymbolValue;
    SymbolInverse(s[0], x / 4);
    SymbolInverse(s[1], x % 4 * 16);
    NoValueOfPadding();
    if SymbolValue(s[0]).Some? && SymbolValue(s[1]).Some? {
      Bits(SymbolValue(s[0]).value, SymbolValue(s[1]).value, 0, 0, x, 0, 0);
    }
  }

  lemma NoValueOfPadding()
    ensures SymbolValue('=') == None
  {
  }

  lemma ReadQuadIsQuad(s: string, chunk: bytes)
    requires |s| == 4 && 1 <= |chunk| <= 3
    ensures ReadQuad(s) == Some(chunk) <==> s == Quad(chunk)
  {
    hide ReadQuad, Quad;
    if |chunk| == 3 {
      assert chunk == [chunk[0], chunk[1], chunk[2]];
      FullQuad(s, chunk[0], chunk[1], chunk[2]);
    } else if |chunk| == 2 {
      assert chunk == [chunk[0], chunk[1]];
      PaddedQuad(s, chunk[0], chunk[1]);
    } else {
      assert chunk == [chunk[0]];
      TwicePaddedQuad(s, chunk[0]);
    }
  }

  /** A text reads as the data exactly when it is what is printed for the data. */
  lemma {:induction false} ReadIsPrint(s: string, data: bytes)
    ensures Read(s) == Some(data) <==> s == Print(data)
    decreases |s|
  {
    hide ReadQuad, Quad;
    if |s| >= 4 && data != [] {
      var k := ChunkSize(|data|);
      ReadQuadIsQuad(s[..4], data[..k]);
      ReadIsPrint(s[4..], data[k..]);
      assert s == s[..4] + s[4..] && data == data[..k] + data[k..];
      if Read(s) == Some(data) {
        ReadFirst(s, data);
      }
      if s == Print(data) {
        PrintFirst(s, data);
      }
    }
  }

  lemma ReadFirst(s: string, data: bytes)
    requires |s| >= 4 && data != [] && Read(s) == Some(data)
    ensures ReadQuad(s[..4]) == Some(data[..ChunkSize(|data|)]) && Read(s[4..]) == Some(data[ChunkSize(|data|)..])
  {
    hide ReadQuad;
    var first, rest := ReadQuad(s[..4]).value, Read(s[4..]).value;
    assert data[..|first|] == first && data[|first|..] == rest;
    if |first| < 3 {
      assert s[4..] == [] && rest == [];
    }
  }

  lemma PrintFirst(s: string, data: bytes)
    requires data != [] && s == Print(data)
    ensures |s| >= 4 && s[..4] == Quad(data[..ChunkSize(|data|)]) && s[4..] == Print(data[ChunkSize(|data|)..])
    ensures |data| <= 3 ==> s[4..] == []
  {
    hide Quad;
  }
}
