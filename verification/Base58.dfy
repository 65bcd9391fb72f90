// Base58Check: the two in-place base conversion loops, and the proof that printer and parser
// undo each other.
module Base58 {
  import opened Wrappers
  import opened Bytes
  import opened Curve
  import opened Radix
  import opened Zn

  /** The alphabet 1-9 A-H J-N P-Z a-k m-z. */
  function CharOf(d: nat): (ch: char)
    requires d < 58
  {
    if d < 9 then ('1' as int + d) as char
    else if d < 17 then ('A' as int + d - 9) as char
    else if d < 22 then ('J' as int + d - 17) as char
    else if d < 33 then ('P' as int + d - 22) as char
    else if d < 44 then ('a' as int + d - 33) as char
    else ('m' as int + d - 44) as char
  }

  function IndexOf(ch: char): (r: Option<nat>)
    ensures r.Some? ==> r.value < 58 && CharOf(r.value) == ch
    ensures r.None? ==> forall d :: 0 <= d < 58 ==> CharOf(d) != ch
  {
    var x := ch as int;
    if '1' <= ch <= '9' then Some(x - '1' as int)
    else if 'A' <= ch <= 'H' then Some(x - 'A' as int + 9)
    else if 'J' <= ch <= 'N' then Some(x - 'J' as int + 17)
    else if 'P' <= ch <= 'Z' then Some(x - 'P' as int + 22)
    else if 'a' <= ch <= 'k' then Some(x - 'a' as int + 33)
    else if 'm' <= ch <= 'z' then Some(x - 'm' as int + 44)
    else None
  }

  lemma IndexOfChar(d: nat)
    requires d < 58
    ensures IndexOf(CharOf(d)) == Some(d)
  {
  }

  /** The alphabet in ascending order: all ASCII digits and letters but 0, O, I and l. */
  lemma AlphabetExactly(d: nat, e: nat, ch: char)
    requires d < e < 58
    ensures CharOf(d) < CharOf(e)
    ensures IndexOf(ch).Some?
       <==> ('0' <= ch <= '9' || 'A' <= ch <= 'Z' || 'a' <= ch <= 'z') && ch !in "0OIl"
  {
  }

  function Chars(ds: seq<nat>): (s: string)
    requires forall i :: 0 <= i < |ds| ==> ds[i] < 58
    ensures |s| == |ds|
  {
    seq(|ds|, i requires 0 <= i < |ds| => CharOf(ds[i]))
  }

  /** The digit values of a text, or None at the first character outside the alphabet. */
  function Indices(s: string): (r: Option<seq<nat>>)
    ensures r.Some? ==> |r.value| == |s| && Digits(58, r.value)
    ensures r.Some? ==> forall i :: 0 <= i < |s| ==> IndexOf(s[i]) == Some(r.value[i])
    ensures r.None? ==> exists i :: 0 <= i < |s| && IndexOf(s[i]).None?
  {
    if s == [] then Some([])
    else
      var n := |s| - 1;
      match Indices(s[..n])
      case None => None
      case Some(ds) => match IndexOf(s[n])
        case None => None
        case Some(d) => Some(ds + [d])
  }

  lemma IndicesOfChars(ds: seq<nat>)
    requires Digits(58, ds)
    ensures Indices(Chars(ds)) == Some(ds)
  {
    forall i | 0 <= i < |ds|
      ensures IndexOf(Chars(ds)[i]) == Some(ds[i])
    {
      IndexOfChar(ds[i]);
    }
    assert Indices(Chars(ds)).Some?;
    assert Indices(Chars(ds)).value == ds;
  }

  lemma CharsOfIndices(s: string)
    requires Indices(s).Some?
    ensures Chars(Indices(s).value) == s
  {
    forall i | 0 <= i < |s|
      ensures Chars(Indices(s).value)[i] == s[i]
    {
      assert IndexOf(s[i]) == Some(Indices(s).value[i]);
    }
  }

  function Checksummed(c: Crypto, data: bytes): bytes {
    data + c.sha256d(data)[..4]
  }

  function Base58CheckEncode(c: Crypto, data: bytes): string {
    var v := Checksummed(c, data);
    WrittenReadsBack(58, LeadingZeros(v), BigEndian(256, v));
    Chars(Written(58, LeadingZeros(v), BigEndian(256, v)))
  }

  function Base58CheckDecode(c: Crypto, s: string): Option<bytes> {
    match Indices(s)
    case None => None
    case Some(ds) =>
      WrittenReadsBack(256, LeadingZeros(ds), BigEndian(58, ds));
      var out: bytes := Written(256, LeadingZeros(ds), BigEndian(58, ds));
      if |out| < 4 then None
      else
        var body := out[..|out| - 4];
        if c.sha256d(body)[..4] != out[|out| - 4..] then None else Some(body)
  }

  /** Parsing what was printed gives the data back, and nothing else parses to it: a text is
      accepted with result `data` exactly when it is the text printed for `data`. */
  lemma Base58CheckInverse(c: Crypto, s: string, data: bytes)
    ensures Base58CheckDecode(c, s) == Some(data) <==> s == Base58CheckEncode(c, data)
  {
    if s == Base58CheckEncode(c, data) {
      PrintThenParse(c, data);
    }
    if Base58CheckDecode(c, s) == Some(data) {
      ParseThenPrint(c, s);
    }
  }

  lemma {:induction false} BigEndianIsBE(v: bytes)
    ensures BigEndian(256, v) == BE(v)
  {
    hide BE;
    if v == [] {
      NoBytes();
    } else {
      BigEndianIsBE(v[..|v| - 1]);
      BEAppend(v[..|v| - 1], v[|v| - 1]);
      assert v == v[..|v| - 1] + [v[|v| - 1]];
    }
  }

  lemma NoBytes()
    ensures BE([]) == 0
  {
  }

  /** The text of data is the number, in base 58, of the data with the first four bytes of its double SHA-256
      behind it, with a digit zero for every leading zero byte. */
  lemma TextIsNumber(c: Crypto, s: string, data: bytes)
    ensures var v := data + c.sha256d(data)[..4];
      Base58CheckDecode(c, s) == Some(data)
      <==> && Indices(s).Some? && BigEndian(58, Indices(s).value) == BE(v)
           && LeadingZeros(Indices(s).value) == LeadingZeros(v)
  {
    Base58CheckInverse(c, s, data);
    var v := Checksummed(c, data);
    BigEndianIsBE(v);
    hide Base58CheckDecode, Chars, Written, BigEndian, BE, LeadingZeros, Indices;
    WrittenReadsBack(58, LeadingZeros(v), BigEndian(256, v));
    IndicesOfChars(Written(58, LeadingZeros(v), BigEndian(256, v)));
    if Indices(s).Some? {
      WrittenIsUnique(58, Indices(s).value);
      CharsOfIndices(s);
    }
  }

  lemma PrintThenParse(c: Crypto, data: bytes)
    ensures Base58CheckDecode(c, Base58CheckEncode(c, data)) == Some(data)
  {
    var v := Checksummed(c, data);
    var z, n := LeadingZeros(v), BigEndian(256, v);
    WrittenReadsBack(58, z, n);
    IndicesOfChars(Written(58, z, n));
    WrittenIsUnique(256, v);
    assert v[..|v| - 4] == data && v[|v| - 4..] == c.sha256d(data)[..4];
  }

  lemma ParseThenPrint(c: Crypto, s: string)
    requires Base58CheckDecode(c, s).Some?
    ensures Base58CheckEncode(c, Base58CheckDecode(c, s).value) == s
  {
    var ds := Indices(s).value;
    var z, n := LeadingZeros(ds), BigEndian(58, ds);
    var out := Written(256, z, n);
    WrittenReadsBack(256, z, n);
    assert Checksummed(c, Base58CheckDecode(c, s).value) == out;
    WrittenIsUnique(58, ds);
    CharsOfIndices(s);
  }

  /** One digit of a pass. */
  lemma PassNext(b: nat, m: nat, digits: seq<nat>, j: nat, carry: nat)
    requires b > 1 && j < |digits|
    ensures var val := digits[j] * m + carry;
      val >= 0 && val / b >= 0
      && MulAdd(b, m, digits[j..], carry) == [val % b] + MulAdd(b, m, digits[j + 1..], val / b)
  {
    assert digits[j..][0] == digits[j] && digits[j..][1..] == digits[j + 1..];
  }

  /** The digits a pass pushes for what is left of the carry. */
  lemma PassEnd(b: nat, m: nat, carry: nat)
    requires b > 1
    ensures MulAdd(b, m, [], carry) == ToDigits(b, carry)
    ensures carry == 0 ==> ToDigits(b, carry) == []
    ensures carry > 0 ==> 0 <= carry / b < carry && ToDigits(b, carry) == [carry % b] + ToDigits(b, carry / b)
  {
    if carry > 0 { QuotientSmaller(b, carry); }
  }

  lemma ReplaceDigit(out: seq<nat>, j: nat, x: nat, rest: seq<nat>)
    requires j < |out|
    ensures out[j := x][..j + 1] + rest == out[..j] + ([x] + rest)
    ensures out[j := x][j + 1..] == out[j..][1..]
  {
  }

  lemma PushDigit(out: seq<nat>, x: nat, rest: seq<nat>)
    ensures (out + [x]) + rest == out + ([x] + rest)
  {
  }

  /** One digit vector multiplied by m with a carry added, in place, and extended by what
      remains of the carry. */
  method MultiplyInPlace(b: nat, m: nat, digits: seq<nat>, add: nat) returns (out: seq<nat>)
    requires b > 1 && 0 < m && add < m
    requires Digits(b, digits)
    ensures out == MulAdd(b, m, digits, add)
    ensures Digits(b, out)
  {
    hide MulAdd, ToDigits;
    out := digits;
    var carry: nat := add;
    var j := 0;
    assert digits[0..] == digits && out[..0] + MulAdd(b, m, digits, add) == MulAdd(b, m, digits, add);
    while j < |digits|
      invariant 0 <= j <= |digits| == |out| && carry < m
      invariant out[j..] == digits[j..]
      invariant out[..j] + MulAdd(b, m, digits[j..], carry) == MulAdd(b, m, digits, add)
    {
      assert out[j..][0] == digits[j..][0];
      var val := out[j] * m + carry;
      CarryStaysSmall(b, m, out[j], carry);
      PassNext(b, m, digits, j, carry);
      ReplaceDigit(out, j, val % b, MulAdd(b, m, digits[j + 1..], val / b));
      out := out[j := val % b];
      carry := val / b;
      j := j + 1;
    }
    assert out[..j] == out && digits[j..] == [];
    PassEnd(b, m, carry);
    while carry > 0
      invariant out + ToDigits(b, carry) == MulAdd(b, m, digits, add)
      decreases carry
    {
      PassEnd(b, m, carry);
      PushDigit(out, carry % b, ToDigits(b, carry / b));
      out := out + [carry % b];
      carry := carry / b;
    }
    PassEnd(b, m, carry);
    assert out + [] == out;
    MulAddValue(b, m, digits, add);
  }

  /** The carry between two columns stays below the multiplier. */
  lemma CarryStaysSmall(b: nat, m: nat, d: nat, carry: nat)
    requires b > 1 && d < b && carry < m
    ensures 0 <= (d * m + carry) / b < m
  {
    var val := d * m + carry;
    var q, r := val / b, val % b;
    assert val == b * q + r && 0 <= r < b;
    assert d * m <= (b - 1) * m by { MulMono(d, b - 1, m); }
    if q >= m { MulMono(m, q, b); }
    if q < 0 { MulMono(q, -1, b); }
  }

  lemma AppendDigit(b: nat, v: seq<nat>, i: nat)
    requires i < |v|
    ensures BigEndian(b, v[..i + 1]) == b * BigEndian(b, v[..i]) + v[i]
  {
    assert v[..i + 1][..i] == v[..i];
  }

  method CountLeading(v: seq<nat>) returns (zeros: nat)
    ensures zeros == LeadingZeros(v)
  {
    zeros := 0;
    while zeros < |v| && v[zeros] == 0
      invariant zeros <= |v| && forall i :: 0 <= i < zeros ==> v[i] == 0
    {
      zeros := zeros + 1;
    }
    LeadingZerosAre(v, zeros);
  }

  /** The conversion loop of the printer. */
  method ConvertDigits(v: bytes) returns (digits: seq<nat>)
    ensures digits == ToDigits(58, BigEndian(256, v))
  {
    digits := [];
    var i := 0;
    while i < |v|
      invariant 0 <= i <= |v|
      invariant digits == ToDigits(58, BigEndian(256, v[..i]))
    {
      ghost var n := BigEndian(256, v[..i]);
      ToDigitsIsCanonical(58, n);
      digits := MultiplyInPlace(58, 256, digits, v[i]);
      MulAddOfDigits(58, 256, n, v[i]);
      AppendDigit(256, v, i);
      i := i + 1;
    }
    assert v[..i] == v;
  }

  lemma CharsNext(x: seq<nat>, d: nat)
    requires Digits(58, x) && d < 58
    ensures Digits(58, x + [d]) && Chars(x + [d]) == Chars(x) + [CharOf(d)]
  {
    hide CharOf;
  }

  /** The digits printed so far: the leading zeros, then digits from the top. */
  ghost function PrintedDigits(zeros: nat, digits: seq<nat>, left: nat): (ds: seq<nat>)
    requires left <= |digits| && Digits(58, digits)
    ensures Digits(58, ds)
  {
    Zeros(zeros) + Reverse(digits)[..|digits| - left]
  }

  lemma PrintDigit(zeros: nat, digits: seq<nat>, left: nat)
    requires 0 < left <= |digits| && Digits(58, digits)
    ensures PrintedDigits(zeros, digits, left - 1) == PrintedDigits(zeros, digits, left) + [digits[left - 1]]
  {
    var r, k := Reverse(digits), |digits| - left;
    assert r[..k + 1] == r[..k] + [r[k]];
  }

  lemma PrintEnds(zeros: nat, digits: seq<nat>)
    requires Digits(58, digits)
    ensures PrintedDigits(zeros, digits, |digits|) == Zeros(zeros)
    ensures PrintedDigits(zeros, digits, 0) == Zeros(zeros) + Reverse(digits)
  {
    assert Reverse(digits)[..|digits|] == Reverse(digits);
  }

  lemma ZeroChars(zeros: nat)
    ensures Digits(58, Zeros(zeros)) && Chars(Zeros(zeros)) == seq(zeros, _ => '1')
  {
  }

  lemma EncodeIs(c: Crypto, data: bytes, digits: seq<nat>)
    requires var v := Checksummed(c, data); digits == ToDigits(58, BigEndian(256, v))
    ensures Digits(58, digits)
    ensures Base58CheckEncode(c, data) == Chars(PrintedDigits(LeadingZeros(Checksummed(c, data)), digits, 0))
  {
    hide ToDigits, BigEndian, Checksummed, LeadingZeros, Chars, PrintedDigits;
    var v := Checksummed(c, data);
    ToDigitsIsCanonical(58, BigEndian(256, v));
    PrintEnds(LeadingZeros(v), digits);
    WrittenReadsBack(58, LeadingZeros(v), BigEndian(256, v));
  }

  /** base58check_encode. */
  method EncodeBase58Check(c: Crypto, data: bytes) returns (out: string)
    ensures out == Base58CheckEncode(c, data)
  {
    var v := Checksummed(c, data);
    var zeros := CountLeading(v);
    var digits := ConvertDigits(v);
    EncodeIs(c, data, digits);
    hide ToDigits, BigEndian, Checksummed, LeadingZeros, CharOf, Chars, Base58CheckEncode, PrintedDigits;
    out := seq(zeros, _ => '1');
    ZeroChars(zeros);
    PrintEnds(zeros, digits);
    var j := |digits|;
    while j > 0
      invariant 0 <= j <= |digits|
      invariant out == Chars(PrintedDigits(zeros, digits, j))
    {
      PrintDigit(zeros, digits, j);
      CharsNext(PrintedDigits(zeros, digits, j), digits[j - 1]);
      j := j - 1;
      out := out + [CharOf(digits[j])];
    }
  }

  /** What the parser's number holds after a text of digits. */
  ghost function NumberOf(s: string): (num: seq<nat>)
    requires Indices(s).Some?
    ensures Digits(256, num)
  {
    ToDigitsIsCanonical(256, BigEndian(58, Indices(s).value));
    ToDigits(256, BigEndian(58, Indices(s).value))
  }

  lemma NumberGrows(s: string, i: nat)
    requires i < |s| && Indices(s[..i]).Some? && IndexOf(s[i]).Some?
    ensures Indices(s[..i + 1]).Some?
    ensures NumberOf(s[..i + 1]) == MulAdd(256, 58, NumberOf(s[..i]), IndexOf(s[i]).value)
  {
    hide Indices, MulAdd, ToDigits, BigEndian, IndexOf;
    var ds, d := Indices(s[..i]).value, IndexOf(s[i]).value;
    OneMoreIndex(s, i);
    PushedDigit(58, ds, d);
    MulAddOfDigits(256, 58, BigEndian(58, ds), d);
  }

  lemma PushedDigit(b: nat, ds: seq<nat>, d: nat)
    ensures BigEndian(b, ds + [d]) == b * BigEndian(b, ds) + d
  {
    assert (ds + [d])[..|ds|] == ds;
  }

  /** The conversion loop of the parser, which stops at a character outside the alphabet. */
  method ReadNumber(s: string) returns (r: Option<seq<nat>>)
    ensures r.Some? <==> Indices(s).Some?
    ensures r.Some? ==> r.value == NumberOf(s)
  {
    var num: seq<nat> := [];
    var i := 0;
    assert NumberOf(s[..0]) == [];
    while i < |s|
      invariant 0 <= i <= |s|
      invariant Indices(s[..i]).Some? && num == NumberOf(s[..i])
    {
      hide NumberOf, MulAdd;
      var idx := IndexOf(s[i]);
      if idx.None? {
        NoIndices(s, i);
        return None;
      }
      num := MultiplyInPlace(256, 58, num, idx.value);
      NumberGrows(s, i);
      i := i + 1;
    }
    assert s[..i] == s;
    return Some(num);
  }

  lemma OneMoreIndex(s: string, i: nat)
    requires i < |s| && Indices(s[..i]).Some? && IndexOf(s[i]).Some?
    ensures Indices(s[..i + 1]) == Some(Indices(s[..i]).value + [IndexOf(s[i]).value])
  {
    assert s[..i + 1][..i] == s[..i];
  }

  method CountOnes(s: string) returns (zeros: nat)
    requires Indices(s).Some?
    ensures zeros == LeadingZeros(Indices(s).value)
  {
    zeros := 0;
    while zeros < |s| && s[zeros] == '1'
      invariant zeros <= |s| && forall k :: 0 <= k < zeros ==> s[k] == '1'
    {
      zeros := zeros + 1;
    }
    LeadingZerosAre(Indices(s).value, zeros);
  }

  lemma DecodeNothing(c: Crypto, s: string)
    ensures Indices(s).None? ==> Base58CheckDecode(c, s) == None
  {
  }

  lemma DecodeIs(c: Crypto, s: string, all: bytes)
    requires Indices(s).Some?
    requires all == Written(256, LeadingZeros(Indices(s).value), BigEndian(58, Indices(s).value))
    ensures |all| < 4 ==> Base58CheckDecode(c, s) == None
    ensures |all| >= 4 ==> |c.sha256d(all[..|all| - 4])| == 32
    ensures |all| >= 4 ==>
      Base58CheckDecode(c, s) == if c.sha256d(all[..|all| - 4])[..4] != all[|all| - 4..] then None
                                 else Some(all[..|all| - 4])
  {
    hide Written, BigEndian, Indices, LeadingZeros;
  }

  lemma NumberIsWritten(s: string)
    requires Indices(s).Some?
    ensures var all := Zeros(LeadingZeros(Indices(s).value)) + Reverse(NumberOf(s));
      && all == Written(256, LeadingZeros(Indices(s).value), BigEndian(58, Indices(s).value))
      && forall i :: 0 <= i < |all| ==> all[i] < 256
  {
    hide Indices, LeadingZeros, BigEndian, ToDigits, Reverse, Zeros;
    WrittenReadsBack(256, LeadingZeros(Indices(s).value), BigEndian(58, Indices(s).value));
  }

  /** base58check_decode. */
  method DecodeBase58Check(c: Crypto, s: string) returns (r: Option<bytes>)
    ensures r == Base58CheckDecode(c, s)
  {
    hide *;
    var num := ReadNumber(s);
    DecodeNothing(c, s);
    if num.None? {
      return None;
    }
    var zeros := CountOnes(s);
    var all := Zeros(zeros) + Reverse(num.value);
    NumberIsWritten(s);
    var out: bytes := all;
    DecodeIs(c, s, out);
    if |out| < 4 {
      return None;
    }
    var body, checksum := out[..|out| - 4], out[|out| - 4..];
    if c.sha256d(body)[..4] != checksum {
      return None;
    }
    return Some(body);
  }

  lemma NoIndices(s: string, i: nat)
    requires i < |s| && IndexOf(s[i]).None?
    ensures Indices(s).None?
  {
  }
}
