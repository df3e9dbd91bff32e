/** The parts of Python's str and bytes behaviour that the core relies on:
    whitespace, strip/split, int() and str() of integers, ASCII and UTF-8, unhexlify. */
module Text {
  import opened Wrappers
  import opened Bytes

  /** str.isspace() for one character. */
  predicate IsSpace(c: char)
  {
    var n := c as int;
    n == 32 || 9 <= n <= 13 || 28 <= n <= 31 || n == 0x85 || n == 0xa0 || n == 0x1680
    || 0x2000 <= n <= 0x200a || n == 0x2028 || n == 0x2029 || n == 0x202f || n == 0x205f || n == 0x3000
  }

  predicate StartsWith(s: string, prefix: string)
  {
    |prefix| <= |s| && s[..|prefix|] == prefix
  }

  function LStrip(s: string): (r: string)
    ensures |r| <= |s| && r == s[|s| - |r|..]
    ensures r == [] || !IsSpace(r[0])
  {
    if s != [] && IsSpace(s[0]) then LStrip(s[1..]) else s
  }

  function RStrip(s: string): (r: string)
    ensures |r| <= |s| && r == s[..|r|]
    ensures r == [] || !IsSpace(r[|r| - 1])
  {
    if s != [] && IsSpace(s[|s| - 1]) then RStrip(s[..|s| - 1]) else s
  }

  /** str.strip() with no argument. */
  function Strip(s: string): string
  {
    RStrip(LStrip(s))
  }

  lemma StripUnpadded(s: string)
    requires s == [] || (!IsSpace(s[0]) && !IsSpace(s[|s| - 1]))
    ensures Strip(s) == s
  {
  }

  predicate IsDigit(c: char) { '0' <= c <= '9' }

  predicate AllDigits(s: string) { forall i :: 0 <= i < |s| ==> IsDigit(s[i]) }

  function DigitChar(d: int): (c: char)
    requires 0 <= d < 10
    ensures IsDigit(c) && c as int - '0' as int == d
  {
    ('0' as int + d) as char
  }

  /** The value of a string of decimal digits, most significant first. */
  function DigitsValue(s: string): nat
    requires AllDigits(s)
  {
    if s == [] then 0 else 10 * DigitsValue(s[..|s| - 1]) + (s[|s| - 1] as int - '0' as int)
  }

  /** str(n) for a natural number: the shortest decimal numeral. */
  function NatText(n: nat): (r: string)
    ensures |r| > 0 && AllDigits(r)
    ensures r[0] == '0' ==> n == 0
  {
    if n < 10 then [DigitChar(n)] else NatText(n / 10) + [DigitChar(n % 10)]
  }

  /** str(n) for any integer (int_nn in pg.py). */
  function DecimalText(n: int): string
  {
    if n < 0 then "-" + NatText(-n) else NatText(n)
  }

  /** A numeral as int() accepts it: ASCII digits, where single underscores may
      separate two digits. */
  predicate IsNumeral(s: string)
  {
    s != [] && IsDigit(s[0]) && IsDigit(s[|s| - 1])
    && (forall i :: 0 <= i < |s| ==> IsDigit(s[i]) || s[i] == '_')
    && (forall i, j :: 0 <= i < |s| && 0 <= j < |s| && j == i + 1 && s[i] == '_' ==> s[j] != '_')
  }

  /** The digits of a numeral, underscores dropped. */
  function NumeralDigits(s: string): (r: string)
    requires forall i :: 0 <= i < |s| ==> IsDigit(s[i]) || s[i] == '_'
    ensures AllDigits(r) && |r| <= |s|
    ensures AllDigits(s) ==> r == s
  {
    if s == [] then []
    else if s[0] == '_' then NumeralDigits(s[1..])
    else [s[0]] + NumeralDigits(s[1..])
  }

  /** int(s) on a str: surrounding whitespace, an optional sign, then a numeral. */
  function ParseInt(s: string): (r: Option<int>)
    ensures r.Some? ==> exists k :: 0 <= k < |s| && IsDigit(s[k])
  {
    var t := Strip(s);
    if t != [] && (t[0] == '-' || t[0] == '+') then
      if IsNumeral(t[1..]) then
        var v: int := DigitsValue(NumeralDigits(t[1..]));
        assert IsDigit(t[1]);
        Some(if t[0] == '-' then -v else v)
      else None
    else if IsNumeral(t) then
      assert IsDigit(t[0]);
      Some(DigitsValue(NumeralDigits(t)))
    else None
  }

  lemma {:induction false} DigitsValueNatText(n: nat)
    ensures DigitsValue(NatText(n)) == n
  {
    var r := NatText(n);
    if n >= 10 {
      DigitsValueNatText(n / 10);
      assert r[..|r| - 1] == NatText(n / 10);
    }
  }

  /** int(str(n)) == n: the decimal text of an integer reads back as that integer. */
  lemma ParseDecimalText(n: int)
    ensures ParseInt(DecimalText(n)) == Some(n)
  {
    if n < 0 {
      ParseNegativeText(n);
    } else {
      ParseNatText(n);
    }
  }

  lemma DigitsNumeral(s: string)
    requires s != [] && AllDigits(s)
    ensures IsNumeral(s) && NumeralDigits(s) == s
  {
  }

  /** int() of a plain run of digits is their value. */
  lemma ParseDigits(t: string)
    requires t != [] && AllDigits(t)
    ensures ParseInt(t).Some? && ParseInt(t).value == DigitsValue(t)
  {
    assert IsDigit(t[0]) && IsDigit(t[|t| - 1]);
    assert !IsSpace(t[0]) && !IsSpace(t[|t| - 1]);
    StripUnpadded(t);
    DigitsNumeral(t);
    assert !(t[0] == '-' || t[0] == '+');
  }

  /** int() of '-' and a run of digits is minus their value. */
  lemma ParseNegativeDigits(u: string)
    requires u != [] && AllDigits(u)
    ensures ParseInt("-" + u).Some? && ParseInt("-" + u).value == -(DigitsValue(u) as int)
  {
    var t := "-" + u;
    assert t[1..] == u && t[0] == '-' && t[|t| - 1] == u[|u| - 1];
    assert !IsSpace(t[0]) && !IsSpace(t[|t| - 1]);
    StripUnpadded(t);
    DigitsNumeral(u);
  }

  lemma ParseNatText(n: nat)
    ensures ParseInt(NatText(n)).Some? && ParseInt(NatText(n)).value == n
  {
    ParseDigits(NatText(n));
    DigitsValueNatText(n);
  }

  lemma ParseNegativeText(n: int)
    requires n < 0
    ensures ParseInt(DecimalText(n)).Some? && ParseInt(DecimalText(n)).value == n
  {
    var u := NatText(-n);
    assert DecimalText(n) == "-" + u;
    ParseNegativeDigits(u);
    DigitsValueNatText(-n);
    assert DigitsValue(u) == -n;
  }

  /** str.encode('ascii'): fails on any character outside 0..127. */
  function EncodeAscii(s: string): (r: Option<bytes>)
    ensures r.Some? ==> |r.value| == |s|
    ensures r.Some? <==> forall i :: 0 <= i < |s| ==> s[i] as int < 128
    ensures r.Some? ==> forall i :: 0 <= i < |s| ==> r.value[i] as int == s[i] as int
  {
    if s == [] then Some([])
    else if s[0] as int < 128 then
      match EncodeAscii(s[1..])
      case Some(rest) => Some([s[0] as int as byte] + rest)
      case None => None
    else None
  }

  /** bytes.decode('ascii'): fails on any byte outside 0..127. */
  function DecodeAscii(b: bytes): (r: Option<string>)
    ensures r.Some? ==> |r.value| == |b|
    ensures r.Some? <==> forall i :: 0 <= i < |b| ==> b[i] < 128
    ensures r.Some? ==> forall i :: 0 <= i < |b| ==> r.value[i] as int == b[i] as int
  {
    if b == [] then Some([])
    else if b[0] < 128 then
      match DecodeAscii(b[1..])
      case Some(rest) => Some([b[0] as int as char] + rest)
      case None => None
    else None
  }

  /** The UTF-8 encoding of one Unicode scalar value. */
  function Utf8Char(c: char): (r: bytes)
    ensures 1 <= |r| <= 4
    ensures c as int < 128 ==> r == [c as int as byte]
  {
    var n := c as int;
    if n < 0x80 then [n as byte]
    else if n < 0x800 then [(0xc0 + n / 64) as byte, (0x80 + n % 64) as byte]
    else if n < 0x10000 then
      [(0xe0 + n / 4096) as byte, (0x80 + n / 64 % 64) as byte, (0x80 + n % 64) as byte]
    else
      [(0xf0 + n / 262144) as byte, (0x80 + n / 4096 % 64) as byte,
       (0x80 + n / 64 % 64) as byte, (0x80 + n % 64) as byte]
  }

  /** str.encode('utf-8'). */
  function EncodeUtf8(s: string): bytes
  {
    if s == [] then [] else EncodeUtf8(s[..|s| - 1]) + Utf8Char(s[|s| - 1])
  }

  /** A text that ends in a newline encodes to bytes that end in 0x0a. */
  lemma Utf8EndsInNewline(s: string)
    requires s != [] && s[|s| - 1] == '\n'
    ensures var b := EncodeUtf8(s); b != [] && b[|b| - 1] == 10
  {
  }

  function HexDigitValue(c: char): Option<int>
  {
    if '0' <= c <= '9' then Some(c as int - '0' as int)
    else if 'a' <= c <= 'f' then Some(c as int - 'a' as int + 10)
    else if 'A' <= c <= 'F' then Some(c as int - 'A' as int + 10)
    else None
  }

  /** binascii.unhexlify: an even number of hex digits, two per byte. */
  function Unhexlify(s: string): (r: Option<bytes>)
    ensures r.Some? ==> 2 * |r.value| == |s|
  {
    if s == [] then Some([])
    else if |s| == 1 then None
    else
      match (HexDigitValue(s[0]), HexDigitValue(s[1]), Unhexlify(s[2..]))
      case (Some(hi), Some(lo), Some(rest)) => Some([(16 * hi + lo) as byte] + rest)
      case _ => None
  }

  /** The index of the first whitespace character at or after i (or |s|). */
  function WordEnd(s: string, i: nat): (j: nat)
    requires i <= |s|
    ensures i <= j <= |s|
    ensures forall k :: i <= k < j ==> !IsSpace(s[k])
    ensures j < |s| ==> IsSpace(s[j])
    decreases |s| - i
  {
    if i == |s| || IsSpace(s[i]) then i else WordEnd(s, i + 1)
  }

  /** The index of the first non-whitespace character at or after i (or |s|). */
  function SpaceEnd(s: string, i: nat): (j: nat)
    requires i <= |s|
    ensures i <= j <= |s|
    ensures forall k :: i <= k < j ==> IsSpace(s[k])
    ensures j < |s| ==> !IsSpace(s[j])
    decreases |s| - i
  {
    if i == |s| || !IsSpace(s[i]) then i else SpaceEnd(s, i + 1)
  }

  /** `a, b, c = s.split(None, 2)` on a string without leading whitespace: the first
      two words and the remainder; None when there are fewer than three parts. */
  function SplitThree(s: string): (r: Option<(string, string, string)>)
    requires s == [] || !IsSpace(s[0])
    ensures r.Some? ==> r.value.0 != [] && r.value.1 != [] && r.value.2 != []
    ensures r.Some? ==> forall k :: 0 <= k < |r.value.0| ==> !IsSpace(r.value.0[k])
    ensures r.Some? ==> forall k :: 0 <= k < |r.value.1| ==> !IsSpace(r.value.1[k])
  {
    var e1 := WordEnd(s, 0);
    var s2 := SpaceEnd(s, e1);
    var e2 := WordEnd(s, s2);
    var s3 := SpaceEnd(s, e2);
    if e1 > 0 && e2 > s2 && s3 < |s| then Some((s[..e1], s[s2..e2], s[s3..])) else None
  }

  lemma {:induction false} WordEndAt(s: string, i: nat, j: nat)
    requires i <= j < |s| && IsSpace(s[j])
    requires forall k :: i <= k < j ==> !IsSpace(s[k])
    ensures WordEnd(s, i) == j
    decreases j - i
  {
    if i < j {
      WordEndAt(s, i + 1, j);
    }
  }

  /** Splitting a line made of two words and a remainder gives them back. */
  lemma SplitThreeWords(a: string, b: string, c: string)
    requires a != [] && b != [] && c != [] && !IsSpace(c[0])
    requires forall k :: 0 <= k < |a| ==> !IsSpace(a[k])
    requires forall k :: 0 <= k < |b| ==> !IsSpace(b[k])
    ensures SplitThree(a + " " + b + " " + c) == Some((a, b, c))
  {
    var s := a + " " + b + " " + c;
    var e1, e2 := |a|, |a| + 1 + |b|;
    assert WordEnd(s, 0) == e1 by {
      assert forall k :: 0 <= k < |a| ==> s[k] == a[k];
      WordEndAt(s, 0, e1);
    }
    assert SpaceEnd(s, e1) == e1 + 1 by {
      assert s[e1] == ' ' && s[e1 + 1] == (b + " " + c)[0];
    }
    assert WordEnd(s, e1 + 1) == e2 by {
      assert forall k :: 0 <= k < |b| ==> s[e1 + 1 + k] == b[k];
      WordEndAt(s, e1 + 1, e2);
    }
    assert SpaceEnd(s, e2) == e2 + 1 by {
      assert s[e2] == ' ' && s[e2 + 1] == c[0];
    }
    assert s[..e1] == a && s[e1 + 1..e2] == b && s[e2 + 1..] == c;
    SplitAt(s, e1, e2);
  }

  lemma SplitAt(s: string, e1: nat, e2: nat)
    requires s == [] || !IsSpace(s[0])
    requires 0 < e1 && e1 + 1 < e2 && e2 + 1 < |s|
    requires WordEnd(s, 0) == e1 && SpaceEnd(s, e1) == e1 + 1
    requires WordEnd(s, e1 + 1) == e2 && SpaceEnd(s, e2) == e2 + 1
    ensures SplitThree(s) == Some((s[..e1], s[e1 + 1..e2], s[e2 + 1..]))
  {
  }

  /** A line whose text neither starts nor ends with whitespace strips to that text. */
  lemma StripLine(s: string)
    requires s != [] && !IsSpace(s[0]) && !IsSpace(s[|s| - 1])
    ensures Strip(s + "\n") == s
  {
    var t := s + "\n";
    assert t[0] == s[0] && t[|t| - 1] == '\n' && t[..|t| - 1] == s;
    assert LStrip(t) == t;
    assert RStrip(s) == s;
    assert RStrip(t) == RStrip(s);
  }

  /** Bytes that spell an ASCII text decode to it. */
  lemma DecodeAsciiOf(b: bytes, s: string)
    requires |b| == |s| && forall i :: 0 <= i < |b| ==> b[i] as int == s[i] as int < 128
    ensures DecodeAscii(b) == Some(s)
  {
    var d := DecodeAscii(b);
    assert d.Some?;
    assert d.value == s;
  }

  /** ASCII decoding undoes ASCII encoding. */
  lemma DecodeEncodeAscii(s: string)
    requires EncodeAscii(s).Some?
    ensures DecodeAscii(EncodeAscii(s).value) == Some(s)
  {
    var d := DecodeAscii(EncodeAscii(s).value);
    assert d.Some?;
    assert d.value == s;
  }

  function HexDigit(d: int): (c: char)
    requires 0 <= d < 16
    ensures HexDigitValue(c) == Some(d)
  {
    if d < 10 then ('0' as int + d) as char else ('a' as int + d - 10) as char
  }

  /** binascii.hexlify: two lower-case hex digits per byte. */
  function Hexlify(b: bytes): (r: string)
    ensures |r| == 2 * |b|
    ensures forall k :: 0 <= k < |r| ==> HexDigitValue(r[k]).Some? && r[k] as int < 128 && !IsSpace(r[k])
  {
    if b == [] then [] else [HexDigit(b[0] as int / 16), HexDigit(b[0] as int % 16)] + Hexlify(b[1..])
  }

  lemma {:induction false} UnhexlifyHexlify(b: bytes)
    ensures Unhexlify(Hexlify(b)) == Some(b)
  {
    if b != [] {
      UnhexlifyHexlify(b[1..]);
      var h := Hexlify(b);
      assert h[2..] == Hexlify(b[1..]);
      assert [b[0]] + b[1..] == b;
    }
  }
}
