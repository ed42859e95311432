/** Python's printf-style integer formatting as genfiles uses it:
    "%d" (through "&#%d;" in the character-reference handler), "%4d" for years
    and "%02d" for months, together with the parse that undoes each of them. */
module Format {

  predicate IsDigit(c: char) { '0' <= c <= '9' }

  predicate AllDigits(s: string) { forall i :: 0 <= i < |s| ==> IsDigit(s[i]) }

  function DigitChar(d: nat): (c: char)
    requires d < 10
    ensures IsDigit(c) && c as int - '0' as int == d
  {
    ('0' as int + d) as char
  }

  function DigitValue(c: char): (d: nat)
    requires IsDigit(c)
    ensures d < 10 && DigitChar(d) == c
  {
    c as int - '0' as int
  }

  /** "%d" of a non-negative integer: its decimal digits, most significant
      first, with no leading zero except for zero itself. */
  function Decimal(n: nat): (r: string)
    ensures 1 <= |r| && AllDigits(r)
    ensures r[0] == '0' <==> n == 0
    decreases n
  {
    if n < 10 then [DigitChar(n)] else Decimal(n / 10) + [DigitChar(n % 10)]
  }

  /** The value of a string of decimal digits (leading zeros allowed). */
  function ParseDigits(s: string): nat
    requires AllDigits(s)
  {
    if s == [] then 0 else ParseDigits(s[..|s| - 1]) * 10 + DigitValue(s[|s| - 1])
  }

  lemma {:induction false} ParseDecimal(n: nat)
    ensures ParseDigits(Decimal(n)) == n
  {
    if n >= 10 {
      var s := Decimal(n);
      assert s[..|s| - 1] == Decimal(n / 10);
      ParseDecimal(n / 10);
    }
  }

  /** Right-justify s in a field of the given width, filling on the left. */
  function PadLeft(s: string, width: nat, fill: char): (r: string)
    ensures |r| == if |s| < width then width else |s|
    ensures r[|r| - |s|..] == s
    ensures forall i :: 0 <= i < |r| - |s| ==> r[i] == fill
  {
    if |s| < width then seq(width - |s|, _ => fill) + s else s
  }

  /** "%4d": the decimal digits, space-padded on the left to exactly four
      characters when shorter (so years below 1000 get leading spaces, never
      zeros), and the plain digits when they already fill four or more. */
  function Int4(n: nat): (r: string)
    ensures |r| >= 4
    ensures forall i :: 0 <= i < |r| ==> IsDigit(r[i]) || r[i] == ' '
    ensures 1000 <= n <= 9999 ==> r == Decimal(n)
  {
    var d := Decimal(n);
    assert 1000 <= n <= 9999 ==> |d| == 4 by {
      if 1000 <= n <= 9999 { DecimalLength4(n); }
    }
    PadLeft(d, 4, ' ')
  }

  /** The width rule of "%4d": exactly four characters when the decimal is
      shorter, otherwise the decimal itself with no padding at all. */
  lemma Int4Width(n: nat)
    ensures |Int4(n)| == if |Decimal(n)| < 4 then 4 else |Decimal(n)|
    ensures |Decimal(n)| >= 4 ==> Int4(n) == Decimal(n)
  {
  }

  /** "%02d": the decimal digits, zero-padded on the left to at least two. */
  function Zero2(n: nat): (r: string)
    ensures |r| >= 2 && AllDigits(r)
    ensures n < 100 ==> |r| == 2
  {
    assert n < 100 ==> |Decimal(n)| <= 2 by {
      if 10 <= n < 100 { assert Decimal(n) == Decimal(n / 10) + [DigitChar(n % 10)]; }
    }
    PadLeft(Decimal(n), 2, '0')
  }

  lemma DecimalLength4(n: nat)
    requires 1000 <= n <= 9999
    ensures |Decimal(n)| == 4
  {
    assert Decimal(n) == Decimal(n / 10) + [DigitChar(n % 10)];
    assert Decimal(n / 10) == Decimal(n / 100) + [DigitChar(n / 10 % 10)];
    assert Decimal(n / 100) == Decimal(n / 1000) + [DigitChar(n / 100 % 10)];
  }

  /** Drop every leading occurrence of c. */
  function TrimLeft(s: string, c: char): (r: string)
    ensures |r| <= |s| && r == s[|s| - |r|..]
    ensures r == [] || r[0] != c
  {
    if s != [] && s[0] == c then TrimLeft(s[1..], c) else s
  }

  lemma {:induction false} TrimPadding(k: nat, c: char, s: string)
    requires s != [] && s[0] != c
    ensures TrimLeft(seq(k, _ => c) + s, c) == s
  {
    if k > 0 {
      assert (seq(k, _ => c) + s)[1..] == seq(k - 1, _ => c) + s;
      TrimPadding(k - 1, c, s);
    } else {
      assert seq(k, _ => c) + s == s;
    }
  }

  lemma {:induction false} ParseLeadingZeros(k: nat, s: string)
    requires AllDigits(s)
    ensures AllDigits(seq(k, _ => '0') + s)
    ensures ParseDigits(seq(k, _ => '0') + s) == ParseDigits(s)
    decreases |s|, k
  {
    var z := seq(k, _ => '0');
    if s == [] {
      assert z + s == z;
      if k > 0 {
        assert z[..|z| - 1] == seq(k - 1, _ => '0') + [];
        ParseLeadingZeros(k - 1, []);
      }
    } else {
      var t := s[..|s| - 1];
      assert (z + s)[..|z + s| - 1] == z + t;
      ParseLeadingZeros(k, t);
    }
  }

  /** Reading a "%4d" field back: the padding is spaces only, and skipping
      it leaves the plain decimal, which parses to the year that was written. */
  lemma Int4RoundTrip(n: nat)
    ensures TrimLeft(Int4(n), ' ') == Decimal(n)
    ensures AllDigits(TrimLeft(Int4(n), ' '))
    ensures ParseDigits(TrimLeft(Int4(n), ' ')) == n
  {
    var d := Decimal(n);
    var k := if |d| < 4 then 4 - |d| else 0;
    assert Int4(n) == seq(k, _ => ' ') + d;
    TrimPadding(k, ' ', d);
    ParseDecimal(n);
  }

  /** Parsing a "%02d" field, leading zero included, gives the month back. */
  lemma Zero2RoundTrip(n: nat)
    ensures ParseDigits(Zero2(n)) == n
  {
    var d := Decimal(n);
    var k := if |d| < 2 then 2 - |d| else 0;
    assert Zero2(n) == seq(k, _ => '0') + d;
    ParseLeadingZeros(k, d);
    ParseDecimal(n);
  }

  lemma Int4Injective(m: nat, n: nat)
    requires Int4(m) == Int4(n)
    ensures m == n
  {
    Int4RoundTrip(m);
    Int4RoundTrip(n);
  }

  lemma Zero2Injective(m: nat, n: nat)
    requires Zero2(m) == Zero2(n)
    ensures m == n
  {
    Zero2RoundTrip(m);
    Zero2RoundTrip(n);
  }

  /** A separator that occurs in neither left part splits a joined string
      uniquely. */
  lemma SplitAtSeparator(a: string, b: string, a': string, b': string, c: char)
    requires c !in a && c !in a'
    requires a + [c] + b == a' + [c] + b'
    ensures a == a' && b == b'
  {
    var s := a + [c] + b;
    assert s[|a|] == c && s[|a'|] == c;
    assert a == s[..|a|] == a';
    assert b == s[|a| + 1..] == b';
  }
}
