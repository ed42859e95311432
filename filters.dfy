/** The three Cheetah output filters of genfiles (html_entities,
    strict_ascii, utf8). Each turns one placeholder value into the bytes
    written to the generated file. */
module Filters {
  import opened Format

  type CodePoint = c: int | 0 <= c < 0x11_0000
  type Byte = b: int | 0 <= b < 0x100

  /** A value handed to a filter: a unicode string (given by its code points;
      a UTF-8 byte string is taken as what it decodes to), None, or any other
      object, of which only the bytes of str(val) matter. */
  datatype Value =
    | Unicode(text: seq<CodePoint>)
    | NoneValue
    | Other(str: seq<Byte>)

  const Ampersand: Byte := 38
  const Hash: Byte := 35
  const Semicolon: Byte := 59

  predicate IsAscii(s: seq<int>) { forall i :: 0 <= i < |s| ==> 0 <= s[i] < 0x80 }

  predicate IsDigitByte(b: int) { 48 <= b <= 57 }

  /** The ASCII bytes of "%d" % n. */
  function DigitBytes(n: nat): (r: seq<Byte>)
    ensures 1 <= |r| && forall i :: 0 <= i < |r| ==> IsDigitByte(r[i])
  {
    var d := Decimal(n);
    seq(|d|, i requires 0 <= i < |d| => d[i] as int)
  }

  /** The value of a run of ASCII digit bytes. */
  function ParseDigitBytes(b: seq<Byte>): nat
    requires forall i :: 0 <= i < |b| ==> IsDigitByte(b[i])
  {
    ParseDigits(seq(|b|, i requires 0 <= i < |b| && IsDigitByte(b[i]) => DigitChar(b[i] - 48)))
  }

  lemma DigitBytesRoundTrip(n: nat)
    ensures ParseDigitBytes(DigitBytes(n)) == n
  {
    var b := DigitBytes(n);
    assert seq(|b|, i requires 0 <= i < |b| && IsDigitByte(b[i]) => DigitChar(b[i] - 48)) == Decimal(n);
    ParseDecimal(n);
  }

  /** One code point through the ASCII codec with the 'xmlcharrefreplace'
      error handler: ASCII is kept, anything else becomes "&#<decimal>;". */
  function CharRef(c: CodePoint): (r: seq<Byte>)
    ensures IsAscii(r) && 1 <= |r|
    ensures c < 0x80 <==> r == [c]
  {
    if c < 0x80 then [c] else [Ampersand, Hash] + DigitBytes(c) + [Semicolon]
  }

  function XmlCharRefReplace(s: seq<CodePoint>): (r: seq<Byte>)
    ensures IsAscii(r) && |s| <= |r|
  {
    if s == [] then [] else CharRef(s[0]) + XmlCharRefReplace(s[1..])
  }

  /** html_entities.filter */
  function HtmlEntities(v: Value): (r: seq<Byte>)
    ensures v.NoneValue? ==> r == []
    ensures v.Unicode? ==> IsAscii(r) && |v.text| <= |r|
    ensures v.Other? ==> r == v.str
  {
    match v
    case Unicode(text) => XmlCharRefReplace(text)
    case NoneValue => []
    case Other(str) => str
  }

  /** The ASCII codec with the 'ignore' error handler. */
  function DropNonAscii(s: seq<CodePoint>): (r: seq<Byte>)
    ensures IsAscii(r) && |r| <= |s|
  {
    if s == [] then []
    else (if s[0] < 0x80 then [s[0] as Byte] else []) + DropNonAscii(s[1..])
  }

  /** strict_ascii.filter */
  function StrictAscii(v: Value): (r: seq<Byte>)
    ensures v.NoneValue? ==> r == []
    ensures v.Unicode? ==> IsAscii(r) && |r| <= |v.text|
    ensures v.Other? ==> r == v.str
  {
    match v
    case Unicode(text) => DropNonAscii(text)
    case NoneValue => []
    case Other(str) => str
  }

  /** utf8.filter. The UTF-8 codec itself is a library call and is passed in. */
  function Utf8(v: Value, encode: seq<CodePoint> -> seq<Byte>): (r: seq<Byte>)
    ensures v.NoneValue? ==> r == []
    ensures v.Other? ==> r == v.str
    ensures v.Unicode? ==> r == encode(v.text)
  {
    match v
    case Unicode(text) => encode(text)
    case NoneValue => []
    case Other(str) => str
  }

  // ----- html_entities -----

  /** The character-reference replacement works one code point at a time. */
  lemma {:induction false} XmlCharRefReplaceAppend(a: seq<CodePoint>, b: seq<CodePoint>)
    ensures XmlCharRefReplace(a + b) == XmlCharRefReplace(a) + XmlCharRefReplace(b)
    decreases |a|
  {
    if a != [] {
      assert (a + b)[1..] == a[1..] + b;
      XmlCharRefReplaceAppend(a[1..], b);
    } else {
      assert a + b == b;
    }
  }

  /** ASCII text passes html_entities unchanged. */
  lemma {:induction false} HtmlEntitiesKeepsAscii(s: seq<CodePoint>)
    requires IsAscii(s)
    ensures HtmlEntities(Unicode(s)) == s
    decreases |s|
  {
    if s != [] {
      HtmlEntitiesKeepsAscii(s[1..]);
    }
  }

  /** Reads character references "&#<digits>;" back into code points; every
      other byte stands for itself. */
  function Unescape(b: seq<Byte>): seq<int>
    decreases |b|
  {
    if b == [] then []
    else if |b| >= 2 && b[0] == Ampersand && b[1] == Hash then
      var k := DigitRun(b[2..]);
      if 0 < k && 2 + k < |b| && b[2 + k] == Semicolon then
        [ParseDigitBytes(b[2..2 + k])] + Unescape(b[3 + k..])
      else [b[0]] + Unescape(b[1..])
    else [b[0]] + Unescape(b[1..])
  }

  /** Length of the run of digit bytes at the front of b. */
  function DigitRun(b: seq<Byte>): (k: nat)
    ensures k <= |b|
    ensures forall i :: 0 <= i < k ==> IsDigitByte(b[i])
    ensures k < |b| ==> !IsDigitByte(b[k])
  {
    if b == [] || !IsDigitByte(b[0]) then 0 else 1 + DigitRun(b[1..])
  }

  lemma {:induction false} DigitRunStopsAtSemicolon(d: seq<Byte>, rest: seq<Byte>)
    requires forall i :: 0 <= i < |d| ==> IsDigitByte(d[i])
    ensures DigitRun(d + [Semicolon] + rest) == |d|
    decreases |d|
  {
    if d != [] {
      assert (d + [Semicolon] + rest)[1..] == d[1..] + [Semicolon] + rest;
      DigitRunStopsAtSemicolon(d[1..], rest);
    }
  }

  lemma UnescapePlain(b: seq<Byte>)
    requires b != [] && b[0] != Ampersand
    ensures Unescape(b) == [b[0]] + Unescape(b[1..])
  {
  }

  lemma UnescapeReference(b: seq<Byte>, k: nat)
    requires |b| >= 2 && b[0] == Ampersand && b[1] == Hash
    requires DigitRun(b[2..]) == k && 0 < k && 2 + k < |b| && b[2 + k] == Semicolon
    ensures Unescape(b) == [ParseDigitBytes(b[2..2 + k])] + Unescape(b[3 + k..])
  {
  }

  /** One replaced code point reads back as itself. */
  lemma UnescapeCharRef(c: CodePoint, rest: seq<Byte>)
    requires c != Ampersand as int
    ensures Unescape(CharRef(c) + rest) == [c] + Unescape(rest)
  {
    if c < 0x80 {
      var b := [c as Byte] + rest;
      assert CharRef(c) + rest == b;
      assert b[1..] == rest;
      UnescapePlain(b);
    } else {
      UnescapeNonAscii(c, rest);
    }
  }

  lemma UnescapeNonAscii(c: CodePoint, rest: seq<Byte>)
    requires c >= 0x80
    ensures Unescape(CharRef(c) + rest) == [c] + Unescape(rest)
  {
    var d := DigitBytes(c);
    var b := [Ampersand, Hash] + (d + [Semicolon] + rest);
    assert CharRef(c) + rest == b;
    assert b[2..] == d + [Semicolon] + rest;
    DigitRunStopsAtSemicolon(d, rest);
    assert b[2..2 + |d|] == d;
    assert b[3 + |d|..] == rest;
    UnescapeReference(b, |d|);
    DigitBytesRoundTrip(c);
  }

  /** html_entities loses nothing on text without a literal '&': the code
      points come back from the references in order. */
  lemma {:induction false} HtmlEntitiesRoundTrip(s: seq<CodePoint>)
    requires forall i :: 0 <= i < |s| ==> s[i] != Ampersand as int
    ensures Unescape(HtmlEntities(Unicode(s))) == s
    decreases |s|
  {
    if s != [] {
      UnescapeCharRef(s[0], XmlCharRefReplace(s[1..]));
      HtmlEntitiesRoundTrip(s[1..]);
    }
  }

  // ----- strict_ascii -----

  lemma {:induction false} DropNonAsciiAppend(a: seq<CodePoint>, b: seq<CodePoint>)
    ensures DropNonAscii(a + b) == DropNonAscii(a) + DropNonAscii(b)
    decreases |a|
  {
    if a != [] {
      assert (a + b)[1..] == a[1..] + b;
      DropNonAsciiAppend(a[1..], b);
    } else {
      assert a + b == b;
    }
  }

  /** ASCII text passes strict_ascii unchanged. */
  lemma {:induction false} StrictAsciiKeepsAscii(s: seq<CodePoint>)
    requires IsAscii(s)
    ensures StrictAscii(Unicode(s)) == s
    decreases |s|
  {
    if s != [] {
      StrictAsciiKeepsAscii(s[1..]);
    }
  }

  /** Filtering the filter's own output again changes nothing. */
  lemma StrictAsciiIdempotent(s: seq<CodePoint>)
    ensures StrictAscii(Unicode(StrictAscii(Unicode(s)))) == StrictAscii(Unicode(s))
  {
    StrictAsciiKeepsAscii(DropNonAscii(s));
  }

  /** A code point is in the output exactly when it is an ASCII code point of
      the input. */
  lemma {:induction false} StrictAsciiMembers(s: seq<CodePoint>, c: int)
    ensures c in StrictAscii(Unicode(s)) <==> c in s && c < 0x80
    decreases |s|
  {
    if s != [] {
      StrictAsciiMembers(s[1..], c);
      assert s == [s[0]] + s[1..];
    }
  }
}
