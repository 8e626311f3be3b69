/**
 Byte strings as the tagger writes them: Python `bytes` literals of ASCII text
 and `bytes.fromhex`, with upper-case hex rendering as its inverse.
 */
module Bytes {
  import opened Results

  newtype byte = b: int | 0 <= b < 256

  /** Every character of `s` is 7-bit ASCII, so `s` can be written as a `b'…'` literal. */
  predicate IsAscii(s: string) {
    forall k :: 0 <= k < |s| ==> s[k] as int < 128
  }

  /** The bytes of an ASCII `b'…'` literal. */
  function Ascii(s: string): (r: seq<byte>)
    requires IsAscii(s)
    ensures |r| == |s|
    ensures forall k :: 0 <= k < |s| ==> r[k] as int == s[k] as int
  {
    if |s| == 0 then [] else [s[0] as int as byte] + Ascii(s[1..])
  }

  /** The white space `bytes.fromhex` skips between byte pairs (C's `isspace` on ASCII). */
  predicate IsHexSpace(c: char) {
    c == ' ' || ('\t' <= c <= '\r')
  }

  /** The value of one hexadecimal digit in either case, or `None` for any other character. */
  function DigitValue(c: char): (v: Option<nat>)
    ensures v.Some? ==> v.value < 16
    ensures v.Some? ==> !IsHexSpace(c)
  {
    if '0' <= c <= '9' then Some(c as int - '0' as int)
    else if 'a' <= c <= 'f' then Some(c as int - 'a' as int + 10)
    else if 'A' <= c <= 'F' then Some(c as int - 'A' as int + 10)
    else None
  }

  /** The upper-case hexadecimal digit for `n`. */
  function Digit(n: nat): (c: char)
    requires n < 16
    ensures DigitValue(c) == Some(n)
  {
    if n < 10 then ('0' as int + n) as char else ('A' as int + n - 10) as char
  }

  /** Every upper-case digit is the rendering of its own value. */
  lemma DigitOfValue(c: char)
    requires IsUpperDigit(c)
    ensures DigitValue(c).Some? && Digit(DigitValue(c).value) == c
  {
  }

  /** A character `Digit` can produce. */
  predicate IsUpperDigit(c: char) {
    '0' <= c <= '9' || 'A' <= c <= 'F'
  }

  /**
   `bytes.fromhex(s)`: white space may precede each pair of digits, the two
   digits of a pair must be adjacent, and anything else (a stray character, an
   odd digit at the end) raises, modelled as `None`.
   */
  function FromHex(s: string): (r: Option<seq<byte>>)
    ensures r.Some? ==> 2 * |r.value| + Spaces(s) == |s|
    ensures (exists k :: 0 <= k < |s| && !IsHexSpace(s[k]) && DigitValue(s[k]).None?) ==> r.None?
    decreases |s|
  {
    if |s| == 0 then Some([])
    else if IsHexSpace(s[0]) then FromHex(s[1..])
    else if |s| < 2 || DigitValue(s[0]).None? || DigitValue(s[1]).None? then None
    else match FromHex(s[2..])
      case None => None
      case Some(rest) => Some([(DigitValue(s[0]).value * 16 + DigitValue(s[1]).value) as byte] + rest)
  }

  /** The number of white-space characters in `s`. */
  function Spaces(s: string): nat {
    if |s| == 0 then 0 else (if IsHexSpace(s[0]) then 1 else 0) + Spaces(s[1..])
  }

  /** Upper-case hexadecimal rendering, two digits per byte, no separators. */
  function ToHex(b: seq<byte>): (s: string)
    ensures |s| == 2 * |b|
  {
    if |b| == 0 then ""
    else [Digit(b[0] as int / 16), Digit(b[0] as int % 16)] + ToHex(b[1..])
  }

  /** The two digits rendering the byte at position `i`. */
  lemma {:induction false} ToHexAt(b: seq<byte>, i: nat)
    requires i < |b|
    ensures ToHex(b)[2 * i] == Digit(b[i] as int / 16)
    ensures ToHex(b)[2 * i + 1] == Digit(b[i] as int % 16)
    decreases i
  {
    if i > 0 {
      ToHexAt(b[1..], i - 1);
    }
  }

  /** Rendering distributes over concatenation. */
  lemma {:induction false} ToHexAppend(a: seq<byte>, b: seq<byte>)
    ensures ToHex(a + b) == ToHex(a) + ToHex(b)
  {
    if |a| == 0 {
      assert a + b == b;
    } else {
      ToHexAppend(a[1..], b);
      var pair, x, y := [Digit(a[0] as int / 16), Digit(a[0] as int % 16)], ToHex(a[1..]), ToHex(b);
      assert (a + b)[1..] == a[1..] + b;
      assert ToHex(a + b) == pair + (x + y);
      assert pair + (x + y) == (pair + x) + y;
    }
  }

  /** Parsing the rendering gives back the bytes. */
  lemma {:induction false} FromHexToHex(b: seq<byte>)
    ensures FromHex(ToHex(b)) == Some(b)
  {
    if |b| > 0 {
      FromHexToHex(b[1..]);
      var s := ToHex(b);
      assert s[2..] == ToHex(b[1..]);
      assert [b[0]] + b[1..] == b;
    }
  }

  /** A canonical hex string (upper-case, no white space, whole pairs) is the rendering of what it parses to. */
  lemma {:induction false} ToHexFromHex(s: string)
    requires |s| % 2 == 0
    requires forall k :: 0 <= k < |s| ==> IsUpperDigit(s[k])
    ensures FromHex(s).Some? && ToHex(FromHex(s).value) == s
    decreases |s|
  {
    if |s| > 0 {
      ToHexFromHex(s[2..]);
      var hi := DigitValue(s[0]).value;
      var lo := DigitValue(s[1]).value;
      var b := (hi * 16 + lo) as byte;
      DigitOfValue(s[0]);
      DigitOfValue(s[1]);
      assert b as int / 16 == hi && b as int % 16 == lo;
      assert s == [s[0], s[1]] + s[2..];
      var rest := FromHex(s[2..]).value;
      assert !IsHexSpace(s[0]) && FromHex(s) == Some([b] + rest);
      assert ([b] + rest)[0] == b && ([b] + rest)[1..] == rest;
      assert ToHex([b] + rest) == [s[0], s[1]] + ToHex(rest);
    }
  }
}
