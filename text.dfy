/**
 * The few pieces of Python string behaviour the converter relies on:
 * `str.lower()` on ASCII text, `bytes.decode('ascii', errors='ignore')`, and
 * the `{n}` and `{n:#x}` formats used in its error messages.
 */
module Text {
  import opened Bytes

  predicate IsAsciiUpper(c: char) { 'A' <= c <= 'Z' }

  function LowerChar(c: char): (r: char)
    ensures !IsAsciiUpper(r)
    ensures IsAsciiUpper(c) ==> r as int == c as int + 32
    ensures !IsAsciiUpper(c) ==> r == c
  {
    if IsAsciiUpper(c) then (c as int + 32) as char else c
  }

  /** `s.lower()` for ASCII letters; other characters are kept. */
  function Lower(s: string): (r: string)
    ensures |r| == |s|
    ensures forall i :: 0 <= i < |s| ==> r[i] == LowerChar(s[i])
  {
    seq(|s|, i requires 0 <= i < |s| => LowerChar(s[i]))
  }

  /** The two strings differ at most in the case of ASCII letters. */
  predicate SameIgnoringCase(a: string, b: string)
  {
    |a| == |b| && forall i :: 0 <= i < |a| ==> LowerChar(a[i]) == LowerChar(b[i])
  }

  /** Lower-casing maps exactly the case variants of a lower-case word onto it. */
  lemma LowerMatchesCaseVariants(s: string, word: string)
    requires Lower(word) == word
    ensures Lower(s) == word <==> SameIgnoringCase(s, word)
  {
    if SameIgnoringCase(s, word) {
      assert forall i :: 0 <= i < |s| ==> Lower(s)[i] == LowerChar(word[i]) == word[i];
    }
    if Lower(s) == word {
      assert forall i :: 0 <= i < |s| ==> LowerChar(s[i]) == Lower(s)[i] == LowerChar(word[i]);
    }
  }

  /** `raw.decode('ascii', errors='ignore')`: bytes above 0x7F are dropped. */
  function AsciiIgnore(raw: seq<byte>): (r: string)
    ensures |r| <= |raw|
    ensures forall i :: 0 <= i < |r| ==> r[i] as int < 0x80
    ensures (forall i :: 0 <= i < |raw| ==> raw[i] < 0x80) ==>
              |r| == |raw| && forall i :: 0 <= i < |raw| ==> r[i] as int == raw[i]
    ensures |raw| == 1 ==> r == if raw[0] < 0x80 then [raw[0] as char] else []
  {
    if raw == [] then ""
    else if raw[0] < 0x80 then [raw[0] as char] + AsciiIgnore(raw[1..])
    else AsciiIgnore(raw[1..])
  }

  /** Decoding a concatenation decodes each part: every byte is kept or dropped on its own. */
  lemma {:induction false} AsciiIgnoreConcat(a: seq<byte>, b: seq<byte>)
    ensures AsciiIgnore(a + b) == AsciiIgnore(a) + AsciiIgnore(b)
  {
    if a != [] {
      assert (a + b)[1..] == a[1..] + b;
      AsciiIgnoreConcat(a[1..], b);
    } else {
      assert a + b == b;
    }
  }

  predicate IsDigitText(s: string)
  {
    forall i :: 0 <= i < |s| ==> '0' <= s[i] <= '9'
  }

  function DigitValue(c: char): int { c as int - '0' as int }

  /** Reads a run of decimal digits, most significant first. */
  function DecimalValue(s: string): int
    requires IsDigitText(s)
  {
    if s == [] then 0 else 10 * DecimalValue(s[..|s| - 1]) + DigitValue(s[|s| - 1])
  }

  /** `f"{n}"` for a non-negative integer. */
  function Decimal(n: nat): (r: string)
    ensures |r| >= 1 && IsDigitText(r)
    ensures DecimalValue(r) == n
    ensures |r| > 1 ==> r[0] != '0'
  {
    var last := ['0' + (n % 10) as char];
    if n < 10 then last
    else
      var r := Decimal(n / 10) + last;
      assert r[..|r| - 1] == Decimal(n / 10);
      r
  }

  function HexDigit(d: nat): (c: char)
    requires d < 16
    ensures IsHexDigit(c) && HexDigitValue(c) == d
  {
    if d < 10 then '0' + d as char else 'a' + (d - 10) as char
  }

  predicate IsHexDigit(c: char) { '0' <= c <= '9' || 'a' <= c <= 'f' }

  function HexDigitValue(c: char): int
  {
    if c <= '9' then c as int - '0' as int else c as int - 'a' as int + 10
  }

  predicate IsHexText(s: string)
  {
    forall i :: 0 <= i < |s| ==> IsHexDigit(s[i])
  }

  /** Reads a run of lower-case hexadecimal digits, most significant first. */
  function HexValue(s: string): int
    requires IsHexText(s)
  {
    if s == [] then 0 else 16 * HexValue(s[..|s| - 1]) + HexDigitValue(s[|s| - 1])
  }

  /** The digits of `f"{n:x}"`: lower-case hexadecimal, no leading zeros. */
  function HexDigits(n: nat): (r: string)
    ensures |r| >= 1 && IsHexText(r)
    ensures HexValue(r) == n
    ensures |r| > 1 ==> r[0] != '0'
  {
    var last := [HexDigit(n % 16)];
    if n < 16 then last
    else
      var r := HexDigits(n / 16) + last;
      assert r[..|r| - 1] == HexDigits(n / 16);
      r
  }

  /** `f"{n:#x}"`: the digits behind a `0x` prefix. */
  function Hex(n: nat): (r: string)
    ensures |r| >= 3 && r[..2] == "0x"
    ensures IsHexText(r[2..]) && HexValue(r[2..]) == n
    ensures |r| > 3 ==> r[2] != '0'
  {
    var digits := HexDigits(n);
    assert ("0x" + digits)[2..] == digits;
    "0x" + digits
  }
}
