/** String operations of the JavaScript runtime that the source relies on:
    String.prototype.trim, Buffer.toString('hex'), parseInt(s, 10), Number(s)
    and ASCII case folding. */
module Text {
  import opened Wrappers

  /** A string request value as JavaScript tests it with `!value`: undefined and "" are
      falsy, every other string is truthy. */
  predicate Truthy(v: Option<string>) {
    v.Some? && v.value != ""
  }

  /** The characters that JavaScript's trim() and parseInt() skip: WhiteSpace and
      LineTerminator of the ECMAScript grammar. */
  predicate IsWhitespace(c: char) {
    || c == ' ' || c == '\t' || c == '\n' || c == '\r'
    || c == '\U{B}' || c == '\U{C}' || c == '\U{A0}' || c == '\U{1680}'
    || ('\U{2000}' <= c <= '\U{200A}')
    || c == '\U{2028}' || c == '\U{2029}' || c == '\U{202F}' || c == '\U{205F}'
    || c == '\U{3000}' || c == '\U{FEFF}'
  }

  ghost predicate AllWhitespace(s: string) {
    forall k :: 0 <= k < |s| ==> IsWhitespace(s[k])
  }

  /** Number of whitespace characters at the start of s. */
  function LeadingWs(s: string): (n: nat)
    ensures n <= |s|
    ensures AllWhitespace(s[..n])
    ensures n == |s| || !IsWhitespace(s[n])
  {
    if |s| == 0 || !IsWhitespace(s[0]) then 0
    else
      var m := LeadingWs(s[1..]);
      assert s[..1 + m] == [s[0]] + s[1..][..m];
      1 + m
  }

  /** Number of whitespace characters at the end of s. */
  function TrailingWs(s: string): (n: nat)
    ensures n <= |s|
    ensures AllWhitespace(s[|s| - n..])
    ensures n == |s| || !IsWhitespace(s[|s| - n - 1])
  {
    if |s| == 0 || !IsWhitespace(s[|s| - 1]) then 0
    else
      var p := s[..|s| - 1];
      var m := TrailingWs(p);
      assert s[|s| - (1 + m)..] == p[|p| - m..] + [s[|s| - 1]];
      1 + m
  }

  /** r is s with whitespace removed from both ends and nothing else. */
  ghost predicate IsTrimOf(r: string, s: string) {
    && (r == [] || (!IsWhitespace(r[0]) && !IsWhitespace(r[|r| - 1])))
    && exists i, j :: 0 <= i <= j <= |s| && r == s[i..j] && AllWhitespace(s[..i]) && AllWhitespace(s[j..])
  }

  /** String.prototype.trim. */
  function Trim(s: string): (r: string)
    ensures IsTrimOf(r, s)
  {
    var i := LeadingWs(s);
    var rest := s[i..];
    var n := TrailingWs(rest);
    var j := i + (|rest| - n);
    assert rest[..|rest| - n] == s[i..j];
    assert s[j..] == rest[|rest| - n..];
    assert n < |rest| ==> !IsWhitespace(s[i]);
    s[i..j]
  }

  /** Trimming is idempotent: a value stored trimmed is unchanged by a second trim. */
  lemma {:induction false} TrimIdempotent(s: string)
    ensures Trim(Trim(s)) == Trim(s)
  {
    var t := Trim(s);
    assert LeadingWs(t) == 0;
    assert TrailingWs(t) == 0;
    assert t[0..|t|] == t;
  }

  /** Trim yields the empty string exactly when s is all whitespace. */
  lemma {:induction false} TrimEmptyIffBlank(s: string)
    ensures Trim(s) == [] <==> AllWhitespace(s)
  {
    var i := LeadingWs(s);
    if AllWhitespace(s) {
      assert i == |s|;
    } else {
      assert i < |s|;
      assert !IsWhitespace(s[i]);
      var rest := s[i..];
      assert rest[0] == s[i];
      assert TrailingWs(rest) < |rest|;
    }
  }

  // ---------------------------------------------------------------- hex

  /** An octet, as crypto.randomBytes produces them. */
  newtype Byte = b: int | 0 <= b < 256

  const HexDigits: string := "0123456789abcdef"

  /** The characters of the pattern [0-9a-fA-F]. */
  predicate IsHexChar(c: char) {
    ('0' <= c <= '9') || ('a' <= c <= 'f') || ('A' <= c <= 'F')
  }

  predicate IsLowerHexChar(c: char) {
    ('0' <= c <= '9') || ('a' <= c <= 'f')
  }

  /** Buffer.toString('hex'): two lower-case hex digits per byte, high nibble first. */
  function HexEncode(bytes: seq<Byte>): (r: string)
    ensures |r| == 2 * |bytes|
    ensures forall k :: 0 <= k < |r| ==> IsLowerHexChar(r[k])
  {
    if bytes == [] then "" else HexPair(bytes[0]) + HexEncode(bytes[1..])
  }

  /** The two hex digits of one byte. */
  function HexPair(b: Byte): (r: string)
    ensures |r| == 2 && IsLowerHexChar(r[0]) && IsLowerHexChar(r[1])
  {
    var v := b as int;
    [HexDigits[v / 16], HexDigits[v % 16]]
  }

  function HexValue(c: char): (v: nat)
    requires IsHexChar(c)
    ensures v < 16
  {
    if '0' <= c <= '9' then c as int - '0' as int
    else if 'a' <= c <= 'f' then c as int - 'a' as int + 10
    else c as int - 'A' as int + 10
  }

  /** The inverse of HexEncode. */
  function HexDecode(s: string): seq<Byte>
    requires |s| % 2 == 0
    requires forall k :: 0 <= k < |s| ==> IsHexChar(s[k])
  {
    if s == [] then []
    else [(HexValue(s[0]) * 16 + HexValue(s[1])) as Byte] + HexDecode(s[2..])
  }

  lemma HexDigitValue(d: nat)
    requires d < 16
    ensures IsHexChar(HexDigits[d]) && HexValue(HexDigits[d]) == d
  {
  }

  /** Decoding the hex form gives back the bytes: the encoding loses nothing. */
  lemma {:induction false} HexRoundTrip(bytes: seq<Byte>)
    ensures HexDecode(HexEncode(bytes)) == bytes
  {
    if bytes != [] {
      var b := bytes[0] as int;
      HexDigitValue(b / 16);
      HexDigitValue(b % 16);
      var e := HexEncode(bytes);
      assert e[..2] == HexPair(bytes[0]);
      assert e[2..] == HexEncode(bytes[1..]);
      HexRoundTrip(bytes[1..]);
      assert HexValue(e[0]) * 16 + HexValue(e[1]) == b;

    }
  }

  // ---------------------------------------------------------------- numbers

  predicate IsDigit(c: char) {
    '0' <= c <= '9'
  }

  ghost predicate AllDigits(s: string) {
    forall k :: 0 <= k < |s| ==> IsDigit(s[k])
  }

  /** Length of the longest prefix of s made of decimal digits. */
  function DigitPrefixLen(s: string): (n: nat)
    ensures n <= |s|
    ensures AllDigits(s[..n])
    ensures n == |s| || !IsDigit(s[n])
  {
    if |s| == 0 || !IsDigit(s[0]) then 0
    else
      var m := DigitPrefixLen(s[1..]);
      assert s[..1 + m] == [s[0]] + s[1..][..m];
      1 + m
  }

  /** The value of a string of decimal digits. */
  function DigitsValue(d: string): nat
    requires AllDigits(d)
  {
    if d == [] then 0
    else DigitsValue(d[..|d| - 1]) * 10 + (d[|d| - 1] as int - '0' as int)
  }

  /** The decimal digits of n, without leading zeros. */
  function NatString(n: nat): (r: string)
    ensures |r| > 0 && AllDigits(r)
  {
    var last := ['0' + (n % 10) as char];
    if n < 10 then last else NatString(n / 10) + last
  }

  /** The decimal form of an integer, as String(n) writes it. */
  function DecimalString(n: int): string {
    if n < 0 then "-" + NatString(-n) else NatString(n)
  }

  lemma {:induction false} NatStringValue(n: nat)
    ensures DigitsValue(NatString(n)) == n
  {
    var r := NatString(n);
    if n >= 10 {
      NatStringValue(n / 10);
      assert r[..|r| - 1] == NatString(n / 10);
    }
  }

  lemma DigitPrefixOfDigits(d: string, rest: string)
    requires AllDigits(d)
    requires rest == [] || !IsDigit(rest[0])
    ensures DigitPrefixLen(d + rest) == |d|
    decreases |d|
  {
    if d != [] {
      assert (d + rest)[1..] == d[1..] + rest;
      DigitPrefixOfDigits(d[1..], rest);
    }
  }

  /** parseInt(s, 10): skip leading whitespace, read an optional sign and the longest
      run of decimal digits; NaN (None) when there is no digit. */
  function ParseInt(s: string): (r: Option<int>)
    ensures r.None? <==> DigitPrefixLen(SignStripped(s[LeadingWs(s)..])) == 0
  {
    var t := s[LeadingWs(s)..];
    var u := SignStripped(t);
    var n := DigitPrefixLen(u);
    if n == 0 then None
    else
      var v: int := DigitsValue(u[..n]);
      Some(if |t| > 0 && t[0] == '-' then -v else v)
  }

  /** t without one leading '+' or '-'. */
  function SignStripped(t: string): (u: string)
    ensures |t| > 0 && (t[0] == '-' || t[0] == '+') ==> u == t[1..]
    ensures !(|t| > 0 && (t[0] == '-' || t[0] == '+')) ==> u == t
  {
    if |t| > 0 && (t[0] == '-' || t[0] == '+') then t[1..] else t
  }

  /** parseInt reads back the decimal form of any integer, and stops at the first
      character that is not a digit (so "12.99" reads as 12). */
  lemma {:induction false} ParseIntDecimal(n: int, rest: string)
    requires rest == [] || !IsDigit(rest[0])
    ensures ParseInt(DecimalString(n) + rest) == Some(n)
  {
    var s := DecimalString(n) + rest;
    var d := NatString(if n < 0 then -n else n);
    assert !IsWhitespace(s[0]);
    assert LeadingWs(s) == 0;
    assert s[0..] == s;
    var u := SignStripped(s);
    if n < 0 {
      assert s == "-" + (d + rest);
      assert u == d + rest;
    } else {
      assert u == d + rest;
    }
    DigitPrefixOfDigits(d, rest);
    assert u[..|d|] == d;
    NatStringValue(if n < 0 then -n else n);
  }

  /** Number(s) for a string: surrounding whitespace is ignored, the empty string is 0,
      an optionally signed run of decimal digits is its value, anything else is NaN (None). */
  function NumberOf(s: string): (r: Option<int>)
    ensures r.Some? && Trim(s) != [] ==> DigitPrefixLen(SignStripped(Trim(s))) == |SignStripped(Trim(s))| > 0
  {
    var t := Trim(s);
    if t == [] then Some(0)
    else
      var u := SignStripped(t);
      var n := DigitPrefixLen(u);
      if n == 0 || n < |u| then None
      else
        var v: int := DigitsValue(u);
        Some(if t[0] == '-' then -v else v)
  }

  /** A duration written with a unit, such as the default refresh expiry "7d", is NaN. */
  lemma NumberOfWithUnitIsNaN()
    ensures NumberOf("7d") == None
  {
    assert LeadingWs("7d") == 0;
    assert "7d"[0..] == "7d";
    assert TrailingWs("7d") == 0;
    assert Trim("7d") == "7d";
    assert DigitPrefixLen("d") == 0;
    assert "7d"[1..] == "d";
    assert DigitPrefixLen("7d") == 1;
  }

  /** Number reads back the decimal form of any integer. */
  lemma {:induction false} NumberOfDecimal(n: int)
    ensures NumberOf(DecimalString(n)) == Some(n)
  {
    var s := DecimalString(n);
    var d := NatString(if n < 0 then -n else n);
    assert !IsWhitespace(s[0]) && !IsWhitespace(s[|s| - 1]);
    assert LeadingWs(s) == 0;
    assert s[0..] == s;
    assert TrailingWs(s) == 0;
    assert Trim(s) == s;
    DigitPrefixOfDigits(d, []);
    assert d + [] == d;
    var u := SignStripped(s);
    assert u == d;
    NatStringValue(if n < 0 then -n else n);
  }

  // ---------------------------------------------------------------- string length

  /** The length JavaScript reports for a string, which Mongoose's minlength and maxlength
      compare: UTF-16 code units, two for a character outside the Basic Multilingual Plane. */
  function Utf16Length(s: string): (r: nat)
    ensures |s| <= r <= 2 * |s|
  {
    if s == [] then 0 else (if s[0] as int > 0xFFFF then 2 else 1) + Utf16Length(s[1..])
  }

  /** A string of Basic Multilingual Plane characters has one unit per character; one of
      characters beyond it, such as emoji, two. */
  lemma {:induction false} Utf16LengthOfPlanes(s: string)
    ensures (forall k :: 0 <= k < |s| ==> s[k] as int <= 0xFFFF) ==> Utf16Length(s) == |s|
    ensures (forall k :: 0 <= k < |s| ==> s[k] as int > 0xFFFF) ==> Utf16Length(s) == 2 * |s|
  {
    if s != [] {
      Utf16LengthOfPlanes(s[1..]);
      assert forall k :: 0 <= k < |s[1..]| ==> s[1..][k] == s[k + 1];
    }
  }

  // ---------------------------------------------------------------- case folding

  function LowerAscii(c: char): char {
    if 'A' <= c <= 'Z' then (c as int + 32) as char else c
  }

  function Lower(s: string): (r: string)
    ensures |r| == |s| && forall k :: 0 <= k < |s| ==> r[k] == LowerAscii(s[k])
  {
    seq(|s|, k requires 0 <= k < |s| => LowerAscii(s[k]))
  }

  /** needle occurs in hay when ASCII letters are compared without regard to case. */
  predicate ContainsIgnoreCase(hay: string, needle: string) {
    exists i :: 0 <= i <= |hay| - |needle| && MatchesAt(hay, needle, i)
  }

  predicate MatchesAt(hay: string, needle: string, i: int)
    requires 0 <= i <= |hay| - |needle|
  {
    Lower(hay)[i..i + |needle|] == Lower(needle)
  }
}
