/**
 * The string operations the encoder relies on, with Python's semantics where the
 * source relies on them: ASCII encoding and lenient decoding, slicing with negative
 * indices, `str.find`, substring tests and `int()` of a decimal string.
 */
module Text {
  import opened Wrappers
  import opened Bytes

  const NUL: char := 0 as char

  /** n NUL characters. */
  function Nuls(n: nat): (s: string)
    ensures |s| == n
  {
    seq(n, _ => NUL)
  }

  // ---------------------------------------------------------------- ASCII

  /** `c.encode('ascii')` succeeds. */
  predicate IsAscii(c: char) {
    c as int < 128
  }

  predicate AllAscii(s: string) {
    forall i :: 0 <= i < |s| ==> IsAscii(s[i])
  }

  function AsciiByte(c: char): byte
    requires IsAscii(c)
  {
    c as int as byte
  }

  /** `s.encode('ascii')` of an all-ASCII string. */
  function AsciiBytes(s: string): (b: seq<byte>)
    requires AllAscii(s)
    ensures |b| == |s|
  {
    seq(|s|, i requires 0 <= i < |s| => AsciiByte(s[i]))
  }

  /** The string whose ASCII encoding is b (each byte below 128). */
  function AsciiChars(b: seq<byte>): string {
    seq(|b|, i requires 0 <= i < |b| => (b[i] as int) as char)
  }

  lemma AsciiCharsOfBytes(s: string)
    requires AllAscii(s)
    ensures AsciiChars(AsciiBytes(s)) == s
  {
    forall i | 0 <= i < |s| ensures AsciiChars(AsciiBytes(s))[i] == s[i] {
      assert (AsciiByte(s[i]) as int) == s[i] as int;
    }
  }

  /** `b.decode('ascii', errors='ignore')`: the bytes below 128, in order, as characters. */
  function DecodeAsciiIgnore(b: seq<byte>): (s: string)
    ensures |s| <= |b|
    ensures AllAscii(s)
  {
    if b == [] then []
    else (if b[0] < 128 then [(b[0] as int) as char] else []) + DecodeAsciiIgnore(b[1..])
  }

  /** A single byte decodes to its character when it is ASCII and to nothing otherwise. */
  lemma DecodeAsciiIgnoreByte(x: byte)
    ensures DecodeAsciiIgnore([x]) == if x < 128 then [(x as int) as char] else []
  {
    assert [x][1..] == [];
  }

  /** Decoding works byte by byte: the decoding of a + b is that of a followed by that of b. */
  lemma {:induction false} DecodeAsciiIgnoreAppend(a: seq<byte>, b: seq<byte>)
    ensures DecodeAsciiIgnore(a + b) == DecodeAsciiIgnore(a) + DecodeAsciiIgnore(b)
  {
    if a == [] {
      assert a + b == b;
    } else {
      assert (a + b)[0] == a[0];
      assert (a + b)[1..] == a[1..] + b;
      DecodeAsciiIgnoreAppend(a[1..], b);
    }
  }

  /** A character is in the decoding exactly when some byte below 128 encodes it. */
  lemma {:induction false} DecodeAsciiIgnoreMembers(b: seq<byte>, c: char)
    ensures c in DecodeAsciiIgnore(b) <==> exists i :: 0 <= i < |b| && b[i] < 128 && b[i] as int == c as int
  {
    if b != [] {
      DecodeAsciiIgnoreMembers(b[1..], c);
      if c in DecodeAsciiIgnore(b[1..]) {
        var i :| 0 <= i < |b[1..]| && b[1..][i] < 128 && b[1..][i] as int == c as int;
        assert b[i + 1] == b[1..][i];
      }
      if exists i :: 0 <= i < |b| && b[i] < 128 && b[i] as int == c as int {
        var i :| 0 <= i < |b| && b[i] < 128 && b[i] as int == c as int;
        if i > 0 { assert b[1..][i - 1] == b[i]; }
      }
    }
  }

  /** Bytes that are all ASCII decode one character each, in order. */
  lemma {:induction false} DecodeAsciiIgnoreOfAsciiBytes(b: seq<byte>)
    requires forall i :: 0 <= i < |b| ==> b[i] < 128
    ensures DecodeAsciiIgnore(b) == AsciiChars(b)
  {
    if b != [] {
      DecodeAsciiIgnoreOfAsciiBytes(b[1..]);
      assert AsciiChars(b) == [(b[0] as int) as char] + AsciiChars(b[1..]);
    }
  }

  /** Decoding the ASCII encoding of an ASCII string leaves nothing out. */
  lemma {:induction false} DecodeAsciiIgnoreOfAscii(s: string)
    requires AllAscii(s)
    ensures DecodeAsciiIgnore(AsciiBytes(s)) == s
  {
    if s != [] {
      assert AsciiBytes(s)[1..] == AsciiBytes(s[1..]);
      assert (AsciiByte(s[0]) as int) == s[0] as int;
      DecodeAsciiIgnoreOfAscii(s[1..]);
    }
  }

  // ---------------------------------------------------------------- slicing

  /** A Python slice bound: negative counts from the end, and the result is clamped to [0, len]. */
  function SliceBound(i: int, len: nat): (r: nat)
    ensures r <= len
  {
    if i < 0 then (if i + len < 0 then 0 else i + len)
    else if i > len then len else i
  }

  /** Python's `s[a:b]`. */
  function PySlice<T>(s: seq<T>, a: int, b: int): (r: seq<T>)
    ensures |r| <= |s|
    ensures 0 <= a <= b <= |s| ==> r == s[a..b]
    ensures 0 <= b <= a ==> r == []
  {
    var lo, hi := SliceBound(a, |s|), SliceBound(b, |s|);
    if lo < hi then s[lo..hi] else []
  }

  /** A negative bound from -len on counts from the end: it is the bound plus len. */
  lemma PySliceNegativeBounds<T>(s: seq<T>, a: int, b: int)
    ensures -|s| <= a < 0 ==> PySlice(s, a, b) == PySlice(s, a + |s|, b)
    ensures -|s| <= b < 0 ==> PySlice(s, a, b) == PySlice(s, a, b + |s|)
  {
  }

  predicate EndsWith(s: string, suffix: string) {
    |suffix| <= |s| && s[|s| - |suffix|..] == suffix
  }

  /** Comparing `s[-k:]` with a k-character suffix is the suffix test. */
  lemma TailIsSuffixTest(s: string, suffix: string)
    requires |suffix| > 0
    ensures PySlice(s, -|suffix|, |s|) == suffix <==> EndsWith(s, suffix)
  {
    if |s| < |suffix| {
      assert |PySlice(s, -|suffix|, |s|)| < |suffix|;
    }
  }

  // ---------------------------------------------------------------- find

  predicate MatchAt(s: string, pattern: string, i: nat) {
    i + |pattern| <= |s| && s[i..i + |pattern|] == pattern
  }

  /** `s.find(pattern, start)`: the first index at or after start where pattern occurs, or -1. */
  function FindFrom(s: string, pattern: string, start: nat): (r: int)
    ensures r == -1 || (start <= r && MatchAt(s, pattern, r))
    ensures forall i :: start <= i && (r == -1 || i < r) ==> !MatchAt(s, pattern, i)
    decreases |s| - start
  {
    if start + |pattern| > |s| then -1
    else if MatchAt(s, pattern, start) then start
    else FindFrom(s, pattern, start + 1)
  }

  /** `s.find(pattern)`. */
  function Find(s: string, pattern: string): (r: int)
    ensures r == -1 <==> forall i :: 0 <= i ==> !MatchAt(s, pattern, i)
    ensures r != -1 ==> 0 <= r && MatchAt(s, pattern, r)
    ensures forall i :: 0 <= i < r ==> !MatchAt(s, pattern, i)
  {
    FindFrom(s, pattern, 0)
  }

  /** The first occurrence is found wherever it is. */
  lemma FindFirst(s: string, pattern: string, k: nat)
    requires MatchAt(s, pattern, k)
    requires forall i :: 0 <= i < k ==> !MatchAt(s, pattern, i)
    ensures Find(s, pattern) == k
  {
  }

  /** Python's `pattern in s` on strings. */
  predicate Contains(s: string, pattern: string) {
    Find(s, pattern) != -1
  }

  // ---------------------------------------------------------------- int()

  predicate IsDigit(c: char) {
    '0' <= c <= '9'
  }

  predicate AllDigits(s: string) {
    forall i :: 0 <= i < |s| ==> IsDigit(s[i])
  }

  /** The value of a string of decimal digits, most significant first. */
  function DigitsValue(s: string): (n: nat)
    requires AllDigits(s)
  {
    if s == [] then 0 else 10 * DigitsValue(s[..|s| - 1]) + (s[|s| - 1] as int - '0' as int)
  }

  predicate IsSign(c: char) {
    c == '-' || c == '+'
  }

  /** An integer literal: one or more digits, with or without a leading sign. */
  predicate IsIntLiteral(s: string) {
    (|s| > 0 && AllDigits(s)) || (|s| > 1 && IsSign(s[0]) && AllDigits(s[1..]))
  }

  /**
   * `int(s)` on a decimal string: an optional sign followed by at least one digit.
   * Anything else (the empty string, a '.', a letter) raises, which is None here.
   */
  function ParseInt(s: string): (r: Option<int>)
    ensures r.Some? <==> IsIntLiteral(s)
    ensures r.Some? && AllDigits(s) ==> r.value == DigitsValue(s)
    ensures r.Some? && !AllDigits(s) ==> r.value == (if s[0] == '-' then -1 else 1) * DigitsValue(s[1..])
  {
    if |s| > 0 && (s[0] == '-' || s[0] == '+') then
      var digits := s[1..];
      if |digits| > 0 && AllDigits(digits) then
        var v: int := DigitsValue(digits);
        Some(if s[0] == '-' then -v else v)
      else None
    else if |s| > 0 && AllDigits(s) then Some(DigitsValue(s))
    else None
  }

  /** A sign, or none, followed by digits is read as their value with that sign. */
  lemma ParseIntOfSignedDigits(sign: string, digits: string)
    requires sign == "" || sign == "-" || sign == "+"
    requires |digits| > 0 && AllDigits(digits)
    ensures ParseInt(sign + digits) == Some((if sign == "-" then -1 else 1) * DigitsValue(digits))
  {
    if sign == "" {
      assert sign + digits == digits;
    } else {
      assert (sign + digits)[1..] == digits;
      assert !IsDigit((sign + digits)[0]);
    }
  }

  /** `int()` raises on any string holding a '.'. */
  lemma ParseIntRejectsDot(s: string, i: nat)
    requires i < |s| && s[i] == '.'
    ensures ParseInt(s) == None
  {
    if i > 0 {
      assert s[1..][i - 1] == '.';
    }
  }

  /** `str(n)` of a natural number. */
  function Decimal(n: nat): (s: string)
    ensures |s| > 0 && AllDigits(s)
  {
    var d := ((n % 10) + '0' as int) as char;
    if n < 10 then [d] else Decimal(n / 10) + [d]
  }

  lemma {:induction false} DecimalValue(n: nat)
    ensures DigitsValue(Decimal(n)) == n
  {
    var s := Decimal(n);
    if n >= 10 {
      assert s[..|s| - 1] == Decimal(n / 10);
      DecimalValue(n / 10);
    }
  }

  /** `int(str(n)) == n`. */
  lemma ParseDecimal(n: nat)
    ensures ParseInt(Decimal(n)) == Some(n)
  {
    DecimalValue(n);
  }
}
