/** The pieces of the .NET base library that the controller's input handling
    relies on: `Char.IsWhiteSpace`, `string.IsNullOrWhiteSpace`, `string.Trim`,
    `string.ToLower`, ordinal case-insensitive comparison, `int.TryParse` and
    `int.ToString`.  Case mapping is restricted to ASCII letters and integers
    are read and written in decimal with an optional leading sign. */
module Text {
  import opened Wrappers

  const MinInt32: int := -0x8000_0000
  const MaxInt32: int := 0x7FFF_FFFF

  /** System.Int32 */
  newtype int32 = x: int | -0x8000_0000 <= x < 0x8000_0000

  // ---------------------------------------------------------------------------
  // White space and trimming

  /** `Char.IsWhiteSpace`: the Unicode space, line and paragraph separators,
      the control characters U+0009..U+000D, and U+0085. */
  predicate IsWhiteSpace(c: char) {
    c == ' ' || ('\t' <= c <= '\r') || c == '\U{85}' || c == '\U{A0}' || c == '\U{1680}'
    || ('\U{2000}' <= c <= '\U{200A}') || c == '\U{2028}' || c == '\U{2029}'
    || c == '\U{202F}' || c == '\U{205F}' || c == '\U{3000}'
  }

  /** `string.StartsWith`: `p` is a prefix of `s`. */
  predicate StartsWith(s: string, p: string) {
    |p| <= |s| && s[..|p|] == p
  }

  /** `string.EndsWith`: `p` is a suffix of `s`. */
  predicate EndsWith(s: string, p: string) {
    |p| <= |s| && s[|s| - |p|..] == p
  }

  /** `string.IsNullOrWhiteSpace` on a string that is not null. */
  predicate IsWhiteSpaceOnly(s: string) {
    forall i :: 0 <= i < |s| ==> IsWhiteSpace(s[i])
  }

  /** `string.IsNullOrWhiteSpace` on a nullable string: a string that is not
      null is blank exactly when trimming leaves nothing. */
  predicate IsNullOrWhiteSpace(s: Option<string>): (b: bool)
    ensures s.Some? ==> (b <==> Trim(s.value) == [])
  {
    if s.Some? then TrimEnds(s.value); IsWhiteSpaceOnly(s.value) else true
  }

  /** `string.TrimStart()`: drops leading white space, leaving a suffix that
      does not start with white space. */
  function TrimStart(s: string): (r: string)
  {
    if s == [] || !IsWhiteSpace(s[0]) then s else TrimStart(s[1..])
  }

  /** `string.TrimEnd()`: drops trailing white space, leaving a prefix that
      does not end with white space. */
  function TrimEnd(s: string): (r: string)
  {
    if s == [] || !IsWhiteSpace(s[|s| - 1]) then s else TrimEnd(s[..|s| - 1])
  }

  /** `string.Trim()`: what is left has white space at neither end. */
  function Trim(s: string): (r: string)
  {
    TrimEnd(TrimStart(s))
  }

  /** `TrimStart` leaves a suffix that does not start with white space, and
      everything it dropped was white space. */
  lemma {:induction false} TrimStartDrops(s: string)
    ensures var r := TrimStart(s);
            |r| <= |s| && r == s[|s| - |r|..]
            && (forall i :: 0 <= i < |s| - |r| ==> IsWhiteSpace(s[i]))
            && (r == [] || !IsWhiteSpace(r[0]))
  {
    if s != [] && IsWhiteSpace(s[0]) {
      TrimStartDrops(s[1..]);
      var r := TrimStart(s[1..]);
      forall i | 0 <= i < |s| - |r| ensures IsWhiteSpace(s[i]) {
        if i > 0 {
          assert s[i] == s[1..][i - 1];
        }
      }
    }
  }

  /** `TrimEnd` leaves a prefix that does not end with white space, and
      everything it dropped was white space. */
  lemma {:induction false} TrimEndDrops(s: string)
    ensures var r := TrimEnd(s);
            |r| <= |s| && r == s[..|r|]
            && (forall i :: |r| <= i < |s| ==> IsWhiteSpace(s[i]))
            && (r == [] || !IsWhiteSpace(r[|r| - 1]))
  {
    if s != [] && IsWhiteSpace(s[|s| - 1]) {
      TrimEndDrops(s[..|s| - 1]);
      var r := TrimEnd(s[..|s| - 1]);
      forall i | |r| <= i < |s| ensures IsWhiteSpace(s[i]) {
        if i < |s| - 1 {
          assert s[i] == s[..|s| - 1][i];
        }
      }
    }
  }

  /** The trimmed text is empty exactly when the text is white space only. */
  lemma TrimEnds(s: string)
    ensures Trim(s) == [] <==> IsWhiteSpaceOnly(s)
    ensures Trim(s) != [] ==> !IsWhiteSpace(Trim(s)[0]) && !IsWhiteSpace(Trim(s)[|Trim(s)| - 1])
  {
    var t := TrimStart(s);
    TrimStartDrops(s);
    TrimEndDrops(t);
    var r := TrimEnd(t);
    assert Trim(s) == r;
    if r == [] {
      assert t == [];
    } else {
      assert r[0] == t[0] && t[0] == s[|s| - |t|];
    }
  }

  lemma {:induction false} TrimStartPadded(pad: string, s: string)
    requires IsWhiteSpaceOnly(pad)
    requires s == [] || !IsWhiteSpace(s[0])
    ensures TrimStart(pad + s) == s
  {
    if pad != [] {
      assert (pad + s)[1..] == pad[1..] + s;
      TrimStartPadded(pad[1..], s);
    } else {
      assert pad + s == s;
    }
  }

  lemma {:induction false} TrimEndPadded(s: string, pad: string)
    requires IsWhiteSpaceOnly(pad)
    requires s == [] || !IsWhiteSpace(s[|s| - 1])
    ensures TrimEnd(s + pad) == s
  {
    if pad != [] {
      assert (s + pad)[..|s + pad| - 1] == s + pad[..|pad| - 1];
      TrimEndPadded(s, pad[..|pad| - 1]);
    } else {
      assert s + pad == s;
    }
  }

  /** Trimming removes exactly the white space surrounding a word whose first
      and last characters are not white space. */
  lemma TrimPadded(before: string, s: string, after: string)
    requires IsWhiteSpaceOnly(before) && IsWhiteSpaceOnly(after)
    requires s != [] && !IsWhiteSpace(s[0]) && !IsWhiteSpace(s[|s| - 1])
    ensures Trim(before + s + after) == s
  {
    assert before + s + after == before + (s + after);
    TrimStartPadded(before, s + after);
    TrimEndPadded(s, after);
  }

  /** Trimming twice is trimming once. */
  lemma TrimIdempotent(s: string)
    ensures Trim(Trim(s)) == Trim(s)
  {
    var t := Trim(s);
    TrimEnds(s);
    assert TrimStart(t) == t;
    assert TrimEnd(t) == t;
  }

  // ---------------------------------------------------------------------------
  // Letter case (ASCII only)

  function ToLowerChar(c: char): char {
    if 'A' <= c <= 'Z' then (c as int + 32) as char else c
  }

  function ToUpperChar(c: char): char {
    if 'a' <= c <= 'z' then (c as int - 32) as char else c
  }

  /** `string.ToLower()`, each character mapped on its own. */
  function ToLower(s: string): string
  {
    seq(|s|, i requires 0 <= i < |s| => ToLowerChar(s[i]))
  }

  /** `string.Equals(a, b, StringComparison.OrdinalIgnoreCase)`: equal length
      and equal characters after upper-casing both sides. */
  predicate EqualsIgnoreCase(a: string, b: string): (r: bool)
    ensures IsLowerWord(b) ==> (r <==> ToLower(a) == b)
  {
    LowerEqualsIgnoreCase(a, b);
    |a| == |b| && forall i :: 0 <= i < |a| ==> ToUpperChar(a[i]) == ToUpperChar(b[i])
  }

  predicate IsLowerWord(w: string) {
    forall i :: 0 <= i < |w| ==> 'a' <= w[i] <= 'z'
  }

  /** For a lower-case letter, lower-casing a character gives it exactly when
      upper-casing the character gives the letter's capital. */
  lemma LowerCharMatches(c: char, l: char)
    requires 'a' <= l <= 'z'
    ensures ToLowerChar(c) == l <==> ToUpperChar(c) == ToUpperChar(l)
  {
  }

  /** Lower-casing a text and comparing it with a lower-case word is the same
      test as comparing the two after upper-casing both. */
  lemma LowerEqualsIgnoreCase(s: string, w: string)
    ensures IsLowerWord(w) ==>
            (ToLower(s) == w <==> |s| == |w| && forall i :: 0 <= i < |s| ==> ToUpperChar(s[i]) == ToUpperChar(w[i]))
  {
    if IsLowerWord(w) && |s| == |w| {
      forall i | 0 <= i < |s|
        ensures ToLower(s)[i] == w[i] <==> ToUpperChar(s[i]) == ToUpperChar(w[i])
      {
        LowerCharMatches(s[i], w[i]);
      }
    }
  }

  // ---------------------------------------------------------------------------
  // Decimal integers

  predicate IsDigit(c: char) {
    '0' <= c <= '9'
  }

  predicate AllDigits(s: string) {
    forall i :: 0 <= i < |s| ==> IsDigit(s[i])
  }

  function DigitChar(d: nat): (c: char)
    requires d < 10
    ensures IsDigit(c)
  {
    ('0' as int + d) as char
  }

  /** The value of a string of decimal digits, most significant first. */
  function DigitsValue(s: string): nat
    requires AllDigits(s)
  {
    if s == [] then 0 else 10 * DigitsValue(s[..|s| - 1]) + (s[|s| - 1] as int - '0' as int)
  }

  /** The shortest decimal form of `n`. */
  function NatToDigits(n: nat): (r: string)
    ensures r != [] && AllDigits(r)
  {
    if n < 10 then [DigitChar(n)] else NatToDigits(n / 10) + [DigitChar(n % 10)]
  }

  lemma {:induction false} DigitsRoundTrip(n: nat)
    ensures DigitsValue(NatToDigits(n)) == n
  {
    var r := NatToDigits(n);
    if n >= 10 {
      assert r[..|r| - 1] == NatToDigits(n / 10);
      DigitsRoundTrip(n / 10);
    }
  }

  /** `int.TryParse(s, out v)` on text that has already been trimmed: an
      optional `-` or `+`, then one or more decimal digits, with a value that
      fits in 32 bits. */
  function ParseInt32(s: string): (r: Option<int32>)
    ensures r.Some? ==> s != [] && AllDigits(s[1..])
    ensures r.Some? ==> IsDigit(s[0]) || s[0] == '-' || s[0] == '+'
    ensures r.Some? ==> IsDigit(s[|s| - 1])
  {
    var signed := s != [] && (s[0] == '-' || s[0] == '+');
    var digits := if signed then s[1..] else s;
    if digits == [] || !AllDigits(digits) then None
    else
      var magnitude := DigitsValue(digits) as int;
      var v := if signed && s[0] == '-' then -magnitude else magnitude;
      if MinInt32 <= v <= MaxInt32 then Some(v as int32) else None
  }

  /** `int.ToString()`: a leading `-` for negative numbers, then the digits. */
  function Int32ToString(n: int32): (r: string)
    ensures r != [] && !IsWhiteSpace(r[0]) && !IsWhiteSpace(r[|r| - 1])
    ensures forall i :: 0 <= i < |r| ==> IsDigit(r[i]) || r[i] == '-'
  {
    if n < 0 then "-" + NatToDigits(-(n as int)) else NatToDigits(n as int)
  }

  /** A run of digits, unsigned or after `+`, reads as its value when that fits
      in an `int`, and is refused when it does not. */
  lemma ParseUnsigned(d: string)
    requires d != [] && AllDigits(d)
    ensures DigitsValue(d) <= MaxInt32 ==> ParseInt32(d) == Some(DigitsValue(d) as int32)
    ensures DigitsValue(d) <= MaxInt32 ==> ParseInt32("+" + d) == Some(DigitsValue(d) as int32)
    ensures MaxInt32 < DigitsValue(d) ==> ParseInt32(d) == None && ParseInt32("+" + d) == None
  {
    assert IsDigit(d[0]);
    assert ("+" + d)[1..] == d;
  }

  /** A run of digits after `-` reads as the negated value when that fits in an
      `int`, down to `int.MinValue`, and is refused when it does not. */
  lemma ParseNegative(d: string)
    requires d != [] && AllDigits(d)
    ensures DigitsValue(d) <= -MinInt32 ==> ParseInt32("-" + d) == Some(-(DigitsValue(d) as int) as int32)
    ensures -MinInt32 < DigitsValue(d) ==> ParseInt32("-" + d) == None
  {
    assert ("-" + d)[1..] == d;
  }

  /** What `int.ToString` writes, `int.TryParse` reads back. */
  lemma Int32RoundTrip(n: int32)
    ensures ParseInt32(Int32ToString(n)) == Some(n)
  {
    if n < 0 {
      var d := NatToDigits(-(n as int));
      assert ("-" + d)[1..] == d;
      DigitsRoundTrip(-(n as int));
    } else {
      DigitsRoundTrip(n as int);
    }
  }

  // ---------------------------------------------------------------------------
  // Scanning

  /** The characters of `s` before the first occurrence of `stop`. */
  function TakeUntil(s: string, stop: char): (r: string)
    ensures |r| <= |s| && r == s[..|r|] && stop !in r
    ensures |r| < |s| ==> s[|r|] == stop
  {
    if s == [] || s[0] == stop then [] else [s[0]] + TakeUntil(s[1..], stop)
  }

  lemma {:induction false} TakeUntilPrefix(a: string, stop: char, b: string)
    requires stop !in a
    ensures TakeUntil(a + [stop] + b, stop) == a
  {
    if a != [] {
      assert (a + [stop] + b)[1..] == a[1..] + [stop] + b;
      TakeUntilPrefix(a[1..], stop, b);
    }
  }
}
