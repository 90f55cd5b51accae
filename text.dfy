/** The string operations of the .NET base library that the reporter relies on:
    character classes, culture-insensitive case folding, String.Split, String.Trim,
    String.Replace with an empty replacement and Int32 parsing. */
module Text {
  import opened Wrappers

  /** Char.IsWhiteSpace; the regular-expression class \s denotes the same characters. */
  predicate IsWhiteSpace(c: char) {
    ('\t' <= c <= '\r') || c == ' ' || c == '\U{0085}' || c == '\U{00A0}' || c == '\U{1680}'
    || ('\U{2000}' <= c <= '\U{200A}') || c == '\U{2028}' || c == '\U{2029}'
    || c == '\U{202F}' || c == '\U{205F}' || c == '\U{3000}'
  }

  /** The white space that NumberStyles.Integer allows around a number: U+0009-U+000D and U+0020. */
  predicate IsNumberWhite(c: char) {
    ('\t' <= c <= '\r') || c == ' '
  }

  predicate IsDigit(c: char) {
    '0' <= c <= '9'
  }

  predicate AllDigits(s: string) {
    forall i :: 0 <= i < |s| ==> IsDigit(s[i])
  }

  /** Case folding of the Latin letters; other characters fold to themselves. */
  function Lower(c: char): char {
    if 'A' <= c <= 'Z' then (c as int + 32) as char else c
  }

  /** String.Equals(a, b, IgnoreCase). */
  predicate EqualsIgnoreCase(a: string, b: string) {
    |a| == |b| && forall i :: 0 <= i < |a| ==> Lower(a[i]) == Lower(b[i])
  }

  /** String.StartsWith(prefix, IgnoreCase). */
  predicate StartsWithIgnoreCase(s: string, prefix: string) {
    |prefix| <= |s| && EqualsIgnoreCase(s[..|prefix|], prefix)
  }

  // ---------------------------------------------------------------- String.Split

  function Count(s: string, c: char): nat {
    if s == [] then 0 else (if s[0] == c then 1 else 0) + Count(s[1..], c)
  }

  /** String.Split(sep): every separator closes one piece, and empty pieces are kept. */
  function Split(s: string, sep: char): (pieces: seq<string>)
    ensures |pieces| == Count(s, sep) + 1
    ensures forall i :: 0 <= i < |pieces| ==> sep !in pieces[i]
    decreases |s|
  {
    if s == [] then [""]
    else
      var rest := Split(s[1..], sep);
      if s[0] == sep then [""] + rest
      else [[s[0]] + rest[0]] + rest[1..]
  }

  /** String.Join(sep, pieces), the inverse of Split. */
  function Join(pieces: seq<string>, sep: char): string
    requires |pieces| >= 1
  {
    if |pieces| == 1 then pieces[0] else pieces[0] + [sep] + Join(pieces[1..], sep)
  }

  /** Splitting loses nothing: joining the pieces back gives the original string. */
  lemma {:induction false} JoinSplit(s: string, sep: char)
    ensures Join(Split(s, sep), sep) == s
    decreases |s|
  {
    if s != [] {
      var rest := Split(s[1..], sep);
      JoinSplit(s[1..], sep);
      if s[0] != sep && |rest| > 1 {
        calc {
          Join(Split(s, sep), sep);
          ([s[0]] + rest[0]) + [sep] + Join(rest[1..], sep);
          [s[0]] + (rest[0] + [sep] + Join(rest[1..], sep));
          [s[0]] + Join(rest, sep);
          s;
        }
      }
    }
  }

  lemma {:induction false} SplitPrefix(p: string, t: string, sep: char)
    requires sep !in p
    ensures Split(p + t, sep) == [p + Split(t, sep)[0]] + Split(t, sep)[1..]
    decreases |p|
  {
    if p != [] {
      var u := Split(t, sep);
      assert (p + t)[0] == p[0] && (p + t)[1..] == p[1..] + t;
      assert sep !in p[1..];
      SplitPrefix(p[1..], t, sep);
      var rest := Split(p[1..] + t, sep);
      assert rest[0] == p[1..] + u[0] && rest[1..] == u[1..];
      assert Split(p + t, sep) == [[p[0]] + rest[0]] + rest[1..];
      assert [p[0]] + (p[1..] + u[0]) == p + u[0];
    } else {
      var u := Split(t, sep);
      assert p + t == t && p + u[0] == u[0];
      assert [u[0]] + u[1..] == u;
    }
  }

  /** Joining pieces free of the separator and splitting again gives the pieces back. */
  lemma {:induction false} SplitJoin(pieces: seq<string>, sep: char)
    requires |pieces| >= 1
    requires forall i :: 0 <= i < |pieces| ==> sep !in pieces[i]
    ensures Split(Join(pieces, sep), sep) == pieces
    decreases |pieces|
  {
    if |pieces| == 1 {
      SplitPrefix(pieces[0], "", sep);
      assert pieces[0] + "" == pieces[0];
    } else {
      var tail := Join(pieces[1..], sep);
      SplitJoin(pieces[1..], sep);
      assert pieces[0] + [sep] + tail == pieces[0] + ([sep] + tail);
      SplitPrefix(pieces[0], [sep] + tail, sep);
      assert ([sep] + tail)[1..] == tail;
      assert Split([sep] + tail, sep) == [""] + pieces[1..];
      assert pieces[0] + "" == pieces[0];
      assert [pieces[0]] + pieces[1..] == pieces;
    }
  }

  // ---------------------------------------------------------------- String.Trim

  /** The two white-space classes that trimming uses: Char.IsWhiteSpace for String.Trim,
      and the narrower set that number parsing skips. */
  datatype WhiteClass = AnyWhite | NumberWhite

  predicate IsWhite(c: char, k: WhiteClass) {
    if k == AnyWhite then IsWhiteSpace(c) else IsNumberWhite(c)
  }

  predicate AllWhite(s: string, k: WhiteClass) {
    forall i :: 0 <= i < |s| ==> IsWhite(s[i], k)
  }

  lemma AllWhiteConcat(x: string, y: string, k: WhiteClass)
    requires AllWhite(x, k) && AllWhite(y, k)
    ensures AllWhite(x + y, k)
  {
    forall i | 0 <= i < |x + y| ensures IsWhite((x + y)[i], k) {
      if i >= |x| {
        assert (x + y)[i] == y[i - |x|];
      }
    }
  }

  /** The index of the first character at or after i that is not of class k. */
  function SkipWhite(s: string, k: WhiteClass, i: nat): (n: nat)
    requires i <= |s|
    ensures i <= n <= |s|
    ensures forall j :: i <= j < n ==> IsWhite(s[j], k)
    ensures n < |s| ==> !IsWhite(s[n], k)
    decreases |s| - i
  {
    if i < |s| && IsWhite(s[i], k) then SkipWhite(s, k, i + 1) else i
  }

  /** The index just after the last character before j, and at or after lo, that is not
      of class k. */
  function BackWhite(s: string, k: WhiteClass, lo: nat, j: nat): (n: nat)
    requires lo <= j <= |s|
    ensures lo <= n <= j
    ensures forall i :: n <= i < j ==> IsWhite(s[i], k)
    ensures n > lo ==> !IsWhite(s[n - 1], k)
    decreases j
  {
    if j > lo && IsWhite(s[j - 1], k) then BackWhite(s, k, lo, j - 1) else j
  }

  /** The number of leading characters of class k. */
  function LeadingWhite(s: string, k: WhiteClass): nat {
    SkipWhite(s, k, 0)
  }

  predicate IsTrimmedWith(s: string, k: WhiteClass) {
    s != [] ==> !IsWhite(s[0], k) && !IsWhite(s[|s| - 1], k)
  }

  /** Removes every leading and every trailing character of class k, keeps the middle
      untouched, and leaves nothing exactly when every character is of class k. */
  function TrimWith(s: string, k: WhiteClass): (r: string)
    ensures IsTrimmedWith(r, k)
    ensures LeadingWhite(s, k) + |r| <= |s|
    ensures r == s[LeadingWhite(s, k)..LeadingWhite(s, k) + |r|]
    ensures AllWhite(s[..LeadingWhite(s, k)], k) && AllWhite(s[LeadingWhite(s, k) + |r|..], k)
    ensures r == [] <==> AllWhite(s, k)
  {
    var a := SkipWhite(s, k, 0);
    var b := BackWhite(s, k, a, |s|);
    TrimWithShape(s, k, a, b);
    s[a..b]
  }

  lemma TrimWithShape(s: string, k: WhiteClass, a: nat, b: nat)
    requires a <= b <= |s|
    requires forall j :: 0 <= j < a ==> IsWhite(s[j], k)
    requires a < |s| ==> !IsWhite(s[a], k)
    requires forall i :: b <= i < |s| ==> IsWhite(s[i], k)
    requires b > a ==> !IsWhite(s[b - 1], k)
    ensures IsTrimmedWith(s[a..b], k)
    ensures AllWhite(s[..a], k) && AllWhite(s[b..], k)
    ensures s[a..b] == [] <==> AllWhite(s, k)
  {
    assert forall j :: 0 <= j < a ==> s[..a][j] == s[j];
    assert forall i :: 0 <= i < |s| - b ==> s[b..][i] == s[b + i];
  }

  /** String.Trim(). */
  function Trim(s: string): string {
    TrimWith(s, AnyWhite)
  }

  /** Trims every piece, keeping their number and order (a Select of String.Trim). */
  function TrimEach(pieces: seq<string>): seq<string> {
    seq(|pieces|, i requires 0 <= i < |pieces| => Trim(pieces[i]))
  }

  lemma TrimEachThree(a: string, b: string, c: string)
    ensures TrimEach([a, b, c]) == [Trim(a), Trim(b), Trim(c)]
  {
    var t := TrimEach([a, b, c]);
    assert t == [t[0], t[1], t[2]];
  }

  /** A trimmed string is left alone, so trimming twice is trimming once. */
  lemma TrimIdempotent(s: string)
    ensures Trim(Trim(s)) == Trim(s)
  {
    TrimmedIsFixed(Trim(s), AnyWhite);
  }

  /** A string that is already trimmed is left alone. */
  lemma TrimmedIsFixed(s: string, k: WhiteClass)
    requires IsTrimmedWith(s, k)
    ensures TrimWith(s, k) == s
  {
    assert SkipWhite(s, k, 0) == 0;
    assert BackWhite(s, k, 0, |s|) == |s|;
    assert s[0..|s|] == s;
  }

  // ---------------------------------------------------------------- String.Replace(p, "")

  predicate StartsWith(s: string, p: string) {
    |p| <= |s| && s[..|p|] == p
  }

  /** p occurs somewhere in s. */
  predicate Occurs(s: string, p: string)
    decreases |s|
  {
    StartsWith(s, p) || (s != [] && Occurs(s[1..], p))
  }

  /** String.Replace(p, ""): scans left to right and removes non-overlapping occurrences of p. */
  function RemoveAll(s: string, p: string): (r: string)
    requires p != []
    ensures |r| <= |s|
    decreases |s|
  {
    if StartsWith(s, p) then RemoveAll(s[|p|..], p)
    else if s == [] then []
    else [s[0]] + RemoveAll(s[1..], p)
  }

  /** Removing changes the string exactly when the pattern occurs in it. */
  lemma {:induction false} RemoveAllUnchangedIff(s: string, p: string)
    requires p != []
    ensures RemoveAll(s, p) == s <==> !Occurs(s, p)
    ensures Occurs(s, p) ==> |RemoveAll(s, p)| < |s|
    decreases |s|
  {
    if StartsWith(s, p) {
      assert |RemoveAll(s, p)| < |s|;
    } else if s != [] {
      RemoveAllUnchangedIff(s[1..], p);
      assert [s[0]] + s[1..] == s;
    }
  }

  // ---------------------------------------------------------------- Int32

  const Int32Min: int := -0x8000_0000
  const Int32Max: int := 0x7FFF_FFFF

  /** Two's-complement wrap-around of C#'s unchecked int arithmetic. */
  function Wrap32(x: int): (r: int)
    ensures Int32Min <= r <= Int32Max
    ensures (r - x) % 0x1_0000_0000 == 0
    ensures Int32Min <= x <= Int32Max ==> r == x
  {
    (x - Int32Min) % 0x1_0000_0000 + Int32Min
  }

  function DigitValue(c: char): nat
    requires IsDigit(c)
  {
    c as int - '0' as int
  }

  /** The value of a run of decimal digits, most significant first. */
  function DigitsValue(s: string): nat
    requires AllDigits(s)
  {
    if s == [] then 0 else DigitsValue(s[..|s| - 1]) * 10 + DigitValue(s[|s| - 1])
  }

  /** The decimal digits of n, without leading zeros. */
  function Decimal(n: nat): (s: string)
    ensures s != [] && AllDigits(s)
  {
    if n < 10 then [('0' as int + n) as char] else Decimal(n / 10) + [('0' as int + n % 10) as char]
  }

  lemma {:induction false} DecimalValue(n: nat)
    ensures DigitsValue(Decimal(n)) == n
  {
    if n >= 10 {
      DecimalValue(n / 10);
      var s := Decimal(n);
      assert s[..|s| - 1] == Decimal(n / 10);
    }
  }

  /** Int32.ToString() under the invariant culture. */
  function FormatInt(n: int): string {
    if n < 0 then "-" + Decimal(-n) else Decimal(n)
  }

  /** Int32.TryParse(s) with NumberStyles.Integer: optional white space, an optional
      sign, one or more decimal digits, optional white space, and a value in Int32. */
  function TryParseInt32(s: string): (r: Option<int>)
    ensures r.Some? ==> Int32Min <= r.value <= Int32Max
  {
    ParseSignedDigits(TrimWith(s, NumberWhite))
  }

  /** The part of TryParseInt32 after the white space is trimmed. */
  function ParseSignedDigits(body: string): (r: Option<int>)
    ensures r.Some? ==> Int32Min <= r.value <= Int32Max
  {
    var signed := body != [] && (body[0] == '-' || body[0] == '+');
    var digits := if signed then body[1..] else body;
    if digits == [] || !AllDigits(digits) then None
    else
      var v: int := if signed && body[0] == '-' then -(DigitsValue(digits) as int) else DigitsValue(digits);
      if Int32Min <= v <= Int32Max then Some(v) else None
  }

  /** Parsing what Int32.ToString() printed gives the number back. */
  lemma ParseFormatInt(n: int)
    requires Int32Min <= n <= Int32Max
    ensures TryParseInt32(FormatInt(n)) == Some(n)
  {
    if n < 0 {
      var digits := Decimal(-n);
      DecimalValue(-n);
      ParseNegative(digits);
      assert FormatInt(n) == "-" + digits;
      assert TryParseInt32("-" + digits) == Some(-(DigitsValue(digits) as int));
    } else {
      var digits := Decimal(n);
      DecimalValue(n);
      ParseUnsigned(digits);
      assert FormatInt(n) == digits;
    }
  }

  /** A run of digits parses as an Int32 exactly when its value fits. */
  lemma ParseUnsigned(digits: string)
    requires digits != [] && AllDigits(digits)
    ensures TryParseInt32(digits) == (if DigitsValue(digits) <= Int32Max then Some(DigitsValue(digits) as int) else None)
  {
    assert !IsWhite(digits[0], NumberWhite) && !IsWhite(digits[|digits| - 1], NumberWhite);
    TrimmedIsFixed(digits, NumberWhite);
  }

  /** A minus sign before a run of digits parses to the negated value when it fits. */
  lemma ParseNegative(digits: string)
    requires digits != [] && AllDigits(digits)
    ensures TryParseInt32("-" + digits)
         == (if DigitsValue(digits) <= -Int32Min then Some(-(DigitsValue(digits) as int)) else None)
  {
    NegativeUntrimmed(digits);
    NegativeSigned(digits);
  }

  lemma NegativeUntrimmed(digits: string)
    requires digits != [] && AllDigits(digits)
    ensures TrimWith("-" + digits, NumberWhite) == "-" + digits
  {
    var s := "-" + digits;
    assert s[|s| - 1] == digits[|digits| - 1];
    assert !IsWhite(s[0], NumberWhite) && !IsWhite(s[|s| - 1], NumberWhite);
    TrimmedIsFixed(s, NumberWhite);
  }

  lemma NegativeSigned(digits: string)
    requires digits != [] && AllDigits(digits)
    ensures ParseSignedDigits("-" + digits)
         == (if DigitsValue(digits) <= -Int32Min then Some(-(DigitsValue(digits) as int)) else None)
  {
    var s := "-" + digits;
    assert s[0] == '-' && s[1..] == digits;
  }
}
