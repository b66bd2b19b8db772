/** The pieces of the Java standard library the org chart core depends on,
    stated on unbounded integers and code-point strings: the 32-bit
    conversions of `Number.intValue()`, `String.trim()`,
    `Integer.parseInt(s)`, `String.split("/")` and `String.split("\\s+")`. */
module Jdk {
  import opened Wrappers

  const MinInt32: int := -0x8000_0000
  const MaxInt32: int := 0x7FFF_FFFF
  const TwoTo32: int := 0x1_0000_0000

  predicate InInt32(v: int) {
    MinInt32 <= v <= MaxInt32
  }

  /** `intValue()` of an integral `Long` or `BigInteger`: the low 32 bits,
      read as a two's-complement `int`. */
  function Wrap32(v: int): (r: int)
    ensures InInt32(r)
    ensures (r - v) % TwoTo32 == 0
    ensures InInt32(v) ==> r == v
  {
    var m := v % TwoTo32;
    var q := v / TwoTo32;
    assert v == q * TwoTo32 + m;
    if m <= MaxInt32 then
      assert m - v == -q * TwoTo32;
      m
    else
      assert m - TwoTo32 - v == (-q - 1) * TwoTo32;
      assert InInt32(v) ==> q == -1;
      m - TwoTo32
  }

  /** Values that differ by a multiple of 2^32 have the same low 32 bits. */
  lemma Wrap32Congruent(a: int, b: int)
    requires (a - b) % TwoTo32 == 0
    ensures Wrap32(a) == Wrap32(b)
  {
    var ra, rb := Wrap32(a), Wrap32(b);
    var qa, qb, qd := (ra - a) / TwoTo32, (rb - b) / TwoTo32, (a - b) / TwoTo32;
    assert ra - a == qa * TwoTo32;
    assert rb - b == qb * TwoTo32;
    assert a - b == qd * TwoTo32;
    assert ra - rb == (qa - qb + qd) * TwoTo32;
  }

  /** `int` addition: wrapping each operand first does not change the wrapped sum. */
  lemma Wrap32Add(a: int, b: int)
    ensures Wrap32(Wrap32(a) + Wrap32(b)) == Wrap32(a + b)
  {
    var ra, rb := Wrap32(a), Wrap32(b);
    var qa, qb := (ra - a) / TwoTo32, (rb - b) / TwoTo32;
    assert ra - a == qa * TwoTo32;
    assert rb - b == qb * TwoTo32;
    assert (ra + rb) - (a + b) == (qa + qb) * TwoTo32;
    Wrap32Congruent(ra + rb, a + b);
  }

  /** Wrapping an intermediate result early does not change the final `int`. */
  lemma Wrap32Shift(a: int, b: int)
    ensures Wrap32(Wrap32(a) + b) == Wrap32(a + b)
  {
    var ra := Wrap32(a);
    var qa := (ra - a) / TwoTo32;
    assert ra - a == qa * TwoTo32;
    assert (ra + b) - (a + b) == qa * TwoTo32;
    Wrap32Congruent(ra + b, a + b);
  }

  /** Rounding toward zero, as Java's `(int)` cast of a double does before saturating. */
  function TruncateTowardZero(r: real): (i: int)
    ensures 0.0 <= r ==> i as real <= r < i as real + 1.0
    ensures r < 0.0 ==> i as real - 1.0 < r <= i as real
  {
    if r >= 0.0 then r.Floor else -((-r).Floor)
  }

  /** `intValue()` of a `Double`: rounded toward zero, then saturated to the `int` range. */
  function DoubleToInt32(r: real): (i: int)
    ensures InInt32(i)
    ensures InInt32(TruncateTowardZero(r)) ==> i == TruncateTowardZero(r)
    ensures TruncateTowardZero(r) > MaxInt32 ==> i == MaxInt32
    ensures TruncateTowardZero(r) < MinInt32 ==> i == MinInt32
  {
    var t := TruncateTowardZero(r);
    if t > MaxInt32 then MaxInt32 else if t < MinInt32 then MinInt32 else t
  }

  // ---------------------------------------------------------------------
  // String.trim()

  /** `String.trim()` removes every leading and trailing char at or below U+0020. */
  predicate IsTrimmable(c: char) {
    c <= ' '
  }

  function LeadingTrimmable(s: string): (n: nat)
    ensures n <= |s|
    ensures forall k :: 0 <= k < n ==> IsTrimmable(s[k])
    ensures n == |s| || !IsTrimmable(s[n])
  {
    if |s| > 0 && IsTrimmable(s[0]) then 1 + LeadingTrimmable(s[1..]) else 0
  }

  function TrailingTrimmable(s: string): (n: nat)
    ensures n <= |s|
    ensures forall k :: |s| - n <= k < |s| ==> IsTrimmable(s[k])
    ensures n == |s| || !IsTrimmable(s[|s| - n - 1])
  {
    if |s| > 0 && IsTrimmable(s[|s| - 1]) then 1 + TrailingTrimmable(s[..|s| - 1]) else 0
  }

  function Trim(s: string): (r: string)
    ensures |r| <= |s|
    ensures r == [] ==> forall k :: 0 <= k < |s| ==> IsTrimmable(s[k])
    ensures r != [] ==> !IsTrimmable(r[0]) && !IsTrimmable(r[|r| - 1])
    ensures LeadingTrimmable(s) + |r| <= |s|
    ensures r == s[LeadingTrimmable(s)..LeadingTrimmable(s) + |r|]
    ensures forall k :: LeadingTrimmable(s) + |r| <= k < |s| ==> IsTrimmable(s[k])
  {
    var i := LeadingTrimmable(s);
    if i == |s| then
      assert s[0..0] == [];
      []
    else
      var j := |s| - TrailingTrimmable(s);
      assert i < j;
      s[i..j]
  }

  /** Padding a string that has no trimmable ends is undone by `trim()`. */
  lemma {:induction false} TrimRemovesPadding(pre: string, s: string, post: string)
    requires forall k :: 0 <= k < |pre| ==> IsTrimmable(pre[k])
    requires forall k :: 0 <= k < |post| ==> IsTrimmable(post[k])
    requires s != [] && !IsTrimmable(s[0]) && !IsTrimmable(s[|s| - 1])
    ensures Trim(pre + s + post) == s
  {
    var t := pre + s + post;
    var r := Trim(t);
    var i := LeadingTrimmable(t);
    assert t[|pre|] == s[0];
    assert t[|pre| + |s| - 1] == s[|s| - 1];
    assert forall k :: 0 <= k < |pre| ==> IsTrimmable(t[k]);
    assert forall k :: |pre| + |s| <= k < |t| ==> IsTrimmable(t[k]);
    assert i == |pre|;
    var j := |t| - TrailingTrimmable(t);
    assert j == |pre| + |s|;
    assert r == t[|pre|..|pre| + |s|];
  }

  // ---------------------------------------------------------------------
  // Integer.parseInt(s), radix 10

  /** The zero of every run of ten decimal digits (Unicode general category
      Nd, Unicode 15) in the basic multilingual plane: ASCII, then the
      fullwidth digits, then the rest in code point order. A character above
      the basic plane reaches Java as two surrogate `char`s, neither of them
      a digit, so no run from the other planes counts. */
  const DecimalZeros: seq<int> := [
    0x0030, 0xFF10, 0x0660, 0x06F0, 0x07C0, 0x0966, 0x09E6, 0x0A66, 0x0AE6, 0x0B66,
    0x0BE6, 0x0C66, 0x0CE6, 0x0D66, 0x0DE6, 0x0E50, 0x0ED0, 0x0F20, 0x1040, 0x1090,
    0x17E0, 0x1810, 0x1946, 0x19D0, 0x1A80, 0x1A90, 0x1B50, 0x1BB0, 0x1C40, 0x1C50,
    0xA620, 0xA8D0, 0xA900, 0xA9D0, 0xA9F0, 0xAA50, 0xABF0]

  /** The decimal value of `c` when it lies in one of the runs `i..`. */
  function DecimalFrom(c: char, i: nat): (r: Option<nat>)
    requires i <= |DecimalZeros|
    ensures r.Some? ==> r.value < 10
    decreases |DecimalZeros| - i
  {
    if i == |DecimalZeros| then None
    else if DecimalZeros[i] <= c as int < DecimalZeros[i] + 10 then Some(c as int - DecimalZeros[i])
    else DecimalFrom(c, i + 1)
  }

  /** The search finds a value exactly when `c` lies in one of the runs
      `i..`, and the value is the distance from that run's zero. */
  lemma {:induction false} DecimalFromSpec(c: char, i: nat)
    requires i <= |DecimalZeros|
    ensures DecimalFrom(c, i).Some? <==> exists j :: i <= j < |DecimalZeros| && DecimalZeros[j] <= c as int < DecimalZeros[j] + 10
    ensures DecimalFrom(c, i).Some? ==> exists j :: i <= j < |DecimalZeros| && c as int == DecimalZeros[j] + DecimalFrom(c, i).value
    decreases |DecimalZeros| - i
  {
    if i < |DecimalZeros| {
      DecimalFromSpec(c, i + 1);
    }
  }

  /** A Latin letter, ASCII or fullwidth. */
  predicate IsLatinLetter(c: char) {
    || 'a' <= c <= 'z' || 'A' <= c <= 'Z'
    || 0xFF21 <= c as int <= 0xFF3A || 0xFF41 <= c as int <= 0xFF5A
  }

  /** `Character.digit(c, radix)` for a radix between 2 and 36: the value of
      a decimal digit of any script, or of a Latin letter, ASCII or
      fullwidth, counting 'a' as 10; `None` (Java's -1) when the value is
      not below the radix or `c` is neither. */
  function CharDigit(c: char, radix: nat): (r: Option<nat>)
    requires 2 <= radix <= 36
    ensures r.Some? ==> r.value < radix
    ensures '0' <= c <= '9' && (c - '0') as nat < radix ==> r == Some((c - '0') as nat)
    ensures IsLatinLetter(c) ==> r.None? || r.value >= 10
  {
    var v: Option<nat> :=
      if '0' <= c <= '9' then Some((c - '0') as nat)
      else if 'a' <= c <= 'z' then Some((c - 'a') as nat + 10)
      else if 'A' <= c <= 'Z' then Some((c - 'A') as nat + 10)
      else if 0xFF21 <= c as int <= 0xFF3A then Some(c as int - 0xFF21 + 10)
      else if 0xFF41 <= c as int <= 0xFF5A then Some(c as int - 0xFF41 + 10)
      else DecimalFrom(c, 0);
    if v.Some? && v.value < radix then v else None
  }

  /** A decimal digit as `parseInt` reads it: `Character.digit(c, 10) >= 0`. */
  predicate IsDigit(c: char) {
    CharDigit(c, 10).Some?
  }

  predicate AllDigits(s: string) {
    forall k :: 0 <= k < |s| ==> IsDigit(s[k])
  }

  function DigitValue(c: char): nat
    requires IsDigit(c)
  {
    CharDigit(c, 10).value
  }

  /** The value of a digit string, read left to right as `parseInt` accumulates it. */
  function DigitsValue(s: string): nat
    requires AllDigits(s)
  {
    if |s| == 0 then 0 else 10 * DigitsValue(s[..|s| - 1]) + DigitValue(s[|s| - 1])
  }

  /** `Integer.parseInt(s)`: an optional sign, at least one digit, and a value
      inside the `int` range; anything else throws `NumberFormatException`
      (here: `None`). */
  function ParseInt32(s: string): (r: Option<int>)
    ensures r.Some? ==> InInt32(r.value)
    ensures r.Some? ==> |s| > 0 && AllDigits(if s[0] == '-' || s[0] == '+' then s[1..] else s)
    ensures |s| > 0 && AllDigits(s) && DigitsValue(s) <= MaxInt32 ==> r == Some(DigitsValue(s))
    ensures |s| > 1 && s[0] == '+' && AllDigits(s[1..]) && DigitsValue(s[1..]) <= MaxInt32 ==> r == Some(DigitsValue(s[1..]))
    ensures |s| > 1 && s[0] == '-' && AllDigits(s[1..]) && DigitsValue(s[1..]) <= -MinInt32 ==> r == Some(-(DigitsValue(s[1..]) as int))
    ensures |s| > 0 && AllDigits(if s[0] == '-' || s[0] == '+' then s[1..] else s) ==>
              var digits := if s[0] == '-' || s[0] == '+' then s[1..] else s;
              (r.None? <==> |digits| == 0 || DigitsValue(digits) > (if s[0] == '-' then -MinInt32 else MaxInt32))
  {
    if |s| == 0 then None
    else
      SignsAreNotDigits();
      var negative := s[0] == '-';
      var digits := if s[0] == '-' || s[0] == '+' then s[1..] else s;
      if |digits| == 0 || !AllDigits(digits) then None
      else
        var v := if negative then -(DigitsValue(digits) as int) else DigitsValue(digits);
        if InInt32(v) then Some(v) else None
  }

  /** No character below '0' is a digit of any script, the signs included. */
  lemma SignsAreNotDigits()
    ensures !IsDigit('-') && !IsDigit('+')
  {
    DecimalFromSpec('-', 0);
    DecimalFromSpec('+', 0);
    DecimalZerosPlaced();
  }

  /** Where the runs lie: the only one within ASCII is '0' to '9', and none
      reaches the fullwidth letters. */
  lemma DecimalZerosPlaced()
    ensures forall j :: 0 <= j < |DecimalZeros| ==>
              && (DecimalZeros[j] == '0' as int || DecimalZeros[j] >= 0x660)
              && DecimalZeros[j] + 10 <= 0xFF21
  {
  }

  /** A character is a decimal digit exactly when it lies in one of the
      runs of ten, and its value is its distance from the run's zero. */
  lemma DecimalDigitSpec(c: char)
    ensures IsDigit(c) <==> exists j :: 0 <= j < |DecimalZeros| && DecimalZeros[j] <= c as int < DecimalZeros[j] + 10
    ensures IsDigit(c) ==> exists j :: 0 <= j < |DecimalZeros| && c as int == DecimalZeros[j] + DigitValue(c)
  {
    DecimalFromSpec(c, 0);
    if IsLatinLetter(c) {
      assert !IsDigit(c);
      DecimalZerosPlaced();
    } else if !('0' <= c <= '9') {
      assert CharDigit(c, 10) == DecimalFrom(c, 0);
    }
  }

  /** Digits of other scripts count as `Character.digit` counts them:
      fullwidth "12" is 12. */
  lemma ParseFullwidth()
    ensures ParseInt32("\U{FF11}\U{FF12}") == Some(12)
  {
    var full := "\U{FF11}\U{FF12}";
    assert DecimalFrom('\U{FF11}', 0) == DecimalFrom('\U{FF11}', 1) == Some(1);
    assert DecimalFrom('\U{FF12}', 0) == DecimalFrom('\U{FF12}', 1) == Some(2);
    assert AllDigits(full);
    assert DigitsValue(full[..1]) == 1;
    assert DigitsValue(full) == 12;
  }

  /** Arabic-Indic "-12" is -12. */
  lemma ParseArabicIndic()
    ensures ParseInt32("-\U{0661}\U{0662}") == Some(-12)
  {
    var arabic := "\U{0661}\U{0662}";
    assert "-\U{0661}\U{0662}"[1..] == arabic;
    assert DecimalFrom('\U{0661}', 0) == DecimalFrom('\U{0661}', 1) == DecimalFrom('\U{0661}', 2) == Some(1);
    assert DecimalFrom('\U{0662}', 0) == DecimalFrom('\U{0662}', 1) == DecimalFrom('\U{0662}', 2) == Some(2);
    assert AllDigits(arabic);
    assert DigitsValue(arabic[..1]) == 1;
    assert DigitsValue(arabic) == 12;
  }

  /** A superscript two is a digit in the Unicode sense but not a decimal
      digit, so "1²" does not parse. */
  lemma ParseSuperscriptFails()
    ensures ParseInt32("1\U{00B2}") == None
  {
    DecimalDigitSpec('\U{00B2}');
    assert !IsDigit("1\U{00B2}"[1]);
  }

  function DigitChar(d: nat): (c: char)
    requires d < 10
    ensures '0' <= c <= '9' && IsDigit(c) && DigitValue(c) == d
  {
    ('0' as int + d) as char
  }

  /** `Integer.toString(n)` for a non-negative `n`. */
  function DecimalString(n: nat): (s: string)
    ensures |s| > 0 && AllDigits(s)
    ensures forall k :: 0 <= k < |s| ==> '0' <= s[k] <= '9'
    decreases n
  {
    if n < 10 then [DigitChar(n)] else DecimalString(n / 10) + [DigitChar(n % 10)]
  }

  lemma {:induction false} DecimalStringValue(n: nat)
    ensures DigitsValue(DecimalString(n)) == n
    decreases n
  {
    var s := DecimalString(n);
    if n >= 10 {
      DecimalStringValue(n / 10);
      assert s[..|s| - 1] == DecimalString(n / 10);
    }
  }

  lemma NegativeRoundTrip(m: nat)
    requires 0 < m <= -MinInt32
    ensures ParseInt32("-" + DecimalString(m)) == Some(-(m as int))
  {
    var d := DecimalString(m);
    DecimalStringValue(m);
    var s := "-" + d;
    assert |s| > 1 && s[0] == '-' && s[1..] == d;
    ParseNegative(s);
  }

  /** A minus sign before digits whose value is at most 2^31 negates it. */
  lemma ParseNegative(s: string)
    requires |s| > 1 && s[0] == '-' && AllDigits(s[1..]) && DigitsValue(s[1..]) <= -MinInt32
    ensures ParseInt32(s) == Some(-(DigitsValue(s[1..]) as int))
  {
  }

  /** Round trip: `parseInt` reads back what `Integer.toString` writes, for every `int`. */
  lemma ParseDecimalRoundTrip(n: int)
    requires InInt32(n)
    ensures ParseInt32(if n < 0 then "-" + DecimalString(-n) else DecimalString(n)) == Some(n)
  {
    if n < 0 {
      NegativeRoundTrip(-n);
    } else {
      DecimalStringValue(n);
      var s := DecimalString(n);
      assert ParseInt32(s) == Some(n);
    }
  }

  // ---------------------------------------------------------------------
  // Joining and splitting on one separator character

  /** `String.join(sep, parts)`. */
  function Join(parts: seq<string>, sep: char): string
  {
    if |parts| == 0 then []
    else if |parts| == 1 then parts[0]
    else parts[0] + [sep] + Join(parts[1..], sep)
  }

  /** Every piece between separators, empty pieces included; the raw material
      of `String.split` before its trailing empty pieces are removed. */
  function Pieces(s: string, sep: char): (r: seq<string>)
    ensures |r| >= 1
    ensures forall k :: 0 <= k < |r| ==> sep !in r[k]
    ensures sep !in s ==> r == [s]
  {
    if |s| == 0 then [[]]
    else
      var rest := Pieces(s[1..], sep);
      if s[0] == sep then [[]] + rest
      else
        assert s == [s[0]] + s[1..];
        [[s[0]] + rest[0]] + rest[1..]
  }

  /** Splitting and joining again gives back the string. */
  lemma {:induction false} JoinPieces(s: string, sep: char)
    ensures Join(Pieces(s, sep), sep) == s
  {
    if |s| > 0 {
      var rest := Pieces(s[1..], sep);
      JoinPieces(s[1..], sep);
      if s[0] != sep {
        var r := Pieces(s, sep);
        assert r[1..] == rest[1..];
        if |rest| == 1 {
          assert Join(r, sep) == [s[0]] + rest[0];
        } else {
          assert Join(r, sep) == [s[0]] + rest[0] + [sep] + Join(rest[1..], sep);
        }
      } else {
        assert s == [sep] + s[1..];
      }
    }
  }

  /** Removes the trailing empty strings, as `split` with limit 0 does. */
  function DropTrailingEmpty(parts: seq<string>): (r: seq<string>)
    ensures |r| <= |parts| && r == parts[..|r|]
    ensures |r| == 0 || r[|r| - 1] != []
    ensures forall k :: |r| <= k < |parts| ==> parts[k] == []
  {
    if |parts| > 0 && parts[|parts| - 1] == [] then DropTrailingEmpty(parts[..|parts| - 1]) else parts
  }

  /** `s.split(String.valueOf(sep))` for a separator that is not a regex
      metacharacter: no match gives `[s]`; otherwise every piece, minus the
      trailing empty ones. */
  function SplitOn(s: string, sep: char): seq<string>
  {
    if sep !in s then [s] else DropTrailingEmpty(Pieces(s, sep))
  }

  /** Number of segments of a hierarchy code, `code.split("/").length`. */
  function SegmentCount(code: string): nat
  {
    |SplitOn(code, '/')|
  }

  /** The documented edge cases of `split("/")`: the empty string is one
      segment, a lone slash is none, a leading slash adds an empty segment and
      trailing slashes add nothing. */
  lemma SegmentCountExamples()
    ensures SegmentCount("") == 1
    ensures SegmentCount("/") == 0
    ensures SegmentCount("/a") == 2
    ensures SegmentCount("2/") == 1
    ensures SegmentCount("1//2") == 3
  {
    assert "/a"[1..] == "a" && "2/"[1..] == "/" && "/2/"[1..] == "2/" && "1/2/"[1..] == "/2/";
    assert "/2"[1..] == "2" && "//2"[1..] == "/2" && "1//2"[1..] == "//2" && "a"[1..] == "";
    assert "/"[1..] == "" && "2"[1..] == "";
    assert Pieces("", '/') == [""];
    assert Pieces("/", '/') == ["", ""];
    assert Pieces("a", '/') == ["a"];
    assert Pieces("/a", '/') == ["", "a"];
    assert Pieces("2", '/') == ["2"];
    assert Pieces("/", '/') == ["", ""];
    assert Pieces("2/", '/') == ["2", ""];
    assert Pieces("/2/", '/') == ["", "2", ""];
    assert Pieces("/2", '/') == ["", "2"];
    assert Pieces("//2", '/') == ["", "", "2"];
    var rest: seq<string> := ["", "", "2"];
    assert rest[1..] == ["", "2"] && ['1'] + rest[0] == "1";
    assert Pieces("1//2", '/') == ["1", "", "2"];
  }

  /** `"/".split("/")` is empty: both pieces are empty and both are dropped. */
  lemma SlashHasNoSegments()
    ensures SegmentCount("/") == 0
  {
    SegmentCountExamples();
  }

  /** With no trailing slash, the segment count is one more than the number of slashes. */
  lemma {:induction false} SegmentCountNoTrailingSlash(s: string)
    requires |s| > 0 && s[|s| - 1] != '/'
    ensures SegmentCount(s) == |Pieces(s, '/')|
  {
    PiecesLastNonEmpty(s, '/');
  }

  lemma {:induction false} PiecesLastNonEmpty(s: string, sep: char)
    requires |s| > 0 && s[|s| - 1] != sep
    ensures var r := Pieces(s, sep); r[|r| - 1] != []
  {
    if |s| > 1 {
      PiecesLastNonEmpty(s[1..], sep);
    }
  }

  // ---------------------------------------------------------------------
  // Splitting on runs of whitespace, String.split("\\s+")

  /** The regex class `\s`: space, tab, newline, vertical tab, form feed, carriage return. */
  predicate IsRegexSpace(c: char) {
    c == ' ' || c == '\t' || c == '\n' || c == '\U{B}' || c == '\U{C}' || c == '\r'
  }

  predicate HasSpace(s: string) {
    exists k :: 0 <= k < |s| && IsRegexSpace(s[k])
  }

  predicate NoSpace(s: string) {
    forall k :: 0 <= k < |s| ==> !IsRegexSpace(s[k])
  }

  function DropSpaceRun(s: string): (r: string)
    ensures |r| <= |s| && r == s[|s| - |r|..]
    ensures |r| == 0 || !IsRegexSpace(r[0])
  {
    if |s| > 0 && IsRegexSpace(s[0]) then DropSpaceRun(s[1..]) else s
  }

  /** The pieces between maximal whitespace runs: a leading empty piece when the
      string starts with whitespace, a trailing one when it ends with it. */
  function RunPieces(s: string): (r: seq<string>)
    ensures |r| >= 1
    ensures forall k :: 0 <= k < |r| ==> NoSpace(r[k])
    ensures forall k :: 0 < k < |r| - 1 ==> r[k] != []
    ensures NoSpace(s) ==> r == [s]
    decreases |s|
  {
    if |s| == 0 then [[]]
    else if IsRegexSpace(s[0]) then [[]] + RunPieces(DropSpaceRun(s))
    else
      var rest := RunPieces(s[1..]);
      assert s == [s[0]] + s[1..];
      [[s[0]] + rest[0]] + rest[1..]
  }

  /** `s.split("\\s+")`: the words of `s`; only the first may be empty (when
      `s` starts with whitespace), and none contains whitespace. */
  function SplitOnSpace(s: string): (r: seq<string>)
    ensures forall k :: 0 <= k < |r| ==> NoSpace(r[k])
    ensures forall k :: 0 < k < |r| ==> r[k] != []
    ensures NoSpace(s) ==> r == [s]
  {
    if NoSpace(s) then [s] else DropTrailingEmpty(RunPieces(s))
  }

  /** Join with single spaces. */
  function Unwords(ws: seq<string>): string
  {
    Join(ws, ' ')
  }

  /** The non-empty entries, in order. */
  function NonEmpty(ws: seq<string>): (r: seq<string>)
    ensures forall k :: 0 <= k < |r| ==> r[k] != []
    ensures forall w :: w in r <==> w in ws && w != []
  {
    if |ws| == 0 then []
    else if ws[0] == [] then NonEmpty(ws[1..])
    else [ws[0]] + NonEmpty(ws[1..])
  }

  lemma NonEmptySnoc(ws: seq<string>, w: string)
    ensures NonEmpty(ws + [w]) == NonEmpty(ws) + (if w == [] then [] else [w])
  {
    if |ws| > 0 {
      assert (ws + [w])[1..] == ws[1..] + [w];
      NonEmptySnoc(ws[1..], w);
    }
  }

  /** Reads `s` left to right and writes it back with every maximal
      whitespace run replaced by one space, dropping the runs at either end:
      `started` says a word has been written, `pending` that whitespace has
      been seen since. */
  function Squeeze(s: string, pending: bool, started: bool): string
    decreases |s|
  {
    if |s| == 0 then []
    else if IsRegexSpace(s[0]) then Squeeze(s[1..], started, started)
    else (if pending then " " else "") + [s[0]] + Squeeze(s[1..], false, true)
  }

  /** The text with its whitespace runs collapsed to single spaces and trimmed. */
  function Collapsed(s: string): string
  {
    Squeeze(s, false, false)
  }

  lemma JoinCons(w: string, ws: seq<string>, sep: char)
    ensures Join([w] + ws, sep) == if |ws| == 0 then w else w + [sep] + Join(ws, sep)
  {
    assert ([w] + ws)[1..] == ws;
  }

  /** A leading whitespace character does not change the words found. */
  lemma RunPiecesSpaceHead(s: string)
    requires |s| > 0 && IsRegexSpace(s[0])
    ensures NonEmpty(RunPieces(s)) == NonEmpty(RunPieces(s[1..]))
  {
    var t := s[1..];
    assert DropSpaceRun(s) == DropSpaceRun(t);
    var rest := RunPieces(DropSpaceRun(t));
    assert ([[]] + rest)[1..] == rest;
    if !(|t| > 0 && IsRegexSpace(t[0])) {
      assert DropSpaceRun(t) == t;
    }
  }

  lemma RunPiecesFirstEmpty(s: string)
    ensures RunPieces(s)[0] == [] <==> |s| == 0 || IsRegexSpace(s[0])
  {
  }

  /** Words joined by single spaces, after one more space when `gap` holds
      and there is a word. */
  function Spaced(ws: seq<string>, gap: bool): string
  {
    (if ws != [] && gap then " " else "") + Unwords(ws)
  }

  /** `Squeeze` from any state writes the words of the run pieces, joined
      by single spaces, after one space when a word was already written and
      whitespace separates it from the next. */
  lemma {:induction false} SqueezeWords(s: string, pending: bool, started: bool)
    requires pending ==> started
    ensures Squeeze(s, pending, started)
         == Spaced(NonEmpty(RunPieces(s)), pending || (started && |s| > 0 && IsRegexSpace(s[0])))
    decreases |s|, 1
  {
    if |s| == 0 {
    } else if IsRegexSpace(s[0]) {
      SqueezeWordsSpace(s, pending, started);
    } else {
      SqueezeWordsWord(s, pending, started);
    }
  }

  lemma {:induction false} SqueezeWordsSpace(s: string, pending: bool, started: bool)
    requires pending ==> started
    requires |s| > 0 && IsRegexSpace(s[0])
    ensures Squeeze(s, pending, started) == Spaced(NonEmpty(RunPieces(s)), started)
    decreases |s|, 0
  {
    RunPiecesSpaceHead(s);
    SqueezeWords(s[1..], started, started);
  }

  lemma {:induction false} SqueezeWordsWord(s: string, pending: bool, started: bool)
    requires pending ==> started
    requires |s| > 0 && !IsRegexSpace(s[0])
    ensures Squeeze(s, pending, started) == Spaced(NonEmpty(RunPieces(s)), pending)
    decreases |s|, 0
  {
    var t := s[1..];
    var r := RunPieces(t);
    var gap := if pending then " " else "";
    var rest := Squeeze(t, false, true);
    assert Squeeze(s, pending, started) == gap + [s[0]] + rest;
    SqueezeWords(t, false, true);
    var n := NonEmpty(r[1..]);
    var tail := if n == [] then "" else " " + Unwords(n);
    RunPiecesWordHead(s);
    SpacedCons([s[0]] + r[0], n, pending);
    assert Spaced(NonEmpty(RunPieces(s)), pending) == gap + ([s[0]] + r[0]) + tail;
    if r[0] == [] {
      WordThenGap(t, r, n);
      assert rest == tail;
      assert [s[0]] + r[0] == [s[0]];
    } else {
      WordContinues(t, r, n);
      assert rest == r[0] + tail;
      SeqAssoc3(gap, [s[0]], r[0], tail);
    }
  }

  lemma SeqAssoc3(a: string, b: string, c: string, d: string)
    ensures a + b + (c + d) == a + (b + c) + d
  {
  }

  /** The first piece of a text that starts with a word character extends
      the first piece of the rest. */
  lemma RunPiecesWordHead(s: string)
    requires |s| > 0 && !IsRegexSpace(s[0])
    ensures NonEmpty(RunPieces(s))
         == [[s[0]] + RunPieces(s[1..])[0]] + NonEmpty(RunPieces(s[1..])[1..])
  {
    var r := RunPieces(s[1..]);
    var w := [s[0]] + r[0];
    assert RunPieces(s) == [w] + r[1..];
    assert ([w] + r[1..])[1..] == r[1..];
  }

  lemma SpacedCons(w: string, n: seq<string>, gap: bool)
    requires w != []
    ensures Spaced([w] + n, gap) == (if gap then " " else "") + w + (if n == [] then "" else " " + Unwords(n))
  {
    JoinCons(w, n, ' ');
  }

  /** After a word, a non-empty first piece continues that word. */
  lemma WordContinues(t: string, r: seq<string>, n: seq<string>)
    requires r == RunPieces(t) && r[0] != [] && n == NonEmpty(r[1..])
    ensures |t| > 0 && !IsRegexSpace(t[0])
    ensures Spaced(NonEmpty(r), false) == r[0] + (if n == [] then "" else " " + Unwords(n))
  {
    RunPiecesFirstEmpty(t);
    assert r == [r[0]] + r[1..];
    assert NonEmpty(r) == [r[0]] + n;
    SpacedCons(r[0], n, false);
  }

  /** After a word, an empty first piece means whitespace follows it. */
  lemma WordThenGap(t: string, r: seq<string>, n: seq<string>)
    requires r == RunPieces(t) && r[0] == [] && n == NonEmpty(r[1..])
    ensures NonEmpty(r) == n
    ensures n != [] ==> |t| > 0 && IsRegexSpace(t[0])
  {
    RunPiecesFirstEmpty(t);
    if |t| == 0 {
      assert r == [[]];
    }
  }

  /** Trailing empty pieces hold no words. */
  lemma {:induction false} NonEmptyDropTrailing(ps: seq<string>)
    ensures NonEmpty(DropTrailingEmpty(ps)) == NonEmpty(ps)
    decreases |ps|
  {
    if |ps| > 0 && ps[|ps| - 1] == [] {
      var init := ps[..|ps| - 1];
      assert ps == init + [[]];
      NonEmptySnoc(init, []);
      NonEmptyDropTrailing(init);
    }
  }

  /** The words `split("\\s+")` returns, with the empty leading one dropped
      and joined by single spaces, are the text with every whitespace run
      made one space and the runs at both ends removed: no word is lost,
      split or merged. */
  lemma SplitOnSpaceCollapses(s: string)
    ensures Unwords(NonEmpty(SplitOnSpace(s))) == Collapsed(s)
  {
    SqueezeWords(s, false, false);
    if !NoSpace(s) {
      NonEmptyDropTrailing(RunPieces(s));
    }
  }

  lemma SplitOnSpaceBlank()
    ensures SplitOnSpace(" ") == []
  {
    assert IsRegexSpace(" "[0]);
    assert DropSpaceRun(" ") == [];
    assert RunPieces(" ") == [[], []];
  }
}
