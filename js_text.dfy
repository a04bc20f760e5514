/** The few pieces of the JavaScript string and number library that the
    pages rely on: `trim`, `split(...).pop()`, `toLowerCase`,
    `toString()` of an integer, `padStart`, and the `%` operator. */
module JsText {

  // ---------------------------------------------------------------------
  // Whitespace and trim
  // ---------------------------------------------------------------------

  /** The characters `String.prototype.trim` removes: the ECMAScript
      WhiteSpace and LineTerminator code points. */
  predicate IsJsWhitespace(c: char) {
    var k := c as int;
    k == 0x09 || k == 0x0A || k == 0x0B || k == 0x0C || k == 0x0D || k == 0x20 ||
    k == 0xA0 || k == 0x1680 || (0x2000 <= k <= 0x200A) || k == 0x2028 ||
    k == 0x2029 || k == 0x202F || k == 0x205F || k == 0x3000 || k == 0xFEFF
  }

  /** Every character of `s` from index `lo` up to `hi` is whitespace. */
  predicate BlankBetween(s: string, lo: int, hi: int)
    requires 0 <= lo && hi <= |s|
  {
    forall i :: lo <= i < hi ==> IsJsWhitespace(s[i])
  }

  predicate IsBlank(s: string) {
    BlankBetween(s, 0, |s|)
  }

  /** Where the text proper starts: the number of leading whitespace
      characters. */
  function LeadingBlanks(s: string): (n: nat)
    ensures n <= |s| && BlankBetween(s, 0, n)
    ensures n == |s| || !IsJsWhitespace(s[n])
    decreases |s|
  {
    if s != [] && IsJsWhitespace(s[0]) then 1 + LeadingBlanks(s[1..]) else 0
  }

  /** Where the text proper ends: the length without trailing whitespace. */
  function TextEnd(s: string): (n: nat)
    ensures n <= |s| && BlankBetween(s, n, |s|)
    ensures n == 0 || !IsJsWhitespace(s[n - 1])
    decreases |s|
  {
    if s != [] && IsJsWhitespace(s[|s| - 1]) then TextEnd(s[..|s| - 1]) else |s|
  }

  /** `s.trim()`: the text between the leading and the trailing whitespace. */
  function Trim(s: string): string {
    var t := s[LeadingBlanks(s)..];
    t[..TextEnd(t)]
  }

  /** `s.trim()` is the piece of `s` that starts after the leading
      whitespace, and everything cut away on both sides is whitespace. */
  lemma TrimShape(s: string)
    ensures var r, k := Trim(s), LeadingBlanks(s);
      k + |r| <= |s| && r == s[k..k + |r|] && BlankBetween(s, 0, k) && BlankBetween(s, k + |r|, |s|)
  {
    var k := LeadingBlanks(s);
    var t := s[k..];
    var e := TextEnd(t);
    assert t[..e] == s[k..k + e];
    forall i | k + e <= i < |s| ensures IsJsWhitespace(s[i]) {
      assert s[i] == t[i - k];
    }
  }

  /** The trimmed text neither starts nor ends with whitespace. */
  lemma TrimEdges(s: string)
    ensures var r := Trim(s); r == [] || (!IsJsWhitespace(r[0]) && !IsJsWhitespace(r[|r| - 1]))
  {
    var k := LeadingBlanks(s);
    var t := s[k..];
    var e := TextEnd(t);
    if e > 0 {
      assert t[..e][0] == s[k] && !IsJsWhitespace(s[k]);
      assert t[..e][e - 1] == t[e - 1] && !IsJsWhitespace(t[e - 1]);
    }
  }

  /** A text is rejected as blank exactly when it consists of whitespace
      only (the empty text included). */
  lemma TrimEmptyIffBlank(s: string)
    ensures Trim(s) == [] <==> IsBlank(s)
  {
    TrimShape(s);
    var k := LeadingBlanks(s);
    if IsBlank(s) {
      assert k == |s|;
    }
  }

  // ---------------------------------------------------------------------
  // Lower case
  // ---------------------------------------------------------------------

  function LowerChar(c: char): char {
    if 'A' <= c <= 'Z' then (c as int + 32) as char else c
  }

  /** `s.toLowerCase()` on the letters A-Z; every other character is kept. */
  function ToLower(s: string): (r: string)
    ensures |r| == |s|
    ensures forall i :: 0 <= i < |s| ==> r[i] == LowerChar(s[i])
  {
    seq(|s|, i requires 0 <= i < |s| => LowerChar(s[i]))
  }

  // ---------------------------------------------------------------------
  // split and pop
  // ---------------------------------------------------------------------

  /** The index of the last `sep` in `s`, or -1 when there is none. */
  function LastIndexOf(s: string, sep: char): (i: int)
    ensures -1 <= i < |s|
    ensures i >= 0 ==> s[i] == sep
    ensures forall j :: i < j < |s| ==> s[j] != sep
    decreases |s|
  {
    if s == [] then -1
    else if s[|s| - 1] == sep then |s| - 1
    else LastIndexOf(s[..|s| - 1], sep)
  }

  /** `s.split(sep)` for a one-character separator: the pieces between
      separators, in order, at least one of them, none containing the
      separator. Built from the back: the pieces of the text before the
      last separator, then the text after it. */
  function Split(s: string, sep: char): (parts: seq<string>)
    ensures |parts| >= 1
    ensures forall i :: 0 <= i < |parts| ==> sep !in parts[i]
    ensures sep !in s <==> |parts| == 1
    ensures |parts| == 1 ==> parts[0] == s
    decreases |s|
  {
    var i := LastIndexOf(s, sep);
    if i < 0 then [s]
    else
      var last := s[i + 1..];
      assert sep !in last by {
        forall j | 0 <= j < |last| ensures last[j] != sep { assert last[j] == s[i + 1 + j]; }
      }
      Split(s[..i], sep) + [last]
  }

  /** `parts.join(sep)` */
  function Join(parts: seq<string>, sep: char): string
    requires |parts| >= 1
    decreases |parts|
  {
    if |parts| == 1 then parts[0]
    else Join(parts[..|parts| - 1], sep) + [sep] + parts[|parts| - 1]
  }

  /** Splitting loses nothing: joining the pieces gives the text back. */
  lemma {:induction false} JoinSplit(s: string, sep: char)
    ensures Join(Split(s, sep), sep) == s
    decreases |s|
  {
    var i := LastIndexOf(s, sep);
    if i >= 0 {
      JoinSplit(s[..i], sep);
      var q := Split(s[..i], sep);
      var p := q + [s[i + 1..]];
      assert p[..|p| - 1] == q;
      assert Join(p, sep) == Join(q, sep) + [sep] + s[i + 1..];
      CutAround(s, i);
    }
  }

  /** A text is the part before index `i`, the character there, and the part after. */
  lemma CutAround(s: string, i: nat)
    requires i < |s|
    ensures s == s[..i] + [s[i]] + s[i + 1..]
  {
    assert s[i..] == [s[i]] + s[i + 1..];
    assert s == s[..i] + s[i..];
  }

  /** The last piece of a split (what `split(sep).pop()` returns) is the
      text after the last separator, or the whole text when there is no
      separator. */
  lemma LastPiece(s: string, sep: char)
    ensures var p := Split(s, sep); var last := p[|p| - 1];
      |last| <= |s| && last == s[|s| - |last|..] && sep !in last &&
      (|last| < |s| ==> s[|s| - |last| - 1] == sep) &&
      (sep !in s <==> last == s)
  {
    var i := LastIndexOf(s, sep);
    if i >= 0 {
      assert s[i] == sep;
    }
  }

  // ---------------------------------------------------------------------
  // Integers as decimal text
  // ---------------------------------------------------------------------

  predicate IsDigit(c: char) {
    '0' <= c <= '9'
  }

  predicate AllDigits(s: string) {
    forall i :: 0 <= i < |s| ==> IsDigit(s[i])
  }

  function DigitChar(d: nat): (c: char)
    requires d < 10
    ensures IsDigit(c)
  {
    ('0' as int + d) as char
  }

  function DigitValue(c: char): (d: nat)
    requires IsDigit(c)
    ensures d < 10
  {
    c as int - '0' as int
  }

  /** `n.toString()` for a non-negative integer. */
  function NatToString(n: nat): (s: string)
    ensures |s| >= 1 && AllDigits(s)
    ensures |s| == 1 <==> n < 10
    decreases n
  {
    if n < 10 then [DigitChar(n)] else NatToString(n / 10) + [DigitChar(n % 10)]
  }

  /** `i.toString()` for integers below 10^21 in magnitude (larger ones
      JavaScript writes in exponent form): a minus sign before the digits
      of a negative number. */
  function IntToString(i: int): string {
    if i < 0 then "-" + NatToString(-i) else NatToString(i)
  }

  /** The value of a string of decimal digits (leading zeros allowed). */
  function ParseDigits(s: string): nat
    requires AllDigits(s)
    decreases |s|
  {
    if s == [] then 0 else ParseDigits(s[..|s| - 1]) * 10 + DigitValue(s[|s| - 1])
  }

  /** Reading back the digits printed for `n` gives `n`. */
  lemma {:induction false} ParseNatToString(n: nat)
    ensures ParseDigits(NatToString(n)) == n
    decreases n
  {
    if n >= 10 {
      ParseNatToString(n / 10);
      var s := NatToString(n);
      assert s[..|s| - 1] == NatToString(n / 10);
    }
  }

  /** A leading zero does not change the value of a digit string. */
  lemma {:induction false} ParseLeadingZero(s: string)
    requires AllDigits(s)
    ensures AllDigits(['0'] + s) && ParseDigits(['0'] + s) == ParseDigits(s)
    decreases |s|
  {
    if s != [] {
      ParseLeadingZero(s[..|s| - 1]);
      assert (['0'] + s)[..|s|] == ['0'] + s[..|s| - 1];
    }
  }

  /** `s.padStart(width, fill)` for a one-character fill string: `fill`
      is put in front until the text is `width` long. */
  function PadStart(s: string, width: nat, fill: char): (r: string)
    ensures |r| == if |s| >= width then |s| else width
    decreases width
  {
    if |s| >= width then s else [fill] + PadStart(s, width - 1, fill)
  }

  /** Zero-padding a digit string keeps it a digit string of the same value. */
  lemma {:induction false} PaddedDigits(s: string, width: nat)
    requires AllDigits(s)
    ensures AllDigits(PadStart(s, width, '0')) && ParseDigits(PadStart(s, width, '0')) == ParseDigits(s)
    decreases width
  {
    if |s| < width {
      PaddedDigits(s, width - 1);
      ParseLeadingZero(PadStart(s, width - 1, '0'));
    }
  }

  /** `n.toString().padStart(width, '0')` is a string of at least `width`
      digits whose value is `n`. */
  lemma PaddedNumber(n: nat, width: nat)
    ensures var r := PadStart(NatToString(n), width, '0');
      AllDigits(r) && |r| >= width && |r| >= 1 && ParseDigits(r) == n
    ensures width <= 1 ==> PadStart(NatToString(n), width, '0') == NatToString(n)
  {
    ParseNatToString(n);
    PaddedDigits(NatToString(n), width);
  }

  /** A number below 100 prints as at most two digits. */
  lemma ShortNumber(n: nat)
    requires n < 100
    ensures |NatToString(n)| <= 2
  {
    if n >= 10 {
      assert NatToString(n) == NatToString(n / 10) + [DigitChar(n % 10)];
    }
  }

  /** The two sides of `m + ":" + s` are found again by position. */
  lemma ColonParts(m: string, s: string)
    requires |s| == 2
    ensures var r := m + ":" + s;
      |r| == |m| + 3 && r[|r| - 3] == ':' && r[..|r| - 3] == m && r[|r| - 2..] == s
  {
  }

  // ---------------------------------------------------------------------
  // Arithmetic
  // ---------------------------------------------------------------------

  /** JavaScript's `a % b` for `b > 0`: the remainder of division truncated
      toward zero, so it has the sign of `a` (Dafny's `%` is never negative). */
  function JsRem(a: int, b: int): (r: int)
    requires b > 0
    ensures a >= 0 ==> r == a % b
    ensures a < 0 ==> -b < r <= 0
  {
    if a >= 0 then a % b else -((-a) % b)
  }
}
