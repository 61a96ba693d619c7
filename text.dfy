/** The JavaScript string built-ins the core relies on: `String.prototype.trim`,
    `toLowerCase`, `replace(/[\(\)]/g, '')`, the maximal runs that `/\d+/g`
    matches, `parseInt` on such a run, and the decimal text of a natural. */
module Text {

  // ----- trim -----

  /** WhiteSpace and LineTerminator code points, the characters `trim` removes. */
  predicate IsJsWhitespace(c: char) {
    c == '\t' || c == '\n' || c == '\U{B}' || c == '\U{C}' || c == '\r' || c == ' '
    || c == '\U{A0}' || c == '\U{1680}' || ('\U{2000}' <= c <= '\U{200A}')
    || c == '\U{2028}' || c == '\U{2029}' || c == '\U{202F}' || c == '\U{205F}'
    || c == '\U{3000}' || c == '\U{FEFF}'
  }

  predicate AllWhitespace(s: string) {
    forall i :: 0 <= i < |s| ==> IsJsWhitespace(s[i])
  }

  /** `s` without its leading whitespace: a suffix of `s`. */
  function TrimStart(s: string): (r: string)
    ensures |r| <= |s| && r == s[|s| - |r|..]
    ensures AllWhitespace(s[..|s| - |r|])
    ensures r == [] || !IsJsWhitespace(r[0])
  {
    if s != [] && IsJsWhitespace(s[0]) then
      var r := TrimStart(s[1..]);
      assert s[..|s| - |r|] == [s[0]] + s[1..][..|s[1..]| - |r|];
      r
    else s
  }

  /** `s` without its trailing whitespace: a prefix of `s`. */
  function TrimEnd(s: string): (r: string)
    ensures |r| <= |s| && r == s[..|r|]
    ensures AllWhitespace(s[|r|..])
    ensures r == [] || !IsJsWhitespace(r[|r| - 1])
  {
    if s != [] && IsJsWhitespace(s[|s| - 1]) then
      var r := TrimEnd(s[..|s| - 1]);
      assert s[|r|..] == s[..|s| - 1][|r|..] + [s[|s| - 1]];
      r
    else s
  }

  /** `String.prototype.trim`. */
  function Trim(s: string): string {
    TrimEnd(TrimStart(s))
  }

  /** `trim` keeps one contiguous piece of `s`, drops only whitespace around it,
      and leaves no whitespace at either end. */
  lemma TrimIsInfix(s: string) returns (i: nat, j: nat)
    ensures i <= j <= |s| && Trim(s) == s[i..j]
    ensures AllWhitespace(s[..i]) && AllWhitespace(s[j..])
    ensures Trim(s) == [] || (!IsJsWhitespace(Trim(s)[0]) && !IsJsWhitespace(Trim(s)[|Trim(s)| - 1]))
  {
    var t := TrimStart(s);
    var r := TrimEnd(t);
    i, j := |s| - |t|, |s| - |t| + |r|;
    assert r == s[i..j];
    assert s[j..] == t[|r|..];
  }

  /** Trimming twice is trimming once. */
  lemma TrimIdempotent(s: string)
    ensures Trim(Trim(s)) == Trim(s)
  {
    var r := Trim(s);
    var _, _ := TrimIsInfix(s);
    assert TrimStart(r) == r;
    assert TrimEnd(r) == r;
  }

  // ----- toLowerCase -----

  /** Lower-case for ASCII letters; every other character is kept. */
  function LowerChar(c: char): char {
    if 'A' <= c <= 'Z' then (c as int + 32) as char else c
  }

  /** `String.prototype.toLowerCase` on the ASCII letters. */
  function Lower(s: string): string {
    seq(|s|, i requires 0 <= i < |s| => LowerChar(s[i]))
  }

  // ----- replace(/[\(\)]/g, '') -----

  predicate IsParen(c: char) {
    c == '(' || c == ')'
  }

  /** `s` with every '(' and ')' deleted. */
  function RemoveParens(s: string): (r: string)
    ensures forall i :: 0 <= i < |r| ==> !IsParen(r[i])
  {
    if s == [] then []
    else if IsParen(s[0]) then RemoveParens(s[1..])
    else [s[0]] + RemoveParens(s[1..])
  }

  /** Deleting parentheses works piecewise. */
  lemma {:induction false} RemoveParensConcat(a: string, b: string)
    ensures RemoveParens(a + b) == RemoveParens(a) + RemoveParens(b)
  {
    if a == [] {
      assert a + b == b;
    } else {
      assert (a + b)[0] == a[0] && (a + b)[1..] == a[1..] + b;
      RemoveParensConcat(a[1..], b);
    }
  }

  /** A string without parentheses is left as it is. */
  lemma {:induction false} RemoveParensNone(s: string)
    requires forall i :: 0 <= i < |s| ==> !IsParen(s[i])
    ensures RemoveParens(s) == s
  {
    if s != [] {
      RemoveParensNone(s[1..]);
    }
  }

  // ----- /\d+/g and parseInt -----

  /** `\d` without the unicode flag: the ASCII digits. */
  predicate IsDigit(c: char) {
    '0' <= c <= '9'
  }

  predicate AllDigits(s: string) {
    forall i :: 0 <= i < |s| ==> IsDigit(s[i])
  }

  /** The length of the longest prefix of `s` made of digits. */
  function LeadingDigits(s: string): (n: nat)
    ensures n <= |s|
    ensures AllDigits(s[..n])
    ensures n < |s| ==> !IsDigit(s[n])
  {
    if s != [] && IsDigit(s[0]) then
      var n := 1 + LeadingDigits(s[1..]);
      assert s[..n] == [s[0]] + s[1..][..n - 1];
      n
    else 0
  }

  /** The matches of `/\d+/g`, left to right: the maximal runs of digits in `s`. */
  function DigitRuns(s: string): (runs: seq<string>)
    ensures forall k :: 0 <= k < |runs| ==> runs[k] != [] && AllDigits(runs[k])
    decreases |s|
  {
    if s == [] then []
    else if !IsDigit(s[0]) then DigitRuns(s[1..])
    else
      var n := LeadingDigits(s);
      [s[..n]] + DigitRuns(s[n..])
  }

  /** The digits of `s` in order, every other character dropped. */
  function OnlyDigits(s: string): string {
    if s == [] then []
    else if IsDigit(s[0]) then [s[0]] + OnlyDigits(s[1..])
    else OnlyDigits(s[1..])
  }

  function Concat(runs: seq<string>): string {
    if runs == [] then [] else runs[0] + Concat(runs[1..])
  }

  lemma {:induction false} OnlyDigitsOfDigits(s: string)
    requires AllDigits(s)
    ensures OnlyDigits(s) == s
  {
    if s != [] {
      OnlyDigitsOfDigits(s[1..]);
    }
  }

  lemma {:induction false} OnlyDigitsConcat(a: string, b: string)
    ensures OnlyDigits(a + b) == OnlyDigits(a) + OnlyDigits(b)
  {
    if a == [] {
      assert a + b == b;
    } else {
      assert (a + b)[0] == a[0] && (a + b)[1..] == a[1..] + b;
      OnlyDigitsConcat(a[1..], b);
    }
  }

  /** The runs together hold exactly the digits of `s`, in order: no digit is
      lost or repeated by the scan. */
  lemma {:induction false} DigitRunsCoverDigits(s: string)
    ensures Concat(DigitRuns(s)) == OnlyDigits(s)
    decreases |s|
  {
    if s == [] {
    } else if !IsDigit(s[0]) {
      DigitRunsCoverDigits(s[1..]);
    } else {
      var n := LeadingDigits(s);
      var runs := DigitRuns(s);
      assert runs == [s[..n]] + DigitRuns(s[n..]);
      assert runs[1..] == DigitRuns(s[n..]);
      DigitRunsCoverDigits(s[n..]);
      assert s == s[..n] + s[n..];
      OnlyDigitsConcat(s[..n], s[n..]);
      OnlyDigitsOfDigits(s[..n]);
    }
  }

  /** A leading separator (any non-digit) does not change the runs. */
  lemma DigitRunsSkip(c: char, s: string)
    requires !IsDigit(c)
    ensures DigitRuns([c] + s) == DigitRuns(s)
  {
    assert ([c] + s)[1..] == s;
  }

  /** A non-empty run of digits, then a separator: the run is the first match
      and the scan resumes after the separator. */
  lemma DigitRunsSplit(ds: string, c: char, rest: string)
    requires ds != [] && AllDigits(ds) && !IsDigit(c)
    ensures DigitRuns(ds + [c] + rest) == [ds] + DigitRuns(rest)
  {
    var tail := [c] + rest;
    var s := ds + tail;
    assert ds + [c] + rest == s;
    LeadingDigitsOf(ds, tail);
    assert s[0] == ds[0];
    assert s[..|ds|] == ds;
    assert s[|ds|..] == tail;
    assert DigitRuns(s) == [ds] + DigitRuns(tail);
    DigitRunsSkip(c, rest);
  }

  /** A non-empty string of digits is one run. */
  lemma DigitRunsWhole(ds: string)
    requires ds != [] && AllDigits(ds)
    ensures DigitRuns(ds) == [ds]
  {
    LeadingDigitsOf(ds, []);
    assert ds + [] == ds;
    assert ds[|ds|..] == [];
  }

  lemma {:induction false} LeadingDigitsOf(ds: string, rest: string)
    requires AllDigits(ds)
    requires rest == [] || !IsDigit(rest[0])
    ensures LeadingDigits(ds + rest) == |ds|
  {
    if ds != [] {
      assert (ds + rest)[1..] == ds[1..] + rest;
      LeadingDigitsOf(ds[1..], rest);
    }
  }

  function DigitValue(c: char): nat
    requires IsDigit(c)
  {
    c as int - '0' as int
  }

  /** `parseInt(ds)` for a run of decimal digits (leading zeros allowed). */
  function DecimalValue(ds: string): nat
    requires AllDigits(ds)
  {
    if ds == [] then 0 else DecimalValue(ds[..|ds| - 1]) * 10 + DigitValue(ds[|ds| - 1])
  }

  function DigitChar(d: nat): (c: char)
    requires d < 10
    ensures IsDigit(c) && DigitValue(c) == d
  {
    ('0' as int + d) as char
  }

  /** The decimal text of a natural, as `String(n)` writes it: no sign, no leading zeros. */
  function NatToString(n: nat): (s: string)
    ensures s != [] && AllDigits(s)
    ensures |s| > 1 ==> s[0] != '0'
  {
    if n < 10 then [DigitChar(n)] else NatToString(n / 10) + [DigitChar(n % 10)]
  }

  /** Printing a natural and parsing the text back gives the natural. */
  lemma {:induction false} DecimalRoundTrip(n: nat)
    ensures DecimalValue(NatToString(n)) == n
  {
    var s := NatToString(n);
    if n >= 10 {
      assert s[..|s| - 1] == NatToString(n / 10);
      DecimalRoundTrip(n / 10);
    }
  }
}
