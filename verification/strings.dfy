/** String helpers with the ECMAScript semantics the application relies on:
    `includes`, `split` on a non-empty separator, `trim`, the `\d`/`\w`
    character classes, decimal rendering of integers and a code-point
    ordering for `Array.prototype.sort()` (see `StrLe`). Lower-casing is modelled on
    ASCII letters only. */
module Strings {
  import opened Wrappers

  // ---------------------------------------------------------------------
  // Character classes
  // ---------------------------------------------------------------------

  /** The regular-expression class `\d`. */
  predicate IsDigit(c: char) {
    '0' <= c <= '9'
  }

  /** The regular-expression class `\w`. */
  predicate IsWordChar(c: char) {
    'a' <= c <= 'z' || 'A' <= c <= 'Z' || IsDigit(c) || c == '_'
  }

  predicate AllDigits(s: string) {
    forall i :: 0 <= i < |s| ==> IsDigit(s[i])
  }

  predicate AllWordChars(s: string) {
    forall i :: 0 <= i < |s| ==> IsWordChar(s[i])
  }

  /** Line terminators: the characters the regular-expression `.` does not
      match. */
  predicate IsLineTerminator(c: char) {
    c == '\n' || c == '\r' || c == '\U{2028}' || c == '\U{2029}'
  }

  /** WhiteSpace and LineTerminator code points, as stripped by `trim()`. */
  predicate IsJsSpace(c: char) {
    || c == '\t' || c == '\U{000B}' || c == '\U{000C}' || c == ' '
    || c == '\U{00A0}' || c == '\U{FEFF}' || c == '\U{1680}'
    || ('\U{2000}' <= c <= '\U{200A}') || c == '\U{202F}' || c == '\U{205F}'
    || c == '\U{3000}' || IsLineTerminator(c)
  }

  predicate AllSpace(s: string) {
    forall i :: 0 <= i < |s| ==> IsJsSpace(s[i])
  }

  // ---------------------------------------------------------------------
  // Lower-casing (ASCII)
  // ---------------------------------------------------------------------

  function LowerChar(c: char): char {
    if 'A' <= c <= 'Z' then (c as int + 32) as char else c
  }

  function Lower(s: string): (r: string)
    ensures |r| == |s|
    ensures forall i :: 0 <= i < |s| ==> r[i] == LowerChar(s[i])
  {
    if s == [] then [] else [LowerChar(s[0])] + Lower(s[1..])
  }

  lemma LowerIdempotent(s: string)
    ensures Lower(Lower(s)) == Lower(s)
  {
  }

  /** A string without upper-case letters is its own lower-case form. */
  lemma LowerKeepsLowerCase(s: string)
    requires forall i :: 0 <= i < |s| ==> !('A' <= s[i] <= 'Z')
    ensures Lower(s) == s
  {
  }

  // ---------------------------------------------------------------------
  // Substrings
  // ---------------------------------------------------------------------

  predicate StartsWith(s: string, p: string) {
    |p| <= |s| && s[..|p|] == p
  }

  /** `s.endsWith(suffix)`. */
  predicate EndsWith(s: string, suffix: string) {
    |suffix| <= |s| && s[|s| - |suffix|..] == suffix
  }

  /** `s.includes(sub)`. */
  predicate Contains(s: string, sub: string) {
    exists i :: 0 <= i <= |s| && StartsWith(s[i..], sub)
  }

  lemma ContainsEmpty(s: string)
    ensures Contains(s, "")
  {
    assert StartsWith(s[0..], "");
  }

  /** First index `k >= i` at which `sep` occurs in `s`. */
  function FindFrom(s: string, sep: string, i: nat): (r: Option<nat>)
    requires i <= |s|
    ensures r.Some? ==> i <= r.value <= |s| - |sep| && StartsWith(s[r.value..], sep)
    ensures r.Some? ==> forall j :: i <= j < r.value ==> !StartsWith(s[j..], sep)
    ensures r.None? ==> forall j :: i <= j <= |s| ==> !StartsWith(s[j..], sep)
    decreases |s| - i
  {
    if i + |sep| > |s| then None
    else if StartsWith(s[i..], sep) then Some(i)
    else FindFrom(s, sep, i + 1)
  }

  /** `s.split(sep)` for a non-empty separator: the pieces between the
      non-overlapping occurrences of `sep`, found left to right. */
  function Split(s: string, sep: string): (r: seq<string>)
    requires |sep| > 0
    ensures |r| >= 1
    decreases |s|
  {
    match FindFrom(s, sep, 0)
    case None => [s]
    case Some(k) => [s[..k]] + Split(s[k + |sep|..], sep)
  }

  function Join(pieces: seq<string>, sep: string): string {
    if |pieces| == 0 then ""
    else if |pieces| == 1 then pieces[0]
    else pieces[0] + sep + Join(pieces[1..], sep)
  }

  /** Joining the pieces of a split with the same separator restores the
      original string, and no piece contains the separator. */
  lemma {:induction false} SplitJoin(s: string, sep: string)
    requires |sep| > 0
    ensures Join(Split(s, sep), sep) == s
    ensures forall i :: 0 <= i < |Split(s, sep)| ==> !Contains(Split(s, sep)[i], sep)
    decreases |s|
  {
    match FindFrom(s, sep, 0)
    case None =>
      assert Split(s, sep) == [s];
      NoOccurrenceNoContains(s, sep, |s|);
    case Some(k) =>
      var rest := s[k + |sep|..];
      SplitJoin(rest, sep);
      var tail := Split(rest, sep);
      assert Split(s, sep) == [s[..k]] + tail;
      assert s[k..k + |sep|] == sep;
      assert s == s[..k] + sep + rest;
      NoOccurrenceNoContains(s, sep, k);
      forall i | 0 <= i < |Split(s, sep)|
        ensures !Contains(Split(s, sep)[i], sep)
      {
        if i > 0 {
          assert Split(s, sep)[i] == tail[i - 1];
        }
      }
  }

  /** A prefix `s[..k]` in which no occurrence of `sep` starts does not
      contain `sep`. */
  lemma NoOccurrenceNoContains(s: string, sep: string, k: nat)
    requires |sep| > 0 && k <= |s|
    requires forall j :: 0 <= j < k ==> !StartsWith(s[j..], sep)
    ensures !Contains(s[..k], sep)
  {
    forall j | 0 <= j <= k
      ensures !StartsWith(s[..k][j..], sep)
    {
      if j < k {
        assert !StartsWith(s[j..], sep);
      }
    }
  }

  // ---------------------------------------------------------------------
  // trim()
  // ---------------------------------------------------------------------

  function LeadingSpace(s: string): (n: nat)
    ensures n <= |s| && AllSpace(s[..n])
    ensures n < |s| ==> !IsJsSpace(s[n])
  {
    if s == [] || !IsJsSpace(s[0]) then 0
    else
      var n := 1 + LeadingSpace(s[1..]);
      assert forall i :: 1 <= i < n ==> s[..n][i] == s[1..][..n - 1][i - 1];
      n
  }

  function TrailingSpace(s: string): (n: nat)
    ensures n <= |s| && AllSpace(s[|s| - n..])
    ensures n < |s| ==> !IsJsSpace(s[|s| - n - 1])
  {
    if s == [] || !IsJsSpace(s[|s| - 1]) then 0
    else
      var n := 1 + TrailingSpace(s[..|s| - 1]);
      assert forall i :: |s| - n <= i < |s| - 1 ==> s[i] == s[..|s| - 1][i];
      n
  }

  /** `s.trim()`: the slice of `s` left after removing leading and trailing
      white space; it neither starts nor ends with white space. */
  function Trim(s: string): (r: string)
    ensures exists a, b :: 0 <= a <= b <= |s| && r == s[a..b] && AllSpace(s[..a]) && AllSpace(s[b..])
    ensures r != [] ==> !IsJsSpace(r[0]) && !IsJsSpace(r[|r| - 1])
  {
    var a := LeadingSpace(s);
    var t := TrailingSpace(s[a..]);
    var b := |s| - t;
    var r := s[a..b];
    assert s[b..] == s[a..][|s[a..]| - t..];
    assert AllSpace(s[..a]) && AllSpace(s[b..]);
    assert r != [] ==> r[0] == s[a..][0] && r[|r| - 1] == s[a..][|s[a..]| - t - 1];
    r
  }

  // ---------------------------------------------------------------------
  // Numbers
  // ---------------------------------------------------------------------

  /** Value of a decimal digit string, as `parseInt(d, 10)` computes it. */
  function DecimalValue(d: string): nat
    requires AllDigits(d)
  {
    if d == [] then 0
    else 10 * DecimalValue(d[..|d| - 1]) + (d[|d| - 1] as int - '0' as int)
  }

  function DigitChar(n: nat): (c: char)
    requires n < 10
    ensures IsDigit(c)
  {
    ('0' as int + n) as char
  }

  /** Decimal rendering of a natural number, without leading zeros. */
  function NatToString(n: nat): (r: string)
    ensures |r| >= 1 && AllDigits(r)
    ensures DecimalValue(r) == n
  {
    if n < 10 then [DigitChar(n)]
    else
      var r := NatToString(n / 10) + [DigitChar(n % 10)];
      assert r[..|r| - 1] == NatToString(n / 10);
      r
  }

  /** Template-literal rendering `${n}` of an integer. */
  function IntToString(n: int): (r: string)
    ensures |r| >= 1
  {
    if n < 0 then "-" + NatToString(-n) else NatToString(n)
  }

  /** A run of digits extended by one digit in front. */
  lemma AllDigitsCons(s: string, i: nat, j: nat)
    requires i < j <= |s| && IsDigit(s[i]) && AllDigits(s[i + 1..j])
    ensures AllDigits(s[i..j])
  {
    var run, rest := s[i..j], s[i + 1..j];
    assert forall k :: 1 <= k < |run| ==> run[k] == rest[k - 1];
  }

  /** A run of word characters extended by one in front. */
  lemma AllWordCharsCons(s: string, i: nat, j: nat)
    requires i < j <= |s| && IsWordChar(s[i]) && AllWordChars(s[i + 1..j])
    ensures AllWordChars(s[i..j])
  {
    var run, rest := s[i..j], s[i + 1..j];
    assert forall k :: 1 <= k < |run| ==> run[k] == rest[k - 1];
  }

  /** Length of the run of `\d` characters starting at `i`. */
  function DigitRun(s: string, i: nat): (n: nat)
    requires i <= |s|
    ensures i + n <= |s| && AllDigits(s[i..i + n])
    ensures i + n < |s| ==> !IsDigit(s[i + n])
    decreases |s| - i
  {
    if i == |s| || !IsDigit(s[i]) then 0
    else
      var n := 1 + DigitRun(s, i + 1);
      AllDigitsCons(s, i, i + n);
      n
  }

  /** Length of the run of `\w` characters starting at `i`. */
  function WordRun(s: string, i: nat): (n: nat)
    requires i <= |s|
    ensures i + n <= |s| && AllWordChars(s[i..i + n])
    ensures i + n < |s| ==> !IsWordChar(s[i + n])
    decreases |s| - i
  {
    if i == |s| || !IsWordChar(s[i]) then 0
    else
      var n := 1 + WordRun(s, i + 1);
      AllWordCharsCons(s, i, i + n);
      n
  }

  /** Length of the run of `\w` characters that ends the string. */
  function TrailingWordRun(s: string): (n: nat)
    ensures n <= |s| && AllWordChars(s[|s| - n..])
    ensures n < |s| ==> !IsWordChar(s[|s| - n - 1])
  {
    if s == [] || !IsWordChar(s[|s| - 1]) then 0
    else
      var n := 1 + TrailingWordRun(s[..|s| - 1]);
      assert forall i :: |s| - n <= i < |s| - 1 ==> s[i] == s[..|s| - 1][i];
      n
  }

  /** `parseInt(h, 10)` of a header value; `None` stands for `NaN`. A missing
      header (`null`) is converted to the string "null", which has no digits.
      Leading white space and one sign are skipped, then the longest digit
      run is read; anything after it is ignored. */
  function ParseIntDecimal(h: Option<string>): (r: Option<int>)
    ensures h.None? ==> r.None?
  {
    if h.None? then None
    else
      var s := h.value;
      var t := s[LeadingSpace(s)..];
      var signed := t != [] && (t[0] == '-' || t[0] == '+');
      var start := if signed then 1 else 0;
      var n := DigitRun(t, start);
      if n == 0 then None
      else
        var v: int := DecimalValue(t[start..start + n]);
        Some(if signed && t[0] == '-' then -v else v)
  }

  /** A rendered natural number parses back to itself. */
  lemma ParseIntOfNatToString(n: nat)
    ensures ParseIntDecimal(Some(NatToString(n))) == Some(n)
  {
    var s := NatToString(n);
    assert LeadingSpace(s) == 0;
    assert s[0..] == s;
    assert s[0..DigitRun(s, 0)] == s;
  }

  /** A rendered integer parses back to itself. */
  lemma ParseIntOfIntToString(n: int)
    ensures ParseIntDecimal(Some(IntToString(n))) == Some(n)
  {
    if n < 0 {
      var d := NatToString(-n);
      var s := IntToString(n);
      assert s == "-" + d;
      assert LeadingSpace(s) == 0;
      assert s[0..] == s;
      assert s[1..] == d;
      DigitRunAll(s, 1);
      assert s[1..1 + |d|] == d;
    } else {
      ParseIntOfNatToString(n);
    }
  }

  lemma {:induction false} DigitRunAll(s: string, i: nat)
    requires i <= |s| && AllDigits(s[i..])
    ensures DigitRun(s, i) == |s| - i
    decreases |s| - i
  {
    if i < |s| {
      assert s[i..][0] == s[i];
      var rest := s[i + 1..];
      assert forall k :: 0 <= k < |rest| ==> rest[k] == s[i..][k + 1];
      DigitRunAll(s, i + 1);
    }
  }

  // ---------------------------------------------------------------------
  // Ordering used by Array.prototype.sort()
  // ---------------------------------------------------------------------

  /** Lexicographic order on characters: `a` is not greater than `b`.
      Dafny characters are Unicode scalar values, so this is code-point
      order; JavaScript's `>` compares UTF-16 code units, which differs
      only for strings holding characters beyond U+FFFF. */
  predicate StrLe(a: string, b: string) {
    if a == [] then true
    else if b == [] then false
    else if a[0] != b[0] then a[0] < b[0]
    else StrLe(a[1..], b[1..])
  }

  lemma StrLeTotal(a: string, b: string)
    ensures StrLe(a, b) || StrLe(b, a)
  {
  }

  lemma StrLeTransitive(a: string, b: string, c: string)
    requires StrLe(a, b) && StrLe(b, c)
    ensures StrLe(a, c)
  {
  }

  lemma StrLeAntisymmetric(a: string, b: string)
    requires StrLe(a, b) && StrLe(b, a)
    ensures a == b
  {
    if a != [] && b != [] {
      StrLeAntisymmetric(a[1..], b[1..]);
      assert a == [a[0]] + a[1..];
      assert b == [b[0]] + b[1..];
    }
  }
}
