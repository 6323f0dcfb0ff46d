/**
  The Python `str` operations the backend relies on: `strip()`, `lower()`,
  the substring test `t in s`, and `str(n)` for a non-negative integer.
*/
module Strings {

  /** Python's `str.isspace` for a single character. */
  predicate IsSpace(c: char) {
    var n := c as int;
    (0x09 <= n <= 0x0D) || (0x1C <= n <= 0x20) || n == 0x85 || n == 0xA0 || n == 0x1680
    || (0x2000 <= n <= 0x200A) || n == 0x2028 || n == 0x2029 || n == 0x202F
    || n == 0x205F || n == 0x3000
  }

  predicate AllSpace(s: string) {
    forall i :: 0 <= i < |s| ==> IsSpace(s[i])
  }

  /** `s.lstrip()`: the suffix of `s` left after its leading whitespace. */
  function TrimStart(s: string): (r: string)
    ensures |r| <= |s| && r == s[|s| - |r|..]
    ensures AllSpace(s[..|s| - |r|])
    ensures r == [] || !IsSpace(r[0])
  {
    if s == [] || !IsSpace(s[0]) then s
    else
      var r := TrimStart(s[1..]);
      assert s[..|s| - |r|] == [s[0]] + s[1..][..|s[1..]| - |r|];
      r
  }

  /** `s.rstrip()`: the prefix of `s` left after its trailing whitespace. */
  function TrimEnd(s: string): (r: string)
    ensures |r| <= |s| && r == s[..|r|]
    ensures AllSpace(s[|r|..])
    ensures r == [] || !IsSpace(r[|r| - 1])
  {
    if s == [] || !IsSpace(s[|s| - 1]) then s
    else
      var p := s[..|s| - 1];
      var r := TrimEnd(p);
      assert s[|r|..] == p[|r|..] + [s[|s| - 1]];
      r
  }

  /** The slice `s[i..j]` is what is left of `s` after removing whitespace at both ends. */
  predicate TrimmedSlice(s: string, i: int, j: int) {
    0 <= i <= j <= |s| && AllSpace(s[..i]) && AllSpace(s[j..])
    && (i < j ==> !IsSpace(s[i]) && !IsSpace(s[j - 1]))
  }

  /**
    `s.strip()`: the result is empty exactly when `s` is all whitespace;
    otherwise it neither starts nor ends with whitespace.
  */
  function Strip(s: string): (r: string)
    ensures |r| <= |s|
    ensures r == [] <==> AllSpace(s)
    ensures r == [] || (!IsSpace(r[0]) && !IsSpace(r[|r| - 1]))
  {
    TrimsAreSlice(s);
    TrimEnd(TrimStart(s))
  }

  /** What `strip()` returns is the slice of `s` between its leading and trailing whitespace. */
  lemma StripIsTrimmedSlice(s: string)
    ensures exists i, j :: TrimmedSlice(s, i, j) && Strip(s) == s[i..j]
  {
    TrimsAreSlice(s);
  }

  /** Trimming both ends leaves the slice between the leading and trailing whitespace. */
  lemma TrimsAreSlice(s: string)
    ensures exists i, j :: TrimmedSlice(s, i, j) && TrimEnd(TrimStart(s)) == s[i..j]
  {
    var t := TrimStart(s);
    var i := |s| - |t|;
    SliceOfTrims(s, t, TrimEnd(t));
    assert TrimmedSlice(s, i, i + |TrimEnd(t)|);
  }

  /**
    A suffix `t` of `s` after leading whitespace, cut to a prefix `r` before
    trailing whitespace, is the trimmed slice of `s`.
  */
  lemma SliceOfTrims(s: string, t: string, r: string)
    requires |t| <= |s| && t == s[|s| - |t|..] && AllSpace(s[..|s| - |t|]) && (t == [] || !IsSpace(t[0]))
    requires |r| <= |t| && r == t[..|r|] && AllSpace(t[|r|..]) && (r == [] || !IsSpace(r[|r| - 1]))
    ensures TrimmedSlice(s, |s| - |t|, |s| - |t| + |r|) && r == s[|s| - |t|..|s| - |t| + |r|]
  {
    var i := |s| - |t|;
    var j := i + |r|;
    assert s[j..] == t[|r|..];
    assert s[i..j] == r;
    if r != [] {
      assert s[i] == t[0] && s[j - 1] == r[|r| - 1];
    }
  }

  /** A string that neither starts nor ends with whitespace strips to itself. */
  lemma StripKeepsTrimmed(s: string)
    requires s == [] || (!IsSpace(s[0]) && !IsSpace(s[|s| - 1]))
    ensures Strip(s) == s
  {
    assert TrimStart(s) == s;
  }

  /** Stripping twice is the same as stripping once. */
  lemma StripIdempotent(s: string)
    ensures Strip(Strip(s)) == Strip(s)
  {
    StripKeepsTrimmed(Strip(s));
  }

  /** ASCII `c.lower()`. */
  function LowerChar(c: char): char {
    if 'A' <= c <= 'Z' then (c as int + 32) as char else c
  }

  /** `s.lower()` on ASCII letters; every other character is kept. */
  function Lower(s: string): (r: string)
    ensures |r| == |s|
    ensures forall i :: 0 <= i < |s| ==> r[i] == LowerChar(s[i])
  {
    if s == [] then [] else [LowerChar(s[0])] + Lower(s[1..])
  }

  /** Python's `t in s` for strings: `t` occurs in `s` as a contiguous slice. */
  predicate Occurs(t: string, s: string) {
    exists i :: 0 <= i <= |s| - |t| && t <= s[i..]
  }

  predicate IsDigit(c: char) {
    '0' <= c <= '9'
  }

  predicate AllDigits(s: string) {
    forall i :: 0 <= i < |s| ==> IsDigit(s[i])
  }

  /** The canonical decimal form `str(n)` gives: digits, no leading zero. */
  predicate IsDecimal(s: string) {
    |s| >= 1 && AllDigits(s) && (s[0] == '0' ==> |s| == 1)
  }

  function DigitValue(c: char): nat
    requires IsDigit(c)
  {
    c as int - '0' as int
  }

  function DigitChar(d: nat): (c: char)
    requires d < 10
    ensures IsDigit(c) && DigitValue(c) == d
  {
    (d + '0' as int) as char
  }

  /** The number a string of digits denotes. */
  function Value(s: string): nat
    requires AllDigits(s)
  {
    if s == [] then 0 else 10 * Value(s[..|s| - 1]) + DigitValue(s[|s| - 1])
  }

  /** Python's `str(n)` for a non-negative integer. */
  function Decimal(n: nat): (r: string)
    ensures IsDecimal(r)
  {
    if n < 10 then [DigitChar(n)]
    else
      var p := Decimal(n / 10);
      var r := p + [DigitChar(n % 10)];
      assert r[0] == p[0];
      r
  }

  /** Reading back the decimal form of `n` gives `n`. */
  lemma {:induction false} ValueOfDecimal(n: nat)
    ensures Value(Decimal(n)) == n
  {
    if n >= 10 {
      ValueOfDecimal(n / 10);
      var r := Decimal(n);
      assert r[..|r| - 1] == Decimal(n / 10);
    }
  }

  lemma {:induction false} ValuePositive(s: string)
    requires AllDigits(s) && |s| >= 1 && s[0] != '0'
    ensures Value(s) >= 1
  {
    if |s| > 1 {
      ValuePositive(s[..|s| - 1]);
    }
  }

  /** Every canonical decimal string is the decimal form of its value. */
  lemma {:induction false} DecimalOfValue(s: string)
    requires IsDecimal(s)
    ensures Decimal(Value(s)) == s
  {
    if |s| > 1 {
      var p := s[..|s| - 1];
      assert IsDecimal(p);
      ValuePositive(p);
      DecimalOfValue(p);
      var n := Value(s);
      assert n / 10 == Value(p) && n % 10 == DigitValue(s[|s| - 1]);
      assert s == p + [s[|s| - 1]];
    }
  }

  /** Four-digit numbers are written with exactly four characters. */
  lemma DecimalFourDigits(n: nat)
    requires 1000 <= n <= 9999
    ensures |Decimal(n)| == 4
  {
    assert |Decimal(n / 1000)| == 1;
    assert |Decimal(n / 100)| == 2 by { assert (n / 100) / 10 == n / 1000; }
    assert |Decimal(n / 10)| == 3 by { assert (n / 10) / 10 == n / 100; }
  }

  /** `", ".join(items)` with an arbitrary separator. */
  function Join(items: seq<string>, sep: string): (r: string)
    ensures items == [] ==> r == []
    ensures |items| == 1 ==> r == items[0]
  {
    if items == [] then []
    else if |items| == 1 then items[0]
    else items[0] + sep + Join(items[1..], sep)
  }

  /** A string occurs in any string that has it between two others. */
  lemma OccursBetween(t: string, a: string, b: string)
    ensures Occurs(t, a + t + b)
  {
    assert t <= (a + t + b)[|a|..];
  }

  /** Every item of a joined list occurs in the joined string. */
  lemma {:induction false} JoinContains(items: seq<string>, sep: string, k: nat)
    requires k < |items|
    ensures Occurs(items[k], Join(items, sep))
  {
    if |items| == 1 {
      OccursBetween(items[0], [], []);
      assert [] + items[0] + [] == items[0];
    } else if k == 0 {
      OccursBetween(items[0], [], sep + Join(items[1..], sep));
      assert [] + items[0] + (sep + Join(items[1..], sep)) == Join(items, sep);
    } else {
      JoinContains(items[1..], sep, k - 1);
      var rest := Join(items[1..], sep);
      var i :| 0 <= i <= |rest| - |items[k]| && items[k] <= rest[i..];
      var head := items[0] + sep;
      assert Join(items, sep) == head + rest;
      assert (head + rest)[|head| + i..] == rest[i..];
    }
  }
}
