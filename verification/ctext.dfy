/**
  The pieces of the C library that the probe scan of main.c relies on, stated
  over `string` (a C string without its terminating NUL):
  - `isdigit` and `isspace` in the "C" locale,
  - `strstr`, the first occurrence of a substring,
  - the `%d` conversion of `sscanf`: optional white space, an optional sign,
    then one or more decimal digits.
*/
module CText {
  import opened Wrappers

  predicate IsDigit(c: char) {
    '0' <= c <= '9'
  }

  predicate IsSpace(c: char) {
    c == ' ' || c == '\t' || c == '\n' || c == '\U{B}' || c == '\U{C}' || c == '\r'
  }

  predicate AllDigits(d: string) {
    forall k :: 0 <= k < |d| ==> IsDigit(d[k])
  }

  /** `pat` occurs in `s` starting at index `i`. */
  predicate OccursAt(s: string, pat: string, i: nat) {
    i + |pat| <= |s| && s[i..i + |pat|] == pat
  }

  lemma OccursInConcat(a: string, pat: string, b: string)
    ensures OccursAt(a + pat + b, pat, |a|)
  {
    assert (a + pat + b)[|a|..|a| + |pat|] == pat;
  }

  /** The reference meaning of "`s` contains `pat`". */
  ghost predicate Contains(s: string, pat: string) {
    exists i: nat :: OccursAt(s, pat, i)
  }

  /** `strstr(s, pat)`: the index of the first occurrence of `pat`, or `None` for a null result. */
  function Find(s: string, pat: string): (r: Option<nat>)
    ensures r.Some? ==> r.value + |pat| <= |s|
  {
    FindFrom(s, pat, 0)
  }

  /** The first occurrence of `pat` in `s` at index `i` or later. */
  function FindFrom(s: string, pat: string, i: nat): (r: Option<nat>)
    ensures r.Some? ==> i <= r.value && r.value + |pat| <= |s|
    decreases |s| - i
  {
    if |s| < i + |pat| then None
    else if OccursAt(s, pat, i) then Some(i)
    else FindFrom(s, pat, i + 1)
  }

  /** `FindFrom` returns the first occurrence at or after `i`, and `None` only when there is none. */
  lemma {:induction false} FindFromSpec(s: string, pat: string, i: nat)
    ensures FindFrom(s, pat, i).Some? ==> OccursAt(s, pat, FindFrom(s, pat, i).value)
    ensures FindFrom(s, pat, i).Some? ==>
      forall j: nat :: i <= j < FindFrom(s, pat, i).value ==> !OccursAt(s, pat, j)
    ensures FindFrom(s, pat, i).None? ==> forall j: nat :: i <= j ==> !OccursAt(s, pat, j)
    decreases |s| - i
  {
    if i + |pat| <= |s| && !OccursAt(s, pat, i) {
      FindFromSpec(s, pat, i + 1);
    }
  }

  /**
    The contract of `strstr`: a non-null result points at an occurrence with
    no earlier one, and a null result means there is no occurrence at all.
  */
  lemma FindSpec(s: string, pat: string)
    ensures Find(s, pat).Some? ==> OccursAt(s, pat, Find(s, pat).value)
    ensures Find(s, pat).Some? ==> forall j: nat :: j < Find(s, pat).value ==> !OccursAt(s, pat, j)
    ensures Find(s, pat).None? ==> forall j: nat :: !OccursAt(s, pat, j)
  {
    FindFromSpec(s, pat, 0);
  }

  /** A one-character pattern occurs exactly where that character is. */
  lemma OccursCharAt(s: string, c: char, j: nat)
    ensures OccursAt(s, [c], j) <==> j < |s| && s[j] == c
  {
    if j < |s| {
      assert s[j..j + 1] == [s[j]];
    }
  }

  /** `Find` returns the first occurrence. */
  lemma FindFirst(s: string, pat: string, i: nat)
    requires OccursAt(s, pat, i)
    requires forall j: nat :: j < i ==> !OccursAt(s, pat, j)
    ensures Find(s, pat) == Some(i)
  {
    FindSpec(s, pat);
    var r := Find(s, pat);
    assert r.Some?;
    assert !(r.value < i);
    assert !(i < r.value);
  }

  lemma FindIsContains(s: string, pat: string)
    ensures Find(s, pat).Some? <==> Contains(s, pat)
  {
    FindSpec(s, pat);
    if Find(s, pat).Some? {
      assert OccursAt(s, pat, Find(s, pat).value);
    }
  }

  /** A one-character pattern is found exactly when the character is in the string. */
  lemma FindCharIsMember(s: string, c: char)
    ensures Find(s, [c]).Some? <==> c in s
  {
    FindSpec(s, [c]);
    if c in s {
      var i :| 0 <= i < |s| && s[i] == c;
      assert OccursAt(s, [c], i);
    }
    if Find(s, [c]).Some? {
      assert s[Find(s, [c]).value] == c;
    }
  }

  /** The end of the run of white space that starts at `i`. */
  function SkipSpaces(s: string, i: nat): (j: nat)
    requires i <= |s|
    ensures i <= j <= |s|
    ensures forall k :: i <= k < j ==> IsSpace(s[k])
    ensures j == |s| || !IsSpace(s[j])
    decreases |s| - i
  {
    if i < |s| && IsSpace(s[i]) then SkipSpaces(s, i + 1) else i
  }

  /** The end of the run of decimal digits that starts at `i`. */
  function DigitsEnd(s: string, i: nat): (j: nat)
    requires i <= |s|
    ensures i <= j <= |s|
    ensures DigitsIn(s, i, j)
    ensures j == |s| || !IsDigit(s[j])
    decreases |s| - i
  {
    if i < |s| && IsDigit(s[i]) then DigitsEnd(s, i + 1) else i
  }

  function DigitValue(c: char): nat
    requires IsDigit(c)
  {
    c as int - '0' as int
  }

  function DigitChar(n: nat): (c: char)
    requires n < 10
    ensures IsDigit(c) && DigitValue(c) == n
  {
    ('0' as int + n) as char
  }

  /** Indices `lo` up to `hi` of `s` hold decimal digits. */
  predicate DigitsIn(s: string, lo: nat, hi: nat) {
    lo <= hi <= |s| && forall k :: lo <= k < hi ==> IsDigit(s[k])
  }

  /** The value of the numeral in indices `lo` up to `hi` of `s`, most significant digit first. */
  function NumeralValue(s: string, lo: nat, hi: nat): nat
    requires DigitsIn(s, lo, hi)
    decreases hi
  {
    if hi == lo then 0 else NumeralValue(s, lo, hi - 1) * 10 + DigitValue(s[hi - 1])
  }

  /** The value of a decimal numeral. */
  function DecimalValue(d: string): nat
    requires AllDigits(d)
  {
    NumeralValue(d, 0, |d|)
  }

  /** A numeral has the same value wherever it is written. */
  lemma {:induction false} NumeralValueShift(s: string, t: string, lo: nat, hi: nat, at: nat)
    requires DigitsIn(s, lo, hi) && at + (hi - lo) <= |t|
    requires forall k :: lo <= k < hi ==> t[at + (k - lo)] == s[k]
    ensures DigitsIn(t, at, at + (hi - lo))
    ensures NumeralValue(t, at, at + (hi - lo)) == NumeralValue(s, lo, hi)
    decreases hi
  {
    forall k | at <= k < at + (hi - lo) ensures IsDigit(t[k]) {
      assert t[at + ((k - at + lo) - lo)] == s[k - at + lo];
    }
    if hi > lo {
      NumeralValueShift(s, t, lo, hi - 1, at);
      assert t[at + (hi - 1 - lo)] == s[hi - 1];
    }
  }

  /** The canonical decimal numeral of `n`: non-empty, without leading zeros. */
  function Decimal(n: nat): (d: string)
    ensures |d| > 0 && AllDigits(d)
    ensures |d| > 1 ==> d[0] != '0'
    decreases n
  {
    if n < 10 then [DigitChar(n)] else Decimal(n / 10) + [DigitChar(n % 10)]
  }

  /** Appending the last digit multiplies the value so far by ten and adds the digit. */
  lemma DecimalStep(n: nat)
    requires n >= 10
    ensures DecimalValue(Decimal(n)) == DecimalValue(Decimal(n / 10)) * 10 + n % 10
  {
    var d, p := Decimal(n), Decimal(n / 10);
    assert d == p + [DigitChar(n % 10)];
    NumeralValueShift(p, d, 0, |p|, 0);
    assert d[|d| - 1] == DigitChar(n % 10);
  }

  lemma {:induction false} DecimalRoundTrip(n: nat)
    ensures DecimalValue(Decimal(n)) == n
    decreases n
  {
    if n >= 10 {
      DecimalStep(n);
      DecimalRoundTrip(n / 10);
    } else {
      var d := Decimal(n);
      assert d == [DigitChar(n)];
      assert NumeralValue(d, 0, 1) == NumeralValue(d, 0, 0) * 10 + DigitValue(d[0]);
    }
  }

  /** A successful `%d` conversion: the value and the index just past the digits. */
  datatype Conversion = Conversion(value: int, next: nat)

  /** The index just past an optional sign at `start`. */
  function SignEnd(s: string, start: nat): (j: nat)
    requires start <= |s|
    ensures start <= j <= |s|
    ensures j == start + 1 <==> start < |s| && (s[start] == '+' || s[start] == '-')
  {
    if start < |s| && (s[start] == '+' || s[start] == '-') then start + 1 else start
  }

  /** The magnitude with the sign found at `start` applied. */
  function Signed(s: string, start: nat, magnitude: nat): (v: int)
    ensures start < |s| && s[start] == '-' ==> v == -(magnitude as int)
    ensures !(start < |s| && s[start] == '-') ==> v == magnitude
  {
    if start < |s| && s[start] == '-' then -(magnitude as int) else magnitude
  }

  /** `%d` applied at index `i`; `None` is a matching failure (or the end of the input). */
  function ScanInt(s: string, i: nat): (r: Option<Conversion>)
    requires i <= |s|
    ensures r.Some? ==> i < r.value.next <= |s| && IsDigit(s[r.value.next - 1])
    ensures r.Some? ==> r.value.next == |s| || !IsDigit(s[r.value.next])
  {
    var start := SkipSpaces(s, i);
    var digits := SignEnd(s, start);
    var end := DigitsEnd(s, digits);
    if end == digits then None
    else Some(Conversion(Signed(s, start, NumeralValue(s, digits, end)), end))
  }

  /** `%d` reads a run of digits that is not followed by another digit as its decimal value. */
  lemma ScanIntReadsDigits(s: string, i: nat, d: string)
    requires |d| > 0 && AllDigits(d) && OccursAt(s, d, i)
    requires i + |d| == |s| || !IsDigit(s[i + |d|])
    ensures ScanInt(s, i) == Some(Conversion(DecimalValue(d), i + |d|))
  {
    DigitsAt(s, i, d);
    assert IsDigit(s[i]);
    assert SkipSpaces(s, i) == i;
    assert SignEnd(s, i) == i;
    DigitsEndOfRun(s, i, i + |d|);
  }

  /** The characters of an occurrence of a numeral, and its value there. */
  lemma DigitsAt(s: string, i: nat, d: string)
    requires AllDigits(d) && OccursAt(s, d, i)
    ensures forall k :: i <= k < i + |d| ==> s[k] == d[k - i] && IsDigit(s[k])
    ensures DigitsIn(s, i, i + |d|) && NumeralValue(s, i, i + |d|) == DecimalValue(d)
  {
    forall k | i <= k < i + |d| ensures s[k] == d[k - i] {
      assert s[i..i + |d|][k - i] == s[k];
    }
    NumeralValueShift(d, s, 0, |d|, i);
  }

  /** `%d` reads back a canonical numeral that is not followed by another digit. */
  lemma ScanIntReadsDecimal(s: string, i: nat, n: nat)
    requires OccursAt(s, Decimal(n), i)
    requires i + |Decimal(n)| == |s| || !IsDigit(s[i + |Decimal(n)|])
    ensures ScanInt(s, i) == Some(Conversion(n, i + |Decimal(n)|))
  {
    ScanIntReadsDigits(s, i, Decimal(n));
    DecimalRoundTrip(n);
  }

  /** `%d` keeps a leading minus sign. */
  lemma ScanIntReadsNegative(s: string, i: nat, d: string)
    requires |d| > 0 && AllDigits(d)
    requires i < |s| && s[i] == '-' && OccursAt(s, d, i + 1)
    requires i + 1 + |d| == |s| || !IsDigit(s[i + 1 + |d|])
    ensures ScanInt(s, i) == Some(Conversion(-(DecimalValue(d) as int), i + 1 + |d|))
  {
    DigitsAt(s, i + 1, d);
    assert SkipSpaces(s, i) == i;
    assert SignEnd(s, i) == i + 1;
    DigitsEndOfRun(s, i + 1, i + 1 + |d|);
  }

  lemma {:induction false} DigitsEndOfRun(s: string, i: nat, j: nat)
    requires i <= j <= |s|
    requires forall k :: i <= k < j ==> IsDigit(s[k])
    requires j == |s| || !IsDigit(s[j])
    ensures DigitsEnd(s, i) == j
    decreases j - i
  {
    if i < j {
      DigitsEndOfRun(s, i + 1, j);
    }
  }
}
