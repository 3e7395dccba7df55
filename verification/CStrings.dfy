/** The C library's string functions the programs lean on, over NUL-free strings. */
module CStrings {

  /** 64-bit `unsigned long`. */
  const ULONG_MAX := 0xFFFF_FFFF_FFFF_FFFF

  predicate IsDigit(c: char) { '0' <= c <= '9' }

  predicate IsSpace(c: char) { c == ' ' || '\t' <= c <= '\r' }

  predicate AllDigits(s: string) { forall i :: 0 <= i < |s| ==> IsDigit(s[i]) }

  function DigitOf(c: char): nat
    requires IsDigit(c)
  {
    c as int - '0' as int
  }

  /** The number a run of digits denotes. */
  function ValueOf(s: string): nat
    requires AllDigits(s)
  {
    if |s| == 0 then 0 else ValueOf(s[..|s| - 1]) * 10 + DigitOf(s[|s| - 1])
  }

  /** Where the run of characters satisfying `p` that starts at `i` ends. */
  function RunEnd(s: string, i: nat, p: char -> bool): (j: nat)
    requires i <= |s|
    ensures i <= j <= |s| && forall k :: i <= k < j ==> p(s[k])
    ensures j < |s| ==> !p(s[j])
    decreases |s| - i
  {
    if i < |s| && p(s[i]) then RunEnd(s, i + 1, p) else i
  }

  /** `strtoul(s + i, &end, 10)`: the value and the index of `end`. */
  function Strtoul(s: string, i: nat): (r: (nat, nat))
    requires i <= |s|
    ensures i <= r.1 <= |s| && r.0 <= ULONG_MAX
  {
    var start := RunEnd(s, i, IsSpace);
    var negative := start < |s| && s[start] == '-';
    var first := if start < |s| && (s[start] == '-' || s[start] == '+') then start + 1 else start;
    var end := RunEnd(s, first, IsDigit);
    if end == first then (0, i)
    else
      var v := ValueOf(s[first..end]);
      if v > ULONG_MAX then (ULONG_MAX, end)
      else if negative then ((ULONG_MAX + 1 - v) % (ULONG_MAX + 1), end)
      else (v, end)
  }

  /** Index of the last `c`, or -1. */
  function Strrchr(s: string, c: char): (r: int)
    ensures -1 <= r < |s|
    ensures r >= 0 ==> s[r] == c
    ensures forall k :: r < k < |s| ==> s[k] != c
  {
    if |s| == 0 then -1
    else if s[|s| - 1] == c then |s| - 1
    else Strrchr(s[..|s| - 1], c)
  }

  /** Index of the first `c`, or -1. */
  function Strchr(s: string, c: char): (r: int)
    ensures -1 <= r < |s|
    ensures r >= 0 ==> s[r] == c && forall k :: 0 <= k < r ==> s[k] != c
    ensures r < 0 ==> forall k :: 0 <= k < |s| ==> s[k] != c
  {
    var j := RunEnd(s, 0, x => x != c);
    if j < |s| then j else -1
  }

  /** `%d` of a number that is not negative. */
  function Decimal(n: nat): (s: string)
    ensures |s| > 0 && AllDigits(s) && ValueOf(s) == n
  {
    var last := [('0' as int + n % 10) as char];
    if n < 10 then
      assert last[..0] == [];
      last
    else
      var front := Decimal(n / 10);
      assert (front + last)[..|front|] == front;
      front + last
  }

  lemma RunEndIs(s: string, i: nat, p: char -> bool, j: nat)
    requires i <= j <= |s|
    requires forall k :: i <= k < j ==> p(s[k])
    requires j < |s| ==> !p(s[j])
    ensures RunEnd(s, i, p) == j
    decreases |s| - i
  {
    if i < j { RunEndIs(s, i + 1, p, j); }
  }

  /** Reading back a number that was printed, in any surroundings that do not go on
      with another digit. */
  lemma StrtoulReadsDecimal(before: string, n: nat, after: string)
    requires n <= ULONG_MAX
    requires after == [] || !IsDigit(after[0])
    ensures Strtoul(before + Decimal(n) + after, |before|) == (n, |before| + |Decimal(n)|)
  {
    var d := Decimal(n);
    var s := before + d + after;
    assert s[|before|] == d[0];
    RunEndIs(s, |before|, IsSpace, |before|);
    forall k | |before| <= k < |before| + |d| ensures IsDigit(s[k]) {
      assert s[k] == d[k - |before|];
    }
    RunEndIs(s, |before|, IsDigit, |before| + |d|);
    assert s[|before|..|before| + |d|] == d;
  }
}
