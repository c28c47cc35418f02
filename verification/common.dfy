/** Small building blocks shared by the firmware model: an optional value, the
    byte type, C-string truncation, decimal rendering (std::to_string) and the
    two std::string::find overloads the firmware uses. */
module Common {

  datatype Option<+T> = None | Some(value: T)

  /** An unsigned 8-bit value (uint8_t). */
  type uint8 = x: int | 0 <= x < 256

  /** The npos result of std::string::find. */
  const NPOS: int := -1

  predicate NulFree(s: string) {
    '\0' !in s
  }

  /** What a C string built from `s` holds: the characters before the first NUL
      (the effect of `c_str()` followed by any `const char*` consumer). */
  function CStr(s: string): (r: string)
    ensures r <= s
    ensures NulFree(r)
    ensures NulFree(s) ==> r == s
    ensures !NulFree(s) ==> |r| < |s| && s[|r|] == '\0'
  {
    if |s| == 0 || s[0] == '\0' then ""
    else [s[0]] + CStr(s[1..])
  }

  /* ---------- decimal rendering, as std::to_string ---------- */

  predicate IsDigit(c: char) {
    '0' <= c <= '9'
  }

  predicate AllDigits(s: string) {
    forall i :: 0 <= i < |s| ==> IsDigit(s[i])
  }

  function DigitChar(d: nat): (c: char)
    requires d < 10
    ensures IsDigit(c)
  {
    "0123456789"[d]
  }

  function DigitValue(c: char): (d: nat)
    requires IsDigit(c)
    ensures d < 10
  {
    (c as int - '0' as int)
  }

  lemma DigitValueChar(d: nat)
    requires d < 10
    ensures DigitValue(DigitChar(d)) == d
  {
  }

  /** The decimal digits of `n`, most significant first, with no leading zero. */
  function NatToString(n: nat): (r: string)
    ensures |r| >= 1 && AllDigits(r)
    ensures |r| > 1 ==> r[0] != '0'
    decreases n
  {
    if n < 10 then [DigitChar(n)]
    else NatToString(n / 10) + [DigitChar(n % 10)]
  }

  /** std::to_string(int): a '-' in front of the magnitude for negative values. */
  function IntToString(n: int): string {
    if n < 0 then "-" + NatToString(-n) else NatToString(n)
  }

  /** Reads a run of decimal digits back: the partner of NatToString. */
  function ParseNat(s: string): nat
    requires AllDigits(s)
    decreases |s|
  {
    if |s| == 0 then 0
    else ParseNat(s[..|s| - 1]) * 10 + DigitValue(s[|s| - 1])
  }

  function ParseInt(s: string): int
    requires |s| >= 1
    requires s[0] == '-' ==> AllDigits(s[1..])
    requires s[0] != '-' ==> AllDigits(s)
  {
    if s[0] == '-' then -(ParseNat(s[1..]) as int) else ParseNat(s)
  }

  lemma {:induction false} ParseNatToString(n: nat)
    ensures ParseNat(NatToString(n)) == n
    decreases n
  {
    if n >= 10 {
      var r := NatToString(n);
      ParseNatToString(n / 10);
      assert r[..|r| - 1] == NatToString(n / 10);
      DigitValueChar(n % 10);
    } else {
      DigitValueChar(n);
    }
  }

  /** ParseInt of a '-' in front of the digits of k. */
  lemma ParseIntNegative(m: string, k: nat)
    requires |m| >= 1 && AllDigits(m) && ParseNat(m) == k
    ensures var s := ['-'] + m;
      s[0] == '-' && AllDigits(s[1..]) && ParseInt(s) == -(k as int)
  {
    DropAppend(['-'], m, 1);
  }

  /** ParseInt of the digits of k alone. */
  lemma ParseIntDigits(m: string, k: nat)
    requires |m| >= 1 && AllDigits(m) && ParseNat(m) == k
    ensures m[0] != '-' && ParseInt(m) == k
  {
    assert IsDigit(m[0]);
  }

  lemma ParseIntToString(n: int)
    ensures |IntToString(n)| >= 1
    ensures IntToString(n)[0] == '-' <==> n < 0
    ensures var s := IntToString(n);
      (s[0] == '-' ==> AllDigits(s[1..])) && (s[0] != '-' ==> AllDigits(s)) && ParseInt(s) == n
  {
    if n < 0 {
      ParseNatToString(-n);
      ParseIntNegative(NatToString(-n), -n);
    } else {
      ParseNatToString(n);
      ParseIntDigits(NatToString(n), n);
    }
  }

  /* ---------- std::string::find ---------- */

  /** std::string::find(c, from): the first index at or after `from` holding `c`, or NPOS. */
  function FindChar(s: string, c: char, from: nat): (r: int)
    ensures r == NPOS || from <= r < |s|
    ensures r == NPOS ==> forall i :: from <= i < |s| ==> s[i] != c
    ensures r != NPOS ==> s[r] == c && forall i :: from <= i < r ==> s[i] != c
    decreases |s| - from
  {
    if from >= |s| then NPOS
    else if s[from] == c then from
    else FindChar(s, c, from + 1)
  }

  predicate OccursAt(s: string, pat: string, i: int) {
    0 <= i && i + |pat| <= |s| && s[i..i + |pat|] == pat
  }

  /** std::string::find(pat, from) for a non-empty pattern: the first index at or
      after `from` where `pat` starts, or NPOS. */
  function FindSub(s: string, pat: string, from: nat): (r: int)
    requires |pat| > 0
    ensures r == NPOS || (from <= r && OccursAt(s, pat, r))
    ensures r == NPOS ==> forall i :: from <= i ==> !OccursAt(s, pat, i)
    ensures r != NPOS ==> forall i :: from <= i < r ==> !OccursAt(s, pat, i)
    decreases |s| - from
  {
    if from + |pat| > |s| then NPOS
    else if s[from..from + |pat|] == pat then from
    else FindSub(s, pat, from + 1)
  }

  lemma DropAppend<T>(x: seq<T>, y: seq<T>, n: nat)
    requires n <= |x|
    ensures (x + y)[n..] == x[n..] + y
  {
  }

  lemma SplitAt<T>(s: seq<T>, k: nat)
    requires k <= |s|
    ensures s[..k] + s[k..] == s
  {
  }

  lemma DropSlices<T>(s: seq<T>, k: nat, j: nat)
    requires k + j < |s|
    ensures s[k..][..j] == s[k..k + j] && s[k..][j + 1..] == s[k + j + 1..]
  {
  }

  lemma AppendAssoc<T>(x: seq<T>, y: seq<T>, z: seq<T>)
    ensures x + (y + z) == (x + y) + z
  {
  }
}
