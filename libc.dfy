/**
 * The pieces of the C library that the response code leans on, stated over
 * `string` (one `char` per octet): scanning for a character, reading a
 * NUL-terminated C string, `atoi`, and the `"%d"` conversion of `sprintf`.
 */
module LibC {
  import opened Wrappers

  /** The first index at or after `from` where `s` holds `c`. */
  function IndexFrom(s: string, c: char, from: nat): (r: Option<nat>)
    ensures r.Some? ==> from <= r.value < |s| && s[r.value] == c
    ensures r.Some? ==> forall j :: from <= j < r.value ==> s[j] != c
    ensures r.None? ==> forall j :: from <= j < |s| ==> s[j] != c
    decreases |s| - from
  {
    if from >= |s| then None
    else if s[from] == c then Some(from)
    else IndexFrom(s, c, from + 1)
  }

  /** The scan stops at the first occurrence of `c`. */
  lemma {:induction false} IndexFromFinds(s: string, c: char, from: nat, k: nat)
    requires from <= k < |s| && s[k] == c
    requires forall j :: from <= j < k ==> s[j] != c
    ensures IndexFrom(s, c, from) == Some(k)
    decreases k - from
  {
    if from < k {
      IndexFromFinds(s, c, from + 1, k);
    }
  }

  /** The C string that starts at the head of `s`: everything before the first NUL. */
  function CString(s: string): (r: string)
    ensures r <= s && '\0' !in r
    ensures |r| < |s| ==> s[|r|] == '\0'
  {
    if s == [] || s[0] == '\0' then [] else [s[0]] + CString(s[1..])
  }

  /** The C string of `s` is its one NUL-free prefix that ends at a NUL or at the end of `s`. */
  lemma CStringUnique(s: string, p: string)
    requires p <= s && '\0' !in p
    requires |p| == |s| || s[|p|] == '\0'
    ensures CString(s) == p
  {
  }

  /** A NUL written at `k` ends the C string there, whatever follows it. */
  lemma CStringStopsAt(s: string, k: nat)
    requires k < |s| && s[k] == '\0'
    ensures CString(s) == CString(s[..k])
  {
    CStringUnique(s[..k], CString(s));
  }

  predicate IsDigit(c: char) { '0' <= c <= '9' }

  predicate AllDigits(s: string) { forall i :: 0 <= i < |s| ==> IsDigit(s[i]) }

  function DigitChar(d: nat): (c: char)
    requires d < 10
    ensures IsDigit(c)
  {
    ('0' as int + d) as char
  }

  function DigitValue(c: char): (d: nat)
    requires IsDigit(c)
    ensures d < 10 && DigitChar(d) == c
  {
    c as int - '0' as int
  }

  /** `sprintf("%d", n)` for a value that is not negative. */
  function Decimal(n: nat): (s: string)
    ensures 1 <= |s| && AllDigits(s)
  {
    if n < 10 then [DigitChar(n)] else Decimal(n / 10) + [DigitChar(n % 10)]
  }

  /** The number a string of decimal digits denotes. */
  function DigitsValue(s: string): (n: nat)
    requires AllDigits(s)
  {
    if s == [] then 0 else DigitsValue(s[..|s| - 1]) * 10 + DigitValue(s[|s| - 1])
  }

  /** The longest run of decimal digits at the head of `s`. */
  function LeadingDigits(s: string): (r: string)
    ensures r <= s && AllDigits(r)
    ensures |r| < |s| ==> !IsDigit(s[|r|])
  {
    if s != [] && IsDigit(s[0]) then [s[0]] + LeadingDigits(s[1..]) else []
  }

  /** C's `isspace` in the "C" locale: space, tab, LF, VT, FF and CR. */
  predicate IsSpace(c: char) { c == ' ' || '\t' <= c <= '\r' }

  function SkipSpaces(s: string): (r: string)
    ensures |r| <= |s| && r == s[|s| - |r|..]
    ensures r != [] ==> !IsSpace(r[0])
  {
    if s != [] && IsSpace(s[0]) then SkipSpaces(s[1..]) else s
  }

  /**
   * `atoi`: leading white space, an optional sign, then as many decimal digits
   * as follow (none gives 0). Values outside the range of `int` are left out.
   */
  function Atoi(s: string): (n: int)
  {
    var t := SkipSpaces(s);
    if t != [] && t[0] == '-' then 0 - DigitsValue(LeadingDigits(t[1..]))
    else if t != [] && t[0] == '+' then DigitsValue(LeadingDigits(t[1..]))
    else DigitsValue(LeadingDigits(t))
  }

  lemma {:induction false} DecimalValue(n: nat)
    ensures DigitsValue(Decimal(n)) == n
  {
    if n >= 10 {
      var s := Decimal(n);
      assert s[..|s| - 1] == Decimal(n / 10);
      DecimalValue(n / 10);
    }
  }

  lemma {:induction false} LeadingDigitsOfDigits(s: string)
    requires AllDigits(s)
    ensures LeadingDigits(s) == s
  {
    if s != [] {
      LeadingDigitsOfDigits(s[1..]);
    }
  }

  /** `atoi` reads back what `"%d"` printed. */
  lemma AtoiDecimal(n: nat)
    ensures Atoi(Decimal(n)) == n
  {
    var s := Decimal(n);
    assert SkipSpaces(s) == s;
    LeadingDigitsOfDigits(s);
    DecimalValue(n);
  }

  /** `"%d"` prints exactly three characters precisely for the codes 100 to 999. */
  lemma {:induction false} DecimalHasThreeDigits(n: nat)
    ensures |Decimal(n)| == 3 <==> 100 <= n <= 999
  {
    DecimalLengthBounds(n);
  }

  lemma {:induction false} DecimalLengthBounds(n: nat)
    ensures n < 10 ==> |Decimal(n)| == 1
    ensures 10 <= n < 100 ==> |Decimal(n)| == 2
    ensures 100 <= n < 1000 ==> |Decimal(n)| == 3
    ensures 1000 <= n ==> |Decimal(n)| >= 4
  {
    if n >= 10 {
      DecimalLengthBounds(n / 10);
    }
  }
}
