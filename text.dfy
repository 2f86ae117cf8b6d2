/** String operations of Rust's `str` that the crawler relies on, over `seq<char>`. */
module Text {

  /** Rust's `char::is_whitespace`: the Unicode White_Space property. */
  predicate IsWhitespace(c: char) {
    || ('\t' <= c <= '\r')
    || c == ' '
    || c == '\U{0085}'
    || c == '\U{00A0}'
    || c == '\U{1680}'
    || ('\U{2000}' <= c <= '\U{200A}')
    || c == '\U{2028}'
    || c == '\U{2029}'
    || c == '\U{202F}'
    || c == '\U{205F}'
    || c == '\U{3000}'
  }

  /** `s.starts_with(p)` */
  predicate StartsWith(s: string, p: string) {
    |p| <= |s| && s[..|p|] == p
  }

  /** `s.contains(p)`: `p` occurs somewhere in `s` (the empty string occurs everywhere). */
  predicate Contains(s: string, p: string)
    decreases |s|
  {
    StartsWith(s, p) || (|s| > 0 && Contains(s[1..], p))
  }

  lemma ContainsEmpty(s: string)
    ensures Contains(s, "")
  {
    assert StartsWith(s, "");
  }

  /** The text before the first `c`, or all of `s` when there is none. */
  function Before(s: string, c: char): (r: string)
    ensures |r| <= |s| && r == s[..|r|] && c !in r
    ensures |r| < |s| ==> s[|r|] == c
  {
    if s == [] then []
    else if s[0] == c then []
    else [s[0]] + Before(s[1..], c)
  }

  /** The text after the first `c`, or the empty string when there is none. */
  function After(s: string, c: char): (r: string)
    ensures |r| < |s| || r == []
  {
    if s == [] then []
    else if s[0] == c then s[1..]
    else After(s[1..], c)
  }

  /** What follows the first `c` is a suffix of `s`. */
  lemma {:induction false} AfterSuffix(s: string, c: char)
    ensures After(s, c) == s[|s| - |After(s, c)|..]
  {
    if s != [] && s[0] != c {
      AfterSuffix(s[1..], c);
    }
  }

  /** The number of whitespace characters `s` starts with. */
  function LeadingSpace(s: string): (n: nat)
    ensures n <= |s|
  {
    if s != [] && IsWhitespace(s[0]) then 1 + LeadingSpace(s[1..]) else 0
  }

  /** The number of whitespace characters `s` ends with. */
  function TrailingSpace(s: string): (n: nat)
    ensures n <= |s|
  {
    if s != [] && IsWhitespace(s[|s| - 1]) then 1 + TrailingSpace(s[..|s| - 1]) else 0
  }

  /** `LeadingSpace` counts exactly the whitespace run at the front. */
  lemma {:induction false} LeadingSpaceRun(s: string)
    ensures forall i | 0 <= i < LeadingSpace(s) :: IsWhitespace(s[i])
    ensures LeadingSpace(s) == |s| || !IsWhitespace(s[LeadingSpace(s)])
  {
    if s != [] && IsWhitespace(s[0]) {
      LeadingSpaceRun(s[1..]);
    }
  }

  /** `TrailingSpace` counts exactly the whitespace run at the back. */
  lemma {:induction false} TrailingSpaceRun(s: string)
    ensures forall i | |s| - TrailingSpace(s) <= i < |s| :: IsWhitespace(s[i])
    ensures TrailingSpace(s) == |s| || !IsWhitespace(s[|s| - TrailingSpace(s) - 1])
  {
    if s != [] && IsWhitespace(s[|s| - 1]) {
      TrailingSpaceRun(s[..|s| - 1]);
    }
  }

  /** `str::trim_start` */
  function TrimStart(s: string): string {
    s[LeadingSpace(s)..]
  }

  /** `str::trim_end` */
  function TrimEnd(s: string): string {
    s[..|s| - TrailingSpace(s)]
  }

  /** `str::trim` */
  function Trim(s: string): string {
    TrimEnd(TrimStart(s))
  }

  /**
   * `Trim` removes whitespace runs at both ends and nothing else: the result is a slice of
   * `s` that neither starts nor ends with whitespace, and every character cut off is whitespace.
   */
  lemma TrimSlice(s: string) returns (lo: nat, hi: nat)
    ensures lo <= hi <= |s| && Trim(s) == s[lo..hi]
    ensures forall i | 0 <= i < lo :: IsWhitespace(s[i])
    ensures forall i | hi <= i < |s| :: IsWhitespace(s[i])
    ensures lo < hi ==> !IsWhitespace(s[lo]) && !IsWhitespace(s[hi - 1])
  {
    var t := TrimStart(s);
    lo := LeadingSpace(s);
    hi := lo + |t| - TrailingSpace(t);
    LeadingSpaceRun(s);
    TrailingSpaceRun(t);
    assert forall i | hi <= i < |s| :: s[i] == t[i - lo];
  }

  /** The decimal digits of `n`, as `format!` writes an unsigned integer. */
  function Decimal(n: nat): (r: string)
    ensures |r| > 0 && forall i | 0 <= i < |r| :: IsDigit(r[i])
  {
    if n < 10 then [DigitChar(n)] else Decimal(n / 10) + [DigitChar(n % 10)]
  }

  predicate IsDigit(c: char) {
    '0' <= c <= '9'
  }

  function DigitChar(d: nat): (c: char)
    requires d < 10
    ensures IsDigit(c)
  {
    ('0' as int + d) as char
  }

  function DigitValue(c: char): nat
    requires IsDigit(c)
  {
    c as int - '0' as int
  }
}
