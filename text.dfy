/**
 * The string operations the scraper relies on, with JavaScript semantics:
 * `String.prototype.trim`, `includes`, `split(c).pop()`, `split(c)[0]`
 * and the decimal rendering of a non-negative integer in a template literal.
 */
module Text {

  /** The code points ECMAScript counts as WhiteSpace or LineTerminator, which `trim` strips. */
  predicate IsWhitespace(c: char) {
    c == '\t' || c == '\n' || c == '\U{000B}' || c == '\U{000C}' || c == '\r' || c == ' '
    || c == '\U{00A0}' || c == '\U{1680}' || ('\U{2000}' <= c <= '\U{200A}')
    || c == '\U{2028}' || c == '\U{2029}' || c == '\U{202F}' || c == '\U{205F}'
    || c == '\U{3000}' || c == '\U{FEFF}'
  }

  predicate AllWhitespace(s: string) {
    forall k :: 0 <= k < |s| ==> IsWhitespace(s[k])
  }

  /** Where the text of `s` starts: the first index at or after `i` that is not whitespace, or `|s|`. */
  function TextStart(s: string, i: nat): (lo: nat)
    requires i <= |s|
    ensures i <= lo <= |s|
    ensures forall k :: i <= k < lo ==> IsWhitespace(s[k])
    ensures lo == |s| || !IsWhitespace(s[lo])
    decreases |s| - i
  {
    if i < |s| && IsWhitespace(s[i]) then TextStart(s, i + 1) else i
  }

  /** Where the text of `s` ends: the last index at or below `j` after a non-whitespace character at or above `lo`. */
  function TextEnd(s: string, lo: nat, j: nat): (hi: nat)
    requires lo <= j <= |s|
    ensures lo <= hi <= j
    ensures forall k :: hi <= k < j ==> IsWhitespace(s[k])
    ensures hi == lo || !IsWhitespace(s[hi - 1])
    decreases j
  {
    if lo < j && IsWhitespace(s[j - 1]) then TextEnd(s, lo, j - 1) else j
  }

  /**
   * `s.trim()`: the block of `s` left after removing whitespace at both ends.
   * It is empty exactly when `s` is all whitespace, and otherwise neither
   * starts nor ends with whitespace.
   */
  function Trim(s: string): (r: string)
    ensures |r| <= |s|
    ensures r == [] <==> AllWhitespace(s)
    ensures r != [] ==> !IsWhitespace(r[0]) && !IsWhitespace(r[|r| - 1])
    ensures exists lead, trail :: s == lead + r + trail && AllWhitespace(lead) && AllWhitespace(trail)
  {
    var lo := TextStart(s, 0);
    var hi := TextEnd(s, lo, |s|);
    assert lo == hi ==> AllWhitespace(s) by {
      if lo == hi {
        forall k | 0 <= k < |s| ensures IsWhitespace(s[k]) {
          if k >= lo { assert hi <= k; }
        }
      }
    }
    assert s == s[..lo] + s[lo..hi] + s[hi..];
    assert AllWhitespace(s[..lo]) && AllWhitespace(s[hi..]);
    s[lo..hi]
  }

  /** A string with no whitespace at either end is its own trim. */
  lemma TrimOfTrimmed(s: string)
    requires s == [] || (!IsWhitespace(s[0]) && !IsWhitespace(s[|s| - 1]))
    ensures Trim(s) == s
  {
  }

  /** Trimming twice is trimming once. */
  lemma TrimIdempotent(s: string)
    ensures Trim(Trim(s)) == Trim(s)
  {
    TrimOfTrimmed(Trim(s));
  }

  /** `p` occurs in `s` starting at index `j`. */
  predicate OccursAt(s: string, p: string, j: nat) {
    j + |p| <= |s| && s[j..j + |p|] == p
  }

  /** `s.includes(p, i)`: `p` occurs in `s` at or after index `i`. */
  predicate ContainsFrom(s: string, p: string, i: nat)
    decreases |s| - i
  {
    i + |p| <= |s| && (s[i..i + |p|] == p || ContainsFrom(s, p, i + 1))
  }

  /** `s.includes(p)`, a case-sensitive substring test (the empty string occurs everywhere). */
  predicate Contains(s: string, p: string) {
    ContainsFrom(s, p, 0)
  }

  /** The scan finds an occurrence exactly when there is one. */
  lemma {:induction false} ContainsFromAt(s: string, p: string, i: nat)
    ensures ContainsFrom(s, p, i) <==> exists j :: i <= j && OccursAt(s, p, j)
    decreases |s| - i
  {
    if i + |p| <= |s| {
      ContainsFromAt(s, p, i + 1);
      if s[i..i + |p|] == p { assert OccursAt(s, p, i); }
      if exists j :: i <= j && OccursAt(s, p, j) {
        var j :| i <= j && OccursAt(s, p, j);
        if j > i { assert i + 1 <= j; }
      }
    } else {
      forall j | i <= j ensures !OccursAt(s, p, j) { }
    }
  }

  lemma ContainsAt(s: string, p: string)
    ensures Contains(s, p) <==> exists j :: OccursAt(s, p, j)
  {
    ContainsFromAt(s, p, 0);
  }

  /** `s.split(c).pop()`: the part of `s` after its last `c`, or all of `s` when it holds no `c`. */
  function AfterLast(s: string, c: char): (r: string)
    ensures |r| <= |s| && r == s[|s| - |r|..]
    ensures c !in r
    ensures |r| < |s| ==> s[|s| - |r| - 1] == c
  {
    if s == [] then []
    else if s[|s| - 1] == c then []
    else AfterLast(s[..|s| - 1], c) + [s[|s| - 1]]
  }

  /** `s.split(c)[0]`: the part of `s` before its first `c`, or all of `s` when it holds no `c`. */
  function BeforeFirst(s: string, c: char): (r: string)
    ensures |r| <= |s| && r == s[..|r|]
    ensures c !in r
    ensures |r| < |s| ==> s[|r|] == c
  {
    if s == [] then []
    else if s[0] == c then []
    else [s[0]] + BeforeFirst(s[1..], c)
  }

  /** A tail free of `c`, after a `c`, is exactly what `split(c).pop()` returns. */
  lemma {:induction false} AfterLastOfSuffix(s: string, c: char, t: string)
    requires c !in t
    ensures AfterLast(s + [c] + t, c) == t
    decreases |t|
  {
    if t != [] {
      var u := s + [c] + t;
      assert u[..|u| - 1] == s + [c] + t[..|t| - 1];
      AfterLastOfSuffix(s, c, t[..|t| - 1]);
    } else {
      assert (s + [c] + t)[|s|] == c;
    }
  }

  /** A head free of `c`, followed by nothing or by a `c`, is exactly what `split(c)[0]` returns. */
  lemma {:induction false} BeforeFirstOfPrefix(h: string, c: char, t: string)
    requires c !in h
    requires t == [] || t[0] == c
    ensures BeforeFirst(h + t, c) == h
    decreases |h|
  {
    if h != [] {
      assert (h + t)[1..] == h[1..] + t;
      BeforeFirstOfPrefix(h[1..], c, t);
    } else {
      assert h + t == t;
    }
  }

  predicate IsDigit(c: char) {
    '0' <= c <= '9'
  }

  function DigitChar(d: nat): (c: char)
    requires d < 10
    ensures IsDigit(c) && c as int - '0' as int == d
  {
    "0123456789"[d]
  }

  /** The decimal numeral of `n`, as `${n}` renders a non-negative integer: at least one digit, digits only. */
  function NatToString(n: nat): (r: string)
    ensures |r| >= 1
    ensures forall k :: 0 <= k < |r| ==> IsDigit(r[k])
    ensures n < 10 <==> |r| == 1
    decreases n
  {
    if n < 10 then [DigitChar(n)] else NatToString(n / 10) + [DigitChar(n % 10)]
  }

  /** The number a string of decimal digits denotes, most significant digit first. */
  function DigitsValue(s: string): int {
    if s == [] then 0 else DigitsValue(s[..|s| - 1]) * 10 + (s[|s| - 1] as int - '0' as int)
  }

  /** The numeral spells `n` in decimal, with no leading zero. */
  lemma {:induction false} NatToStringValue(n: nat)
    ensures DigitsValue(NatToString(n)) == n
    ensures |NatToString(n)| > 1 ==> NatToString(n)[0] != '0'
    decreases n
  {
    var s := NatToString(n);
    if n < 10 {
      assert s[..0] == [];
    } else {
      var h := NatToString(n / 10);
      NatToStringValue(n / 10);
      assert s[..|s| - 1] == h;
      assert s[0] == h[0];
      if |h| == 1 {
        assert h[..0] == [];
      }
    }
  }

  /** Different numbers have different numerals. */
  lemma {:induction false} NatToStringInjective(a: nat, b: nat)
    requires NatToString(a) == NatToString(b)
    ensures a == b
    decreases a
  {
    var s := NatToString(a);
    if a >= 10 && b >= 10 {
      assert NatToString(a / 10) == s[..|s| - 1] == NatToString(b / 10);
      assert DigitChar(a % 10) == s[|s| - 1] == DigitChar(b % 10);
      NatToStringInjective(a / 10, b / 10);
    }
  }

}
