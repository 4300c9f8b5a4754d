/**
 * Text helpers shared by the digest engine, the sinks and the scheduler:
 * Unicode white space and trimming, character search, ASCII digits and
 * decimal rendering of integers, single-character replacement and the way a
 * path buffer appends a component.
 */
module Strings {
  import opened Wrappers

  /** The Unicode White_Space property, used both by `str::trim` and by `\s` in a regex. */
  predicate IsWhitespace(c: char) {
    ('\t' <= c <= '\r') || c == ' ' || c == '\U{85}' || c == '\U{A0}' || c == '\U{1680}'
    || ('\U{2000}' <= c <= '\U{200A}') || c == '\U{2028}' || c == '\U{2029}'
    || c == '\U{202F}' || c == '\U{205F}' || c == '\U{3000}'
  }

  predicate IsDigit(c: char) {
    '0' <= c <= '9'
  }

  predicate AllDigits(s: string) {
    forall i :: 0 <= i < |s| ==> IsDigit(s[i])
  }

  /** Every character of `s` from `lo` up to (not including) `hi` is white space. */
  predicate WhitespaceBetween(s: string, lo: nat, hi: nat)
    requires lo <= hi <= |s|
  {
    forall k :: lo <= k < hi ==> IsWhitespace(s[k])
  }

  /** How many white-space characters `s` starts with. */
  function LeadingWhitespace(s: string): (n: nat)
    ensures n <= |s| && WhitespaceBetween(s, 0, n)
    ensures n < |s| ==> !IsWhitespace(s[n])
  {
    if s != [] && IsWhitespace(s[0]) then 1 + LeadingWhitespace(s[1..]) else 0
  }

  /** Where the trailing white space of `s` starts. */
  function TrailingWhitespaceStart(s: string): (n: nat)
    ensures n <= |s| && WhitespaceBetween(s, n, |s|)
    ensures n > 0 ==> !IsWhitespace(s[n - 1])
  {
    if s != [] && IsWhitespace(s[|s| - 1]) then TrailingWhitespaceStart(s[..|s| - 1]) else |s|
  }

  /** `str::trim`: white space removed at both ends, and only there. */
  function Trim(s: string): (r: string)
    ensures exists i, j :: 0 <= i <= j <= |s| && r == s[i..j] && WhitespaceBetween(s, 0, i) && WhitespaceBetween(s, j, |s|)
    ensures r != [] ==> !IsWhitespace(r[0]) && !IsWhitespace(r[|r| - 1])
    ensures r == [] <==> WhitespaceBetween(s, 0, |s|)
  {
    var i := LeadingWhitespace(s);
    if i == |s| then
      assert s[i..i] == [];
      []
    else
      var j := TrailingWhitespaceStart(s);
      assert i < j;
      s[i..j]
  }

  /** Trimming twice is trimming once. */
  lemma TrimIdempotent(s: string)
    ensures Trim(Trim(s)) == Trim(s)
  {
    var r := Trim(s);
    if r != [] {
      assert LeadingWhitespace(r) == 0;
      assert TrailingWhitespaceStart(r) == |r|;
    }
  }

  /** Text surrounded by white space, and not itself starting or ending with it, trims back to itself. */
  lemma TrimSurrounded(pre: string, t: string, post: string)
    requires WhitespaceBetween(pre, 0, |pre|) && WhitespaceBetween(post, 0, |post|)
    requires t != [] && !IsWhitespace(t[0]) && !IsWhitespace(t[|t| - 1])
    ensures Trim(pre + t + post) == t
  {
    var s := pre + t + post;
    var i := LeadingWhitespace(s);
    var j := TrailingWhitespaceStart(s);
    assert s[|pre|] == t[0];
    assert s[|pre| + |t| - 1] == t[|t| - 1];
    assert i == |pre|;
    assert j == |pre| + |t|;
    assert s[i..j] == t;
  }

  /** Concatenation is associative. */
  lemma ConcatAssoc(a: string, b: string, c: string)
    ensures a + (b + c) == (a + b) + c
  {
  }

  /** A character in neither part is not in their concatenation. */
  lemma NotInConcat(c: char, a: string, b: string)
    requires c !in a && c !in b
    ensures c !in a + b
  {
  }

  /** Dropping the first character and cutting at `f` commute. */
  lemma SliceShift(s: string, f: nat)
    requires 0 < f < |s|
    ensures s[1..][..f - 1] == s[..f][1..] && s[1..][f - 1 + 1..] == s[f + 1..]
  {
  }

  /** The first position of `c` in `s`, if any. */
  function IndexOf(s: string, c: char): (r: Option<nat>)
    ensures r.Some? ==> r.value < |s| && s[r.value] == c && c !in s[..r.value]
    ensures r.None? <==> c !in s
  {
    if s == [] then None
    else if s[0] == c then Some(0)
    else
      match IndexOf(s[1..], c)
      case None => None
      case Some(i) => assert s[1..][..i] == s[1..i + 1]; Some(i + 1)
  }

  /** The first `c` is the one right after a prefix that has none. */
  lemma {:induction false} IndexOfAfter(a: string, c: char, b: string)
    requires c !in a
    ensures IndexOf(a + [c] + b, c) == Some(|a|)
    ensures (a + [c] + b)[..|a|] == a && (a + [c] + b)[|a| + 1..] == b
  {
    if a != [] {
      assert (a + [c] + b)[1..] == a[1..] + [c] + b;
      IndexOfAfter(a[1..], c, b);
    }
  }

  /** The value of a string of ASCII digits read in base ten. */
  function DigitsValue(s: string): nat
    requires AllDigits(s)
  {
    if s == [] then 0 else DigitsValue(s[..|s| - 1]) * 10 + (s[|s| - 1] as int - '0' as int)
  }

  function Pow10(k: nat): (r: nat)
    ensures r >= 1
  {
    if k == 0 then 1 else 10 * Pow10(k - 1)
  }

  function DigitChar(d: nat): (c: char)
    requires d < 10
    ensures IsDigit(c) && c as int - '0' as int == d
  {
    ('0' as int + d) as char
  }

  /** Decimal rendering of a natural number, without leading zeros. */
  function NatToString(n: nat): (r: string)
    ensures r != [] && AllDigits(r) && DigitsValue(r) == n
    ensures |r| > 1 ==> r[0] != '0'
  {
    if n < 10 then
      var r := [DigitChar(n)];
      assert r[..0] == [];
      r
    else
      var h := NatToString(n / 10);
      var r := h + [DigitChar(n % 10)];
      assert r[..|r| - 1] == h;
      r
  }

  /** Decimal rendering of an integer, as `{}` formats an `i64`. */
  function IntToString(i: int): (r: string)
    ensures r != []
    ensures i >= 0 ==> r == NatToString(i)
    ensures i < 0 ==> r == "-" + NatToString(-i)
  {
    if i < 0 then "-" + NatToString(-i) else NatToString(i)
  }

  /** `str::replace` with a one-character pattern: every occurrence of `c` becomes `repl`. */
  function ReplaceChar(s: string, c: char, repl: string): (r: string)
    ensures c !in s ==> r == s
    ensures c !in repl ==> c !in r
    ensures |repl| == 1 ==> |r| == |s|
  {
    if s == [] then ""
    else (if s[0] == c then repl else [s[0]]) + ReplaceChar(s[1..], c, repl)
  }

  /** Position by position, a one-character replacement changes exactly the occurrences of `c`. */
  lemma {:induction false} ReplaceCharAt(s: string, c: char, d: char, k: nat)
    requires k < |s|
    ensures |ReplaceChar(s, c, [d])| == |s|
    ensures ReplaceChar(s, c, [d])[k] == if s[k] == c then d else s[k]
  {
    if k > 0 {
      ReplaceCharAt(s[1..], c, d, k - 1);
    }
  }

  /** A component starting with the separator names a path from the root. */
  predicate Absolute(component: string) {
    component != [] && component[0] == '/'
  }

  /**
   * `PathBuf::push` on a Unix path: an absolute component replaces the whole
   * buffer; a relative one is appended, with a separator inserted unless the
   * buffer is empty or already ends with one.
   */
  function PathPush(base: string, component: string): (r: string)
    ensures Absolute(component) ==> r == component
    ensures !Absolute(component) ==> base <= r && |base| + |component| <= |r| <= |base| + |component| + 1
    ensures r[|r| - |component|..] == component
  {
    if Absolute(component) then component
    else if base == [] || base[|base| - 1] == '/' then base + component
    else base + "/" + component
  }

  /** Pushing onto the same buffer gives the same path only for the same component. */
  lemma PathPushInjective(base: string, a: string, b: string)
    requires !Absolute(a) && !Absolute(b)
    ensures PathPush(base, a) == PathPush(base, b) ==> a == b
  {
    if PathPush(base, a) == PathPush(base, b) {
      var r := PathPush(base, a);
      assert a == r[|r| - |a|..];
      assert |a| == |b|;
    }
  }
}
