/**
  Character classes of Python 2's `re` module for byte-string patterns compiled
  without flags, and the scanning helpers the two recognisers are built from.
 */
module Chars {

  /** `\s`: space, tab, line feed, carriage return, form feed, vertical tab. */
  predicate IsSpace(c: char) {
    c == ' ' || c == '\t' || c == '\n' || c == '\r' || c == '\U{000C}' || c == '\U{000B}'
  }

  /** `\d`: an ASCII decimal digit. */
  predicate IsDigit(c: char) {
    '0' <= c <= '9'
  }

  /** `\w`: an ASCII letter, digit or underscore. */
  predicate IsWordChar(c: char) {
    ('a' <= c <= 'z') || ('A' <= c <= 'Z') || IsDigit(c) || c == '_'
  }

  /** `[\w\.]`: a word character or a full stop. */
  predicate IsWordOrDot(c: char) {
    IsWordChar(c) || c == '.'
  }

  /** `[0-9a-f]`: a lower-case hexadecimal digit. */
  predicate IsHexDigit(c: char) {
    IsDigit(c) || ('a' <= c <= 'f')
  }

  /** `[0-9A-F\-]`: a character of a bracketed image UUID. */
  predicate IsUuidChar(c: char) {
    IsDigit(c) || ('A' <= c <= 'F') || c == '-'
  }

  /** `.`: any character except a line feed. */
  predicate NotNewline(c: char) {
    c != '\n'
  }

  /** Every character of `t` is in the class `p`. */
  predicate All(t: string, p: char -> bool) {
    forall i :: 0 <= i < |t| ==> p(t[i])
  }

  /** Every character of `s[i..j]` is in the class `p`, stated by position. */
  predicate AllIn(s: string, i: nat, j: nat, p: char -> bool)
    requires j <= |s|
  {
    forall k {:trigger p(s[k])} :: i <= k < j ==> p(s[k])
  }

  predicate NoNewline(t: string) {
    All(t, NotNewline)
  }

  /** `pre` is a prefix of `s`: what `re.match` of a literal pattern tests. */
  predicate StartsWith(s: string, pre: string) {
    |pre| <= |s| && s[..|pre|] == pre
  }

  /**
    The end of the longest run of characters of class `p` starting at `i`:
    where a greedy `p*` stops.
   */
  function Span(s: string, i: nat, p: char -> bool): (j: nat)
    requires i <= |s|
    ensures i <= j <= |s|
    ensures j == |s| || !p(s[j])
    decreases |s| - i
  {
    if i == |s| || !p(s[i]) then i else Span(s, i + 1, p)
  }

  /** Every character the run covers is of class `p`. */
  lemma {:induction false} SpanRun(s: string, i: nat, p: char -> bool)
    requires i <= |s|
    ensures forall k :: i <= k < Span(s, i, p) ==> p(s[k])
    decreases |s| - i
  {
    if i < |s| && p(s[i]) {
      SpanRun(s, i + 1, p);
    }
  }

  /** The run end is determined by the run: any position with the run's two properties is it. */
  lemma {:induction false} SpanUnique(s: string, i: nat, p: char -> bool, j: nat)
    requires i <= j <= |s|
    requires forall k :: i <= k < j ==> p(s[k])
    requires j == |s| || !p(s[j])
    ensures Span(s, i, p) == j
    decreases j - i
  {
    if i < j {
      SpanUnique(s, i + 1, p, j);
    }
  }

  /** A run of class `p`, taken as a slice. */
  lemma RunSlice(s: string, i: nat, j: nat, p: char -> bool)
    requires i <= j <= |s|
    requires forall k :: i <= k < j ==> p(s[k])
    ensures All(s[i..j], p)
  {
    assert forall q :: 0 <= q < j - i ==> s[i..j][q] == s[i + q];
  }

  /** A run found by `Span`, taken as a slice. */
  lemma SpanSlice(s: string, i: nat, p: char -> bool)
    requires i <= |s|
    ensures All(s[i..Span(s, i, p)], p)
  {
    SpanRun(s, i, p);
    RunSlice(s, i, Span(s, i, p), p);
  }

  /** A run of class `p` from `i` to `j` lies inside the longest one. */
  lemma {:induction false} SpanAtLeast(s: string, i: nat, p: char -> bool, j: nat)
    requires i <= j <= |s|
    requires forall k :: i <= k < j ==> p(s[k])
    ensures j <= Span(s, i, p)
    decreases j - i
  {
    if i < j {
      SpanAtLeast(s, i + 1, p, j);
    }
  }

  /** The slice of `s` from `i` is `t` when `s` agrees with `t` there, character by character. */
  lemma SliceIs(s: string, i: nat, t: string)
    requires i + |t| <= |s|
    requires forall m :: 0 <= m < |t| ==> s[i + m] == t[m]
    ensures s[i..i + |t|] == t
  {
    forall m | 0 <= m < |t|
      ensures s[i..i + |t|][m] == t[m]
    {
      assert s[i + m] == t[m];
    }
  }

  /** The run stops at or before any character outside class `p`. */
  lemma {:induction false} SpanAtMost(s: string, i: nat, p: char -> bool, j: nat)
    requires i <= j < |s| && !p(s[j])
    ensures Span(s, i, p) <= j
    decreases j - i
  {
    if i < j && p(s[i]) {
      SpanAtMost(s, i + 1, p, j);
    }
  }

  lemma PrefixCut(s: string, a: nat, b: nat)
    requires a <= b <= |s|
    ensures s[..b] == s[..a] + s[a..b]
  {
  }

  /** One more piece of a prefix chain. */
  lemma Extend(s: string, a: nat, b: nat, acc: string, piece: string)
    requires a <= b <= |s| && acc == s[..a] && piece == s[a..b]
    ensures acc + piece == s[..b]
  {
    PrefixCut(s, a, b);
  }
}
