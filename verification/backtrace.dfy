/**
  The backtrace-line recogniser, `btRE.match(line)` for
    (\d+\s*[\w\.]+\s*)(0x[0-9a-f]+)\s(.*)\n
  anchored at the start of the line and free to stop before its end.

  Everything after the prefix group is deterministic once its start is fixed:
  the hex run must be followed by a whitespace character, which is no hex
  digit, and `(.*)` by the line feed, which `.` cannot match. The prefix group
  is where the engine backtracks: its four runs are tried longest first and
  shortened one character at a time, innermost run first. The model performs
  that search literally, one function per run, and returns the first start of
  the address it reaches.
 */
module Backtrace {
  import opened Wrappers
  import opened Chars
  import opened Hex

  /** The three groups of a match: prefix, address literal, suffix. */
  datatype FrameFields = FrameFields(prefix: string, addr: string, suffix: string)

  /** Where the prefix's runs end: digits at `a`, gap at `b`, library token at `c`, prefix at `p`. */
  datatype Cuts = Cuts(a: nat, b: nat, c: nat, p: nat)

  /**
    `s[..k.p]` is `\d+\s*[\w\.]+\s*` cut at `k`: each piece lies inside the
    longest run of its class starting where the previous piece ends.
   */
  predicate PrefixCutsAt(s: string, k: Cuts) {
    && 1 <= k.a <= k.b < k.c <= k.p <= |s|
    && k.a <= Span(s, 0, IsDigit)
    && k.b <= Span(s, k.a, IsSpace)
    && k.c <= Span(s, k.b, IsWordOrDot)
    && k.p <= Span(s, k.c, IsSpace)
  }

  /** `(0x[0-9a-f]+)\s(.*)\n` matches at `p`. */
  predicate AddressMatchesAt(s: string, p: nat)
    requires p <= |s|
  {
    && HexLiteralAt(s, p)
    && var h := Span(s, p + 2, IsHexDigit);
    && h < |s| && IsSpace(s[h])
    && Span(s, h + 1, NotNewline) < |s|
  }

  /** The groups when the address starts at `p`. */
  function FrameAt(s: string, p: nat): FrameFields
    requires p <= |s| && AddressMatchesAt(s, p)
  {
    var h := Span(s, p + 2, IsHexDigit);
    var e := Span(s, h + 1, NotNewline);
    FrameFields(s[..p], s[p..h], s[h + 1..e])
  }

  /** The address group is a hex literal and the suffix group has no line feed. */
  lemma FrameAtGroups(s: string, p: nat, h: nat, e: nat)
    requires p <= |s| && AddressMatchesAt(s, p)
    requires h == Span(s, p + 2, IsHexDigit) && e == Span(s, h + 1, NotNewline)
    ensures h < e < |s|
    ensures IsHexLiteral(s[p..h]) && NoNewline(s[h + 1..e])
    ensures FrameAt(s, p) == FrameFields(s[..p], s[p..h], s[h + 1..e])
  {
    HexRunIsLiteral(s, p);
    SpanSlice(s, h + 1, NotNewline);
  }

  /** The second `\s*`, currently covering `s[c..e]`. */
  function TryTrailingSpace(s: string, a: nat, b: nat, c: nat, e: nat): (r: Option<Cuts>)
    requires 1 <= a <= b < c <= e <= |s| && PrefixCutsAt(s, Cuts(a, b, c, e))
    ensures r.Some? ==> r.value.a == a && r.value.b == b && r.value.c == c && r.value.p <= e
    ensures r.Some? ==> PrefixCutsAt(s, r.value) && AddressMatchesAt(s, r.value.p)
    decreases e - c
  {
    if AddressMatchesAt(s, e) then Some(Cuts(a, b, c, e))
    else if e == c then None
    else TryTrailingSpace(s, a, b, c, e - 1)
  }

  /** `[\w\.]+` from `b`, currently ending at `c`. */
  function TryToken(s: string, a: nat, b: nat, c: nat): (r: Option<Cuts>)
    requires 1 <= a <= b < c <= |s| && PrefixCutsAt(s, Cuts(a, b, c, c))
    ensures r.Some? ==> r.value.a == a && r.value.b == b && r.value.c <= c
    ensures r.Some? ==> PrefixCutsAt(s, r.value) && AddressMatchesAt(s, r.value.p)
    decreases c - b
  {
    var r := TryTrailingSpace(s, a, b, c, Span(s, c, IsSpace));
    if r.Some? || c == b + 1 then r else TryToken(s, a, b, c - 1)
  }

  /** The first `\s*`, from `a` and currently ending at `b`. */
  function TryGap(s: string, a: nat, b: nat): (r: Option<Cuts>)
    requires 1 <= a <= b <= |s|
    requires a <= Span(s, 0, IsDigit) && b <= Span(s, a, IsSpace)
    ensures r.Some? ==> r.value.a == a && r.value.b <= b
    ensures r.Some? ==> PrefixCutsAt(s, r.value) && AddressMatchesAt(s, r.value.p)
    decreases b - a
  {
    var w := Span(s, b, IsWordOrDot);
    var r := if w > b then TryToken(s, a, b, w) else None;
    if r.Some? || b == a then r else TryGap(s, a, b - 1)
  }

  /** `\d+`, currently ending at `a`. */
  function TryDigits(s: string, a: nat): (r: Option<Cuts>)
    requires 1 <= a <= Span(s, 0, IsDigit)
    ensures r.Some? ==> r.value.a <= a
    ensures r.Some? ==> PrefixCutsAt(s, r.value) && AddressMatchesAt(s, r.value.p)
    decreases a
  {
    var r := TryGap(s, a, Span(s, a, IsSpace));
    if r.Some? || a == 1 then r else TryDigits(s, a - 1)
  }

  /** The backtracking search for the prefix group: the first cut the engine reaches. */
  function FindAddress(s: string): (r: Option<Cuts>)
    ensures r.Some? ==> PrefixCutsAt(s, r.value) && AddressMatchesAt(s, r.value.p)
  {
    var d := Span(s, 0, IsDigit);
    if d == 0 then None else TryDigits(s, d)
  }

  /** `btRE.match(s)`: prefix, address literal and suffix, or `None`. */
  function MatchFrame(s: string): (r: Option<FrameFields>)
    ensures r.Some? ==> IsHexLiteral(r.value.addr) && NoNewline(r.value.suffix)
    ensures r.Some? ==> StartsWith(s, r.value.prefix)
  {
    match FindAddress(s)
    case None => None
    case Some(k) =>
      var h := Span(s, k.p + 2, IsHexDigit);
      FrameAtGroups(s, k.p, h, Span(s, h + 1, NotNewline));
      Some(FrameAt(s, k.p))
  }

  /** `int(match.group(2), 16)`: the address of a backtrace line. */
  function FrameAddress(s: string): (r: Option<nat>)
    ensures r.Some? <==> MatchFrame(s).Some?
    ensures r.Some? ==> r.value == ParseHexLiteral(MatchFrame(s).value.addr)
  {
    match MatchFrame(s)
    case None => None
    case Some(f) => Some(ParseHexLiteral(f.addr))
  }

  /** The cuts the engine tries first: every run of the prefix taken whole. */
  function GreedyCuts(s: string): (k: Cuts)
    ensures k.a <= k.b <= k.c <= k.p <= |s|
  {
    var a := Span(s, 0, IsDigit);
    var b := Span(s, a, IsSpace);
    var c := Span(s, b, IsWordOrDot);
    Cuts(a, b, c, Span(s, c, IsSpace))
  }

  /**
    A line `btRE` matches on its first try, with whitespace between the
    library token and the address: the usual `N  lib  0xADDR symbol` shape.
   */
  predicate IsGreedyFrame(s: string) {
    && 1 <= GreedyCuts(s).a && GreedyCuts(s).b < GreedyCuts(s).c < GreedyCuts(s).p
    && AddressMatchesAt(s, GreedyCuts(s).p)
  }

  /** On such a line the search stops at the cuts it tries first. */
  lemma GreedyFindAddress(s: string)
    requires IsGreedyFrame(s)
    ensures FindAddress(s) == Some(GreedyCuts(s))
  {
    var k := GreedyCuts(s);
    assert TryTrailingSpace(s, k.a, k.b, k.c, k.p) == Some(k);
    assert TryToken(s, k.a, k.b, k.c) == Some(k);
    assert TryGap(s, k.a, k.b) == Some(k);
    assert TryDigits(s, k.a) == Some(k);
  }

  /** A run that stops before `n` stops at the same place in a string agreeing with `s` below `n`. */
  lemma SpanAgree(s: string, t: string, i: nat, p: char -> bool, n: nat)
    requires i <= n <= |s| && n <= |t| && Span(s, i, p) < n
    requires forall k :: 0 <= k < n ==> s[k] == t[k]
    ensures Span(t, i, p) == Span(s, i, p)
  {
    var j := Span(s, i, p);
    SpanRun(s, i, p);
    SpanUnique(t, i, p, j);
  }

  /** The first-try cuts depend only on the text up to the address start, given a non-space there. */
  lemma GreedyCutsAgree(s: string, t: string)
    requires 1 <= GreedyCuts(s).a && GreedyCuts(s).c < GreedyCuts(s).p < |t|
    requires forall k :: 0 <= k < GreedyCuts(s).p ==> s[k] == t[k]
    requires !IsSpace(t[GreedyCuts(s).p])
    ensures GreedyCuts(t) == GreedyCuts(s)
  {
    var k := GreedyCuts(s);
    SpanAgree(s, t, 0, IsDigit, k.p);
    SpanAgree(s, t, k.a, IsSpace, k.p);
    SpanAgree(s, t, k.b, IsWordOrDot, k.p);
    SpanRun(s, k.c, IsSpace);
    SpanUnique(t, k.c, IsSpace, k.p);
  }

  /** A prefix, a hex literal, a space, a suffix without line feeds and a line feed: the address matches after the prefix. */
  lemma FrameAtWritten(r: string, pre: string, x: string, sym: string)
    requires IsHexLiteral(x) && NoNewline(sym)
    requires r == pre + x + [' '] + sym + "\n"
    ensures AddressMatchesAt(r, |pre|) && FrameAt(r, |pre|) == FrameFields(pre, x, sym)
  {
    assert r == pre + x + [' '] + sym + "\n" + "";
    FrameIndices(r, pre, x, ' ', sym, "");
    FrameAtPieces(r, pre, x, sym);
  }

  /** The same, from where the pieces sit in the line. */
  lemma FrameAtPieces(r: string, pre: string, x: string, sym: string)
    requires IsHexLiteral(x) && NoNewline(sym)
    requires StartsWith(r, pre) && |pre| + |x| + 1 + |sym| < |r|
    requires forall i :: 0 <= i < |x| ==> r[|pre| + i] == x[i]
    requires r[|pre| + |x|] == ' '
    requires forall i :: 0 <= i < |sym| ==> r[|pre| + |x| + 1 + i] == sym[i]
    requires r[|pre| + |x| + 1 + |sym|] == '\n'
    ensures AddressMatchesAt(r, |pre|) && FrameAt(r, |pre|) == FrameFields(pre, x, sym)
  {
    PiecesSpans(r, |pre|, x, sym);
    SliceIs(r, |pre|, x);
    SliceIs(r, |pre| + |x| + 1, sym);
  }

  /** A hex literal at `p`, a space and a suffix: the address matches there, and its runs end where the pieces do. */
  lemma PiecesSpans(r: string, p: nat, x: string, sym: string)
    requires IsHexLiteral(x) && NoNewline(sym) && p + |x| + 1 + |sym| < |r|
    requires forall i :: 0 <= i < |x| ==> r[p + i] == x[i]
    requires r[p + |x|] == ' '
    requires forall i :: 0 <= i < |sym| ==> r[p + |x| + 1 + i] == sym[i]
    requires r[p + |x| + 1 + |sym|] == '\n'
    ensures AddressMatchesAt(r, p)
    ensures Span(r, p + 2, IsHexDigit) == p + |x|
    ensures Span(r, p + |x| + 1, NotNewline) == p + |x| + 1 + |sym|
  {
    var h := p + |x|;
    var e := h + 1 + |sym|;
    forall i | p + 2 <= i < h
      ensures IsHexDigit(r[i])
    {
      var m := i - p;
      assert r[p + m] == x[m] == x[2..][m - 2];
    }
    forall i | h + 1 <= i < e
      ensures NotNewline(r[i])
    {
      var m := i - h - 1;
      assert r[p + |x| + 1 + m] == sym[m];
    }
    assert r[p] == x[0] && r[p + 1] == x[1];
    AddressAt(r, p, h, e);
    SpanUnique(r, p + 2, IsHexDigit, h);
    SpanUnique(r, h + 1, NotNewline, e);
  }

  /** `t` is digits, whitespace, a library token and whitespace, split at `a`, `b` and `c`. */
  predicate PrefixPieces(t: string, a: nat, b: nat, c: nat) {
    && 1 <= a <= b < c <= |t|
    && AllIn(t, 0, a, IsDigit) && AllIn(t, a, b, IsSpace) && AllIn(t, b, c, IsWordOrDot) && AllIn(t, c, |t|, IsSpace)
  }

  /** `\d+\s*[\w\.]+\s*`, the language of the prefix group. */
  ghost predicate IsFramePrefix(t: string) {
    exists a, b, c :: PrefixPieces(t, a, b, c)
  }

  /** Cuts found in a line split its prefix into the pattern's pieces. */
  lemma CutsArePieces(s: string, k: Cuts)
    requires PrefixCutsAt(s, k)
    ensures PrefixPieces(s[..k.p], k.a, k.b, k.c)
  {
    SpanRun(s, 0, IsDigit);
    SpanRun(s, k.a, IsSpace);
    SpanRun(s, k.b, IsWordOrDot);
    SpanRun(s, k.c, IsSpace);
  }

  /** Pieces of a prefix the line starts with are cuts of the line. */
  lemma PiecesAreCuts(s: string, t: string, a: nat, b: nat, c: nat)
    requires PrefixPieces(t, a, b, c) && StartsWith(s, t)
    ensures PrefixCutsAt(s, Cuts(a, b, c, |t|))
  {
    assert forall i :: 0 <= i < |t| ==> s[i] == t[i];
    SpanAtLeast(s, 0, IsDigit, a);
    SpanAtLeast(s, a, IsSpace, b);
    SpanAtLeast(s, b, IsWordOrDot, c);
    SpanAtLeast(s, c, IsSpace, |t|);
  }

  /**
    The language of the whole pattern with the given groups, read left to
    right: the prefix, the address literal, one whitespace character, the
    suffix and a line feed, then anything.
   */
  ghost predicate IsFrameLine(s: string, f: FrameFields) {
    && IsFramePrefix(f.prefix) && IsHexLiteral(f.addr) && NoNewline(f.suffix)
    && exists w: char, rest: string :: IsSpace(w) && s == f.prefix + f.addr + [w] + f.suffix + "\n" + rest
  }

  /** A line cut at the address start `p`, the separator `h` and the line feed `e`. */
  lemma FrameConcat(s: string, p: nat, h: nat, e: nat)
    requires p <= h < e < |s| && s[e] == '\n'
    ensures s == s[..p] + s[p..h] + [s[h]] + s[h + 1..e] + "\n" + s[e + 1..]
  {
    assert s[h..h + 1] == [s[h]];
    assert s[e..e + 1] == "\n";
    var t1 := s[..p] + s[p..h];
    Extend(s, p, h, s[..p], s[p..h]);
    var t2 := t1 + [s[h]];
    Extend(s, h, h + 1, t1, [s[h]]);
    var t3 := t2 + s[h + 1..e];
    Extend(s, h + 1, e, t2, s[h + 1..e]);
    Extend(s, e, e + 1, t3, "\n");
    PrefixCut(s, e + 1, |s|);
  }

  /** Groups cut out of a line at `p`, `h` and `e` whose pieces are of the right classes fit the pattern. */
  lemma FrameLineAt(s: string, f: FrameFields, p: nat, h: nat, e: nat)
    requires p <= h < e < |s| && IsSpace(s[h]) && s[e] == '\n'
    requires IsFramePrefix(s[..p]) && IsHexLiteral(s[p..h]) && NoNewline(s[h + 1..e])
    requires f == FrameFields(s[..p], s[p..h], s[h + 1..e])
    ensures IsFrameLine(s, f)
  {
    FrameConcat(s, p, h, e);
  }

  /** The prefix group at cuts the search may return is in the prefix language. */
  lemma FramePrefixAt(s: string, k: Cuts)
    requires PrefixCutsAt(s, k)
    ensures IsFramePrefix(s[..k.p])
  {
    CutsArePieces(s, k);
  }

  /** The groups at cuts the search may return are in the pattern's language. */
  lemma FrameAtSound(s: string, k: Cuts)
    requires PrefixCutsAt(s, k) && AddressMatchesAt(s, k.p)
    ensures IsFrameLine(s, FrameAt(s, k.p))
  {
    var h := Span(s, k.p + 2, IsHexDigit);
    var e := Span(s, h + 1, NotNewline);
    FrameAtGroups(s, k.p, h, e);
    FramePrefixAt(s, k);
    FrameLineAt(s, FrameAt(s, k.p), k.p, h, e);
  }

  /** A match means what the pattern says: the line is in its language with the returned groups. */
  lemma MatchFrameSound(s: string)
    requires MatchFrame(s).Some?
    ensures IsFrameLine(s, MatchFrame(s).value)
  {
    var k := FindAddress(s).value;
    assert MatchFrame(s).value == FrameAt(s, k.p);
    FrameAtSound(s, k);
  }

  lemma {:induction false} TryTrailingSpaceComplete(s: string, a: nat, b: nat, c: nat, e: nat, p: nat)
    requires 1 <= a <= b < c <= e <= |s| && PrefixCutsAt(s, Cuts(a, b, c, e))
    requires c <= p <= e && AddressMatchesAt(s, p)
    ensures TryTrailingSpace(s, a, b, c, e).Some?
    decreases e - c
  {
    if !AddressMatchesAt(s, e) {
      TryTrailingSpaceComplete(s, a, b, c, e - 1, p);
    }
  }

  /** Shortening the library token by one keeps a later success: the search only moves on after a failure. */
  lemma TryTokenStep(s: string, a: nat, b: nat, c: nat)
    requires 1 <= a <= b < c - 1 && c <= |s| && PrefixCutsAt(s, Cuts(a, b, c, c))
    requires TryToken(s, a, b, c - 1).Some?
    ensures TryToken(s, a, b, c).Some?
  {
  }

  lemma {:induction false} TryTokenComplete(s: string, a: nat, b: nat, c: nat, k: Cuts)
    requires 1 <= a <= b < c <= |s| && PrefixCutsAt(s, Cuts(a, b, c, c))
    requires PrefixCutsAt(s, k) && AddressMatchesAt(s, k.p) && k.a == a && k.b == b && k.c <= c
    ensures TryToken(s, a, b, c).Some?
    decreases c - b
  {
    if c == k.c {
      TryTrailingSpaceComplete(s, a, b, c, Span(s, c, IsSpace), k.p);
    } else {
      TryTokenComplete(s, a, b, c - 1, k);
      TryTokenStep(s, a, b, c);
    }
  }

  /** The gap search reaches the cut's gap end: from there the token search succeeds. */
  lemma TryGapAtCut(s: string, a: nat, b: nat, k: Cuts)
    requires 1 <= a <= b <= |s|
    requires a <= Span(s, 0, IsDigit) && b <= Span(s, a, IsSpace)
    requires PrefixCutsAt(s, k) && AddressMatchesAt(s, k.p) && k.a == a && k.b == b
    ensures TryGap(s, a, b).Some?
  {
    var w := Span(s, b, IsWordOrDot);
    TryTokenComplete(s, a, b, w, k);
    assert TryGap(s, a, b) == TryToken(s, a, b, w);
  }

  /** Shortening the gap by one keeps a later success. */
  lemma TryGapStep(s: string, a: nat, b: nat)
    requires 1 <= a < b <= |s|
    requires a <= Span(s, 0, IsDigit) && b <= Span(s, a, IsSpace)
    requires TryGap(s, a, b - 1).Some?
    ensures TryGap(s, a, b).Some?
  {
  }

  lemma {:induction false} TryGapComplete(s: string, a: nat, b: nat, k: Cuts)
    requires 1 <= a <= b <= |s|
    requires a <= Span(s, 0, IsDigit) && b <= Span(s, a, IsSpace)
    requires PrefixCutsAt(s, k) && AddressMatchesAt(s, k.p) && k.a == a && k.b <= b
    ensures TryGap(s, a, b).Some?
    decreases b - a
  {
    if b == k.b {
      TryGapAtCut(s, a, b, k);
    } else {
      TryGapComplete(s, a, b - 1, k);
      TryGapStep(s, a, b);
    }
  }

  /** The digit run reaches the cut's digit end: from there the gap search succeeds. */
  lemma TryDigitsAtCut(s: string, a: nat, k: Cuts)
    requires 1 <= a <= Span(s, 0, IsDigit)
    requires PrefixCutsAt(s, k) && AddressMatchesAt(s, k.p) && k.a == a
    ensures TryDigits(s, a).Some?
  {
    var b := Span(s, a, IsSpace);
    TryGapComplete(s, a, b, k);
    assert TryDigits(s, a) == TryGap(s, a, b);
  }

  /** Shortening the digit run by one keeps a later success. */
  lemma TryDigitsStep(s: string, a: nat)
    requires 1 < a <= Span(s, 0, IsDigit)
    requires TryDigits(s, a - 1).Some?
    ensures TryDigits(s, a).Some?
  {
  }

  lemma {:induction false} TryDigitsComplete(s: string, a: nat, k: Cuts)
    requires 1 <= a <= Span(s, 0, IsDigit)
    requires PrefixCutsAt(s, k) && AddressMatchesAt(s, k.p) && k.a <= a
    ensures TryDigits(s, a).Some?
    decreases a
  {
    if a == k.a {
      TryDigitsAtCut(s, a, k);
    } else {
      TryDigitsComplete(s, a - 1, k);
      TryDigitsStep(s, a);
    }
  }

  /**
    The engine reaches cuts `k` no later than cuts `l`: it tries longer
    digit runs first, then, for one digit run, longer gaps, then longer
    tokens, then longer trailing whitespace.
   */
  predicate TriedNoLater(k: Cuts, l: Cuts) {
    || k.a > l.a
    || (k.a == l.a && k.b > l.b)
    || (k.a == l.a && k.b == l.b && k.c > l.c)
    || (k.a == l.a && k.b == l.b && k.c == l.c && k.p >= l.p)
  }

  lemma {:induction false} TryTrailingSpaceFirst(s: string, a: nat, b: nat, c: nat, e: nat, p: nat)
    requires 1 <= a <= b < c <= e <= |s| && PrefixCutsAt(s, Cuts(a, b, c, e))
    requires c <= p <= e && AddressMatchesAt(s, p)
    ensures TryTrailingSpace(s, a, b, c, e).Some? && p <= TryTrailingSpace(s, a, b, c, e).value.p
    decreases e - c
  {
    if !AddressMatchesAt(s, e) {
      TryTrailingSpaceFirst(s, a, b, c, e - 1, p);
    }
  }

  lemma {:induction false} TryTokenFirst(s: string, a: nat, b: nat, c: nat, k: Cuts)
    requires 1 <= a <= b < c <= |s| && PrefixCutsAt(s, Cuts(a, b, c, c))
    requires PrefixCutsAt(s, k) && AddressMatchesAt(s, k.p) && k.a == a && k.b == b && k.c <= c
    ensures TryToken(s, a, b, c).Some? && TriedNoLater(TryToken(s, a, b, c).value, k)
    decreases c - b
  {
    var e := Span(s, c, IsSpace);
    if c == k.c {
      TryTrailingSpaceFirst(s, a, b, c, e, k.p);
      assert TryToken(s, a, b, c) == TryTrailingSpace(s, a, b, c, e);
    } else {
      TryTokenFirst(s, a, b, c - 1, k);
    }
  }

  lemma {:induction false} TryGapFirst(s: string, a: nat, b: nat, k: Cuts)
    requires 1 <= a <= b <= |s|
    requires a <= Span(s, 0, IsDigit) && b <= Span(s, a, IsSpace)
    requires PrefixCutsAt(s, k) && AddressMatchesAt(s, k.p) && k.a == a && k.b <= b
    ensures TryGap(s, a, b).Some? && TriedNoLater(TryGap(s, a, b).value, k)
    decreases b - a
  {
    if b == k.b {
      var w := Span(s, b, IsWordOrDot);
      TryTokenFirst(s, a, b, w, k);
      assert TryGap(s, a, b) == TryToken(s, a, b, w);
    } else {
      TryGapFirst(s, a, b - 1, k);
    }
  }

  lemma {:induction false} TryDigitsFirst(s: string, a: nat, k: Cuts)
    requires 1 <= a <= Span(s, 0, IsDigit)
    requires PrefixCutsAt(s, k) && AddressMatchesAt(s, k.p) && k.a <= a
    ensures TryDigits(s, a).Some? && TriedNoLater(TryDigits(s, a).value, k)
    decreases a
  {
    if a == k.a {
      var b := Span(s, a, IsSpace);
      TryGapFirst(s, a, b, k);
      assert TryDigits(s, a) == TryGap(s, a, b);
    } else {
      TryDigitsFirst(s, a - 1, k);
    }
  }

  /** `k` are the first cuts, in the engine's order, at which the rest of the pattern fits. */
  ghost predicate FirstFit(s: string, k: Cuts) {
    && PrefixCutsAt(s, k) && AddressMatchesAt(s, k.p)
    && forall l :: PrefixCutsAt(s, l) && AddressMatchesAt(s, l.p) ==> TriedNoLater(k, l)
  }

  /** What the search returns, when it returns something, is the first fit. */
  lemma FindAddressIsFirst(s: string)
    requires FindAddress(s).Some?
    ensures FirstFit(s, FindAddress(s).value)
  {
    forall l | PrefixCutsAt(s, l) && AddressMatchesAt(s, l.p)
      ensures TriedNoLater(FindAddress(s).value, l)
    {
      FindAddressFirst(s, l);
    }
  }

  /**
    The search returns the first cuts the engine tries at which the rest of
    the pattern fits: whenever some cuts fit, the search succeeds, and no
    fitting cuts come before the ones it returns.
   */
  lemma FindAddressFirst(s: string, k: Cuts)
    requires PrefixCutsAt(s, k) && AddressMatchesAt(s, k.p)
    ensures FindAddress(s).Some? && TriedNoLater(FindAddress(s).value, k)
    ensures PrefixCutsAt(s, FindAddress(s).value) && AddressMatchesAt(s, FindAddress(s).value.p)
  {
    TryDigitsFirst(s, Span(s, 0, IsDigit), k);
  }

  /** Where the pieces of a line in the pattern's language sit. */
  lemma FrameIndices(s: string, prefix: string, addr: string, w: char, suffix: string, rest: string)
    requires s == prefix + addr + [w] + suffix + "\n" + rest
    ensures StartsWith(s, prefix)
    ensures |prefix| + |addr| + 1 + |suffix| < |s|
    ensures forall i :: 0 <= i < |addr| ==> s[|prefix| + i] == addr[i]
    ensures s[|prefix| + |addr|] == w
    ensures forall i :: 0 <= i < |suffix| ==> s[|prefix| + |addr| + 1 + i] == suffix[i]
    ensures s[|prefix| + |addr| + 1 + |suffix|] == '\n'
  {
    var x := prefix + addr + [w] + suffix;
    assert s == x + "\n" + rest;
    assert s[..|prefix|] == prefix by {
      assert forall i :: 0 <= i < |prefix| ==> s[i] == x[i] == prefix[i];
    }
  }

  /** `(0x[0-9a-f]+)\s(.*)\n` matches at `p` when its pieces end at `h` and `e`. */
  lemma AddressAt(s: string, p: nat, h: nat, e: nat)
    requires p + 2 < h < e < |s| && s[p] == '0' && s[p + 1] == 'x'
    requires forall i :: p + 2 <= i < h ==> IsHexDigit(s[i])
    requires IsSpace(s[h]) && s[e] == '\n'
    requires forall i :: h + 1 <= i < e ==> NotNewline(s[i])
    ensures AddressMatchesAt(s, p)
  {
    SpanUnique(s, p + 2, IsHexDigit, h);
    SpanUnique(s, h + 1, NotNewline, e);
  }

  /**
    The search misses nothing: whenever some way of cutting the line fits the
    pattern, the line matches (though possibly with other groups).
   */
  lemma MatchFrameComplete(s: string, prefix: string, addr: string, w: char, suffix: string, rest: string)
    requires IsFramePrefix(prefix) && IsHexLiteral(addr) && NoNewline(suffix) && IsSpace(w)
    requires s == prefix + addr + [w] + suffix + "\n" + rest
    ensures MatchFrame(s).Some?
  {
    var a, b, c :| PrefixPieces(prefix, a, b, c);
    var p := |prefix|;
    var k := Cuts(a, b, c, p);
    FrameIndices(s, prefix, addr, w, suffix, rest);
    PiecesAreCuts(s, prefix, a, b, c);
    AddressAt(s, p, p + |addr|, p + |addr| + 1 + |suffix|);
    var d := Span(s, 0, IsDigit);
    TryDigitsComplete(s, d, k);
    assert FindAddress(s) == TryDigits(s, d);
  }

  /**
    A line has an address exactly when it is in the language of `btRE`, and
    the address is the value of the hex literal the line spells after the
    prefix group. Of the ways the line may be cut into the pattern's pieces,
    the groups are those of the first the engine tries.
   */
  lemma FrameAddressSpec(s: string)
    ensures FrameAddress(s).Some? <==> exists f :: IsFrameLine(s, f)
    ensures FrameAddress(s).Some? ==> exists f :: IsFrameLine(s, f) && ParseHexLiteral(f.addr) == FrameAddress(s).value
    ensures MatchFrame(s).Some? ==> exists k :: FirstFit(s, k) && MatchFrame(s).value == FrameAt(s, k.p)
  {
    if MatchFrame(s).Some? {
      var k := FindAddress(s).value;
      FindAddressIsFirst(s);
      assert MatchFrame(s).value == FrameAt(s, k.p);
    }
    if FrameAddress(s).Some? {
      MatchFrameSound(s);
      assert IsFrameLine(s, MatchFrame(s).value);
    }
    if exists f :: IsFrameLine(s, f) {
      var f :| IsFrameLine(s, f);
      var w: char, rest: string :| IsSpace(w) && s == f.prefix + f.addr + [w] + f.suffix + "\n" + rest;
      MatchFrameComplete(s, f.prefix, f.addr, w, f.suffix, rest);
    }
  }
}
