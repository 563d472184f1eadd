/**
  The image-table entry recogniser, `imageRE.match(line)` for
    \s*(0x[0-9a-f]+)\s*-\s*(0x[0-9a-f]+)\s*(.*?)\s*<([0-9A-F\-]+)>\s*(.*)\n
  anchored at the start of the line and free to stop before its end.

  The model follows the order in which the backtracking engine tries
  alternatives. Every greedy run up to the name group is taken whole: up to
  the high literal, giving a character back would leave a whitespace or hex
  character where the next item (`0x`, `-`, a hex digit) cannot match it, and
  what the runs before the name give back could only become the start of the
  name, which the lazy search then reaches from the longer run anyway. The
  lazy name group is searched shortest first, and the final `\s*(.*)\n`
  gives whitespace back one character at a time, because `\s` also matches
  the line feed that `\n` needs. `MatchImageLineIff` shows the search
  misses no line the pattern fits.
 */
module ImageLine {
  import opened Wrappers
  import opened Chars
  import opened Hex

  /** The five groups of a match: low address, high address, name, UUID, path. */
  datatype ImageFields = ImageFields(low: string, high: string, name: string, uuid: string, path: string)

  /** Where the part of the pattern after the name group matched. */
  datatype TailMatch = TailMatch(nameEnd: nat, uuidStart: nat, uuidEnd: nat, pathStart: nat, pathEnd: nat)

  predicate IsUuid(t: string) {
    |t| > 0 && All(t, IsUuidChar)
  }

  /**
    What a successful tail match at `t` means: after the name, whitespace,
    `<`, a UUID, `>`, whitespace, a path without line feeds, and a line feed.
   */
  predicate TailShape(s: string, t: TailMatch) {
    && t.nameEnd < t.uuidStart < t.uuidEnd < t.pathStart <= t.pathEnd < |s|
    && AllIn(s, t.nameEnd, t.uuidStart - 1, IsSpace) && s[t.uuidStart - 1] == '<'
    && AllIn(s, t.uuidStart, t.uuidEnd, IsUuidChar) && s[t.uuidEnd] == '>'
    && AllIn(s, t.uuidEnd + 1, t.pathStart, IsSpace)
    && AllIn(s, t.pathStart, t.pathEnd, NotNewline) && s[t.pathEnd] == '\n'
  }

  /**
    `\s*(.*)\n` from `v`, with `\s*` currently covering `s[v..w]`: `(.*)` runs
    to the next line feed or the end; at the end, `\s*` gives one character back.
   */
  function MatchPath(s: string, v: nat, w: nat): (r: Option<(nat, nat)>)
    requires v <= w <= |s|
    requires forall k :: v <= k < w ==> IsSpace(s[k])
    ensures r.Some? ==> v <= r.value.0 <= r.value.1 < |s| && s[r.value.1] == '\n'
    ensures r.Some? ==> AllIn(s, v, r.value.0, IsSpace) && AllIn(s, r.value.0, r.value.1, NotNewline)
    ensures r.None? <==> forall k :: v <= k < |s| ==> s[k] != '\n'
    decreases w - v
  {
    var e := Span(s, w, NotNewline);
    SpanRun(s, w, NotNewline);
    if e < |s| then Some((w, e))
    else if w == v then None
    else MatchPath(s, v, w - 1)
  }

  /** The whitespace run before `<` and the UUID run before `>`, followed by a path match, make a tail. */
  lemma TailShapeAt(s: string, n: nat, m: nat, u: nat, a: nat, b: nat)
    requires n <= |s| && m == Span(s, n, IsSpace) && m < |s| && s[m] == '<'
    requires m + 1 <= |s| && u == Span(s, m + 1, IsUuidChar) && m + 1 < u < |s| && s[u] == '>'
    requires u + 1 <= a <= b < |s| && s[b] == '\n'
    requires AllIn(s, u + 1, a, IsSpace) && AllIn(s, a, b, NotNewline)
    ensures TailShape(s, TailMatch(n, m + 1, u, a, b))
  {
    SpanRun(s, n, IsSpace);
    SpanRun(s, m + 1, IsUuidChar);
  }

  /**
    The path group starts where the greedy `\s*` after `>` leaves it: after
    the whole whitespace run, or, when no line feed follows that run, at the
    last line feed of the line, given back so that `\n` can match it.
   */
  predicate PathTaken(s: string, t: TailMatch) {
    && t.uuidEnd + 1 <= |s|
    && (|| t.pathStart == Span(s, t.uuidEnd + 1, IsSpace)
        || (t.pathStart == t.pathEnd && forall k :: t.pathStart < k < |s| ==> s[k] != '\n'))
  }

  /**
    The path the search returns starts after the whole whitespace run `s[v..w]`,
    or is empty at a line feed after which no line feed follows.
   */
  lemma {:induction false} MatchPathTaken(s: string, v: nat, w: nat)
    requires v <= w <= |s|
    requires forall k :: v <= k < w ==> IsSpace(s[k])
    requires MatchPath(s, v, w).Some?
    ensures var r := MatchPath(s, v, w).value;
      r.0 == w || (r.0 == r.1 && forall k :: r.0 < k < |s| ==> s[k] != '\n')
    decreases w - v
  {
    SpanRun(s, w, NotNewline);
    if Span(s, w, NotNewline) == |s| {
      MatchPathTaken(s, v, w - 1);
      if s[w - 1] != '\n' {
        assert Span(s, w - 1, NotNewline) == Span(s, w, NotNewline);
      }
    }
  }

  /** `\s*<([0-9A-F\-]+)>\s*(.*)\n` tried with the name group ending at `n`. */
  function MatchTail(s: string, n: nat): (r: Option<TailMatch>)
    requires n <= |s|
    ensures r.Some? ==> r.value.nameEnd == n && TailShape(s, r.value)
  {
    var m := Span(s, n, IsSpace);
    if !(m < |s| && s[m] == '<') then None
    else
      var u := Span(s, m + 1, IsUuidChar);
      if u == m + 1 || !(u < |s| && s[u] == '>') then None
      else
        SpanRun(s, u + 1, IsSpace);
        match MatchPath(s, u + 1, Span(s, u + 1, IsSpace))
        case None => None
        case Some((a, b)) =>
          TailShapeAt(s, n, m, u, a, b);
          Some(TailMatch(n, m + 1, u, a, b))
  }

  /**
    The lazy `(.*?)`: the shortest name, without line feeds, after which the
    tail matches.
   */
  function FindName(s: string, n: nat): (r: Option<TailMatch>)
    requires n <= |s|
    ensures r.Some? ==> TailShape(s, r.value) && n <= r.value.nameEnd
    ensures r.Some? ==> forall k :: n <= k < r.value.nameEnd ==> s[k] != '\n'
    ensures r.Some? ==> forall k :: n <= k < r.value.nameEnd ==> MatchTail(s, k).None?
    decreases |s| - n
  {
    match MatchTail(s, n)
    case Some(t) => Some(t)
    case None =>
      if n < |s| && s[n] != '\n' then FindName(s, n + 1) else None
  }

  /** Where `\s*(0x[0-9a-f]+)\s*-\s*(0x[0-9a-f]+)\s*` matched: both literals, the dash, the start of the name. */
  datatype RangeMatch = RangeMatch(lowStart: nat, lowEnd: nat, dash: nat, highStart: nat, highEnd: nat, nameStart: nat)

  /** What a successful range match at `g` means. */
  predicate RangeShape(s: string, g: RangeMatch) {
    && g.lowStart + 3 <= g.lowEnd <= g.dash < g.highStart && g.highStart + 3 <= g.highEnd <= g.nameStart <= |s|
    && AllIn(s, 0, g.lowStart, IsSpace) && HexLiteralAt(s, g.lowStart) && AllIn(s, g.lowStart + 2, g.lowEnd, IsHexDigit)
    && AllIn(s, g.lowEnd, g.dash, IsSpace) && s[g.dash] == '-'
    && AllIn(s, g.dash + 1, g.highStart, IsSpace)
    && HexLiteralAt(s, g.highStart) && AllIn(s, g.highStart + 2, g.highEnd, IsHexDigit)
    && AllIn(s, g.highEnd, g.nameStart, IsSpace)
  }

  /** `\s*(0x[0-9a-f]+)\s*` from `i`: where the literal starts and ends, and where the whitespace after it ends. */
  function MatchLiteral(s: string, i: nat): (r: Option<(nat, nat, nat)>)
    requires i <= |s|
    ensures r.Some? ==> i <= r.value.0 && r.value.0 + 3 <= r.value.1 <= r.value.2 <= |s|
    ensures r.Some? ==> AllIn(s, i, r.value.0, IsSpace) && HexLiteralAt(s, r.value.0)
    ensures r.Some? ==> AllIn(s, r.value.0 + 2, r.value.1, IsHexDigit) && AllIn(s, r.value.1, r.value.2, IsSpace)
    ensures r.Some? ==> r.value.1 == Span(s, r.value.0 + 2, IsHexDigit) && r.value.2 == Span(s, r.value.1, IsSpace)
  {
    var start := Span(s, i, IsSpace);
    if !HexLiteralAt(s, start) then None
    else
      var end := Span(s, start + 2, IsHexDigit);
      SpanRun(s, i, IsSpace);
      SpanRun(s, start + 2, IsHexDigit);
      SpanRun(s, end, IsSpace);
      Some((start, end, Span(s, end, IsSpace)))
  }

  /**
    The runs before the name group are taken whole: both hex runs, and the
    whitespace after the high literal, so the name starts at the first
    character after it that is not whitespace.
   */
  predicate RangeTaken(s: string, g: RangeMatch) {
    && g.lowStart + 2 <= |s| && g.highStart + 2 <= |s| && g.highEnd <= |s|
    && g.lowEnd == Span(s, g.lowStart + 2, IsHexDigit)
    && g.highEnd == Span(s, g.highStart + 2, IsHexDigit)
    && g.nameStart == Span(s, g.highEnd, IsSpace)
  }

  /** The part of the pattern before the name group; every run in it is taken whole. */
  function MatchRange(s: string): (r: Option<RangeMatch>)
    ensures r.Some? ==> RangeShape(s, r.value)
    ensures r.Some? ==> RangeTaken(s, r.value)
  {
    match MatchLiteral(s, 0)
    case None => None
    case Some((i1, j1, i2)) =>
      if !(i2 < |s| && s[i2] == '-') then None
      else
        match MatchLiteral(s, i2 + 1)
        case None => None
        case Some((i3, j3, k)) => Some(RangeMatch(i1, j1, i2, i3, j3, k))
  }

  /**
    Positions at which the whole pattern fits the line: a range match, a tail
    match, and a name between them without line feeds.
   */
  predicate ImageShape(s: string, g: RangeMatch, t: TailMatch) {
    && RangeShape(s, g) && TailShape(s, t) && g.nameStart <= t.nameEnd
    && AllIn(s, g.nameStart, t.nameEnd, NotNewline)
  }

  /** The groups a range match and a tail match cut out of `s`. */
  function Groups(s: string, g: RangeMatch, t: TailMatch): ImageFields
    requires RangeShape(s, g) && TailShape(s, t) && g.nameStart <= t.nameEnd
  {
    ImageFields(s[g.lowStart..g.lowEnd], s[g.highStart..g.highEnd], s[g.nameStart..t.nameEnd],
                s[t.uuidStart..t.uuidEnd], s[t.pathStart..t.pathEnd])
  }

  /** The groups cut out where the pattern fits are of the pattern's classes. */
  lemma GroupsValid(s: string, g: RangeMatch, t: TailMatch)
    requires ImageShape(s, g, t)
    ensures IsHexLiteral(Groups(s, g, t).low) && IsHexLiteral(Groups(s, g, t).high)
    ensures NoNewline(Groups(s, g, t).name) && IsUuid(Groups(s, g, t).uuid) && NoNewline(Groups(s, g, t).path)
  {
    LiteralSlice(s, g.lowStart, g.lowEnd);
    LiteralSlice(s, g.highStart, g.highEnd);
    RunSlice(s, g.nameStart, t.nameEnd, NotNewline);
    RunSlice(s, t.uuidStart, t.uuidEnd, IsUuidChar);
    RunSlice(s, t.pathStart, t.pathEnd, NotNewline);
  }

  /** `imageRE.match(s)`: the five groups, or `None` when the line is no entry. */
  function MatchImageLine(s: string): (r: Option<ImageFields>)
    ensures r.Some? ==> IsHexLiteral(r.value.low) && IsHexLiteral(r.value.high)
    ensures r.Some? ==> NoNewline(r.value.name) && IsUuid(r.value.uuid) && NoNewline(r.value.path)
  {
    match MatchRange(s)
    case None => None
    case Some(g) =>
      match FindName(s, g.nameStart)
      case None => None
      case Some(t) =>
        GroupsValid(s, g, t);
        Some(Groups(s, g, t))
  }

  /** The text before the name, cut at the range match's positions. */
  lemma RangeConcat(s: string, g: RangeMatch)
    requires RangeShape(s, g)
    ensures s[..g.nameStart] == s[..g.lowStart] + s[g.lowStart..g.lowEnd] + s[g.lowEnd..g.dash] + "-"
      + s[g.dash + 1..g.highStart] + s[g.highStart..g.highEnd] + s[g.highEnd..g.nameStart]
  {
    assert s[g.dash..g.dash + 1] == "-";
    var a0 := s[..g.lowStart] + s[g.lowStart..g.lowEnd];
    Extend(s, g.lowStart, g.lowEnd, s[..g.lowStart], s[g.lowStart..g.lowEnd]);
    var a1 := a0 + s[g.lowEnd..g.dash];
    Extend(s, g.lowEnd, g.dash, a0, s[g.lowEnd..g.dash]);
    var a2 := a1 + "-";
    Extend(s, g.dash, g.dash + 1, a1, "-");
    var a3 := a2 + s[g.dash + 1..g.highStart];
    Extend(s, g.dash + 1, g.highStart, a2, s[g.dash + 1..g.highStart]);
    var a4 := a3 + s[g.highStart..g.highEnd];
    Extend(s, g.highStart, g.highEnd, a3, s[g.highStart..g.highEnd]);
    Extend(s, g.highEnd, g.nameStart, a4, s[g.highEnd..g.nameStart]);
  }

  /** The whole line, from the text before the name on, cut at the tail match's positions. */
  lemma TailConcat(s: string, n: nat, t: TailMatch)
    requires TailShape(s, t) && n <= t.nameEnd
    ensures s == s[..n] + s[n..t.nameEnd] + s[t.nameEnd..t.uuidStart - 1] + "<" + s[t.uuidStart..t.uuidEnd] + ">"
      + s[t.uuidEnd + 1..t.pathStart] + s[t.pathStart..t.pathEnd] + "\n" + s[t.pathEnd + 1..]
  {
    assert s[t.uuidStart - 1..t.uuidStart] == "<";
    assert s[t.uuidEnd..t.uuidEnd + 1] == ">";
    assert s[t.pathEnd..t.pathEnd + 1] == "\n";
    var a6 := s[..n] + s[n..t.nameEnd];
    Extend(s, n, t.nameEnd, s[..n], s[n..t.nameEnd]);
    var a7 := a6 + s[t.nameEnd..t.uuidStart - 1];
    Extend(s, t.nameEnd, t.uuidStart - 1, a6, s[t.nameEnd..t.uuidStart - 1]);
    var a8 := a7 + "<";
    Extend(s, t.uuidStart - 1, t.uuidStart, a7, "<");
    var a9 := a8 + s[t.uuidStart..t.uuidEnd];
    Extend(s, t.uuidStart, t.uuidEnd, a8, s[t.uuidStart..t.uuidEnd]);
    var a10 := a9 + ">";
    Extend(s, t.uuidEnd, t.uuidEnd + 1, a9, ">");
    var a11 := a10 + s[t.uuidEnd + 1..t.pathStart];
    Extend(s, t.uuidEnd + 1, t.pathStart, a10, s[t.uuidEnd + 1..t.pathStart]);
    var a12 := a11 + s[t.pathStart..t.pathEnd];
    Extend(s, t.pathStart, t.pathEnd, a11, s[t.pathStart..t.pathEnd]);
    Extend(s, t.pathEnd, t.pathEnd + 1, a12, "\n");
    PrefixCut(s, t.pathEnd + 1, |s|);
  }

  /** The line is its groups with the text between them, in order. */
  lemma GroupsConcat(s: string, g: RangeMatch, t: TailMatch, f: ImageFields)
    requires RangeShape(s, g) && TailShape(s, t) && g.nameStart <= t.nameEnd && f == Groups(s, g, t)
    ensures
      s == s[..g.lowStart] + f.low + s[g.lowEnd..g.dash] + "-" + s[g.dash + 1..g.highStart] + f.high
           + s[g.highEnd..g.nameStart] + f.name + s[t.nameEnd..t.uuidStart - 1] + "<" + f.uuid + ">"
           + s[t.uuidEnd + 1..t.pathStart] + f.path + "\n" + s[t.pathEnd + 1..]
  {
    RangeConcat(s, g);
    TailConcat(s, g.nameStart, t);
  }

  /**
    The language of the pattern with the given groups: whitespace, the low
    address, whitespace, `-`, whitespace, the high address, whitespace, the
    name, whitespace, the bracketed UUID, whitespace, the path and a line
    feed, in that order, then anything.
   */
  ghost predicate ImageLineForm(s: string, f: ImageFields) {
    exists w0, w1, w2, w3, w4, w5, rest ::
      && All(w0, IsSpace) && All(w1, IsSpace) && All(w2, IsSpace)
      && All(w3, IsSpace) && All(w4, IsSpace) && All(w5, IsSpace)
      && s == w0 + f.low + w1 + "-" + w2 + f.high + w3 + f.name + w4 + "<" + f.uuid + ">" + w5 + f.path + "\n" + rest
  }

  lemma ImageLineFormIntro(s: string, f: ImageFields, w0: string, w1: string, w2: string, w3: string,
                           w4: string, w5: string, rest: string)
    requires All(w0, IsSpace) && All(w1, IsSpace) && All(w2, IsSpace)
    requires All(w3, IsSpace) && All(w4, IsSpace) && All(w5, IsSpace)
    requires s == w0 + f.low + w1 + "-" + w2 + f.high + w3 + f.name + w4 + "<" + f.uuid + ">" + w5 + f.path + "\n" + rest
    ensures ImageLineForm(s, f)
  {
  }

  /** The text between the groups where the pattern fits is whitespace. */
  lemma GapsAreSpace(s: string, g: RangeMatch, t: TailMatch)
    requires RangeShape(s, g) && TailShape(s, t)
    ensures All(s[..g.lowStart], IsSpace) && All(s[g.lowEnd..g.dash], IsSpace)
    ensures All(s[g.dash + 1..g.highStart], IsSpace) && All(s[g.highEnd..g.nameStart], IsSpace)
    ensures All(s[t.nameEnd..t.uuidStart - 1], IsSpace) && All(s[t.uuidEnd + 1..t.pathStart], IsSpace)
  {
    assert s[..g.lowStart] == s[0..g.lowStart];
    RunSlice(s, 0, g.lowStart, IsSpace);
    RunSlice(s, g.lowEnd, g.dash, IsSpace);
    RunSlice(s, g.dash + 1, g.highStart, IsSpace);
    RunSlice(s, g.highEnd, g.nameStart, IsSpace);
    RunSlice(s, t.nameEnd, t.uuidStart - 1, IsSpace);
    RunSlice(s, t.uuidEnd + 1, t.pathStart, IsSpace);
  }

  lemma GroupsForm(s: string, g: RangeMatch, t: TailMatch)
    requires RangeShape(s, g) && TailShape(s, t) && g.nameStart <= t.nameEnd
    ensures ImageLineForm(s, Groups(s, g, t))
  {
    var f := Groups(s, g, t);
    GroupsConcat(s, g, t, f);
    GapsAreSpace(s, g, t);
    ImageLineFormIntro(s, f, s[..g.lowStart], s[g.lowEnd..g.dash], s[g.dash + 1..g.highStart],
                       s[g.highEnd..g.nameStart], s[t.nameEnd..t.uuidStart - 1], s[t.uuidEnd + 1..t.pathStart],
                       s[t.pathEnd + 1..]);
  }

  /** A match means what the pattern says: the line is in the pattern's language with the returned groups. */
  lemma MatchImageLineSound(s: string)
    requires MatchImageLine(s).Some?
    ensures ImageLineForm(s, MatchImageLine(s).value)
  {
    var g := MatchRange(s).value;
    var t := FindName(s, g.nameStart).value;
    assert MatchImageLine(s).value == Groups(s, g, t);
    GroupsForm(s, g, t);
  }

  /** With a tail fitting after the name, the tail matches at any name end from there up to the `<`. */
  lemma MatchTailAt(s: string, t: TailMatch, n: nat)
    requires TailShape(s, t) && t.nameEnd <= n <= t.uuidStart - 1
    ensures MatchTail(s, n).Some?
  {
    SpanUnique(s, n, IsSpace, t.uuidStart - 1);
    SpanUnique(s, t.uuidStart, IsUuidChar, t.uuidEnd);
    var v := t.uuidEnd + 1;
    SpanRun(s, v, IsSpace);
    assert v <= t.pathEnd < |s| && s[t.pathEnd] == '\n';
    assert MatchPath(s, v, Span(s, v, IsSpace)).Some?;
  }

  /** A tail that matches right away ends the name search. */
  lemma FindNameHere(s: string, n: nat)
    requires n <= |s| && MatchTail(s, n).Some?
    ensures FindName(s, n).Some?
  {
  }

  /** The name search moves past a character other than a line feed after a failed tail. */
  lemma FindNameStep(s: string, n: nat)
    requires n < |s| && s[n] != '\n' && FindName(s, n + 1).Some?
    ensures FindName(s, n).Some?
  {
  }

  /** The lazy name search from `n` succeeds when the tail fits at a later `ne` with no line feed before it. */
  lemma {:induction false} FindNameFrom(s: string, n: nat, ne: nat)
    requires n <= ne <= |s| && MatchTail(s, ne).Some? && AllIn(s, n, ne, NotNewline)
    ensures FindName(s, n).Some?
    decreases ne - n
  {
    if n == ne {
      FindNameHere(s, n);
    } else {
      assert NotNewline(s[n]);
      FindNameFrom(s, n + 1, ne);
      FindNameStep(s, n);
    }
  }

  /** `\s*(0x[0-9a-f]+)\s*` from `i` when whitespace runs up to a `0x` and a hex digit at `st`. */
  lemma LiteralScanRun(s: string, i: nat, st: nat)
    requires i <= st <= |s| && AllIn(s, i, st, IsSpace) && HexLiteralAt(s, st)
    ensures MatchLiteral(s, i).Some? && MatchLiteral(s, i).value.0 == st
    ensures MatchLiteral(s, i).value.1 == Span(s, st + 2, IsHexDigit)
    ensures MatchLiteral(s, i).value.2 == Span(s, MatchLiteral(s, i).value.1, IsSpace)
  {
    SpanUnique(s, i, IsSpace, st);
  }

  /** Where the low literal and the dash sit, the first literal scan finds them. */
  lemma MatchLowAt(s: string, lowStart: nat, lowEnd: nat, dash: nat)
    requires lowStart + 3 <= lowEnd <= dash < |s|
    requires AllIn(s, 0, lowStart, IsSpace) && HexLiteralAt(s, lowStart) && AllIn(s, lowStart + 2, lowEnd, IsHexDigit)
    requires AllIn(s, lowEnd, dash, IsSpace) && s[dash] == '-'
    ensures MatchLiteral(s, 0) == Some((lowStart, lowEnd, dash))
  {
    LiteralScanRun(s, 0, lowStart);
    assert !IsHexDigit(s[lowEnd]) by {
      if lowEnd < dash {
        assert IsSpace(s[lowEnd]);
      }
    }
    SpanUnique(s, lowStart + 2, IsHexDigit, lowEnd);
    SpanUnique(s, lowEnd, IsSpace, dash);
  }

  /** A hex run from `i` covering `s[i..he]` and followed by whitespace or by a stretch ending in a non-digit at `ne`. */
  lemma RunBounds(s: string, i: nat, he: nat, ns: nat, ne: nat)
    requires i <= he <= ns <= ne < |s|
    requires forall k :: i <= k < he ==> IsHexDigit(s[k])
    requires he < ns ==> IsSpace(s[he])
    requires !IsHexDigit(s[ne])
    ensures he <= Span(s, i, IsHexDigit) <= ne
    ensures Span(s, i, IsHexDigit) < ns ==> Span(s, i, IsHexDigit) == he
  {
    SpanAtLeast(s, i, IsHexDigit, he);
    if he < ns {
      SpanAtMost(s, i, IsHexDigit, he);
    } else {
      SpanAtMost(s, i, IsHexDigit, ne);
    }
  }

  /** The whitespace after the high literal's hex run ends inside the name or before the `<`. */
  lemma HighGapEnd(s: string, highEnd: nat, nameStart: nat, nameEnd: nat, lt: nat, j: nat)
    requires highEnd <= j <= nameEnd <= lt < |s| && nameStart <= nameEnd && s[lt] == '<'
    requires j < nameStart ==> j == highEnd
    requires forall k :: highEnd <= k < nameStart ==> IsSpace(s[k])
    ensures nameStart <= Span(s, j, IsSpace) <= lt
  {
    if j < nameStart {
      SpanAtLeast(s, j, IsSpace, nameStart);
    }
    SpanAtMost(s, j, IsSpace, lt);
  }

  /**
    The second literal scan starts at the high literal; its hex run may run
    on into a name that starts with hex digits, but never past the name, and
    leaves the name search a start inside the name or before the `<` at `lt`.
   */
  lemma MatchHighAt(s: string, dash: nat, highStart: nat, highEnd: nat, nameStart: nat, nameEnd: nat, lt: nat)
    requires dash + 1 <= highStart && highStart + 3 <= highEnd <= nameStart <= nameEnd <= lt < |s|
    requires AllIn(s, dash + 1, highStart, IsSpace)
    requires HexLiteralAt(s, highStart) && AllIn(s, highStart + 2, highEnd, IsHexDigit)
    requires AllIn(s, highEnd, nameStart, IsSpace) && AllIn(s, nameEnd, lt, IsSpace) && s[lt] == '<'
    ensures MatchLiteral(s, dash + 1).Some? && MatchLiteral(s, dash + 1).value.0 == highStart
    ensures nameStart <= MatchLiteral(s, dash + 1).value.2 <= lt
  {
    LiteralScanRun(s, dash + 1, highStart);
    assert !IsHexDigit(s[nameEnd]) by {
      if nameEnd < lt {
        assert IsSpace(s[nameEnd]);
      }
    }
    assert highEnd < nameStart ==> IsSpace(s[highEnd]);
    RunBounds(s, highStart + 2, highEnd, nameStart, nameEnd);
    HighGapEnd(s, highEnd, nameStart, nameEnd, lt, Span(s, highStart + 2, IsHexDigit));
  }

  /** The range part matches, and leaves the name search a start inside the name or its trailing whitespace. */
  lemma MatchRangeAt(s: string, g: RangeMatch, t: TailMatch)
    requires RangeShape(s, g) && TailShape(s, t) && g.nameStart <= t.nameEnd
    ensures MatchRange(s).Some?
    ensures g.nameStart <= MatchRange(s).value.nameStart <= t.uuidStart - 1
  {
    MatchLowAt(s, g.lowStart, g.lowEnd, g.dash);
    MatchHighAt(s, g.dash, g.highStart, g.highEnd, g.nameStart, t.nameEnd, t.uuidStart - 1);
  }

  /** The search misses nothing: whenever the pattern fits the line at some positions, the line matches. */
  lemma MatchImageLineComplete(s: string, g: RangeMatch, t: TailMatch)
    requires ImageShape(s, g, t)
    ensures MatchImageLine(s).Some?
  {
    MatchRangeAt(s, g, t);
    var k := MatchRange(s).value.nameStart;
    if k <= t.nameEnd {
      MatchTailAt(s, t, t.nameEnd);
      FindNameFrom(s, k, t.nameEnd);
    } else {
      MatchTailAt(s, t, k);
      FindNameHere(s, k);
    }
  }

  /** `imageRE` matches a line exactly when the pattern fits it at some positions. */
  lemma MatchImageLineIff(s: string)
    ensures MatchImageLine(s).Some? <==> exists g, t :: ImageShape(s, g, t)
  {
    if MatchImageLine(s).Some? {
      var g := MatchRange(s).value;
      var t := FindName(s, g.nameStart).value;
      assert ImageShape(s, g, t);
    }
    if exists g, t :: ImageShape(s, g, t) {
      var g, t :| ImageShape(s, g, t);
      MatchImageLineComplete(s, g, t);
    }
  }

  /**
    The positions the engine's first successful path takes: the pattern fits
    there, the runs before the name and the whitespace before the path are
    taken as the greedy runs take them, and the lazy name is the shortest
    after which the rest of the pattern fits.
   */
  ghost predicate EngineShape(s: string, g: RangeMatch, t: TailMatch) {
    && ImageShape(s, g, t) && RangeTaken(s, g) && PathTaken(s, t)
    && IsHexLiteral(s[g.lowStart..g.lowEnd]) && IsHexLiteral(s[g.highStart..g.highEnd])
    && forall u :: TailShape(s, u) && g.nameStart <= u.nameEnd ==> t.nameEnd <= u.nameEnd
  }

  /** The groups `imageRE` returns are those cut at the engine's positions. */
  lemma MatchImageLineTaken(s: string)
    requires MatchImageLine(s).Some?
    ensures exists g, t :: EngineShape(s, g, t) && MatchImageLine(s).value == Groups(s, g, t)
  {
    var g := MatchRange(s).value;
    var t := FindName(s, g.nameStart).value;
    FindNameTail(s, g.nameStart);
    MatchTailTaken(s, t.nameEnd);
    assert MatchImageLine(s).value == Groups(s, g, t);
    assert ImageShape(s, g, t);
    forall u | TailShape(s, u) && g.nameStart <= u.nameEnd
      ensures t.nameEnd <= u.nameEnd
    {
      if u.nameEnd < t.nameEnd {
        MatchTailAt(s, u, u.nameEnd);
      }
    }
    assert EngineShape(s, g, t);
  }

  /** A tail match takes the path as the engine does. */
  lemma MatchTailTaken(s: string, n: nat)
    requires n <= |s| && MatchTail(s, n).Some?
    ensures PathTaken(s, MatchTail(s, n).value)
  {
    var m := Span(s, n, IsSpace);
    var u := Span(s, m + 1, IsUuidChar);
    SpanRun(s, u + 1, IsSpace);
    MatchPathTaken(s, u + 1, Span(s, u + 1, IsSpace));
  }

  /** The tail the name search returns is the tail match at its name end. */
  lemma {:induction false} FindNameTail(s: string, n: nat)
    requires n <= |s| && FindName(s, n).Some?
    ensures MatchTail(s, FindName(s, n).value.nameEnd) == Some(FindName(s, n).value)
    decreases |s| - n
  {
    if MatchTail(s, n).None? {
      FindNameTail(s, n + 1);
    }
  }

  /** Two range matches with the runs taken whole are the same. */
  lemma RangeTakenUnique(s: string, g: RangeMatch, h: RangeMatch)
    requires RangeShape(s, g) && RangeTaken(s, g) && RangeShape(s, h) && RangeTaken(s, h)
    ensures g == h
  {
    RangeStarts(s, g);
    RangeStarts(s, h);
  }

  /** The literals and the dash of a range match sit where the whitespace runs before them end. */
  lemma RangeStarts(s: string, g: RangeMatch)
    requires RangeShape(s, g)
    ensures g.lowStart == Span(s, 0, IsSpace) && g.dash == Span(s, g.lowEnd, IsSpace)
    ensures g.highStart == Span(s, g.dash + 1, IsSpace)
  {
    SpanUnique(s, 0, IsSpace, g.lowStart);
    SpanUnique(s, g.lowEnd, IsSpace, g.dash);
    SpanUnique(s, g.dash + 1, IsSpace, g.highStart);
  }

  /** Two tail matches for the same name end, with the path taken as the engine takes it, are the same. */
  lemma TailTakenUnique(s: string, t: TailMatch, u: TailMatch)
    requires TailShape(s, t) && PathTaken(s, t) && TailShape(s, u) && PathTaken(s, u) && t.nameEnd == u.nameEnd
    ensures t == u
  {
    SpanUnique(s, t.nameEnd, IsSpace, t.uuidStart - 1);
    SpanUnique(s, u.nameEnd, IsSpace, u.uuidStart - 1);
    SpanUnique(s, t.uuidStart, IsUuidChar, t.uuidEnd);
    SpanUnique(s, u.uuidStart, IsUuidChar, u.uuidEnd);
    var v := t.uuidEnd + 1;
    SpanAtLeast(s, v, IsSpace, t.pathStart);
    SpanAtLeast(s, v, IsSpace, u.pathStart);
    SpanUnique(s, t.pathStart, NotNewline, t.pathEnd);
    SpanUnique(s, u.pathStart, NotNewline, u.pathEnd);
  }

  /** The engine's positions are determined by the line. */
  lemma EngineShapeUnique(s: string, g: RangeMatch, t: TailMatch, h: RangeMatch, u: TailMatch)
    requires EngineShape(s, g, t) && EngineShape(s, h, u)
    ensures g == h && t == u
  {
    RangeTakenUnique(s, g, h);
    assert t.nameEnd <= u.nameEnd && u.nameEnd <= t.nameEnd;
    TailTakenUnique(s, t, u);
  }
}
