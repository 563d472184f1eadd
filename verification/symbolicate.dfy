/**
  The script end to end: find the `Binary Images:` header, read the image
  table after it, group the backtrace addresses by image, resolve each image's
  addresses, and write every line back, rewriting the backtrace lines whose
  address got a symbol. Input is the list of lines read (none empty; every
  line but possibly the last ends with its line feed), output the list of
  lines written, or the fatal exit.
 */
module Symbolicate {
  import opened Wrappers
  import opened Chars
  import opened Hex
  import opened Backtrace
  import opened ImageTable
  import opened Grouping
  import opened Resolution

  const ImagesHeader: string := "Binary Images:"

  /** What the script writes to standard error before `sys.exit(1)`. */
  const MissingImagesMessage: string := "Cannot find Binary Images:. Maybe this isn't a crash file?\n"

  /** `re.match(r'Binary Images:', line)`: the pattern is literal, so this is a prefix test. */
  predicate IsImagesHeader(line: string) {
    StartsWith(line, ImagesHeader)
  }

  /** The scan of `seek` from line `i` (0-based) on, counting lines from one. */
  function SeekFrom(lines: seq<string>, p: string -> bool, i: nat): (r: Option<nat>)
    requires i <= |lines|
    ensures r.Some? ==> i < r.value <= |lines| && p(lines[r.value - 1])
    decreases |lines| - i
  {
    if i == |lines| then None
    else if p(lines[i]) then Some(i + 1)
    else SeekFrom(lines, p, i + 1)
  }

  /** `seek(pattern)`: the 1-based number of the first line the pattern matches at its start. */
  function Seek(lines: seq<string>, p: string -> bool): (r: Option<nat>)
    ensures r.Some? ==> 1 <= r.value <= |lines| && p(lines[r.value - 1])
  {
    SeekFrom(lines, p, 0)
  }

  /** The scan from `i` finds the first accepted line at or after `i`, and nothing when there is none. */
  lemma {:induction false} SeekFromFirst(lines: seq<string>, p: string -> bool, i: nat)
    requires i <= |lines|
    ensures SeekFrom(lines, p, i).Some? ==> forall j :: i <= j < SeekFrom(lines, p, i).value - 1 ==> !p(lines[j])
    ensures SeekFrom(lines, p, i).None? <==> forall j :: i <= j < |lines| ==> !p(lines[j])
    decreases |lines| - i
  {
    if i < |lines| && !p(lines[i]) {
      SeekFromFirst(lines, p, i + 1);
    }
  }

  /**
    `seek` returns `n` exactly when line `n` is the first the pattern accepts,
    and `None` exactly when it accepts no line.
   */
  lemma SeekFirst(lines: seq<string>, p: string -> bool)
    ensures Seek(lines, p).Some? ==> forall j :: 0 <= j < Seek(lines, p).value - 1 ==> !p(lines[j])
    ensures Seek(lines, p).None? <==> forall j :: 0 <= j < |lines| ==> !p(lines[j])
  {
    SeekFromFirst(lines, p, 0);
  }

  /** The rewrite loop's body: a backtrace line whose address has a symbol, or the line unchanged. */
  function RewriteLine(line: string, table: Table): string {
    match MatchFrame(line)
    case None => line
    case Some(f) =>
      var a := ParseHexLiteral(f.addr);
      if a in table then f.prefix + FormatHex(a) + " " + table[a] + "\n" else line
  }

  /**
    A line changes only when it is a backtrace line whose address has a
    symbol; then it is the prefix group, the address written back in `%x`
    form (which reads back as the same address), a space, the symbol and a
    line feed, and the old suffix is gone.
   */
  lemma RewriteLineSpec(line: string, table: Table)
    ensures RewriteLine(line, table) != line ==> FrameAddress(line).Some? && FrameAddress(line).value in table
    ensures FrameAddress(line).Some? && FrameAddress(line).value in table ==>
      && var a := FrameAddress(line).value;
      && RewriteLine(line, table) == MatchFrame(line).value.prefix + FormatHex(a) + " " + table[a] + "\n"
      && ParseHexLiteral(FormatHex(a)) == a
  {
    if FrameAddress(line).Some? {
      ParseFormat(FrameAddress(line).value);
    }
  }

  /**
    A rewritten line is still a backtrace line: with a symbol free of line
    feeds, `btRE` matches what the rewrite wrote.
   */
  lemma RewrittenStillMatches(line: string, table: Table)
    requires FrameAddress(line).Some? && FrameAddress(line).value in table
    requires NoNewline(table[FrameAddress(line).value])
    ensures MatchFrame(RewriteLine(line, table)).Some?
  {
    var f := MatchFrame(line).value;
    var a := FrameAddress(line).value;
    var sym := table[a];
    MatchFrameSound(line);
    var r := RewriteLine(line, table);
    assert r == f.prefix + FormatHex(a) + [' '] + sym + "\n" + "";
    MatchFrameComplete(r, f.prefix, FormatHex(a), ' ', sym, "");
  }

  /**
    What the rewrite writes for a line `btRE` matches on its first try: the
    search stops at the same cuts, and the groups are the old prefix, the
    address in `%x` form and the symbol.
   */
  lemma RewrittenGreedy(line: string, table: Table, p: nat, a: nat)
    requires IsGreedyFrame(line) && p == GreedyCuts(line).p
    requires FrameAddress(line) == Some(a) && a in table && NoNewline(table[a])
    ensures IsGreedyFrame(RewriteLine(line, table)) && GreedyCuts(RewriteLine(line, table)) == GreedyCuts(line)
    ensures MatchFrame(RewriteLine(line, table)) == Some(FrameFields(line[..p], FormatHex(a), table[a]))
  {
    GreedyFindAddress(line);
    var r := RewriteLine(line, table);
    assert MatchFrame(line).value.prefix == line[..p];
    assert r == line[..p] + FormatHex(a) + [' '] + table[a] + "\n";
    FrameAtWritten(r, line[..p], FormatHex(a), table[a]);
    assert forall i :: 0 <= i < p ==> r[i] == line[i];
    GreedyCutsAgree(line, r);
    GreedyFindAddress(r);
  }

  /**
    A line `btRE` matches on its first try is rewritten once and for all:
    rewriting the rewritten line changes nothing, whatever the symbol holds
    apart from line feeds. Lines `btRE` rejects pass through both times.
   */
  lemma RewriteGreedyIdempotent(line: string, table: Table)
    requires MatchFrame(line).Some? ==> IsGreedyFrame(line)
    requires forall a :: a in table ==> NoNewline(table[a])
    ensures RewriteLine(RewriteLine(line, table), table) == RewriteLine(line, table)
  {
    if FrameAddress(line).Some? && FrameAddress(line).value in table {
      var a := FrameAddress(line).value;
      var p := GreedyCuts(line).p;
      RewrittenGreedy(line, table, p, a);
      ParseFormat(a);
      GreedyFindAddress(line);
      var r := RewriteLine(line, table);
      assert r == line[..p] + FormatHex(a) + " " + table[a] + "\n";
      assert FrameAddress(r) == Some(a);
    }
  }

  /**
    On `0 a0x1 b` the runs taken whole leave `b` where the address should
    start, so the engine shortens the library token `a0x1` down to `a`.
   */
  lemma SampleFirstSearch(s: string)
    requires s == "0 a0x1 b\n"
    ensures FindAddress(s) == Some(Cuts(1, 2, 3, 3))
  {
    SpanUnique(s, 0, IsDigit, 1);
    SpanUnique(s, 1, IsSpace, 2);
    SpanUnique(s, 2, IsWordOrDot, 6);
    SpanUnique(s, 6, IsSpace, 7);
    SpanUnique(s, 5, IsHexDigit, 6);
    SpanUnique(s, 7, NotNewline, 8);
    assert TryTrailingSpace(s, 1, 2, 6, 7) == None;
    assert TryToken(s, 1, 2, 3) == Some(Cuts(1, 2, 3, 3));
    assert TryToken(s, 1, 2, 4) == Some(Cuts(1, 2, 3, 3));
    assert TryToken(s, 1, 2, 5) == Some(Cuts(1, 2, 3, 3));
  }

  /** The groups of that first match: prefix `0 a`, address `0x1`, suffix `b`. */
  lemma SampleFirstPass(s: string)
    requires s == "0 a0x1 b\n"
    ensures MatchFrame(s) == Some(FrameFields("0 a", "0x1", "b"))
    ensures FrameAddress(s) == Some(1)
  {
    SampleFirstSearch(s);
    SampleTexts();
    SampleLiterals();
    FrameAtWritten(s, "0 a", "0x1", "b");
  }

  /** On `0 a0x1 0x2 b` the runs taken whole work: the token is `a0x1` and the address `0x2`. */
  lemma SampleSecondPass(s: string)
    requires s == "0 a0x1 0x2 b\n"
    ensures MatchFrame(s) == Some(FrameFields("0 a0x1 ", "0x2", "b"))
    ensures FrameAddress(s) == Some(2)
  {
    SpanUnique(s, 0, IsDigit, 1);
    SpanUnique(s, 1, IsSpace, 2);
    SpanUnique(s, 2, IsWordOrDot, 6);
    SpanUnique(s, 6, IsSpace, 7);
    SampleTexts();
    SampleLiterals();
    FrameAtWritten(s, "0 a0x1 ", "0x2", "b");
    assert GreedyCuts(s) == Cuts(1, 2, 6, 7);
    GreedyFindAddress(s);
  }

  /** The sample addresses are hex literals with the values 1 and 2, and the sample suffix holds no line feed. */
  lemma SampleLiterals()
    ensures IsHexLiteral("0x1") && ParseHexLiteral("0x1") == 1
    ensures IsHexLiteral("0x2") && ParseHexLiteral("0x2") == 2
    ensures NoNewline("b")
  {
  }

  /** `"0x%x"` writes the two sample addresses back as they were read. */
  lemma SampleFormats()
    ensures FormatHex(1) == "0x1" && FormatHex(2) == "0x2"
  {
    SampleLiterals();
    FormatParse("0x1");
    FormatParse("0x2");
  }

  /** The two sample lines the rewrite writes, spelled out. */
  lemma SampleTexts()
    ensures "0 a" + "0x1" + [' '] + "b" + "\n" == "0 a0x1 b\n"
    ensures "0 a0x1 " + "0x2" + [' '] + "b" + "\n" == "0 a0x1 0x2 b\n"
    ensures "0 a" + "0x1" + " " + "0x2 b" + "\n" == "0 a0x1 0x2 b\n"
    ensures "0 a0x1 " + "0x2" + " " + "c" + "\n" == "0 a0x1 0x2 c\n"
  {
  }

  /**
    Rewriting is not idempotent when no whitespace separates the library
    token from the address: on the second pass the token absorbs the address
    written back, a hex literal in the symbol becomes the address, and the
    line changes again.
   */
  lemma RewriteTwiceDiffers(line: string, table: Table)
    requires line == "0 a0x1 b\n" && table == map[1 := "0x2 b", 2 := "c"]
    ensures RewriteLine(line, table) == "0 a0x1 0x2 b\n"
    ensures RewriteLine(RewriteLine(line, table), table) == "0 a0x1 0x2 c\n"
  {
    SampleRewriteFirst(line, table);
    SampleRewriteSecond("0 a0x1 0x2 b\n", table);
  }

  /** The first rewrite of the sample: address 1 gets the symbol `0x2 b`. */
  lemma SampleRewriteFirst(line: string, table: Table)
    requires line == "0 a0x1 b\n" && table == map[1 := "0x2 b", 2 := "c"]
    ensures RewriteLine(line, table) == "0 a0x1 0x2 b\n"
  {
    SampleFormats();
    SampleTexts();
    SampleFirstPass(line);
    assert RewriteLine(line, table) == "0 a" + FormatHex(1) + " " + "0x2 b" + "\n";
  }

  /** The second rewrite: the address is now 2, which gets the symbol `c`. */
  lemma SampleRewriteSecond(r: string, table: Table)
    requires r == "0 a0x1 0x2 b\n" && table == map[1 := "0x2 b", 2 := "c"]
    ensures RewriteLine(r, table) == "0 a0x1 0x2 c\n"
  {
    SampleFormats();
    SampleTexts();
    SampleSecondPass(r);
    assert RewriteLine(r, table) == "0 a0x1 " + FormatHex(2) + " " + "c" + "\n";
  }

  /** `k` lists every key of the dictionary once: the order `dict.items()` may visit them in. */
  predicate IsVisitOrder(order: seq<nat>, groups: Lists) {
    && (forall t, u :: 0 <= t < u < |order| ==> order[t] != order[u])
    && (forall k :: k in groups ==> k in order)
    && (forall t :: 0 <= t < |order| ==> order[t] in groups)
  }

  /** The entries visited, in visit order; positions that are not keys are passed over. */
  function Items(groups: Lists, images: seq<BinaryImage>, order: seq<nat>): (r: seq<Item>)
    ensures forall t :: 0 <= t < |r| ==>
      (r[t].key in groups && r[t].key < |images| && r[t].image == images[r[t].key] && r[t].addrs == groups[r[t].key])
    decreases |order|
  {
    if |order| == 0 then []
    else
      var k := order[0];
      var rest := Items(groups, images, order[1..]);
      if k in groups && k < |images| then [Item(k, images[k], groups[k])] + rest else rest
  }

  /** When every position visited is a key, the loop visits exactly those entries, in that order. */
  lemma {:induction false} ItemsInOrder(groups: Lists, images: seq<BinaryImage>, order: seq<nat>)
    requires forall t :: 0 <= t < |order| ==> order[t] in groups && order[t] < |images|
    ensures |Items(groups, images, order)| == |order|
    ensures forall t :: 0 <= t < |order| ==> Items(groups, images, order)[t].key == order[t]
    decreases |order|
  {
    if |order| > 0 {
      ItemsInOrder(groups, images, order[1..]);
    }
  }

  /**
    In an order `dict.items()` may produce, the resolution loop visits every
    image that collected addresses exactly once, in that order, each with its
    whole list (the entries are keys' images and lists by `Items`' contract).
   */
  lemma VisitsEachImage(images: seq<BinaryImage>, lines: seq<string>, order: seq<nat>)
    requires IsVisitOrder(order, GroupLines(images, lines))
    ensures var items := Items(GroupLines(images, lines), images, order);
      && |items| == |order|
      && (forall t :: 0 <= t < |items| ==> items[t].key == order[t])
      && (forall k :: k in GroupLines(images, lines) ==> exists t :: 0 <= t < |items| && items[t].key == k)
      && (forall t, u :: 0 <= t < u < |items| ==> items[t].key != items[u].key)
  {
    var groups := GroupLines(images, lines);
    GroupLinesSpec(images, lines);
    ItemsInOrder(groups, images, order);
    var items := Items(groups, images, order);
    forall k | k in groups ensures exists t :: 0 <= t < |items| && items[t].key == k {
      var t :| 0 <= t < |order| && order[t] == k;
      assert items[t].key == k;
    }
  }

  /** The result of a run: the fatal exit, or the lines written and the images warned about. */
  datatype Report = Fatal(status: int, message: string) | Output(lines: seq<string>, warnings: seq<nat>)

  /** The image table after the header at line `loc` (1-based, so the table starts at index `loc`). */
  function ImagesAfter(lines: seq<string>, loc: nat): seq<BinaryImage>
    requires loc <= |lines|
  {
    ParseImageTable(lines[loc..])
  }

  /** The resolution pass over the images of the table after line `loc`, visited in `order`. */
  function Resolve(lines: seq<string>, loc: nat, resolve: Resolver, order: seq<nat>): BatchState
    requires loc <= |lines|
    requires IsVisitOrder(order, GroupLines(ImagesAfter(lines, loc), lines))
  {
    var images := ImagesAfter(lines, loc);
    Batch(BatchState(map[], []), resolve, Items(GroupLines(images, lines), images, order))
  }

  /** `order` is one `dict.items()` may yield in the run: once the header is found, every key of the grouping once. */
  predicate IsRunOrder(lines: seq<string>, order: seq<nat>) {
    Seek(lines, IsImagesHeader).Some? ==>
      IsVisitOrder(order, GroupLines(ImagesAfter(lines, Seek(lines, IsImagesHeader).value), lines))
  }

  /**
    The whole script on the lines read, with `resolve` standing for `atos`
    and `order` for the order `dict.items()` yields the images in.
   */
  function Run(lines: seq<string>, resolve: Resolver, order: seq<nat>): (r: Report)
    requires IsRunOrder(lines, order)
    ensures r.Fatal? <==> Seek(lines, IsImagesHeader).None?
    ensures r.Fatal? ==> r.status == 1 && r.message == MissingImagesMessage
    ensures r.Output? ==> |r.lines| == |lines|
  {
    match Seek(lines, IsImagesHeader)
    case None => Fatal(1, MissingImagesMessage)
    case Some(loc) =>
      var st := Resolve(lines, loc, resolve, order);
      Output(seq(|lines|, j requires 0 <= j < |lines| => RewriteLine(lines[j], st.table)), st.failed)
  }

  /**
    Without a `Binary Images:` line the run is the fatal exit with status 1
    and nothing written; otherwise line `j` written is line `j` read, passed
    through the rewrite.
   */
  lemma RunSpec(lines: seq<string>, resolve: Resolver, order: seq<nat>)
    requires IsRunOrder(lines, order)
    ensures Run(lines, resolve, order).Fatal? <==> forall j :: 0 <= j < |lines| ==> !IsImagesHeader(lines[j])
    ensures Run(lines, resolve, order).Output? ==>
      && var loc := Seek(lines, IsImagesHeader).value;
      && var st := Resolve(lines, loc, resolve, order);
      && Run(lines, resolve, order).warnings == st.failed
      && forall j :: 0 <= j < |lines| ==> Run(lines, resolve, order).lines[j] == RewriteLine(lines[j], st.table)
  {
    SeekFirst(lines, IsImagesHeader);
  }

  /** Every symbol in the table came from a line of `atos` output. */
  lemma ResolveNoNewline(lines: seq<string>, loc: nat, resolve: Resolver, order: seq<nat>)
    requires loc <= |lines| && IsVisitOrder(order, GroupLines(ImagesAfter(lines, loc), lines))
    ensures forall a :: a in Resolve(lines, loc, resolve, order).table ==> NoNewline(Resolve(lines, loc, resolve, order).table[a])
  {
    var images := ImagesAfter(lines, loc);
    BatchSymbolsNoNewline(BatchState(map[], []), resolve, Items(GroupLines(images, lines), images, order));
  }

  /** Only an address inside some image's range gets a symbol. */
  lemma TableInRange(images: seq<BinaryImage>, lines: seq<string>, resolve: Resolver, order: seq<nat>, a: nat)
    requires a in Batch(BatchState(map[], []), resolve, Items(GroupLines(images, lines), images, order)).table
    ensures exists k :: 0 <= k < |images| && Matches(images[k], a)
  {
    var items := Items(GroupLines(images, lines), images, order);
    BatchKeys(BatchState(map[], []), resolve, items, a);
    var t :| 0 <= t < |items| && a in Written(resolve, items[t]);
    assert a in items[t].addrs;
    GroupCount(images, lines, items[t].key, a);
  }

  /** The same for the table the run builds. */
  lemma ResolvedInRange(lines: seq<string>, loc: nat, resolve: Resolver, order: seq<nat>, a: nat)
    requires loc <= |lines| && IsVisitOrder(order, GroupLines(ImagesAfter(lines, loc), lines))
    requires a in Resolve(lines, loc, resolve, order).table
    ensures exists k :: 0 <= k < |ImagesAfter(lines, loc)| && Matches(ImagesAfter(lines, loc)[k], a)
  {
    TableInRange(ImagesAfter(lines, loc), lines, resolve, order, a);
  }

  /**
    Every line written is the line read, except backtrace lines whose address
    lies in some image's range and got a symbol; each of those is still a
    backtrace line after the rewrite.
   */
  lemma RunLines(lines: seq<string>, resolve: Resolver, order: seq<nat>, j: nat)
    requires IsRunOrder(lines, order) && Run(lines, resolve, order).Output? && j < |lines|
    ensures Run(lines, resolve, order).lines[j] != lines[j] ==>
      && FrameAddress(lines[j]).Some?
      && (exists k :: 0 <= k < |ImagesAfter(lines, Seek(lines, IsImagesHeader).value)| &&
            Matches(ImagesAfter(lines, Seek(lines, IsImagesHeader).value)[k], FrameAddress(lines[j]).value))
      && MatchFrame(Run(lines, resolve, order).lines[j]).Some?
  {
    var loc := Seek(lines, IsImagesHeader).value;
    var st := Resolve(lines, loc, resolve, order);
    RunSpec(lines, resolve, order);
    RewriteLineSpec(lines[j], st.table);
    if Run(lines, resolve, order).lines[j] != lines[j] {
      var a := FrameAddress(lines[j]).value;
      ResolvedInRange(lines, loc, resolve, order, a);
      ResolveNoNewline(lines, loc, resolve, order);
      RewrittenStillMatches(lines[j], st.table);
    }
  }

  /**
    The run warns about image `k` exactly when it collected addresses and its
    `atos` call raised or wrote fewer lines than it was given addresses.
   */
  lemma RunWarnings(lines: seq<string>, resolve: Resolver, order: seq<nat>, loc: nat,
                    images: seq<BinaryImage>, groups: Lists, k: nat)
    requires Seek(lines, IsImagesHeader) == Some(loc) && IsRunOrder(lines, order)
    requires images == ImagesAfter(lines, loc) && groups == GroupLines(images, lines)
    ensures k in Run(lines, resolve, order).warnings <==>
      k in groups && k < |images| && Fails(resolve, Item(k, images[k], groups[k]))
  {
    var items := Items(groups, images, order);
    RunSpec(lines, resolve, order);
    VisitsEachImage(images, lines, order);
    BatchFailed(BatchState(map[], []), resolve, items, k);
    FailedItem(items, groups, images, resolve, k);
  }

  /** Among entries that each carry their key's image and list, and visit every key, key `k` fails exactly when its own entry does. */
  lemma FailedItem(items: seq<Item>, groups: Lists, images: seq<BinaryImage>, resolve: Resolver, k: nat)
    requires forall t :: 0 <= t < |items| ==>
      (items[t].key in groups && items[t].key < |images| && items[t].image == images[items[t].key] && items[t].addrs == groups[items[t].key])
    requires k in groups ==> exists t :: 0 <= t < |items| && items[t].key == k
    ensures (exists t :: 0 <= t < |items| && items[t].key == k && Fails(resolve, items[t])) <==>
      k in groups && k < |images| && Fails(resolve, Item(k, images[k], groups[k]))
  {
    if k in groups {
      var t :| 0 <= t < |items| && items[t].key == k;
      assert items[t] == Item(k, images[k], groups[k]);
    }
  }

  /**
    Address `i` of the list of image `k`, visited `t`-th, gets the line `atos`
    wrote at position `i` when the zip reached it, the address does not recur
    later in the part of the list reached, and no image visited later holds it
    in its range.
   */
  lemma RunResolved(lines: seq<string>, resolve: Resolver, order: seq<nat>, loc: nat,
                    images: seq<BinaryImage>, groups: Lists, t: nat, k: nat, syms: seq<string>, i: nat)
    requires Seek(lines, IsImagesHeader) == Some(loc)
    requires images == ImagesAfter(lines, loc) && groups == GroupLines(images, lines)
    requires IsVisitOrder(order, groups)
    requires k in groups && k < |images| && t < |order| && order[t] == k
    requires Symbols(resolve, images[k], groups[k]) == Some(syms) && i < Reach(groups[k], syms)
    requires forall j :: i < j < Reach(groups[k], syms) ==> groups[k][j] != groups[k][i]
    requires forall u :: t < u < |order| && order[u] < |images| ==> !Matches(images[order[u]], groups[k][i])
    ensures groups[k][i] in Resolve(lines, loc, resolve, order).table
    ensures Resolve(lines, loc, resolve, order).table[groups[k][i]] == syms[i]
  {
    var items := Items(groups, images, order);
    VisitsEachImage(images, lines, order);
    assert items[t] == Item(k, images[k], groups[k]);
    var a := groups[k][i];
    forall u | t < u < |items|
      ensures a !in Written(resolve, items[u])
    {
      var key := items[u].key;
      if a in Written(resolve, items[u]) {
        assert a in groups[key];
        GroupCount(images, lines, key, a);
        assert false;
      }
    }
    BatchLast(BatchState(map[], []), resolve, items, t, syms, i);
  }

  /**
    The same seen in the output: a backtrace line carrying that address is
    written as its prefix group, the address in `%x` form, a space and that
    line of `atos` output.
   */
  lemma RunResolvedLine(lines: seq<string>, resolve: Resolver, order: seq<nat>, loc: nat,
                        images: seq<BinaryImage>, groups: Lists, t: nat, k: nat, syms: seq<string>, i: nat, j: nat)
    requires Seek(lines, IsImagesHeader) == Some(loc)
    requires images == ImagesAfter(lines, loc) && groups == GroupLines(images, lines)
    requires IsVisitOrder(order, groups)
    requires k in groups && k < |images| && t < |order| && order[t] == k
    requires Symbols(resolve, images[k], groups[k]) == Some(syms) && i < Reach(groups[k], syms)
    requires forall j :: i < j < Reach(groups[k], syms) ==> groups[k][j] != groups[k][i]
    requires forall u :: t < u < |order| && order[u] < |images| ==> !Matches(images[order[u]], groups[k][i])
    requires j < |lines| && FrameAddress(lines[j]) == Some(groups[k][i])
    ensures Run(lines, resolve, order).Output?
    ensures Run(lines, resolve, order).lines[j] ==
      MatchFrame(lines[j]).value.prefix + FormatHex(groups[k][i]) + " " + syms[i] + "\n"
  {
    RunResolved(lines, resolve, order, loc, images, groups, t, k, syms, i);
    RunSpec(lines, resolve, order);
    RewriteLineSpec(lines[j], Resolve(lines, loc, resolve, order).table);
  }
}
