/**
  Address resolution: the `atos` command line an image is resolved with, the
  split of its output into lines, the index-wise zip of addresses with those
  lines, and the loop over the images that collected addresses. The
  subprocess itself is a parameter: a function from the argument vector to
  the captured output, or `None` when `check_output` raises.
 */
module Resolution {
  import opened Wrappers
  import opened Chars
  import opened Hex
  import opened ImageTable

  /** `subprocess.check_output(args)`: standard output, or `None` when the call raises. */
  type Resolver = seq<string> -> Option<string>

  /** `addrToSymbol`: address to the symbol text that replaces its line's suffix. */
  type Table = map<nat, string>

  /** The command words before the image's path. */
  const AtosCommand: seq<string> := ["/usr/bin/xcrun", "atos", "-o"]

  /** The arguments `BinaryImage.symbolicate` passes: tool, image, load address, then each address in order. */
  function AtosArgs(img: BinaryImage, addrs: seq<nat>): (r: seq<string>)
    ensures |r| == 8 + |addrs|
  {
    AtosCommand + [img.path, "-arch", img.arch, "-l", FormatHex(img.lowAddr)]
      + seq(|addrs|, i requires 0 <= i < |addrs| => FormatHex(addrs[i]))
  }

  /**
    The command line carries the image's path, architecture and load address
    and, from position 8 on, every address in order, each written so that
    `int(..., 16)` reads it back.
   */
  lemma AtosArgsRecover(img: BinaryImage, addrs: seq<nat>)
    ensures AtosArgs(img, addrs)[..3] == AtosCommand
    ensures AtosArgs(img, addrs)[3] == img.path && AtosArgs(img, addrs)[4] == "-arch"
    ensures AtosArgs(img, addrs)[5] == img.arch && AtosArgs(img, addrs)[6] == "-l"
    ensures IsHexLiteral(AtosArgs(img, addrs)[7]) && ParseHexLiteral(AtosArgs(img, addrs)[7]) == img.lowAddr
    ensures forall i :: 0 <= i < |addrs| ==>
      IsHexLiteral(AtosArgs(img, addrs)[8 + i]) && ParseHexLiteral(AtosArgs(img, addrs)[8 + i]) == addrs[i]
  {
    var r := AtosArgs(img, addrs);
    ParseFormat(img.lowAddr);
    forall i | 0 <= i < |addrs|
      ensures IsHexLiteral(r[8 + i]) && ParseHexLiteral(r[8 + i]) == addrs[i]
    {
      ParseFormat(addrs[i]);
    }
  }

  /** `result.split("\n")`: the pieces between line feeds, at least one, empty ones kept. */
  function Split(s: string): (r: seq<string>)
    ensures |r| >= 1
    decreases |s|
  {
    if |s| == 0 then [""]
    else
      var rest := Split(s[1..]);
      if s[0] == '\n' then [""] + rest else [[s[0]] + rest[0]] + rest[1..]
  }

  /** `"\n".join(parts)`, the inverse of the split. */
  function Join(parts: seq<string>): string
    requires |parts| >= 1
    decreases |parts|
  {
    if |parts| == 1 then parts[0] else parts[0] + "\n" + Join(parts[1..])
  }

  /** Joining the pieces gives the output back. */
  lemma {:induction false} JoinSplit(s: string)
    ensures Join(Split(s)) == s
    decreases |s|
  {
    if |s| > 0 {
      JoinSplit(s[1..]);
      var rest := Split(s[1..]);
      if s[0] == '\n' {
        assert s == "\n" + s[1..];
      } else if |rest| == 1 {
        assert s == [s[0]] + s[1..];
      } else {
        assert Join(rest) == rest[0] + "\n" + Join(rest[1..]);
        assert s == [s[0]] + s[1..];
      }
    }
  }

  /** No piece holds a line feed, so a symbol never spans lines. */
  lemma {:induction false} SplitPieces(s: string)
    ensures forall i :: 0 <= i < |Split(s)| ==> NoNewline(Split(s)[i])
    decreases |s|
  {
    if |s| > 0 {
      SplitPieces(s[1..]);
      var rest := Split(s[1..]);
      if s[0] != '\n' {
        assert forall k :: 0 < k < |[s[0]] + rest[0]| ==> ([s[0]] + rest[0])[k] == rest[0][k - 1];
      }
    }
  }

  /** A character other than a line feed joins the first piece. */
  lemma SplitCons(c: char, t: string)
    requires c != '\n'
    ensures Split([c] + t) == [[c] + Split(t)[0]] + Split(t)[1..]
  {
    assert ([c] + t)[0] == c && ([c] + t)[1..] == t;
  }

  /** A line feed in front starts with an empty piece. */
  lemma SplitNewline(t: string)
    ensures Split("\n" + t) == [""] + Split(t)
  {
    assert ("\n" + t)[0] == '\n' && ("\n" + t)[1..] == t;
  }

  /** Moving the first character of the first piece out of the join. */
  lemma JoinCons(parts: seq<string>)
    requires |parts| >= 1 && |parts[0]| > 0
    ensures Join(parts) == [parts[0][0]] + Join([parts[0][1..]] + parts[1..])
  {
    var p := parts[0];
    var parts' := [p[1..]] + parts[1..];
    assert p == [p[0]] + p[1..];
    if |parts| > 1 {
      assert parts'[1..] == parts[1..];
      assert Join(parts') == p[1..] + "\n" + Join(parts[1..]);
    }
  }

  /** Splitting joined pieces without line feeds gives the pieces back. */
  lemma {:induction false} SplitJoin(parts: seq<string>)
    requires |parts| >= 1 && forall i :: 0 <= i < |parts| ==> NoNewline(parts[i])
    ensures Split(Join(parts)) == parts
    decreases |parts|, |parts[0]|
  {
    var p := parts[0];
    if |p| > 0 {
      var parts' := [p[1..]] + parts[1..];
      assert NoNewline(p[1..]);
      assert forall i :: 1 <= i < |parts'| ==> parts'[i] == parts[i];
      SplitJoin(parts');
      JoinCons(parts);
      assert NotNewline(p[0]);
      SplitCons(p[0], Join(parts'));
      assert [p[0]] + p[1..] == p;
      assert parts'[1..] == parts[1..];
      assert parts == [p] + parts[1..];
    } else if |parts| > 1 {
      assert forall i :: 0 <= i < |parts[1..]| ==> parts[1..][i] == parts[i + 1];
      SplitJoin(parts[1..]);
      assert Join(parts) == "\n" + Join(parts[1..]);
      SplitNewline(Join(parts[1..]));
      assert parts == [""] + parts[1..];
    }
  }

  /** `image.symbolicate(addresses)`: the lines `atos` wrote, or `None` when the call raised. */
  function Symbols(resolve: Resolver, img: BinaryImage, addrs: seq<nat>): Option<seq<string>> {
    match resolve(AtosArgs(img, addrs))
    case None => None
    case Some(out) => Some(Split(out))
  }

  /** `min(|addrs|, |symbols|)`: how far the zip gets before `symbols[i]` raises. */
  function Reach(addrs: seq<nat>, symbols: seq<string>): (n: nat)
    ensures n <= |addrs| && n <= |symbols|
    ensures n == |addrs| || n == |symbols|
  {
    if |addrs| <= |symbols| then |addrs| else |symbols|
  }

  /**
    `for addr in addresses: addrToSymbol[addr] = symbols[i]`: the table after
    the loop and whether it finished, `false` when `symbols[i]` raised.
   */
  function Zip(m: Table, addrs: seq<nat>, symbols: seq<string>): (r: (Table, bool))
    decreases |addrs|
  {
    if |addrs| == 0 then (m, true)
    else if |symbols| == 0 then (m, false)
    else Zip(m[addrs[0] := symbols[0]], addrs[1..], symbols[1..])
  }

  /**
    The zip finishes exactly when there are enough lines; it writes the
    addresses it reached and leaves every other key of the table as it was.
   */
  lemma {:induction false} ZipKeys(m: Table, addrs: seq<nat>, symbols: seq<string>, a: nat)
    ensures Zip(m, addrs, symbols).1 <==> |addrs| <= |symbols|
    ensures a in Zip(m, addrs, symbols).0 <==> a in m || a in addrs[..Reach(addrs, symbols)]
    ensures a in m && a !in addrs[..Reach(addrs, symbols)] ==> Zip(m, addrs, symbols).0[a] == m[a]
    decreases |addrs|
  {
    if |addrs| > 0 && |symbols| > 0 {
      ZipKeys(m[addrs[0] := symbols[0]], addrs[1..], symbols[1..], a);
      assert addrs[..Reach(addrs, symbols)] == [addrs[0]] + addrs[1..][..Reach(addrs[1..], symbols[1..])];
    }
  }

  /** An address the zip reached gets the line at its last position among those reached. */
  lemma {:induction false} ZipLast(m: Table, addrs: seq<nat>, symbols: seq<string>, i: nat)
    requires i < Reach(addrs, symbols)
    requires forall j :: i < j < Reach(addrs, symbols) ==> addrs[j] != addrs[i]
    ensures addrs[i] in Zip(m, addrs, symbols).0 && Zip(m, addrs, symbols).0[addrs[i]] == symbols[i]
    decreases i
  {
    var m' := m[addrs[0] := symbols[0]];
    if i == 0 {
      ZipKeys(m', addrs[1..], symbols[1..], addrs[0]);
      assert addrs[0] !in addrs[1..][..Reach(addrs[1..], symbols[1..])];
    } else {
      ZipLast(m', addrs[1..], symbols[1..], i - 1);
    }
  }

  /** One entry of `addrsByImage.items()`: the image's position, the image and its addresses. */
  datatype Item = Item(key: nat, image: BinaryImage, addrs: seq<nat>)

  /** The table so far and the images a warning was written for, in order. */
  datatype BatchState = BatchState(table: Table, failed: seq<nat>)

  /** What one image's `try` block writes: the addresses the zip reaches, none when the call raised. */
  function Written(resolve: Resolver, it: Item): (w: seq<nat>)
    ensures w <= it.addrs
  {
    match Symbols(resolve, it.image, it.addrs)
    case None => []
    case Some(syms) => it.addrs[..Reach(it.addrs, syms)]
  }

  /** The `except` branch runs: the call raised, or the output had fewer lines than addresses. */
  predicate Fails(resolve: Resolver, it: Item) {
    match Symbols(resolve, it.image, it.addrs)
    case None => true
    case Some(syms) => |syms| < |it.addrs|
  }

  /** The `try`/`except` body for one image: zip what resolved, warn when it did not all resolve. */
  function ResolveImage(st: BatchState, resolve: Resolver, it: Item): (r: BatchState)
    ensures r.failed == if Fails(resolve, it) then st.failed + [it.key] else st.failed
  {
    match Symbols(resolve, it.image, it.addrs)
    case None => BatchState(st.table, st.failed + [it.key])
    case Some(syms) =>
      var (t, ok) := Zip(st.table, it.addrs, syms);
      ZipKeys(st.table, it.addrs, syms, 0);
      BatchState(t, if ok then st.failed else st.failed + [it.key])
  }

  /** `for (image, addresses) in addrsByImage.items()`, in the order the dictionary yields them. */
  function Batch(st: BatchState, resolve: Resolver, items: seq<Item>): BatchState
    decreases |items|
  {
    if |items| == 0 then st else Batch(ResolveImage(st, resolve, items[0]), resolve, items[1..])
  }

  /** One image's block adds exactly the addresses it wrote and keeps other entries. */
  lemma ResolveImageKeys(st: BatchState, resolve: Resolver, it: Item, a: nat)
    ensures a in ResolveImage(st, resolve, it).table <==> a in st.table || a in Written(resolve, it)
    ensures a in st.table && a !in Written(resolve, it) ==> ResolveImage(st, resolve, it).table[a] == st.table[a]
  {
    match Symbols(resolve, it.image, it.addrs)
    case None =>
    case Some(syms) =>
      ZipKeys(st.table, it.addrs, syms, a);
  }

  /**
    After the loop an address has a symbol exactly when it had one before or
    some image's block wrote it; an address no block wrote keeps its entry.
   */
  lemma {:induction false} BatchKeys(st: BatchState, resolve: Resolver, items: seq<Item>, a: nat)
    ensures a in Batch(st, resolve, items).table <==>
      a in st.table || exists t :: 0 <= t < |items| && a in Written(resolve, items[t])
    ensures a in st.table && (forall t :: 0 <= t < |items| ==> a !in Written(resolve, items[t])) ==>
      Batch(st, resolve, items).table[a] == st.table[a]
    decreases |items|
  {
    if |items| > 0 {
      var st' := ResolveImage(st, resolve, items[0]);
      ResolveImageKeys(st, resolve, items[0], a);
      BatchKeys(st', resolve, items[1..], a);
      assert forall t :: 0 < t < |items| ==> items[1..][t - 1] == items[t];
      if exists t :: 0 <= t < |items| && a in Written(resolve, items[t]) {
        var t :| 0 <= t < |items| && a in Written(resolve, items[t]);
        if t > 0 {
          assert a in Written(resolve, items[1..][t - 1]);
        }
      }
    }
  }

  /**
    The entry an image writes survives unless a later image writes the same
    address: when image `t` resolves and the zip reaches position `i` of its
    list, and no later position of that image and no later image writes
    `addrs[i]`, the address ends with line `i` of that image's output.
   */
  lemma {:induction false} BatchLast(st: BatchState, resolve: Resolver, items: seq<Item>, t: nat, syms: seq<string>, i: nat)
    requires t < |items| && Symbols(resolve, items[t].image, items[t].addrs) == Some(syms)
    requires i < Reach(items[t].addrs, syms)
    requires forall j :: i < j < Reach(items[t].addrs, syms) ==> items[t].addrs[j] != items[t].addrs[i]
    requires forall u :: t < u < |items| ==> items[t].addrs[i] !in Written(resolve, items[u])
    ensures items[t].addrs[i] in Batch(st, resolve, items).table
    ensures Batch(st, resolve, items).table[items[t].addrs[i]] == syms[i]
    decreases t
  {
    if t == 0 {
      BatchLastFirst(st, resolve, items, syms, i);
    } else {
      assert items[1..][t - 1] == items[t];
      BatchLast(ResolveImage(st, resolve, items[0]), resolve, items[1..], t - 1, syms, i);
    }
  }

  /** The case of `BatchLast` where the writer is the first image visited. */
  lemma BatchLastFirst(st: BatchState, resolve: Resolver, items: seq<Item>, syms: seq<string>, i: nat)
    requires 0 < |items| && Symbols(resolve, items[0].image, items[0].addrs) == Some(syms)
    requires i < Reach(items[0].addrs, syms)
    requires forall j :: i < j < Reach(items[0].addrs, syms) ==> items[0].addrs[j] != items[0].addrs[i]
    requires forall u :: 0 < u < |items| ==> items[0].addrs[i] !in Written(resolve, items[u])
    ensures items[0].addrs[i] in Batch(st, resolve, items).table
    ensures Batch(st, resolve, items).table[items[0].addrs[i]] == syms[i]
  {
    var st' := ResolveImage(st, resolve, items[0]);
    var a := items[0].addrs[i];
    ZipLast(st.table, items[0].addrs, syms, i);
    assert st'.table == Zip(st.table, items[0].addrs, syms).0;
    BatchKeys(st', resolve, items[1..], a);
    assert forall u :: 0 <= u < |items[1..]| ==> items[1..][u] == items[u + 1];
  }

  /** A warning names exactly the images whose block did not resolve every address, once per visit. */
  lemma {:induction false} BatchFailed(st: BatchState, resolve: Resolver, items: seq<Item>, k: nat)
    ensures k in Batch(st, resolve, items).failed <==>
      k in st.failed || exists t :: 0 <= t < |items| && items[t].key == k && Fails(resolve, items[t])
    decreases |items|
  {
    if |items| > 0 {
      var st' := ResolveImage(st, resolve, items[0]);
      BatchFailed(st', resolve, items[1..], k);
      assert forall t :: 0 < t < |items| ==> items[1..][t - 1] == items[t];
      if exists t :: 0 <= t < |items| && items[t].key == k && Fails(resolve, items[t]) {
        var t :| 0 <= t < |items| && items[t].key == k && Fails(resolve, items[t]);
        if t > 0 {
          assert items[1..][t - 1].key == k && Fails(resolve, items[1..][t - 1]);
        }
      }
    }
  }

  /** No symbol the loop writes holds a line feed, since each is a piece of a split output. */
  lemma {:induction false} BatchSymbolsNoNewline(st: BatchState, resolve: Resolver, items: seq<Item>)
    requires forall a :: a in st.table ==> NoNewline(st.table[a])
    ensures forall a :: a in Batch(st, resolve, items).table ==> NoNewline(Batch(st, resolve, items).table[a])
    decreases |items|
  {
    if |items| > 0 {
      var it := items[0];
      var st' := ResolveImage(st, resolve, it);
      match Symbols(resolve, it.image, it.addrs) {
        case None =>
        case Some(syms) =>
          var out :| resolve(AtosArgs(it.image, it.addrs)) == Some(out) && syms == Split(out);
          SplitPieces(out);
          ZipNoNewline(st.table, it.addrs, syms);
      }
      BatchSymbolsNoNewline(st', resolve, items[1..]);
    }
  }

  /** The zip adds no line feed to a table whose values, like the output lines, hold none. */
  lemma {:induction false} ZipNoNewline(m: Table, addrs: seq<nat>, symbols: seq<string>)
    requires forall a :: a in m ==> NoNewline(m[a])
    requires forall i :: 0 <= i < |symbols| ==> NoNewline(symbols[i])
    ensures forall a :: a in Zip(m, addrs, symbols).0 ==> NoNewline(Zip(m, addrs, symbols).0[a])
    decreases |addrs|
  {
    if |addrs| > 0 && |symbols| > 0 {
      ZipNoNewline(m[addrs[0] := symbols[0]], addrs[1..], symbols[1..]);
    }
  }

  /** Every value the zip leaves in the table is the old entry or one of the output lines it reached. */
  lemma {:induction false} ZipValues(m: Table, addrs: seq<nat>, symbols: seq<string>)
    ensures forall a :: a in Zip(m, addrs, symbols).0 ==>
      (a in m && Zip(m, addrs, symbols).0[a] == m[a]) || Zip(m, addrs, symbols).0[a] in symbols[..Reach(addrs, symbols)]
    decreases |addrs|
  {
    if |addrs| > 0 && |symbols| > 0 {
      var m' := m[addrs[0] := symbols[0]];
      ZipValues(m', addrs[1..], symbols[1..]);
      var z := Zip(m, addrs, symbols).0;
      assert z == Zip(m', addrs[1..], symbols[1..]).0;
      forall a | a in z
        ensures (a in m && z[a] == m[a]) || z[a] in symbols[..Reach(addrs, symbols)]
      {
        if z[a] in symbols[1..][..Reach(addrs[1..], symbols[1..])] {
          var j :| 0 <= j < Reach(addrs[1..], symbols[1..]) && symbols[1..][j] == z[a];
          assert symbols[..Reach(addrs, symbols)][j + 1] == z[a];
        } else if a == addrs[0] {
          assert symbols[..Reach(addrs, symbols)][0] == z[a];
        }
      }
    }
  }

  /** `v` is a line of the output of some visited image's `atos` call. */
  predicate FromOutput(resolve: Resolver, items: seq<Item>, v: string) {
    exists t :: 0 <= t < |items| && Symbols(resolve, items[t].image, items[t].addrs).Some? &&
      v in Symbols(resolve, items[t].image, items[t].addrs).value
  }

  /** Every symbol the loop leaves in the table is the old entry or a line of some image's `atos` output. */
  lemma {:induction false} BatchValues(st: BatchState, resolve: Resolver, items: seq<Item>)
    ensures forall a :: a in Batch(st, resolve, items).table ==>
      (a in st.table && Batch(st, resolve, items).table[a] == st.table[a]) ||
      FromOutput(resolve, items, Batch(st, resolve, items).table[a])
    decreases |items|
  {
    if |items| > 0 {
      var it := items[0];
      var st' := ResolveImage(st, resolve, it);
      BatchValues(st', resolve, items[1..]);
      var b := Batch(st, resolve, items).table;
      assert b == Batch(st', resolve, items[1..]).table;
      forall a | a in b
        ensures (a in st.table && b[a] == st.table[a]) || FromOutput(resolve, items, b[a])
      {
        if FromOutput(resolve, items[1..], b[a]) {
          var t :| 0 <= t < |items[1..]| && Symbols(resolve, items[1..][t].image, items[1..][t].addrs).Some? &&
            b[a] in Symbols(resolve, items[1..][t].image, items[1..][t].addrs).value;
          assert items[1..][t] == items[t + 1];
        } else {
          ResolvedValue(st, resolve, it, a);
        }
      }
    }
  }

  /** One image's block leaves each entry as it was or sets it to a line of that image's output. */
  lemma ResolvedValue(st: BatchState, resolve: Resolver, it: Item, a: nat)
    requires a in ResolveImage(st, resolve, it).table
    ensures || (a in st.table && ResolveImage(st, resolve, it).table[a] == st.table[a])
            || (Symbols(resolve, it.image, it.addrs).Some? &&
                ResolveImage(st, resolve, it).table[a] in Symbols(resolve, it.image, it.addrs).value)
  {
    match Symbols(resolve, it.image, it.addrs)
    case None =>
    case Some(syms) =>
      ZipValues(st.table, it.addrs, syms);
  }
}
