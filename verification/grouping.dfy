/**
  The grouping loop: every backtrace line's address is appended to the list
  of every image whose range holds it. Images are keyed by their position in
  the table, since the dictionary is keyed by image objects and two equal
  entries are still two keys.
 */
module Grouping {
  import opened Wrappers
  import opened Backtrace
  import opened ImageTable

  /** `addrsByImage`: image position to the addresses collected for it. */
  type Lists = map<nat, seq<nat>>

  /** The list of image `k`, empty when it has no key yet. */
  function Get(m: Lists, k: nat): seq<nat> {
    if k in m then m[k] else []
  }

  /** The dictionary only ever gets a key together with a first address. */
  predicate NonEmptyLists(m: Lists) {
    forall k :: k in m ==> m[k] != []
  }

  /** What `btRE` makes of each line, recognised or not. */
  function FrameAddresses(lines: seq<string>): (r: seq<Option<nat>>)
    ensures |r| == |lines| && forall j :: 0 <= j < |lines| ==> r[j] == FrameAddress(lines[j])
  {
    seq(|lines|, j requires 0 <= j < |lines| => FrameAddress(lines[j]))
  }

  /** The address of every backtrace line, in line order. */
  function Addresses(lines: seq<string>): seq<nat> {
    Somes(FrameAddresses(lines))
  }

  /**
    The addresses the loop sees are exactly those of the backtrace lines, in
    line order, once per line: `idx` lists the lines they came from.
   */
  lemma AddressesSpec(lines: seq<string>)
    ensures exists idx :: IsSomesOf(Addresses(lines), FrameAddresses(lines), idx)
  {
    SomesSpec(FrameAddresses(lines));
    assert Addresses(lines) == Somes(FrameAddresses(lines));
  }

  /** The addresses of `addrs` image `img` matches, in order and with repeats. */
  function Filter(img: BinaryImage, addrs: seq<nat>): seq<nat>
    decreases |addrs|
  {
    if |addrs| == 0 then []
    else if Matches(img, addrs[0]) then [addrs[0]] + Filter(img, addrs[1..])
    else Filter(img, addrs[1..])
  }

  /**
    `for image in images: if image.match(addr): append`, from image `k` on:
    each image in range gets `a` at the end of its list.
   */
  function AddTo(m: Lists, images: seq<BinaryImage>, a: nat, k: nat): (r: Lists)
    requires k <= |images|
    decreases |images| - k
  {
    if k == |images| then m
    else
      var m' := if Matches(images[k], a) then m[k := Get(m, k) + [a]] else m;
      AddTo(m', images, a, k + 1)
  }

  /** One line of the loop, given what `btRE` made of it: nothing for a line it rejects. */
  function AddLine(m: Lists, images: seq<BinaryImage>, o: Option<nat>): Lists {
    match o
    case None => m
    case Some(a) => AddTo(m, images, a, 0)
  }

  /** The loop over the remaining lines' match results, continuing from `m`. */
  function GroupFrom(m: Lists, images: seq<BinaryImage>, opts: seq<Option<nat>>): Lists
    decreases |opts|
  {
    if |opts| == 0 then m else GroupFrom(AddLine(m, images, opts[0]), images, opts[1..])
  }

  /** `addrsByImage` after the loop over all lines, starting empty. */
  function GroupLines(images: seq<BinaryImage>, lines: seq<string>): Lists {
    GroupFrom(map[], images, FrameAddresses(lines))
  }

  /** The image loop from `k` on appends `a` to the list of image `i` exactly when it matches and `k <= i`. */
  lemma {:induction false} AddToAt(m: Lists, images: seq<BinaryImage>, a: nat, k: nat, i: nat)
    requires k <= |images|
    ensures i in AddTo(m, images, a, k) <==> i in m || (k <= i < |images| && Matches(images[i], a))
    ensures Get(AddTo(m, images, a, k), i) == Get(m, i) + (if k <= i < |images| && Matches(images[i], a) then [a] else [])
    decreases |images| - k
  {
    if k < |images| {
      var m' := if Matches(images[k], a) then m[k := Get(m, k) + [a]] else m;
      AddToAt(m', images, a, k + 1, i);
    }
  }

  /**
    The loop from any state whose list for image `i` is absent or non-empty:
    that list ends as it was followed by the addresses in the image's range,
    and is present exactly when that is non-empty.
   */
  lemma {:induction false} GroupFromAt(m: Lists, images: seq<BinaryImage>, opts: seq<Option<nat>>, i: nat)
    requires i in m ==> m[i] != []
    ensures i in GroupFrom(m, images, opts) ==> GroupFrom(m, images, opts)[i] != []
    ensures Get(GroupFrom(m, images, opts), i) ==
      Get(m, i) + (if i < |images| then Filter(images[i], Somes(opts)) else [])
    decreases |opts|
  {
    if |opts| > 0 {
      var m' := AddLine(m, images, opts[0]);
      match opts[0]
      case None =>
        GroupFromAt(m', images, opts[1..], i);
      case Some(a) =>
        AddToAt(m, images, a, 0, i);
        GroupFromAt(m', images, opts[1..], i);
        var g := GroupFrom(m', images, opts[1..]);
        assert GroupFrom(m, images, opts) == g;
        assert Somes(opts) == [a] + Somes(opts[1..]);
        if i < |images| {
          var rest := Filter(images[i], Somes(opts[1..]));
          if Matches(images[i], a) {
            assert Filter(images[i], Somes(opts)) == [a] + rest;
            assert Get(g, i) == (Get(m, i) + [a]) + rest == Get(m, i) + ([a] + rest);
          } else {
            assert Filter(images[i], Somes(opts)) == rest;
          }
        }
    }
  }

  /**
    After the loop, image `i` has a key exactly when one of the backtrace
    addresses lies in its range, and its list holds those addresses in line
    order, repeats included.
   */
  lemma GroupLinesAt(images: seq<BinaryImage>, lines: seq<string>, i: nat)
    ensures i in GroupLines(images, lines) <==> i < |images| && Filter(images[i], Addresses(lines)) != []
    ensures i in GroupLines(images, lines) ==> GroupLines(images, lines)[i] == Filter(images[i], Addresses(lines))
  {
    GroupFromAt(map[], images, FrameAddresses(lines), i);
  }

  /** The same for every image at once. */
  lemma GroupLinesSpec(images: seq<BinaryImage>, lines: seq<string>)
    ensures forall i: nat :: i in GroupLines(images, lines) <==> i < |images| && Filter(images[i], Addresses(lines)) != []
    ensures forall i: nat :: i in GroupLines(images, lines) ==> GroupLines(images, lines)[i] == Filter(images[i], Addresses(lines))
  {
    forall i: nat ensures i in GroupLines(images, lines) <==> i < |images| && Filter(images[i], Addresses(lines)) != [] {
      GroupLinesAt(images, lines, i);
    }
    forall i: nat | i in GroupLines(images, lines) ensures GroupLines(images, lines)[i] == Filter(images[i], Addresses(lines)) {
      GroupLinesAt(images, lines, i);
    }
  }

  /** A key is only ever created together with its first address, so no list in the dictionary is empty. */
  lemma GroupLinesNonEmpty(images: seq<BinaryImage>, lines: seq<string>)
    ensures NonEmptyLists(GroupLines(images, lines))
  {
    GroupLinesSpec(images, lines);
  }

  /** Filtering keeps each matching address as often as it occurs, and drops the rest. */
  lemma {:induction false} FilterCount(img: BinaryImage, addrs: seq<nat>, a: nat)
    ensures multiset(Filter(img, addrs))[a] == if Matches(img, a) then multiset(addrs)[a] else 0
    decreases |addrs|
  {
    if |addrs| > 0 {
      FilterCount(img, addrs[1..], a);
      assert addrs == [addrs[0]] + addrs[1..];
    }
  }

  /** Filtering keeps the order of its input: it distributes over concatenation. */
  lemma {:induction false} FilterAppend(img: BinaryImage, xs: seq<nat>, ys: seq<nat>)
    ensures Filter(img, xs + ys) == Filter(img, xs) + Filter(img, ys)
    decreases |xs|
  {
    if |xs| > 0 {
      FilterAppend(img, xs[1..], ys);
      var zs := xs + ys;
      assert zs[0] == xs[0] && zs[1..] == xs[1..] + ys;
      assert Filter(img, zs) == (if Matches(img, xs[0]) then [xs[0]] else []) + Filter(img, zs[1..]);
      var h := if Matches(img, xs[0]) then [xs[0]] else [];
      assert Filter(img, xs) == h + Filter(img, xs[1..]);
      assert h + (Filter(img, xs[1..]) + Filter(img, ys)) == (h + Filter(img, xs[1..])) + Filter(img, ys);
    } else {
      assert xs + ys == ys;
    }
  }

  /**
    Every listed address lies in its image's range, and an address on `n`
    backtrace lines appears `n` times in the list of each image holding it.
   */
  lemma GroupCount(images: seq<BinaryImage>, lines: seq<string>, i: nat, a: nat)
    requires i in GroupLines(images, lines)
    ensures i < |images|
    ensures a in GroupLines(images, lines)[i] ==> Matches(images[i], a)
    ensures Matches(images[i], a) ==> multiset(GroupLines(images, lines)[i])[a] == multiset(Addresses(lines))[a]
  {
    GroupLinesAt(images, lines, i);
    FilterCount(images[i], Addresses(lines), a);
  }

  /** An address outside every image's range is in no list, so no resolver call ever sees it. */
  lemma Unlisted(images: seq<BinaryImage>, lines: seq<string>, a: nat)
    requires forall i: nat :: 0 <= i < |images| ==> !Matches(images[i], a)
    ensures forall i: nat :: i in GroupLines(images, lines) ==> a !in GroupLines(images, lines)[i]
  {
    GroupLinesSpec(images, lines);
    forall i: nat | i in GroupLines(images, lines) ensures a !in GroupLines(images, lines)[i] {
      FilterCount(images[i], Addresses(lines), a);
    }
  }
}
