/**
  The binary-image table: the record each entry line becomes, the address
  range test, and the loop that reads the table after its header.
 */
module ImageTable {
  import opened Wrappers
  import opened Chars
  import opened Hex
  import opened ImageLine

  /** Every image gets the constructor's default architecture; entries never set it. */
  const DefaultArch: string := "x86_64"

  datatype BinaryImage = BinaryImage(lowAddr: nat, hiAddr: nat, name: string, uuid: string, path: string, arch: string)

  /** `BinaryImage.match`: both bounds inclusive; nothing requires `lowAddr <= hiAddr`. */
  predicate Matches(img: BinaryImage, addr: nat) {
    img.lowAddr <= addr && img.hiAddr >= addr
  }

  /** The addresses an image matches (all of them lie at or below `hiAddr`). */
  function MatchedAddresses(img: BinaryImage): set<nat> {
    set a: nat | a <= img.hiAddr && Matches(img, a)
  }

  predicate Between(lo: nat, hi: nat, a: nat) {
    lo <= a <= hi
  }

  function Interval(lo: nat, hi: nat): set<nat> {
    set a: nat | a <= hi && Between(lo, hi, a)
  }

  lemma {:induction false} IntervalSize(lo: nat, hi: nat)
    ensures |Interval(lo, hi)| == if lo <= hi then hi - lo + 1 else 0
    decreases hi
  {
    if lo > hi {
      assert Interval(lo, hi) == {};
    } else if lo == hi {
      assert Interval(lo, hi) == {hi};
    } else {
      IntervalSize(lo, hi - 1);
      assert Interval(lo, hi) == Interval(lo, hi - 1) + {hi};
    }
  }

  /**
    An image matches exactly `hiAddr - lowAddr + 1` addresses, both bounds
    included, and none at all when its range is inverted.
   */
  lemma MatchedAddressCount(img: BinaryImage)
    ensures |MatchedAddresses(img)| == if img.lowAddr <= img.hiAddr then img.hiAddr - img.lowAddr + 1 else 0
    ensures img.lowAddr <= img.hiAddr ==> img.lowAddr in MatchedAddresses(img) && img.hiAddr in MatchedAddresses(img)
  {
    assert MatchedAddresses(img) == Interval(img.lowAddr, img.hiAddr);
    IntervalSize(img.lowAddr, img.hiAddr);
  }

  /** One entry line to an image: addresses parsed in base 16, architecture defaulted. */
  function ImageFromLine(s: string): (r: Option<BinaryImage>)
    ensures r.Some? <==> MatchImageLine(s).Some?
    ensures r.Some? ==> var f := MatchImageLine(s).value;
      && r.value.lowAddr == ParseHexLiteral(f.low) && r.value.hiAddr == ParseHexLiteral(f.high)
      && r.value.name == f.name && r.value.uuid == f.uuid && r.value.path == f.path
      && r.value.arch == DefaultArch
  {
    match MatchImageLine(s)
    case None => None
    case Some(f) => Some(BinaryImage(ParseHexLiteral(f.low), ParseHexLiteral(f.high), f.name, f.uuid, f.path, DefaultArch))
  }

  /**
    A line gives an image exactly when `imageRE` fits it; the image's bounds
    are the values of the two hex literals the line spells at the pattern's
    places, its name, UUID and path the text there, its architecture `x86_64`.
   */
  lemma ImageFromLineSpec(s: string)
    ensures ImageFromLine(s).Some? <==> exists g, t :: ImageShape(s, g, t)
    ensures ImageFromLine(s).Some? ==> exists f: ImageFields ::
      && ImageLineForm(s, f) && IsHexLiteral(f.low) && IsHexLiteral(f.high)
      && ImageFromLine(s).value == BinaryImage(ParseHexLiteral(f.low), ParseHexLiteral(f.high), f.name, f.uuid, f.path, DefaultArch)
    ensures ImageFromLine(s).Some? <==> exists g, t :: EngineShape(s, g, t)
  {
    MatchImageLineIff(s);
    if ImageFromLine(s).Some? {
      MatchImageLineSound(s);
      var f := MatchImageLine(s).value;
      assert ImageLineForm(s, f) && IsHexLiteral(f.low) && IsHexLiteral(f.high);
      MatchImageLineTaken(s);
    }
  }

  /**
    The image an entry line gives is fixed by the line: at the positions the
    engine takes, which `EngineShapeUnique` shows are the only ones, the
    bounds are the two literals read in base 16 and the name, UUID and path
    are the text of their groups.
   */
  lemma ImageFromShape(s: string, g: RangeMatch, t: TailMatch)
    requires EngineShape(s, g, t)
    ensures ImageFromLine(s) == Some(BinaryImage(
      ParseHexLiteral(s[g.lowStart..g.lowEnd]), ParseHexLiteral(s[g.highStart..g.highEnd]),
      s[g.nameStart..t.nameEnd], s[t.uuidStart..t.uuidEnd], s[t.pathStart..t.pathEnd], DefaultArch))
  {
    MatchImageLineComplete(s, g, t);
    MatchImageLineTaken(s);
    var h, u :| EngineShape(s, h, u) && MatchImageLine(s).value == Groups(s, h, u);
    EngineShapeUnique(s, g, t, h, u);
  }

  /** Index of the first empty line, where the table loop stops; `|lines|` when there is none. */
  function TableEnd(lines: seq<string>): (c: nat)
    ensures c <= |lines|
    ensures forall j :: 0 <= j < c ==> |lines[j]| > 0
    ensures c < |lines| ==> |lines[c]| == 0
    decreases |lines|
  {
    if |lines| == 0 || |lines[0]| == 0 then 0 else 1 + TableEnd(lines[1..])
  }

  /** Each line before the stop, recognised or not. */
  function Entries(lines: seq<string>): (r: seq<Option<BinaryImage>>)
    ensures |r| == TableEnd(lines)
    ensures forall j :: 0 <= j < |r| ==> r[j] == ImageFromLine(lines[j])
  {
    seq(TableEnd(lines), j requires 0 <= j < TableEnd(lines) => ImageFromLine(lines[j]))
  }

  /**
    The loop over the lines after the `Binary Images:` header: it stops only
    at an empty line (in practice never: `fileinput` never yields an empty
    line, and only the last line may lack its line feed) and skips lines that
    are not entries.
   */
  function ParseImageTable(lines: seq<string>): (r: seq<BinaryImage>)
    ensures |r| <= TableEnd(lines)
    ensures forall k :: 0 <= k < |r| ==> r[k].arch == DefaultArch
  {
    SomesMembers(Entries(lines));
    Somes(Entries(lines))
  }

  /**
    The table holds one image per entry line before the first empty line, in
    line order, and nothing else: `idx` lists the lines the images came from.
   */
  lemma ParseImageTableSpec(lines: seq<string>)
    ensures exists idx :: IsSomesOf(ParseImageTable(lines), Entries(lines), idx)
  {
    SomesSpec(Entries(lines));
    assert ParseImageTable(lines) == Somes(Entries(lines));
  }
}
