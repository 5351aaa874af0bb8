/**
 * Output helpers of the current engine: the directory name derived from the
 * document name, and the crops of the document's figures saved as images,
 * one file per figure, numbered in document order.
 */
module DocUtils {
  import opened Wrappers
  import opened Geometry
  import opened Decimal

  // ---------------------------------------------------------------------------
  // Document names
  // ---------------------------------------------------------------------------

  /**
   * Whether a character is alphanumeric. The Unicode tables behind it are
   * not modelled; all that is used is that no whitespace character is
   * alphanumeric.
   */
  predicate AlnumOracle(alnum: char -> bool)
  {
    forall c :: alnum(c) ==> !IsWhitespace(c)
  }

  predicate Allowed(alnum: char -> bool, c: char) { alnum(c) || c == '-' || c == '_' }

  /** What one character becomes: kept when allowed, dropped when whitespace, '-' otherwise. */
  function SanitizeChar(alnum: char -> bool, c: char): Option<char>
  {
    if Allowed(alnum, c) then Some(c) else if IsWhitespace(c) then None else Some('-')
  }

  /** `sanitize_doc_name`. */
  function Sanitize(alnum: char -> bool, s: string): string
  {
    if |s| == 0 then ""
    else
      var rest := Sanitize(alnum, s[..|s| - 1]);
      match SanitizeChar(alnum, s[|s| - 1])
      case None => rest
      case Some(c) => rest + [c]
  }

  /** The characters of `s` that are not whitespace, in order. */
  function NonWhitespace(s: string): string
  {
    if |s| == 0 then ""
    else if IsWhitespace(s[|s| - 1]) then NonWhitespace(s[..|s| - 1])
    else NonWhitespace(s[..|s| - 1]) + [s[|s| - 1]]
  }

  function WhitespaceCount(s: string): nat
  {
    if |s| == 0 then 0 else WhitespaceCount(s[..|s| - 1]) + (if IsWhitespace(s[|s| - 1]) then 1 else 0)
  }

  /** Allowed characters stay, other non-whitespace characters become '-'. */
  function Dashed(alnum: char -> bool, s: string): (r: string)
    ensures |r| == |s|
    ensures forall k :: 0 <= k < |s| ==> r[k] == if Allowed(alnum, s[k]) then s[k] else '-'
  {
    seq(|s|, k requires 0 <= k < |s| => if Allowed(alnum, s[k]) then s[k] else '-')
  }

  lemma {:induction false} NonWhitespaceLength(s: string)
    ensures |NonWhitespace(s)| + WhitespaceCount(s) == |s|
    ensures forall k :: 0 <= k < |NonWhitespace(s)| ==> !IsWhitespace(NonWhitespace(s)[k])
  {
    if |s| > 0 {
      NonWhitespaceLength(s[..|s| - 1]);
    }
  }

  /**
   * Sanitizing drops exactly the whitespace and replaces each other
   * disallowed character by '-' in its place: it is the whitespace-free
   * text with those replacements.
   */
  lemma {:induction false} SanitizeIsDashedNonWhitespace(alnum: char -> bool, s: string)
    requires AlnumOracle(alnum)
    ensures Sanitize(alnum, s) == Dashed(alnum, NonWhitespace(s))
  {
    if |s| > 0 {
      SanitizeIsDashedNonWhitespace(alnum, s[..|s| - 1]);
      var c := s[|s| - 1];
      var prev := NonWhitespace(s[..|s| - 1]);
      if !IsWhitespace(c) {
        assert NonWhitespace(s) == prev + [c];
        assert Dashed(alnum, prev + [c]) == Dashed(alnum, prev) + [if Allowed(alnum, c) then c else '-'];
      } else {
        assert !Allowed(alnum, c);
      }
    }
  }

  /**
   * The sanitized name holds no whitespace and only alphanumerics, '-' and
   * '_', and is shorter than the name by its number of whitespace characters.
   */
  lemma SanitizeSpec(alnum: char -> bool, s: string)
    requires AlnumOracle(alnum)
    ensures var r := Sanitize(alnum, s);
      |r| == |s| - WhitespaceCount(s)
      && (forall k :: 0 <= k < |r| ==> !IsWhitespace(r[k]) && Allowed(alnum, r[k]))
  {
    SanitizeIsDashedNonWhitespace(alnum, s);
    NonWhitespaceLength(s);
  }

  /** A name made only of allowed characters is its own sanitized form. */
  lemma {:induction false} SanitizeAllowed(alnum: char -> bool, s: string)
    requires AlnumOracle(alnum) && forall k :: 0 <= k < |s| ==> Allowed(alnum, s[k])
    ensures Sanitize(alnum, s) == s
  {
    if |s| > 0 {
      SanitizeAllowed(alnum, s[..|s| - 1]);
      assert s[..|s| - 1] + [s[|s| - 1]] == s;
    }
  }

  /** Sanitizing twice is sanitizing once. */
  lemma SanitizeIdempotent(alnum: char -> bool, s: string)
    requires AlnumOracle(alnum)
    ensures Sanitize(alnum, Sanitize(alnum, s)) == Sanitize(alnum, s)
  {
    SanitizeSpec(alnum, s);
    SanitizeAllowed(alnum, Sanitize(alnum, s));
  }

  /** The name of the results directory of `create_dirs`. */
  function ResultDirName(alnum: char -> bool, docName: string): string
  {
    Sanitize(alnum, docName) + "-results"
  }

  /** The results directory is the sanitized name followed by "-results", and holds no whitespace. */
  lemma ResultDirNameSpec(alnum: char -> bool, docName: string)
    requires AlnumOracle(alnum)
    ensures var d := ResultDirName(alnum, docName);
      var n := |Sanitize(alnum, docName)|;
      |d| == n + 8 && d[..n] == Sanitize(alnum, docName) && d[n..] == "-results"
      && forall k :: 0 <= k < |d| ==> !IsWhitespace(d[k])
  {
    SanitizeSpec(alnum, docName);
    var d := ResultDirName(alnum, docName);
    var n := |Sanitize(alnum, docName)|;
    forall k | 0 <= k < |d| ensures !IsWhitespace(d[k]) {
      if k >= n {
        assert d[k] == "-results"[k - n];
      }
    }
  }

  // ---------------------------------------------------------------------------
  // Figure crops
  // ---------------------------------------------------------------------------

  const IMAGE_PADDING: nat := 5
  const U32_MAX: nat := 0xFFFF_FFFF
  const U32_MODULUS: nat := 0x1_0000_0000

  /**
   * A float converted to a 32-bit unsigned integer: truncated toward zero and
   * saturated, so every value at most 0 gives 0 and every value at least the
   * maximum gives the maximum.
   */
  function CastU32(x: real): (r: nat)
    ensures r <= U32_MAX
    ensures x <= 0.0 ==> r == 0
    ensures 0.0 <= x ==> r as real <= x
    ensures 0.0 <= x < U32_MAX as real ==> x < r as real + 1.0
    ensures x >= U32_MAX as real ==> r == U32_MAX
  {
    if x <= 0.0 then 0 else if x >= U32_MAX as real then U32_MAX else x.Floor as nat
  }

  /** 32-bit unsigned addition as an optimised build performs it: modulo 2^32. */
  function AddU32(a: nat, b: nat): (r: nat)
    ensures r < U32_MODULUS
    ensures a + b < U32_MODULUS ==> r == a + b
  {
    (a + b) % U32_MODULUS
  }

  /** The left or top edge of a crop: the block's edge less the padding, cut off at 0. */
  function CropOrigin(edge: real): nat
  {
    CastU32(edge - IMAGE_PADDING as real)
  }

  /** The crop's width or height: the block's side (at least 1), padded on both sides, at most the page's side. */
  function CropSide(side: real, pageSide: real): nat
  {
    Min(AddU32(CastU32(Max(side, 1.0)), 2 * IMAGE_PADDING), CastU32(pageSide))
  }

  function Min(a: nat, b: nat): nat { if a <= b then a else b }

  /** The crop starts at the padded edge, or at 0 for a block within the padding of the page edge. */
  lemma CropOriginSpec(edge: real)
    ensures edge <= IMAGE_PADDING as real ==> CropOrigin(edge) == 0
    ensures IMAGE_PADDING as real <= edge < (U32_MAX + IMAGE_PADDING) as real ==>
      CropOrigin(edge) as real <= edge - IMAGE_PADDING as real < CropOrigin(edge) as real + 1.0
  {
  }

  /**
   * A crop side never exceeds the page's side; when the page has room, the
   * crop is wider than the block by the padding on both sides, less the
   * fraction the conversion truncates.
   */
  lemma CropSideSpec(side: real, pageSide: real)
    ensures CropSide(side, pageSide) <= CastU32(pageSide)
    ensures pageSide >= 0.0 ==> CropSide(side, pageSide) as real <= pageSide
    ensures 1.0 <= side && side + (2 * IMAGE_PADDING) as real <= CastU32(pageSide) as real ==>
      side + (2 * IMAGE_PADDING - 1) as real < CropSide(side, pageSide) as real <= side + (2 * IMAGE_PADDING) as real
  {
    if 1.0 <= side && side + (2 * IMAGE_PADDING) as real <= CastU32(pageSide) as real {
      assert CastU32(pageSide) <= U32_MAX;
      assert CastU32(Max(side, 1.0)) + 2 * IMAGE_PADDING < U32_MODULUS;
    }
  }

  /** What a block of the parsed document is, for saving figures. */
  datatype BlockKind = ImageBlock | TableBlock | OtherBlock

  datatype DocBlock = DocBlock(kind: BlockKind, pagesId: seq<nat>, bbox: BBox)

  datatype DocPage = DocPage(id: nat, width: real, height: real)

  /** A saved figure: the image file's name and the rectangle cut from the page image. */
  datatype Crop = Crop(file: string, pageId: nat, x: nat, y: nat, width: nat, height: nat)

  /** The image file of the `k`-th saved figure, taken from page `p`. */
  function FileName(p: nat, k: nat): string
  {
    "page_" + Dec(p) + "_img_" + Dec(k) + ".png"
  }

  /** The index of the first page with the given id. */
  function FindPage(pages: seq<DocPage>, id: nat): (r: Option<nat>)
    ensures r.Some? ==>
      (r.value < |pages| && pages[r.value].id == id && forall j :: 0 <= j < r.value ==> pages[j].id != id)
    ensures r.None? ==> forall j :: 0 <= j < |pages| ==> pages[j].id != id
  {
    if |pages| == 0 then None
    else if pages[0].id == id then Some(0)
    else match FindPage(pages[1..], id)
      case None => None
      case Some(j) => Some(j + 1)
  }

  /**
   * What saving a block demands: tables are not supported (the engine
   * stops there), a figure names its page, and a page it is found on has
   * positive size (asserted by the engine).
   */
  predicate Saveable(b: DocBlock, pages: seq<DocPage>)
  {
    b.kind != TableBlock
    && (b.kind == ImageBlock ==>
          |b.pagesId| > 0
          && (var f := FindPage(pages, b.pagesId[0]);
              f.Some? ==> CastU32(pages[f.value].height) > 0 && CastU32(pages[f.value].width) > 0))
  }

  predicate AllSaveable(blocks: seq<DocBlock>, pages: seq<DocPage>)
  {
    forall i :: 0 <= i < |blocks| ==> Saveable(blocks[i], pages)
  }

  /** Whether a block yields a saved figure: a figure whose first page exists. */
  predicate Saved(b: DocBlock, pages: seq<DocPage>)
  {
    b.kind == ImageBlock && |b.pagesId| > 0 && FindPage(pages, b.pagesId[0]).Some?
  }

  /** The crop of a figure on its page, as the `k`-th saved figure. */
  function CropOf(b: DocBlock, page: DocPage, k: nat): Crop
  {
    Crop(FileName(page.id, k), page.id,
         CropOrigin(b.bbox.x0), CropOrigin(b.bbox.y0),
         CropSide(Width(b.bbox), page.width), CropSide(Height(b.bbox), page.height))
  }

  /** The figures saved for `blocks`, in order. */
  function SavedCrops(blocks: seq<DocBlock>, pages: seq<DocPage>): (r: seq<Crop>)
  {
    if |blocks| == 0 then []
    else
      var prev := SavedCrops(blocks[..|blocks| - 1], pages);
      var b := blocks[|blocks| - 1];
      if Saved(b, pages) then prev + [CropOf(b, pages[FindPage(pages, b.pagesId[0]).value], |prev|)]
      else prev
  }

  /**
   * `save_doc_images`: every figure block whose page is found is cropped from
   * that page and saved as page_{page}_img_{k}.png, k counting the figures
   * saved so far; other blocks and figures of unknown pages are skipped.
   */
  method SaveDocImages(blocks: seq<DocBlock>, pages: seq<DocPage>) returns (crops: seq<Crop>)
    requires AllSaveable(blocks, pages)
    ensures crops == SavedCrops(blocks, pages)
  {
    crops := [];
    var imageId := 0;
    for i := 0 to |blocks|
      invariant imageId == |crops|
      invariant crops == SavedCrops(blocks[..i], pages)
    {
      var block := blocks[i];
      assert blocks[..i + 1][..i] == blocks[..i];
      match block.kind {
        case ImageBlock =>
          var pageId := block.pagesId[0];
          match FindPage(pages, pageId) {
            case Some(p) =>
              var page := pages[p];
              var x := CastU32(block.bbox.x0 - IMAGE_PADDING as real);
              var y := CastU32(block.bbox.y0 - IMAGE_PADDING as real);
              var width := Min(AddU32(CastU32(Max(Width(block.bbox), 1.0)), 2 * IMAGE_PADDING), CastU32(page.width));
              var height := Min(AddU32(CastU32(Max(Height(block.bbox), 1.0)), 2 * IMAGE_PADDING), CastU32(page.height));
              var file := "page_" + Dec(pageId) + "_img_" + Dec(imageId) + ".png";
              crops := crops + [Crop(file, pageId, x, y, width, height)];
              imageId := imageId + 1;
            case None =>
          }
        case OtherBlock =>
        case TableBlock =>
      }
    }
    assert blocks[..|blocks|] == blocks;
  }

  /** The number of figure blocks whose page is found. */
  function SavedCount(blocks: seq<DocBlock>, pages: seq<DocPage>): nat
  {
    if |blocks| == 0 then 0
    else SavedCount(blocks[..|blocks| - 1], pages) + (if Saved(blocks[|blocks| - 1], pages) then 1 else 0)
  }

  /**
   * One file per figure whose page is found; the `k`-th is named after its
   * page and k, and its crop lies within the page's size.
   */
  lemma {:induction false} SavedCropsSpec(blocks: seq<DocBlock>, pages: seq<DocPage>)
    ensures var crops := SavedCrops(blocks, pages);
      |crops| == SavedCount(blocks, pages) <= |blocks|
      && forall k :: 0 <= k < |crops| ==> crops[k].file == FileName(crops[k].pageId, k)
  {
    if |blocks| > 0 {
      SavedCropsSpec(blocks[..|blocks| - 1], pages);
    }
  }

  /** Each crop fits the page it comes from. */
  lemma {:induction false} SavedCropsFit(blocks: seq<DocBlock>, pages: seq<DocPage>)
    ensures forall k :: 0 <= k < |SavedCrops(blocks, pages)| ==>
      var c := SavedCrops(blocks, pages)[k];
      var f := FindPage(pages, c.pageId);
      f.Some? && c.width <= CastU32(pages[f.value].width) && c.height <= CastU32(pages[f.value].height)
  {
    if |blocks| > 0 {
      SavedCropsFit(blocks[..|blocks| - 1], pages);
      var b := blocks[|blocks| - 1];
      if Saved(b, pages) {
        var page := pages[FindPage(pages, b.pagesId[0]).value];
        CropSideSpec(Width(b.bbox), page.width);
        CropSideSpec(Height(b.bbox), page.height);
      }
    }
  }

  // ---------------------------------------------------------------------------
  // Distinct file names
  // ---------------------------------------------------------------------------

  /** Distinct numbers have distinct decimal renderings. */
  lemma {:induction false} DecInjective(a: nat, b: nat)
    requires Dec(a) == Dec(b)
    ensures a == b
  {
    if a >= 10 && b >= 10 {
      var s := Dec(a);
      assert s[..|s| - 1] == Dec(a / 10) && s[..|s| - 1] == Dec(b / 10);
      DecInjective(a / 10, b / 10);
      assert DigitValue(s[|s| - 1]) == a % 10 == b % 10;
    } else if a < 10 && b < 10 {
      assert DigitValue(Dec(a)[0]) == a && DigitValue(Dec(b)[0]) == b;
    }
  }

  /** The number of leading digits. */
  function DigitRun(s: string): (n: nat)
    ensures n <= |s|
  {
    if |s| > 0 && IsDigit(s[0]) then 1 + DigitRun(s[1..]) else 0
  }

  lemma {:induction false} DigitRunOf(d: string, rest: string)
    requires AllDigits(d) && |rest| > 0 && !IsDigit(rest[0])
    ensures DigitRun(d + rest) == |d|
  {
    if |d| > 0 {
      assert (d + rest)[1..] == d[1..] + rest;
      DigitRunOf(d[1..], rest);
    } else {
      assert d + rest == rest;
    }
  }

  /** The digits of a name "page_{x}_img_{y}.png" can be read back. */
  lemma NameParts(x: string, y: string)
    requires AllDigits(x) && AllDigits(y)
    ensures var s := "page_" + x + "_img_" + y + ".png";
      var tail := s[5..];
      var n := DigitRun(tail);
      n == |x| && tail[..n] == x && tail[n + 5..][..DigitRun(tail[n + 5..])] == y
  {
    var s := "page_" + x + "_img_" + y + ".png";
    var tail := s[5..];
    var rest := "_img_" + y + ".png";
    assert tail == x + rest;
    DigitRunOf(x, rest);
    assert tail[..|x|] == x;
    var t2 := tail[|x| + 5..];
    assert t2 == y + ".png";
    DigitRunOf(y, ".png");
    assert t2[..|y|] == y;
  }

  /** Different figures, or figures of different pages, get different files. */
  lemma FileNameInjective(p1: nat, k1: nat, p2: nat, k2: nat)
    requires FileName(p1, k1) == FileName(p2, k2)
    ensures p1 == p2 && k1 == k2
  {
    NameParts(Dec(p1), Dec(k1));
    NameParts(Dec(p2), Dec(k2));
    DecInjective(p1, p2);
    DecInjective(k1, k2);
  }

  /** No two saved figures share a file. */
  lemma SavedFilesDistinct(blocks: seq<DocBlock>, pages: seq<DocPage>)
    ensures var crops := SavedCrops(blocks, pages);
      forall a, b :: 0 <= a < b < |crops| ==> crops[a].file != crops[b].file
  {
    SavedCropsSpec(blocks, pages);
    var crops := SavedCrops(blocks, pages);
    forall a, b | 0 <= a < b < |crops| ensures crops[a].file != crops[b].file {
      if crops[a].file == crops[b].file {
        FileNameInjective(crops[a].pageId, a, crops[b].pageId, b);
      }
    }
  }
}
