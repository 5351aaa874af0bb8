/**
 * Page ranges: the `--page-range` / `page_range` argument of the front ends
 * ("n" or "a-b", 1-based and inclusive) parsed into a half-open 0-based
 * range, the selection of those pages from a document, and the page count
 * that selection reports ahead of parsing.
 */
module PageRange {
  import opened Wrappers
  import opened Decimal

  /** A half-open range of 0-based page indices. */
  datatype Range = Range(start: nat, end: nat)

  /** Number of indices in the range (none when it is reversed). */
  function Len(r: Range): nat { if r.end >= r.start then r.end - r.start else 0 }

  const RANGE_ERROR := "Invalid page range: start must be > 0 and end must be >= start"
  const PAGE_ERROR := "Page number must be greater than 0"

  /**
   * `parse_page_range`: with a '-', both trimmed halves must parse, the
   * first page be at least 1 and the last at least the first; without one,
   * the trimmed text must parse to a page at least 1.
   */
  function ParsePageRange(s: string): (r: Result<Range, string>)
    ensures r.Ok? ==> r.value.start < r.value.end <= USIZE_MAX
  {
    match SplitOnce(s, '-')
    case Some(halves) =>
      var start := ParseUsize(Trim(halves.0));
      if start.Err? then Err(ErrorMessage(start.error))
      else
        var end := ParseUsize(Trim(halves.1));
        if end.Err? then Err(ErrorMessage(end.error))
        else if start.value > 0 && end.value >= start.value then Ok(Range(start.value - 1, end.value))
        else Err(RANGE_ERROR)
    case None =>
      var page := ParseUsize(Trim(s));
      if page.Err? then Err(ErrorMessage(page.error))
      else if page.value > 0 then Ok(Range(page.value - 1, page.value))
      else Err(PAGE_ERROR)
  }

  /** "a-b" with 1 <= a <= b becomes the 0-based range a-1 .. b. */
  lemma RangeAccepted(a: nat, b: nat)
    requires 1 <= a <= b <= USIZE_MAX
    ensures ParsePageRange(Dec(a) + "-" + Dec(b)) == Ok(Range(a - 1, b))
  {
    HalvesOf(a, b);
  }

  /** The halves of "a-b" parse to a and b. */
  lemma HalvesOf(a: nat, b: nat)
    requires a <= USIZE_MAX && b <= USIZE_MAX
    ensures var h := SplitOnce(Dec(a) + "-" + Dec(b), '-');
      h.Some? && ParseUsize(Trim(h.value.0)) == Ok(a) && ParseUsize(Trim(h.value.1)) == Ok(b)
  {
    DecPlain(a);
    DecPlain(b);
    SplitOnceAt(Dec(a), '-', Dec(b));
    ParseDec(a);
    ParseDec(b);
  }

  /** "a-b" with a = 0 or b < a is refused. */
  lemma RangeRefused(a: nat, b: nat)
    requires a <= USIZE_MAX && b <= USIZE_MAX && (a == 0 || b < a)
    ensures ParsePageRange(Dec(a) + "-" + Dec(b)) == Err(RANGE_ERROR)
  {
    HalvesOf(a, b);
  }

  /** Whatever surrounds the first '-', a half that does not parse makes the range an error. */
  lemma UnparsableHalf(x: string, y: string)
    requires '-' !in x
    requires ParseUsize(Trim(x)).Err? || ParseUsize(Trim(y)).Err?
    ensures ParsePageRange(x + "-" + y).Err?
  {
    SplitOnceAt(x, '-', y);
  }

  /** A single page n >= 1 becomes n-1 .. n. */
  lemma SinglePage(n: nat)
    requires 1 <= n <= USIZE_MAX
    ensures ParsePageRange(Dec(n)) == Ok(Range(n - 1, n))
  {
    SinglePageParts(n);
  }

  lemma SinglePageParts(n: nat)
    requires n <= USIZE_MAX
    ensures SplitOnce(Dec(n), '-').None? && ParseUsize(Trim(Dec(n))) == Ok(n)
  {
    DecPlain(n);
    ParseDec(n);
  }

  /** Page 0 does not exist. */
  lemma PageZeroRefused()
    ensures ParsePageRange("0") == Err(PAGE_ERROR)
  {
    assert Dec(0) == "0";
    SinglePageParts(0);
  }

  // ---------------------------------------------------------------------------
  // Page selection and the reported page count
  // ---------------------------------------------------------------------------

  function RangeEndError(end: nat, count: nat): string
  {
    "Page range end (" + Dec(end) + ") exceeds document length (" + Dec(count) + ")"
  }

  /**
   * The pages a request processes: all of them without a range; with one
   * ending past the document, an error; otherwise the pages of the range,
   * in order. Draining a reversed range panics, hence the precondition.
   */
  function SelectPages<T>(pages: seq<T>, range: Option<Range>): (r: Result<seq<T>, string>)
    requires range.Some? ==> range.value.start <= range.value.end
    ensures r.Ok? <==> range.None? || range.value.end <= |pages|
    ensures r.Ok? && range.Some? ==>
      |r.value| == Len(range.value)
      && forall k :: 0 <= k < |r.value| ==> r.value[k] == pages[range.value.start + k]
    ensures r.Ok? && range.None? ==> r.value == pages
  {
    match range
    case None => Ok(pages)
    case Some(rg) =>
      if rg.end > |pages| then Err(RangeEndError(rg.end, |pages|)) else Ok(pages[rg.start..rg.end])
  }

  /** `get_doc_length`: the number of pages a request will process, or the same error. */
  function DocLength(count: nat, range: Option<Range>): (r: Result<nat, string>)
    ensures r.Ok? <==> range.None? || range.value.end <= count
    ensures r.Ok? ==> r.value == (if range.None? then count else Len(range.value))
  {
    match range
    case None => Ok(count)
    case Some(rg) => if rg.end > count then Err(RangeEndError(rg.end, count)) else Ok(Len(rg))
  }

  /** The count reported ahead of parsing is the number of pages then processed, and both fail alike. */
  lemma DocLengthMatchesSelection<T>(pages: seq<T>, range: Option<Range>)
    requires range.Some? ==> range.value.start <= range.value.end
    ensures var n := DocLength(|pages|, range);
      var s := SelectPages(pages, range);
      n.Ok? == s.Ok? && (n.Ok? ==> n.value == |s.value|) && (n.Err? ==> n.error == s.error)
  {
  }

  /** Every range the parser accepts selects whole pages of the document it fits, starting at the first page asked for. */
  lemma ParsedRangeSelects<T>(pages: seq<T>, s: string)
    requires ParsePageRange(s).Ok? && ParsePageRange(s).value.end <= |pages|
    ensures var rg := ParsePageRange(s).value;
      var sel := SelectPages(pages, Some(rg));
      sel.Ok? && |sel.value| == rg.end - rg.start > 0 && sel.value[0] == pages[rg.start]
  {
  }
}
