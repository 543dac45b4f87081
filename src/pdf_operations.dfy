/**
 * The executors. Extract, split, reorder and delete copy pages into fresh
 * documents; compress is the identity; redaction paints onto the pages of the
 * document it is given and returns that same document.
 */
module PdfOperations {
  import opened Types
  import opened Validation
  import opened NumericSort

  /** `Array.from({ length: end - start }, (_, i) => start + i)`. */
  function Range(start: int, end: int): (r: seq<int>)
    requires start <= end
    ensures |r| == end - start
    ensures forall k :: 0 <= k < |r| ==> r[k] == start + k
  {
    seq(end - start, k => start + k)
  }

  /** The pages at `indices`, in the order the indices are given. */
  function Gather(pages: seq<Page>, indices: seq<int>): (r: seq<Page>)
    requires AllInRange(indices, 0, |pages|)
    ensures |r| == |indices|
    ensures forall k :: 0 <= k < |indices| ==> r[k] == pages[indices[k]]
  {
    seq(|indices|, k requires 0 <= k < |indices| => pages[indices[k]])
  }

  lemma GatherRange(pages: seq<Page>, start: int, end: int)
    requires 0 <= start <= end <= |pages|
    ensures AllInRange(Range(start, end), 0, |pages|)
    ensures Gather(pages, Range(start, end)) == pages[start..end]
  {
  }

  /** `PDFDocument.create()`, then `copyPages(src, indices)` and one `addPage` per copy. */
  method CopyPages(src: Document, indices: seq<int>) returns (d: Document)
    requires AllInRange(indices, 0, |src.pages|)
    ensures fresh(d)
    ensures d.pages == Gather(src.pages, indices)
  {
    d := new Document.Create();
    var copiedPages := Gather(src.pages, indices);
    var i := 0;
    while i < |copiedPages|
      invariant 0 <= i <= |copiedPages|
      invariant d.pages == copiedPages[..i]
    {
      d.AddPage(copiedPages[i]);
      i := i + 1;
    }
  }

  /** The page sequence behind a document result. */
  function Pages(r: Result<Document>): Result<seq<Page>>
    reads if r.Success? then {r.value} else {}
  {
    match r
    case Success(d) => Success(d.pages)
    case Failure(e) => Failure(e)
  }

  // ---------------------------------------------------------------- extract

  /** `extractPages` on a page sequence: validated indices, copied in the given order, never sorted. */
  function ExtractResult(pages: seq<Page>, indices: seq<int>): (r: Result<seq<Page>>)
    ensures r.Success? <==> |indices| > 0 && AllInRange(indices, 0, |pages|)
    ensures r.Success? ==>
      |r.value| == |indices| && forall k :: 0 <= k < |indices| ==> r.value[k] == pages[indices[k]]
    ensures r.Failure? ==> r.error == ValidationError(ValidatePageIndices(indices, |pages|).error)
  {
    match ValidatePageIndices(indices, |pages|)
    case Fail(e) => Failure(ValidationError(e))
    case Pass => Success(Gather(pages, indices))
  }

  /** The indices are used as given: extracting `[1, 0]` yields the second page first. */
  lemma ExtractKeepsGivenOrder(pages: seq<Page>)
    requires |pages| >= 2
    ensures ExtractResult(pages, [1, 0]) == Success([pages[1], pages[0]])
  {
    assert AllInRange([1, 0], 0, |pages|);
    var r := ExtractResult(pages, [1, 0]);
    assert r.value == [pages[1], pages[0]];
  }

  method ExtractPages(doc: Document, indices: seq<int>) returns (r: Result<Document>)
    ensures Pages(r) == ExtractResult(doc.pages, indices)
    ensures r.Success? ==> fresh(r.value)
  {
    var v := ValidatePageIndices(indices, |doc.pages|);
    if v.Fail? {
      return Failure(ValidationError(v.error));
    }
    var newPdf := CopyPages(doc, indices);
    return Success(newPdf);
  }

  // ------------------------------------------------------------------ split

  predicate Bounded(bounds: seq<int>, n: int)
  {
    forall i :: 0 <= i < |bounds| ==> 0 <= bounds[i] <= n
  }

  predicate NonDecreasing(bounds: seq<int>)
  {
    forall i :: 0 <= i < |bounds| - 1 ==> bounds[i] <= bounds[i + 1]
  }

  /** For each adjacent pair `(s, e)` of `bounds` with `s < e`, the pages `[s, e)`; other pairs are skipped. */
  function Segments(pages: seq<Page>, bounds: seq<int>): (r: seq<seq<Page>>)
    requires Bounded(bounds, |pages|)
    ensures forall k :: 0 <= k < |r| ==> |r[k]| > 0
    ensures |r| <= if |bounds| < 2 then 0 else |bounds| - 1
    decreases |bounds|
  {
    if |bounds| < 2 then []
    else
      var n := |bounds|;
      var s, e := bounds[n - 2], bounds[n - 1];
      Segments(pages, bounds[..n - 1]) + (if s < e then [pages[s..e]] else [])
  }

  /** The parts laid end to end. */
  function Concat(parts: seq<seq<Page>>): seq<Page>
  {
    if parts == [] then [] else Concat(parts[..|parts| - 1]) + parts[|parts| - 1]
  }

  lemma ConcatSnoc(parts: seq<seq<Page>>, part: seq<Page>)
    ensures Concat(parts + [part]) == Concat(parts) + part
  {
    assert (parts + [part])[..|parts|] == parts;
  }

  /** Segments of boundaries that start at 0 and never decrease cover every page before the last boundary, in order. */
  lemma {:induction false} SegmentsConcat(pages: seq<Page>, bounds: seq<int>)
    requires |bounds| >= 1 && bounds[0] == 0
    requires Bounded(bounds, |pages|) && NonDecreasing(bounds)
    ensures Concat(Segments(pages, bounds)) == pages[..bounds[|bounds| - 1]]
    decreases |bounds|
  {
    var n := |bounds|;
    if n >= 2 {
      var prefix := bounds[..n - 1];
      var s, e := bounds[n - 2], bounds[n - 1];
      assert Bounded(prefix, |pages|) &&
        Segments(pages, bounds) == Segments(pages, prefix) + (if s < e then [pages[s..e]] else []) by {
        SegmentsStep(pages, bounds, n - 2);
        assert bounds[..n] == bounds;
      }
      assert prefix[0] == 0 && prefix[n - 2] == s && s <= e;
      assert NonDecreasing(prefix) by {
        forall k | 0 <= k < |prefix| - 1 ensures prefix[k] <= prefix[k + 1] {
          assert prefix[k] == bounds[k] && prefix[k + 1] == bounds[k + 1];
        }
      }
      SegmentsConcat(pages, prefix);
      ConcatSegmentStep(pages, Segments(pages, prefix), s, e);
      assert bounds[n - 1] == e;
    }
  }

  lemma ConcatSegmentStep(pages: seq<Page>, before: seq<seq<Page>>, s: int, e: int)
    requires 0 <= s <= e <= |pages| && Concat(before) == pages[..s]
    ensures Concat(before + (if s < e then [pages[s..e]] else [])) == pages[..e]
  {
    if s < e {
      ConcatSnoc(before, pages[s..e]);
      assert pages[..s] + pages[s..e] == pages[..e];
    } else {
      assert before + [] == before;
    }
  }

  /** With strictly increasing boundaries no pair is skipped. */
  lemma {:induction false} SegmentsOfStrictBounds(pages: seq<Page>, bounds: seq<int>)
    requires |bounds| >= 1 && Bounded(bounds, |pages|)
    requires forall i :: 0 <= i < |bounds| - 1 ==> bounds[i] < bounds[i + 1]
    ensures |Segments(pages, bounds)| == |bounds| - 1
    decreases |bounds|
  {
    if |bounds| >= 2 {
      SegmentsOfStrictBounds(pages, bounds[..|bounds| - 1]);
    }
  }

  /** `[0, ...points sorted ascending, totalPages]`. */
  function SplitBoundaries(points: seq<int>, totalPages: int): seq<int>
  {
    [0] + SortAscending(points) + [totalPages]
  }

  lemma FramedShape(xs: seq<int>, totalPages: int)
    requires Sorted(xs) && AllInRange(xs, 1, totalPages) && totalPages >= 0
    ensures Bounded([0] + xs + [totalPages], totalPages)
    ensures NonDecreasing([0] + xs + [totalPages])
  {
    var bounds := [0] + xs + [totalPages];
    assert forall k :: 0 <= k < |xs| ==> bounds[k + 1] == xs[k];
    forall i | 0 <= i < |bounds| - 1 ensures bounds[i] <= bounds[i + 1] {
      if 0 < i < |bounds| - 2 {
        assert bounds[i] == xs[i - 1] && bounds[i + 1] == xs[i];
      }
    }
  }

  lemma SplitBoundariesShape(points: seq<int>, totalPages: int)
    requires AllInRange(points, 1, totalPages) && totalPages >= 0
    ensures Bounded(SplitBoundaries(points, totalPages), totalPages)
    ensures NonDecreasing(SplitBoundaries(points, totalPages))
  {
    SortKeepsBounds(points, 1, totalPages);
    FramedShape(SortAscending(points), totalPages);
  }

  /** The parts cut at `[0, ...sorted points, total]`. */
  function SplitSegments(pages: seq<Page>, points: seq<int>): seq<seq<Page>>
    requires AllInRange(points, 1, |pages|)
  {
    SplitBoundariesShape(points, |pages|);
    Segments(pages, SplitBoundaries(points, |pages|))
  }

  /**
   * For points inside the document, no part is empty, there is at most one
   * part more than there are points, and laid end to end the parts are the
   * whole document.
   */
  lemma SplitSegmentsShape(pages: seq<Page>, points: seq<int>)
    requires AllInRange(points, 1, |pages|)
    ensures var r := SplitSegments(pages, points);
      (forall k :: 0 <= k < |r| ==> |r[k]| > 0) && |r| <= |points| + 1 && Concat(r) == pages
  {
    var bounds := SplitBoundaries(points, |pages|);
    SplitBoundariesShape(points, |pages|);
    SegmentsConcat(pages, bounds);
    assert pages[..bounds[|bounds| - 1]] == pages;
  }

  /** `splitPDF` on a page sequence. */
  function SplitResult(pages: seq<Page>, points: seq<int>): (r: Result<seq<seq<Page>>>)
    ensures r.Success? ==> ValidateSplitPoints(points, |pages|).Pass?
    ensures ValidateSplitPoints(points, |pages|).Fail? ==>
      r == Failure(ValidationError(ValidateSplitPoints(points, |pages|).error))
  {
    match ValidateSplitPoints(points, |pages|)
    case Fail(e) => Failure(ValidationError(e))
    case Pass =>
      var parts := SplitSegments(pages, points);
      if |parts| == 0 then Failure(ProcessingError(SplitStep)) else Success(parts)
  }

  /**
   * Whenever the points pass validation the split succeeds (its "no valid split"
   * error is unreachable) and its parts, laid end to end, give back the document.
   */
  lemma SplitReassembles(pages: seq<Page>, points: seq<int>)
    requires ValidateSplitPoints(points, |pages|).Pass?
    ensures SplitResult(pages, points).Success?
    ensures Concat(SplitResult(pages, points).value) == pages
  {
    var bounds := SplitBoundaries(points, |pages|);
    SplitBoundariesShape(points, |pages|);
    SegmentsConcat(pages, bounds);
    assert pages[..bounds[|bounds| - 1]] == pages;
    assert |pages| > 0 by {
      assert 1 <= points[0] < |pages|;
    }
  }

  /** Distinct valid points cut the document into exactly one more part than there are points. */
  lemma SplitPartCount(pages: seq<Page>, points: seq<int>)
    requires ValidateSplitPoints(points, |pages|).Pass?
    requires Distinct(points)
    ensures SplitResult(pages, points).Success?
    ensures |SplitResult(pages, points).value| == |points| + 1
  {
    SplitReassembles(pages, points);
    SplitBoundariesShape(points, |pages|);
    var sorted := SortAscending(points);
    SortKeepsDistinct(points);
    SortKeepsBounds(points, 1, |pages|);
    StrictFrame(sorted, |pages|);
    SegmentsOfStrictBounds(pages, SplitBoundaries(points, |pages|));
  }

  lemma SegmentsOfTwoCuts(pages: seq<Page>, p: int, q: int)
    requires 1 <= p <= q < |pages|
    ensures var r := Segments(pages, [0, p, q, |pages|]);
      r[0] == pages[..p] && r[|r| - 1] == pages[q..] &&
      (p < q ==> |r| == 3 && r[1] == pages[p..q]) &&
      (p == q ==> |r| == 2)
  {
    var b3 := [0, p, q];
    var b2 := [0, p];
    assert [0, p, q, |pages|][..3] == b3;
    assert b3[..2] == b2;
    assert b2[..1] == [0];
    var s2 := Segments(pages, b2);
    assert s2 == [pages[0..p]];
    var s3 := Segments(pages, b3);
    assert s3 == s2 + (if p < q then [pages[p..q]] else []);
    assert Segments(pages, [0, p, q, |pages|]) == s3 + [pages[q..|pages|]];
  }

  /** Two ascending points inside the document split it along `[0, p, q, |pages|]`. */
  lemma SplitAtTwoPoints(pages: seq<Page>, p: int, q: int)
    requires 1 <= p <= q < |pages|
    ensures SplitResult(pages, [p, q]) == Success(Segments(pages, [0, p, q, |pages|]))
  {
    PairIsValid(p, q, |pages|);
    PairBoundaries(p, q, |pages|);
    SegmentsOfTwoCuts(pages, p, q);
  }

  lemma PairIsValid(p: int, q: int, totalPages: int)
    requires 1 <= p <= q < totalPages
    ensures ValidateSplitPoints([p, q], totalPages) == Pass
  {
    assert AllInRange([p, q], 1, totalPages);
  }

  lemma PairBoundaries(p: int, q: int, totalPages: int)
    requires p <= q
    ensures SplitBoundaries([p, q], totalPages) == [0, p, q, totalPages]
  {
    assert [p, q][1..] == [q] && [q][1..] == [];
  }

  /** A five-page document cut at 2 and 4 comes apart into parts of 2, 2 and 1 pages. */
  lemma SplitFiveAtTwoAndFour(pages: seq<Page>)
    requires |pages| == 5
    ensures var r := SplitResult(pages, [2, 4]);
      r.Success? && |r.value| == 3 &&
      r.value[0] == pages[..2] && r.value[1] == pages[2..4] && r.value[2] == pages[4..]
  {
    SplitAtTwoPoints(pages, 2, 4);
    SegmentsOfTwoCuts(pages, 2, 4);
  }

  /** A repeated point opens an empty pair of boundaries, which is skipped: cutting five pages at 2 twice gives two parts. */
  lemma SplitSkipsRepeatedPoint(pages: seq<Page>)
    requires |pages| == 5
    ensures var r := SplitResult(pages, [2, 2]);
      r.Success? && |r.value| == 2 && r.value[0] == pages[..2] && r.value[1] == pages[2..]
  {
    SplitAtTwoPoints(pages, 2, 2);
    SegmentsOfTwoCuts(pages, 2, 2);
  }

  lemma StrictFrame(xs: seq<int>, totalPages: int)
    requires |xs| > 0 && AllInRange(xs, 1, totalPages)
    requires forall i :: 0 <= i < |xs| - 1 ==> xs[i] < xs[i + 1]
    ensures var bounds := [0] + xs + [totalPages];
      forall i :: 0 <= i < |bounds| - 1 ==> bounds[i] < bounds[i + 1]
  {
    var bounds := [0] + xs + [totalPages];
    forall i | 0 <= i < |bounds| - 1 ensures bounds[i] < bounds[i + 1] {
      if i == 0 {
        assert bounds[1] == xs[0];
      } else if i == |bounds| - 2 {
        assert bounds[i] == xs[|xs| - 1];
      } else {
        assert bounds[i] == xs[i - 1] && bounds[i + 1] == xs[i];
      }
    }
  }

  lemma SegmentsStep(pages: seq<Page>, bounds: seq<int>, i: nat)
    requires Bounded(bounds, |pages|) && i + 1 < |bounds|
    ensures Bounded(bounds[..i + 1], |pages|) && Bounded(bounds[..i + 2], |pages|)
    ensures Segments(pages, bounds[..i + 2]) == Segments(pages, bounds[..i + 1])
      + (if bounds[i] < bounds[i + 1] then [pages[bounds[i]..bounds[i + 1]]] else [])
  {
    var n := |pages|;
    var pre := bounds[..i + 2];
    assert Bounded(pre, n) by {
      forall k | 0 <= k < |pre| ensures 0 <= pre[k] <= n {
        assert pre[k] == bounds[k];
      }
    }
    var pre1 := bounds[..i + 1];
    assert Bounded(pre1, n) by {
      forall k | 0 <= k < |pre1| ensures 0 <= pre1[k] <= n {
        assert pre1[k] == bounds[k];
      }
    }
    assert |pre| == i + 2 && pre[..i + 1] == bounds[..i + 1];
    assert pre[i] == bounds[i] && pre[i + 1] == bounds[i + 1];
    assert Segments(pages, pre) == Segments(pages, pre[..i + 1])
      + (if pre[i] < pre[i + 1] then [pages[pre[i]..pre[i + 1]]] else []);
  }

  lemma InRangeTransfers(xs: seq<int>, ys: seq<int>, lo: int, hi: int)
    requires multiset(xs) == multiset(ys) && AllInRange(xs, lo, hi)
    ensures AllInRange(ys, lo, hi)
  {
    forall k | 0 <= k < |ys| ensures lo <= ys[k] < hi {
      assert ys[k] in multiset(xs);
      var j :| 0 <= j < |xs| && xs[j] == ys[k];
    }
  }

  /** The order in which the split points are listed changes neither whether the split succeeds nor its parts. */
  lemma SplitIgnoresPointOrder(pages: seq<Page>, xs: seq<int>, ys: seq<int>)
    requires multiset(xs) == multiset(ys)
    ensures SplitResult(pages, xs).Success? <==> SplitResult(pages, ys).Success?
    ensures SplitResult(pages, xs).Success? ==> SplitResult(pages, xs) == SplitResult(pages, ys)
  {
    assert |xs| == |multiset(xs)| == |multiset(ys)| == |ys|;
    if AllInRange(xs, 1, |pages|) {
      InRangeTransfers(xs, ys, 1, |pages|);
    }
    if AllInRange(ys, 1, |pages|) {
      InRangeTransfers(ys, xs, 1, |pages|);
    }
    SortDeterminedByElements(xs, ys);
  }

  /** The pages of every document in `docs`, in order. */
  function PagesOfAll(docs: seq<Document>): (r: seq<seq<Page>>)
    reads set d | d in docs
    ensures |r| == |docs|
    ensures forall k :: 0 <= k < |docs| ==> r[k] == docs[k].pages
  {
    if docs == [] then [] else PagesOfAll(docs[..|docs| - 1]) + [docs[|docs| - 1].pages]
  }

  lemma PagesOfAllSnoc(docs: seq<Document>, d: Document)
    ensures PagesOfAll(docs + [d]) == PagesOfAll(docs) + [d.pages]
  {
    assert (docs + [d])[..|docs|] == docs;
  }

  /** One turn of the loop of `splitPDF`: the pair `(bounds[i], bounds[i + 1])` copied when not empty. */
  method CopySegment(doc: Document, bounds: seq<int>, i: nat, splits: seq<Document>) returns (next: seq<Document>)
    requires i + 1 < |bounds| && Bounded(bounds, |doc.pages|)
    requires Bounded(bounds[..i + 1], |doc.pages|)
    requires PagesOfAll(splits) == Segments(doc.pages, bounds[..i + 1])
    ensures Bounded(bounds[..i + 2], |doc.pages|)
    ensures PagesOfAll(next) == Segments(doc.pages, bounds[..i + 2])
    ensures forall d :: d in next ==> d in splits || fresh(d)
  {
    SegmentsStep(doc.pages, bounds, i);
    var start, end := bounds[i], bounds[i + 1];
    if start < end {
      GatherRange(doc.pages, start, end);
      var newPdf := CopyPages(doc, Range(start, end));
      PagesOfAllSnoc(splits, newPdf);
      next := splits + [newPdf];
    } else {
      next := splits;
    }
  }

  /** The loop of `splitPDF`: one fresh document per non-empty boundary pair. */
  method CopySegments(doc: Document, bounds: seq<int>) returns (splits: seq<Document>)
    requires |bounds| >= 2 && Bounded(bounds, |doc.pages|)
    ensures PagesOfAll(splits) == Segments(doc.pages, bounds)
    ensures forall d :: d in splits ==> fresh(d)
  {
    splits := [];
    var i := 0;
    assert Bounded(bounds[..1], |doc.pages|);
    while i < |bounds| - 1
      invariant 0 <= i <= |bounds| - 1
      invariant Bounded(bounds[..i + 1], |doc.pages|)
      invariant PagesOfAll(splits) == Segments(doc.pages, bounds[..i + 1])
      invariant forall d :: d in splits ==> fresh(d)
    {
      splits := CopySegment(doc, bounds, i, splits);
      i := i + 1;
    }
    assert bounds[..|bounds|] == bounds;
  }

  method SplitPDF(doc: Document, points: seq<int>) returns (r: Result<seq<Document>>)
    ensures r.Success? <==> SplitResult(doc.pages, points).Success?
    ensures r.Success? ==> PagesOfAll(r.value) == SplitResult(doc.pages, points).value
    ensures r.Success? ==> forall d :: d in r.value ==> fresh(d)
    ensures r.Failure? ==> r.error == SplitResult(doc.pages, points).error
  {
    var v := ValidateSplitPoints(points, |doc.pages|);
    if v.Fail? {
      return Failure(ValidationError(v.error));
    }
    var sortedPoints := [0] + SortAscending(points) + [|doc.pages|];
    SplitBoundariesShape(points, |doc.pages|);
    var splits := CopySegments(doc, sortedPoints);
    if |splits| == 0 {
      return Failure(ProcessingError(SplitStep));
    }
    return Success(splits);
  }

  // --------------------------------------------------------------- compress

  /** `compressPDF`: hands back the very same document; packing happens only when saving. */
  function CompressPDF(doc: Document): (r: Result<Document>)
    ensures r.Success? && r.value == doc
  {
    Success(doc)
  }

  // ----------------------------------------------------------------- redact

  /**
   * Display space has its origin at the top-left, page space at the bottom-left:
   * the painted rectangle keeps x, width and height and its top edge lies
   * `box.y` below the top of the page.
   */
  function PageSpaceRect(box: RedactionBox, pageHeight: real): (f: Fill)
    ensures f.x == box.x && f.width == box.width && f.height == box.height
    ensures f.y + f.height == pageHeight - box.y
  {
    Fill(box.x, pageHeight - box.y - box.height, box.width, box.height)
  }

  /** A box touching the top of the display lands at the top of the page, one touching the bottom at the bottom. */
  lemma FlipEdges(box: RedactionBox, pageHeight: real)
    ensures box.y == 0.0 ==> PageSpaceRect(box, pageHeight).y == pageHeight - box.height
    ensures box.y == pageHeight - box.height ==> PageSpaceRect(box, pageHeight).y == 0.0
  {
  }

  /** What `validateRedaction` keeps: both sides positive. */
  predicate Kept(box: RedactionBox)
  {
    box.width > 0.0 && box.height > 0.0
  }

  predicate OnPages(boxes: seq<RedactionBox>, n: int)
  {
    forall k :: 0 <= k < |boxes| ==> 0 <= boxes[k].pageIndex < n
  }

  /** One box painted: skipped when degenerate, otherwise one fill more on its page. */
  function Paint(pages: seq<Page>, box: RedactionBox): seq<Page>
    requires 0 <= box.pageIndex < |pages|
  {
    if !Kept(box) then pages
    else
      var p := pages[box.pageIndex];
      pages[box.pageIndex := p.(fills := p.fills + [PageSpaceRect(box, p.height)])]
  }

  /** The boxes painted one after the other; page count, contents and sizes stay as they were. */
  function PaintAll(pages: seq<Page>, boxes: seq<RedactionBox>): (r: seq<Page>)
    requires OnPages(boxes, |pages|)
    ensures |r| == |pages|
    ensures forall i :: 0 <= i < |pages| ==>
      r[i].content == pages[i].content && r[i].width == pages[i].width && r[i].height == pages[i].height
    decreases |boxes|
  {
    if boxes == [] then pages
    else Paint(PaintAll(pages, boxes[..|boxes| - 1]), boxes[|boxes| - 1])
  }

  /** The page-space fills that the kept boxes on page `i` produce, in box order. */
  function FillsFor(boxes: seq<RedactionBox>, i: int, pageHeight: real): seq<Fill>
  {
    if boxes == [] then []
    else
      var last := boxes[|boxes| - 1];
      FillsFor(boxes[..|boxes| - 1], i, pageHeight)
        + (if last.pageIndex == i && Kept(last) then [PageSpaceRect(last, pageHeight)] else [])
  }

  /** Each page ends up with its old fills followed by one flipped fill per kept box aimed at it. */
  lemma {:induction false} PaintAllFills(pages: seq<Page>, boxes: seq<RedactionBox>)
    requires OnPages(boxes, |pages|)
    ensures forall i :: 0 <= i < |pages| ==>
      PaintAll(pages, boxes)[i].fills == pages[i].fills + FillsFor(boxes, i, pages[i].height)
    decreases |boxes|
  {
    if boxes != [] {
      var prefix := boxes[..|boxes| - 1];
      PaintAllFills(pages, prefix);
    }
  }

  /** Index of the first box whose page does not exist, or `|boxes|`. */
  function FirstOffPage(boxes: seq<RedactionBox>, n: int): (k: nat)
    ensures k <= |boxes|
    ensures forall j :: 0 <= j < k ==> 0 <= boxes[j].pageIndex < n
    ensures k < |boxes| ==> !(0 <= boxes[k].pageIndex < n)
    decreases |boxes|
  {
    if boxes == [] then 0
    else if !(0 <= boxes[0].pageIndex < n) then 0
    else 1 + FirstOffPage(boxes[1..], n)
  }

  /** The pages of the redacted document afterwards, whether or not the batch succeeded. */
  function RedactedPages(pages: seq<Page>, boxes: seq<RedactionBox>): seq<Page>
  {
    PaintAll(pages, boxes[..FirstOffPage(boxes, |pages|)])
  }

  /**
   * Afterwards, whether or not the batch succeeded, the document keeps its page
   * count, contents and sizes, and each page holds its old fills followed by
   * one flipped fill per kept box aimed at it, up to the first box on a
   * missing page.
   */
  lemma RedactedPagesSpec(pages: seq<Page>, boxes: seq<RedactionBox>)
    ensures var r := RedactedPages(pages, boxes);
      |r| == |pages| &&
      forall i :: 0 <= i < |pages| ==>
        r[i].content == pages[i].content && r[i].width == pages[i].width && r[i].height == pages[i].height &&
        r[i].fills == pages[i].fills + FillsFor(boxes[..FirstOffPage(boxes, |pages|)], i, pages[i].height)
  {
    var painted := boxes[..FirstOffPage(boxes, |pages|)];
    assert OnPages(painted, |pages|) by {
      forall j | 0 <= j < |painted| ensures 0 <= painted[j].pageIndex < |pages| {
        assert painted[j] == boxes[j];
      }
    }
    PaintAllFills(pages, painted);
  }

  /**
   * `applyRedactions` on a page sequence. An empty list is a `ValidationError`;
   * a box on a missing page fails as a `ProcessingError` (the page lookup throws
   * before `validateRedaction` runs, and the catch wraps whatever it gets).
   */
  function RedactResult(pages: seq<Page>, boxes: seq<RedactionBox>): (r: Result<seq<Page>>)
    ensures |boxes| == 0 ==> r == Failure(ValidationError(NoRedactions))
    ensures r.Success? <==> |boxes| > 0 && OnPages(boxes, |pages|)
    ensures |boxes| > 0 && r.Failure? ==> r.error == ProcessingError(RedactStep)
    ensures r.Success? ==> r.value == RedactedPages(pages, boxes)
  {
    if |boxes| == 0 then Failure(ValidationError(NoRedactions))
    else if FirstOffPage(boxes, |pages|) < |boxes| then Failure(ProcessingError(RedactStep))
    else
      assert boxes[..|boxes|] == boxes;
      Success(PaintAll(pages, boxes))
  }

  /** A failed batch is not undone: every box before the first one on a missing page stays painted. */
  lemma FailedBatchKeepsEarlierPaint(pages: seq<Page>, boxes: seq<RedactionBox>, k: nat)
    requires |boxes| > 0 && k < |boxes|
    requires OnPages(boxes[..k], |pages|) && !(0 <= boxes[k].pageIndex < |pages|)
    ensures RedactResult(pages, boxes).Failure?
    ensures RedactedPages(pages, boxes) == PaintAll(pages, boxes[..k])
  {
    forall j | 0 <= j < k ensures 0 <= boxes[j].pageIndex < |pages| {
      assert boxes[..k][j] == boxes[j];
    }
    assert FirstOffPage(boxes, |pages|) == k;
  }

  method ApplyRedactions(doc: Document, boxes: seq<RedactionBox>) returns (r: Result<Document>)
    modifies doc
    ensures r == (if RedactResult(old(doc.pages), boxes).Success? then Success(doc)
                  else Failure(RedactResult(old(doc.pages), boxes).error))
    ensures doc.pages == RedactedPages(old(doc.pages), boxes)
  {
    if |boxes| == 0 {
      return Failure(ValidationError(NoRedactions));
    }
    var totalPages := |doc.pages|;
    var i := 0;
    while i < |boxes|
      invariant 0 <= i <= |boxes|
      invariant i <= FirstOffPage(boxes, totalPages)
      invariant |doc.pages| == totalPages
      invariant doc.pages == PaintAll(old(doc.pages), boxes[..i])
    {
      var box := boxes[i];
      assert boxes[..i + 1][..i] == boxes[..i];
      if !(0 <= box.pageIndex < |doc.pages|) {
        // `pages[box.pageIndex]` is undefined and `getSize()` throws; the catch wraps it.
        return Failure(ProcessingError(RedactStep));
      }
      var page := doc.pages[box.pageIndex];
      var keep := ValidateRedaction(box, totalPages, page.width, page.height);
      assert keep.Success?;
      if keep.value {
        doc.DrawRectangle(box.pageIndex, PageSpaceRect(box, page.height));
      }
      i := i + 1;
    }
    assert boxes[..|boxes|] == boxes;
    return Success(doc);
  }

  // ---------------------------------------------------------- reorder, delete

  /** `reorderPages` on a page sequence: page `k` of the result is page `order[k]` of the input. */
  function ReorderResult(pages: seq<Page>, order: seq<int>): (r: Result<seq<Page>>)
    ensures r.Success? <==> ValidatePageOrder(order, |pages|).Pass?
    ensures r.Success? ==>
      |r.value| == |pages| && forall k :: 0 <= k < |order| ==> r.value[k] == pages[order[k]]
    ensures r.Failure? ==> r.error == ValidationError(ValidatePageOrder(order, |pages|).error)
  {
    match ValidatePageOrder(order, |pages|)
    case Fail(e) => Failure(ValidationError(e))
    case Pass => Success(Gather(pages, order))
  }

  /** An order that repeats a page passes and duplicates that page while dropping another. */
  lemma ReorderMayDuplicate(a: Page, b: Page, c: Page)
    ensures ReorderResult([a, b, c], [0, 0, 1]) == Success([a, a, b])
  {
    PageOrderIsNotCheckedForPermutation();
    var r := ReorderResult([a, b, c], [0, 0, 1]);
    assert r.value == [a, a, b];
  }

  method ReorderPages(doc: Document, order: seq<int>) returns (r: Result<Document>)
    ensures Pages(r) == ReorderResult(doc.pages, order)
    ensures r.Success? ==> fresh(r.value)
  {
    var v := ValidatePageOrder(order, |doc.pages|);
    if v.Fail? {
      return Failure(ValidationError(v.error));
    }
    var newPdf := CopyPages(doc, order);
    return Success(newPdf);
  }

  /** `deletePages` on a page sequence: keeps exactly the pages of `keep`, in `keep` order. */
  function DeleteResult(pages: seq<Page>, keep: seq<int>): (r: Result<seq<Page>>)
    ensures |keep| == 0 ==> r == Failure(ValidationError(CannotDeleteAllPages))
    ensures r.Success? <==> |keep| > 0 && AllInRange(keep, 0, |pages|)
    ensures r.Success? ==>
      |r.value| == |keep| && forall k :: 0 <= k < |keep| ==> r.value[k] == pages[keep[k]]
    ensures |keep| > 0 && r.Failure? ==> r.error == ValidationError(ValidatePageIndices(keep, |pages|).error)
  {
    if |keep| == 0 then Failure(ValidationError(CannotDeleteAllPages))
    else
      match ValidatePageIndices(keep, |pages|)
      case Fail(e) => Failure(ValidationError(e))
      case Pass => Success(Gather(pages, keep))
  }

  method DeletePages(doc: Document, keep: seq<int>) returns (r: Result<Document>)
    ensures Pages(r) == DeleteResult(doc.pages, keep)
    ensures r.Success? ==> fresh(r.value)
  {
    if |keep| == 0 {
      return Failure(ValidationError(CannotDeleteAllPages));
    }
    var v := ValidatePageIndices(keep, |doc.pages|);
    if v.Fail? {
      return Failure(ValidationError(v.error));
    }
    var newPdf := CopyPages(doc, keep);
    return Success(newPdf);
  }
}
