/** The validators: each passes, or fails with a `ValidationError` naming every offending value. */
module Validation {
  import opened Types

  /** `xs.filter(x => x < lo || x >= hi)`: the entries outside `[lo, hi)`, in their original order. */
  function OutsideRange(xs: seq<int>, lo: int, hi: int): (bad: seq<int>)
    ensures forall x :: x in bad <==> x in xs && !(lo <= x < hi)
    ensures |bad| <= |xs|
    ensures |bad| == 0 <==> AllInRange(xs, lo, hi)
    decreases |xs|
  {
    if xs == [] then []
    else
      var rest := OutsideRange(xs[1..], lo, hi);
      assert forall x :: x in xs <==> x == xs[0] || x in xs[1..];
      assert AllInRange(xs, lo, hi) <==> lo <= xs[0] < hi && AllInRange(xs[1..], lo, hi) by {
        assert forall i :: 0 < i < |xs| ==> xs[i] == xs[1..][i - 1];
      }
      (if lo <= xs[0] < hi then [] else [xs[0]]) + rest
  }

  /** `validatePDFFile`: the MIME type is checked first, then the size cap (inclusive). */
  function ValidatePDFFile(mimeType: string, size: int): (r: Outcome)
    ensures r.Pass? <==> mimeType == PDF_MIME_TYPE && size <= MAX_FILE_SIZE
    ensures mimeType != PDF_MIME_TYPE ==> r == Fail(WrongFileType)
    ensures r.Fail? && mimeType == PDF_MIME_TYPE ==> r == Fail(FileTooLarge)
  {
    if mimeType != PDF_MIME_TYPE then Fail(WrongFileType)
    else if size > MAX_FILE_SIZE then Fail(FileTooLarge)
    else Pass
  }

  /** A file of exactly 50 MiB is accepted; one byte more is refused. */
  lemma SizeCapIsInclusive()
    ensures ValidatePDFFile(PDF_MIME_TYPE, 52428800) == Pass
    ensures ValidatePDFFile(PDF_MIME_TYPE, 52428801) == Fail(FileTooLarge)
  {
  }

  /** `validatePageIndices`: non-empty, and every index inside `[0, totalPages)`. */
  function ValidatePageIndices(indices: seq<int>, totalPages: int): (r: Outcome)
    ensures r.Pass? <==> |indices| > 0 && AllInRange(indices, 0, totalPages)
    ensures |indices| == 0 ==> r == Fail(NoPagesSelected)
    ensures |indices| > 0 && r.Fail? ==>
      r.error.InvalidPageIndices? && r.error.totalPages == totalPages &&
      (forall x :: x in r.error.bad <==> x in indices && !(0 <= x < totalPages))
  {
    if |indices| == 0 then Fail(NoPagesSelected)
    else
      var bad := OutsideRange(indices, 0, totalPages);
      if |bad| > 0 then Fail(InvalidPageIndices(bad, totalPages)) else Pass
  }

  /** `validateSplitPoints`: non-empty, and every point strictly between 0 and `totalPages`. */
  function ValidateSplitPoints(points: seq<int>, totalPages: int): (r: Outcome)
    ensures r.Pass? <==> |points| > 0 && AllInRange(points, 1, totalPages)
    ensures |points| == 0 ==> r == Fail(NoSplitPoints)
    ensures |points| > 0 && r.Fail? ==>
      r.error.InvalidSplitPoints? && r.error.totalPages == totalPages &&
      (forall x :: x in r.error.bad <==> x in points && (x <= 0 || x >= totalPages))
  {
    if |points| == 0 then Fail(NoSplitPoints)
    else
      var bad := OutsideRange(points, 1, totalPages);
      if |bad| > 0 then Fail(InvalidSplitPoints(bad, totalPages)) else Pass
  }

  /** Points at the very start or end are refused, while a repeated interior point passes. */
  lemma SplitPointExamples()
    ensures ValidateSplitPoints([], 5) == Fail(NoSplitPoints)
    ensures ValidateSplitPoints([0, 5], 5).Fail?
    ensures ValidateSplitPoints([2, 2], 5) == Pass
  {
    assert OutsideRange([0, 5], 1, 5) == [0, 5];
  }

  /**
   * `validatePageOrder`: checks, in this order, non-emptiness, the range of every
   * entry, then the length; it never checks that the order is a permutation.
   */
  function ValidatePageOrder(order: seq<int>, totalPages: int): (r: Outcome)
    ensures r.Pass? <==> |order| > 0 && AllInRange(order, 0, totalPages) && |order| == totalPages
    ensures |order| == 0 ==> r == Fail(NothingToReorder)
    ensures |order| > 0 && !AllInRange(order, 0, totalPages) ==>
      r == Fail(InvalidPageIndices(OutsideRange(order, 0, totalPages), totalPages))
    ensures |order| > 0 && AllInRange(order, 0, totalPages) && |order| != totalPages ==>
      r == Fail(OrderLengthMismatch(|order|, totalPages))
  {
    if |order| == 0 then Fail(NothingToReorder)
    else
      var bad := OutsideRange(order, 0, totalPages);
      if |bad| > 0 then Fail(InvalidPageIndices(bad, totalPages))
      else if |order| != totalPages then Fail(OrderLengthMismatch(|order|, totalPages))
      else Pass
  }

  /** A page order that repeats one page and drops another still passes. */
  lemma PageOrderIsNotCheckedForPermutation()
    ensures ValidatePageOrder([0, 0, 1], 3) == Pass
  {
    assert AllInRange([0, 0, 1], 0, 3);
  }

  /**
   * `validateRedaction`: a page index outside the document is an error; otherwise
   * the box is kept iff both sides are positive. The page size is not consulted.
   */
  function ValidateRedaction(box: RedactionBox, totalPages: int, pageWidth: real, pageHeight: real): (r: Result<bool>)
    ensures r.Success? <==> 0 <= box.pageIndex < totalPages
    ensures r.Failure? ==> r.error == ValidationError(InvalidPageIndex(box.pageIndex, totalPages))
    ensures r.Success? ==> (r.value <==> box.width > 0.0 && box.height > 0.0)
  {
    if box.pageIndex < 0 || box.pageIndex >= totalPages then
      Failure(ValidationError(InvalidPageIndex(box.pageIndex, totalPages)))
    else if box.width <= 0.0 || box.height <= 0.0 then Success(false)
    else Success(true)
  }

  /** The verdict on a box does not depend on the page size passed in. */
  lemma RedactionIgnoresPageSize(box: RedactionBox, totalPages: int, w1: real, h1: real, w2: real, h2: real)
    ensures ValidateRedaction(box, totalPages, w1, h1) == ValidateRedaction(box, totalPages, w2, h2)
  {
  }

  /** `validatePDFDocument`: a document without pages is refused. */
  function ValidatePDFDocument(doc: Document): (r: Outcome)
    reads doc
    ensures r.Pass? <==> |doc.pages| > 0
    ensures r.Fail? ==> r.error == EmptyDocument
  {
    if |doc.pages| == 0 then Fail(EmptyDocument) else Pass
  }
}
