/**
 * `usePDFOperationsWithContext`: the handlers behind the toolbar. Extract, split
 * and compress read the source document and hand out downloads; redaction and
 * reorder commit into the working copy through `ApplyOperationToWorkingDoc`;
 * download saves the working copy under `generateFilename`.
 */
module ContextOperations {
  import opened Types
  import opened NumericSort
  import opened PdfOperations
  import opened AppStore
  import opened UiState
  import opened FileUtils
  import opened Chain
  import opened Validation

  /** `${name.replace('.pdf', '')}-page-N.pdf` for one page, `-pages-F-L.pdf` for several (1-based). */
  function ExtractFilename(name: string, indices: seq<int>): (r: string)
    requires |indices| > 0 && indices[0] >= 0 && indices[|indices| - 1] >= 0
    ensures |r| > |StripPdf(name)| + 6
    ensures r[..|StripPdf(name)|] == StripPdf(name) && r[|StripPdf(name)|..|StripPdf(name)| + 5] == "-page"
    ensures r[|StripPdf(name)| + 5] == 's' <==> |indices| > 1
    ensures r[|r| - 4..] == PDF_EXTENSION
  {
    var pageRange :=
      if |indices| == 1 then "page-" + NatToString(indices[0] + 1)
      else "pages-" + NatToString(indices[0] + 1) + "-" + NatToString(indices[|indices| - 1] + 1);
    StripPdf(name) + "-" + pageRange + PDF_EXTENSION
  }

  /** A one-page extract name reads back, after the stripped name and `-page-`, as the 1-based page, then `.pdf`. */
  lemma ExtractFilenameReadsBackPage(name: string, indices: seq<int>)
    requires |indices| == 1 && indices[0] >= 0
    ensures var r, b := ExtractFilename(name, indices), |StripPdf(name)|;
      b + 6 <= |r| && r[b..b + 6] == "-page-" &&
      var n := DigitRun(r[b + 6..]);
      ParseDigits(r[b + 6..][..n]) == indices[0] + 1 && r[b + 6..][n..] == PDF_EXTENSION
  {
    var stem := StripPdf(name);
    var a := NatToString(indices[0] + 1);
    var r := ExtractFilename(name, indices);
    assert r == stem + "-page-" + a + PDF_EXTENSION;
    assert r[|stem|..|stem| + 6] == "-page-";
    assert r[|stem| + 6..] == a + PDF_EXTENSION;
    ReadBackNumber(a + PDF_EXTENSION, indices[0] + 1, PDF_EXTENSION);
  }

  /** `s` reads as the number `x`, a `-`, the number `y`, then `.pdf`. */
  predicate ReadsAsPair(s: string, x: nat, y: nat)
  {
    var n1 := DigitRun(s);
    ParseDigits(s[..n1]) == x && n1 < |s| && s[n1] == '-' &&
    var rest := s[n1 + 1..];
    var n2 := DigitRun(rest);
    ParseDigits(rest[..n2]) == y && rest[n2..] == PDF_EXTENSION
  }

  lemma ReadBackPair(x: nat, y: nat)
    ensures ReadsAsPair(NatToString(x) + ("-" + (NatToString(y) + PDF_EXTENSION)), x, y)
  {
    var a, z := NatToString(x), NatToString(y);
    var tail := "-" + (z + PDF_EXTENSION);
    var s := a + tail;
    ReadBackNumber(s, x, tail);
    var n1 := DigitRun(s);
    assert s[n1..] == tail && s[n1] == '-';
    var rest := s[n1 + 1..];
    assert rest == tail[1..] == z + PDF_EXTENSION;
    ReadBackNumber(rest, y, PDF_EXTENSION);
  }

  /**
   * A several-page extract name reads back, after the stripped name and
   * `-pages-`, as the 1-based first page, `-`, the 1-based last page, then `.pdf`.
   */
  lemma ExtractFilenameReadsBackRange(name: string, indices: seq<int>)
    requires |indices| > 1 && indices[0] >= 0 && indices[|indices| - 1] >= 0
    ensures var r, b := ExtractFilename(name, indices), |StripPdf(name)|;
      b + 7 <= |r| && r[b..b + 7] == "-pages-" &&
      ReadsAsPair(r[b + 7..], indices[0] + 1, indices[|indices| - 1] + 1)
  {
    var stem := StripPdf(name);
    var a := NatToString(indices[0] + 1);
    var z := NatToString(indices[|indices| - 1] + 1);
    var r := ExtractFilename(name, indices);
    assert r == stem + "-pages-" + (a + "-" + z + PDF_EXTENSION);
    assert r[|stem|..|stem| + 7] == "-pages-";
    assert r[|stem| + 7..] == a + ("-" + (z + PDF_EXTENSION));
    ReadBackPair(indices[0] + 1, indices[|indices| - 1] + 1);
  }

  /** The sorted selection runs from the lowest to the highest selected page, which the file name shows. */
  lemma ExtractNameSpansSelection(s: set<int>)
    requires s != {}
    ensures var xs := SortedElements(s);
      |xs| == |s| && xs[0] in s && xs[|xs| - 1] in s &&
      forall p :: p in s ==> xs[0] <= p <= xs[|xs| - 1]
  {
    var xs := SortedElements(s);
    var e := Enumeration(s);
    assert multiset(xs) == multiset(e) == multiset(s);
    assert |xs| == |multiset(s)| == |s|;
    assert xs[0] in multiset(s);
    assert xs[|xs| - 1] in multiset(s);
    forall p | p in s ensures xs[0] <= p <= xs[|xs| - 1] {
      assert p in multiset(xs);
      var k :| 0 <= k < |xs| && xs[k] == p;
    }
  }

  /**
   * The order keeps numbering the source's pages after a commit, yet it is applied
   * to the working copy: after deleting the middle of three pages, applying the
   * unchanged order once more takes the delete path again and fails validation.
   */
  lemma SecondApplyAfterDeleteFails(a: Page, b: Page, c: Page)
    ensures var order := UiReducer(InitialUIState(3), DeletePage(1)).pageOrder;
      order == [0, 2] &&
      ReorderChoice(3, order).0 == DeleteOperation(order) &&
      PagesAfter(DeleteOperation(order), [a, b, c]) == Success([a, c]) &&
      PagesAfter(DeleteOperation(order), [a, c]) == Failure(ValidationError(InvalidPageIndices([2], 2)))
  {
    var order := UiReducer(InitialUIState(3), DeletePage(1)).pageOrder;
    DeleteMiddleOfThree();
    assert order == [0, 2];
    var op := ReorderChoice(3, order).0;
    assert op == DeleteOperation(order);
    assert PagesAfter(op, [a, b, c]) == Success([a, c]) by {
      KeepOuterOfThree(a, b, c);
    }
    assert PagesAfter(op, [a, c]) == Failure(ValidationError(InvalidPageIndices([2], 2))) by {
      KeepOuterOfTwo(a, c);
    }
  }

  lemma DeleteMiddleOfThree()
    ensures UiReducer(InitialUIState(3), DeletePage(1)).pageOrder == [0, 2]
  {
    assert Identity(3) == [0, 1, 2];
  }

  lemma KeepOuterOfThree(a: Page, b: Page, c: Page)
    ensures DeleteResult([a, b, c], [0, 2]) == Success([a, c])
  {
    assert DeleteResult([a, b, c], [0, 2]).value == [a, c];
  }

  lemma KeepOuterOfTwo(a: Page, c: Page)
    ensures DeleteResult([a, c], [0, 2]) == Failure(ValidationError(InvalidPageIndices([2], 2)))
  {
    assert [0, 2][1..] == [2] && [2][1..] == [];
    assert OutsideRange([2], 0, 2) == [2];
    assert OutsideRange([0, 2], 0, 2) == [2];
  }

  class Session {
    var app: AppState
    const ui: UIStore
    var isProcessing: bool
    var downloads: seq<Download>

    constructor (app0: AppState, ui0: UIStore)
      ensures app == app0 && ui == ui0 && !isProcessing && downloads == []
    {
      app := app0;
      ui := ui0;
      isProcessing := false;
      downloads := [];
    }

    /** Extract the sorted selection of the source document into a download; clear the selections if it worked. */
    method HandleExtract()
      modifies this, ui
      ensures var cur := old(app.currentDoc);
        var sel := old(ui.selectedPages);
        if cur.None? || |sel| == 0 then
          unchanged(this, ui)
        else
          var indices := SortedElements(sel);
          var outcome := ExtractResult(cur.value.pdfDoc.pages, indices);
          app == old(app) && !isProcessing &&
          (outcome.Success? ==>
             downloads == old(downloads) + [Download(ExtractFilename(cur.value.name, indices), outcome.value)] &&
             ui.Snapshot() == UiReducer(old(ui.Snapshot()), ClearSelections)) &&
          (outcome.Failure? ==> downloads == old(downloads) && unchanged(ui))
    {
      if app.currentDoc.None? || |ui.selectedPages| == 0 {
        return;
      }
      isProcessing := true;
      var listed := Enumerate(ui.selectedPages);
      var indices := SortAscending(listed);
      var doc := app.currentDoc.value;
      var extractedDoc := ExtractPages(doc.pdfDoc, indices);
      if extractedDoc.Success? {
        var filename := ExtractFilename(doc.name, indices);
        downloads := downloads + [Download(filename, extractedDoc.value.pages)];
        ui.Dispatch(ClearSelections);
      }
      isProcessing := false;
    }

    /** Split the source document at the split points, one download per part; clear the selections if it worked. */
    method HandleSplit()
      modifies this, ui
      ensures var cur := old(app.currentDoc);
        var points := old(ui.splitPoints);
        if cur.None? || |points| == 0 then
          unchanged(this, ui)
        else
          var outcome := SplitResult(cur.value.pdfDoc.pages, Enumeration(points));
          app == old(app) && !isProcessing &&
          (outcome.Success? ==>
             downloads == old(downloads) + PartDownloads(cur.value.name, outcome.value) &&
             ui.Snapshot() == UiReducer(old(ui.Snapshot()), ClearSelections)) &&
          (outcome.Failure? ==> downloads == old(downloads) && unchanged(ui))
    {
      if app.currentDoc.None? || |ui.splitPoints| == 0 {
        return;
      }
      isProcessing := true;
      var split := SplitToDownloads(app.currentDoc.value, ui.splitPoints);
      if split {
        ui.Dispatch(ClearSelections);
      }
      isProcessing := false;
    }

    /** The split itself: one download per part when the points are accepted, nothing otherwise. */
    method SplitToDownloads(doc: DocumentData, points: set<int>) returns (split: bool)
      modifies this
      ensures var outcome := SplitResult(doc.pdfDoc.pages, Enumeration(points));
        split == outcome.Success? &&
        (split ==> downloads == old(downloads) + PartDownloads(doc.name, outcome.value)) &&
        (!split ==> downloads == old(downloads))
      ensures app == old(app) && isProcessing == old(isProcessing)
    {
      var blobs := SplitAtSet(doc.pdfDoc, points);
      split := blobs.Success?;
      if split {
        DownloadParts(doc.name, blobs.value);
      }
    }

    /** `blobs.forEach((blob, index) => downloadBlob(blob, ...-part${index + 1}.pdf))`. */
    method DownloadParts(name: string, docs: seq<Document>)
      modifies this
      ensures downloads == old(downloads) + PartDownloads(name, PagesOfAll(docs))
      ensures app == old(app) && isProcessing == old(isProcessing)
    {
      var parts := PagesOfAll(docs);
      var index := 0;
      while index < |docs|
        invariant 0 <= index <= |docs|
        invariant app == old(app) && isProcessing == old(isProcessing)
        invariant downloads == old(downloads) + PartDownloads(name, parts[..index])
      {
        assert parts[..index + 1] == parts[..index] + [parts[index]];
        downloads := downloads + [Download(PartFilename(name, index + 1), docs[index].pages)];
        index := index + 1;
      }
      assert parts[..|docs|] == parts;
    }

    /** Hand out the source document under the `-compressed` name; compression itself changes no page. */
    method HandleCompress()
      modifies this
      ensures var cur := old(app.currentDoc);
        if cur.None? then unchanged(this)
        else
          app == old(app) && !isProcessing &&
          downloads == old(downloads) + [Download(CompressedFilename(cur.value.name), cur.value.pdfDoc.pages)]
    {
      if app.currentDoc.None? {
        return;
      }
      isProcessing := true;
      var doc := app.currentDoc.value;
      var compressed := CompressPDF(doc.pdfDoc);
      downloads := downloads + [Download(CompressedFilename(doc.name), compressed.value.pages)];
      isProcessing := false;
    }

    /**
     * Paint the redaction list onto the working copy and commit it; clear the
     * selections if it worked. Paint is never undone, and while the working copy
     * is still the current document's own `pdfDoc` the source is painted too.
     */
    method HandleApplyRedactions()
      modifies this, ui, if app.workingDoc.Some? then {app.workingDoc.value} else {}
      ensures var w0 := old(app.workingDoc);
        var boxes := old(ui.redactions);
        if w0.None? || |boxes| == 0 then
          unchanged(this, ui) && (w0.Some? ==> unchanged(w0.value))
        else
          var w := w0.value;
          var outcome := RedactResult(old(w.pages), boxes);
          w.pages == RedactedPages(old(w.pages), boxes) &&
          downloads == old(downloads) && !isProcessing &&
          (old(app.currentDoc).Some? && old(app.currentDoc).value.pdfDoc == w ==>
             old(app.currentDoc).value.pdfDoc.pages == RedactedPages(old(w.pages), boxes)) &&
          (outcome.Success? ==>
             app == CommitState(old(app), w, RedactionLabel(|boxes|)) &&
             ui.Snapshot() == UiReducer(old(ui.Snapshot()), ClearSelections)) &&
          (outcome.Failure? ==> app == old(app) && unchanged(ui))
    {
      if app.workingDoc.None? || |ui.redactions| == 0 {
        return;
      }
      isProcessing := true;
      var boxes := ui.redactions;
      var next, r := ApplyOperationToWorkingDoc(app, RedactOperation(boxes), RedactionLabel(|boxes|));
      app := next;
      if r.Committed? {
        ui.Dispatch(ClearSelections);
      }
      isProcessing := false;
    }

    /** Commit the page order into the working copy: as a deletion when it is shorter than the source, else as a reorder. */
    method HandleApplyReorder()
      modifies this
      ensures var w0 := old(app.workingDoc);
        var cur := old(app.currentDoc);
        if w0.None? || cur.None? then unchanged(this)
        else
          var choice := ReorderChoice(|cur.value.pdfDoc.pages|, ui.pageOrder);
          var outcome := PagesAfter(choice.0, w0.value.pages);
          downloads == old(downloads) && !isProcessing &&
          (outcome.Success? ==>
             app.workingDoc.Some? && fresh(app.workingDoc.value) &&
             app.workingDoc.value.pages == outcome.value &&
             app == CommitState(old(app), app.workingDoc.value, choice.1)) &&
          (outcome.Failure? ==> app == old(app))
    {
      if app.workingDoc.None? || app.currentDoc.None? {
        return;
      }
      isProcessing := true;
      var originalPageCount := |app.currentDoc.value.pdfDoc.pages|;
      var choice := ReorderChoice(originalPageCount, ui.pageOrder);
      var next, r := ApplyOperationToWorkingDoc(app, choice.0, choice.1);
      app := next;
      isProcessing := false;
    }

    /** Save the working copy under `generateFilename(current name, history)`. */
    method HandleDownload()
      modifies this
      ensures var w0 := old(app.workingDoc);
        var cur := old(app.currentDoc);
        if w0.None? || cur.None? then unchanged(this)
        else
          app == old(app) && !isProcessing &&
          downloads == old(downloads) +
            [Download(GenerateFilename(cur.value.name, old(app.operationHistory)), w0.value.pages)]
    {
      if app.workingDoc.None? || app.currentDoc.None? {
        return;
      }
      isProcessing := true;
      var filename := GenerateFilename(app.currentDoc.value.name, app.operationHistory);
      downloads := downloads + [Download(filename, app.workingDoc.value.pages)];
      isProcessing := false;
    }
  }
}
