/**
 * `usePDFOperations`, the older variant of the handlers. It takes the selections
 * as arguments, chains extraction into the working copy, compares the page order
 * with the working copy's page count, never clears selections, and adds a merge
 * guard.
 */
module LegacyOperations {
  import opened Types
  import opened NumericSort
  import opened PdfOperations
  import opened AppStore
  import opened FileUtils
  import opened Chain

  /** `Extragere N pagină`, with the source's `e` appended unless exactly one page was kept. */
  function ExtractLabel(n: nat): (r: string)
    ensures |r| > 10 && r[..10] == "Extragere "
    ensures r[|r| - 1] == (if n != 1 then 'e' else 'ă')
  {
    "Extragere " + Counted(n, "pagină", "e")
  }

  /** The extract label names how many pages were kept: different counts give different labels. */
  lemma ExtractLabelRecordsCount(n: nat, m: nat)
    ensures ExtractLabel(n) == ExtractLabel(m) <==> n == m
  {
    if ExtractLabel(n) == ExtractLabel(m) {
      var prefix := "Extragere ";
      assert ExtractLabel(n)[|prefix|..] == Counted(n, "pagină", "e");
      assert ExtractLabel(m)[|prefix|..] == Counted(m, "pagină", "e");
      CountedIsInjective(n, m, "pagină", "e");
    }
  }

  /** The sorted listing of a set has exactly one entry per element. */
  lemma SortedElementsCount(s: set<int>)
    ensures |SortedElements(s)| == |s|
  {
    assert |SortedElements(s)| == |multiset(Enumeration(s))| == |multiset(s)|;
  }

  class LegacySession {
    var app: AppState
    var isProcessing: bool
    var downloads: seq<Download>

    constructor (app0: AppState)
      ensures app == app0 && !isProcessing && downloads == []
    {
      app := app0;
      isProcessing := false;
      downloads := [];
    }

    /** Replace the working copy by its selected pages, in ascending order. */
    method HandleExtract(selectedPages: set<int>)
      modifies this
      ensures var w0 := old(app.workingDoc);
        if w0.None? || |selectedPages| == 0 then unchanged(this)
        else
          var outcome := ExtractResult(w0.value.pages, SortedElements(selectedPages));
          downloads == old(downloads) && !isProcessing &&
          (outcome.Success? ==>
             app.workingDoc.Some? && fresh(app.workingDoc.value) &&
             app.workingDoc.value.pages == outcome.value &&
             app == CommitState(old(app), app.workingDoc.value, ExtractLabel(|selectedPages|))) &&
          (outcome.Failure? ==> app == old(app))
    {
      if app.workingDoc.None? || |selectedPages| == 0 {
        return;
      }
      isProcessing := true;
      var listed := Enumerate(selectedPages);
      var indices := SortAscending(listed);
      SortedElementsCount(selectedPages);
      ghost var outcome := ExtractResult(app.workingDoc.value.pages, indices);
      var next, r := ApplyOperationToWorkingDoc(app, ExtractOperation(indices), ExtractLabel(|indices|));
      assert r.Committed? <==> outcome.Success?;
      assert r.Committed? ==> r.doc.pages == outcome.value;
      app := next;
      isProcessing := false;
    }

    /** Split the source document at the given points, one download per part; the selections are left alone. */
    method HandleSplit(splitPoints: set<int>)
      modifies this
      ensures var cur := old(app.currentDoc);
        if cur.None? || |splitPoints| == 0 then unchanged(this)
        else
          var outcome := SplitResult(cur.value.pdfDoc.pages, Enumeration(splitPoints));
          app == old(app) && !isProcessing &&
          (outcome.Success? ==> downloads == old(downloads) + PartDownloads(cur.value.name, outcome.value)) &&
          (outcome.Failure? ==> downloads == old(downloads))
    {
      if app.currentDoc.None? || |splitPoints| == 0 {
        return;
      }
      isProcessing := true;
      var doc := app.currentDoc.value;
      var _ := SplitToDownloads(doc, splitPoints);
      isProcessing := false;
    }

    /** The split itself: one download per part when the points are accepted, nothing otherwise. */
    method SplitToDownloads(doc: DocumentData, points: set<int>) returns (split: bool)
      modifies this
      ensures var outcome := SplitResult(doc.pdfDoc.pages, Enumeration(points));
        split == outcome.Success? &&
        (split ==> downloads == old(downloads) + PartDownloads(doc.name, outcome.value)) &&
        (!split ==> downloads == old(downloads))
      ensures app == old(app) && isProcessing == old(isProcessing)
    {
      var blobs := SplitAtSet(doc.pdfDoc, points);
      split := blobs.Success?;
      if split {
        DownloadParts(doc.name, blobs.value);
      }
    }

    method DownloadParts(name: string, docs: seq<Document>)
      modifies this
      ensures downloads == old(downloads) + PartDownloads(name, PagesOfAll(docs))
      ensures app == old(app) && isProcessing == old(isProcessing)
    {
      var parts := PagesOfAll(docs);
      var index := 0;
      while index < |docs|
        invariant 0 <= index <= |docs|
        invariant app == old(app) && isProcessing == old(isProcessing)
        invariant downloads == old(downloads) + PartDownloads(name, parts[..index])
      {
        assert parts[..index + 1] == parts[..index] + [parts[index]];
        downloads := downloads + [Download(PartFilename(name, index + 1), docs[index].pages)];
        index := index + 1;
      }
      assert parts[..|docs|] == parts;
    }

    /**
     * Refuses with fewer than two documents. Past the guard the merge calls a
     * function that the repository does not define, so no merged file comes out.
     */
    method HandleMerge() returns (refused: bool)
      modifies this
      ensures refused <==> |old(app.documents)| < 2
      ensures refused ==> unchanged(this)
      ensures !refused ==> app == old(app) && downloads == old(downloads) && !isProcessing
    {
      if |app.documents| < 2 {
        return true;
      }
      isProcessing := true;
      isProcessing := false;
      return false;
    }

    /** Hand out the source document under the `-compressed` name. */
    method HandleCompress()
      modifies this
      ensures var cur := old(app.currentDoc);
        if cur.None? then unchanged(this)
        else
          app == old(app) && !isProcessing &&
          downloads == old(downloads) + [Download(CompressedFilename(cur.value.name), cur.value.pdfDoc.pages)]
    {
      if app.currentDoc.None? {
        return;
      }
      isProcessing := true;
      var doc := app.currentDoc.value;
      var compressed := CompressPDF(doc.pdfDoc);
      downloads := downloads + [Download(CompressedFilename(doc.name), compressed.value.pages)];
      isProcessing := false;
    }

    /** Paint the given boxes onto the working copy and commit it; paint is never undone. */
    method HandleApplyRedactions(redactions: seq<RedactionBox>)
      modifies this, if app.workingDoc.Some? then {app.workingDoc.value} else {}
      ensures var w0 := old(app.workingDoc);
        if w0.None? || |redactions| == 0 then
          unchanged(this) && (w0.Some? ==> unchanged(w0.value))
        else
          var w := w0.value;
          var outcome := RedactResult(old(w.pages), redactions);
          w.pages == RedactedPages(old(w.pages), redactions) &&
          downloads == old(downloads) && !isProcessing &&
          (outcome.Success? ==> app == CommitState(old(app), w, RedactionLabel(|redactions|))) &&
          (outcome.Failure? ==> app == old(app))
    {
      if app.workingDoc.None? || |redactions| == 0 {
        return;
      }
      isProcessing := true;
      var next, r := ApplyOperationToWorkingDoc(app, RedactOperation(redactions), RedactionLabel(|redactions|));
      app := next;
      isProcessing := false;
    }

    /** Commit the order: as a deletion when it is shorter than the working copy, else as a reorder. */
    method HandleApplyReorder(pageOrder: seq<int>)
      modifies this
      ensures var w0 := old(app.workingDoc);
        if w0.None? then unchanged(this)
        else
          var choice := ReorderChoice(|w0.value.pages|, pageOrder);
          var outcome := PagesAfter(choice.0, w0.value.pages);
          downloads == old(downloads) && !isProcessing &&
          (outcome.Success? ==>
             app.workingDoc.Some? && fresh(app.workingDoc.value) &&
             app.workingDoc.value.pages == outcome.value &&
             app == CommitState(old(app), app.workingDoc.value, choice.1)) &&
          (outcome.Failure? ==> app == old(app))
    {
      if app.workingDoc.None? {
        return;
      }
      isProcessing := true;
      var originalPageCount := |app.workingDoc.value.pages|;
      var choice := ReorderChoice(originalPageCount, pageOrder);
      var next, r := ApplyOperationToWorkingDoc(app, choice.0, choice.1);
      app := next;
      isProcessing := false;
    }

    /** Save the working copy under `generateFilename(current name, history)`. */
    method HandleDownload()
      modifies this
      ensures var w0 := old(app.workingDoc);
        var cur := old(app.currentDoc);
        if w0.None? || cur.None? then unchanged(this)
        else
          app == old(app) && !isProcessing &&
          downloads == old(downloads) +
            [Download(GenerateFilename(cur.value.name, old(app.operationHistory)), w0.value.pages)]
    {
      if app.workingDoc.None? || app.currentDoc.None? {
        return;
      }
      isProcessing := true;
      var filename := GenerateFilename(app.currentDoc.value.name, app.operationHistory);
      downloads := downloads + [Download(filename, app.workingDoc.value.pages)];
      isProcessing := false;
    }
  }

  /**
   * Against the working copy's own count an order that keeps every page is never
   * a deletion, and a delete succeeds exactly when the order's entries are pages
   * of the working copy.
   */
  lemma LegacyDeleteNeedsShorterOrder(pages: seq<Page>, pageOrder: seq<int>)
    ensures ReorderChoice(|pages|, pageOrder).0.DeleteOperation? <==> |pageOrder| < |pages|
    ensures |pageOrder| < |pages| ==>
      (PagesAfter(ReorderChoice(|pages|, pageOrder).0, pages).Success? <==>
         |pageOrder| > 0 && AllInRange(pageOrder, 0, |pages|))
  {
  }
}
