/**
 * The document and history state behind `useAppState`: the loaded documents,
 * the current one, the working copy that operations commit into, and the
 * append-only log of operation labels.
 */
module AppStore {
  import opened Types

  /** A loaded file. `pdfDoc` is a reference: the working copy starts out as this very object. */
  datatype DocumentData = DocumentData(id: string, name: string, pdfDoc: Document, pageCount: int, fileSize: int)

  datatype AppState = AppState(
    documents: seq<DocumentData>,
    currentDoc: Option<DocumentData>,
    workingDoc: Option<Document>,
    operationHistory: seq<string>)

  datatype AppAction =
    | SetDocuments(documents: seq<DocumentData>)
    | SetCurrentDoc(doc: Option<DocumentData>)
    | SetWorkingDoc(working: Option<Document>)
    | AddOperation(operation: string)
    | ResetOperations
    | RemoveDocument(id: string)
    | ReorderDocuments(order: seq<int>)
    | ResetAll

  const InitialAppState := AppState([], None, None, [])

  /** `docs.filter(doc => doc.id !== id)`: the survivors, each once, in their original order. */
  function WithoutId(docs: seq<DocumentData>, id: string): (r: seq<DocumentData>)
    ensures |r| <= |docs|
    ensures forall k :: 0 <= k < |r| ==> r[k] in docs && r[k].id != id
    ensures forall k :: 0 <= k < |docs| && docs[k].id != id ==> docs[k] in r
    ensures (forall k :: 0 <= k < |docs| ==> docs[k].id != id) ==> r == docs
    decreases |docs|
  {
    if docs == [] then []
    else (if docs[0].id != id then [docs[0]] else []) + WithoutId(docs[1..], id)
  }

  /** Filtering a concatenation filters each part: the survivors keep their original order. */
  lemma {:induction false} WithoutIdAppend(a: seq<DocumentData>, b: seq<DocumentData>, id: string)
    ensures WithoutId(a + b, id) == WithoutId(a, id) + WithoutId(b, id)
    decreases |a|
  {
    if a == [] {
      assert a + b == b;
    } else {
      assert (a + b)[0] == a[0] && (a + b)[1..] == a[1..] + b;
      WithoutIdAppend(a[1..], b, id);
    }
  }

  /** The first survivor is the first document, in the original order, whose id differs. */
  lemma {:induction false} FirstSurvivor(docs: seq<DocumentData>, id: string, j: nat)
    requires j < |docs| && docs[j].id != id
    requires forall i :: 0 <= i < j ==> docs[i].id == id
    ensures |WithoutId(docs, id)| > 0 && WithoutId(docs, id)[0] == docs[j]
    decreases j
  {
    if j > 0 {
      FirstSurvivor(docs[1..], id, j - 1);
    }
  }

  /** When every document carries the id, nothing survives. */
  lemma {:induction false} NoSurvivor(docs: seq<DocumentData>, id: string)
    requires forall i :: 0 <= i < |docs| ==> docs[i].id == id
    ensures WithoutId(docs, id) == []
    decreases |docs|
  {
    if docs != [] {
      NoSurvivor(docs[1..], id);
    }
  }

  /** The working copy that follows a current document: its own `pdfDoc`, or none. */
  function WorkingFor(current: Option<DocumentData>): Option<Document>
  {
    if current.Some? then Some(current.value.pdfDoc) else None
  }

  /** `REORDER_DOCUMENTS` maps every index to the document at that index, which must exist. */
  predicate AppActionInRange(s: AppState, a: AppAction)
  {
    a.ReorderDocuments? ==> forall k :: 0 <= k < |a.order| ==> 0 <= a.order[k] < |s.documents|
  }

  /**
   * `appReducer`. Each action touches only its own fields, and every action but
   * `SET_WORKING_DOC` either keeps the working copy or resets it to the
   * original of the current document.
   */
  function AppReducer(s: AppState, a: AppAction): (r: AppState)
    requires AppActionInRange(s, a)
    ensures r.documents != s.documents ==>
      a.SetDocuments? || a.RemoveDocument? || a.ReorderDocuments? || a.ResetAll?
    ensures r.currentDoc != s.currentDoc ==> a.SetCurrentDoc? || a.RemoveDocument? || a.ResetAll?
    ensures r.workingDoc != s.workingDoc ==>
      a.SetWorkingDoc? || a.SetCurrentDoc? || a.RemoveDocument? || a.ResetAll?
    ensures r.operationHistory != s.operationHistory ==>
      a.AddOperation? || a.ResetOperations? || a.ResetAll?
    ensures !a.SetWorkingDoc? ==> r.workingDoc == s.workingDoc || r.workingDoc == WorkingFor(r.currentDoc)
  {
    match a
    case SetDocuments(docs) => s.(documents := docs)
    case SetCurrentDoc(d) => s.(currentDoc := d, workingDoc := WorkingFor(d))
    case SetWorkingDoc(w) => s.(workingDoc := w)
    case AddOperation(op) => s.(operationHistory := s.operationHistory + [op])
    case ResetOperations => s.(operationHistory := [])
    case RemoveDocument(id) =>
      var newDocuments := WithoutId(s.documents, id);
      var newCurrentDoc :=
        if s.currentDoc.Some? && s.currentDoc.value.id == id then
          (if |newDocuments| > 0 then Some(newDocuments[0]) else None)
        else s.currentDoc;
      s.(documents := newDocuments, currentDoc := newCurrentDoc, workingDoc := WorkingFor(newCurrentDoc))
    case ReorderDocuments(order) =>
      s.(documents := seq(|order|, k requires 0 <= k < |order| => s.documents[order[k]]))
    case ResetAll => InitialAppState
  }

  /** `addDocument`: append the document, then make it current. */
  function AddDocument(s: AppState, d: DocumentData): (r: AppState)
    ensures r.documents == s.documents + [d]
    ensures r.currentDoc == Some(d) && r.workingDoc == Some(d.pdfDoc)
    ensures r.operationHistory == s.operationHistory
  {
    AppReducer(AppReducer(s, SetDocuments(s.documents + [d])), SetCurrentDoc(Some(d)))
  }

  // ---------------------------------------------------------------- lemmas

  /** Selecting a document makes its original the working copy and keeps the history and the list. */
  lemma SetCurrentDocResetsWorking(s: AppState, d: Option<DocumentData>)
    ensures var r := AppReducer(s, SetCurrentDoc(d));
      r.currentDoc == d && r.documents == s.documents && r.operationHistory == s.operationHistory &&
      (d.Some? ==> r.workingDoc == Some(d.value.pdfDoc)) && (d.None? ==> r.workingDoc.None?)
  {
  }

  /** Logging appends one label at the end and leaves the earlier ones as they were. */
  lemma AddOperationAppends(s: AppState, op: string)
    ensures var r := AppReducer(s, AddOperation(op));
      |r.operationHistory| == |s.operationHistory| + 1 &&
      r.operationHistory[..|s.operationHistory|] == s.operationHistory &&
      r.operationHistory[|s.operationHistory|] == op &&
      r.(operationHistory := s.operationHistory) == s
  {
    var r := AppReducer(s, AddOperation(op));
    assert r.operationHistory[..|s.operationHistory|] == s.operationHistory;
  }

  /** Setting the working copy touches nothing else; resetting the log touches nothing else. */
  lemma SingleFieldUpdates(s: AppState, w: Option<Document>)
    ensures AppReducer(s, SetWorkingDoc(w)) == s.(workingDoc := w)
    ensures AppReducer(s, ResetOperations).operationHistory == []
    ensures AppReducer(s, ResetOperations).(operationHistory := s.operationHistory) == s
  {
  }

  /**
   * Removing a document drops every document with that id. If the current one was
   * removed, the earliest document with another id (or none) becomes current; in
   * every case the working copy is reset to the current document's original.
   */
  lemma RemoveDocumentSpec(s: AppState, id: string)
    ensures var r := AppReducer(s, RemoveDocument(id));
      (forall d :: d in r.documents <==> d in s.documents && d.id != id) &&
      (s.currentDoc.Some? && s.currentDoc.value.id == id ==>
         (forall j :: (0 <= j < |s.documents| && s.documents[j].id != id &&
                       (forall i :: 0 <= i < j ==> s.documents[i].id == id)) ==>
            r.currentDoc == Some(s.documents[j])) &&
         ((forall j :: 0 <= j < |s.documents| ==> s.documents[j].id == id) ==> r.currentDoc == None)) &&
      (!(s.currentDoc.Some? && s.currentDoc.value.id == id) ==> r.currentDoc == s.currentDoc) &&
      r.workingDoc == WorkingFor(r.currentDoc) &&
      r.operationHistory == s.operationHistory
  {
    var docs := s.documents;
    forall j | 0 <= j < |docs| && docs[j].id != id && (forall i :: 0 <= i < j ==> docs[i].id == id)
      ensures |WithoutId(docs, id)| > 0 && WithoutId(docs, id)[0] == docs[j]
    {
      FirstSurvivor(docs, id, j);
    }
    if forall j :: 0 <= j < |docs| ==> docs[j].id == id {
      NoSurvivor(docs, id);
    }
  }

  /**
   * Removing some other document still throws away the edits on the working copy:
   * afterwards the working copy is the current document's original again.
   */
  lemma RemovingOtherDocumentDiscardsEdits(s: AppState, id: string, edited: Document)
    requires s.currentDoc.Some? && s.currentDoc.value.id != id
    requires s.workingDoc == Some(edited) && edited != s.currentDoc.value.pdfDoc
    ensures AppReducer(s, RemoveDocument(id)).currentDoc == s.currentDoc
    ensures AppReducer(s, RemoveDocument(id)).workingDoc != s.workingDoc
  {
  }

  /** Reordering takes the document at each listed index; the result has one entry per index. */
  lemma ReorderDocumentsSpec(s: AppState, order: seq<int>)
    requires forall k :: 0 <= k < |order| ==> 0 <= order[k] < |s.documents|
    ensures var r := AppReducer(s, ReorderDocuments(order));
      |r.documents| == |order| &&
      (forall k :: 0 <= k < |order| ==> r.documents[k] == s.documents[order[k]]) &&
      r.currentDoc == s.currentDoc && r.workingDoc == s.workingDoc
  {
  }

  /** `RESET_ALL` returns to the empty initial state from anywhere. */
  lemma ResetAllIsInitial(s: AppState)
    ensures AppReducer(s, ResetAll) == AppState([], None, None, [])
  {
  }
}
