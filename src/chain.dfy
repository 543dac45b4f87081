/**
 * `applyOperationToWorkingDoc`, which both operation hooks define identically:
 * run an operation on the working copy, and on success replace the working copy
 * and log one label; on failure leave the application state alone. Also the
 * enumeration of a JavaScript `Set` that the handlers start from.
 */
module Chain {
  import opened Types
  import opened NumericSort
  import opened PdfOperations
  import opened AppStore
  import opened FileUtils

  /** The operations that are chained into the working copy. */
  datatype DocOperation =
    | ExtractOperation(indices: seq<int>)
    | RedactOperation(boxes: seq<RedactionBox>)
    | ReorderOperation(order: seq<int>)
    | DeleteOperation(keep: seq<int>)

  /** The pages an operation produces from `pages`, or its error. */
  function PagesAfter(op: DocOperation, pages: seq<Page>): Result<seq<Page>>
  {
    match op
    case ExtractOperation(indices) => ExtractResult(pages, indices)
    case RedactOperation(boxes) => RedactResult(pages, boxes)
    case ReorderOperation(order) => ReorderResult(pages, order)
    case DeleteOperation(keep) => DeleteResult(pages, keep)
  }

  /** The pages the operation's input document is left with: only redaction paints onto its input. */
  function InputLeftWith(op: DocOperation, pages: seq<Page>): seq<Page>
  {
    if op.RedactOperation? then RedactedPages(pages, op.boxes) else pages
  }

  /** A successful operation leaves its input as it found it, except redaction, whose result is its painted input. */
  lemma InputAfterSuccess(op: DocOperation, pages: seq<Page>)
    requires PagesAfter(op, pages).Success?
    ensures op.RedactOperation? ==> InputLeftWith(op, pages) == PagesAfter(op, pages).value
    ensures !op.RedactOperation? ==> InputLeftWith(op, pages) == pages
  {
  }

  /** Runs the executor behind `op` on `doc`. */
  method Execute(op: DocOperation, doc: Document) returns (r: Result<Document>)
    modifies if op.RedactOperation? then {doc} else {}
    ensures doc.pages == InputLeftWith(op, old(doc.pages))
    ensures Pages(r) == PagesAfter(op, old(doc.pages))
    ensures r.Success? ==> if op.RedactOperation? then r.value == doc else fresh(r.value)
  {
    match op
    case ExtractOperation(indices) =>
      r := ExtractPages(doc, indices);
    case RedactOperation(boxes) =>
      r := ApplyRedactions(doc, boxes);
    case ReorderOperation(order) =>
      r := ReorderPages(doc, order);
    case DeleteOperation(keep) =>
      r := DeletePages(doc, keep);
  }

  /** What `applyOperationToWorkingDoc` came back with: null, the new working copy, or the rethrown error. */
  datatype Applied = NoWorkingDoc | Committed(doc: Document) | Failed(error: PdfError)

  /** The application state after a successful commit of `doc` under `operationName`. */
  function CommitState(app: AppState, doc: Document, operationName: string): (r: AppState)
    ensures r.workingDoc == Some(doc)
    ensures r.operationHistory == app.operationHistory + [operationName]
    ensures r.documents == app.documents && r.currentDoc == app.currentDoc
  {
    AppReducer(AppReducer(app, SetWorkingDoc(Some(doc))), AddOperation(operationName))
  }

  /** The working document an application state would modify while applying `op`. */
  function Touched(app: AppState, op: DocOperation): set<Document>
  {
    if app.workingDoc.Some? && op.RedactOperation? then {app.workingDoc.value} else {}
  }

  method ApplyOperationToWorkingDoc(app: AppState, op: DocOperation, operationName: string)
    returns (next: AppState, r: Applied)
    modifies Touched(app, op)
    ensures app.workingDoc.None? ==> r == NoWorkingDoc && next == app
    ensures app.workingDoc.Some? ==>
      var w := app.workingDoc.value;
      var outcome := PagesAfter(op, old(w.pages));
      w.pages == InputLeftWith(op, old(w.pages)) &&
      (r.Committed? <==> outcome.Success?) &&
      (r.Committed? ==> r.doc.pages == outcome.value && next == CommitState(app, r.doc, operationName)) &&
      (r.Committed? && !op.RedactOperation? ==> fresh(r.doc)) &&
      (r.Committed? && op.RedactOperation? ==> r.doc == w) &&
      (!r.Committed? ==> r == Failed(outcome.error) && next == app)
  {
    if app.workingDoc.None? {
      return app, NoWorkingDoc;
    }
    var newWorkingDoc := Execute(op, app.workingDoc.value);
    if newWorkingDoc.Failure? {
      return app, Failed(newWorkingDoc.error);
    }
    next := AppReducer(app, SetWorkingDoc(Some(newWorkingDoc.value)));
    next := AppReducer(next, AddOperation(operationName));
    r := Committed(newWorkingDoc.value);
  }

  // ------------------------------------------------------ labels and names

  /** A file handed to `downloadBlob`: its name and the pages saved into it. */
  datatype Download = Download(filename: string, pages: seq<Page>)

  /** `${n} ${word}${n !== 1 ? ending : ''}`. */
  function Counted(n: nat, word: string, ending: string): string
  {
    NatToString(n) + " " + word + (if n != 1 then ending else "")
  }

  /** `Aplicare N redacție`, with the source's `i` appended unless exactly one box was applied. */
  function RedactionLabel(n: nat): (r: string)
    ensures |r| > 9 && r[..9] == "Aplicare "
    ensures r[|r| - 1] == (if n != 1 then 'i' else 'e')
  {
    "Aplicare " + Counted(n, "redacție", "i")
  }

  /** `Ștergere N pagină`, with the source's `e` appended unless exactly one page went. */
  function DeleteLabel(n: nat): (r: string)
    ensures |r| > 9 && r[..9] == "Ștergere "
    ensures r[|r| - 1] == (if n != 1 then 'e' else 'ă')
  {
    "Ștergere " + Counted(n, "pagină", "e")
  }

  const ReorderLabel := "Reordonare pagini"

  /** The length of the run of decimal digits that `s` starts with. */
  function DigitRun(s: string): (n: nat)
    ensures n <= |s|
    ensures forall k :: 0 <= k < n ==> IsDigit(s[k])
  {
    if s != [] && IsDigit(s[0]) then 1 + DigitRun(s[1..]) else 0
  }

  /** A run of digits followed by a non-digit ends exactly where the digits do. */
  lemma {:induction false} DigitRunBefore(digits: string, rest: string)
    requires forall k :: 0 <= k < |digits| ==> IsDigit(digits[k])
    requires rest != [] && !IsDigit(rest[0])
    ensures DigitRun(digits + rest) == |digits|
    decreases |digits|
  {
    if digits == [] {
      assert digits + rest == rest;
    } else {
      DigitRunBefore(digits[1..], rest);
      assert (digits + rest)[1..] == digits[1..] + rest;
    }
  }

  /**
   * A number printed into a string right before a non-digit can be read back:
   * the digit run there is exactly the printed number.
   */
  lemma ReadBackNumber(s: string, n: nat, rest: string)
    requires s == NatToString(n) + rest && rest != [] && !IsDigit(rest[0])
    ensures DigitRun(s) == |NatToString(n)| && ParseDigits(s[..DigitRun(s)]) == n
    ensures s[DigitRun(s)..] == rest
  {
    DigitRunBefore(NatToString(n), rest);
    assert s[..|NatToString(n)|] == NatToString(n);
    ParsePrinted(n);
  }

  /** The count can be read back from a counted phrase. */
  lemma CountedIsInjective(n: nat, m: nat, word: string, ending: string)
    requires Counted(n, word, ending) == Counted(m, word, ending)
    ensures n == m
  {
    var a, b := NatToString(n), NatToString(m);
    var s := Counted(n, word, ending);
    DigitRunBefore(a, " " + word + (if n != 1 then ending else ""));
    DigitRunBefore(b, " " + word + (if m != 1 then ending else ""));
    assert (" " + word + (if n != 1 then ending else ""))[0] == ' ';
    assert (" " + word + (if m != 1 then ending else ""))[0] == ' ';
    assert s == a + " " + (word + (if n != 1 then ending else ""));
    assert s == b + " " + (word + (if m != 1 then ending else ""));
    assert a == s[..|a|] == b;
    ParsePrinted(n);
    ParsePrinted(m);
  }

  /** The delete label names how many pages went: different counts give different labels. */
  lemma DeleteLabelRecordsCount(n: nat, m: nat)
    ensures DeleteLabel(n) == DeleteLabel(m) <==> n == m
  {
    if DeleteLabel(n) == DeleteLabel(m) {
      var prefix := "Ștergere ";
      assert DeleteLabel(n)[|prefix|..] == Counted(n, "pagină", "e");
      assert DeleteLabel(m)[|prefix|..] == Counted(m, "pagină", "e");
      CountedIsInjective(n, m, "pagină", "e");
    }
  }

  /** The redaction label names how many boxes went: different counts give different labels. */
  lemma RedactionLabelRecordsCount(n: nat, m: nat)
    ensures RedactionLabel(n) == RedactionLabel(m) <==> n == m
  {
    if RedactionLabel(n) == RedactionLabel(m) {
      var prefix := "Aplicare ";
      assert RedactionLabel(n)[|prefix|..] == Counted(n, "redacție", "i");
      assert RedactionLabel(m)[|prefix|..] == Counted(m, "redacție", "i");
      CountedIsInjective(n, m, "redacție", "i");
    }
  }

  /** The compressed download never takes the name of a split part of the same file. */
  lemma CompressedNameIsNotAPartName(name: string, n: nat)
    ensures CompressedFilename(name) != PartFilename(name, n)
  {
    var k := |StripPdf(name)|;
    assert CompressedFilename(name)[k + 1] == 'c';
    assert PartFilename(name, n)[k + 1] == 'p';
  }

  /** Delete when the order is shorter than the page count it is compared with, reorder otherwise. */
  function ReorderChoice(originalPageCount: nat, pageOrder: seq<int>): (r: (DocOperation, string))
    ensures r.0.DeleteOperation? <==> |pageOrder| < originalPageCount
    ensures r.0.DeleteOperation? ==> r.0.keep == pageOrder && r.1 == DeleteLabel(originalPageCount - |pageOrder|)
    ensures r.0.ReorderOperation? ==> r.0.order == pageOrder && r.1 == ReorderLabel
  {
    if |pageOrder| < originalPageCount then
      (DeleteOperation(pageOrder), DeleteLabel(originalPageCount - |pageOrder|))
    else (ReorderOperation(pageOrder), ReorderLabel)
  }

  /** `${name.replace('.pdf', '')}-part${n}.pdf`: the stripped name, the part marker, and `.pdf` last. */
  function PartFilename(name: string, n: nat): (r: string)
    ensures |r| > |StripPdf(name)| + 5
    ensures r[..|StripPdf(name)|] == StripPdf(name) && r[|StripPdf(name)|..|StripPdf(name)| + 5] == "-part"
    ensures r[|r| - 4..] == PDF_EXTENSION
  {
    StripPdf(name) + "-part" + NatToString(n) + PDF_EXTENSION
  }

  /** One download per split part, named `-part1` to `-partN` in part order. */
  function PartDownloads(name: string, parts: seq<seq<Page>>): (r: seq<Download>)
    ensures |r| == |parts|
    ensures forall k :: 0 <= k < |parts| ==> r[k] == Download(PartFilename(name, k + 1), parts[k])
  {
    seq(|parts|, k requires 0 <= k < |parts| => Download(PartFilename(name, k + 1), parts[k]))
  }

  /** Part names are all different, so no download overwrites another. */
  lemma PartNamesDistinct(name: string, i: nat, j: nat)
    requires i != j
    ensures PartFilename(name, i) != PartFilename(name, j)
  {
    var base := StripPdf(name) + "-part";
    var a, b := NatToString(i), NatToString(j);
    if PartFilename(name, i) == PartFilename(name, j) {
      assert |a| == |b|;
      assert PartFilename(name, i)[|base|..|base| + |a|] == a;
      assert PartFilename(name, j)[|base|..|base| + |b|] == b;
      ParsePrinted(i);
      ParsePrinted(j);
    }
  }

  /** `${name.replace('.pdf', '')}-compressed.pdf`: the stripped name, then `-compressed.pdf`. */
  function CompressedFilename(name: string): (r: string)
    ensures |r| == |StripPdf(name)| + 15
    ensures r[..|StripPdf(name)|] == StripPdf(name) && r[|StripPdf(name)|..] == "-compressed.pdf"
  {
    StripPdf(name) + "-compressed" + PDF_EXTENSION
  }

  // ------------------------------------------------ `Array.from(set)` order

  lemma EmptyOrHasElement(s: set<int>)
    ensures s == {} || exists x :: x in s
  {
    if forall x :: x !in s {
      var none: set<int> := {};
      assert forall x :: x in s <==> x in none;
    }
  }

  /** Some listing of the set's elements, each once; the model leaves the order open. */
  ghost function Enumeration(s: set<int>): (xs: seq<int>)
    ensures multiset(xs) == multiset(s)
    decreases |s|
  {
    if s == {} then []
    else
      EmptyOrHasElement(s);
      var x :| x in s;
      [x] + Enumeration(s - {x})
  }

  /** The listing every sort of the set's elements arrives at. */
  ghost function SortedElements(s: set<int>): seq<int>
  {
    SortAscending(Enumeration(s))
  }

  /** `Array.from(s)`: the elements of `s`, each once, in an order the model does not fix. */
  method Enumerate(s: set<int>) returns (xs: seq<int>)
    ensures multiset(xs) == multiset(s)
    ensures SortAscending(xs) == SortedElements(s)
  {
    xs := [];
    var rest := s;
    while rest != {}
      invariant rest <= s
      invariant multiset(xs) + multiset(rest) == multiset(s)
      decreases |rest|
    {
      EmptyOrHasElement(rest);
      var x :| x in rest;
      assert multiset(rest) == multiset(rest - {x}) + multiset{x};
      xs := xs + [x];
      rest := rest - {x};
    }
    SortDeterminedByElements(xs, Enumeration(s));
  }

  /** `splitPDF(doc, Array.from(points))`: whatever order the set lists its points in, the parts are the same. */
  method SplitAtSet(doc: Document, points: set<int>) returns (r: Result<seq<Document>>)
    ensures var outcome := SplitResult(doc.pages, Enumeration(points));
      (r.Success? <==> outcome.Success?) &&
      (r.Success? ==> PagesOfAll(r.value) == outcome.value && forall d :: d in r.value ==> fresh(d))
  {
    var listed := Enumerate(points);
    SplitIgnoresPointOrder(doc.pages, listed, Enumeration(points));
    r := SplitPDF(doc, listed);
  }
}
