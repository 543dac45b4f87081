/** Constants, shared datatypes and the document object of the PDF tool. */
module Types {

  /** Largest accepted upload: 50 MiB. */
  const MAX_FILE_SIZE: int := 50 * 1024 * 1024
  const MIN_ZOOM: int := 50
  const MAX_ZOOM: int := 200
  const ZOOM_STEP: int := 25
  const PDF_MIME_TYPE: string := "application/pdf"
  const PDF_EXTENSION: string := ".pdf"

  /** The active tool; exactly one at a time. */
  datatype ToolMode = View | Extract | Split | Redact | Reorder

  /** A box drawn on a page thumbnail, in display space (origin top-left, y grows downwards). */
  datatype RedactionBox = RedactionBox(pageIndex: int, x: real, y: real, width: real, height: real)

  /** An opaque filled rectangle painted on a page, in page space (origin bottom-left). */
  datatype Fill = Fill(x: real, y: real, width: real, height: real)

  /**
   * A page: `content` stands for everything the document library keeps about the
   * page and is never inspected; `fills` are the rectangles painted on it so far.
   */
  datatype Page = Page(content: nat, width: real, height: real, fills: seq<Fill>)

  /**
   * A loaded document object. Executors copy pages into fresh documents; only
   * redaction paints onto the pages of an existing one.
   */
  class Document {
    var pages: seq<Page>

    /** `PDFDocument.create()`: a new empty document. */
    constructor Create()
      ensures pages == []
    {
      pages := [];
    }

    /** `addPage`: appends one page. */
    method AddPage(p: Page)
      modifies this
      ensures pages == old(pages) + [p]
    {
      pages := pages + [p];
    }

    /** `page.drawRectangle`: paints one more fill on page `i`; nothing else changes. */
    method DrawRectangle(i: int, f: Fill)
      requires 0 <= i < |pages|
      modifies this
      ensures |pages| == |old(pages)|
      ensures pages == old(pages)[i := old(pages)[i].(fills := old(pages)[i].fills + [f])]
    {
      pages := pages[i := pages[i].(fills := pages[i].fills + [f])];
    }
  }

  /** Why a validator refused its input; the offending values are carried, not just the first. */
  datatype Invalid =
    | WrongFileType
    | FileTooLarge
    | NoPagesSelected
    | InvalidPageIndices(bad: seq<int>, totalPages: int)
    | NoSplitPoints
    | InvalidSplitPoints(bad: seq<int>, totalPages: int)
    | NothingToReorder
    | OrderLengthMismatch(length: int, totalPages: int)
    | InvalidPageIndex(index: int, totalPages: int)
    | EmptyDocument
    | NoRedactions
    | CannotDeleteAllPages

  /** The executor whose library step failed (the wrapping `ProcessingError`'s message). */
  datatype Step = ExtractStep | SplitStep | CompressStep | RedactStep | ReorderStep | DeleteStep

  /** `ValidationError` and `ProcessingError`, the two error classes of the tool. */
  datatype PdfError = ValidationError(reason: Invalid) | ProcessingError(step: Step)

  /** Outcome of a validator that returns nothing or throws a `ValidationError`. */
  datatype Outcome = Pass | Fail(error: Invalid)

  datatype Result<+T> = Success(value: T) | Failure(error: PdfError)

  datatype Option<+T> = None | Some(value: T)

  /** Every element of `xs` lies in `[lo, hi)`. */
  predicate AllInRange(xs: seq<int>, lo: int, hi: int)
  {
    forall i :: 0 <= i < |xs| ==> lo <= xs[i] < hi
  }
}
