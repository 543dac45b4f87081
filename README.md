# PDF tool core in Dafny

A Dafny model of the editing core of a browser-based PDF tool. The tool works in six layers, and the model covers each:

- **Validators** gate every operation.
- **Executors** copy pages into new documents: extract, split, reorder and delete. Compress is the identity. Redaction paints boxes onto the pages of the document it is given.
- **The selection store** (`uiReducer`) holds the tool mode, the selected pages, the split points, the redaction boxes, the page order and the zoom.
- **The document store** (`appReducer`) holds the loaded documents, the current one, the working copy and the operation history.
- **Two generations of operation handlers** run the executors. They commit results into the working copy through `applyOperationToWorkingDoc`, hand out downloads, and name the files.
- **Three components** carry their own rules: the redaction canvas (drawing and removing boxes), the page grid (what a click dispatches) and the toolbar (zoom steps and which buttons can be pressed).

A document is a `Document` object holding a sequence of `Page` values. A page's `content` is opaque. A page also carries the list of fills painted on it. Every executor is a method with a loop or a library call, proved against a function on page sequences:

| method | specified by |
|---|---|
| `ExtractPages` | `ExtractResult` |
| `SplitPDF` | `SplitResult` |
| `ApplyRedactions` | `RedactResult` / `RedactedPages` |
| `ReorderPages` | `ReorderResult` |
| `DeletePages` | `DeleteResult` |

The lemmas are stated about those functions.

The two stores are modelled as follows:

- The selection store is a pure reducer `UiState.UiReducer`, plus a class `UIStore` whose `Dispatch` updates one field per state component. `Dispatch` is proved to agree with the reducer.
- The document store is a pure reducer, `AppStore.AppReducer`.

The handlers are classes:

- `ContextOperations.Session` models `usePDFOperationsWithContext`.
- `LegacyOperations.LegacySession` models `usePDFOperations`.

Each handler's postcondition spells out the new application state, the downloads handed out, the UI store and the processing flag, in terms of the specification functions.

Some behaviours of the code are stated on purpose, because they are easy to miss:

- `extractPages` keeps the given index order and does not sort. The context hook sorts and extracts from the source document; the older hook sorts and extracts from the working copy.
- Switching mode keeps `currentPage` only when the new mode is redaction; every other switch resets it to 0.
- A redaction box on a missing page fails as a `ProcessingError`, because the page lookup throws inside the `try`.
- Redaction paints in place, so a failed batch is not rolled back: it keeps the boxes painted before the failure.
- `validatePageOrder` checks only range and length, so it accepts orders that repeat a page.
- Removing any document discards the edits on the working copy.
- The page-order delete/reorder choice compares against the source document's page count in the context hook, and against the working copy's page count in the older hook. `ContextOperations.SecondApplyAfterDeleteFails` shows the consequence. After the middle of three pages is deleted, applying the unchanged order a second time takes the delete path again and fails validation.

The files are all under `src/`:

| file | contents |
|---|---|
| `types.dfy` | constants, shared datatypes, the `Document` class |
| `validation.dfy` | the validators |
| `numeric_sort.dfy` | the ascending sort |
| `pdf_operations.dfy` | the executors |
| `ui_state.dfy` | the selection store |
| `app_state.dfy` | the document store |
| `file_utils.dfy` | file names |
| `chain.dfy` | commit/rollback, labels, set enumeration |
| `context_operations.dfy` | the context hook's handlers |
| `legacy_operations.dfy` | the older hook's handlers |
| `redaction_canvas.dfy` | the redaction canvas |
| `page_grid.dfy` | the page grid |
| `toolbar.dfy` | the toolbar |

## Model

| member | source | states |
|---|---|---|
| Validation.OutsideRange | src/lib/validation.ts:26 | the filtered list holds exactly the entries outside `[lo, hi)`, and is empty iff every entry is in range |
| Validation.ValidatePDFFile | src/lib/validation.ts:8-16 | passes iff the MIME type is `application/pdf` and the size is at most 50 MiB; a wrong type is reported before the size |
| Validation.SizeCapIsInclusive | src/constants/index.ts:2 | a file of exactly 52428800 bytes passes, and one byte more fails with the size error |
| Validation.ValidatePageIndices | src/lib/validation.ts:21-32 | passes iff the list is non-empty and all indices are in `[0, totalPages)`; an empty list gets the "no pages" error; otherwise the error lists every out-of-range index and the page count |
| Validation.ValidateSplitPoints | src/lib/validation.ts:37-48 | passes iff non-empty with every point in `[1, totalPages)`; the error lists every point `<= 0` or `>= totalPages` |
| Validation.SplitPointExamples | src/lib/validation.ts:37-48 | `[]` fails with "no split points", `[0, 5]` fails on 5 pages, and the repeated interior point `[2, 2]` passes |
| Validation.ValidatePageOrder | src/lib/validation.ts:53-70 | passes iff non-empty, all in range and of length `totalPages`; the three checks are made in that order; a range failure lists exactly the out-of-range entries and the page count, a length failure both lengths |
| Validation.PageOrderIsNotCheckedForPermutation | src/lib/validation.ts:53-70 | `[0, 0, 1]` passes for 3 pages |
| Validation.ValidateRedaction | src/lib/validation.ts:75-92 | fails iff the page index is outside the document; otherwise the box is kept iff width and height are both positive |
| Validation.RedactionIgnoresPageSize | src/lib/validation.ts:75-92 | the verdict is the same for any page width and height |
| Validation.ValidatePDFDocument | src/lib/validation.ts:98-103 | fails iff the document has no pages, with the empty-document error |
| NumericSort.Insert | src/lib/pdf-operations.ts:42 | inserting into a sorted list gives a sorted list one longer, with `x` added to its elements |
| NumericSort.SortAscending | src/lib/pdf-operations.ts:42 | the result is ascending and a permutation of the input |
| NumericSort.SortedSameElements | src/lib/pdf-operations.ts:42 | sorting keeps exactly the same values |
| NumericSort.SortKeepsBounds | src/lib/pdf-operations.ts:37-42 | a range the points were validated against still holds after sorting |
| NumericSort.SortKeepsDistinct | src/lib/pdf-operations.ts:42 | sorting values without repeats gives a strictly ascending list |
| NumericSort.SortedEqual | src/hooks/usePDFOperationsWithContext.ts:67 | two ascending lists with the same elements (with multiplicity) are equal |
| NumericSort.SortDeterminedByElements | src/hooks/usePDFOperationsWithContext.ts:67 | the sorted list depends only on the multiset of inputs, not on their arrival order |
| PdfOperations.Range | src/lib/pdf-operations.ts:53 | `end - start` consecutive indices starting at `start` |
| PdfOperations.Gather | src/lib/pdf-operations.ts:17-18 | one page per index, `out[k] == pages[indices[k]]` |
| PdfOperations.GatherRange | src/lib/pdf-operations.ts:53-57 | copying the index range `[start, end)` gives exactly the slice `pages[start..end]` |
| PdfOperations.CopyPages | src/lib/pdf-operations.ts:16-18 | a fresh document whose pages are the gathered pages, built by the `addPage` loop |
| PdfOperations.ExtractResult | src/lib/pdf-operations.ts:9-27 | succeeds iff the indices pass validation; then `out[k] == pages[indices[k]]` with one page per index; otherwise the validation error, unwrapped |
| PdfOperations.ExtractKeepsGivenOrder | src/lib/pdf-operations.ts:13-18 | extracting `[1, 0]` yields the second page first: no sorting inside |
| PdfOperations.ExtractPages | src/lib/pdf-operations.ts:9-27 | the document returned has the pages of `ExtractResult`, and is fresh |
| PdfOperations.Segments | src/lib/pdf-operations.ts:44-60 | every emitted part is non-empty, and there are at most `|bounds| - 1` of them |
| PdfOperations.SegmentsConcat | src/lib/pdf-operations.ts:42-60 | for boundaries from 0 that never decrease, the parts laid end to end are the pages before the last boundary |
| PdfOperations.SegmentsOfStrictBounds | src/lib/pdf-operations.ts:44-51 | with strictly increasing boundaries no pair is skipped |
| PdfOperations.SplitBoundariesShape | src/lib/pdf-operations.ts:42 | `[0] ++ sort(points) ++ [total]` is within `[0, total]` and never decreases |
| PdfOperations.SplitSegmentsShape | src/lib/pdf-operations.ts:42-60 | for in-range points the parts are non-empty, at most one more than the points, and concatenate to the whole document |
| PdfOperations.SplitResult | src/lib/pdf-operations.ts:33-73 | success implies the points passed validation; invalid points give the validation error unwrapped |
| PdfOperations.SplitReassembles | src/lib/pdf-operations.ts:42-66 | for valid points the split succeeds (the "no valid split" error is unreachable) and its parts concatenate to the whole document |
| PdfOperations.SplitPartCount | src/lib/pdf-operations.ts:42-66 | distinct valid points give exactly `|points| + 1` parts |
| PdfOperations.SplitAtTwoPoints | src/lib/pdf-operations.ts:42-60 | two ascending interior points split along `[0, p, q, total]` |
| PdfOperations.SplitFiveAtTwoAndFour | src/lib/pdf-operations.ts:33-73 | five pages cut at 2 and 4 give parts `[0,2)`, `[2,4)`, `[4,5)`, of sizes 2, 2 and 1 |
| PdfOperations.SplitSkipsRepeatedPoint | src/lib/pdf-operations.ts:44-51 | five pages cut at `[2, 2]` give two parts, the empty pair being skipped |
| PdfOperations.SplitIgnoresPointOrder | src/lib/pdf-operations.ts:42 | listing the same points in another order gives the same outcome and parts |
| PdfOperations.CopySegments | src/lib/pdf-operations.ts:44-60 | the loop yields one fresh document per non-empty boundary pair, holding exactly that pair's pages |
| PdfOperations.SplitPDF | src/lib/pdf-operations.ts:33-73 | succeeds iff `SplitResult` does, with fresh documents holding its parts, or its error |
| PdfOperations.CompressPDF | src/lib/pdf-operations.ts:78-88 | always succeeds with the very same document |
| PdfOperations.PageSpaceRect | src/lib/pdf-operations.ts:121-127 | the fill keeps `x`, width and height, and its top edge lies `y` below the top of the page (`pageHeight - y - height`) |
| PdfOperations.FlipEdges | src/lib/pdf-operations.ts:121-127 | a box at the top of the display lands at the top of the page, and one at the bottom lands at `y = 0` |
| PdfOperations.PaintAll | src/lib/pdf-operations.ts:105-128 | painting keeps the page count and every page's content and size |
| PdfOperations.PaintAllFills | src/lib/pdf-operations.ts:105-128 | each page ends with its old fills followed by one flipped fill per kept box aimed at it, in box order; degenerate boxes paint nothing |
| PdfOperations.FirstOffPage | src/lib/pdf-operations.ts:105-107 | the first box whose page does not exist; every earlier box has a page |
| PdfOperations.RedactedPagesSpec | src/lib/pdf-operations.ts:105-128 | the pages after the loop, success or not: count, content and sizes kept; each page's fills are its old fills plus one flipped fill per kept box before the first box on a missing page |
| PdfOperations.RedactResult | src/lib/pdf-operations.ts:93-137 | an empty list is a `ValidationError`; success iff every box names an existing page; otherwise a `ProcessingError`; on success, the painted pages |
| PdfOperations.FailedBatchKeepsEarlierPaint | src/lib/pdf-operations.ts:105-135 | when box `k` is the first on a missing page, the batch fails and yet boxes `0..k-1` stay painted |
| PdfOperations.ApplyRedactions | src/lib/pdf-operations.ts:93-137 | paints onto the given document in place and returns that same document on success; the pages are painted even on failure |
| PdfOperations.ReorderResult | src/lib/pdf-operations.ts:142-160 | succeeds iff the order passes validation; then `out[k] == pages[order[k]]` with the page count kept; otherwise the validation error |
| PdfOperations.ReorderMayDuplicate | src/lib/pdf-operations.ts:146-151 | the order `[0, 0, 1]` turns `[a, b, c]` into `[a, a, b]` |
| PdfOperations.ReorderPages | src/lib/pdf-operations.ts:142-160 | a fresh document holding the pages of `ReorderResult` |
| PdfOperations.DeleteResult | src/lib/pdf-operations.ts:165-187 | an empty keep-list fails with "cannot delete all pages" before any range check; success iff all kept indices exist; then `out[k] == pages[keep[k]]` |
| PdfOperations.DeletePages | src/lib/pdf-operations.ts:165-187 | a fresh document holding the pages of `DeleteResult` |
| Types.Document.Create | src/lib/pdf-operations.ts:16 | a created document has no pages |
| Types.Document.AddPage | src/lib/pdf-operations.ts:18 | appends exactly one page |
| Types.Document.DrawRectangle | src/lib/pdf-operations.ts:121-127 | adds one fill to one page and changes nothing else |
| UiState.Identity | src/hooks/useUIState.ts:126 | `[0, n)` in order |
| UiState.Toggle | src/hooks/useUIState.ts:27-45 | flips membership of exactly the payload |
| UiState.RemoveAt | src/hooks/useUIState.ts:50-54 | removes exactly position `i`, keeping the others in order; no change when `i` is out of range |
| UiState.Spliced | src/hooks/useUIState.ts:82-88 | `splice(i, 1)` on a copy: removes the entry at the clamped start (a negative start counts from the end), or nothing past the end |
| UiState.UiReducer | src/hooks/useUIState.ts:16-121 | each action changes only its own fields: selections only by their toggles, a mode switch, clearing or a reset; the order only by the order actions or a reset; zoom, processing flag and upload progress only by their setters |
| UiState.SetModeClearsSelections | src/hooks/useUIState.ts:18-25 | selected pages and split points emptied; redactions, order and zoom kept; `currentPage` kept iff the new mode is redaction (or it was already 0) |
| UiState.TogglePageTwiceRestores | src/hooks/useUIState.ts:27-35 | toggling the same page twice restores the state |
| UiState.ToggleSplitTwiceRestores | src/hooks/useUIState.ts:37-45 | toggling the same split point twice restores the state |
| UiState.AddThenRemoveRestores | src/hooks/useUIState.ts:47-54 | a box is appended at the end, and removing that position undoes it |
| UiState.RemoveRedactionKeepsOthers | src/hooks/useUIState.ts:50-54 | removing position `i` drops exactly that box from the multiset |
| UiState.MovePageUpPermutes | src/hooks/useUIState.ts:62-70 | no-op at index 0; otherwise swaps entries `i - 1` and `i` and keeps every other entry, so the order stays a permutation |
| UiState.MovePageDownPermutes | src/hooks/useUIState.ts:72-80 | no-op at the last index; otherwise swaps `i` and `i + 1`, keeping all others; a permutation |
| UiState.MoveUpThenDownRestores | src/hooks/useUIState.ts:62-80 | moving page `i` up and then page `i - 1` down restores the state |
| UiState.DeletePageRemovesOne | src/hooks/useUIState.ts:82-88 | no-op when at most one entry remains; otherwise removes exactly entry `i` and shortens the order by one |
| UiState.DeletePageNegativeIndex | src/hooks/useUIState.ts:82-88 | a negative index deletes counting from the end |
| UiState.ClearSelectionsSpec | src/hooks/useUIState.ts:99-105 | empties the three selections and changes nothing else |
| UiState.ResetUISpec | src/hooks/useUIState.ts:107-116 | view mode, page 0, no selections, and the payload order or `[]`; zoom kept |
| UiState.InitialOrderIsIdentity | src/hooks/useUIState.ts:123-127 | the initial order is `[0, n)`, in view mode with nothing selected at zoom 100 |
| UiState.UIStore.constructor | src/hooks/useUIState.ts:123-127 | the store starts in the initial state |
| UiState.UIStore.Dispatch | src/hooks/useUIState.ts:16-121 | the in-place update of each case yields exactly the reducer's new state |
| UiState.UIStore.InitializePageOrder | src/hooks/useUIState.ts:185-187 | sets the order to `[0, pageCount)` as a `SET_PAGE_ORDER` dispatch |
| AppStore.WithoutId | src/hooks/useAppState.ts:34 | keeps exactly the documents with another id; unchanged when none has the id |
| AppStore.WithoutIdAppend | src/hooks/useAppState.ts:34 | filtering a concatenation filters each part, so the survivors keep their original order, each once |
| AppStore.FirstSurvivor | src/hooks/useAppState.ts:34-36 | the first survivor is the earliest document whose id differs |
| AppStore.NoSurvivor | src/hooks/useAppState.ts:34-36 | when every document has the id, nothing survives |
| AppStore.AppReducer | src/hooks/useAppState.ts:12-57 | each action changes only its own fields; every action but `SET_WORKING_DOC` keeps the working copy or resets it to the current document's original |
| AppStore.AddDocument | src/hooks/useAppState.ts:62-65 | appends the document and makes it current, with its `pdfDoc` as working copy; history unchanged |
| AppStore.SetCurrentDocResetsWorking | src/hooks/useAppState.ts:17-22 | the working copy becomes the new current's `pdfDoc`, or none; documents and history unchanged |
| AppStore.AddOperationAppends | src/hooks/useAppState.ts:27-28 | exactly one label appended at the end; earlier labels and all other fields unchanged |
| AppStore.SingleFieldUpdates | src/hooks/useAppState.ts:24-31 | setting the working copy and resetting the history each touch only their own field |
| AppStore.RemoveDocumentSpec | src/hooks/useAppState.ts:33-44 | every document with the id dropped; a removed current is replaced by the earliest document with another id, or none when there is no such document; the working copy reset to the current's original |
| AppStore.RemovingOtherDocumentDiscardsEdits | src/hooks/useAppState.ts:38-43 | removing a non-current document still replaces an edited working copy |
| AppStore.ReorderDocumentsSpec | src/hooks/useAppState.ts:46-49 | `docs'[i] == docs[p[i]]` with `|docs'| == |p|`; current and working unchanged |
| AppStore.ResetAllIsInitial | src/hooks/useAppState.ts:51-52 | returns to the empty initial state |
| FileUtils.NatToString | src/hooks/usePDFOperationsWithContext.ts:104 | a non-empty run of decimal digits without a leading zero |
| FileUtils.ParsePrinted | src/hooks/usePDFOperationsWithContext.ts:104 | reading the printed digits back gives the number |
| FileUtils.IndexOf | src/lib/file-utils.ts:50 | the first position where the pattern occurs, if any |
| FileUtils.ReplaceFirst | src/lib/file-utils.ts:50 | a string-pattern `replace` rewrites only the first occurrence, or nothing |
| FileUtils.StripPdf | src/lib/file-utils.ts:50 | the first `.pdf` removed (four characters shorter), or the name unchanged when it has none |
| FileUtils.GenerateFilename | src/lib/file-utils.ts:49-53 | the name always ends in `.pdf` |
| FileUtils.FilenameSeesOnlyNonEmptyHistory | src/lib/file-utils.ts:51 | the name depends on the history only through whether it is empty |
| FileUtils.PlainNameRoundTrip | src/lib/file-utils.ts:49-53 | `stem.pdf` comes back unchanged with no history and as `stem-processed.pdf` otherwise |
| FileUtils.OnlyFirstOccurrenceStripped | src/lib/file-utils.ts:50 | `a.pdf.pdf` strips to `a.pdf` |
| Chain.InputAfterSuccess | src/lib/pdf-operations.ts:121-130 | after success only redaction has changed its input, which is then its result |
| Chain.Execute | src/hooks/usePDFOperationsWithContext.ts:49 | running an operation gives the pages of its specification function; only redaction writes to its input |
| Chain.CommitState | src/hooks/usePDFOperationsWithContext.ts:50-51 | the working copy replaced and one label appended; documents and current kept |
| Chain.ApplyOperationToWorkingDoc | src/hooks/usePDFOperationsWithContext.ts:42-60 | with no working copy, null and nothing changes; it commits iff the operation succeeds, and then holds exactly the operation's pages plus one label; on failure the error is returned and the state is unchanged; the older hook's copy at `src/hooks/usePDFOperations.ts` lines 39-57 is identical |
| Chain.CountedIsInjective | src/hooks/usePDFOperations.ts:162 | the count can be read back from a counted label |
| Chain.RedactionLabel | src/hooks/usePDFOperationsWithContext.ts:143 | starts with `Aplicare `; the last letter is `i` (plural) unless exactly one box was applied |
| Chain.RedactionLabelRecordsCount | src/hooks/usePDFOperationsWithContext.ts:143 | redaction labels are equal iff their counts are |
| Chain.DeleteLabel | src/hooks/usePDFOperationsWithContext.ts:165 | starts with `Ștergere `; ends in the appended `e` unless exactly one page was deleted |
| Chain.DeleteLabelRecordsCount | src/hooks/usePDFOperations.ts:162 | delete labels are equal iff their counts are |
| Chain.ReorderChoice | src/hooks/usePDFOperationsWithContext.ts:159-172 | delete iff the order is shorter than the count it is compared with, labelled with the difference; otherwise reorder |
| Chain.PartDownloads | src/hooks/usePDFOperationsWithContext.ts:103-105 | one download per part in order, named `-part1` … `-partN` |
| Chain.PartFilename | src/hooks/usePDFOperationsWithContext.ts:104 | the stripped name, then `-part`, ending in `.pdf` |
| Chain.PartNamesDistinct | src/hooks/usePDFOperationsWithContext.ts:103-105 | different part numbers give different file names |
| Chain.CompressedFilename | src/hooks/usePDFOperationsWithContext.ts:125 | the stripped name followed by `-compressed.pdf` |
| Chain.CompressedNameIsNotAPartName | src/hooks/usePDFOperationsWithContext.ts:104-125 | the compressed download never takes the name of a split part of the same file |
| Chain.Enumerate | src/hooks/usePDFOperationsWithContext.ts:100 | lists each element of the set once, in an order whose sort is fixed |
| Chain.SplitAtSet | src/hooks/usePDFOperationsWithContext.ts:100-101 | splitting at a set's listing gives the parts `SplitResult` defines, whatever the listing order |
| ContextOperations.ExtractNameSpansSelection | src/hooks/usePDFOperationsWithContext.ts:67-78 | the sorted selection's first and last entries are the lowest and highest selected pages |
| ContextOperations.ExtractFilename | src/hooks/usePDFOperationsWithContext.ts:75-78 | the stripped name, then `-page`, then `s` exactly when more than one page was extracted, ending in `.pdf` |
| ContextOperations.ExtractFilenameReadsBackPage | src/hooks/usePDFOperationsWithContext.ts:75-78 | for one page, the digits after the stripped name and `-page-` read back as the 1-based page, followed by `.pdf` |
| ContextOperations.ExtractFilenameReadsBackRange | src/hooks/usePDFOperationsWithContext.ts:75-78 | for several pages, after `-pages-` come the 1-based first entry, `-`, the 1-based last entry, then `.pdf`, each number read back from its digits |
| ContextOperations.SecondApplyAfterDeleteFails | src/hooks/usePDFOperationsWithContext.ts:159-166 | deleting page 2 of 3 leaves order `[0, 2]`; applying it deletes down to `[a, c]`; applying it again fails with index 2 out of range |
| ContextOperations.Session.constructor | src/hooks/usePDFOperationsWithContext.ts:40 | not processing, no downloads |
| ContextOperations.Session.HandleExtract | src/hooks/usePDFOperationsWithContext.ts:62-93 | guard; extracts the sorted selection from the source document into one download named by its range and clears the selections on success; working copy and history untouched; flag off |
| ContextOperations.Session.HandleSplit | src/hooks/usePDFOperationsWithContext.ts:95-115 | guard; one `-partN` download per part of the source document and cleared selections on success; nothing on failure; flag off |
| ContextOperations.Session.SplitToDownloads | src/hooks/usePDFOperationsWithContext.ts:100-105 | reports success exactly when the split succeeds, and adds its part downloads |
| ContextOperations.Session.DownloadParts | src/hooks/usePDFOperationsWithContext.ts:103-105 | appends one named download per document, in order |
| ContextOperations.Session.HandleCompress | src/hooks/usePDFOperationsWithContext.ts:118-134 | hands out the source pages unchanged as `-compressed.pdf` |
| ContextOperations.Session.HandleApplyRedactions | src/hooks/usePDFOperationsWithContext.ts:136-152 | paints the working copy in place (the source too while they are the same object); commits with the redaction label and clears selections iff the batch succeeds |
| ContextOperations.Session.HandleApplyReorder | src/hooks/usePDFOperationsWithContext.ts:154-178 | deletes when the order is shorter than the source's page count, else reorders, always on the working copy; commit or no change; selections never cleared |
| ContextOperations.Session.HandleDownload | src/hooks/usePDFOperationsWithContext.ts:180-201 | saves the working copy under `generateFilename(current name, history)` |
| LegacyOperations.SortedElementsCount | src/hooks/usePDFOperations.ts:64-67 | the sorted listing has one entry per selected page, the count the label shows |
| LegacyOperations.ExtractLabel | src/hooks/usePDFOperations.ts:67 | starts with `Extragere `; ends in the appended `e` unless exactly one page was kept |
| LegacyOperations.ExtractLabelRecordsCount | src/hooks/usePDFOperations.ts:67 | extract labels are equal iff their counts are |
| LegacyOperations.LegacySession.constructor | src/hooks/usePDFOperations.ts:37 | not processing, no downloads |
| LegacyOperations.LegacySession.HandleExtract | src/hooks/usePDFOperations.ts:59-74 | replaces the working copy by its sorted selected pages and logs the extract label; no change on failure |
| LegacyOperations.LegacySession.HandleSplit | src/hooks/usePDFOperations.ts:76-94 | one `-partN` download per part of the source document; application state untouched |
| LegacyOperations.LegacySession.SplitToDownloads | src/hooks/usePDFOperations.ts:80-86 | reports success exactly when the split succeeds, and adds its part downloads |
| LegacyOperations.LegacySession.DownloadParts | src/hooks/usePDFOperations.ts:84-86 | appends one named download per document, in order |
| LegacyOperations.LegacySession.HandleMerge | src/hooks/usePDFOperations.ts:96-113 | refuses iff fewer than two documents are loaded |
| LegacyOperations.LegacySession.HandleCompress | src/hooks/usePDFOperations.ts:115-131 | hands out the source pages unchanged as `-compressed.pdf` |
| LegacyOperations.LegacySession.HandleApplyRedactions | src/hooks/usePDFOperations.ts:133-147 | paints in place, and commits with the redaction label iff the batch succeeds |
| LegacyOperations.LegacySession.HandleApplyReorder | src/hooks/usePDFOperations.ts:149-176 | delete iff the order is shorter than the working copy, else reorder; commit or no change |
| LegacyOperations.LegacySession.HandleDownload | src/hooks/usePDFOperations.ts:178-199 | saves the working copy under `generateFilename(current name, history)` |
| LegacyOperations.LegacyDeleteNeedsShorterOrder | src/hooks/usePDFOperations.ts:155-163 | against the working copy's own count, delete iff the order is shorter, and the delete succeeds iff the order is non-empty and in range |
| RedactionCanvas.CaptureBox | src/components/RedactionCanvas.tsx:60-63 | the box carries the canvas's page, has non-negative sides, and its edges are the two x and the two y coordinates of the drag |
| RedactionCanvas.CaptureIsSymmetric | src/components/RedactionCanvas.tsx:60-63 | dragging either way gives the same box |
| RedactionCanvas.AcceptedBoxIsPainted | src/components/RedactionCanvas.tsx:66-75 | a box the canvas accepts passes `validateRedaction` as kept, so it is never dropped as degenerate |
| RedactionCanvas.Release | src/components/RedactionCanvas.tsx:53-80 | only the redaction list changes; it grows by the captured box at the end iff both sides exceed 10, and is unchanged otherwise |
| RedactionCanvas.PageRedactions | src/components/RedactionCanvas.tsx:30 | never longer than the full list |
| RedactionCanvas.PageRedactionsMembers | src/components/RedactionCanvas.tsx:30 | the boxes shown on a page are exactly the redactions naming that page |
| RedactionCanvas.FindIndexAsWritten | src/components/RedactionCanvas.tsx:84 | the lookup finds global index `index` iff that box lies on this page, else `-1` |
| RedactionCanvas.ShownToGlobal | src/components/RedactionCanvas.tsx:82-88 | the global position of the `k`-th box shown on the page, or `-1` iff fewer are shown |
| RedactionCanvas.RemoveShownRemovesIt | src/components/RedactionCanvas.tsx:82-88 | removing that global position removes exactly shown box `k` from the page |
| RedactionCanvas.RemoveKeepsOtherPages | src/components/RedactionCanvas.tsx:82-88 | the boxes shown on every other page stay as they were |
| RedactionCanvas.RemoveButtonMissesAfterOtherPage | src/components/RedactionCanvas.tsx:82-88 | with boxes on page 0 and then two on page 1, the as-written buttons remove the wrong box or none |
| RedactionCanvas.Canvas.constructor | src/components/RedactionCanvas.tsx:25-27 | a canvas starts idle |
| RedactionCanvas.Canvas.MouseDown | src/components/RedactionCanvas.tsx:32-41 | starts a drag at the point |
| RedactionCanvas.Canvas.MouseMove | src/components/RedactionCanvas.tsx:43-51 | follows the pointer only during a drag; otherwise nothing changes |
| RedactionCanvas.Canvas.MouseUp | src/components/RedactionCanvas.tsx:53-80 | during a drag: the store gets `Release` of the drag, and the canvas returns to idle; otherwise nothing changes |
| RedactionCanvas.Canvas.RemoveRedactionAsWritten | src/components/RedactionCanvas.tsx:82-88 | removes global box `index` iff it lies on this page, else nothing |
| RedactionCanvas.Canvas.RemoveShownRedaction | src/components/RedactionCanvas.tsx:82-88 | removes exactly the shown box and leaves every other page's boxes alone |
| PageGrid.AfterPageClick | src/components/PDFPageGrid.tsx:31-37 | redaction mode sets the current page; extraction mode flips exactly that page's selection; other modes change nothing |
| PageGrid.PageClickAction | src/components/PDFPageGrid.tsx:31-37 | a click dispatches only in redaction mode (set the current page) or extraction mode (toggle the selection), with the card's index |
| PageGrid.SplitToggleAction | src/components/PDFPageGrid.tsx:39-43 | dispatches only in split mode, a toggle of the card's own 0-based index |
| PageGrid.AfterSplitToggle | src/components/PDFPageGrid.tsx:39-43 | in split mode flips exactly point `i`; otherwise nothing |
| PageGrid.AfterIntendedSplitToggle | src/components/PDFPageGrid.tsx:137-139 | in split mode flips exactly point `i + 1`; otherwise nothing |
| PageGrid.SplitAtOnePoint | src/lib/pdf-operations.ts:42-60 | one interior point `p` splits into `pages[..p]` and `pages[p..]` |
| PageGrid.SplitButtonCutsBeforeItsCard | src/components/PDFPageGrid.tsx:135-139 | the first card's button stores 0, which the split rejects; card `i >= 1` opens the second part instead of closing the first |
| PageGrid.IntendedSplitButtonCutsAfterItsCard | src/components/PDFPageGrid.tsx:137-139 | with point `i + 1`, card `i` closes the first part and card `i + 1` opens the second |
| Toolbar.ZoomIn | src/components/Toolbar.tsx:52-55 | `min(zoom + 25, 200)` |
| Toolbar.ZoomOut | src/components/Toolbar.tsx:57-60 | `max(zoom - 25, 50)` |
| Toolbar.ZoomClicksStayInRange | src/components/Toolbar.tsx:52-60 | from a zoom in `[50, 200]`, any run of clicks stays in range and changes only the zoom |
| Toolbar.InitialZoomInRange | src/hooks/useUIState.ts:11 | the initial zoom lies within the limits |
| Toolbar.ZoomButtonDisabledIffNoEffect | src/components/Toolbar.tsx:142-154 | within the limits, each zoom button is disabled iff pressing it would change nothing |
| Toolbar.ProcessingDisablesEverything | src/components/Toolbar.tsx:165-243 | when the toolbar's processing flag is set, no button can be pressed |
| Toolbar.ApplyButtonsSpec | src/components/Toolbar.tsx:165-222 | each apply button is pressable iff its mode is on, it has input, and nothing runs; reorder needs only its mode; compress and download need a document |
| Toolbar.ClearHiddenIffNothingToClear | src/components/Toolbar.tsx:240 | the clear button is hidden iff clearing would change nothing |
| Toolbar.PressableApplyHasInput | src/components/Toolbar.tsx:168-179 | a pressable extract or split button never leads to the "nothing selected" errors |

## Left out

- The PDF library is abstract. Creating, copying, adding pages and drawing rectangles become sequence operations on `Page` values. Loading, saving to bytes, the save options and byte encoding are not modelled.
- The library's own failures are not modelled: a copy or a draw that throws on a corrupt object. Copying and painting always succeed, so a `ProcessingError` arises only where the handlers' code raises one (the split's empty-result check, the redaction page lookup).
- Toasts, console warnings and error-message texts are not modelled. Errors are datatypes carrying the offending values.
- The out-of-bounds warning for redaction boxes only logs, so it is not modelled.
- The compression percentage is floating-point display arithmetic, and is left out.
- Async scheduling, stale closures and concurrent clicks are not modelled. Each handler runs to completion as one method call. `isProcessing` is a plain boolean that is switched on and off again within the call.
- Merging is modelled only up to its guard. Past the guard the handler calls a merge function that the repository does not define, so `HandleMerge` produces no file.
- `UiState.UiReducer` requires move indices that exist (`ActionInRange`). In JavaScript, an out-of-range move writes `undefined` into the order array, and a Dafny sequence cannot hold that.
- `AppStore.AppReducer` requires reorder indices that exist, for the same reason.
- DOM references, client coordinates and the `canvasRef` null check are not modelled. Canvas events arrive as points relative to the canvas, with the canvas always present.
- Contexts and wiring are not modelled. The toolbar reads `isProcessing` from the document context, which takes it from a field the document store does not provide. So in the source that flag is always undefined, and processing never disables a toolbar button. `Toolbar.ToolbarView` takes the flag as a parameter instead.
- Rendering, thumbnails, file upload with its progress animation, and the page-reorder panel are not modelled. The panel's guards repeat the reducer's guards.
- Numbers are mathematical integers, and geometry uses reals. Non-integer page indices, `NaN` and IEEE rounding are not modelled.
- `Chain.Enumeration`: the order in which a JavaScript `Set` lists its elements (insertion order) is left open. Every result that depends on it is stated for every listing. The split and the sorted extraction do not depend on the order.
- `PdfOperations.PaintAll`, `Chain.Execute`, `Chain.ApplyOperationToWorkingDoc` and the redaction handlers model only the aliasing that matters here. The working copy may be the current document's `pdfDoc`, and redaction paints both. Other page objects that pdf-lib shares between documents are not modelled.

## Findings

| source | as written | input that shows it | evidently intended | confidence | as-written member | corrected member |
|---|---|---|---|---|---|---|
| src/components/RedactionCanvas.tsx:82-88 | the remove button of the `k`-th box shown on a page looks up global position `k` and removes it only if that box lies on this page | boxes A on page 0, then B and C on page 1: on page 1 the button on C (shown 1) removes B, and the button on B (shown 0) removes nothing | translate the shown index to the global index of that box, so the button removes the box it sits on | high (proved; not executed) | RedactionCanvas.FindIndexAsWritten, RedactionCanvas.RemoveButtonMissesAfterOtherPage | RedactionCanvas.ShownToGlobal, RedactionCanvas.RemoveShownRemovesIt |
| src/components/PDFPageGrid.tsx:39-43 | the split button of card `i` (0-based), labelled "after page i+1" at lines 137-139, stores point `i`, which cuts before card `i` | card 0 stores point 0, which validation rejects; card 2 of 5 cuts into pages `[0, 2)` and `[2, 5)` | store `i + 1`, so the cut falls right after card `i` | high (proved; not executed) | PageGrid.SplitButtonCutsBeforeItsCard | PageGrid.IntendedSplitButtonCutsAfterItsCard |
