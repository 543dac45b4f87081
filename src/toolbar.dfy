/**
 * The toolbar: zoom stepping clamped to the zoom limits, and the rules that
 * show, enable and disable the action buttons.
 */
module Toolbar {
  import opened Types
  import opened UiState
  import Validation

  /** `handleZoomIn`: one step up, never past the largest zoom. */
  function ZoomIn(z: int): (r: int)
    ensures r <= MAX_ZOOM
    ensures r == z + ZOOM_STEP || r == MAX_ZOOM
    ensures z + ZOOM_STEP <= MAX_ZOOM ==> r == z + ZOOM_STEP
  {
    if z + ZOOM_STEP <= MAX_ZOOM then z + ZOOM_STEP else MAX_ZOOM
  }

  /** `handleZoomOut`: one step down, never past the smallest zoom. */
  function ZoomOut(z: int): (r: int)
    ensures r >= MIN_ZOOM
    ensures r == z - ZOOM_STEP || r == MIN_ZOOM
    ensures z - ZOOM_STEP >= MIN_ZOOM ==> r == z - ZOOM_STEP
  {
    if z - ZOOM_STEP >= MIN_ZOOM then z - ZOOM_STEP else MIN_ZOOM
  }

  predicate InZoomRange(z: int)
  {
    MIN_ZOOM <= z <= MAX_ZOOM
  }

  datatype ZoomClick = ZoomInClick | ZoomOutClick

  /** The zoom action a click dispatches, from the zoom the toolbar last saw. */
  function ZoomAction(c: ZoomClick, z: int): UIAction
  {
    match c
    case ZoomInClick => SetZoom(ZoomIn(z))
    case ZoomOutClick => SetZoom(ZoomOut(z))
  }

  /** The UI state after a run of zoom clicks. */
  function AfterZoomClicks(s: UIState, clicks: seq<ZoomClick>): UIState
    decreases |clicks|
  {
    if clicks == [] then s
    else AfterZoomClicks(UiReducer(s, ZoomAction(clicks[0], s.zoom)), clicks[1..])
  }

  /**
   * Starting inside the zoom limits, any run of zoom clicks stays inside them
   * and changes nothing but the zoom.
   */
  lemma {:induction false} ZoomClicksStayInRange(s: UIState, clicks: seq<ZoomClick>)
    requires InZoomRange(s.zoom)
    ensures InZoomRange(AfterZoomClicks(s, clicks).zoom)
    ensures AfterZoomClicks(s, clicks).(zoom := s.zoom) == s
    decreases |clicks|
  {
    if clicks != [] {
      var next := UiReducer(s, ZoomAction(clicks[0], s.zoom));
      assert InZoomRange(next.zoom);
      ZoomClicksStayInRange(next, clicks[1..]);
    }
  }

  /** The zoom a new UI store starts with lies inside the limits. */
  lemma InitialZoomInRange(n: nat)
    ensures InZoomRange(InitialUIState(n).zoom)
  {
  }

  predicate ZoomInDisabled(z: int)
  {
    z >= MAX_ZOOM
  }

  predicate ZoomOutDisabled(z: int)
  {
    z <= MIN_ZOOM
  }

  /** Inside the limits, each zoom button is disabled exactly when a click on it would change nothing. */
  lemma ZoomButtonDisabledIffNoEffect(z: int)
    requires InZoomRange(z)
    ensures ZoomInDisabled(z) <==> ZoomIn(z) == z
    ensures ZoomOutDisabled(z) <==> ZoomOut(z) == z
  {
  }

  /** What the toolbar reads from the two stores. */
  datatype ToolbarView = ToolbarView(
    mode: ToolMode,
    selectedCount: nat,
    splitPointCount: nat,
    redactionCount: nat,
    hasDocument: bool,
    isProcessing: bool)

  function ViewOf(s: UIState, hasDocument: bool, isProcessing: bool): ToolbarView
  {
    ToolbarView(s.mode, |s.selectedPages|, |s.splitPoints|, |s.redactions|, hasDocument, isProcessing)
  }

  datatype Button =
    | ExtractButton | SplitButton | RedactButton | ReorderButton
    | CompressButton | DownloadButton | AddPdfButton | ClearButton

  /** Whether a button is on screen: the four apply buttons only in their own mode, clear only with something to clear. */
  predicate Shown(v: ToolbarView, b: Button)
  {
    match b
    case ExtractButton => v.mode == Extract
    case SplitButton => v.mode == Split
    case RedactButton => v.mode == Redact
    case ReorderButton => v.mode == Reorder
    case ClearButton => v.selectedCount > 0 || v.splitPointCount > 0 || v.redactionCount > 0
    case _ => true
  }

  /** The `disabled` attribute of each button, negated. */
  predicate Enabled(v: ToolbarView, b: Button)
  {
    match b
    case ExtractButton => !(v.selectedCount == 0 || v.isProcessing)
    case SplitButton => !(v.splitPointCount == 0 || v.isProcessing)
    case RedactButton => !(v.redactionCount == 0 || v.isProcessing)
    case ReorderButton => !v.isProcessing
    case CompressButton => !(!v.hasDocument || v.isProcessing)
    case DownloadButton => !(!v.hasDocument || v.isProcessing)
    case AddPdfButton => !v.isProcessing
    case ClearButton => !v.isProcessing
  }

  predicate Pressable(v: ToolbarView, b: Button)
  {
    Shown(v, b) && Enabled(v, b)
  }

  /** When the toolbar's processing flag is set, no button can be pressed. */
  lemma ProcessingDisablesEverything(v: ToolbarView, b: Button)
    requires v.isProcessing
    ensures !Pressable(v, b)
  {
  }

  /**
   * The apply buttons of extraction, split and redaction can be pressed exactly
   * in their mode, with something collected, and while nothing runs; reorder
   * needs only its mode and no running operation.
   */
  lemma ApplyButtonsSpec(v: ToolbarView)
    ensures Pressable(v, ExtractButton) <==> v.mode == Extract && v.selectedCount > 0 && !v.isProcessing
    ensures Pressable(v, SplitButton) <==> v.mode == Split && v.splitPointCount > 0 && !v.isProcessing
    ensures Pressable(v, RedactButton) <==> v.mode == Redact && v.redactionCount > 0 && !v.isProcessing
    ensures Pressable(v, ReorderButton) <==> v.mode == Reorder && !v.isProcessing
    ensures Pressable(v, CompressButton) <==> v.hasDocument && !v.isProcessing
    ensures Pressable(v, DownloadButton) <==> v.hasDocument && !v.isProcessing
  {
  }

  /** The clear button is hidden exactly when clearing would change nothing. */
  lemma ClearHiddenIffNothingToClear(s: UIState, hasDocument: bool, isProcessing: bool)
    ensures !Shown(ViewOf(s, hasDocument, isProcessing), ClearButton) <==> UiReducer(s, ClearSelections) == s
  {
    var v := ViewOf(s, hasDocument, isProcessing);
    if UiReducer(s, ClearSelections) == s {
      assert s.selectedPages == {} && s.splitPoints == {} && s.redactions == [];
    }
  }

  /**
   * A pressable extract or split button never leads to the "nothing selected"
   * errors: whatever order the collected pages or points are listed in, the
   * list is not empty.
   */
  lemma PressableApplyHasInput(s: UIState, hasDocument: bool, isProcessing: bool, listed: seq<int>, totalPages: int)
    ensures Pressable(ViewOf(s, hasDocument, isProcessing), ExtractButton) &&
      multiset(listed) == multiset(s.selectedPages) ==>
      Validation.ValidatePageIndices(listed, totalPages) != Fail(NoPagesSelected)
    ensures Pressable(ViewOf(s, hasDocument, isProcessing), SplitButton) &&
      multiset(listed) == multiset(s.splitPoints) ==>
      Validation.ValidateSplitPoints(listed, totalPages) != Fail(NoSplitPoints)
  {
    if multiset(listed) == multiset(s.selectedPages) {
      assert |listed| == |multiset(s.selectedPages)| == |s.selectedPages|;
    }
    if multiset(listed) == multiset(s.splitPoints) {
      assert |listed| == |multiset(s.splitPoints)| == |s.splitPoints|;
    }
  }
}
