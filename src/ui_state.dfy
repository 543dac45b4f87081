/**
 * The selection state machine behind `useUIState`: the pure reducer over an
 * immutable state value, and the store that holds that state across dispatches.
 */
module UiState {
  import opened Types

  datatype UIState = UIState(
    mode: ToolMode,
    selectedPages: set<int>,
    splitPoints: set<int>,
    redactions: seq<RedactionBox>,
    currentPage: int,
    pageOrder: seq<int>,
    zoom: int,
    isProcessing: bool,
    uploadProgress: int)

  datatype UIAction =
    | SetMode(mode: ToolMode)
    | TogglePageSelection(page: int)
    | ToggleSplitPoint(point: int)
    | AddRedaction(box: RedactionBox)
    | RemoveRedaction(index: int)
    | SetCurrentPage(page: int)
    | SetPageOrder(order: seq<int>)
    | MovePageUp(index: int)
    | MovePageDown(index: int)
    | DeletePage(index: int)
    | SetZoom(zoom: int)
    | SetProcessing(processing: bool)
    | SetUploadProgress(progress: int)
    | ClearSelections
    | ResetUI(newOrder: Option<seq<int>>)

  /** `Array.from({ length: n }, (_, i) => i)`. */
  function Identity(n: nat): (r: seq<int>)
    ensures |r| == n
    ensures forall k :: 0 <= k < n ==> r[k] == k
  {
    seq(n, k => k)
  }

  /** The initial state of the hook, with `pageOrder` initialised for `pageCount` pages. */
  function InitialUIState(pageCount: nat): UIState
  {
    UIState(View, {}, {}, [], 0, Identity(pageCount), 100, false, 0)
  }

  /** Copy the set, then add `x` if absent or delete it if present. */
  function Toggle(s: set<int>, x: int): (r: set<int>)
    ensures x in r <==> x !in s
    ensures forall y :: y != x ==> (y in r <==> y in s)
  {
    if x in s then s - {x} else s + {x}
  }

  /** `xs.filter((_, index) => index !== i)`. */
  function RemoveAt<T>(xs: seq<T>, i: int): (r: seq<T>)
    ensures !(0 <= i < |xs|) ==> r == xs
    ensures 0 <= i < |xs| ==>
      |r| == |xs| - 1 &&
      (forall k :: 0 <= k < i ==> r[k] == xs[k]) &&
      (forall k :: i <= k < |r| ==> r[k] == xs[k + 1])
  {
    if 0 <= i < |xs| then xs[..i] + xs[i + 1..] else xs
  }

  /** The position a JavaScript `splice(start, 1)` removes from, clamped into `[0, len]`. */
  function SpliceStart(start: int, len: nat): (k: nat)
    ensures k <= len
  {
    if start < 0 then (if len + start < 0 then 0 else len + start)
    else if start > len then len else start
  }

  /** A copy of `xs` after `splice(start, 1)`: a negative start counts from the end. */
  function Spliced<T>(xs: seq<T>, start: int): (r: seq<T>)
    ensures SpliceStart(start, |xs|) < |xs| ==> r == RemoveAt(xs, SpliceStart(start, |xs|))
    ensures SpliceStart(start, |xs|) == |xs| ==> r == xs
  {
    var k := SpliceStart(start, |xs|);
    if k < |xs| then xs[..k] + xs[k + 1..] else xs
  }

  /** The moves write through indices `i` and `i - 1` (or `i + 1`), which must exist. */
  predicate ActionInRange(s: UIState, a: UIAction)
  {
    match a
    case MovePageUp(i) => i == 0 || 0 < i < |s.pageOrder|
    case MovePageDown(i) => i == |s.pageOrder| - 1 || 0 <= i < |s.pageOrder| - 1
    case _ => true
  }

  /**
   * `uiReducer`. Each action touches only its own fields: the selections change
   * only by their own actions, a mode switch, clearing or a reset; the page
   * order only by the order actions or a reset; the zoom, the processing flag
   * and the upload progress only by their setters.
   */
  function UiReducer(s: UIState, a: UIAction): (r: UIState)
    requires ActionInRange(s, a)
    ensures r.mode != s.mode ==> a.SetMode? || a.ResetUI?
    ensures r.selectedPages != s.selectedPages ==>
      a.SetMode? || a.TogglePageSelection? || a.ClearSelections? || a.ResetUI?
    ensures r.splitPoints != s.splitPoints ==>
      a.SetMode? || a.ToggleSplitPoint? || a.ClearSelections? || a.ResetUI?
    ensures r.redactions != s.redactions ==>
      a.AddRedaction? || a.RemoveRedaction? || a.ClearSelections? || a.ResetUI?
    ensures r.currentPage != s.currentPage ==> a.SetMode? || a.SetCurrentPage? || a.ResetUI?
    ensures r.pageOrder != s.pageOrder ==>
      a.SetPageOrder? || a.MovePageUp? || a.MovePageDown? || a.DeletePage? || a.ResetUI?
    ensures r.zoom != s.zoom ==> a.SetZoom?
    ensures r.isProcessing != s.isProcessing ==> a.SetProcessing?
    ensures r.uploadProgress != s.uploadProgress ==> a.SetUploadProgress?
  {
    match a
    case SetMode(m) =>
      s.(mode := m, selectedPages := {}, splitPoints := {},
         currentPage := if m == Redact then s.currentPage else 0)
    case TogglePageSelection(p) => s.(selectedPages := Toggle(s.selectedPages, p))
    case ToggleSplitPoint(p) => s.(splitPoints := Toggle(s.splitPoints, p))
    case AddRedaction(b) => s.(redactions := s.redactions + [b])
    case RemoveRedaction(i) => s.(redactions := RemoveAt(s.redactions, i))
    case SetCurrentPage(p) => s.(currentPage := p)
    case SetPageOrder(o) => s.(pageOrder := o)
    case MovePageUp(i) =>
      if i == 0 then s
      else s.(pageOrder := s.pageOrder[i := s.pageOrder[i - 1]][i - 1 := s.pageOrder[i]])
    case MovePageDown(i) =>
      if i == |s.pageOrder| - 1 then s
      else s.(pageOrder := s.pageOrder[i := s.pageOrder[i + 1]][i + 1 := s.pageOrder[i]])
    case DeletePage(i) =>
      if |s.pageOrder| <= 1 then s else s.(pageOrder := Spliced(s.pageOrder, i))
    case SetZoom(z) => s.(zoom := z)
    case SetProcessing(b) => s.(isProcessing := b)
    case SetUploadProgress(p) => s.(uploadProgress := p)
    case ClearSelections => s.(selectedPages := {}, splitPoints := {}, redactions := [])
    case ResetUI(o) =>
      s.(selectedPages := {}, splitPoints := {}, redactions := [], currentPage := 0,
         pageOrder := if o.Some? then o.value else [], mode := View)
  }

  // ---------------------------------------------------------------- lemmas

  /**
   * Switching mode forgets the page selection and the split points but keeps the
   * redactions, the order and the zoom; the current page survives only when the
   * new mode is redaction.
   */
  lemma SetModeClearsSelections(s: UIState, m: ToolMode)
    ensures var r := UiReducer(s, SetMode(m));
      r.mode == m && r.selectedPages == {} && r.splitPoints == {} &&
      r.redactions == s.redactions && r.pageOrder == s.pageOrder && r.zoom == s.zoom &&
      r.isProcessing == s.isProcessing && r.uploadProgress == s.uploadProgress &&
      (r.currentPage == s.currentPage <==> m == Redact || s.currentPage == 0) &&
      (m != Redact ==> r.currentPage == 0)
  {
  }

  /** Toggling a page twice gives back the state it started from. */
  lemma TogglePageTwiceRestores(s: UIState, p: int)
    ensures UiReducer(UiReducer(s, TogglePageSelection(p)), TogglePageSelection(p)) == s
  {
    assert Toggle(Toggle(s.selectedPages, p), p) == s.selectedPages;
  }

  /** Toggling a split point twice gives back the state it started from. */
  lemma ToggleSplitTwiceRestores(s: UIState, p: int)
    ensures UiReducer(UiReducer(s, ToggleSplitPoint(p)), ToggleSplitPoint(p)) == s
  {
    assert Toggle(Toggle(s.splitPoints, p), p) == s.splitPoints;
  }

  /** A box is appended at the end, and removing that last position undoes the addition. */
  lemma AddThenRemoveRestores(s: UIState, b: RedactionBox)
    ensures UiReducer(s, AddRedaction(b)).redactions[|s.redactions|] == b
    ensures UiReducer(UiReducer(s, AddRedaction(b)), RemoveRedaction(|s.redactions|)) == s
  {
    var added := s.redactions + [b];
    assert added[..|s.redactions|] == s.redactions;
  }

  /** Removing a redaction drops exactly one box and keeps the relative order of the others. */
  lemma RemoveRedactionKeepsOthers(s: UIState, i: int)
    requires 0 <= i < |s.redactions|
    ensures multiset(UiReducer(s, RemoveRedaction(i)).redactions) + multiset{s.redactions[i]}
      == multiset(s.redactions)
  {
    var xs := s.redactions;
    assert xs == xs[..i] + [xs[i]] + xs[i + 1..];
  }

  /** Moving a page up swaps it with its predecessor (a permutation); at the top it is a no-op. */
  lemma MovePageUpPermutes(s: UIState, i: int)
    requires i == 0 || 0 < i < |s.pageOrder|
    ensures var r := UiReducer(s, MovePageUp(i));
      multiset(r.pageOrder) == multiset(s.pageOrder) && |r.pageOrder| == |s.pageOrder| &&
      (i == 0 ==> r == s) &&
      (i > 0 ==>
        r.pageOrder[i - 1] == s.pageOrder[i] && r.pageOrder[i] == s.pageOrder[i - 1] &&
        forall k :: 0 <= k < |s.pageOrder| && k != i && k != i - 1 ==> r.pageOrder[k] == s.pageOrder[k])
  {
    if i > 0 {
      SwapPermutes(s.pageOrder, i - 1);
    }
  }

  /** Moving a page down swaps it with its successor (a permutation); at the bottom it is a no-op. */
  lemma MovePageDownPermutes(s: UIState, i: int)
    requires i == |s.pageOrder| - 1 || 0 <= i < |s.pageOrder| - 1
    ensures var r := UiReducer(s, MovePageDown(i));
      multiset(r.pageOrder) == multiset(s.pageOrder) && |r.pageOrder| == |s.pageOrder| &&
      (i == |s.pageOrder| - 1 ==> r == s) &&
      (i < |s.pageOrder| - 1 ==>
        r.pageOrder[i] == s.pageOrder[i + 1] && r.pageOrder[i + 1] == s.pageOrder[i] &&
        forall k :: 0 <= k < |s.pageOrder| && k != i && k != i + 1 ==> r.pageOrder[k] == s.pageOrder[k])
  {
    var r := UiReducer(s, MovePageDown(i));
    if i == |s.pageOrder| - 1 {
      assert r == s;
    } else {
      var xs := s.pageOrder;
      var down := xs[i := xs[i + 1]][i + 1 := xs[i]];
      assert r == s.(pageOrder := down);
      SwapPermutes(xs, i);
    }
  }

  /** Exchanging two neighbours keeps the same entries. */
  lemma SwapPermutes(xs: seq<int>, j: int)
    requires 0 <= j < |xs| - 1
    ensures multiset(xs[j + 1 := xs[j]][j := xs[j + 1]]) == multiset(xs)
    ensures multiset(xs[j := xs[j + 1]][j + 1 := xs[j]]) == multiset(xs)
  {
    var ys := xs[j + 1 := xs[j]][j := xs[j + 1]];
    assert xs == xs[..j] + [xs[j], xs[j + 1]] + xs[j + 2..];
    assert ys == xs[..j] + [xs[j + 1], xs[j]] + xs[j + 2..];
    assert xs[j := xs[j + 1]][j + 1 := xs[j]] == ys;
  }

  /** Moving a page up and then back down restores the order. */
  lemma MoveUpThenDownRestores(s: UIState, i: int)
    requires 0 < i < |s.pageOrder|
    ensures ActionInRange(UiReducer(s, MovePageUp(i)), MovePageDown(i - 1))
    ensures UiReducer(UiReducer(s, MovePageUp(i)), MovePageDown(i - 1)) == s
  {
    var up := UiReducer(s, MovePageUp(i));
    assert up.pageOrder[i - 1 := up.pageOrder[i]][i := up.pageOrder[i - 1]] == s.pageOrder;
  }

  /**
   * Deleting leaves a single remaining entry alone; otherwise an index inside the
   * order removes exactly that entry and shortens the order by one.
   */
  lemma DeletePageRemovesOne(s: UIState, i: int)
    ensures |s.pageOrder| <= 1 ==> UiReducer(s, DeletePage(i)) == s
    ensures |s.pageOrder| > 1 && 0 <= i < |s.pageOrder| ==>
      var r := UiReducer(s, DeletePage(i)).pageOrder;
      r == s.pageOrder[..i] + s.pageOrder[i + 1..] && |r| == |s.pageOrder| - 1 &&
      multiset(r) + multiset{s.pageOrder[i]} == multiset(s.pageOrder)
  {
    if |s.pageOrder| > 1 && 0 <= i < |s.pageOrder| {
      assert s.pageOrder == s.pageOrder[..i] + [s.pageOrder[i]] + s.pageOrder[i + 1..];
    }
  }

  /** A negative index counts from the end, as `splice` does: `-1` deletes the last entry. */
  lemma DeletePageNegativeIndex(s: UIState, i: int)
    requires |s.pageOrder| > 1 && -|s.pageOrder| <= i < 0
    ensures UiReducer(s, DeletePage(i)).pageOrder == RemoveAt(s.pageOrder, |s.pageOrder| + i)
  {
  }

  /** Clearing empties the three selections and nothing else. */
  lemma ClearSelectionsSpec(s: UIState)
    ensures var r := UiReducer(s, ClearSelections);
      r.selectedPages == {} && r.splitPoints == {} && r.redactions == [] &&
      r == s.(selectedPages := {}, splitPoints := {}, redactions := [])
  {
  }

  /** A reset returns to view mode at page 0 with no selections and the given order (or none); zoom is kept. */
  lemma ResetUISpec(s: UIState, o: Option<seq<int>>)
    ensures var r := UiReducer(s, ResetUI(o));
      r.mode == View && r.currentPage == 0 && r.selectedPages == {} && r.splitPoints == {} &&
      r.redactions == [] && r.zoom == s.zoom &&
      r.pageOrder == (if o.Some? then o.value else [])
  {
  }

  /** The initial order lists every page once, in document order. */
  lemma InitialOrderIsIdentity(n: nat)
    ensures var s := InitialUIState(n);
      |s.pageOrder| == n && (forall k :: 0 <= k < n ==> s.pageOrder[k] == k) &&
      s.mode == View && s.selectedPages == {} && s.redactions == [] && s.zoom == 100
  {
  }

  /** The store held by `useUIState`: one field per state component, updated by dispatches. */
  class UIStore {
    var mode: ToolMode
    var selectedPages: set<int>
    var splitPoints: set<int>
    var redactions: seq<RedactionBox>
    var currentPage: int
    var pageOrder: seq<int>
    var zoom: int
    var isProcessing: bool
    var uploadProgress: int

    function Snapshot(): UIState
      reads this
    {
      UIState(mode, selectedPages, splitPoints, redactions, currentPage, pageOrder,
              zoom, isProcessing, uploadProgress)
    }

    /** `useUIState(initialPageCount)`. */
    constructor (initialPageCount: nat)
      ensures Snapshot() == InitialUIState(initialPageCount)
    {
      mode := View;
      selectedPages := {};
      splitPoints := {};
      redactions := [];
      currentPage := 0;
      pageOrder := Identity(initialPageCount);
      zoom := 100;
      isProcessing := false;
      uploadProgress := 0;
    }

    /** `dispatch(action)`: each case copies what it edits and writes the field back. */
    method Dispatch(a: UIAction)
      requires ActionInRange(Snapshot(), a)
      modifies this
      ensures Snapshot() == UiReducer(old(Snapshot()), a)
    {
      match a
      case SetMode(m) =>
        selectedPages := {};
        splitPoints := {};
        if m != Redact {
          currentPage := 0;
        }
        mode := m;
      case TogglePageSelection(p) =>
        var newSet := selectedPages;
        if p in newSet {
          newSet := newSet - {p};
        } else {
          newSet := newSet + {p};
        }
        selectedPages := newSet;
      case ToggleSplitPoint(p) =>
        var newSet := splitPoints;
        if p in newSet {
          newSet := newSet - {p};
        } else {
          newSet := newSet + {p};
        }
        splitPoints := newSet;
      case AddRedaction(b) =>
        redactions := redactions + [b];
      case RemoveRedaction(i) =>
        redactions := RemoveAt(redactions, i);
      case SetCurrentPage(p) =>
        currentPage := p;
      case SetPageOrder(o) =>
        pageOrder := o;
      case MovePageUp(i) =>
        if i != 0 {
          var newOrder := pageOrder;
          var temp := newOrder[i];
          newOrder := newOrder[i := newOrder[i - 1]];
          newOrder := newOrder[i - 1 := temp];
          pageOrder := newOrder;
        }
      case MovePageDown(i) =>
        if i != |pageOrder| - 1 {
          var newOrder := pageOrder;
          var temp := newOrder[i];
          newOrder := newOrder[i := newOrder[i + 1]];
          newOrder := newOrder[i + 1 := temp];
          pageOrder := newOrder;
        }
      case DeletePage(i) =>
        if |pageOrder| > 1 {
          pageOrder := Spliced(pageOrder, i);
        }
      case SetZoom(z) =>
        zoom := z;
      case SetProcessing(b) =>
        isProcessing := b;
      case SetUploadProgress(p) =>
        uploadProgress := p;
      case ClearSelections =>
        selectedPages := {};
        splitPoints := {};
        redactions := [];
      case ResetUI(o) =>
        selectedPages := {};
        splitPoints := {};
        redactions := [];
        currentPage := 0;
        pageOrder := if o.Some? then o.value else [];
        mode := View;
    }

    /** `initializePageOrder(pageCount)`: sets the order to `[0, pageCount)`. */
    method InitializePageOrder(pageCount: nat)
      modifies this
      ensures Snapshot() == UiReducer(old(Snapshot()), SetPageOrder(Identity(pageCount)))
      ensures pageOrder == Identity(pageCount)
    {
      Dispatch(SetPageOrder(Identity(pageCount)));
    }
  }
}
