/**
 * The page grid: a click on a page card and a click on the split button beside
 * it each dispatch at most one UI action, chosen by the current tool mode.
 */
module PageGrid {
  import opened Types
  import opened UiState
  import opened PdfOperations
  import Validation

  /** `handlePageClick(i)`: the action a click on card `i` dispatches, if any. */
  function PageClickAction(mode: ToolMode, i: int): (r: Option<UIAction>)
    ensures r.Some? <==> mode == Redact || mode == Extract
    ensures r.Some? ==> (r.value.SetCurrentPage? <==> mode == Redact)
    ensures r.Some? ==> (r.value.SetCurrentPage? || r.value.TogglePageSelection?) && r.value.page == i
  {
    if mode == Redact then Some(SetCurrentPage(i))
    else if mode == Extract then Some(TogglePageSelection(i))
    else None
  }

  /** `handleSplitPointToggle(i)` as written: the card's own 0-based index is stored. */
  function SplitToggleAction(mode: ToolMode, i: int): (r: Option<UIAction>)
    ensures r.Some? <==> mode == Split
    ensures r.Some? ==> r.value.ToggleSplitPoint? && r.value.point == i
  {
    if mode == Split then Some(ToggleSplitPoint(i)) else None
  }

  /** The split button beside card `i` as its label reads, "split after page i+1". */
  function IntendedSplitToggleAction(mode: ToolMode, i: int): (r: Option<UIAction>)
    ensures r.Some? <==> mode == Split
    ensures r.Some? ==> r.value.ToggleSplitPoint? && r.value.point == i + 1
  {
    if mode == Split then Some(ToggleSplitPoint(i + 1)) else None
  }

  /** The state after dispatching `a`, when there is one. */
  function After(s: UIState, a: Option<UIAction>): UIState
    requires a.Some? ==> ActionInRange(s, a.value)
  {
    if a.Some? then UiReducer(s, a.value) else s
  }

  /**
   * A card click: in redaction mode it makes the card the current page, in
   * extraction mode it flips the card in or out of the selection and leaves
   * every other card as it was, and in any other mode it changes nothing.
   */
  function AfterPageClick(s: UIState, i: int): (r: UIState)
    ensures s.mode == Redact ==> r == s.(currentPage := i)
    ensures s.mode == Extract ==>
      r.(selectedPages := s.selectedPages) == s &&
      (i in r.selectedPages <==> i !in s.selectedPages) &&
      (forall j :: j != i ==> (j in r.selectedPages <==> j in s.selectedPages))
    ensures s.mode != Redact && s.mode != Extract ==> r == s
  {
    After(s, PageClickAction(s.mode, i))
  }

  /**
   * A split-button click in split mode flips point `i` and nothing else; in
   * every other mode it changes nothing.
   */
  function AfterSplitToggle(s: UIState, i: int): (r: UIState)
    ensures s.mode == Split ==>
      r.(splitPoints := s.splitPoints) == s &&
      (i in r.splitPoints <==> i !in s.splitPoints) &&
      (forall j :: j != i ==> (j in r.splitPoints <==> j in s.splitPoints))
    ensures s.mode != Split ==> r == s
  {
    After(s, SplitToggleAction(s.mode, i))
  }

  /** The corrected split button flips point `i + 1`, the page count before the cut it names. */
  function AfterIntendedSplitToggle(s: UIState, i: int): (r: UIState)
    ensures s.mode == Split ==>
      r.(splitPoints := s.splitPoints) == s &&
      (i + 1 in r.splitPoints <==> i + 1 !in s.splitPoints) &&
      (forall j :: j != i + 1 ==> (j in r.splitPoints <==> j in s.splitPoints))
    ensures s.mode != Split ==> r == s
  {
    After(s, IntendedSplitToggleAction(s.mode, i))
  }

  lemma SegmentsOfOneCut(pages: seq<Page>, p: int)
    requires 1 <= p < |pages|
    ensures var r := Segments(pages, [0, p, |pages|]); |r| == 2 && r[0] == pages[..p] && r[1] == pages[p..]
  {
    assert [0, p, |pages|][..2] == [0, p];
    assert [0, p][..1] == [0];
    assert Segments(pages, [0, p]) == [pages[0..p]];
  }

  /** Splitting at one point `p` inside the document gives two parts: the pages before `p` and the rest. */
  lemma SplitAtOnePoint(pages: seq<Page>, p: int)
    requires 1 <= p < |pages|
    ensures var r := SplitResult(pages, [p]);
      r.Success? && |r.value| == 2 && r.value[0] == pages[..p] && r.value[1] == pages[p..]
  {
    assert Validation.ValidateSplitPoints([p], |pages|).Pass?;
    assert [p][1..] == [];
    assert NumericSort.SortAscending([p]) == [p];
    assert SplitBoundaries([p], |pages|) == [0, p, |pages|];
    SegmentsOfOneCut(pages, p);
  }

  /**
   * As written, the split button of the first card stores point 0, which
   * splitting rejects, and the button of card `i >= 1` cuts before that card:
   * the first part holds only `i` pages and card `i` opens the second part,
   * although the label says the cut comes after it.
   */
  lemma SplitButtonCutsBeforeItsCard(s: UIState, pages: seq<Page>, i: int)
    requires s.mode == Split && s.splitPoints == {} && 0 <= i < |pages|
    ensures AfterSplitToggle(s, i).splitPoints == {i}
    ensures i == 0 ==>
      SplitResult(pages, [i]) == Failure(ValidationError(InvalidSplitPoints([0], |pages|)))
    ensures 1 <= i ==>
      var r := SplitResult(pages, [i]);
      r.Success? && |r.value| == 2 && |r.value[0]| == i && r.value[1][0] == pages[i]
  {
    if i == 0 {
      assert [0][1..] == [];
      assert Validation.OutsideRange([0], 1, |pages|) == [0];
    } else {
      SplitAtOnePoint(pages, i);
    }
  }

  /**
   * With the corrected button, the button of every card but the last cuts
   * right after that card: the card closes the first part and the next card
   * opens the second.
   */
  lemma IntendedSplitButtonCutsAfterItsCard(s: UIState, pages: seq<Page>, i: int)
    requires s.mode == Split && s.splitPoints == {} && 0 <= i < |pages| - 1
    ensures AfterIntendedSplitToggle(s, i).splitPoints == {i + 1}
    ensures var r := SplitResult(pages, [i + 1]);
      r.Success? && |r.value| == 2 && r.value[0] == pages[..i + 1] && r.value[1] == pages[i + 1..] &&
      r.value[0][i] == pages[i] && r.value[1][0] == pages[i + 1]
  {
    SplitAtOnePoint(pages, i + 1);
  }
}
