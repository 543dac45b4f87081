/**
 * The redaction canvas of one page: a drag on the page draws a box, a release
 * adds it to the shared redaction list when it is large enough, and each box
 * shown on the page has a button that removes it.
 */
module RedactionCanvas {
  import opened Types
  import opened UiState
  import Validation

  /** A point relative to the canvas's top-left corner. */
  datatype Point = Point(x: real, y: real)

  /** The smallest side, in canvas units, a drawn box must exceed to be kept. */
  const MIN_BOX_SIDE: real := 10.0

  function Min(a: real, b: real): real
  {
    if a <= b then a else b
  }

  function Abs(a: real): real
  {
    if a < 0.0 then -a else a
  }

  /**
   * The box dragged from `start` to `end` on page `pageIndex`: whichever way the
   * drag went, the box's two horizontal edges are the two x coordinates and its
   * two vertical edges the two y coordinates.
   */
  function CaptureBox(pageIndex: int, start: Point, end: Point): (b: RedactionBox)
    ensures b.pageIndex == pageIndex
    ensures b.width >= 0.0 && b.height >= 0.0
    ensures (b.x == start.x && b.x + b.width == end.x) || (b.x == end.x && b.x + b.width == start.x)
    ensures (b.y == start.y && b.y + b.height == end.y) || (b.y == end.y && b.y + b.height == start.y)
  {
    RedactionBox(pageIndex, Min(start.x, end.x), Min(start.y, end.y),
                 Abs(end.x - start.x), Abs(end.y - start.y))
  }

  /** Dragging from one corner to the other or back gives the same box. */
  lemma CaptureIsSymmetric(pageIndex: int, start: Point, end: Point)
    ensures CaptureBox(pageIndex, start, end) == CaptureBox(pageIndex, end, start)
  {
  }

  predicate LargeEnough(b: RedactionBox)
  {
    b.width > MIN_BOX_SIDE && b.height > MIN_BOX_SIDE
  }

  /**
   * A box the canvas accepts is never dropped as degenerate when the
   * redactions are applied, as long as its page exists.
   */
  lemma AcceptedBoxIsPainted(b: RedactionBox, totalPages: int, w: real, h: real)
    requires LargeEnough(b) && 0 <= b.pageIndex < totalPages
    ensures Validation.ValidateRedaction(b, totalPages, w, h) == Success(true)
  {
  }

  /** The effect of releasing the mouse after a drag from `start` to `end`. */
  function Release(s: UIState, pageIndex: int, start: Point, end: Point): (r: UIState)
    ensures r.(redactions := s.redactions) == s
    ensures LargeEnough(CaptureBox(pageIndex, start, end)) <==> |r.redactions| == |s.redactions| + 1
    ensures !LargeEnough(CaptureBox(pageIndex, start, end)) ==> r == s
    ensures |r.redactions| == |s.redactions| + 1 ==>
      r.redactions[..|s.redactions|] == s.redactions &&
      r.redactions[|s.redactions|] == CaptureBox(pageIndex, start, end)
  {
    var b := CaptureBox(pageIndex, start, end);
    if LargeEnough(b) then UiReducer(s, AddRedaction(b)) else s
  }

  /** The boxes drawn on page `p`, in the order they were added. */
  function PageRedactions(rs: seq<RedactionBox>, p: int): (r: seq<RedactionBox>)
    ensures |r| <= |rs|
  {
    if |rs| == 0 then []
    else (if rs[0].pageIndex == p then [rs[0]] else []) + PageRedactions(rs[1..], p)
  }

  /** The boxes shown on page `p` are exactly the redactions that name page `p`. */
  lemma {:induction false} PageRedactionsMembers(rs: seq<RedactionBox>, p: int)
    ensures forall b :: b in PageRedactions(rs, p) <==> b in rs && b.pageIndex == p
    decreases |rs|
  {
    if |rs| > 0 {
      PageRedactionsMembers(rs[1..], p);
      assert rs == [rs[0]] + rs[1..];
    }
  }

  /**
   * The global index the remove button of shown box `index` looks up, as
   * written: the first global position `i` with `i == index` whose box lies on
   * page `p`, searched from `from` on; `-1` when there is none.
   */
  function FindIndexAsWritten(rs: seq<RedactionBox>, p: int, index: int, from: nat): (g: int)
    ensures g == -1 || (from <= g < |rs| && g == index && rs[g].pageIndex == p)
    ensures g == -1 <==> !(from <= index < |rs| && rs[index].pageIndex == p)
    decreases |rs| - from
  {
    if from >= |rs| then -1
    else if rs[from].pageIndex == p && from == index then from
    else FindIndexAsWritten(rs, p, index, from + 1)
  }

  /**
   * The global index of the `k`-th box shown on page `p` (counting from 0), or
   * `-1` when fewer boxes are shown.
   */
  function ShownToGlobal(rs: seq<RedactionBox>, p: int, k: int): (g: int)
    ensures g == -1 <==> !(0 <= k < |PageRedactions(rs, p)|)
    ensures g != -1 ==> 0 <= g < |rs| && rs[g] == PageRedactions(rs, p)[k] && rs[g].pageIndex == p
    decreases |rs|
  {
    if |rs| == 0 || k < 0 then -1
    else
      var rest := PageRedactions(rs[1..], p);
      if rs[0].pageIndex == p then
        assert PageRedactions(rs, p) == [rs[0]] + rest;
        if k == 0 then 0
        else
          var g := ShownToGlobal(rs[1..], p, k - 1);
          if g == -1 then -1 else g + 1
      else
        assert PageRedactions(rs, p) == rest;
        var g := ShownToGlobal(rs[1..], p, k);
        if g == -1 then -1 else g + 1
  }

  lemma RemoveAtCons<T>(x: T, ys: seq<T>, i: int)
    requires 0 <= i < |ys|
    ensures RemoveAt([x] + ys, i + 1) == [x] + RemoveAt(ys, i)
  {
    assert ([x] + ys)[..i + 1] == [x] + ys[..i];
    assert ([x] + ys)[i + 2..] == ys[i + 1..];
  }

  lemma PageRedactionsCons(x: RedactionBox, ys: seq<RedactionBox>, p: int)
    ensures PageRedactions([x] + ys, p) == (if x.pageIndex == p then [x] else []) + PageRedactions(ys, p)
  {
    assert ([x] + ys)[1..] == ys;
  }

  /**
   * Removing the global index found for shown box `k` removes exactly that box
   * from the boxes shown on page `p`.
   */
  lemma {:induction false} RemoveShownRemovesIt(rs: seq<RedactionBox>, p: int, k: int)
    requires 0 <= k < |PageRedactions(rs, p)|
    ensures PageRedactions(RemoveAt(rs, ShownToGlobal(rs, p, k)), p) == RemoveAt(PageRedactions(rs, p), k)
    decreases |rs|
  {
    var x, tail := rs[0], rs[1..];
    var rest := PageRedactions(tail, p);
    var here := x.pageIndex == p;
    assert PageRedactions(rs, p) == (if here then [x] else []) + rest;
    if here && k == 0 {
      assert ShownToGlobal(rs, p, k) == 0;
      assert RemoveAt(rs, 0) == tail;
      assert RemoveAt([x] + rest, 0) == rest;
    } else {
      var k' := if here then k - 1 else k;
      var g' := ShownToGlobal(tail, p, k');
      assert ShownToGlobal(rs, p, k) == g' + 1;
      assert RemoveAt(rs, g' + 1) == [x] + RemoveAt(tail, g') by {
        assert rs == [x] + tail;
        RemoveAtCons(x, tail, g');
      }
      assert PageRedactions(RemoveAt(tail, g'), p) == RemoveAt(rest, k') by {
        RemoveShownRemovesIt(tail, p, k');
      }
      PageRedactionsCons(x, RemoveAt(tail, g'), p);
      if here {
        RemoveAtCons(x, rest, k');
      }
    }
  }

  /** Removing a box of page `p` leaves the boxes shown on every other page as they were. */
  lemma {:induction false} RemoveKeepsOtherPages(rs: seq<RedactionBox>, g: int, q: int)
    requires 0 <= g < |rs| && rs[g].pageIndex != q
    ensures PageRedactions(RemoveAt(rs, g), q) == PageRedactions(rs, q)
    decreases |rs|
  {
    var tail := rs[1..];
    assert rs == [rs[0]] + tail;
    if g == 0 {
      assert RemoveAt(rs, 0) == tail;
    } else {
      RemoveKeepsOtherPages(tail, g - 1, q);
      RemoveAtCons(rs[0], tail, g - 1);
      PageRedactionsCons(rs[0], RemoveAt(tail, g - 1), q);
    }
  }

  /**
   * The as-written lookup goes wrong as soon as an earlier page holds a box:
   * with boxes A on page 0 and B, C on page 1, the canvas of page 1 shows B
   * then C. The button on C (shown index 1) removes B, and the button on B
   * (shown index 0) removes nothing. The intended lookup finds C and B.
   */
  lemma RemoveButtonMissesAfterOtherPage()
    ensures var a := RedactionBox(0, 0.0, 0.0, 20.0, 20.0);
      var b := RedactionBox(1, 0.0, 0.0, 20.0, 20.0);
      var c := RedactionBox(1, 50.0, 50.0, 20.0, 20.0);
      var rs := [a, b, c];
      PageRedactions(rs, 1) == [b, c] &&
      FindIndexAsWritten(rs, 1, 1, 0) == 1 && RemoveAt(rs, 1) == [a, c] &&
      FindIndexAsWritten(rs, 1, 0, 0) == -1 &&
      ShownToGlobal(rs, 1, 1) == 2 && RemoveAt(rs, 2) == [a, b] &&
      ShownToGlobal(rs, 1, 0) == 1
  {
    var a := RedactionBox(0, 0.0, 0.0, 20.0, 20.0);
    var b := RedactionBox(1, 0.0, 0.0, 20.0, 20.0);
    var c := RedactionBox(1, 50.0, 50.0, 20.0, 20.0);
    var rs := [a, b, c];
    assert rs[1..] == [b, c];
    assert rs[1..][1..] == [c];
    assert [c][1..] == [];
    assert PageRedactions([c], 1) == [c];
    assert PageRedactions([b, c], 1) == [b, c];
    assert PageRedactions(rs, 1) == [b, c];
    assert RemoveAt(rs, 1) == [a, c];
    assert RemoveAt(rs, 2) == [a, b];
  }

  /** The drawing state of one canvas, tied to the shared UI store. */
  class Canvas {
    const pageIndex: int
    const ui: UIStore
    var isDrawing: bool
    var startPoint: Option<Point>
    var currentPoint: Option<Point>

    predicate Idle()
      reads this
    {
      !isDrawing && startPoint.None? && currentPoint.None?
    }

    /** A canvas starts idle. */
    constructor (pageIndex: int, ui: UIStore)
      ensures this.pageIndex == pageIndex && this.ui == ui
      ensures Idle()
    {
      this.pageIndex := pageIndex;
      this.ui := ui;
      isDrawing := false;
      startPoint := None;
      currentPoint := None;
    }

    /** `handleMouseDown`: a drag starts at `p`. */
    method MouseDown(p: Point)
      modifies this
      ensures isDrawing && startPoint == Some(p) && currentPoint == old(currentPoint)
    {
      isDrawing := true;
      startPoint := Some(p);
    }

    /** `handleMouseMove`: follows the pointer only while a drag is under way. */
    method MouseMove(p: Point)
      modifies this
      ensures old(isDrawing && startPoint.Some?) ==>
        isDrawing == old(isDrawing) && startPoint == old(startPoint) && currentPoint == Some(p)
      ensures !old(isDrawing && startPoint.Some?) ==> unchanged(this)
    {
      if !isDrawing || startPoint.None? {
        return;
      }
      currentPoint := Some(p);
    }

    /**
     * `handleMouseUp`: ends a drag at `p`, adds the dragged box when it is large
     * enough, and returns to idle; without a drag under way nothing happens.
     */
    method MouseUp(p: Point)
      modifies this, ui
      ensures old(isDrawing && startPoint.Some?) ==>
        Idle() && ui.Snapshot() == Release(old(ui.Snapshot()), pageIndex, old(startPoint).value, p)
      ensures !old(isDrawing && startPoint.Some?) ==> unchanged(this) && unchanged(ui)
    {
      if !isDrawing || startPoint.None? {
        return;
      }
      var b := CaptureBox(pageIndex, startPoint.value, p);
      if LargeEnough(b) {
        ui.Dispatch(AddRedaction(b));
      }
      isDrawing := false;
      startPoint := None;
      currentPoint := None;
    }

    /**
     * `handleRedactionRemove(index)` as written: the shown index is looked up as
     * a global index, so global box `index` goes only when it lies on this page.
     */
    method RemoveRedactionAsWritten(index: int)
      modifies ui
      ensures 0 <= index < |old(ui.redactions)| && old(ui.redactions)[index].pageIndex == pageIndex ==>
        ui.Snapshot() == UiReducer(old(ui.Snapshot()), RemoveRedaction(index))
      ensures !(0 <= index < |old(ui.redactions)| && old(ui.redactions)[index].pageIndex == pageIndex) ==>
        unchanged(ui)
    {
      var g := FindIndexAsWritten(ui.redactions, pageIndex, index, 0);
      if g != -1 {
        ui.Dispatch(RemoveRedaction(g));
      }
    }

    /**
     * `handleRedactionRemove(index)` for the remove button of shown box
     * `index`, with the shown index translated into the global one: exactly
     * that box leaves the page, and no other page changes.
     */
    method RemoveShownRedaction(index: int)
      modifies ui
      ensures var g := ShownToGlobal(old(ui.redactions), pageIndex, index);
        ui.Snapshot() == (if g != -1 then UiReducer(old(ui.Snapshot()), RemoveRedaction(g)) else old(ui.Snapshot()))
      ensures 0 <= index < |PageRedactions(old(ui.redactions), pageIndex)| ==>
        PageRedactions(ui.redactions, pageIndex) == RemoveAt(PageRedactions(old(ui.redactions), pageIndex), index)
      ensures forall q :: q != pageIndex ==> PageRedactions(ui.redactions, q) == PageRedactions(old(ui.redactions), q)
    {
      var g := ShownToGlobal(ui.redactions, pageIndex, index);
      if g != -1 {
        RemoveShownRemovesIt(ui.redactions, pageIndex, index);
        forall q | q != pageIndex
          ensures PageRedactions(RemoveAt(ui.redactions, g), q) == PageRedactions(ui.redactions, q)
        {
          RemoveKeepsOtherPages(ui.redactions, g, q);
        }
        ui.Dispatch(RemoveRedaction(g));
      }
    }
  }
}
