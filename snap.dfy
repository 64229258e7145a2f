/**
 * Snap resolution of `scrollToCell()` and the gesture-end dispatch that
 * decides when it runs. The visible cells are an input: each with the index
 * path the collection view reports for it, its midpoint in the container's
 * coordinates and its width.
 */
module Snap {
  import opened Wrappers
  import opened Selection
  import PickerGeometry

  /** One entry of the visible-cell snapshot; `path` is None when the collection view reports no index path for the cell. */
  datatype VisibleCell = VisibleCell(path: Option<IndexPath>, midX: real, width: real)

  /** The filter of scrollToCell: the cell's midpoint lies strictly inside the centreline band of its own width. */
  predicate Qualifies(c: VisibleCell, viewMidX: real)
  {
    PickerGeometry.InBand(viewMidX, c.width, c.midX)
  }

  /** The qualifying cells, in enumeration order. */
  function Qualifying(cells: seq<VisibleCell>, viewMidX: real): (r: seq<VisibleCell>)
    ensures |r| <= |cells|
    ensures forall c :: c in r ==> c in cells && Qualifies(c, viewMidX)
    ensures forall c :: c in cells && Qualifies(c, viewMidX) ==> c in r
    decreases |cells|
  {
    if |cells| == 0 then []
    else
      var last := cells[|cells| - 1];
      assert cells == cells[..|cells| - 1] + [last];
      Qualifying(cells[..|cells| - 1], viewMidX) + (if Qualifies(last, viewMidX) then [last] else [])
  }

  /** A single cell is kept exactly when it qualifies. */
  lemma QualifyingSingle(c: VisibleCell, viewMidX: real)
    ensures Qualifying([c], viewMidX) == if Qualifies(c, viewMidX) then [c] else []
  {
    assert [c][..0] == [];
  }

  /**
   * The filter keeps enumeration order and multiplicity: filtering a
   * concatenation is concatenating the filtered parts. With QualifyingSingle
   * this determines the filter, so a cell enumerated later stays later.
   */
  lemma {:induction false} QualifyingAppend(a: seq<VisibleCell>, b: seq<VisibleCell>, viewMidX: real)
    ensures Qualifying(a + b, viewMidX) == Qualifying(a, viewMidX) + Qualifying(b, viewMidX)
    decreases |b|
  {
    if |b| == 0 {
      assert a + b == a;
    } else {
      var b' := b[..|b| - 1];
      var last := b[|b| - 1];
      var tail := if Qualifies(last, viewMidX) then [last] else [];
      assert (a + b)[..|a + b| - 1] == a + b';
      assert (a + b)[|a + b| - 1] == last;
      assert Qualifying(a + b, viewMidX) == Qualifying(a + b', viewMidX) + tail;
      assert Qualifying(b, viewMidX) == Qualifying(b', viewMidX) + tail;
      QualifyingAppend(a, b', viewMidX);
      assert Qualifying(a + b', viewMidX) + tail == Qualifying(a, viewMidX) + (Qualifying(b', viewMidX) + tail);
    }
  }

  /** Filtering a prefix of the visible cells gives a prefix of the filtered cells. */
  lemma QualifyingPrefix(cells: seq<VisibleCell>, viewMidX: real, k: int)
    requires 0 <= k <= |cells|
    ensures Qualifying(cells[..k], viewMidX) <= Qualifying(cells, viewMidX)
  {
    assert cells == cells[..k] + cells[k..];
    QualifyingAppend(cells[..k], cells[k..], viewMidX);
  }

  /** The forEach fold: the last index path among `cells`, skipping cells without one. */
  function LastPath(cells: seq<VisibleCell>): Option<IndexPath>
    decreases |cells|
  {
    if |cells| == 0 then None
    else if cells[|cells| - 1].path.Some? then cells[|cells| - 1].path
    else LastPath(cells[..|cells| - 1])
  }

  /** The index path scrollToCell resolves, if any: filter, then fold. */
  function Resolve(cells: seq<VisibleCell>, viewMidX: real): Option<IndexPath>
  {
    LastPath(Qualifying(cells, viewMidX))
  }

  /** A cell that can decide the snap: it qualifies and has an index path. */
  predicate IsCandidate(c: VisibleCell, viewMidX: real)
  {
    Qualifies(c, viewMidX) && c.path.Some?
  }

  /** Cell `k` is the last candidate in enumeration order. */
  ghost predicate IsSnapWinner(cells: seq<VisibleCell>, viewMidX: real, k: int)
  {
    && 0 <= k < |cells|
    && IsCandidate(cells[k], viewMidX)
    && forall j :: k < j < |cells| ==> !IsCandidate(cells[j], viewMidX)
  }

  lemma {:induction false} ResolveStep(cells: seq<VisibleCell>, viewMidX: real)
    requires |cells| > 0
    ensures var last := cells[|cells| - 1];
      Resolve(cells, viewMidX) == if IsCandidate(last, viewMidX) then last.path else Resolve(cells[..|cells| - 1], viewMidX)
  {
    var last := cells[|cells| - 1];
    var q := Qualifying(cells[..|cells| - 1], viewMidX);
    if Qualifies(last, viewMidX) {
      assert Qualifying(cells, viewMidX) == q + [last];
      assert (q + [last])[..|q|] == q;
    } else {
      assert Qualifying(cells, viewMidX) == q;
    }
  }

  /** Nothing is resolved exactly when no visible cell is a candidate. */
  lemma {:induction false} ResolveNoneIffNoCandidate(cells: seq<VisibleCell>, viewMidX: real)
    ensures Resolve(cells, viewMidX).None? <==> forall k :: 0 <= k < |cells| ==> !IsCandidate(cells[k], viewMidX)
    decreases |cells|
  {
    if |cells| > 0 {
      var n := |cells|;
      var prefix := cells[..n - 1];
      ResolveStep(cells, viewMidX);
      ResolveNoneIffNoCandidate(prefix, viewMidX);
      if !IsCandidate(cells[n - 1], viewMidX) && Resolve(prefix, viewMidX).None? {
        forall k | 0 <= k < n
          ensures !IsCandidate(cells[k], viewMidX)
        {
          if k < n - 1 {
            assert cells[k] == prefix[k];
          }
        }
      } else if !IsCandidate(cells[n - 1], viewMidX) {
        var k :| 0 <= k < n - 1 && IsCandidate(prefix[k], viewMidX);
        assert cells[k] == prefix[k];
      }
    }
  }

  /** A last candidate of a prefix stays the last candidate when a non-candidate follows. */
  lemma WinnerExtends(cells: seq<VisibleCell>, viewMidX: real, k: int)
    requires |cells| > 0 && !IsCandidate(cells[|cells| - 1], viewMidX)
    requires IsSnapWinner(cells[..|cells| - 1], viewMidX, k)
    ensures IsSnapWinner(cells, viewMidX, k)
  {
    var prefix := cells[..|cells| - 1];
    forall j | k < j < |cells|
      ensures !IsCandidate(cells[j], viewMidX)
    {
      if j < |cells| - 1 {
        assert cells[j] == prefix[j];
      }
    }
  }

  /** A resolved path is that of the last candidate in enumeration order, whose index is returned. */
  lemma {:induction false} ResolveSomeIsWinner(cells: seq<VisibleCell>, viewMidX: real) returns (k: int)
    ensures Resolve(cells, viewMidX).Some? ==>
              IsSnapWinner(cells, viewMidX, k) && cells[k].path == Resolve(cells, viewMidX)
    decreases |cells|
  {
    k := 0;
    if |cells| > 0 {
      var n := |cells|;
      var prefix := cells[..n - 1];
      ResolveStep(cells, viewMidX);
      if IsCandidate(cells[n - 1], viewMidX) {
        k := n - 1;
      } else if Resolve(prefix, viewMidX).Some? {
        k := ResolveSomeIsWinner(prefix, viewMidX);
        assert cells[k] == prefix[k];
        WinnerExtends(cells, viewMidX, k);
      }
    }
  }

  /**
   * Last-wins: nothing is resolved exactly when no visible cell is a
   * candidate, and otherwise the resolved path is that of the last candidate
   * in enumeration order; qualifying cells without a path are skipped.
   */
  lemma ResolveIsLastCandidate(cells: seq<VisibleCell>, viewMidX: real)
    ensures Resolve(cells, viewMidX).None? <==> forall k :: 0 <= k < |cells| ==> !IsCandidate(cells[k], viewMidX)
    ensures Resolve(cells, viewMidX).Some? ==>
              exists k :: IsSnapWinner(cells, viewMidX, k) && cells[k].path == Resolve(cells, viewMidX)
  {
    ResolveNoneIffNoCandidate(cells, viewMidX);
    var k := ResolveSomeIsWinner(cells, viewMidX);
  }

  /** Whatever cell is the last candidate decides the snap. */
  lemma ResolveIsWinnerPath(cells: seq<VisibleCell>, viewMidX: real, k: int)
    requires IsSnapWinner(cells, viewMidX, k)
    ensures Resolve(cells, viewMidX) == cells[k].path
  {
    ResolveIsLastCandidate(cells, viewMidX);
    var k' :| IsSnapWinner(cells, viewMidX, k') && cells[k'].path == Resolve(cells, viewMidX);
    assert !(k < k') && !(k' < k);
  }

  /**
   * The snap resolution of scrollToCell(): filter the visible cells to the
   * centreline band, then walk the qualifying ones, keeping the last index
   * path found.
   */
  method ResolveSnap(visible: seq<VisibleCell>, viewMidX: real) returns (indexPath: Option<IndexPath>)
    ensures indexPath == Resolve(visible, viewMidX)
    ensures indexPath.None? <==> forall k :: 0 <= k < |visible| ==> !IsCandidate(visible[k], viewMidX)
    ensures forall k :: IsSnapWinner(visible, viewMidX, k) ==> indexPath == visible[k].path
  {
    indexPath := None;
    var qualifying := Qualifying(visible, viewMidX);
    var i := 0;
    while i < |qualifying|
      invariant 0 <= i <= |qualifying|
      invariant indexPath == LastPath(qualifying[..i])
    {
      if qualifying[i].path.Some? {
        indexPath := qualifying[i].path;
      }
      assert qualifying[..i + 1][..i] == qualifying[..i];
      i := i + 1;
    }
    assert qualifying[..i] == qualifying;
    ResolveIsLastCandidate(visible, viewMidX);
    forall k | IsSnapWinner(visible, viewMidX, k)
      ensures indexPath == visible[k].path
    {
      ResolveIsWinnerPath(visible, viewMidX, k);
    }
  }

  /**
   * Cells of one width laid side by side, each midpoint at least a width
   * from every other, as the flow layout places them.
   */
  ghost predicate SideBySide(cells: seq<VisibleCell>)
  {
    forall i, j :: 0 <= i < |cells| && 0 <= j < |cells| && i != j ==>
      cells[i].width == cells[j].width && PickerGeometry.Distance(cells[i].midX, cells[j].midX) >= cells[i].width
  }

  /**
   * For side-by-side cells the tie-break never matters: at most one cell
   * qualifies, so a candidate is the one the snap resolves to and no other
   * cell is in the band. In particular a cell already centred on the
   * midline is resolved again.
   */
  lemma SideBySideCandidateDecides(cells: seq<VisibleCell>, viewMidX: real, k: int)
    requires SideBySide(cells)
    requires 0 <= k < |cells| && IsCandidate(cells[k], viewMidX)
    ensures Resolve(cells, viewMidX) == cells[k].path
    ensures forall j :: 0 <= j < |cells| && j != k ==> !Qualifies(cells[j], viewMidX)
  {
    forall j | k < j < |cells|
      ensures !IsCandidate(cells[j], viewMidX)
    {
      if Qualifies(cells[j], viewMidX) {
        PickerGeometry.BandHoldsAtMostOneOfAdjacentCells(viewMidX, cells[k].width, cells[k].midX, cells[j].midX);
      }
    }
    assert IsSnapWinner(cells, viewMidX, k);
    ResolveIsWinnerPath(cells, viewMidX, k);
    forall j | 0 <= j < |cells| && j != k
      ensures !Qualifies(cells[j], viewMidX)
    {
      if Qualifies(cells[j], viewMidX) {
        PickerGeometry.BandHoldsAtMostOneOfAdjacentCells(viewMidX, cells[k].width, cells[k].midX, cells[j].midX);
      }
    }
  }

  /** The animation rule of scrollToCell: the first and the last row are snapped without animation. */
  function SnapAnimated(row: int, count: int): bool
  {
    !(row == 0 || row == count - 1)
  }

  /** Row 0 and row count - 1 are not animated; every row strictly between them is. */
  lemma EdgeRowsSnapWithoutAnimation(count: int)
    requires 1 <= count
    ensures !SnapAnimated(0, count) && !SnapAnimated(count - 1, count)
    ensures forall row :: 0 < row < count - 1 ==> SnapAnimated(row, count)
  {
  }

  /** What scrollToCell decides: no qualifying cell, or the row to select and its animation flag. */
  datatype Snap = NoQualifyingCell | SnapTo(row: int, animated: bool)

  function SnapDecision(visible: seq<VisibleCell>, viewMidX: real, count: int): Snap
  {
    match Resolve(visible, viewMidX)
    case None => NoQualifyingCell
    case Some(p) => SnapTo(p.row, SnapAnimated(p.row, count))
  }

  /**
   * scrollToCell() on the selection state: with no qualifying cell nothing
   * happens; otherwise the resolved row is selected in section 0.
   */
  function SettleStep(data: seq<string>, selected: Option<IndexPath>, visible: seq<VisibleCell>, viewMidX: real): (e: Effect)
    requires ValidSelection(data, selected)
    ensures ValidSelection(data, e.selected)
  {
    match SnapDecision(visible, viewMidX, |data|)
    case NoQualifyingCell => Effect(selected, [])
    case SnapTo(row, animated) => SelectStep(data, selected, row, 0, animated)
  }

  /**
   * Settling with no candidate leaves the state alone; with a last
   * candidate whose row is in range, that row becomes the selection and is
   * centred, animated exactly when it is neither the first nor the last row.
   */
  lemma SettleSelectsLastCandidate(data: seq<string>, selected: Option<IndexPath>, visible: seq<VisibleCell>, viewMidX: real, k: int)
    requires ValidSelection(data, selected)
    requires IsSnapWinner(visible, viewMidX, k)
    requires 0 <= visible[k].path.value.row < |data|
    ensures var row := visible[k].path.value.row;
      var e := SettleStep(data, selected, visible, viewMidX);
      && e.selected == Some(IndexPath(row, 0))
      && Replay(Marked(selected), e.commands) == {IndexPath(row, 0)}
      && |e.commands| > 0
      && e.commands[|e.commands| - 1] == SelectAndCentre(IndexPath(row, 0), !(row == 0 || row == |data| - 1))
  {
    var row := visible[k].path.value.row;
    ResolveIsWinnerPath(visible, viewMidX, k);
    SelectInRange(data, selected, row, 0, SnapAnimated(row, |data|));
  }

  /**
   * A last candidate whose row lies outside the items reaches the select
   * guard and changes nothing.
   */
  lemma SettleOnOutOfRangeCandidateChangesNothing(data: seq<string>, selected: Option<IndexPath>, visible: seq<VisibleCell>, viewMidX: real, k: int)
    requires ValidSelection(data, selected)
    requires IsSnapWinner(visible, viewMidX, k)
    requires !(0 <= visible[k].path.value.row < |data|)
    ensures SettleStep(data, selected, visible, viewMidX) == Effect(selected, [])
  {
    ResolveIsWinnerPath(visible, viewMidX, k);
  }

  lemma SettleWithoutCandidateChangesNothing(data: seq<string>, selected: Option<IndexPath>, visible: seq<VisibleCell>, viewMidX: real)
    requires ValidSelection(data, selected)
    requires forall k :: 0 <= k < |visible| ==> !IsCandidate(visible[k], viewMidX)
    ensures SnapDecision(visible, viewMidX, |data|) == NoQualifyingCell
    ensures SettleStep(data, selected, visible, viewMidX) == Effect(selected, [])
  {
    ResolveIsLastCandidate(visible, viewMidX);
  }

  /** The scroll-view callbacks the picker handles. */
  datatype ScrollEvent = DidEndDragging(willDecelerate: bool) | DidEndDecelerating

  /** Whether the picker runs scrollToCell on this callback. */
  predicate TriggersSnap(e: ScrollEvent)
  {
    match e
    case DidEndDragging(willDecelerate) => !willDecelerate
    case DidEndDecelerating => true
  }

  /**
   * The callbacks the scroll view delivers when one drag ends: drag end
   * alone, or drag end announcing deceleration followed by deceleration end.
   */
  function GestureEnd(decelerate: bool): seq<ScrollEvent>
  {
    if decelerate then [DidEndDragging(true), DidEndDecelerating] else [DidEndDragging(false)]
  }

  /** The callbacks of consecutive gestures, one deceleration flag per gesture. */
  function Gestures(decelerates: seq<bool>): seq<ScrollEvent>
    decreases |decelerates|
  {
    if |decelerates| == 0 then []
    else Gestures(decelerates[..|decelerates| - 1]) + GestureEnd(decelerates[|decelerates| - 1])
  }

  /** How many times scrollToCell runs over a stream of callbacks. */
  function SnapCount(events: seq<ScrollEvent>): nat
    decreases |events|
  {
    if |events| == 0 then 0
    else SnapCount(events[..|events| - 1]) + (if TriggersSnap(events[|events| - 1]) then 1 else 0)
  }

  lemma {:induction false} SnapCountAppend(a: seq<ScrollEvent>, b: seq<ScrollEvent>)
    ensures SnapCount(a + b) == SnapCount(a) + SnapCount(b)
    decreases |b|
  {
    if |b| == 0 {
      assert a + b == a;
    } else {
      assert (a + b)[..|a + b| - 1] == a + b[..|b| - 1];
      SnapCountAppend(a, b[..|b| - 1]);
    }
  }

  /**
   * Each gesture snaps exactly once, on its last callback: at drag end when
   * no deceleration follows, otherwise only when deceleration ends. Over any
   * run of gestures the snap count equals the number of gestures.
   */
  lemma {:induction false} SnapsOncePerGesture(decelerates: seq<bool>)
    ensures SnapCount(Gestures(decelerates)) == |decelerates|
    ensures forall d: bool :: TriggersSnap(GestureEnd(d)[|GestureEnd(d)| - 1])
    ensures forall d: bool :: SnapCount(GestureEnd(d)[..|GestureEnd(d)| - 1]) == 0
    decreases |decelerates|
  {
    if |decelerates| > 0 {
      var last := decelerates[|decelerates| - 1];
      SnapsOncePerGesture(decelerates[..|decelerates| - 1]);
      SnapCountAppend(Gestures(decelerates[..|decelerates| - 1]), GestureEnd(last));
      assert GestureEnd(last)[..|GestureEnd(last)| - 1] == (if last then [DidEndDragging(true)] else []);
    }
    assert GestureEnd(true)[..1] == [DidEndDragging(true)];
  }
}
