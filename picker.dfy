/**
 * HorizontalPickerViewController with UIKit abstracted away: the collection
 * view is the list of commands the controller issues to it, and the
 * visible-cell snapshot and the viewport midline are passed in by the host
 * when a scroll gesture settles.
 */
module Picker {
  import opened Wrappers
  import opened Selection
  import opened Snap
  import PickerGeometry

  /** The label setUpData gives item `i`: its decimal digit. */
  function TestLabel(i: int): (s: string)
    requires 0 <= i < 10
    ensures |s| == 1 && '0' <= s[0] <= '9'
    ensures s[0] as int - '0' as int == i
  {
    [('0' as int + i) as char]
  }

  class HorizontalPickerViewController {
    var cellWidth: real
    var data: seq<string>
    var selectedCellIndexPath: Option<IndexPath>
    /** The commands issued to the collection view so far, oldest first. */
    var issued: seq<Command>

    /**
     * The selection names an item, and replaying everything issued so far
     * shows exactly the selected cell as selected, or no cell without a
     * selection.
     */
    ghost predicate Valid()
      reads this
    {
      && ValidSelection(data, selectedCellIndexPath)
      && Replay({}, issued) == Marked(selectedCellIndexPath)
    }

    constructor ()
      ensures Valid()
      ensures cellWidth == 0.0 && data == [] && selectedCellIndexPath == None && issued == []
    {
      cellWidth := 0.0;
      data := [];
      selectedCellIndexPath := None;
      issued := [];
    }

    /** viewDidLoad: size the cells from the container width, then load the test items. */
    method ViewDidLoad(viewWidth: real)
      requires Valid()
      modifies this`cellWidth, this`data
      ensures Valid()
      ensures cellWidth == PickerGeometry.CellWidthFor(viewWidth)
      ensures |data| == |old(data)| + 10 && data[..|old(data)|] == old(data)
      ensures forall i :: 0 <= i < 10 ==> data[|old(data)| + i] == TestLabel(i)
    {
      SetUpCollectionViewUI(viewWidth);
      SetUpData();
    }

    /** setUpData: append the labels "0" to "9". */
    method SetUpData()
      requires Valid()
      modifies this`data
      ensures Valid()
      ensures |data| == |old(data)| + 10 && data[..|old(data)|] == old(data)
      ensures forall i :: 0 <= i < 10 ==> data[|old(data)| + i] == TestLabel(i)
    {
      for i := 0 to 10
        invariant |data| == |old(data)| + i && data[..|old(data)|] == old(data)
        invariant forall j :: 0 <= j < i ==> data[|old(data)| + j] == TestLabel(j)
        invariant Valid()
      {
        data := data + [TestLabel(i)];
      }
    }

    /** setUpCollectionViewUI, as far as the model goes: the cell width is a quarter of the container. */
    method SetUpCollectionViewUI(viewWidth: real)
      requires Valid()
      modifies this`cellWidth
      ensures Valid()
      ensures cellWidth == PickerGeometry.CellWidthFor(viewWidth)
    {
      cellWidth := viewWidth / 4.0;
    }

    /** insetForSectionAt: the left and right inset of the section. */
    function InsetForSection(viewWidth: real): (inset: real)
      reads this
      ensures cellWidth == PickerGeometry.CellWidthFor(viewWidth) && 0.0 <= viewWidth ==>
                0.0 <= inset && inset + cellWidth / 2.0 == viewWidth / 2.0
    {
      PickerGeometry.SectionInset(viewWidth, cellWidth)
    }

    /** cleanupSelection: un-render and clear the current selection, if any. */
    method CleanupSelection()
      requires Valid()
      modifies this`selectedCellIndexPath, this`issued
      ensures Valid()
      ensures var e := CleanupStep(old(data), old(selectedCellIndexPath));
        selectedCellIndexPath == e.selected && issued == old(issued) + e.commands
    {
      match selectedCellIndexPath
      case None =>
      case Some(indexPath) =>
        ReplayAppend({}, issued, [Render(indexPath, data[indexPath.row], false)]);
        issued := issued + [Render(indexPath, data[indexPath.row], false)];
        selectedCellIndexPath := None;
    }

    /**
     * select(row:in:animated:): ignore a row outside the items, else clean
     * up, record the new selection, render it selected and have it centred.
     */
    method Select(row: int, section: int := 0, animated: bool := true)
      requires Valid()
      modifies this`selectedCellIndexPath, this`issued
      ensures Valid()
      ensures var e := SelectStep(old(data), old(selectedCellIndexPath), row, section, animated);
        selectedCellIndexPath == e.selected && issued == old(issued) + e.commands
    {
      if !(0 <= row < |data|) {
        return;
      }
      CleanupSelection();
      var indexPath := IndexPath(row, section);
      selectedCellIndexPath := Some(indexPath);
      ReplayAppend({}, issued, [Render(indexPath, data[indexPath.row], true)]);
      issued := issued + [Render(indexPath, data[indexPath.row], true)];
      ReplayAppend({}, issued, [SelectAndCentre(indexPath, animated)]);
      issued := issued + [SelectAndCentre(indexPath, animated)];
    }

    /**
     * scrollToCell: resolve the snap from the visible cells; with no
     * qualifying cell stop, else select the row, without animation at the
     * first and the last row.
     */
    method ScrollToCell(visible: seq<VisibleCell>, viewMidX: real) returns (snap: Snap)
      requires Valid()
      modifies this`selectedCellIndexPath, this`issued
      ensures Valid()
      ensures snap == SnapDecision(visible, viewMidX, |data|)
      ensures var e := SettleStep(old(data), old(selectedCellIndexPath), visible, viewMidX);
        selectedCellIndexPath == e.selected && issued == old(issued) + e.commands
    {
      var indexPath := ResolveSnap(visible, viewMidX);
      if indexPath.None? {
        return NoQualifyingCell;
      }
      var row := indexPath.value.row;
      if row == 0 || row == |data| - 1 {
        Select(row, animated := false);
        return SnapTo(row, false);
      }
      Select(row);
      snap := SnapTo(row, true);
    }

    /** didSelectItemAt: a tap selects the tapped row in section 0 with animation. */
    method DidSelectItemAt(indexPath: IndexPath)
      requires Valid()
      modifies this`selectedCellIndexPath, this`issued
      ensures Valid()
      ensures var e := SelectStep(old(data), old(selectedCellIndexPath), indexPath.row, 0, true);
        selectedCellIndexPath == e.selected && issued == old(issued) + e.commands
    {
      Select(indexPath.row);
    }

    /** scrollViewDidEndDragging: snap now unless deceleration follows. */
    method ScrollViewDidEndDragging(willDecelerate: bool, visible: seq<VisibleCell>, viewMidX: real)
      requires Valid()
      modifies this`selectedCellIndexPath, this`issued
      ensures Valid()
      ensures willDecelerate ==> selectedCellIndexPath == old(selectedCellIndexPath) && issued == old(issued)
      ensures !willDecelerate ==>
                var e := SettleStep(old(data), old(selectedCellIndexPath), visible, viewMidX);
                selectedCellIndexPath == e.selected && issued == old(issued) + e.commands
    {
      if !willDecelerate {
        var _ := ScrollToCell(visible, viewMidX);
      }
    }

    /** scrollViewDidEndDecelerating: snap. */
    method ScrollViewDidEndDecelerating(visible: seq<VisibleCell>, viewMidX: real)
      requires Valid()
      modifies this`selectedCellIndexPath, this`issued
      ensures Valid()
      ensures var e := SettleStep(old(data), old(selectedCellIndexPath), visible, viewMidX);
        selectedCellIndexPath == e.selected && issued == old(issued) + e.commands
    {
      var _ := ScrollToCell(visible, viewMidX);
    }
  }
}
