# Horizontal picker: snap-to-centre selection model

A Dafny model of the selection logic of `HorizontalPickerViewController`. This
is a horizontally scrolling row of labelled cells. When a scroll gesture
settles, it snaps the cell nearest the viewport's midline to the centre and
highlights it. UIKit is abstracted away:

- The collection view becomes the list of commands the controller issues to
  it. `Render` configures a cell, if it is on screen, with its title and a
  selected or unselected background. `SelectAndCentre` selects an item and
  scrolls it to the horizontal centre, animated or not.
- The host passes in the visible-cell snapshot (each cell's index path if it
  has one, its midpoint in container coordinates and its width) and the
  viewport midline `viewMidX`.
- `CGFloat` is modelled by `real`.

Modules:

- `Wrappers` holds `Option`.
- `PickerGeometry` holds the cell width, the section inset, the content
  offsets that centre a row, and the strict centreline band.
- `Selection` holds the selection state and its two operations,
  `select(row:in:animated:)` and `cleanupSelection()`, as functions from the
  old state to the new state plus the commands issued. `Replay` is the set of
  cells shown as selected once the host has performed those commands.
- `Snap` holds the snap resolution of `scrollToCell()`: a filter to the band,
  a last-wins fold, and the edge-row animation rule. It also holds the
  gesture-end dispatch.
- `Picker` holds the controller as a class. Its fields are `cellWidth`,
  `data`, `selectedCellIndexPath` and the command log `issued`. Every method
  keeps an invariant: the selection names an item, and replaying the whole
  log shows exactly the selected cell as selected.

Two places where the model makes a choice of its own instead of following
the code:

- The guard at line 132 checks only `row < data.count`, so a negative row
  passes it. `Selection.SelectStep` and the controller's `Select` use the
  corrected two-sided guard `0 <= row < |data|` instead. The guard as
  written is modelled separately by `Selection.SelectedAfterAsWritten`
  (see Findings).
- When no cell is in the band, the code reads `.row` of an empty
  `IndexPath()`, which defines no row. The model makes this an explicit
  `NoQualifyingCell` outcome, in which nothing is selected and no command
  is issued. It does not fall back to row 0.

## Model

| member | source | states |
|---|---|---|
| PickerGeometry.CellWidthFor | HorizontalPickerDemo/PickerViewController.swift:49 | the cell width is a quarter of the container width (four cells fill it) and lies between 0 and the container width |
| PickerGeometry.CentringOffsetIsRowTimesCellWidth | HorizontalPickerDemo/PickerViewController.swift:96-103 | the inset plus half a cell is half the viewport, so with zero spacing row i is centred at content offset i cell widths |
| PickerGeometry.RowCanBeCentred | HorizontalPickerDemo/PickerViewController.swift:77-103 | every row from 0 to n - 1 has a centring offset inside the scroll range; row 0 needs offset 0 and the last row the largest offset |
| PickerGeometry.QuarterWidthInsetIsNonNegative | HorizontalPickerDemo/PickerViewController.swift:96-97 | with quarter-width cells the inset is three eighths of the container width, never negative |
| PickerGeometry.InBandIffCloserThanHalfWidth | HorizontalPickerDemo/PickerViewController.swift:175-182 | a midpoint is in the band exactly when it is less than half a width from the midline; a midpoint on either boundary is not; a centred midpoint is in the band iff the width is positive |
| PickerGeometry.BandHoldsAtMostOneOfAdjacentCells | HorizontalPickerDemo/PickerViewController.swift:177-182 | two midpoints in the same band are less than one width apart |
| Selection.CleanupStep | HorizontalPickerDemo/PickerViewController.swift:156-161 | the selection is cleared; with no selection nothing is issued; afterwards no cell is shown as selected |
| Selection.SelectStep | HorizontalPickerDemo/PickerViewController.swift:126-152 | a valid selection stays valid (an index into the items) |
| Selection.SelectOutOfRangeChangesNothing | HorizontalPickerDemo/PickerViewController.swift:132 | a row at or past the item count, or a negative one, leaves the selection as it was and issues no render and no scroll |
| Selection.SelectInRange | HorizontalPickerDemo/PickerViewController.swift:135-151 | an in-range row makes exactly (row, section) the selection and the only cell shown as selected; the last command, and the only non-render one, centres it with the caller's animation flag |
| Selection.SelectNeverMarksTwo | HorizontalPickerDemo/PickerViewController.swift:134-146 | the old selection is un-rendered before the new one is rendered, so at no prefix of a select's commands are two cells shown as selected |
| Selection.SelectIsIdempotent | HorizontalPickerDemo/PickerViewController.swift:126-152 | selecting the same row twice leaves the same selection as once, shows just that cell selected and requests the same centring |
| Selection.AsWrittenGuardAdmitsNegativeRow | HorizontalPickerDemo/PickerViewController.swift:132 | with the upper-bound-only guard as written, row -1 becomes a selection that names no item, while the corrected SelectStep ignores it |
| Selection.AsWrittenAgreesOnNonNegativeRows | HorizontalPickerDemo/PickerViewController.swift:132 | for every row that is not negative, the guard as written and the corrected guard leave the same selection |
| Snap.Qualifying | HorizontalPickerDemo/PickerViewController.swift:169-183 | the filtered cells are visible cells inside their centreline band, and every visible cell inside its band is among them |
| Snap.QualifyingSingle | HorizontalPickerDemo/PickerViewController.swift:169-183 | a single cell is kept exactly when its midpoint is strictly inside its band |
| Snap.QualifyingAppend | HorizontalPickerDemo/PickerViewController.swift:169-183 | filtering a concatenation is concatenating the filtered parts, so the filter keeps enumeration order and multiplicity |
| Snap.QualifyingPrefix | HorizontalPickerDemo/PickerViewController.swift:169-183 | filtering a prefix of the visible cells gives a prefix of the filtered cells |
| Snap.ResolveIsLastCandidate | HorizontalPickerDemo/PickerViewController.swift:186-190 | nothing is resolved iff no visible cell is in the band with an index path; otherwise the resolved path is that of the last such cell in enumeration order, and qualifying cells without a path are skipped |
| Snap.ResolveNoneIffNoCandidate | HorizontalPickerDemo/PickerViewController.swift:186-190 | the fold resolves nothing exactly when no visible cell is in its band with an index path |
| Snap.ResolveSomeIsWinner | HorizontalPickerDemo/PickerViewController.swift:186-190 | a resolved path belongs to the last cell in enumeration order that is in its band and has a path |
| Snap.ResolveIsWinnerPath | HorizontalPickerDemo/PickerViewController.swift:186-190 | the last qualifying cell that has an index path determines the resolved path |
| Snap.ResolveSnap | HorizontalPickerDemo/PickerViewController.swift:165-190 | the filter-then-forEach loop returns the last qualifying index path, none iff no cell qualifies with a path, and the last candidate's path otherwise |
| Snap.SideBySideCandidateDecides | HorizontalPickerDemo/PickerViewController.swift:169-190 | for equal-width cells at least a width apart, a qualifying cell with a path is the one resolved and no other cell is in the band, so a snapped cell snaps to itself again |
| Snap.EdgeRowsSnapWithoutAnimation | HorizontalPickerDemo/PickerViewController.swift:192-198 | rows 0 and count - 1 snap without animation; every row strictly between them snaps with animation |
| Snap.SettleStep | HorizontalPickerDemo/PickerViewController.swift:164-199 | settling keeps the selection a valid index |
| Snap.SettleSelectsLastCandidate | HorizontalPickerDemo/PickerViewController.swift:164-199 | when the last candidate's row is in range, it becomes the selection in section 0 and the only cell shown selected, and is centred, animated exactly when it is neither the first nor the last row |
| Snap.SettleWithoutCandidateChangesNothing | HorizontalPickerDemo/PickerViewController.swift:165-192 | with no qualifying cell that has a path, the decision is NoQualifyingCell and the selection and commands are untouched |
| Snap.SettleOnOutOfRangeCandidateChangesNothing | HorizontalPickerDemo/PickerViewController.swift:192-198 | when the last candidate's row is outside the items, the select guard is reached and the selection and commands are untouched |
| Snap.SnapsOncePerGesture | HorizontalPickerDemo/PickerViewController.swift:106-116 | every gesture snaps exactly once and on its last callback: at drag end without deceleration, otherwise only at deceleration end; over any run of gestures the snap count equals the gesture count |
| Picker.TestLabel | HorizontalPickerDemo/PickerViewController.swift:39-43 | the test label of item i is the one-character decimal digit of i |
| Picker.HorizontalPickerViewController.constructor | HorizontalPickerDemo/PickerViewController.swift:13-15 | cell width 0, no items, no selection, nothing issued; the invariant holds |
| Picker.HorizontalPickerViewController.ViewDidLoad | HorizontalPickerDemo/PickerViewController.swift:32-36 | the cell width is a quarter of the container and the ten test labels are appended after the existing items |
| Picker.HorizontalPickerViewController.SetUpData | HorizontalPickerDemo/PickerViewController.swift:39-43 | the loop appends labels "0" to "9" in order, keeps the earlier items and keeps the invariant |
| Picker.HorizontalPickerViewController.SetUpCollectionViewUI | HorizontalPickerDemo/PickerViewController.swift:48-49 | the cell width becomes a quarter of the container width |
| Picker.HorizontalPickerViewController.InsetForSection | HorizontalPickerDemo/PickerViewController.swift:96-103 | with the cell width set up from the container, the inset is not negative and the inset plus half a cell is half the container |
| Picker.HorizontalPickerViewController.CleanupSelection | HorizontalPickerDemo/PickerViewController.swift:156-161 | the new state and log are those of CleanupStep, and the invariant is kept |
| Picker.HorizontalPickerViewController.Select | HorizontalPickerDemo/PickerViewController.swift:126-152 | the new selection and log are those of SelectStep (default section 0, animated), and the invariant is kept |
| Picker.HorizontalPickerViewController.ScrollToCell | HorizontalPickerDemo/PickerViewController.swift:164-199 | it returns the snap decision, and the new selection and log are those of SettleStep, and the invariant is kept |
| Picker.HorizontalPickerViewController.DidSelectItemAt | HorizontalPickerDemo/PickerViewController.swift:92-94 | a tap selects the tapped row in section 0, always animated |
| Picker.HorizontalPickerViewController.ScrollViewDidEndDragging | HorizontalPickerDemo/PickerViewController.swift:106-111 | a drag end followed by deceleration changes nothing; one without deceleration settles |
| Picker.HorizontalPickerViewController.ScrollViewDidEndDecelerating | HorizontalPickerDemo/PickerViewController.swift:113-116 | a deceleration end settles |

## Left out

- PickerViewCell.swift is not part of this model. It is view construction and the label and background styling. Rendering is the `Render` command.
- The lazy collection view, its registration and the layout constraints (PickerViewController.swift:19-29, 50-57) are UIKit set-up.
- Cell dequeue and colour alternation in `cellForItemAt` (PickerViewController.swift:67-75) are left out. A recycled cell is configured there without `isSelected`, so what a scrolled-back cell shows is not captured. `Replay` is the picker's own render commands.
- `numberOfItemsInSection` (PickerViewController.swift:63-65) is just `|data|`. The size and zero-spacing callbacks (PickerViewController.swift:77-90) enter only as the layout assumptions of `PickerGeometry` and `Snap.SideBySide`.
- The `convert` call, `visibleCells` and `indexPath(for:)` are UIKit queries. Their combined answer is the `VisibleCell` snapshot input.
- The debug `print` (PickerViewController.swift:181) is output only.
- Animation and scrolling are fire-and-forget UIKit calls, modelled as commands.
- `CGFloat` floating-point rounding is not modelled: `real` is exact.
- Snap.GestureEnd: the order UIKit delivers the drag-end and deceleration-end callbacks is an assumption about the host, not something the controller enforces.
- Selection.SelectStep: the `section` argument is never checked, as in the source. It is carried into the selection unchanged.
- Replacing the item sequence while a selection is active is not modelled, because the controller has no such operation. `data` only grows, through `SetUpData`.
- Picker.HorizontalPickerViewController.ScrollToCell: when no cell qualifies, the source reads `.row` of an empty index path, which defines no row. The model returns `NoQualifyingCell` and changes nothing, and does not pick row 0.

## Findings

| source | as written | input that shows it | evidently intended | confidence | as-written member | corrected member |
|---|---|---|---|---|---|---|
| HorizontalPickerDemo/PickerViewController.swift:132 | `guard row < data.count` checks only the upper bound | `select(row: -1)` passes the guard and records index path (-1, 0), which names no item | out-of-range rows on either side are no-ops, so a selection is always an index into the items | medium; not executed | Selection.AsWrittenGuardAdmitsNegativeRow | Selection.SelectStep |
