/**
 * The selection state of the horizontal picker and the two operations that
 * change it, `select(row:in:animated:)` and `cleanupSelection()`, as pure
 * functions from the old state to the new state and the commands sent to
 * the collection view. The controller class in module Picker is proved
 * against these functions.
 */
module Selection {
  import opened Wrappers

  /** A (row, section) index path of the collection view. */
  datatype IndexPath = IndexPath(row: int, section: int)

  /**
   * What the picker asks of the collection view.
   * Render: configure the cell at `path`, if it is on screen, with `title`
   * and the selected or unselected background.
   * SelectAndCentre: select the item at `path` and scroll so that it is
   * centred horizontally, animated or not.
   */
  datatype Command =
    | Render(path: IndexPath, title: string, selected: bool)
    | SelectAndCentre(path: IndexPath, animated: bool)

  /** The selection after an operation and the commands it issued, in order. */
  datatype Effect = Effect(selected: Option<IndexPath>, commands: seq<Command>)

  /** A selection, when there is one, names a row of the item sequence. */
  predicate ValidSelection(data: seq<string>, selected: Option<IndexPath>)
  {
    selected.Some? ==> 0 <= selected.value.row < |data|
  }

  /** The index paths a selection stands for: none or exactly one. */
  function Marked(selected: Option<IndexPath>): (m: set<IndexPath>)
    ensures |m| <= 1
    ensures forall p :: p in m <==> selected == Some(p)
  {
    if selected.Some? then {selected.value} else {}
  }

  /** The set of cells shown as selected after the host performs command `c`. */
  function ApplyCommand(marked: set<IndexPath>, c: Command): set<IndexPath>
  {
    match c
    case Render(p, _, isSelected) => if isSelected then marked + {p} else marked - {p}
    case SelectAndCentre(_, _) => marked
  }

  /** The set of cells shown as selected after the host performs `commands` in order. */
  function Replay(marked: set<IndexPath>, commands: seq<Command>): set<IndexPath>
    decreases |commands|
  {
    if |commands| == 0 then marked
    else ApplyCommand(Replay(marked, commands[..|commands| - 1]), commands[|commands| - 1])
  }

  lemma {:induction false} ReplayAppend(marked: set<IndexPath>, a: seq<Command>, b: seq<Command>)
    ensures Replay(marked, a + b) == Replay(Replay(marked, a), b)
    decreases |b|
  {
    if |b| == 0 {
      assert a + b == a;
    } else {
      var b' := b[..|b| - 1];
      assert (a + b)[..|a + b| - 1] == a + b';
      ReplayAppend(marked, a, b');
    }
  }

  /**
   * cleanupSelection(): with a current selection, re-render that cell
   * unselected and clear the selection; without one, do nothing.
   */
  function CleanupStep(data: seq<string>, selected: Option<IndexPath>): (e: Effect)
    requires ValidSelection(data, selected)
    ensures e.selected == None
    ensures selected == None ==> e.commands == []
    ensures Replay(Marked(selected), e.commands) == {}
  {
    match selected
    case None => Effect(None, [])
    case Some(p) => Effect(None, [Render(p, data[p.row], false)])
  }

  /**
   * select(row:in:animated:): a row outside the item sequence changes
   * nothing; otherwise clean up the old selection, record (row, section),
   * render it selected and ask for it to be selected and centred.
   */
  function SelectStep(data: seq<string>, selected: Option<IndexPath>, row: int, section: int, animated: bool): (e: Effect)
    requires ValidSelection(data, selected)
    ensures ValidSelection(data, e.selected)
  {
    if !(0 <= row < |data|) then Effect(selected, [])
    else
      var p := IndexPath(row, section);
      Effect(Some(p), CleanupStep(data, selected).commands + [Render(p, data[row], true), SelectAndCentre(p, animated)])
  }

  /** A row past the end of the item sequence, or before its start, is a no-op. */
  lemma SelectOutOfRangeChangesNothing(data: seq<string>, selected: Option<IndexPath>, row: int, section: int, animated: bool)
    requires ValidSelection(data, selected)
    requires row >= |data| || row < 0
    ensures SelectStep(data, selected, row, section, animated) == Effect(selected, [])
  {
  }

  /**
   * A row in range becomes the selection, exactly (row, section) is shown as
   * selected afterwards, and the last command centres it with the caller's
   * animation flag, the only such command issued.
   */
  lemma {:induction false} SelectInRange(data: seq<string>, selected: Option<IndexPath>, row: int, section: int, animated: bool)
    requires ValidSelection(data, selected)
    requires 0 <= row < |data|
    ensures var e := SelectStep(data, selected, row, section, animated);
      && e.selected == Some(IndexPath(row, section))
      && Replay(Marked(selected), e.commands) == {IndexPath(row, section)}
      && |e.commands| > 0
      && e.commands[|e.commands| - 1] == SelectAndCentre(IndexPath(row, section), animated)
      && forall k :: 0 <= k < |e.commands| - 1 ==> e.commands[k].Render?
  {
    var e := SelectStep(data, selected, row, section, animated);
    var p := IndexPath(row, section);
    var cleanup := CleanupStep(data, selected).commands;
    assert e.commands == cleanup + [Render(p, data[row], true)] + [SelectAndCentre(p, animated)];
    ReplayAppend(Marked(selected), cleanup + [Render(p, data[row], true)], [SelectAndCentre(p, animated)]);
    ReplayAppend(Marked(selected), cleanup, [Render(p, data[row], true)]);
  }

  /**
   * No flicker: the old selection is un-marked before the new one is
   * marked, so at no point while the host performs the commands of a
   * select are two cells shown as selected.
   */
  lemma {:induction false} SelectNeverMarksTwo(data: seq<string>, selected: Option<IndexPath>, row: int, section: int, animated: bool)
    requires ValidSelection(data, selected)
    ensures var e := SelectStep(data, selected, row, section, animated);
      forall k :: 0 <= k <= |e.commands| ==> |Replay(Marked(selected), e.commands[..k])| <= 1
  {
    var e := SelectStep(data, selected, row, section, animated);
    var m := Marked(selected);
    if 0 <= row < |data| {
      var p := IndexPath(row, section);
      var cleanup := CleanupStep(data, selected).commands;
      var c := e.commands;
      forall k | 0 <= k <= |c|
        ensures |Replay(m, c[..k])| <= 1
      {
        if k <= |cleanup| {
          if k == 0 {
            assert c[..k] == [];
          } else {
            assert c[..k] == cleanup;
          }
        } else if k == |cleanup| + 1 {
          assert c[..k] == cleanup + [Render(p, data[row], true)];
          ReplayAppend(m, cleanup, [Render(p, data[row], true)]);
        } else {
          assert c[..k] == c;
          SelectInRange(data, selected, row, section, animated);
        }
      }
    } else {
      forall k | 0 <= k <= |e.commands|
        ensures |Replay(m, e.commands[..k])| <= 1
      {
        assert e.commands[..k] == [];
      }
    }
  }

  /**
   * Selecting the same row twice leaves the same selection as selecting it
   * once, still shows exactly that cell as selected and requests the same
   * centring again.
   */
  lemma {:induction false} SelectIsIdempotent(data: seq<string>, selected: Option<IndexPath>, row: int, section: int, animated: bool)
    requires ValidSelection(data, selected)
    ensures var once := SelectStep(data, selected, row, section, animated);
      var twice := SelectStep(data, once.selected, row, section, animated);
      && twice.selected == once.selected
      && Replay(Marked(once.selected), twice.commands) == Marked(once.selected)
      && (0 <= row < |data| ==> twice.commands[|twice.commands| - 1] == once.commands[|once.commands| - 1])
  {
    var once := SelectStep(data, selected, row, section, animated);
    if 0 <= row < |data| {
      SelectInRange(data, selected, row, section, animated);
      SelectInRange(data, once.selected, row, section, animated);
    }
  }

  /**
   * The guard as written in the source, `row < data.count`: only the upper
   * bound is checked. This gives the selection it leaves behind.
   */
  function SelectedAfterAsWritten(count: int, selected: Option<IndexPath>, row: int, section: int): Option<IndexPath>
  {
    if row < count then Some(IndexPath(row, section)) else selected
  }

  /**
   * Row -1 passes the guard as written and becomes a selection that names no
   * item; the corrected guard of SelectStep turns it away.
   */
  lemma AsWrittenGuardAdmitsNegativeRow(data: seq<string>)
    ensures var s := SelectedAfterAsWritten(|data|, None, -1, 0);
      s == Some(IndexPath(-1, 0)) && !ValidSelection(data, s)
    ensures SelectStep(data, None, -1, 0, true) == Effect(None, [])
  {
  }

  /** For every row that is not negative the two guards agree. */
  lemma AsWrittenAgreesOnNonNegativeRows(data: seq<string>, selected: Option<IndexPath>, row: int, section: int, animated: bool)
    requires ValidSelection(data, selected)
    requires 0 <= row
    ensures SelectedAfterAsWritten(|data|, selected, row, section) == SelectStep(data, selected, row, section, animated).selected
  {
  }
}
