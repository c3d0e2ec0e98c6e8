/** The event sent when the selection of the document table changes: the lowest
    and highest selected row and the number of rows the table holds. A cleared
    selection is encoded by the sentinels `top == Integer.MAX_VALUE` and
    `bottom == -1`. */
module Selection {
  import opened Support

  /** The initial value of `bottom`, and its value in a cleared selection. */
  const NoBottom: Int32 := -1

  const NullSelectionMessage := "Input selection cannot be null"
  const NegativeRowsMessage := "Cannot select rows if no row is available"

  /** The direction a block of selected rows can be moved in. */
  datatype MoveType = Up | Down

  function Min(a: int, b: int): (m: int) { if a <= b then a else b }
  function Max(a: int, b: int): (m: int) { if a >= b then a else b }

  /** The value of `top` once the constructor has visited the indices `s` in
      iteration order, starting from the sentinel: the least index, or
      `Integer.MAX_VALUE` when there is none. */
  function SelectedTop(s: seq<Int32>): (top: Int32)
    ensures s == [] ==> top == IntMax
    ensures s != [] ==> top in s
    ensures forall i :: 0 <= i < |s| ==> top <= s[i]
  {
    if s == [] then IntMax else Min(s[|s| - 1], SelectedTop(s[..|s| - 1]))
  }

  /** The value of `bottom` once the constructor has visited the indices `s`,
      starting from -1: the greatest index, or -1 when no index is -1 or more. */
  function SelectedBottom(s: seq<Int32>): (bottom: Int32)
    ensures NoBottom <= bottom
    ensures bottom == NoBottom || bottom in s
    ensures forall i :: 0 <= i < |s| ==> s[i] <= bottom
  {
    if s == [] then NoBottom else Max(s[|s| - 1], SelectedBottom(s[..|s| - 1]))
  }

  /** Visiting one more index updates the fold by that index alone. */
  lemma FoldStep(s: seq<Int32>, i: nat)
    requires i < |s|
    ensures SelectedTop(s[..i + 1]) == Min(s[i], SelectedTop(s[..i]))
    ensures SelectedBottom(s[..i + 1]) == Max(s[i], SelectedBottom(s[..i]))
  {
    assert s[..i + 1][..i] == s[..i];
  }

  class SelectionChangedEvent {
    var top: Int32
    var bottom: Int32
    var totalRows: Int32

    /** What every construction path and `OfTotalRows` keep: a non-negative row
        count, and either the cleared sentinels or a range with top <= bottom. */
    ghost predicate Valid()
      reads this
    {
      0 <= totalRows && NoBottom <= bottom && (IsClearSelection() || top <= bottom)
    }

    /** The constructor without arguments: every field keeps its initial value. */
    constructor Cleared()
      ensures Valid() && IsClearSelection()
      ensures top == IntMax && bottom == NoBottom && totalRows == 0
    {
      top, bottom, totalRows := IntMax, NoBottom, 0;
    }

    /** The constructor over a (non-null) collection of selected indices, given
        in its iteration order: `bottom` and `top` are folded one index at a time. */
    constructor OfSelected(selected: seq<Int32>)
      ensures Valid()
      ensures top == SelectedTop(selected) && bottom == SelectedBottom(selected)
      ensures totalRows == 0
      ensures IsClearSelection() <==> selected == []
    {
      top, bottom, totalRows := IntMax, NoBottom, 0;
      new;
      var i := 0;
      while i < |selected|
        invariant 0 <= i <= |selected|
        invariant top == SelectedTop(selected[..i])
        invariant bottom == SelectedBottom(selected[..i])
        invariant totalRows == 0
      {
        FoldStep(selected, i);
        bottom := Max(selected[i], bottom);
        top := Min(selected[i], top);
        i := i + 1;
      }
      assert selected[..i] == selected;
      SelectedClearIffEmpty(this, selected);
    }

    /** True when the selection has been cleared. */
    predicate IsClearSelection()
      reads this
    {
      top == IntMax && bottom == NoBottom
    }

    /** True when exactly one row is selected. */
    predicate IsSingleSelection()
      reads this
    {
      !IsClearSelection() && top == bottom
    }

    /** Whether the selected block can be shifted one row in direction `t`. */
    predicate CanMove(t: MoveType)
      reads this
    {
      if t == Down then !IsClearSelection() && bottom < totalRows - 1
      else !IsClearSelection() && top > 0
    }

    function GetTotalRows(): (n: Int32)
      reads this
      requires Valid()
      ensures 0 <= n
    {
      totalRows
    }

    /** `clearSelectionEvent()`: a fresh event with no row selected. */
    static method ClearSelectionEvent() returns (e: SelectionChangedEvent)
      ensures fresh(e) && e.Valid()
      ensures e.IsClearSelection() && !e.IsSingleSelection()
      ensures !e.CanMove(Up) && !e.CanMove(Down)
      ensures e.GetTotalRows() == 0
    {
      e := new SelectionChangedEvent.Cleared();
    }

    /** `select(index)`: rejects a null collection, otherwise a fresh event
        spanning the least to the greatest selected index. */
    static method Select(index: Option<seq<Int32>>) returns (r: Result<SelectionChangedEvent>)
      ensures index.None? ==> r == Err(InvalidArgument(NullSelectionMessage))
      ensures index.Some? ==> r.Ok? && fresh(r.value) && r.value.Valid()
      ensures index.Some? ==> r.value.top == SelectedTop(index.value)
      ensures index.Some? ==> r.value.bottom == SelectedBottom(index.value)
      ensures index.Some? ==> r.value.GetTotalRows() == 0
    {
      if index.None? {
        return Err(InvalidArgument(NullSelectionMessage));
      }
      var e := new SelectionChangedEvent.OfSelected(index.value);
      r := Ok(e);
    }

    /** `ofTotalRows(n)`: rejects a negative count; otherwise records it in
        place and returns this same event. The selection itself is untouched. */
    method OfTotalRows(totalNumberOfRows: Int32) returns (r: Result<SelectionChangedEvent>)
      requires Valid()
      modifies this
      ensures Valid()
      ensures totalNumberOfRows < 0 ==> r == Err(InvalidArgument(NegativeRowsMessage)) && unchanged(this)
      ensures 0 <= totalNumberOfRows ==> r == Ok(this) && GetTotalRows() == totalNumberOfRows
      ensures top == old(top) && bottom == old(bottom)
      ensures IsClearSelection() == old(IsClearSelection())
      ensures IsSingleSelection() == old(IsSingleSelection())
      ensures CanMove(Up) == old(CanMove(Up))
    {
      if totalNumberOfRows < 0 {
        return Err(InvalidArgument(NegativeRowsMessage));
      }
      totalRows := totalNumberOfRows;
      r := Ok(this);
    }
  }

  /** A selection built from the indices `s` is cleared exactly when `s` is empty. */
  lemma SelectedClearIffEmpty(e: SelectionChangedEvent, s: seq<Int32>)
    requires e.top == SelectedTop(s) && e.bottom == SelectedBottom(s)
    ensures e.IsClearSelection() <==> s == []
  {
  }

  /** A selection built from `s` is a single selection exactly when `s` names
      one index (possibly repeated) and that index is not below -1. */
  lemma SelectedSingleIff(e: SelectionChangedEvent, s: seq<Int32>)
    requires e.top == SelectedTop(s) && e.bottom == SelectedBottom(s)
    ensures e.IsSingleSelection() <==>
              s != [] && NoBottom <= s[0] && forall i :: 0 <= i < |s| ==> s[i] == s[0]
  {
  }

  /** A selection built from `s` can move up exactly when no selected row is the first one. */
  lemma SelectedCanMoveUpIff(e: SelectionChangedEvent, s: seq<Int32>)
    requires e.top == SelectedTop(s) && e.bottom == SelectedBottom(s)
    ensures e.CanMove(Up) <==> s != [] && forall i :: 0 <= i < |s| ==> 0 < s[i]
  {
  }

  /** A selection built from `s` can move down exactly when the table has rows
      and every selected row has a row below it. */
  lemma SelectedCanMoveDownIff(e: SelectionChangedEvent, s: seq<Int32>)
    requires e.top == SelectedTop(s) && e.bottom == SelectedBottom(s)
    ensures e.CanMove(Down) <==>
              s != [] && 0 < e.totalRows && forall i :: 0 <= i < |s| ==> s[i] < e.totalRows - 1
  {
  }

  /** `select` of an empty collection answers every query as
      `clearSelectionEvent()` does, whatever row counts the two carry. */
  lemma EmptySelectionIsClearSelection(e: SelectionChangedEvent, c: SelectionChangedEvent)
    requires e.top == SelectedTop([]) && e.bottom == SelectedBottom([])
    requires c.top == IntMax && c.bottom == NoBottom
    ensures e.IsClearSelection() && c.IsClearSelection()
    ensures !e.IsSingleSelection() && !c.IsSingleSelection()
    ensures forall t: MoveType :: !e.CanMove(t) && !c.CanMove(t)
  {
  }

  /** A cleared selection cannot move, whatever the row count. */
  lemma ClearedNeverMoves(e: SelectionChangedEvent, t: MoveType)
    requires e.IsClearSelection()
    ensures !e.CanMove(t)
  {
  }

  /** The range depends only on which indices are selected, not on their order
      or repetition in the collection. */
  lemma SelectIgnoresOrder(s: seq<Int32>, t: seq<Int32>)
    requires forall x :: x in s <==> x in t
    ensures SelectedTop(s) == SelectedTop(t)
    ensures SelectedBottom(s) == SelectedBottom(t)
  {
  }

  /** For row indices (never negative) the range is exactly the least and the
      greatest selected row. */
  lemma SelectedRowRange(s: seq<Int32>)
    requires s != [] && forall i :: 0 <= i < |s| ==> 0 <= s[i]
    ensures 0 <= SelectedTop(s) <= SelectedBottom(s)
    ensures SelectedTop(s) in s && SelectedBottom(s) in s
  {
  }

  /** Indices below -1 never reach `bottom`, which stays at its initial -1. */
  lemma SelectedBottomFloor(s: seq<Int32>)
    requires s != [] && forall i :: 0 <= i < |s| ==> s[i] < NoBottom
    ensures SelectedBottom(s) == NoBottom && SelectedBottom(s) !in s
    ensures SelectedTop(s) < SelectedBottom(s)
  {
  }

  /** Selections a table controller makes, and the answers it gets. */
  method SelectionScenarios()
  {
    var cleared := SelectionChangedEvent.ClearSelectionEvent();
    var _ := cleared.OfTotalRows(10);
    assert cleared.IsClearSelection() && !cleared.CanMove(Up) && !cleared.CanMove(Down);

    var r := SelectionChangedEvent.Select(Some([3]));
    var e := r.value;
    assert e.top == 3 && e.bottom == 3 && e.IsSingleSelection();

    r := SelectionChangedEvent.Select(Some([2, 5, 7]));
    e := r.value;
    assert e.top == 2 && e.bottom == 7 && !e.IsSingleSelection();

    r := SelectionChangedEvent.Select(Some([4]));
    e := r.value;
    r := e.OfTotalRows(10);
    assert e.CanMove(Down) && e.CanMove(Up);
    r := e.OfTotalRows(5);
    assert !e.CanMove(Down);
    r := e.OfTotalRows(-1);
    assert r.Err? && e.GetTotalRows() == 5;

    r := SelectionChangedEvent.Select(Some([0]));
    e := r.value;
    r := e.OfTotalRows(5);
    assert !e.CanMove(Up);

    r := SelectionChangedEvent.Select(Some([]));
    e := r.value;
    assert e.IsClearSelection() && !e.IsSingleSelection();
    r := e.OfTotalRows(10);
    assert !e.CanMove(Up) && !e.CanMove(Down) && e.GetTotalRows() == 10;

    r := SelectionChangedEvent.Select(None);
    assert r.Err?;
  }
}
