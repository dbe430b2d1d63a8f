/**
 * The `DataTable` component as a controller object: its props are constant fields, its two
 * state cells (`sort`, `selected`) are mutable fields, and each event handler is a method that
 * performs one atomic state transition. A call of `onRowSelect` is returned as `Some(rows)`.
 */
module Table {
  import opened Options
  import opened CellValues
  import opened RowKeys
  import opened SortEngine
  import opened SelectionEngine

  function Flip(order: Order): Order
  {
    if order == Asc then Desc else Asc
  }

  /**
   * The sort state after a click on `col`'s header: unchanged for a column that cannot be
   * sorted; ascending on a column other than the current one; the other direction on the
   * current one.
   */
  function NextSort(prev: Option<SortState>, col: Column): (next: Option<SortState>)
    ensures !col.sortable ==> next == prev
    ensures col.sortable ==> next.Some? && next.value.key == col.key
    ensures col.sortable && (prev.None? || prev.value.key != col.key) ==> next.value.order == Asc
    ensures col.sortable && prev.Some? && prev.value.key == col.key ==> next.value.order != prev.value.order
  {
    if !col.sortable then prev
    else if prev.None? || prev.value.key != col.key then Some(SortState(col.key, Asc))
    else Some(SortState(col.key, Flip(prev.value.order)))
  }

  /** The sort state after `n` clicks on the header of `col`, starting from another state. */
  ghost function SortAfterClicks(start: Option<SortState>, col: Column, n: nat): Option<SortState>
  {
    if n == 0 then start else NextSort(SortAfterClicks(start, col, n - 1), col)
  }

  /**
   * Repeated clicks on a sortable header, starting from no sort or a sort on another column,
   * cycle ascending, descending, ascending, ...
   */
  lemma {:induction false} SortClickCycle(start: Option<SortState>, col: Column, n: nat)
    requires col.sortable && n > 0
    requires start.None? || start.value.key != col.key
    ensures SortAfterClicks(start, col, n) == Some(SortState(col.key, if n % 2 == 1 then Asc else Desc))
  {
    if n > 1 {
      SortClickCycle(start, col, n - 1);
    }
  }

  /** Two clicks on the header of the current sort column restore the sort state. */
  lemma ToggleSortTwice(prev: Option<SortState>, col: Column)
    requires prev.Some? && prev.value.key == col.key
    ensures NextSort(NextSort(prev, col), col) == prev
  {
  }

  class DataTable {
    const data: seq<Row>
    const columns: seq<Column>
    const selectable: bool
    const mode: SelectionMode
    const rowKey: KeySpec
    var sort: Option<SortState>
    var selected: set<Value>

    /** A freshly mounted table: no sort and nothing selected. */
    constructor (data: seq<Row>, columns: seq<Column>, selectable: bool, mode: SelectionMode, rowKey: KeySpec)
      ensures this.data == data && this.columns == columns && this.selectable == selectable
      ensures this.mode == mode && this.rowKey == rowKey
      ensures sort == None && selected == {}
    {
      this.data := data;
      this.columns := columns;
      this.selectable := selectable;
      this.mode := mode;
      this.rowKey := rowKey;
      sort := None;
      selected := {};
    }

    /** `sortedData`, the rows in display order. */
    function SortedView(): (view: seq<Row>)
      reads this
      ensures multiset(view) == multiset(data)
      ensures sort.None? || FindColumn(columns, sort.value.key).None? ==> view == data
    {
      SortedData(data, columns, sort)
    }

    /** `selected.has(getRowKey(row, i, rowKey))`, the per-row check mark. */
    predicate IsRowSelected(row: Row, i: nat): (checked: bool)
      reads this
      ensures PositionKeyed(rowKey) ==> (checked <==> Num(i) in selected)
      ensures rowKey.ByField? && rowKey.name != "" ==> (checked <==> FieldValue(row, rowKey.name) in selected)
      ensures rowKey.ByFunction? ==> (checked <==> rowKey.f(row) in selected)
    {
      GetRowKey(row, i, rowKey) in selected
    }

    /** The header check box's `checked` state. */
    predicate IsAllSelected(): (all: bool)
      reads this
      ensures all ==> selectable && SortedView() != [] && selected != {}
    {
      AllSelected(selectable, SortedView(), rowKey, selected)
    }

    /** The header check box's indeterminate state; never set together with `IsAllSelected`. */
    predicate IsSomeSelected(): (some: bool)
      reads this
      ensures some ==> selected != {} && !IsAllSelected()
    {
      SomeSelected(selectable, SortedView(), rowKey, selected)
    }

    /** `toggleSort(col)`. */
    method ToggleSort(col: Column)
      modifies this`sort
      ensures sort == NextSort(old(sort), col)
    {
      if !col.sortable {
        return;
      }
      if sort.None? || sort.value.key != col.key {
        sort := Some(SortState(col.key, Asc));
      } else {
        sort := Some(SortState(col.key, if sort.value.order == Asc then Desc else Asc));
      }
    }

    /**
     * `toggleRow(row, idx)`: nothing happens unless the table is selectable; otherwise the
     * selection becomes the next selection for the row's key and the rows of the sorted view
     * whose keys are in it are reported.
     */
    method ToggleRow(row: Row, idx: nat) returns (emitted: Option<seq<Row>>)
      modifies this`selected
      ensures !selectable ==> selected == old(selected) && emitted == None
      ensures selectable ==> selected == NextSelection(old(selected), mode, GetRowKey(row, idx, rowKey))
      ensures selectable ==> emitted == Some(SelectedRows(SortedView(), rowKey, selected))
    {
      if !selectable {
        return None;
      }
      var key := GetRowKey(row, idx, rowKey);
      var next := selected;
      if mode == Single {
        next := {};
        next := next + {key};
      } else if key in next {
        next := next - {key};
      } else {
        next := next + {key};
      }
      emitted := Some(SelectedRows(SortedView(), rowKey, next));
      selected := next;
    }

    /**
     * `toggleAll()`: when everything is selected the selection is cleared and nothing is
     * reported; otherwise exactly the keys of the sorted view are selected (keys outside the
     * view are dropped) and the whole view is reported, which for an empty view is the empty
     * list. Whatever is reported is the filter of the view by the new selection.
     */
    method ToggleAll() returns (emitted: Option<seq<Row>>)
      modifies this`selected
      ensures !selectable ==> selected == old(selected) && emitted == None
      ensures selectable && old(IsAllSelected()) ==> selected == {} && emitted == None
      ensures selectable && !old(IsAllSelected()) ==>
        selected == ViewKeys(SortedView(), rowKey) && emitted == Some(SortedView())
      ensures emitted.Some? ==> emitted.value == SelectedRows(SortedView(), rowKey, selected)
    {
      if !selectable {
        return None;
      }
      if IsAllSelected() {
        selected := {};
        return None;
      }
      var next := CollectKeys(SortedView(), rowKey);
      SelectedRowsAll(SortedView(), rowKey, next);
      emitted := Some(SortedView());
      selected := next;
    }

    /** The "Clear selection" button: empties the selection and reports nothing. */
    method ClearSelection()
      modifies this`selected
      ensures selected == {}
    {
      selected := {};
    }
  }

  /**
   * Re-sorting never changes the selection, and with a key that does not depend on position
   * a selected row stays selected wherever it is displayed afterwards.
   */
  method SortKeepsSelection(t: DataTable, col: Column, row: Row, i: nat, j: nat)
    requires !PositionKeyed(t.rowKey) && t.IsRowSelected(row, i)
    modifies t
    ensures t.selected == old(t.selected)
    ensures t.IsRowSelected(row, j)
  {
    t.ToggleSort(col);
    RowKeyIgnoresPosition(row, i, j, t.rowKey);
  }

  /**
   * Select-all twice on a selectable table with rows: the first call reports the whole view
   * and sets the all-selected flag, the second clears the selection without reporting.
   */
  method SelectAllTwice(t: DataTable) returns (first: Option<seq<Row>>, second: Option<seq<Row>>)
    requires t.selectable && t.SortedView() != [] && !t.IsAllSelected()
    modifies t
    ensures first == Some(t.SortedView())
    ensures second == None && t.selected == {}
  {
    first := t.ToggleAll();
    SelectAllSetsFlag(t.SortedView(), t.rowKey);
    second := t.ToggleAll();
  }

  /** Select-all on an empty table leaves the selection empty and reports an empty list. */
  method SelectAllOnEmpty(t: DataTable) returns (emitted: Option<seq<Row>>)
    requires t.selectable && t.data == []
    modifies t
    ensures t.selected == {} && emitted == Some([])
  {
    emitted := t.ToggleAll();
  }

  /**
   * The component's selection test: rows with ids 1, 2, 3 keyed by "id" in multiple mode;
   * checking the first two rows reports those two rows, in order.
   */
  method SelectsMultipleRows(data: seq<Row>, columns: seq<Column>) returns (emitted: Option<seq<Row>>)
    requires |data| == 3
    requires FieldValue(data[0], "id") == Num(1)
    requires FieldValue(data[1], "id") == Num(2)
    requires FieldValue(data[2], "id") == Num(3)
    ensures emitted == Some([data[0], data[1]])
  {
    var t := new DataTable(data, columns, true, Multiple, ByField("id"));
    emitted := t.ToggleRow(data[0], 0);
    emitted := t.ToggleRow(data[1], 1);
    SelectTwoRowsExample(data);
  }
}
