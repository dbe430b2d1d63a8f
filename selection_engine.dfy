/**
 * Row selection (`toggleRow`, `allSelected`, `someSelected`, `toggleAll` in DataTable.tsx):
 * the next selection set, the rows reported to `onRowSelect`, and the header flags.
 */
module SelectionEngine {
  import opened CellValues
  import opened RowKeys

  datatype SelectionMode = Single | Multiple

  /**
   * The set `toggleRow` builds from the previous selection: exactly `{key}` in single mode
   * (even when `key` was already selected), and `key` flipped in multiple mode.
   */
  function NextSelection(prev: set<Value>, mode: SelectionMode, key: Value): (next: set<Value>)
    ensures mode == Single ==> next == {key}
    ensures mode == Multiple ==> (key in next <==> key !in prev)
    ensures mode == Multiple ==> forall k :: k != key ==> (k in next <==> k in prev)
  {
    if mode == Single then {key}
    else if key in prev then prev - {key}
    else prev + {key}
  }

  /** In multiple mode, toggling the same key twice restores the selection. */
  lemma ToggleTwiceRestores(prev: set<Value>, key: Value)
    ensures NextSelection(NextSelection(prev, Multiple, key), Multiple, key) == prev
  {
    var once := NextSelection(prev, Multiple, key);
    var twice := NextSelection(once, Multiple, key);
    forall k ensures k in twice <==> k in prev { }
  }

  /** In single mode the selection is the last toggled key alone, whatever it held before. */
  lemma SingleModeExclusive(prev: set<Value>, a: Value, b: Value)
    ensures NextSelection(NextSelection(prev, Single, a), Single, b) == {b}
    ensures |NextSelection(prev, Single, a)| == 1
  {
  }

  /**
   * `view.filter((r, i) => sel.has(getRowKey(r, i, rowKey)))`, written from the last row
   * backwards so that every row keeps its position in `view`.
   */
  function SelectedRows(view: seq<Row>, spec: KeySpec, sel: set<Value>): (r: seq<Row>)
    ensures |r| <= |view|
    decreases |view|
  {
    if view == [] then []
    else
      var n := |view| - 1;
      SelectedRows(view[..n], spec, sel) + (if GetRowKey(view[n], n, spec) in sel then [view[n]] else [])
  }

  /** The positions in `view` that the filter keeps. */
  ghost function SelectedPositions(view: seq<Row>, spec: KeySpec, sel: set<Value>): (ps: seq<nat>)
    ensures forall m :: 0 <= m < |ps| ==> ps[m] < |view|
    ensures forall m, n :: 0 <= m < n < |ps| ==> ps[m] < ps[n]
    ensures forall i :: 0 <= i < |view| ==> (i in ps <==> GetRowKey(view[i], i, spec) in sel)
    decreases |view|
  {
    if view == [] then []
    else
      var n := |view| - 1;
      var front := SelectedPositions(view[..n], spec, sel);
      assert forall i :: 0 <= i < n ==> view[..n][i] == view[i];
      front + (if GetRowKey(view[n], n, spec) in sel then [n] else [])
  }

  /**
   * The rows reported after a toggle are the rows of the view whose identity is selected,
   * each once, in view order: the m-th reported row is the view's row at the m-th kept position.
   */
  lemma {:induction false} SelectedRowsInViewOrder(view: seq<Row>, spec: KeySpec, sel: set<Value>)
    ensures var ps := SelectedPositions(view, spec, sel);
      var r := SelectedRows(view, spec, sel);
      |r| == |ps| && forall m :: 0 <= m < |r| ==> r[m] == view[ps[m]]
    decreases |view|
  {
    if view != [] {
      var n := |view| - 1;
      SelectedRowsInViewOrder(view[..n], spec, sel);
      var ps := SelectedPositions(view[..n], spec, sel);
      forall m | 0 <= m < |ps| ensures view[..n][ps[m]] == view[ps[m]] { }
    }
  }

  /** When every identity of the view is selected, the filter returns the whole view. */
  lemma {:induction false} SelectedRowsAll(view: seq<Row>, spec: KeySpec, sel: set<Value>)
    requires ViewKeys(view, spec) <= sel
    ensures SelectedRows(view, spec, sel) == view
    decreases |view|
  {
    if view != [] {
      var n := |view| - 1;
      var front := view[..n];
      forall v | v in ViewKeys(front, spec) ensures v in sel {
        var i :| 0 <= i < |front| && GetRowKey(front[i], i, spec) == v;
        assert front[i] == view[i];
      }
      SelectedRowsAll(front, spec, sel);
      assert GetRowKey(view[n], n, spec) in ViewKeys(view, spec);
      assert view == front + [view[n]];
    }
  }

  /** With no identity of the view selected, the filter returns nothing. */
  lemma {:induction false} SelectedRowsNone(view: seq<Row>, spec: KeySpec, sel: set<Value>)
    requires ViewKeys(view, spec) * sel == {}
    ensures SelectedRows(view, spec, sel) == []
    decreases |view|
  {
    if view != [] {
      var n := |view| - 1;
      var front := view[..n];
      forall v | v in ViewKeys(front, spec) ensures v !in sel {
        var i :| 0 <= i < |front| && GetRowKey(front[i], i, spec) == v;
        assert front[i] == view[i];
        assert GetRowKey(view[i], i, spec) in ViewKeys(view, spec);
        assert v !in ViewKeys(view, spec) * sel;
      }
      SelectedRowsNone(front, spec, sel);
      var last := GetRowKey(view[n], n, spec);
      assert last in ViewKeys(view, spec);
      assert last !in ViewKeys(view, spec) * sel;
    }
  }

  /** The `forEach` loop of `toggleAll`: the identities of every row of the view. */
  method CollectKeys(view: seq<Row>, spec: KeySpec) returns (keys: set<Value>)
    ensures keys == ViewKeys(view, spec)
  {
    keys := {};
    var i := 0;
    while i < |view|
      invariant 0 <= i <= |view|
      invariant keys == set j | 0 <= j < i :: GetRowKey(view[j], j, spec)
    {
      keys := keys + {GetRowKey(view[i], i, spec)};
      i := i + 1;
    }
  }

  /** `allSelected`: selectable, a non-empty view, and every row's identity selected. */
  predicate AllSelected(selectable: bool, view: seq<Row>, spec: KeySpec, sel: set<Value>): (all: bool)
    ensures all ==> selectable && view != [] && sel != {}
    ensures all ==> forall i :: 0 <= i < |view| ==> GetRowKey(view[i], i, spec) in sel
  {
    if selectable && |view| > 0 && forall i :: 0 <= i < |view| ==> GetRowKey(view[i], i, spec) in sel then
      assert GetRowKey(view[0], 0, spec) in sel;
      true
    else
      false
  }

  /** `someSelected`: something is selected, but not all of the view. */
  predicate SomeSelected(selectable: bool, view: seq<Row>, spec: KeySpec, sel: set<Value>): (some: bool)
    ensures some <==>
      sel != {} && (!selectable || view == [] || exists i :: 0 <= i < |view| && GetRowKey(view[i], i, spec) !in sel)
  {
    |sel| > 0 && !AllSelected(selectable, view, spec, sel)
  }

  /** The all-selected flag holds exactly when the table is selectable, the view is non-empty and its identities are all selected. */
  lemma AllSelectedIffCovered(selectable: bool, view: seq<Row>, spec: KeySpec, sel: set<Value>)
    ensures AllSelected(selectable, view, spec, sel) <==> selectable && view != [] && ViewKeys(view, spec) <= sel
  {
    if selectable && view != [] && ViewKeys(view, spec) <= sel {
      forall i | 0 <= i < |view| ensures GetRowKey(view[i], i, spec) in sel {
        assert GetRowKey(view[i], i, spec) in ViewKeys(view, spec);
      }
    }
  }

  /**
   * The two header flags: never both set; partial selection implies a non-empty set; with an
   * empty selection neither flag is set.
   */
  lemma FlagsConsistent(selectable: bool, view: seq<Row>, spec: KeySpec, sel: set<Value>)
    ensures !(AllSelected(selectable, view, spec, sel) && SomeSelected(selectable, view, spec, sel))
    ensures SomeSelected(selectable, view, spec, sel) ==> sel != {}
    ensures sel == {} ==> !AllSelected(selectable, view, spec, sel) && !SomeSelected(selectable, view, spec, sel)
  {
    if sel == {} && selectable && |view| > 0 {
      assert GetRowKey(view[0], 0, spec) !in sel;
    }
  }

  /** Selecting every identity of the view sets the all-selected flag exactly when the view is non-empty. */
  lemma SelectAllSetsFlag(view: seq<Row>, spec: KeySpec)
    ensures AllSelected(true, view, spec, ViewKeys(view, spec)) <==> view != []
  {
    AllSelectedIffCovered(true, view, spec, ViewKeys(view, spec));
  }

  /**
   * Select-all has no mode guard of its own: on a two-row table keyed by position it selects
   * two keys, a state no single-mode row toggle produces.
   */
  lemma SelectAllSelectsSeveral(view: seq<Row>)
    requires |view| == 2
    ensures ViewKeys(view, NoKey) == {Num(0), Num(1)}
    ensures |NextSelection(ViewKeys(view, NoKey), Single, Num(0))| == 1
  {
    assert GetRowKey(view[0], 0, NoKey) == Num(0);
    assert GetRowKey(view[1], 1, NoKey) == Num(1);
  }

  /**
   * The component's test: rows with ids 1, 2, 3 keyed by "id"; selecting the first two rows
   * reports the first two rows, in view order.
   */
  lemma SelectTwoRowsExample(view: seq<Row>)
    requires |view| == 3
    requires FieldValue(view[0], "id") == Num(1)
    requires FieldValue(view[1], "id") == Num(2)
    requires FieldValue(view[2], "id") == Num(3)
    ensures NextSelection(NextSelection({}, Multiple, Num(1)), Multiple, Num(2)) == {Num(1), Num(2)}
    ensures SelectedRows(view, ByField("id"), {Num(1), Num(2)}) == [view[0], view[1]]
  {
    var sel, spec := {Num(1), Num(2)}, ByField("id");
    assert GetRowKey(view[0], 0, spec) in sel;
    assert GetRowKey(view[1], 1, spec) in sel;
    assert GetRowKey(view[2], 2, spec) !in sel;
    var p1, p2 := view[..1], view[..2];
    assert p1[..0] == [];
    assert SelectedRows(p1, spec, sel) == [view[0]];
    assert p2[..1] == p1;
    assert SelectedRows(p2, spec, sel) == [view[0], view[1]];
    assert view[..2] == p2;
  }
}
