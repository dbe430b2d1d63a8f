/**
 * Rows and row identity (`getRowKey` in DataTable.tsx).
 *
 * A row is a record from field names to cell values; a field the row does not have reads as
 * `undefined`, i.e. `Null`. A row identity is a cell value: JavaScript sets compare numbers and
 * strings without conversion, exactly as `Value` equality does.
 */
module RowKeys {
  import opened CellValues

  type Row = map<string, Value>

  /** `row[field]`. */
  function FieldValue(row: Row, field: string): Value
  {
    if field in row then row[field] else Null
  }

  /** The `rowKey` prop: absent, the name of a field, or a function of the row. */
  datatype KeySpec = NoKey | ByField(name: string) | ByFunction(f: Row -> Value)

  /** True when `getRowKey` falls back to the position: no spec, or the empty (falsy) field name. */
  predicate PositionKeyed(spec: KeySpec)
  {
    spec.NoKey? || (spec.ByField? && spec.name == "")
  }

  /**
   * `getRowKey(row, idx, rowKey)`: the position when no usable `rowKey` is given, the
   * function's result when it is a function, and the named field otherwise.
   */
  function GetRowKey(row: Row, idx: nat, spec: KeySpec): (k: Value)
    ensures PositionKeyed(spec) ==> k == Num(idx)
    ensures spec.ByFunction? ==> k == spec.f(row)
    ensures spec.ByField? && spec.name != "" ==> k == FieldValue(row, spec.name)
  {
    if PositionKeyed(spec) then Num(idx)
    else match spec
      case ByFunction(f) => f(row)
      case ByField(name) => FieldValue(row, name)
  }

  /** Unless the key is positional, a row has the same identity wherever it is displayed. */
  lemma RowKeyIgnoresPosition(row: Row, i: nat, j: nat, spec: KeySpec)
    requires !PositionKeyed(spec)
    ensures GetRowKey(row, i, spec) == GetRowKey(row, j, spec)
  {
  }

  /** With a positional key, the same row gets different identities at different positions. */
  lemma PositionKeyFollowsPosition(row: Row, i: nat, j: nat, spec: KeySpec)
    requires PositionKeyed(spec) && i != j
    ensures GetRowKey(row, i, spec) != GetRowKey(row, j, spec)
  {
  }

  /** The identities of the rows of a displayed view, each resolved against its position in it. */
  function ViewKeys(view: seq<Row>, spec: KeySpec): set<Value>
  {
    set i | 0 <= i < |view| :: GetRowKey(view[i], i, spec)
  }

  /** With positional keys the identities of a view are exactly the numbers 0 .. |view| - 1. */
  lemma ViewKeysPositional(view: seq<Row>, spec: KeySpec)
    requires PositionKeyed(spec)
    ensures forall v: Value :: v in ViewKeys(view, spec) <==> v.Num? && 0 <= v.n < |view|
  {
    forall v: Value | v.Num? && 0 <= v.n < |view|
      ensures v in ViewKeys(view, spec)
    {
      assert GetRowKey(view[v.n], v.n, spec) == v;
    }
  }
}
