/**
 * Concrete sorts: the rows of the component's test suite sorted by name, and a column with
 * missing values sorted ascending.
 */
module SortExamples {
  import opened Options
  import opened CellValues
  import opened RowKeys
  import opened SortEngine

  lemma ThreeSorted(a: Entry, b: Entry, c: Entry, field: string, order: Order)
    requires SortCompare(a, b, field, order) < 0 && SortCompare(b, c, field, order) < 0
    requires SortCompare(a, c, field, order) < 0
    ensures StrictlySorted([a, b, c], field, order)
  {
  }

  lemma ThreePermuted(data: seq<Row>)
    requires |data| == 3
    ensures multiset([Entry(data[1], 1), Entry(data[2], 2), Entry(data[0], 0)]) == multiset(Decorate(data))
  {
    assert Decorate(data) == [Entry(data[0], 0), Entry(data[1], 1), Entry(data[2], 2)];
  }

  /** Rows named C, A, B sort by name to A, B, C, i.e. input positions 1, 2, 0. */
  lemma SortByNameExample(data: seq<Row>)
    requires |data| == 3
    requires FieldValue(data[0], "name") == Str("C")
    requires FieldValue(data[1], "name") == Str("A")
    requires FieldValue(data[2], "name") == Str("B")
    ensures SortEntries(Decorate(data), "name", Asc) == [Entry(data[1], 1), Entry(data[2], 2), Entry(data[0], 0)]
  {
    var e0, e1, e2 := Entry(data[0], 0), Entry(data[1], 1), Entry(data[2], 2);
    var es := [e1, e2, e0];
    ThreePermuted(data);
    assert SortCompare(e1, e2, "name", Asc) < 0;
    assert SortCompare(e2, e0, "name", Asc) < 0;
    assert SortCompare(e1, e0, "name", Asc) < 0;
    ThreeSorted(e1, e2, e0, "name", Asc);
    AnySortAgrees(data, "name", Asc, es);
  }

  /** The sorted view sorts by the column's field when the sort key names a column. */
  lemma SortedByColumn(data: seq<Row>, columns: seq<Column>, key: string, order: Order)
    requires FindColumn(columns, key).Some?
    ensures SortedData(data, columns, Some(SortState(key, order)))
         == Rows(SortEntries(Decorate(data), FindColumn(columns, key).value.dataIndex, order))
  {
  }

  /**
   * The component's sort test: rows named C, A, B with a "name" and an "age" column; after a
   * click on the name header the sorted view shows A, B, C.
   */
  lemma SortByNameTest(data: seq<Row>, columns: seq<Column>)
    requires |data| == 3
    requires FieldValue(data[0], "name") == Str("C")
    requires FieldValue(data[1], "name") == Str("A")
    requires FieldValue(data[2], "name") == Str("B")
    requires columns == [Column("name", "name", true), Column("age", "age", true)]
    ensures SortedData(data, columns, Some(SortState("name", Asc))) == [data[1], data[2], data[0]]
  {
    NameColumnFound(columns);
    SortedByColumn(data, columns, "name", Asc);
    SortByNameExample(data);
    RowsOfThree(Entry(data[1], 1), Entry(data[2], 2), Entry(data[0], 0));
  }

  lemma NameColumnFound(columns: seq<Column>)
    requires columns == [Column("name", "name", true), Column("age", "age", true)]
    ensures FindColumn(columns, "name") == Some(Column("name", "name", true))
  {
  }

  lemma RowsOfThree(a: Entry, b: Entry, c: Entry)
    ensures Rows([a, b, c]) == [a.row, b.row, c.row]
  {
  }

  lemma FourSorted(a: Entry, b: Entry, c: Entry, d: Entry, field: string, order: Order)
    requires SortCompare(a, b, field, order) < 0 && SortCompare(b, c, field, order) < 0
    requires SortCompare(c, d, field, order) < 0 && SortCompare(a, c, field, order) < 0
    requires SortCompare(a, d, field, order) < 0 && SortCompare(b, d, field, order) < 0
    ensures StrictlySorted([a, b, c, d], field, order)
  {
  }

  /** The example column holds only missing values and numbers. */
  lemma NullsColumnComparable(data: seq<Row>)
    requires |data| == 4
    requires FieldValue(data[0], "v") == Null && FieldValue(data[1], "v") == Num(5)
    requires FieldValue(data[2], "v") == Null && FieldValue(data[3], "v") == Num(2)
    ensures ComparableColumn(data, "v")
  {
    forall j, k | 0 <= j < 4 && 0 <= k < 4
      ensures Compatible(FieldValue(data[j], "v"), FieldValue(data[k], "v"))
    {
      assert FieldValue(data[j], "v").Null? || FieldValue(data[j], "v").Num?;
      assert FieldValue(data[k], "v").Null? || FieldValue(data[k], "v").Num?;
    }
  }

  lemma FourPermuted(data: seq<Row>)
    requires |data| == 4
    ensures multiset([Entry(data[0], 0), Entry(data[2], 2), Entry(data[3], 3), Entry(data[1], 1)])
         == multiset(Decorate(data))
  {
    assert Decorate(data) == [Entry(data[0], 0), Entry(data[1], 1), Entry(data[2], 2), Entry(data[3], 3)];
  }

  /** Values null, 5, null, 2 sort ascending to null, null, 2, 5; the two nulls keep their order. */
  lemma NullsFirstExample(data: seq<Row>)
    requires |data| == 4
    requires FieldValue(data[0], "v") == Null && FieldValue(data[1], "v") == Num(5)
    requires FieldValue(data[2], "v") == Null && FieldValue(data[3], "v") == Num(2)
    ensures SortEntries(Decorate(data), "v", Asc)
         == [Entry(data[0], 0), Entry(data[2], 2), Entry(data[3], 3), Entry(data[1], 1)]
  {
    var e0, e1, e2, e3 := Entry(data[0], 0), Entry(data[1], 1), Entry(data[2], 2), Entry(data[3], 3);
    FourPermuted(data);
    NullsColumnComparable(data);
    FourSorted(e0, e2, e3, e1, "v", Asc);
    AnySortAgrees(data, "v", Asc, [e0, e2, e3, e1]);
  }
}
