/**
 * The sorted view (`sortedData` in DataTable.tsx): rows are decorated with their position,
 * sorted by the selected column with ties broken by position, and undecorated again.
 *
 * `Array.prototype.sort` is modelled by an insertion sort on the decorated entries. For a
 * column that does not mix numbers with strings the tie-broken comparator is a strict total
 * order, and `SortedIsUnique` shows that every correct sort yields the same sequence.
 */
module SortEngine {
  import opened Options
  import opened CellValues
  import opened RowKeys

  datatype Order = Asc | Desc

  /** The `sort` state cell when it is not `null`: the column key and the direction. */
  datatype SortState = SortState(key: string, order: Order)

  /** A column descriptor, reduced to what ordering and sorting read. */
  datatype Column = Column(key: string, dataIndex: string, sortable: bool)

  /** `columns.find((c) => c.key === key)`: the first column with that key, if any. */
  function FindColumn(columns: seq<Column>, key: string): (r: Option<Column>)
    ensures r.None? <==> forall k :: 0 <= k < |columns| ==> columns[k].key != key
    ensures r.Some? ==> r.value.key == key
    ensures r.Some? ==> exists k :: 0 <= k < |columns| && columns[k] == r.value &&
                                    forall j :: 0 <= j < k ==> columns[j].key != key
  {
    if columns == [] then None
    else if columns[0].key == key then Some(columns[0])
    else
      var r := FindColumn(columns[1..], key);
      if r.Some? then
        ghost var k :| 0 <= k < |columns[1..]| && columns[1..][k] == r.value &&
          forall j :: 0 <= j < k ==> columns[1..][j].key != key;
        assert columns[k + 1] == r.value;
        r
      else r
  }

  /** `dir` in the source: 1 for ascending, -1 for descending. */
  function Dir(order: Order): (d: int)
    ensures d == 1 || d == -1
    ensures d == 1 <==> order == Asc
  {
    if order == Asc then 1 else -1
  }

  /** A row together with its position in the input, `{ row, i }` in the source. */
  datatype Entry = Entry(row: Row, i: nat)

  function Decorate(data: seq<Row>): (es: seq<Entry>)
    ensures |es| == |data|
    ensures forall k :: 0 <= k < |es| ==> es[k] == Entry(data[k], k)
  {
    seq(|data|, k requires 0 <= k < |data| => Entry(data[k], k))
  }

  /** `.map((x) => x.row)`. */
  function Rows(es: seq<Entry>): (rows: seq<Row>)
    ensures |rows| == |es|
  {
    seq(|es|, k requires 0 <= k < |es| => es[k].row)
  }

  lemma RowsCons(x: Entry, t: seq<Entry>)
    ensures Rows([x] + t) == [x.row] + Rows(t)
  {
  }

  lemma {:induction false} InsertRows(e: Entry, s: seq<Entry>, field: string, order: Order)
    ensures multiset(Rows(Insert(e, s, field, order))) == multiset(Rows(s)) + multiset{e.row}
  {
    if s == [] {
    } else if SortCompare(e, s[0], field, order) <= 0 {
      RowsCons(e, s);
    } else {
      var t := Insert(e, s[1..], field, order);
      assert Insert(e, s, field, order) == [s[0]] + t;
      InsertRows(e, s[1..], field, order);
      RowsCons(s[0], t);
      RowsCons(s[0], s[1..]);
      calc {
        multiset(Rows([s[0]] + t));
        multiset([s[0].row] + Rows(t));
        multiset{s[0].row} + multiset(Rows(t));
        multiset{s[0].row} + multiset(Rows(s[1..])) + multiset{e.row};
        multiset([s[0].row] + Rows(s[1..])) + multiset{e.row};
        { assert s == [s[0]] + s[1..]; }
        multiset(Rows(s)) + multiset{e.row};
      }
    }
  }

  /** Undecorating the sorted entries gives a permutation of the undecorated input. */
  lemma {:induction false} SortRows(es: seq<Entry>, field: string, order: Order)
    ensures multiset(Rows(SortEntries(es, field, order))) == multiset(Rows(es))
  {
    if es != [] {
      SortRows(es[1..], field, order);
      InsertRows(es[0], SortEntries(es[1..], field, order), field, order);
      RowsCons(es[0], es[1..]);
      assert es == [es[0]] + es[1..];
    }
  }

  function Val(e: Entry, field: string): Value
  {
    FieldValue(e.row, field)
  }

  /** The comparator passed to `sort`: by column value in the chosen direction, ties by position. */
  function SortCompare(a: Entry, b: Entry, field: string, order: Order): (r: int)
    ensures Compare(Val(a, field), Val(b, field)) == 0 ==> (r < 0 <==> a.i < b.i) && (r == 0 <==> a.i == b.i)
    ensures Compare(Val(a, field), Val(b, field)) != 0 ==> r != 0
    ensures Compare(Val(a, field), Val(b, field)) < 0 ==> (r < 0 <==> order == Asc)
    ensures Compare(Val(a, field), Val(b, field)) > 0 ==> (r < 0 <==> order == Desc)
  {
    var cmp := Compare(Val(a, field), Val(b, field));
    if cmp == 0 then a.i - b.i else cmp * Dir(order)
  }

  function Insert(e: Entry, s: seq<Entry>, field: string, order: Order): (r: seq<Entry>)
    ensures multiset(r) == multiset(s) + multiset{e}
  {
    if s == [] then [e]
    else if SortCompare(e, s[0], field, order) <= 0 then [e] + s
    else
      assert s == [s[0]] + s[1..];
      [s[0]] + Insert(e, s[1..], field, order)
  }

  function SortEntries(es: seq<Entry>, field: string, order: Order): (r: seq<Entry>)
    ensures multiset(r) == multiset(es)
  {
    if es == [] then []
    else
      assert es == [es[0]] + es[1..];
      Insert(es[0], SortEntries(es[1..], field, order), field, order)
  }

  /** `sortedData`: the rows of `data` in display order for the given sort state. */
  function SortedData(data: seq<Row>, columns: seq<Column>, sort: Option<SortState>): (r: seq<Row>)
    ensures multiset(r) == multiset(data)
    ensures sort.None? || FindColumn(columns, sort.value.key).None? ==> r == data
  {
    if sort.None? then data
    else match FindColumn(columns, sort.value.key)
      case None => data
      case Some(col) =>
        var es := Decorate(data);
        assert Rows(es) == data;
        SortRows(es, col.dataIndex, sort.value.order);
        Rows(SortEntries(es, col.dataIndex, sort.value.order))
  }

  // ---------------------------------------------------------------------------------------
  // Order properties of the comparator

  /** A column whose values can be ordered consistently: it does not hold both numbers and strings. */
  predicate ComparableColumn(data: seq<Row>, field: string)
  {
    forall j, k :: 0 <= j < |data| && 0 <= k < |data| ==>
      Compatible(FieldValue(data[j], field), FieldValue(data[k], field))
  }

  /** `v` is missing, or a number when `numeric` holds and a string otherwise. */
  predicate Fits(v: Value, numeric: bool)
  {
    v.Null? || v.Num? == numeric
  }

  /** Every entry's value in `field` fits the one kind `numeric`. */
  ghost predicate OneKind(es: seq<Entry>, field: string, numeric: bool)
  {
    forall x :: x in es ==> Fits(Val(x, field), numeric)
  }

  /** Each entry strictly precedes every later one under the sort comparator. */
  ghost predicate StrictlySorted(es: seq<Entry>, field: string, order: Order)
  {
    forall j, k :: 0 <= j < k < |es| ==> SortCompare(es[j], es[k], field, order) < 0
  }

  lemma SortCompareAntisymmetric(a: Entry, b: Entry, field: string, order: Order)
    ensures SortCompare(a, b, field, order) < 0 <==> SortCompare(b, a, field, order) > 0
    ensures a.i != b.i ==> SortCompare(a, b, field, order) != 0
  {
    CompareAntisymmetric(Val(a, field), Val(b, field));
  }

  lemma CompareTransitiveAll(a: Value, b: Value, c: Value)
    requires Compatible(a, b) && Compatible(b, c) && Compatible(a, c)
    ensures Compare(a, b) <= 0 && Compare(b, c) <= 0 ==> Compare(a, c) <= 0
    ensures Compare(c, b) <= 0 && Compare(b, a) <= 0 ==> Compare(c, a) <= 0
    ensures Compare(c, a) <= 0 && Compare(a, b) <= 0 ==> Compare(c, b) <= 0
    ensures Compare(b, c) <= 0 && Compare(c, a) <= 0 ==> Compare(b, a) <= 0
    ensures Compare(b, a) <= 0 && Compare(a, c) <= 0 ==> Compare(b, c) <= 0
    ensures Compare(a, c) <= 0 && Compare(c, b) <= 0 ==> Compare(a, b) <= 0
  {
    if Compare(a, b) <= 0 && Compare(b, c) <= 0 { CompareTransitive(a, b, c); }
    if Compare(c, b) <= 0 && Compare(b, a) <= 0 { CompareTransitive(c, b, a); }
    if Compare(c, a) <= 0 && Compare(a, b) <= 0 { CompareTransitive(c, a, b); }
    if Compare(b, c) <= 0 && Compare(c, a) <= 0 { CompareTransitive(b, c, a); }
    if Compare(b, a) <= 0 && Compare(a, c) <= 0 { CompareTransitive(b, a, c); }
    if Compare(a, c) <= 0 && Compare(c, b) <= 0 { CompareTransitive(a, c, b); }
  }

  lemma SortCompareTransitive(a: Entry, b: Entry, c: Entry, field: string, order: Order, numeric: bool)
    requires Fits(Val(a, field), numeric) && Fits(Val(b, field), numeric) && Fits(Val(c, field), numeric)
    requires SortCompare(a, b, field, order) < 0 && SortCompare(b, c, field, order) < 0
    ensures SortCompare(a, c, field, order) < 0
  {
    var va, vb, vc := Val(a, field), Val(b, field), Val(c, field);
    CompareAntisymmetric(va, vb);
    CompareAntisymmetric(vb, vc);
    CompareAntisymmetric(va, vc);
    CompareTransitiveAll(va, vb, vc);
  }

  /** Putting an entry that precedes every entry of a sorted sequence in front keeps it sorted. */
  lemma ConsSorted(x: Entry, t: seq<Entry>, field: string, order: Order)
    requires StrictlySorted(t, field, order)
    requires forall k :: 0 <= k < |t| ==> SortCompare(x, t[k], field, order) < 0
    ensures StrictlySorted([x] + t, field, order)
  {
    var r := [x] + t;
    forall j, k | 0 <= j < k < |r|
      ensures SortCompare(r[j], r[k], field, order) < 0
    {
      assert r[k] == t[k - 1];
      if j > 0 {
        assert r[j] == t[j - 1];
      }
    }
  }

  /** The tail of a sorted sequence is sorted. */
  lemma TailSorted(s: seq<Entry>, field: string, order: Order)
    requires s != [] && StrictlySorted(s, field, order)
    ensures StrictlySorted(s[1..], field, order)
  {
    var tail := s[1..];
    forall j, k | 0 <= j < k < |tail|
      ensures SortCompare(tail[j], tail[k], field, order) < 0
    {
      assert tail[j] == s[j + 1] && tail[k] == s[k + 1];
    }
  }

  /** An entry that precedes the head of a sorted sequence precedes all of it. */
  lemma BeforeHead(e: Entry, s: seq<Entry>, field: string, order: Order, numeric: bool)
    requires s != [] && StrictlySorted(s, field, order)
    requires Fits(Val(e, field), numeric) && OneKind(s, field, numeric)
    requires SortCompare(e, s[0], field, order) < 0
    ensures forall k :: 0 <= k < |s| ==> SortCompare(e, s[k], field, order) < 0
  {
    forall k | 0 < k < |s|
      ensures SortCompare(e, s[k], field, order) < 0
    {
      assert s[k] in s;
      SortCompareTransitive(e, s[0], s[k], field, order, numeric);
    }
  }

  lemma InsertMember(e: Entry, s: seq<Entry>, field: string, order: Order, x: Entry)
    requires x in Insert(e, s, field, order)
    ensures x == e || x in s
  {
    assert x in multiset(Insert(e, s, field, order));
  }

  lemma {:induction false} InsertSorted(e: Entry, s: seq<Entry>, field: string, order: Order, numeric: bool)
    requires StrictlySorted(s, field, order)
    requires Fits(Val(e, field), numeric) && OneKind(s, field, numeric)
    requires forall x :: x in s ==> x.i != e.i
    ensures StrictlySorted(Insert(e, s, field, order), field, order)
  {
    if s == [] {
      return;
    }
    SortCompareAntisymmetric(e, s[0], field, order);
    if SortCompare(e, s[0], field, order) <= 0 {
      BeforeHead(e, s, field, order, numeric);
      ConsSorted(e, s, field, order);
    } else {
      var tail := s[1..];
      TailSorted(s, field, order);
      assert OneKind(tail, field, numeric) by {
        forall x | x in tail ensures x in s { }
      }
      InsertSorted(e, tail, field, order, numeric);
      var t := Insert(e, tail, field, order);
      forall m | 0 <= m < |t|
        ensures SortCompare(s[0], t[m], field, order) < 0
      {
        InsertMember(e, tail, field, order, t[m]);
        if t[m] != e {
          var k :| 0 <= k < |tail| && tail[k] == t[m];
          assert s[k + 1] == t[m];
        }
      }
      ConsSorted(s[0], t, field, order);
    }
  }

  lemma {:induction false} SortEntriesSorted(es: seq<Entry>, field: string, order: Order, numeric: bool)
    requires OneKind(es, field, numeric)
    requires forall j, k :: 0 <= j < k < |es| ==> es[j].i != es[k].i
    ensures StrictlySorted(SortEntries(es, field, order), field, order)
  {
    if es == [] {
      return;
    }
    var tail := es[1..];
    assert OneKind(tail, field, numeric) by {
      forall x | x in tail ensures x in es { }
    }
    forall j, k | 0 <= j < k < |tail|
      ensures tail[j].i != tail[k].i
    {
      assert tail[j] == es[j + 1] && tail[k] == es[k + 1];
    }
    SortEntriesSorted(tail, field, order, numeric);
    var t := SortEntries(tail, field, order);
    forall x | x in t
      ensures x in tail && x.i != es[0].i
    {
      assert x in multiset(t);
      var k :| 0 <= k < |tail| && tail[k] == x;
      assert es[k + 1] == x;
    }
    assert OneKind(t, field, numeric);
    assert es[0] in es;
    InsertSorted(es[0], t, field, order, numeric);
  }

  /** Two non-empty strictly sorted permutations of each other start with the same entry. */
  lemma SortedHeadsAgree(xs: seq<Entry>, ys: seq<Entry>, field: string, order: Order)
    requires xs != [] && ys != [] && multiset(xs) == multiset(ys)
    requires StrictlySorted(xs, field, order) && StrictlySorted(ys, field, order)
    ensures xs[0] == ys[0]
  {
    if xs[0] != ys[0] {
      assert ys[0] in multiset(xs) && xs[0] in multiset(ys);
      var k :| 0 <= k < |xs| && xs[k] == ys[0];
      var m :| 0 <= m < |ys| && ys[m] == xs[0];
      assert SortCompare(xs[0], ys[0], field, order) < 0;
      assert SortCompare(ys[0], xs[0], field, order) < 0;
      SortCompareAntisymmetric(xs[0], ys[0], field, order);
      assert false;
    }
  }

  /**
   * A strictly sorted sequence is determined by its elements: two strictly sorted
   * permutations of each other are equal.
   */
  lemma {:induction false} SortedIsUnique(xs: seq<Entry>, ys: seq<Entry>, field: string, order: Order)
    requires multiset(xs) == multiset(ys)
    requires StrictlySorted(xs, field, order) && StrictlySorted(ys, field, order)
    ensures xs == ys
  {
    if xs == [] {
      assert |ys| == |multiset(ys)| == 0;
      return;
    }
    assert |ys| == |multiset(ys)| == |multiset(xs)| == |xs|;
    SortedHeadsAgree(xs, ys, field, order);
    assert xs == [xs[0]] + xs[1..] && ys == [ys[0]] + ys[1..];
    assert multiset(xs) == multiset{xs[0]} + multiset(xs[1..]);
    assert multiset(ys) == multiset{ys[0]} + multiset(ys[1..]);
    assert multiset(xs[1..]) == multiset(xs) - multiset{xs[0]};
    assert multiset(ys[1..]) == multiset(ys) - multiset{ys[0]};
    TailSorted(xs, field, order);
    TailSorted(ys, field, order);
    SortedIsUnique(xs[1..], ys[1..], field, order);
  }

  // ---------------------------------------------------------------------------------------
  // The sorted view of a table

  /** On a comparable column every value fits one kind: numbers if the column holds any, else strings. */
  lemma DecorateOneKind(data: seq<Row>, field: string) returns (numeric: bool)
    requires ComparableColumn(data, field)
    ensures OneKind(Decorate(data), field, numeric)
  {
    numeric := exists k :: 0 <= k < |data| && FieldValue(data[k], field).Num?;
    var es := Decorate(data);
    forall x | x in es
      ensures Fits(Val(x, field), numeric)
    {
      var m :| 0 <= m < |es| && es[m] == x;
      if numeric {
        var k :| 0 <= k < |data| && FieldValue(data[k], field).Num?;
        assert Compatible(FieldValue(data[m], field), FieldValue(data[k], field));
      }
    }
  }

  /**
   * The sort performed for the sorted view, on a column that does not mix numbers and
   * strings: every output entry is an input row at its original position, each position is
   * used once, adjacent (indeed all) output rows satisfy `compareValues(va, vb) * dir <= 0`,
   * and rows whose values compare equal keep their input order, in both directions.
   */
  lemma SortIsStable(data: seq<Row>, field: string, order: Order)
    requires ComparableColumn(data, field)
    ensures var es := SortEntries(Decorate(data), field, order);
      && |es| == |data|
      && (forall k :: 0 <= k < |es| ==> es[k].i < |data| && es[k].row == data[es[k].i])
      && (forall j, k :: 0 <= j < k < |es| ==> es[j].i != es[k].i)
      && (forall j, k :: 0 <= j < k < |es| ==> Compare(Val(es[j], field), Val(es[k], field)) * Dir(order) <= 0)
      && (forall j, k :: 0 <= j < k < |es| && Compare(Val(es[j], field), Val(es[k], field)) == 0 ==> es[j].i < es[k].i)
  {
    var ds := Decorate(data);
    var numeric := DecorateOneKind(data, field);
    SortEntriesSorted(ds, field, order, numeric);
    var es := SortEntries(ds, field, order);
    assert |es| == |multiset(es)| == |multiset(ds)| == |data|;
    forall k | 0 <= k < |es|
      ensures es[k].i < |data| && es[k].row == data[es[k].i]
    {
      assert es[k] in multiset(ds);
    }
    forall j, k | 0 <= j < k < |es|
      ensures es[j].i != es[k].i
    {
      assert SortCompare(es[j], es[k], field, order) < 0;
      CompareAntisymmetric(Val(es[j], field), Val(es[j], field));
    }
    StrictlySortedMeaning(es, field, order);
  }

  /**
   * What strict order under the sort lambda says about the column: every pair is in the
   * direction's order, and pairs that compare equal are in order of original position.
   */
  lemma StrictlySortedMeaning(es: seq<Entry>, field: string, order: Order)
    requires StrictlySorted(es, field, order)
    ensures forall j, k :: 0 <= j < k < |es| ==> Compare(Val(es[j], field), Val(es[k], field)) * Dir(order) <= 0
    ensures forall j, k :: 0 <= j < k < |es| && Compare(Val(es[j], field), Val(es[k], field)) == 0 ==> es[j].i < es[k].i
  {
    forall j, k | 0 <= j < k < |es|
      ensures Compare(Val(es[j], field), Val(es[k], field)) * Dir(order) <= 0
    {
      assert SortCompare(es[j], es[k], field, order) < 0;
    }
  }

  /** The sorted view is ordered by the sort column in the chosen direction. */
  lemma SortedDataSorted(data: seq<Row>, columns: seq<Column>, key: string, order: Order)
    requires FindColumn(columns, key).Some?
    requires ComparableColumn(data, FindColumn(columns, key).value.dataIndex)
    ensures var r := SortedData(data, columns, Some(SortState(key, order)));
      var field := FindColumn(columns, key).value.dataIndex;
      forall j, k :: 0 <= j < k < |r| ==>
        Compare(FieldValue(r[j], field), FieldValue(r[k], field)) * Dir(order) <= 0
  {
    SortIsStable(data, FindColumn(columns, key).value.dataIndex, order);
  }

  /**
   * Any sort that returns a strictly sorted permutation of the decorated rows returns the
   * same sequence as the model's, so the choice of sorting algorithm is immaterial.
   */
  lemma AnySortAgrees(data: seq<Row>, field: string, order: Order, es: seq<Entry>)
    requires ComparableColumn(data, field)
    requires multiset(es) == multiset(Decorate(data))
    requires StrictlySorted(es, field, order)
    ensures es == SortEntries(Decorate(data), field, order)
  {
    var numeric := DecorateOneKind(data, field);
    SortEntriesSorted(Decorate(data), field, order, numeric);
    SortedIsUnique(es, SortEntries(Decorate(data), field, order), field, order);
  }

  function Reverse<T>(s: seq<T>): (r: seq<T>)
  {
    seq(|s|, k requires 0 <= k < |s| => s[|s| - 1 - k])
  }

  lemma {:induction false} ReversePermutes<T>(s: seq<T>)
    ensures multiset(Reverse(s)) == multiset(s)
  {
    if s != [] {
      ReversePermutes(s[1..]);
      assert Reverse(s) == Reverse(s[1..]) + [s[0]];
      assert s == [s[0]] + s[1..];
    }
  }

  /** No two rows of the column compare equal. */
  predicate NoTies(data: seq<Row>, field: string)
  {
    forall j, k :: 0 <= j < |data| && 0 <= k < |data| && j != k ==>
      Compare(FieldValue(data[j], field), FieldValue(data[k], field)) != 0
  }

  /** Reversing a tie-free ascending sequence gives a descending one. */
  lemma ReverseDescending(asc: seq<Entry>, field: string)
    requires StrictlySorted(asc, field, Asc)
    requires forall j, k :: 0 <= j < k < |asc| ==> Compare(Val(asc[j], field), Val(asc[k], field)) != 0
    ensures StrictlySorted(Reverse(asc), field, Desc)
  {
    var rev, n := Reverse(asc), |asc|;
    forall j, k | 0 <= j < k < n
      ensures SortCompare(rev[j], rev[k], field, Desc) < 0
    {
      var x, y := asc[n - 1 - k], asc[n - 1 - j];
      assert SortCompare(x, y, field, Asc) < 0;
      CompareAntisymmetric(Val(x, field), Val(y, field));
    }
  }

  lemma RowsReverse(es: seq<Entry>)
    ensures Rows(Reverse(es)) == Reverse(Rows(es))
  {
  }

  /** Without ties, sorting a column descending gives the reverse of sorting it ascending. */
  lemma DescendingReversesAscending(data: seq<Row>, columns: seq<Column>, key: string)
    requires FindColumn(columns, key).Some?
    requires ComparableColumn(data, FindColumn(columns, key).value.dataIndex)
    requires NoTies(data, FindColumn(columns, key).value.dataIndex)
    ensures SortedData(data, columns, Some(SortState(key, Desc)))
         == Reverse(SortedData(data, columns, Some(SortState(key, Asc))))
  {
    var field := FindColumn(columns, key).value.dataIndex;
    var asc := SortEntries(Decorate(data), field, Asc);
    SortIsStable(data, field, Asc);
    var numeric := DecorateOneKind(data, field);
    SortEntriesSorted(Decorate(data), field, Asc, numeric);
    forall j, k | 0 <= j < k < |asc|
      ensures Compare(Val(asc[j], field), Val(asc[k], field)) != 0
    {
      assert asc[j].row == data[asc[j].i] && asc[k].row == data[asc[k].i];
    }
    ReverseDescending(asc, field);
    ReversePermutes(asc);
    AnySortAgrees(data, field, Desc, Reverse(asc));
    RowsReverse(asc);
  }

  /** Sorting the sorted view again by the same column and direction changes nothing. */
  lemma SortIdempotent(data: seq<Row>, columns: seq<Column>, sort: Option<SortState>)
    requires sort.Some? && FindColumn(columns, sort.value.key).Some?
    requires ComparableColumn(data, FindColumn(columns, sort.value.key).value.dataIndex)
    ensures SortedData(SortedData(data, columns, sort), columns, sort) == SortedData(data, columns, sort)
  {
    var field, order := FindColumn(columns, sort.value.key).value.dataIndex, sort.value.order;
    var es := SortEntries(Decorate(data), field, order);
    var r := Rows(es);
    SortIsStable(data, field, order);
    var numeric := DecorateOneKind(data, field);
    SortEntriesSorted(Decorate(data), field, order, numeric);
    var ds := Decorate(r);
    forall j, k | 0 <= j < k < |ds|
      ensures SortCompare(ds[j], ds[k], field, order) < 0
    {
      assert SortCompare(es[j], es[k], field, order) < 0;
    }
    assert ComparableColumn(r, field) by {
      forall j, k | 0 <= j < |r| && 0 <= k < |r|
        ensures Compatible(FieldValue(r[j], field), FieldValue(r[k], field))
      {
        assert r[j] == data[es[j].i] && r[k] == data[es[k].i];
      }
    }
    AnySortAgrees(r, field, order, ds);
    assert Rows(ds) == r;
  }
}
