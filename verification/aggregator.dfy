/** The series pivot: `populationItems` folded into an array of rows indexed by
    year, then stripped of its holes by `filter(Boolean)`. */
module Aggregator {
  import opened Types

  /** One write of the traversal: column `name` of the row for `point.year`
      receives `point.value`. */
  datatype Cell = Cell(name: string, point: Point)

  /** The reduce accumulator, a sparse JavaScript array indexed by year:
      `None` is a hole. */
  type Table = seq<Option<Row>>

  /** Reading index `y` of the array; an index past the end reads as a hole. */
  function At(t: Table, y: nat): Option<Row>
  {
    if y < |t| then t[y] else None
  }

  function Holes(n: nat): (h: Table)
    ensures |h| == n
    ensures forall i :: 0 <= i < n ==> h[i] == None
  {
    seq(n, _ => None)
  }

  /** `result[y] = r`: an index past the end grows the array to length `y + 1`,
      leaving holes in between. */
  function Store(t: Table, y: nat, r: Row): (s: Table)
    ensures |s| == if y < |t| then |t| else y + 1
  {
    if y < |t| then t[y := Some(r)] else t + Holes(y - |t|) + [Some(r)]
  }

  /** After `result[y] = r`, index `y` holds `r` and every other index is unchanged. */
  lemma StoreAt(t: Table, y: nat, r: Row, z: nat)
    ensures At(Store(t, y, r), z) == if z == y then Some(r) else At(t, z)
  {
  }

  /** The row a point leaves at its year: the row already there, or a fresh
      `{year}` row, with the point's column set. */
  function Updated(r: Option<Row>, c: Cell): Row
  {
    var row := if r.Some? then r.value else Row(c.point.year, map[]);
    row.(cols := row.cols[c.name := c.point.value])
  }

  /** The effect of one point on the array: its year's slot holds the updated row. */
  function Write(t: Table, c: Cell): Table
  {
    Store(t, c.point.year, Updated(At(t, c.point.year), c))
  }

  /** A write changes only the slot of its own year. */
  lemma WriteAt(t: Table, c: Cell, y: nat)
    ensures At(Write(t, c), y) == if y == c.point.year then Some(Updated(At(t, y), c)) else At(t, y)
  {
    StoreAt(t, c.point.year, Updated(At(t, c.point.year), c), y);
  }

  /** The accumulator after replaying the writes `cs` in order, starting from `[]`. */
  function Replay(cs: seq<Cell>): Table
  {
    if cs == [] then [] else Write(Replay(cs[..|cs| - 1]), cs[|cs| - 1])
  }

  /** Replaying one more write is writing it into the replayed array. */
  lemma ReplaySnoc(cs: seq<Cell>, c: Cell)
    ensures Replay(cs + [c]) == Write(Replay(cs), c)
  {
    assert (cs + [c])[..|cs|] == cs;
  }

  /** The writes of one item, in the order of its points. */
  function ItemCells(it: Item): (cs: seq<Cell>)
    ensures |cs| == |it.points|
    ensures forall j :: 0 <= j < |cs| ==> cs[j] == Cell(it.prefName, it.points[j])
  {
    seq(|it.points|, j requires 0 <= j < |it.points| => Cell(it.prefName, it.points[j]))
  }

  /** Placing point `j` of an item extends the replayed writes by that point. */
  lemma ReplayStep(done: seq<Cell>, it: Item, j: nat)
    requires j < |it.points|
    ensures Replay(done + ItemCells(it)[..j + 1])
         == Write(Replay(done + ItemCells(it)[..j]), Cell(it.prefName, it.points[j]))
  {
    var c := Cell(it.prefName, it.points[j]);
    assert done + ItemCells(it)[..j + 1] == (done + ItemCells(it)[..j]) + [c];
    ReplaySnoc(done + ItemCells(it)[..j], c);
  }

  /** The writes of the whole reduce: items in list order, points in sequence order. */
  function Traversal(items: seq<Item>): seq<Cell>
  {
    if items == [] then [] else Traversal(items[..|items| - 1]) + ItemCells(items[|items| - 1])
  }

  /** `filter(Boolean)`: the rows of the array in index order, holes dropped. */
  function Compact(t: Table): seq<Row>
  {
    if t == [] then []
    else Compact(t[..|t| - 1]) + (if t[|t| - 1].Some? then [t[|t| - 1].value] else [])
  }

  /** The data handed to the chart: `cleanLineChartPopulationItems`. */
  function ChartRows(items: seq<Item>): seq<Row>
  {
    Compact(Replay(Traversal(items)))
  }

  // ---------------------------------------------------------------------------
  // Reference definitions

  /** Every row of the array sits at the index equal to its own year. */
  ghost predicate Keyed(t: Table)
  {
    forall y :: 0 <= y < |t| && t[y].Some? ==> t[y].value.year == y
  }

  predicate WritesTo(c: Cell, y: nat, n: string)
  {
    c.point.year == y && c.name == n
  }

  /** `k` is the last write of column `n` in year `y`. */
  ghost predicate IsLastWrite(cs: seq<Cell>, y: nat, n: string, k: int)
  {
    && 0 <= k < |cs|
    && WritesTo(cs[k], y, n)
    && forall m :: k < m < |cs| ==> !WritesTo(cs[m], y, n)
  }

  /** Some item has a point in year `y`. */
  ghost predicate HasYear(items: seq<Item>, y: nat)
  {
    exists i, j :: 0 <= i < |items| && 0 <= j < |items[i].points| && items[i].points[j].year == y
  }

  /** Some item named `n` has a point in year `y`. */
  ghost predicate HasColumn(items: seq<Item>, y: nat, n: string)
  {
    exists i, j ::
      && 0 <= i < |items| && 0 <= j < |items[i].points|
      && items[i].prefName == n && items[i].points[j].year == y
  }

  /** The write `c` comes from a point of some item. */
  ghost predicate IsWrittenBy(items: seq<Item>, c: Cell)
  {
    exists i, j :: 0 <= i < |items| && 0 <= j < |items[i].points| && c == Cell(items[i].prefName, items[i].points[j])
  }

  /** Every prefecture name is a plain column of the row object. A name "year"
      would overwrite the row's `year` field, which this model keeps apart; a
      name "__proto__" would hit the prototype setter, which ignores a number,
      so the source would create no column at all. */
  predicate PlainColumnNames(items: seq<Item>)
  {
    forall i :: 0 <= i < |items| ==> items[i].prefName != "year" && items[i].prefName != "__proto__"
  }

  /** One past the largest JavaScript array index (2^32 - 1). A year at or above
      it would be stored as an ordinary property, which `filter` skips. */
  const ArrayIndexBound: nat := 0xFFFF_FFFF

  /** Every year is a valid array index, so every point lands in the array. */
  predicate IndexYears(items: seq<Item>)
  {
    forall i, j :: 0 <= i < |items| && 0 <= j < |items[i].points| ==> items[i].points[j].year < ArrayIndexBound
  }

  // ---------------------------------------------------------------------------
  // The accumulator

  /** After a sequence of writes, index `y` holds a row exactly when some write
      hit year `y`, and that row's `year` is `y`. */
  lemma {:induction false} ReplayRow(cs: seq<Cell>, y: nat)
    ensures At(Replay(cs), y).Some? <==> exists k :: 0 <= k < |cs| && cs[k].point.year == y
    ensures At(Replay(cs), y).Some? ==> At(Replay(cs), y).value.year == y
  {
    if cs != [] {
      var pre, c := cs[..|cs| - 1], cs[|cs| - 1];
      ReplayRow(pre, y);
      ReplaySnoc(pre, c);
      assert pre + [c] == cs;
      WriteAt(Replay(pre), c, y);
      assert forall k :: 0 <= k < |pre| ==> cs[k] == pre[k];
      assert (exists k :: 0 <= k < |cs| && cs[k].point.year == y) <==>
        (exists k :: 0 <= k < |pre| && pre[k].point.year == y) || cs[|cs| - 1].point.year == y;
    }
  }

  /** The row at year `y` has column `n` exactly when some write set `n` in year `y`. */
  lemma {:induction false} ReplayColumn(cs: seq<Cell>, y: nat, n: string)
    ensures At(Replay(cs), y).Some? ==>
      (n in At(Replay(cs), y).value.cols <==> exists k :: 0 <= k < |cs| && WritesTo(cs[k], y, n))
  {
    if cs != [] {
      var pre, c := cs[..|cs| - 1], cs[|cs| - 1];
      ReplayColumn(pre, y, n);
      ReplayRow(pre, y);
      ReplaySnoc(pre, c);
      assert pre + [c] == cs;
      WriteAt(Replay(pre), c, y);
      assert forall k :: 0 <= k < |pre| ==> cs[k] == pre[k];
      assert (exists k :: 0 <= k < |cs| && WritesTo(cs[k], y, n)) <==>
        (exists k :: 0 <= k < |pre| && WritesTo(pre[k], y, n)) || WritesTo(cs[|cs| - 1], y, n);
    }
  }

  /** The column `n` of the row at year `y` holds the value of its last write. */
  lemma {:induction false} ReplayValue(cs: seq<Cell>, y: nat, n: string, k: int)
    requires IsLastWrite(cs, y, n, k)
    ensures At(Replay(cs), y).Some?
    ensures n in At(Replay(cs), y).value.cols
    ensures At(Replay(cs), y).value.cols[n] == cs[k].point.value
  {
    var pre, c := cs[..|cs| - 1], cs[|cs| - 1];
    ReplaySnoc(pre, c);
    assert pre + [c] == cs;
    WriteAt(Replay(pre), c, y);
    if k < |cs| - 1 {
      assert IsLastWrite(pre, y, n, k);
      ReplayValue(pre, y, n, k);
    }
  }

  /** The accumulator keeps every row at its own year's index. */
  lemma ReplayKeyed(cs: seq<Cell>)
    ensures Keyed(Replay(cs))
  {
    forall y | 0 <= y < |Replay(cs)| && Replay(cs)[y].Some?
      ensures Replay(cs)[y].value.year == y
    {
      ReplayRow(cs, y);
    }
  }

  // ---------------------------------------------------------------------------
  // filter(Boolean)

  /** Dropping the holes of a keyed array yields its rows in strictly ascending
      year order, each one the row stored at its year, and no row is lost. */
  lemma {:induction false} CompactRows(t: Table)
    requires Keyed(t)
    ensures forall i :: 0 <= i < |Compact(t)| ==> At(t, Compact(t)[i].year) == Some(Compact(t)[i])
    ensures forall i, j :: 0 <= i < j < |Compact(t)| ==> Compact(t)[i].year < Compact(t)[j].year
    ensures forall y :: 0 <= y < |t| && t[y].Some? ==> t[y].value in Compact(t)
  {
    if t != [] {
      var pre := t[..|t| - 1];
      assert Keyed(pre);
      CompactRows(pre);
      forall i | 0 <= i < |Compact(pre)|
        ensures Compact(pre)[i].year < |pre|
      {
      }
    }
  }

  lemma {:induction false} CompactHoles(t: Table, n: nat)
    ensures Compact(t + Holes(n)) == Compact(t)
  {
    if n > 0 {
      assert (t + Holes(n))[..|t + Holes(n)| - 1] == t + Holes(n - 1);
      CompactHoles(t, n - 1);
    } else {
      assert t + Holes(n) == t;
    }
  }

  // ---------------------------------------------------------------------------
  // The traversal

  /** The traversal of a prefix of the list is a prefix of the traversal, and
      item `i` contributes its own writes right after those of the items before it. */
  lemma {:induction false} TraversalPrefix(items: seq<Item>, i: nat)
    requires i < |items|
    ensures Traversal(items[..i + 1]) == Traversal(items[..i]) + ItemCells(items[i])
    ensures Traversal(items[..i + 1]) <= Traversal(items)
  {
    assert items[..i + 1][..i] == items[..i];
    if i + 1 < |items| {
      var pre := items[..|items| - 1];
      assert items[..i + 1] == pre[..i + 1];
      assert pre[i] == items[i];
      TraversalPrefix(pre, i);
    } else {
      assert items[..i + 1] == items;
    }
  }

  /** Every write of the traversal comes from some item's point. */
  lemma {:induction false} TraversalSources(items: seq<Item>)
    ensures forall k :: 0 <= k < |Traversal(items)| ==> IsWrittenBy(items, Traversal(items)[k])
  {
    if items != [] {
      var pre := items[..|items| - 1];
      TraversalSources(pre);
      var tr := Traversal(items);
      assert tr == Traversal(pre) + ItemCells(items[|items| - 1]);
      forall k | 0 <= k < |tr|
        ensures IsWrittenBy(items, tr[k])
      {
        if k < |Traversal(pre)| {
          assert IsWrittenBy(pre, Traversal(pre)[k]);
          var i, j :| 0 <= i < |pre| && 0 <= j < |pre[i].points|
            && Traversal(pre)[k] == Cell(pre[i].prefName, pre[i].points[j]);
          assert tr[k] == Cell(items[i].prefName, items[i].points[j]);
        } else {
          var j := k - |Traversal(pre)|;
          assert tr[k] == Cell(items[|items| - 1].prefName, items[|items| - 1].points[j]);
        }
      }
    } else {
      assert Traversal(items) == [];
    }
  }

  /** Item `i`'s point `j` is written at position `|Traversal(items[..i])| + j`:
      after every point of the items before it, in the order of its points. */
  lemma TraversalPosition(items: seq<Item>, i: nat, j: nat)
    requires i < |items| && j < |items[i].points|
    ensures |Traversal(items[..i])| + j < |Traversal(items)|
    ensures Traversal(items)[|Traversal(items[..i])| + j] == Cell(items[i].prefName, items[i].points[j])
  {
    TraversalPrefix(items, i);
  }

  /** A year (a column) is written by the traversal iff some item (some item
      with that name) has a point in that year. */
  lemma TraversalYears(items: seq<Item>, y: nat, n: string)
    ensures HasYear(items, y) <==> exists k :: 0 <= k < |Traversal(items)| && Traversal(items)[k].point.year == y
    ensures HasColumn(items, y, n) <==> exists k :: 0 <= k < |Traversal(items)| && WritesTo(Traversal(items)[k], y, n)
  {
    var tr := Traversal(items);
    if HasYear(items, y) {
      var i, j :| 0 <= i < |items| && 0 <= j < |items[i].points| && items[i].points[j].year == y;
      TraversalPosition(items, i, j);
      assert tr[|Traversal(items[..i])| + j].point.year == y;
    }
    if HasColumn(items, y, n) {
      var i, j :| 0 <= i < |items| && 0 <= j < |items[i].points|
        && items[i].prefName == n && items[i].points[j].year == y;
      TraversalPosition(items, i, j);
      assert WritesTo(tr[|Traversal(items[..i])| + j], y, n);
    }
    TraversalSources(items);
    if k :| 0 <= k < |tr| && tr[k].point.year == y {
      assert IsWrittenBy(items, tr[k]);
      var i, j :| 0 <= i < |items| && 0 <= j < |items[i].points|
        && tr[k] == Cell(items[i].prefName, items[i].points[j]);
      assert items[i].points[j].year == y;
    }
    if k :| 0 <= k < |tr| && WritesTo(tr[k], y, n) {
      assert IsWrittenBy(items, tr[k]);
      var i, j :| 0 <= i < |items| && 0 <= j < |items[i].points|
        && tr[k] == Cell(items[i].prefName, items[i].points[j]);
      assert items[i].prefName == n && items[i].points[j].year == y;
    }
  }

  // ---------------------------------------------------------------------------
  // Properties of the chart rows

  /** Rows come out in strictly ascending year order, so no year has two rows. */
  lemma ChartRowsAscending(items: seq<Item>)
    ensures forall i, j :: 0 <= i < j < |ChartRows(items)| ==> ChartRows(items)[i].year < ChartRows(items)[j].year
    ensures forall i, j ::
      (0 <= i < |ChartRows(items)| && 0 <= j < |ChartRows(items)| && ChartRows(items)[i].year == ChartRows(items)[j].year)
      ==> i == j
  {
    ReplayKeyed(Traversal(items));
    CompactRows(Replay(Traversal(items)));
  }

  /** There is a row for year `y` iff some item has a point in year `y`. */
  lemma ChartRowsYears(items: seq<Item>, y: nat)
    ensures HasYear(items, y) <==> exists i :: 0 <= i < |ChartRows(items)| && ChartRows(items)[i].year == y
  {
    var cs := Traversal(items);
    var t := Replay(cs);
    ReplayKeyed(cs);
    CompactRows(t);
    ReplayRow(cs, y);
    TraversalYears(items, y, "");
    assert ChartRows(items) == Compact(t);
    if HasYear(items, y) {
      assert At(t, y).Some?;
      assert t[y].value in Compact(t);
      var i :| 0 <= i < |Compact(t)| && Compact(t)[i] == t[y].value;
      assert Compact(t)[i].year == y;
    }
    if i :| 0 <= i < |Compact(t)| && Compact(t)[i].year == y {
      assert At(t, y) == Some(Compact(t)[i]);
      assert HasYear(items, y);
    }
  }

  /** A row has the column `n` iff some item named `n` has a point in that row's year. */
  lemma ChartRowsColumns(items: seq<Item>, i: int, n: string)
    requires 0 <= i < |ChartRows(items)|
    ensures n in ChartRows(items)[i].cols <==> HasColumn(items, ChartRows(items)[i].year, n)
  {
    var cs := Traversal(items);
    var t := Replay(cs);
    ReplayKeyed(cs);
    CompactRows(t);
    assert ChartRows(items) == Compact(t);
    var row := ChartRows(items)[i];
    assert At(t, row.year) == Some(row);
    ReplayColumn(cs, row.year, n);
    TraversalYears(items, row.year, n);
  }

  /** The value in a row's column `n` is the value of the last write of `n` in
      that year, in traversal order. */
  lemma ChartRowsValues(items: seq<Item>, i: int, n: string, k: int)
    requires 0 <= i < |ChartRows(items)|
    requires IsLastWrite(Traversal(items), ChartRows(items)[i].year, n, k)
    ensures n in ChartRows(items)[i].cols
    ensures ChartRows(items)[i].cols[n] == Traversal(items)[k].point.value
  {
    var cs := Traversal(items);
    var t := Replay(cs);
    ReplayKeyed(cs);
    CompactRows(t);
    assert ChartRows(items) == Compact(t);
    var row := ChartRows(items)[i];
    assert At(t, row.year) == Some(row);
    ReplayValue(cs, row.year, n, k);
  }

  // ---------------------------------------------------------------------------
  // Series whose years come in ascending order

  /** The writes visit strictly ascending years. */
  predicate AscendingYears(cs: seq<Cell>)
  {
    forall k, m :: 0 <= k < m < |cs| ==> cs[k].point.year < cs[m].point.year
  }

  /** The row holding only the column of one write. */
  function SingleColumn(c: Cell): Row
  {
    Row(c.point.year, map[c.name := c.point.value])
  }

  /** When the writes visit strictly ascending years, every write opens its own
      row past the end of the array, so the chart gets one single-column row per
      write, in the same order. */
  lemma {:induction false} AscendingReplay(cs: seq<Cell>)
    requires AscendingYears(cs)
    ensures |Compact(Replay(cs))| == |cs|
    ensures forall k :: 0 <= k < |cs| ==> Compact(Replay(cs))[k] == SingleColumn(cs[k])
  {
    if cs != [] {
      var pre, c := cs[..|cs| - 1], cs[|cs| - 1];
      AscendingReplay(pre);
      AscendingStep(pre, c);
      assert pre + [c] == cs;
      var rows := Compact(Replay(cs));
      forall k | 0 <= k < |cs|
        ensures rows[k] == SingleColumn(cs[k])
      {
        if k < |pre| {
          assert rows[k] == Compact(Replay(pre))[k] && cs[k] == pre[k];
        }
      }
    }
  }

  /** A write to a year past every earlier one adds its single-column row at the end. */
  lemma AscendingStep(pre: seq<Cell>, c: Cell)
    requires AscendingYears(pre + [c])
    ensures Compact(Replay(pre + [c])) == Compact(Replay(pre)) + [SingleColumn(c)]
  {
    var t := Replay(pre);
    assert AscendingYears(pre);
    AscendingLength(pre);
    if pre != [] {
      assert pre[|pre| - 1] == (pre + [c])[|pre| - 1];
      assert (pre + [c])[|pre|] == c;
      assert (pre + [c])[|pre| - 1].point.year < (pre + [c])[|pre|].point.year;
    }
    ReplaySnoc(pre, c);
    WritePastEnd(t, c);
    CompactPastEnd(t, c.point.year - |t|, SingleColumn(c));
  }

  /** With strictly ascending years, the array ends at the last year written. */
  lemma {:induction false} AscendingLength(cs: seq<Cell>)
    requires AscendingYears(cs)
    ensures |Replay(cs)| == if cs == [] then 0 else cs[|cs| - 1].point.year + 1
  {
    if cs != [] {
      var pre, c := cs[..|cs| - 1], cs[|cs| - 1];
      assert AscendingYears(pre);
      AscendingLength(pre);
      if pre != [] {
        assert pre[|pre| - 1] == cs[|cs| - 2];
        assert cs[|cs| - 2].point.year < cs[|cs| - 1].point.year;
      }
      var t := Replay(pre);
      assert |t| <= c.point.year;
      assert Replay(cs) == Store(t, c.point.year, Updated(At(t, c.point.year), c));
    }
  }

  /** A write past the end of the array pads with holes and opens a row holding
      only its own column. */
  lemma WritePastEnd(t: Table, c: Cell)
    requires |t| <= c.point.year
    ensures Write(t, c) == t + Holes(c.point.year - |t|) + [Some(SingleColumn(c))]
  {
    assert At(t, c.point.year) == None;
  }

  /** Holes and then one row past the end add just that row. */
  lemma CompactPastEnd(t: Table, n: nat, r: Row)
    ensures Compact(t + Holes(n) + [Some(r)]) == Compact(t) + [r]
  {
    assert (t + Holes(n) + [Some(r)])[..|t| + n] == t + Holes(n);
    CompactHoles(t, n);
  }

  /** A single series with strictly ascending years gives one single-column row
      per point, in the order of the points. */
  lemma SingleSeriesRows(it: Item)
    requires forall j, j' :: 0 <= j < j' < |it.points| ==> it.points[j].year < it.points[j'].year
    ensures ChartRows([it]) ==
      seq(|it.points|, j requires 0 <= j < |it.points| => Row(it.points[j].year, map[it.prefName := it.points[j].value]))
  {
    assert [it][..0] == [];
    assert Traversal([it]) == ItemCells(it);
    AscendingReplay(ItemCells(it));
  }

  /** One prefecture with two years gives two rows with one column each. */
  lemma OneSeriesExample()
    ensures ChartRows([Item("Tokyo", None, [Point(1980, 100), Point(1990, 110)])])
         == [Row(1980, map["Tokyo" := 100]), Row(1990, map["Tokyo" := 110])]
  {
    SingleSeriesRows(Item("Tokyo", None, [Point(1980, 100), Point(1990, 110)]));
  }

  /** Two one-point prefectures, the first in an earlier year than the second,
      give two rows, each with only its own column. */
  lemma TwoPointRows(a: Item, b: Item)
    requires |a.points| == 1 && |b.points| == 1
    requires a.points[0].year < b.points[0].year
    ensures ChartRows([a, b]) == [SingleColumn(Cell(a.prefName, a.points[0])), SingleColumn(Cell(b.prefName, b.points[0]))]
  {
    var items := [a, b];
    var cs := [Cell(a.prefName, a.points[0]), Cell(b.prefName, b.points[0])];
    assert items[..1] == [a];
    assert [a][..0] == [];
    assert ItemCells(a) == [cs[0]];
    assert ItemCells(b) == [cs[1]];
    assert Traversal([a]) == Traversal([]) + ItemCells(a);
    assert Traversal(items) == Traversal([a]) + ItemCells(b);
    assert Traversal(items) == cs;
    AscendingReplay(cs);
  }

  /** Tokyo in 1980 and Osaka in 1990 give one row each. */
  lemma TwoSeriesExample()
    ensures ChartRows([Item("Tokyo", None, [Point(1980, 100)]), Item("Osaka", None, [Point(1990, 50)])])
         == [Row(1980, map["Tokyo" := 100]), Row(1990, map["Osaka" := 50])]
  {
    TwoPointRows(Item("Tokyo", None, [Point(1980, 100)]), Item("Osaka", None, [Point(1990, 50)]));
  }

  // ---------------------------------------------------------------------------
  // The reduce, as the source runs it

  /** The body of the inner `forEach` on the array: a hole at the point's year
      gets the row `{year}`, then the row's column `name` gets the point's value. */
  method PlacePoint(result: Table, name: string, ojt: Point) returns (next: Table)
    ensures next == Write(result, Cell(name, ojt))
  {
    next := result;
    if ojt.year >= |next| || next[ojt.year].None? {
      if ojt.year < |next| {
        next := next[ojt.year := Some(Row(ojt.year, map[]))];
      } else {
        next := next + Holes(ojt.year - |next|) + [Some(Row(ojt.year, map[]))];
      }
    }
    var row := next[ojt.year].value;
    next := next[ojt.year := Some(row.(cols := row.cols[name := ojt.value]))];
  }

  /** The inner `forEach`: every point of `item`, in order, placed into the array. */
  method PlaceItem(result: Table, item: Item, ghost done: seq<Cell>) returns (next: Table)
    requires result == Replay(done)
    ensures next == Replay(done + ItemCells(item))
  {
    next := result;
    assert done + ItemCells(item)[..0] == done;
    for j := 0 to |item.points|
      invariant next == Replay(done + ItemCells(item)[..j])
    {
      next := PlacePoint(next, item.prefName, item.points[j]);
      ReplayStep(done, item, j);
    }
    assert ItemCells(item)[..|item.points|] == ItemCells(item);
  }

  /** `LineChartPopulationItems`: the reduce walks the items and places each
      item's points into the array indexed by year. */
  method ReduceItems(items: seq<Item>) returns (result: Table)
    ensures result == Replay(Traversal(items))
  {
    result := [];
    for i := 0 to |items|
      invariant result == Replay(Traversal(items[..i]))
    {
      result := PlaceItem(result, items[i], Traversal(items[..i]));
      TraversalPrefix(items, i);
    }
    assert items[..|items|] == items;
  }

  /** `filter(Boolean)`: the rows of the array in index order, holes dropped. */
  method DropHoles(result: Table) returns (rows: seq<Row>)
    ensures rows == Compact(result)
  {
    rows := [];
    for y := 0 to |result|
      invariant rows == Compact(result[..y])
    {
      if result[y].Some? {
        rows := rows + [result[y].value];
      }
      assert result[..y + 1][..y] == result[..y];
    }
    assert result[..|result|] == result;
  }

  /** `cleanLineChartPopulationItems`: the reduce, then the holes dropped. */
  method AggregateRows(items: seq<Item>) returns (rows: seq<Row>)
    requires PlainColumnNames(items)
    requires IndexYears(items)
    ensures rows == ChartRows(items)
    ensures items == [] ==> rows == []
  {
    var result := ReduceItems(items);
    rows := DropHoles(result);
  }
}
