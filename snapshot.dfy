/**
 * The payload of `sendScoresToGoogleSheet`: one record per row of the
 * table body, in table order, each carrying the row's label and seven
 * positional scores read from the row's first seven score cells.
 */
module Snapshots {
  import opened Wrappers
  import opened Scoring
  import opened Cells

  /** A row of the table body: the `alt` text of its image (`None` when the
      row has no image) and its score cells in document order. */
  datatype TableRow = TableRow(alt: Option<string>, cells: seq<Cell>)

  /** The rating categories, in column order. */
  datatype Category = Sauce | Cheese | Toppings | Crust | Value | Delivery | BoxDesign

  datatype Scores = Scores(sauce: JsInt, cheese: JsInt, toppings: JsInt, crust: JsInt,
                           value: JsInt, delivery: JsInt, boxDesign: JsInt)

  /** One element of the `rows` array that is posted. */
  datatype Record = Record(pizza: string, scores: Scores)

  /** The score cell a category is read from. */
  function Column(c: Category): (k: nat)
    ensures k < 7
  {
    match c
    case Sauce => 0
    case Cheese => 1
    case Toppings => 2
    case Crust => 3
    case Value => 4
    case Delivery => 5
    case BoxDesign => 6
  }

  /** The field of a record's scores that holds a category. */
  function Score(s: Scores, c: Category): JsInt
  {
    match c
    case Sauce => s.sauce
    case Cheese => s.cheese
    case Toppings => s.toppings
    case Crust => s.crust
    case Value => s.value
    case Delivery => s.delivery
    case BoxDesign => s.boxDesign
  }

  /** The category read from cell `k`. */
  function CategoryAt(k: nat): Category
    requires k < 7
  {
    [Sauce, Cheese, Toppings, Crust, Value, Delivery, BoxDesign][k]
  }

  /** Columns and categories are in one-to-one correspondence: each of the
      first seven cells is read into exactly one field. */
  lemma ColumnsOneToOne()
    ensures forall c :: CategoryAt(Column(c)) == c
    ensures forall k: nat :: k < 7 ==> Column(CategoryAt(k)) == k
  {
  }

  /** `tr.querySelector('img')?.alt || 'Unknown'`. */
  function Label(alt: Option<string>): (s: string)
    ensures s != ""
    ensures alt.Some? && alt.value != "" ==> s == alt.value
    ensures s == "Unknown" <==> alt.None? || alt.value == "" || alt.value == "Unknown"
  {
    if alt.Some? && alt.value != "" then alt.value else "Unknown"
  }

  /** `parseInt(cell.dataset.score || 0)`: a missing or empty attribute reads
      as 0; any other attribute reads as the click handler reads it. */
  function CellScore(a: Attr): (s: JsInt)
    ensures a.Absent? || a.Empty? ==> s == Int(0)
    ensures a.Decimal? || a.NaNText? ==> s == ParseInt(a)
  {
    match a
    case Absent => Int(0)
    case Empty => Int(0)
    case _ => ParseInt(a)
  }

  /** The record of one row. */
  function RecordOf(row: TableRow): (r: Record)
    requires |row.cells| >= 7
    reads row.cells
    ensures r.pizza == Label(row.alt)
    ensures forall c :: Score(r.scores, c) == CellScore(row.cells[Column(c)].score)
  {
    var cs := row.cells;
    Record(Label(row.alt),
           Scores(CellScore(cs[0].score), CellScore(cs[1].score), CellScore(cs[2].score),
                  CellScore(cs[3].score), CellScore(cs[4].score), CellScore(cs[5].score),
                  CellScore(cs[6].score)))
  }

  /** Every score cell of the table. */
  ghost function TableCells(table: seq<TableRow>): set<Cell>
  {
    set row, c | row in table && c in row.cells :: c
  }

  /** The `rows` array built over the table, or `None` when some row has fewer
      than seven score cells, where `cells[k].dataset` throws a TypeError. */
  function Snapshot(table: seq<TableRow>): (s: Option<seq<Record>>)
    reads TableCells(table)
    ensures s.Some? ==> |s.value| == |table|
    ensures table != [] && |table[|table| - 1].cells| < 7 ==> s.None?
  {
    if table == [] then Some([])
    else
      var front := table[..|table| - 1];
      var last := table[|table| - 1];
      match Snapshot(front)
      case None => None
      case Some(rows) =>
        if |last.cells| < 7 then None
        else
          assert last in table;
          assert forall c :: c in last.cells ==> c in TableCells(table);
          Some(rows + [RecordOf(last)])
  }

  /** The snapshot exists exactly when every row has seven score cells, and
      then it has one record per row, in table order. */
  lemma {:induction false} SnapshotShape(table: seq<TableRow>)
    ensures Snapshot(table).Some? <==> forall i :: 0 <= i < |table| ==> |table[i].cells| >= 7
    ensures Snapshot(table).Some? ==>
      var rows := Snapshot(table).value;
      |rows| == |table| && forall i :: 0 <= i < |table| ==> rows[i] == RecordOf(table[i])
  {
    if table != [] {
      var front := table[..|table| - 1];
      SnapshotShape(front);
      assert forall i :: 0 <= i < |front| ==> front[i] == table[i];
    }
  }

  /** The posted record of row `i` reads category `c` from cell `Column(c)`
      of row `i`, and takes the row's label. */
  lemma SnapshotPositional(table: seq<TableRow>, i: int, c: Category)
    requires Snapshot(table).Some?
    requires 0 <= i < |table|
    ensures |table[i].cells| >= 7 && |Snapshot(table).value| == |table|
    ensures Snapshot(table).value[i].pizza == Label(table[i].alt)
    ensures Score(Snapshot(table).value[i].scores, c) == CellScore(table[i].cells[Column(c)].score)
  {
    SnapshotShape(table);
  }

  /** Cells after the seventh play no part in a record. */
  lemma ExtraCellsIgnored(row: TableRow, more: seq<Cell>)
    requires |row.cells| >= 7
    ensures RecordOf(TableRow(row.alt, row.cells + more)) == RecordOf(row)
  {
  }

  /** A cell holds a rating when its attribute is missing, empty, or a score
      in [0, 5]. */
  ghost predicate Rated(c: Cell)
    reads c
  {
    c.score.Absent? || c.score.Empty? || (c.score.Decimal? && 0 <= c.score.n <= 5)
  }

  /** When every cell holds a rating, every posted score is an integer in [0, 5]. */
  lemma SnapshotScoresInRange(table: seq<TableRow>, i: int, c: Category)
    requires Snapshot(table).Some?
    requires 0 <= i < |table|
    requires forall j, k :: 0 <= j < |table| && 0 <= k < 7 && k < |table[j].cells| ==> Rated(table[j].cells[k])
    ensures |Snapshot(table).value| == |table|
    ensures var s := Score(Snapshot(table).value[i].scores, c); s.Int? && 0 <= s.value <= 5
  {
    SnapshotPositional(table, i, c);
    assert Rated(table[i].cells[Column(c)]);
  }

  /** `sendScoresToGoogleSheet` up to the request: walks the rows in order and
      pushes one record per row. Reads the cells and changes nothing. */
  method BuildRows(table: seq<TableRow>) returns (rows: Option<seq<Record>>)
    ensures rows == Snapshot(table)
  {
    var acc: seq<Record> := [];
    var i := 0;
    while i < |table|
      invariant 0 <= i <= |table|
      invariant Snapshot(table[..i]) == Some(acc)
    {
      var row := table[i];
      assert table[..i + 1][..i] == table[..i];
      if |row.cells| < 7 {
        SnapshotFailsFrom(table, i + 1);
        return None;
      }
      acc := acc + [RecordOf(row)];
      i := i + 1;
    }
    assert table[..i] == table;
    rows := Some(acc);
  }

  /** Once a prefix of the table has no snapshot, neither has the table. */
  lemma {:induction false} SnapshotFailsFrom(table: seq<TableRow>, n: int)
    requires 0 <= n <= |table|
    requires Snapshot(table[..n]).None?
    ensures Snapshot(table).None?
    decreases |table| - n
  {
    if n < |table| {
      assert table[..n + 1][..n] == table[..n];
      SnapshotFailsFrom(table, n + 1);
    } else {
      assert table[..n] == table;
    }
  }
}
