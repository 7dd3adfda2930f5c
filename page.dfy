/**
 * The click listener attached to every score cell: compute the next score,
 * write it to the cell's attribute, redraw the cell, build and post the
 * snapshot of the whole table, then restart the debounce timer.
 */
module Page {
  import opened Wrappers
  import opened Scoring
  import opened Cells
  import opened Snapshots
  import opened Debounce

  class RatingPage {
    /** The rows of `#pizzaTable tbody`, in document order. */
    const table: seq<TableRow>
    /** The module-level debounce timer. */
    const debouncer: Debouncer

    constructor (table: seq<TableRow>)
      ensures this.table == table
      ensures fresh(debouncer) && debouncer.State() == Timer(None, 0)
    {
      this.table := table;
      debouncer := new Debouncer();
    }

    /** A click on `cell` at time `now`. Returns the `rows` payload that is
        posted, or `None` when building it throws, which also skips
        `debounceSubmit`. Only `cell` and the timer change. */
    method Click(cell: Cell, now: int) returns (posted: Option<seq<Record>>)
      modifies cell, debouncer
      ensures cell.score == Clicked(old(cell.score))
      ensures cell.children == Slices(SliceCount(ParseInt(cell.score)))
      ensures posted == Snapshot(table)
      ensures posted.Some? ==> |posted.value| == |table|
      ensures posted.Some? ==>
        forall i, c :: 0 <= i < |table| && Column(c) < |table[i].cells| && table[i].cells[Column(c)] == cell
          ==> Score(posted.value[i].scores, c) == CellScore(cell.score)
      ensures posted.Some? ==> debouncer.State() == Step(old(debouncer.State()), Call(now))
      ensures posted.None? ==> debouncer.State() == old(debouncer.State())
    {
      var next := NextScore(ParseInt(cell.score));
      cell.score := Render(next);
      cell.UpdateDisplay(next);
      posted := BuildRows(table);
      if posted.Some? {
        SnapshotShape(table);
        forall i, c | 0 <= i < |table| && Column(c) < |table[i].cells| && table[i].cells[Column(c)] == cell
          ensures Score(posted.value[i].scores, c) == CellScore(cell.score)
        {
          SnapshotPositional(table, i, c);
        }
        label BeforeNotify:
        debouncer.Notify(now);
        assert forall c | c in TableCells(table) :: unchanged@BeforeNotify(c);
      }
    }
  }
}
