/**
 * A score cell of the rating table: its `data-score` attribute and its
 * rendered children. `updateCellDisplay` clears the cell and appends one
 * pizza-slice element per point of the score.
 */
module Cells {
  import opened Scoring

  /** A child element of a cell: a pizza slice, or any other markup the cell
      held before it was first redrawn. */
  datatype Node = PizzaSlice | Markup(html: string)

  /** The number of iterations of `for (let i = 0; i < score; i++)`: none for
      NaN or a score that is not positive. */
  function SliceCount(s: JsInt): (n: nat)
    ensures s.Int? && s.value >= 0 ==> n == s.value
    ensures s.NaN? || s.value <= 0 ==> n == 0
  {
    if s.Int? && s.value > 0 then s.value else 0
  }

  /** `n` pizza slices and nothing else. */
  function Slices(n: nat): (cs: seq<Node>)
    ensures |cs| == n
    ensures forall k :: 0 <= k < n ==> cs[k] == PizzaSlice
  {
    seq(n, _ => PizzaSlice)
  }

  /** `i < s` in JavaScript, for an integer `i` and a score that may be NaN. */
  predicate Below(i: int, s: JsInt) {
    s.Int? && i < s.value
  }

  class Cell {
    /** The `data-score` attribute: the one store of this cell's score. */
    var score: Attr
    /** The cell's child elements, in document order. */
    var children: seq<Node>

    constructor (score: Attr, children: seq<Node>)
      ensures this.score == score && this.children == children
    {
      this.score := score;
      this.children := children;
    }

    /** `updateCellDisplay(cell, s)`: afterwards the cell holds exactly
        `SliceCount(s)` slices and none of its earlier children. */
    method UpdateDisplay(s: JsInt)
      modifies this`children
      ensures score == old(score)
      ensures children == Slices(SliceCount(s))
    {
      children := [];
      var i := 0;
      while Below(i, s)
        invariant 0 <= i <= SliceCount(s)
        invariant children == Slices(i)
        decreases SliceCount(s) - i
      {
        children := children + [PizzaSlice];
        i := i + 1;
      }
    }
  }

  /** What the cell shows agrees with what its attribute says: rendering a
      score and reading it back gives the same number of slices. */
  lemma DisplayMatchesAttribute(s: JsInt)
    ensures SliceCount(ParseInt(Render(s))) == SliceCount(s)
    ensures s == Int(0) ==> Slices(SliceCount(s)) == []
  {
  }
}
