/**
 * The click rule of a score cell: read the `data-score` attribute with
 * `parseInt`, compute the next score, and write it back.
 *
 * Scores are JavaScript numbers. A missing or empty attribute parses to NaN,
 * and NaN flows through the rule unchanged (`NaN == 5` is false and
 * `NaN % 5 + 1` is NaN), so the model keeps NaN as a value of its own.
 */
module Scoring {

  /** A JavaScript number as the click rule can produce it: an integer or NaN. */
  datatype JsInt = NaN | Int(value: int)

  /** The `data-score` attribute of a cell: absent, the empty string, the
      decimal text of an integer, or the text "NaN" that `setAttribute` writes
      for a NaN score. */
  datatype Attr = Absent | Empty | Decimal(n: int) | NaNText

  /** JavaScript's integer division quotient, rounded toward zero. */
  function TruncQuot(a: int, b: int): int
    requires b > 0
  {
    if a >= 0 then a / b else -((-a) / b)
  }

  /** JavaScript's `%` on integers: truncated division, so the remainder takes
      the sign of the dividend (unlike Dafny's Euclidean `%`). */
  function TruncRem(a: int, b: int): (r: int)
    requires b > 0
    ensures a == TruncQuot(a, b) * b + r
    ensures -b < r < b
    ensures a >= 0 ==> r >= 0
    ensures a < 0 ==> r <= 0
  {
    if a >= 0 then a % b else -((-a) % b)
  }

  /** `parseInt(cell.getAttribute('data-score'))`. */
  function ParseInt(a: Attr): (s: JsInt)
    ensures s.Int? <==> a.Decimal?
    ensures a.Decimal? ==> s.value == a.n
  {
    match a
    case Decimal(n) => Int(n)
    case _ => NaN
  }

  /** `cell.setAttribute('data-score', s)`: the number converted to text. */
  function Render(s: JsInt): (a: Attr)
    ensures ParseInt(a) == s
    ensures a != Absent && a != Empty
  {
    match s
    case NaN => NaNText
    case Int(v) => Decimal(v)
  }

  /** The scoring rule: 5 becomes 0, anything else `(current % 5) + 1`. */
  function NextScore(c: JsInt): (r: JsInt)
    ensures r.NaN? <==> c.NaN?
    ensures c.Int? && c.value >= 0 ==> 0 <= r.value <= 5
    ensures c.Int? && c.value < 0 ==> -3 <= r.value <= 1
  {
    match c
    case NaN => NaN
    case Int(v) => if v == 5 then Int(0) else Int(TruncRem(v, 5) + 1)
  }

  /** The attribute of a cell after one click on it. */
  function Clicked(a: Attr): (b: Attr)
    ensures ParseInt(b) == NextScore(ParseInt(a))
  {
    Render(NextScore(ParseInt(a)))
  }

  /** The attribute of a cell after `n` clicks on it. */
  function Clicks(a: Attr, n: nat): Attr
  {
    if n == 0 then a else Clicked(Clicks(a, n - 1))
  }

  /** On a rating, the rule steps up by one and wraps from 5 to 0. */
  lemma NextScoreOnRating(r: int)
    requires 0 <= r <= 5
    ensures NextScore(Int(r)) == if r == 5 then Int(0) else Int(r + 1)
  {
  }

  /** Counting up by one modulo 6 wraps from 5 to 0. */
  lemma ModSixStep(k: nat)
    ensures (k + 1) % 6 == if k % 6 == 5 then 0 else k % 6 + 1
  {
    var q, m := k / 6, k % 6;
    assert k + 1 == 6 * q + (m + 1);
    if m == 5 {
      assert k + 1 == 6 * (q + 1);
    }
  }

  /** From a rating `r`, `n` clicks give the rating `(r + n) mod 6`: the rule
      walks the cycle 0, 1, 2, 3, 4, 5, 0, ... and never leaves [0, 5]. */
  lemma {:induction false} ClicksFromRating(r: int, n: nat)
    requires 0 <= r <= 5
    ensures Clicks(Decimal(r), n) == Decimal((r + n) % 6)
  {
    if n > 0 {
      ClicksFromRating(r, n - 1);
      var m := (r + n - 1) % 6;
      NextScoreOnRating(m);
      ModSixStep(r + n - 1);
      assert Clicks(Decimal(r), n) == Clicked(Decimal(m));
    }
  }

  /** Six clicks bring a rated cell back to where it started, and no fewer do. */
  lemma ClicksPeriodSix(r: int)
    requires 0 <= r <= 5
    ensures Clicks(Decimal(r), 6) == Decimal(r)
    ensures forall n: nat :: 0 < n < 6 ==> Clicks(Decimal(r), n) != Decimal(r)
  {
    var six := 6;
    ClicksFromRating(r, six);
    assert (r + six) % 6 == r;
    forall n: nat | 0 < n < 6
      ensures Clicks(Decimal(r), n) != Decimal(r)
    {
      ClicksFromRating(r, n);
    }
  }

  /** A cell whose attribute is missing, empty or already "NaN" is stuck: every
      click writes "NaN" again, so it can never be rated. */
  lemma {:induction false} ClicksFromUnrated(a: Attr, n: nat)
    requires a == Absent || a == Empty || a == NaNText
    requires n >= 1
    ensures Clicks(a, n) == NaNText
  {
    if n > 1 {
      ClicksFromUnrated(a, n - 1);
    }
  }
}
