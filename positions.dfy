/**
  The `FiiPosition` table row (one per calendar date) and its `to_dict`
  rendering for the JSON response.
*/
module Positions {
  import opened Wrappers
  import opened Dates

  /** One stored row. The surrogate `id` column is not modelled. */
  datatype FiiPosition = FiiPosition(
    date: Date,
    longContracts: int,
    shortContracts: int,
    netContracts: int,
    longRatio: real)

  /** The dictionary `to_dict` returns, keyed as in the JSON body. */
  datatype PositionDict = PositionDict(
    date: string,
    longContracts: int,
    shortContracts: int,
    netContracts: int,
    longRatio: real)

  /** `(long_contracts / total_oi) * 100`, computed exactly; Python raises when the total is zero. */
  function LongRatio(long: int, short: int): (r: real)
    requires long + short != 0
    ensures r * (long + short) as real == long as real * 100.0
    ensures 0 <= long && 0 <= short ==> 0.0 <= r <= 100.0
  {
    var total := (long + short) as real;
    var fraction := long as real / total;
    FractionBounds(long as real, total);
    fraction * 100.0
  }

  lemma FractionBounds(part: real, total: real)
    requires total != 0.0
    ensures (part / total) * total == part
    ensures 0.0 <= part <= total ==> 0.0 <= part / total <= 1.0
  {
  }

  /** The derived columns agree with the stored counts. */
  predicate Consistent(p: FiiPosition) {
    && p.netContracts == p.longContracts - p.shortContracts
    && p.longContracts + p.shortContracts != 0
    && p.longRatio == LongRatio(p.longContracts, p.shortContracts)
  }

  /**
    `FiiPosition.to_dict`: the date rendered as `YYYY-MM-DD`, the integer
    columns copied. The ratio is copied exactly: `round(..., 2)` on a float
    is not modelled.
  */
  function ToDict(p: FiiPosition): (d: PositionDict)
    ensures |d.date| == 10 && ParseDate(d.date) == Some(p.date)
    ensures d.longContracts == p.longContracts
    ensures d.shortContracts == p.shortContracts
    ensures d.netContracts == p.netContracts
    ensures d.longRatio == p.longRatio
  {
    FormatThenParse(p.date);
    PositionDict(FormatDate(p.date), p.longContracts, p.shortContracts, p.netContracts, p.longRatio)
  }

  /**
    Rows of different dates render differently, and two consistent rows that
    render alike are the same row. Both also hold with the ratio rounded,
    since a consistent row's ratio follows from its counts.
  */
  lemma ToDictInjective(p: FiiPosition, q: FiiPosition)
    ensures p.date != q.date ==> ToDict(p) != ToDict(q)
    ensures Consistent(p) && Consistent(q) && ToDict(p) == ToDict(q) ==> p == q
  {
  }
}
