/**
  `update_fii_data`: insert one row for "today" unless one already exists.
  The database session becomes a map from date to row held by a `FiiStore`
  object; the wall-clock date and the fetched counts become parameters.
*/
module Ingestion {
  import opened Dates
  import opened Positions

  /** How a call ended: the early return, the commit, or the `ZeroDivisionError` (nothing committed). */
  datatype Outcome = AlreadyExists | Inserted | DivisionByZero

  datatype IngestResult = IngestResult(rows: map<Date, FiiPosition>, outcome: Outcome)

  /** Each row is filed under its own date, so no date has two rows (the unique `date` column). */
  ghost predicate KeyedByDate(rows: map<Date, FiiPosition>)
    ensures KeyedByDate(rows) ==>
      forall d1, d2 :: d1 in rows && d2 in rows && rows[d1].date == rows[d2].date ==> d1 == d2
  {
    forall d :: d in rows ==> rows[d].date == d
  }

  /** The store holds only rows whose derived columns agree with their counts. */
  ghost predicate StoreInvariant(rows: map<Date, FiiPosition>) {
    KeyedByDate(rows) && forall d :: d in rows ==> Consistent(rows[d])
  }

  /** The dates carried by the stored rows that equal `day`. */
  ghost function RowsDated(rows: map<Date, FiiPosition>, day: Date): set<Date> {
    set d | d in rows && rows[d].date == day
  }

  /** The effect of one call of `update_fii_data` on the store. */
  function Ingest(rows: map<Date, FiiPosition>, today: Date, long: int, short: int): (r: IngestResult)
    ensures today in rows ==> r == IngestResult(rows, AlreadyExists)
    ensures today !in rows && long + short == 0 ==> r == IngestResult(rows, DivisionByZero)
    ensures r.outcome == Inserted <==> today !in rows && long + short != 0
    ensures r.rows.Keys == rows.Keys + (if r.outcome == Inserted then {today} else {})
    ensures forall d :: d in rows ==> d in r.rows && r.rows[d] == rows[d]
    ensures r.outcome == Inserted ==>
      && r.rows[today].date == today
      && r.rows[today].longContracts == long
      && r.rows[today].shortContracts == short
      && r.rows[today].netContracts == long - short
      && r.rows[today].longRatio * (long + short) as real == long as real * 100.0
  {
    if today in rows then IngestResult(rows, AlreadyExists)
    else if long + short == 0 then IngestResult(rows, DivisionByZero)
    else
      var record := FiiPosition(today, long, short, long - short, LongRatio(long, short));
      IngestResult(rows[today := record], Inserted)
  }

  class FiiStore {
    var rows: map<Date, FiiPosition>

    ghost predicate Valid()
      reads this
    {
      StoreInvariant(rows)
    }

    /** An empty table, as `db.create_all()` leaves a fresh database. */
    constructor ()
      ensures Valid() && rows == map[]
    {
      rows := map[];
    }

    method UpdateFiiData(today: Date, long: int, short: int) returns (outcome: Outcome)
      requires Valid()
      modifies this
      ensures Valid()
      ensures IngestResult(rows, outcome) == Ingest(old(rows), today, long, short)
    {
      if today in rows {
        outcome := AlreadyExists;
        return;
      }
      var netContracts := long - short;
      var totalOi := long + short;
      if totalOi == 0 {
        outcome := DivisionByZero;
        return;
      }
      var longRatio := (long as real / totalOi as real) * 100.0;
      var newData := FiiPosition(today, long, short, netContracts, longRatio);
      rows := rows[today := newData];
      outcome := Inserted;
    }
  }

  lemma IngestPreservesInvariant(rows: map<Date, FiiPosition>, today: Date, long: int, short: int)
    requires StoreInvariant(rows)
    ensures StoreInvariant(Ingest(rows, today, long, short).rows)
  {
  }

  /** A second call on the same day changes nothing, whatever counts it is given. */
  lemma IngestIdempotent(rows: map<Date, FiiPosition>, today: Date, long: int, short: int, long2: int, short2: int)
    requires Ingest(rows, today, long, short).outcome != DivisionByZero
    ensures var once := Ingest(rows, today, long, short).rows;
      Ingest(once, today, long2, short2) == IngestResult(once, AlreadyExists)
  {
  }

  /** Running the same call twice leaves the same store as running it once. */
  lemma IngestTwiceIsOnce(rows: map<Date, FiiPosition>, today: Date, long: int, short: int)
    ensures var once := Ingest(rows, today, long, short).rows;
      Ingest(once, today, long, short).rows == once
  {
  }

  /** After a call that did not fail, exactly one stored row carries today's date. */
  lemma ExactlyOneRowForToday(rows: map<Date, FiiPosition>, today: Date, long: int, short: int)
    requires StoreInvariant(rows)
    requires Ingest(rows, today, long, short).outcome != DivisionByZero
    ensures RowsDated(Ingest(rows, today, long, short).rows, today) == {today}
  {
  }

  /** The row the program inserts with its placeholder counts 190000 and 180000. */
  lemma PlaceholderCounts(rows: map<Date, FiiPosition>, today: Date)
    requires today !in rows
    ensures var r := Ingest(rows, today, 190000, 180000);
      && r.outcome == Inserted
      && r.rows[today].netContracts == 10000
      && 51.35 <= r.rows[today].longRatio < 51.36
  {
  }
}
