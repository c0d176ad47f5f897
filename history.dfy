/**
  `api_data`: the 30 rows with the greatest dates, newest first (the
  `ORDER BY date DESC LIMIT 30` query), rendered with `to_dict`, reversed in
  place into chronological order, and the newest one picked out as `latest`.
*/
module History {
  import opened Wrappers
  import opened Dates
  import opened Positions
  import opened Ingestion

  /** The `limit(30)` of the query. */
  const HISTORY_LIMIT: nat := 30

  function Elems(s: seq<Date>): set<Date> {
    set x | x in s
  }

  /** Newest first, no date twice. */
  predicate StrictlyDescending(s: seq<Date>) {
    forall i, j {:trigger Before(s[j], s[i])} :: 0 <= i < j < |s| ==> Before(s[j], s[i])
  }

  predicate IsNewest(m: Date, keys: set<Date>) {
    m in keys && forall k :: k in keys ==> k == m || Before(k, m)
  }

  lemma {:induction false} NewestExists(keys: set<Date>)
    requires keys != {}
    ensures exists m :: IsNewest(m, keys)
  {
    var x :| x in keys;
    if keys != {x} {
      NewestExists(keys - {x});
      var m :| IsNewest(m, keys - {x});
      if Before(m, x) {
        forall k | k in keys
          ensures k == x || Before(k, x)
        {
          BeforeIsStrictTotalOrder(k, m, x);
        }
        assert IsNewest(x, keys);
      } else {
        BeforeIsStrictTotalOrder(x, m, m);
        assert IsNewest(m, keys);
      }
    } else {
      assert IsNewest(x, keys);
    }
  }

  lemma PrependNewest(m: Date, keys: set<Date>, rest: seq<Date>)
    requires IsNewest(m, keys) && Elems(rest) == keys - {m} && StrictlyDescending(rest)
    ensures StrictlyDescending([m] + rest) && Elems([m] + rest) == keys
  {
    var s := [m] + rest;
    forall i, j | 0 <= i < j < |s| ensures Before(s[j], s[i]) {
      assert s[j] == rest[j - 1];
      if i == 0 {
        assert rest[j - 1] in Elems(rest);
      } else {
        assert s[i] == rest[i - 1];
      }
    }
    assert Elems(s) == {m} + Elems(rest);
  }

  /** All dates of `keys`, newest first: the order of `order_by(FiiPosition.date.desc())`. */
  ghost function SortedDescending(keys: set<Date>): (r: seq<Date>)
    ensures |r| == |keys| && Elems(r) == keys && StrictlyDescending(r)
    decreases keys
  {
    if keys == {} then []
    else
      NewestExists(keys);
      var m :| IsNewest(m, keys);
      var rest := SortedDescending(keys - {m});
      PrependNewest(m, keys, rest);
      [m] + rest
  }

  lemma HeadIsNewest(s: seq<Date>)
    requires StrictlyDescending(s) && s != []
    ensures IsNewest(s[0], Elems(s))
    ensures Elems(s[1..]) == Elems(s) - {s[0]}
  {
    assert s == [s[0]] + s[1..];
    forall k | k in Elems(s) ensures k == s[0] || Before(k, s[0]) {
      var p :| 0 <= p < |s| && s[p] == k;
      if p > 0 {
        assert Before(s[p], s[0]);
      }
    }
    forall k | 0 <= k < |s[1..]| ensures s[1..][k] != s[0] {
      assert s[1..][k] == s[k + 1];
      assert Before(s[k + 1], s[0]);
    }
  }

  /** Two newest-first sequences of the same dates are the same sequence. */
  lemma {:induction false} DescendingUnique(a: seq<Date>, b: seq<Date>)
    requires StrictlyDescending(a) && StrictlyDescending(b) && Elems(a) == Elems(b)
    ensures a == b
  {
    ElemsEmpty(a);
    ElemsEmpty(b);
    if a != [] {
      HeadIsNewest(a);
      HeadIsNewest(b);
      BeforeIsStrictTotalOrder(a[0], b[0], a[0]);
      assert a[0] == b[0];
      DescendingUnique(a[1..], b[1..]);
      assert a == [a[0]] + a[1..] && b == [b[0]] + b[1..];
    }
  }

  lemma ElemsEmpty(s: seq<Date>)
    ensures Elems(s) == {} <==> s == []
  {
    if s != [] {
      assert s[0] in Elems(s);
    }
  }

  lemma ElemsConcat(s: seq<Date>, t: seq<Date>)
    ensures Elems(s + t) == Elems(s) + Elems(t)
  {
  }

  lemma RejoinSplit(part: set<Date>, whole: set<Date>)
    requires part <= whole
    ensures part + (whole - part) == whole
  {
  }

  lemma ConcatDescending(top: seq<Date>, rest: seq<Date>)
    requires StrictlyDescending(top) && StrictlyDescending(rest)
    requires forall x, i :: x in rest && 0 <= i < |top| ==> Before(x, top[i])
    ensures StrictlyDescending(top + rest)
  {
    var whole := top + rest;
    forall i, j | 0 <= i < j < |whole| ensures Before(whole[j], whole[i]) {
      if j >= |top| {
        assert whole[j] == rest[j - |top|];
        if i >= |top| {
          assert whole[i] == rest[i - |top|];
        } else {
          assert whole[j] in rest;
        }
      }
    }
  }

  /**
    A newest-first run of dates from `keys` that every other date of `keys`
    precedes is the beginning of `SortedDescending(keys)`.
  */
  lemma NewestRunIsPrefix(keys: set<Date>, top: seq<Date>)
    requires StrictlyDescending(top) && Elems(top) <= keys
    requires forall k, i :: k in keys && k !in Elems(top) && 0 <= i < |top| ==> Before(k, top[i])
    ensures |top| <= |keys| && top == SortedDescending(keys)[..|top|]
  {
    var rest := SortedDescending(keys - Elems(top));
    assert forall x, i :: x in rest && 0 <= i < |top| ==> Before(x, top[i]) by {
      forall x, i | x in rest && 0 <= i < |top| ensures Before(x, top[i]) {
        assert x in Elems(rest);
      }
    }
    ConcatDescending(top, rest);
    ElemsConcat(top, rest);
    RejoinSplit(Elems(top), keys);
    var whole := top + rest;
    DescendingUnique(whole, SortedDescending(keys));
    assert whole[..|top|] == top;
  }

  /** The dates the query returns: the `limit` newest dates of the store, newest first. */
  ghost function NewestKeys(rows: map<Date, FiiPosition>, limit: nat): seq<Date> {
    SortedDescending(rows.Keys)[..Min(limit, |rows|)]
  }

  /** The rows the query returns. */
  ghost function NewestRows(rows: map<Date, FiiPosition>, limit: nat): seq<FiiPosition> {
    var keys := NewestKeys(rows, limit);
    seq(|keys|, i requires 0 <= i < |keys| => rows[keys[i]])
  }

  /** `FiiPosition.query.order_by(FiiPosition.date.desc()).limit(limit).all()` on a snapshot of the table. */
  method QueryNewest(rows: map<Date, FiiPosition>, limit: nat) returns (result: seq<FiiPosition>)
    ensures |result| == Min(limit, |rows|)
    ensures result == NewestRows(rows, limit)
  {
    var remaining := rows.Keys;
    var keys: seq<Date> := [];
    while |keys| < limit && remaining != {}
      invariant remaining <= rows.Keys
      invariant |keys| + |remaining| == |rows|
      invariant |keys| <= limit
      invariant forall i :: 0 <= i < |keys| ==> keys[i] in rows && keys[i] !in remaining
      invariant forall k :: k in rows && k !in remaining ==> k in Elems(keys)
      invariant StrictlyDescending(keys)
      invariant forall k, i :: k in remaining && 0 <= i < |keys| ==> Before(k, keys[i])
      decreases remaining
    {
      NewestExists(remaining);
      var m :| m in remaining && IsNewest(m, remaining);
      keys := keys + [m];
      remaining := remaining - {m};
    }
    assert |keys| == Min(limit, |rows|);
    NewestRunIsPrefix(rows.Keys, keys);
    result := seq(|keys|, i requires 0 <= i < |keys| => rows[keys[i]]);
  }

  function Reverse<T>(s: seq<T>): (r: seq<T>)
    ensures |r| == |s|
  {
    seq(|s|, i requires 0 <= i < |s| => s[|s| - 1 - i])
  }

  /** `list.reverse()`. */
  method ReverseInPlace<T>(a: array<T>)
    modifies a
    ensures a[..] == Reverse(old(a[..]))
  {
    var n := a.Length;
    var i := 0;
    while i < n / 2
      invariant 0 <= i <= n / 2
      invariant forall k :: 0 <= k < i ==> a[k] == old(a[n - 1 - k]) && a[n - 1 - k] == old(a[k])
      invariant forall k :: i <= k < n - i ==> a[k] == old(a[k])
    {
      a[i], a[n - 1 - i] := a[n - 1 - i], a[i];
      i := i + 1;
    }
  }

  /** `[item.to_dict() for item in rows]`. */
  function ToDicts(rows: seq<FiiPosition>): (r: seq<PositionDict>)
    ensures |r| == |rows|
    ensures forall i :: 0 <= i < |r| ==> r[i] == ToDict(rows[i])
  {
    seq(|rows|, i requires 0 <= i < |rows| => ToDict(rows[i]))
  }

  /** The rows behind `history`, oldest first. */
  ghost function HistoryRows(rows: map<Date, FiiPosition>): seq<FiiPosition> {
    Reverse(NewestRows(rows, HISTORY_LIMIT))
  }

  /** `api_data` without the `jsonify`: `latest` is `None` where the program sends `{}`. */
  method ApiData(rows: map<Date, FiiPosition>) returns (history: seq<PositionDict>, latest: Option<PositionDict>)
    ensures |history| == Min(HISTORY_LIMIT, |rows|)
    ensures history == ToDicts(HistoryRows(rows))
    ensures latest == if history == [] then None else Some(history[|history| - 1])
    ensures latest == None <==> rows == map[]
  {
    var latestData := QueryNewest(rows, HISTORY_LIMIT);
    var dataList := ToDicts(latestData);
    var a := new PositionDict[|dataList|](i requires 0 <= i < |dataList| => dataList[i]);
    assert a[..] == dataList;
    ReverseInPlace(a);
    history := a[..];
    ToDictsReverse(latestData);
    latest := if |history| > 0 then Some(history[|history| - 1]) else None;
    NonEmptyMapSize(rows);
  }

  lemma ToDictsReverse(s: seq<FiiPosition>)
    ensures ToDicts(Reverse(s)) == Reverse(ToDicts(s))
  {
  }

  lemma NonEmptyMapSize(rows: map<Date, FiiPosition>)
    ensures rows != map[] <==> |rows| > 0
  {
    if rows != map[] {
      var d :| d in rows;
    }
  }

  // ----- what `history` and `latest` hold -----

  lemma NewestKeysFacts(rows: map<Date, FiiPosition>, limit: nat)
    ensures var top := NewestKeys(rows, limit);
      && |top| == Min(limit, |rows|)
      && StrictlyDescending(top)
      && (forall i :: 0 <= i < |top| ==> top[i] in rows)
      && (forall k, i :: k in rows && k !in Elems(top) && 0 <= i < |top| ==> Before(k, top[i]))
  {
    var sorted := SortedDescending(rows.Keys);
    var top := NewestKeys(rows, limit);
    forall i | 0 <= i < |top| ensures top[i] in rows {
      assert top[i] == sorted[i] && sorted[i] in Elems(sorted);
    }
    forall k, i | k in rows && k !in Elems(top) && 0 <= i < |top| ensures Before(k, top[i]) {
      assert k in Elems(sorted);
      var p :| 0 <= p < |sorted| && sorted[p] == k;
      assert top[i] == sorted[i];
    }
  }

  lemma HistoryRowAt(rows: map<Date, FiiPosition>, i: int)
    requires KeyedByDate(rows)
    requires 0 <= i < |HistoryRows(rows)|
    ensures var top := NewestKeys(rows, HISTORY_LIMIT);
      && |HistoryRows(rows)| == |top|
      && top[|top| - 1 - i] in rows
      && HistoryRows(rows)[i] == rows[top[|top| - 1 - i]]
      && HistoryRows(rows)[i].date == top[|top| - 1 - i]
  {
    var top := NewestKeys(rows, HISTORY_LIMIT);
    var newest := NewestRows(rows, HISTORY_LIMIT);
    NewestKeysFacts(rows, HISTORY_LIMIT);
    assert |newest| == |top|;
    assert HistoryRows(rows)[i] == newest[|top| - 1 - i];
    assert newest[|top| - 1 - i] == rows[top[|top| - 1 - i]];
  }

  /** `history` holds `min(30, n)` rows of the store, each the row stored under its date. */
  lemma HistoryFromStore(rows: map<Date, FiiPosition>)
    requires KeyedByDate(rows)
    ensures |HistoryRows(rows)| == Min(HISTORY_LIMIT, |rows|)
    ensures forall i :: 0 <= i < |HistoryRows(rows)| ==>
      HistoryRows(rows)[i].date in rows && rows[HistoryRows(rows)[i].date] == HistoryRows(rows)[i]
  {
  }

  /** `history` is in chronological order, with no date twice. */
  lemma HistoryAscending(rows: map<Date, FiiPosition>)
    requires KeyedByDate(rows)
    ensures forall i, j :: 0 <= i < j < |HistoryRows(rows)| ==>
      Before(HistoryRows(rows)[i].date, HistoryRows(rows)[j].date)
  {
  }

  /** Every stored date left out of `history` is older than every date in it. */
  lemma HistoryHoldsNewest(rows: map<Date, FiiPosition>)
    requires KeyedByDate(rows)
    ensures forall k, i ::
      (k in rows && (forall j :: 0 <= j < |HistoryRows(rows)| ==> HistoryRows(rows)[j].date != k)
       && 0 <= i < |HistoryRows(rows)|) ==> Before(k, HistoryRows(rows)[i].date)
  {
    var h := HistoryRows(rows);
    var top := NewestKeys(rows, HISTORY_LIMIT);
    NewestKeysFacts(rows, HISTORY_LIMIT);
    forall k, i | k in rows && (forall j :: 0 <= j < |h| ==> h[j].date != k) && 0 <= i < |h|
      ensures Before(k, h[i].date)
    {
      if k in Elems(top) {
        var p :| 0 <= p < |top| && top[p] == k;
        HistoryRowAt(rows, |top| - 1 - p);
        assert false;
      }
      HistoryRowAt(rows, i);
    }
  }

  /** With at most 30 rows stored, `history` holds every one of them. */
  lemma HistoryHoldsAllWhenFew(rows: map<Date, FiiPosition>)
    requires KeyedByDate(rows) && |rows| <= HISTORY_LIMIT
    ensures forall k :: k in rows ==> exists i :: 0 <= i < |HistoryRows(rows)| && HistoryRows(rows)[i] == rows[k]
  {
    var h := HistoryRows(rows);
    var top := NewestKeys(rows, HISTORY_LIMIT);
    NewestKeysFacts(rows, HISTORY_LIMIT);
    forall k | k in rows ensures exists i :: 0 <= i < |h| && h[i] == rows[k] {
      var sorted := SortedDescending(rows.Keys);
      assert k in Elems(sorted);
      var p :| 0 <= p < |sorted| && sorted[p] == k;
      assert top[p] == k;
      HistoryRowAt(rows, |top| - 1 - p);
      assert h[|top| - 1 - p] == rows[k];
    }
  }

  /** `latest` is the row with the newest stored date; with nothing stored, both outputs are empty. */
  lemma LatestIsNewest(rows: map<Date, FiiPosition>)
    requires KeyedByDate(rows)
    ensures rows == map[] ==> HistoryRows(rows) == []
    ensures rows != map[] ==> var h := HistoryRows(rows);
      |h| > 0 && IsNewest(h[|h| - 1].date, rows.Keys) && h[|h| - 1] == rows[h[|h| - 1].date]
  {
  }

  /** The `date` strings of `history` increase as strings too, as a chart's category axis reads them. */
  lemma HistoryDateStringsAscending(rows: map<Date, FiiPosition>)
    requires KeyedByDate(rows)
    ensures var dicts := ToDicts(HistoryRows(rows));
      forall i, j :: 0 <= i < j < |dicts| ==> StrLess(dicts[i].date, dicts[j].date)
  {
    HistoryAscending(rows);
    var h := HistoryRows(rows);
    var dicts := ToDicts(h);
    forall i, j | 0 <= i < j < |dicts| ensures StrLess(dicts[i].date, dicts[j].date) {
      FormatDateOrder(h[i].date, h[j].date);
    }
  }
}
