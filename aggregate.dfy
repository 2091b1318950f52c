/** aggregator: join the roster, filtered by name, with the collected sales. */
module Aggregate {
  import opened Wrappers
  import opened Text
  import opened Roster

  /** A row of the collected price table: the player, the sale price (NaN when
      missing) and the lot link (NaN when the lot fragment had no link). The
      other columns ride along unchanged and are not modelled. */
  datatype Sale = Sale(name: string, price: Option<real>, lotUrl: Option<string>)

  /** A statistics row kept by the name-level span filter, with its player's
      first and last numeric year. */
  datatype RosterEntry = RosterEntry(row: StatRow, firstYear: int, lastYear: int)

  /** A row of the merged table. */
  datatype Joined = Joined(entry: RosterEntry, sale: Sale, yearRelease: int)

  /** The characters of the lot link holding the card's release year. */
  const ReleaseFrom := 53
  const ReleaseTo := 57

  /** lot_url[53:57], coerced to a number: missing when the link has no
      character past index 52 or a non-digit among characters 53 to 56; the
      four-digit number those characters spell when the link is long enough. */
  function YearRelease(lotUrl: string): (y: Option<int>)
    ensures y.Some? <==> |lotUrl| > ReleaseFrom && forall k :: ReleaseFrom <= k < ReleaseTo && k < |lotUrl| ==> IsDigit(lotUrl[k])
    ensures y.Some? ==> 0 <= y.value < 10000
    ensures |lotUrl| >= ReleaseTo && (forall k :: ReleaseFrom <= k < ReleaseTo ==> IsDigit(lotUrl[k])) ==>
              y == Some(DigitOf(lotUrl[53]) * 1000 + DigitOf(lotUrl[54]) * 100 + DigitOf(lotUrl[55]) * 10 + DigitOf(lotUrl[56]))
  {
    var text := Slice(lotUrl, ReleaseFrom, ReleaseTo);
    assert forall k :: 0 <= k < |text| ==> text[k] == lotUrl[ReleaseFrom + k];
    Pow10Grows(|text|, ReleaseTo - ReleaseFrom);
    assert Pow10(4) == 10000;
    if |text| == 4 && forall k :: 0 <= k < 4 ==> IsDigit(text[k]) then
      FourDigits(text);
      ParseNumber(text)
    else
      ParseNumber(text)
  }

  /** The name-grouped roster: one entry per statistics row of a qualifying
      player, in table order, carrying the player's first and last year. */
  function RosterOf(all: seq<StatRow>, rest: seq<StatRow>): (roster: seq<RosterEntry>)
    ensures forall e :: e in roster ==> e.row in rest && InSpan(all, e.row, false)
    ensures forall r :: r in rest && InSpan(all, r, false) ==> exists e :: e in roster && e.row == r
    ensures forall e :: e in roster ==>
              var ys := GroupYears(all, e.row, false);
              |ys| > 0 && e.firstYear == Min(ys) && e.lastYear == Max(ys)
  {
    if rest == [] then []
    else
      assert rest == [rest[0]] + rest[1..];
      var r := rest[0];
      var ys := GroupYears(all, r, false);
      (if InSpan(all, r, false) then [RosterEntry(r, Min(ys), Max(ys))] else [])
        + RosterOf(all, rest[1..])
  }

  /** min(df_stats["first_year"]) over a non-empty roster. */
  function MinFirstYear(roster: seq<RosterEntry>): (m: int)
    requires |roster| > 0
    ensures exists e :: e in roster && e.firstYear == m
    ensures forall e :: e in roster ==> m <= e.firstYear
  {
    if |roster| == 1 then roster[0].firstYear
    else
      assert roster == [roster[0]] + roster[1..];
      var m := MinFirstYear(roster[1..]);
      if roster[0].firstYear <= m then roster[0].firstYear else m
  }

  /** A sale with a release year at or above the floor, paired with that year.
      A NaN year compares false and is dropped. */
  function AboveFloor(sales: seq<Sale>, floor: int): (kept: seq<(Sale, int)>)
    requires forall s :: s in sales ==> s.lotUrl.Some?
    ensures forall p :: p in kept <==>
              p.0 in sales && YearRelease(p.0.lotUrl.value) == Some(p.1) && p.1 >= floor
  {
    if sales == [] then []
    else
      assert sales == [sales[0]] + sales[1..];
      var s := sales[0];
      var y := YearRelease(s.lotUrl.value);
      (if y.Some? && y.value >= floor then [(s, y.value)] else []) + AboveFloor(sales[1..], floor)
  }

  /** The sales of one roster entry's player (the inner join for that row). */
  function MatchSales(e: RosterEntry, priced: seq<(Sale, int)>): (rows: seq<Joined>)
    ensures forall j :: j in rows <==>
              j.entry == e && (j.sale, j.yearRelease) in priced && j.sale.name == e.row.name
  {
    if priced == [] then []
    else
      assert priced == [priced[0]] + priced[1..];
      var p := priced[0];
      (if p.0.name == e.row.name then [Joined(e, p.0, p.1)] else []) + MatchSales(e, priced[1..])
  }

  /** pd.merge(roster, priced, on=['name'], how='inner'), in roster order. */
  function Merge(roster: seq<RosterEntry>, priced: seq<(Sale, int)>): (rows: seq<Joined>)
    ensures forall j :: j in rows <==>
              j.entry in roster && (j.sale, j.yearRelease) in priced && j.sale.name == j.entry.row.name
  {
    if roster == [] then []
    else
      assert roster == [roster[0]] + roster[1..];
      MatchSales(roster[0], priced) + Merge(roster[1..], priced)
  }

  /** The two filters after the merge: first_year <= year_release, then dropna on price. */
  function KeepDated(rows: seq<Joined>): (kept: seq<Joined>)
    ensures forall j :: j in kept <==> j in rows && j.entry.firstYear <= j.yearRelease && j.sale.price.Some?
  {
    if rows == [] then []
    else
      assert rows == [rows[0]] + rows[1..];
      var j := rows[0];
      (if j.entry.firstYear <= j.yearRelease && j.sale.price.Some? then [j] else []) + KeepDated(rows[1..])
  }

  /** aggregator. Fails where the source raises: dropping the first row of an
      empty statistics table, slicing a missing lot link, taking the minimum
      first year of an empty roster. */
  function Aggregate(stats: seq<StatRow>, sales: seq<Sale>): (r: Result<seq<Joined>>)
    ensures r.Crash? <==>
              |stats| == 0 || (exists s :: s in sales && s.lotUrl.None?) || |RosterOf(stats[1..], stats[1..])| == 0
    ensures r.Ok? ==> forall j :: j in r.value <==>
              Admissible(stats[1..], sales, j) && j.yearRelease >= MinFirstYear(RosterOf(stats[1..], stats[1..]))
  {
    if |stats| == 0 then Crash("IndexError: no first row to drop")
    else if exists s :: s in sales && s.lotUrl.None? then Crash("TypeError: NaN lot_url cannot be sliced")
    else
      var data := stats[1..];
      var roster := RosterOf(data, data);
      if |roster| == 0 then Crash("ValueError: min() of an empty roster")
      else
        var floor := MinFirstYear(roster);
        var priced := AboveFloor(sales, floor);
        var out := KeepDated(Merge(roster, priced));
        KeptRows(data, sales, roster, floor);
        Ok(out)
  }

  // ------------------------------------------------------------------ counts

  /** e is the roster entry a qualifying row of all gets: that row with its
      group's first and last year. */
  predicate EntryOf(all: seq<StatRow>, e: RosterEntry) {
    InSpan(all, e.row, false) &&
    var ys := GroupYears(all, e.row, false);
    e.firstYear == Min(ys) && e.lastYear == Max(ys)
  }

  /** The roster holds one entry per occurrence of a qualifying row. */
  lemma {:induction false} RosterCount(all: seq<StatRow>, rest: seq<StatRow>, e: RosterEntry)
    ensures multiset(RosterOf(all, rest))[e] == if EntryOf(all, e) then multiset(rest)[e.row] else 0
  {
    if rest != [] {
      assert rest == [rest[0]] + rest[1..];
      RosterCount(all, rest[1..], e);
    }
  }

  /** A sale occurring k times survives the floor k times, or not at all. */
  lemma {:induction false} AboveFloorCount(sales: seq<Sale>, floor: int, p: (Sale, int))
    requires forall s :: s in sales ==> s.lotUrl.Some?
    ensures multiset(AboveFloor(sales, floor))[p] ==
              if p.0.lotUrl.Some? && YearRelease(p.0.lotUrl.value) == Some(p.1) && p.1 >= floor
              then multiset(sales)[p.0] else 0
  {
    if sales != [] {
      assert sales == [sales[0]] + sales[1..];
      AboveFloorCount(sales[1..], floor, p);
    }
  }

  /** One joined row per occurrence of a surviving sale of the entry's player. */
  lemma {:induction false} MatchSalesCount(e: RosterEntry, priced: seq<(Sale, int)>, j: Joined)
    ensures multiset(MatchSales(e, priced))[j] ==
              if j.entry == e && j.sale.name == e.row.name then multiset(priced)[(j.sale, j.yearRelease)] else 0
  {
    if priced != [] {
      assert priced == [priced[0]] + priced[1..];
      MatchSalesCount(e, priced[1..], j);
    }
  }

  /** m copies of n: the count of a pair drawn from m and n occurrences. */
  function Times(m: nat, n: nat): nat {
    if m == 0 then 0 else n + Times(m - 1, n)
  }

  /** The inner join emits a pair once for every roster occurrence times every
      sale occurrence with the same name. */
  lemma {:induction false} MergeCount(roster: seq<RosterEntry>, priced: seq<(Sale, int)>, j: Joined)
    ensures multiset(Merge(roster, priced))[j] ==
              if j.sale.name == j.entry.row.name
              then Times(multiset(roster)[j.entry], multiset(priced)[(j.sale, j.yearRelease)]) else 0
  {
    if roster != [] {
      var head, tail := roster[0], roster[1..];
      assert roster == [head] + tail;
      var whole := Merge(roster, priced);
      assert whole == MatchSales(head, priced) + Merge(tail, priced);
      assert multiset(whole)[j] == multiset(MatchSales(head, priced))[j] + multiset(Merge(tail, priced))[j];
      MatchSalesCount(head, priced, j);
      MergeCount(tail, priced, j);
      var t := multiset(tail)[j.entry];
      if head == j.entry {
        assert multiset(roster)[j.entry] == t + 1;
        assert Times(t + 1, multiset(priced)[(j.sale, j.yearRelease)])
            == multiset(priced)[(j.sale, j.yearRelease)] + Times(t, multiset(priced)[(j.sale, j.yearRelease)]);
      } else {
        assert multiset(roster)[j.entry] == t;
      }
    }
  }


  /** The filters keep every occurrence of a passing row and none of a failing one. */
  lemma {:induction false} KeepDatedCount(rows: seq<Joined>, j: Joined)
    ensures multiset(KeepDated(rows))[j] ==
              if j.entry.firstYear <= j.yearRelease && j.sale.price.Some? then multiset(rows)[j] else 0
  {
    if rows != [] {
      assert rows == [rows[0]] + rows[1..];
      KeepDatedCount(rows[1..], j);
    }
  }

  /** No copies of anything, or m copies of nothing, is nothing. */
  lemma {:induction false} TimesZero(m: nat)
    ensures Times(m, 0) == 0 && Times(0, m) == 0
  {
    if m > 0 {
      TimesZero(m - 1);
    }
  }

  /** The count of a joined row after the floor, the merge and the filters,
      for a floor no larger than any first year of the roster. */
  lemma PipelineCount(data: seq<StatRow>, sales: seq<Sale>, floor: int, j: Joined)
    requires forall s :: s in sales ==> s.lotUrl.Some?
    requires forall e :: e in RosterOf(data, data) ==> floor <= e.firstYear
    ensures multiset(KeepDated(Merge(RosterOf(data, data), AboveFloor(sales, floor))))[j] ==
              if Admissible(data, sales, j) then Times(multiset(data)[j.entry.row], multiset(sales)[j.sale]) else 0
  {
    var roster := RosterOf(data, data);
    var priced := AboveFloor(sales, floor);
    var merged := Merge(roster, priced);
    KeepDatedCount(merged, j);
    MergeCount(roster, priced, j);
    var rc, pc := multiset(roster)[j.entry], multiset(priced)[(j.sale, j.yearRelease)];
    if Admissible(data, sales, j) {
      RosterCount(data, data, j.entry);
      AboveFloorCount(sales, floor, (j.sale, j.yearRelease));
      assert floor <= j.entry.firstYear;
      assert EntryOf(data, j.entry);
    } else if j.sale.name == j.entry.row.name && j.entry.firstYear <= j.yearRelease && j.sale.price.Some? {
      TimesZero(rc);
      TimesZero(pc);
      if rc != 0 {
        assert j.entry in roster;
        AboveFloorCount(sales, floor, (j.sale, j.yearRelease));
        assert pc == 0;
      }
    }
  }

  /** The aggregated table has one row for each pair of a statistics row and a
      sale that are admissible together: an admissible row occurs as often as
      its statistics row times its sale, and no other row occurs. */
  lemma AggregateCount(stats: seq<StatRow>, sales: seq<Sale>, j: Joined)
    requires Aggregate(stats, sales).Ok?
    ensures multiset(Aggregate(stats, sales).value)[j] ==
              if Admissible(stats[1..], sales, j) then Times(multiset(stats[1..])[j.entry.row], multiset(sales)[j.sale]) else 0
  {
    var data := stats[1..];
    var roster := RosterOf(data, data);
    var floor := MinFirstYear(roster);
    assert Aggregate(stats, sales).value == KeepDated(Merge(roster, AboveFloor(sales, floor)));
    PipelineCount(data, sales, floor, j);
  }

  // ---------------------------------------------------------- specification

  /** The rows the merge and the two filters keep, as a condition on each row. */
  lemma KeptRows(data: seq<StatRow>, sales: seq<Sale>, roster: seq<RosterEntry>, floor: int)
    requires roster == RosterOf(data, data)
    requires forall s :: s in sales ==> s.lotUrl.Some?
    ensures forall j :: j in KeepDated(Merge(roster, AboveFloor(sales, floor))) <==>
              Admissible(data, sales, j) && j.yearRelease >= floor
  {
    var priced := AboveFloor(sales, floor);
    var merged := Merge(roster, priced);
    forall j
      ensures j in KeepDated(merged) <==> Admissible(data, sales, j) && j.yearRelease >= floor
    {
      assert j in KeepDated(merged) <==> j in merged && j.entry.firstYear <= j.yearRelease && j.sale.price.Some?;
      assert j in merged <==> j.entry in roster && (j.sale, j.yearRelease) in priced && j.sale.name == j.entry.row.name;
      assert (j.sale, j.yearRelease) in priced <==>
               j.sale in sales && YearRelease(j.sale.lotUrl.value) == Some(j.yearRelease) && j.yearRelease >= floor;
    }
  }

  /** j joins a qualifying player's statistics row with one of that player's
      priced sales whose release year is not before the player's first year. */
  predicate Admissible(data: seq<StatRow>, sales: seq<Sale>, j: Joined) {
    j.entry in RosterOf(data, data) && j.sale in sales && j.sale.name == j.entry.row.name
    && j.sale.lotUrl.Some? && YearRelease(j.sale.lotUrl.value) == Some(j.yearRelease)
    && j.entry.firstYear <= j.yearRelease && j.sale.price.Some?
  }

  /** The global floor never removes a row the per-player check keeps (every
      roster first year is at or above the roster minimum), so the aggregated
      rows are exactly the admissible ones. */
  lemma FloorIsRedundant(stats: seq<StatRow>, sales: seq<Sale>)
    requires Aggregate(stats, sales).Ok?
    ensures forall j :: j in Aggregate(stats, sales).value <==> Admissible(stats[1..], sales, j)
  {
    var roster := RosterOf(stats[1..], stats[1..]);
    forall j | Admissible(stats[1..], sales, j)
      ensures j.yearRelease >= MinFirstYear(roster)
    {
      assert MinFirstYear(roster) <= j.entry.firstYear;
    }
  }

  /** A card released in 1997 is not joined to a player whose first year is 1998. */
  lemma ReleaseBeforeDebutExcluded(stats: seq<StatRow>, sales: seq<Sale>, j: Joined)
    requires Aggregate(stats, sales).Ok?
    requires j.entry.firstYear == 1998 && j.yearRelease == 1997
    ensures j !in Aggregate(stats, sales).value
  {
  }

  /** Each aggregated row belongs to a player whose career overlaps 1995-2010,
      with first_year and last_year the least and greatest numeric year of the
      player's rows. */
  lemma AggregatedPlayerQualifies(stats: seq<StatRow>, sales: seq<Sale>, j: Joined)
    requires Aggregate(stats, sales).Ok? && j in Aggregate(stats, sales).value
    ensures Qualifies(stats[1..], j.sale.name, false)
    ensures j.entry.firstYear <= WindowEnd && j.entry.lastYear >= WindowStart
    ensures j.entry.firstYear <= j.entry.lastYear
    ensures forall q :: q in stats[1..] && q.name == j.sale.name && Year(q).Some? ==>
              j.entry.firstYear <= Year(q).value <= j.entry.lastYear
  {
    var data := stats[1..];
    var e := j.entry;
    InSpanIff(data, e.row, false);
    var ys := GroupYears(data, e.row, false);
    forall q | q in data && q.name == j.sale.name && Year(q).Some?
      ensures e.firstYear <= Year(q).value <= e.lastYear
    {
      assert SameGroup(q, e.row, false);
      assert Year(q).value in ys;
    }
  }
}
