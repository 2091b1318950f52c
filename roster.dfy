/** The roster filter of get_names: players whose career overlaps 1995-2010. */
module Roster {
  import opened Wrappers
  import opened Text
  import opened Seqs

  /** The active window a career must overlap. */
  const WindowStart := 1995
  const WindowEnd := 2010

  /** One row of a statistics table, split into the columns the filter reads.
      position is the batting schema's second column; the pitching schema has
      none, and an empty cell is None. year is the raw text of the year cell. */
  datatype StatRow = StatRow(name: string, position: Option<string>, yearText: string)

  /** The year column after pd.to_numeric(errors='coerce'): a number exactly
      when the cell is a run of digits, and never negative. */
  function Year(r: StatRow): (y: Option<int>)
    ensures y.Some? <==> |r.yearText| > 0 && forall k :: 0 <= k < |r.yearText| ==> IsDigit(r.yearText[k])
    ensures y.Some? ==> 0 <= y.value
  {
    ParseNumber(r.yearText)
  }

  /** q and r fall into the same group. */
  predicate SameGroup(q: StatRow, r: StatRow, byPosition: bool) {
    q.name == r.name && (byPosition ==> q.position == r.position)
  }

  /** A row whose group key has a missing part belongs to no group (pandas drops NaN keys). */
  predicate HasKey(r: StatRow, byPosition: bool) {
    byPosition ==> r.position.Some?
  }

  /** The numeric years of r's group, in table order. */
  function GroupYears(rows: seq<StatRow>, r: StatRow, byPosition: bool): (ys: seq<int>)
    ensures forall y :: y in ys <==> exists q :: q in rows && SameGroup(q, r, byPosition) && Year(q) == Some(y)
  {
    if rows == [] then []
    else
      assert rows == [rows[0]] + rows[1..];
      var q := rows[0];
      (if SameGroup(q, r, byPosition) && Year(q).Some? then [Year(q).value] else [])
        + GroupYears(rows[1..], r, byPosition)
  }

  /** The least element: groupby(...).transform('min'). */
  function Min(ys: seq<int>): (m: int)
    requires |ys| > 0
    ensures m in ys && forall y :: y in ys ==> m <= y
  {
    if |ys| == 1 then ys[0]
    else
      assert ys == [ys[0]] + ys[1..];
      var m := Min(ys[1..]);
      if ys[0] <= m then ys[0] else m
  }

  /** The greatest element: groupby(...).transform('max'). */
  function Max(ys: seq<int>): (m: int)
    requires |ys| > 0
    ensures m in ys && forall y :: y in ys ==> y <= m
  {
    if |ys| == 1 then ys[0]
    else
      assert ys == [ys[0]] + ys[1..];
      var m := Max(ys[1..]);
      if ys[0] >= m then ys[0] else m
  }

  /** The row filter as pandas evaluates it: the row's group has a first_year
      and a last_year (a NaN compares false), first_year <= 2010 and last_year >= 1995. */
  predicate InSpan(rows: seq<StatRow>, r: StatRow, byPosition: bool)
    ensures InSpan(rows, r, byPosition) ==>
              HasKey(r, byPosition) && exists q :: q in rows && SameGroup(q, r, byPosition) && Year(q).Some?
  {
    HasKey(r, byPosition) &&
    var ys := GroupYears(rows, r, byPosition);
    |ys| > 0 && Min(ys) <= WindowEnd && Max(ys) >= WindowStart
  }

  /** The rows of rest kept by the filter, evaluated against the whole table all. */
  function Kept(all: seq<StatRow>, rest: seq<StatRow>, byPosition: bool): (kept: seq<StatRow>)
    ensures forall r :: r in kept <==> r in rest && InSpan(all, r, byPosition)
  {
    if rest == [] then []
    else
      assert rest == [rest[0]] + rest[1..];
      (if InSpan(all, rest[0], byPosition) then [rest[0]] else []) + Kept(all, rest[1..], byPosition)
  }

  /** The name column of rows. */
  function Names(rows: seq<StatRow>): (ns: seq<string>)
    ensures forall n :: n in ns <==> exists r :: r in rows && r.name == n
  {
    if rows == [] then []
    else
      assert rows == [rows[0]] + rows[1..];
      [rows[0].name] + Names(rows[1..])
  }

  /** get_names: drop the first row, coerce years, keep the rows of qualifying
      groups and return their distinct names. The batting schema, whose second
      column is "position", groups by (name, position); any other schema groups
      by name. Dropping the first row of an empty
      table raises IndexError. */
  function GetNames(table: seq<StatRow>, columns: seq<string>): (r: Result<seq<string>>)
    requires |columns| >= 2
    ensures r.Ok? <==> |table| > 0
    ensures r.Ok? ==> NoDup(r.value)
  {
    if |table| == 0 then Crash("IndexError: no first row to drop")
    else
      var data := table[1..];
      Ok(Distinct(Names(Kept(data, data, columns[1] == "position"))))
  }

  // ---------------------------------------------------------- specification

  /** Some row of r's group has a numeric year satisfying the bound. */
  predicate YearAtMost(rows: seq<StatRow>, r: StatRow, byPosition: bool, bound: int) {
    exists q :: q in rows && SameGroup(q, r, byPosition) && Year(q).Some? && Year(q).value <= bound
  }

  predicate YearAtLeast(rows: seq<StatRow>, r: StatRow, byPosition: bool, bound: int) {
    exists q :: q in rows && SameGroup(q, r, byPosition) && Year(q).Some? && Year(q).value >= bound
  }

  /** r's group played some season up to 2010 and some season from 1995 on. */
  predicate SpansWindow(rows: seq<StatRow>, r: StatRow, byPosition: bool) {
    HasKey(r, byPosition) && YearAtMost(rows, r, byPosition, WindowEnd) && YearAtLeast(rows, r, byPosition, WindowStart)
  }

  /** The name has a row whose group spans the window. */
  predicate Qualifies(rows: seq<StatRow>, name: string, byPosition: bool) {
    exists r :: r in rows && r.name == name && SpansWindow(rows, r, byPosition)
  }

  /** The min/max filter keeps exactly the rows whose group has a numeric year
      at most 2010 and a numeric year at least 1995; a group without any
      numeric year never qualifies. */
  lemma InSpanIff(rows: seq<StatRow>, r: StatRow, byPosition: bool)
    ensures InSpan(rows, r, byPosition) <==> SpansWindow(rows, r, byPosition)
    ensures GroupYears(rows, r, byPosition) == [] ==> !InSpan(rows, r, byPosition)
  {
    var ys := GroupYears(rows, r, byPosition);
    if InSpan(rows, r, byPosition) {
      var lo, hi := Min(ys), Max(ys);
      assert lo in ys && hi in ys;
    }
    if SpansWindow(rows, r, byPosition) {
      var a :| a in rows && SameGroup(a, r, byPosition) && Year(a).Some? && Year(a).value <= WindowEnd;
      var b :| b in rows && SameGroup(b, r, byPosition) && Year(b).Some? && Year(b).value >= WindowStart;
      assert Year(a).value in ys && Year(b).value in ys;
    }
  }

  /** get_names returns each qualifying name exactly once and nothing else. */
  lemma GetNamesCorrect(table: seq<StatRow>, columns: seq<string>)
    requires |columns| >= 2 && |table| > 0
    ensures GetNames(table, columns).Ok?
    ensures NoDup(GetNames(table, columns).value)
    ensures forall n :: n in GetNames(table, columns).value <==> Qualifies(table[1..], n, columns[1] == "position")
  {
    var data, bp := table[1..], columns[1] == "position";
    forall r | r in data
      ensures InSpan(data, r, bp) <==> SpansWindow(data, r, bp)
    {
      InSpanIff(data, r, bp);
    }
  }

  /** Reordering the data rows does not change the set of returned names. */
  lemma GetNamesOrderFree(t1: seq<StatRow>, t2: seq<StatRow>, columns: seq<string>)
    requires |columns| >= 2 && |t1| > 0 && |t2| > 0
    requires multiset(t1[1..]) == multiset(t2[1..])
    ensures forall n :: n in GetNames(t1, columns).value <==> n in GetNames(t2, columns).value
  {
    GetNamesCorrect(t1, columns);
    GetNamesCorrect(t2, columns);
    var d1, d2, bp := t1[1..], t2[1..], columns[1] == "position";
    assert forall q :: q in d1 <==> q in d2 by {
      forall q ensures q in d1 <==> q in d2 {
        assert q in d1 <==> q in multiset(d1);
        assert q in d2 <==> q in multiset(d2);
      }
    }
    forall n ensures Qualifies(d1, n, bp) <==> Qualifies(d2, n, bp) {
      if Qualifies(d1, n, bp) {
        var r :| r in d1 && r.name == n && SpansWindow(d1, r, bp);
        assert SpansWindow(d2, r, bp);
      }
      if Qualifies(d2, n, bp) {
        var r :| r in d2 && r.name == n && SpansWindow(d2, r, bp);
        assert SpansWindow(d1, r, bp);
      }
    }
  }

  /** A name qualifying under (name, position) grouping also qualifies under name
      grouping: a (name, position) group is part of the name's group. */
  lemma PositionGroupsWithinNameGroups(rows: seq<StatRow>, name: string)
    requires Qualifies(rows, name, true)
    ensures Qualifies(rows, name, false)
  {
    var r :| r in rows && r.name == name && SpansWindow(rows, r, true);
    var a :| a in rows && SameGroup(a, r, true) && Year(a).Some? && Year(a).value <= WindowEnd;
    var b :| b in rows && SameGroup(b, r, true) && Year(b).Some? && Year(b).value >= WindowStart;
    assert SameGroup(a, r, false) && SameGroup(b, r, false);
  }

  /** Name grouping (the pitching schema): a career 1994-2011 overlaps the
      window, so the player is returned. */
  lemma SpanningCareerReturned(header: StatRow, name: string, columns: seq<string>)
    requires |columns| >= 2 && columns[1] != "position"
    ensures name in GetNames([header,
                              StatRow(name, None, "1994"),
                              StatRow(name, None, "1996"),
                              StatRow(name, None, "2011")], columns).value
  {
    var table := [header,
                  StatRow(name, None, "1994"),
                  StatRow(name, None, "1996"),
                  StatRow(name, None, "2011")];
    var r := table[2];
    FourDigits("1996");
    assert Year(r) == Some(1996);
    assert Qualifies(table[1..], name, false) by {
      assert r in table[1..] && SameGroup(r, r, false);
      assert SpansWindow(table[1..], r, false);
    }
    GetNamesCorrect(table, columns);
  }

  /** Name grouping (the pitching schema): a career 1990-1992 ends before the
      window, so the player is not returned. */
  lemma EarlyCareerExcluded(header: StatRow, name: string, columns: seq<string>)
    requires |columns| >= 2 && columns[1] != "position"
    ensures name !in GetNames([header,
                               StatRow(name, None, "1990"),
                               StatRow(name, None, "1992")], columns).value
  {
    var table := [header,
                  StatRow(name, None, "1990"),
                  StatRow(name, None, "1992")];
    FourDigits("1990");
    FourDigits("1992");
    assert Year(table[1]) == Some(1990) && Year(table[2]) == Some(1992);
    var data := table[1..];
    assert data == [table[1], table[2]];
    assert !Qualifies(data, name, false) by {
      forall r | r in data ensures !YearAtLeast(data, r, false, WindowStart) {
        forall q | q in data ensures Year(q).value < WindowStart { }
      }
    }
    GetNamesCorrect(table, columns);
  }

  /** Under the batting schema a name is returned when one of its positions
      spans the window, although its other position does not. */
  lemma AnyPositionSuffices(header: StatRow, name: string, columns: seq<string>)
    requires |columns| >= 2 && columns[1] == "position"
    ensures name in GetNames([header,
                              StatRow(name, Some("1B"), "1980"),
                              StatRow(name, Some("SS"), "2000")], columns).value
  {
    var table := [header,
                  StatRow(name, Some("1B"), "1980"),
                  StatRow(name, Some("SS"), "2000")];
    var r := table[2];
    FourDigits("2000");
    assert Year(r) == Some(2000);
    assert Qualifies(table[1..], name, true) by {
      assert r in table[1..] && SameGroup(r, r, true);
      assert SpansWindow(table[1..], r, true);
    }
    GetNamesCorrect(table, columns);
  }
}
