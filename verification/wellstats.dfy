/**
 Well counts inside a buffer. The statistics query groups the wells in the buffer
 by `WellStatus` and returns one row per group holding the group's `wellCount`;
 the script folds those rows into a plain object keyed by status, with a running
 `Total`, and then derives the four numbers the results panel shows.
 */
module WellStats {

  import opened Wrappers

  /** One feature of the grouped statistics result: `attributes.WellStatus` and `attributes.wellCount`. */
  datatype Row = Row(status: string, count: nat)

  /** The `wellStats` object: status name to count, sharing its key space with `Total`. */
  type Stats = map<string, nat>

  const TotalKey: string := "Total"

  /** The statuses the layer's definition expression admits and the panel reports. */
  const Active: string := "Active"
  const New: string := "New"
  const Idle: string := "Idle"
  const Plugged: string := "Plugged"

  /* ---------------------------------------------------------------------------
     Reference definitions over the rows
     --------------------------------------------------------------------------- */

  /** The sum of `wellCount` over all rows. */
  function Sum(rows: seq<Row>): nat
  {
    if rows == [] then 0 else Sum(rows[..|rows| - 1]) + rows[|rows| - 1].count
  }

  /** The sum of `wellCount` over the rows whose status is `st`. */
  function SumWhere(rows: seq<Row>, st: string): nat
  {
    if rows == [] then 0
    else SumWhere(rows[..|rows| - 1], st) + (if rows[|rows| - 1].status == st then rows[|rows| - 1].count else 0)
  }

  /** Whether the panel shows a status in one of its category counts. */
  predicate Displayed(st: string)
  {
    st == Active || st == New || st == Idle || st == Plugged
  }

  /** The sum of `wellCount` over the rows of a status the panel has no category for. */
  function SumOther(rows: seq<Row>): nat
  {
    if rows == [] then 0
    else SumOther(rows[..|rows| - 1]) + (if Displayed(rows[|rows| - 1].status) then 0 else rows[|rows| - 1].count)
  }

  /** The count of the last row whose status is `st`, if any. */
  function Latest(rows: seq<Row>, st: string): Option<nat>
  {
    if rows == [] then None
    else if rows[|rows| - 1].status == st then Some(rows[|rows| - 1].count)
    else Latest(rows[..|rows| - 1], st)
  }

  /** No row is labelled with the key the running total lives under. */
  predicate NoTotalRow(rows: seq<Row>)
  {
    forall i :: 0 <= i < |rows| ==> rows[i].status != TotalKey
  }

  /** Every status occurs in at most one row, as a group-by query returns them. */
  predicate DistinctStatuses(rows: seq<Row>)
  {
    forall i, j :: 0 <= i < j < |rows| ==> rows[i].status != rows[j].status
  }

  /** The set of statuses named by some row. */
  function Statuses(rows: seq<Row>): set<string>
  {
    set i | 0 <= i < |rows| :: rows[i].status
  }

  /* ---------------------------------------------------------------------------
     The fold in queryWells
     --------------------------------------------------------------------------- */

  /** One iteration of the `forEach`: store the row's count under its status, then add it to `Total`. */
  function Absorb(stats: Stats, row: Row): (next: Stats)
    requires TotalKey in stats
    ensures next.Keys == stats.Keys + {row.status}
  {
    var stored := stats[row.status := row.count];
    stored[TotalKey := stored[TotalKey] + row.count]
  }

  /** The `wellStats` object after folding the rows in order, starting from `{'Total': 0}`. */
  function Tally(rows: seq<Row>): (stats: Stats)
    ensures stats.Keys == {TotalKey} + Statuses(rows)
  {
    if rows == [] then map[TotalKey := 0]
    else
      var prefix := rows[..|rows| - 1];
      assert Statuses(rows) == Statuses(prefix) + {rows[|rows| - 1].status} by {
        assert forall i :: 0 <= i < |prefix| ==> prefix[i] == rows[i];
      }
      Absorb(Tally(prefix), rows[|rows| - 1])
  }

  /** The `forEach` loop of `queryWells`, run over the rows in the order the service returns them. */
  method QueryWellStats(rows: seq<Row>) returns (stats: Stats)
    ensures stats == Tally(rows)
    ensures NoTotalRow(rows) ==> stats[TotalKey] == Sum(rows)
  {
    stats := map[TotalKey := 0];
    var i := 0;
    while i < |rows|
      invariant 0 <= i <= |rows|
      invariant stats == Tally(rows[..i])
    {
      var row := rows[i];
      ghost var before := stats;
      stats := stats[row.status := row.count];
      stats := stats[TotalKey := stats[TotalKey] + row.count];
      assert stats == Absorb(before, row);
      TallyStep(rows, i);
      i := i + 1;
    }
    assert rows[..|rows|] == rows;
    assert stats == Tally(rows);
    TallyTotalWhenNoTotalRow(rows);
  }

  /** Folding one more row is one more `Absorb`. */
  lemma TallyStep(rows: seq<Row>, i: int)
    requires 0 <= i < |rows|
    ensures Tally(rows[..i + 1]) == Absorb(Tally(rows[..i]), rows[i])
  {
    assert rows[..i + 1][..i] == rows[..i];
  }

  /** With no row labelled `Total`, the running total is the sum of every row's count. */
  lemma {:induction false} TallyTotalIsSum(rows: seq<Row>)
    requires NoTotalRow(rows)
    ensures Tally(rows)[TotalKey] == Sum(rows)
  {
    if rows != [] {
      TallyTotalIsSum(rows[..|rows| - 1]);
    }
  }

  lemma TallyTotalWhenNoTotalRow(rows: seq<Row>)
    ensures NoTotalRow(rows) ==> Tally(rows)[TotalKey] == Sum(rows)
  {
    if NoTotalRow(rows) {
      TallyTotalIsSum(rows);
    }
  }

  lemma {:induction false} SumConcat(a: seq<Row>, b: seq<Row>)
    ensures Sum(a + b) == Sum(a) + Sum(b)
  {
    if b == [] {
      assert a + b == a;
    } else {
      assert (a + b)[..|a + b| - 1] == a + b[..|b| - 1];
      SumConcat(a, b[..|b| - 1]);
    }
  }

  /** Taking one row out of a sequence takes its count out of the sum. */
  lemma {:induction false} SumRemove(b: seq<Row>, j: int)
    requires 0 <= j < |b|
    ensures Sum(b) == Sum(b[..j] + b[j + 1..]) + b[j].count
  {
    var front, x, back := b[..j], b[j], b[j + 1..];
    assert b == (front + [x]) + back;
    SumConcat(front + [x], back);
    SumConcat(front, [x]);
    SumConcat(front, back);
    assert Sum([x]) == x.count by {
      assert [x][..0] == [];
    }
  }

  lemma MultisetRemove(b: seq<Row>, j: int)
    requires 0 <= j < |b|
    ensures multiset(b[..j] + b[j + 1..]) == multiset(b) - multiset{b[j]}
  {
    assert b == b[..j] + [b[j]] + b[j + 1..];
  }

  /** The sum of the counts does not depend on the order of the rows. */
  lemma {:induction false} SumPermutation(a: seq<Row>, b: seq<Row>)
    requires multiset(a) == multiset(b)
    ensures Sum(a) == Sum(b)
    decreases |a|
  {
    if a == [] {
      assert |b| == |multiset(b)| == 0;
    } else {
      var last := a[|a| - 1];
      var prefix := a[..|a| - 1];
      assert a == prefix + [last];
      assert multiset(prefix) == multiset(a) - multiset{last};
      assert last in multiset(b);
      var j :| 0 <= j < |b| && b[j] == last;
      MultisetRemove(b, j);
      SumPermutation(prefix, b[..j] + b[j + 1..]);
      SumRemove(b, j);
    }
  }

  /** The displayed total is the same whatever order the service returns the groups in. */
  lemma {:induction false} TotalOrderIndependent(a: seq<Row>, b: seq<Row>)
    requires multiset(a) == multiset(b)
    requires NoTotalRow(a)
    ensures Tally(a)[TotalKey] == Tally(b)[TotalKey] == Sum(a)
  {
    assert NoTotalRow(b) by {
      forall i | 0 <= i < |b|
        ensures b[i].status != TotalKey
      {
        assert b[i] in multiset(a);
      }
    }
    TallyTotalIsSum(a);
    TallyTotalIsSum(b);
    SumPermutation(a, b);
  }

  /** A status entry holds the count of the last row with that status, and exists only if some row has it. */
  lemma {:induction false} TallyEntryIsLatest(rows: seq<Row>, st: string)
    requires st != TotalKey
    ensures st in Tally(rows) <==> Latest(rows, st).Some?
    ensures st in Tally(rows) ==> Tally(rows)[st] == Latest(rows, st).value
  {
    if rows != [] {
      TallyEntryIsLatest(rows[..|rows| - 1], st);
    }
  }

  /** `Latest` picks the last row of the status: some row has that count and no later row has the status. */
  lemma {:induction false} LatestIsLastRow(rows: seq<Row>, st: string)
    ensures Latest(rows, st).None? <==> st !in Statuses(rows)
    ensures Latest(rows, st).Some? ==>
      exists i :: 0 <= i < |rows| && rows[i] == Row(st, Latest(rows, st).value)
        && forall j :: i < j < |rows| ==> rows[j].status != st
  {
    if rows != [] {
      var prefix := rows[..|rows| - 1];
      var last := rows[|rows| - 1];
      LatestIsLastRow(prefix, st);
      assert Statuses(rows) == Statuses(prefix) + {last.status} by {
        assert forall i :: 0 <= i < |prefix| ==> prefix[i] == rows[i];
      }
      if last.status == st {
        assert rows[|rows| - 1] == Row(st, Latest(rows, st).value);
      } else if Latest(prefix, st).Some? {
        var i :| 0 <= i < |prefix| && prefix[i] == Row(st, Latest(prefix, st).value)
          && forall j :: i < j < |prefix| ==> prefix[j].status != st;
        assert rows[i] == prefix[i];
        assert forall j :: i < j < |rows| ==> rows[j].status != st by {
          forall j | i < j < |rows|
            ensures rows[j].status != st
          {
            if j < |prefix| {
              assert rows[j] == prefix[j];
            }
          }
        }
      }
    }
  }

  /** Rows `[Active 2, Active 3]`: the entry keeps the last count while the total adds both. */
  lemma DuplicateStatusKeepsLast()
    ensures var stats := Tally([Row(Active, 2), Row(Active, 3)]);
      stats[Active] == 3 && stats[TotalKey] == 5
  {
    var rows := [Row(Active, 2), Row(Active, 3)];
    assert Active[0] != TotalKey[0];
    assert rows[..1] == [Row(Active, 2)];
    assert rows[..1][..0] == [];
    assert Tally([]) == map[TotalKey := 0];
    assert [Row(Active, 2)][..0] == [];
    assert Tally([Row(Active, 2)]) == Absorb(map[TotalKey := 0], Row(Active, 2));
    assert Tally([Row(Active, 2)])[TotalKey] == 2;
  }

  /** A row labelled `Total` overwrites the running total before its own count is added. */
  lemma TotalRowCollides()
    ensures Tally([Row(Active, 5), Row(TotalKey, 4)])[TotalKey] == 8
  {
    var rows := [Row(Active, 5), Row(TotalKey, 4)];
    assert rows[..1] == [Row(Active, 5)];
    assert rows[..1][..0] == [];
  }

  /* ---------------------------------------------------------------------------
     displayWellCounts
     --------------------------------------------------------------------------- */

  /** The numbers written into `totalWells`, `activeWells`, `idleWells` and `pluggedWells`. */
  datatype WellCounts = WellCounts(total: nat, active: nat, idle: nat, plugged: nat)

  /** `returnCount`: a status missing from the object reads as zero. */
  function ReturnCount(stats: Stats, wellType: string): nat
  {
    if wellType in stats then stats[wellType] else 0
  }

  /** `displayWellCounts`: the total as it is, New wells merged into Active, Idle and Plugged as they are. */
  function DisplayWellCounts(stats: Stats): WellCounts
    requires TotalKey in stats
  {
    WellCounts(
      stats[TotalKey],
      ReturnCount(stats, Active) + ReturnCount(stats, New),
      ReturnCount(stats, Idle),
      ReturnCount(stats, Plugged))
  }

  /** The count shown for a status is the last row's count for it, and zero when no row has it. */
  lemma {:induction false} ReturnCountOfTally(rows: seq<Row>, st: string)
    requires st != TotalKey
    ensures st !in Statuses(rows) ==> ReturnCount(Tally(rows), st) == 0
    ensures Latest(rows, st).Some? ==> ReturnCount(Tally(rows), st) == Latest(rows, st).value
  {
    TallyEntryIsLatest(rows, st);
    LatestIsLastRow(rows, st);
  }

  /** The last row's count for a status never exceeds the sum over all its rows, and equals it when statuses are distinct. */
  lemma {:induction false} LatestWithinSumWhere(rows: seq<Row>, st: string)
    ensures Latest(rows, st).Some? ==> Latest(rows, st).value <= SumWhere(rows, st)
    ensures DistinctStatuses(rows) ==>
      SumWhere(rows, st) == (if Latest(rows, st).Some? then Latest(rows, st).value else 0)
  {
    if rows != [] {
      var prefix := rows[..|rows| - 1];
      LatestWithinSumWhere(prefix, st);
      if DistinctStatuses(rows) && rows[|rows| - 1].status == st {
        assert DistinctStatuses(prefix);
        LatestIsLastRow(prefix, st);
        assert Latest(prefix, st).None? by {
          assert forall i :: 0 <= i < |prefix| ==> prefix[i] == rows[i];
        }
        NoRowsNoSum(prefix, st);
      }
    }
  }

  lemma {:induction false} NoRowsNoSum(rows: seq<Row>, st: string)
    requires Latest(rows, st).None?
    ensures SumWhere(rows, st) == 0
  {
    if rows != [] {
      NoRowsNoSum(rows[..|rows| - 1], st);
    }
  }

  /** The total splits into the four displayed statuses and everything else. */
  lemma {:induction false} SumByStatus(rows: seq<Row>)
    ensures Sum(rows) == SumWhere(rows, Active) + SumWhere(rows, New) + SumWhere(rows, Idle)
      + SumWhere(rows, Plugged) + SumOther(rows)
  {
    if rows != [] {
      SumByStatus(rows[..|rows| - 1]);
    }
  }

  /**
   For a well-formed grouped result (each status once, none called `Total`) the panel
   shows the sum of all rows as the total, Active plus New as active, and Idle and
   Plugged as they are; wells of any other status count only towards the total.
   */
  lemma {:induction false} DisplayOfGroupedRows(rows: seq<Row>)
    requires DistinctStatuses(rows) && NoTotalRow(rows)
    ensures var shown := DisplayWellCounts(Tally(rows));
      && shown.total == Sum(rows)
      && shown.active == SumWhere(rows, Active) + SumWhere(rows, New)
      && shown.idle == SumWhere(rows, Idle)
      && shown.plugged == SumWhere(rows, Plugged)
      && shown.total == shown.active + shown.idle + shown.plugged + SumOther(rows)
  {
    TallyTotalIsSum(rows);
    SumByStatus(rows);
    ShownIsSumWhere(rows, Active);
    ShownIsSumWhere(rows, New);
    ShownIsSumWhere(rows, Idle);
    ShownIsSumWhere(rows, Plugged);
  }

  lemma {:induction false} ShownIsSumWhere(rows: seq<Row>, st: string)
    requires DistinctStatuses(rows) && st != TotalKey
    ensures ReturnCount(Tally(rows), st) == SumWhere(rows, st)
  {
    ReturnCountOfTally(rows, st);
    LatestWithinSumWhere(rows, st);
    LatestIsLastRow(rows, st);
  }

  /** Whatever the rows, the three category counts shown never add up to more than the total shown. */
  lemma {:induction false} DisplayCategoriesWithinTotal(rows: seq<Row>)
    requires NoTotalRow(rows)
    ensures var shown := DisplayWellCounts(Tally(rows));
      shown.active + shown.idle + shown.plugged <= shown.total
  {
    TallyTotalIsSum(rows);
    SumByStatus(rows);
    ShownWithinSumWhere(rows, Active);
    ShownWithinSumWhere(rows, New);
    ShownWithinSumWhere(rows, Idle);
    ShownWithinSumWhere(rows, Plugged);
  }

  lemma {:induction false} ShownWithinSumWhere(rows: seq<Row>, st: string)
    requires st != TotalKey
    ensures ReturnCount(Tally(rows), st) <= SumWhere(rows, st)
  {
    ReturnCountOfTally(rows, st);
    LatestWithinSumWhere(rows, st);
    LatestIsLastRow(rows, st);
  }

  /** What the panel shows for any rows, as implications on the shape of the rows. */
  lemma DisplayFacts(rows: seq<Row>)
    ensures NoTotalRow(rows) ==>
      && Tally(rows)[TotalKey] == Sum(rows)
      && var shown := DisplayWellCounts(Tally(rows));
         shown.active + shown.idle + shown.plugged <= shown.total
    ensures NoTotalRow(rows) && DistinctStatuses(rows) ==>
      var shown := DisplayWellCounts(Tally(rows));
      && shown.active == SumWhere(rows, Active) + SumWhere(rows, New)
      && shown.idle == SumWhere(rows, Idle)
      && shown.plugged == SumWhere(rows, Plugged)
  {
    if NoTotalRow(rows) {
      TallyTotalIsSum(rows);
      DisplayCategoriesWithinTotal(rows);
      if DistinctStatuses(rows) {
        DisplayOfGroupedRows(rows);
      }
    }
  }

  /** Repeated Active groups make the categories fall short of the total: 5 wells shown, 3 of them active. */
  lemma DuplicateRowsUnbalanceDisplay()
    ensures DisplayWellCounts(Tally([Row(Active, 2), Row(Active, 3)])) == WellCounts(5, 3, 0, 0)
  {
    DuplicateStatusKeepsLast();
  }
}
