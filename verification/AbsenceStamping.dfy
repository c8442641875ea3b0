/** Writing absence into a run's rows of the rollup table, in bulk (`mark_inventory_absence`). */
module AbsenceStamping {
  import opened Core
  import opened Absence
  import opened AbsenceOrder
  import opened AbsenceReads

  /** One rollup row; the table holds one per package. */
  datatype HealthRow = HealthRow(run: int, absentSince: Option<Instant>, lastListed: Option<Instant>)

  type Pair = (Instant, Option<Instant>)

  class Rollup {
    var rows: map<int, HealthRow>

    constructor (rows: map<int, HealthRow>)
      ensures this.rows == rows
    {
      this.rows := rows;
    }

    /** `filter(policy_run=run, package_id__in=ids).update(...)`. */
    method Update(run: int, ids: set<int>, pair: Pair) returns (updated: nat)
      modifies this
      ensures rows.Keys == old(rows).Keys
      ensures forall p :: p in rows ==>
        rows[p] == Stamped(old(rows)[p], run, if p in ids then Some(pair) else None)
      ensures updated == |RunRows(old(rows), run, ids)|
    {
      var matching := RunRows(rows, run, ids);
      rows := map p | p in rows :: if p in matching then HealthRow(run, Some(pair.0), pair.1) else rows[p];
      updated := |matching|;
    }
  }

  function Due(absences: map<int, Reading>, p: int): Option<Pair> {
    if p in absences && absences[p].absent && absences[p].since.Some?
    then Some((absences[p].since.value, absences[p].lastListed))
    else None
  }

  /** What one row becomes: its own package's pair when absent, and untouched otherwise. */
  function Stamped(row: HealthRow, run: int, due: Option<Pair>): HealthRow {
    if row.run == run && due.Some? then HealthRow(run, Some(due.value.0), due.value.1) else row
  }

  ghost function AbsentRows(rows: map<int, HealthRow>, run: int, absences: map<int, Reading>): set<int> {
    set p | p in rows && rows[p].run == run && Due(absences, p).Some?
  }

  ghost function Members(absences: map<int, Reading>, seen: set<int>, k: Pair): set<int> {
    set p | p in seen && Due(absences, p) == Some(k)
  }

  /** Each pair that is due leads to exactly the packages it is due for. */
  ghost predicate Grouped(stamps: map<Pair, set<int>>, absences: map<int, Reading>, seen: set<int>) {
    && (forall p :: p in seen && Due(absences, p).Some? ==> Due(absences, p).value in stamps)
    && (forall k :: k in stamps ==> stamps[k] == Members(absences, seen, k))
  }

  lemma MembersGrow(absences: map<int, Reading>, seen: set<int>, p: int)
    ensures forall k ::
      Members(absences, seen + {p}, k) == Members(absences, seen, k) + if Due(absences, p) == Some(k) then {p} else {}
  {
  }

  method GroupByPair(absences: map<int, Reading>) returns (stamps: map<Pair, set<int>>)
    ensures Grouped(stamps, absences, absences.Keys)
  {
    stamps := map[];
    var todo := absences.Keys;
    while todo != {}
      invariant todo <= absences.Keys
      invariant Grouped(stamps, absences, absences.Keys - todo)
    {
      var p := Pick(todo);
      ghost var seen := absences.Keys - todo;
      var due := Due(absences, p);
      if due.Some? {
        var k := due.value;
        stamps := stamps[k := (if k in stamps then stamps[k] else {}) + {p}];
      }
      MembersGrow(absences, absences.Keys - todo, p);
      todo := todo - {p};
      assert absences.Keys - todo == seen + {p};
    }
  }

  /** Grouped updates equal the pointwise specification: every row of the run takes its own
    * package's pair if that package is absent, no other row moves, and the count is exact. */
  method MarkInventoryAbsence(log: seq<Row>, run: int, cutoff: Instant, health: Rollup)
    returns (stamped: nat, ghost absences: map<int, Reading>)
    requires KeyedRows(log)
    modifies health
    ensures absences.Keys == Packages(UpTo(log, cutoff), None)
    ensures forall p :: p in absences ==> TellsTheTable(UpTo(log, cutoff), p, absences[p])
    ensures forall p :: p in absences <==> HasRow(log, cutoff, p)
    ensures forall p :: p in absences ==> TellsTheLog(log, cutoff, p, absences[p])
    ensures health.rows.Keys == old(health.rows).Keys
    ensures forall p :: p in health.rows ==>
      health.rows[p] == Stamped(old(health.rows)[p], run, Due(absences, p))
    ensures stamped == |AbsentRows(old(health.rows), run, absences)|
    ensures forall p :: p in health.rows ==> Marked(old(health.rows)[p], health.rows[p], run, absences, p)
    ensures stamped
         == |set p | p in old(health.rows) && old(health.rows)[p].run == run && p in absences && absences[p].absent|
  {
    hide TellsTheTable, TellsTheLog;
    var readings := AbsenceAt(log, cutoff, None);
    absences := readings;
    var stamps := GroupByPair(readings);
    ghost var before := health.rows;
    stamped := 0;
    hide HasRow, Packages, Marked, Due, Stamped;
    var todo := stamps.Keys;
    while todo != {}
      invariant todo <= stamps.Keys
      invariant SettledRows(before, health.rows, run, readings, todo)
      invariant stamped == |StampedSoFar(before, run, readings, todo)|
    {
      var k := Pick(todo);
      GroupIsThePair(before, health.rows, run, readings, stamps[k], k, todo);
      ghost var mid := health.rows;
      var updated := health.Update(run, stamps[k], k);
      GroupSettles(before, mid, health.rows, run, readings, stamps[k], k, todo);
      stamped := stamped + updated;
      todo := todo - {k};
    }
    assert StampedSoFar(before, run, readings, {}) == AbsentRows(before, run, readings);
    AbsentReadingsHaveADate(log, cutoff, readings);
    StampsAreMarks(before, health.rows, run, readings);
  }

  lemma StampsAreMarks(before: map<int, HealthRow>, after: map<int, HealthRow>, run: int, absences: map<int, Reading>)
    requires after.Keys == before.Keys
    requires forall p :: p in after ==> after[p] == Stamped(before[p], run, Due(absences, p))
    requires forall p :: p in absences ==> (absences[p].absent <==> absences[p].since.Some?)
    ensures forall p :: p in after ==> Marked(before[p], after[p], run, absences, p)
    ensures AbsentRows(before, run, absences)
         == set p | p in before && before[p].run == run && p in absences && absences[p].absent
  {
    forall p | p in after ensures Marked(before[p], after[p], run, absences, p) {
      assert after[p] == Stamped(before[p], run, Due(absences, p));
    }
  }

  /** What a row is before and after: a row of the run whose package reads as absent has that reading's two
    * dates, and every other row is as it was. */
  ghost predicate Marked(before: HealthRow, after: HealthRow, run: int, absences: map<int, Reading>, p: int) {
    if before.run == run && p in absences && absences[p].absent
    then after.run == run && after.absentSince == absences[p].since && after.lastListed == absences[p].lastListed
    else after == before
  }

  lemma AbsentReadingsHaveADate(log: seq<Row>, cutoff: Instant, absences: map<int, Reading>)
    requires forall p :: p in absences ==> TellsTheLog(log, cutoff, p, absences[p])
    ensures forall p :: p in absences ==> (absences[p].absent <==> absences[p].since.Some?)
  {
  }

  ghost function Settled(absences: map<int, Reading>, p: int, todo: set<Pair>): Option<Pair> {
    if Due(absences, p).Some? && Due(absences, p).value in todo then None else Due(absences, p)
  }

  ghost predicate SettledRows(before: map<int, HealthRow>, rows: map<int, HealthRow>, run: int,
                              absences: map<int, Reading>, todo: set<Pair>) {
    && rows.Keys == before.Keys
    && forall p :: p in before ==> rows[p] == Stamped(before[p], run, Settled(absences, p, todo))
  }

  lemma GroupSettles(before: map<int, HealthRow>, mid: map<int, HealthRow>, after: map<int, HealthRow>, run: int,
                     absences: map<int, Reading>, group: set<int>, k: Pair, todo: set<Pair>)
    requires k in todo && SettledRows(before, mid, run, absences, todo)
    requires forall p :: p in group <==> Due(absences, p) == Some(k)
    requires after.Keys == mid.Keys
    requires forall p :: p in after ==> after[p] == Stamped(mid[p], run, if p in group then Some(k) else None)
    ensures SettledRows(before, after, run, absences, todo - {k})
  {
    forall p | p in before ensures after[p] == Stamped(before[p], run, Settled(absences, p, todo - {k})) {
      assert p in mid && p in after;
    }
  }

  ghost function StampedSoFar(rows: map<int, HealthRow>, run: int, absences: map<int, Reading>,
                              todo: set<Pair>): set<int> {
    set p | p in AbsentRows(rows, run, absences) && Due(absences, p).value !in todo
  }

  function RunRows(rows: map<int, HealthRow>, run: int, group: set<int>): set<int> {
    set p | p in rows && rows[p].run == run && p in group
  }

  lemma GroupIsThePair(before: map<int, HealthRow>, rows: map<int, HealthRow>, run: int, absences: map<int, Reading>,
                       group: set<int>, k: Pair, todo: set<Pair>)
    requires group == Members(absences, absences.Keys, k) && k in todo
    requires SettledRows(before, rows, run, absences, todo)
    ensures forall p :: p in group <==> Due(absences, p) == Some(k)
    ensures |StampedSoFar(before, run, absences, todo - {k})|
         == |StampedSoFar(before, run, absences, todo)| + |RunRows(rows, run, group)|
  {
    assert forall p :: p in before ==> p in rows && rows[p].run == before[p].run;
    assert RunRows(rows, run, group) == RunRows(before, run, group);
    GroupAdds(before, run, absences, group, k, todo);
  }

  lemma GroupAdds(before: map<int, HealthRow>, run: int, absences: map<int, Reading>, group: set<int>, k: Pair,
                  todo: set<Pair>)
    requires k in todo && forall p :: p in group <==> Due(absences, p) == Some(k)
    ensures |StampedSoFar(before, run, absences, todo - {k})|
         == |StampedSoFar(before, run, absences, todo)| + |RunRows(before, run, group)|
  {
    var done, added := StampedSoFar(before, run, absences, todo), RunRows(before, run, group);
    var all := StampedSoFar(before, run, absences, todo - {k});
    forall p ensures p in all <==> p in done || p in added {
      assert p in AbsentRows(before, run, absences) <==> p in before && before[p].run == run && Due(absences, p).Some?;
    }
    assert all == done + added;
    assert done !! added;
  }

  /** After a compose, which clears both columns of every row it writes for the run, a row of the
    * run carries a pair exactly when its package is absent, and its own package's pair. */
  lemma ClearedRowsCarryOnlyTheirAbsence(row: HealthRow, run: int, rows: seq<Row>, p: int, r: Reading)
    requires row == HealthRow(run, None, None)
    requires TellsTheTable(rows, p, r)
    ensures var after := Stamped(row, run, Due(map[p := r], p));
      && after.run == run
      && SinceAt(rows, p, after.absentSince)
      && (after.absentSince.Some? <==> exists x :: StillAbsent(rows, p, x))
      && (if after.absentSince.Some? then LastListedAt(rows, p, after.lastListed) else after.lastListed == None)
  {
  }
}
