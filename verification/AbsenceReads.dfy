/** Reading absence as of a cut-off: narrowed, chunked and insensitive to what it must not see. */
module AbsenceReads {
  import opened Core
  import opened Ordering
  import opened Absence
  import opened AbsenceOrder

  /** The size of a chunk. */
  const ID_CHUNK := 500

  // ---------------------------------------------------------------- which row is the newest

  ghost predicate IsNewest(rows: seq<Row>, p: int, row: Row) {
    && row in rows && row.pkg == p
    && forall other :: other in rows && other.pkg == p ==> !Earlier(Stamp(row), Stamp(other))
  }

  lemma {:induction false} FoldKeepsTheNewestRow(rows: seq<Row>, p: int) returns (row: Row)
    requires Folded(rows, p).Some?
    ensures IsNewest(rows, p, row)
    ensures var h := Folded(rows, p).value;
      h.newest == Stamp(row) && h.Breadth() == (row.components, row.lobs)
  {
    var n := |rows| - 1;
    var before := rows[..n];
    assert rows == before + [rows[n]];
    if Folded(before, p).None? {
      NoRowNoHistory(before, p);
      row := rows[n];
    } else {
      row := FoldKeepsTheNewestRow(before, p);
      if rows[n].pkg == p && Earlier(Stamp(row), Stamp(rows[n])) {
        row := rows[n];
      }
    }
  }

  /** The newest row and its breadth do not depend on the order the rows arrive in. */
  lemma BreadthIgnoresOrder(a: seq<Row>, b: seq<Row>, p: int)
    requires KeyedRows(a) && Elements(a) == Elements(b)
    ensures Folded(a, p).Some? <==> Folded(b, p).Some?
    ensures Folded(a, p).Some? ==>
      && Folded(a, p).value.newest == Folded(b, p).value.newest
      && Folded(a, p).value.Breadth() == Folded(b, p).value.Breadth()
  {
    NoRowNoHistory(a, p);
    NoRowNoHistory(b, p);
    assert forall row :: row in a <==> row in Elements(a);
    assert forall row :: row in b <==> row in Elements(b);
    if Folded(a, p).Some? {
      var ra := FoldKeepsTheNewestRow(a, p);
      var rb := FoldKeepsTheNewestRow(b, p);
      assert ra in b && rb in a;
      assert Stamp(ra) == Stamp(rb);
    }
  }

  // ----------------------------------------------------------- what a reading does not see

  /** The absence reading of a stream; a package with no row reads as never observed. */
  function ReadingOf(rows: seq<Row>, p: int): Reading {
    match Folded(rows, p)
    case Some(h) => h.Absence()
    case None => Reading(false, None, None, None)
  }

  /** Rows of the other states may be put anywhere in a stream: the reading is the same. */
  lemma {:induction false} SilentRowsSayNothing(a: seq<Row>, row: Row, b: seq<Row>, p: int)
    requires row.state != State.Ok && row.state != State.NotFound
    ensures ReadingOf(a + [row] + b, p) == ReadingOf(a + b, p)
  {
    if b == [] {
      assert (a + [row] + b)[..|a|] == a && a + b == a;
    } else {
      var n := |b| - 1;
      SilentRowsSayNothing(a, row, b[..n], p);
      assert (a + [row] + b)[..|a| + 1 + n] == a + [row] + b[..n];
      assert (a + b)[..|a| + n] == a + b[..n];
    }
  }

  function Asked(cutoff: Instant, ids: Option<set<int>>): Row -> bool {
    (row: Row) => row.at <= cutoff && (ids.None? || row.pkg in ids.value)
  }

  /** The query: the table cut off at an instant, narrowed to a chunk of packages, and sorted. */
  function Observations(log: seq<Row>, cutoff: Instant, ids: Option<set<int>>): seq<Row> {
    Ordered(Filter(log, Asked(cutoff, ids)))
  }

  /** The rows of the table a cut-off admits, in no order that matters. */
  function UpTo(log: seq<Row>, cutoff: Instant): seq<Row> {
    Filter(log, Asked(cutoff, None))
  }

  /** What the query reads, of which rows and in which order: those at or before the cut-off, of the packages
    * named if any are, by time and then by key. */
  lemma WhatTheQueryReads(log: seq<Row>, cutoff: Instant, ids: Option<set<int>>)
    ensures forall row :: row in UpTo(log, cutoff) <==> row in log && row.at <= cutoff
    ensures var rows := Observations(log, cutoff, ids);
      && (forall row :: row in rows <==> row in log && row.at <= cutoff && (ids.None? || row.pkg in ids.value))
      && (forall i, j :: 0 <= i < j < |rows| ==>
            rows[i].at < rows[j].at || (rows[i].at == rows[j].at && rows[i].pk <= rows[j].pk))
  {
    hide Ordered, Filter;
    var rows := Observations(log, cutoff, ids);
    forall i, j | 0 <= i < j < |rows|
      ensures rows[i].at < rows[j].at || (rows[i].at == rows[j].at && rows[i].pk <= rows[j].pk)
    {
      assert !Earlier(Stamp(rows[j]), Stamp(rows[i]));
    }
  }

  // ------------------------------------------------------- what a reading says, of the log as it is

  /** A row of the package in this state, observed by the cut-off. */
  ghost predicate Seen(log: seq<Row>, cutoff: Instant, p: int, state: State, x: Row) {
    x in log && x.at <= cutoff && x.pkg == p && x.state == state
  }

  /** Observed before: at an earlier instant, or at the same one under a lesser key. */
  predicate Precedes(x: Row, y: Row) {
    x.at < y.at || (x.at == y.at && x.pk < y.pk)
  }

  /** A missing that came after every listing. */
  ghost predicate MissedSince(log: seq<Row>, cutoff: Instant, p: int, x: Row) {
    Seen(log, cutoff, p, NotFound, x) && forall y :: Seen(log, cutoff, p, State.Ok, y) ==> Precedes(y, x)
  }

  /** A listing that came after every missing, of which there was one. */
  ghost predicate ListedAgain(log: seq<Row>, cutoff: Instant, p: int, x: Row) {
    && Seen(log, cutoff, p, State.Ok, x) && (exists y :: Seen(log, cutoff, p, NotFound, y))
    && forall y :: Seen(log, cutoff, p, NotFound, y) ==> Precedes(y, x)
  }

  /** The reading of a package, in terms of the rows of the log and the cut-off alone: absent when a missing
    * came after every listing, since the first such; last listed at the last listing; and listed again since
    * the first listing that came after every missing. */
  ghost predicate TellsTheLog(log: seq<Row>, cutoff: Instant, p: int, r: Reading) {
    && (r.absent <==> exists x :: MissedSince(log, cutoff, p, x))
    && (match r.since
        case None => forall x :: !MissedSince(log, cutoff, p, x)
        case Some(t) => (exists x :: MissedSince(log, cutoff, p, x) && x.at == t)
                        && forall x :: MissedSince(log, cutoff, p, x) ==> t <= x.at)
    && (match r.lastListed
        case None => forall x :: !Seen(log, cutoff, p, State.Ok, x)
        case Some(t) => (exists x :: Seen(log, cutoff, p, State.Ok, x) && x.at == t)
                        && forall x :: Seen(log, cutoff, p, State.Ok, x) ==> x.at <= t)
    && (match r.listedSince
        case None => forall x :: !ListedAgain(log, cutoff, p, x)
        case Some(t) => (exists x :: ListedAgain(log, cutoff, p, x) && x.at == t)
                        && forall x :: ListedAgain(log, cutoff, p, x) ==> t <= x.at)
  }

  lemma TheTableIsTheLog(log: seq<Row>, cutoff: Instant, p: int, r: Reading)
    ensures TellsTheTable(UpTo(log, cutoff), p, r) <==> TellsTheLog(log, cutoff, p, r)
  {
    var rows := UpTo(log, cutoff);
    WhatTheQueryReads(log, cutoff, None);
    hide UpTo;
    forall x ensures StillAbsent(rows, p, x) <==> MissedSince(log, cutoff, p, x) {
      SameAbsence(log, cutoff, p, x);
    }
    forall x ensures Relists(rows, p, x) <==> ListedAgain(log, cutoff, p, x) {
      SameListing(log, cutoff, p, x);
    }
    forall x ensures x in rows && IsOk(x, p) <==> Seen(log, cutoff, p, State.Ok, x) {
    }
    hide StillAbsent, MissedSince, Relists, ListedAgain;
  }

  lemma SameAbsence(log: seq<Row>, cutoff: Instant, p: int, x: Row)
    ensures StillAbsent(UpTo(log, cutoff), p, x) <==> MissedSince(log, cutoff, p, x)
  {
    WhatTheQueryReads(log, cutoff, None);
    hide UpTo;
    forall y ensures y in UpTo(log, cutoff) && IsOk(y, p) <==> Seen(log, cutoff, p, State.Ok, y) {
    }
    forall y ensures Earlier(Stamp(y), Stamp(x)) <==> Precedes(y, x) {
    }
  }

  lemma SameListing(log: seq<Row>, cutoff: Instant, p: int, x: Row)
    ensures Relists(UpTo(log, cutoff), p, x) <==> ListedAgain(log, cutoff, p, x)
  {
    WhatTheQueryReads(log, cutoff, None);
    hide UpTo;
    forall y ensures y in UpTo(log, cutoff) && IsNotFound(y, p) <==> Seen(log, cutoff, p, NotFound, y) {
    }
    forall y ensures Earlier(Stamp(y), Stamp(x)) <==> Precedes(y, x) {
    }
  }

  /** Rows observed after the cut-off change nothing, wherever they sit in the table. */
  lemma LaterRowsAreInvisible(a: seq<Row>, row: Row, b: seq<Row>, cutoff: Instant, ids: Option<set<int>>)
    requires cutoff < row.at
    ensures Observations(a + [row] + b, cutoff, ids) == Observations(a + b, cutoff, ids)
  {
    hide Ordered, Filter;
    var keep := Asked(cutoff, ids);
    FilterAppend(a + [row], b, keep);
    LastFiltered(a, row, keep);
    FilterAppend(a, b, keep);
  }

  /** The reading of a keyed table is the one its rows tell, in instants; no row, the reading of nothing. */
  lemma TheReadingTellsTheTable(log: seq<Row>, cutoff: Instant, p: int)
    requires KeyedRows(log)
    ensures TellsTheTable(UpTo(log, cutoff), p, ReadingOf(Observations(log, cutoff, None), p))
  {
    var rows, stream := UpTo(log, cutoff), Observations(log, cutoff, None);
    if Folded(stream, p).Some? {
      FoldTellsTheWholeHistory(stream, p);
      TheStreamTellsTheTable(stream, p, ReadingOf(stream, p));
      TheTableHasNoOrder(stream, rows, p, ReadingOf(stream, p));
    } else {
      NoRowNoHistory(stream, p);
    }
  }

  /** So a reading depends on the set of rows alone: two tables of the same rows, in any two orders and
    * whatever they hold after the cut-off, read alike. */
  lemma AReadingIsOfTheSetOfRows(a: seq<Row>, b: seq<Row>, cutoff: Instant, p: int)
    requires KeyedRows(a) && KeyedRows(b)
    requires forall row: Row :: row.at <= cutoff ==> (row in a <==> row in b)
    ensures ReadingOf(Observations(a, cutoff, None), p) == ReadingOf(Observations(b, cutoff, None), p)
  {
    hide Observations, ReadingOf, TellsTheTable;
    TheReadingTellsTheTable(a, cutoff, p);
    TheReadingTellsTheTable(b, cutoff, p);
    TheTableHasNoOrder(UpTo(a, cutoff), UpTo(b, cutoff), p, ReadingOf(Observations(a, cutoff, None), p));
    OneReadingTellsTheTable(UpTo(b, cutoff), p,
      ReadingOf(Observations(a, cutoff, None), p), ReadingOf(Observations(b, cutoff, None), p));
  }

  /** Nor does a row of such a state in the table move any reading. */
  lemma ASilentRowInTheTableSaysNothing(log: seq<Row>, row: Row, cutoff: Instant, p: int)
    requires row.state != State.Ok && row.state != State.NotFound
    ensures ReadingOf(Observations(log + [row], cutoff, None), p) == ReadingOf(Observations(log, cutoff, None), p)
  {
    hide Ordered, Filter, ReadingOf;
    LastFiltered(log, row, Asked(cutoff, None));
    var rows := UpTo(log, cutoff);
    OneRowMore(rows, row);
    var a, b := InsertedBetween(row, Ordered(rows));
    SilentRowsSayNothing(a, row, b, p);
  }

  lemma OneRowMore(rows: seq<Row>, row: Row)
    ensures Ordered(rows + [row]) == Inserted(row, Ordered(rows))
  {
    assert (rows + [row])[..|rows|] == rows;
  }

  lemma ConsAround(first: Row, front: seq<Row>, row: Row, back: seq<Row>)
    ensures [first] + front + back == [first] + (front + back)
    ensures [first] + front + [row] + back == [first] + (front + [row] + back)
  {
  }

  lemma {:induction false} InsertedBetween(row: Row, rows: seq<Row>) returns (a: seq<Row>, b: seq<Row>)
    ensures a + b == rows && a + [row] + b == Inserted(row, rows)
  {
    hide Ascending, Earlier, Stamp;
    if rows == [] || Earlier(Stamp(row), Stamp(rows[0])) {
      a, b := [], rows;
    } else {
      var front, back := InsertedBetween(row, rows[1..]);
      a, b := [rows[0]] + front, back;
      ConsAround(rows[0], front, row, back);
      assert Inserted(row, rows) == [rows[0]] + Inserted(row, rows[1..]);
      assert [rows[0]] + rows[1..] == rows;
    }
  }

  /** A package's history is a function of its own rows: dropping other packages' rows keeps it. */
  lemma {:induction false} OnlyItsOwnRows(rows: seq<Row>, p: int, keep: Row -> bool)
    requires forall row :: row in rows && row.pkg == p ==> keep(row)
    ensures Folded(Filter(rows, keep), p) == Folded(rows, p)
  {
    hide Opened, Renewed, Recorded, Filter;
    if rows == [] {
      NothingToFilter(keep);
    } else {
      var n := |rows| - 1;
      OnlyItsOwnRows(rows[..n], p, keep);
      LastFiltered(rows[..n], rows[n], keep);
      assert rows == rows[..n] + [rows[n]];
      var kept := Filter(rows[..n], keep);
      assert (kept + [rows[n]])[..|kept|] == kept;
    }
  }

  /** Narrowing the query to a set of packages changes no history in it. */
  lemma NarrowingKeepsHistories(log: seq<Row>, cutoff: Instant, ids: set<int>, p: int)
    requires p in ids
    ensures Folded(Observations(log, cutoff, Some(ids)), p) == Folded(Observations(log, cutoff, None), p)
  {
    hide Folded, Ordered, Filter;
    var upTo, among, both := Asked(cutoff, None), (row: Row) => row.pkg in ids, Asked(cutoff, Some(ids));
    FilterTwice(log, upTo, among);
    FilterAgree(log, Both(upTo, among), both);
    FilterOrdered(UpTo(log, cutoff), among);
    OnlyItsOwnRows(Observations(log, cutoff, None), p, among);
  }

  // ------------------------------------------------------------------------ the chunked read

  /** Folds the named packages a chunk at a time; the answer is the unrestricted fold, restricted. */
  method HistoriesAt(log: seq<Row>, cutoff: Instant, ids: Option<seq<int>>)
    returns (histories: map<int, PackageHistory>)
    ensures Holds(histories, Observations(log, cutoff, None), if ids.None? then None else Some(Elements(ids.value)))
    ensures forall p :: p in histories <==> ((ids.None? || p in ids.value) && HasRow(log, cutoff, p))
    ensures fresh(histories.Values)
  {
    NamedPackages(ids);
    SamePackages(log, cutoff, if ids.None? then None else Some(Elements(ids.value)));
    WhichPackages(log, cutoff, if ids.None? then None else Some(Elements(ids.value)));
    if ids.None? {
      histories := FoldObservations(Observations(log, cutoff, None), None);
      HeldPackages(histories, Observations(log, cutoff, None), None);
      return;
    }
    hide Holds, Observations, Elements, ID_CHUNK, Packages, HasRow;
    var wanted := InOrder(ids.value);
    histories := map[];
    ghost var all := Observations(log, cutoff, None);
    NothingAsked(all);
    if wanted == [] {
      HeldPackages(histories, all, Some(Elements(ids.value)));
      return;
    }
    var start := 0;
    assert wanted[..start] == [];
    while start < |wanted|
      invariant 0 <= start <= |wanted|
      invariant fresh(histories.Values)
      invariant Holds(histories, all, Some(Elements(wanted[..start])))
    {
      var end := if start + ID_CHUNK < |wanted| then start + ID_CHUNK else |wanted|;
      var chunk := Elements(wanted[start..end]);
      var part := FoldChunk(log, cutoff, chunk);
      ChunksAreDisjoint(wanted, start, end);
      ChunksJoin(histories, part, all, Elements(wanted[..start]), chunk);
      histories := histories + part;
      start := end;
    }
    assert wanted[..start] == wanted;
    HeldPackages(histories, all, Some(Elements(ids.value)));
  }

  lemma HeldPackages(histories: map<int, PackageHistory>, rows: seq<Row>, wanted: Option<set<int>>)
    requires Holds(histories, rows, wanted)
    ensures histories.Keys == Packages(rows, wanted)
  {
  }

  function InOrder(ids: seq<int>): (wanted: seq<int>)
    ensures Elements(wanted) == Elements(ids) && Distinct(wanted)
  {
    Sorted(Elements(ids), (x: int, y: int) => x <= y)
  }

  lemma NothingAsked(rows: seq<Row>)
    ensures Elements<int>([]) == {} && Holds(map[], rows, Some({}))
  {
  }

  method FoldChunk(log: seq<Row>, cutoff: Instant, chunk: set<int>) returns (part: map<int, PackageHistory>)
    ensures Holds(part, Observations(log, cutoff, None), Some(chunk))
    ensures fresh(part.Values)
  {
    part := FoldObservations(Observations(log, cutoff, Some(chunk)), None);
    ChunkAnswers(log, cutoff, chunk);
  }

  lemma ChunksJoin(histories: map<int, PackageHistory>, part: map<int, PackageHistory>, rows: seq<Row>,
                   done: set<int>, chunk: set<int>)
    requires Holds(histories, rows, Some(done)) && Holds(part, rows, Some(chunk))
    requires done !! chunk
    requires histories.Values !! part.Values
    ensures Holds(histories + part, rows, Some(done + chunk))
    ensures (histories + part).Values <= histories.Values + part.Values
  {
    hide Folded, Packages;
    forall p, q | p in histories && q in part ensures histories[p] != part[q] {
      assert histories[p] in histories.Values && part[q] in part.Values;
    }
    PackagesJoin(rows, done, chunk);
  }

  lemma PackagesJoin(rows: seq<Row>, done: set<int>, chunk: set<int>)
    ensures Packages(rows, Some(done + chunk)) == Packages(rows, Some(done)) + Packages(rows, Some(chunk))
    ensures done !! chunk ==> Packages(rows, Some(done)) !! Packages(rows, Some(chunk))
  {
  }

  lemma ChunkAnswers(log: seq<Row>, cutoff: Instant, chunk: set<int>)
    ensures Packages(Observations(log, cutoff, Some(chunk)), None)
      == Packages(Observations(log, cutoff, None), Some(chunk))
    ensures forall p :: p in chunk ==>
      Folded(Observations(log, cutoff, Some(chunk)), p) == Folded(Observations(log, cutoff, None), p)
  {
    forall p | p in chunk ensures
        Folded(Observations(log, cutoff, Some(chunk)), p) == Folded(Observations(log, cutoff, None), p)
    {
      NarrowingKeepsHistories(log, cutoff, chunk, p);
    }
    var narrowed, all := Observations(log, cutoff, Some(chunk)), Observations(log, cutoff, None);
    assert forall row :: row in narrowed <==> row in all && row.pkg in chunk;
  }

  lemma ChunksAreDisjoint(wanted: seq<int>, start: nat, end: nat)
    requires Distinct(wanted) && start <= end <= |wanted|
    ensures Elements(wanted[..end]) == Elements(wanted[..start]) + Elements(wanted[start..end])
    ensures Elements(wanted[..start]) !! Elements(wanted[start..end])
  {
    assert wanted[..end] == wanted[..start] + wanted[start..end];
  }

  lemma SamePackages(log: seq<Row>, cutoff: Instant, wanted: Option<set<int>>)
    ensures Packages(Observations(log, cutoff, None), wanted) == Packages(UpTo(log, cutoff), wanted)
  {
    hide Filter;
  }

  /** The package has a row by the cut-off. */
  ghost predicate HasRow(log: seq<Row>, cutoff: Instant, p: int) {
    exists row :: row in log && row.at <= cutoff && row.pkg == p
  }

  lemma WhichPackages(log: seq<Row>, cutoff: Instant, wanted: Option<set<int>>)
    ensures forall p :: p in Packages(UpTo(log, cutoff), wanted)
                   <==> ((wanted.None? || p in wanted.value) && HasRow(log, cutoff, p))
  {
    WhatTheQueryReads(log, cutoff, None);
    hide UpTo;
    forall p ensures p in Packages(UpTo(log, cutoff), wanted)
      <==> ((wanted.None? || p in wanted.value) && HasRow(log, cutoff, p))
    {
      if HasRow(log, cutoff, p) {
        var row :| row in log && row.at <= cutoff && row.pkg == p;
        assert row in UpTo(log, cutoff);
      }
    }
  }

  lemma NamedPackages(ids: Option<seq<int>>)
    ensures ids.Some? ==> forall p :: p in Elements(ids.value) <==> p in ids.value
  {
  }

  /** `absence_at`: an answer for exactly the packages asked for that have a row by then, and each answer
    * the one the table's rows tell. */
  method AbsenceAt(log: seq<Row>, cutoff: Instant, ids: Option<seq<int>>) returns (absences: map<int, Reading>)
    requires KeyedRows(log)
    ensures absences.Keys
      == Packages(UpTo(log, cutoff), if ids.None? then None else Some(Elements(ids.value)))
    ensures forall p :: p in absences ==> TellsTheTable(UpTo(log, cutoff), p, absences[p])
    ensures forall p :: p in absences ==> absences[p] == ReadingOf(Observations(log, cutoff, None), p)
    ensures forall p :: p in absences <==> ((ids.None? || p in ids.value) && HasRow(log, cutoff, p))
    ensures forall p :: p in absences ==> TellsTheLog(log, cutoff, p, absences[p])
  {
    hide Observations, Packages, TellsTheTable, Elements, Folded;
    var histories := HistoriesAt(log, cutoff, ids);
    ghost var all := Observations(log, cutoff, None);
    absences := Readings(histories, all, if ids.None? then None else Some(Elements(ids.value)));
    hide TellsTheLog;
    forall p | p in absences
      ensures TellsTheTable(UpTo(log, cutoff), p, absences[p]) && TellsTheLog(log, cutoff, p, absences[p])
    {
      TheReadingTellsTheTable(log, cutoff, p);
      TheTableIsTheLog(log, cutoff, p, absences[p]);
    }
    SamePackages(log, cutoff, if ids.None? then None else Some(Elements(ids.value)));
    WhichPackages(log, cutoff, if ids.None? then None else Some(Elements(ids.value)));
    NamedPackages(ids);
  }

  /** The reading of every history. */
  method Readings(histories: map<int, PackageHistory>, ghost rows: seq<Row>, ghost wanted: Option<set<int>>)
    returns (absences: map<int, Reading>)
    requires Holds(histories, rows, wanted)
    ensures absences.Keys == Packages(rows, wanted)
    ensures forall p :: p in absences ==> absences[p] == ReadingOf(rows, p)
  {
    hide Folded, Packages;
    absences := map[];
    var todo := histories.Keys;
    while todo != {}
      invariant todo <= histories.Keys
      invariant absences.Keys == histories.Keys - todo
      invariant forall p :: p in absences ==> absences[p] == ReadingOf(rows, p)
    {
      var p := Pick(todo);
      var reading := histories[p].Absence();
      absences := absences[p := reading];
      todo := todo - {p};
    }
  }
}
