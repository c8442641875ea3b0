/** The inventory-absence fold (`collectors/absence.py`).
  * A stream of snapshot rows is folded, one row at a time, into one mutable accumulator per
  * package. The accumulator is proved to answer the whole-history question it stands for. */
module Absence {
  import opened Core
  import opened Ordering

  /** Instants are aware datetimes; only their order is read, so an integer stands for one. */
  type Instant = int

  datatype State = Ok | NotFound | Error | Unknown | NotApplicable

  datatype Row = Row(pkg: int, at: Instant, pk: int, state: State, components: Option<int>, lobs: Option<int>)

  /** The four answers about one package: gone or not, from when, and its last two listing dates. */
  datatype Reading = Reading(absent: bool, since: Option<Instant>, lastListed: Option<Instant>,
                             listedSince: Option<Instant>)

  /** The value a `PackageHistory` object holds. */
  datatype History = History(
    newest: (Instant, int), components: Option<int>, lobs: Option<int>,
    lastListed: Option<Instant>, listedSince: Option<Instant>, absentSince: Option<Instant>)
  {
    function Absence(): Reading {
      Reading(absentSince.Some?, absentSince, lastListed, listedSince)
    }

    function Breadth(): (Option<int>, Option<int>) {
      (components, lobs)
    }
  }

  /** The tuple comparison `<` on `(observed_at, pk)`. */
  predicate Earlier(a: (Instant, int), b: (Instant, int)) {
    a.0 < b.0 || (a.0 == b.0 && a.1 < b.1)
  }

  function Stamp(row: Row): (Instant, int) {
    (row.at, row.pk)
  }

  // ---------------------------------------------------------------- the fold, row by row

  function Opened(row: Row): History {
    History(Stamp(row), row.components, row.lobs, None, None, None)
  }

  function Renewed(h: History, row: Row): History {
    if Earlier(h.newest, Stamp(row))
    then h.(newest := Stamp(row), components := row.components, lobs := row.lobs)
    else h
  }

  function Recorded(h: History, state: State, at: Instant): History {
    if state == Ok then
      if h.absentSince.Some? then h.(lastListed := Some(at), listedSince := Some(at), absentSince := None)
      else h.(lastListed := Some(at))
    else if state == NotFound && h.absentSince.None? then h.(listedSince := None, absentSince := Some(at))
    else h
  }

  /** What the rows of one package fold to, or nothing when it has none. */
  function Folded(rows: seq<Row>, p: int): Option<History> {
    if rows == [] then None
    else
      var before := Folded(rows[..|rows| - 1], p);
      var row := rows[|rows| - 1];
      if row.pkg != p then before
      else
        var h := if before.None? then Opened(row) else Renewed(before.value, row);
        Some(Recorded(h, row.state, row.at))
  }

  /** One package's mutable history; `Value` is what its fields amount to. */
  class PackageHistory {
    var newest: (Instant, int)
    var components: Option<int>
    var lobs: Option<int>
    var lastListed: Option<Instant>
    var listedSince: Option<Instant>
    var absentSince: Option<Instant>

    ghost function Value(): History
      reads this
    {
      History(newest, components, lobs, lastListed, listedSince, absentSince)
    }

    constructor (row: Row)
      ensures Value() == Opened(row)
    {
      newest, components, lobs := Stamp(row), row.components, row.lobs;
      lastListed, listedSince, absentSince := None, None, None;
    }

    /** Keeps the greater of two stamps, and the breadth that came with it. */
    method Renew(row: Row)
      modifies this
      ensures Value() == Renewed(old(Value()), row)
    {
      if Earlier(newest, Stamp(row)) {
        newest, components, lobs := Stamp(row), row.components, row.lobs;
      }
    }

    /** One row's effect on the three dates: an `ok` ends an absence, the first `not_found` opens one. */
    method RecordPresence(state: State, at: Instant)
      modifies this
      ensures Value() == Recorded(old(Value()), state, at)
    {
      if state == Ok {
        lastListed := Some(at);
        if absentSince != None {
          listedSince := Some(at);
          absentSince := None;
        }
      } else if state == NotFound && absentSince == None {
        listedSince := None;
        absentSince := Some(at);
      }
    }

    function Absence(): (r: Reading)
      reads this
      ensures r == Value().Absence()
    {
      Reading(absentSince.Some?, absentSince, lastListed, listedSince)
    }
  }

  function Packages(rows: seq<Row>, wanted: Option<set<int>>): set<int> {
    set row | row in rows && (wanted.None? || row.pkg in wanted.value) :: row.pkg
  }

  /** One accumulator per package, no two packages sharing one, each holding what its rows fold to. */
  ghost predicate Holds(histories: map<int, PackageHistory>, rows: seq<Row>, wanted: Option<set<int>>)
    reads histories.Values
  {
    && histories.Keys == Packages(rows, wanted)
    && (forall p, q :: p in histories && q in histories && histories[p] == histories[q] ==> p == q)
    && (forall p :: p in histories ==> Folded(rows, p) == Some(histories[p].Value()))
  }

  /** One wanted row: its package's accumulator is made or renewed, and records the presence. */
  method Take(histories: map<int, PackageHistory>, rows: seq<Row>, i: nat, wanted: Option<set<int>>)
    returns (after: map<int, PackageHistory>)
    requires i < |rows| && Holds(histories, rows[..i], wanted)
    requires wanted.None? || rows[i].pkg in wanted.value
    modifies histories.Values
    ensures Holds(after, rows[..i + 1], wanted)
    ensures fresh(after.Values - histories.Values)
  {
    var row := rows[i];
    after := histories;
    FoldedNext(rows, i);
    PackagesNext(rows, i, wanted);
    if row.pkg !in histories {
      NoRowNoHistory(rows[..i], row.pkg);
      var history := new PackageHistory(row);
      after := histories[row.pkg := history];
    } else {
      after[row.pkg].Renew(row);
    }
    after[row.pkg].RecordPresence(row.state, row.at);
  }

  /** `fold_observations`: one pass, one accumulator per package. */
  method FoldObservations(rows: seq<Row>, wanted: Option<set<int>>) returns (histories: map<int, PackageHistory>)
    ensures Holds(histories, rows, wanted)
    ensures fresh(histories.Values)
  {
    hide Holds;
    histories := map[];
    NothingHeld(wanted);
    var i := 0;
    assert rows[..0] == [];
    while i < |rows|
      invariant 0 <= i <= |rows|
      invariant fresh(histories.Values)
      invariant Holds(histories, rows[..i], wanted)
    {
      if wanted.None? || rows[i].pkg in wanted.value {
        histories := Take(histories, rows, i, wanted);
      } else {
        SkippedRow(histories, rows, i, wanted);
      }
      i := i + 1;
    }
    assert rows[..i] == rows;
  }

  lemma NothingHeld(wanted: Option<set<int>>)
    ensures Holds(map[], [], wanted)
  {
  }

  lemma SkippedRow(histories: map<int, PackageHistory>, rows: seq<Row>, i: nat, wanted: Option<set<int>>)
    requires i < |rows| && Holds(histories, rows[..i], wanted)
    requires wanted.Some? && rows[i].pkg !in wanted.value
    ensures Holds(histories, rows[..i + 1], wanted)
  {
    hide Folded;
    FoldedNext(rows, i);
    PackagesNext(rows, i, wanted);
  }

  lemma FoldedNext(rows: seq<Row>, i: nat)
    requires i < |rows|
    ensures rows[..i + 1][..i] == rows[..i]
    ensures forall p :: p != rows[i].pkg ==> Folded(rows[..i + 1], p) == Folded(rows[..i], p)
    ensures var before, row := Folded(rows[..i], rows[i].pkg), rows[i];
      Folded(rows[..i + 1], row.pkg)
      == Some(Recorded(if before.None? then Opened(row) else Renewed(before.value, row), row.state, row.at))
  {
    assert rows[..i + 1][..i] == rows[..i];
  }

  lemma PackagesNext(rows: seq<Row>, i: nat, wanted: Option<set<int>>)
    requires i < |rows|
    ensures Packages(rows[..i + 1], wanted)
         == Packages(rows[..i], wanted) + if wanted.None? || rows[i].pkg in wanted.value then {rows[i].pkg} else {}
  {
    assert rows[..i + 1] == rows[..i] + [rows[i]];
    assert rows[i] in rows[..i + 1];
    forall row | row in rows[..i] ensures row in rows[..i + 1] {}
  }

  lemma {:induction false} NoRowNoHistory(rows: seq<Row>, p: int)
    ensures Folded(rows, p).None? <==> forall row :: row in rows ==> row.pkg != p
  {
    if rows != [] {
      var n := |rows| - 1;
      NoRowNoHistory(rows[..n], p);
      assert rows == rows[..n] + [rows[n]];
    }
  }

  // ------------------------------------------------- the whole-history definition of absence

  predicate OkAt(rows: seq<Row>, p: int, i: int) {
    0 <= i < |rows| && rows[i].pkg == p && rows[i].state == Ok
  }

  predicate NotFoundAt(rows: seq<Row>, p: int, i: int) {
    0 <= i < |rows| && rows[i].pkg == p && rows[i].state == NotFound
  }

  /** A `not_found` no later `ok` answers. */
  ghost predicate Unanswered(rows: seq<Row>, p: int, i: int) {
    NotFoundAt(rows, p, i) && forall j :: i < j ==> !OkAt(rows, p, j)
  }

  /** The first `not_found` after the last `ok`. */
  ghost predicate AbsenceStarts(rows: seq<Row>, p: int, i: int) {
    Unanswered(rows, p, i) && forall j :: j < i ==> !Unanswered(rows, p, j)
  }

  ghost predicate LastOk(rows: seq<Row>, p: int, i: int) {
    OkAt(rows, p, i) && forall j :: i < j ==> !OkAt(rows, p, j)
  }

  ghost predicate LastNotFound(rows: seq<Row>, p: int, i: int) {
    NotFoundAt(rows, p, i) && forall j :: i < j ==> !NotFoundAt(rows, p, j)
  }

  /** An `ok` with no other between it and the last `not_found`. */
  ghost predicate ListingStarts(rows: seq<Row>, p: int, i: int) {
    && OkAt(rows, p, i)
    && exists n :: n < i && LastNotFound(rows, p, n) && forall j :: n < j < i ==> !OkAt(rows, p, j)
  }

  ghost predicate SinceIs(rows: seq<Row>, p: int, date: Option<Instant>) {
    match date
    case Some(t) => exists i :: AbsenceStarts(rows, p, i) && rows[i].at == t
    case None => forall i :: !AbsenceStarts(rows, p, i)
  }

  ghost predicate LastListedIs(rows: seq<Row>, p: int, date: Option<Instant>) {
    match date
    case Some(t) => exists i :: LastOk(rows, p, i) && rows[i].at == t
    case None => forall i :: !OkAt(rows, p, i)
  }

  ghost predicate ListedSinceIs(rows: seq<Row>, p: int, date: Option<Instant>) {
    match date
    case Some(t) => exists i :: ListingStarts(rows, p, i) && rows[i].at == t
    case None => forall i :: !ListingStarts(rows, p, i)
  }

  /** What the module's documentation says a reading means, over the whole history. */
  ghost predicate Tells(rows: seq<Row>, p: int, r: Reading) {
    && (r.absent <==> exists i :: Unanswered(rows, p, i))
    && SinceIs(rows, p, r.since)
    && LastListedIs(rows, p, r.lastListed)
    && ListedSinceIs(rows, p, r.listedSince)
  }

  /** The one-pass fold equals the whole-history definition. */
  lemma {:induction false} FoldTellsTheWholeHistory(rows: seq<Row>, p: int)
    requires Folded(rows, p).Some?
    ensures Tells(rows, p, Folded(rows, p).value.Absence())
  {
    var n := |rows| - 1;
    var before := rows[..n];
    PrefixRows(rows, p);
    NeverBothSet(before, p);
    var r := Reading(false, None, None, None);
    if Folded(before, p).None? {
      NoRowNoHistory(before, p);
      assert forall i :: !OkAt(before, p, i) && !NotFoundAt(before, p, i);
    } else {
      FoldTellsTheWholeHistory(before, p);
      r := Folded(before, p).value.Absence();
    }
    if rows[n].pkg == p && rows[n].state == Ok {
      ListingAdvances(rows, p, r);
    } else if rows[n].pkg == p && rows[n].state == NotFound {
      AbsenceAdvances(rows, p, r);
    } else {
      SilentRow(rows, p, r);
    }
  }

  /** `since` and `listed_since` are never both set. */
  lemma {:induction false} NeverBothSet(rows: seq<Row>, p: int)
    ensures Folded(rows, p).Some? ==>
      var r := Folded(rows, p).value.Absence();
      !(r.since.Some? && r.listedSince.Some?)
  {
    if rows != [] {
      NeverBothSet(rows[..|rows| - 1], p);
    }
  }

  lemma SilentRow(rows: seq<Row>, p: int, r: Reading)
    requires rows != [] && Tells(rows[..|rows| - 1], p, r)
    requires var row := rows[|rows| - 1]; row.pkg != p || (row.state != Ok && row.state != NotFound)
    ensures Tells(rows, p, r)
  {
    var n := |rows| - 1;
    var before := rows[..n];
    PrefixRows(rows, p);
    assert forall i :: Unanswered(rows, p, i) == Unanswered(before, p, i);
    assert forall i :: AbsenceStarts(rows, p, i) == AbsenceStarts(before, p, i);
    assert forall i :: LastOk(rows, p, i) == LastOk(before, p, i);
    assert forall i :: LastNotFound(rows, p, i) == LastNotFound(before, p, i);
    assert forall i :: ListingStarts(rows, p, i) == ListingStarts(before, p, i);
  }

  lemma ListingAdvances(rows: seq<Row>, p: int, r: Reading)
    requires rows != [] && Tells(rows[..|rows| - 1], p, r)
    requires OkAt(rows, p, |rows| - 1)
    ensures var at := Some(rows[|rows| - 1].at);
      Tells(rows, p, Reading(false, None, at, if r.absent then at else r.listedSince))
  {
    var n := |rows| - 1;
    var before := rows[..n];
    PrefixRows(rows, p);
    assert forall i :: !Unanswered(rows, p, i);
    assert LastOk(rows, p, n);
    assert forall i :: LastNotFound(rows, p, i) == LastNotFound(before, p, i);
    if r.absent {
      var u :| Unanswered(before, p, u);
      var m := LastNotFoundExists(before, p, u);
      assert LastNotFound(rows, p, m);
      assert ListingStarts(rows, p, n);
    } else {
      assert !ListingStarts(rows, p, n) by {
        if m :| m < n && LastNotFound(rows, p, m) && forall j :: m < j < n ==> !OkAt(rows, p, j) {
          assert Unanswered(before, p, m);
        }
      }
      assert forall i :: ListingStarts(rows, p, i) == ListingStarts(before, p, i);
    }
  }

  lemma AbsenceAdvances(rows: seq<Row>, p: int, r: Reading)
    requires rows != [] && Tells(rows[..|rows| - 1], p, r)
    requires NotFoundAt(rows, p, |rows| - 1)
    ensures var at := Some(rows[|rows| - 1].at);
      Tells(rows, p, Reading(true, if r.absent then r.since else at, r.lastListed, None))
  {
    var n := |rows| - 1;
    var before := rows[..n];
    PrefixRows(rows, p);
    assert Unanswered(rows, p, n);
    assert forall i :: i < n ==> Unanswered(rows, p, i) == Unanswered(before, p, i);
    assert forall i :: i < n ==> AbsenceStarts(rows, p, i) == AbsenceStarts(before, p, i);
    assert !r.absent ==> AbsenceStarts(rows, p, n);
    assert forall i :: LastOk(rows, p, i) == LastOk(before, p, i);
    assert LastNotFound(rows, p, n);
    assert forall m :: LastNotFound(rows, p, m) ==> m == n;
    assert forall i :: !ListingStarts(rows, p, i);
  }

  lemma LastNotFoundExists(rows: seq<Row>, p: int, i: int) returns (m: int)
    requires NotFoundAt(rows, p, i)
    ensures i <= m && LastNotFound(rows, p, m)
    decreases |rows| - i
  {
    if j :| i < j && NotFoundAt(rows, p, j) {
      m := LastNotFoundExists(rows, p, j);
    } else {
      m := i;
    }
  }

  /** The definition leaves no choice: at most one reading tells a history. */
  lemma TheReadingIsUnique(rows: seq<Row>, p: int, a: Reading, b: Reading)
    requires Tells(rows, p, a) && Tells(rows, p, b)
    ensures a == b
  {
    assert forall i, j :: AbsenceStarts(rows, p, i) && AbsenceStarts(rows, p, j) ==> i == j;
    assert forall i, j :: LastOk(rows, p, i) && LastOk(rows, p, j) ==> i == j;
    assert forall i, j :: LastNotFound(rows, p, i) && LastNotFound(rows, p, j) ==> i == j;
    assert forall i, j :: ListingStarts(rows, p, i) && ListingStarts(rows, p, j) ==> i == j;
  }

  lemma PrefixRows(rows: seq<Row>, p: int)
    requires rows != []
    ensures var n := |rows| - 1;
      && (forall i :: i < n ==> OkAt(rows, p, i) == OkAt(rows[..n], p, i))
      && (forall i :: i < n ==> NotFoundAt(rows, p, i) == NotFoundAt(rows[..n], p, i))
      && (forall i :: n <= i ==> !OkAt(rows[..n], p, i) && !NotFoundAt(rows[..n], p, i))
      && (forall i :: n < i ==> !OkAt(rows, p, i) && !NotFoundAt(rows, p, i))
  {
  }
}
