/** The order the snapshot rows are read in, and what a reading means for the table itself
  * (`collectors/absence.py`): the query sorts, so the place of a row in the table says nothing. */
module AbsenceOrder {
  import opened Core
  import opened Absence

  // ------------------------------------------------------------------- `order_by("observed_at", "pk")`

  ghost predicate Ascending(rows: seq<Row>) {
    forall i, j :: 0 <= i < j < |rows| ==> !Earlier(Stamp(rows[j]), Stamp(rows[i]))
  }

  function Inserted(row: Row, rows: seq<Row>): (r: seq<Row>)
    ensures forall x :: x in r <==> x == row || x in rows
    ensures Ascending(rows) ==> Ascending(r)
  {
    if rows == [] then [row]
    else if Earlier(Stamp(row), Stamp(rows[0])) then
      AscendingTail(rows);
      StaysAscending(row, rows);
      [row] + rows
    else
      AscendingTail(rows);
      var rest := Inserted(row, rows[1..]);
      StaysAscending(rows[0], rest);
      [rows[0]] + rest
  }

  lemma AscendingTail(rows: seq<Row>)
    requires rows != []
    ensures Ascending(rows) ==> Ascending(rows[1..]) && forall x :: x in rows ==> !Earlier(Stamp(x), Stamp(rows[0]))
  {
  }

  lemma StaysAscending(first: Row, rest: seq<Row>)
    ensures Ascending(rest) && (forall x :: x in rest ==> !Earlier(Stamp(x), Stamp(first))) ==>
      Ascending([first] + rest)
  {
  }

  function Ordered(rows: seq<Row>): (r: seq<Row>)
    ensures forall x :: x in r <==> x in rows
    ensures Ascending(r)
  {
    if rows == [] then [] else Inserted(rows[|rows| - 1], Ordered(rows[..|rows| - 1]))
  }

  lemma {:induction false} FilterInserted(row: Row, rows: seq<Row>, keep: Row -> bool)
    requires Ascending(rows)
    ensures Filter(Inserted(row, rows), keep)
         == if keep(row) then Inserted(row, Filter(rows, keep)) else Filter(rows, keep)
  {
    if rows != [] {
      AscendingTail(rows);
      FilterInserted(row, rows[1..], keep);
      var rest := Filter(rows[1..], keep);
      if Earlier(Stamp(row), Stamp(rows[0])) {
        assert ([row] + rows)[1..] == rows;
        InsertedInFront(row, Filter(rows, keep));
      } else {
        assert ([rows[0]] + Inserted(row, rows[1..]))[1..] == Inserted(row, rows[1..]);
        assert ([rows[0]] + rest)[1..] == rest;
      }
    }
  }

  lemma InsertedInFront(row: Row, rows: seq<Row>)
    requires forall x :: x in rows ==> Earlier(Stamp(row), Stamp(x))
    ensures Inserted(row, rows) == [row] + rows
  {
  }

  /** Narrowing the query and then sorting is sorting and then narrowing. */
  lemma {:induction false} FilterOrdered(rows: seq<Row>, keep: Row -> bool)
    ensures Filter(Ordered(rows), keep) == Ordered(Filter(rows, keep))
  {
    hide Inserted, Filter;
    if rows == [] {
      NothingToFilter(keep);
    } else {
      var n := |rows| - 1;
      FilterOrdered(rows[..n], keep);
      FilterInserted(rows[n], Ordered(rows[..n]), keep);
      LastFiltered(rows[..n], rows[n], keep);
      assert rows == rows[..n] + [rows[n]];
      var kept := Filter(rows[..n], keep);
      assert (kept + [rows[n]])[..|kept|] == kept;
    }
  }

  lemma NothingToFilter(keep: Row -> bool)
    ensures Filter([], keep) == [] == Ordered([])
  {
  }

  lemma LastFiltered(rows: seq<Row>, last: Row, keep: Row -> bool)
    ensures Filter(rows + [last], keep) == if keep(last) then Filter(rows, keep) + [last] else Filter(rows, keep)
  {
    FilterAppend(rows, [last], keep);
    assert Filter([last], keep) == if keep(last) then [last] else [];
  }

  // ------------------------------------------------------------------- a reading, in instants

  /** `pk` is the table's key, so no two rows carry one stamp. */
  ghost predicate KeyedRows(rows: seq<Row>) {
    forall a, b :: a in rows && b in rows && Stamp(a) == Stamp(b) ==> a == b
  }

  predicate IsOk(row: Row, p: int) {
    row.pkg == p && row.state == Ok
  }

  predicate IsNotFound(row: Row, p: int) {
    row.pkg == p && row.state == NotFound
  }

  /** A `not_found` that came after every `ok`. */
  ghost predicate StillAbsent(rows: seq<Row>, p: int, x: Row) {
    x in rows && IsNotFound(x, p) && forall y :: y in rows && IsOk(y, p) ==> Earlier(Stamp(y), Stamp(x))
  }

  /** An `ok` that came after every `not_found`, of which there was one. */
  ghost predicate Relists(rows: seq<Row>, p: int, x: Row) {
    && x in rows && IsOk(x, p)
    && (exists y :: y in rows && IsNotFound(y, p))
    && forall y :: y in rows && IsNotFound(y, p) ==> Earlier(Stamp(y), Stamp(x))
  }

  /** `since` is the least instant of the rows still absent. */
  ghost predicate SinceAt(rows: seq<Row>, p: int, date: Option<Instant>) {
    match date
    case None => forall x :: !StillAbsent(rows, p, x)
    case Some(t) =>
      (exists x :: StillAbsent(rows, p, x) && x.at == t) && forall x :: StillAbsent(rows, p, x) ==> t <= x.at
  }

  /** `last_listed` is the greatest instant of the `ok` rows. */
  ghost predicate LastListedAt(rows: seq<Row>, p: int, date: Option<Instant>) {
    match date
    case None => forall x :: x in rows ==> !IsOk(x, p)
    case Some(t) =>
      (exists x :: x in rows && IsOk(x, p) && x.at == t) && forall x :: x in rows && IsOk(x, p) ==> x.at <= t
  }

  /** `listed_since` is the least instant of the rows that list the package again. */
  ghost predicate ListedSinceAt(rows: seq<Row>, p: int, date: Option<Instant>) {
    match date
    case None => forall x :: !Relists(rows, p, x)
    case Some(t) => (exists x :: Relists(rows, p, x) && x.at == t) && forall x :: Relists(rows, p, x) ==> t <= x.at
  }

  /** What a reading says of a table of rows, whatever order they stand in. */
  ghost predicate TellsTheTable(rows: seq<Row>, p: int, r: Reading) {
    && (r.absent <==> exists x :: StillAbsent(rows, p, x))
    && SinceAt(rows, p, r.since) && LastListedAt(rows, p, r.lastListed) && ListedSinceAt(rows, p, r.listedSince)
  }

  /** Of two rows of a sorted stream the later one carries the greater stamp. */
  lemma LaterIsGreater(rows: seq<Row>, i: int, j: int)
    requires Ascending(rows) && KeyedRows(rows) && 0 <= i < |rows| && 0 <= j < |rows| && rows[i] != rows[j]
    ensures i < j <==> Earlier(Stamp(rows[i]), Stamp(rows[j]))
  {
    assert rows[i] in rows && rows[j] in rows;
  }

  lemma UnansweredIsStillAbsent(rows: seq<Row>, p: int, i: int)
    requires Ascending(rows) && KeyedRows(rows) && 0 <= i < |rows|
    ensures Unanswered(rows, p, i) <==> StillAbsent(rows, p, rows[i])
  {
    forall j | 0 <= j < |rows| && NotFoundAt(rows, p, i) && OkAt(rows, p, j)
      ensures i < j <==> !Earlier(Stamp(rows[j]), Stamp(rows[i]))
    {
      LaterIsGreater(rows, j, i);
    }
    forall y | y in rows && IsOk(y, p) && Unanswered(rows, p, i) ensures Earlier(Stamp(y), Stamp(rows[i])) {
      var j :| 0 <= j < |rows| && rows[j] == y;
      assert OkAt(rows, p, j);
    }
    if StillAbsent(rows, p, rows[i]) {
      forall j | i < j ensures !OkAt(rows, p, j) {
        if 0 <= j < |rows| { assert rows[j] in rows; }
      }
    }
  }

  lemma {:induction false} FirstUnanswered(rows: seq<Row>, p: int, i: int) returns (first: int)
    requires Unanswered(rows, p, i)
    ensures AbsenceStarts(rows, p, first)
    decreases i
  {
    if j :| j < i && Unanswered(rows, p, j) {
      first := FirstUnanswered(rows, p, j);
    } else {
      first := i;
    }
  }

  lemma SinceIsAnInstant(rows: seq<Row>, p: int, date: Option<Instant>)
    requires Ascending(rows) && KeyedRows(rows) && SinceIs(rows, p, date)
    ensures SinceAt(rows, p, date)
  {
    forall x | StillAbsent(rows, p, x) ensures date.Some? && date.value <= x.at {
      var k :| 0 <= k < |rows| && rows[k] == x;
      UnansweredIsStillAbsent(rows, p, k);
      var first := FirstUnanswered(rows, p, k);
      var i :| AbsenceStarts(rows, p, i) && date.Some? && rows[i].at == date.value;
      assert i <= k;
    }
    if date.Some? {
      var i :| AbsenceStarts(rows, p, i) && rows[i].at == date.value;
      UnansweredIsStillAbsent(rows, p, i);
    }
  }

  lemma LastListedIsAnInstant(rows: seq<Row>, p: int, date: Option<Instant>)
    requires Ascending(rows) && LastListedIs(rows, p, date)
    ensures LastListedAt(rows, p, date)
  {
    forall x | x in rows && IsOk(x, p) ensures date.Some? && x.at <= date.value {
      var k :| 0 <= k < |rows| && rows[k] == x;
      assert OkAt(rows, p, k);
      var i :| LastOk(rows, p, i) && date.Some? && rows[i].at == date.value;
      assert k <= i;
    }
    if date.Some? {
      var i :| LastOk(rows, p, i) && rows[i].at == date.value;
      assert rows[i] in rows;
    }
  }

  /** An `ok` after the last `not_found` is one that came after all of them. */
  lemma RelistingIsAfterTheLast(rows: seq<Row>, p: int, k: int, n: int)
    requires Ascending(rows) && KeyedRows(rows) && LastNotFound(rows, p, n) && OkAt(rows, p, k)
    ensures n < k <==> Relists(rows, p, rows[k])
  {
    assert rows[n] in rows && IsNotFound(rows[n], p) && rows[k] in rows && IsOk(rows[k], p);
    LaterIsGreater(rows, n, k);
    if n < k {
      forall y | y in rows && IsNotFound(y, p) ensures Earlier(Stamp(y), Stamp(rows[k])) {
        var j :| 0 <= j < |rows| && rows[j] == y;
        assert NotFoundAt(rows, p, j);
        LaterIsGreater(rows, j, k);
      }
    }
  }

  lemma {:induction false} FirstOkAfter(rows: seq<Row>, p: int, n: int, k: int) returns (first: int)
    requires n < k && OkAt(rows, p, k)
    ensures n < first <= k && OkAt(rows, p, first) && forall j :: n < j < first ==> !OkAt(rows, p, j)
    decreases k
  {
    if j :| n < j < k && OkAt(rows, p, j) {
      first := FirstOkAfter(rows, p, n, j);
    } else {
      first := k;
    }
  }

  lemma ListingStartsAtOrBefore(rows: seq<Row>, p: int, x: Row) returns (i: int)
    requires Ascending(rows) && KeyedRows(rows) && Relists(rows, p, x)
    ensures ListingStarts(rows, p, i) && rows[i].at <= x.at
  {
    hide Ascending, KeyedRows, Earlier, Stamp;
    var y :| y in rows && IsNotFound(y, p);
    var m :| 0 <= m < |rows| && rows[m] == y;
    assert NotFoundAt(rows, p, m);
    var n := LastNotFoundExists(rows, p, m);
    var k :| 0 <= k < |rows| && rows[k] == x;
    assert OkAt(rows, p, k);
    RelistingIsAfterTheLast(rows, p, k, n);
    i := FirstOkAfter(rows, p, n, k);
    assert ListingStarts(rows, p, i);
    InstantsAscend(rows, i, k);
  }

  lemma InstantsAscend(rows: seq<Row>, i: nat, k: nat)
    requires Ascending(rows) && i <= k < |rows|
    ensures rows[i].at <= rows[k].at
  {
    assert i < k ==> !Earlier(Stamp(rows[k]), Stamp(rows[i]));
  }

  lemma ListingsStartOnce(rows: seq<Row>, p: int, i: int, j: int)
    requires ListingStarts(rows, p, i) && ListingStarts(rows, p, j)
    ensures i == j
  {
    var m :| m < i && LastNotFound(rows, p, m) && forall k :: m < k < i ==> !OkAt(rows, p, k);
    var n :| n < j && LastNotFound(rows, p, n) && forall k :: n < k < j ==> !OkAt(rows, p, k);
    assert m == n;
  }

  lemma ListedSinceIsAnInstant(rows: seq<Row>, p: int, date: Option<Instant>)
    requires Ascending(rows) && KeyedRows(rows) && ListedSinceIs(rows, p, date)
    ensures ListedSinceAt(rows, p, date)
  {
    forall x | Relists(rows, p, x) ensures date.Some? && date.value <= x.at {
      var i := ListingStartsAtOrBefore(rows, p, x);
      var j :| ListingStarts(rows, p, j) && date.Some? && rows[j].at == date.value;
      ListingsStartOnce(rows, p, i, j);
    }
    if date.Some? {
      var i :| ListingStarts(rows, p, i) && rows[i].at == date.value;
      var n :| n < i && LastNotFound(rows, p, n);
      RelistingIsAfterTheLast(rows, p, i, n);
    }
  }

  /** On a sorted stream of a keyed table the four answers are the four statements about instants. */
  lemma TheStreamTellsTheTable(rows: seq<Row>, p: int, r: Reading)
    requires Ascending(rows) && KeyedRows(rows) && Tells(rows, p, r)
    ensures TellsTheTable(rows, p, r)
  {
    SinceIsAnInstant(rows, p, r.since);
    LastListedIsAnInstant(rows, p, r.lastListed);
    ListedSinceIsAnInstant(rows, p, r.listedSince);
    AbsentIsStillAbsent(rows, p);
  }

  lemma AbsentIsStillAbsent(rows: seq<Row>, p: int)
    requires Ascending(rows) && KeyedRows(rows)
    ensures (exists i :: Unanswered(rows, p, i)) <==> (exists x :: StillAbsent(rows, p, x))
  {
    if i :| Unanswered(rows, p, i) {
      UnansweredIsStillAbsent(rows, p, i);
    }
    if x :| StillAbsent(rows, p, x) {
      var k :| 0 <= k < |rows| && rows[k] == x;
      UnansweredIsStillAbsent(rows, p, k);
    }
  }

  /** The statements see the rows and not their places. */
  lemma TheTableHasNoOrder(a: seq<Row>, b: seq<Row>, p: int, r: Reading)
    requires TellsTheTable(a, p, r) && forall x :: x in a <==> x in b
    ensures TellsTheTable(b, p, r)
  {
    assert forall x :: StillAbsent(a, p, x) <==> StillAbsent(b, p, x);
    assert forall x :: Relists(a, p, x) <==> Relists(b, p, x);
  }

  /** And they leave no choice. */
  lemma OneReadingTellsTheTable(rows: seq<Row>, p: int, a: Reading, b: Reading)
    requires TellsTheTable(rows, p, a) && TellsTheTable(rows, p, b)
    ensures a == b
  {
    assert a.since == b.since && a.lastListed == b.lastListed && a.listedSince == b.listedSince;
  }
}
