/** Resolving claims to the user row they designate (`src/config/authorization/mapper.py`), over the
  * user table and its two unique columns (`src/django_service/users/models.py`). */
module Mapper {
  import opened Core
  import opened Text
  import opened Claims
  import opened Usernames

  const IDENTITY_LIMIT := 255
  const EMAIL_LIMIT := 254
  const NAME_LIMIT := 255

  type Pk = nat

  datatype Row = Row(subject: Option<string>, username: string, email: string, name: string, active: bool,
                     usablePassword: bool)

  type Table = map<Pk, Row>

  datatype Refusal = IdentityKeyAbsent | IdentityKeyTooLong | UsernameUnavailable | UserDeactivated

  /** The two unique columns; any number of rows may have no subject. */
  predicate Clash(a: Row, b: Row) {
    a.username == b.username || (a.subject.Some? && a.subject == b.subject)
  }

  ghost predicate Unique(t: Table) {
    forall p, q :: p in t && q in t && p != q ==> !Clash(t[p], t[q])
  }

  /** The constraint check of an insert. */
  predicate Conflicts(t: Table, row: Row) {
    exists p :: p in t && Clash(t[p], row)
  }

  ghost function Holder(t: Table, subject: string): Option<Pk> {
    if exists p :: p in t && t[p].subject == Some(subject) then
      var p :| p in t && t[p].subject == Some(subject);
      Some(p)
    else None
  }

  function HeldNames(t: Table): set<string> {
    set p | p in t :: t[p].username
  }

  /** What other transactions may have committed by a later statement: rows, and no change to a key. */
  ghost predicate Later(before: Table, after: Table) {
    Unique(after) && forall p :: p in before ==> p in after && SameKeys(before[p], after[p])
  }

  predicate SameKeys(a: Row, b: Row) {
    a.subject == b.subject && a.username == b.username
  }

  lemma TheHolderIsUnique(t: Table, subject: string, p: Pk)
    requires Unique(t) && p in t && t[p].subject == Some(subject)
    ensures Holder(t, subject) == Some(p)
  {
  }

  lemma AnInsertKeepsUniqueness(t: Table, pk: Pk, row: Row)
    requires Unique(t) && pk !in t && !Conflicts(t, row)
    ensures Unique(t[pk := row]) && Later(t, t[pk := row])
  {
  }

  /** Rows once there are there later, under the same keys. */
  lemma LaterIsTransitive(a: Table, b: Table, c: Table)
    requires Later(a, b) && Later(b, c)
    ensures Later(a, c)
  {
  }

  /** The row `_create_user` inserts. */
  function NewRow(claims: Payload, subject: string, username: string): Row {
    Row(Some(subject), username,
        Bounded(ReadText(claims, "email"), EMAIL_LIMIT), Bounded(ReadText(claims, "name"), NAME_LIMIT), true, false)
  }

  lemma NewRowKeys(claims: Payload, subject: string, username: string)
    ensures var row := NewRow(claims, subject, username);
      && row.subject == Some(subject) && row.username == username && row.active && !row.usablePassword
      && |row.email| <= EMAIL_LIMIT && |row.name| <= NAME_LIMIT
  {
  }

  /** What the database holds at the statements of one call after its first: nothing else runs inside it. */
  datatype Meanwhile = Meanwhile(afterMiss: Table, afterCheck: Table, pk: Pk)

  ghost predicate Possible(start: Table, world: Meanwhile) {
    Later(start, world.afterMiss) && Later(world.afterMiss, world.afterCheck) && world.pk !in world.afterCheck
  }

  /** What is read back after a lost insert: the row of the key, or the refusal. */
  ghost function Recovered(t: Table, subject: string): Result<Pk, Refusal> {
    match Holder(t, subject)
    case Some(p) => Success(p)
    case None => Failure(UsernameUnavailable)
  }

  /** What a first sighting comes to: the new row, the row another call inserted, or the named refusal. */
  ghost function Created(claims: Payload, subject: string, hex: string -> string, world: Meanwhile)
    : (Table, Result<Pk, Refusal>)
  {
    var name := FirstFree(Candidates(DesiredUsername(claims, subject, hex), subject, hex), HeldNames(world.afterMiss));
    if name.None? then (world.afterMiss, Failure(UsernameUnavailable))
    else
      var row := NewRow(claims, subject, name.value);
      if !Conflicts(world.afterCheck, row) then (world.afterCheck[world.pk := row], Success(world.pk))
      else (world.afterCheck, Recovered(world.afterCheck, subject))
  }

  ghost function Resolved(start: Table, claims: Payload, identityClaim: string, hex: string -> string, world: Meanwhile)
    : (Table, Result<Pk, Refusal>)
  {
    match ReadIdentityKey(claims, identityClaim)
    case None => (start, Failure(IdentityKeyAbsent))
    case Some(subject) =>
      if |subject| > IDENTITY_LIMIT then (start, Failure(IdentityKeyTooLong))
      else
        match Holder(start, subject)
        case Some(p) => (start, if p in start && start[p].active then Success(p) else Failure(UserDeactivated))
        case None => Created(claims, subject, hex, world)
  }

  /** The user table, as this process's statements read it. */
  class Users {
    var rows: Table

    constructor ()
      ensures rows == map[]
    {
      rows := map[];
    }

    /** `filter(idp_subject=...).first()`. */
    method FirstBySubject(subject: string) returns (found: Option<Pk>)
      requires Unique(rows)
      ensures found == Holder(rows, subject)
    {
      if p :| p in rows && rows[p].subject == Some(subject) {
        TheHolderIsUnique(rows, subject, p);
        return Some(p);
      }
      found := None;
    }

    /** `user.save()` on a new row, under the unique constraints; false is the `IntegrityError`. */
    method Insert(pk: Pk, row: Row) returns (ok: bool)
      requires pk !in rows
      modifies this
      ensures ok <==> !Conflicts(old(rows), row)
      ensures rows == if ok then old(rows)[pk := row] else old(rows)
    {
      ok := !Conflicts(rows, row);
      if ok {
        rows := rows[pk := row];
      }
    }

    /** `_available_username`: one read of the holders, then the first candidate that none of them has. */
    method AvailableUsername(desired: string, subject: string, hex: string -> string) returns (name: Option<string>)
      ensures name == FirstFree(Candidates(desired, subject, hex), HeldNames(rows))
      ensures name.Some? && name.value != desired ==> exists p :: p in rows && rows[p].username == desired
    {
      var candidates := Candidates(desired, subject, hex);
      var held := set p | p in rows && rows[p].username in candidates :: rows[p].username;
      var i := 0;
      while i < |candidates|
        invariant 0 <= i <= |candidates|
        invariant i > 0 ==> desired in held
        invariant FirstFree(candidates[i..], HeldNames(rows)) == FirstFree(candidates, HeldNames(rows))
      {
        assert candidates[i..][0] == candidates[i] && candidates[i..][1..] == candidates[i + 1..];
        assert candidates[i] in held <==> candidates[i] in HeldNames(rows);
        if candidates[i] !in held {
          return Some(candidates[i]);
        }
        i := i + 1;
      }
      name := None;
    }

    /** `_resolve_a_lost_insert`: the row that won, or the refusal; the `IntegrityError` never leaves. */
    method ResolveALostInsert(subject: string) returns (r: Result<Pk, Refusal>)
      requires Unique(rows)
      ensures r == Recovered(rows, subject)
    {
      var winner := FirstBySubject(subject);
      if winner.None? {
        return Failure(UsernameUnavailable);
      }
      r := Success(winner.value);
    }

    /** `_create_user`, with what other transactions commit between its statements. */
    method CreateUser(claims: Payload, subject: string, hex: string -> string, world: Meanwhile)
      returns (r: Result<Pk, Refusal>)
      requires Possible(rows, world)
      modifies this
      ensures (rows, r) == Created(claims, subject, hex, world)
    {
      rows := world.afterMiss;
      var name := AvailableUsername(DesiredUsername(claims, subject, hex), subject, hex);
      if name.None? {
        return Failure(UsernameUnavailable);
      }
      rows := world.afterCheck;
      var ok := Insert(world.pk, NewRow(claims, subject, name.value));
      if ok {
        return Success(world.pk);
      }
      r := ResolveALostInsert(subject);
    }

    /** `resolve_user`. */
    method ResolveUser(claims: Payload, identityClaim: string, hex: string -> string, world: Meanwhile)
      returns (r: Result<Pk, Refusal>)
      requires Unique(rows) && Possible(rows, world)
      modifies this
      ensures (rows, r) == Resolved(old(rows), claims, identityClaim, hex, world)
    {
      var subject := ReadIdentityKey(claims, identityClaim);
      if subject.None? {
        return Failure(IdentityKeyAbsent);
      }
      if |subject.value| > IDENTITY_LIMIT {
        return Failure(IdentityKeyTooLong);
      }
      var found := FirstBySubject(subject.value);
      if found.Some? {
        return if rows[found.value].active then Success(found.value) else Failure(UserDeactivated);
      }
      r := CreateUser(claims, subject.value, hex, world);
    }
  }

  // ------------------------------------------------------------------- what one call promises

  /** Keys stay unique, no row goes and none changes its keys; a hit writes nothing at all. */
  lemma ResolvingKeepsTheTable(start: Table, claims: Payload, identityClaim: string, hex: string -> string,
                               world: Meanwhile)
    requires Unique(start) && Possible(start, world)
    ensures Later(start, Resolved(start, claims, identityClaim, hex, world).0)
    ensures var subject := ReadIdentityKey(claims, identityClaim);
      subject.None? || |subject.value| > IDENTITY_LIMIT || Holder(start, subject.value).Some?
      ==> Resolved(start, claims, identityClaim, hex, world).0 == start
  {
    hide Candidates, DesiredUsername, FirstFree, ReadIdentityKey, HeldNames, NewRow, Conflicts, Holder, Unique;
    LaterIsTransitive(start, world.afterMiss, world.afterCheck);
    var subject := ReadIdentityKey(claims, identityClaim);
    if subject.Some? && |subject.value| <= IDENTITY_LIMIT && Holder(start, subject.value).None? {
      var name := FirstFree(Candidates(DesiredUsername(claims, subject.value, hex), subject.value, hex),
                            HeldNames(world.afterMiss));
      if name.Some? && !Conflicts(world.afterCheck, NewRow(claims, subject.value, name.value)) {
        AnInsertKeepsUniqueness(world.afterCheck, world.pk, NewRow(claims, subject.value, name.value));
        LaterIsTransitive(start, world.afterCheck,
                          world.afterCheck[world.pk := NewRow(claims, subject.value, name.value)]);
      }
    }
  }

  /** Whoever is returned is the one row of the key, whichever way it came to be returned. */
  lemma ResolvingReturnsTheRowOfTheKey(start: Table, claims: Payload, identityClaim: string, hex: string -> string,
                                       world: Meanwhile)
    requires Unique(start) && Possible(start, world)
    requires Resolved(start, claims, identityClaim, hex, world).1.Success?
    ensures var (after, r) := Resolved(start, claims, identityClaim, hex, world);
      var subject := ReadIdentityKey(claims, identityClaim);
      subject.Some? && r.value in after && after[r.value].subject == subject
        && Holder(after, subject.value) == Some(r.value)
  {
    hide Candidates, DesiredUsername, FirstFree, ReadIdentityKey, HeldNames;
    var (after, r) := Resolved(start, claims, identityClaim, hex, world);
    ResolvingKeepsTheTable(start, claims, identityClaim, hex, world);
    TheHolderIsUnique(after, ReadIdentityKey(claims, identityClaim).value, r.value);
  }

  /** A row a call creates is active, cannot log in locally, and has a name and a key the model accepts. */
  lemma ANewRowIsWellFormed(claims: Payload, subject: string, hex: string -> string, world: Meanwhile)
    requires IsDigest(hex) && world.pk !in world.afterMiss && world.pk !in world.afterCheck
    requires world.pk in Created(claims, subject, hex, world).0
    ensures var row := Created(claims, subject, hex, world).0[world.pk];
      row.active && !row.usablePassword && ValidUsername(row.username) && row.subject == Some(subject)
      && |row.email| <= EMAIL_LIMIT && |row.name| <= NAME_LIMIT
  {
    hide Candidates, DesiredUsername, FirstFree, ValidUsername, HeldNames, Conflicts, Holder, IsDigest, NewRow;
    var name := FirstFree(Candidates(DesiredUsername(claims, subject, hex), subject, hex), HeldNames(world.afterMiss));
    if name.Some? {
      NewRowKeys(claims, subject, name.value);
    }
    EveryCandidateIsAValidUsername(claims, subject, hex);
    TheFirstFreeNameIsTaken(Candidates(DesiredUsername(claims, subject, hex), subject, hex),
                            HeldNames(world.afterMiss));
  }

  /** A first sighting is refused only for its name: every candidate was held when it looked, or the one
    * it chose was taken before its insert, by a row that is not its own. */
  lemma ARefusedSightingHasAHeldName(start: Table, claims: Payload, identityClaim: string, hex: string -> string,
                                     world: Meanwhile)
    requires Unique(start) && Possible(start, world)
    requires ReadIdentityKey(claims, identityClaim).Some?
      && |ReadIdentityKey(claims, identityClaim).value| <= IDENTITY_LIMIT
    requires Holder(start, ReadIdentityKey(claims, identityClaim).value).None?
    requires Resolved(start, claims, identityClaim, hex, world).1.Failure?
    ensures var (after, r) := Resolved(start, claims, identityClaim, hex, world);
      var subject := ReadIdentityKey(claims, identityClaim).value;
      var candidates := Candidates(DesiredUsername(claims, subject, hex), subject, hex);
      && r.error == UsernameUnavailable
      && ((forall n :: n in candidates ==> n in HeldNames(world.afterMiss))
          || exists p :: p in after && after[p].username in candidates && after[p].subject != Some(subject))
  {
    hide Candidates, DesiredUsername, FirstFree, ReadIdentityKey, HeldNames, NewRow, Conflicts, Holder, Unique, Later;
    var subject := ReadIdentityKey(claims, identityClaim).value;
    var candidates := Candidates(DesiredUsername(claims, subject, hex), subject, hex);
    TheFirstFreeNameIsTaken(candidates, HeldNames(world.afterMiss));
    var name := FirstFree(candidates, HeldNames(world.afterMiss));
    if name.Some? {
      NewRowKeys(claims, subject, name.value);
      AConflictIsOfTheName(world.afterCheck, subject, NewRow(claims, subject, name.value));
    }
  }

  lemma AConflictIsOfTheName(t: Table, subject: string, row: Row)
    requires Conflicts(t, row) && row.subject == Some(subject) && Holder(t, subject).None?
    ensures exists p :: p in t && t[p].username == row.username && t[p].subject != Some(subject)
  {
    var p :| p in t && Clash(t[p], row);
    assert t[p].subject != Some(subject);
  }
}
