/** Any number of concurrent callers of `resolve_user` (`src/config/authorization/mapper.py`) over one
  * database: each statement reads what is committed, each request's insert stays pending until its
  * transaction commits or rolls back, and an insert waits while a pending one would clash with it. */
module FirstSightings {
  import opened Core
  import opened Claims
  import opened Usernames
  import opened Mapper

  type Tid = nat

  /** Where one request stands in its resolution. `Created` is its own insert, not yet committed. */
  datatype Call =
    | Idle
    | Missed(subject: string, claims: Payload)
    | Named(subject: string, claims: Payload, name: string)
    | Lost(subject: string, claims: Payload, name: string)
    | Created(subject: string, pk: Pk)
    | Returned(subject: string, pk: Pk)
    | Refused(subject: string, claims: Payload, reason: Refusal)
    | RolledBack

  /** `pending` holds each request's uncommitted row; `next` is the key sequence, which never goes back. */
  datatype Database = Database(committed: Table, pending: Table, next: Pk, calls: map<Tid, Call>)

  datatype Step =
    | Look(tid: Tid, subject: string, claims: Payload)
    | ReadHolders(tid: Tid)
    | Insert(tid: Tid)
    | Reread(tid: Tid)
    | Commit(tid: Tid)
    | Rollback(tid: Tid)
    | SetActive(pk: Pk, active: bool)
    | Enter(row: Row)

  function CallOf(s: Database, tid: Tid): Call {
    if tid in s.calls then s.calls[tid] else Idle
  }

  function CandidatesOf(subject: string, claims: Payload, hex: string -> string): seq<string> {
    Candidates(DesiredUsername(claims, subject, hex), subject, hex)
  }

  predicate Enabled(s: Database, step: Step) {
    match step
    case Look(tid, subject, claims) => CallOf(s, tid).Idle?
    case ReadHolders(tid) => CallOf(s, tid).Missed?
    case Insert(tid) =>
      CallOf(s, tid).Named? &&
      !Conflicts(s.pending, NewRow(CallOf(s, tid).claims, CallOf(s, tid).subject, CallOf(s, tid).name))
    case Reread(tid) => CallOf(s, tid).Lost?
    case Commit(tid) => CallOf(s, tid).Created? && CallOf(s, tid).pk in s.pending
    case Rollback(tid) => CallOf(s, tid).Created?
    case SetActive(pk, active) => pk in s.committed
    case Enter(row) => !Conflicts(s.committed, row) && !Conflicts(s.pending, row)
  }

  function Moved(s: Database, tid: Tid, call: Call): Database {
    s.(calls := s.calls[tid := call])
  }

  ghost function Next(s: Database, step: Step, hex: string -> string): Database
    requires Enabled(s, step)
  {
    match step
    case Look(tid, subject, claims) =>
      (match Holder(s.committed, subject)
       case None => Moved(s, tid, Missed(subject, claims))
       case Some(pk) =>
         if pk in s.committed && s.committed[pk].active then Moved(s, tid, Returned(subject, pk))
         else Moved(s, tid, Refused(subject, claims, UserDeactivated)))
    case ReadHolders(tid) =>
      var call := CallOf(s, tid);
      (match FirstFree(CandidatesOf(call.subject, call.claims, hex), HeldNames(s.committed))
       case None => Moved(s, tid, Refused(call.subject, call.claims, UsernameUnavailable))
       case Some(name) => Moved(s, tid, Named(call.subject, call.claims, name)))
    case Insert(tid) =>
      var call := CallOf(s, tid);
      var row := NewRow(call.claims, call.subject, call.name);
      if Conflicts(s.committed, row) then Moved(s, tid, Lost(call.subject, call.claims, call.name))
      else Moved(s, tid, Created(call.subject, s.next)).(pending := s.pending[s.next := row], next := s.next + 1)
    case Reread(tid) =>
      var call := CallOf(s, tid);
      (match Holder(s.committed, call.subject)
       case None => Moved(s, tid, Refused(call.subject, call.claims, UsernameUnavailable))
       case Some(pk) => Moved(s, tid, Returned(call.subject, pk)))
    case Commit(tid) =>
      var call := CallOf(s, tid);
      Moved(s, tid, Returned(call.subject, call.pk)).(
        committed := s.committed[call.pk := s.pending[call.pk]], pending := s.pending - {call.pk})
    case Rollback(tid) => Moved(s, tid, RolledBack).(pending := s.pending - {CallOf(s, tid).pk})
    case SetActive(pk, active) => s.(committed := s.committed[pk := s.committed[pk].(active := active)])
    case Enter(row) => s.(committed := s.committed[s.next := row], next := s.next + 1)
  }

  /** The databases some run reaches from rows that were there before, with nobody at work. */
  ghost predicate Run(start: Database, hex: string -> string, steps: seq<Step>, s: Database)
    decreases |steps|
  {
    if steps == [] then s == start
    else
      var n := |steps| - 1;
      exists before :: Run(start, hex, steps[..n], before) && Enabled(before, steps[n])
        && s == Next(before, steps[n], hex)
  }

  ghost predicate Fresh(s: Database) {
    Unique(s.committed) && s.pending == map[] && s.calls == map[] && forall p :: p in s.committed ==> p < s.next
  }

  // ------------------------------------------------------------------------------ the invariant

  /** All rows there are, committed or pending, have distinct keys, names and subjects. */
  ghost predicate RowsAreApart(s: Database) {
    && (forall p :: p in s.committed ==> p < s.next)
    && (forall p :: p in s.pending ==> p < s.next && p !in s.committed)
    && Unique(s.committed + s.pending)
  }

  ghost predicate NameIsHeld(s: Database, subject: string, claims: Payload, hex: string -> string) {
    exists p :: p in s.committed && s.committed[p].username in CandidatesOf(subject, claims, hex)
      && s.committed[p].subject != Some(subject)
  }

  ghost predicate AllNamesHeld(s: Database, subject: string, claims: Payload, hex: string -> string) {
    forall n :: n in CandidatesOf(subject, claims, hex) ==> n in HeldNames(s.committed)
  }

  ghost predicate KeyIsHeld(s: Database, subject: string) {
    exists p :: p in s.committed && s.committed[p].subject == Some(subject)
  }

  /** What each call knows, at each point. */
  ghost predicate CallIsSound(s: Database, call: Call, hex: string -> string) {
    match call
    case Named(subject, claims, name) => name in CandidatesOf(subject, claims, hex)
    case Lost(subject, claims, name) =>
      name in CandidatesOf(subject, claims, hex) && (KeyIsHeld(s, subject) || NameIsHeld(s, subject, claims, hex))
    case Created(subject, pk) => pk in s.pending && s.pending[pk].subject == Some(subject)
    case Returned(subject, pk) => pk in s.committed && s.committed[pk].subject == Some(subject)
    case Refused(subject, claims, reason) =>
      || (reason == UserDeactivated && KeyIsHeld(s, subject))
      || (reason == UsernameUnavailable && (AllNamesHeld(s, subject, claims, hex)
                                            || NameIsHeld(s, subject, claims, hex)))
    case _ => true
  }

  ghost predicate CallsAreSound(s: Database, hex: string -> string) {
    forall tid :: CallIsSound(s, CallOf(s, tid), hex)
  }

  /** Each pending row is one call's own. */
  ghost predicate PendingIsOwned(s: Database) {
    forall t, u :: CallOf(s, t).Created? && CallOf(s, u).Created? && CallOf(s, t).pk == CallOf(s, u).pk ==> t == u
  }

  ghost predicate Invariant(s: Database, hex: string -> string) {
    RowsAreApart(s) && CallsAreSound(s, hex) && PendingIsOwned(s)
  }

  /** What was committed stays, under the same keys. */
  ghost predicate Grows(s: Database, t: Database) {
    forall p :: p in s.committed ==> p in t.committed && SameKeys(s.committed[p], t.committed[p])
  }

  lemma EveryStepGrows(s: Database, step: Step, hex: string -> string)
    requires RowsAreApart(s) && Enabled(s, step)
    ensures Grows(s, Next(s, step, hex))
  {
    hide FirstFree, CandidatesOf, HeldNames, NewRow, Conflicts, Unique;
  }

  lemma RowsStayApart(s: Database, step: Step, hex: string -> string)
    requires Invariant(s, hex) && Enabled(s, step)
    ensures RowsAreApart(Next(s, step, hex))
  {
    hide FirstFree, CandidatesOf, HeldNames, NewRow, Conflicts, Unique;
    var t := Next(s, step, hex);
    match step {
      case Insert(tid) =>
        var row := NewRow(CallOf(s, tid).claims, CallOf(s, tid).subject, CallOf(s, tid).name);
        if !Conflicts(s.committed, row) {
          InsertStaysApart(s, row);
        }
      case Enter(row) => InsertStaysApart(s, row);
      case Commit(tid) => FewerRowsAreApart(s.committed + s.pending, t.committed + t.pending);
      case Rollback(tid) => FewerRowsAreApart(s.committed + s.pending, t.committed + t.pending);
      case SetActive(pk, active) => FewerRowsAreApart(s.committed + s.pending, t.committed + t.pending);
      case _ =>
    }
  }

  lemma FewerRowsAreApart(all: Table, some: Table)
    requires Unique(all) && forall p :: p in some ==> p in all && SameKeys(some[p], all[p])
    ensures Unique(some)
  {
  }

  lemma InsertStaysApart(s: Database, row: Row)
    requires RowsAreApart(s) && !Conflicts(s.committed, row) && !Conflicts(s.pending, row)
    ensures RowsAreApart(s.(pending := s.pending[s.next := row], next := s.next + 1))
    ensures RowsAreApart(s.(committed := s.committed[s.next := row], next := s.next + 1))
  {
    var all := s.committed + s.pending;
    assert !Conflicts(all, row);
    hide Unique, Conflicts;
    assert s.committed + s.pending[s.next := row] == all[s.next := row];
    assert s.committed[s.next := row] + s.pending == all[s.next := row];
    AnInsertKeepsUniqueness(all, s.next, row);
  }

  lemma NamesStayHeld(s: Database, t: Database)
    requires Grows(s, t)
    ensures HeldNames(s.committed) <= HeldNames(t.committed)
  {
  }

  /** What another call knows stays true: rows are added and none is taken away. */
  lemma SoundnessLasts(s: Database, t: Database, call: Call, hex: string -> string)
    requires CallIsSound(s, call, hex) && Grows(s, t)
    requires call.Created? ==> call.pk in t.pending && t.pending[call.pk] == s.pending[call.pk]
    ensures CallIsSound(t, call, hex)
  {
    hide CandidatesOf;
    if call.Lost? || call.Refused? {
      if AllNamesHeld(s, call.subject, call.claims, hex) {
        NamesStayHeld(s, t);
      }
      if KeyIsHeld(s, call.subject) {
        var p :| p in s.committed && s.committed[p].subject == Some(call.subject);
        assert t.committed[p].subject == Some(call.subject);
      }
      if NameIsHeld(s, call.subject, call.claims, hex) {
        var p :| p in s.committed && s.committed[p].username in CandidatesOf(call.subject, call.claims, hex)
          && s.committed[p].subject != Some(call.subject);
        assert t.committed[p].username in CandidatesOf(call.subject, call.claims, hex);
      }
    }
  }

  /** The one call that moves knows what its own statement told it. */
  lemma TheMoverIsSound(s: Database, step: Step, hex: string -> string)
    requires Invariant(s, hex) && Enabled(s, step) && !step.SetActive? && !step.Enter?
    ensures CallIsSound(Next(s, step, hex), CallOf(Next(s, step, hex), step.tid), hex)
  {
    hide FirstFree, CandidatesOf, HeldNames, Unique, NewRow, Conflicts;
    var call := CallOf(s, step.tid);
    assert CallIsSound(s, call, hex);
    match step {
      case Look(_, _, _) =>
      case ReadHolders(_) => HoldersAreSound(s, call.subject, call.claims, hex);
      case Insert(_) => InsertsAreSound(s, call.subject, call.claims, call.name, hex);
      case Reread(_) =>
      case Commit(_) =>
      case Rollback(_) =>
    }
  }

  lemma InsertsAreSound(s: Database, subject: string, claims: Payload, name: string, hex: string -> string)
    requires name in CandidatesOf(subject, claims, hex)
    ensures NewRow(claims, subject, name).subject == Some(subject)
    ensures Conflicts(s.committed, NewRow(claims, subject, name)) ==>
      KeyIsHeld(s, subject) || NameIsHeld(s, subject, claims, hex)
  {
    hide CandidatesOf, NewRow;
    NewRowKeys(claims, subject, name);
    var row := NewRow(claims, subject, name);
    if Conflicts(s.committed, row) {
      var p :| p in s.committed && Clash(s.committed[p], row);
      if s.committed[p].subject != Some(subject) {
        assert s.committed[p].username in CandidatesOf(subject, claims, hex);
      }
    }
  }

  lemma HoldersAreSound(s: Database, subject: string, claims: Payload, hex: string -> string)
    ensures var found := FirstFree(CandidatesOf(subject, claims, hex), HeldNames(s.committed));
      if found.Some? then found.value in CandidatesOf(subject, claims, hex) else AllNamesHeld(s, subject, claims, hex)
  {
    hide CandidatesOf, HeldNames;
    TheFirstFreeNameIsTaken(CandidatesOf(subject, claims, hex), HeldNames(s.committed));
  }

  lemma StepKeepsTheInvariant(s: Database, step: Step, hex: string -> string)
    requires Invariant(s, hex) && Enabled(s, step)
    ensures Invariant(Next(s, step, hex), hex)
  {
    hide FirstFree, CandidatesOf, HeldNames, NewRow, CallIsSound, RowsAreApart;
    var t := Next(s, step, hex);
    EveryStepGrows(s, step, hex);
    RowsStayApart(s, step, hex);
    PendingStaysOwned(s, step, hex);
    if !step.SetActive? && !step.Enter? {
      TheMoverIsSound(s, step, hex);
    }
    forall tid ensures CallIsSound(t, CallOf(t, tid), hex) {
      if step.SetActive? || step.Enter? || step.tid != tid {
        OthersKeepTheirRows(s, step, tid, hex);
        SoundnessLasts(s, t, CallOf(s, tid), hex);
      }
    }
  }

  lemma OthersKeepTheirRows(s: Database, step: Step, tid: Tid, hex: string -> string)
    requires Invariant(s, hex) && Enabled(s, step)
    requires !step.SetActive? && !step.Enter? ==> step.tid != tid
    ensures var t, call := Next(s, step, hex), CallOf(s, tid);
      && CallOf(t, tid) == call
      && (call.Created? ==> call.pk in t.pending && call.pk in s.pending && t.pending[call.pk] == s.pending[call.pk])
  {
    hide FirstFree, CandidatesOf, HeldNames, NewRow, Unique, Conflicts;
    assert CallIsSound(s, CallOf(s, tid), hex);
    if !step.SetActive? && !step.Enter? {
      assert CallIsSound(s, CallOf(s, step.tid), hex);
    }
  }

  lemma PendingStaysOwned(s: Database, step: Step, hex: string -> string)
    requires Invariant(s, hex) && Enabled(s, step)
    ensures PendingIsOwned(Next(s, step, hex))
  {
    hide FirstFree, CandidatesOf, HeldNames, NewRow, Unique, Conflicts;
    var t := Next(s, step, hex);
    forall a, b | CallOf(t, a).Created? && CallOf(t, b).Created? && CallOf(t, a).pk == CallOf(t, b).pk ensures a == b {
      assert CallIsSound(s, CallOf(s, a), hex) && CallIsSound(s, CallOf(s, b), hex);
    }
  }

  lemma {:induction false} ReachableDatabasesAreSound(start: Database, hex: string -> string, steps: seq<Step>,
                                                      s: Database)
    requires Fresh(start) && Run(start, hex, steps, s)
    ensures Invariant(s, hex)
    decreases |steps|
  {
    hide Next, Enabled, Invariant;
    if steps == [] {
      assert Invariant(start, hex) by { AFreshDatabaseIsSound(start, hex); }
    } else {
      var n := |steps| - 1;
      var before :| Run(start, hex, steps[..n], before) && Enabled(before, steps[n])
        && s == Next(before, steps[n], hex);
      ReachableDatabasesAreSound(start, hex, steps[..n], before);
      StepKeepsTheInvariant(before, steps[n], hex);
    }
  }

  lemma AFreshDatabaseIsSound(s: Database, hex: string -> string)
    requires Fresh(s)
    ensures Invariant(s, hex)
  {
    assert s.committed + s.pending == s.committed;
  }

  // ------------------------------------------------------------------------------- the promises

  /** Both keys stay unique over everything committed or pending, in every interleaving. */
  lemma KeysAreUnique(start: Database, hex: string -> string, steps: seq<Step>, s: Database)
    requires Fresh(start) && Run(start, hex, steps, s)
    ensures Unique(s.committed) && Unique(s.committed + s.pending)
  {
    ReachableDatabasesAreSound(start, hex, steps, s);
    var all := s.committed + s.pending;
    assert forall p :: p in s.committed ==> p in all && all[p] == s.committed[p];
  }

  /** The row a live call stands for: its own insert, or the row it was given. */
  function RowOf(call: Call): Option<(string, Pk)> {
    match call
    case Created(subject, pk) => Some((subject, pk))
    case Returned(subject, pk) => Some((subject, pk))
    case _ => None
  }

  /** Of one identity key all callers that return, and whose transactions did not roll back, get one row. */
  lemma OneKeyOneRow(start: Database, hex: string -> string, steps: seq<Step>, s: Database, t: Tid, u: Tid)
    requires Fresh(start) && Run(start, hex, steps, s)
    requires RowOf(CallOf(s, t)).Some? && RowOf(CallOf(s, u)).Some?
    requires RowOf(CallOf(s, t)).value.0 == RowOf(CallOf(s, u)).value.0
    ensures RowOf(CallOf(s, t)) == RowOf(CallOf(s, u))
  {
    ReachableDatabasesAreSound(start, hex, steps, s);
    hide CandidatesOf;
    var all := s.committed + s.pending;
    var p, q := RowOf(CallOf(s, t)).value.1, RowOf(CallOf(s, u)).value.1;
    assert CallIsSound(s, CallOf(s, t), hex) && CallIsSound(s, CallOf(s, u), hex);
    assert p in all && q in all && all[p].subject == all[q].subject;
  }

  lemma {:induction false} ARunEndsInOneState(start: Database, hex: string -> string, steps: seq<Step>, s: Database,
                                              t: Database)
    requires Run(start, hex, steps, s) && Run(start, hex, steps, t)
    ensures s == t
    decreases |steps|
  {
    hide Next, Enabled;
    if steps != [] {
      var n := |steps| - 1;
      var b :| Run(start, hex, steps[..n], b) && Enabled(b, steps[n]) && s == Next(b, steps[n], hex);
      var c :| Run(start, hex, steps[..n], c) && Enabled(c, steps[n]) && t == Next(c, steps[n], hex);
      ARunEndsInOneState(start, hex, steps[..n], b, c);
    }
  }

  /** No row is taken away and none changes its subject or its username. */
  lemma {:induction false} NoRowChangesItsKeys(start: Database, hex: string -> string, steps: seq<Step>, s: Database,
                                               i: nat, earlier: Database)
    requires Fresh(start) && Run(start, hex, steps, s) && i <= |steps| && Run(start, hex, steps[..i], earlier)
    ensures Grows(earlier, s)
    decreases |steps|
  {
    hide Next, Enabled;
    if i == |steps| {
      assert steps[..i] == steps;
      ARunEndsInOneState(start, hex, steps, s, earlier);
    } else {
      var n := |steps| - 1;
      var before :| Run(start, hex, steps[..n], before) && Enabled(before, steps[n])
        && s == Next(before, steps[n], hex);
      assert steps[..n][..i] == steps[..i];
      NoRowChangesItsKeys(start, hex, steps[..n], before, i, earlier);
      ReachableDatabasesAreSound(start, hex, steps[..n], before);
      EveryStepGrows(before, steps[n], hex);
    }
  }

  /** The row of the key, when there is one by then; otherwise the refusal, and a candidate name in other hands. */
  ghost predicate EndsWell(s: Database, lost: Call, after: Call, hex: string -> string)
    requires lost.Lost?
  {
    if KeyIsHeld(s, lost.subject)
    then
      && after.Returned? && after.subject == lost.subject
      && after.pk in s.committed && s.committed[after.pk].subject == Some(lost.subject)
    else
      && after == Refused(lost.subject, lost.claims, UsernameUnavailable)
      && NameIsHeld(s, lost.subject, lost.claims, hex)
  }

  /** Every insert conflict ends as the row of the key, or as the named refusal with a row of another
    * identity that holds one of the names: the constraint error itself never gets out. */
  lemma ALostInsertEndsWell(start: Database, hex: string -> string, steps: seq<Step>, s: Database, tid: Tid)
    requires Fresh(start) && Run(start, hex, steps, s) && CallOf(s, tid).Lost?
    ensures Enabled(s, Reread(tid))
    ensures EndsWell(s, CallOf(s, tid), CallOf(Next(s, Reread(tid), hex), tid), hex)
  {
    hide Next, NameIsHeld, KeyIsHeld, Holder, CandidatesOf, Run, Fresh, RowsAreApart, PendingIsOwned;
    ReachableDatabasesAreSound(start, hex, steps, s);
    assert CallIsSound(s, CallOf(s, tid), hex);
    TheRereadIs(s, tid, hex);
    HeldMeansFound(s, CallOf(s, tid).subject);
  }

  lemma HeldMeansFound(s: Database, subject: string)
    ensures match Holder(s.committed, subject)
      case Some(pk) => KeyIsHeld(s, subject) && pk in s.committed && s.committed[pk].subject == Some(subject)
      case None => !KeyIsHeld(s, subject)
  {
  }

  lemma TheRereadIs(s: Database, tid: Tid, hex: string -> string)
    requires CallOf(s, tid).Lost?
    ensures var call := CallOf(s, tid);
      CallOf(Next(s, Reread(tid), hex), tid)
      == match Holder(s.committed, call.subject)
         case None => Refused(call.subject, call.claims, UsernameUnavailable)
         case Some(pk) => Returned(call.subject, pk)
  {
    hide CandidatesOf, FirstFree, HeldNames, NewRow, Conflicts, Holder;
  }

  /** A refusal for the name always has its reason in the table: every candidate name is held, or the one
    * the insert lost is in another identity's hands; the only other refusal is of a deactivated row. */
  lemma RefusalsHaveReasons(start: Database, hex: string -> string, steps: seq<Step>, s: Database, tid: Tid)
    requires Fresh(start) && Run(start, hex, steps, s) && CallOf(s, tid).Refused?
    ensures var call := CallOf(s, tid);
      && call.reason in {UsernameUnavailable, UserDeactivated}
      && (call.reason == UserDeactivated ==> KeyIsHeld(s, call.subject))
      && (call.reason == UsernameUnavailable ==>
            AllNamesHeld(s, call.subject, call.claims, hex) || NameIsHeld(s, call.subject, call.claims, hex))
  {
    ReachableDatabasesAreSound(start, hex, steps, s);
    hide CandidatesOf;
    assert CallIsSound(s, CallOf(s, tid), hex);
  }

  ghost predicate PendingIsActive(s: Database) {
    forall p :: p in s.pending ==> s.pending[p].active
  }

  lemma PendingStaysActive(s: Database, step: Step, hex: string -> string)
    requires PendingIsActive(s) && Enabled(s, step)
    ensures PendingIsActive(Next(s, step, hex))
  {
    hide FirstFree, CandidatesOf, HeldNames, Unique, Conflicts, NewRow;
    if step.Insert? {
      NewRowKeys(CallOf(s, step.tid).claims, CallOf(s, step.tid).subject, CallOf(s, step.tid).name);
    }
  }

  lemma {:induction false} PendingRowsAreActive(start: Database, hex: string -> string, steps: seq<Step>, s: Database)
    requires Fresh(start) && Run(start, hex, steps, s)
    ensures PendingIsActive(s)
    decreases |steps|
  {
    hide Next, Enabled;
    if steps != [] {
      var n := |steps| - 1;
      var before :| Run(start, hex, steps[..n], before) && Enabled(before, steps[n])
        && s == Next(before, steps[n], hex);
      PendingRowsAreActive(start, hex, steps[..n], before);
      PendingStaysActive(before, steps[n], hex);
    }
  }

  /** `tid` has just been handed a row that is not active. */
  ghost predicate HandedAnInactiveRow(s: Database, tid: Tid) {
    CallOf(s, tid).Returned? && CallOf(s, tid).pk in s.committed && !s.committed[CallOf(s, tid).pk].active
  }

  /** The key's row is committed, and deactivated. */
  ghost predicate KeyIsInactive(s: Database, subject: string) {
    exists p :: p in s.committed && s.committed[p].subject == Some(subject) && !s.committed[p].active
  }

  /** The check on `is_active` is on the hit path alone: of all steps that end a call, exactly the re-read of
    * a lost insert hands out a deactivated row, and exactly when the key's row is deactivated before it. */
  lemma OnlyALostInsertReturnsADeactivatedRow(start: Database, hex: string -> string, steps: seq<Step>, s: Database,
                                              step: Step, tid: Tid)
    requires Fresh(start) && Run(start, hex, steps, s) && Enabled(s, step) && !CallOf(s, tid).Returned?
    ensures HandedAnInactiveRow(Next(s, step, hex), tid)
       <==> step == Reread(tid) && KeyIsInactive(s, CallOf(s, tid).subject)
  {
    ReachableDatabasesAreSound(start, hex, steps, s);
    PendingRowsAreActive(start, hex, steps, s);
    ReachedRowsAreUnique(s, hex);
    hide Run, Fresh, Next, Invariant, KeyIsInactive, Unique;
    if step == Reread(tid) {
      ARereadHandsWhatThereIs(s, tid, hex);
    } else {
      OtherStepsHandActiveRows(s, step, hex, tid);
    }
  }

  lemma ARereadHandsWhatThereIs(s: Database, tid: Tid, hex: string -> string)
    requires Unique(s.committed) && CallOf(s, tid).Lost?
    ensures HandedAnInactiveRow(Next(s, Reread(tid), hex), tid) <==> KeyIsInactive(s, CallOf(s, tid).subject)
  {
    TheRereadIs(s, tid, hex);
    ARereadKeepsTheRows(s, tid, hex);
    hide Next, Holder, Unique;
    var subject := CallOf(s, tid).subject;
    HeldMeansFound(s, subject);
    if KeyIsInactive(s, subject) {
      var p :| p in s.committed && s.committed[p].subject == Some(subject) && !s.committed[p].active;
      TheHolderIsUnique(s.committed, subject, p);
    }
  }

  lemma ARereadKeepsTheRows(s: Database, tid: Tid, hex: string -> string)
    requires CallOf(s, tid).Lost?
    ensures Next(s, Reread(tid), hex).committed == s.committed
  {
    hide Holder;
  }

  lemma ReachedRowsAreUnique(s: Database, hex: string -> string)
    requires Invariant(s, hex)
    ensures Unique(s.committed)
  {
    FewerRowsAreApart(s.committed + s.pending, s.committed);
  }

  lemma OtherStepsHandActiveRows(s: Database, step: Step, hex: string -> string, tid: Tid)
    requires Invariant(s, hex) && Enabled(s, step) && PendingIsActive(s)
    requires !CallOf(s, tid).Returned? && step != Reread(tid)
    ensures !HandedAnInactiveRow(Next(s, step, hex), tid)
  {
    hide FirstFree, CandidatesOf, HeldNames, NewRow, Unique, Conflicts;
    assert CallIsSound(s, CallOf(s, tid), hex);
  }

  // ---------------------------------------------------------------- deactivated, and not by then

  /** A call past its own look at the table, with no row found and none made. */
  predicate Past(call: Call) {
    call.Missed? || call.Named? || call.Lost?
  }

  /** Every such call has one look behind it, which found no row of its key. */
  lemma {:induction false} TheOwnLook(start: Database, hex: string -> string, steps: seq<Step>, s: Database, tid: Tid)
    returns (look: nat, before: Database)
    requires Fresh(start) && Run(start, hex, steps, s) && Past(CallOf(s, tid))
    ensures look < |steps| && Run(start, hex, steps[..look], before)
    ensures steps[look] == Look(tid, CallOf(s, tid).subject, CallOf(s, tid).claims)
    ensures !KeyIsHeld(before, CallOf(s, tid).subject)
    decreases |steps|
  {
    hide Next, Enabled, KeyIsHeld;
    assert steps != [];
    var n := |steps| - 1;
    var last :| Run(start, hex, steps[..n], last) && Enabled(last, steps[n]) && s == Next(last, steps[n], hex);
    if Past(CallOf(last, tid)) {
      look, before := TheOwnLook(start, hex, steps[..n], last, tid);
      assert steps[..n][..look] == steps[..look];
      AStepKeepsWhoAsks(last, steps[n], hex, tid);
    } else {
      look, before := n, last;
      OnlyALookBegins(last, steps[n], hex, tid);
    }
  }

  lemma AStepKeepsWhoAsks(s: Database, step: Step, hex: string -> string, tid: Tid)
    requires Enabled(s, step) && Past(CallOf(s, tid)) && Past(CallOf(Next(s, step, hex), tid))
    ensures var call, after := CallOf(s, tid), CallOf(Next(s, step, hex), tid);
      after.subject == call.subject && after.claims == call.claims
  {
    hide FirstFree, CandidatesOf, HeldNames, NewRow, Conflicts, Holder;
  }

  lemma OnlyALookBegins(s: Database, step: Step, hex: string -> string, tid: Tid)
    requires Enabled(s, step) && !Past(CallOf(s, tid)) && Past(CallOf(Next(s, step, hex), tid))
    ensures var after := CallOf(Next(s, step, hex), tid);
      step == Look(tid, after.subject, after.claims) && !KeyIsHeld(s, after.subject)
  {
    hide FirstFree, CandidatesOf, HeldNames, NewRow, Conflicts, Holder;
    if step.Look? {
      HeldMeansFound(s, step.subject);
    }
  }

  /** What can leave row `p`, of this key, deactivated. */
  predicate TurnsOff(step: Step, p: Pk, subject: string) {
    step == SetActive(p, false) || (step.Enter? && step.row.subject == Some(subject) && !step.row.active)
  }

  /** A deactivated row that was not one at an earlier point was turned off, or entered so, in between. */
  lemma {:induction false} SomeStepTurnedItOff(start: Database, hex: string -> string, steps: seq<Step>, s: Database,
                                               look: nat, before: Database, p: Pk, subject: string)
    returns (off: nat)
    requires Fresh(start) && Run(start, hex, steps, s)
    requires look <= |steps| && Run(start, hex, steps[..look], before)
    requires p in s.committed && s.committed[p].subject == Some(subject) && !s.committed[p].active
    requires p !in before.committed
    ensures look <= off < |steps| && TurnsOff(steps[off], p, subject)
    decreases |steps|
  {
    hide Next, Enabled, TurnsOff;
    if look == |steps| {
      assert steps[..look] == steps;
      ARunEndsInOneState(start, hex, steps, s, before);
      assert false;
    } else {
      var n := |steps| - 1;
      var last :| Run(start, hex, steps[..n], last) && Enabled(last, steps[n]) && s == Next(last, steps[n], hex);
      assert steps[..n][..look] == steps[..look];
      PendingRowsAreActive(start, hex, steps[..n], last);
      if TurnsOff(steps[n], p, subject) {
        off := n;
      } else {
        OffBefore(last, steps[n], hex, p, subject);
        off := SomeStepTurnedItOff(start, hex, steps[..n], last, look, before, p, subject);
      }
    }
  }

  lemma OffBefore(s: Database, step: Step, hex: string -> string, p: Pk, subject: string)
    requires Enabled(s, step) && PendingIsActive(s) && !TurnsOff(step, p, subject)
    requires var t := Next(s, step, hex);
      p in t.committed && t.committed[p].subject == Some(subject) && !t.committed[p].active
    ensures p in s.committed && s.committed[p].subject == Some(subject) && !s.committed[p].active
  {
    hide FirstFree, CandidatesOf, HeldNames, NewRow, Conflicts, Holder;
  }

  /** In every run: when a lost call is about to be handed a deactivated row, that row was not there at the
    * call's own look, and since then an operator turned it off or entered a row of the key already off. */
  lemma TheRowWasTurnedOffAfterTheLook(start: Database, hex: string -> string, steps: seq<Step>, s: Database, tid: Tid,
                                       p: Pk)
    returns (look: nat, before: Database, off: nat)
    requires Fresh(start) && Run(start, hex, steps, s) && CallOf(s, tid).Lost?
    requires p in s.committed && s.committed[p].subject == Some(CallOf(s, tid).subject) && !s.committed[p].active
    ensures look < off < |steps|
    ensures steps[look] == Look(tid, CallOf(s, tid).subject, CallOf(s, tid).claims)
    ensures Run(start, hex, steps[..look], before) && p !in before.committed
    ensures TurnsOff(steps[off], p, CallOf(s, tid).subject)
  {
    hide TurnsOff;
    look, before := TheOwnLook(start, hex, steps, s, tid);
    NoRowChangesItsKeys(start, hex, steps, s, look, before);
    ARowOfNoKeyHeldIsNew(before, s, p, CallOf(s, tid).subject);
    off := SomeStepTurnedItOff(start, hex, steps, s, look, before, p, CallOf(s, tid).subject);
    assert off != look by { ALookTurnsNothingOff(steps[look], p, CallOf(s, tid).subject); }
  }

  lemma ARowOfNoKeyHeldIsNew(before: Database, s: Database, p: Pk, subject: string)
    requires Grows(before, s) && !KeyIsHeld(before, subject)
    requires p in s.committed && s.committed[p].subject == Some(subject)
    ensures p !in before.committed
  {
  }

  lemma ALookTurnsNothingOff(step: Step, p: Pk, subject: string)
    requires step.Look?
    ensures !TurnsOff(step, p, subject)
  {
  }

  lemma OneStepMore(start: Database, hex: string -> string, steps: seq<Step>, s: Database, step: Step, t: Database)
    requires Run(start, hex, steps, s) && Enabled(s, step) && t == Next(s, step, hex)
    ensures Run(start, hex, steps + [step], t)
  {
    hide Next, Enabled;
    assert (steps + [step])[..|steps|] == steps;
  }

  const NOBODY := Database(map[], map[], 0, map[])

  lemma FirstCandidate(subject: string, claims: Payload, hex: string -> string) returns (name: string)
    ensures FirstFree(CandidatesOf(subject, claims, hex), HeldNames(map[])) == Some(name)
  {
    name := CandidatesOf(subject, claims, hex)[0];
  }

  /** Two first sightings of one key, both past their reads of the table. */
  lemma TwoAreNamed(subject: string, claims: Payload, hex: string -> string) returns (steps: seq<Step>, name: string)
    ensures Run(NOBODY, hex, steps, Database(map[], map[], 0,
                                             map[0 := Named(subject, claims, name), 1 := Named(subject, claims, name)]))
    ensures LooksAreOf(steps, subject, claims)
  {
    hide CandidatesOf, NewRow, FirstFree, HeldNames, Run;
    var b := Database(map[], map[], 0, map[0 := Missed(subject, claims), 1 := Missed(subject, claims)]);
    steps := TwoHaveMissed(subject, claims, hex);
    name := FirstCandidate(subject, claims, hex);
    var c := Database(map[], map[], 0, map[0 := Named(subject, claims, name), 1 := Missed(subject, claims)]);
    var d := Database(map[], map[], 0, map[0 := Named(subject, claims, name), 1 := Named(subject, claims, name)]);
    OneStepMore(NOBODY, hex, steps, b, ReadHolders(0), c);
    OneStepMore(NOBODY, hex, steps + [ReadHolders(0)], c, ReadHolders(1), d);
    steps := steps + [ReadHolders(0)] + [ReadHolders(1)];
  }

  lemma TwoHaveMissed(subject: string, claims: Payload, hex: string -> string) returns (steps: seq<Step>)
    ensures Run(NOBODY, hex, steps, Database(map[], map[], 0,
                                             map[0 := Missed(subject, claims), 1 := Missed(subject, claims)]))
    ensures LooksAreOf(steps, subject, claims)
  {
    hide CandidatesOf, NewRow, FirstFree, HeldNames;
    var look, again := Look(0, subject, claims), Look(1, subject, claims);
    var a := Database(map[], map[], 0, map[0 := Missed(subject, claims)]);
    var b := Database(map[], map[], 0, map[0 := Missed(subject, claims), 1 := Missed(subject, claims)]);
    OneStepMore(NOBODY, hex, [], NOBODY, look, a);
    OneStepMore(NOBODY, hex, [] + [look], a, again, b);
    steps := [] + [look] + [again];
  }

  /** Every caller of the run presents these claims, and asks for the key they designate. */
  ghost predicate LooksAreOf(steps: seq<Step>, subject: string, claims: Payload) {
    forall step :: step in steps && step.Look? ==> step.subject == subject && step.claims == claims
  }

  /** And it happens to any claims with a key that can be stored: two callers present them, the winner commits,
    * an operator deactivates the row, the loser is handed it. */
  lemma ADeactivatedRowCanBeReturned(subject: string, claims: Payload, identityClaim: string, hex: string -> string)
    returns (steps: seq<Step>, s: Database)
    requires ReadIdentityKey(claims, identityClaim) == Some(subject) && |subject| <= IDENTITY_LIMIT
    ensures Fresh(NOBODY) && Run(NOBODY, hex, steps, s) && LooksAreOf(steps, subject, claims)
    ensures CallOf(s, 1) == Returned(subject, 0) && 0 in s.committed && !s.committed[0].active
  {
    hide Run, NewRow, Next, Enabled, ReadIdentityKey;
    var name: string;
    steps, name := TwoAreNamed(subject, claims, hex);
    var row := NewRow(claims, subject, name);
    NewRowKeys(claims, subject, name);
    var named, off := Named(subject, claims, name), row.(active := false);
    var d := Database(map[], map[], 0, map[0 := named, 1 := named]);
    var f := Database(map[0 := row], map[], 1, map[0 := Returned(subject, 0), 1 := named]);
    var h := Database(map[0 := off], map[], 1, map[0 := Returned(subject, 0), 1 := Lost(subject, claims, name)]);
    s := Database(map[0 := off], map[], 1, map[0 := Returned(subject, 0), 1 := Returned(subject, 0)]);
    OneWins(subject, claims, name, hex, steps);
    steps := steps + [Insert(0)] + [Commit(0)];
    OneLoses(subject, claims, name, hex, steps);
    steps := steps + [SetActive(0, false)] + [Insert(1)];
    assert Enabled(h, Reread(1)) && s == Next(h, Reread(1), hex) by {
      ARereadFinds(subject, claims, name, hex);
    }
    OneStepMore(NOBODY, hex, steps, h, Reread(1), s);
    steps := steps + [Reread(1)];
  }

  lemma OneWins(subject: string, claims: Payload, name: string, hex: string -> string, steps: seq<Step>)
    requires Run(NOBODY, hex, steps, Database(map[], map[], 0,
                                              map[0 := Named(subject, claims, name), 1 :=
                                                  Named(subject, claims, name)]))
    ensures Run(NOBODY, hex, steps + [Insert(0)] + [Commit(0)],
      Database(map[0 := NewRow(claims, subject, name)], map[], 1,
               map[0 := Returned(subject, 0), 1 := Named(subject, claims, name)]))
  {
    hide CandidatesOf, NewRow, FirstFree, HeldNames, Run;
    var row, named := NewRow(claims, subject, name), Named(subject, claims, name);
    var d := Database(map[], map[], 0, map[0 := named, 1 := named]);
    var e := Database(map[], map[0 := row], 1, map[0 := Created(subject, 0), 1 := named]);
    var f := Database(map[0 := row], map[], 1, map[0 := Returned(subject, 0), 1 := named]);
    OneStepMore(NOBODY, hex, steps, d, Insert(0), e);
    OneStepMore(NOBODY, hex, steps + [Insert(0)], e, Commit(0), f);
  }

  lemma OneLoses(subject: string, claims: Payload, name: string, hex: string -> string, steps: seq<Step>)
    requires Run(NOBODY, hex, steps,
      Database(map[0 := NewRow(claims, subject, name)], map[], 1,
               map[0 := Returned(subject, 0), 1 := Named(subject, claims, name)]))
    ensures Run(NOBODY, hex, steps + [SetActive(0, false)] + [Insert(1)],
      Database(map[0 := NewRow(claims, subject, name).(active := false)], map[], 1,
               map[0 := Returned(subject, 0), 1 := Lost(subject, claims, name)]))
  {
    hide CandidatesOf, NewRow, FirstFree, HeldNames, Run;
    var row, named := NewRow(claims, subject, name), Named(subject, claims, name);
    var off := row.(active := false);
    var f := Database(map[0 := row], map[], 1, map[0 := Returned(subject, 0), 1 := named]);
    var g := Database(map[0 := off], map[], 1, map[0 := Returned(subject, 0), 1 := named]);
    var h := Database(map[0 := off], map[], 1, map[0 := Returned(subject, 0), 1 := Lost(subject, claims, name)]);
    OneStepMore(NOBODY, hex, steps, f, SetActive(0, false), g);
    assert Clash(g.committed[0], row);
    OneStepMore(NOBODY, hex, steps + [SetActive(0, false)], g, Insert(1), h);
  }

  lemma ARereadFinds(subject: string, claims: Payload, name: string, hex: string -> string)
    ensures var off := NewRow(claims, subject, name).(active := false);
      var h := Database(map[0 := off], map[], 1, map[0 := Returned(subject, 0), 1 := Lost(subject, claims, name)]);
      Enabled(h, Reread(1))
      && Next(h, Reread(1), hex) == Database(map[0 := off], map[], 1,
                                             map[0 := Returned(subject, 0), 1 := Returned(subject, 0)])
  {
    hide NewRow, Holder;
    NewRowKeys(claims, subject, name);
    var off := NewRow(claims, subject, name).(active := false);
    TheHolderIsUnique(map[0 := off], subject, 0);
    var h := Database(map[0 := off], map[], 1, map[0 := Returned(subject, 0), 1 := Lost(subject, claims, name)]);
    ARereadReturns(h, 1, 0, hex);
  }

  lemma ARereadReturns(s: Database, tid: Tid, pk: Pk, hex: string -> string)
    requires CallOf(s, tid).Lost? && Holder(s.committed, CallOf(s, tid).subject) == Some(pk)
    ensures Next(s, Reread(tid), hex) == Moved(s, tid, Returned(CallOf(s, tid).subject, pk))
  {
    hide CandidatesOf, FirstFree, HeldNames, NewRow, Conflicts, Holder;
  }

  // ------------------------------------------------------------------------- one call, undisturbed

  ghost function Try(s: Database, step: Step, hex: string -> string): Database {
    if Enabled(s, step) then Next(s, step, hex) else s
  }

  /** The rest of a call that has chosen its name: the insert, and what follows it. */
  ghost function FromNamed(s: Database, tid: Tid, hex: string -> string): Database {
    Try(Try(Try(s, Insert(tid), hex), Reread(tid), hex), Commit(tid), hex)
  }

  ghost function FromMissed(s: Database, tid: Tid, hex: string -> string): Database {
    FromNamed(Try(s, ReadHolders(tid), hex), tid, hex)
  }

  /** Every step of one call that it comes to, with nobody else at work. */
  ghost function Alone(s: Database, tid: Tid, subject: string, claims: Payload, hex: string -> string): Database {
    FromMissed(Try(s, Look(tid, subject, claims), hex), tid, hex)
  }

  lemma AnEndedCallIsLeftAlone(s: Database, tid: Tid, hex: string -> string)
    requires CallOf(s, tid).Returned? || CallOf(s, tid).Refused?
    ensures FromNamed(s, tid, hex) == s && FromMissed(s, tid, hex) == s
  {
    hide Next;
  }

  /** A call ended as `resolve_user` would have, on these rows. */
  ghost predicate EndedAs(t: Database, tid: Tid, subject: string, claims: Payload,
                          ending: (Table, Result<Pk, Refusal>)) {
    && t.committed == ending.0 && t.pending == map[]
    && CallOf(t, tid) == match ending.1
                         case Success(pk) => Returned(subject, pk)
                         case Failure(reason) => Refused(subject, claims, reason)
  }

  lemma FromNamedEnds(s: Database, tid: Tid, hex: string -> string)
    requires CallOf(s, tid).Named? && s.pending == map[]
    ensures var call := CallOf(s, tid);
      var row := NewRow(call.claims, call.subject, call.name);
      EndedAs(FromNamed(s, tid, hex), tid, call.subject, call.claims,
        if !Conflicts(s.committed, row) then (s.committed[s.next := row], Success(s.next))
        else (s.committed, Recovered(s.committed, call.subject)))
  {
    hide NewRow, Holder;
    var call := CallOf(s, tid);
    var row := NewRow(call.claims, call.subject, call.name);
    assert map[s.next := row] - {s.next} == map[];
    assert s.pending[s.next := row] == map[s.next := row];
  }

  lemma FromMissedEnds(s: Database, tid: Tid, hex: string -> string)
    requires CallOf(s, tid).Missed? && s.pending == map[]
    ensures var call := CallOf(s, tid);
      EndedAs(FromMissed(s, tid, hex), tid, call.subject, call.claims,
        Mapper.Created(call.claims, call.subject, hex, Meanwhile(s.committed, s.committed, s.next)))
  {
    hide FirstFree, Candidates, DesiredUsername, HeldNames, NewRow, Conflicts, Holder, FromNamed;
    var t := Next(s, ReadHolders(tid), hex);
    if CallOf(t, tid).Named? {
      FromNamedEnds(t, tid, hex);
    } else {
      AnEndedCallIsLeftAlone(t, tid, hex);
    }
  }

  /** The steps of one call, run alone, are one call of `resolve_user` with nothing committed meanwhile. */
  lemma AloneTheStepsAreTheMethod(s: Database, tid: Tid, subject: string, claims: Payload, identityClaim: string,
                                  hex: string -> string)
    requires CallOf(s, tid).Idle? && s.pending == map[]
    requires ReadIdentityKey(claims, identityClaim) == Some(subject) && |subject| <= IDENTITY_LIMIT
    ensures EndedAs(Alone(s, tid, subject, claims, hex), tid, subject, claims,
      Resolved(s.committed, claims, identityClaim, hex, Meanwhile(s.committed, s.committed, s.next)))
  {
    hide Mapper.Created, Holder, ReadIdentityKey, FromMissed, EndedAs;
    var t := Next(s, Look(tid, subject, claims), hex);
    if CallOf(t, tid).Missed? {
      FromMissedEnds(t, tid, hex);
    } else {
      AnEndedCallIsLeftAlone(t, tid, hex);
      AHitEnds(s, tid, subject, claims, identityClaim, hex);
    }
  }

  lemma AHitEnds(s: Database, tid: Tid, subject: string, claims: Payload, identityClaim: string, hex: string -> string)
    requires CallOf(s, tid).Idle? && s.pending == map[]
    requires ReadIdentityKey(claims, identityClaim) == Some(subject) && |subject| <= IDENTITY_LIMIT
    requires Holder(s.committed, subject).Some?
    ensures EndedAs(Next(s, Look(tid, subject, claims), hex), tid, subject, claims,
      Resolved(s.committed, claims, identityClaim, hex, Meanwhile(s.committed, s.committed, s.next)))
  {
    hide Mapper.Created, Holder, ReadIdentityKey;
  }
}
