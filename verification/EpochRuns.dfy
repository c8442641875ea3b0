/** Every interleaving of Bearer authentications through the once-per-`jti` gate and the statements of
  * the sync behind it (`src/config/authorization/mapper.py`), any of which may roll back. */
module EpochRuns {
  import opened Core
  import opened Claims
  import opened Usernames
  import opened GroupSync

  type Tid = nat

  /** What no authentication changes: the group table and the configured names. */
  datatype Scene = Scene(groups: map<string, GroupPk>, contract: Contract)

  /** The rows a token's asserted groups come to, and the two flags. */
  datatype Want = Want(groups: set<GroupPk>, staff: bool, superuser: bool)

  /** The committed memberships and flags. */
  datatype Authority = Authority(held: map<UserPk, set<GroupPk>>, staff: set<UserPk>, superusers: set<UserPk>)

  /** The next statement of a sync under way. */
  datatype Stage = ToAdd | ToRemove | ToSave | Saved

  /** Where one authentication stands. From `Recorded` on it holds an epoch row nobody else sees yet;
    * `added` and `removed` are the membership rows its transaction has inserted and deleted, and `since`
    * is how many syncs of anybody had committed when it read. */
  datatype Call =
    | Idle
    | Gating(jti: string, user: UserPk, claims: Payload)
    | Inserting(jti: string, user: UserPk, claims: Payload)
    | Recorded(jti: string, user: UserPk, claims: Payload)
    | Syncing(jti: string, user: UserPk, want: Want, read: set<GroupPk>, since: nat,
              added: set<GroupPk>, removed: set<GroupPk>, stage: Stage)
    | Repeated(jti: string, user: UserPk)
    | Done(jti: string, user: UserPk, want: Want, read: set<GroupPk>)
    | Refused(reason: Refusal)
    | RolledBack

  /** A sync whose transaction committed. */
  datatype Sync = Sync(jti: string, user: UserPk, want: Want, since: nat)

  /** `pending` holds the uncommitted epoch rows; a `jti` in it makes another insert of it wait. */
  datatype Database = Database(epochs: map<string, UserPk>, pending: map<string, UserPk>, authority: Authority,
                               syncs: seq<Sync>, calls: map<Tid, Call>)

  datatype Step =
    | Arrive(tid: Tid, user: UserPk, claims: Payload)
    | GetEpoch(tid: Tid)
    | InsertEpoch(tid: Tid)
    | ReadTables(tid: Tid)
    | AddGroups(tid: Tid)
    | RemoveGroups(tid: Tid)
    | SaveFlags(tid: Tid)
    | Commit(tid: Tid)
    | Rollback(tid: Tid)

  function CallOf(s: Database, tid: Tid): Call {
    if tid in s.calls then s.calls[tid] else Idle
  }

  /** A call that has an epoch row of its own in its transaction. */
  predicate Holding(call: Call) {
    call.Recorded? || call.Syncing?
  }

  function HeldBy(a: Authority, user: UserPk): set<GroupPk> {
    if user in a.held then a.held[user] else {}
  }

  function WantOf(scene: Scene, asserted: seq<string>): Want {
    var resolved := Rows(scene.groups, asserted);
    Want(resolved.Values, scene.contract.staffGroup in resolved, scene.contract.superuserGroup in resolved)
  }

  /** The rows and flags a sync of these names confers. */
  lemma AWantIsWhatTheNamesConfer(scene: Scene, asserted: seq<string>)
    ensures var want := WantOf(scene, asserted);
      Confers(scene.groups, asserted, scene.contract, want.groups, want.staff, want.superuser)
  {
    RowsConfer(asserted, scene.groups, scene.contract);
  }

  /** No other transaction has inserted or deleted any of these memberships of the user and not committed yet:
    * an insert waits for either. */
  predicate InsertsUnlocked(s: Database, tid: Tid, user: UserPk, groups: set<GroupPk>) {
    forall t :: t in s.calls && t != tid && s.calls[t].Syncing? && s.calls[t].user == user ==>
      (s.calls[t].added + s.calls[t].removed) !! groups
  }

  /** A delete sees committed rows only, so it waits for another's delete of them and passes over an insert. */
  predicate DeletesUnlocked(s: Database, tid: Tid, user: UserPk, groups: set<GroupPk>) {
    forall t :: t in s.calls && t != tid && s.calls[t].Syncing? && s.calls[t].user == user ==>
      s.calls[t].removed !! groups
  }

  /** No other transaction has an uncommitted update of the user's own row. */
  predicate UserUnlocked(s: Database, tid: Tid, user: UserPk) {
    forall t :: t in s.calls && t != tid && s.calls[t].Syncing? && s.calls[t].user == user ==> s.calls[t].stage != Saved
  }

  predicate Enabled(s: Database, step: Step) {
    var call := CallOf(s, step.tid);
    match step
    case Arrive(_, _, _) => call.Idle?
    case GetEpoch(_) => call.Gating?
    case InsertEpoch(_) => call.Inserting? && call.jti !in s.pending
    case ReadTables(_) => call.Recorded?
    case AddGroups(tid) => call.Syncing? && call.stage == ToAdd
      && InsertsUnlocked(s, tid, call.user, call.want.groups - call.read)
    case RemoveGroups(tid) =>
      call.Syncing? && call.stage == ToRemove && DeletesUnlocked(s, tid, call.user, call.read - call.want.groups)
    case SaveFlags(tid) => call.Syncing? && call.stage == ToSave && UserUnlocked(s, tid, call.user)
    case Commit(_) => call.Syncing? && call.stage == Saved
    case Rollback(_) => Holding(call)
  }

  function Moved(s: Database, tid: Tid, call: Call): Database {
    s.(calls := s.calls[tid := call])
  }

  /** A row that is already there: nothing to do for its owner, a refusal for anybody else. */
  function Sighted(jti: string, user: UserPk, owner: UserPk): Call {
    if owner == user then Repeated(jti, user) else Refused(JtiReused)
  }

  function Flagged(users: set<UserPk>, user: UserPk, on: bool): set<UserPk> {
    if on then users + {user} else users - {user}
  }

  /** What a committed sync leaves: its inserts and deletes on what is committed by then, and its flags. */
  function Granted(a: Authority, call: Call): Authority
    requires call.Syncing?
  {
    Authority(a.held[call.user := HeldBy(a, call.user) + call.added - call.removed],
              Flagged(a.staff, call.user, call.want.staff), Flagged(a.superusers, call.user, call.want.superuser))
  }

  function AfterArrival(user: UserPk, claims: Payload): Call {
    var jti := ReadText(claims, "jti");
    if jti == "" then Refused(NoJti) else if |jti| > JTI_LIMIT then Refused(JtiTooLong) else Gating(jti, user, claims)
  }

  /** The two reads of a sync: the asserted groups there are, and the memberships committed by now. */
  function AfterReads(s: Database, call: Call, scene: Scene): Call
    requires call.Recorded?
  {
    match ReadGroupClaim(call.claims, scene.contract.groupClaim)
    case None => Refused(GroupClaimAbsent)
    case Some(asserted) =>
      Syncing(call.jti, call.user, WantOf(scene, asserted), HeldBy(s.authority, call.user), |s.syncs|, {}, {}, ToAdd)
  }

  function Next(s: Database, step: Step, scene: Scene): Database
    requires Enabled(s, step)
  {
    var tid := step.tid;
    var call := CallOf(s, tid);
    match step
    case Arrive(_, user, claims) => Moved(s, tid, AfterArrival(user, claims))
    case GetEpoch(_) =>
      Moved(s, tid,
        if call.jti in s.epochs then Sighted(call.jti, call.user, s.epochs[call.jti])
        else Inserting(call.jti, call.user, call.claims))
    case InsertEpoch(_) =>
      if call.jti in s.epochs then Moved(s, tid, Sighted(call.jti, call.user, s.epochs[call.jti]))
      else Moved(s, tid, Recorded(call.jti, call.user, call.claims)).(pending := s.pending[call.jti := call.user])
    case ReadTables(_) =>
      var after := AfterReads(s, call, scene);
      if after.Refused? then Moved(s, tid, after).(pending := s.pending - {call.jti}) else Moved(s, tid, after)
    case AddGroups(_) =>
      var missing := call.want.groups - call.read;
      Moved(s, tid, call.(added := missing - HeldBy(s.authority, call.user), stage := ToRemove))
    case RemoveGroups(_) =>
      var revoked := call.read - call.want.groups;
      Moved(s, tid, call.(removed := revoked * HeldBy(s.authority, call.user), stage := ToSave))
    case SaveFlags(_) => Moved(s, tid, call.(stage := Saved))
    case Commit(_) =>
      Moved(s, tid, Done(call.jti, call.user, call.want, call.read)).(
        epochs := s.epochs[call.jti := call.user], pending := s.pending - {call.jti},
        authority := Granted(s.authority, call), syncs := s.syncs + [Sync(call.jti, call.user, call.want, call.since)])
    case Rollback(_) => Moved(s, tid, RolledBack).(pending := s.pending - {call.jti})
  }

  /** No epoch yet and nobody at work; users may hold anything. */
  predicate Fresh(s: Database) {
    s.epochs == map[] && s.pending == map[] && s.syncs == [] && s.calls == map[]
  }

  ghost predicate Run(scene: Scene, start: Database, steps: seq<Step>, s: Database)
    decreases |steps|
  {
    if steps == [] then s == start
    else
      var n := |steps| - 1;
      exists before :: Run(scene, start, steps[..n], before) && Enabled(before, steps[n])
        && s == Next(before, steps[n], scene)
  }

  /** The state before the last step of a run. */
  lemma LastStep(scene: Scene, start: Database, steps: seq<Step>, s: Database) returns (before: Database)
    requires Run(scene, start, steps, s) && steps != []
    ensures var n := |steps| - 1;
      Run(scene, start, steps[..n], before) && Enabled(before, steps[n]) && s == Next(before, steps[n], scene)
  {
    hide Next, Enabled;
    var n := |steps| - 1;
    before :| Run(scene, start, steps[..n], before) && Enabled(before, steps[n]) && s == Next(before, steps[n], scene);
  }

  lemma OneStepMore(scene: Scene, start: Database, steps: seq<Step>, s: Database, step: Step)
    requires Run(scene, start, steps, s) && Enabled(s, step)
    ensures Run(scene, start, steps + [step], Next(s, step, scene))
  {
    hide Next, Enabled;
    assert (steps + [step])[..|steps|] == steps;
  }

  // ------------------------------------------------------------------------------ the invariant

  /** Each recorded epoch has its one committed sync, and each committed sync its epoch. */
  ghost predicate EpochsMatchSyncs(epochs: map<string, UserPk>, syncs: seq<Sync>) {
    && (forall i, j :: 0 <= i < j < |syncs| ==> syncs[i].jti != syncs[j].jti)
    && (forall i :: 0 <= i < |syncs| ==> syncs[i].jti in epochs && epochs[syncs[i].jti] == syncs[i].user)
    && (forall jti :: jti in epochs ==> exists i :: 0 <= i < |syncs| && syncs[i].jti == jti)
  }

  /** Each uncommitted row is one call's, and its `jti` is not recorded. */
  ghost predicate PendingIsOwned(s: Database) {
    && (forall t :: Holding(CallOf(s, t)) ==> Owns(s, CallOf(s, t)))
    && (forall t, u :: Holding(CallOf(s, t)) && Holding(CallOf(s, u)) && CallOf(s, t).jti == CallOf(s, u).jti ==>
        t == u)
    && (forall jti :: jti in s.pending ==> jti !in s.epochs)
  }

  ghost predicate Owns(s: Database, call: Call)
    requires Holding(call)
  {
    call.jti in s.pending && s.pending[call.jti] == call.user
  }

  ghost predicate Invariant(s: Database) {
    EpochsMatchSyncs(s.epochs, s.syncs) && PendingIsOwned(s)
  }

  lemma ACommitKeepsTheMatch(epochs: map<string, UserPk>, syncs: seq<Sync>, sync: Sync)
    requires EpochsMatchSyncs(epochs, syncs) && sync.jti !in epochs
    ensures EpochsMatchSyncs(epochs[sync.jti := sync.user], syncs + [sync])
  {
    var after := syncs + [sync];
    assert after[|syncs|] == sync;
    forall k | k in epochs ensures exists i :: 0 <= i < |after| && after[i].jti == k {
      var i :| 0 <= i < |syncs| && syncs[i].jti == k;
      assert after[i].jti == k;
    }
  }

  /** What one step does to everything but the authorization tables and the log. */
  lemma AStepMovesOneCall(s: Database, step: Step, scene: Scene)
    requires Enabled(s, step)
    ensures var t, call := Next(s, step, scene), CallOf(s, step.tid);
      var after := CallOf(t, step.tid);
      && (forall tid :: tid != step.tid ==> CallOf(t, tid) == CallOf(s, tid))
      && (Holding(call) && Holding(after) ==>
            after.jti == call.jti && after.user == call.user && t.pending == s.pending && t.epochs == s.epochs)
      && (Holding(call) && !Holding(after) ==> t.pending == s.pending - {call.jti})
      && (!Holding(call) && Holding(after) ==>
            && after.jti !in s.epochs && after.jti !in s.pending
            && t.pending == s.pending[after.jti := after.user] && t.epochs == s.epochs)
      && (!Holding(call) && !Holding(after) ==> t.pending == s.pending && t.epochs == s.epochs)
      && (t.epochs == s.epochs || (step.Commit? && Holding(call) && t.epochs == s.epochs[call.jti := call.user]))
  {
    hide ReadText, ReadGroupClaim, WantOf, Granted, InsertsUnlocked, DeletesUnlocked, UserUnlocked, HeldBy;
  }

  lemma PendingStaysOwned(s: Database, step: Step, scene: Scene)
    requires PendingIsOwned(s) && Enabled(s, step)
    ensures PendingIsOwned(Next(s, step, scene))
  {
    AStepMovesOneCall(s, step, scene);
    hide Next, Enabled;
    var t := Next(s, step, scene);
    assert Holding(CallOf(s, step.tid)) ==> Owns(s, CallOf(s, step.tid));
    forall tid | Holding(CallOf(t, tid)) ensures Owns(t, CallOf(t, tid)) {
      if tid != step.tid {
        assert Owns(s, CallOf(s, tid));
      }
    }
    forall a, b | Holding(CallOf(t, a)) && Holding(CallOf(t, b)) && CallOf(t, a).jti == CallOf(t, b).jti
      ensures a == b
    {
      if a != step.tid { assert Owns(s, CallOf(s, a)); }
      if b != step.tid { assert Owns(s, CallOf(s, b)); }
    }
  }

  lemma TheLogGrowsByCommits(s: Database, step: Step, scene: Scene)
    requires Enabled(s, step)
    ensures var t, call := Next(s, step, scene), CallOf(s, step.tid);
      if step.Commit? then
        && call.Syncing?
        && t.syncs == s.syncs + [Sync(call.jti, call.user, call.want, call.since)]
        && t.epochs == s.epochs[call.jti := call.user]
        && t.authority == Granted(s.authority, call)
        && CallOf(t, step.tid) == Done(call.jti, call.user, call.want, call.read)
      else t.syncs == s.syncs && t.epochs == s.epochs && t.authority == s.authority
  {
    hide ReadText, ReadGroupClaim, WantOf, Granted, InsertsUnlocked, DeletesUnlocked, UserUnlocked, HeldBy;
  }

  lemma StepKeepsTheInvariant(s: Database, step: Step, scene: Scene)
    requires Invariant(s) && Enabled(s, step)
    ensures Invariant(Next(s, step, scene))
  {
    PendingStaysOwned(s, step, scene);
    TheLogGrowsByCommits(s, step, scene);
    hide EpochsMatchSyncs, Next;
    if step.Commit? {
      var call := CallOf(s, step.tid);
      assert Owns(s, call);
      ACommitKeepsTheMatch(s.epochs, s.syncs, Sync(call.jti, call.user, call.want, call.since));
    }
  }

  lemma {:induction false} ReachableDatabasesAreSound(scene: Scene, start: Database, steps: seq<Step>, s: Database)
    requires Fresh(start) && Run(scene, start, steps, s)
    ensures Invariant(s)
    decreases |steps|
  {
    hide Next, Enabled;
    if steps != [] {
      var n := |steps| - 1;
      var before := LastStep(scene, start, steps, s);
      ReachableDatabasesAreSound(scene, start, steps[..n], before);
      StepKeepsTheInvariant(before, steps[n], scene);
    }
  }

  // ------------------------------------------------------------------------- epochs and syncs

  /** The position of a `jti`'s committed sync. */
  ghost predicate SyncedAt(s: Database, jti: string, i: nat) {
    i < |s.syncs| && s.syncs[i].jti == jti
  }

  /** Recorded epochs and committed syncs are in bijection: a `jti` is recorded exactly when one sync of it
    * committed, exactly one, and for the user the epoch names. */
  lemma EpochsAndSyncsAreInBijection(scene: Scene, start: Database, steps: seq<Step>, s: Database, jti: string)
    requires Fresh(start) && Run(scene, start, steps, s)
    ensures jti in s.epochs <==> exists i: nat :: SyncedAt(s, jti, i)
    ensures forall i: nat, j: nat :: SyncedAt(s, jti, i) && SyncedAt(s, jti, j) ==> i == j
    ensures forall i: nat :: SyncedAt(s, jti, i) ==> s.syncs[i].user == s.epochs[jti]
    ensures |s.epochs| == |s.syncs|
  {
    ReachableDatabasesAreSound(scene, start, steps, s);
    hide Run, PendingIsOwned;
    if jti in s.epochs {
      var i :| 0 <= i < |s.syncs| && s.syncs[i].jti == jti;
      assert SyncedAt(s, jti, i);
    }
    AsManyEpochsAsSyncs(s.epochs, s.syncs);
  }

  lemma {:induction false} AsManyEpochsAsSyncs(epochs: map<string, UserPk>, syncs: seq<Sync>)
    requires EpochsMatchSyncs(epochs, syncs)
    ensures |epochs| == |syncs|
  {
    hide EpochsMatchSyncs;
    if syncs == [] {
      NoSyncsNoEpochs(epochs);
    } else {
      var n := |syncs| - 1;
      OneFewerMatches(epochs, syncs);
      AsManyEpochsAsSyncs(epochs - {syncs[n].jti}, syncs[..n]);
      OneKeyLess(epochs, syncs[n].jti);
    }
  }

  lemma NoSyncsNoEpochs(epochs: map<string, UserPk>)
    requires EpochsMatchSyncs(epochs, [])
    ensures |epochs| == 0
  {
    assert epochs == map[];
  }

  lemma OneKeyLess(epochs: map<string, UserPk>, jti: string)
    requires jti in epochs
    ensures |epochs| == |epochs - {jti}| + 1
  {
    assert epochs.Keys == (epochs - {jti}).Keys + {jti};
    assert |epochs| == |epochs.Keys| && |epochs - {jti}| == |(epochs - {jti}).Keys|;
  }

  lemma OneFewerMatches(epochs: map<string, UserPk>, syncs: seq<Sync>)
    requires EpochsMatchSyncs(epochs, syncs) && syncs != []
    ensures syncs[|syncs| - 1].jti in epochs
    ensures EpochsMatchSyncs(epochs - {syncs[|syncs| - 1].jti}, syncs[..|syncs| - 1])
  {
    var n := |syncs| - 1;
    var rest, before := epochs - {syncs[n].jti}, syncs[..n];
    forall jti | jti in rest ensures exists i :: 0 <= i < n && before[i].jti == jti {
      var i :| 0 <= i < |syncs| && syncs[i].jti == jti;
      assert before[i].jti == jti;
    }
  }

  lemma {:induction false} ARunEndsInOneState(scene: Scene, start: Database, steps: seq<Step>, s: Database, t: Database)
    requires Run(scene, start, steps, s) && Run(scene, start, steps, t)
    ensures s == t
    decreases |steps|
  {
    hide Next, Enabled;
    if steps != [] {
      var b := LastStep(scene, start, steps, s);
      var c := LastStep(scene, start, steps, t);
      ARunEndsInOneState(scene, start, steps[..|steps| - 1], b, c);
    }
  }

  ghost predicate Kept(s: Database, t: Database) {
    && (forall jti :: jti in s.epochs ==> jti in t.epochs && t.epochs[jti] == s.epochs[jti])
    && s.syncs <= t.syncs
  }

  lemma StepKeepsOwners(s: Database, step: Step, scene: Scene)
    requires Invariant(s) && Enabled(s, step)
    ensures Kept(s, Next(s, step, scene))
  {
    TheLogGrowsByCommits(s, step, scene);
    hide Next, EpochsMatchSyncs;
    if step.Commit? {
      assert Owns(s, CallOf(s, step.tid));
    }
  }

  /** No later step takes a recorded epoch away or gives it another owner. */
  lemma {:induction false} OwnersNeverChange(scene: Scene, start: Database, steps: seq<Step>, s: Database, i: nat,
                                             earlier: Database)
    requires Fresh(start) && Run(scene, start, steps, s) && i <= |steps| && Run(scene, start, steps[..i], earlier)
    ensures Kept(earlier, s)
    decreases |steps|
  {
    hide Next, Enabled, Invariant;
    if i == |steps| {
      assert steps[..i] == steps;
      ARunEndsInOneState(scene, start, steps, s, earlier);
    } else {
      var n := |steps| - 1;
      var before := LastStep(scene, start, steps, s);
      assert steps[..n][..i] == steps[..i];
      OwnersNeverChange(scene, start, steps[..n], before, i, earlier);
      ReachableDatabasesAreSound(scene, start, steps[..n], before);
      StepKeepsOwners(before, steps[n], scene);
    }
  }

  /** Nothing but the moving call's own standing changed: no epoch, no membership, no flag. */
  predicate WroteNothing(s: Database, t: Database) {
    t.epochs == s.epochs && t.pending == s.pending && t.authority == s.authority && t.syncs == s.syncs
  }

  /** Once a `jti` is recorded, every later sighting of it, at the read or at a lost insert, writes
    * nothing: there is nothing to do for the first owner, and a refusal for anybody else. */
  lemma EveryLaterSightingWritesNothing(scene: Scene, start: Database, steps: seq<Step>, s: Database, i: nat,
                                        earlier: Database, step: Step)
    requires Fresh(start) && Run(scene, start, steps, s) && i <= |steps| && Run(scene, start, steps[..i], earlier)
    requires Enabled(s, step) && (step.GetEpoch? || step.InsertEpoch?)
    requires CallOf(s, step.tid).jti in earlier.epochs
    ensures var t, call := Next(s, step, scene), CallOf(s, step.tid);
      && WroteNothing(s, t)
      && CallOf(t, step.tid)
         == if call.user == earlier.epochs[call.jti] then Repeated(call.jti, call.user) else Refused(JtiReused)
  {
    OwnersNeverChange(scene, start, steps, s, i, earlier);
    hide Run;
  }

  /** A sync refused for its group claim, and one rolled back after any of its statements, leave no row
    * of any table: whoever waits with the same `jti` may record it and sync. */
  lemma AnUndoneSightingLeavesNoEpoch(scene: Scene, start: Database, steps: seq<Step>, s: Database, step: Step,
                                      other: Tid)
    requires Fresh(start) && Run(scene, start, steps, s) && Enabled(s, step)
    requires step.Rollback? || (step.ReadTables? && CallOf(Next(s, step, scene), step.tid).Refused?)
    requires other != step.tid && CallOf(s, other).Inserting? && CallOf(s, other).jti == CallOf(s, step.tid).jti
    ensures !Enabled(s, InsertEpoch(other))
    ensures var t, jti := Next(s, step, scene), CallOf(s, other).jti;
      && jti !in t.epochs && jti !in t.pending && t.epochs == s.epochs && t.syncs == s.syncs
         && t.authority == s.authority
      && Enabled(t, InsertEpoch(other))
      && CallOf(Next(t, InsertEpoch(other), scene), other)
         == Recorded(jti, CallOf(s, other).user, CallOf(s, other).claims)
  {
    ReachableDatabasesAreSound(scene, start, steps, s);
    hide ReadText, ReadGroupClaim, EpochsMatchSyncs, Run, WantOf, Granted, HeldBy;
    hide InsertsUnlocked, DeletesUnlocked, UserUnlocked;
    assert Owns(s, CallOf(s, step.tid));
  }

  /** Of two authentications at one `jti` at most one ever holds or has committed its epoch. */
  lemma {:induction false} EachJtiSyncsOnce(scene: Scene, start: Database, steps: seq<Step>, s: Database, t: Tid,
                                            u: Tid)
    requires Fresh(start) && Run(scene, start, steps, s) && t != u
    requires Holding(CallOf(s, t)) || CallOf(s, t).Done?
    requires Holding(CallOf(s, u)) || CallOf(s, u).Done?
    ensures CallOf(s, t).jti != CallOf(s, u).jti
    decreases |steps|
  {
    hide Next, Enabled, Invariant;
    if steps != [] {
      var n := |steps| - 1;
      var before := LastStep(scene, start, steps, s);
      ReachableDatabasesAreSound(scene, start, steps[..n], before);
      ReachableDatabasesAreSound(scene, start, steps, s);
      if CallOf(s, t).Done? && CallOf(s, u).Done? {
        ADoneCallWasHolding(before, steps[n], scene, t);
        ADoneCallWasHolding(before, steps[n], scene, u);
        EachJtiSyncsOnce(scene, start, steps[..n], before, t, u);
      } else if Holding(CallOf(s, t)) && Holding(CallOf(s, u)) {
        TwoHoldingAreApart(s, t, u);
      } else {
        DoneIsRecorded(scene, start, steps, s, t);
        DoneIsRecorded(scene, start, steps, s, u);
        HoldingIsNotRecorded(s, t);
        HoldingIsNotRecorded(s, u);
      }
    }
  }

  lemma TwoHoldingAreApart(s: Database, t: Tid, u: Tid)
    requires Invariant(s) && t != u && Holding(CallOf(s, t)) && Holding(CallOf(s, u))
    ensures CallOf(s, t).jti != CallOf(s, u).jti
  {
    hide EpochsMatchSyncs;
  }

  lemma HoldingIsNotRecorded(s: Database, t: Tid)
    requires Invariant(s)
    ensures Holding(CallOf(s, t)) ==> CallOf(s, t).jti !in s.epochs
  {
    hide EpochsMatchSyncs;
    assert Holding(CallOf(s, t)) ==> Owns(s, CallOf(s, t));
  }

  lemma ADoneCallWasHolding(s: Database, step: Step, scene: Scene, t: Tid)
    requires Enabled(s, step) && CallOf(Next(s, step, scene), t).Done?
    ensures Holding(CallOf(s, t)) || CallOf(s, t).Done?
    ensures CallOf(s, t).jti == CallOf(Next(s, step, scene), t).jti
  {
    hide ReadText, ReadGroupClaim, WantOf, Granted, HeldBy, InsertsUnlocked, DeletesUnlocked, UserUnlocked;
  }

  lemma {:induction false} DoneIsRecorded(scene: Scene, start: Database, steps: seq<Step>, s: Database, u: Tid)
    requires Fresh(start) && Run(scene, start, steps, s)
    ensures OwnEpochIsThere(s, CallOf(s, u))
    decreases |steps|
  {
    hide Next, Enabled, Kept, Invariant;
    if steps != [] {
      var n := |steps| - 1;
      var before := LastStep(scene, start, steps, s);
      DoneIsRecorded(scene, start, steps[..n], before, u);
      ReachableDatabasesAreSound(scene, start, steps[..n], before);
      StepKeepsOwners(before, steps[n], scene);
      DoneStaysRecorded(before, steps[n], scene, u);
    }
  }

  ghost predicate OwnEpochIsThere(s: Database, call: Call) {
    call.Done? ==> call.jti in s.epochs && s.epochs[call.jti] == call.user
  }

  lemma DoneStaysRecorded(s: Database, step: Step, scene: Scene, u: Tid)
    requires Enabled(s, step) && OwnEpochIsThere(s, CallOf(s, u)) && Kept(s, Next(s, step, scene))
    ensures OwnEpochIsThere(Next(s, step, scene), CallOf(Next(s, step, scene), u))
  {
    hide ReadText, ReadGroupClaim, WantOf, Granted, HeldBy, InsertsUnlocked, DeletesUnlocked, UserUnlocked;
  }
}
