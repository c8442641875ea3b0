/** What interleaved syncs do to the memberships and flags they write, statement by statement
  * (`src/config/authorization/mapper.py`). */
module SyncRuns {
  import opened Core
  import opened Claims
  import opened Usernames
  import opened GroupSync
  import opened EpochRuns

  // ------------------------------------------------------------------ the authorization tables

  /** What the tables say of one user. */
  ghost predicate SameAuthority(a: Authority, b: Authority, user: UserPk) {
    HeldBy(a, user) == HeldBy(b, user) && (user in a.staff <==> user in b.staff)
      && (user in a.superusers <==> user in b.superusers)
  }

  /** Only committed syncs move the tables, and only their own user's rows: between any two points of a
    * run with no committed sync of a user, that user's memberships and flags stay as they are. */
  lemma {:induction false} OnlyCommittedSyncsMoveAuthority(scene: Scene, start: Database, steps: seq<Step>, s: Database,
                                                           i: nat, earlier: Database, user: UserPk)
    requires Run(scene, start, steps, s) && i <= |steps| && Run(scene, start, steps[..i], earlier)
    requires |earlier.syncs| <= |s.syncs| && forall sync :: sync in s.syncs[|earlier.syncs|..] ==> sync.user != user
    ensures SameAuthority(earlier.authority, s.authority, user)
    decreases |steps|
  {
    hide Next, Enabled, Granted;
    if i == |steps| {
      assert steps[..i] == steps;
      ARunEndsInOneState(scene, start, steps, s, earlier);
    } else {
      var n := |steps| - 1;
      var before := LastStep(scene, start, steps, s);
      assert steps[..n][..i] == steps[..i];
      TheLogGrowsByCommits(before, steps[n], scene);
      TheLogOnlyGrows(scene, start, steps[..n], before, i, earlier);
      if steps[n].Commit? {
        var call := CallOf(before, steps[n].tid);
        var last := Sync(call.jti, call.user, call.want, call.since);
        assert s.syncs[|earlier.syncs|..] == before.syncs[|earlier.syncs|..] + [last];
        assert last in s.syncs[|earlier.syncs|..];
        AGrantIsItsOwnUsers(before.authority, call, user);
      }
      OnlyCommittedSyncsMoveAuthority(scene, start, steps[..n], before, i, earlier, user);
    }
  }

  lemma AGrantIsItsOwnUsers(a: Authority, call: Call, user: UserPk)
    requires call.Syncing? && user != call.user
    ensures SameAuthority(a, Granted(a, call), user)
  {
  }

  lemma {:induction false} TheLogOnlyGrows(scene: Scene, start: Database, steps: seq<Step>, s: Database, i: nat,
                                           earlier: Database)
    requires Run(scene, start, steps, s) && i <= |steps| && Run(scene, start, steps[..i], earlier)
    ensures |earlier.syncs| <= |s.syncs|
    decreases |steps|
  {
    hide Next, Enabled;
    if i == |steps| {
      assert steps[..i] == steps;
      ARunEndsInOneState(scene, start, steps, s, earlier);
    } else {
      var n := |steps| - 1;
      var before := LastStep(scene, start, steps, s);
      assert steps[..n][..i] == steps[..i];
      TheLogOnlyGrows(scene, start, steps[..n], before, i, earlier);
      TheLogGrowsByCommits(before, steps[n], scene);
    }
  }

  /** A user's flags after a log of syncs: the last sync's, or what they were before any. */
  function LastFlags(before: (bool, bool), syncs: seq<Sync>, user: UserPk): (bool, bool) {
    if syncs == [] then before
    else
      var last := syncs[|syncs| - 1];
      if last.user == user then (last.want.staff, last.want.superuser)
        else LastFlags(before, syncs[..|syncs| - 1], user)
  }

  function FlagsOf(a: Authority, user: UserPk): (bool, bool) {
    (user in a.staff, user in a.superusers)
  }

  /** In every reachable state a user's flags are those of the last committed sync of that user. */
  lemma {:induction false} FlagsAreTheLastSyncs(scene: Scene, start: Database, steps: seq<Step>, s: Database,
                                                user: UserPk)
    requires Fresh(start) && Run(scene, start, steps, s)
    ensures FlagsOf(s.authority, user) == LastFlags(FlagsOf(start.authority, user), s.syncs, user)
    decreases |steps|
  {
    hide Next, Enabled, Granted, FlagsOf;
    if steps != [] {
      var n := |steps| - 1;
      var before := LastStep(scene, start, steps, s);
      FlagsAreTheLastSyncs(scene, start, steps[..n], before, user);
      TheLogGrowsByCommits(before, steps[n], scene);
      if steps[n].Commit? {
        assert s.syncs[..|before.syncs|] == before.syncs;
        AGrantSetsTheFlags(before.authority, CallOf(before, steps[n].tid), user);
      }
    }
  }

  lemma AGrantSetsTheFlags(a: Authority, call: Call, user: UserPk)
    requires call.Syncing?
    ensures FlagsOf(Granted(a, call), user)
         == if user == call.user then (call.want.staff, call.want.superuser) else FlagsOf(a, user)
  {
    hide HeldBy;
  }

  // ------------------------------------------------------------------- what one commit makes of the rows

  /** Outside what the later one read: everything either asserts. Inside it: only what both assert. */
  function Crossed(read: set<GroupPk>, first: set<GroupPk>, second: set<GroupPk>): set<GroupPk> {
    ((first + second) - read) + (first * second)
  }

  /** Exactly when the memberships end as the later sync asserts, and exactly when as the earlier. */
  lemma WhenACrossingSettles(read: set<GroupPk>, first: set<GroupPk>, second: set<GroupPk>)
    ensures Crossed(read, first, second) == second <==> first - read <= second && read * second <= first
    ensures Crossed(read, first, second) == first <==> second - read <= first && read * first <= second
    ensures Crossed(first, first, second) == second
    ensures Crossed({}, first, second) == first + second
  {
  }

  /** A sync inserts only what it did not read and deletes only what it no longer asserts, in that order. */
  ghost predicate Measured(call: Call)
    requires call.Syncing?
  {
    && call.added <= call.want.groups - call.read && call.removed <= call.read - call.want.groups
    && (call.stage == ToAdd ==> call.added == {})
    && (call.stage in {ToAdd, ToRemove} ==> call.removed == {})
  }

  /** What its statements found is so of the rows committed by now: all it meant to insert is inserted or
    * there, and all it meant to delete and is there is deleted. */
  ghost predicate Covers(call: Call, held: set<GroupPk>)
    requires call.Syncing?
  {
    && (call.stage != ToAdd ==> call.want.groups - call.read <= call.added + held)
    && (call.stage in {ToSave, Saved} ==> (call.read - call.want.groups) * held <= call.removed)
  }

  /** A commit crosses with what is there by then exactly when its statements cover it. */
  lemma ACommitCrossesExactlyWhenItCovers(call: Call, held: set<GroupPk>)
    requires call.Syncing? && call.stage == Saved && Measured(call)
    ensures held + call.added - call.removed == Crossed(call.read, held, call.want.groups) <==> Covers(call, held)
  {
    var after, want := held + call.added - call.removed, call.want.groups;
    if Covers(call, held) {
      forall g ensures g in after <==> g in Crossed(call.read, held, want) {
        assert g in want - call.read ==> g in call.added + held;
        assert g in (call.read - want) * held ==> g in call.removed;
      }
    }
    if after == Crossed(call.read, held, want) {
      forall g | g in want - call.read ensures g in call.added + held {
        assert g in Crossed(call.read, held, want);
      }
      forall g | g in (call.read - want) * held ensures g in call.removed {
        assert g !in Crossed(call.read, held, want);
      }
    }
  }

  // ------------------------------------------------------------------------- one call, undisturbed

  function Try(s: Database, step: Step, scene: Scene): Database {
    if Enabled(s, step) then Next(s, step, scene) else s
  }

  /** The rest of a sync whose reads are done. */
  function FromReads(s: Database, tid: Tid, scene: Scene): Database {
    Try(Try(Try(Try(s, AddGroups(tid), scene), RemoveGroups(tid), scene), SaveFlags(tid), scene), Commit(tid), scene)
  }

  /** The rest of an authentication whose `jti` can be stored. */
  function FromGating(s: Database, tid: Tid, scene: Scene): Database {
    FromReads(Try(Try(Try(s, GetEpoch(tid), scene), InsertEpoch(tid), scene), ReadTables(tid), scene), tid, scene)
  }

  /** Every step of one authentication that it comes to, with nobody else at work. */
  function Alone(s: Database, tid: Tid, user: UserPk, claims: Payload, scene: Scene): Database {
    FromGating(Try(s, Arrive(tid, user, claims), scene), tid, scene)
  }

  /** No other call of the user has an uncommitted membership or flag. */
  ghost predicate Quiet(s: Database, tid: Tid, user: UserPk) {
    forall t :: t in s.calls && t != tid && s.calls[t].Syncing? && s.calls[t].user == user ==>
      s.calls[t].added == {} && s.calls[t].removed == {} && s.calls[t].stage != Saved
  }

  lemma AloneItAdds(s: Database, tid: Tid, scene: Scene)
    requires CallOf(s, tid).Syncing? && CallOf(s, tid).stage == ToAdd && Quiet(s, tid, CallOf(s, tid).user)
    ensures var call := CallOf(s, tid);
      var missing := call.want.groups - call.read - HeldBy(s.authority, call.user);
      Try(s, AddGroups(tid), scene) == Moved(s, tid, call.(added := missing, stage := ToRemove))
  {
    hide HeldBy;
  }

  lemma AloneItRemoves(s: Database, tid: Tid, scene: Scene)
    requires CallOf(s, tid).Syncing? && CallOf(s, tid).stage == ToRemove && Quiet(s, tid, CallOf(s, tid).user)
    ensures var call := CallOf(s, tid);
      var revoked := (call.read - call.want.groups) * HeldBy(s.authority, call.user);
      Try(s, RemoveGroups(tid), scene) == Moved(s, tid, call.(removed := revoked, stage := ToSave))
  {
    hide HeldBy;
  }

  lemma AloneItSaves(s: Database, tid: Tid, scene: Scene)
    requires CallOf(s, tid).Syncing? && CallOf(s, tid).stage == ToSave && Quiet(s, tid, CallOf(s, tid).user)
    ensures Try(s, SaveFlags(tid), scene) == Moved(s, tid, CallOf(s, tid).(stage := Saved))
  {
  }

  /** Moving one call twice keeps the second move, and what the others do. */
  lemma MovedAgain(s: Database, tid: Tid, user: UserPk, first: Call, second: Call)
    requires Quiet(s, tid, user)
    ensures CallOf(Moved(s, tid, first), tid) == first && Quiet(Moved(s, tid, first), tid, user)
    ensures Moved(Moved(s, tid, first), tid, second) == Moved(s, tid, second)
  {
    assert s.calls[tid := first][tid := second] == s.calls[tid := second];
  }

  /** Whatever it had read, a sync that nobody holds up commits, crossing with what is committed by now. */
  lemma FromReadsEnds(s: Database, tid: Tid, scene: Scene)
    requires var call := CallOf(s, tid);
      call.Syncing? && call.stage == ToAdd && call.added == {} && call.removed == {} && Quiet(s, tid, call.user)
    ensures var call, t := CallOf(s, tid), FromReads(s, tid, scene);
      && CallOf(t, tid) == Done(call.jti, call.user, call.want, call.read)
      && t.epochs == s.epochs[call.jti := call.user] && t.pending == s.pending - {call.jti}
      && t.syncs == s.syncs + [Sync(call.jti, call.user, call.want, call.since)]
      && t.authority == Authority(
           s.authority.held[call.user := Crossed(call.read, HeldBy(s.authority, call.user), call.want.groups)],
           Flagged(s.authority.staff, call.user, call.want.staff),
           Flagged(s.authority.superusers, call.user, call.want.superuser))
      && (forall other :: other != tid ==> CallOf(t, other) == CallOf(s, other))
  {
    hide ReadText, ReadGroupClaim, WantOf, Crossed, Flagged;
    var call, held := CallOf(s, tid), HeldBy(s.authority, CallOf(s, tid).user);
    var b := call.(added := call.want.groups - call.read - held, stage := ToRemove);
    var c := b.(removed := (call.read - call.want.groups) * held, stage := ToSave);
    var d := c.(stage := Saved);
    FromReadsStops(s, tid, scene, b, c, d);
    ACommitCrossesExactlyWhenItCovers(d, held);
  }

  lemma FromReadsStops(s: Database, tid: Tid, scene: Scene, b: Call, c: Call, d: Call)
    requires var call := CallOf(s, tid);
      && call.Syncing? && call.stage == ToAdd && Quiet(s, tid, call.user)
      && b == call.(added := call.want.groups - call.read - HeldBy(s.authority, call.user), stage := ToRemove)
      && c == b.(removed := (b.read - b.want.groups) * HeldBy(s.authority, b.user), stage := ToSave)
      && d == c.(stage := Saved)
    ensures FromReads(s, tid, scene) == Try(Moved(s, tid, d), Commit(tid), scene)
  {
    hide Try, Moved, CallOf, Quiet, HeldBy;
    AloneItAdds(s, tid, scene);
    MovedAgain(s, tid, b.user, b, c);
    AloneItRemoves(Moved(s, tid, b), tid, scene);
    MovedAgain(s, tid, b.user, c, d);
    AloneItSaves(Moved(s, tid, c), tid, scene);
    MovingKeepsAuthority(s, tid, b);
  }

  lemma MovingKeepsAuthority(s: Database, tid: Tid, call: Call)
    ensures Moved(s, tid, call).authority == s.authority
  {
  }

  /** A call ended as the gate would have: with an epoch, a committed sync, and its user's memberships and
    * flags as asserted exactly when it synced, and with nothing written otherwise. */
  ghost predicate EndedAs(s: Database, t: Database, jti: string, user: UserPk, call: Call,
                          asserted: Option<seq<string>>, scene: Scene) {
    if call.Done? then
      && asserted.Some? && call.want == WantOf(scene, asserted.value)
      && t.epochs == s.epochs[jti := user] && t.pending == s.pending - {jti}
      && t.syncs == s.syncs + [Sync(jti, user, call.want, |s.syncs|)]
      && t.authority == Authority(s.authority.held[user := call.want.groups],
                                  Flagged(s.authority.staff, user, call.want.staff),
                                  Flagged(s.authority.superusers, user, call.want.superuser))
    else t.epochs == s.epochs && t.pending == s.pending && t.syncs == s.syncs && t.authority == s.authority
  }

  lemma FromGatingEnds(s: Database, tid: Tid, scene: Scene)
    requires CallOf(s, tid).Gating? && CallOf(s, tid).jti !in s.pending && Quiet(s, tid, CallOf(s, tid).user)
    ensures var call, t := CallOf(s, tid), FromGating(s, tid, scene);
      var asserted, after := ReadGroupClaim(call.claims, scene.contract.groupClaim), CallOf(t, tid);
      && EndedAs(s, t, call.jti, call.user, after, asserted, scene)
      && (call.jti in s.epochs ==> after == Sighted(call.jti, call.user, s.epochs[call.jti]))
      && (call.jti !in s.epochs && asserted.None? ==> after == Refused(GroupClaimAbsent))
      && (call.jti !in s.epochs && asserted.Some? ==> after.Done?)
  {
    hide ReadText, ReadGroupClaim, WantOf, FromReads, Flagged, Crossed;
    var call := CallOf(s, tid);
    var b := Try(s, GetEpoch(tid), scene);
    if call.jti in s.epochs {
      ASettledCallIsLeftAlone(b, tid, scene);
    } else {
      var c := Try(b, InsertEpoch(tid), scene);
      assert CallOf(c, tid) == Recorded(call.jti, call.user, call.claims);
      var d := Try(c, ReadTables(tid), scene);
      assert s.pending[call.jti := call.user] - {call.jti} == s.pending;
      if CallOf(d, tid).Refused? {
        ASettledCallIsLeftAlone(d, tid, scene);
      } else {
        FromReadsEnds(d, tid, scene);
        WhenACrossingSettles({}, HeldBy(s.authority, call.user), CallOf(d, tid).want.groups);
      }
    }
  }

  lemma ASettledCallIsLeftAlone(s: Database, tid: Tid, scene: Scene)
    requires var call := CallOf(s, tid); call.Refused? || call.Repeated?
    ensures FromReads(s, tid, scene) == s
    ensures Try(s, InsertEpoch(tid), scene) == s && Try(s, ReadTables(tid), scene) == s
      && Try(s, GetEpoch(tid), scene) == s
  {
    hide Next, InsertsUnlocked, DeletesUnlocked, UserUnlocked;
  }

  /** The steps of one call, run alone, are one call of the gate. */
  lemma AloneTheStepsAreTheGate(s: Database, tid: Tid, user: UserPk, claims: Payload, scene: Scene)
    requires CallOf(s, tid).Idle? && ReadText(claims, "jti") !in s.pending && Quiet(s, tid, user)
    ensures var t := Alone(s, tid, user, claims, scene);
      var call := CallOf(t, tid);
      && GateEnds(s.epochs, user, claims, scene.contract.groupClaim, if call.Refused? then Some(call.reason)
                  else None, call.Done?)
      && EndedAs(s, t, ReadText(claims, "jti"), user, call, ReadGroupClaim(claims, scene.contract.groupClaim), scene)
  {
    hide ReadText, ReadGroupClaim, FromGating, WantOf, Flagged;
    var a := Next(s, Arrive(tid, user, claims), scene);
    if CallOf(a, tid).Gating? {
      FromGatingEnds(a, tid, scene);
    } else {
      ARefusedCallIsLeftAlone(a, tid, scene);
    }
  }

  lemma ARefusedCallIsLeftAlone(s: Database, tid: Tid, scene: Scene)
    requires CallOf(s, tid).Refused?
    ensures FromGating(s, tid, scene) == s
  {
    ASettledCallIsLeftAlone(s, tid, scene);
    hide FromReads, Try;
  }
}
