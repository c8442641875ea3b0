/** What the memberships of a user are after any run of interleaved syncs, told from the log of the
  * committed ones (`src/config/authorization/mapper.py`). */
module SyncHistory {
  import opened Core
  import opened Claims
  import opened Usernames
  import opened GroupSync
  import opened EpochRuns
  import opened SyncRuns

  // ------------------------------------------------------------------ what a sync has not seen

  /** From some place of the log on, no sync of the user. */
  ghost predicate NoneOf(log: seq<Sync>, from: nat, user: UserPk) {
    forall i :: from <= i < |log| ==> log[i].user != user
  }

  /** From some place of the log on, no two. */
  ghost predicate AtMostOneOf(log: seq<Sync>, from: nat, user: UserPk) {
    forall i, j :: from <= i < j < |log| ==> !(log[i].user == user && log[j].user == user)
  }

  /** A sync under way stands to the committed rows as what has committed since its reads allows: with no
    * sync of its user in between they are what it read, and with one its statements still cover them. */
  ghost predicate Tracks(s: Database, call: Call)
    requires call.Syncing?
  {
    var held := HeldBy(s.authority, call.user);
    && call.since <= |s.syncs| && Measured(call)
    && (NoneOf(s.syncs, call.since, call.user) ==> held == call.read)
    && (AtMostOneOf(s.syncs, call.since, call.user) ==> Covers(call, held))
  }

  ghost predicate CallsTrack(s: Database) {
    forall t :: CallOf(s, t).Syncing? ==> Tracks(s, CallOf(s, t))
  }

  /** A sync's own statement, on the rows as they are. */
  lemma AStatementTracks(s: Database, step: Step, scene: Scene)
    requires CallsTrack(s) && Enabled(s, step) && CallOf(Next(s, step, scene), step.tid).Syncing?
    ensures Tracks(Next(s, step, scene), CallOf(Next(s, step, scene), step.tid))
  {
    hide ReadText, ReadGroupClaim, WantOf, Granted, InsertsUnlocked, DeletesUnlocked, UserUnlocked, HeldBy;
    assert CallOf(s, step.tid).Syncing? ==> Tracks(s, CallOf(s, step.tid));
  }

  /** Another's commit: of another user it changes nothing here, of the same user it is one more not seen. */
  lemma ACommitIsTracked(s: Database, last: Call, call: Call, t: Database)
    requires call.Syncing? && last.Syncing? && Tracks(s, call)
    requires t.syncs == s.syncs + [Sync(last.jti, last.user, last.want, last.since)]
    requires t.authority == Granted(s.authority, last)
    ensures Tracks(t, call)
  {
    var n, user := |s.syncs|, call.user;
    assert forall i :: 0 <= i < n ==> t.syncs[i] == s.syncs[i];
    assert t.syncs[n].user == last.user;
    hide Granted, HeldBy, Covers;
    if last.user == user {
      if AtMostOneOf(t.syncs, call.since, user) {
        assert NoneOf(s.syncs, call.since, user);
        WhatWasReadIsCovered(call, HeldBy(s.authority, user), HeldBy(t.authority, user));
      }
    } else {
      AGrantIsItsOwnUsers(s.authority, last, user);
      assert NoneOf(t.syncs, call.since, user) ==> NoneOf(s.syncs, call.since, user);
      assert AtMostOneOf(t.syncs, call.since, user) ==> AtMostOneOf(s.syncs, call.since, user);
    }
  }

  /** A sync that read what is held covers whatever a commit makes of it. */
  lemma WhatWasReadIsCovered(call: Call, held: set<GroupPk>, after: set<GroupPk>)
    requires call.Syncing? && call.read == held && Measured(call) && Covers(call, held)
    ensures Covers(call, after)
  {
  }

  lemma AStepKeepsTracking(s: Database, step: Step, scene: Scene)
    requires CallsTrack(s) && Enabled(s, step)
    ensures CallsTrack(Next(s, step, scene))
  {
    var t := Next(s, step, scene);
    AStepMovesOneCall(s, step, scene);
    TheLogGrowsByCommits(s, step, scene);
    if CallOf(t, step.tid).Syncing? {
      AStatementTracks(s, step, scene);
    }
    hide Next, Enabled, Tracks;
    forall tid | CallOf(t, tid).Syncing? ensures Tracks(t, CallOf(t, tid)) {
      if tid != step.tid {
        assert Tracks(s, CallOf(s, tid));
        if step.Commit? {
          ACommitIsTracked(s, CallOf(s, step.tid), CallOf(s, tid), t);
        } else {
          TheSameTablesTrack(s, t, CallOf(s, tid));
        }
      }
    }
  }

  lemma TheSameTablesTrack(s: Database, t: Database, call: Call)
    requires call.Syncing? && Tracks(s, call) && t.syncs == s.syncs && t.authority == s.authority
    ensures Tracks(t, call)
  {
  }

  lemma {:induction false} ReachableCallsTrack(scene: Scene, start: Database, steps: seq<Step>, s: Database)
    requires Fresh(start) && Run(scene, start, steps, s)
    ensures CallsTrack(s)
    decreases |steps|
  {
    hide Next, Enabled, Tracks;
    if steps != [] {
      var n := |steps| - 1;
      var before := LastStep(scene, start, steps, s);
      ReachableCallsTrack(scene, start, steps[..n], before);
      AStepKeepsTracking(before, steps[n], scene);
    }
  }

  // --------------------------------------------------------------------- what a commit leaves

  /** What the commit of a sync makes of the rows `before` it: what it asserts, when no sync of its user
    * committed since its reads; a crossing with what is there, when one did; and after more of them a
    * crossing exactly when its statements cover what is there. */
  ghost predicate Leaves(call: Call, before: Database, after: Database) {
    && call.Syncing?
    && var held, left := HeldBy(before.authority, call.user), HeldBy(after.authority, call.user);
    && (NoneOf(before.syncs, call.since, call.user) ==> left == call.want.groups)
    && (AtMostOneOf(before.syncs, call.since, call.user) ==> left == Crossed(call.read, held, call.want.groups))
    && (left == Crossed(call.read, held, call.want.groups) <==> Covers(call, held))
    && FlagsOf(after.authority, call.user) == (call.want.staff, call.want.superuser)
  }

  /** So of every commit of every run, whatever else goes on in it. */
  lemma WhatACommitLeaves(scene: Scene, start: Database, steps: seq<Step>, s: Database, tid: Tid)
    requires Enabled(s, Commit(tid)) && Fresh(start) && Run(scene, start, steps, s)
    ensures Leaves(CallOf(s, tid), s, Next(s, Commit(tid), scene))
  {
    ReachableCallsTrack(scene, start, steps, s);
    TheLogGrowsByCommits(s, Commit(tid), scene);
    hide Run;
    var call := CallOf(s, tid);
    assert Tracks(s, call);
    ASavedCallIsTracked(s, call, Next(s, Commit(tid), scene));
  }

  lemma ASavedCallIsTracked(s: Database, call: Call, t: Database)
    requires call.Syncing? && call.stage == Saved && Tracks(s, call) && t.authority == Granted(s.authority, call)
    ensures Leaves(call, s, t)
  {
    var held := HeldBy(s.authority, call.user);
    ACommitCrossesExactlyWhenItCovers(call, held);
    WhenACrossingSettles(call.read, held, call.want.groups);
    assert NoneOf(s.syncs, call.since, call.user) ==> AtMostOneOf(s.syncs, call.since, call.user);
    hide Covers, Crossed;
  }

  // ------------------------------------------------------------------- the memberships, from the log

  ghost predicate ReadsComeFirst(log: seq<Sync>) {
    forall i :: 0 <= i < |log| ==> log[i].since <= i
  }

  /** From `base` on, every sync of the user read there and missed at most one other of that user. */
  ghost predicate Settled(log: seq<Sync>, base: nat, user: UserPk)
    requires ReadsComeFirst(log)
  {
    forall i :: base <= i < |log| && log[i].user == user ==>
      base <= log[i].since && AtMostOneOf(log[..i], log[i].since, user)
  }

  /** What the syncs logged from `base` on make of a user's memberships: each crosses, on what had been left
    * when it read, with what had been left when it committed. */
  ghost function Left(before: set<GroupPk>, base: nat, log: seq<Sync>, user: UserPk): set<GroupPk>
    requires ReadsComeFirst(log)
    decreases |log|
  {
    if |log| <= base then before
    else
      var n := |log| - 1;
      if log[n].user != user then Left(before, base, log[..n], user)
      else
        Crossed(Left(before, base, log[..log[n].since], user), Left(before, base, log[..n], user), log[n].want.groups)
  }

  lemma LeftNext(before: set<GroupPk>, base: nat, log: seq<Sync>, last: Sync, user: UserPk)
    requires ReadsComeFirst(log) && last.since <= |log| && base <= |log|
    ensures ReadsComeFirst(log + [last])
    ensures Left(before, base, log + [last], user)
         == if last.user != user then Left(before, base, log, user)
            else Crossed(Left(before, base, log[..last.since], user), Left(before, base, log, user), last.want.groups)
  {
    var after := log + [last];
    assert after[..|log|] == log && after[..last.since] == log[..last.since];
  }

  lemma SettledBefore(log: seq<Sync>, last: Sync, base: nat, user: UserPk)
    requires ReadsComeFirst(log + [last]) && Settled(log + [last], base, user) && base <= |log|
    ensures ReadsComeFirst(log) && Settled(log, base, user)
    ensures last.user == user ==> base <= last.since && AtMostOneOf(log, last.since, user)
  {
    var after := log + [last];
    assert forall i :: 0 <= i < |log| ==> after[i] == log[i] && after[..i] == log[..i];
    assert after[|log|] == last && after[..|log|] == log;
  }

  /** The memberships and the reads of the syncs under way are what the log has left. */
  ghost predicate Replays(s: Database, before: set<GroupPk>, base: nat, user: UserPk) {
    && base <= |s.syncs| && ReadsComeFirst(s.syncs)
    && (Settled(s.syncs, base, user) ==>
          && HeldBy(s.authority, user) == Left(before, base, s.syncs, user)
          && forall t :: ReadSince(CallOf(s, t), base, user) ==> ReadWhatWasLeft(s, CallOf(s, t), before, base))
  }

  ghost predicate ReadSince(call: Call, base: nat, user: UserPk) {
    call.Syncing? && call.user == user && base <= call.since
  }

  ghost predicate ReadWhatWasLeft(s: Database, call: Call, before: set<GroupPk>, base: nat)
    requires call.Syncing? && ReadsComeFirst(s.syncs)
  {
    call.since <= |s.syncs| && call.read == Left(before, base, s.syncs[..call.since], call.user)
  }

  lemma ReplayStarts(s: Database, user: UserPk)
    requires CallsTrack(s) && ReadsComeFirst(s.syncs)
    ensures Replays(s, HeldBy(s.authority, user), |s.syncs|, user)
  {
    forall t | ReadSince(CallOf(s, t), |s.syncs|, user)
      ensures ReadWhatWasLeft(s, CallOf(s, t), HeldBy(s.authority, user), |s.syncs|)
    {
      assert Tracks(s, CallOf(s, t));
    }
  }

  lemma ACommitReplays(s: Database, step: Step, scene: Scene, before: set<GroupPk>, base: nat, user: UserPk)
    requires Replays(s, before, base, user) && CallsTrack(s) && Enabled(s, step) && step.Commit?
    ensures Replays(Next(s, step, scene), before, base, user)
  {
    var t, call := Next(s, step, scene), CallOf(s, step.tid);
    AStepMovesOneCall(s, step, scene);
    TheLogGrowsByCommits(s, step, scene);
    assert Tracks(s, call);
    hide Next, Enabled, Tracks;
    var last := Sync(call.jti, call.user, call.want, call.since);
    LeftNext(before, base, s.syncs, last, user);
    if Settled(t.syncs, base, user) {
      SettledBefore(s.syncs, last, base, user);
      assert call.user == user ==> ReadSince(call, base, user);
      TheCommitted(s, t, call, before, base, user);
      forall tid | ReadSince(CallOf(t, tid), base, user) ensures ReadWhatWasLeft(t, CallOf(t, tid), before, base) {
        assert tid != step.tid && ReadSince(CallOf(s, tid), base, user);
        assert t.syncs[..CallOf(s, tid).since] == s.syncs[..CallOf(s, tid).since];
      }
    }
  }

  lemma TheCommitted(s: Database, t: Database, call: Call, before: set<GroupPk>, base: nat, user: UserPk)
    requires call.Syncing? && call.stage == Saved && Tracks(s, call) && t.authority == Granted(s.authority, call)
    requires ReadsComeFirst(s.syncs) && HeldBy(s.authority, user) == Left(before, base, s.syncs, user)
    requires call.user == user ==>
      AtMostOneOf(s.syncs, call.since, user) && ReadWhatWasLeft(s, call, before, base)
    ensures HeldBy(t.authority, user)
         == if call.user != user then Left(before, base, s.syncs, user)
            else Crossed(Left(before, base, s.syncs[..call.since], user), Left(before, base, s.syncs, user),
                         call.want.groups)
  {
    if call.user == user {
      ASavedCallIsTracked(s, call, t);
    } else {
      AGrantIsItsOwnUsers(s.authority, call, user);
    }
  }

  lemma AnotherStepReplays(s: Database, step: Step, scene: Scene, before: set<GroupPk>, base: nat, user: UserPk)
    requires Replays(s, before, base, user) && Enabled(s, step) && !step.Commit?
    ensures Replays(Next(s, step, scene), before, base, user)
  {
    var t := Next(s, step, scene);
    AStepMovesOneCall(s, step, scene);
    TheLogGrowsByCommits(s, step, scene);
    if CallOf(t, step.tid).Syncing? {
      AStatementReads(s, step, scene);
    }
    hide Next, Enabled, Left, Settled;
    if Settled(t.syncs, base, user) {
      forall tid | ReadSince(CallOf(t, tid), base, user) ensures ReadWhatWasLeft(t, CallOf(t, tid), before, base) {
        if tid == step.tid && step.ReadTables? {
          assert t.syncs[..|t.syncs|] == s.syncs;
        } else {
          assert ReadSince(CallOf(s, tid), base, user);
        }
      }
    }
  }

  /** A statement of a sync keeps what it read, and a read takes what is there. */
  lemma AStatementReads(s: Database, step: Step, scene: Scene)
    requires Enabled(s, step) && CallOf(Next(s, step, scene), step.tid).Syncing?
    ensures var call, after := CallOf(s, step.tid), CallOf(Next(s, step, scene), step.tid);
      if step.ReadTables? then after.since == |s.syncs| && after.read == HeldBy(s.authority, after.user)
      else call.Syncing? && after.since == call.since && after.read == call.read && after.user == call.user
  {
    hide ReadText, ReadGroupClaim, WantOf, Granted, InsertsUnlocked, DeletesUnlocked, UserUnlocked, HeldBy;
  }

  lemma {:induction false} LoggedReadsComeFirst(scene: Scene, start: Database, steps: seq<Step>, s: Database)
    requires Fresh(start) && Run(scene, start, steps, s)
    ensures ReadsComeFirst(s.syncs)
    decreases |steps|
  {
    hide Next, Enabled, Tracks;
    if steps != [] {
      var n := |steps| - 1;
      var before := LastStep(scene, start, steps, s);
      LoggedReadsComeFirst(scene, start, steps[..n], before);
      ReachableCallsTrack(scene, start, steps[..n], before);
      TheLogGrowsByCommits(before, steps[n], scene);
      if steps[n].Commit? {
        ATrackedCallReadFirst(before, CallOf(before, steps[n].tid));
      }
    }
  }

  lemma ATrackedCallReadFirst(s: Database, call: Call)
    requires call.Syncing? && Tracks(s, call)
    ensures call.since <= |s.syncs|
  {
  }

  lemma {:induction false} RunsReplay(scene: Scene, start: Database, steps: seq<Step>, s: Database, i: nat,
                                      earlier: Database, user: UserPk)
    requires Fresh(start) && Run(scene, start, steps, s) && i <= |steps| && Run(scene, start, steps[..i], earlier)
    ensures Replays(s, HeldBy(earlier.authority, user), |earlier.syncs|, user)
    decreases |steps|
  {
    hide Next, Enabled, Replays, CallsTrack, HeldBy;
    var held, base := HeldBy(earlier.authority, user), |earlier.syncs|;
    if i == |steps| {
      assert steps[..i] == steps;
      ARunEndsInOneState(scene, start, steps, s, earlier);
      ReachableCallsTrack(scene, start, steps, s);
      LoggedReadsComeFirst(scene, start, steps, s);
      ReplayStarts(s, user);
    } else {
      var n := |steps| - 1;
      var before := LastStep(scene, start, steps, s);
      assert steps[..n][..i] == steps[..i];
      RunsReplay(scene, start, steps[..n], before, i, earlier, user);
      ReachableCallsTrack(scene, start, steps[..n], before);
      if steps[n].Commit? {
        ACommitReplays(before, steps[n], scene, held, base, user);
      } else {
        AnotherStepReplays(before, steps[n], scene, held, base, user);
      }
    }
  }

  /** Between any two points of a run, with any other calls, refusals and rollbacks among them: when every
    * sync of a user that committed in between read in between and missed at most one other of that user,
    * the memberships are what the log of those syncs leaves, crossing by crossing. */
  lemma TheMembershipsReplayTheLog(scene: Scene, start: Database, steps: seq<Step>, s: Database, i: nat,
                                   earlier: Database, user: UserPk)
    requires Fresh(start) && Run(scene, start, steps, s) && i <= |steps| && Run(scene, start, steps[..i], earlier)
    ensures |earlier.syncs| <= |s.syncs| && ReadsComeFirst(s.syncs)
    ensures Settled(s.syncs, |earlier.syncs|, user) ==>
      HeldBy(s.authority, user) == Left(HeldBy(earlier.authority, user), |earlier.syncs|, s.syncs, user)
  {
    RunsReplay(scene, start, steps, s, i, earlier, user);
    hide Run;
  }

  // ------------------------------------------------------------------------- two syncs of one user

  /** The only two syncs of a user from `base` on, both read there. */
  ghost predicate OnlyTwo(log: seq<Sync>, base: nat, user: UserPk, a: nat, b: nat) {
    && base <= a < b < |log| && log[a].user == user && log[b].user == user
    && base <= log[a].since && base <= log[b].since
    && forall k :: base <= k < |log| && k != a && k != b ==> log[k].user != user
  }

  lemma OnlyTwoIsSettled(log: seq<Sync>, base: nat, user: UserPk, a: nat, b: nat)
    requires ReadsComeFirst(log) && OnlyTwo(log, base, user, a, b)
    ensures Settled(log, base, user)
  {
  }

  /** Where the user has no sync, what is left stays. */
  lemma {:induction false} LeftStays(before: set<GroupPk>, base: nat, log: seq<Sync>, user: UserPk, m: nat)
    requires ReadsComeFirst(log) && base <= m <= |log| && forall k :: m <= k < |log| ==> log[k].user != user
    ensures Left(before, base, log, user) == Left(before, base, log[..m], user)
    decreases |log|
  {
    if m == |log| {
      assert log[..m] == log;
    } else {
      var n := |log| - 1;
      assert log[..n][..m] == log[..m];
      LeftStays(before, base, log[..n], user, m);
    }
  }

  lemma LeftAtASync(before: set<GroupPk>, base: nat, log: seq<Sync>, user: UserPk, a: nat)
    requires ReadsComeFirst(log) && base <= a < |log| && log[a].user == user
    ensures Left(before, base, log[..a + 1], user)
         == Crossed(Left(before, base, log[..log[a].since], user), Left(before, base, log[..a], user),
                    log[a].want.groups)
  {
    var front := log[..a + 1];
    assert front[a] == log[a] && front[..a] == log[..a] && front[..log[a].since] == log[..log[a].since];
  }

  lemma LeftBefore(before: set<GroupPk>, base: nat, log: seq<Sync>, user: UserPk, m: nat)
    requires ReadsComeFirst(log) && base <= m <= |log| && forall k :: base <= k < m ==> log[k].user != user
    ensures Left(before, base, log[..m], user) == before
  {
    LeftStays(before, base, log[..m], user, base);
    assert log[..m][..base] == log[..base];
  }

  lemma LeftOfTwo(before: set<GroupPk>, base: nat, log: seq<Sync>, user: UserPk, a: nat, b: nat)
    requires ReadsComeFirst(log) && OnlyTwo(log, base, user, a, b)
    ensures Left(before, base, log, user)
         == if log[b].since <= a then Crossed(before, log[a].want.groups, log[b].want.groups) else log[b].want.groups
  {
    hide Left, Crossed;
    var first, second := log[a].want.groups, log[b].want.groups;
    LeftBefore(before, base, log, user, log[a].since);
    LeftBefore(before, base, log, user, a);
    LeftAtASync(before, base, log, user, a);
    WhenACrossingSettles(before, before, first);
    LeftFrom(before, base, log, user, a, b);
    LeftAtASync(before, base, log, user, b);
    WhenACrossingSettles(first, first, second);
    if log[b].since <= a {
      LeftBefore(before, base, log, user, log[b].since);
    } else {
      LeftFrom(before, base, log, user, a, log[b].since);
    }
    LeftStays(before, base, log, user, b + 1);
  }

  lemma LeftFrom(before: set<GroupPk>, base: nat, log: seq<Sync>, user: UserPk, a: nat, m: nat)
    requires ReadsComeFirst(log) && base <= a < m <= |log| && forall k :: a < k < m ==> log[k].user != user
    ensures Left(before, base, log[..m], user) == Left(before, base, log[..a + 1], user)
  {
    LeftStays(before, base, log[..m], user, a + 1);
    assert log[..m][..a + 1] == log[..a + 1];
  }

  /** Two syncs of one user that read and commit between two points of a run, whatever else runs in between
    * but no third sync of that user that commits: when the later one read after the earlier had committed,
    * the memberships are what it asserts; when it read before, the two cross on what was held at first. The
    * flags are the later one's. */
  lemma TwoSyncsOfOneUserCross(scene: Scene, start: Database, steps: seq<Step>, s: Database, i: nat,
                               earlier: Database, user: UserPk, a: nat, b: nat)
    requires Fresh(start) && Run(scene, start, steps, s) && i <= |steps| && Run(scene, start, steps[..i], earlier)
    requires OnlyTwo(s.syncs, |earlier.syncs|, user, a, b)
    ensures var held, first, second := HeldBy(earlier.authority, user), s.syncs[a].want, s.syncs[b].want;
      && HeldBy(s.authority, user)
         == (if s.syncs[b].since <= a then Crossed(held, first.groups, second.groups) else second.groups)
      && FlagsOf(s.authority, user) == (second.staff, second.superuser)
  {
    TheMembershipsReplayTheLog(scene, start, steps, s, i, earlier, user);
    FlagsAreTheLastSyncs(scene, start, steps, s, user);
    hide Run, Left, Settled, ReadsComeFirst;
    OnlyTwoIsSettled(s.syncs, |earlier.syncs|, user, a, b);
    LeftOfTwo(HeldBy(earlier.authority, user), |earlier.syncs|, s.syncs, user, a, b);
    TheLastFlagsAre(FlagsOf(start.authority, user), s.syncs, user, b);
  }

  lemma {:induction false} TheLastFlagsAre(before: (bool, bool), log: seq<Sync>, user: UserPk, b: nat)
    requires b < |log| && log[b].user == user && forall k :: b < k < |log| ==> log[k].user != user
    ensures LastFlags(before, log, user) == (log[b].want.staff, log[b].want.superuser)
    decreases |log|
  {
    if b < |log| - 1 {
      TheLastFlagsAre(before, log[..|log| - 1], user, b);
    }
  }
}
