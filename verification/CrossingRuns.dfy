/** Runs in which syncs of one user cross (`src/config/authorization/mapper.py`). */
module CrossingRuns {
  import opened Core
  import opened Text
  import opened Claims
  import opened Usernames
  import opened GroupSync
  import opened EpochRuns
  import opened SyncRuns

  // ------------------------------------------------------------------------------ steps of a run

  /** Steps of two calls alone, without a rollback. */
  ghost predicate AllOf(steps: seq<Step>, a: Tid, b: Tid) {
    forall step :: step in steps ==> (step.tid == a || step.tid == b) && !step.Rollback?
  }

  lemma TheyAreAllOf(steps: seq<Step>, more: seq<Step>, a: Tid, b: Tid)
    requires AllOf(steps, a, b) && forall x :: x in more ==> (x.tid == a || x.tid == b) && !x.Rollback?
    ensures AllOf(steps + more, a, b)
  {
  }

  lemma ATryRuns(scene: Scene, from: Database, steps: seq<Step>, s: Database, step: Step) returns (more: seq<Step>)
    requires Run(scene, from, steps, s)
    ensures Run(scene, from, steps + more, Try(s, step, scene)) && forall x :: x in more ==> x == step
  {
    hide Next, Enabled, Run;
    if Enabled(s, step) {
      OneStepMore(scene, from, steps, s, step);
      more := [step];
    } else {
      more := [];
      assert steps + [] == steps;
    }
  }

  lemma FromReadsRuns(scene: Scene, from: Database, steps: seq<Step>, s: Database, tid: Tid) returns (more: seq<Step>)
    requires Run(scene, from, steps, s)
    ensures Run(scene, from, steps + more, FromReads(s, tid, scene))
    ensures forall x :: x in more ==> x.tid == tid && !x.Rollback?
  {
    hide Run, Try;
    var a := ATryRuns(scene, from, steps, s, AddGroups(tid));
    var t := Try(s, AddGroups(tid), scene);
    var b := ATryRuns(scene, from, steps + a, t, RemoveGroups(tid));
    t := Try(t, RemoveGroups(tid), scene);
    var c := ATryRuns(scene, from, steps + a + b, t, SaveFlags(tid));
    t := Try(t, SaveFlags(tid), scene);
    var d := ATryRuns(scene, from, steps + a + b + c, t, Commit(tid));
    more := a + b + c + d;
    assert steps + a + b + c + d == steps + more;
  }

  lemma AReadReads(s: Database, tid: Tid, scene: Scene, asserted: seq<string>)
    requires CallOf(s, tid).Recorded? && ReadGroupClaim(CallOf(s, tid).claims, scene.contract.groupClaim)
      == Some(asserted)
    ensures Enabled(s, ReadTables(tid))
    ensures var t, call := Next(s, ReadTables(tid), scene), CallOf(s, tid);
      && CallOf(t, tid)
         == Syncing(call.jti, call.user, WantOf(scene, asserted), HeldBy(s.authority, call.user), |s.syncs|,
                    {}, {}, ToAdd)
      && t == Moved(s, tid, CallOf(t, tid))
  {
    hide ReadGroupClaim, WantOf, HeldBy;
  }

  /** A sync that has read, undisturbed from there: it crosses with what is held, and leaves its flags. */
  lemma ItEnds(s: Database, tid: Tid, scene: Scene, user: UserPk)
    requires var call := CallOf(s, tid);
      && call.Syncing? && call.stage == ToAdd && call.added == {} && call.removed == {} && call.user == user
      && Quiet(s, tid, user)
    ensures var call, t := CallOf(s, tid), FromReads(s, tid, scene);
      && CallOf(t, tid) == Done(call.jti, user, call.want, call.read)
      && HeldBy(t.authority, user) == Crossed(call.read, HeldBy(s.authority, user), call.want.groups)
      && FlagsOf(t.authority, user) == (call.want.staff, call.want.superuser)
      && (call.read == HeldBy(s.authority, user) ==> HeldBy(t.authority, user) == call.want.groups)
      && forall other :: other != tid ==> CallOf(t, other) == CallOf(s, other)
  {
    FromReadsEnds(s, tid, scene);
    WhenACrossingSettles(CallOf(s, tid).read, CallOf(s, tid).want.groups, CallOf(s, tid).want.groups);
    hide FromReads, Crossed, Quiet;
  }

  lemma AnEmptyRun(scene: Scene, from: Database)
    ensures Run(scene, from, [], from)
  {
  }

  // ----------------------------------------------------------------------- two syncs that cross

  /** No sync of the user under way but those named, which have written nothing yet. */
  ghost predicate OnlyReaders(s: Database, user: UserPk, readers: set<Tid>) {
    forall x :: CallOf(s, x).Syncing? && CallOf(s, x).user == user ==>
      x in readers && CallOf(s, x).added == {} && CallOf(s, x).removed == {} && CallOf(s, x).stage != Saved
  }

  lemma AmongReadersItIsQuiet(s: Database, user: UserPk, readers: set<Tid>, tid: Tid)
    requires OnlyReaders(s, user, readers)
    ensures Quiet(s, tid, user)
  {
    forall t | t in s.calls ensures s.calls[t] == CallOf(s, t) {
    }
  }

  lemma ReadersAfter(s: Database, t: Database, user: UserPk, readers: set<Tid>, tid: Tid)
    requires OnlyReaders(s, user, readers) && forall other :: other != tid ==> CallOf(t, other) == CallOf(s, other)
    ensures !CallOf(t, tid).Syncing? ==> OnlyReaders(t, user, readers)
    ensures var call := CallOf(t, tid);
      call.Syncing? && call.added == {} && call.removed == {} && call.stage != Saved ==>
        OnlyReaders(t, user, readers + {tid})
  {
  }

  /** A first sighting of the user is recorded, and its claims assert these groups. */
  predicate IsRecorded(scene: Scene, s: Database, tid: Tid, user: UserPk, asserted: seq<string>) {
    && CallOf(s, tid).Recorded? && CallOf(s, tid).user == user
    && ReadGroupClaim(CallOf(s, tid).claims, scene.contract.groupClaim) == Some(asserted)
  }

  lemma TheMovedCall(s: Database, tid: Tid, call: Call)
    ensures CallOf(Moved(s, tid, call), tid) == call && Moved(s, tid, call).authority == s.authority
    ensures Moved(s, tid, call).syncs == s.syncs
    ensures forall other :: other != tid ==> CallOf(Moved(s, tid, call), other) == CallOf(s, other)
  {
  }

  /** One recorded sighting reads, among others that have only read. */
  lemma ItReads(scene: Scene, from: Database, steps: seq<Step>, s: Database, tid: Tid, user: UserPk,
                asserted: seq<string>, readers: set<Tid>)
    returns (t: Database)
    requires Run(scene, from, steps, s) && IsRecorded(scene, s, tid, user, asserted) && OnlyReaders(s, user, readers)
    ensures Run(scene, from, steps + [ReadTables(tid)], t) && OnlyReaders(t, user, readers + {tid})
    ensures CallOf(t, tid) == Syncing(CallOf(s, tid).jti, user, WantOf(scene, asserted), HeldBy(s.authority, user),
                                      |s.syncs|, {}, {}, ToAdd)
    ensures t.authority == s.authority && t.syncs == s.syncs
    ensures forall other :: other != tid ==> CallOf(t, other) == CallOf(s, other)
  {
    hide WantOf, Run, Next, Enabled, HeldBy, ReadGroupClaim, OnlyReaders;
    AReadReads(s, tid, scene, asserted);
    OneStepMore(scene, from, steps, s, ReadTables(tid));
    t := Next(s, ReadTables(tid), scene);
    TheMovedCall(s, tid, CallOf(t, tid));
    ReadersAfter(s, t, user, readers, tid);
  }

  /** And then goes on to its commit, which leaves what it asserts: nothing came between. */
  lemma ItCommits(scene: Scene, from: Database, steps: seq<Step>, s: Database, tid: Tid, user: UserPk,
                  asserted: seq<string>, readers: set<Tid>)
    returns (t: Database, more: seq<Step>)
    requires Run(scene, from, steps, s) && IsRecorded(scene, s, tid, user, asserted) && OnlyReaders(s, user, readers)
    requires tid !in readers
    ensures Run(scene, from, steps + more, t) && OnlyReaders(t, user, readers) && CallOf(t, tid).Done?
    ensures HeldBy(t.authority, user) == WantOf(scene, asserted).groups
    ensures forall other :: other != tid ==> CallOf(t, other) == CallOf(s, other)
  {
    hide WantOf, Run, Next, Enabled, FromReads, IsRecorded, Quiet, Crossed, HeldBy;
    var q := ItReads(scene, from, steps, s, tid, user, asserted, readers);
    AmongReadersItIsQuiet(q, user, readers + {tid}, tid);
    ItEnds(q, tid, scene, user);
    more := FromReadsRuns(scene, from, steps + [ReadTables(tid)], q, tid);
    t := FromReads(q, tid, scene);
    assert steps + ([ReadTables(tid)] + more) == steps + [ReadTables(tid)] + more;
    more := [ReadTables(tid)] + more;
    NoMoreReaders(q, t, user, readers, tid);
  }

  lemma NoMoreReaders(s: Database, t: Database, user: UserPk, readers: set<Tid>, tid: Tid)
    requires OnlyReaders(s, user, readers + {tid}) && !CallOf(t, tid).Syncing?
    requires forall other :: other != tid ==> CallOf(t, other) == CallOf(s, other)
    ensures OnlyReaders(t, user, readers)
  {
  }

  lemma TwoHaveRead(scene: Scene, from: Database, user: UserPk, a: Tid, b: Tid, first: seq<string>,
                    second: seq<string>)
    returns (steps: seq<Step>, q: Database)
    requires a != b && OnlyReaders(from, user, {})
    requires IsRecorded(scene, from, a, user, first) && IsRecorded(scene, from, b, user, second)
    ensures Run(scene, from, steps, q) && AllOf(steps, a, b) && OnlyReaders(q, user, {b} + {a})
    ensures q.authority == from.authority
    ensures var held, since := HeldBy(from.authority, user), |from.syncs|;
      && CallOf(q, a) == Syncing(CallOf(from, a).jti, user, WantOf(scene, first), held, since, {}, {}, ToAdd)
      && CallOf(q, b) == Syncing(CallOf(from, b).jti, user, WantOf(scene, second), held, since, {}, {}, ToAdd)
  {
    hide WantOf, Run, OnlyReaders, Next, Enabled, HeldBy, IsRecorded, AllOf;
    AnEmptyRun(scene, from);
    var p := ItReads(scene, from, [], from, a, user, first, {});
    ItStaysRecorded(scene, from, p, b, user, second);
    q := ItReads(scene, from, [] + [ReadTables(a)], p, b, user, second, {} + {a});
    steps := [] + [ReadTables(a)] + [ReadTables(b)];
    assert {} + {a} + {b} == {b} + {a};
    TwoReadsAreAllOf(a, b);
  }

  lemma ItStaysRecorded(scene: Scene, s: Database, t: Database, tid: Tid, user: UserPk, asserted: seq<string>)
    requires IsRecorded(scene, s, tid, user, asserted) && CallOf(t, tid) == CallOf(s, tid)
    ensures IsRecorded(scene, t, tid, user, asserted) && CallOf(t, tid).Recorded?
  {
  }

  lemma TwoReadsAreAllOf(a: Tid, b: Tid)
    ensures AllOf([] + [ReadTables(a)] + [ReadTables(b)], a, b)
  {
  }

  /** Whenever two first sightings of one user are both recorded and nobody else is syncing that user,
    * some interleaving lets both read before either commits: the memberships end crossed on what was
    * held before, which for a user who held nothing is the union of what the two assert. */
  lemma TwoSyncsCanCross(scene: Scene, from: Database, user: UserPk, a: Tid, b: Tid, first: seq<string>,
                         second: seq<string>)
    returns (steps: seq<Step>, t: Database)
    requires a != b && OnlyReaders(from, user, {})
    requires IsRecorded(scene, from, a, user, first) && IsRecorded(scene, from, b, user, second)
    ensures Run(scene, from, steps, t) && AllOf(steps, a, b)
    ensures CallOf(t, a).Done? && CallOf(t, b).Done?
      && FlagsOf(t.authority, user) == (CallOf(t, b).want.staff, CallOf(t, b).want.superuser)
    ensures HeldBy(t.authority, user)
         == Crossed(HeldBy(from.authority, user), WantOf(scene, first).groups, WantOf(scene, second).groups)
  {
    hide WantOf, Run, Crossed, FromReads, Quiet, OnlyReaders, Next, Enabled, HeldBy, FlagsOf, AllOf, IsRecorded;
    var q, r: Database;
    var more: seq<Step>;
    steps, q := TwoHaveRead(scene, from, user, a, b, first, second);
    AmongReadersItIsQuiet(q, user, {b} + {a}, a);
    ItEnds(q, a, scene, user);
    more := FromReadsRuns(scene, from, steps, q, a);
    r := FromReads(q, a, scene);
    NoMoreReaders(q, r, user, {b}, a);
    TheyAreAllOf(steps, more, a, b);
    steps := steps + more;
    AmongReadersItIsQuiet(r, user, {b}, b);
    ItEnds(r, b, scene, user);
    more := FromReadsRuns(scene, from, steps, r, b);
    t := FromReads(r, b, scene);
    TheyAreAllOf(steps, more, a, b);
    steps := steps + more;
  }

  // ----------------------------------------------------------------- a third sync breaks the crossing

  /** The rest of a sync that has done its inserts. */
  function FromAdded(s: Database, tid: Tid, scene: Scene): Database {
    Try(Try(Try(s, RemoveGroups(tid), scene), SaveFlags(tid), scene), Commit(tid), scene)
  }

  lemma FromAddedEnds(s: Database, tid: Tid, scene: Scene)
    requires var call := CallOf(s, tid);
      call.Syncing? && call.stage == ToRemove && call.added == {} && Quiet(s, tid, call.user)
    ensures var call, t := CallOf(s, tid), FromAdded(s, tid, scene);
      && CallOf(t, tid) == Done(call.jti, call.user, call.want, call.read)
      && t.syncs == s.syncs + [Sync(call.jti, call.user, call.want, call.since)]
      && HeldBy(t.authority, call.user) == HeldBy(s.authority, call.user) - (call.read - call.want.groups)
      && forall other :: other != tid ==> CallOf(t, other) == CallOf(s, other)
  {
    var call, held := CallOf(s, tid), HeldBy(s.authority, CallOf(s, tid).user);
    var c := call.(removed := (call.read - call.want.groups) * held, stage := ToSave);
    FromAddedStops(s, tid, scene, c, c.(stage := Saved));
    assert held + {} - (call.read - call.want.groups) * held == held - (call.read - call.want.groups);
  }

  lemma FromAddedStops(s: Database, tid: Tid, scene: Scene, c: Call, d: Call)
    requires var call := CallOf(s, tid);
      && call.Syncing? && call.stage == ToRemove && Quiet(s, tid, call.user)
      && c == call.(removed := (call.read - call.want.groups) * HeldBy(s.authority, call.user), stage := ToSave)
      && d == c.(stage := Saved)
    ensures FromAdded(s, tid, scene) == Try(Moved(s, tid, d), Commit(tid), scene)
  {
    hide Try, Moved, CallOf, Quiet, HeldBy;
    AloneItRemoves(s, tid, scene);
    MovedAgain(s, tid, c.user, c, d);
    AloneItSaves(Moved(s, tid, c), tid, scene);
  }

  lemma FromAddedRuns(scene: Scene, from: Database, steps: seq<Step>, s: Database, tid: Tid) returns (more: seq<Step>)
    requires Run(scene, from, steps, s)
    ensures Run(scene, from, steps + more, FromAdded(s, tid, scene))
  {
    hide Run, Try;
    var a := ATryRuns(scene, from, steps, s, RemoveGroups(tid));
    var t := Try(s, RemoveGroups(tid), scene);
    var b := ATryRuns(scene, from, steps + a, t, SaveFlags(tid));
    t := Try(t, SaveFlags(tid), scene);
    var c := ATryRuns(scene, from, steps + a + b, t, Commit(tid));
    more := a + b + c;
    assert steps + a + b + c == steps + more;
  }

  /** A sync whose every missing group is there by now inserts nothing. */
  lemma NothingIsLeftToAdd(s: Database, tid: Tid, scene: Scene)
    requires CallOf(s, tid).Syncing? && CallOf(s, tid).stage == ToAdd && Quiet(s, tid, CallOf(s, tid).user)
    requires CallOf(s, tid).want.groups - CallOf(s, tid).read <= HeldBy(s.authority, CallOf(s, tid).user)
    ensures Enabled(s, AddGroups(tid))
    ensures Next(s, AddGroups(tid), scene) == Moved(s, tid, CallOf(s, tid).(added := {}, stage := ToRemove))
  {
    var call := CallOf(s, tid);
    assert call.want.groups - call.read - HeldBy(s.authority, call.user) == {};
  }

  /** Whenever three first sightings of one user are recorded and nobody else is syncing that user, and the
    * second asserts what the first would add, some interleaving commits the first of them last and leaves
    * nothing of what it would add but what the third asserts: it found those groups there, inserted
    * nothing, and the third took them away before it committed. */
  lemma ThreeSyncsCanLoseTheLast(scene: Scene, from: Database, user: UserPk, a: Tid, b: Tid, c: Tid,
                                 first: seq<string>, second: seq<string>, third: seq<string>)
    returns (steps: seq<Step>, t: Database)
    requires a != b && b != c && a != c
    requires IsRecorded(scene, from, a, user, first) && IsRecorded(scene, from, b, user, second)
    requires IsRecorded(scene, from, c, user, third) && OnlyReaders(from, user, {})
    requires WantOf(scene, first).groups - HeldBy(from.authority, user) <= WantOf(scene, second).groups
    ensures Run(scene, from, steps, t) && CallOf(t, a).Done? && CallOf(t, b).Done? && CallOf(t, c).Done?
    ensures |t.syncs| > 0 && t.syncs[|t.syncs| - 1].user == user
      && t.syncs[|t.syncs| - 1].want == WantOf(scene, first)
    ensures HeldBy(t.authority, user)
         == WantOf(scene, third).groups - (HeldBy(from.authority, user) - WantOf(scene, first).groups)
  {
    hide WantOf, Run, Next, Enabled, FromReads, FromAdded, OnlyReaders, Quiet, HeldBy, Crossed;
    var held := HeldBy(from.authority, user);
    AnEmptyRun(scene, from);
    var q := ItReads(scene, from, [], from, a, user, first, {});
    steps := [] + [ReadTables(a)];
    assert {} + {a} == {a};
    var r, more := ItCommits(scene, from, steps, q, b, user, second, {a});
    steps := steps + more;
    AmongReadersItIsQuiet(r, user, {a}, a);
    NothingIsLeftToAdd(r, a, scene);
    var u := Next(r, AddGroups(a), scene);
    OneStepMore(scene, from, steps, r, AddGroups(a));
    steps := steps + [AddGroups(a)];
    TheMovedCall(r, a, CallOf(r, a).(added := {}, stage := ToRemove));
    ReadersAfter(r, u, user, {a}, a);
    assert {a} + {a} == {a};
    var v;
    v, more := ItCommits(scene, from, steps, u, c, user, third, {a});
    steps := steps + more;
    AmongReadersItIsQuiet(v, user, {a}, a);
    FromAddedEnds(v, a, scene);
    more := FromAddedRuns(scene, from, steps, v, a);
    steps := steps + more;
    t := FromAdded(v, a, scene);
  }

  // ------------------------------------------------------------------------ from an empty epoch table

  /** One authentication up to its uncommitted epoch row, with nobody in its way. */
  lemma ItIsRecorded(scene: Scene, from: Database, steps: seq<Step>, s: Database, tid: Tid, user: UserPk,
                     claims: Payload)
    returns (t: Database, more: seq<Step>)
    requires Run(scene, from, steps, s) && CallOf(s, tid).Idle? && s.epochs == map[]
    requires 0 < |ReadText(claims, "jti")| <= JTI_LIMIT && ReadText(claims, "jti") !in s.pending
    ensures Run(scene, from, steps + more, t)
    ensures CallOf(t, tid) == Recorded(ReadText(claims, "jti"), user, claims)
    ensures t.epochs == map[] && t.pending.Keys == s.pending.Keys + {ReadText(claims, "jti")}
    ensures t.authority == s.authority && forall other :: other != tid ==> CallOf(t, other) == CallOf(s, other)
  {
    hide Run, ReadText;
    var arrive, get, insert := Arrive(tid, user, claims), GetEpoch(tid), InsertEpoch(tid);
    OneStepMore(scene, from, steps, s, arrive);
    var a := Next(s, arrive, scene);
    OneStepMore(scene, from, steps + [arrive], a, get);
    var b := Next(a, get, scene);
    OneStepMore(scene, from, steps + [arrive] + [get], b, insert);
    t := Next(b, insert, scene);
    more := [arrive] + [get] + [insert];
    assert steps + more == steps + [arrive] + [get] + [insert];
  }

  /** Claims that name a `jti` of their own and assert these groups. */
  predicate Asserts(scene: Scene, claims: Payload, jti: string, asserted: seq<string>) {
    && ReadText(claims, "jti") == jti && 0 < |jti| <= JTI_LIMIT
    && ReadGroupClaim(claims, scene.contract.groupClaim) == Some(asserted)
  }

  /** So from every table of memberships, for every user and every three such tokens of it. */
  lemma TheLastSyncCanBeLost(scene: Scene, start: Database, user: UserPk, x: Payload, y: Payload, z: Payload,
                             jtis: (string, string, string), first: seq<string>, second: seq<string>,
                             third: seq<string>)
    returns (steps: seq<Step>, t: Database)
    requires Fresh(start) && jtis.0 != jtis.1 && jtis.1 != jtis.2 && jtis.0 != jtis.2
    requires Asserts(scene, x, jtis.0, first) && Asserts(scene, y, jtis.1, second) && Asserts(scene, z, jtis.2, third)
    requires WantOf(scene, first).groups - HeldBy(start.authority, user) <= WantOf(scene, second).groups
    ensures Run(scene, start, steps, t) && |t.syncs| > 0 && t.syncs[|t.syncs| - 1].user == user
      && t.syncs[|t.syncs| - 1].want == WantOf(scene, first)
    ensures HeldBy(t.authority, user)
         == WantOf(scene, third).groups - (HeldBy(start.authority, user) - WantOf(scene, first).groups)
  {
    hide Run, ReadText, ReadGroupClaim, WantOf, HeldBy;
    AnEmptyRun(scene, start);
    var a, more := ItIsRecorded(scene, start, [], start, 0, user, x);
    steps := [] + more;
    var b;
    b, more := ItIsRecorded(scene, start, steps, a, 1, user, y);
    steps := steps + more;
    var c;
    c, more := ItIsRecorded(scene, start, steps, b, 2, user, z);
    steps := steps + more;
    assert OnlyReaders(c, user, {});
    more, t := ThreeSyncsCanLoseTheLast(scene, c, user, 0, 1, 2, first, second, third);
    RunsJoin(scene, start, steps, c, more, t);
    steps := steps + more;
  }

  lemma {:induction false} RunsJoin(scene: Scene, start: Database, steps: seq<Step>, s: Database, more: seq<Step>,
                                    t: Database)
    requires Run(scene, start, steps, s) && Run(scene, s, more, t)
    ensures Run(scene, start, steps + more, t)
    decreases |more|
  {
    hide Next, Enabled;
    if more == [] {
      assert steps + [] == steps;
    } else {
      var n := |more| - 1;
      var before := LastStep(scene, s, more, t);
      RunsJoin(scene, start, steps, s, more[..n], before);
      OneStepMore(scene, start, steps + more[..n], before, more[n]);
      assert steps + more == steps + more[..n] + [more[n]];
    }
  }

  const ONE_GROUP := Scene(map["g" := 1], Contract("groups", "staff", "admins"))
  const NO_EPOCHS := Database(map[], map[], Authority(map[], {}, {}), [], map[])

  function Token(jti: string, groups: seq<Json>): Payload {
    map["jti" := Str(jti), "groups" := List(groups)]
  }

  lemma ATokenAsserts(jti: string, groups: seq<Json>, asserted: seq<string>)
    requires |jti| == 1 && !IsSpace(jti[0]) && ReadNames(groups) == Some(asserted)
    ensures Asserts(ONE_GROUP, Token(jti, groups), jti, asserted)
  {
    hide IsSpace, Trim;
    TrimTrims(jti, IsSpace);
    assert Token(jti, groups)["jti"] == Str(jti) && Token(jti, groups)["groups"] == List(groups);
  }

  lemma OneCharacterIsAName(s: string)
    requires |s| == 1 && !IsSpace(s[0])
    ensures ReadName(Str(s)) == Some(s)
  {
    hide IsSpace, Trim;
    TrimTrims(s, IsSpace);
  }

  lemma OneNameReads()
    ensures ReadNames([Str("g")]) == Some(["g"]) && ReadNames([]) == Some([])
  {
    OneCharacterIsAName("g");
    hide ReadName;
    assert [Str("g")][1..] == [] && ["g"] + [] == ["g"];
  }

  lemma OneNameIsWanted()
    ensures WantOf(ONE_GROUP, ["g"]).groups == {1} && WantOf(ONE_GROUP, []).groups == {}
  {
    var groups := ONE_GROUP.groups;
    assert Rows(groups, ["g"]) == groups && Rows(groups, []) == map[];
    assert groups["g"] == 1 && groups.Values == {1};
  }

  lemma NobodyHoldsAnything(user: UserPk)
    ensures Fresh(NO_EPOCHS) && HeldBy(NO_EPOCHS.authority, user) == {}
  {
  }

  /** For a user who holds nothing, two tokens that want the same and a third that wants nothing. */
  lemma TheLastSyncIsLostOnNothing(scene: Scene, start: Database, user: UserPk, x: Payload, y: Payload, z: Payload,
                                   jtis: (string, string, string), asserted: seq<string>)
    returns (steps: seq<Step>, t: Database)
    requires Fresh(start) && HeldBy(start.authority, user) == {} && WantOf(scene, []).groups == {}
    requires jtis.0 != jtis.1 && jtis.1 != jtis.2 && jtis.0 != jtis.2
    requires Asserts(scene, x, jtis.0, asserted) && Asserts(scene, y, jtis.1, asserted)
    requires Asserts(scene, z, jtis.2, [])
    ensures Run(scene, start, steps, t) && |t.syncs| > 0 && t.syncs[|t.syncs| - 1].user == user
      && t.syncs[|t.syncs| - 1].want == WantOf(scene, asserted)
    ensures HeldBy(t.authority, user) == {}
  {
    hide Run, Fresh, Asserts, WantOf, HeldBy;
    steps, t := TheLastSyncCanBeLost(scene, start, user, x, y, z, jtis, asserted, asserted, []);
  }

  lemma ThreeTokensAssert()
    ensures Asserts(ONE_GROUP, Token("x", [Str("g")]), "x", ["g"]) && Asserts(ONE_GROUP, Token("z", []), "z", [])
    ensures Asserts(ONE_GROUP, Token("y", [Str("g")]), "y", ["g"])
  {
    OneNameReads();
    hide Asserts, ReadNames, Token;
    ATokenAsserts("x", [Str("g")], ["g"]);
    ATokenAsserts("y", [Str("g")], ["g"]);
    ATokenAsserts("z", [], []);
  }

  /** An instance: three tokens of a user who holds nothing; the last sync to commit asserts the one group
    * there is, and the user holds nothing. */
  lemma ALastSyncIsLost(user: UserPk) returns (steps: seq<Step>, t: Database)
    ensures Fresh(NO_EPOCHS) && Run(ONE_GROUP, NO_EPOCHS, steps, t)
    ensures |t.syncs| > 0 && t.syncs[|t.syncs| - 1].user == user && t.syncs[|t.syncs| - 1].want.groups == {1}
    ensures HeldBy(t.authority, user) == {}
  {
    OneNameIsWanted();
    NobodyHoldsAnything(user);
    ThreeTokensAssert();
    hide Run, Fresh, Asserts, WantOf, Token, HeldBy;
    steps, t := TheLastSyncIsLostOnNothing(ONE_GROUP, NO_EPOCHS, user, Token("x", [Str("g")]), Token("y", [Str("g")]),
                                           Token("z", []), ("x", "y", "z"), ["g"]);
  }
}
