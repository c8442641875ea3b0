/** Bringing a user's groups and flags into line with a token, once for each credential
  * (`src/config/authorization/mapper.py`, `src/django_service/users/models.py`). */
module GroupSync {
  import opened Core
  import opened Text
  import opened Ordering
  import opened Claims
  import opened Usernames

  const JTI_LIMIT := 255

  type UserPk = nat
  type GroupPk = nat

  datatype Contract = Contract(groupClaim: string, staffGroup: string, superuserGroup: string)

  datatype SyncOutcome =
    SyncOutcome(added: seq<string>, removed: seq<string>, ignored: seq<string>, isStaff: bool, isSuperuser: bool)

  datatype Refusal = GroupClaimAbsent | NoJti | JtiTooLong | JtiReused

  // --------------------------------------------------------------------------- sorting by name

  /** Python's order of strings: by code point, a prefix first. */
  predicate Precedes(a: string, b: string) {
    a == "" || (b != "" && (a[0] < b[0] || (a[0] == b[0] && Precedes(a[1..], b[1..]))))
  }

  /** The two strings agree before position `k`; there the first ends, or has the lesser character. */
  ghost predicate LessAt(a: string, b: string, k: int) {
    && 0 <= k <= |a| && k <= |b| && a[..k] == b[..k]
    && (k == |a| || (k < |b| && a[k] < b[k]))
  }

  lemma {:induction false} PrecedesIsByCodePoint(a: string, b: string)
    ensures Precedes(a, b) <==> exists k :: LessAt(a, b, k)
  {
    if a == "" {
      assert LessAt(a, b, 0);
    } else if b != "" && a[0] == b[0] {
      PrecedesIsByCodePoint(a[1..], b[1..]);
      if k :| LessAt(a[1..], b[1..], k) {
        assert a[..k + 1] == [a[0]] + a[1..][..k] && b[..k + 1] == [b[0]] + b[1..][..k];
        assert LessAt(a, b, k + 1);
      }
      if k :| LessAt(a, b, k) {
        assert a[1..][..k - 1] == a[..k][1..] && b[1..][..k - 1] == b[..k][1..];
        assert LessAt(a[1..], b[1..], k - 1);
      }
    } else if b != "" {
      if a[0] < b[0] {
        assert LessAt(a, b, 0);
      }
      if k :| LessAt(a, b, k) {
        assert k > 0 ==> a[..k][0] == b[..k][0];
      }
    }
  }

  lemma {:induction false} PrecedesIsTotal(a: string, b: string)
    ensures Precedes(a, b) || Precedes(b, a)
    ensures Precedes(a, b) && Precedes(b, a) ==> a == b
  {
    if a != "" && b != "" {
      PrecedesIsTotal(a[1..], b[1..]);
      assert a == [a[0]] + a[1..] && b == [b[0]] + b[1..];
    }
  }

  lemma {:induction false} PrecedesIsTransitive(a: string, b: string, c: string)
    requires Precedes(a, b) && Precedes(b, c)
    ensures Precedes(a, c)
  {
    if a != "" && a[0] == b[0] && b[0] == c[0] {
      PrecedesIsTransitive(a[1..], b[1..], c[1..]);
    }
  }

  lemma NamesAreOrdered()
    ensures TotalOrder(Precedes)
  {
    forall a: string, b: string ensures Precedes(a, b) || Precedes(b, a) {
      PrecedesIsTotal(a, b);
    }
    forall a: string, b: string | Precedes(a, b) && Precedes(b, a) ensures a == b {
      PrecedesIsTotal(a, b);
    }
    forall a: string, b: string, c: string | Precedes(a, b) && Precedes(b, c) ensures Precedes(a, c) {
      PrecedesIsTransitive(a, b, c);
    }
  }

  function SortedNames(names: set<string>): (r: seq<string>)
    ensures Elements(r) == names && Distinct(r) && SortedBy(r, Precedes)
  {
    NamesAreOrdered();
    Sorted(names, Precedes)
  }

  // ------------------------------------------------------------------------------ one sync

  /** `Group.objects.filter(name__in=...)`: name to key, for the rows there are. */
  function Rows(groups: map<string, GroupPk>, names: seq<string>): map<string, GroupPk> {
    map n | n in groups && n in names :: groups[n]
  }

  /** `user.groups.values_list(...)`. */
  function HeldRows(groups: map<string, GroupPk>, held: set<GroupPk>): map<string, GroupPk> {
    map n | n in groups && groups[n] in held :: groups[n]
  }

  function In(rows: map<string, GroupPk>): string -> bool {
    name => name in rows
  }

  function NotIn(rows: map<string, GroupPk>): string -> bool {
    name => name !in rows
  }

  function KeysIn(rows: map<string, GroupPk>, names: seq<string>): set<GroupPk> {
    set n | n in names && n in rows :: rows[n]
  }

  /** Group names are unique, every membership is of a row that exists, and keys are not shared. */
  ghost predicate GroupsAreSound(groups: map<string, GroupPk>, held: set<GroupPk>) {
    && (forall m, n :: m in groups && n in groups && groups[m] == groups[n] ==> m == n)
    && held <= groups.Values
  }

  /** What the sync did, said as differences of the asserted, the existing and the held. */
  ghost predicate Describes(outcome: SyncOutcome, asserted: seq<string>, groups: map<string, GroupPk>,
                            held: set<GroupPk>, contract: Contract) {
    && InOrderOf(outcome.added, asserted) && InOrderOf(outcome.ignored, asserted)
    && (forall n :: n in outcome.added <==> n in asserted && n in groups && groups[n] !in held)
    && (forall n :: n in outcome.ignored <==> n in asserted && n !in groups)
    && (forall n :: n in outcome.removed <==> n !in asserted && n in groups && groups[n] in held)
    && Distinct(outcome.removed) && SortedBy(outcome.removed, Precedes)
    && (outcome.isStaff <==> contract.staffGroup in asserted && contract.staffGroup in groups)
    && (outcome.isSuperuser <==> contract.superuserGroup in asserted && contract.superuserGroup in groups)
  }

  /** Without duplicates, and in the order of first assertion. */
  ghost predicate InOrderOf(names: seq<string>, asserted: seq<string>) {
    && Distinct(names)
    && forall i, j :: 0 <= i < j < |names| ==> First(asserted, names[i]) < First(asserted, names[j])
  }

  function First(names: seq<string>, name: string): (k: nat)
    ensures k <= |names| && (k < |names| <==> name in names)
    ensures k < |names| ==> names[k] == name
    ensures forall j :: 0 <= j < k ==> names[j] != name
  {
    if names == [] || names[0] == name then 0 else 1 + First(names[1..], name)
  }

  lemma {:induction false} FilterKeepsOrder(xs: seq<string>, keep: string -> bool, of: seq<string>)
    requires InOrderOf(xs, of)
    ensures InOrderOf(Filter(xs, keep), of)
  {
    if xs != [] {
      FilterKeepsOrder(xs[1..], keep, of);
      var rest := Filter(xs[1..], keep);
      forall i | 0 <= i < |rest| ensures First(of, xs[0]) < First(of, rest[i]) {
        assert rest[i] in rest;
        var j :| 0 <= j < |xs[1..]| && xs[1..][j] == rest[i];
        assert xs[j + 1] == rest[i];
      }
    }
  }

  lemma {:induction false} DeduplicatedKeepsOrder(xs: seq<string>)
    ensures InOrderOf(Deduplicated(xs), xs)
  {
    if xs != [] {
      DeduplicatedKeepsOrder(xs[1..]);
      var rest := Deduplicated(xs[1..]);
      WithoutKeepsOrder(rest, xs[0], xs[1..]);
      var kept := Without(rest, xs[0]);
      forall i | 0 <= i < |kept| ensures kept[i] != xs[0] && First(xs, kept[i]) == 1 + First(xs[1..], kept[i]) {
        assert kept[i] in kept;
      }
      assert First(xs, xs[0]) == 0;
    }
  }

  lemma {:induction false} WithoutKeepsOrder(xs: seq<string>, x: string, of: seq<string>)
    requires InOrderOf(xs, of)
    ensures InOrderOf(Without(xs, x), of)
  {
    if xs != [] {
      WithoutKeepsOrder(xs[1..], x, of);
      var rest := Without(xs[1..], x);
      forall i | 0 <= i < |rest| ensures First(of, xs[0]) < First(of, rest[i]) {
        assert rest[i] in rest;
        var j :| 0 <= j < |xs[1..]| && xs[1..][j] == rest[i];
        assert xs[j + 1] == rest[i];
      }
    }
  }

  /** `sync_authorization`'s three tuples and two flags. */
  function OutcomeOf(asserted: seq<string>, groups: map<string, GroupPk>, held: set<GroupPk>,
                     contract: Contract): SyncOutcome {
    var resolved, holding := Rows(groups, asserted), HeldRows(groups, held);
    var ordered := Deduplicated(asserted);
    SyncOutcome(
      Filter(Filter(ordered, In(resolved)), NotIn(holding)),
      SortedNames(holding.Keys - resolved.Keys),
      Filter(ordered, NotIn(resolved)),
      contract.staffGroup in resolved, contract.superuserGroup in resolved)
  }

  lemma TheOutcomeDescribesTheSync(asserted: seq<string>, groups: map<string, GroupPk>, held: set<GroupPk>,
                                   contract: Contract)
    ensures Describes(OutcomeOf(asserted, groups, held, contract), asserted, groups, held, contract)
  {
    hide Filter, Deduplicated, InOrderOf, SortedBy, SortedNames, Rows, HeldRows, Distinct;
    AddedAndIgnored(asserted, Rows(groups, asserted), HeldRows(groups, held));
    RemovedAre(asserted, groups, held);
    RowsHold(asserted, groups, held);
  }

  lemma RemovedAre(asserted: seq<string>, groups: map<string, GroupPk>, held: set<GroupPk>)
    ensures var removed := SortedNames(HeldRows(groups, held).Keys - Rows(groups, asserted).Keys);
      && Distinct(removed) && SortedBy(removed, Precedes)
      && forall n :: n in removed <==> n !in asserted && n in groups && groups[n] in held
  {
    hide Distinct, SortedBy, SortedNames;
    var removed := SortedNames(HeldRows(groups, held).Keys - Rows(groups, asserted).Keys);
    RowsHold(asserted, groups, held);
    forall n ensures n in removed <==> n in Elements(removed) {
    }
  }

  lemma RowsHold(asserted: seq<string>, groups: map<string, GroupPk>, held: set<GroupPk>)
    ensures forall n :: n in Rows(groups, asserted) <==> n in groups && n in asserted
    ensures forall n :: n in HeldRows(groups, held) <==> n in groups && groups[n] in held
  {
  }

  lemma AddedAndIgnored(asserted: seq<string>, resolved: map<string, GroupPk>, holding: map<string, GroupPk>)
    ensures var ordered := Deduplicated(asserted);
      var added, ignored := Filter(Filter(ordered, In(resolved)), NotIn(holding)), Filter(ordered, NotIn(resolved));
      && InOrderOf(added, asserted) && InOrderOf(ignored, asserted)
      && (forall n :: n in added <==> n in asserted && n in resolved && n !in holding)
      && (forall n :: n in ignored <==> n in asserted && n !in resolved)
  {
    hide InOrderOf;
    var ordered := Deduplicated(asserted);
    DeduplicatedKeepsOrder(asserted);
    FilterKeepsOrder(ordered, NotIn(resolved), asserted);
    FilterKeepsOrder(ordered, In(resolved), asserted);
    FilterKeepsOrder(Filter(ordered, In(resolved)), NotIn(holding), asserted);
  }

  /** Adding the missing and removing the revoked leaves exactly the asserted groups that exist. */
  lemma TheDifferencesAddUp(asserted: seq<string>, groups: map<string, GroupPk>, held: set<GroupPk>, contract: Contract)
    requires GroupsAreSound(groups, held)
    ensures var outcome := OutcomeOf(asserted, groups, held, contract);
      held + KeysIn(Rows(groups, asserted), outcome.added) - KeysIn(HeldRows(groups, held), outcome.removed)
      == Rows(groups, asserted).Values
  {
    hide OutcomeOf;
    TheOutcomeDescribesTheSync(asserted, groups, held, contract);
    var outcome := OutcomeOf(asserted, groups, held, contract);
    var resolved, holding := Rows(groups, asserted), HeldRows(groups, held);
    var after := held + KeysIn(resolved, outcome.added) - KeysIn(holding, outcome.removed);
    forall pk ensures pk in after <==> pk in resolved.Values {
      if pk in resolved.Values {
        var n :| n in resolved && resolved[n] == pk;
        if pk !in held { assert n in outcome.added; }
        assert pk !in KeysIn(holding, outcome.removed);
      }
      if pk in after && pk in held {
        var n :| n in groups && groups[n] == pk;
        assert n in holding;
        assert n !in outcome.removed;
        assert n in resolved;
      }
    }
  }

  /** What asserted names come to: exactly the groups of those names that exist, and each flag exactly when
    * its designated group is one of them. */
  ghost predicate Confers(groups: map<string, GroupPk>, asserted: seq<string>, contract: Contract,
                          held: set<GroupPk>, isStaff: bool, isSuperuser: bool) {
    && (forall pk :: pk in held <==> exists n :: n in asserted && n in groups && groups[n] == pk)
    && (isStaff <==> contract.staffGroup in asserted && contract.staffGroup in groups)
    && (isSuperuser <==> contract.superuserGroup in asserted && contract.superuserGroup in groups)
  }

  lemma RowsConfer(asserted: seq<string>, groups: map<string, GroupPk>, contract: Contract)
    ensures Confers(groups, asserted, contract, Rows(groups, asserted).Values,
                    contract.staffGroup in Rows(groups, asserted), contract.superuserGroup in Rows(groups, asserted))
  {
    var rows := Rows(groups, asserted);
    forall pk ensures pk in rows.Values <==> exists n :: n in asserted && n in groups && groups[n] == pk {
      if n :| n in asserted && n in groups && groups[n] == pk {
        assert n in rows && rows[n] == pk;
      }
    }
  }

  lemma SameFlags(asserted: seq<string>, groups: map<string, GroupPk>, held: set<GroupPk>, contract: Contract)
    ensures var outcome := OutcomeOf(asserted, groups, held, contract);
      && (outcome.isStaff <==> contract.staffGroup in Rows(groups, asserted))
      && (outcome.isSuperuser <==> contract.superuserGroup in Rows(groups, asserted))
  {
  }

  lemma AssertedRowsAreSound(asserted: seq<string>, groups: map<string, GroupPk>, held: set<GroupPk>)
    requires GroupsAreSound(groups, held)
    ensures GroupsAreSound(groups, Rows(groups, asserted).Values)
  {
  }

  /** Which ending a call of the gate has, for every input: the refusal, the first sync, or nothing to do. */
  ghost predicate GateEnds(epochs: map<string, UserPk>, user: UserPk, claims: Payload, groupClaim: string,
                           refusal: Option<Refusal>, synced: bool)
  {
    var jti := ReadText(claims, "jti");
    var storable := 0 < |jti| <= 255;
    && (refusal == Some(NoJti) <==> jti == "")
    && (refusal == Some(JtiTooLong) <==> |jti| > 255)
    && (refusal == Some(JtiReused) <==> storable && jti in epochs && epochs[jti] != user)
    && (refusal == Some(GroupClaimAbsent) <==> storable && jti !in epochs && ReadGroupClaim(claims, groupClaim).None?)
    && (synced <==> storable && jti !in epochs && ReadGroupClaim(claims, groupClaim).Some?)
  }

  /** The tables a sync and its gate read and write. */
  class Authorization {
    var groups: map<string, GroupPk>
    var held: map<UserPk, set<GroupPk>>
    var staff: set<UserPk>
    var superusers: set<UserPk>
    var epochs: map<string, UserPk>

    ghost predicate Valid()
      reads this
    {
      forall u :: u in held ==> GroupsAreSound(groups, held[u])
    }

    constructor (groups: map<string, GroupPk>)
      ensures this.groups == groups && held == map[] && staff == {} && superusers == {} && epochs == map[]
    {
      this.groups := groups;
      held, staff, superusers, epochs := map[], {}, {}, map[];
    }

    /** The writes of one sync: what to add, what to remove, and both flags, set or cleared. */
    method Apply(user: UserPk, added: set<GroupPk>, removed: set<GroupPk>, isStaff: bool, isSuperuser: bool)
      requires user in held
      modifies `held, `staff, `superusers
      ensures held == old(held)[user := old(held)[user] + added - removed]
      ensures staff == (if isStaff then old(staff) + {user} else old(staff) - {user})
      ensures superusers == (if isSuperuser then old(superusers) + {user} else old(superusers) - {user})
    {
      held := held[user := held[user] + added];
      held := held[user := held[user] - removed];
      staff := if isStaff then staff + {user} else staff - {user};
      superusers := if isSuperuser then superusers + {user} else superusers - {user};
    }

    /** `sync_authorization`. Only this user's memberships and flags change, the group table never does,
      * and a refused claim changes nothing. */
    method SyncAuthorization(user: UserPk, claims: Payload, contract: Contract)
      returns (r: Result<SyncOutcome, Refusal>)
      requires Valid() && user in held
      modifies `held, `staff, `superusers
      ensures Valid()
      ensures var asserted := ReadGroupClaim(claims, contract.groupClaim);
        if asserted.None? then r == Failure(GroupClaimAbsent) && held == old(held) && staff == old(staff)
          && superusers == old(superusers)
        else
          && r.Success? && Describes(r.value, asserted.value, groups, old(held)[user], contract)
          && held == old(held)[user := Rows(groups, asserted.value).Values]
          && staff == (if r.value.isStaff then old(staff) + {user} else old(staff) - {user})
          && superusers == (if r.value.isSuperuser then old(superusers) + {user} else old(superusers) - {user})
          && Confers(groups, asserted.value, contract, held[user], user in staff, user in superusers)
      ensures forall names :: ListsNames(claims, contract.groupClaim, names) ==>
        r.Success? && Confers(groups, names, contract, held[user], user in staff, user in superusers)
    {
      ghost var claimed := ReadGroupClaim(claims, contract.groupClaim);
      forall names | ListsNames(claims, contract.groupClaim, names) ensures claimed == Some(names) {
        AListedClaimIsRead(claims, contract.groupClaim, names);
      }
      hide ReadGroupClaim, ListsNames, Confers;
      var asserted := ReadGroupClaim(claims, contract.groupClaim);
      if asserted.None? {
        return Failure(GroupClaimAbsent);
      }
      hide OutcomeOf, Describes, Rows, HeldRows, KeysIn, GroupsAreSound;
      var resolved, holding := Rows(groups, asserted.value), HeldRows(groups, held[user]);
      var outcome := OutcomeOf(asserted.value, groups, held[user], contract);
      TheOutcomeDescribesTheSync(asserted.value, groups, held[user], contract);
      TheDifferencesAddUp(asserted.value, groups, held[user], contract);
      Apply(user, KeysIn(resolved, outcome.added), KeysIn(holding, outcome.removed), outcome.isStaff,
            outcome.isSuperuser);
      AssertedRowsAreSound(asserted.value, groups, old(held)[user]);
      RowsConfer(asserted.value, groups, contract);
      SameFlags(asserted.value, groups, old(held)[user], contract);
      r := Success(outcome);
    }

    /** `sync_once_per_epoch`. The epoch row and the sync are one transaction: both, or neither. */
    method SyncOncePerEpoch(user: UserPk, claims: Payload, contract: Contract)
      returns (r: Result<Option<SyncOutcome>, Refusal>)
      requires Valid() && user in held
      modifies `held, `staff, `superusers, `epochs
      ensures Valid()
      ensures GateEnds(old(epochs), user, claims, contract.groupClaim,
                       if r.Failure? then Some(r.error) else None, r.Success? && r.value.Some?)
      ensures r.Failure? || r.value.None? ==>
        epochs == old(epochs) && held == old(held) && staff == old(staff) && superusers == old(superusers)
      ensures r.Success? && r.value.Some? ==>
        var asserted := ReadGroupClaim(claims, contract.groupClaim);
        && epochs == old(epochs)[ReadText(claims, "jti") := user] && ReadText(claims, "jti") !in old(epochs)
        && asserted.Some? && held == old(held)[user := Rows(groups, asserted.value).Values]
        && staff == (if r.value.value.isStaff then old(staff) + {user} else old(staff) - {user})
        && superusers == (if r.value.value.isSuperuser then old(superusers) + {user} else old(superusers) - {user})
        && Describes(r.value.value, asserted.value, groups, old(held)[user], contract)
        && Confers(groups, asserted.value, contract, held[user], user in staff, user in superusers)
    {
      hide Confers, ListsNames;
      hide Describes, Rows, ReadGroupClaim, ReadText, GroupsAreSound;
      var jti := ReadText(claims, "jti");
      if jti == "" {
        return Failure(NoJti);
      }
      if |jti| > JTI_LIMIT {
        return Failure(JtiTooLong);
      }
      if jti in epochs {
        return if epochs[jti] == user then Success(None) else Failure(JtiReused);
      }
      var savepoint := epochs;
      epochs := epochs[jti := user];
      var synced := SyncAuthorization(user, claims, contract);
      if synced.Failure? {
        epochs := savepoint;
        return Failure(synced.error);
      }
      r := Success(Some(synced.value));
    }
  }

  /** A second sync of the same claims finds nothing to add or to remove, and asserts the same flags. */
  lemma ASecondSyncChangesNothing(asserted: seq<string>, groups: map<string, GroupPk>, held: set<GroupPk>,
                                  contract: Contract,
                                  first: SyncOutcome, second: SyncOutcome)
    requires GroupsAreSound(groups, held)
    requires Describes(first, asserted, groups, held, contract)
    requires Describes(second, asserted, groups, Rows(groups, asserted).Values, contract)
    ensures second.added == [] && second.removed == []
    ensures second.isStaff == first.isStaff && second.isSuperuser == first.isSuperuser
    ensures forall n :: n in second.ignored <==> n in first.ignored
  {
    var resolved := Rows(groups, asserted);
    forall n | n in groups ensures groups[n] in resolved.Values <==> n in asserted {
      HeldAfterwards(asserted, groups, held, n);
    }
    NothingIn(second.added);
    NothingIn(second.removed);
  }

  lemma HeldAfterwards(asserted: seq<string>, groups: map<string, GroupPk>, held: set<GroupPk>, n: string)
    requires GroupsAreSound(groups, held) && n in groups
    ensures groups[n] in Rows(groups, asserted).Values <==> n in asserted
  {
    var resolved := Rows(groups, asserted);
    if n in asserted {
      assert n in resolved;
    }
    if groups[n] in resolved.Values {
      var m :| m in resolved && resolved[m] == groups[n];
    }
  }

  lemma NothingIn(names: seq<string>)
    requires forall n :: n !in names
    ensures names == []
  {
    SomethingOrNothing(names);
  }

  lemma SomethingOrNothing(names: seq<string>)
    ensures names == [] || exists n :: n in names
  {
    if names != [] {
      assert names[0] in names;
    }
  }

  /** The description leaves no choice: two outcomes it fits are the same. */
  lemma TheOutcomeIsUnique(a: SyncOutcome, b: SyncOutcome, asserted: seq<string>, groups: map<string, GroupPk>,
                           held: set<GroupPk>,
                           contract: Contract)
    requires Describes(a, asserted, groups, held, contract) && Describes(b, asserted, groups, held, contract)
    ensures a == b
  {
    OneOrder(a.added, b.added, asserted);
    OneOrder(a.ignored, b.ignored, asserted);
    OneSorting(a.removed, b.removed);
  }

  lemma {:induction false} OneOrder(xs: seq<string>, ys: seq<string>, of: seq<string>)
    requires InOrderOf(xs, of) && InOrderOf(ys, of) && forall n :: n in xs <==> n in ys
    ensures xs == ys
  {
    if xs == [] {
      NothingIn(ys);
    } else {
      assert xs[0] in ys;
      var j :| 0 <= j < |ys| && ys[j] == xs[0];
      assert ys[0] in xs;
      var i :| 0 <= i < |xs| && xs[i] == ys[0];
      assert i == 0 && j == 0;
      forall n ensures n in xs[1..] <==> n in ys[1..] {
        TailHas(xs, n);
        TailHas(ys, n);
      }
      OneOrder(xs[1..], ys[1..], of);
    }
  }

  lemma TailHas(xs: seq<string>, n: string)
    requires xs != [] && Distinct(xs)
    ensures n in xs[1..] <==> n in xs && n != xs[0]
  {
    if n in xs && n != xs[0] {
      var i :| 0 <= i < |xs| && xs[i] == n;
      assert xs[1..][i - 1] == n;
    }
  }

  lemma {:induction false} OneSorting(xs: seq<string>, ys: seq<string>)
    requires Distinct(xs) && Distinct(ys) && SortedBy(xs, Precedes) && SortedBy(ys, Precedes)
    requires forall n :: n in xs <==> n in ys
    ensures xs == ys
  {
    if xs == [] {
      NothingIn(ys);
    } else {
      assert xs[0] in ys;
      var j :| 0 <= j < |ys| && ys[j] == xs[0];
      assert ys[0] in xs;
      var i :| 0 <= i < |xs| && xs[i] == ys[0];
      PrecedesIsTotal(xs[0], ys[0]);
      assert Precedes(xs[0], xs[i]) && Precedes(ys[0], ys[j]);
      forall n ensures n in xs[1..] <==> n in ys[1..] {
        TailHas(xs, n);
        TailHas(ys, n);
      }
      OneSorting(xs[1..], ys[1..]);
    }
  }
}
