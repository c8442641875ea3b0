/** The walk of a resolved URL configuration (`_walk` in `startup/stage_two.py`): a depth-first
  * traversal of a possibly cyclic graph of resolvers with one shared, mutable `seen` set. */
module UrlWalk {
  import opened Core
  import opened ViewCandidates

  type Rid = nat

  /** An include's pattern is that of the resolver it leads to, repeated at every place that lists it. */
  datatype Entry = Include(pattern: string, target: Rid) | View(pattern: string, callback: Id)

  type Urlconf = map<Rid, seq<Entry>>

  /** Every `include()` leads to a resolver of the configuration. */
  predicate WellLinked(conf: Urlconf) {
    forall r :: r in conf ==> forall e :: e in conf[r] && e.Include? ==> e.target in conf
  }

  type Yield = (string, Id)

  /** The resolvers expanded, each with the prefix it was reached under, and what was yielded. */
  datatype Walked = Walked(seen: set<Rid>, expanded: seq<(Rid, string)>, yielded: seq<Yield>)

  function Routed(route: string, candidates: seq<Id>): seq<Yield> {
    if candidates == [] then [] else [(route, candidates[0])] + Routed(route, candidates[1..])
  }

  function Walk(conf: Urlconf, heap: Heap, r: Rid, prefix: string, seen: set<Rid>): (w: Walked)
    requires WellLinked(conf) && r in conf
    ensures seen <= w.seen
    decreases conf.Keys - seen, 0
  {
    if r in seen then Walked(seen, [], [])
    else
      var w := WalkEntries(conf, heap, conf[r], prefix, seen + {r});
      w.(expanded := [(r, prefix)] + w.expanded)
  }

  function WalkEntries(conf: Urlconf, heap: Heap, entries: seq<Entry>, prefix: string, seen: set<Rid>): (w: Walked)
    requires WellLinked(conf) && forall e :: e in entries && e.Include? ==> e.target in conf
    ensures seen <= w.seen
    decreases conf.Keys - seen, |entries| + 1
  {
    if entries == [] then Walked(seen, [], [])
    else
      var route := prefix + entries[0].pattern;
      var first := if entries[0].Include?
        then Walk(conf, heap, entries[0].target, route, seen)
        else Walked(seen, [], Routed(route, Candidates(heap, entries[0].callback)));
      var rest := WalkEntries(conf, heap, entries[1..], prefix, first.seen);
      Walked(rest.seen, first.expanded + rest.expanded, first.yielded + rest.yielded)
  }

  /** The set every level of the recursion shares, and what has been yielded so far. */
  class Traversal {
    var seen: set<Rid>
    var yielded: seq<Yield>

    constructor ()
      ensures seen == {} && yielded == []
    {
      seen, yielded := {}, [];
    }

    method Descend(conf: Urlconf, heap: Heap, resolver: Rid, prefix: string)
      requires WellLinked(conf) && resolver in conf
      modifies this
      ensures var w := Walk(conf, heap, resolver, prefix, old(seen));
        seen == w.seen && yielded == old(yielded) + w.yielded
      decreases conf.Keys - seen
    {
      if resolver in seen {
        return;
      }
      seen := seen + {resolver};
      var entries := conf[resolver];
      ghost var all := WalkEntries(conf, heap, entries, prefix, seen);
      ghost var goal := yielded + all.yielded;
      var i := 0;
      assert entries[0..] == entries;
      while i < |entries|
        invariant 0 <= i <= |entries|
        invariant old(seen) + {resolver} <= seen
        invariant Continues(WalkEntries(conf, heap, entries[i..], prefix, seen), yielded, all.seen, goal)
      {
        var entry := entries[i];
        var route := prefix + entry.pattern;
        EntriesNext(conf, heap, entries, i, prefix, seen, yielded, all.seen, goal);
        match entry {
          case Include(_, target) =>
            Descend(conf, heap, target, route);
          case View(_, callback) =>
            var candidates := CollectCandidates(heap, callback);
            yielded := yielded + Routed(route, candidates);
        }
        i := i + 1;
      }
      assert entries[i..] == [];
    }
  }

  /** What is left of a walk, after what has been seen and yielded, comes to the whole. */
  ghost predicate Continues(rest: Walked, yielded: seq<Yield>, allSeen: set<Rid>, goal: seq<Yield>) {
    rest.seen == allSeen && yielded + rest.yielded == goal
  }

  lemma EntriesNext(conf: Urlconf, heap: Heap, entries: seq<Entry>, i: nat, prefix: string, seen: set<Rid>,
                    yielded: seq<Yield>, allSeen: set<Rid>, goal: seq<Yield>)
    requires WellLinked(conf) && i < |entries| && forall e :: e in entries && e.Include? ==> e.target in conf
    requires Continues(WalkEntries(conf, heap, entries[i..], prefix, seen), yielded, allSeen, goal)
    ensures var route := prefix + entries[i].pattern;
      var first := if entries[i].Include?
        then Walk(conf, heap, entries[i].target, route, seen)
        else Walked(seen, [], Routed(route, Candidates(heap, entries[i].callback)));
      Continues(WalkEntries(conf, heap, entries[i + 1..], prefix, first.seen), yielded + first.yielded, allSeen, goal)
  {
    var rest := entries[i..];
    assert rest[0] == entries[i] && rest[1..] == entries[i + 1..];
    var route := prefix + entries[i].pattern;
    var first := if entries[i].Include?
      then Walk(conf, heap, entries[i].target, route, seen)
      else Walked(seen, [], Routed(route, Candidates(heap, entries[i].callback)));
    var after := WalkEntries(conf, heap, entries[i + 1..], prefix, first.seen);
    assert yielded + (first.yielded + after.yielded) == yielded + first.yielded + after.yielded;
  }

  /** `_iter_view_callables`: the walk from the root, with nothing seen. */
  method IterViewCallables(conf: Urlconf, heap: Heap, root: Rid) returns (yielded: seq<Yield>)
    requires WellLinked(conf) && root in conf
    ensures yielded == Walk(conf, heap, root, "", {}).yielded
  {
    var t := new Traversal();
    t.Descend(conf, heap, root, "");
    yielded := t.yielded;
  }

  // ------------------------------------------------------------------------------- real paths

  /** `steps` is a chain of includes leading from `r` to `n`. */
  ghost predicate Leads(conf: Urlconf, r: Rid, steps: seq<Entry>, n: Rid)
    decreases |steps|
  {
    if steps == [] then r == n
    else r in conf && steps[0] in conf[r] && steps[0].Include? && Leads(conf, steps[0].target, steps[1..], n)
  }

  /** The concatenation of the patterns along a path. */
  function Route(steps: seq<Entry>): string {
    if steps == [] then "" else steps[0].pattern + Route(steps[1..])
  }

  ghost predicate Reachable(conf: Urlconf, r: Rid, n: Rid) {
    exists steps :: Leads(conf, r, steps, n)
  }

  ghost predicate ReachedBy(conf: Urlconf, r: Rid, prefix: string, n: Rid, route: string) {
    exists steps :: Leads(conf, r, steps, n) && route == prefix + Route(steps)
  }

  lemma {:induction false} LeadsOn(conf: Urlconf, r: Rid, steps: seq<Entry>, n: Rid, e: Entry)
    requires Leads(conf, r, steps, n) && n in conf && e in conf[n] && e.Include?
    ensures Leads(conf, r, steps + [e], e.target)
    decreases |steps|
  {
    if steps == [] {
      assert steps + [e] == [e];
    } else {
      LeadsOn(conf, steps[0].target, steps[1..], n, e);
      assert (steps + [e])[1..] == steps[1..] + [e];
    }
  }

  lemma {:induction false} RouteOn(steps: seq<Entry>, e: Entry)
    ensures Route(steps + [e]) == Route(steps) + e.pattern
  {
    if steps == [] {
      assert steps + [e] == [e];
    } else {
      RouteOn(steps[1..], e);
      assert (steps + [e])[1..] == steps[1..] + [e];
    }
  }

  // ----------------------------------------------------------- what one walk does to the set

  function Nodes(expanded: seq<(Rid, string)>): seq<Rid> {
    if expanded == [] then [] else [expanded[0].0] + Nodes(expanded[1..])
  }

  lemma {:induction false} NodesAppend(a: seq<(Rid, string)>, b: seq<(Rid, string)>)
    ensures Nodes(a + b) == Nodes(a) + Nodes(b)
  {
    if a == [] {
      assert a + b == b;
    } else {
      NodesAppend(a[1..], b);
      assert (a + b)[1..] == a[1..] + b;
    }
  }

  ghost predicate TargetsIn(entries: seq<Entry>, seen: set<Rid>) {
    forall e :: e in entries && e.Include? ==> e.target in seen
  }

  /** A walk adds exactly the resolvers it expands, each once, and everything it expands has all of
    * its includes in the set afterwards. */
  ghost predicate Explores(conf: Urlconf, seen: set<Rid>, w: Walked) {
    && Distinct(Nodes(w.expanded))
    && (forall n :: n in Nodes(w.expanded) ==> n !in seen && n in conf)
    && w.seen == seen + Elements(Nodes(w.expanded))
    && (forall n :: n in w.seen && n !in seen ==> n in conf && TargetsIn(conf[n], w.seen))
  }

  lemma {:induction false} WalkExplores(conf: Urlconf, heap: Heap, r: Rid, prefix: string, seen: set<Rid>)
    requires WellLinked(conf) && r in conf
    ensures var w := Walk(conf, heap, r, prefix, seen); Explores(conf, seen, w) && r in w.seen
    decreases conf.Keys - seen, 0
  {
    if r !in seen {
      WalkEntriesExplores(conf, heap, conf[r], prefix, seen + {r});
      var inner := WalkEntries(conf, heap, conf[r], prefix, seen + {r});
      DistinctCons(r, Nodes(inner.expanded));
      assert ([(r, prefix)] + inner.expanded)[1..] == inner.expanded;
      assert forall n :: n in Nodes(inner.expanded) <==> n in Elements(Nodes(inner.expanded));
    }
  }

  lemma {:induction false} WalkEntriesExplores(conf: Urlconf, heap: Heap, entries: seq<Entry>, prefix: string,
                                               seen: set<Rid>)
    requires WellLinked(conf) && forall e :: e in entries && e.Include? ==> e.target in conf
    ensures var w := WalkEntries(conf, heap, entries, prefix, seen);
      Explores(conf, seen, w) && TargetsIn(entries, w.seen)
    decreases conf.Keys - seen, |entries| + 1
  {
    if entries != [] {
      var route := prefix + entries[0].pattern;
      var first := if entries[0].Include?
        then Walk(conf, heap, entries[0].target, route, seen)
        else Walked(seen, [], Routed(route, Candidates(heap, entries[0].callback)));
      if entries[0].Include? {
        WalkExplores(conf, heap, entries[0].target, route, seen);
      }
      WalkEntriesExplores(conf, heap, entries[1..], prefix, first.seen);
      ExploresThen(conf, seen, first, WalkEntries(conf, heap, entries[1..], prefix, first.seen));
      assert forall e :: e in entries ==> e == entries[0] || e in entries[1..];
    }
  }

  lemma ExploresThen(conf: Urlconf, seen: set<Rid>, first: Walked, rest: Walked)
    requires Explores(conf, seen, first) && Explores(conf, first.seen, rest)
    ensures Explores(conf, seen, Walked(rest.seen, first.expanded + rest.expanded, first.yielded + rest.yielded))
  {
    var a, b := Nodes(first.expanded), Nodes(rest.expanded);
    NodesAppend(first.expanded, rest.expanded);
    assert forall n :: n in a <==> n in Elements(a);
    assert forall i, j :: 0 <= i < |a| && 0 <= j < |b| ==> a[i] != b[j] by {
      forall i, j | 0 <= i < |a| && 0 <= j < |b| ensures a[i] != b[j] {
        assert a[i] in a && b[j] in b;
      }
    }
    DistinctAppend(a, b);
    assert Elements(a + b) == Elements(a) + Elements(b);
  }

  // ------------------------------------------------------------ where the expansions come from

  lemma {:induction false} ExpansionsAreReached(conf: Urlconf, heap: Heap, root: Rid, r: Rid, prefix: string,
                                                seen: set<Rid>)
    requires WellLinked(conf) && r in conf && ReachedBy(conf, root, "", r, prefix)
    ensures forall x :: x in Walk(conf, heap, r, prefix, seen).expanded ==> ReachedBy(conf, root, "", x.0, x.1)
    decreases conf.Keys - seen, 0
  {
    if r !in seen {
      EntryExpansionsAreReached(conf, heap, root, r, conf[r], prefix, seen + {r});
    }
  }

  lemma {:induction false} EntryExpansionsAreReached(conf: Urlconf, heap: Heap, root: Rid, r: Rid, entries: seq<Entry>,
                                                     prefix: string, seen: set<Rid>)
    requires WellLinked(conf) && r in conf && ReachedBy(conf, root, "", r, prefix)
    requires forall e :: e in entries ==> e in conf[r]
    ensures forall x :: x in WalkEntries(conf, heap, entries, prefix, seen).expanded ==>
      ReachedBy(conf, root, "", x.0, x.1)
    decreases conf.Keys - seen, |entries| + 1
  {
    if entries != [] {
      var e := entries[0];
      var route := prefix + e.pattern;
      var first := if e.Include? then Walk(conf, heap, e.target, route, seen)
                   else Walked(seen, [], Routed(route, Candidates(heap, e.callback)));
      if e.Include? {
        var steps :| Leads(conf, root, steps, r) && prefix == "" + Route(steps);
        LeadsOn(conf, root, steps, r, e);
        RouteOn(steps, e);
        ExpansionsAreReached(conf, heap, root, e.target, route, seen);
      }
      EntryExpansionsAreReached(conf, heap, root, r, entries[1..], prefix, first.seen);
    }
  }

  // ------------------------------------------------------------------ what an expansion yielded

  /** What one resolver contributes by itself: each of its views, under its own prefix. */
  function Local(heap: Heap, entries: seq<Entry>, prefix: string): seq<Yield> {
    if entries == [] then []
    else if entries[0].Include? then Local(heap, entries[1..], prefix)
    else Routed(prefix + entries[0].pattern, Candidates(heap, entries[0].callback)) + Local(heap, entries[1..], prefix)
  }

  /** What one expansion contributes, in no order. */
  ghost function Own(conf: Urlconf, heap: Heap, x: (Rid, string)): multiset<Yield> {
    if x.0 in conf then multiset(Local(heap, conf[x.0], x.1)) else multiset{}
  }

  ghost function Contributions(conf: Urlconf, heap: Heap, expanded: seq<(Rid, string)>): multiset<Yield> {
    if expanded == [] then multiset{} else Own(conf, heap, expanded[0]) + Contributions(conf, heap, expanded[1..])
  }

  lemma {:induction false} ContributionsAppend(conf: Urlconf, heap: Heap, a: seq<(Rid, string)>, b: seq<(Rid, string)>)
    ensures Contributions(conf, heap, a + b) == Contributions(conf, heap, a) + Contributions(conf, heap, b)
  {
    hide Own;
    if a == [] {
      assert a + b == b;
    } else {
      ContributionsAppend(conf, heap, a[1..], b);
      assert (a + b)[1..] == a[1..] + b;
    }
  }

  /** The yielded are exactly the expanded resolvers' own, each expansion's once. */
  lemma {:induction false} YieldsAreTheContributions(conf: Urlconf, heap: Heap, r: Rid, prefix: string, seen: set<Rid>)
    requires WellLinked(conf) && r in conf
    ensures var w := Walk(conf, heap, r, prefix, seen); multiset(w.yielded) == Contributions(conf, heap, w.expanded)
    decreases conf.Keys - seen, 0
  {
    if r !in seen {
      var inner := WalkEntries(conf, heap, conf[r], prefix, seen + {r});
      EntryYieldsAreTheContributions(conf, heap, conf[r], prefix, seen + {r});
      assert ([(r, prefix)] + inner.expanded)[1..] == inner.expanded;
    }
  }

  lemma {:induction false} EntryYieldsAreTheContributions(conf: Urlconf, heap: Heap, entries: seq<Entry>,
                                                          prefix: string, seen: set<Rid>)
    requires WellLinked(conf) && forall e :: e in entries && e.Include? ==> e.target in conf
    ensures var w := WalkEntries(conf, heap, entries, prefix, seen);
      multiset(w.yielded) == multiset(Local(heap, entries, prefix)) + Contributions(conf, heap, w.expanded)
    decreases conf.Keys - seen, |entries| + 1
  {
    hide Candidates, Own, Routed, Contributions;
    if entries == [] {
      NothingContributes(conf, heap);
    } else {
      var e := entries[0];
      var route := prefix + e.pattern;
      var first := if e.Include? then Walk(conf, heap, e.target, route, seen)
                   else Walked(seen, [], Routed(route, Candidates(heap, e.callback)));
      if e.Include? {
        YieldsAreTheContributions(conf, heap, e.target, route, seen);
      } else {
        NothingContributes(conf, heap);
      }
      var rest := WalkEntries(conf, heap, entries[1..], prefix, first.seen);
      EntryYieldsAreTheContributions(conf, heap, entries[1..], prefix, first.seen);
      ContributionsAppend(conf, heap, first.expanded, rest.expanded);
    }
  }

  lemma NothingContributes(conf: Urlconf, heap: Heap)
    ensures Contributions(conf, heap, []) == multiset{}
  {
  }

  // --------------------------------------------------------------------------- main theorems

  /** The walk expands every resolver reachable from the root, each exactly once and under a real
    * path's prefix, and no other; self-includes and cycles of includes change nothing. */
  lemma TheWalkExpandsWhatIsReachable(conf: Urlconf, heap: Heap, root: Rid)
    requires WellLinked(conf) && root in conf
    ensures var w := Walk(conf, heap, root, "", {});
      && Distinct(Nodes(w.expanded))
      && (forall n :: n in Nodes(w.expanded) <==> Reachable(conf, root, n))
      && (forall x :: x in w.expanded ==> x.0 in conf && ReachedBy(conf, root, "", x.0, x.1))
  {
    var w := Walk(conf, heap, root, "", {});
    WalkExplores(conf, heap, root, "", {});
    assert Leads(conf, root, [], root) && "" == "" + Route([]);
    ExpansionsAreReached(conf, heap, root, root, "", {});
    assert forall n :: n in Nodes(w.expanded) <==> n in Elements(Nodes(w.expanded));
    forall n | Reachable(conf, root, n) ensures n in Nodes(w.expanded) {
      var steps :| Leads(conf, root, steps, n);
      ClosedSetsHoldWhatTheyLeadTo(conf, w.seen, root, steps, n);
    }
    NodesAreExpanded(w.expanded);
    forall n | n in Nodes(w.expanded) ensures Reachable(conf, root, n) {
      var x :| x in w.expanded && x.0 == n;
      assert ReachedBy(conf, root, "", x.0, x.1);
    }
  }

  lemma {:induction false} NodesAreExpanded(expanded: seq<(Rid, string)>)
    ensures forall n :: n in Nodes(expanded) <==> exists x :: x in expanded && x.0 == n
  {
    if expanded != [] {
      NodesAreExpanded(expanded[1..]);
      assert expanded == [expanded[0]] + expanded[1..];
    }
  }

  lemma {:induction false} ClosedSetsHoldWhatTheyLeadTo(conf: Urlconf, closed: set<Rid>, r: Rid, steps: seq<Entry>,
                                                        n: Rid)
    requires Leads(conf, r, steps, n) && r in closed
    requires forall m :: m in closed ==> m in conf && TargetsIn(conf[m], closed)
    ensures n in closed
    decreases |steps|
  {
    if steps != [] {
      ClosedSetsHoldWhatTheyLeadTo(conf, closed, steps[0].target, steps[1..], n);
    }
  }

  /** What is yielded: exactly the recognizable objects of the views routed beneath a reachable
    * resolver, each under the concatenation of patterns along a real path to it. */
  lemma TheYieldsAreTheRoutedViews(conf: Urlconf, heap: Heap, root: Rid)
    requires WellLinked(conf) && root in conf
    ensures forall y :: y in Walk(conf, heap, root, "", {}).yielded ==> RoutedAt(conf, heap, root, y.0, y.1)
    ensures forall c: Id :: RoutedSomewhere(conf, heap, root, c) <==> Yielded(Walk(conf, heap, root, "", {}).yielded, c)
  {
    var w := Walk(conf, heap, root, "", {});
    forall y | y in w.yielded ensures RoutedAt(conf, heap, root, y.0, y.1) {
      YieldedIsRouted(conf, heap, root, y);
    }
    forall c: Id | RoutedSomewhere(conf, heap, root, c) ensures Yielded(w.yielded, c) {
      RoutedIsYielded(conf, heap, root, c);
    }
    forall c: Id | Yielded(w.yielded, c) ensures RoutedSomewhere(conf, heap, root, c) {
      var y :| y in w.yielded && y.1 == c;
      YieldedIsRouted(conf, heap, root, y);
    }
  }

  ghost predicate Yielded(yielded: seq<Yield>, c: Id) {
    exists y :: y in yielded && y.1 == c
  }

  lemma YieldedIsRouted(conf: Urlconf, heap: Heap, root: Rid, y: Yield)
    requires WellLinked(conf) && root in conf && y in Walk(conf, heap, root, "", {}).yielded
    ensures RoutedAt(conf, heap, root, y.0, y.1) && RoutedSomewhere(conf, heap, root, y.1)
  {
    TheWalkExpandsWhatIsReachable(conf, heap, root);
    var x := YieldedLocally(conf, heap, root, y);
    hide Walk, Nodes, Local, Candidates;
    var e := LocalIsRouted(heap, conf[x.0], x.1, y.0, y.1);
    AReachedRouteIsRouted(conf, heap, root, x, e, y);
  }

  lemma AReachedRouteIsRouted(conf: Urlconf, heap: Heap, root: Rid, x: (Rid, string), e: Entry, y: Yield)
    requires ReachedBy(conf, root, "", x.0, x.1) && RoutesUnder(conf, heap, x, e, y)
    ensures RoutedAt(conf, heap, root, y.0, y.1) && RoutedSomewhere(conf, heap, root, y.1)
  {
    hide Candidates, Leads, Route;
    var steps :| Leads(conf, root, steps, x.0) && x.1 == "" + Route(steps);
    assert "" + Route(steps) == Route(steps);
    assert Reachable(conf, root, x.0);
  }

  lemma YieldedLocally(conf: Urlconf, heap: Heap, root: Rid, y: Yield) returns (x: (Rid, string))
    requires WellLinked(conf) && root in conf && y in Walk(conf, heap, root, "", {}).yielded
    ensures x in Walk(conf, heap, root, "", {}).expanded && x.0 in conf && y in Local(heap, conf[x.0], x.1)
  {
    var w := Walk(conf, heap, root, "", {});
    YieldsAreTheContributions(conf, heap, root, "", {});
    ContributionsAreLocal(conf, heap, w.expanded);
    assert y in multiset(w.yielded);
    x :| x in w.expanded && x.0 in conf && y in Local(heap, conf[x.0], x.1);
  }

  lemma RoutedIsYielded(conf: Urlconf, heap: Heap, root: Rid, c: Id)
    requires WellLinked(conf) && root in conf && RoutedSomewhere(conf, heap, root, c)
    ensures Yielded(Walk(conf, heap, root, "", {}).yielded, c)
  {
    var w := Walk(conf, heap, root, "", {});
    TheWalkExpandsWhatIsReachable(conf, heap, root);
    YieldsAreTheContributions(conf, heap, root, "", {});
    ContributionsAreLocal(conf, heap, w.expanded);
    NodesAreExpanded(w.expanded);
    var n, e :| Reachable(conf, root, n) && n in conf && e in conf[n] && e.View? && c in Candidates(heap, e.callback);
    var x :| x in w.expanded && x.0 == n;
    RoutedIsLocal(heap, conf[n], x.1, e, c);
    var y := (x.1 + e.pattern, c);
    assert y in multiset(w.yielded);
    assert y in w.yielded;
  }

  /** `c` is recognizable in a view that the patterns along a real path route at `route`. */
  ghost predicate RoutedAt(conf: Urlconf, heap: Heap, root: Rid, route: string, c: Id) {
    exists steps, n, e :: Leads(conf, root, steps, n) && n in conf && e in conf[n] && e.View?
      && route == Route(steps) + e.pattern && c in Candidates(heap, e.callback)
  }

  ghost predicate RoutedSomewhere(conf: Urlconf, heap: Heap, root: Rid, c: Id) {
    exists n, e :: Reachable(conf, root, n) && n in conf && e in conf[n] && e.View? && c in Candidates(heap, e.callback)
  }

  lemma {:induction false} ContributionsAreLocal(conf: Urlconf, heap: Heap, expanded: seq<(Rid, string)>)
    ensures forall y ::
      y in Contributions(conf, heap, expanded) <==> exists x ::
        x in expanded && x.0 in conf && y in Local(heap, conf[x.0], x.1)
  {
    if expanded != [] {
      ContributionsAreLocal(conf, heap, expanded[1..]);
      assert expanded == [expanded[0]] + expanded[1..];
    }
  }

  lemma {:induction false} RoutedHolds(route: string, candidates: seq<Id>)
    ensures forall y :: y in Routed(route, candidates) <==> y.0 == route && y.1 in candidates
  {
    if candidates != [] {
      RoutedHolds(route, candidates[1..]);
    }
  }

  lemma {:induction false} LocalIsRouted(heap: Heap, entries: seq<Entry>, prefix: string, route: string, c: Id)
    returns (e: Entry)
    requires (route, c) in Local(heap, entries, prefix)
    ensures e in entries && e.View? && route == prefix + e.pattern && c in Candidates(heap, e.callback)
  {
    e := entries[0];
    if e.View? {
      RoutedHolds(prefix + e.pattern, Candidates(heap, e.callback));
    }
    if e.Include? || (route, c) !in Routed(prefix + e.pattern, Candidates(heap, e.callback)) {
      e := LocalIsRouted(heap, entries[1..], prefix, route, c);
    }
  }

  lemma {:induction false} RoutedIsLocal(heap: Heap, entries: seq<Entry>, prefix: string, e: Entry, c: Id)
    requires e in entries && e.View? && c in Candidates(heap, e.callback)
    ensures (prefix + e.pattern, c) in Local(heap, entries, prefix)
  {
    if entries[0] == e {
      RoutedHolds(prefix + e.pattern, Candidates(heap, e.callback));
    } else {
      RoutedIsLocal(heap, entries[1..], prefix, e, c);
    }
  }

  // -------------------------------------------------------------------- when every mount is walked

  /** Every include path from the root to `n` spells one and the same prefix. */
  ghost predicate OnePrefix(conf: Urlconf, root: Rid, n: Rid) {
    forall p, q :: ReachedBy(conf, root, "", n, p) && ReachedBy(conf, root, "", n, q) ==> p == q
  }

  lemma {:induction false} ExpandedOnce(expanded: seq<(Rid, string)>, n: Rid, p: string, q: string)
    requires Distinct(Nodes(expanded)) && (n, p) in expanded && (n, q) in expanded
    ensures p == q
  {
    var x, rest := expanded[0], expanded[1..];
    assert expanded == [x] + rest;
    NodesAreExpanded(rest);
    DistinctTail(Nodes(expanded));
    assert Nodes(expanded)[1..] == Nodes(rest);
    if x.0 != n {
      ExpandedOnce(rest, n, p, q);
    }
  }

  /** A resolver is walked under each of its real prefixes exactly when it has only one of them. */
  lemma EveryMountIsWalkedIffThereIsOnePrefix(conf: Urlconf, heap: Heap, root: Rid, n: Rid)
    requires WellLinked(conf) && root in conf && Reachable(conf, root, n)
    ensures (forall p :: ReachedBy(conf, root, "", n, p) ==> (n, p) in Walk(conf, heap, root, "", {}).expanded)
       <==> OnePrefix(conf, root, n)
  {
    var expanded := Walk(conf, heap, root, "", {}).expanded;
    TheWalkExpandsWhatIsReachable(conf, heap, root);
    NodesAreExpanded(expanded);
    hide Walk, ReachedBy, Reachable;
    var x :| x in expanded && x.0 == n;
    assert x == (n, x.1) && ReachedBy(conf, root, "", n, x.1);
    if forall p :: ReachedBy(conf, root, "", n, p) ==> (n, p) in expanded {
      forall p, q | ReachedBy(conf, root, "", n, p) && ReachedBy(conf, root, "", n, q) ensures p == q {
        ExpandedOnce(expanded, n, p, q);
      }
    }
  }

  /** A pair is yielded exactly when a resolver expanded under some prefix routes the object there. */
  lemma YieldedExactlyWhereExpanded(conf: Urlconf, heap: Heap, root: Rid, y: Yield)
    requires WellLinked(conf) && root in conf
    ensures var w := Walk(conf, heap, root, "", {});
      y in w.yielded <==> exists x, e :: x in w.expanded && RoutesUnder(conf, heap, x, e, y)
  {
    var w := Walk(conf, heap, root, "", {});
    YieldsAreTheContributions(conf, heap, root, "", {});
    ContributionsAreLocal(conf, heap, w.expanded);
    assert y in w.yielded <==> y in multiset(w.yielded);
    hide Walk, Local;
    if y in w.yielded {
      var x :| x in w.expanded && x.0 in conf && y in Local(heap, conf[x.0], x.1);
      var e := LocalIsRouted(heap, conf[x.0], x.1, y.0, y.1);
      assert RoutesUnder(conf, heap, x, e, y);
    }
    if x, e :| x in w.expanded && RoutesUnder(conf, heap, x, e, y) {
      RoutedIsLocal(heap, conf[x.0], x.1, e, y.1);
    }
  }

  /** Resolver `x.0`, under prefix `x.1`, routes the object at that very place. */
  ghost predicate RoutesUnder(conf: Urlconf, heap: Heap, x: (Rid, string), e: Entry, y: Yield) {
    x.0 in conf && e in conf[x.0] && e.View? && y.0 == x.1 + e.pattern && y.1 in Candidates(heap, e.callback)
  }

  /** With one prefix for each reachable resolver no route is missing: the yields are all the routes. */
  lemma WithOnePrefixEveryRouteIsYielded(conf: Urlconf, heap: Heap, root: Rid, route: string, c: Id)
    requires WellLinked(conf) && root in conf
    requires forall n :: Reachable(conf, root, n) ==> OnePrefix(conf, root, n)
    ensures RoutedAt(conf, heap, root, route, c) <==> (route, c) in Walk(conf, heap, root, "", {}).yielded
  {
    if RoutedAt(conf, heap, root, route, c) {
      var steps, n, e :| Leads(conf, root, steps, n) && n in conf && e in conf[n] && e.View?
        && route == Route(steps) + e.pattern && c in Candidates(heap, e.callback);
      assert Route(steps) == "" + Route(steps);
      assert Reachable(conf, root, n) && ReachedBy(conf, root, "", n, Route(steps));
      EveryMountIsWalkedIffThereIsOnePrefix(conf, heap, root, n);
      assert RoutesUnder(conf, heap, (n, Route(steps)), e, (route, c));
      YieldedExactlyWhereExpanded(conf, heap, root, (route, c));
    } else if (route, c) in Walk(conf, heap, root, "", {}).yielded {
      YieldedIsRouted(conf, heap, root, (route, c));
    }
  }

  // -------------------------------------------------------------- depth first, in declaration order

  /** Which entries lead to a yield: the place of each include on the way, of the view, and of the object among
    * the view's own. */
  ghost predicate YieldedFrom(conf: Urlconf, heap: Heap, r: Rid, prefix: string, place: seq<nat>, y: Yield)
    decreases |place|
  {
    && |place| >= 2 && r in conf && place[0] < |conf[r]|
    && var e := conf[r][place[0]];
    if e.Include? then YieldedFrom(conf, heap, e.target, prefix + e.pattern, place[1..], y)
    else
      var candidates := Candidates(heap, e.callback);
      |place| == 2 && place[1] < |candidates| && y == (prefix + e.pattern, candidates[place[1]])
  }

  /** At the first entry where two places differ, the earlier one takes the earlier entry. */
  predicate DeclaredBefore(a: seq<nat>, b: seq<nat>) {
    a != [] && b != [] && (a[0] < b[0] || (a[0] == b[0] && DeclaredBefore(a[1..], b[1..])))
  }

  ghost predicate InDeclarationOrder(places: seq<seq<nat>>) {
    forall i, j :: 0 <= i < j < |places| ==> DeclaredBefore(places[i], places[j])
  }

  /** These places are those of these yields, in this order. */
  ghost predicate PlacesOf(places: seq<seq<nat>>, conf: Urlconf, heap: Heap, r: Rid, prefix: string,
                           yielded: seq<Yield>) {
    && |places| == |yielded| && InDeclarationOrder(places)
    && forall k :: 0 <= k < |places| ==> YieldedFrom(conf, heap, r, prefix, places[k], yielded[k])
  }

  ghost predicate AllFrom(places: seq<seq<nat>>, i: nat) {
    forall k :: 0 <= k < |places| ==> places[k] != [] && i <= places[k][0]
  }

  ghost predicate AllUnder(places: seq<seq<nat>>, i: nat) {
    forall k :: 0 <= k < |places| ==> places[k] != [] && places[k][0] == i
  }

  lemma PlacesJoin(a: seq<seq<nat>>, b: seq<seq<nat>>, i: nat, conf: Urlconf, heap: Heap, r: Rid, prefix: string,
                   first: seq<Yield>, rest: seq<Yield>)
    requires PlacesOf(a, conf, heap, r, prefix, first) && AllUnder(a, i)
    requires PlacesOf(b, conf, heap, r, prefix, rest) && AllFrom(b, i + 1)
    ensures PlacesOf(a + b, conf, heap, r, prefix, first + rest) && AllFrom(a + b, i)
  {
    hide YieldedFrom;
    var all, yielded := a + b, first + rest;
    forall k | 0 <= k < |all|
      ensures YieldedFrom(conf, heap, r, prefix, all[k], yielded[k]) && all[k] != [] && i <= all[k][0]
    {
      if k < |a| {
        assert all[k] == a[k] && yielded[k] == first[k];
      } else {
        assert all[k] == b[k - |a|] && yielded[k] == rest[k - |a|];
      }
    }
    forall j, k | 0 <= j < k < |all| ensures DeclaredBefore(all[j], all[k]) {
      if k < |a| {
        assert DeclaredBefore(a[j], a[k]);
      } else if j >= |a| {
        assert DeclaredBefore(b[j - |a|], b[k - |a|]);
      } else {
        assert a[j][0] == i && i + 1 <= b[k - |a|][0];
      }
    }
  }

  /** The places below one include, or of one view, as places of the resolver that lists it. */
  lemma PlacesUnderAnInclude(inner: seq<seq<nat>>, i: nat, conf: Urlconf, heap: Heap, r: Rid, prefix: string,
                             yielded: seq<Yield>)
    returns (places: seq<seq<nat>>)
    requires r in conf && i < |conf[r]| && conf[r][i].Include?
    requires PlacesOf(inner, conf, heap, conf[r][i].target, prefix + conf[r][i].pattern, yielded)
    ensures PlacesOf(places, conf, heap, r, prefix, yielded) && AllUnder(places, i)
  {
    places := seq(|inner|, k requires 0 <= k < |inner| => [i] + inner[k]);
    forall k | 0 <= k < |inner| ensures places[k][1..] == inner[k] && places[k][0] == i {
    }
    forall k | 0 <= k < |inner| ensures YieldedFrom(conf, heap, r, prefix, places[k], yielded[k]) {
      assert YieldedFrom(conf, heap, conf[r][i].target, prefix + conf[r][i].pattern, inner[k], yielded[k]);
    }
    forall j, k | 0 <= j < k < |inner| ensures DeclaredBefore(places[j], places[k]) {
      assert DeclaredBefore(inner[j], inner[k]);
    }
  }

  lemma {:induction false} RoutedIs(route: string, candidates: seq<Id>)
    ensures |Routed(route, candidates)| == |candidates|
    ensures forall k :: 0 <= k < |candidates| ==> Routed(route, candidates)[k] == (route, candidates[k])
  {
    if candidates != [] {
      RoutedIs(route, candidates[1..]);
    }
  }

  lemma PlacesOfAView(i: nat, conf: Urlconf, heap: Heap, r: Rid, prefix: string) returns (places: seq<seq<nat>>)
    requires r in conf && i < |conf[r]| && conf[r][i].View?
    ensures PlacesOf(places, conf, heap, r, prefix,
                     Routed(prefix + conf[r][i].pattern, Candidates(heap, conf[r][i].callback)))
    ensures AllUnder(places, i)
  {
    hide Candidates, Routed;
    var candidates := Candidates(heap, conf[r][i].callback);
    RoutedIs(prefix + conf[r][i].pattern, candidates);
    places := seq(|candidates|, k requires 0 <= k < |candidates| => [i, k]);
    forall j, k | 0 <= j < k < |places| ensures DeclaredBefore(places[j], places[k]) {
      assert places[j][1..] == [j] && places[k][1..] == [k];
    }
  }

  lemma {:induction false} WalkStandsInOrder(conf: Urlconf, heap: Heap, r: Rid, prefix: string, seen: set<Rid>)
    returns (places: seq<seq<nat>>)
    requires WellLinked(conf) && r in conf
    ensures PlacesOf(places, conf, heap, r, prefix, Walk(conf, heap, r, prefix, seen).yielded)
    decreases conf.Keys - seen, 0
  {
    if r in seen {
      places := [];
    } else {
      assert conf[r][0..] == conf[r];
      places := EntriesStandInOrder(conf, heap, r, 0, prefix, seen + {r});
    }
  }

  lemma {:induction false} EntriesStandInOrder(conf: Urlconf, heap: Heap, r: Rid, i: nat, prefix: string,
                                               seen: set<Rid>)
    returns (places: seq<seq<nat>>)
    requires WellLinked(conf) && r in conf && i <= |conf[r]|
    ensures PlacesOf(places, conf, heap, r, prefix, WalkEntries(conf, heap, conf[r][i..], prefix, seen).yielded)
    ensures AllFrom(places, i)
    decreases conf.Keys - seen, |conf[r]| - i + 1
  {
    var entries := conf[r][i..];
    if i == |conf[r]| {
      places := [];
      assert entries == [];
    } else {
      var e := conf[r][i];
      assert entries[0] == e && entries[1..] == conf[r][i + 1..];
      hide YieldedFrom, Candidates, InDeclarationOrder;
      var first := if e.Include? then Walk(conf, heap, e.target, prefix + e.pattern, seen)
                   else Walked(seen, [], Routed(prefix + e.pattern, Candidates(heap, e.callback)));
      var here: seq<seq<nat>>;
      if e.Include? {
        var inner := WalkStandsInOrder(conf, heap, e.target, prefix + e.pattern, seen);
        here := PlacesUnderAnInclude(inner, i, conf, heap, r, prefix, first.yielded);
      } else {
        here := PlacesOfAView(i, conf, heap, r, prefix);
      }
      var rest := EntriesStandInOrder(conf, heap, r, i + 1, prefix, first.seen);
      PlacesJoin(here, rest, i, conf, heap, r, prefix, first.yielded,
                 WalkEntries(conf, heap, conf[r][i + 1..], prefix, first.seen).yielded);
      places := here + rest;
    }
  }

  /** The yields stand depth first in declaration order: each comes from its own place in the configuration,
    * and at the first entry where two places differ the earlier yield has the earlier entry. */
  lemma YieldsStandInDeclarationOrder(conf: Urlconf, heap: Heap, root: Rid) returns (places: seq<seq<nat>>)
    requires WellLinked(conf) && root in conf
    ensures PlacesOf(places, conf, heap, root, "", Walk(conf, heap, root, "", {}).yielded)
  {
    places := WalkStandsInOrder(conf, heap, root, "", {});
  }

  // ------------------------------------------------------------- the pattern belongs to the resolver

  /** An included resolver is one object with one pattern, wherever it is listed. */
  ghost predicate OwnPatterns(conf: Urlconf) {
    forall m, n, d, e :: Lists(conf, m, d) && Lists(conf, n, e) && d.target == e.target ==> d.pattern == e.pattern
  }

  ghost predicate Lists(conf: Urlconf, m: Rid, e: Entry) {
    m in conf && e in conf[m] && e.Include?
  }

  /** Some resolver that lists `n` is itself reached under `prefix`. */
  ghost predicate ListedUnder(conf: Urlconf, root: Rid, n: Rid, prefix: string) {
    exists m, e :: Lists(conf, m, e) && e.target == n && ReachedBy(conf, root, "", m, prefix)
  }

  /** A resolver beneath the root is walked at every mount exactly when the resolvers that list it are all
    * reached under one prefix: what is shared loses its routes below the others. */
  lemma RoutesAreLostExactlyBelowTwoPrefixes(conf: Urlconf, heap: Heap, root: Rid, n: Rid)
    requires WellLinked(conf) && OwnPatterns(conf) && root in conf && Reachable(conf, root, n) && n != root
    ensures (forall p :: ReachedBy(conf, root, "", n, p) ==> (n, p) in Walk(conf, heap, root, "", {}).expanded)
       <==> forall p, q :: ListedUnder(conf, root, n, p) && ListedUnder(conf, root, n, q) ==> p == q
  {
    EveryMountIsWalkedIffThereIsOnePrefix(conf, heap, root, n);
    OnePrefixComesFromAbove(conf, root, n);
  }

  lemma OnePrefixComesFromAbove(conf: Urlconf, root: Rid, n: Rid)
    requires OwnPatterns(conf) && n != root
    ensures OnePrefix(conf, root, n)
       <==> forall p, q :: ListedUnder(conf, root, n, p) && ListedUnder(conf, root, n, q) ==> p == q
  {
    hide ReachedBy, OwnPatterns, ListedUnder;
    if OnePrefix(conf, root, n) {
      forall p, q | ListedUnder(conf, root, n, p) && ListedUnder(conf, root, n, q) ensures p == q {
        var d := ReachedFromAbove(conf, root, n, p);
        var e := ReachedFromAbove(conf, root, n, q);
        OnePatternEach(conf, n, d, e);
        SameFront(p, q, e.pattern);
      }
    }
    if forall p, q :: ListedUnder(conf, root, n, p) && ListedUnder(conf, root, n, q) ==> p == q {
      forall p, q | ReachedBy(conf, root, "", n, p) && ReachedBy(conf, root, "", n, q) ensures p == q {
        var above, d := TheMountAbove(conf, root, n, p);
        var beyond, e := TheMountAbove(conf, root, n, q);
        OnePatternEach(conf, n, d, e);
      }
    }
  }

  ghost predicate IsListed(conf: Urlconf, n: Rid, e: Entry) {
    e.Include? && e.target == n && exists m :: Lists(conf, m, e)
  }

  lemma OnePatternEach(conf: Urlconf, n: Rid, d: Entry, e: Entry)
    requires OwnPatterns(conf) && IsListed(conf, n, d) && IsListed(conf, n, e)
    ensures d.pattern == e.pattern
  {
  }

  lemma SameFront(p: string, q: string, back: string)
    requires p + back == q + back
    ensures p == q
  {
    assert |p| == |q|;
    assert p == (p + back)[..|p|] && q == (q + back)[..|q|];
  }

  lemma ReachedFromAbove(conf: Urlconf, root: Rid, n: Rid, prefix: string) returns (e: Entry)
    requires ListedUnder(conf, root, n, prefix)
    ensures IsListed(conf, n, e) && ReachedBy(conf, root, "", n, prefix + e.pattern)
  {
    hide Leads, Route;
    var m, entry :| Lists(conf, m, entry) && entry.target == n && ReachedBy(conf, root, "", m, prefix);
    e := entry;
    var steps :| Leads(conf, root, steps, m) && prefix == "" + Route(steps);
    LeadsOn(conf, root, steps, m, e);
    RouteOn(steps, e);
    assert prefix + e.pattern == "" + Route(steps + [e]);
  }

  lemma TheMountAbove(conf: Urlconf, root: Rid, n: Rid, route: string) returns (prefix: string, e: Entry)
    requires ReachedBy(conf, root, "", n, route) && n != root
    ensures ListedUnder(conf, root, n, prefix) && IsListed(conf, n, e) && route == prefix + e.pattern
  {
    var steps :| Leads(conf, root, steps, n) && route == "" + Route(steps);
    var k := |steps| - 1;
    var m := TheLastInclude(conf, root, steps, n);
    e := steps[k];
    prefix := "" + Route(steps[..k]);
    assert steps == steps[..k] + [e];
    RouteOn(steps[..k], e);
    hide Leads, Route;
    assert ReachedBy(conf, root, "", m, prefix) && Lists(conf, m, e);
  }

  lemma {:induction false} TheLastInclude(conf: Urlconf, r: Rid, steps: seq<Entry>, n: Rid) returns (m: Rid)
    requires Leads(conf, r, steps, n) && steps != []
    ensures var e := steps[|steps| - 1]; Lists(conf, m, e) && e.target == n
    ensures Leads(conf, r, steps[..|steps| - 1], m)
    decreases |steps|
  {
    if |steps| == 1 {
      m := r;
      assert steps[1..] == [] && steps[..0] == [];
    } else {
      m := TheLastInclude(conf, steps[0].target, steps[1..], n);
      var k := |steps| - 1;
      assert steps[..k][1..] == steps[1..][..k - 1];
    }
  }

  /** One module, included at two places, that includes another: two resolvers list the same entry. */
  const SHARED: Urlconf := map[0 := [Include("a/", 1), Include("b/", 2)], 1 := [Include("c/", 3)],
                               2 := [Include("c/", 3)], 3 := [View("x", 7)]]
  const ONE_VIEW: Heap := map[7 := Obj(true, None, [], Function, {}, None)]

  /** An instance: the shared resolver is walked below the first place alone, so a real route below the
    * second has no yield, though the view itself is yielded. */
  lemma ASharedResolverLosesARoute()
    ensures WellLinked(SHARED) && OwnPatterns(SHARED)
    ensures RoutedAt(SHARED, ONE_VIEW, 0, "b/c/x", 7)
    ensures Walk(SHARED, ONE_VIEW, 0, "", {}).yielded == [("a/c/x", 7)]
  {
    EachHasOnePattern();
    TheSecondPlaceRoutesTheView();
    TheSecondPlaceYieldsNothing();
  }

  lemma EachHasOnePattern()
    ensures OwnPatterns(SHARED)
  {
    forall m, e | Lists(SHARED, m, e)
      ensures e == Include("a/", 1) || e == Include("b/", 2) || e == Include("c/", 3)
    {
    }
  }

  lemma TheSecondPlaceRoutesTheView()
    ensures RoutedAt(SHARED, ONE_VIEW, 0, "b/c/x", 7)
  {
    TheOneView();
    hide Candidates;
    var steps := [Include("b/", 2), Include("c/", 3)];
    assert steps[1..] == [Include("c/", 3)] && steps[1..][1..] == [];
    assert Leads(SHARED, 3, [], 3) && Leads(SHARED, 2, steps[1..], 3) && Leads(SHARED, 0, steps, 3);
    assert Route(steps[1..]) == "c/" + "" && Route(steps) == "b/" + "c/" && "b/" + "c/" + "x" == "b/c/x";
    assert View("x", 7) in SHARED[3];
  }

  lemma TheOneView()
    ensures Candidates(ONE_VIEW, 7) == [7]
  {
    assert Layers(ONE_VIEW, Some(7), {}) == [7];
    assert Fresh(ONE_VIEW, [], {7}) == [];
  }

  /** The shared resolver, walked for the first time. */
  lemma TheViewIsYielded(prefix: string)
    ensures Walk(SHARED, ONE_VIEW, 3, prefix, {0, 1})
         == Walked({0, 1, 3}, [(3, prefix)], [(prefix + "x", 7)])
  {
    TheOneView();
    var entries := SHARED[3];
    assert entries[1..] == [] && Routed(prefix + "x", [7]) == [(prefix + "x", 7)];
    assert WalkEntries(SHARED, ONE_VIEW, entries, prefix, {0, 1, 3})
      == Walked({0, 1, 3}, [] + [], [(prefix + "x", 7)] + []);
    assert {0, 1} + {3} == {0, 1, 3};
  }

  lemma BelowTheFirstPlace(prefix: string)
    ensures Walk(SHARED, ONE_VIEW, 1, prefix, {0}).seen == {0, 1, 3}
    ensures Walk(SHARED, ONE_VIEW, 1, prefix, {0}).yielded == [(prefix + "c/" + "x", 7)]
  {
    TheViewIsYielded(prefix + "c/");
    hide Candidates, Routed;
    var entries := SHARED[1];
    assert entries[1..] == [] && {0} + {1} == {0, 1};
    assert WalkEntries(SHARED, ONE_VIEW, entries, prefix, {0, 1}).yielded == [(prefix + "c/" + "x", 7)] + [];
  }

  lemma BelowTheSecondPlace(prefix: string)
    ensures Walk(SHARED, ONE_VIEW, 2, prefix, {0, 1, 3}).yielded == []
  {
    hide Candidates, Routed;
    var entries := SHARED[2];
    var seen := {0, 1, 3} + {2};
    assert Walk(SHARED, ONE_VIEW, 3, prefix + "c/", seen) == Walked(seen, [], []);
    assert entries[1..] == [] && WalkEntries(SHARED, ONE_VIEW, entries, prefix, seen).yielded == [] + [];
  }

  lemma TheSecondPlaceYieldsNothing()
    ensures Walk(SHARED, ONE_VIEW, 0, "", {}).yielded == [("a/c/x", 7)]
  {
    var a, b := "" + "a/", "" + "b/";
    BelowTheFirstPlace(a);
    BelowTheSecondPlace(b);
    hide Candidates, Routed;
    var entries := SHARED[0];
    assert entries[1..][1..] == [];
    assert WalkEntries(SHARED, ONE_VIEW, entries[1..], "", {0, 1, 3}).yielded == [] + [];
    assert WalkEntries(SHARED, ONE_VIEW, entries, "", {0}).yielded == [(a + "c/" + "x", 7)] + [];
    assert {} + {0} == {0} && a + "c/" + "x" == "a/c/x";
  }
}
