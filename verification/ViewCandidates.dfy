/** What one routed view can be recognized by (`_view_candidates` in `startup/stage_two.py`).
  * Python objects are a finite graph: what `__wrapped__` names, what a layer holds a reference to,
  * and what kind of object it is. */
module ViewCandidates {
  import opened Core

  type Id = nat

  datatype Kind = Function | Method | Class | Other

  /** `attached` lists what a layer's `view_class`, `cls`, `func` and closure cells hold, in that order. */
  datatype Obj = Obj(callable: bool, wrapped: Option<Id>, attached: seq<Id>, kind: Kind, ancestors: set<Id>,
                     mod: Option<string>)

  type Heap = map<Id, Obj>

  /** `_defining_object` recognizes three kinds of object and no others. */
  predicate Defining(heap: Heap, x: Id) {
    x in heap && heap[x].kind != Other
  }

  predicate Callable(heap: Heap, x: Option<Id>) {
    x.Some? && x.value in heap && heap[x.value].callable
  }

  // ------------------------------------------------------------------------------- the two loops

  /** The `__wrapped__` chain from `current`, up to the first link already seen. */
  function Layers(heap: Heap, current: Option<Id>, seen: set<Id>): seq<Id>
    decreases heap.Keys - seen
  {
    if Callable(heap, current) && current.value !in seen
    then [current.value] + Layers(heap, heap[current.value].wrapped, seen + {current.value})
    else []
  }

  /** The defining objects among `attached` not seen before, in order. */
  function Fresh(heap: Heap, attached: seq<Id>, seen: set<Id>): (r: seq<Id>)
    ensures Distinct(r)
    ensures forall x :: x in r <==> x in attached && Defining(heap, x) && x !in seen
  {
    if attached == [] then []
    else if Defining(heap, attached[0]) && attached[0] !in seen then
      var rest := Fresh(heap, attached[1..], seen + {attached[0]});
      DistinctCons(attached[0], rest);
      [attached[0]] + rest
    else Fresh(heap, attached[1..], seen)
  }

  function Sweep(heap: Heap, layers: seq<Id>, seen: set<Id>): seq<Id>
    requires forall x :: x in layers ==> x in heap
  {
    if layers == [] then []
    else
      var found := Fresh(heap, heap[layers[0]].attached, seen);
      [layers[0]] + found + Sweep(heap, layers[1..], seen + Elements(found))
  }

  lemma {:induction false} LayersAreCallable(heap: Heap, current: Option<Id>, seen: set<Id>)
    ensures forall x :: x in Layers(heap, current, seen) ==> x in heap && heap[x].callable && x !in seen
    ensures Distinct(Layers(heap, current, seen))
    decreases heap.Keys - seen
  {
    if Callable(heap, current) && current.value !in seen {
      var wrapped := heap[current.value].wrapped;
      LayersAreCallable(heap, wrapped, seen + {current.value});
      DistinctCons(current.value, Layers(heap, wrapped, seen + {current.value}));
    }
  }

  function Candidates(heap: Heap, callback: Id): seq<Id> {
    LayersAreCallable(heap, Some(callback), {});
    var layers := Layers(heap, Some(callback), {});
    Sweep(heap, layers, Elements(layers))
  }

  /** The first loop: `layers` and `seen` grow along the chain. */
  method CollectLayers(heap: Heap, callback: Id) returns (layers: seq<Id>, seen: set<Id>)
    ensures layers == Layers(heap, Some(callback), {})
    ensures seen == Elements(layers)
  {
    seen, layers := {}, [];
    var current := Some(callback);
    while Callable(heap, current) && current.value !in seen
      invariant layers + Layers(heap, current, seen) == Layers(heap, Some(callback), {})
      invariant seen == Elements(layers)
      decreases heap.Keys - seen
    {
      seen := seen + {current.value};
      layers := layers + [current.value];
      current := heap[current.value].wrapped;
    }
    assert layers + [] == layers;
  }

  lemma SweepStep(heap: Heap, layers: seq<Id>, i: nat, seen: set<Id>)
    requires i < |layers| && forall x :: x in layers[i..] ==> x in heap
    ensures layers[i] in heap && forall x :: x in layers[i + 1..] ==> x in heap
    ensures var found := Fresh(heap, heap[layers[i]].attached, seen);
      Sweep(heap, layers[i..], seen) == [layers[i]] + found + Sweep(heap, layers[i + 1..], seen + Elements(found))
  {
    assert layers[i..][0] == layers[i] && layers[i..][1..] == layers[i + 1..];
  }

  lemma NothingToSweep(heap: Heap, seen: set<Id>)
    ensures Sweep(heap, [], seen) == []
  {
  }

  /** `_view_candidates`; the yields are collected in order. */
  method CollectCandidates(heap: Heap, callback: Id) returns (yielded: seq<Id>)
    ensures yielded == Candidates(heap, callback)
  {
    hide Fresh, Sweep;
    var layers, seen := CollectLayers(heap, callback);
    LayersAreCallable(heap, Some(callback), {});
    yielded := [];
    var i := 0;
    while i < |layers|
      invariant 0 <= i <= |layers|
      invariant forall x :: x in layers[i..] ==> x in heap
      invariant yielded + Sweep(heap, layers[i..], seen) == Candidates(heap, callback)
    {
      SweepStep(heap, layers, i, seen);
      var found := SweepAttached(heap, heap[layers[i]].attached, seen);
      assert yielded + ([layers[i]] + found + Sweep(heap, layers[i + 1..], seen + Elements(found)))
          == yielded + [layers[i]] + found + Sweep(heap, layers[i + 1..], seen + Elements(found));
      seen := seen + Elements(found);
      yielded := yielded + [layers[i]] + found;
      i := i + 1;
    }
    NothingToSweep(heap, seen);
    assert layers[i..] == [] && yielded + [] == yielded;
  }

  /** The inner loop over one layer's attached objects. */
  method SweepAttached(heap: Heap, attached: seq<Id>, before: set<Id>) returns (found: seq<Id>)
    ensures found == Fresh(heap, attached, before)
  {
    found := [];
    var seen := before;
    var j := 0;
    while j < |attached|
      invariant 0 <= j <= |attached|
      invariant found + Fresh(heap, attached[j..], seen) == Fresh(heap, attached, before)
    {
      assert attached[j..][0] == attached[j] && attached[j..][1..] == attached[j + 1..];
      if Defining(heap, attached[j]) && attached[j] !in seen {
        seen := seen + {attached[j]};
        found := found + [attached[j]];
      }
      j := j + 1;
    }
  }

  // -------------------------------------------------------------------- what the loops amount to

  /** The callable `__wrapped__` chain from a callback: each link is what the one before it wraps,
    * no link repeats, and it stops only where it must. */
  ghost predicate IsChain(heap: Heap, callback: Id, layers: seq<Id>) {
    && Distinct(layers)
    && (forall x :: x in layers ==> x in heap && heap[x].callable)
    && (layers == [] <==> callback !in heap || !heap[callback].callable)
    && (layers != [] ==> layers[0] == callback)
    && (forall i :: 0 <= i < |layers| - 1 ==> heap[layers[i]].wrapped == Some(layers[i + 1]))
    && (layers != [] ==>
          var next := heap[layers[|layers| - 1]].wrapped;
          next.None? || next.value !in heap || !heap[next.value].callable || next.value in layers)
  }

  /** Everything a view may be recognized by: a link of its chain, or a function, method or class
    * one of those links holds. */
  ghost predicate Recognizes(heap: Heap, layers: seq<Id>, x: Id) {
    x in layers || exists l :: l in layers && l in heap && x in heap[l].attached
                                && x in heap && heap[x].kind in {Function, Method, Class}
  }

  lemma {:induction false} LayersChain(heap: Heap, layers: seq<Id>, callback: Id, current: Option<Id>)
    requires Distinct(layers) && forall x :: x in layers ==> x in heap && heap[x].callable
    requires if layers == [] then current == Some(callback)
             else layers[0] == callback && current == heap[layers[|layers| - 1]].wrapped
    requires forall i :: 0 <= i < |layers| - 1 ==> heap[layers[i]].wrapped == Some(layers[i + 1])
    ensures IsChain(heap, callback, layers + Layers(heap, current, Elements(layers)))
    decreases heap.Keys - Elements(layers)
  {
    if Callable(heap, current) && current.value !in layers {
      var more := layers + [current.value];
      assert Elements(more) == Elements(layers) + {current.value};
      LayersChain(heap, more, callback, heap[current.value].wrapped);
      assert layers + Layers(heap, current, Elements(layers))
          == more + Layers(heap, heap[current.value].wrapped, Elements(more));
    } else {
      assert layers + Layers(heap, current, Elements(layers)) == layers;
    }
  }

  lemma {:induction false} SweepIsExact(heap: Heap, layers: seq<Id>, seen: set<Id>)
    requires Distinct(layers) && forall x :: x in layers ==> x in heap && x in seen
    ensures Distinct(Sweep(heap, layers, seen))
    ensures forall x ::
      x in Sweep(heap, layers, seen) <==> x in layers || (x !in seen && Recognizes(heap, layers, x))
  {
    if layers != [] {
      var found := Fresh(heap, heap[layers[0]].attached, seen);
      var rest := layers[1..];
      assert forall x :: x in layers <==> x == layers[0] || x in rest;
      assert layers[0] !in rest;
      SweepIsExact(heap, rest, seen + Elements(found));
      SweepJoins(layers[0], found, Sweep(heap, rest, seen + Elements(found)), seen);
    }
  }

  lemma SweepJoins(layer: Id, found: seq<Id>, rest: seq<Id>, seen: set<Id>)
    requires layer in seen && Distinct(found) && Distinct(rest) && layer !in rest
    requires forall x :: x in found ==> x !in seen && x !in rest
    ensures Distinct([layer] + found + rest)
  {
    assert forall i :: 0 <= i < |found| ==> found[i] in found;
    DistinctAppend(found, rest);
    DistinctCons(layer, found + rest);
    assert [layer] + found + rest == [layer] + (found + rest);
  }

  /** Each view contributes exactly its callable wrapper chain, up to the first repeat, and the
    * functions, methods and classes those layers hold, each object once. */
  lemma CandidatesAreTheChainAndItsAttachments(heap: Heap, callback: Id) returns (layers: seq<Id>)
    ensures IsChain(heap, callback, layers)
    ensures Distinct(Candidates(heap, callback))
    ensures forall x :: x in Candidates(heap, callback) <==> Recognizes(heap, layers, x)
  {
    layers := Layers(heap, Some(callback), {});
    LayersAreCallable(heap, Some(callback), {});
    LayersChain(heap, [], callback, Some(callback));
    assert Elements<Id>([]) == {};
    assert [] + layers == layers;
    SweepIsExact(heap, layers, Elements(layers));
  }

  /** There is only one such chain. */
  lemma {:induction false} TheChainIsUnique(heap: Heap, callback: Id, a: seq<Id>, b: seq<Id>)
    requires IsChain(heap, callback, a) && IsChain(heap, callback, b)
    ensures a == b
  {
    ChainsAgree(heap, callback, a, b, if |a| < |b| then |a| else |b|);
    if |a| < |b| && a != [] {
      LinkWraps(heap, callback, b, |a| - 1);
    } else if |b| < |a| && b != [] {
      LinkWraps(heap, callback, a, |b| - 1);
    }
  }

  lemma LinkWraps(heap: Heap, callback: Id, layers: seq<Id>, i: nat)
    requires IsChain(heap, callback, layers) && i < |layers| - 1
    ensures heap[layers[i]].wrapped == Some(layers[i + 1]) && Callable(heap, Some(layers[i + 1]))
  {
    assert layers[i + 1] in layers;
  }

  lemma {:induction false} ChainsAgree(heap: Heap, callback: Id, a: seq<Id>, b: seq<Id>, n: nat)
    requires IsChain(heap, callback, a) && IsChain(heap, callback, b) && n <= |a| && n <= |b|
    ensures a[..n] == b[..n]
  {
    if n > 1 {
      ChainsAgree(heap, callback, a, b, n - 1);
      assert a[n - 2] == a[..n - 1][n - 2] && b[n - 2] == b[..n - 1][n - 2];
      assert a[..n] == a[..n - 1] + [a[n - 1]] && b[..n] == b[..n - 1] + [b[n - 1]];
    }
  }

  // ----------------------------------------------------------------------------- outermost first

  /** Where a view's candidate is found: the link itself, at -1, or the place of what the link holds. */
  ghost predicate FoundAt(heap: Heap, layers: seq<Id>, x: Id, place: (int, int)) {
    && 0 <= place.0 < |layers| && layers[place.0] in heap
    && (if place.1 == -1 then x == layers[place.0]
        else 0 <= place.1 < |heap[layers[place.0]].attached| && heap[layers[place.0]].attached[place.1] == x)
  }

  predicate Outer(a: (int, int), b: (int, int)) {
    a.0 < b.0 || (a.0 == b.0 && a.1 < b.1)
  }

  ghost predicate OutermostFirst(places: seq<(int, int)>) {
    forall i, j :: 0 <= i < j < |places| ==> Outer(places[i], places[j])
  }

  lemma {:induction false} FreshStandsInOrder(heap: Heap, attached: seq<Id>, i: nat, seen: set<Id>)
    returns (at: seq<int>)
    requires i <= |attached|
    ensures var found := Fresh(heap, attached[i..], seen);
      && |at| == |found| && (forall k :: 0 <= k < |at| ==> i <= at[k] < |attached| && attached[at[k]] == found[k])
      && forall j, k :: 0 <= j < k < |at| ==> at[j] < at[k]
    decreases |attached| - i
  {
    if i == |attached| {
      at := [];
    } else {
      assert attached[i..][0] == attached[i] && attached[i..][1..] == attached[i + 1..];
      if Defining(heap, attached[i]) && attached[i] !in seen {
        var rest := FreshStandsInOrder(heap, attached, i + 1, seen + {attached[i]});
        at := [i] + rest;
      } else {
        at := FreshStandsInOrder(heap, attached, i + 1, seen);
      }
    }
  }

  lemma {:induction false} SweepStandsInOrder(heap: Heap, layers: seq<Id>, i: nat, seen: set<Id>)
    returns (places: seq<(int, int)>)
    requires i <= |layers| && forall x :: x in layers ==> x in heap
    ensures var swept := Sweep(heap, layers[i..], seen);
      |places| == |swept| && forall k :: 0 <= k < |places| ==> FoundAt(heap, layers, swept[k], places[k])
    ensures OutermostFirst(places) && forall k :: 0 <= k < |places| ==> i <= places[k].0
    decreases |layers| - i
  {
    hide Fresh;
    if i == |layers| {
      places := [];
      NothingToSweep(heap, seen);
      assert layers[i..] == [];
    } else {
      SweepStep(heap, layers, i, seen);
      var attached := heap[layers[i]].attached;
      var found := Fresh(heap, attached, seen);
      var at := FreshStandsInOrder(heap, attached, 0, seen);
      assert attached[0..] == attached;
      var rest := SweepStandsInOrder(heap, layers, i + 1, seen + Elements(found));
      hide Sweep;
      var here := seq(|at|, k requires 0 <= k < |at| => (i as int, at[k]));
      places := [(i as int, -1)] + here + rest;
      assert forall k :: 0 <= k < |places| ==>
        places[k] == if k == 0 then (i as int, -1) else if k <= |at| then here[k - 1] else rest[k - 1 - |at|];
    }
  }

  /** The candidates of a view stand outermost first: a link before what it holds, what it holds in the order
    * it holds it, and all of that before the next link. */
  lemma CandidatesStandOutermostFirst(heap: Heap, callback: Id)
    returns (layers: seq<Id>, places: seq<(int, int)>)
    ensures IsChain(heap, callback, layers)
    ensures |places| == |Candidates(heap, callback)| && OutermostFirst(places)
    ensures forall k :: 0 <= k < |places| ==> FoundAt(heap, layers, Candidates(heap, callback)[k], places[k])
  {
    layers := CandidatesAreTheChainAndItsAttachments(heap, callback);
    var own := Layers(heap, Some(callback), {});
    LayersAreCallable(heap, Some(callback), {});
    LayersChain(heap, [], callback, Some(callback));
    assert Elements<Id>([]) == {} && [] + own == own;
    TheChainIsUnique(heap, callback, layers, own);
    hide Layers, Sweep, FoundAt, IsChain;
    places := SweepStandsInOrder(heap, own, 0, Elements(own));
    assert own[0..] == own;
  }
}
