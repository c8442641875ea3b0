/** The two URL-configuration refusals of stage 2, as consumers of the walk. */
module UrlRefusals {
  import opened Core
  import opened Text
  import opened ViewCandidates
  import opened UrlWalk

  /** The token endpoint itself, or its class or any class built from it: like `issubclass`, a class
    * counts among its own `ancestors`. */
  predicate MintsTokens(heap: Heap, endpoint: Id, endpointClass: Id, x: Id) {
    x == endpoint || (x in heap && heap[x].kind == Class && endpointClass in heap[x].ancestors)
  }

  /** Defined in the package, or in a module beneath it. */
  predicate DefinedIn(heap: Heap, package: string, x: Id) {
    && x in heap && heap[x].mod.Some?
    && (heap[x].mod.value == package || StartsWith(heap[x].mod.value, package + "."))
  }

  /** The dotted name of its module starts with all the names of the package's. */
  ghost predicate BeneathPackage(heap: Heap, package: string, x: Id) {
    x in heap && heap[x].mod.Some? && Split(package, '.') <= Split(heap[x].mod.value, '.')
  }

  lemma DefinedInIsBeneath(heap: Heap, package: string, x: Id)
    ensures DefinedIn(heap, package, x) <==> BeneathPackage(heap, package, x)
  {
    if x in heap && heap[x].mod.Some? {
      BoundaryIsPrefix(package, heap[x].mod.value, '.');
    }
  }

  /** Refuses, naming the route, exactly when a routed view is or wraps the token endpoint. */
  method RefuseCredentialMintingRoute(conf: Urlconf, heap: Heap, root: Rid, endpoint: Id, endpointClass: Id)
    returns (refused: Option<string>)
    requires WellLinked(conf) && root in conf
    ensures refused.Some? <==> exists c: Id ::
        RoutedSomewhere(conf, heap, root, c)
        && (c == endpoint || (c in heap && heap[c].kind == Class && endpointClass in heap[c].ancestors))
    ensures refused.Some? ==> exists c: Id ::
        RoutedAt(conf, heap, root, refused.value, c)
        && (c == endpoint || (c in heap && heap[c].kind == Class && endpointClass in heap[c].ancestors))
  {
    var all := IterViewCallables(conf, heap, root);
    TheYieldsAreTheRoutedViews(conf, heap, root);
    var i := 0;
    while i < |all|
      invariant 0 <= i <= |all|
      invariant forall j :: 0 <= j < i ==> !MintsTokens(heap, endpoint, endpointClass, all[j].1)
    {
      if MintsTokens(heap, endpoint, endpointClass, all[i].1) {
        assert all[i] in all;
        YieldedIsRouted(conf, heap, root, all[i]);
        return Some(all[i].0);
      }
      i := i + 1;
    }
    refused := None;
    forall c: Id | RoutedSomewhere(conf, heap, root, c) ensures !MintsTokens(heap, endpoint, endpointClass, c) {
      assert Yielded(all, c);
    }
  }

  /** Refuses, naming the route, exactly when a routed view is or wraps something defined in the
    * local sign-in package. */
  method RefuseLocalSignInRoute(conf: Urlconf, heap: Heap, root: Rid, package: string) returns (refused: Option<string>)
    requires WellLinked(conf) && root in conf
    ensures refused.Some? <==> exists c: Id :: RoutedSomewhere(conf, heap, root, c) && BeneathPackage(heap, package, c)
    ensures refused.Some? ==> exists c: Id ::
      RoutedAt(conf, heap, root, refused.value, c) && BeneathPackage(heap, package, c)
  {
    forall c: Id ensures DefinedIn(heap, package, c) <==> BeneathPackage(heap, package, c) {
      DefinedInIsBeneath(heap, package, c);
    }
    hide BeneathPackage, StartsWith;
    var all := IterViewCallables(conf, heap, root);
    TheYieldsAreTheRoutedViews(conf, heap, root);
    var i := 0;
    while i < |all|
      invariant 0 <= i <= |all|
      invariant forall j :: 0 <= j < i ==> !DefinedIn(heap, package, all[j].1)
    {
      if DefinedIn(heap, package, all[i].1) {
        assert all[i] in all;
        YieldedIsRouted(conf, heap, root, all[i]);
        return Some(all[i].0);
      }
      i := i + 1;
    }
    refused := None;
    forall c: Id | RoutedSomewhere(conf, heap, root, c) ensures !DefinedIn(heap, package, c) {
      assert Yielded(all, c);
    }
  }
}
