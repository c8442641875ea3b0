/** When a JWKS location derives from the configured issuer (`jwks_url_derives_from_issuer`).
  * The URLs arrive parsed; what remains is the origin comparison and the path rule. */
module JwksLocation {
  import opened Core
  import opened Text

  /** `/.well-known/jwks.json`, as its two segments. */
  const WELL_KNOWN: string := ['/'] + (".well-known" + ['/'] + "jwks.json")

  /** The components `urlsplit` yields: `host` as `hostname` reports it, empty when there is none. */
  datatype Url = Url(scheme: string, host: string, port: Option<int>, path: string)

  predicate Permitted(scheme: string) { scheme == "http" || scheme == "https" }

  function DefaultPort(scheme: string): int { if scheme == "http" then 80 else 443 }

  function Origin(u: Url): Option<(string, string, int)> {
    if u.host == "" then None
    else Some((u.scheme, u.host, if u.port.Some? then u.port.value else DefaultPort(u.scheme)))
  }

  /** Any segment is `..`. */
  predicate Escapes(path: string) { ".." in Split(path, '/') }

  predicate PathIsUnder(anchorPath: string, candidatePath: string) {
    var anchor, candidate := TrimRight(anchorPath, IsSlash), TrimRight(candidatePath, IsSlash);
    if Escapes(anchor) || Escapes(candidate) then false
    else if anchor == "" then true
    else candidate == anchor || StartsWith(candidate, anchor + "/")
  }

  /** `None` for a location `urlsplit` or its port cannot parse. */
  predicate DerivesFromIssuer(issuer: Option<Url>, location: Option<Url>) {
    && issuer.Some? && location.Some?
    && Permitted(issuer.value.scheme) && Permitted(location.value.scheme)
    && Origin(issuer.value).Some? && Origin(issuer.value) == Origin(location.value)
    && PathIsUnder(issuer.value.path, location.value.path)
  }

  // ------------------------------------------------------------------------- the origin, part by part

  /** A location derives from an issuer exactly when both parse, the issuer is at http or https and has a host,
    * scheme and host are the issuer's own, the ports they name or leave to the scheme are one, and the path is
    * at or beneath the issuer's: no other host, scheme or port derives from it. */
  lemma DerivingKeepsTheOrigin(issuer: Option<Url>, location: Option<Url>)
    ensures DerivesFromIssuer(issuer, location) <==> (issuer.Some? && location.Some?
      && Anchors(issuer.value, location.value))
  {
    hide PathIsUnder;
  }

  ghost predicate Anchors(i: Url, l: Url) {
    && (i.scheme == "http" || i.scheme == "https") && i.host != "" && l.scheme == i.scheme && l.host == i.host
    && (match (i.port, l.port)
        case (None, None) => true
        case (Some(p), Some(q)) => p == q
        case (Some(p), None) => p == if i.scheme == "http" then 80 else 443
        case (None, Some(q)) => q == if i.scheme == "http" then 80 else 443)
    && PathIsUnder(i.path, l.path)
  }

  // ------------------------------------------------------------------ the path rule, by segments

  /** The segments of a path once trailing slashes are dropped. */
  function Segments(path: string): seq<string> {
    Split(TrimRight(path, IsSlash), '/')
  }

  predicate Rooted(path: string) { path == "" || path[0] == '/' }

  /** A path continues another at a segment boundary exactly when its segments do. */
  lemma BoundaryIsSegmentPrefix(a: string, c: string)
    ensures Split(a, '/') <= Split(c, '/') <==> c == a || StartsWith(c, a + "/")
  {
    BoundaryIsPrefix(a, c, '/');
  }

  /** On rooted paths: at or beneath holds exactly when neither path walks back out and the anchor's
    * segments are a prefix of the candidate's. */
  lemma UnderIsSegmentPrefix(anchor: string, candidate: string)
    requires Rooted(anchor) && Rooted(candidate)
    ensures PathIsUnder(anchor, candidate)
      <==> !Escapes(anchor) && !Escapes(candidate) && Segments(anchor) <= Segments(candidate)
  {
    var a, c := TrimRight(anchor, IsSlash), TrimRight(candidate, IsSlash);
    BoundaryIsSegmentPrefix(a, c);
    TrailingSlashesHideNoEscape(anchor);
    TrailingSlashesHideNoEscape(candidate);
    if a == "" && c != "" {
      assert c[0] == '/';
      assert Split(c, '/')[0] == "";
    }
  }

  /** Escaping is having a `..` between slashes, or between a slash and an end. */
  lemma WhatEscapes(path: string)
    ensures Escapes(path) <==> exists before, after :: SegmentsAround(path, before, after)
  {
    hide Split, Join, SegmentsAround;
    if Escapes(path) {
      var parts := Split(path, '/');
      var i :| 0 <= i < |parts| && parts[i] == "..";
      TheSegmentsAround(path, i);
    }
    if before, after :| SegmentsAround(path, before, after) {
      ASegmentAmongOthers(path, before, after);
    }
  }

  lemma TheSegmentsAround(path: string, i: nat)
    requires i < |Split(path, '/')| && Split(path, '/')[i] == ".."
    ensures SegmentsAround(path, Split(path, '/')[..i], Split(path, '/')[i + 1..])
  {
    hide Split, Join;
    var parts := Split(path, '/');
    JoinSplit(path, '/');
    assert parts == parts[..i] + [".."] + parts[i + 1..];
  }

  lemma ASegmentAmongOthers(path: string, before: seq<string>, after: seq<string>)
    requires SegmentsAround(path, before, after)
    ensures Escapes(path)
  {
    hide Split, Join;
    var all := before + [".."] + after;
    SplitJoin(all, '/');
    assert all[|before|] == "..";
  }

  ghost predicate SegmentsAround(path: string, before: seq<string>, after: seq<string>) {
    && (forall i :: 0 <= i < |before| ==> '/' !in before[i]) && (forall i :: 0 <= i < |after| ==> '/' !in after[i])
    && path == Join(before + [".."] + after, "/")
  }

  lemma {:induction false} TrailingSlashesHideNoEscape(path: string)
    ensures Escapes(TrimRight(path, IsSlash)) == Escapes(path)
  {
    if path != "" && IsSlash(path[|path| - 1]) {
      var front := path[..|path| - 1];
      TrailingSlashesHideNoEscape(front);
      SplitAtSeparator(front, '/', "");
      assert path == front + ['/'] + "";
      assert Split(path, '/') == Split(front, '/') + [""];
    }
  }

  lemma UnderIsAPreorder(p: string, q: string, r: string)
    requires Rooted(p) && Rooted(q) && Rooted(r)
    ensures PathIsUnder(p, p) <==> !Escapes(p)
    ensures PathIsUnder(p, q) && PathIsUnder(q, r) ==> PathIsUnder(p, r)
  {
    UnderIsSegmentPrefix(p, p);
    UnderIsSegmentPrefix(p, q);
    UnderIsSegmentPrefix(q, r);
    UnderIsSegmentPrefix(p, r);
  }

  // ---------------------------------------------------------------- the conventional location

  function ConventionalJwksUrl(issuer: string): string {
    var trimmed := TrimRight(Strip(issuer), IsSlash);
    if trimmed != "" then trimmed + WELL_KNOWN else ""
  }

  function ResolveJwksUrl(explicit: string, issuer: string): string {
    if Strip(explicit) != "" then Strip(explicit) else ConventionalJwksUrl(issuer)
  }

  /** A location that is configured wins, whatever the issuer. */
  lemma AnExplicitLocationWins(explicit: string, issuer: string, location: string)
    requires location != "" && StripsTo(explicit, location, IsSpace)
    ensures ResolveJwksUrl(explicit, issuer) == location
  {
    TrimStrips(explicit, location, IsSpace);
  }

  /** With none configured the location is the stripped issuer without its last slashes and the well-known
    * path; with no issuer either there is none. */
  lemma OtherwiseTheIssuerDecides(explicit: string, issuer: string, kept: string, slashes: string)
    requires AllOut(explicit, IsSpace) && StripsTo(issuer, kept + slashes, IsSpace)
    requires AllOut(slashes, IsSlash) && (kept == "" || kept[|kept| - 1] != '/')
    ensures ResolveJwksUrl(explicit, issuer) == if kept == "" then "" else kept + "/.well-known/jwks.json"
  {
    hide AllOut, StripsTo, Trim, TrimRight, IsSpace;
    BlankIsAllSpace(explicit);
    TrimStrips(issuer, kept + slashes, IsSpace);
    SlashesAreTrimmed(kept, slashes);
    TheWellKnownPath();
  }

  lemma SlashesAreTrimmed(kept: string, slashes: string)
    requires AllOut(slashes, IsSlash) && (kept == "" || kept[|kept| - 1] != '/')
    ensures TrimRight(kept + slashes, IsSlash) == kept
  {
    hide TrimRight;
    var s := kept + slashes;
    assert forall i :: |kept| <= i < |s| ==> s[i] == slashes[i - |kept|];
    assert kept != "" ==> s[|kept| - 1] == kept[|kept| - 1];
  }

  lemma TheWellKnownPath()
    ensures WELL_KNOWN == "/.well-known/jwks.json"
  {
    assert ['/'] + (".well-known" + ['/'] + "jwks.json") == "/.well-known/jwks.json";
  }

  /** A URL as written, with no query and no fragment; `netloc` carries the host and the port. */
  function Written(scheme: string, netloc: string, path: string): string {
    scheme + "://" + netloc + path
  }

  /** The conventional location keeps scheme and authority and extends the issuer's path. */
  lemma TheConventionExtendsThePath(explicit: string, scheme: string, netloc: string, path: string)
    requires Strip(explicit) == ""
    requires netloc != "" && '/' !in netloc && Rooted(path)
    requires Trimmed(Written(scheme, netloc, path), IsSpace)
    ensures ResolveJwksUrl(explicit, Written(scheme, netloc, path))
         == Written(scheme, netloc, TrimRight(path, IsSlash) + WELL_KNOWN)
    ensures WELL_KNOWN == "/.well-known/jwks.json"
  {
    TheWellKnownPath();
    var head := scheme + "://" + netloc;
    EndsWith(scheme + "://", netloc);
    assert netloc[|netloc| - 1] in netloc;
    TheConventionAppends(head, path);
    Associates(head, TrimRight(path, IsSlash), WELL_KNOWN);
  }

  lemma TheConventionAppends(head: string, path: string)
    requires head != "" && !IsSlash(head[|head| - 1])
    requires Trimmed(head + path, IsSpace)
    ensures ConventionalJwksUrl(head + path) == head + TrimRight(path, IsSlash) + WELL_KNOWN
  {
    TrimTrims(head + path, IsSpace);
    TrimRightAppend(head, path, IsSlash);
    assert TrimRight(head, IsSlash) == head;
    if TrimRight(path, IsSlash) == "" {
      assert head + TrimRight(path, IsSlash) == head;
    }
  }

  lemma EndsWith(a: string, b: string)
    requires b != ""
    ensures (a + b)[|a + b| - 1] == b[|b| - 1]
  {
  }

  /** The conventional location of an http(s) issuer with a host derives from that issuer exactly
    * when the issuer's own path has no `..` segment. */
  lemma TheConventionDerives(issuer: Url)
    requires Permitted(issuer.scheme) && issuer.host != "" && Rooted(issuer.path)
    ensures DerivesFromIssuer(Some(issuer), Some(issuer.(path := TrimRight(issuer.path, IsSlash) + WELL_KNOWN)))
      <==> !Escapes(issuer.path)
  {
    var a := TrimRight(issuer.path, IsSlash);
    var c := a + WELL_KNOWN;
    TrailingSlashesHideNoEscape(issuer.path);
    assert TrimRight(c, IsSlash) == c;
    WellKnownSegments(a);
    if a != "" {
      assert c[..|a| + 1] == a + "/";
    }
  }

  lemma WellKnownSegments(a: string)
    ensures Split(a + WELL_KNOWN, '/') == Split(a, '/') + [".well-known", "jwks.json"]
  {
    TwoMoreSegments(a, ".well-known", "jwks.json");
    Associates(a, ['/'], ".well-known" + ['/'] + "jwks.json");
  }

  lemma TwoMoreSegments(a: string, x: string, y: string)
    requires '/' !in x && '/' !in y
    ensures Split(a + ['/'] + (x + ['/'] + y), '/') == Split(a, '/') + [x, y]
  {
    SplitAtSeparator(a, '/', x + ['/'] + y);
    SplitAtSeparator(x, '/', y);
    SplitWithout(x, '/');
    SplitWithout(y, '/');
  }

  /** An issuer whose path walks back out does not anchor even its own conventional location. */
  lemma ADotDotIssuerAnchorsNothing()
    ensures var issuer := Url("https", "idp.example.com", None, "/..");
      !DerivesFromIssuer(Some(issuer), Some(issuer.(path := issuer.path + WELL_KNOWN)))
  {
    SplitAtSeparator("", '/', "..");
    SplitWithout("..", '/');
    assert "" + ['/'] + ".." == "/..";
    assert TrimRight("/..", IsSlash) == "/..";
    TheConventionDerives(Url("https", "idp.example.com", None, "/.."));
  }
}
