/** Building the claims a persona signs in with (`config/local_dev/personas.py`), and reading them back. */
module Personas {
  import opened Core
  import opened Text
  import opened Claims

  const USERNAME_CLAIM := "preferred_username"
  const EMAIL_CLAIM := "email"
  const NAME_CLAIM := "name"

  datatype Persona = Persona(subject: string, username: string, email: string, name: string, groups: seq<string>)

  /** The one refusal: a name runs through a value another name has put there. */
  datatype Overlap = OverlappingClaimNames

  /** Substitutes the designated-group placeholders, each name once, in declaration order. */
  function ResolveGroups(groups: seq<string>, designated: map<string, string>): seq<string> {
    Deduplicated(Substituted(groups, designated))
  }

  function Substituted(groups: seq<string>, designated: map<string, string>): seq<string> {
    seq(|groups|, i requires 0 <= i < |groups| => if groups[i] in designated then designated[groups[i]] else groups[i])
  }

  /** The index `str.partition` splits at. */
  function FirstDot(path: string): (k: nat)
    ensures k <= |path| && '.' !in path[..k] && (k < |path| ==> path[k] == '.')
  {
    if path == "" || path[0] == '.' then 0 else 1 + FirstDot(path[1..])
  }

  /** `_set_dotted` as a function of the mapping it is called on. */
  function SetDotted(payload: Payload, path: string, value: Json): Result<Payload, Overlap>
    decreases |path|
  {
    if path == "" then Success(payload)
    else
      var k := FirstDot(path);
      if k == |path| then Success(payload[path := value])
      else
        var head, tail := path[..k], path[k + 1..];
        var nested := if head in payload then payload[head] else Obj(map[]);
        if !nested.Obj? then Failure(OverlappingClaimNames)
        else
          match SetDotted(nested.fields, tail, value)
          case Success(fields) => Success(payload[head := Obj(fields)])
          case Failure(_) => Failure(OverlappingClaimNames)
  }

  function Base(p: Persona): Payload {
    map[USERNAME_CLAIM := Str(p.username), EMAIL_CLAIM := Str(p.email), NAME_CLAIM := Str(p.name)]
  }

  function Built(p: Persona, identityClaim: string, groupClaim: string, designated: map<string, string>)
    : Result<Payload, Overlap>
  {
    match SetDotted(Base(p), identityClaim, Str(p.subject))
    case Failure(_) => Failure(OverlappingClaimNames)
    case Success(first) => SetDotted(first, groupClaim, Strings(ResolveGroups(p.groups, designated)))
  }

  // --------------------------------------------------------------------- the writer, by segments

  function Set(payload: Payload, segments: seq<string>, value: Json): Result<Payload, Overlap>
    requires segments != []
    decreases |segments|
  {
    if |segments| == 1 then
      if segments[0] == "" then Success(payload) else Success(payload[segments[0] := value])
    else
      var nested := if segments[0] in payload then payload[segments[0]] else Obj(map[]);
      if !nested.Obj? then Failure(OverlappingClaimNames)
      else
        match Set(nested.fields, segments[1..], value)
        case Success(fields) => Success(payload[segments[0] := Obj(fields)])
        case Failure(_) => Failure(OverlappingClaimNames)
  }

  lemma SplitHeadAndTail(head: string, tail: string)
    requires '.' !in head
    ensures Split(head + ['.'] + tail, '.') == [head] + Split(tail, '.')
  {
    SplitWithout(head, '.');
    SplitAtSeparator(head, '.', tail);
  }

  lemma SplitAtFirstDot(path: string)
    ensures FirstDot(path) == |path| ==> Split(path, '.') == [path]
    ensures FirstDot(path) < |path| ==>
      Split(path, '.') == [path[..FirstDot(path)]] + Split(path[FirstDot(path) + 1..], '.')
  {
    var k := FirstDot(path);
    if k < |path| {
      SplitHeadAndTail(path[..k], path[k + 1..]);
      Halves(path, k);
    } else {
      assert path[..k] == path;
      SplitWithout(path, '.');
    }
  }

  lemma Halves(path: string, k: nat)
    requires k < |path| && path[k] == '.'
    ensures path[..k] + ['.'] + path[k + 1..] == path
  {
  }

  /** The writer splits on exactly the rule the reader splits on. */
  lemma {:induction false} TheWriterSplitsAsTheReader(payload: Payload, path: string, value: Json)
    ensures SetDotted(payload, path, value) == Set(payload, Split(path, '.'), value)
    decreases |path|
  {
    hide Split, FirstDot;
    SplitAtFirstDot(path);
    var k := FirstDot(path);
    if path != "" && k < |path| {
      var head, tail := path[..k], path[k + 1..];
      var parts := Split(path, '.');
      assert parts[0] == head && parts[1..] == Split(tail, '.') && |parts| > 1;
      var nested := if head in payload then payload[head] else Obj(map[]);
      if nested.Obj? {
        TheWriterSplitsAsTheReader(nested.fields, tail, value);
      }
    }
  }

  // -------------------------------------------------------------- the writer, on one shared payload

  /** The mapping some names lead to inside a payload. */
  function FieldsAt(payload: Payload, names: seq<string>): Option<Payload>
    decreases names
  {
    if names == [] then Some(payload)
    else if names[0] in payload && payload[names[0]].Obj? then FieldsAt(payload[names[0]].fields, names[1..])
    else None
  }

  /** The payload with that mapping replaced. */
  function WithFields(payload: Payload, names: seq<string>, fields: Payload): Payload
    requires FieldsAt(payload, names).Some?
    decreases names
  {
    if names == [] then fields
    else payload[names[0] := Obj(WithFields(payload[names[0]].fields, names[1..], fields))]
  }

  lemma {:induction false} WithFieldsReads(payload: Payload, names: seq<string>, fields: Payload, more: Payload)
    requires FieldsAt(payload, names).Some?
    ensures FieldsAt(WithFields(payload, names, fields), names) == Some(fields)
    ensures WithFields(WithFields(payload, names, fields), names, more) == WithFields(payload, names, more)
    ensures WithFields(payload, names, FieldsAt(payload, names).value) == payload
    decreases names
  {
    if names != [] {
      WithFieldsReads(payload[names[0]].fields, names[1..], fields, more);
    }
  }

  lemma {:induction false} OneLevelDown(payload: Payload, names: seq<string>, head: string, fields: Payload)
    requires FieldsAt(payload, names).Some? && head in FieldsAt(payload, names).value
    requires FieldsAt(payload, names).value[head].Obj?
    ensures FieldsAt(payload, names + [head]) == Some(FieldsAt(payload, names).value[head].fields)
    ensures WithFields(payload, names + [head], fields)
         == WithFields(payload, names, FieldsAt(payload, names).value[head := Obj(fields)])
    decreases names
  {
    if names == [] {
      assert names + [head] == [head];
    } else {
      OneLevelDown(payload[names[0]].fields, names[1..], head, fields);
      assert (names + [head])[1..] == names[1..] + [head];
    }
  }

  /** Below a mapping that has just been made there is nothing to pass through. */
  lemma {:induction false} ANewMappingNeverRefuses(path: string, value: Json)
    ensures SetDotted(map[], path, value).Success?
    decreases |path|
  {
    var k := FirstDot(path);
    if path != "" && k < |path| {
      ANewMappingNeverRefuses(path[k + 1..], value);
    }
  }

  /** The payload under construction: one object, written level by level. */
  class ClaimsPayload {
    var claims: Payload

    constructor (claims: Payload)
      ensures this.claims == claims
    {
      this.claims := claims;
    }

    /** `nested.setdefault(head, {})` on the mapping at `at`. */
    method SetDefault(at: seq<string>, head: string)
      requires FieldsAt(claims, at).Some?
      modifies this
      ensures FieldsAt(old(claims), at).Some?
      ensures var here := FieldsAt(old(claims), at).value;
        claims == if head in here then old(claims) else WithFields(old(claims), at, here[head := Obj(map[])])
    {
      var here := FieldsAt(claims, at).value;
      if head !in here {
        claims := WithFields(claims, at, here[head := Obj(map[])]);
      }
    }

    /** `_set_dotted` on the mapping at `at`. Each level's default is written before the level is checked;
      * a refusal leaves what the calls above and this one have written, and that is what was there. */
    method SetAt(at: seq<string>, path: string, value: Json) returns (ok: bool)
      requires FieldsAt(claims, at).Some?
      modifies this
      ensures FieldsAt(old(claims), at).Some?
      ensures var written := SetDotted(FieldsAt(old(claims), at).value, path, value);
        && ok == written.Success?
        && claims == if ok then WithFields(old(claims), at, written.value) else old(claims)
      decreases |path|
    {
      hide FirstDot, FieldsAt, WithFields;
      ghost var before, fields := claims, FieldsAt(claims, at).value;
      WithFieldsReads(before, at, fields, fields);
      if path == "" {
        return true;
      }
      var k := FirstDot(path);
      if k == |path| {
        claims := WithFields(claims, at, FieldsAt(claims, at).value[path := value]);
        return true;
      }
      var head, tail := path[..k], path[k + 1..];
      SetDefault(at, head);
      ghost var made := if head in fields then fields else fields[head := Obj(map[])];
      WithFieldsReads(before, at, made, made);
      if !FieldsAt(claims, at).value[head].Obj? {
        return false;
      }
      ghost var inner := SetDotted(made[head].fields, tail, value);
      OneLevelDown(claims, at, head, if inner.Success? then inner.value else map[]);
      ok := SetAt(at + [head], tail, value);
      if ok {
        WithFieldsReads(before, at, made, made[head := Obj(inner.value)]);
        assert made[head := Obj(inner.value)] == fields[head := Obj(inner.value)];
      } else if head !in fields {
        ANewMappingNeverRefuses(tail, value);
      }
    }

    /** One claim: the write at all the segments of its name, or a refusal that leaves the payload as it was. */
    method Write(path: string, value: Json) returns (ok: bool)
      modifies this
      ensures ok == Set(old(claims), Split(path, '.'), value).Success?
      ensures claims == if ok then Set(old(claims), Split(path, '.'), value).value else old(claims)
    {
      TheWriterSplitsAsTheReader(claims, path, value);
      ok := SetAt([], path, value);
    }
  }

  method BuildClaims(p: Persona, identityClaim: string, groupClaim: string, designated: map<string, string>)
    returns (r: Result<Payload, Overlap>)
    ensures r == Built(p, identityClaim, groupClaim, designated)
  {
    var payload := new ClaimsPayload(Base(p));
    TheWriterSplitsAsTheReader(payload.claims, identityClaim, Str(p.subject));
    var ok := payload.Write(identityClaim, Str(p.subject));
    if !ok {
      return Failure(OverlappingClaimNames);
    }
    TheWriterSplitsAsTheReader(payload.claims, groupClaim, Strings(ResolveGroups(p.groups, designated)));
    ok := payload.Write(groupClaim, Strings(ResolveGroups(p.groups, designated)));
    if !ok {
      return Failure(OverlappingClaimNames);
    }
    r := Success(payload.claims);
  }

  lemma WalkHead(payload: Payload, name: seq<string>)
    requires name != []
    ensures Walk(Obj(payload), name) ==
      if name[0] !in payload then None
      else if |name| == 1 then Some(payload[name[0]])
      else Walk(payload[name[0]], name[1..])
    ensures forall v: Json :: !v.Obj? ==> Walk(v, name) == None
  {
    if |name| == 1 {
      assert name[1..] == [];
    }
  }

  function Last(segments: seq<string>): string
    requires segments != []
  {
    segments[|segments| - 1]
  }

  predicate Unrelated(a: seq<string>, b: seq<string>) {
    !(a <= b) && !(b <= a)
  }

  /** What was written is what is read; a trailing dot is the one case in which nothing is written. */
  lemma {:induction false} ReadAfterWrite(payload: Payload, segments: seq<string>, value: Json)
    requires segments != [] && Last(segments) != "" && Set(payload, segments, value).Success?
    ensures Walk(Obj(Set(payload, segments, value).value), segments) == Some(value)
    decreases |segments|
  {
    if |segments| > 1 {
      var nested := if segments[0] in payload then payload[segments[0]] else Obj(map[]);
      ReadAfterWrite(nested.fields, segments[1..], value);
    } else {
      assert segments[1..] == [];
    }
  }

  /** A write does not disturb any name it is not nested with. */
  lemma {:induction false} WriteElsewhere(payload: Payload, segments: seq<string>, value: Json, other: seq<string>)
    requires segments != [] && other != [] && Unrelated(segments, other) && Set(payload, segments, value).Success?
    ensures Walk(Obj(Set(payload, segments, value).value), other) == Walk(Obj(payload), other)
    decreases |segments|
  {
    var q := Set(payload, segments, value).value;
    if other[0] == segments[0] {
      HeadsAgree(segments, other);
      var nested := if segments[0] in payload then payload[segments[0]] else Obj(map[]);
      WriteElsewhere(nested.fields, segments[1..], value, other[1..]);
      if segments[0] !in payload {
        assert other[1..] != [];
        assert Walk(Obj(map[]), other[1..]) == None;
      }
    }
  }

  lemma HeadsAgree(a: seq<string>, b: seq<string>)
    requires a != [] && b != [] && a[0] == b[0]
    ensures a <= b <==> a[1..] <= b[1..]
    ensures Unrelated(a, b) ==> |a| > 1 && |b| > 1 && Unrelated(a[1..], b[1..])
  {
    if a[1..] <= b[1..] {
      assert a == [a[0]] + a[1..] && b == [b[0]] + b[1..];
    }
    if b[1..] <= a[1..] {
      assert a == [a[0]] + a[1..] && b == [b[0]] + b[1..];
    }
  }

  /** The refusal, in terms of the payload before the write: some proper prefix leads to a leaf. */
  lemma {:induction false} RefusedExactlyThroughAValue(payload: Payload, segments: seq<string>, value: Json)
    requires segments != []
    ensures Set(payload, segments, value).Failure? <==> ThroughAValue(payload, segments)
    decreases |segments|
  {
    if |segments| > 1 {
      var nested := if segments[0] in payload then payload[segments[0]] else Obj(map[]);
      if nested.Obj? {
        RefusedExactlyThroughAValue(nested.fields, segments[1..], value);
        assert forall k :: 1 <= k < |segments| ==>
          segments[..k][0] == segments[0] && segments[..k][1..] == segments[1..][..k - 1];
        if ThroughAValue(nested.fields, segments[1..]) {
          var k :| 1 <= k < |segments[1..]| && Blocks(nested.fields, segments[1..][..k]);
          assert Blocks(payload, segments[..k + 1]);
        }
        if ThroughAValue(payload, segments) {
          var k :| 1 <= k < |segments| && Blocks(payload, segments[..k]);
          WalkHead(payload, segments[..1]);
          assert Blocks(nested.fields, segments[1..][..k - 1]);
        }
      } else {
        assert segments[..1][1..] == [];
        assert Blocks(payload, segments[..1]);
      }
    }
  }

  predicate Blocks(payload: Payload, name: seq<string>) {
    var held := Walk(Obj(payload), name);
    held.Some? && !held.value.Obj?
  }

  ghost predicate ThroughAValue(payload: Payload, segments: seq<string>) {
    exists k :: 1 <= k < |segments| && Blocks(payload, segments[..k])
  }

  /** A write adds one value and no other. */
  lemma {:induction false} AWriteAddsOneValue(payload: Payload, segments: seq<string>, value: Json, name: seq<string>)
    requires segments != [] && name != [] && !value.Obj? && Set(payload, segments, value).Success?
    requires Blocks(Set(payload, segments, value).value, name)
    ensures Walk(Obj(Set(payload, segments, value).value), name) == Walk(Obj(payload), name)
      || (name == segments && Last(segments) != ""
          && Walk(Obj(Set(payload, segments, value).value), name) == Some(value))
    decreases |segments|
  {
    if name[0] == segments[0] {
      if |segments| > 1 {
        WalkHead(Set(payload, segments, value).value, name);
        var nested := if segments[0] in payload then payload[segments[0]] else Obj(map[]);
        AWriteAddsOneValue(nested.fields, segments[1..], value, name[1..]);
        assert name[1..] == segments[1..] ==> name == segments by {
          assert name == [name[0]] + name[1..] && segments == [segments[0]] + segments[1..];
        }
        if segments[0] !in payload {
          assert Walk(Obj(map[]), name[1..]) == None;
        }
      } else if segments[0] != "" {
        WalkHead(Set(payload, segments, value).value, name);
        assert |name| == 1 ==> name == [name[0]] == segments;
      }
    }
  }

  // ------------------------------------------------------------------------- the round trip

  ghost predicate NoDots(payload: Payload) {
    forall k :: k in payload ==> '.' !in k
  }

  lemma WritingKeepsKeysDotless(payload: Payload, path: string, value: Json)
    requires NoDots(payload) && SetDotted(payload, path, value).Success?
    ensures NoDots(SetDotted(payload, path, value).value)
  {
    TheWriterSplitsAsTheReader(payload, path, value);
  }

  /** On a payload whose own keys carry no dot the literal read never shadows a dotted name. */
  lemma TheLiteralReadShadowsNothing(payload: Payload, path: string)
    requires NoDots(payload) && path != ""
    ensures Resolve(payload, path) == OrNull(Walk(Obj(payload), Split(path, '.')))
  {
    if path in payload {
      SplitWithout(path, '.');
      assert [path][1..] == [];
    }
  }

  /** The condition, on the two configured names alone. */
  predicate Compatible(identityClaim: string, groupClaim: string) {
    var p, q := Split(identityClaim, '.'), Split(groupClaim, '.');
    && Last(p) != "" && Last(q) != "" && Unrelated(p, q)
    && !PassesThroughTheProfile(p) && !PassesThroughTheProfile(q)
  }

  /** A dotted name through one of the three profile claims. */
  predicate PassesThroughTheProfile(segments: seq<string>) {
    |segments| > 1 && segments[0] in {USERNAME_CLAIM, EMAIL_CLAIM, NAME_CLAIM}
  }

  ghost predicate ReadsBack(r: Result<Payload, Overlap>, p: Persona, identityClaim: string, groupClaim: string,
                            groups: seq<string>) {
    && r.Success?
    && ReadIdentityKey(r.value, identityClaim) == Some(p.subject)
    && ReadGroupClaim(r.value, groupClaim) == Some(groups)
  }

  /** What either reader makes a name of is a value that is no mapping. */
  lemma AReadValueBlocks(claims: Payload, path: string, segments: seq<string>)
    requires Resolve(claims, path) == OrNull(Walk(Obj(claims), segments))
    ensures ReadIdentityKey(claims, path).Some? || ReadGroupClaim(claims, path).Some? ==> Blocks(claims, segments)
  {
    hide Resolve, Walk;
  }

  lemma TheProfileBlocks(p: Persona, segments: seq<string>)
    requires segments != []
    ensures ThroughAValue(Base(p), segments) <==> PassesThroughTheProfile(segments)
    ensures |segments| > 1 ==> !Blocks(Base(p), segments)
  {
    forall k | 1 <= k <= |segments|
      ensures Blocks(Base(p), segments[..k]) <==> k == 1 && segments[0] in {USERNAME_CLAIM, EMAIL_CLAIM, NAME_CLAIM}
    {
      WalkHead(Base(p), segments[..k]);
      if k > 1 && segments[0] in Base(p) {
        WalkHead(map[], segments[..k][1..]);
      }
    }
    assert segments[..|segments|] == segments;
    if PassesThroughTheProfile(segments) {
      assert Blocks(Base(p), segments[..1]);
    }
  }

  /** When `build_claims` refuses: exactly when a name passes through a profile claim, or the group
    * name passes through the identity key's value. */
  lemma BuildRefusesExactlyWhen(p: Persona, identityClaim: string, groupClaim: string, designated: map<string, string>)
    ensures var i, g := Split(identityClaim, '.'), Split(groupClaim, '.');
      Built(p, identityClaim, groupClaim, designated).Failure?
      <==> PassesThroughTheProfile(i) || PassesThroughTheProfile(g) || (Last(i) != "" && i < g)
  {
    var i, g := Split(identityClaim, '.'), Split(groupClaim, '.');
    var base, subject, groups := Base(p), Str(p.subject), Strings(ResolveGroups(p.groups, designated));
    TheWriterSplitsAsTheReader(base, identityClaim, subject);
    RefusedExactlyThroughAValue(base, i, subject);
    TheProfileBlocks(p, i);
    TheProfileBlocks(p, g);
    if Set(base, i, subject).Success? {
      var first := Set(base, i, subject).value;
      TheWriterSplitsAsTheReader(first, groupClaim, groups);
      RefusedExactlyThroughAValue(first, g, groups);
      SecondWriteBlocked(p, i, g);
    }
  }

  lemma SecondWriteBlocked(p: Persona, i: seq<string>, g: seq<string>)
    requires i != [] && g != [] && Set(Base(p), i, Str(p.subject)).Success?
    ensures ThroughAValue(Set(Base(p), i, Str(p.subject)).value, g)
      <==> PassesThroughTheProfile(g) || (Last(i) != "" && i < g)
  {
    var base, subject := Base(p), Str(p.subject);
    var first := Set(base, i, subject).value;
    TheProfileBlocks(p, g);
    if ThroughAValue(first, g) {
      var k :| 1 <= k < |g| && Blocks(first, g[..k]);
      AWriteAddsOneValue(base, i, subject, g[..k]);
      if Blocks(base, g[..k]) {
        assert ThroughAValue(base, g);
      }
    }
    if Last(i) != "" && i < g {
      ReadAfterWrite(base, i, subject);
      assert g[..|i|] == i && Blocks(first, g[..|i|]);
    }
    if PassesThroughTheProfile(g) {
      RefusedExactlyThroughAValue(base, i, subject);
      TheProfileBlocks(p, i);
      assert i[0] != g[0] || |i| == 1;
      assert g[..1] == [g[0]] && g[..1][1..] == [];
      assert Blocks(first, g[..1]);
    }
  }

  /** For every persona and any two configured names: the payload is built and both readers read back
    * what was written exactly when neither name is empty or ends in a dot, neither is nested with
    * the other, and neither passes through a profile claim. */
  lemma BuildThenReadRoundTrips(p: Persona, identityClaim: string, groupClaim: string, designated: map<string, string>)
    requires IsName(p.subject)
    requires forall n :: n in ResolveGroups(p.groups, designated) ==> IsName(n)
    ensures ReadsBack(Built(p, identityClaim, groupClaim, designated), p, identityClaim, groupClaim,
                      ResolveGroups(p.groups, designated))
      <==> Compatible(identityClaim, groupClaim)
  {
    var groups := ResolveGroups(p.groups, designated);
    var r := Built(p, identityClaim, groupClaim, designated);
    BuildRefusesExactlyWhen(p, identityClaim, groupClaim, designated);
    if Compatible(identityClaim, groupClaim) {
      CompatibleNamesReadBack(p, identityClaim, groupClaim, designated);
    } else if r.Success? {
      IncompatibleNamesDoNot(p, identityClaim, groupClaim, designated);
    }
  }

  /** A build, written by segments, and its two reads, walked. */
  lemma BuiltBySegments(p: Persona, identityClaim: string, groupClaim: string, designated: map<string, string>)
    returns (first: Payload, claims: Payload)
    requires Built(p, identityClaim, groupClaim, designated).Success?
    ensures Built(p, identityClaim, groupClaim, designated) == Success(claims)
    ensures Set(Base(p), Split(identityClaim, '.'), Str(p.subject)) == Success(first)
    ensures Set(first, Split(groupClaim, '.'), Strings(ResolveGroups(p.groups, designated))) == Success(claims)
    ensures identityClaim != "" ==>
      Resolve(claims, identityClaim) == OrNull(Walk(Obj(claims), Split(identityClaim, '.')))
    ensures groupClaim != "" ==> Resolve(claims, groupClaim) == OrNull(Walk(Obj(claims), Split(groupClaim, '.')))
  {
    hide SetDotted, Set, Walk, Resolve, Split, ResolveGroups, Strings, Base, NoDots;
    TheProfileIsDotless(p);
    var base, subject, groups := Base(p), Str(p.subject), Strings(ResolveGroups(p.groups, designated));
    first := SetDotted(base, identityClaim, subject).value;
    claims := SetDotted(first, groupClaim, groups).value;
    TheWriterSplitsAsTheReader(base, identityClaim, subject);
    TheWriterSplitsAsTheReader(first, groupClaim, groups);
    WritingKeepsKeysDotless(base, identityClaim, subject);
    WritingKeepsKeysDotless(first, groupClaim, groups);
    if identityClaim != "" { TheLiteralReadShadowsNothing(claims, identityClaim); }
    if groupClaim != "" { TheLiteralReadShadowsNothing(claims, groupClaim); }
  }

  lemma TheProfileIsDotless(p: Persona)
    ensures NoDots(Base(p))
  {
  }

  lemma CompatibleNamesReadBack(p: Persona, identityClaim: string, groupClaim: string, designated: map<string, string>)
    requires IsName(p.subject)
    requires forall n :: n in ResolveGroups(p.groups, designated) ==> IsName(n)
    requires Compatible(identityClaim, groupClaim) && Built(p, identityClaim, groupClaim, designated).Success?
    ensures ReadsBack(Built(p, identityClaim, groupClaim, designated), p, identityClaim, groupClaim,
                      ResolveGroups(p.groups, designated))
  {
    var i, g := Split(identityClaim, '.'), Split(groupClaim, '.');
    var groups := Strings(ResolveGroups(p.groups, designated));
    var first, claims := BuiltBySegments(p, identityClaim, groupClaim, designated);
    hide Set, Built, Walk, Resolve, Base, ResolveGroups, IsName, ReadName, ReadNames, StringItems, Split;
    ReadAfterWrite(Base(p), i, Str(p.subject));
    ReadAfterWrite(first, g, groups);
    WriteElsewhere(first, g, groups, i);
    ANameReadsBack(p.subject);
    NamesReadBack(ResolveGroups(p.groups, designated));
    AnEmptyNameEndsEmpty();
  }

  lemma AnEmptyNameEndsEmpty()
    ensures Last(Split("", '.')) == ""
  {
  }

  lemma IncompatibleNamesDoNot(p: Persona, identityClaim: string, groupClaim: string, designated: map<string, string>)
    requires !Compatible(identityClaim, groupClaim) && Built(p, identityClaim, groupClaim, designated).Success?
    ensures !ReadsBack(Built(p, identityClaim, groupClaim, designated), p, identityClaim, groupClaim,
                       ResolveGroups(p.groups, designated))
  {
    var i, g := Split(identityClaim, '.'), Split(groupClaim, '.');
    var groups := Strings(ResolveGroups(p.groups, designated));
    var first, claims := BuiltBySegments(p, identityClaim, groupClaim, designated);
    BuildRefusesExactlyWhen(p, identityClaim, groupClaim, designated);
    hide Built, Set, Base, Walk, Strings, ReadIdentityKey, ReadGroupClaim, Blocks, PassesThroughTheProfile;
    if identityClaim == "" || groupClaim == "" {
      NoNameReadsNothing(claims);
    } else {
      AReadValueBlocks(claims, identityClaim, i);
      AReadValueBlocks(claims, groupClaim, g);
      if Last(g) == "" {
        LastOfMany(groupClaim);
        OnlyTheWrittenValuesAreThere(p, first, i, g, groups, g);
      } else if Last(i) == "" {
        LastOfMany(identityClaim);
        OnlyTheWrittenValuesAreThere(p, first, i, g, groups, i);
      } else {
        NoNameAtOrBelowAList(first, g, groups, i, identityClaim);
      }
    }
  }

  lemma NoNameReadsNothing(claims: Payload)
    ensures ReadIdentityKey(claims, "").None? && ReadGroupClaim(claims, "").None?
  {
  }

  lemma NoNameAtOrBelowAList(first: Payload, g: seq<string>, groups: Json, i: seq<string>, path: string)
    requires g != [] && Last(g) != "" && g <= i && groups.List? && Set(first, g, groups).Success?
    requires var claims := Set(first, g, groups).value; Resolve(claims, path) == OrNull(Walk(Obj(claims), i))
    ensures ReadIdentityKey(Set(first, g, groups).value, path).None?
  {
    hide Set, Resolve;
    ReadAfterWrite(first, g, groups);
    WalkThrough(Obj(Set(first, g, groups).value), g, i[|g|..]);
    assert i == g + i[|g|..];
  }

  /** A non-empty name whose last segment is empty has another before it. */
  lemma LastOfMany(path: string)
    requires path != "" && Last(Split(path, '.')) == ""
    ensures |Split(path, '.')| > 1
  {
    JoinSplit(path, '.');
  }

  lemma OnlyTheWrittenValuesAreThere(p: Persona, first: Payload, i: seq<string>, g: seq<string>, groups: Json,
                                     name: seq<string>)
    requires i != [] && g != [] && |name| > 1 && groups.List?
    requires Set(Base(p), i, Str(p.subject)) == Success(first) && Set(first, g, groups).Success?
    ensures Blocks(Set(first, g, groups).value, name) ==> (name == i && Last(i) != "") || (name == g && Last(g) != "")
  {
    TheProfileBlocks(p, name);
    if Blocks(Set(first, g, groups).value, name) {
      AWriteAddsOneValue(first, g, groups, name);
      if Blocks(first, name) {
        AWriteAddsOneValue(Base(p), i, Str(p.subject), name);
      }
    }
  }

  lemma {:induction false} WalkThrough(current: Json, front: seq<string>, back: seq<string>)
    ensures Walk(current, front + back) ==
      var there := Walk(current, front);
      if there.Some? then Walk(there.value, back) else None
  {
    if front == [] {
      assert front + back == back;
    } else if current.Obj? && front[0] in current.fields {
      WalkThrough(current.fields[front[0]], front[1..], back);
      assert (front + back)[1..] == front[1..] + back;
    }
  }
}
