/** What a persona signs in with, told of the payload itself (`config/local_dev/personas.py`). */
module PersonaSignIns {
  import opened Core
  import opened Text
  import opened Claims
  import opened Personas
  import GroupSync

  // -------------------------------------------------------------------------- the group names

  /** A declared group asserts the configured name when it is a placeholder, and itself otherwise. */
  ghost predicate Becomes(group: string, designated: map<string, string>, name: string) {
    if group in designated then name == designated[group] else name == group
  }

  ghost predicate ComesFrom(groups: seq<string>, designated: map<string, string>, name: string) {
    exists i :: 0 <= i < |groups| && Becomes(groups[i], designated, name)
  }

  /** Some group becomes `name`, and no group up to that one becomes `other`. */
  ghost predicate ComesBefore(groups: seq<string>, designated: map<string, string>, name: string, other: string) {
    exists i ::
      && 0 <= i < |groups| && Becomes(groups[i], designated, name)
      && forall j :: 0 <= j <= i ==> !Becomes(groups[j], designated, other)
  }

  /** The names a persona asserts: what its groups become, each once, in declaration order. */
  ghost predicate AreTheNames(groups: seq<string>, designated: map<string, string>, names: seq<string>) {
    && (forall name :: name in names <==> ComesFrom(groups, designated, name))
    && (forall i, j :: 0 <= i < j < |names| ==> ComesBefore(groups, designated, names[i], names[j]))
  }

  lemma WhichNamesAPersonaAsserts(groups: seq<string>, designated: map<string, string>)
    ensures AreTheNames(groups, designated, ResolveGroups(groups, designated))
  {
    var each := Substituted(groups, designated);
    var names := ResolveGroups(groups, designated);
    forall i, name | 0 <= i < |groups| ensures Becomes(groups[i], designated, name) <==> each[i] == name {
    }
    forall name ensures name in names <==> ComesFrom(groups, designated, name) {
      SubstitutedComesFrom(groups, designated, name);
    }
    GroupSync.DeduplicatedKeepsOrder(each);
    forall i, j | 0 <= i < j < |names| ensures ComesBefore(groups, designated, names[i], names[j]) {
      FirstComesBefore(groups, designated, names[i], names[j]);
    }
  }

  lemma SubstitutedComesFrom(groups: seq<string>, designated: map<string, string>, name: string)
    ensures name in Substituted(groups, designated) <==> ComesFrom(groups, designated, name)
  {
    var each := Substituted(groups, designated);
    assert |each| == |groups|;
    assert forall i :: 0 <= i < |groups| ==> (Becomes(groups[i], designated, name) <==> each[i] == name);
  }

  lemma FirstComesBefore(groups: seq<string>, designated: map<string, string>, name: string, other: string)
    requires name in Substituted(groups, designated)
    requires var each := Substituted(groups, designated); GroupSync.First(each, name) < GroupSync.First(each, other)
    ensures ComesBefore(groups, designated, name, other)
  {
    var each := Substituted(groups, designated);
    var k := GroupSync.First(each, name);
    assert forall i :: 0 <= i < |groups| ==> (Becomes(groups[i], designated, name) <==> each[i] == name);
    assert forall i :: 0 <= i < |groups| ==> (Becomes(groups[i], designated, other) <==> each[i] == other);
    assert Becomes(groups[k], designated, name);
  }

  // ----------------------------------------------------------------------------- the payload

  ghost predicate IsListOf(value: Json, names: seq<string>) {
    value.List? && |value.items| == |names| && forall i :: 0 <= i < |names| ==> value.items[i] == Str(names[i])
  }

  /** One of the values a persona signs in with, and the names it stands under. */
  ghost predicate IsSignedIn(p: Persona, identityClaim: string, groupClaim: string, designated: map<string, string>,
                             names: seq<string>, value: Json) {
    || (names == ["preferred_username"] && value == Str(p.username))
    || (names == ["email"] && value == Str(p.email))
    || (names == ["name"] && value == Str(p.name))
    || (names == Split(identityClaim, '.') && value == Str(p.subject))
    || (names == Split(groupClaim, '.')
        && exists groups :: AreTheNames(p.groups, designated, groups) && IsListOf(value, groups))
  }

  /** What a built payload holds: the subject and the names under the two configured claims, the three
    * profile texts under their own where a configured claim is not put there, and nothing else. */
  lemma WhatAPersonaSignsInWith(p: Persona, identityClaim: string, groupClaim: string, designated: map<string, string>)
    requires Built(p, identityClaim, groupClaim, designated).Success?
    ensures var i, g := Split(identityClaim, '.'), Split(groupClaim, '.');
      var claims := Obj(Built(p, identityClaim, groupClaim, designated).value);
      && (i[|i| - 1] != "" && Unrelated(g, i) ==> LeadsTo(claims, i, Str(p.subject)))
      && (g[|g| - 1] != "" ==> exists value, names ::
            AreTheNames(p.groups, designated, names) && IsListOf(value, names) && LeadsTo(claims, g, value))
      && (Unrelated(i, ["preferred_username"]) && Unrelated(g, ["preferred_username"]) ==>
            LeadsTo(claims, ["preferred_username"], Str(p.username)))
      && (Unrelated(i, ["email"]) && Unrelated(g, ["email"]) ==> LeadsTo(claims, ["email"], Str(p.email)))
      && (Unrelated(i, ["name"]) && Unrelated(g, ["name"]) ==> LeadsTo(claims, ["name"], Str(p.name)))
      && (forall names, value: Json :: names != [] && !value.Obj? && LeadsTo(claims, names, value) ==>
            IsSignedIn(p, identityClaim, groupClaim, designated, names, value))
  {
    hide Set, Built, Walk, LeadsTo, ResolveGroups, Strings, AreTheNames, Split, IsListOf, Unrelated, Base, IsSignedIn;
    var i, g := Split(identityClaim, '.'), Split(groupClaim, '.');
    var names := ResolveGroups(p.groups, designated);
    WhichNamesAPersonaAsserts(p.groups, designated);
    StringsList(names);
    var first, claims := BuiltBySegments(p, identityClaim, groupClaim, designated);
    var groups := Strings(names);
    WhatAWriteLeaves(Base(p), i, Str(p.subject), i, Str(p.subject));
    WhatAWriteLeaves(first, g, groups, i, Str(p.subject));
    TheProfileStays(first, p, i, g, groups);
    forall others, value: Json | others != [] && !value.Obj? && LeadsTo(Obj(claims), others, value)
      ensures IsSignedIn(p, identityClaim, groupClaim, designated, others, value)
    {
      NothingElseIsThere(p, identityClaim, groupClaim, designated, first, others, value);
    }
  }

  lemma TheProfileStays(first: Payload, p: Persona, i: seq<string>, g: seq<string>, groups: Json)
    requires i != [] && g != []
    requires Set(Base(p), i, Str(p.subject)) == Success(first) && Set(first, g, groups).Success?
    ensures var claims := Obj(Set(first, g, groups).value);
      && (Unrelated(i, ["preferred_username"]) && Unrelated(g, ["preferred_username"]) ==>
            LeadsTo(claims, ["preferred_username"], Str(p.username)))
      && (Unrelated(i, ["email"]) && Unrelated(g, ["email"]) ==> LeadsTo(claims, ["email"], Str(p.email)))
      && (Unrelated(i, ["name"]) && Unrelated(g, ["name"]) ==> LeadsTo(claims, ["name"], Str(p.name)))
  {
    hide Set, LeadsTo, Unrelated;
    if Unrelated(i, ["preferred_username"]) && Unrelated(g, ["preferred_username"]) {
      AProfileTextStays(first, p, i, g, groups, "preferred_username", p.username);
    }
    if Unrelated(i, ["email"]) && Unrelated(g, ["email"]) {
      AProfileTextStays(first, p, i, g, groups, "email", p.email);
    }
    if Unrelated(i, ["name"]) && Unrelated(g, ["name"]) {
      AProfileTextStays(first, p, i, g, groups, "name", p.name);
    }
  }

  lemma NothingElseIsThere(p: Persona, identityClaim: string, groupClaim: string, designated: map<string, string>,
                           first: Payload, names: seq<string>, value: Json)
    requires names != [] && !value.Obj?
    requires Set(Base(p), Split(identityClaim, '.'), Str(p.subject)) == Success(first)
    requires var after := Set(first, Split(groupClaim, '.'), Strings(ResolveGroups(p.groups, designated)));
      after.Success? && LeadsTo(Obj(after.value), names, value)
    ensures IsSignedIn(p, identityClaim, groupClaim, designated, names, value)
  {
    hide Set, LeadsTo, ResolveGroups, AreTheNames, Split, IsListOf, Unrelated, Base;
    var groups := ResolveGroups(p.groups, designated);
    WhatAWriteLeaves(first, Split(groupClaim, '.'), Strings(groups), names, value);
    WhichNamesAPersonaAsserts(p.groups, designated);
    StringsList(groups);
    if LeadsTo(Obj(first), names, value) {
      WhatAWriteLeaves(Base(p), Split(identityClaim, '.'), Str(p.subject), names, value);
      if LeadsTo(Obj(Base(p)), names, value) {
        TheProfileHolds(p, names, value);
      }
    }
  }

  lemma StringsList(names: seq<string>)
    ensures IsListOf(Strings(names), names)
  {
    StringItemsHold(names);
  }

  lemma {:induction false} StringItemsHold(names: seq<string>)
    ensures |StringItems(names)| == |names| && forall i :: 0 <= i < |names| ==> StringItems(names)[i] == Str(names[i])
  {
    if names != [] {
      StringItemsHold(names[1..]);
    }
  }

  lemma AFieldIsLedTo(payload: Payload, name: string)
    requires name in payload
    ensures LeadsTo(Obj(payload), [name], payload[name])
  {
    assert Chained([Obj(payload), payload[name]], [name]);
  }

  /** What a write puts at its own place and leaves at every other. */
  lemma WhatAWriteLeaves(payload: Payload, segments: seq<string>, value: Json, names: seq<string>, held: Json)
    requires segments != [] && names != [] && Set(payload, segments, value).Success?
    ensures segments[|segments| - 1] != "" ==> LeadsTo(Obj(Set(payload, segments, value).value), segments, value)
    ensures Unrelated(segments, names) && LeadsTo(Obj(payload), names, held) ==>
      LeadsTo(Obj(Set(payload, segments, value).value), names, held)
    ensures !value.Obj? && !held.Obj? && LeadsTo(Obj(Set(payload, segments, value).value), names, held) ==>
      LeadsTo(Obj(payload), names, held) || (names == segments && held == value)
  {
    hide Set, Walk, LeadsTo, Unrelated;
    var after := Set(payload, segments, value).value;
    if Last(segments) != "" {
      ReadAfterWrite(payload, segments, value);
      WalkFollowsTheMappings(Obj(after), segments, value);
    }
    WalkFollowsTheMappings(Obj(payload), names, held);
    WalkFollowsTheMappings(Obj(after), names, held);
    if Unrelated(segments, names) {
      WriteElsewhere(payload, segments, value, names);
    }
    if !value.Obj? && !held.Obj? && LeadsTo(Obj(after), names, held) {
      AWriteAddsOneValue(payload, segments, value, names);
    }
  }

  lemma AProfileTextStays(first: Payload, p: Persona, i: seq<string>, g: seq<string>, groups: Json, claim: string,
                          text: string)
    requires claim in Base(p) && Base(p)[claim] == Str(text) && i != [] && g != []
    requires Set(Base(p), i, Str(p.subject)) == Success(first) && Set(first, g, groups).Success?
    requires Unrelated(i, [claim]) && Unrelated(g, [claim])
    ensures LeadsTo(Obj(Set(first, g, groups).value), [claim], Str(text))
  {
    hide Set, LeadsTo, Unrelated, Base;
    AFieldIsLedTo(Base(p), claim);
    WhatAWriteLeaves(Base(p), i, Str(p.subject), [claim], Str(text));
    WhatAWriteLeaves(first, g, groups, [claim], Str(text));
  }

  lemma TheProfileHolds(p: Persona, names: seq<string>, value: Json)
    requires names != [] && !value.Obj? && LeadsTo(Obj(Base(p)), names, value)
    ensures (names == ["preferred_username"] && value == Str(p.username))
      || (names == ["email"] && value == Str(p.email)) || (names == ["name"] && value == Str(p.name))
  {
    WalkFollowsTheMappings(Obj(Base(p)), names, value);
    WalkHead(Base(p), names);
    assert |names| == 1 ==> names == [names[0]];
  }
}
