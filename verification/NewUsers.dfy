/** What a first sighting writes and whom a call resolves to, in terms of the claims and the rows
  * (`src/config/authorization/mapper.py`). */
module NewUsers {
  import opened Core
  import opened Text
  import opened Claims
  import opened Usernames
  import opened Mapper
  import F = FirstSightings

  /** A row has this name. */
  ghost predicate Taken(t: Table, name: string) {
    exists p :: p in t && t[p].username == name
  }

  /** A row has this identity key. */
  ghost predicate Known(t: Table, subject: string) {
    exists p :: p in t && t[p].subject == Some(subject)
  }

  /** The text a claim holds, stripped; blank when it is absent or not text. */
  ghost predicate Reads(claims: Payload, name: string, text: string) {
    if name in claims && claims[name].Str? then StripsTo(claims[name].s, text, IsSpace) else text == ""
  }

  /** The first `limit` characters of a text. */
  ghost predicate IsCutTo(r: string, text: string, limit: nat) {
    |r| <= limit && r <= text && (|r| < limit ==> r == text)
  }

  /** The name asked for, the digest form and the key's own rendering, in the order they are tried: what
    * renders to nothing gives way to the next in line. */
  ghost predicate TriedInOrder(claims: Payload, subject: string, hex: string -> string, asked: string, derived: string,
                               own: string) {
    && (exists text, a, k ::
          && Reads(claims, "preferred_username", text) && RendersAs(text, a) && RendersAs(subject, k)
          && own == (if k != "" then k else derived) && asked == (if a != "" then a else own))
    && exists digits :: derived == "idp-" + digits && IsCutTo(digits, hex(subject), 32)
  }

  /** The row a first sighting inserts under a name: everything in it is the claims' own. */
  ghost predicate WritesRow(row: Row, claims: Payload, subject: string, name: string) {
    && row.subject == Some(subject) && row.username == name && row.active && !row.usablePassword
    && (exists text :: Reads(claims, "email", text) && IsCutTo(row.email, text, 254))
    && (exists text :: Reads(claims, "name", text) && IsCutTo(row.name, text, 255))
  }

  lemma ANewRowHoldsTheClaims(claims: Payload, subject: string, name: string)
    ensures WritesRow(NewRow(claims, subject, name), claims, subject, name)
  {
    hide ReadText, StripsTo;
    WhatTextIsRead(claims, "email", ReadText(claims, "email"));
    WhatTextIsRead(claims, "name", ReadText(claims, "name"));
    var email, full := ReadText(claims, "email"), ReadText(claims, "name");
    assert Reads(claims, "email", email) && IsCutTo(Bounded(email, EMAIL_LIMIT), email, 254);
    assert Reads(claims, "name", full) && IsCutTo(Bounded(full, NAME_LIMIT), full, 255);
  }

  /** The three candidates, as the claims and the key have them. */
  lemma TheCandidatesAreTried(claims: Payload, subject: string, hex: string -> string, asked: string, derived: string,
                              own: string)
    ensures TriedInOrder(claims, subject, hex, asked, derived, own)
       <==> (asked == DesiredUsername(claims, subject, hex) && derived == DerivedUsername(subject, hex)
             && own == UsernameFromKey(subject, hex))
  {
    hide Sanitized, ReadText, StripsTo, RendersAs;
    var text := ReadText(claims, "preferred_username");
    WhatTextIsRead(claims, "preferred_username", text);
    WhatANameIsRenderedAs(text, Sanitized(text));
    WhatANameIsRenderedAs(subject, Sanitized(subject));
    assert IsCutTo(Bounded(hex(subject), DIGEST_LENGTH), hex(subject), 32);
    if TriedInOrder(claims, subject, hex, asked, derived, own) {
      var t, a, k :| Reads(claims, "preferred_username", t) && RendersAs(t, a) && RendersAs(subject, k)
        && own == (if k != "" then k else derived) && asked == (if a != "" then a else own);
      WhatTextIsRead(claims, "preferred_username", t);
      WhatANameIsRenderedAs(t, a);
      WhatANameIsRenderedAs(subject, k);
      var digits :| derived == "idp-" + digits && IsCutTo(digits, hex(subject), 32);
      assert digits == Bounded(hex(subject), DIGEST_LENGTH);
    }
  }

  /** The first of three that no row has. */
  ghost predicate IsFirstFree(t: Table, asked: string, derived: string, own: string, name: string) {
    if !Taken(t, asked) then name == asked
    else if !Taken(t, derived) then name == derived
    else name == own && !Taken(t, own)
  }

  lemma {:induction false} FirstFreeOfThree(t: Table, asked: string, derived: string, own: string, name: string)
    ensures FirstFree(Deduplicated([asked, derived, own]), HeldNames(t)) == Some(name)
       <==> IsFirstFree(t, asked, derived, own, name)
  {
    var held := HeldNames(t);
    TakenIsHeld(t, asked);
    TakenIsHeld(t, derived);
    TakenIsHeld(t, own);
    FirstFreeSkips([asked, derived, own], held);
    hide Deduplicated, Taken, HeldNames;
    assert [asked, derived, own][1..] == [derived, own] && [derived, own][1..] == [own] && [own][1..] == [];
    assert FirstFree([own], held) == if own in held then None else Some(own);
    assert FirstFree([derived, own], held) == if derived in held then FirstFree([own], held) else Some(derived);
  }

  lemma TakenIsHeld(t: Table, name: string)
    ensures Taken(t, name) <==> name in HeldNames(t)
  {
  }

  /** A repeated candidate changes nothing. */
  lemma {:induction false} FirstFreeSkips(names: seq<string>, held: set<string>)
    ensures FirstFree(Deduplicated(names), held) == FirstFree(names, held)
  {
    if names != [] {
      FirstFreeSkips(names[1..], held);
      if names[0] in held {
        FirstFreeWithout(Deduplicated(names[1..]), names[0], held);
        assert Deduplicated(names)[1..] == Without(Deduplicated(names[1..]), names[0]);
      }
    }
  }

  lemma {:induction false} FirstFreeWithout(names: seq<string>, x: string, held: set<string>)
    requires x in held
    ensures FirstFree(Without(names, x), held) == FirstFree(names, held)
  {
    if names != [] {
      FirstFreeWithout(names[1..], x, held);
      if names[0] != x {
        assert Without(names, x)[1..] == Without(names[1..], x);
      }
    }
  }

  // ------------------------------------------------------------------------ one call of the mapper

  /** One row more, and it is the one these claims make under this name. */
  ghost predicate Inserts(before: Table, after: Table, pk: Pk, claims: Payload, subject: string, name: string) {
    exists row :: WritesRow(row, claims, subject, name) && after == before[pk := row]
  }

  /** How a sighting that chose a name ends: its row is inserted when neither the name nor the key has a row by
    * then; otherwise nothing is written, and the row of the key is returned, or the sighting refused. */
  ghost predicate EndsUnder(name: string, claims: Payload, subject: string, world: Meanwhile, after: Table,
                            r: Result<Pk, Refusal>) {
    var t := world.afterCheck;
    if !Taken(t, name) && !Known(t, subject)
    then r == Success(world.pk) && Inserts(t, after, world.pk, claims, subject, name)
    else if Known(t, subject)
    then after == t && r.Success? && r.value in t && t[r.value].subject == Some(subject)
    else after == t && r == Failure(UsernameUnavailable)
  }

  lemma ASightingEnds(claims: Payload, subject: string, hex: string -> string, world: Meanwhile, name: string)
    requires FirstFree(Candidates(DesiredUsername(claims, subject, hex), subject, hex), HeldNames(world.afterMiss))
      == Some(name)
    ensures EndsUnder(name, claims, subject, world, Created(claims, subject, hex, world).0,
                      Created(claims, subject, hex, world).1)
  {
    ItIsInsertedOrNot(claims, subject, name, world.afterCheck);
    hide DesiredUsername, Candidates, FirstFree, HeldNames, NewRow, Conflicts, WritesRow, Taken, Known, Holder;
  }

  /** What a first sighting comes to, for all claims and all rows: it is refused when all three names have a
    * row when it looks, and otherwise goes on under the first of them that has none. */
  lemma WhatAFirstSightingWrites(claims: Payload, subject: string, hex: string -> string, world: Meanwhile,
                                 asked: string, derived: string, own: string, name: string)
    requires TriedInOrder(claims, subject, hex, asked, derived, own)
    ensures Taken(world.afterMiss, asked) && Taken(world.afterMiss, derived) && Taken(world.afterMiss, own) ==>
      Created(claims, subject, hex, world) == (world.afterMiss, Failure(UsernameUnavailable))
    ensures IsFirstFree(world.afterMiss, asked, derived, own, name) ==>
      EndsUnder(name, claims, subject, world, Created(claims, subject, hex, world).0,
                Created(claims, subject, hex, world).1)
  {
    TheCandidatesAreTried(claims, subject, hex, asked, derived, own);
    var t := world.afterMiss;
    hide TriedInOrder, DesiredUsername, DerivedUsername, UsernameFromKey, NewRow, EndsUnder, Deduplicated, FirstFree;
    hide HeldNames, Taken;
    if Taken(t, asked) && Taken(t, derived) && Taken(t, own) {
      NoneIsFree(t, asked, derived, own);
    }
    if IsFirstFree(t, asked, derived, own, name) {
      FirstFreeOfThree(t, asked, derived, own, name);
      ASightingEnds(claims, subject, hex, world, name);
    }
  }

  lemma NoneIsFree(t: Table, asked: string, derived: string, own: string)
    requires Taken(t, asked) && Taken(t, derived) && Taken(t, own)
    ensures FirstFree(Deduplicated([asked, derived, own]), HeldNames(t)) == None
  {
    hide Deduplicated, FirstFree, HeldNames, Taken;
    var found := FirstFree(Deduplicated([asked, derived, own]), HeldNames(t));
    if found.Some? {
      FirstFreeOfThree(t, asked, derived, own, found.value);
    }
  }

  lemma ItIsInsertedOrNot(claims: Payload, subject: string, name: string, t: Table)
    ensures WritesRow(NewRow(claims, subject, name), claims, subject, name)
    ensures Conflicts(t, NewRow(claims, subject, name)) <==> Taken(t, name) || Known(t, subject)
    ensures match Holder(t, subject)
      case Some(p) => Known(t, subject) && p in t && t[p].subject == Some(subject)
      case None => !Known(t, subject)
  {
    ANewRowHoldsTheClaims(claims, subject, name);
    NewRowKeys(claims, subject, name);
    hide NewRow, WritesRow;
    var row := NewRow(claims, subject, name);
    if p :| p in t && t[p].username == name {
      assert Clash(t[p], row);
    }
    if p :| p in t && t[p].subject == Some(subject) {
      assert Clash(t[p], row);
    }
  }

  lemma TheFirstCandidateIsTaken(desired: string, subject: string, hex: string -> string, t: Table)
    requires !Taken(t, desired)
    ensures FirstFree(Candidates(desired, subject, hex), HeldNames(t)) == Some(desired)
  {
    TakenIsHeld(t, desired);
    var candidates := Candidates(desired, subject, hex);
    assert candidates != [] && candidates[0] == desired;
  }

  /** The name asked for is the name written: claims that ask for an acceptable name nobody has get it. */
  lemma TheAskedNameIsWritten(claims: Payload, subject: string, hex: string -> string, world: Meanwhile, n: string)
    requires "preferred_username" in claims && claims["preferred_username"] == Str(n) && ValidUsername(n)
    requires !Taken(world.afterMiss, n) && !Taken(world.afterCheck, n) && !Known(world.afterCheck, subject)
    ensures var (after, r) := Created(claims, subject, hex, world);
      r == Success(world.pk) && Inserts(world.afterCheck, after, world.pk, claims, subject, n)
  {
    AnAskedNameIsTriedFirst(claims, subject, hex, n);
    hide DesiredUsername, Created, Candidates, Taken, Known, Inserts, ValidUsername, HeldNames, FirstFree;
    TheFirstCandidateIsTaken(n, subject, hex, world.afterMiss);
    ASightingEnds(claims, subject, hex, world, n);
  }

  lemma AnAskedNameIsTriedFirst(claims: Payload, subject: string, hex: string -> string, n: string)
    requires "preferred_username" in claims && claims["preferred_username"] == Str(n) && ValidUsername(n)
    ensures DesiredUsername(claims, subject, hex) == n
  {
    hide Sanitized, IsSpace, Trim;
    AValidNameHasNoSpaceAtItsEnds(n);
    TrimTrims(n, IsSpace);
    SanitizingAValidNameKeepsIt(n);
  }

  lemma AValidNameHasNoSpaceAtItsEnds(n: string)
    requires ValidUsername(n)
    ensures Trimmed(n, IsSpace)
  {
    assert IsSafe(n[0]) && IsSafe(n[|n| - 1]);
  }

  /** With no name asked for, the key is the name written, when it is acceptable and nobody has it. */
  lemma OtherwiseTheKeyIsWritten(claims: Payload, subject: string, hex: string -> string, world: Meanwhile)
    requires Reads(claims, "preferred_username", "") && ValidUsername(subject)
    requires !Taken(world.afterMiss, subject) && !Taken(world.afterCheck, subject)
    requires !Known(world.afterCheck, subject)
    ensures var (after, r) := Created(claims, subject, hex, world);
      r == Success(world.pk) && Inserts(world.afterCheck, after, world.pk, claims, subject, subject)
  {
    TheKeyIsTriedFirst(claims, subject, hex);
    hide DesiredUsername, Created, Candidates, Taken, Known, Inserts, ValidUsername, HeldNames, FirstFree, Reads;
    TheFirstCandidateIsTaken(subject, subject, hex, world.afterMiss);
    ASightingEnds(claims, subject, hex, world, subject);
  }

  lemma TheKeyIsTriedFirst(claims: Payload, subject: string, hex: string -> string)
    requires Reads(claims, "preferred_username", "") && ValidUsername(subject)
    ensures DesiredUsername(claims, subject, hex) == subject
  {
    hide Sanitized, ReadText, StripsTo;
    WhatTextIsRead(claims, "preferred_username", "");
    SanitizingAValidNameKeepsIt(subject);
    NothingRendersToNothing();
  }

  lemma NothingRendersToNothing()
    ensures Sanitized("") == ""
  {
  }

  /** Whom the claims resolve to: refused without a key or with one over 255 characters, the active row of the
    * key, refused when that row is deactivated, and a first sighting when the key has no row. */
  lemma WhoIsResolved(start: Table, claims: Payload, identityClaim: string, hex: string -> string, world: Meanwhile,
                      subject: string)
    requires Unique(start)
    ensures ReadIdentityKey(claims, identityClaim).None? ==>
      Resolved(start, claims, identityClaim, hex, world) == (start, Failure(IdentityKeyAbsent))
    ensures ReadIdentityKey(claims, identityClaim) == Some(subject) ==>
      var resolved := Resolved(start, claims, identityClaim, hex, world);
      && (|subject| > 255 ==> resolved == (start, Failure(IdentityKeyTooLong)))
      && (|subject| <= 255 && !Known(start, subject) ==> resolved == Created(claims, subject, hex, world))
      && (|subject| <= 255 ==> forall p :: p in start && start[p].subject == Some(subject) ==>
            resolved == (start, if start[p].active then Success(p) else Failure(UserDeactivated)))
  {
    hide ReadIdentityKey, Created;
    forall p | p in start && start[p].subject == Some(subject) ensures Holder(start, subject) == Some(p) {
      TheHolderIsUnique(start, subject, p);
    }
    hide Unique;
  }

  // --------------------------------------------------------------------------------- and in any run

  /** At any point of any run, the statement that reads the holders chooses the first of the three names that
    * no committed row has, or refuses when all are taken. */
  lemma TheRunChoosesTheFirstFreeName(s: F.Database, tid: F.Tid, hex: string -> string, asked: string, derived: string,
                                      own: string, name: string)
    requires F.CallOf(s, tid).Missed?
    requires TriedInOrder(F.CallOf(s, tid).claims, F.CallOf(s, tid).subject, hex, asked, derived, own)
    ensures var call, after := F.CallOf(s, tid), F.CallOf(F.Next(s, F.ReadHolders(tid), hex), tid);
      && (Taken(s.committed, asked) && Taken(s.committed, derived) && Taken(s.committed, own) ==>
            after == F.Call.Refused(call.subject, call.claims, UsernameUnavailable))
      && (IsFirstFree(s.committed, asked, derived, own, name) ==> after == F.Named(call.subject, call.claims, name))
  {
    var call, t := F.CallOf(s, tid), s.committed;
    TheCandidatesAreTried(call.claims, call.subject, hex, asked, derived, own);
    TheHoldersAreRead(s, tid, hex);
    hide TriedInOrder, DesiredUsername, DerivedUsername, UsernameFromKey, FirstFree, HeldNames, Deduplicated, Taken;
    hide F.Next;
    if Taken(t, asked) && Taken(t, derived) && Taken(t, own) {
      NoneIsFree(t, asked, derived, own);
    }
    if IsFirstFree(t, asked, derived, own, name) {
      FirstFreeOfThree(t, asked, derived, own, name);
    }
  }

  lemma TheHoldersAreRead(s: F.Database, tid: F.Tid, hex: string -> string)
    requires F.CallOf(s, tid).Missed?
    ensures var call, after := F.CallOf(s, tid), F.CallOf(F.Next(s, F.ReadHolders(tid), hex), tid);
      after == match FirstFree(Candidates(DesiredUsername(call.claims, call.subject, hex), call.subject, hex),
                               HeldNames(s.committed))
               case None => F.Call.Refused(call.subject, call.claims, UsernameUnavailable)
               case Some(name) => F.Named(call.subject, call.claims, name)
  {
    hide DesiredUsername, Candidates, FirstFree, HeldNames;
  }

  /** So a call whose claims ask for an acceptable name that no committed row has goes on under that name, and
    * one whose claims ask for none under its key, when that is such a name. */
  lemma TheRunChoosesTheAskedName(s: F.Database, tid: F.Tid, hex: string -> string, n: string)
    requires F.CallOf(s, tid).Missed? && ValidUsername(n) && !Taken(s.committed, n)
    requires var call := F.CallOf(s, tid);
      || ("preferred_username" in call.claims && call.claims["preferred_username"] == Str(n))
      || (Reads(call.claims, "preferred_username", "") && n == call.subject)
    ensures F.CallOf(F.Next(s, F.ReadHolders(tid), hex), tid)
         == F.Named(F.CallOf(s, tid).subject, F.CallOf(s, tid).claims, n)
  {
    var call := F.CallOf(s, tid);
    TheHoldersAreRead(s, tid, hex);
    hide F.Next, Reads, ValidUsername, Taken, FirstFree, Candidates, HeldNames, DesiredUsername;
    if "preferred_username" in call.claims && call.claims["preferred_username"] == Str(n) {
      AnAskedNameIsTriedFirst(call.claims, call.subject, hex, n);
    } else {
      TheKeyIsTriedFirst(call.claims, call.subject, hex);
    }
    TheFirstCandidateIsTaken(n, call.subject, hex, s.committed);
  }

  /** And its insert, when neither the name nor the key has a committed row by then, is of that row. */
  lemma TheRunWritesTheRow(s: F.Database, tid: F.Tid, hex: string -> string)
    requires F.Enabled(s, F.Step.Insert(tid))
    ensures var call, t := F.CallOf(s, tid), F.Next(s, F.Step.Insert(tid), hex);
      var taken := Taken(s.committed, call.name) || Known(s.committed, call.subject);
      && (taken ==> t.pending == s.pending && F.CallOf(t, tid) == F.Lost(call.subject, call.claims, call.name))
      && (!taken ==>
            && Inserts(s.pending, t.pending, s.next, call.claims, call.subject, call.name)
            && F.CallOf(t, tid) == F.Call.Created(call.subject, s.next))
  {
    var call := F.CallOf(s, tid);
    ItIsInsertedOrNot(call.claims, call.subject, call.name, s.committed);
    hide NewRow, Conflicts, WritesRow, Taken, Known;
  }
}
