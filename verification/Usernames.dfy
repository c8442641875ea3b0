/** The names a first sighting may be given (`src/config/authorization/mapper.py`). */
module Usernames {
  import opened Core
  import opened Text
  import opened Claims

  const USERNAME_LIMIT := 150
  const DIGEST_LENGTH := 32

  predicate IsHyphen(c: char) { c == '-' }

  predicate IsSafe(c: char) {
    'a' <= c <= 'z' || 'A' <= c <= 'Z' || '0' <= c <= '9' || c in "_.@+-"
  }

  function Hyphenated(s: string): (r: string)
    ensures |r| == |s| && forall i :: 0 <= i < |s| ==> r[i] == if IsSafe(s[i]) then s[i] else '-'
  {
    seq(|s|, i requires 0 <= i < |s| => if IsSafe(s[i]) then s[i] else '-')
  }

  function Bounded(s: string, limit: nat): string {
    if |s| <= limit then s else s[..limit]
  }

  /** `_sanitized_username`. */
  function Sanitized(s: string): string {
    Trim(Bounded(Trim(Hyphenated(s), IsHyphen), USERNAME_LIMIT), IsHyphen)
  }

  /** The SHA-256 of a key in hexadecimal, taken as given: 64 lower-case digits. */
  ghost predicate IsDigest(hex: string -> string) {
    forall s :: |hex(s)| == 64 && forall i :: 0 <= i < 64 ==> '0' <= hex(s)[i] <= '9' || 'a' <= hex(s)[i] <= 'f'
  }

  function DerivedUsername(subject: string, hex: string -> string): string {
    "idp-" + Bounded(hex(subject), DIGEST_LENGTH)
  }

  function UsernameFromKey(subject: string, hex: string -> string): string {
    if Sanitized(subject) != "" then Sanitized(subject) else DerivedUsername(subject, hex)
  }

  /** `_read_text`: anything but text reads as blank. */
  function ReadText(claims: Payload, name: string): string {
    if name in claims && claims[name].Str? then Strip(claims[name].s) else ""
  }

  function DesiredUsername(claims: Payload, subject: string, hex: string -> string): string {
    var asked := Sanitized(ReadText(claims, "preferred_username"));
    if asked != "" then asked else UsernameFromKey(subject, hex)
  }

  /** `_username_candidates`. */
  function Candidates(desired: string, subject: string, hex: string -> string): (names: seq<string>)
    ensures Distinct(names) && 1 <= |names| && names[0] == desired
    ensures forall n :: n in names <==> n in [desired, DerivedUsername(subject, hex), UsernameFromKey(subject, hex)]
  {
    Deduplicated([desired, DerivedUsername(subject, hex), UsernameFromKey(subject, hex)])
  }

  /** The first candidate nobody holds. */
  function FirstFree(candidates: seq<string>, held: set<string>): Option<string> {
    if candidates == [] then None
    else if candidates[0] !in held then Some(candidates[0])
    else FirstFree(candidates[1..], held)
  }

  /** A name is found exactly when some candidate is free; every candidate before it is held, the asked-for
    * name among them when it is not the one found: the log of a collision always has a holder to name. */
  lemma {:induction false} TheFirstFreeNameIsTaken(candidates: seq<string>, held: set<string>)
    ensures FirstFree(candidates, held).None? <==> forall n :: n in candidates ==> n in held
    ensures FirstFree(candidates, held).Some? ==>
      exists k :: 0 <= k < |candidates| && candidates[k] == FirstFree(candidates, held).value
        && candidates[k] !in held && forall j :: 0 <= j < k ==> candidates[j] in held
    ensures FirstFree(candidates, held).Some? && FirstFree(candidates, held).value != candidates[0] ==>
      candidates[0] in held
  {
    if candidates != [] {
      TheFirstFreeNameIsTaken(candidates[1..], held);
      if candidates[0] in held && FirstFree(candidates[1..], held).Some? {
        var k :| 0 <= k < |candidates| - 1 && candidates[1..][k] == FirstFree(candidates[1..], held).value
          && candidates[1..][k] !in held && forall j :: 0 <= j < k ==> candidates[1..][j] in held;
        assert candidates[k + 1] == candidates[1..][k];
        assert forall j :: 0 < j < k + 1 ==> candidates[j] == candidates[1..][j - 1];
      }
    }
  }

  // ---------------------------------------------------------------------- every name is valid

  /** What Django's username field and validator accept, and no hyphen at either end. */
  predicate ValidUsername(name: string) {
    name != "" && |name| <= 150 && Trimmed(name, IsHyphen) && AllSafe(name)
  }

  /** A character the validator accepts. */
  predicate Accepted(c: char) {
    'a' <= c <= 'z' || 'A' <= c <= 'Z' || '0' <= c <= '9' || c == '_' || c == '.' || c == '@' || c == '+' || c == '-'
  }

  predicate AllSafe(s: string) {
    forall i :: 0 <= i < |s| ==> Accepted(s[i])
  }

  lemma AcceptedIsSafe()
    ensures forall c :: Accepted(c) <==> IsSafe(c)
  {
    var safe := "_.@+-";
    assert safe[0] in safe && safe[1] in safe && safe[2] in safe && safe[3] in safe && safe[4] in safe;
  }

  lemma PartsAreSafe(part: string, s: string)
    requires Within(part, s) && AllSafe(s)
    ensures AllSafe(part) && |part| <= |s|
  {
    var i, j :| 0 <= i <= j <= |s| && part == s[i..j];
  }

  lemma SanitizedIsValid(s: string)
    ensures Sanitized(s) == "" || ValidUsername(Sanitized(s))
  {
    hide Trim, IsHyphen;
    var hyphenated := Hyphenated(s);
    assert AllSafe(hyphenated);
    var trimmed := Trim(hyphenated, IsHyphen);
    TrimTrims(hyphenated, IsHyphen);
    PartsAreSafe(trimmed, hyphenated);
    var bounded := Bounded(trimmed, USERNAME_LIMIT);
    TrimTrims(bounded, IsHyphen);
    PartsAreSafe(Sanitized(s), bounded);
  }

  /** A valid name is left as it is: sanitizing twice is sanitizing once. */
  lemma SanitizingAValidNameKeepsIt(name: string)
    requires ValidUsername(name)
    ensures Sanitized(name) == name
  {
    hide Trim, IsHyphen, IsSafe;
    AcceptedIsSafe();
    assert Hyphenated(name) == name;
    TrimTrims(name, IsHyphen);
  }

  lemma DerivedIsValid(subject: string, hex: string -> string)
    requires IsDigest(hex)
    ensures ValidUsername(DerivedUsername(subject, hex))
  {
    var digest := hex(subject);
    var name := DerivedUsername(subject, hex);
    assert |digest| == 64;
    assert name == "idp-" + digest[..32] && |name| == 36;
    assert forall i :: 4 <= i < 36 ==> name[i] == digest[i - 4];
    assert name[0] == 'i' && name[1] == 'd' && name[2] == 'p' && name[3] == '-';
  }

  /** Whatever a token claims, every name that may be written is one the user model accepts. */
  lemma EveryCandidateIsAValidUsername(claims: Payload, subject: string, hex: string -> string)
    requires IsDigest(hex)
    ensures forall n :: n in Candidates(DesiredUsername(claims, subject, hex), subject, hex) ==> ValidUsername(n)
  {
    hide Sanitized, DerivedUsername, ReadText, ValidUsername, IsDigest;
    SanitizedIsValid(ReadText(claims, "preferred_username"));
    SanitizedIsValid(subject);
    DerivedIsValid(subject, hex);
  }

  // ------------------------------------------------------------------------ what is read and rendered

  /** A claim that holds text is read stripped, and anything else reads as blank. */
  lemma WhatTextIsRead(claims: Payload, name: string, text: string)
    ensures ReadText(claims, name) == text
       <==> if name in claims && claims[name].Str? then StripsTo(claims[name].s, text, IsSpace) else text == ""
  {
    hide IsSpace, Trim, StripsTo;
    if name in claims && claims[name].Str? {
      TrimStrips(claims[name].s, text, IsSpace);
    }
  }

  /** A character that is a hyphen, or becomes one. */
  predicate Dashed(c: char) {
    c == '-' || !IsSafe(c)
  }

  /** `r` is `s` from position `i` on, unsafe characters made hyphens: nothing but hyphens is left out before
    * it, it neither starts nor ends with one, and it goes on as far as 150 characters and `s` allow. */
  ghost predicate RendersFrom(s: string, r: string, i: int) {
    && 0 <= i <= i + |r| <= |s| && |r| <= 150
    && (forall k :: 0 <= k < |r| ==> r[k] == if IsSafe(s[i + k]) then s[i + k] else '-')
    && (forall k :: 0 <= k < i ==> Dashed(s[k]))
    && (i < |s| ==> !Dashed(s[i]))
    && (r != "" ==> r[|r| - 1] != '-')
    && (forall k :: i + |r| <= k < |s| && k < i + 150 ==> Dashed(s[k]))
  }

  ghost predicate RendersAs(s: string, r: string) {
    exists i :: RendersFrom(s, r, i)
  }

  /** The renderer does that, and only one string fits the description. */
  lemma WhatANameIsRenderedAs(s: string, r: string)
    ensures Sanitized(s) == r <==> RendersAs(s, r)
  {
    SanitizedFits(s);
    if RendersAs(s, r) {
      var i :| RendersFrom(s, r, i);
      var j :| RendersFrom(s, Sanitized(s), j);
      OnlyOneRendering(s, r, i, Sanitized(s), j);
    }
  }

  lemma OnlyOneRendering(s: string, r: string, i: int, t: string, j: int)
    requires RendersFrom(s, r, i) && RendersFrom(s, t, j)
    ensures r == t
  {
    assert i == j;
    if |r| < |t| {
      LastIsNotDashed(s, t, j);
    } else if |t| < |r| {
      LastIsNotDashed(s, r, i);
    }
  }

  lemma LastIsNotDashed(s: string, r: string, i: int)
    requires RendersFrom(s, r, i) && r != ""
    ensures !Dashed(s[i + |r| - 1])
  {
  }

  lemma SanitizedFits(s: string)
    ensures RendersAs(s, Sanitized(s))
  {
    hide Trim, IsHyphen, IsSafe;
    var h := Hyphenated(s);
    var i := TrimmedAndCut(h);
    RenderedIsCut(s, h, Sanitized(s), i);
  }

  /** `r` is `h` from position `i` on, as far as it may go, without the hyphens at either end. */
  ghost predicate CutFrom(h: string, r: string, i: int) {
    && 0 <= i <= i + |r| <= |h| && |r| <= 150 && r == h[i..i + |r|]
    && (forall k :: 0 <= k < i ==> h[k] == '-')
    && (i < |h| ==> h[i] != '-')
    && (r != "" ==> r[|r| - 1] != '-')
    && (forall k :: i + |r| <= k < |h| && k < i + 150 ==> h[k] == '-')
  }

  lemma RenderedIsCut(s: string, h: string, r: string, i: int)
    requires |h| == |s| && forall k :: 0 <= k < |s| ==> h[k] == if IsSafe(s[k]) then s[k] else '-'
    requires CutFrom(h, r, i)
    ensures RendersFrom(s, r, i)
  {
    hide IsSafe;
    assert forall k :: 0 <= k < |s| ==> (h[k] == '-' <==> Dashed(s[k]));
    forall k | 0 <= k < |r| ensures r[k] == if IsSafe(s[i + k]) then s[i + k] else '-' {
      assert r[k] == h[i + k];
    }
  }

  lemma TrimmedAndCut(h: string) returns (i: int)
    ensures CutFrom(h, Trim(Bounded(Trim(h, IsHyphen), USERNAME_LIMIT), IsHyphen), i)
  {
    hide TrimLeft, TrimRight, Trim, Bounded, CutFrom, IsHyphen;
    var right := TrimRight(h, IsHyphen);
    var left := TrimLeft(right, IsHyphen);
    TrimIsLeftOfRight(h, IsHyphen);
    var cut := Bounded(left, USERNAME_LIMIT);
    TrimIsLeftOfRight(cut, IsHyphen);
    if left == "" {
      AllHyphens(h, right);
      NothingToCut();
      i := |h|;
      NothingIsCut(h);
    } else {
      i := |right| - |left|;
      CutIsWithin(h, right, left, i, cut, TrimRight(cut, IsHyphen));
      StartsAsItIs(cut, TrimRight(cut, IsHyphen));
    }
  }

  lemma TrimIsLeftOfRight(s: string, out: char -> bool)
    ensures Trim(s, out) == TrimLeft(TrimRight(s, out), out)
  {
  }

  lemma NothingIsCut(h: string)
    requires forall k :: 0 <= k < |h| ==> h[k] == '-'
    ensures CutFrom(h, "", |h|)
  {
  }

  lemma NothingToCut()
    ensures Trim(Bounded("", USERNAME_LIMIT), IsHyphen) == ""
  {
  }

  lemma AllHyphens(h: string, right: string)
    requires right == TrimRight(h, IsHyphen) && TrimLeft(right, IsHyphen) == ""
    ensures forall k :: 0 <= k < |h| ==> h[k] == '-'
  {
    hide TrimLeft, TrimRight;
    forall k | 0 <= k < |h| ensures IsHyphen(h[k]) {
      assert k < |right| ==> IsHyphen(right[k]);
    }
  }

  lemma CutIsWithin(h: string, right: string, left: string, i: int, cut: string, r: string)
    requires right == TrimRight(h, IsHyphen) && left == TrimLeft(right, IsHyphen) && left != ""
    requires i == |right| - |left| && cut == Bounded(left, USERNAME_LIMIT) && r == TrimRight(cut, IsHyphen)
    ensures CutFrom(h, r, i) && cut != "" && !IsHyphen(cut[0])
  {
    hide TrimLeft, TrimRight;
    assert left == h[i..|right|] && cut == h[i..i + |cut|];
    assert cut[0] == left[0] == h[i];
    forall k | 0 <= k < i ensures h[k] == '-' {
      assert IsHyphen(right[k]);
    }
    forall k | i + |r| <= k < |h| && k < i + 150 ensures h[k] == '-' {
      if k < i + |cut| {
        assert IsHyphen(cut[k - i]);
      } else {
        assert |cut| == |left| && k >= |right|;
        assert IsHyphen(h[k]);
      }
    }
  }

  /** Nothing goes from the left of a string that does not start with a hyphen. */
  lemma StartsAsItIs(s: string, r: string)
    requires s != "" && !IsHyphen(s[0]) && r == TrimRight(s, IsHyphen)
    ensures r != "" && TrimLeft(r, IsHyphen) == r
  {
    assert r[..] == s[..|r|];
  }
}
