/** Reading claims at configured names (`config/authorization/claims.py`). */
module Claims {
  import opened Core
  import opened Text

  /** A decoded JSON value; `Null` is also what an absent claim reads as. */
  datatype Json =
    | Null
    | Bool(b: bool)
    | Int(n: int)
    | Num(r: real)
    | Str(s: string)
    | List(items: seq<Json>)
    | Obj(fields: map<string, Json>)

  type Payload = map<string, Json>

  /** The dotted walk: one mapping per segment. */
  function Walk(current: Json, segments: seq<string>): Option<Json> {
    if segments == [] then Some(current)
    else if current.Obj? && segments[0] in current.fields then Walk(current.fields[segments[0]], segments[1..])
    else None
  }

  function OrNull(value: Option<Json>): Json {
    if value.Some? then value.value else Null
  }

  /** `_resolve`: a key of that very spelling wins over the dotted walk. */
  function Resolve(claims: Payload, path: string): Json {
    if path == "" then Null
    else if path in claims then claims[path]
    else OrNull(Walk(Obj(claims), Split(path, '.')))
  }

  method ResolveClaim(claims: Payload, path: string) returns (value: Json)
    ensures value == Resolve(claims, path)
  {
    if path == "" {
      return Null;
    }
    if path in claims {
      return claims[path];
    }
    var segments := Split(path, '.');
    var current := Obj(claims);
    var i := 0;
    while i < |segments|
      invariant 0 <= i <= |segments|
      invariant Walk(current, segments[i..]) == Walk(Obj(claims), segments)
    {
      assert segments[i..][0] == segments[i] && segments[i..][1..] == segments[i + 1..];
      if !current.Obj? || segments[i] !in current.fields {
        return Null;
      }
      current := current.fields[segments[i]];
      i := i + 1;
    }
    value := current;
  }

  // ---------------------------------------------------------------- where a claim is read from

  /** A chain of mappings that leads from one value, name by name, to another. */
  ghost predicate Chained(chain: seq<Json>, names: seq<string>) {
    |chain| == |names| + 1 && forall i :: 0 <= i < |names| ==>
      chain[i].Obj? && names[i] in chain[i].fields && chain[i].fields[names[i]] == chain[i + 1]
  }

  ghost predicate LeadsTo(start: Json, names: seq<string>, value: Json) {
    exists chain :: Chained(chain, names) && chain[0] == start && chain[|names|] == value
  }

  lemma {:induction false} WalkFollowsTheMappings(start: Json, names: seq<string>, value: Json)
    ensures Walk(start, names) == Some(value) <==> LeadsTo(start, names, value)
  {
    if names == [] {
      if start == value {
        assert Chained([start], names);
      }
    } else {
      var name, rest := names[0], names[1..];
      if start.Obj? && name in start.fields {
        WalkFollowsTheMappings(start.fields[name], rest, value);
        ChainsGoOn(start, names, value);
      }
    }
  }

  lemma ChainsGoOn(start: Json, names: seq<string>, value: Json)
    requires names != [] && start.Obj? && names[0] in start.fields
    ensures LeadsTo(start, names, value) <==> LeadsTo(start.fields[names[0]], names[1..], value)
  {
    if LeadsTo(start, names, value) {
      var chain :| Chained(chain, names) && chain[0] == start && chain[|names|] == value;
      assert Chained(chain[1..], names[1..]);
    }
    if LeadsTo(start.fields[names[0]], names[1..], value) {
      var chain :| Chained(chain, names[1..]) && chain[0] == start.fields[names[0]] && chain[|names| - 1] == value;
      assert Chained([start] + chain, names);
    }
  }

  /** The whole of the reader. A key of the payload that is the configured name itself gives its value,
    * whatever else the payload holds and however the name is spelled; otherwise the value is where the
    * mappings lead along the parts of the name, and null when they lead nowhere. */
  lemma AClaimIsReadAtItsName(claims: Payload, parts: seq<string>, value: Json)
    requires parts != [] && Join(parts, ".") != "" && forall i :: 0 <= i < |parts| ==> '.' !in parts[i]
    ensures var path := Join(parts, ".");
      && Resolve(claims[path := value], path) == value
      && (path !in claims && value != Null ==> (Resolve(claims, path) == value <==> LeadsTo(Obj(claims), parts, value)))
  {
    SplitJoin(parts, '.');
    WalkFollowsTheMappings(Obj(claims), parts, value);
  }

  function Digits(n: nat): string {
    var last := ['0' + (n % 10) as char];
    if n < 10 then last else Digits(n / 10) + last
  }

  /** `str(n)`. */
  function Decimal(n: int): string {
    if n < 0 then "-" + Digits(-n) else Digits(n)
  }

  /** What a string of digits stands for. */
  function NumberOf(digits: string): int {
    if digits == "" then 0 else 10 * NumberOf(digits[..|digits| - 1]) + (digits[|digits| - 1] as int - '0' as int)
  }

  ghost predicate AllDigits(s: string) {
    s != "" && (forall i :: 0 <= i < |s| ==> '0' <= s[i] <= '9') && (s[0] == '0' ==> |s| == 1)
  }

  lemma {:induction false} DigitsSpellTheNumber(n: nat)
    ensures AllDigits(Digits(n)) && NumberOf(Digits(n)) == n
  {
    if n >= 10 {
      DigitsSpellTheNumber(n / 10);
      assert Digits(n)[..|Digits(n)| - 1] == Digits(n / 10);
    } else {
      assert Digits(n)[..0] == "";
    }
  }

  /** The decimal form: digits without a leading zero that stand for the number, after a sign when below zero. */
  lemma DecimalSpellsTheNumber(n: int)
    ensures n >= 0 ==> AllDigits(Decimal(n)) && NumberOf(Decimal(n)) == n
    ensures n < 0 ==> exists digits :: Decimal(n) == "-" + digits && AllDigits(digits) && NumberOf(digits) == -n
  {
    DigitsSpellTheNumber(if n < 0 then -n else n);
  }

  /** `_read_name`: text that is not all space, trimmed, or the decimal form of an integer. */
  function ReadName(value: Json): Option<string> {
    match value
    case Str(s) => if Strip(s) == "" then None else Some(Strip(s))
    case Int(n) => Some(Decimal(n))
    case _ => None
  }

  function ReadNames(items: seq<Json>): Option<seq<string>> {
    if items == [] then Some([])
    else
      var first, rest := ReadName(items[0]), ReadNames(items[1..]);
      if first.None? || rest.None? then None else Some([first.value] + rest.value)
  }

  /** The groups a token asserts; one bad element, like a missing claim, leaves no answer at all. */
  function ReadGroupClaim(claims: Payload, path: string): Option<seq<string>> {
    var value := Resolve(claims, path);
    if value.Str? || value.Int? then
      var name := ReadName(value);
      if name.None? then None else Some([name.value])
    else if value.List? then ReadNames(value.items)
    else None
  }

  function ReadIdentityKey(claims: Payload, path: string): Option<string> {
    ReadName(Resolve(claims, path))
  }

  /** The two readers agree on what a name is: every group read is what the identity reader would
    * have read from that element, and one unreadable element denies the whole claim. */
  lemma {:induction false} OneUnreadableElementDeniesTheClaim(items: seq<Json>)
    ensures ReadNames(items).Some? <==> forall i :: 0 <= i < |items| ==> ReadName(items[i]).Some?
    ensures ReadNames(items).Some? ==>
      && |ReadNames(items).value| == |items|
      && forall i :: 0 <= i < |items| ==> ReadName(items[i]) == Some(ReadNames(items).value[i])
  {
    hide ReadName;
    if items != [] {
      OneUnreadableElementDeniesTheClaim(items[1..]);
      assert forall i :: 0 < i < |items| ==> items[i] == items[1..][i - 1];
      if ReadName(items[0]).Some? && forall i :: 0 <= i < |items[1..]| ==> ReadName(items[1..][i]).Some? {
        assert forall i :: 0 < i < |items| ==> ReadName(items[i]).Some?;
      }
    }
  }

  /** What reads as a name, and as which: text with something left when it is stripped, and a whole number. */
  lemma WhatReadsAsAName(value: Json, name: string)
    ensures ReadName(value) == Some(name)
       <==> ((value.Str? && name != "" && StripsTo(value.s, name, IsSpace))
             || (value.Int? && name == Decimal(value.n)))
  {
    hide IsSpace, Trim, StripsTo;
    if value.Str? {
      TrimStrips(value.s, name, IsSpace);
    }
  }

  /** The identity key is what the claim at its name reads as. */
  lemma WhatAnIdentityKeyReads(claims: Payload, path: string, value: Json, key: string)
    requires Resolve(claims, path) == value
    ensures ReadIdentityKey(claims, path) == Some(key)
       <==> ((value.Str? && key != "" && StripsTo(value.s, key, IsSpace))
             || (value.Int? && key == Decimal(value.n)))
  {
    hide Resolve;
    WhatReadsAsAName(value, key);
  }

  // ------------------------------------------------------------------------- a list of names

  function Strings(names: seq<string>): Json {
    List(StringItems(names))
  }

  function StringItems(names: seq<string>): seq<Json> {
    if names == [] then [] else [Str(names[0])] + StringItems(names[1..])
  }

  predicate IsName(s: string) { s != "" && Trimmed(s, IsSpace) }

  lemma ANameReadsBack(name: string)
    requires IsName(name)
    ensures ReadName(Str(name)) == Some(name)
  {
    hide Trim, IsSpace;
    TrimTrims(name, IsSpace);
  }

  lemma {:induction false} NamesReadBack(names: seq<string>)
    requires forall n :: n in names ==> IsName(n)
    ensures ReadNames(StringItems(names)) == Some(names)
  {
    hide IsName, ReadName;
    if names != [] {
      NamesReadBack(names[1..]);
      ANameReadsBack(names[0]);
      assert [names[0]] + names[1..] == names;
      assert StringItems(names)[1..] == StringItems(names[1..]);
    }
  }

  /** The configured name is a key of the token, and holds a list of names. */
  ghost predicate ListsNames(claims: Payload, path: string, names: seq<string>) {
    && path != "" && path in claims && claims[path].List? && |claims[path].items| == |names|
    && forall i :: 0 <= i < |names| ==> claims[path].items[i] == Str(names[i]) && IsName(names[i])
  }

  lemma {:induction false} StringItemsAre(items: seq<Json>, names: seq<string>)
    requires |items| == |names| && forall i :: 0 <= i < |names| ==> items[i] == Str(names[i])
    ensures items == StringItems(names)
  {
    if names != [] {
      StringItemsAre(items[1..], names[1..]);
      assert items == [items[0]] + items[1..];
    }
  }

  /** A list of names under the configured name itself is read as it stands, dots in the name or not. */
  lemma AListedClaimIsRead(claims: Payload, path: string, names: seq<string>)
    requires ListsNames(claims, path, names)
    ensures ReadGroupClaim(claims, path) == Some(names)
  {
    hide IsName;
    StringItemsAre(claims[path].items, names);
    forall n | n in names ensures IsName(n) {
      var i :| 0 <= i < |names| && names[i] == n;
    }
    NamesReadBack(names);
  }

  /** A claim read where it is denies groups exactly when it is neither text, nor a whole number, nor a
    * list, or some part of it is no name; one that is no list asserts the one name it reads as. */
  lemma WhatAGroupClaimAsserts(claims: Payload, path: string, value: Json, names: seq<string>)
    requires Resolve(claims, path) == value
    ensures ReadGroupClaim(claims, path) == Some(names)
       <==> if value.List? then |value.items| == |names|
                && forall i :: 0 <= i < |names| ==> ReadName(value.items[i]) == Some(names[i])
            else (value.Str? || value.Int?) && |names| == 1 && ReadName(value) == Some(names[0])
  {
    hide ReadName, Resolve, ReadNames;
    if value.List? {
      ListsAreReadOneByOne(value.items, names);
    } else if |names| == 1 {
      assert names == [names[0]];
    }
  }

  lemma ListsAreReadOneByOne(items: seq<Json>, names: seq<string>)
    ensures ReadNames(items) == Some(names)
       <==> (|items| == |names| && forall i :: 0 <= i < |names| ==> ReadName(items[i]) == Some(names[i]))
  {
    hide ReadName, ReadNames;
    OneUnreadableElementDeniesTheClaim(items);
    if |items| == |names| && forall i :: 0 <= i < |names| ==> ReadName(items[i]) == Some(names[i]) {
      assert ReadNames(items).value == names;
    }
  }
}
