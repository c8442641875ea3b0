/** The values a render token can stand for (`_bmad/scripts/render_skill.py`). */
module RenderValues {
  import opened Core
  import opened Merge
  import opened Strings = Text
  import Lines

  datatype RenderError =
    | MissingValue(what: string)
    | NotAString(what: string)
    | Blank(what: string)
    | NotAbsolute(what: string)
    | MissingKey(key: string)
    | AmbiguousKey(key: string)
    | NotAList(what: string)
    | NotATable(what: string)
    | DuplicateLayer(id: string)
    | UnsupportedDefault(what: string)
    | NoCustomization
    | UndeclaredSnapshot(target: string)

  // ---------------------------------------------------------------------------- nested lookups

  /** The value some names lead to, table by table. */
  function At(v: Value, names: seq<string>): Option<Value> {
    if names == [] then Some(v)
    else if v.Table? && names[0] in v.entries then At(v.entries[names[0]], names[1..])
    else None
  }

  lemma {:induction false} AtStep(v: Value, names: seq<string>, i: nat)
    requires i < |names|
    ensures At(v, names[..i + 1])
         == (match At(v, names[..i])
             case None => None
             case Some(w) => if w.Table? && names[i] in w.entries then Some(w.entries[names[i]]) else None)
  {
    if i > 0 && v.Table? && names[0] in v.entries {
      AtStep(v.entries[names[0]], names[1..], i - 1);
      assert names[..i + 1][1..] == names[1..][..i] && names[..i][1..] == names[1..][..i - 1];
    }
  }

  lemma {:induction false} NothingBeyond(v: Value, names: seq<string>, i: nat)
    requires i <= |names| && At(v, names[..i]).None?
    ensures At(v, names).None?
    decreases |names| - i
  {
    if i == |names| {
      assert names[..i] == names;
    } else {
      AtStep(v, names, i);
      NothingBeyond(v, names, i + 1);
    }
  }

  /** `_lookup`. */
  method Lookup(data: Value, path: string) returns (found: Option<Value>)
    ensures found == At(data, Split(path, '.'))
  {
    var parts := Split(path, '.');
    var current, i := data, 0;
    while i < |parts|
      invariant 0 <= i <= |parts| && At(data, parts[..i]) == Some(current)
    {
      AtStep(data, parts, i);
      if !current.Table? || parts[i] !in current.entries {
        NothingBeyond(data, parts, i + 1);
        return None;
      }
      current := current.entries[parts[i]];
      i := i + 1;
    }
    assert parts[..i] == parts;
    found := Some(current);
  }

  // --------------------------------------------------------------------------- short config keys

  predicate IsLeaf(v: Value) {
    !v.Table? && !v.Arr?
  }

  /** A place in the configuration that holds a leaf under `key`. */
  predicate IsMatch(data: Value, key: string, names: seq<string>) {
    names != [] && names[|names| - 1] == key && At(data, names).Some? && IsLeaf(At(data, names).value)
  }

  /** The dotted path as the search spells it: a name directly under an empty prefix stands alone. */
  function PathFrom(prefix: string, names: seq<string>): string
    decreases names
  {
    if names == [] then prefix
    else PathFrom(if prefix != "" then prefix + "." + names[0] else names[0], names[1..])
  }

  function Under(name: string, places: seq<seq<string>>): (r: seq<seq<string>>)
    ensures |r| == |places| && forall i :: 0 <= i < |r| ==> r[i] == [name] + places[i]
  {
    seq(|places|, i requires 0 <= i < |places| => [name] + places[i])
  }

  /** What a search below one table found: every place once, and what is there. */
  ghost predicate Found(data: Value, key: string, prefix: string, matches: seq<(string, Value)>,
                        places: seq<seq<string>>) {
    && |matches| == |places| && Distinct(places)
    && forall i :: 0 <= i < |places| ==>
        IsMatch(data, key, places[i]) && matches[i] == (PathFrom(prefix, places[i]), At(data, places[i]).value)
  }

  lemma MatchBelow(data: Value, key: string, name: string, rest: seq<string>)
    requires data.Table? && name in data.entries
    ensures At(data, [name] + rest) == At(data.entries[name], rest)
    ensures IsMatch(data, key, [name] + rest)
        <==> if rest == [] then name == key && IsLeaf(data.entries[name]) else IsMatch(data.entries[name], key, rest)
  {
    assert ([name] + rest)[1..] == rest;
    if rest != [] {
      assert ([name] + rest)[|rest|] == rest[|rest| - 1];
    }
  }

  lemma NothingBelowALeaf(value: Value, key: string, places: seq<seq<string>>)
    requires IsLeaf(value) && forall i :: 0 <= i < |places| ==> IsMatch(value, key, places[i])
    ensures places == []
  {
    if places != [] {
      ALeafHasNoMatch(value, key, places[0]);
    }
  }

  lemma ALeafHasNoMatch(value: Value, key: string, w: seq<string>)
    requires IsLeaf(value)
    ensures !IsMatch(value, key, w)
  {
  }

  /** The matches under one name: the name itself, when it is the key and a leaf, and those below it. */
  method FindUnder(data: Value, key: string, prefix: string, name: string)
    returns (matches: seq<(string, Value)>, ghost places: seq<seq<string>>)
    requires data.Table? && name in data.entries
    ensures Found(data, key, prefix, matches, places)
    ensures forall w :: w in places <==> IsMatch(data, key, w) && w[0] == name
    decreases data, 0
  {
    var value := data.entries[name];
    var path := if prefix != "" then prefix + "." + name else name;
    var below: seq<(string, Value)>;
    ghost var deeper: seq<seq<string>>;
    below, deeper := FindConfigValues(value, key, path);
    hide IsMatch, Found;
    matches, places := below, Under(name, deeper);
    FoundBelow(data, key, prefix, name, below, deeper);
    if name == key && IsLeaf(value) {
      TheLeafItself(data, key, prefix, below, deeper);
      matches, places := [(path, value)] + below, [[name]] + places;
    }
    PlacesUnder(data, key, name, deeper);
  }

  lemma FoundBelow(data: Value, key: string, prefix: string, name: string, below: seq<(string, Value)>,
                   deeper: seq<seq<string>>)
    requires data.Table? && name in data.entries
    requires Found(data.entries[name], key, if prefix != "" then prefix + "." + name else name, below, deeper)
    ensures Found(data, key, prefix, below, Under(name, deeper))
  {
    hide At;
    var places := Under(name, deeper);
    forall i | 0 <= i < |deeper|
      ensures IsMatch(data, key, places[i])
      ensures below[i] == (PathFrom(prefix, places[i]), At(data, places[i]).value)
    {
      MatchBelow(data, key, name, deeper[i]);
      assert ([name] + deeper[i])[1..] == deeper[i];
    }
    forall i, j | 0 <= i < j < |places| ensures places[i] != places[j] {
      assert places[i][1..] == deeper[i] && places[j][1..] == deeper[j];
    }
  }

  lemma TheLeafItself(data: Value, key: string, prefix: string, below: seq<(string, Value)>, deeper: seq<seq<string>>)
    requires data.Table? && key in data.entries && IsLeaf(data.entries[key])
    requires var path := if prefix != "" then prefix + "." + key else key;
      Found(data.entries[key], key, path, below, deeper)
    ensures var path := if prefix != "" then prefix + "." + key else key;
      Found(data, key, prefix, [(path, data.entries[key])] + below, [[key]] + Under(key, deeper))
  {
    NothingBelowALeaf(data.entries[key], key, deeper);
    MatchBelow(data, key, key, []);
    assert [key] + [] == [key] && [[key]] + Under(key, deeper) == [[key]];
    assert [key][1..] == [];
  }

  lemma PlacesUnder(data: Value, key: string, name: string, deeper: seq<seq<string>>)
    requires data.Table? && name in data.entries
    requires forall w :: w in deeper <==> IsMatch(data.entries[name], key, w)
    ensures var places :=
        if name == key && IsLeaf(data.entries[name]) then [[name]] + Under(name, deeper) else Under(name, deeper);
      forall w :: w in places <==> IsMatch(data, key, w) && w[0] == name
  {
    hide At;
    var under := Under(name, deeper);
    assert [name] + [] == [name];
    MatchBelow(data, key, name, []);
    forall i | 0 <= i < |under| ensures IsMatch(data, key, under[i]) && under[i][0] == name {
      assert deeper[i] in deeper;
      MatchBelow(data, key, name, deeper[i]);
    }
    forall w | IsMatch(data, key, w) && w[0] == name && w != [name] ensures w in under {
      assert w == [name] + w[1..];
      MatchBelow(data, key, name, w[1..]);
      var i :| 0 <= i < |deeper| && deeper[i] == w[1..];
      assert under[i] == w;
    }
  }

  /** `_find_config_values`: every leaf under the key, once, in whatever order the tables yield them. */
  method FindConfigValues(data: Value, key: string, prefix: string)
    returns (matches: seq<(string, Value)>, ghost places: seq<seq<string>>)
    ensures Found(data, key, prefix, matches, places)
    ensures forall w :: w in places <==> IsMatch(data, key, w)
    ensures forall w :: IsMatch(data, key, w) ==> (PathFrom(prefix, w), At(data, w).value) in matches
    ensures matches != [] ==> exists w :: IsMatch(data, key, w)
    decreases data, 1
  {
    matches, places := [], [];
    if !data.Table? {
      return;
    }
    var todo := data.entries.Keys;
    while todo != {}
      invariant todo <= data.entries.Keys
      invariant Found(data, key, prefix, matches, places)
      invariant forall w :: w in places <==> IsMatch(data, key, w) && w[0] !in todo
      decreases |todo|
    {
      var name := Pick(todo);
      var more: seq<(string, Value)>;
      ghost var there: seq<seq<string>>;
      more, there := FindUnder(data, key, prefix, name);
      FoundTogether(data, key, prefix, matches, places, more, there);
      todo := todo - {name};
      matches, places := matches + more, places + there;
    }
    if matches != [] {
      assert IsMatch(data, key, places[0]);
    }
  }

  lemma FoundTogether(data: Value, key: string, prefix: string, matches: seq<(string, Value)>, places: seq<seq<string>>,
                      more: seq<(string, Value)>, there: seq<seq<string>>)
    requires Found(data, key, prefix, matches, places) && Found(data, key, prefix, more, there)
    requires forall w :: w in places ==> w !in there
    ensures Found(data, key, prefix, matches + more, places + there)
  {
    assert forall i, j :: 0 <= i < |places| && 0 <= j < |there| ==> places[i] != there[j] by {
      forall i, j | 0 <= i < |places| && 0 <= j < |there| ensures places[i] != there[j] {
        assert places[i] in places && there[j] in there;
      }
    }
    DistinctAppend(places, there);
  }

  ghost predicate OnlyMatch(data: Value, key: string, names: seq<string>) {
    IsMatch(data, key, names) && forall w :: IsMatch(data, key, w) ==> w == names
  }

  /** The one place of a short key, or why there is none. */
  ghost function PlaceOf(central: Value, key: string): Result<seq<string>, RenderError> {
    if exists w :: OnlyMatch(central, key, w) then
      var w :| OnlyMatch(central, key, w);
      Success(w)
    else if exists w :: IsMatch(central, key, w) then Failure(AmbiguousKey(key))
    else Failure(MissingKey(key))
  }

  // ------------------------------------------------------------------------------ checked values

  function RequireString(value: Option<Value>, what: string, allowEmpty: bool): Result<string, RenderError> {
    if value.None? || !value.value.Text? then Failure(NotAString(what))
    else if !allowEmpty && Strip(value.value.s) == "" then Failure(Blank(what))
    else Success(value.value.s)
  }

  function ReplaceAll(s: string, placeholder: string, text: string): string
    requires placeholder != ""
  {
    if s == "" then ""
    else if StartsWith(s, placeholder) then text + ReplaceAll(s[|placeholder|..], placeholder, text)
    else [s[0]] + ReplaceAll(s[1..], placeholder, text)
  }

  predicate Contains(s: string, part: string) {
    StartsWith(s, part) || (s != "" && Contains(s[1..], part))
  }

  const PROJECT_ROOT := "{project-root}"

  /** `_resolve_config_value`. */
  function ConfigText(value: Value, what: string, root: string): Result<string, RenderError> {
    match RequireString(Some(value), what, false)
    case Failure(e) => Failure(e)
    case Success(text) =>
      if !Contains(text, PROJECT_ROOT) then Success(text)
      else
        var resolved := ReplaceAll(text, PROJECT_ROOT, root);
        if StartsWith(resolved, "/") then Success(resolved) else Failure(NotAbsolute(what))
  }

  /** `_require_string_list`. */
  function StringsOf(items: seq<Value>, what: string): Result<seq<string>, RenderError> {
    if items == [] then Success([])
    else
      match StringsOf(items[..|items| - 1], what)
      case Failure(e) => Failure(e)
      case Success(before) =>
        match RequireString(Some(items[|items| - 1]), what, false)
        case Failure(e) => Failure(e)
        case Success(s) => Success(before + [s])
  }

  lemma {:induction false} StringsAreTheItems(items: seq<Value>, what: string)
    requires StringsOf(items, what).Success?
    ensures var strings := StringsOf(items, what).value;
      |strings| == |items| && forall i :: 0 <= i < |items| ==> items[i] == Value.Text(strings[i])
  {
    hide Strip;
    if items != [] {
      StringsAreTheItems(items[..|items| - 1], what);
    }
  }

  /** One review layer, with the fields it keeps; `seen` holds the identifiers before it. */
  function LayerOf(item: Value, seen: set<string>, what: string): Result<(string, Value), RenderError> {
    if !item.Table? then Failure(NotATable(what))
    else
      match RequireString(Get(item.entries, "id"), what, false)
      case Failure(e) => Failure(e)
      case Success(id) =>
        if id in seen then Failure(DuplicateLayer(id))
        else
          var named := if "name" in item.entries then Get(item.entries, "name") else Some(Value.Text(id));
          match RequireString(named, what, false)
          case Failure(e) => Failure(e)
          case Success(name) =>
            match RequireString(Get(item.entries, "instruction"), what, true)
            case Failure(e) => Failure(e)
            case Success(instruction) =>
              var layer := map["id" := Value.Text(id), "name" := Value.Text(name), "instruction" :=
                               Value.Text(instruction)];
              if "when" !in item.entries then Success((id, Table(layer)))
              else
                match RequireString(Get(item.entries, "when"), what, false)
                case Failure(e) => Failure(e)
                case Success(when) => Success((id, Table(layer["when" := Value.Text(when)])))
  }

  /** `_require_review_layers`, with the identifiers seen. */
  function LayersOf(items: seq<Value>, what: string): Result<(set<string>, seq<Value>), RenderError> {
    if items == [] then Success(({}, []))
    else
      match LayersOf(items[..|items| - 1], what)
      case Failure(e) => Failure(e)
      case Success((seen, before)) =>
        match LayerOf(items[|items| - 1], seen, what)
        case Failure(e) => Failure(e)
        case Success((id, layer)) => Success((seen + {id}, before + [layer]))
  }

  lemma ALayerIsATable(item: Value, seen: set<string>, what: string)
    ensures LayerOf(item, seen, what).Success? ==> LayerOf(item, seen, what).value.1.Table?
  {
  }

  lemma {:induction false} LayersAreTables(items: seq<Value>, what: string)
    requires LayersOf(items, what).Success?
    ensures var layers := LayersOf(items, what).value.1; |layers| == |items| && AllTables(layers)
  {
    if items != [] {
      var n := |items| - 1;
      LayersAreTables(items[..n], what);
      ALayerIsATable(items[n], LayersOf(items[..n], what).value.0, what);
    }
  }

  // ---------------------------------------------------------------------------- rendered values

  function Indented(lines: seq<string>): seq<string> {
    if lines == [] then [] else ["  " + lines[0]] + Indented(lines[1..])
  }

  function ListLines(items: seq<string>): seq<string> {
    if items == [] then []
    else
      var lines := Lines.SplitLines(items[0]);
      (if lines == [] then ["- "] else ["- " + lines[0]] + Indented(lines[1..])) + ListLines(items[1..])
  }

  const NONE_LISTED := "_None._"
  // In two parts, because the verifier does not look at the characters of one literal as long as the whole.
  const NO_ACTIVE_LAYERS := "No active review layers. " + "HALT with blocking condition `no active review layers`."

  /** `_format_markdown_list`. */
  function MarkdownList(items: seq<string>): string {
    if items == [] then NONE_LISTED else Join(ListLines(items), "\n")
  }

  function Field(layer: Value, name: string): string {
    if layer.Table? && name in layer.entries && layer.entries[name].Text? then layer.entries[name].s else ""
  }

  function Section(layer: Value): string {
    "#### " + Field(layer, "name") + " (`" + Field(layer, "id") + "`)"
    + (if Field(layer, "when") != "" then "\n\nRun only when: " + Field(layer, "when") else "")
    + "\n\n" + Strip(Field(layer, "instruction"))
  }

  function Sections(layers: seq<Value>): seq<string> {
    if layers == [] then []
    else (if Strip(Field(layers[0], "instruction")) != "" then [Section(layers[0])] else []) + Sections(layers[1..])
  }

  /** `_format_review_layers`. */
  function ReviewLayers(layers: seq<Value>): string {
    if Sections(layers) == [] then NO_ACTIVE_LAYERS else Join(Sections(layers), "\n\n")
  }

  predicate IsTableArray(default: Value) {
    default.Arr? && default.items != [] && AllTables(default.items)
  }

  const OPEN_SPEC := "customization.workflow.open_spec"

  /** `_resolve_customization_value`: what goes into the identity, and what goes into the text. */
  function CustomValue(value: Value, default: Value, what: string): Result<(Value, string), RenderError> {
    if default.Text? then
      match RequireString(Some(value), what, Strip(default.s) == "" || what == OPEN_SPEC)
      case Failure(e) => Failure(e)
      case Success(s) => Success((Value.Text(s), s))
    else if !default.Arr? then Failure(UnsupportedDefault(what))
    else if !value.Arr? then Failure(NotAList(what))
    else if IsTableArray(default) then
      match LayersOf(value.items, what)
      case Failure(e) => Failure(e)
      case Success((_, layers)) => Success((Arr(layers), ReviewLayers(layers)))
    else
      match StringsOf(value.items, what)
      case Failure(e) => Failure(e)
      case Success(strings) => Success((value, MarkdownList(strings)))
  }

  /** The text is decided by the resolved value alone, but for an empty list: there the default's
    * kind decides which of two texts stands for it. */
  lemma TheValueDecidesTheText(v: Value, d: Value, w: Value, e: Value, what: string)
    requires CustomValue(v, d, what).Success? && CustomValue(w, e, what).Success?
    requires CustomValue(v, d, what).value.0 == CustomValue(w, e, what).value.0
    ensures CustomValue(v, d, what).value.1 == CustomValue(w, e, what).value.1
       <==> (CustomValue(v, d, what).value.0 == Arr([]) ==> IsTableArray(d) == IsTableArray(e))
  {
    TheTextsDiffer();
    if d.Arr? {
      ListText(v, d, what);
      ListText(w, e, what);
    }
  }

  lemma TheTextsDiffer()
    ensures NONE_LISTED != NO_ACTIVE_LAYERS
  {
    assert NONE_LISTED[0] == '_' && NO_ACTIVE_LAYERS[0] == 'N';
  }

  /** The kind and the text of a resolved list. */
  lemma ListText(v: Value, d: Value, what: string)
    requires CustomValue(v, d, what).Success? && d.Arr?
    ensures var (resolved, text) := CustomValue(v, d, what).value;
      && resolved.Arr?
      && (IsTableArray(d) ==> AllTables(resolved.items) && text == ReviewLayers(resolved.items))
      && (!IsTableArray(d) ==>
            && StringsOf(resolved.items, what).Success?
            && text == MarkdownList(StringsOf(resolved.items, what).value)
            && forall i :: 0 <= i < |resolved.items| ==> resolved.items[i].Text?)
      && (resolved.items == [] ==> text == if IsTableArray(d) then NO_ACTIVE_LAYERS else NONE_LISTED)
  {
    if IsTableArray(d) {
      LayersAreTables(v.items, what);
    } else {
      StringsAreTheItems(v.items, what);
    }
  }
}
