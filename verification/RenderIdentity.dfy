/** What the hashed identity of a render decides (`_bmad/scripts/render_skill.py`): every replacement
  * is a function of the sources and of the resolved values, but for one kind of empty list. */
module RenderIdentity {
  import opened Core
  import opened Merge
  import opened Strings = Text
  import opened RenderValues

  /** `{{.key}}`, `{{config.path}}` and `{workflow.path}`. */
  datatype Token = Short(key: string) | Config(path: string) | Custom(path: string)

  /** The expression for a short token admits no dot in its key. */
  predicate WellFormed(token: Token) {
    token.Short? ==> '.' !in token.key
  }

  datatype Env = Env(central: Value, customization: Value, defaults: Option<Value>, root: string)

  /** Where a value comes from: the keys of `resolved_values`. */
  datatype Source = FromConfig(path: string) | FromCustomization(path: string)

  function Spelled(source: Source): string {
    match source
    case FromConfig(path) => "config." + path
    case FromCustomization(path) => "customization.workflow." + path
  }

  /** No two sources share a key. */
  lemma SpelledApart(a: Source, b: Source)
    requires Spelled(a) == Spelled(b)
    ensures a == b
  {
    assert Spelled(a)[1] == if a.FromConfig? then 'o' else 'u';
    assert Spelled(b)[1] == if b.FromConfig? then 'o' else 'u';
    var skip := if a.FromConfig? then |"config."| else |"customization.workflow."|;
    assert Spelled(a)[skip..] == a.path && Spelled(b)[skip..] == b.path;
  }

  /** What a token stands for: where its value comes from, the value hashed, and the text inserted. */
  datatype Meaning = Meaning(source: Source, value: Value, text: string)

  ghost function MeaningOf(token: Token, env: Env): Result<Meaning, RenderError> {
    match token
    case Short(key) =>
      (match PlaceOf(env.central, key)
       case Failure(e) => Failure(e)
       case Success(place) =>
         ConfigMeaning(At(env.central, place), PathFrom("", place), env.root))
    case Config(path) => ConfigMeaning(At(env.central, Split(path, '.')), path, env.root)
    case Custom(path) =>
      if env.defaults.None? then Failure(NoCustomization)
      else
        CustomMeaning(At(env.customization, CustomPlace(path)), At(env.defaults.value, CustomPlace(path)), path)
  }

  function CustomPlace(path: string): seq<string> {
    Split("workflow." + path, '.')
  }

  function ConfigMeaning(found: Option<Value>, path: string, root: string): Result<Meaning, RenderError> {
    var source := FromConfig(path);
    if found.None? then Failure(MissingValue(Spelled(source)))
    else
      match ConfigText(found.value, Spelled(source), root)
      case Failure(e) => Failure(e)
      case Success(text) => Success(Meaning(source, Value.Text(text), text))
  }

  function CustomMeaning(found: Option<Value>, default: Option<Value>, path: string): Result<Meaning, RenderError> {
    var source := FromCustomization(path);
    if found.None? || default.None? then Failure(MissingValue(Spelled(source)))
    else
      match CustomValue(found.value, default.value, Spelled(source))
      case Failure(e) => Failure(e)
      case Success((value, text)) => Success(Meaning(source, value, text))
  }

  /** What each kind of meaning carries. */
  lemma ConfigMeans(found: Option<Value>, path: string, root: string)
    requires ConfigMeaning(found, path, root).Success?
    ensures var m := ConfigMeaning(found, path, root).value;
      m.source == FromConfig(path) && m.value == Value.Text(m.text) && found.Some? && found.value.Text?
  {
  }

  lemma TokensMean(token: Token, env: Env)
    requires MeaningOf(token, env).Success?
    ensures var m := MeaningOf(token, env).value;
      match token
      case Short(key) =>
        && PlaceOf(env.central, key).Success? && m.value == Value.Text(m.text)
        && m.source == FromConfig(PathFrom("", PlaceOf(env.central, key).value))
        && OnlyMatch(env.central, key, PlaceOf(env.central, key).value)
      case Config(path) =>
        && m.source == FromConfig(path) && m.value == Value.Text(m.text)
        && At(env.central, Split(path, '.')).Some? && At(env.central, Split(path, '.')).value.Text?
      case Custom(path) => m.source == FromCustomization(path)
  {
    hide ConfigText, CustomValue;
    match token {
      case Short(key) =>
        ThePlaceIsTheOnlyMatch(env.central, key);
      case Config(path) =>
        ConfigMeans(At(env.central, Split(path, '.')), path, env.root);
      case Custom(path) =>
    }
  }

  // ---------------------------------------------------------------- one source, one value

  lemma {:induction false} TheKeyIsTheLastSegment(prefix: string, names: seq<string>)
    requires names != [] && '.' !in names[|names| - 1]
    ensures var parts := Split(PathFrom(prefix, names), '.'); parts[|parts| - 1] == names[|names| - 1]
    decreases names
  {
    var path := if prefix != "" then prefix + "." + names[0] else names[0];
    if |names| == 1 {
      SplitWithout(names[0], '.');
      if prefix != "" {
        SplitAtSeparator(prefix, '.', names[0]);
      }
      assert PathFrom(prefix, names) == path;
    } else {
      TheKeyIsTheLastSegment(path, names[1..]);
    }
  }

  lemma ThePlaceIsTheOnlyMatch(central: Value, key: string)
    requires PlaceOf(central, key).Success?
    ensures OnlyMatch(central, key, PlaceOf(central, key).value)
  {
  }

  /** The path a short key is found at is where `_lookup` finds it too, whenever it finds a leaf there. */
  lemma LookupAgreesWithTheSearch(central: Value, key: string)
    requires '.' !in key && PlaceOf(central, key).Success?
    ensures var place := PlaceOf(central, key).value;
      var found := At(central, Split(PathFrom("", place), '.'));
      found.Some? && IsLeaf(found.value) ==> found == At(central, place)
  {
    ThePlaceIsTheOnlyMatch(central, key);
    var place := PlaceOf(central, key).value;
    TheKeyIsTheLastSegment("", place);
    var names := Split(PathFrom("", place), '.');
    if At(central, names).Some? && IsLeaf(At(central, names).value) {
      assert IsMatch(central, key, names);
    }
  }

  lemma OneNameMore(prefix: string, name: string)
    requires '.' !in name
    ensures Split(prefix + "." + name, '.') == Split(prefix, '.') + [name]
  {
    SplitAtSeparator(prefix, '.', name);
    SplitWithout(name, '.');
  }

  lemma {:induction false} LongerPathsSplitBack(prefix: string, names: seq<string>)
    requires prefix != "" && forall i :: 0 <= i < |names| ==> '.' !in names[i]
    ensures Split(PathFrom(prefix, names), '.') == Split(prefix, '.') + names
    decreases names
  {
    hide Split;
    if names != [] {
      var rest := names[1..];
      LongerPathsSplitBack(prefix + "." + names[0], rest);
      OneNameMore(prefix, names[0]);
      assert Split(prefix, '.') + [names[0]] + rest == Split(prefix, '.') + names;
    }
  }

  /** And it finds it there when the names on the way have no dots and the first is not empty. */
  lemma PlainPathsSplitBack(names: seq<string>)
    requires names != [] && names[0] != "" && forall i :: 0 <= i < |names| ==> '.' !in names[i]
    ensures Split(PathFrom("", names), '.') == names
  {
    hide Split;
    LongerPathsSplitBack(names[0], names[1..]);
    SplitWithout(names[0], '.');
    assert [names[0]] + names[1..] == names;
  }

  /** A config token whose path ends in the key finds a leaf at it, which the search can only have found too. */
  lemma AConfigTokenSettlesTheKey(key: string, place: seq<string>, path: string, env: Env)
    requires '.' !in key && place != [] && place[|place| - 1] == key && PathFrom("", place) == path
    requires MeaningOf(Short(key), env).Success? && MeaningOf(Config(path), env).Success?
    ensures PlaceOf(env.central, key).value == Split(path, '.')
    ensures MeaningOf(Short(key), env).value.text == MeaningOf(Config(path), env).value.text
  {
    hide MeaningOf, PlaceOf, Split, PathFrom, IsMatch;
    TokensMean(Short(key), env);
    TokensMean(Config(path), env);
    TheKeyIsTheLastSegment("", place);
    ALeafIsAMatch(env.central, key, Split(path, '.'));
    SameFind(key, path, env);
  }

  lemma ALeafIsAMatch(data: Value, key: string, names: seq<string>)
    requires names != [] && names[|names| - 1] == key && At(data, names).Some? && At(data, names).value.Text?
    ensures IsMatch(data, key, names)
  {
    hide At;
  }

  lemma SameFind(key: string, path: string, env: Env)
    requires MeaningOf(Short(key), env).Success? && MeaningOf(Config(path), env).Success?
    requires PlaceOf(env.central, key).value == Split(path, '.')
    ensures MeaningOf(Short(key), env).value.text == MeaningOf(Config(path), env).value.text
  {
    ConfigTextIgnoresTheLabel(At(env.central, Split(path, '.')).value, Spelled(FromConfig(path)),
      Spelled(FromConfig(PathFrom("", PlaceOf(env.central, key).value))), env.root);
  }

  lemma ConfigTextIgnoresTheLabel(value: Value, what: string, other: string, root: string)
    requires ConfigText(value, what, root).Success? && ConfigText(value, other, root).Success?
    ensures ConfigText(value, what, root) == ConfigText(value, other, root)
  {
  }

  /** The name of a short token's source ends in its key. */
  lemma ShortSourcesName(key: string, other: string, env: Env, that: Env)
    requires '.' !in key && '.' !in other
    requires MeaningOf(Short(key), env).Success? && MeaningOf(Short(other), that).Success?
    requires MeaningOf(Short(key), env).value.source == MeaningOf(Short(other), that).value.source
    ensures key == other
  {
    hide ConfigMeaning;
    TokensMean(Short(key), env);
    TokensMean(Short(other), that);
    TheKeyIsTheLastSegment("", PlaceOf(env.central, key).value);
    TheKeyIsTheLastSegment("", PlaceOf(that.central, other).value);
  }

  ghost predicate SameSource(s: Token, t: Token, env: Env) {
    && MeaningOf(s, env).Success? && MeaningOf(t, env).Success?
    && MeaningOf(s, env).value.source == MeaningOf(t, env).value.source
  }

  /** Tokens that name one source agree on its value, so the order they are resolved in is no matter. */
  lemma OneSourceOneValue(s: Token, t: Token, env: Env)
    requires WellFormed(s) && WellFormed(t) && SameSource(s, t, env)
    ensures MeaningOf(s, env).value.value == MeaningOf(t, env).value.value
  {
    hide ConfigMeaning, CustomMeaning;
    TokensMean(s, env);
    TokensMean(t, env);
    match (s, t) {
      case (Short(k), Short(l)) => ShortSourcesName(k, l, env, env);
      case (Short(k), Config(p)) => AConfigTokenSettlesTheKey(k, PlaceOf(env.central, k).value, p, env);
      case (Config(p), Short(k)) => AConfigTokenSettlesTheKey(k, PlaceOf(env.central, k).value, p, env);
      case (_, _) =>
    }
  }

  // -------------------------------------------------------------------- resolving every token

  /** A piece of a source: prose, a token, or a reference into the snapshot. */
  datatype Piece = Literal(text: string) | Tok(token: Token) | Snapshot(target: string)

  datatype Resolution = Resolution(replacements: map<Token, string>, inputs: map<Source, Value>)

  /** The two dicts hold exactly what these tokens stand for. */
  ghost predicate Resolves(tokens: set<Token>, env: Env, res: Resolution) {
    && res.replacements.Keys == tokens
    && (forall t :: t in tokens ==> MeansHere(t, env, res))
    && (forall s :: s in res.inputs ==> exists t ::
        t in tokens && MeaningOf(t, env).Success? && MeaningOf(t, env).value.source == s)
  }

  ghost predicate MeansHere(t: Token, env: Env, res: Resolution) {
    var m := MeaningOf(t, env);
    && m.Success?
    && t in res.replacements && res.replacements[t] == m.value.text
    && m.value.source in res.inputs && res.inputs[m.value.source] == m.value.value
  }

  lemma EachMeans(t: Token, tokens: set<Token>, env: Env, res: Resolution)
    requires Resolves(tokens, env, res) && t in tokens
    ensures MeansHere(t, env, res)
  {
  }

  lemma EachIsSourced(source: Source, tokens: set<Token>, env: Env, res: Resolution) returns (t: Token)
    requires Resolves(tokens, env, res) && source in res.inputs
    ensures t in tokens && MeaningOf(t, env).Success? && MeaningOf(t, env).value.source == source
  {
    t :| t in tokens && MeaningOf(t, env).Success? && MeaningOf(t, env).value.source == source;
  }

  lemma TheReplacementsAreTheTokens(tokens: set<Token>, env: Env, res: Resolution)
    requires Resolves(tokens, env, res)
    ensures res.replacements.Keys == tokens
  {
  }

  lemma OneTokenMore(tokens: set<Token>, t: Token, env: Env, res: Resolution)
    requires Resolves(tokens, env, res) && WellFormed(t) && forall s :: s in tokens ==> WellFormed(s)
    requires MeaningOf(t, env).Success?
    ensures var m := MeaningOf(t, env).value;
      Resolves(tokens + {t}, env, Resolution(res.replacements[t := m.text], res.inputs[m.source := m.value]))
  {
    hide MeaningOf;
    var m := MeaningOf(t, env).value;
    var after := Resolution(res.replacements[t := m.text], res.inputs[m.source := m.value]);
    forall s | s in tokens ensures MeansHere(s, env, after) {
      assert MeansHere(s, env, res);
      if MeaningOf(s, env).value.source == m.source {
        OneSourceOneValue(s, t, env);
      }
    }
    assert MeansHere(t, env, after);
  }

  /** `_resolve_short_config`, up to the value at the one place the key is found. */
  method ResolveShort(key: string, env: Env) returns (r: Result<Meaning, RenderError>)
    ensures r == MeaningOf(Short(key), env)
  {
    var matches: seq<(string, Value)>;
    ghost var places: seq<seq<string>>;
    matches, places := FindConfigValues(env.central, key, "");
    if matches == [] {
      return Failure(MissingKey(key));
    }
    assert places[0] in places;
    if |matches| > 1 {
      assert places[1] in places && places[0] != places[1];
      return Failure(AmbiguousKey(key));
    }
    assert OnlyMatch(env.central, key, places[0]);
    ThePlaceIsTheOnlyMatch(env.central, key);
    r := ConfigMeaning(Some(matches[0].1), matches[0].0, env.root);
  }

  method Resolve(token: Token, env: Env) returns (r: Result<Meaning, RenderError>)
    ensures r == MeaningOf(token, env)
  {
    match token {
      case Short(key) =>
        r := ResolveShort(key, env);
      case Config(path) =>
        var found := Lookup(env.central, path);
        r := ConfigMeaning(found, path, env.root);
      case Custom(path) =>
        if env.defaults.None? {
          return Failure(NoCustomization);
        }
        var found := Lookup(env.customization, "workflow." + path);
        var default := Lookup(env.defaults.value, "workflow." + path);
        r := CustomMeaning(found, default, path);
    }
  }

  /** One `finditer` loop: the matches of one kind in one source. */
  method ResolveEach(found: seq<Token>, env: Env, start: Resolution, ghost before: set<Token>)
    returns (r: Result<Resolution, RenderError>)
    requires Resolves(before, env, start)
    requires forall t :: t in found || t in before ==> WellFormed(t)
    ensures r.Success? ==> Resolves(before + Elements(found), env, r.value)
    ensures r.Failure? ==> exists t :: t in found && MeaningOf(t, env) == Failure(r.error)
  {
    hide Resolves, MeaningOf;
    var res, i := start, 0;
    assert before + Elements(found[..0]) == before;
    while i < |found|
      invariant 0 <= i <= |found| && Resolves(before + Elements(found[..i]), env, res)
    {
      var one := Resolve(found[i], env);
      if one.Failure? {
        return Failure(one.error);
      }
      OneTokenMore(before + Elements(found[..i]), found[i], env, res);
      assert before + Elements(found[..i]) + {found[i]} == before + Elements(found[..i + 1]);
      res := Resolution(res.replacements[found[i] := one.value.text], res.inputs[one.value.source := one.value.value]);
      i := i + 1;
    }
    assert found[..i] == found;
    r := Success(res);
  }

  datatype Kind = Shorts | Configs | Customs

  predicate IsOf(kind: Kind, t: Token) {
    match kind
    case Shorts => t.Short?
    case Configs => t.Config?
    case Customs => t.Custom?
  }

  function Matches(pieces: seq<Piece>, kind: Kind): (tokens: seq<Token>)
    ensures forall t :: t in tokens <==> Tok(t) in pieces && IsOf(kind, t)
  {
    if pieces == [] then []
    else (if pieces[0].Tok? && IsOf(kind, pieces[0].token) then [pieces[0].token] else []) + Matches(pieces[1..], kind)
  }

  function TokensOf(pieces: seq<Piece>): (tokens: set<Token>)
    ensures forall t :: t in tokens <==> Tok(t) in pieces
  {
    if pieces == [] then {} else (if pieces[0].Tok? then {pieces[0].token} else {}) + TokensOf(pieces[1..])
  }

  lemma ThreeKindsAreAll(pieces: seq<Piece>)
    ensures Elements(Matches(pieces, Shorts)) + Elements(Matches(pieces, Configs)) + Elements(Matches(pieces, Customs))
         == TokensOf(pieces)
  {
  }

  function AllTokens(sources: seq<seq<Piece>>): (tokens: set<Token>)
    ensures forall t :: t in tokens <==> exists i :: 0 <= i < |sources| && Tok(t) in sources[i]
  {
    if sources == [] then {} else AllTokens(sources[..|sources| - 1]) + TokensOf(sources[|sources| - 1])
  }

  method ResolveSource(pieces: seq<Piece>, env: Env, start: Resolution, ghost before: set<Token>)
    returns (r: Result<Resolution, RenderError>)
    requires Resolves(before, env, start)
    requires forall t :: Tok(t) in pieces || t in before ==> WellFormed(t)
    ensures r.Success? ==> Resolves(before + TokensOf(pieces), env, r.value)
    ensures r.Failure? ==> exists t :: Tok(t) in pieces && MeaningOf(t, env) == Failure(r.error)
  {
    hide Resolves, MeaningOf;
    var shorts, configs, customs := Matches(pieces, Shorts), Matches(pieces, Configs), Matches(pieces, Customs);
    r := ResolveEach(shorts, env, start, before);
    if r.Failure? {
      return;
    }
    r := ResolveEach(configs, env, r.value, before + Elements(shorts));
    if r.Failure? {
      return;
    }
    r := ResolveEach(customs, env, r.value, before + Elements(shorts) + Elements(configs));
    ThreeKindsAreAll(pieces);
    assert before + Elements(shorts) + Elements(configs) + Elements(customs)
        == before + (Elements(shorts) + Elements(configs) + Elements(customs));
  }

  /** `_resolve_replacements`: it succeeds exactly when every token stands for something, and then both
    * dicts say exactly what. */
  method ResolveReplacements(sources: seq<seq<Piece>>, env: Env) returns (r: Result<Resolution, RenderError>)
    requires forall t :: t in AllTokens(sources) ==> WellFormed(t)
    ensures r.Success? ==> Resolves(AllTokens(sources), env, r.value)
    ensures r.Failure? ==> exists t :: t in AllTokens(sources) && MeaningOf(t, env) == Failure(r.error)
  {
    var res, i := Resolution(map[], map[]), 0;
    while i < |sources|
      invariant 0 <= i <= |sources| && Resolves(AllTokens(sources[..i]), env, res)
    {
      assert sources[..i + 1][..i] == sources[..i];
      assert forall t :: Tok(t) in sources[i] || t in AllTokens(sources[..i]) ==> t in AllTokens(sources);
      var one := ResolveSource(sources[i], env, res, AllTokens(sources[..i]));
      if one.Failure? {
        return Failure(one.error);
      }
      res := one.value;
      i := i + 1;
    }
    assert sources[..i] == sources;
    r := Success(res);
  }

  // ------------------------------------------------------------------------- the main theorem

  ghost predicate TableArrayDefault(path: string, env: Env) {
    env.defaults.Some? && At(env.defaults.value, CustomPlace(path)).Some?
    && IsTableArray(At(env.defaults.value, CustomPlace(path)).value)
  }

  /** For every customization that resolved to nothing, the two defaults are of one kind. */
  ghost predicate EmptyListsAgree(tokens: set<Token>, env: Env, that: Env, inputs: map<Source, Value>) {
    forall path :: Custom(path) in tokens && Get(inputs, FromCustomization(path)) == Some(Arr([])) ==>
      TableArrayDefault(path, env) == TableArrayDefault(path, that)
  }

  /** A short key's path may differ between two renders only if a config token names it as well; then
    * the one match in the second render is at that path too. */
  lemma ShortTextIsDecided(key: string, tokens: set<Token>, env: Env, that: Env, res: Resolution, other: Resolution)
    requires forall t :: t in tokens ==> WellFormed(t)
    requires Resolves(tokens, env, res) && Resolves(tokens, that, other) && res.inputs == other.inputs
    requires Short(key) in tokens
    ensures res.replacements[Short(key)] == other.replacements[Short(key)]
  {
    hide MeaningOf, Resolves;
    var t := Short(key);
    EachMeans(t, tokens, env, res);
    EachMeans(t, tokens, that, other);
    TokensMean(t, env);
    TokensMean(t, that);
    var w := EachIsSourced(MeaningOf(t, env).value.source, tokens, that, other);
    EachMeans(w, tokens, that, other);
    TokensMean(w, that);
    if w.Short? {
      ShortSourcesName(key, w.key, env, that);
    } else {
      AConfigTokenSettlesTheKey(key, PlaceOf(env.central, key).value, w.path, that);
    }
  }

  lemma ConfigTextIsDecided(path: string, tokens: set<Token>, env: Env, that: Env, res: Resolution, other: Resolution)
    requires Resolves(tokens, env, res) && Resolves(tokens, that, other) && res.inputs == other.inputs
    requires Config(path) in tokens
    ensures res.replacements[Config(path)] == other.replacements[Config(path)]
  {
    hide MeaningOf, Resolves;
    var t := Config(path);
    EachMeans(t, tokens, env, res);
    EachMeans(t, tokens, that, other);
    TokensMean(t, env);
    TokensMean(t, that);
  }

  lemma CustomTextIsDecided(path: string, tokens: set<Token>, env: Env, that: Env, res: Resolution, other: Resolution)
    requires Resolves(tokens, env, res) && Resolves(tokens, that, other) && res.inputs == other.inputs
    requires Custom(path) in tokens
    ensures FromCustomization(path) in res.inputs
    ensures res.replacements[Custom(path)] == other.replacements[Custom(path)]
       <==> (res.inputs[FromCustomization(path)] == Arr([]) ==>
             TableArrayDefault(path, env) == TableArrayDefault(path, that))
  {
    hide CustomValue, Resolves;
    var t := Custom(path);
    EachMeans(t, tokens, env, res);
    EachMeans(t, tokens, that, other);
    TheValueDecidesTheText(
      At(env.customization, CustomPlace(path)).value, At(env.defaults.value, CustomPlace(path)).value,
      At(that.customization, CustomPlace(path)).value, At(that.defaults.value, CustomPlace(path)).value,
      Spelled(FromCustomization(path)));
  }

  /** Where the texts of a customization differ they are the two texts of an empty list. */
  lemma DifferentTextsAreTheTwo(path: string, tokens: set<Token>, env: Env, that: Env, res: Resolution,
                                other: Resolution)
    requires Resolves(tokens, env, res) && Resolves(tokens, that, other) && res.inputs == other.inputs
    requires Custom(path) in tokens && res.replacements[Custom(path)] != other.replacements[Custom(path)]
    ensures TableArrayDefault(path, env) != TableArrayDefault(path, that)
    ensures res.replacements[Custom(path)] == EmptyText(TableArrayDefault(path, env))
    ensures other.replacements[Custom(path)] == EmptyText(TableArrayDefault(path, that))
  {
    hide Resolves, MeaningOf, TableArrayDefault, EmptyText;
    TheReplacementsAreTheTokens(tokens, env, res);
    TheReplacementsAreTheTokens(tokens, that, other);
    CustomTextIsDecided(path, tokens, env, that, res, other);
    EmptyListText(path, tokens, env, res);
    EmptyListText(path, tokens, that, other);
  }

  /** The two texts an empty list can have. */
  function EmptyText(isTableArray: bool): string {
    if isTableArray then NO_ACTIVE_LAYERS else NONE_LISTED
  }

  lemma EmptyListText(path: string, tokens: set<Token>, env: Env, res: Resolution)
    requires Resolves(tokens, env, res) && Custom(path) in tokens
    requires Get(res.inputs, FromCustomization(path)) == Some(Arr([]))
    ensures Custom(path) in res.replacements
      && res.replacements[Custom(path)] == EmptyText(TableArrayDefault(path, env))
  {
    hide CustomValue, Resolves;
    EachMeans(Custom(path), tokens, env, res);
    var found, default := At(env.customization, CustomPlace(path)).value,
      At(env.defaults.value, CustomPlace(path)).value;
    EmptyMeansAList(found, default, Spelled(FromCustomization(path)));
    ListText(found, default, Spelled(FromCustomization(path)));
  }

  lemma EmptyMeansAList(found: Value, default: Value, what: string)
    requires CustomValue(found, default, what).Success? && CustomValue(found, default, what).value.0 == Arr([])
    ensures default.Arr?
  {
  }

  /** Renders of the same sources with the same resolved values replace every token alike exactly when
    * the customizations that resolved to an empty list have defaults of one kind in both. */
  lemma ResolvedValuesDecideReplacements(tokens: set<Token>, env: Env, that: Env, res: Resolution, other: Resolution)
    requires forall t :: t in tokens ==> WellFormed(t)
    requires Resolves(tokens, env, res) && Resolves(tokens, that, other) && res.inputs == other.inputs
    ensures res.replacements == other.replacements <==> EmptyListsAgree(tokens, env, that, res.inputs)
  {
    hide MeaningOf, TableArrayDefault, Resolves;
    TheReplacementsAreTheTokens(tokens, env, res);
    TheReplacementsAreTheTokens(tokens, that, other);
    forall path | Custom(path) in tokens
      ensures FromCustomization(path) in res.inputs
      ensures res.replacements[Custom(path)] == other.replacements[Custom(path)]
         <==> (res.inputs[FromCustomization(path)] == Arr([]) ==>
               TableArrayDefault(path, env) == TableArrayDefault(path, that))
    {
      CustomTextIsDecided(path, tokens, env, that, res, other);
    }
    if EmptyListsAgree(tokens, env, that, res.inputs) {
      forall t | t in tokens ensures res.replacements[t] == other.replacements[t] {
        if t.Short? {
          ShortTextIsDecided(t.key, tokens, env, that, res, other);
        } else if t.Config? {
          ConfigTextIsDecided(t.path, tokens, env, that, res, other);
        }
      }
    }
  }
}
