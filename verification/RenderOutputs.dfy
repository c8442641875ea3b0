/** From the identity to the snapshot: when renders of one identity publish one directory
  * (`_bmad/scripts/render_skill.py`). */
module RenderOutputs {
  import opened Core
  import opened Merge
  import P = Publish
  import opened Strings = Text
  import opened RenderValues
  import opened RenderIdentity

  const SKILL_ROOT := "{skill-root}"

  /** What a source is rendered with: the replacements, the sources there are, and where they will be. */
  datatype View = View(replacements: map<Token, string>, names: set<string>, destination: string)

  /** One piece of the output; inserted text is not scanned again. */
  function RenderedPiece(piece: Piece, view: View): Result<string, RenderError> {
    match piece
    case Literal(text) => Success(text)
    case Tok(token) =>
      var text := if token in view.replacements then view.replacements[token] else "";
      Success(if token.Custom? then ReplaceAll(text, SKILL_ROOT, view.destination) else text)
    case Snapshot(target) =>
      if target in view.names then Success(view.destination + "/" + target) else Failure(UndeclaredSnapshot(target))
  }

  function RenderedPieces(pieces: seq<Piece>, view: View): Result<string, RenderError> {
    if pieces == [] then Success("")
    else
      match RenderedPieces(pieces[..|pieces| - 1], view)
      case Failure(e) => Failure(e)
      case Success(before) =>
        match RenderedPiece(pieces[|pieces| - 1], view)
        case Failure(e) => Failure(e)
        case Success(text) => Success(before + text)
  }

  /** The identity the generation is named after; its values are keyed by the spelling of their sources. */
  datatype Identity = Identity(root: string, renderer: string, values: map<string, Value>, sources: map<string, string>)

  function SpelledValues(inputs: map<Source, Value>): map<string, Value> {
    SpellingsApart();
    map source | source in inputs :: Spelled(source) := inputs[source]
  }

  lemma SpellingsApart()
    ensures forall a, b :: Spelled(a) == Spelled(b) ==> a == b
  {
    forall a, b | Spelled(a) == Spelled(b) ensures a == b {
      SpelledApart(a, b);
    }
  }

  lemma EqualSpellingsEqualInputs(inputs: map<Source, Value>, others: map<Source, Value>)
    requires SpelledValues(inputs) == SpelledValues(others)
    ensures inputs == others
  {
    SpellingsApart();
    hide Spelled;
    var a, b := SpelledValues(inputs), SpelledValues(others);
    forall source ensures source in inputs <==> source in others {
      assert source in inputs ==> Spelled(source) in a;
      assert source in others ==> Spelled(source) in b;
    }
    forall source | source in inputs ensures inputs[source] == others[source] {
      assert a[Spelled(source)] == inputs[source] && b[Spelled(source)] == others[source];
    }
  }

  /** What this model takes as given about the formats: how a source falls into pieces, how an identity
    * is spelled, and where the generation of one is put. */
  datatype Formats = Formats(pieces: string -> seq<Piece>, spell: Identity -> string, place: Identity -> string)

  /** What is the same for every render: the renderer itself, the formats and the tools. */
  datatype Setting = Setting(renderer: string, formats: Formats, tools: P.Tools)

  /** One successful `render`, up to the call that publishes. */
  datatype Rendering = Rendering(
    sources: map<string, string>, env: Env, tokens: set<Token>, res: Resolution,
    identity: Identity, outputs: P.Dir, manifest: P.Manifest)
  {
    function Seen(at: Setting): View {
      View(res.replacements, sources.Keys, at.formats.place(identity))
    }
  }

  ghost predicate Renders(x: Rendering, at: Setting) {
    && SourceTokens(x.sources, at.formats, x.tokens)
    && Resolves(x.tokens, x.env, x.res)
    && x.identity
       == Identity(x.env.root, at.renderer, SpelledValues(x.res.inputs), P.Digests(x.sources, at.tools))
    && x.outputs.Keys == x.sources.Keys
    && (forall name :: name in x.sources ==>
          RenderedPieces(at.formats.pieces(x.sources[name]), x.Seen(at)) == Success(x.outputs[name]))
    && x.manifest == P.Manifest(at.formats.spell(x.identity), P.Digests(x.outputs, at.tools))
  }

  ghost predicate SourceTokens(sources: map<string, string>, formats: Formats, tokens: set<Token>) {
    && (forall t :: t in tokens ==> WellFormed(t))
    && (forall t :: t in tokens <==> exists name :: name in sources && Tok(t) in formats.pieces(sources[name]))
  }

  /** A rendering with what it renders left to others: its tokens are well formed and resolved. */
  lemma WhatARenderingHolds(x: Rendering, at: Setting)
    requires Renders(x, at)
    ensures Resolves(x.tokens, x.env, x.res) && forall t :: t in x.tokens ==> WellFormed(t)
    ensures x.res.replacements.Keys == x.tokens
    ensures x.outputs.Keys == x.sources.Keys && P.Lists(x.manifest, x.outputs, at.tools)
    ensures x.identity.values == SpelledValues(x.res.inputs) && x.identity.sources == P.Digests(x.sources, at.tools)
  {
    TheReplacementsAreTheTokens(x.tokens, x.env, x.res);
    hide Resolves, RenderedPieces, SpelledValues;
  }

  lemma AnOutputIsRendered(x: Rendering, at: Setting, name: string)
    requires Renders(x, at) && name in x.sources
    ensures name in x.outputs
    ensures RenderedPieces(at.formats.pieces(x.sources[name]), x.Seen(at)) == Success(x.outputs[name])
    ensures forall piece :: piece in at.formats.pieces(x.sources[name]) && piece.Tok? ==> piece.token in x.tokens
  {
    hide Resolves, RenderedPieces, SpelledValues;
  }

  lemma ASourceOf(x: Rendering, at: Setting, token: Token) returns (name: string)
    requires Renders(x, at) && token in x.tokens
    ensures name in x.sources && Tok(token) in at.formats.pieces(x.sources[name])
  {
    hide Resolves, RenderedPieces, SpelledValues;
    name :| name in x.sources && Tok(token) in at.formats.pieces(x.sources[name]);
  }

  /** Equal digests are digests of equal files. */
  lemma EqualDigestsEqualFiles(files: map<string, string>, others: map<string, string>, tools: P.Tools)
    requires P.Sound(tools) && P.Digests(files, tools) == P.Digests(others, tools)
    ensures files == others
  {
    var a, b := P.Digests(files, tools), P.Digests(others, tools);
    assert a.Keys == files.Keys && b.Keys == others.Keys;
    forall name | name in files ensures files[name] == others[name] {
      assert a[name] == b[name];
    }
  }

  // ------------------------------------------------------------- texts that differ, differ at once

  /** Some place inside both holds different characters. */
  ghost predicate Apart(s: string, t: string) {
    exists k :: 0 <= k < |s| && k < |t| && s[k] != t[k]
  }

  lemma ApartThen(s: string, t: string, x: string, y: string)
    ensures Apart(s, t) ==> Apart(s + x, t + y)
    ensures s == t && Apart(x, y) ==> Apart(s + x, t + y)
  {
    if Apart(s, t) {
      var k :| 0 <= k < |s| && k < |t| && s[k] != t[k];
      assert (s + x)[k] != (t + y)[k];
    } else if s == t && Apart(x, y) {
      var k :| 0 <= k < |x| && k < |y| && x[k] != y[k];
      assert (s + x)[|s| + k] != (t + y)[|s| + k];
    }
  }

  lemma ApartIsDifferent(s: string, t: string)
    requires Apart(s, t)
    ensures s != t
  {
  }

  /** A text that does not open with a brace keeps its first character under the last replacement. */
  lemma TheFirstCharacterStays(text: string, destination: string)
    requires text != "" && text[0] != '{'
    ensures var r := ReplaceAll(text, SKILL_ROOT, destination); r != "" && r[0] == text[0]
  {
    assert SKILL_ROOT[0] == '{';
    assert !StartsWith(text, SKILL_ROOT);
  }

  lemma TheTwoTextsComeApart(kind: bool, destination: string)
    ensures Apart(ReplaceAll(EmptyText(kind), SKILL_ROOT, destination),
                  ReplaceAll(EmptyText(!kind), SKILL_ROOT, destination))
  {
    hide ReplaceAll, EmptyText;
    TheTextsOpenApart();
    TheFirstCharacterStays(EmptyText(kind), destination);
    TheFirstCharacterStays(EmptyText(!kind), destination);
    var s := ReplaceAll(EmptyText(kind), SKILL_ROOT, destination);
    var t := ReplaceAll(EmptyText(!kind), SKILL_ROOT, destination);
    assert s[0] != t[0];
  }

  lemma TheTextsOpenApart()
    ensures forall kind :: EmptyText(kind) != "" && EmptyText(kind)[0] == if kind then 'N' else '_'
  {
  }

  /** Two results of one piece, or of one source, with different characters at some one place. */
  ghost predicate ComeApart(a: Result<string, RenderError>, b: Result<string, RenderError>) {
    a.Success? && b.Success? && Apart(a.value, b.value)
  }

  lemma OnlyCustomTextsDiffer(token: Token, tokens: set<Token>, env: Env, that: Env, res: Resolution, other: Resolution)
    requires forall t :: t in tokens ==> WellFormed(t)
    requires Resolves(tokens, env, res) && Resolves(tokens, that, other) && res.inputs == other.inputs
    requires token in tokens && token in res.replacements && token in other.replacements
    requires res.replacements[token] != other.replacements[token]
    ensures token.Custom?
  {
    hide Resolves;
    match token {
      case Short(key) => ShortTextIsDecided(key, tokens, env, that, res, other);
      case Config(path) => ConfigTextIsDecided(path, tokens, env, that, res, other);
      case Custom(_) =>
    }
  }

  /** Under two resolutions of one token set to the same values. */
  ghost predicate Comparable(tokens: set<Token>, env: Env, that: Env, res: Resolution, other: Resolution) {
    && (forall t :: t in tokens ==> WellFormed(t))
    && Resolves(tokens, env, res) && Resolves(tokens, that, other) && res.inputs == other.inputs
    && res.replacements.Keys == tokens == other.replacements.Keys
  }

  lemma ATokenIsSameOrComesApart(token: Token, tokens: set<Token>, env: Env, that: Env, res: Resolution,
                                 other: Resolution, a: View, b: View)
    requires Comparable(tokens, env, that, res, other) && token in tokens
    requires a.replacements == res.replacements && b == a.(replacements := other.replacements)
    ensures res.replacements[token] == other.replacements[token] ==>
      RenderedPiece(Tok(token), a) == RenderedPiece(Tok(token), b)
    ensures res.replacements[token] != other.replacements[token] ==>
      ComeApart(RenderedPiece(Tok(token), a), RenderedPiece(Tok(token), b))
  {
    hide Resolves, ReplaceAll, Apart, EmptyText, TableArrayDefault;
    if res.replacements[token] != other.replacements[token] {
      OnlyCustomTextsDiffer(token, tokens, env, that, res, other);
      DifferentTextsAreTheTwo(token.path, tokens, env, that, res, other);
      TheTwoTextsComeApart(TableArrayDefault(token.path, env), a.destination);
    }
  }

  /** Two renderings of one source are the same, or come apart as soon as one of its pieces does. */
  lemma {:induction false} SourcesAreSameOrComeApart(pieces: seq<Piece>, a: View, b: View)
    requires forall piece :: piece in pieces ==>
      RenderedPiece(piece, a) == RenderedPiece(piece, b) || ComeApart(RenderedPiece(piece, a), RenderedPiece(piece, b))
    requires RenderedPieces(pieces, a).Success? && RenderedPieces(pieces, b).Success?
    ensures RenderedPieces(pieces, a) == RenderedPieces(pieces, b)
         || ComeApart(RenderedPieces(pieces, a), RenderedPieces(pieces, b))
    ensures (exists piece :: piece in pieces && ComeApart(RenderedPiece(piece, a), RenderedPiece(piece, b))) ==>
      ComeApart(RenderedPieces(pieces, a), RenderedPieces(pieces, b))
  {
    hide RenderedPiece, Apart;
    if pieces != [] {
      var n := |pieces| - 1;
      SourcesAreSameOrComeApart(pieces[..n], a, b);
      assert pieces == pieces[..n] + [pieces[n]];
      ApartThen(RenderedPieces(pieces[..n], a).value, RenderedPieces(pieces[..n], b).value,
                RenderedPiece(pieces[n], a).value, RenderedPiece(pieces[n], b).value);
    }
  }

  // --------------------------------------------------------------------------- the two main results

  /** A token with two texts shows in the outputs of every source that holds it. */
  lemma ADisagreementShows(x: Rendering, y: Rendering, at: Setting, token: Token)
    requires Renders(x, at) && Renders(y, at)
    requires x.identity == y.identity && x.sources == y.sources && x.tokens == y.tokens
    requires Comparable(x.tokens, x.env, y.env, x.res, y.res)
    requires token in x.tokens && x.res.replacements[token] != y.res.replacements[token]
    ensures x.outputs != y.outputs
  {
    hide Comparable, RenderedPieces, RenderedPiece, ComeApart, Renders;
    var name := ASourceOf(x, at, token);
    var pieces := at.formats.pieces(x.sources[name]);
    AnOutputIsRendered(x, at, name);
    AnOutputIsRendered(y, at, name);
    forall piece | piece in pieces
      ensures RenderedPiece(piece, x.Seen(at)) == RenderedPiece(piece, y.Seen(at))
           || ComeApart(RenderedPiece(piece, x.Seen(at)), RenderedPiece(piece, y.Seen(at)))
    {
      if piece.Tok? {
        ATokenIsSameOrComesApart(piece.token, x.tokens, x.env, y.env, x.res, y.res, x.Seen(at), y.Seen(at));
      } else {
        OtherPiecesAreTheSame(piece, x.Seen(at), y.Seen(at));
      }
    }
    ATokenIsSameOrComesApart(token, x.tokens, x.env, y.env, x.res, y.res, x.Seen(at), y.Seen(at));
    SourcesAreSameOrComeApart(pieces, x.Seen(at), y.Seen(at));
    AComingApartIsDifferent(RenderedPieces(pieces, x.Seen(at)), RenderedPieces(pieces, y.Seen(at)));
  }

  lemma OtherPiecesAreTheSame(piece: Piece, a: View, b: View)
    requires !piece.Tok? && a.names == b.names && a.destination == b.destination
    ensures RenderedPiece(piece, a) == RenderedPiece(piece, b)
  {
  }

  lemma AComingApartIsDifferent(a: Result<string, RenderError>, b: Result<string, RenderError>)
    requires ComeApart(a, b)
    ensures a != b
  {
    ApartIsDifferent(a.value, b.value);
  }

  /** Renders of one identity are of the same sources, tokens and resolved values. */
  lemma OneIdentityIsComparable(x: Rendering, y: Rendering, at: Setting)
    requires P.Sound(at.tools) && Renders(x, at) && Renders(y, at) && x.identity == y.identity
    ensures x.sources == y.sources && x.tokens == y.tokens && Comparable(x.tokens, x.env, y.env, x.res, y.res)
  {
    WhatARenderingHolds(x, at);
    WhatARenderingHolds(y, at);
    EqualDigestsEqualFiles(x.sources, y.sources, at.tools);
    EqualSpellingsEqualInputs(x.res.inputs, y.res.inputs);
    hide Resolves, RenderedPieces, SpelledValues;
    assert forall t :: t in x.tokens <==> t in y.tokens;
  }

  /** Equal replacements make equal outputs. */
  lemma EqualReplacementsShow(x: Rendering, y: Rendering, at: Setting)
    requires Renders(x, at) && Renders(y, at) && x.identity == y.identity && x.sources == y.sources
    requires x.res.replacements == y.res.replacements
    ensures x.outputs == y.outputs && x.manifest == y.manifest
  {
    hide Resolves, RenderedPieces, SpelledValues;
    assert x.Seen(at) == y.Seen(at);
    forall name | name in x.sources ensures x.outputs[name] == y.outputs[name] {
      AnOutputIsRendered(x, at, name);
      AnOutputIsRendered(y, at, name);
    }
  }

  /** Renders of one identity make one snapshot exactly when their empty lists have defaults of one kind. */
  lemma EqualIdentitiesMakeOneSnapshot(x: Rendering, y: Rendering, at: Setting)
    requires P.Sound(at.tools) && Renders(x, at) && Renders(y, at) && x.identity == y.identity
    ensures x.outputs == y.outputs <==> EmptyListsAgree(x.tokens, x.env, y.env, x.res.inputs)
    ensures x.outputs == y.outputs <==> x.manifest == y.manifest
  {
    hide EmptyListsAgree, Renders, Resolves;
    OneIdentityIsComparable(x, y, at);
    ResolvedValuesDecideReplacements(x.tokens, x.env, y.env, x.res, y.res);
    WhatARenderingHolds(x, at);
    WhatARenderingHolds(y, at);
    if x.res.replacements == y.res.replacements {
      EqualReplacementsShow(x, y, at);
    } else {
      var token :| token in x.tokens && x.res.replacements[token] != y.res.replacements[token];
      ADisagreementShows(x, y, at, token);
    }
    if x.manifest == y.manifest {
      EqualDigestsEqualFiles(x.outputs, y.outputs, at.tools);
    }
  }

  /** So a later render of the same identity accepts an intact generation on that condition, and reports
    * it as a collision otherwise. */
  lemma AnIntactGenerationIsAccepted(x: Rendering, y: Rendering, at: Setting, r: Result<(), P.PublishError>)
    requires P.Sound(at.tools) && P.MANIFEST !in x.sources
    requires Renders(x, at) && Renders(y, at) && x.identity == y.identity
    requires P.Verdict(P.Snapshot(x.outputs, x.manifest, at.tools), y.manifest, at.tools, r)
    ensures r.Success? <==> EmptyListsAgree(x.tokens, x.env, y.env, x.res.inputs)
    ensures r.Failure? ==> r.error == P.Collision
  {
    hide EmptyListsAgree, Renders;
    EqualIdentitiesMakeOneSnapshot(x, y, at);
    WhatARenderingHolds(x, at);
    WhatARenderingHolds(y, at);
    hide Resolves, SpelledValues;
    var dir := P.Snapshot(x.outputs, x.manifest, at.tools);
    assert at.tools.loads(dir[P.MANIFEST]) == Some(x.manifest);
    if x.manifest == y.manifest {
      P.ASnapshotHoldsItsOutputs(x.outputs, x.manifest, at.tools);
      P.AcceptedExactlyWhenItHoldsTheOutputs(dir, x.outputs, x.manifest, at.tools, r);
    }
  }
}
