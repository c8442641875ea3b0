/** Layered customizations under the renderer: when a list cannot resolve to nothing, and how one can
  * (`_bmad/scripts/render_skill.py`, `_bmad/scripts/config_utils.py`). */
module RenderLayers {
  import opened Core
  import opened Merge
  import MergeLaws
  import opened Strings = Text
  import opened RenderValues
  import opened RenderIdentity

  // ------------------------------------------------------------------ lists the layers never shrink

  /** Where the layer has anything on the way to a place it has tables, and a list at the place. */
  ghost predicate ListAlong(v: Value, names: seq<string>) {
    if names == [] then v.Arr?
    else v.Table? && (names[0] in v.entries ==> ListAlong(v.entries[names[0]], names[1..]))
  }

  function ItemsAt(v: Value, names: seq<string>): nat {
    var found := At(v, names);
    if found.Some? && found.value.Arr? then |found.value.items| else 0
  }

  lemma ArraysDoNotShrink(base: seq<Value>, over: seq<Value>)
    requires MergeArrays(base, over).Success?
    ensures |MergeArrays(base, over).value| >= |base|
  {
    var detected := Detect(base + over);
    if detected.Success? && detected.value.Some? {
      AKeyedMergeListsBaseThenNew(base, over, detected.value.value);
      var merged := MergeKeyed(base, over, detected.value.value);
      assert |Keys(merged, detected.value.value)| == |merged|;
    }
  }

  lemma {:induction false} AMergeDoesNotShrink(base: Value, over: Value, names: seq<string>)
    requires ListAlong(base, names) && ListAlong(over, names) && StructuralMerge(base, over).Some?
    ensures ListAlong(StructuralMerge(base, over).value, names)
    ensures ItemsAt(StructuralMerge(base, over).value, names) >= ItemsAt(base, names)
    decreases names
  {
    if names == [] {
      ArraysDoNotShrink(base.items, over.items);
    } else if names[0] in base.entries && names[0] in over.entries {
      AMergeDoesNotShrink(base.entries[names[0]], over.entries[names[0]], names[1..]);
    }
  }

  /** The merged list is at least as long as the first layer's, when every layer has lists there. */
  lemma {:induction false} LayersDoNotShrink(layers: seq<map<string, Value>>, names: seq<string>)
    requires layers != [] && MergeLayers(layers).Some?
    requires forall i :: 0 <= i < |layers| ==> ListAlong(Table(layers[i]), names)
    ensures ListAlong(Table(MergeLayers(layers).value), names)
    ensures ItemsAt(Table(MergeLayers(layers).value), names) >= ItemsAt(Table(layers[0]), names)
  {
    var n := |layers| - 1;
    MergeLaws.TheLastLayerMergesLast(layers);
    if n == 0 {
      MergeLaws.TheEmptyTableIsTheIdentity(layers[0]);
      assert layers[..0] == [];
    } else {
      LayersDoNotShrink(layers[..n], names);
      AMergeDoesNotShrink(Table(MergeLayers(layers[..n]).value), Table(layers[n]), names);
    }
  }

  /** The customization is its layers merged, the defaults first: `load_customization`. */
  ghost predicate Customized(env: Env, layers: seq<map<string, Value>>) {
    && layers != [] && env.defaults == Some(Table(layers[0]))
    && MergeLayers(layers).Some? && env.customization == Table(MergeLayers(layers).value)
  }

  /** No layer puts something other than a list where the defaults have a list of tables. */
  ghost predicate ListsStayLists(tokens: set<Token>, env: Env, layers: seq<map<string, Value>>) {
    forall path :: Custom(path) in tokens && TableArrayDefault(path, env) ==>
      forall i :: 0 <= i < |layers| ==> ListAlong(Table(layers[i]), CustomPlace(path))
  }

  lemma ATableArrayNeverResolvesToNothing(path: string, tokens: set<Token>, env: Env, layers: seq<map<string, Value>>,
                                          res: Resolution)
    requires Customized(env, layers) && ListsStayLists(tokens, env, layers)
    requires Resolves(tokens, env, res) && Custom(path) in tokens
    requires TableArrayDefault(path, env)
    ensures Get(res.inputs, FromCustomization(path)) != Some(Arr([]))
  {
    hide Resolves;
    EachMeans(Custom(path), tokens, env, res);
    LayersDoNotShrink(layers, CustomPlace(path));
    ANonEmptyListResolvesToOne(At(env.customization, CustomPlace(path)), At(env.defaults.value, CustomPlace(path)),
                               path);
  }

  lemma ANonEmptyListResolvesToOne(found: Option<Value>, default: Option<Value>, path: string)
    requires CustomMeaning(found, default, path).Success?
    requires found.Some? && found.value.Arr? && found.value.items != []
    requires default.Some? && IsTableArray(default.value)
    ensures CustomMeaning(found, default, path).value.value != Arr([])
  {
    LayersAreTables(found.value.items, Spelled(FromCustomization(path)));
  }

  /** So when the layers keep lists lists, the resolved values decide every replacement. */
  lemma LayeredRendersAgree(tokens: set<Token>, env: Env, that: Env, res: Resolution, other: Resolution,
                            layers: seq<map<string, Value>>, others: seq<map<string, Value>>)
    requires forall t :: t in tokens ==> WellFormed(t)
    requires Customized(env, layers) && ListsStayLists(tokens, env, layers)
    requires Customized(that, others) && ListsStayLists(tokens, that, others)
    requires Resolves(tokens, env, res) && Resolves(tokens, that, other) && res.inputs == other.inputs
    ensures EmptyListsAgree(tokens, env, that, res.inputs)
    ensures res.replacements == other.replacements
  {
    hide Resolves, Customized, ListsStayLists, TableArrayDefault;
    forall path | Custom(path) in tokens && Get(res.inputs, FromCustomization(path)) == Some(Arr([]))
      ensures TableArrayDefault(path, env) == TableArrayDefault(path, that)
    {
      if TableArrayDefault(path, env) {
        ATableArrayNeverResolvesToNothing(path, tokens, env, layers, res);
      } else if TableArrayDefault(path, that) {
        ATableArrayNeverResolvesToNothing(path, tokens, that, others, other);
      }
    }
    ResolvedValuesDecideReplacements(tokens, env, that, res, other);
  }

  // ------------------------------------------------------------------- and one way they can differ

  function OneLayer(v: Value): map<string, Value> {
    map["workflow" := Table(map["layers" := v])]
  }

  lemma LayersPlace()
    ensures CustomPlace("layers") == ["workflow", "layers"]
  {
    hide Split;
    assert "workflow." + "layers" == "workflow" + ['.'] + "layers";
    SplitAtSeparator("workflow", '.', "layers");
    SplitWithout("workflow", '.');
    SplitWithout("layers", '.');
  }

  lemma AtOneLayer(v: Value)
    ensures At(Table(OneLayer(v)), ["workflow", "layers"]) == Some(v)
  {
    assert ["workflow", "layers"][1..] == ["layers"];
    assert At(v, ["layers"][1..]) == Some(v);
  }

  lemma OneLayerMerges(v: Value, w: Value)
    requires StructuralMerge(v, w).Some?
    ensures Layered(OneLayer(v), OneLayer(w)) == Some(OneLayer(StructuralMerge(v, w).value))
  {
    var merged := StructuralMerge(v, w).value;
    MergeLaws.OneKeyMerges("layers", v, w, merged);
    MergeLaws.OneKeyMerges("workflow", Table(map["layers" := v]), Table(map["layers" := w]),
                           Table(map["layers" := merged]));
  }

  /** A list the next layer overrides with a leaf, and the last with an empty list, is empty. */
  lemma ALeafThenAnEmptyListEmpties(items: seq<Value>)
    ensures MergeLayers([OneLayer(Arr(items)), OneLayer(Value.Text("off")), OneLayer(Arr([]))])
      == Some(OneLayer(Arr([])))
  {
    var a, b, c := OneLayer(Arr(items)), OneLayer(Value.Text("off")), OneLayer(Arr([]));
    MergeLaws.TheEmptyTableIsTheIdentity(a);
    OneLayerMerges(Arr(items), Value.Text("off"));
    OneLayerMerges(Value.Text("off"), Arr([]));
    assert [a, b, c][..2] == [a, b] && [a, b][..1] == [a] && [a][..0] == [];
    assert MergeLayers([]) == Some(map[]);
    assert MergeLayers([a]) == Some(a);
    assert MergeLayers([a, b]) == Some(b);
  }

  function EnvOf(layers: seq<map<string, Value>>): Env
    requires layers != [] && MergeLayers(layers).Some?
  {
    Env(Table(map[]), Table(MergeLayers(layers).value), Some(Table(layers[0])), "/")
  }

  lemma AnEmptyListMeans(layers: seq<map<string, Value>>, default: Value)
    requires layers != [] && layers[0] == OneLayer(default) && MergeLayers(layers) == Some(OneLayer(Arr([])))
    requires default.Arr?
    ensures MeaningOf(Custom("layers"), EnvOf(layers))
         == Success(Meaning(FromCustomization("layers"), Arr([]), EmptyText(IsTableArray(default))))
    ensures TableArrayDefault("layers", EnvOf(layers)) == IsTableArray(default)
  {
    LayersPlace();
    AtOneLayer(default);
    AtOneLayer(Arr([]));
  }

  /** Two renders of one source with equal resolved values and different texts. */
  lemma TheIdentityDoesNotHashTheDefaults(layer: Value)
    requires layer.Table?
    ensures var with := [OneLayer(Arr([layer])), OneLayer(Value.Text("off")), OneLayer(Arr([]))];
      var without := [OneLayer(Arr([]))];
      && MergeLayers(with).Some? && MergeLayers(without).Some?
      && SameInputsOtherTexts(Custom("layers"), EnvOf(with), EnvOf(without))
  {
    var with := [OneLayer(Arr([layer])), OneLayer(Value.Text("off")), OneLayer(Arr([]))];
    var without := [OneLayer(Arr([]))];
    ALeafThenAnEmptyListEmpties([layer]);
    assert MergeLayers(without) == Some(OneLayer(Arr([]))) by {
      MergeLaws.TheEmptyTableIsTheIdentity(OneLayer(Arr([])));
      assert without[..0] == [];
    }
    AnEmptyListMeans(with, Arr([layer]));
    AnEmptyListMeans(without, Arr([]));
    TheTextsDiffer();
    OtherTexts(Custom("layers"), EnvOf(with), EnvOf(without));
  }

  ghost predicate SameInputsOtherTexts(t: Token, env: Env, that: Env) {
    exists res, other ::
      && Resolves({t}, env, res) && Resolves({t}, that, other)
      && res.inputs == other.inputs && res.replacements != other.replacements
  }

  lemma OtherTexts(t: Token, env: Env, that: Env)
    requires MeaningOf(t, env).Success? && MeaningOf(t, that).Success?
    requires MeaningOf(t, that).value == MeaningOf(t, env).value.(text := MeaningOf(t, that).value.text)
    requires MeaningOf(t, env).value.text != MeaningOf(t, that).value.text
    ensures SameInputsOtherTexts(t, env, that)
  {
    hide MeaningOf, Resolves;
    var m, n := MeaningOf(t, env).value, MeaningOf(t, that).value;
    var res := Resolution(map[t := m.text], map[m.source := m.value]);
    var other := Resolution(map[t := n.text], map[n.source := n.value]);
    OneMeans(t, env, res);
    OneMeans(t, that, other);
    assert res.replacements[t] != other.replacements[t];
  }

  lemma OneMeans(t: Token, env: Env, res: Resolution)
    requires MeaningOf(t, env).Success?
    requires var m := MeaningOf(t, env).value; res == Resolution(map[t := m.text], map[m.source := m.value])
    ensures Resolves({t}, env, res)
  {
    hide MeaningOf;
    assert MeansHere(t, env, res);
  }
}
