/** Where the values of a merged configuration come from, place by place (`_bmad/scripts/config_utils.py`). */
module MergePlaces {
  import opened Core
  import opened Merge
  import opened RenderValues

  // ------------------------------------------------------------------------- the field of a keyed list

  /** Every item is a table with this entry. */
  ghost predicate AllHave(items: seq<Value>, field: string) {
    forall i :: 0 <= i < |items| ==> items[i].Table? && field in items[i].entries
  }

  /** Every item is a table with text under this entry, and not the empty one. */
  ghost predicate AllNamed(items: seq<Value>, field: string) {
    AllHave(items, field)
    && forall i :: 0 <= i < |items| ==> items[i].entries[field].Text? && items[i].entries[field].s != ""
  }

  /** The field that keys a list: `code` before `id`, when all items carry it; a list that is empty, or of
    * other things than tables, or of tables that share neither, is not keyed. */
  ghost predicate KeyedBy(items: seq<Value>, field: string) {
    items != [] && AllHave(items, field) && (field == "code" || (field == "id" && !AllHave(items, "code")))
  }

  /** A list is refused exactly when the entry that keys it is, in some item, no text or the empty text. */
  lemma WhichFieldKeys(items: seq<Value>, field: string)
    ensures Detect(items) == Success(Some(field)) <==> KeyedBy(items, field) && AllNamed(items, field)
    ensures Detect(items) == Success(None) <==> !KeyedBy(items, "code") && !KeyedBy(items, "id")
    ensures Detect(items).Failure? <==> exists f :: KeyedBy(items, f) && !AllNamed(items, f)
  {
    assert AllHave(items, "code") <==> AllCarry(items, CODE);
    assert AllHave(items, "id") <==> AllCarry(items, ID);
    assert AllNamed(items, "code") <==> Identified(items, CODE);
    assert AllNamed(items, "id") <==> Identified(items, ID);
    assert items != [] && !AllTables(items) ==> !AllCarry(items, CODE) && !AllCarry(items, ID);
    assert KeyedBy(items, "code") && !AllNamed(items, "code") ==> exists f :: KeyedBy(items, f) && !AllNamed(items, f);
    assert KeyedBy(items, "id") && !AllNamed(items, "id") ==> exists f :: KeyedBy(items, f) && !AllNamed(items, f);
    hide AllHave, AllNamed, AllCarry, AllTables, Identified;
  }

  /** The first item without a name under the field that keys the list. */
  ghost predicate FirstUnnamed(items: seq<Value>, field: string, i: int) {
    && KeyedBy(items, field) && 0 <= i < |items| && items[i].Table? && field in items[i].entries
    && (items[i].entries[field].Text? ==> items[i].entries[field].s == "")
    && forall j :: 0 <= j < i && items[j].Table? && field in items[j].entries ==>
        items[j].entries[field].Text? && items[j].entries[field].s != ""
  }

  /** The refusal names the field and says what is wrong with its first bad entry. */
  lemma WhyAListIsRefused(items: seq<Value>, field: string, i: int)
    requires FirstUnnamed(items, field, i)
    ensures Detect(items)
         == Failure(if items[i].entries[field].Text? then IdentifierEmpty(field) else IdentifierNotAString(field))
  {
    assert AllHave(items, "code") <==> AllCarry(items, CODE);
    assert AllHave(items, "id") <==> AllCarry(items, ID);
    TheFirstBadEntry(items, field, i);
  }

  lemma {:induction false} TheFirstBadEntry(items: seq<Value>, field: string, i: int)
    requires AllCarry(items, field) && 0 <= i < |items|
    requires items[i].entries[field].Text? ==> items[i].entries[field].s == ""
    requires forall j :: 0 <= j < i ==> items[j].entries[field].Text? && items[j].entries[field].s != ""
    ensures BadIdentifier(items, field)
         == Some(if items[i].entries[field].Text? then IdentifierEmpty(field) else IdentifierNotAString(field))
  {
    if i > 0 {
      assert forall j :: 0 <= j < |items| - 1 ==> items[1..][j] == items[j + 1];
      TheFirstBadEntry(items[1..], field, i - 1);
    }
  }

  // ---------------------------------------------------------------------------- two tables, by place

  /** The override is a table at some point along the place, and has nothing there: it says nothing about the
    * place, nor about anything above it. */
  ghost predicate Silent(over: Value, place: seq<string>) {
    exists j :: 0 <= j < |place| && LacksAt(over, place, j)
  }

  ghost predicate LacksAt(over: Value, place: seq<string>, j: int)
    requires 0 <= j < |place|
  {
    At(over, place[..j]).Some? && At(over, place[..j]).value.Table? && place[j] !in At(over, place[..j]).value.entries
  }

  lemma SilentStep(over: Value, place: seq<string>)
    requires place != [] && over.Table?
    ensures Silent(over, place)
       <==> (place[0] !in over.entries || Silent(over.entries[place[0]], place[1..]))
  {
    assert place[..0] == [];
    if place[0] !in over.entries {
      assert LacksAt(over, place, 0);
    } else {
      var inner := over.entries[place[0]];
      forall j | 0 <= j < |place| - 1 ensures LacksAt(over, place, j + 1) <==> LacksAt(inner, place[1..], j) {
        assert place[..j + 1][1..] == place[1..][..j];
      }
      if j :| 0 <= j < |place| && LacksAt(over, place, j) {
        assert j > 0 && LacksAt(inner, place[1..], j - 1);
      }
      if j :| 0 <= j < |place| - 1 && LacksAt(inner, place[1..], j) {
        assert LacksAt(over, place, j + 1);
      }
    }
  }

  lemma NothingIsSilentOnALeaf(over: Value, place: seq<string>)
    requires !over.Table? || place == []
    ensures !Silent(over, place)
  {
    forall j | 0 <= j < |place| ensures !LacksAt(over, place, j) {
      if j > 0 {
        assert place[..j] != [];
      }
    }
  }

  /** What the merge of two values holds at a place, by what the two hold there. */
  ghost predicate HoldsAt(base: Value, over: Value, merged: Value, place: seq<string>) {
    var below, above, here := At(base, place), At(over, place), At(merged, place);
    && (Silent(over, place) && below.Some? ==> here == below)
    && (above.Some? && !(below.Some? && SameKind(below.value, above.value)) ==> here == above)
    && (above.Some? && below.Some? && below.value.Table? && above.value.Table? ==> here.Some? && here.value.Table?)
    && (above.Some? && below.Some? && below.value.Arr? && above.value.Arr? ==>
          ListsAreMerged(below.value.items, above.value.items, here))
    && (here.Some? ==> above.Some? || below.Some?)
  }

  /** Only two tables, and two lists, are merged. */
  predicate SameKind(a: Value, b: Value) {
    (a.Table? && b.Table?) || (a.Arr? && b.Arr?)
  }

  /** Unkeyed lists are put one after the other; keyed ones are merged by the text under the field. */
  ghost predicate ListsAreMerged(base: seq<Value>, over: seq<Value>, here: Option<Value>) {
    && here.Some? && here.value.Arr?
    && (!KeyedBy(base + over, "code") && !KeyedBy(base + over, "id") ==> here.value.items == base + over)
    && (forall field :: KeyedBy(base + over, field) ==>
          AllNamed(base + over, field) && here.value.items == MergeKeyed(base, over, field))
  }

  lemma ArraysMergeSo(base: seq<Value>, over: seq<Value>)
    requires MergeArrays(base, over).Success?
    ensures ListsAreMerged(base, over, Some(Arr(MergeArrays(base, over).value)))
  {
    WhichFieldKeys(base + over, "code");
    WhichFieldKeys(base + over, "id");
    hide KeyedBy, AllNamed, Detect, MergeKeyed;
    forall field | KeyedBy(base + over, field)
      ensures AllNamed(base + over, field) && MergeArrays(base, over).value == MergeKeyed(base, over, field)
    {
      KeyedByOneOfTwo(base + over, field);
      WhichFieldKeys(base + over, field);
    }
  }

  lemma KeyedByOneOfTwo(items: seq<Value>, field: string)
    requires KeyedBy(items, field)
    ensures field == "code" || field == "id"
    ensures field == "code" ==> !KeyedBy(items, "id")
    ensures field == "id" ==> !KeyedBy(items, "code")
  {
  }

  /** The merge of two values, at every place: where the override says nothing the base's value stays, down to
    * the last of its entries; where the two are not both tables or both lists the override's value is there,
    * whatever it is; lists are put together or merged by key; and nothing else is anywhere. */
  lemma {:induction false} WhereMergedValuesComeFrom(base: Value, over: Value, place: seq<string>)
    requires StructuralMerge(base, over).Some?
    ensures HoldsAt(base, over, StructuralMerge(base, over).value, place)
    decreases |place|
  {
    var merged := StructuralMerge(base, over).value;
    if place == [] {
      NothingIsSilentOnALeaf(over, place);
      if base.Arr? && over.Arr? {
        ArraysMergeSo(base.items, over.items);
      }
      hide ListsAreMerged;
    } else if base.Table? && over.Table? {
      var name, rest := place[0], place[1..];
      EntriesAreMerged(base, over, name);
      SilentStep(over, place);
      if name in over.entries && name in base.entries {
        WhereMergedValuesComeFrom(base.entries[name], over.entries[name], rest);
      } else if name in over.entries {
        NothingBelowIsElsewhere(over.entries[name], rest);
      }
      hide ListsAreMerged, StructuralMerge, Silent;
    } else {
      NotTablesAtAPlace(base, over, place);
    }
  }

  lemma NothingBelowIsElsewhere(over: Value, place: seq<string>)
    ensures Silent(over, place) ==> At(over, place).None?
  {
    if j :| 0 <= j < |place| && LacksAt(over, place, j) {
      AtStep(over, place, j);
      NothingBeyond(over, place, j + 1);
    }
  }

  lemma EntriesAreMerged(base: Value, over: Value, name: string)
    requires base.Table? && over.Table? && StructuralMerge(base, over).Some?
    ensures var merged := StructuralMerge(base, over).value;
      && merged.Table?
      && (name in merged.entries <==> name in base.entries || name in over.entries)
      && (name in base.entries && name !in over.entries ==> merged.entries[name] == base.entries[name])
      && (name in over.entries && name !in base.entries ==> merged.entries[name] == over.entries[name])
      && (name in over.entries && name in base.entries ==>
            StructuralMerge(base.entries[name], over.entries[name]) == Some(merged.entries[name]))
  {
  }

  lemma NotTablesAtAPlace(base: Value, over: Value, place: seq<string>)
    requires place != [] && !(base.Table? && over.Table?) && StructuralMerge(base, over).Some?
    ensures HoldsAt(base, over, StructuralMerge(base, over).value, place)
  {
    var merged := StructuralMerge(base, over).value;
    if over.Table? {
      assert merged == over && At(base, place).None?;
    } else {
      NothingIsSilentOnALeaf(over, place);
      assert !merged.Table? && At(merged, place).None? && At(over, place).None?;
    }
  }

  /** So a leaf of the override is in the merge, at its place. */
  lemma TheOverridesLeavesWin(base: Value, over: Value, place: seq<string>)
    requires StructuralMerge(base, over).Some?
    requires At(over, place).Some? && IsLeaf(At(over, place).value)
    ensures At(StructuralMerge(base, over).value, place) == At(over, place)
  {
    WhereMergedValuesComeFrom(base, over, place);
    hide StructuralMerge, ListsAreMerged, Silent;
  }

  // --------------------------------------------------------------------------------------- keyed lists

  /** In a keyed merge each position holds the last override item with the identifier of the item there, if
    * there is one, and the base's own item otherwise; new items follow the base's. */
  lemma KeyedItemsComeFromTheLastOverride(base: seq<Value>, over: seq<Value>, field: string, i: nat)
    requires AllNamed(base, field) && AllNamed(over, field) && i < |MergeKeyed(base, over, field)|
    ensures var merged := MergeKeyed(base, over, field);
      && |base| <= |merged|
      && (i < |base| ==> KeyOf(merged[i], field) == base[i].entries[field].s)
      && (merged[i] in over || (i < |base| && merged[i] == base[i]))
      && (i < |base| && (forall j :: 0 <= j < |over| ==> over[j].entries[field].s != base[i].entries[field].s) ==>
            merged[i] == base[i])
      && (forall k :: IsLastOf(over, field, k) && KeyOf(merged[i], field) == over[k].entries[field].s ==>
            if i < |base| && !IsLastOf(base, field, i) then merged[i] == base[i] else merged[i] == over[k])
  {
    AKeyedMergeListsBaseThenNew(base, over, field);
    var merged := MergeKeyed(base, over, field);
    forall j | 0 <= j < |base| ensures KeyOf(base[j], field) == base[j].entries[field].s {
    }
    forall j | 0 <= j < |over| ensures KeyOf(over[j], field) == over[j].entries[field].s {
    }
    assert Leaves(base, over, field, merged, i);
    hide MergeKeyed, AllNamed, NewKeys;
    if i < |base| {
      assert Keys(merged, field)[i] == Keys(base, field)[i];
    }
    forall k | IsLastOf(over, field, k) ensures LastIndex(over, field, over[k].entries[field].s) == k {
      assert KeyOf(over[k], field) == over[k].entries[field].s;
    }
  }

  /** No later item has the identifier of this one. */
  ghost predicate IsLastOf(items: seq<Value>, field: string, k: int) {
    && 0 <= k < |items| && items[k].Table? && field in items[k].entries && items[k].entries[field].Text?
    && forall j :: k < j < |items| ==> KeyOf(items[j], field) != items[k].entries[field].s
  }

  // -------------------------------------------------------------------------------------- over layers

  /** A layer that holds a leaf at a place decides it when every later layer says nothing about the place. */
  lemma {:induction false} TheLastLayerThatSpeaksDecides(layers: seq<map<string, Value>>, i: nat, place: seq<string>)
    requires MergeLayers(layers).Some? && i < |layers|
    requires At(Table(layers[i]), place).Some? && IsLeaf(At(Table(layers[i]), place).value)
    requires forall j :: i < j < |layers| ==> Silent(Table(layers[j]), place)
    ensures At(Table(MergeLayers(layers).value), place) == At(Table(layers[i]), place)
    decreases |layers|
  {
    var n := |layers| - 1;
    LastLayerIsMerged(layers);
    var front, last := Table(MergeLayers(layers[..n]).value), Table(layers[n]);
    if i == n {
      TheOverridesLeavesWin(front, last, place);
    } else {
      TheLastLayerThatSpeaksDecides(layers[..n], i, place);
      WhereMergedValuesComeFrom(front, last, place);
      hide StructuralMerge, ListsAreMerged, MergeLayers;
    }
  }

  lemma LastLayerIsMerged(layers: seq<map<string, Value>>)
    requires layers != [] && MergeLayers(layers).Some?
    ensures var n := |layers| - 1;
      && MergeLayers(layers[..n]).Some?
      && StructuralMerge(Table(MergeLayers(layers[..n]).value), Table(layers[n]))
         == Some(Table(MergeLayers(layers).value))
  {
    EntriesAreMerged(Table(MergeLayers(layers[..|layers| - 1]).value), Table(layers[|layers| - 1]), "");
  }

  /** A leaf no layer holds is nowhere in the merge. */
  lemma {:induction false} EveryLeafIsOfALayer(layers: seq<map<string, Value>>, place: seq<string>)
    returns (i: nat)
    requires MergeLayers(layers).Some? && At(Table(MergeLayers(layers).value), place).Some?
    requires IsLeaf(At(Table(MergeLayers(layers).value), place).value)
    ensures i < |layers| && At(Table(layers[i]), place) == At(Table(MergeLayers(layers).value), place)
    decreases |layers|
  {
    if layers == [] {
      NoLeafInNothing(place);
      assert false;
    } else {
      var n := |layers| - 1;
      LastLayerIsMerged(layers);
      var front, last := Table(MergeLayers(layers[..n]).value), Table(layers[n]);
      WhereMergedValuesComeFrom(front, last, place);
      ALeafIsOfOne(front, last, Table(MergeLayers(layers).value), place);
      if At(last, place) == At(Table(MergeLayers(layers).value), place) {
        i := n;
      } else {
        i := EveryLeafIsOfALayer(layers[..n], place);
      }
    }
  }

  lemma NoLeafInNothing(place: seq<string>)
    ensures At(Table(map[]), place).None? || !IsLeaf(At(Table(map[]), place).value)
  {
  }

  lemma ALeafIsOfOne(base: Value, over: Value, merged: Value, place: seq<string>)
    requires StructuralMerge(base, over) == Some(merged)
    requires At(merged, place).Some? && IsLeaf(At(merged, place).value)
    ensures At(over, place) == At(merged, place) || At(base, place) == At(merged, place)
    decreases |place|
  {
    WhereMergedValuesComeFrom(base, over, place);
    if place != [] && base.Table? && over.Table? {
      var name, rest := place[0], place[1..];
      EntriesAreMerged(base, over, name);
      if name in base.entries && name in over.entries {
        ALeafIsOfOne(base.entries[name], over.entries[name], merged.entries[name], rest);
      }
    }
  }
}
