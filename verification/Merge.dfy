/** Layered configuration merge (`_bmad/scripts/config_utils.py`). */
module Merge {
  import opened Core

  /** A TOML value; `Scalar` stands for every leaf that is not a string. Tables compare as Python
    * dictionaries do, without regard to key order. */
  datatype Value = Text(s: string) | Scalar(id: int) | Arr(items: seq<Value>) | Table(entries: map<string, Value>)

  datatype ConfigError = IdentifierNotAString(field: string) | IdentifierEmpty(field: string)

  const CODE := "code"
  const ID := "id"

  predicate AllTables(items: seq<Value>) {
    forall i :: 0 <= i < |items| ==> items[i].Table?
  }

  predicate AllCarry(items: seq<Value>, field: string) {
    forall i :: 0 <= i < |items| ==> items[i].Table? && field in items[i].entries
  }

  /** Every item is a table identified by a non-empty string under `field`. */
  predicate Identified(items: seq<Value>, field: string) {
    AllCarry(items, field) && forall i :: 0 <= i < |items| ==>
      items[i].entries[field].Text? && items[i].entries[field].s != ""
  }

  /** The first identifier that is not a non-empty string, if any. */
  function BadIdentifier(items: seq<Value>, field: string): (r: Option<ConfigError>)
    requires AllCarry(items, field)
    ensures r.None? <==> Identified(items, field)
  {
    if items == [] then None
    else if !items[0].entries[field].Text? then Some(IdentifierNotAString(field))
    else if items[0].entries[field].s == "" then Some(IdentifierEmpty(field))
    else
      assert forall i :: 0 < i < |items| ==> items[i] == items[1..][i - 1];
      BadIdentifier(items[1..], field)
  }

  function DetectBy(items: seq<Value>, field: string): Result<Option<string>, ConfigError>
    requires AllCarry(items, field)
  {
    var bad := BadIdentifier(items, field);
    if bad.Some? then Failure(bad.value) else Success(Some(field))
  }

  /** `_detect_keyed_merge_field`. */
  function Detect(items: seq<Value>): Result<Option<string>, ConfigError> {
    if items == [] || !AllTables(items) then Success(None)
    else if AllCarry(items, CODE) then DetectBy(items, CODE)
    else if AllCarry(items, ID) then DetectBy(items, ID)
    else Success(None)
  }

  function KeyOf(item: Value, field: string): string {
    if item.Table? && field in item.entries && item.entries[field].Text? then item.entries[field].s else ""
  }

  function Keys(items: seq<Value>, field: string): seq<string> {
    seq(|items|, i requires 0 <= i < |items| => KeyOf(items[i], field))
  }

  /** The last position holding a key, or -1. */
  function LastIndex(items: seq<Value>, field: string, key: string): (k: int)
    ensures -1 <= k < |items|
    ensures k >= 0 ==> KeyOf(items[k], field) == key
    ensures forall i :: k < i < |items| ==> KeyOf(items[i], field) != key
  {
    if items == [] then -1
    else if KeyOf(items[|items| - 1], field) == key then |items| - 1
    else LastIndex(items[..|items| - 1], field, key)
  }

  function Upsert(items: seq<Value>, item: Value, field: string): seq<Value> {
    var k := LastIndex(items, field, KeyOf(item, field));
    if k >= 0 then items[k := item] else items + [item]
  }

  function MergeKeyed(base: seq<Value>, over: seq<Value>, field: string): seq<Value> {
    if over == [] then base
    else Upsert(MergeKeyed(base, over[..|over| - 1], field), over[|over| - 1], field)
  }

  function MergeArrays(base: seq<Value>, over: seq<Value>): Result<seq<Value>, ConfigError> {
    match Detect(base + over)
    case Failure(e) => Failure(e)
    case Success(None) => Success(base + over)
    case Success(Some(field)) => Success(MergeKeyed(base, over, field))
  }

  /** `index_by_key` names, for every key present, its last position. */
  ghost predicate Indexes(index: map<string, nat>, items: seq<Value>, field: string) {
    && (forall k :: k in index ==> index[k] == LastIndex(items, field, k))
    && (forall k :: LastIndex(items, field, k) >= 0 ==> k in index)
  }

  lemma IndexesAppended(index: map<string, nat>, items: seq<Value>, item: Value, field: string)
    requires Indexes(index, items, field)
    ensures KeyOf(item, field) !in index ==> Upsert(items, item, field) == items + [item]
    ensures Indexes(index[KeyOf(item, field) := |items|], items + [item], field)
  {
    assert (items + [item])[..|items|] == items;
  }

  lemma {:induction false} IndexKeptOnReplace(items: seq<Value>, k: nat, item: Value, field: string, key: string)
    requires k < |items| && KeyOf(items[k], field) == KeyOf(item, field)
    ensures LastIndex(items[k := item], field, key) == LastIndex(items, field, key)
  {
    var n := |items| - 1;
    if k < n {
      assert items[k := item][..n] == items[..n][k := item];
      IndexKeptOnReplace(items[..n], k, item, field, key);
    } else {
      assert items[k := item][..n] == items[..n];
    }
  }

  lemma IndexesReplaced(index: map<string, nat>, items: seq<Value>, item: Value, field: string)
    requires Indexes(index, items, field) && KeyOf(item, field) in index
    ensures index[KeyOf(item, field)] < |items|
    ensures Upsert(items, item, field) == items[index[KeyOf(item, field)] := item]
    ensures Indexes(index, Upsert(items, item, field), field)
  {
    var at := index[KeyOf(item, field)];
    forall k ensures LastIndex(items[at := item], field, k) == LastIndex(items, field, k) {
      IndexKeptOnReplace(items, at, item, field, k);
    }
  }

  lemma MergeKeyedNext(base: seq<Value>, over: seq<Value>, i: nat, field: string)
    requires i < |over|
    ensures MergeKeyed(base, over[..i + 1], field) == Upsert(MergeKeyed(base, over[..i], field), over[i], field)
  {
    assert over[..i + 1][..i] == over[..i];
  }

  /** The loop over the base: every item is kept, and indexed under its key. */
  method IndexBase(base: seq<Value>, field: string) returns (result: seq<Value>, index: map<string, nat>)
    ensures result == base && Indexes(index, base, field)
  {
    result, index := [], map[];
    var i := 0;
    while i < |base|
      invariant 0 <= i <= |base|
      invariant result == base[..i]
      invariant Indexes(index, result, field)
    {
      IndexesAppended(index, result, base[i], field);
      index := index[KeyOf(base[i], field) := |result|];
      result := result + [base[i]];
      i := i + 1;
    }
  }

  /** One override item: replaced in place under its key, or appended. */
  method Place(items: seq<Value>, index: map<string, nat>, item: Value, field: string)
    returns (result: seq<Value>, updated: map<string, nat>)
    requires Indexes(index, items, field)
    ensures result == Upsert(items, item, field)
    ensures Indexes(updated, result, field)
  {
    var key := KeyOf(item, field);
    if key in index {
      IndexesReplaced(index, items, item, field);
      result, updated := items[index[key] := item], index;
    } else {
      IndexesAppended(index, items, item, field);
      result, updated := items + [item], index[key := |items|];
    }
  }

  /** The loop over the override. */
  method ApplyOverrides(base: seq<Value>, over: seq<Value>, field: string) returns (result: seq<Value>)
    ensures result == MergeKeyed(base, over, field)
  {
    var index: map<string, nat>;
    result, index := IndexBase(base, field);
    var i := 0;
    while i < |over|
      invariant 0 <= i <= |over|
      invariant result == MergeKeyed(base, over[..i], field)
      invariant Indexes(index, result, field)
    {
      MergeKeyedNext(base, over, i, field);
      result, index := Place(result, index, over[i], field);
      i := i + 1;
    }
    assert over[..|over|] == over;
  }

  /** `_merge_arrays`. */
  method MergeArraysInPlace(base: seq<Value>, over: seq<Value>) returns (r: Result<seq<Value>, ConfigError>)
    ensures r == MergeArrays(base, over)
  {
    var detected := Detect(base + over);
    if detected.Failure? {
      return Failure(detected.error);
    }
    if detected.value == None {
      return Success(base + over);
    }
    var result := ApplyOverrides(base, over, detected.value.value);
    r := Success(result);
  }

  /** `structural_merge`; `None` when some identifier on the way is refused with a `ConfigError`
    * (which one depends on the order of the keys, so only the refusal is kept). */
  function StructuralMerge(base: Value, over: Value): Option<Value>
    decreases over
  {
    if base.Table? && over.Table? then
      if forall k :: k in over.entries && k in base.entries ==> StructuralMerge(base.entries[k], over.entries[k]).Some?
      then Some(Table(map k | k in base.entries.Keys + over.entries.Keys ::
        if k !in over.entries then base.entries[k]
        else if k !in base.entries then over.entries[k]
        else StructuralMerge(base.entries[k], over.entries[k]).value))
      else None
    else if base.Arr? && over.Arr? then
      var merged := MergeArrays(base.items, over.items);
      if merged.Failure? then None else Some(Arr(merged.value))
    else Some(over)
  }

  predicate Mergeable(base: map<string, Value>, over: map<string, Value>) {
    forall k :: k in over && k in base ==> StructuralMerge(base[k], over[k]).Some?
  }

  /** What `structural_merge` leaves under one key of two tables. */
  function Entry(base: map<string, Value>, over: map<string, Value>, k: string): Value
    requires Mergeable(base, over) && (k in base || k in over)
  {
    if k !in over then base[k] else if k !in base then over[k] else StructuralMerge(base[k], over[k]).value
  }

  method MergeStructurally(base: Value, over: Value) returns (merged: Option<Value>)
    ensures merged == StructuralMerge(base, over)
    decreases over
  {
    if base.Table? && over.Table? {
      var result := base.entries;
      var todo := over.entries.Keys;
      while todo != {}
        invariant todo <= over.entries.Keys
        invariant result.Keys == base.entries.Keys + (over.entries.Keys - todo)
        invariant forall k :: k in over.entries && k !in todo && k in base.entries ==>
          StructuralMerge(base.entries[k], over.entries[k]) == Some(result[k])
        invariant forall k :: k in over.entries && k !in todo && k !in base.entries ==> result[k] == over.entries[k]
        invariant forall k :: k in base.entries && (k !in over.entries || k in todo) ==> result[k] == base.entries[k]
      {
        var k :| k in todo;
        if k in result {
          var inner := MergeStructurally(result[k], over.entries[k]);
          if inner == None {
            return None;
          }
          result := result[k := inner.value];
        } else {
          result := result[k := over.entries[k]];
        }
        todo := todo - {k};
      }
      assert Mergeable(base.entries, over.entries);
      assert result == StructuralMerge(base, over).value.entries;
      return Some(Table(result));
    }
    if base.Arr? && over.Arr? {
      var items := MergeArraysInPlace(base.items, over.items);
      return if items.Failure? then None else Some(Arr(items.value));
    }
    merged := Some(over);
  }

  function MergeLayers(layers: seq<map<string, Value>>): Option<map<string, Value>> {
    if layers == [] then Some(map[])
    else
      var before := MergeLayers(layers[..|layers| - 1]);
      if before.None? then None else Layered(before.value, layers[|layers| - 1])
  }

  function Layered(merged: map<string, Value>, layer: map<string, Value>): Option<map<string, Value>> {
    var r := StructuralMerge(Table(merged), Table(layer));
    if r.Some? then Some(r.value.entries) else None
  }

  method MergeAllLayers(layers: seq<map<string, Value>>) returns (r: Option<map<string, Value>>)
    ensures r == MergeLayers(layers)
  {
    var merged := Table(map[]);
    var i := 0;
    while i < |layers|
      invariant 0 <= i <= |layers|
      invariant merged.Table? && MergeLayers(layers[..i]) == Some(merged.entries)
    {
      assert layers[..i + 1][..i] == layers[..i];
      var next := MergeStructurally(merged, Table(layers[i]));
      if next == None {
        NoLayerRecovers(layers, i + 1);
        return None;
      }
      merged := next.value;
      i := i + 1;
    }
    assert layers[..i] == layers;
    r := Some(merged.entries);
  }

  lemma {:induction false} NoLayerRecovers(layers: seq<map<string, Value>>, i: nat)
    requires i <= |layers| && MergeLayers(layers[..i]).None?
    ensures MergeLayers(layers).None?
    decreases |layers| - i
  {
    if i == |layers| {
      assert layers[..i] == layers;
    } else {
      assert layers[..i + 1][..i] == layers[..i];
      NoLayerRecovers(layers, i + 1);
    }
  }

  // ----------------------------------------------------------------- what a keyed merge lists

  /** The keys of the override the base does not hold, in first-occurrence order. */
  function NewKeys(base: seq<Value>, over: seq<Value>, field: string): seq<string> {
    if over == [] then []
    else
      var before, key := NewKeys(base, over[..|over| - 1], field), KeyOf(over[|over| - 1], field);
      if key in Keys(base, field) || key in before then before else before + [key]
  }

  /** The item a keyed merge leaves at one position: the last override item of its key, if there is
    * one and the position is the last of its key. */
  predicate Leaves(base: seq<Value>, over: seq<Value>, field: string, merged: seq<Value>, i: nat)
    requires i < |merged|
  {
    var key := KeyOf(merged[i], field);
    var last := LastIndex(over, field, key);
    if i < |base| && (last < 0 || LastIndex(base, field, key) != i) then merged[i] == base[i]
    else last >= 0 && merged[i] == over[last]
  }

  lemma LastIndexIsMembership(items: seq<Value>, field: string, key: string)
    ensures LastIndex(items, field, key) >= 0 <==> key in Keys(items, field)
  {
    if key in Keys(items, field) {
      var i :| 0 <= i < |items| && Keys(items, field)[i] == key;
    } else {
      assert forall i :: 0 <= i < |items| ==> Keys(items, field)[i] == KeyOf(items[i], field);
    }
  }

  lemma {:induction false} NewKeysAreNew(base: seq<Value>, over: seq<Value>, field: string)
    ensures Distinct(NewKeys(base, over, field))
    ensures forall k :: k in NewKeys(base, over, field) <==> k in Keys(over, field) && k !in Keys(base, field)
  {
    if over != [] {
      var n := |over| - 1;
      NewKeysAreNew(base, over[..n], field);
      assert Keys(over, field) == Keys(over[..n], field) + [KeyOf(over[n], field)];
    }
  }

  /** `merged` lists the base's keys in order, then the override's new keys in first-occurrence
    * order; each entry is the last override item of its key where there is one. */
  ghost predicate Lists(base: seq<Value>, over: seq<Value>, field: string, merged: seq<Value>) {
    && Keys(merged, field) == Keys(base, field) + NewKeys(base, over, field)
    && forall i :: 0 <= i < |merged| ==> Leaves(base, over, field, merged, i)
  }

  lemma {:induction false} AKeyedMergeListsBaseThenNew(base: seq<Value>, over: seq<Value>, field: string)
    ensures Lists(base, over, field, MergeKeyed(base, over, field))
  {
    hide Lists, Upsert, KeyOf;
    if over == [] {
      TheBaseListsItself(base, field);
    } else {
      var n := |over| - 1;
      AKeyedMergeListsBaseThenNew(base, over[..n], field);
      UpsertLists(base, over[..n], over[n], field, MergeKeyed(base, over[..n], field));
      assert over[..n] + [over[n]] == over;
    }
  }

  lemma TheBaseListsItself(base: seq<Value>, field: string)
    ensures Lists(base, [], field, base)
  {
    assert Keys(base, field) + [] == Keys(base, field);
  }

  /** The keys of `m` are the base's and then `added`, which are distinct and not the base's. */
  ghost predicate Laid(base: seq<Value>, m: seq<Value>, added: seq<string>, field: string) {
    && |m| == |base| + |added|
    && (forall j :: 0 <= j < |base| ==> KeyOf(m[j], field) == KeyOf(base[j], field))
    && (forall j :: |base| <= j < |m| ==> KeyOf(m[j], field) == added[j - |base|])
    && (forall j, l :: 0 <= j < l < |m| && |base| <= l ==> KeyOf(m[j], field) != KeyOf(m[l], field))
  }

  lemma ListedIsLaid(base: seq<Value>, over: seq<Value>, field: string, m: seq<Value>)
    requires Keys(m, field) == Keys(base, field) + NewKeys(base, over, field)
    ensures Laid(base, m, NewKeys(base, over, field), field)
  {
    NewKeysAreNew(base, over, field);
    hide NewKeys, KeyOf;
    var own, added := Keys(base, field), NewKeys(base, over, field);
    forall j | 0 <= j < |base| ensures KeyOf(m[j], field) == own[j] == KeyOf(base[j], field) {
      assert Keys(m, field)[j] == own[j];
    }
    forall j | |base| <= j < |m| ensures KeyOf(m[j], field) == added[j - |base|] {
      assert Keys(m, field)[j] == added[j - |base|];
    }
    forall j, l | 0 <= j < l < |m| && |base| <= l ensures KeyOf(m[j], field) != KeyOf(m[l], field) {
      assert added[l - |base|] in added;
      assert j < |base| ==> own[j] in own;
    }
  }

  lemma UpsertLists(base: seq<Value>, before: seq<Value>, item: Value, field: string, m: seq<Value>)
    requires Lists(base, before, field, m)
    ensures Lists(base, before + [item], field, Upsert(m, item, field))
  {
    var over, merged := before + [item], Upsert(m, item, field);
    UpsertKeys(base, before, item, field, m);
    ListedIsLaid(base, before, field, m);
    assert over[..|before|] == before;
    forall i | 0 <= i < |merged| ensures Leaves(base, over, field, merged, i) {
      UpsertLeaves(base, before, item, field, m, i);
    }
  }

  lemma UpsertKeys(base: seq<Value>, before: seq<Value>, item: Value, field: string, m: seq<Value>)
    requires Keys(m, field) == Keys(base, field) + NewKeys(base, before, field)
    ensures Keys(Upsert(m, item, field), field) == Keys(base, field) + NewKeys(base, before + [item], field)
  {
    var key := KeyOf(item, field);
    assert (before + [item])[..|before|] == before;
    LastIndexIsMembership(m, field, key);
    var at := LastIndex(m, field, key);
    assert Keys(Upsert(m, item, field), field) == if at >= 0 then Keys(m, field) else Keys(m, field) + [key];
  }

  lemma UpsertLeaves(base: seq<Value>, before: seq<Value>, item: Value, field: string, m: seq<Value>, i: nat)
    requires Laid(base, m, NewKeys(base, before, field), field)
    requires i < |Upsert(m, item, field)| && (i < |m| ==> Leaves(base, before, field, m, i))
    ensures Leaves(base, before + [item], field, Upsert(m, item, field), i)
  {
    var over, key, merged := before + [item], KeyOf(item, field), Upsert(m, item, field);
    assert over[..|before|] == before;
    assert LastIndex(over, field, key) == |before|;
    assert forall k :: k != key ==> LastIndex(over, field, k) == LastIndex(before, field, k);
    var at := LastIndex(m, field, key);
    if i < |m| && at >= 0 {
      SameKeySamePlace(base, m, NewKeys(base, before, field), field, i, at);
    }
  }

  /** In a list laid out so, the last holder of a key is the base's own last holder, or the one new item. */
  lemma SameKeySamePlace(base: seq<Value>, m: seq<Value>, added: seq<string>, field: string, i: nat, at: nat)
    requires Laid(base, m, added, field)
    requires i < |m| && at < |m| && at == LastIndex(m, field, KeyOf(m[at], field))
    ensures i == at && i < |base| ==> LastIndex(base, field, KeyOf(m[at], field)) == i
    ensures i != at && KeyOf(m[i], field) == KeyOf(m[at], field) ==>
      i < |base| && LastIndex(base, field, KeyOf(m[at], field)) != i
  {
    if i != at && KeyOf(m[i], field) == KeyOf(m[at], field) {
      assert i < at;
    }
  }

  /** The merged list has no duplicate key exactly when the base has none: duplicates already in the
    * base are kept. */
  lemma DuplicatesComeFromTheBase(base: seq<Value>, over: seq<Value>, field: string)
    ensures Distinct(Keys(MergeKeyed(base, over, field), field)) <==> Distinct(Keys(base, field))
  {
    AKeyedMergeListsBaseThenNew(base, over, field);
    NewKeysAreNew(base, over, field);
    var merged := Keys(MergeKeyed(base, over, field), field);
    var own, added := Keys(base, field), NewKeys(base, over, field);
    if Distinct(own) {
      assert forall i, j :: 0 <= i < |own| && 0 <= j < |added| ==> own[i] != added[j] by {
        forall i, j | 0 <= i < |own| && 0 <= j < |added| ensures own[i] != added[j] {
          assert own[i] in own && added[j] in added;
        }
      }
      DistinctAppend(own, added);
    }
    if Distinct(merged) {
      assert forall i :: 0 <= i < |own| ==> own[i] == merged[i];
    }
  }
}
