/** The algebra of the layered merge: identity, and associativity on layers whose shapes agree. */
module MergeLaws {
  import opened Core
  import opened Merge

  // ---------------------------------------------------------- keyed lists, with any keys at all

  lemma {:induction false} LastIndexAppend(items: seq<Value>, item: Value, field: string, key: string)
    ensures LastIndex(items + [item], field, key)
         == if KeyOf(item, field) == key then |items| else LastIndex(items, field, key)
  {
    assert (items + [item])[..|items|] == items;
  }

  lemma MergeKeyedAppend(base: seq<Value>, over: seq<Value>, item: Value, field: string)
    ensures MergeKeyed(base, over + [item], field) == Upsert(MergeKeyed(base, over, field), item, field)
  {
    assert (over + [item])[..|over|] == over;
  }

  lemma UpsertKeepsIndexes(items: seq<Value>, item: Value, field: string, key: string)
    requires KeyOf(item, field) != key
    ensures LastIndex(Upsert(items, item, field), field, key) == LastIndex(items, field, key)
  {
    var k := LastIndex(items, field, KeyOf(item, field));
    if k >= 0 {
      IndexKeptOnReplace(items, k, item, field, key);
    } else {
      LastIndexAppend(items, item, field, key);
    }
  }

  lemma UpsertSets(items: seq<Value>, item: Value, field: string)
    ensures var k, after := LastIndex(items, field, KeyOf(item, field)),
      LastIndex(Upsert(items, item, field), field, KeyOf(item, field));
      after == if k >= 0 then k else |items|
  {
    var k := LastIndex(items, field, KeyOf(item, field));
    if k >= 0 {
      IndexKeptOnReplace(items, k, item, field, KeyOf(item, field));
    } else {
      LastIndexAppend(items, item, field, KeyOf(item, field));
    }
  }

  /** Of two updates of one key only the later counts. */
  lemma UpsertTwice(items: seq<Value>, x: Value, y: Value, field: string)
    requires KeyOf(x, field) == KeyOf(y, field)
    ensures Upsert(Upsert(items, x, field), y, field) == Upsert(items, y, field)
  {
    UpsertSets(items, x, field);
  }

  lemma UpdatesCommute(items: seq<Value>, j: int, x: Value, k: nat, y: Value)
    requires j < |items| && k < |items| && j != k
    ensures if j < 0 then (items + [x])[k := y] == items[k := y] + [x]
            else items[j := x][k := y] == items[k := y][j := x]
  {
  }

  /** Updates of two keys commute when one of them only replaces. */
  lemma UpsertsCommute(items: seq<Value>, x: Value, y: Value, field: string)
    requires KeyOf(x, field) != KeyOf(y, field) && LastIndex(items, field, KeyOf(y, field)) >= 0
    ensures Upsert(Upsert(items, x, field), y, field) == Upsert(Upsert(items, y, field), x, field)
  {
    var j, k := LastIndex(items, field, KeyOf(x, field)), LastIndex(items, field, KeyOf(y, field));
    UpsertKeepsIndexes(items, x, field, KeyOf(y, field));
    UpsertKeepsIndexes(items, y, field, KeyOf(x, field));
    UpdatesCommute(items, j, x, k, y);
  }

  lemma {:induction false} MergedKeysAreThere(base: seq<Value>, over: seq<Value>, field: string, key: string)
    requires LastIndex(over, field, key) >= 0
    ensures LastIndex(MergeKeyed(base, over, field), field, key) >= 0
  {
    hide KeyOf, Upsert, MergeKeyed, LastIndex;
    var front, item := over[..|over| - 1], over[|over| - 1];
    var m := MergeKeyed(base, front, field);
    assert over == front + [item];
    MergeKeyedAppend(base, front, item, field);
    if KeyOf(item, field) == key {
      UpsertSets(m, item, field);
    } else {
      LastIndexAppend(front, item, field, key);
      MergedKeysAreThere(base, front, field, key);
      UpsertKeepsIndexes(m, item, field, key);
    }
  }

  /** Updating the override and then merging is merging and then updating. */
  lemma {:induction false} UpsertAfterMerge(a: seq<Value>, d: seq<Value>, z: Value, field: string)
    ensures MergeKeyed(a, Upsert(d, z, field), field) == Upsert(MergeKeyed(a, d, field), z, field)
  {
    var k := LastIndex(d, field, KeyOf(z, field));
    if k < 0 {
      MergeKeyedAppend(a, d, z, field);
    } else {
      var n := |d| - 1;
      var front, y := d[..n], d[n];
      var m := MergeKeyed(a, front, field);
      assert d == front + [y];
      if k == n {
        assert d[k := z] == front + [z];
        MergeKeyedAppend(a, front, z, field);
        UpsertTwice(m, y, z, field);
      } else {
        LastIndexAppend(front, y, field, KeyOf(z, field));
        assert d[k := z] == front[k := z] + [y];
        MergeKeyedAppend(a, front[k := z], y, field);
        UpsertAfterMerge(a, front, z, field);
        MergedKeysAreThere(a, front, field, KeyOf(z, field));
        UpsertsCommute(m, y, z, field);
      }
    }
  }

  /** Merging keyed lists is associative, duplicates and all. */
  lemma {:induction false} MergeKeyedIsAssociative(a: seq<Value>, b: seq<Value>, c: seq<Value>, field: string)
    ensures MergeKeyed(MergeKeyed(a, b, field), c, field) == MergeKeyed(a, MergeKeyed(b, c, field), field)
  {
    if c != [] {
      var n := |c| - 1;
      MergeKeyedIsAssociative(a, b, c[..n], field);
      UpsertAfterMerge(a, MergeKeyed(b, c[..n], field), c[n], field);
    }
  }

  // --------------------------------------------------------------------------------- shapes

  /** What a path always is: a leaf, a table, a list keyed by one field, or an unkeyed list. */
  datatype Shape = LeafAt | TableAt(fields: map<string, Shape>) | KeyedAt(field: string) | UnkeyedAt

  /** A list keyed by `field`, with unique keys. */
  ghost predicate KeyedList(items: seq<Value>, field: string) {
    (items == [] || Detect(items) == Success(Some(field))) && Distinct(Keys(items, field))
  }

  predicate UnkeyedList(items: seq<Value>) {
    Detect(items) == Success(None)
  }

  ghost predicate Fits(v: Value, shape: Shape)
    decreases shape
  {
    match shape
    case LeafAt => v.Text? || v.Scalar?
    case TableAt(fields) => v.Table? && forall k :: k in v.entries ==> k in fields && Fits(v.entries[k], fields[k])
    case KeyedAt(field) => v.Arr? && KeyedList(v.items, field)
    case UnkeyedAt => v.Arr? && UnkeyedList(v.items)
  }

  /** An item that keeps a list from being keyed by `code`. */
  predicate Codeless(item: Value) {
    item.Table? && CODE !in item.entries
  }

  lemma KeyedListsMean(items: seq<Value>, field: string)
    requires items != [] && Detect(items) == Success(Some(field))
    ensures field == CODE || field == ID
    ensures Identified(items, field)
    ensures field == ID ==> exists i :: 0 <= i < |items| && Codeless(items[i])
  {
    if field == ID {
      var i :| 0 <= i < |items| && !(items[i].Table? && CODE in items[i].entries);
      assert Codeless(items[i]);
    }
  }

  lemma KeyedListsAre(items: seq<Value>, field: string)
    requires items != [] && Identified(items, field)
    requires field == CODE || (field == ID && exists i :: 0 <= i < |items| && Codeless(items[i]))
    ensures Detect(items) == Success(Some(field))
  {
  }

  lemma IdentifiedConcat(x: seq<Value>, y: seq<Value>, field: string)
    requires Identified(x, field) && Identified(y, field)
    ensures Identified(x + y, field)
  {
  }

  /** Two lists keyed by one field are keyed by it together. */
  lemma DetectTogether(x: seq<Value>, y: seq<Value>, field: string)
    requires x == [] || Detect(x) == Success(Some(field))
    requires y == [] || Detect(y) == Success(Some(field))
    ensures x + y == [] || Detect(x + y) == Success(Some(field))
  {
    if x == [] {
      assert x + y == y;
    } else if y == [] {
      assert x + y == x;
    } else {
      KeyedListsMean(x, field);
      KeyedListsMean(y, field);
      IdentifiedConcat(x, y, field);
      if field == ID {
        var i :| 0 <= i < |x| && Codeless(x[i]);
        assert Codeless((x + y)[i]);
      }
      KeyedListsAre(x + y, field);
    }
  }

  lemma DetectTogetherUnkeyed(x: seq<Value>, y: seq<Value>)
    requires UnkeyedList(x) && UnkeyedList(y)
    ensures UnkeyedList(x + y)
  {
    assert forall i :: 0 <= i < |x| ==> (x + y)[i] == x[i];
    assert forall i :: 0 <= i < |y| ==> (x + y)[|x| + i] == y[i];
    if x + y != [] && AllTables(x + y) {
      if x != [] {
        assert AllTables(x);
        assert AllCarry(x + y, CODE) ==> AllCarry(x, CODE);
        assert AllCarry(x + y, ID) ==> AllCarry(x, ID);
        assert !AllCarry(x, CODE) && !AllCarry(x, ID);
      } else {
        assert x + y == y;
      }
    }
  }

  lemma {:induction false} MergedItems(base: seq<Value>, over: seq<Value>, field: string)
    ensures forall v :: v in MergeKeyed(base, over, field) ==> v in base || v in over
  {
    if over != [] {
      var n := |over| - 1;
      MergedItems(base, over[..n], field);
      assert over == over[..n] + [over[n]];
    }
  }

  /** With unique keys, every item of the override survives the merge. */
  lemma TheOverrideSurvives(base: seq<Value>, over: seq<Value>, field: string, v: Value)
    requires v in over && Distinct(Keys(over, field))
    ensures v in MergeKeyed(base, over, field)
  {
    var j :| 0 <= j < |over| && over[j] == v;
    var key, merged := KeyOf(v, field), MergeKeyed(base, over, field);
    assert LastIndex(over, field, key) == j by {
      var last := LastIndex(over, field, key);
      assert Keys(over, field)[last] == key == Keys(over, field)[j];
    }
    AKeyedMergeListsBaseThenNew(base, over, field);
    MergedKeysAreThere(base, over, field, key);
    var at := LastIndex(merged, field, key);
    assert Leaves(base, over, field, merged, at);
    if at < |base| {
      ListedIsLaid(base, over, field, merged);
      SameKeySamePlace(base, merged, NewKeys(base, over, field), field, at, at);
    }
  }

  lemma KeyedMergeIsKeyed(base: seq<Value>, over: seq<Value>, field: string)
    requires KeyedList(base, field) && KeyedList(over, field)
    ensures MergeArrays(base, over).Success?
    ensures MergeArrays(base, over).value == MergeKeyed(base, over, field)
    ensures KeyedList(MergeKeyed(base, over, field), field)
  {
    DetectTogether(base, over, field);
    DuplicatesComeFromTheBase(base, over, field);
    var merged := MergeKeyed(base, over, field);
    if base + over == [] {
      assert base == [] && over == [];
    } else if over != [] {
      KeyedListsMean(over, field);
      MergedItems(base, over, field);
      IdentifiedMerge(base, over, field);
      if field == ID {
        var i :| 0 <= i < |over| && Codeless(over[i]);
        TheOverrideSurvives(base, over, field, over[i]);
        var j :| 0 <= j < |merged| && merged[j] == over[i];
        assert Codeless(merged[j]);
      } else {
        TheOverrideSurvives(base, over, field, over[0]);
      }
      KeyedListsAre(merged, field);
    }
  }

  lemma IdentifiedMerge(base: seq<Value>, over: seq<Value>, field: string)
    requires base == [] || Detect(base) == Success(Some(field))
    requires Identified(over, field)
    ensures Identified(MergeKeyed(base, over, field), field)
  {
    MergedItems(base, over, field);
    if base != [] {
      KeyedListsMean(base, field);
    }
    var merged := MergeKeyed(base, over, field);
    forall i | 0 <= i < |merged| ensures merged[i].Table? && field in merged[i].entries
      && merged[i].entries[field].Text? && merged[i].entries[field].s != ""
    {
      assert merged[i] in merged;
      if merged[i] in base {
        var j :| 0 <= j < |base| && base[j] == merged[i];
      } else {
        var j :| 0 <= j < |over| && over[j] == merged[i];
      }
    }
  }

  /** Layers of one shape merge without a refusal, to a value of that shape. */
  lemma {:induction false} MergingKeepsTheShape(a: Value, b: Value, shape: Shape)
    requires Fits(a, shape) && Fits(b, shape)
    ensures StructuralMerge(a, b).Some? && Fits(StructuralMerge(a, b).value, shape)
    decreases shape
  {
    match shape {
      case LeafAt =>
      case TableAt(fields) =>
        forall k | k in b.entries && k in a.entries
          ensures StructuralMerge(a.entries[k], b.entries[k]).Some?
          ensures Fits(StructuralMerge(a.entries[k], b.entries[k]).value, fields[k])
        {
          MergingKeepsTheShape(a.entries[k], b.entries[k], fields[k]);
        }
      case KeyedAt(field) =>
        KeyedMergeIsKeyed(a.items, b.items, field);
      case UnkeyedAt =>
        DetectTogetherUnkeyed(a.items, b.items);
    }
  }

  function Merged(a: Value, b: Value): Value {
    var r := StructuralMerge(a, b);
    if r.Some? then r.value else a
  }

  /** On layers whose shapes agree the merge is associative. */
  lemma {:induction false} MergeIsAssociative(a: Value, b: Value, c: Value, shape: Shape)
    requires Fits(a, shape) && Fits(b, shape) && Fits(c, shape)
    ensures StructuralMerge(a, b).Some? && StructuralMerge(b, c).Some?
    ensures StructuralMerge(Merged(a, b), c).Some?
    ensures StructuralMerge(Merged(a, b), c) == StructuralMerge(a, Merged(b, c))
    decreases shape, 1
  {
    MergingKeepsTheShape(a, b, shape);
    MergingKeepsTheShape(b, c, shape);
    MergingKeepsTheShape(Merged(a, b), c, shape);
    MergingKeepsTheShape(a, Merged(b, c), shape);
    match shape {
      case LeafAt =>
      case TableAt(fields) =>
        hide StructuralMerge, Fits, Merged;
        TablesAssociate(a, b, c, shape);
      case KeyedAt(field) =>
        KeyedListsAssociate(a.items, b.items, c.items, field);
      case UnkeyedAt =>
        UnkeyedListsAssociate(a.items, b.items, c.items);
    }
  }

  lemma KeyedListsAssociate(a: seq<Value>, b: seq<Value>, c: seq<Value>, field: string)
    requires KeyedList(a, field) && KeyedList(b, field) && KeyedList(c, field)
    ensures MergeArrays(a, b).Success? && MergeArrays(b, c).Success?
    ensures MergeArrays(MergeArrays(a, b).value, c) == MergeArrays(a, MergeArrays(b, c).value)
  {
    hide KeyedList, MergeArrays, MergeKeyed;
    KeyedMergeIsKeyed(a, b, field);
    KeyedMergeIsKeyed(b, c, field);
    KeyedMergeIsKeyed(MergeKeyed(a, b, field), c, field);
    KeyedMergeIsKeyed(a, MergeKeyed(b, c, field), field);
    MergeKeyedIsAssociative(a, b, c, field);
  }

  lemma UnkeyedListsAssociate(a: seq<Value>, b: seq<Value>, c: seq<Value>)
    requires UnkeyedList(a) && UnkeyedList(b) && UnkeyedList(c)
    ensures MergeArrays(a, b).Success? && MergeArrays(b, c).Success?
    ensures MergeArrays(MergeArrays(a, b).value, c) == MergeArrays(a, MergeArrays(b, c).value)
  {
    hide Detect;
    DetectTogetherUnkeyed(a, b);
    DetectTogetherUnkeyed(b, c);
    DetectTogetherUnkeyed(a + b, c);
    DetectTogetherUnkeyed(a, b + c);
    assert a + b + c == a + (b + c);
  }

  lemma TableMergeByKeys(a: Value, b: Value)
    requires a.Table? && b.Table? && StructuralMerge(a, b).Some?
    ensures Mergeable(a.entries, b.entries)
    ensures Merged(a, b).Table? && Merged(a, b).entries.Keys == a.entries.Keys + b.entries.Keys
    ensures forall k :: k in a.entries || k in b.entries ==> Merged(a, b).entries[k] == Entry(a.entries, b.entries, k)
  {
  }

  lemma TablesAssociate(a: Value, b: Value, c: Value, shape: Shape)
    requires shape.TableAt? && Fits(a, shape) && Fits(b, shape) && Fits(c, shape)
    requires StructuralMerge(a, b).Some? && StructuralMerge(b, c).Some?
    requires StructuralMerge(Merged(a, b), c).Some? && StructuralMerge(a, Merged(b, c)).Some?
    ensures StructuralMerge(Merged(a, b), c) == StructuralMerge(a, Merged(b, c))
    decreases shape, 0
  {
    TableMergeByKeys(a, b);
    TableMergeByKeys(b, c);
    TableMergeByKeys(Merged(a, b), c);
    TableMergeByKeys(a, Merged(b, c));
    hide StructuralMerge;
    var left, right := Merged(Merged(a, b), c), Merged(a, Merged(b, c));
    assert left.entries.Keys == right.entries.Keys;
    forall k | k in left.entries ensures left.entries[k] == right.entries[k] {
      if k in a.entries && k in b.entries && k in c.entries {
        MergeIsAssociative(a.entries[k], b.entries[k], c.entries[k], shape.fields[k]);
      }
    }
    assert left.entries == right.entries;
  }

  /** The empty table is the identity on either side, whatever the other table holds. */
  lemma TheEmptyTableIsTheIdentity(t: map<string, Value>)
    ensures StructuralMerge(Table(map[]), Table(t)) == Some(Table(t))
    ensures StructuralMerge(Table(t), Table(map[])) == Some(Table(t))
  {
    assert StructuralMerge(Table(map[]), Table(t)).value.entries == t;
    assert StructuralMerge(Table(t), Table(map[])).value.entries == t;
  }

  ghost predicate AllFit(layers: seq<map<string, Value>>, fields: map<string, Shape>) {
    forall l :: l in layers ==> Fits(Table(l), TableAt(fields))
  }

  lemma {:induction false} LayersOfOneShapeMerge(xs: seq<map<string, Value>>, fields: map<string, Shape>)
    requires AllFit(xs, fields)
    ensures MergeLayers(xs).Some? && Fits(Table(MergeLayers(xs).value), TableAt(fields))
  {
    if xs != [] {
      var n := |xs| - 1;
      LayersOfOneShapeMerge(xs[..n], fields);
      MergingKeepsTheShape(Table(MergeLayers(xs[..n]).value), Table(xs[n]), TableAt(fields));
    }
  }

  lemma TheLastLayerMergesLast(layers: seq<map<string, Value>>)
    requires layers != [] && MergeLayers(layers).Some?
    ensures var front := MergeLayers(layers[..|layers| - 1]);
      && front.Some?
      && StructuralMerge(Table(front.value), Table(layers[|layers| - 1])) == Some(Table(MergeLayers(layers).value))
  {
    var front, last := Table(MergeLayers(layers[..|layers| - 1]).value), Table(layers[|layers| - 1]);
    TableMergeByKeys(front, last);
  }

  lemma Regrouped(x: Value, y: Value, z: Value, xy: Value, yz: Value, fields: map<string, Shape>)
    requires Fits(x, TableAt(fields)) && Fits(y, TableAt(fields)) && Fits(z, TableAt(fields))
    requires StructuralMerge(x, y) == Some(xy) && StructuralMerge(y, z) == Some(yz)
    ensures StructuralMerge(x, yz) == StructuralMerge(xy, z)
  {
    MergeIsAssociative(x, y, z, TableAt(fields));
  }

  /** The layers merged, as one table; `MergeLayers` refuses nothing on layers of one shape. */
  function Stacked(layers: seq<map<string, Value>>): Value {
    var r := MergeLayers(layers);
    Table(if r.Some? then r.value else map[])
  }

  lemma AllFitTogether(xs: seq<map<string, Value>>, ys: seq<map<string, Value>>, fields: map<string, Shape>)
    requires AllFit(xs, fields) && AllFit(ys, fields)
    ensures AllFit(xs + ys, fields)
  {
  }

  lemma StackedFits(layers: seq<map<string, Value>>, fields: map<string, Shape>)
    requires AllFit(layers, fields)
    ensures MergeLayers(layers).Some? && Fits(Stacked(layers), TableAt(fields))
  {
    LayersOfOneShapeMerge(layers, fields);
  }

  lemma StackedStep(layers: seq<map<string, Value>>, last: map<string, Value>, fields: map<string, Shape>)
    requires AllFit(layers, fields) && AllFit([last], fields)
    ensures StructuralMerge(Stacked(layers), Table(last)) == Some(Stacked(layers + [last]))
    ensures Fits(Table(last), TableAt(fields))
  {
    AllFitTogether(layers, [last], fields);
    LayersOfOneShapeMerge(layers + [last], fields);
    TheLastLayerMergesLast(layers + [last]);
    assert (layers + [last])[..|layers|] == layers;
    assert last in [last];
  }

  /** Layers of one shape may be merged in any grouping. */
  lemma {:induction false} LayersGroupFreely(xs: seq<map<string, Value>>, ys: seq<map<string, Value>>,
                                             fields: map<string, Shape>)
    requires AllFit(xs, fields) && AllFit(ys, fields)
    ensures MergeLayers(xs + ys).Some?
    ensures StructuralMerge(Stacked(xs), Stacked(ys)) == Some(Stacked(xs + ys))
  {
    AllFitTogether(xs, ys, fields);
    StackedFits(xs + ys, fields);
    if ys == [] {
      assert xs + ys == xs;
      TheEmptyTableIsTheIdentity(Stacked(xs).entries);
    } else {
      var n := |ys| - 1;
      var front, last := ys[..n], ys[n];
      assert last in ys && AllFit([last], fields);
      LayersGroupFreely(xs, front, fields);
      AllFitTogether(xs, front, fields);
      StackedFits(xs, fields);
      StackedFits(front, fields);
      StackedStep(front, last, fields);
      StackedStep(xs + front, last, fields);
      assert front + [last] == ys && xs + front + [last] == xs + ys;
      Regrouped(Stacked(xs), Stacked(front), Table(last), Stacked(xs + front), Stacked(ys), fields);
    }
  }

  // ------------------------------------------------------------------- the hypotheses are needed

  /** Where a path is a table in one layer and a leaf in another, the grouping matters. */
  lemma AgreementOnTablesIsNeeded()
    ensures var a, b := Table(map["k" := Table(map["x" := Scalar(1)])]), Table(map["k" := Scalar(2)]);
      var c := Table(map["k" := Table(map["y" := Scalar(3)])]);
      StructuralMerge(Merged(a, b), c) != StructuralMerge(a, Merged(b, c))
  {
    hide StructuralMerge;
    var one, other := Table(map["x" := Scalar(1)]), Table(map["y" := Scalar(3)]);
    var both := Table(map["x" := Scalar(1), "y" := Scalar(3)]);
    assert StructuralMerge(one, Scalar(2)) == Some(Scalar(2)) && StructuralMerge(Scalar(2), other) == Some(other)
        && StructuralMerge(one, other) == Some(both) by { ALeafReplaces(one, other, both); }
    OneKeyMerges("k", one, Scalar(2), Scalar(2));
    OneKeyMerges("k", Scalar(2), other, other);
    OneKeyMerges("k", one, other, both);
    assert "x" in both.entries && "x" !in other.entries;
    assert map["k" := both]["k"] != map["k" := other]["k"];
  }

  lemma ALeafReplaces(one: Value, other: Value, both: Value)
    requires one.Table? && other.Table? && both.Table? && one.entries.Keys !! other.entries.Keys
    requires both.entries == one.entries + other.entries
    ensures StructuralMerge(one, Scalar(2)) == Some(Scalar(2)) && StructuralMerge(Scalar(2), other) == Some(other)
    ensures StructuralMerge(one, other) == Some(both)
  {
    TableMergeByKeys(one, other);
    assert StructuralMerge(one, other).value.entries == both.entries;
  }

  lemma OneKeyMerges(k: string, v: Value, w: Value, merged: Value)
    requires StructuralMerge(v, w) == Some(merged)
    ensures StructuralMerge(Table(map[k := v]), Table(map[k := w])) == Some(Table(map[k := merged]))
  {
    hide StructuralMerge;
    var a, b := map[k := v], map[k := w];
    MergeableTablesMerge(a, b);
    TableMergeByKeys(Table(a), Table(b));
    assert Entry(a, b, k) == merged;
    assert Merged(Table(a), Table(b)).entries == map[k := merged];
  }

  lemma MergeableTablesMerge(a: map<string, Value>, b: map<string, Value>)
    requires Mergeable(a, b)
    ensures StructuralMerge(Table(a), Table(b)).Some?
  {
  }

  const PLAIN := Table(map[ID := Text("i")])
  const CODED := Table(map[ID := Text("i"), CODE := Scalar(7)])

  lemma KeyedBy(base: seq<Value>, over: seq<Value>, all: seq<Value>, field: string)
    requires base + over == all && all != [] && Identified(all, field)
    requires field == CODE || (field == ID && Codeless(all[0]))
    ensures MergeArrays(base, over) == Success(MergeKeyed(base, over, field))
  {
    KeyedListsAre(all, field);
  }

  lemma One(base: seq<Value>, x: Value, field: string)
    ensures MergeKeyed(base, [x], field) == Upsert(base, x, field)
  {
    MergeKeyedAppend(base, [], x, field);
    assert [] + [x] == [x];
  }

  lemma Two(base: seq<Value>, x: Value, y: Value, field: string)
    ensures MergeKeyed(base, [x, y], field) == Upsert(Upsert(base, x, field), y, field)
  {
    hide MergeKeyed, Upsert;
    One(base, x, field);
    MergeKeyedAppend(base, [x], y, field);
    assert [x] + [y] == [x, y];
  }

  lemma UpsertOne(x: Value, y: Value, field: string)
    ensures Upsert([x], y, field) == if KeyOf(x, field) == KeyOf(y, field) then [y] else [x, y]
  {
    hide KeyOf;
    LastIndexAppend([], x, field, KeyOf(y, field));
    assert [] + [x] == [x];
  }

  /** For any item without a code, and one of the same id whose code is not a string. */
  lemma GroupingsDiffer(plain: Value, coded: Value)
    requires Codeless(plain) && Identified([plain, coded], ID) && KeyOf(plain, ID) == KeyOf(coded, ID)
    requires coded.Table? && CODE in coded.entries && !coded.entries[CODE].Text?
    ensures MergeArrays([plain], [plain, coded]) == Success([coded])
    ensures MergeArrays([plain, coded], []) == Success([plain, coded])
    ensures MergeArrays([coded], []).Failure?
  {
    var two := [plain, coded];
    assert two[0] == plain && two[1] == coded;
    ARefusedCode(coded);
    hide MergeArrays, MergeKeyed, Upsert, KeyOf;
    KeyedBy([plain], two, [plain, plain, coded], ID);
    Two([plain], plain, coded, ID);
    UpsertOne(plain, plain, ID);
    UpsertOne(plain, coded, ID);
    KeyedBy(two, [], two, ID);
    NothingMerged(two, ID);
  }

  lemma ARefusedCode(coded: Value)
    requires coded.Table? && CODE in coded.entries && !coded.entries[CODE].Text?
    ensures MergeArrays([coded], []).Failure?
  {
    assert [coded] + [] == [coded] && [coded][0] == coded;
    assert AllCarry([coded], CODE) && !Identified([coded], CODE);
  }

  lemma NothingMerged(base: seq<Value>, field: string)
    ensures MergeKeyed(base, [], field) == base
  {
  }

  /** Two lists keyed by one field and a third that is empty: a repeated key in one of them alone is
    * enough for one grouping to be refused and the other not. */
  lemma UniqueKeysAreNeeded()
    ensures Detect([PLAIN]) == Success(Some(ID)) == Detect([PLAIN, CODED]) && KeyedList([PLAIN], ID)
      && KeyedList([], ID)
    ensures !Distinct(Keys([PLAIN, CODED], ID))
    ensures var a, b, c := Arr([PLAIN]), Arr([PLAIN, CODED]), Arr([]);
      && StructuralMerge(a, b).Some? && StructuralMerge(Merged(a, b), c).None?
      && StructuralMerge(b, c).Some? && StructuralMerge(a, Merged(b, c)) == Some(Arr([CODED]))
  {
    TwoItems();
    hide StructuralMerge, MergeArrays, Merged, KeyOf, Identified, Detect, KeyedList, Keys, Distinct;
    GroupingsDiffer(PLAIN, CODED);
    ArraysMerge([PLAIN], [PLAIN, CODED], [CODED]);
    ArraysMerge([PLAIN, CODED], [], [PLAIN, CODED]);
    ArraysRefuse([CODED], []);
  }

  lemma ArraysRefuse(base: seq<Value>, over: seq<Value>)
    requires MergeArrays(base, over).Failure?
    ensures StructuralMerge(Arr(base), Arr(over)).None?
  {
    hide MergeArrays;
  }

  lemma ArraysMerge(base: seq<Value>, over: seq<Value>, merged: seq<Value>)
    requires MergeArrays(base, over) == Success(merged)
    ensures StructuralMerge(Arr(base), Arr(over)) == Some(Arr(merged)) && Merged(Arr(base), Arr(over)) == Arr(merged)
  {
    hide MergeArrays;
  }

  lemma TwoItems()
    ensures Codeless(PLAIN) && Identified([PLAIN, CODED], ID) && KeyOf(PLAIN, ID) == KeyOf(CODED, ID)
    ensures CODED.Table? && CODE in CODED.entries && !CODED.entries[CODE].Text?
    ensures Detect([PLAIN]) == Success(Some(ID)) == Detect([PLAIN, CODED]) && KeyedList([PLAIN], ID)
      && KeyedList([], ID)
    ensures !Distinct(Keys([PLAIN, CODED], ID))
  {
    var keys := Keys([PLAIN, CODED], ID);
    assert CODE != ID && keys[0] == keys[1];
    OneKeyIsDistinct(PLAIN);
    KeyedListsAre([PLAIN], ID);
    KeyedListsAre([PLAIN, CODED], ID);
  }

  lemma OneKeyIsDistinct(item: Value)
    ensures Distinct(Keys([item], ID)) && Distinct(Keys([], ID))
  {
  }
}
