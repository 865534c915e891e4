/**
 `toJava`: Python value to Java value, recording the type tree.

 The Python type is checked in a fixed order (None, bool, int, float, str,
 bytes, bytearray, dict, then anything that can be iterated); a dict becomes
 a `LinkedHashMap` in `PyDict_Next` order, any other iterable an `ArrayList`
 in the order its iterator yields, and anything else is refused.
 */
module PythonToJava {
  import opened Values
  import opened TypeTrees
  import opened Outcomes
  import opened Numbers
  import opened Keys

  /** The name `toJava` records for a value before it converts it. */
  function PythonLabel(p: PVal): string {
    match p
    case PNone => "None"
    case PBool(_) => "bool"
    case PInt(_) => "int"
    case PFloat(_) => "float"
    case PStr(_) => "str"
    case PBytes(_) => "bytes"
    case PByteArray(_) => "bytearray"
    case PDict(_) => "dict"
    case PIterable(typeName, _) => "iterable(" + typeName + ")"
    case POther(typeName, _) => typeName + UNSUPPORTED
  }

  /**
   `toJava(obj, builder)`. A bool is checked before an int, so it always
   becomes a `Boolean`. Both bytes and bytearray go through `lengthToInt`
   and are copied into a `byte[]` of that length.
   */
  function ToJava(p: PVal, t: TypeTree): Result<Step<JVal>>
    decreases p, 1
  {
    var t1 := t.AddType(PythonLabel(p));
    match p
    case PNone => Ok(Step(JNull, t1))
    case PBool(b) => Ok(Step(JBoolean(b), t1))
    case PInt(n) =>
      var x :- AsLong(n);
      Ok(Step(JLong(x), t1))
    case PFloat(f) => Ok(Step(JDouble(f), t1))
    case PStr(s) => Ok(Step(JString(s), t1))
    case PBytes(data) =>
      var n :- LengthToInt(|data| as int64);
      Ok(Step(JByteArray(data[..n]), t1))
    case PByteArray(data) =>
      var n :- LengthToInt(|data| as int64);
      Ok(Step(JByteArray(data[..n]), t1))
    case PDict(items) =>
      var s :- ToJavaEntries(items, 0, [], t1.Enter());
      Ok(Step(JMap(s.value), s.tree.Leave()))
    case PIterable(_, xs) =>
      var s :- ToJavaItems(xs, t1.Enter());
      Ok(Step(JIterable(ARRAY_LIST, s.value), s.tree.Leave()))
    case POther(_, rendering) => Err(Unsupported(t1.nodes, rendering))
  }

  /** The items drawn from the iterator, converted and appended in draw order. */
  function ToJavaItems(xs: seq<PVal>, t: TypeTree): Result<Step<seq<JVal>>>
    decreases xs
  {
    if |xs| == 0 then Ok(Step([], t))
    else
      var h :- ToJava(xs[0], t);
      var rest :- ToJavaItems(xs[1..], h.tree);
      Ok(Step([h.value] + rest.value, rest.tree))
  }

  /** The `PyDict_Next` loop from item `i` on, into the map `m`. */
  function ToJavaEntries(items: seq<PEntry>, i: nat, m: seq<JEntry>, t: TypeTree): Result<Step<seq<JEntry>>>
    requires i <= |items|
    decreases PDict(items), 0, |items| - i
  {
    if i == |items| then Ok(Step(m, t))
    else
      assert items[i] in items;
      var s :- ToJavaEntry(items[i], m, t);
      ToJavaEntries(items, i + 1, s.value, s.tree)
  }

  /**
   One dict item: record "item", convert the key and then the value one level
   deeper, and `put` the pair into the `LinkedHashMap`.
   */
  function ToJavaEntry(e: PEntry, m: seq<JEntry>, t: TypeTree): Result<Step<seq<JEntry>>>
    decreases e, 2
  {
    var k :- ToJava(e.key, t.AddType("item").Enter());
    var w :- ToJava(e.value, k.tree);
    Ok(Step(MapPut(m, k.value, w.value), w.tree.Leave()))
  }

  // ---------------------------------------------------------------------
  // The mapping table, stated without the trace.

  /**
   Every type reached has a mapping, every int fits a `long` and every byte
   payload fits a Java array.
   */
  predicate Representable(p: PVal) {
    match p
    case POther(_, _) => false
    case PInt(n) => InInt64(n)
    case PBytes(data) => |data| <= INT_MAX
    case PByteArray(data) => |data| <= INT_MAX
    case PDict(items) =>
      forall i :: 0 <= i < |items| ==> Representable(items[i].key) && Representable(items[i].value)
    case PIterable(_, xs) => forall i :: 0 <= i < |xs| ==> Representable(xs[i])
    case _ => true
  }

  predicate AllRepresentable(xs: seq<PVal>) {
    forall i :: 0 <= i < |xs| ==> Representable(xs[i])
  }

  predicate ItemsRepresentable(items: seq<PEntry>) {
    forall i :: 0 <= i < |items| ==> Representable(items[i].key) && Representable(items[i].value)
  }

  /**
   The Python-to-Java table: None to null, bool to Boolean, int to Long,
   float to Double, str to String, bytes and bytearray to byte[], dict to
   LinkedHashMap, any other iterable to ArrayList.
   */
  function JImage(p: PVal): JVal
    requires Representable(p)
  {
    match p
    case PNone => JNull
    case PBool(b) => JBoolean(b)
    case PInt(n) => JLong(n as int64)
    case PFloat(f) => JDouble(f)
    case PStr(s) => JString(s)
    case PBytes(data) => JByteArray(data)
    case PByteArray(data) => JByteArray(data)
    case PDict(items) =>
      JMap(PutAll([], seq(|items|, i requires 0 <= i < |items| =>
        JEntry(JImage(items[i].key), JImage(items[i].value)))))
    case PIterable(_, xs) => JIterable(ARRAY_LIST, seq(|xs|, i requires 0 <= i < |xs| => JImage(xs[i])))
  }

  function JImages(xs: seq<PVal>): seq<JVal>
    requires AllRepresentable(xs)
  {
    seq(|xs|, i requires 0 <= i < |xs| => JImage(xs[i]))
  }

  function ItemImages(items: seq<PEntry>): seq<JEntry>
    requires ItemsRepresentable(items)
  {
    seq(|items|, i requires 0 <= i < |items| => JEntry(JImage(items[i].key), JImage(items[i].value)))
  }

  // ---------------------------------------------------------------------
  // The trace, stated without the conversion.

  /**
   The nodes a conversion of `p` records when it starts at indent `d`: the
   value's own name at `d`, iterator items at `d + 1`, and for a dict each
   "item" at `d + 1` with its key and then its value at `d + 2`.
   */
  function PShape(p: PVal, d: int): seq<TypeNode>
    decreases p, 1
  {
    [TypeNode(d, PythonLabel(p))] +
    match p
    case PDict(items) => ItemsShape(items, 0, d + 1)
    case PIterable(_, xs) => DrawnShape(xs, d + 1)
    case _ => []
  }

  function DrawnShape(xs: seq<PVal>, d: int): seq<TypeNode>
    decreases xs
  {
    if |xs| == 0 then [] else PShape(xs[0], d) + DrawnShape(xs[1..], d)
  }

  function ItemsShape(items: seq<PEntry>, i: nat, d: int): seq<TypeNode>
    requires i <= |items|
    decreases PDict(items), 0, |items| - i
  {
    if i == |items| then []
    else
      assert items[i] in items;
      ItemShape(items[i], d) + ItemsShape(items, i + 1, d)
  }

  function ItemShape(e: PEntry, d: int): seq<TypeNode>
    decreases e, 2
  {
    [TypeNode(d, "item")] + PShape(e.key, d + 1) + PShape(e.value, d + 1)
  }

  lemma DictShape(items: seq<PEntry>, d: int)
    ensures PShape(PDict(items), d) == [TypeNode(d, "dict")] + ItemsShape(items, 0, d + 1)
  {
  }

  lemma ItemsShapeStep(items: seq<PEntry>, i: nat, d: int)
    requires i < |items|
    ensures ItemsShape(items, i, d) == ItemShape(items[i], d) + ItemsShape(items, i + 1, d)
  {
  }

  /** The nodes of the items before item `i`. */
  function ItemsShapeBefore(items: seq<PEntry>, i: nat, d: int): seq<TypeNode>
    requires i <= |items|
    decreases PDict(items), 0, i
  {
    if i == 0 then []
    else
      assert items[i - 1] in items;
      ItemsShapeBefore(items, i - 1, d) + ItemShape(items[i - 1], d)
  }

  /** The items' nodes, split in front of item `i`. */
  lemma {:induction false} ItemsShapeSplit(items: seq<PEntry>, i: nat, d: int)
    requires i <= |items|
    ensures ItemsShape(items, 0, d) == ItemsShapeBefore(items, i, d) + ItemsShape(items, i, d)
    decreases i
  {
    if i > 0 {
      ItemsShapeSplit(items, i - 1, d);
      ItemsShapeStep(items, i - 1, d);
    }
  }

  /** The trace half of `ValueSound`. */
  predicate Traced(p: PVal, t: TypeTree, r: Result<Step<JVal>>) {
    && (r.Ok? ==> r.value.tree == TypeTree(t.tab, t.nodes + PShape(p, t.tab)))
    && (r.Err? && r.failure.Unsupported? ==> t.nodes < r.failure.tree <= t.nodes + PShape(p, t.tab))
    && (r.Err? && r.failure.Unsupported? ==> EndsMarked(r.failure.tree))
  }

  /** The nodes an entry adds, split after its own node. */
  lemma EntryTraceShape(e: PEntry, t: TypeTree)
    ensures t.nodes + ItemShape(e, t.tab) == t.AddType("item").nodes + PShape(e.key, t.tab + 1) + PShape(e.value, t.tab + 1)
  {
    var a, x, b, c := t.nodes, TypeNode(t.tab, "item"), PShape(e.key, t.tab + 1), PShape(e.value, t.tab + 1);
    Regroup(a, x, b, c);
  }

  // ---------------------------------------------------------------------
  // The conversion against the table and the trace.

  /** The failures `toJava` can end with. */
  predicate ToJavaFailure(f: Failure) {
    f.Unsupported? || f.TooLong? || f.IntOverflow?
  }

  /** The conversion of one value: what it yields, what it records, how it fails. */
  predicate ValueSound(p: PVal, t: TypeTree, r: Result<Step<JVal>>) {
    && (r.Ok? <==> Representable(p))
    && (r.Ok? ==> Representable(p) && r.value.value == JImage(p))
    && (r.Ok? ==> r.value.tree == TypeTree(t.tab, t.nodes + PShape(p, t.tab)))
    && (r.Err? ==> ToJavaFailure(r.failure))
    && (r.Err? && r.failure.Unsupported? ==> t.nodes < r.failure.tree <= t.nodes + PShape(p, t.tab))
    && (r.Err? && r.failure.Unsupported? ==> EndsMarked(r.failure.tree))
  }

  lemma {:induction false} ToJavaSound(p: PVal, t: TypeTree)
    ensures ValueSound(p, t, ToJava(p, t))
    decreases p, 3
  {
    match p
    case PDict(items) => ToJavaDictSound(items, t);
    case PIterable(_, xs) => ToJavaIterableSound(p, xs, t);
    case POther(typeName, _) => MarkedLabel(typeName);
    case _ =>
  }

  lemma {:induction false} ToJavaDictSound(items: seq<PEntry>, t: TypeTree)
    ensures ValueSound(PDict(items), t, ToJava(PDict(items), t))
    decreases PDict(items), 2
  {
    ToJavaDictAccepts(items, t);
    ToJavaDictTrace(items, t);
  }

  /** A dict converts exactly when all its items do, to the map of their images. */
  lemma {:induction false} ToJavaDictAccepts(items: seq<PEntry>, t: TypeTree)
    ensures var r := ToJava(PDict(items), t);
      && (r.Ok? <==> Representable(PDict(items)))
      && (r.Ok? ==> Representable(PDict(items)) && r.value.value == JImage(PDict(items)))
      && (r.Err? ==> ToJavaFailure(r.failure))
    decreases PDict(items), 1
  {
    ToJavaEntriesSound(items, 0, [], t.AddType("dict").Enter());
    assert items[0..] == items;
    ToJavaDictUnfold(items, t);
    DictImage(items);
  }

  /** The trace of a dict conversion: its own node, then its items one level deeper. */
  lemma {:induction false} ToJavaDictTrace(items: seq<PEntry>, t: TypeTree)
    ensures var r := ToJava(PDict(items), t);
      && (r.Ok? ==> r.value.tree == TypeTree(t.tab, t.nodes + PShape(PDict(items), t.tab)))
      && (r.Err? && r.failure.Unsupported? ==> t.nodes < r.failure.tree <= t.nodes + PShape(PDict(items), t.tab))
      && (r.Err? && r.failure.Unsupported? ==> EndsMarked(r.failure.tree))
    decreases PDict(items), 1
  {
    var t1 := t.AddType("dict");
    var r := ToJavaEntries(items, 0, [], t1.Enter());
    ToJavaEntriesSound(items, 0, [], t1.Enter());
    ToJavaDictUnfold(items, t);
    DictTraceShape(items, t);
    if r.Err? && r.failure.Unsupported? {
      PrefixStep(t.nodes, t1.nodes, r.failure.tree);
    }
  }

  lemma ToJavaDictUnfold(items: seq<PEntry>, t: TypeTree)
    ensures var r := ToJavaEntries(items, 0, [], t.AddType("dict").Enter());
      ToJava(PDict(items), t) == if r.Ok? then Ok(Step(JMap(r.value.value), r.value.tree.Leave())) else Err(r.failure)
  {
  }

  lemma DictImage(items: seq<PEntry>)
    ensures Representable(PDict(items)) <==> ItemsRepresentable(items)
    ensures Representable(PDict(items)) ==> JImage(PDict(items)) == JMap(PutAll([], ItemImages(items)))
  {
  }

  lemma DictTraceShape(items: seq<PEntry>, t: TypeTree)
    ensures t.nodes + PShape(PDict(items), t.tab) == t.AddType("dict").nodes + ItemsShape(items, 0, t.tab + 1)
  {
    DictShape(items, t.tab);
  }

  lemma {:induction false} ToJavaIterableSound(p: PVal, xs: seq<PVal>, t: TypeTree)
    requires p.PIterable? && p.drawn == xs
    ensures ValueSound(p, t, ToJava(p, t))
    decreases p, 2
  {
    ToJavaIterableAccepts(p, xs, t);
    ToJavaIterableTrace(p, xs, t);
  }

  /** An iterable converts exactly when all the items it yields do, to the list of their images. */
  lemma {:induction false} ToJavaIterableAccepts(p: PVal, xs: seq<PVal>, t: TypeTree)
    requires p.PIterable? && p.drawn == xs
    ensures var r := ToJava(p, t);
      && (r.Ok? <==> Representable(p))
      && (r.Ok? ==> Representable(p) && r.value.value == JImage(p))
      && (r.Err? ==> ToJavaFailure(r.failure))
    decreases p, 1
  {
    ToJavaItemsSound(xs, t.AddType(PythonLabel(p)).Enter());
    ToJavaIterableUnfold(p, xs, t);
    IterableImage(p, xs);
  }

  /** The trace of an iterable: its own node, then its items one level deeper. */
  lemma {:induction false} ToJavaIterableTrace(p: PVal, xs: seq<PVal>, t: TypeTree)
    requires p.PIterable? && p.drawn == xs
    ensures var r := ToJava(p, t);
      && (r.Ok? ==> r.value.tree == TypeTree(t.tab, t.nodes + PShape(p, t.tab)))
      && (r.Err? && r.failure.Unsupported? ==> t.nodes < r.failure.tree <= t.nodes + PShape(p, t.tab))
      && (r.Err? && r.failure.Unsupported? ==> EndsMarked(r.failure.tree))
    decreases p, 1
  {
    var t1 := t.AddType(PythonLabel(p));
    var r := ToJavaItems(xs, t1.Enter());
    ToJavaItemsSound(xs, t1.Enter());
    ToJavaIterableUnfold(p, xs, t);
    IterableTraceShape(p, xs, t);
    if r.Err? && r.failure.Unsupported? {
      PrefixStep(t.nodes, t1.nodes, r.failure.tree);
    }
  }

  lemma ToJavaIterableUnfold(p: PVal, xs: seq<PVal>, t: TypeTree)
    requires p.PIterable? && p.drawn == xs
    ensures var r := ToJavaItems(xs, t.AddType(PythonLabel(p)).Enter());
      ToJava(p, t) == if r.Ok? then Ok(Step(JIterable(ARRAY_LIST, r.value.value), r.value.tree.Leave())) else Err(r.failure)
  {
  }

  lemma IterableImage(p: PVal, xs: seq<PVal>)
    requires p.PIterable? && p.drawn == xs
    ensures Representable(p) <==> AllRepresentable(xs)
    ensures Representable(p) ==> JImage(p) == JIterable(ARRAY_LIST, JImages(xs))
  {
  }

  lemma IterableTraceShape(p: PVal, xs: seq<PVal>, t: TypeTree)
    requires p.PIterable? && p.drawn == xs
    ensures t.nodes + PShape(p, t.tab) == t.AddType(PythonLabel(p)).nodes + DrawnShape(xs, t.tab + 1)
  {
  }

  lemma {:induction false} ToJavaItemsSound(xs: seq<PVal>, t: TypeTree)
    ensures var r := ToJavaItems(xs, t);
      && (r.Ok? <==> AllRepresentable(xs))
      && (r.Ok? ==> AllRepresentable(xs) && r.value.value == JImages(xs))
      && (r.Ok? ==> r.value.tree == TypeTree(t.tab, t.nodes + DrawnShape(xs, t.tab)))
      && (r.Err? ==> ToJavaFailure(r.failure))
      && (r.Err? && r.failure.Unsupported? ==> t.nodes < r.failure.tree <= t.nodes + DrawnShape(xs, t.tab))
      && (r.Err? && r.failure.Unsupported? ==> EndsMarked(r.failure.tree))
    decreases xs
  {
    if |xs| > 0 {
      ToJavaSound(xs[0], t);
      var first := t.nodes + PShape(xs[0], t.tab);
      assert t.nodes + DrawnShape(xs, t.tab) == first + DrawnShape(xs[1..], t.tab);
      match ToJava(xs[0], t)
      case Err(f) =>
        if f.Unsupported? {
          PrefixGrows(f.tree, first, DrawnShape(xs[1..], t.tab));
        }
      case Ok(h) =>
        ToJavaItemsSound(xs[1..], h.tree);
        assert forall i :: 0 < i < |xs| ==> xs[1..][i - 1] == xs[i];
        if AllRepresentable(xs) {
          assert JImages(xs) == [JImage(xs[0])] + JImages(xs[1..]);
        }
    }
  }

  lemma {:induction false} ToJavaEntriesSound(items: seq<PEntry>, i: nat, m: seq<JEntry>, t: TypeTree)
    requires i <= |items|
    ensures var r := ToJavaEntries(items, i, m, t);
      && (r.Ok? <==> ItemsRepresentable(items[i..]))
      && (r.Ok? ==> ItemsRepresentable(items[i..]) && r.value.value == PutAll(m, ItemImages(items[i..])))
      && (r.Ok? ==> r.value.tree == TypeTree(t.tab, t.nodes + ItemsShape(items, i, t.tab)))
      && (r.Err? ==> ToJavaFailure(r.failure))
      && (r.Err? && r.failure.Unsupported? ==> t.nodes < r.failure.tree <= t.nodes + ItemsShape(items, i, t.tab))
      && (r.Err? && r.failure.Unsupported? ==> EndsMarked(r.failure.tree))
    decreases PDict(items), 0, |items| - i
  {
    if i < |items| {
      assert items[i] in items;
      var rest := ItemsShape(items, i + 1, t.tab);
      var first := t.nodes + ItemShape(items[i], t.tab);
      ItemsShapeStep(items, i, t.tab);
      assert t.nodes + ItemsShape(items, i, t.tab) == first + rest;
      ItemsRepresentableStep(items, i);
      ToJavaEntrySound(items[i], m, t);
      match ToJavaEntry(items[i], m, t)
      case Err(f) =>
        if f.Unsupported? {
          PrefixGrows(f.tree, first, rest);
        }
      case Ok(s) =>
        ToJavaEntriesSound(items, i + 1, s.value, s.tree);
    }
  }

  lemma ItemsRepresentableStep(items: seq<PEntry>, i: nat)
    requires i < |items|
    ensures ItemsRepresentable(items[i..]) <==>
      Representable(items[i].key) && Representable(items[i].value) && ItemsRepresentable(items[i + 1..])
    ensures ItemsRepresentable(items[i..]) ==>
      ItemImages(items[i..]) == [JEntry(JImage(items[i].key), JImage(items[i].value))] + ItemImages(items[i + 1..])
  {
    assert forall j :: 0 < j < |items[i..]| ==> items[i..][j] == items[i + 1..][j - 1];
  }

  lemma {:induction false} ToJavaEntrySound(e: PEntry, m: seq<JEntry>, t: TypeTree)
    ensures var r := ToJavaEntry(e, m, t);
      && (r.Ok? <==> Representable(e.key) && Representable(e.value))
      && (r.Ok? ==> Representable(e.key) && Representable(e.value)
                    && r.value.value == MapPut(m, JImage(e.key), JImage(e.value)))
      && (r.Ok? ==> r.value.tree == TypeTree(t.tab, t.nodes + ItemShape(e, t.tab)))
      && (r.Err? ==> ToJavaFailure(r.failure))
      && (r.Err? && r.failure.Unsupported? ==> t.nodes < r.failure.tree <= t.nodes + ItemShape(e, t.tab))
      && (r.Err? && r.failure.Unsupported? ==> EndsMarked(r.failure.tree))
    decreases e, 3
  {
    ToJavaEntryAccepts(e, m, t);
    ToJavaEntryTrace(e, m, t);
  }

  /** An item is put into the map exactly when its key and its value convert. */
  lemma {:induction false} ToJavaEntryAccepts(e: PEntry, m: seq<JEntry>, t: TypeTree)
    ensures var r := ToJavaEntry(e, m, t);
      && (r.Ok? <==> Representable(e.key) && Representable(e.value))
      && (r.Ok? ==> Representable(e.key) && Representable(e.value)
                    && r.value.value == MapPut(m, JImage(e.key), JImage(e.value)))
      && (r.Err? ==> ToJavaFailure(r.failure))
    decreases e, 2
  {
    var t1 := t.AddType("item").Enter();
    ToJavaSound(e.key, t1);
    match ToJava(e.key, t1)
    case Err(_) =>
    case Ok(k) =>
      ToJavaSound(e.value, k.tree);
  }

  /** The trace of an item: "item", then its key and its value one level deeper. */
  lemma ToJavaEntryTrace(e: PEntry, m: seq<JEntry>, t: TypeTree)
    ensures var r := ToJavaEntry(e, m, t);
      && (r.Ok? ==> r.value.tree == TypeTree(t.tab, t.nodes + ItemShape(e, t.tab)))
      && (r.Err? && r.failure.Unsupported? ==> t.nodes < r.failure.tree <= t.nodes + ItemShape(e, t.tab))
      && (r.Err? && r.failure.Unsupported? ==> EndsMarked(r.failure.tree))
    decreases e, 2
  {
    ToJavaEntryTraceOk(e, m, t);
    ToJavaEntryTraceErr(e, m, t);
  }

  lemma {:induction false} ToJavaEntryTraceOk(e: PEntry, m: seq<JEntry>, t: TypeTree)
    ensures var r := ToJavaEntry(e, m, t);
      r.Ok? ==> r.value.tree == TypeTree(t.tab, t.nodes + ItemShape(e, t.tab))
    decreases e, 1
  {
    var t1 := t.AddType("item").Enter();
    var rk := ToJava(e.key, t1);
    assert rk.Ok? ==> rk.value.tree == TypeTree(t1.tab, t1.nodes + PShape(e.key, t1.tab)) by {
      ToJavaSound(e.key, t1);
    }
    if rk.Ok? {
      var k := rk.value;
      var rw := ToJava(e.value, k.tree);
      assert rw.Ok? ==> rw.value.tree == TypeTree(k.tree.tab, k.tree.nodes + PShape(e.value, k.tree.tab)) by {
        ToJavaSound(e.value, k.tree);
      }
      EntryTraceShape(e, t);
    }
  }

  lemma {:induction false} ToJavaEntryTraceErr(e: PEntry, m: seq<JEntry>, t: TypeTree)
    ensures var r := ToJavaEntry(e, m, t);
      && (r.Err? && r.failure.Unsupported? ==> t.nodes < r.failure.tree <= t.nodes + ItemShape(e, t.tab))
      && (r.Err? && r.failure.Unsupported? ==> EndsMarked(r.failure.tree))
    decreases e, 1
  {
    var t1 := t.AddType("item").Enter();
    var keyShape := PShape(e.key, t.tab + 1);
    var valueShape := PShape(e.value, t.tab + 1);
    EntryTraceShape(e, t);
    var rk := ToJava(e.key, t1);
    assert Traced(e.key, t1, rk) by {
      ToJavaSound(e.key, t1);
    }
    match rk
    case Err(f) =>
      if f.Unsupported? {
        PrefixGrows(f.tree, t1.nodes + keyShape, valueShape);
        PrefixStep(t.nodes, t.AddType("item").nodes, f.tree);
      }
    case Ok(k) =>
      var rw := ToJava(e.value, k.tree);
      assert Traced(e.value, k.tree, rw) by {
        ToJavaSound(e.value, k.tree);
      }
      match rw
      case Err(f) =>
        if f.Unsupported? {
          PrefixStep(t.nodes, t.AddType("item").nodes, f.tree);
        }
      case Ok(w) =>
  }

  // ---------------------------------------------------------------------
  // Consequences, one promise each.

  /**
   A successful conversion hands the builder back at the indent it started
   from, having recorded at least the value's own node after what was there.
   */
  lemma ToJavaTraceBalanced(p: PVal, t: TypeTree)
    requires ToJava(p, t).Ok?
    ensures ToJava(p, t).value.tree.tab == t.tab
    ensures t.nodes < ToJava(p, t).value.tree.nodes
    ensures ToJava(p, t).value.tree.nodes[|t.nodes|] == TypeNode(t.tab, PythonLabel(p))
  {
    ToJavaSound(p, t);
    assert ToJava(p, t).value.tree.nodes == t.nodes + PShape(p, t.tab);
  }

  /**
   Wherever item `i` sits in a dict, its "item" node is one level below the
   dict's node and its key's nodes, then its value's, two levels below,
   between the items before it and those after it.
   */
  lemma DictItemDepths(items: seq<PEntry>, i: nat, d: int)
    requires i < |items|
    ensures PShape(PDict(items), d)
      == [TypeNode(d, "dict")] + ItemsShapeBefore(items, i, d + 1)
         + [TypeNode(d + 1, "item")] + PShape(items[i].key, d + 2) + PShape(items[i].value, d + 2)
         + ItemsShape(items, i + 1, d + 1)
  {
    DictShape(items, d);
    ItemsShapeSplit(items, i, d + 1);
    ItemsShapeStep(items, i, d + 1);
    RegroupAround([TypeNode(d, "dict")], ItemsShapeBefore(items, i, d + 1), ItemShape(items[i], d + 1),
      ItemsShape(items, i + 1, d + 1), TypeNode(d + 1, "item"), PShape(items[i].key, d + 2), PShape(items[i].value, d + 2));
  }

  /**
   The items drawn from an iterator convert until the first one that does
   not: the conversion fails exactly as that item does, from the tree its
   predecessors left, and no later item is visited.
   */
  lemma {:induction false} DrawnStopAtFirstFailure(xs: seq<PVal>, i: nat, t: TypeTree)
    requires i < |xs| && AllRepresentable(xs[..i]) && !Representable(xs[i])
    ensures var at := TypeTree(t.tab, t.nodes + DrawnShape(xs[..i], t.tab));
      && ToJava(xs[i], at).Err?
      && ToJavaItems(xs, t) == Err(ToJava(xs[i], at).failure)
    decreases i
  {
    if i == 0 {
      DrawnFailAtHead(xs, t);
    } else {
      var r0 := ToJava(xs[0], t);
      DrawnPrefixStep(xs, i, t.tab);
      assert r0.Ok? && r0.value.tree == TypeTree(t.tab, t.nodes + PShape(xs[0], t.tab)) by {
        ToJavaSound(xs[0], t);
      }
      var head, rest := PShape(xs[0], t.tab), DrawnShape(xs[1..][..i - 1], t.tab);
      var at := TypeTree(t.tab, t.nodes + DrawnShape(xs[..i], t.tab));
      assert TypeTree(r0.value.tree.tab, r0.value.tree.nodes + rest) == at by {
        assert t.nodes + head + rest == t.nodes + (head + rest);
      }
      DrawnStopAtFirstFailure(xs[1..], i - 1, r0.value.tree);
      DrawnAfterHead(xs, t);
    }
  }

  /** A first item that does not convert fails the whole sequence, from the starting tree. */
  lemma DrawnFailAtHead(xs: seq<PVal>, t: TypeTree)
    requires 0 < |xs| && !Representable(xs[0])
    ensures ToJava(xs[0], TypeTree(t.tab, t.nodes + DrawnShape(xs[..0], t.tab))).Err?
    ensures ToJavaItems(xs, t) == Err(ToJava(xs[0], TypeTree(t.tab, t.nodes + DrawnShape(xs[..0], t.tab))).failure)
  {
    assert ToJava(xs[0], t).Err? by {
      ToJavaSound(xs[0], t);
    }
    assert xs[..0] == [];
    assert t.nodes + DrawnShape(xs[..0], t.tab) == t.nodes;
    assert TypeTree(t.tab, t.nodes) == t;
  }

  /** Peeling the first element off a prefix that converts. */
  lemma DrawnPrefixStep(xs: seq<PVal>, i: nat, d: int)
    requires 0 < i < |xs| && AllRepresentable(xs[..i])
    ensures Representable(xs[0]) && AllRepresentable(xs[1..][..i - 1]) && xs[1..][i - 1] == xs[i]
    ensures DrawnShape(xs[..i], d) == PShape(xs[0], d) + DrawnShape(xs[1..][..i - 1], d)
  {
    assert xs[..i][0] == xs[0];
    assert xs[..i][1..] == xs[1..][..i - 1];
    var pre := xs[1..][..i - 1];
    forall j | 0 <= j < |pre| ensures Representable(pre[j]) {
      assert pre[j] == xs[..i][j + 1];
    }
  }

  /** After a head that converts, the elements fail exactly as the rest does. */
  lemma DrawnAfterHead(xs: seq<PVal>, t: TypeTree)
    requires |xs| > 0 && ToJava(xs[0], t).Ok?
    ensures var rest := ToJavaItems(xs[1..], ToJava(xs[0], t).value.tree);
      rest.Err? ==> ToJavaItems(xs, t) == Err(rest.failure)
  {
  }

  /**
   An unsupported object drawn from an iterator, after items that all
   convert: the failure's tree is the iterable's node, the nodes of the items
   before it one level deeper, and the marked node at that same level, and it
   carries the object's `str()` when there is one.
   */
  lemma UnsupportedInsideIterable(p: PVal, i: nat, t: TypeTree)
    requires p.PIterable?
    requires i < |p.drawn| && AllRepresentable(p.drawn[..i]) && p.drawn[i].POther?
    ensures ToJava(p, t) == Err(Unsupported(
      t.nodes + [TypeNode(t.tab, PythonLabel(p))] + DrawnShape(p.drawn[..i], t.tab + 1)
        + [TypeNode(t.tab + 1, p.drawn[i].typeName + UNSUPPORTED)],
      p.drawn[i].rendering))
  {
    var xs := p.drawn;
    var t1 := t.AddType(PythonLabel(p)).Enter();
    ToJavaIterableUnfold(p, xs, t);
    DrawnStopAtFirstFailure(xs, i, t1);
    var at := TypeTree(t1.tab, t1.nodes + DrawnShape(xs[..i], t1.tab));
    UnsupportedPythonObject(xs[i].typeName, xs[i].rendering, at);
  }

  /**
   A bool is checked before an int: it always becomes a `Boolean` of the same
   truth value, never a `Long`, though Python's bool is a subclass of int.
   */
  lemma BoolBeforeInt(b: bool, t: TypeTree)
    ensures ToJava(PBool(b), t).Ok?
    ensures ToJava(PBool(b), t).value.value == JBoolean(b)
    ensures !ToJava(PBool(b), t).value.value.JLong?
  {
  }

  /**
   A Python int becomes the `Long` of the same value when it fits in 64 bits;
   otherwise the conversion fails, and the trace never gets past the int.
   */
  lemma IntFitsOrFails(n: int, t: TypeTree)
    ensures ToJava(PInt(n), t).Ok? <==> InInt64(n)
    ensures ToJava(PInt(n), t).Ok? ==>
      ToJava(PInt(n), t).value.value.JLong? && ToJava(PInt(n), t).value.value.longValue as int == n
    ensures ToJava(PInt(n), t).Err? ==> ToJava(PInt(n), t).failure == IntOverflow(n)
  {
  }

  /**
   bytes and bytearray both become a `byte[]` holding exactly their contents,
   when their size passes `lengthToInt`; a larger payload is refused.
   */
  lemma BytesLength(p: PVal, t: TypeTree)
    requires p.PBytes? || p.PByteArray?
    ensures ToJava(p, t).Ok? <==> |p.data| <= INT_MAX
    ensures ToJava(p, t).Ok? ==>
      ToJava(p, t).value.value == JByteArray(p.data) && |ToJava(p, t).value.value.bytes| == |p.data|
    ensures ToJava(p, t).Err? ==> ToJava(p, t).failure == TooLong(|p.data|)
  {
    var n := LengthToInt(|p.data| as int64);
    if n.Ok? {
      assert p.data[..n.value] == p.data;
    }
  }

  /**
   An object with no mapping adds exactly one node, its type name with the
   unsupported marker at the current indent, and the conversion fails with the
   tree up to that node and the object's `str()` when there is one.
   */
  lemma UnsupportedPythonObject(typeName: string, rendering: Option<string>, t: TypeTree)
    ensures ToJava(POther(typeName, rendering), t)
      == Err(Unsupported(t.nodes + [TypeNode(t.tab, typeName + UNSUPPORTED)], rendering))
    ensures Marked(typeName + UNSUPPORTED)
  {
    MarkedLabel(typeName);
  }

  /** The items an iterator yields land in the `ArrayList` in draw order. */
  lemma IterableOrderPreserved(p: PVal, t: TypeTree)
    requires p.PIterable? && Representable(p)
    ensures ToJava(p, t).Ok?
    ensures ToJava(p, t).value.value.JIterable? && ToJava(p, t).value.value.className == ARRAY_LIST
    ensures |ToJava(p, t).value.value.elements| == |p.drawn|
    ensures forall i :: 0 <= i < |p.drawn| ==> ToJava(p, t).value.value.elements[i] == JImage(p.drawn[i])
  {
    ToJavaSound(p, t);
    IterableImage(p, p.drawn);
  }

  /**
   The items of a dict whose keys stay distinct in Java land in the
   `LinkedHashMap` in `PyDict_Next` order.
   */
  lemma DictOrderPreserved(items: seq<PEntry>, t: TypeTree)
    requires Representable(PDict(items))
    requires DistinctJavaKeys(ItemImages(items))
    ensures ToJava(PDict(items), t).Ok?
    ensures ToJava(PDict(items), t).value.value == JMap(ItemImages(items))
  {
    ToJavaSound(PDict(items), t);
    DictImage(items);
    PutAllKeepsOrder([], ItemImages(items));
    assert [] + ItemImages(items) == ItemImages(items);
  }
}
