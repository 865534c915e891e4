/**
 `toPyObject`: Java value to Python value, recording the type tree.

 The Java runtime class is checked in a fixed order (null, Boolean, Byte,
 Character, Short, Integer, Long, Float, Double, String, byte[], Map,
 Object[], Iterable); Map, Object[] and Iterable are converted element by
 element, and any other class is refused with the tree recorded so far.
 */
module JavaToPython {
  import opened Values
  import opened TypeTrees
  import opened Outcomes
  import opened Keys

  /** The name `toPyObject` records for a value before it converts it. */
  function JavaLabel(v: JVal): string {
    match v
    case JNull => "null"
    case JBoolean(_) => "Boolean"
    case JByte(_) => "Byte"
    case JCharacter(_) => "Character"
    case JShort(_) => "Short"
    case JInteger(_) => "Integer"
    case JLong(_) => "Long"
    case JFloat(_) => "Float"
    case JDouble(_) => "Double"
    case JString(_) => "String"
    case JByteArray(_) => "byte[]"
    case JMap(_) => "Map"
    case JArray(_) => "Object[]"
    case JIterable(className, _) => "Iterable(" + className + ")"
    case JOther(className, _) => className + UNSUPPORTED
  }

  /** `toPyObject(value, builder)` */
  function ToPyObject(v: JVal, t: TypeTree): Result<Step<PVal>>
    decreases v, 1
  {
    var t1 := t.AddType(JavaLabel(v));
    match v
    case JNull => Ok(Step(PNone, t1))
    case JBoolean(b) => Ok(Step(PBool(b), t1))
    case JByte(x) => Ok(Step(PInt(x as int), t1))
    case JCharacter(x) => Ok(Step(PInt(x as int), t1))
    case JShort(x) => Ok(Step(PInt(x as int), t1))
    case JInteger(x) => Ok(Step(PInt(x as int), t1))
    case JLong(x) => Ok(Step(PInt(x as int), t1))
    case JFloat(f) => Ok(Step(PFloat(f), t1))
    case JDouble(f) => Ok(Step(PFloat(f), t1))
    case JString(s) => Ok(Step(PStr(s), t1))
    case JByteArray(bytes) => Ok(Step(PBytes(bytes), t1))
    case JMap(es) =>
      var s :- ToPyEntries(es, 0, [], t1.Enter());
      Ok(Step(PDict(s.value), s.tree.Leave()))
    case JArray(xs) =>
      var s :- ToPyItems(xs, t1.Enter());
      Ok(Step(PIterable("list", s.value), s.tree.Leave()))
    case JIterable(_, xs) =>
      var s :- ToPyItems(xs, t1.Enter());
      Ok(Step(PIterable("list", s.value), s.tree.Leave()))
    case JOther(_, shown) => Err(Unsupported(t1.nodes, Some(shown)))
  }

  /** The elements of an `Object[]` or `Iterable`, converted in order. */
  function ToPyItems(xs: seq<JVal>, t: TypeTree): Result<Step<seq<PVal>>>
    decreases xs
  {
    if |xs| == 0 then Ok(Step([], t))
    else
      var h :- ToPyObject(xs[0], t);
      var rest :- ToPyItems(xs[1..], h.tree);
      Ok(Step([h.value] + rest.value, rest.tree))
  }

  /** `map.forEach` from entry `i` on, into the dict `d`. */
  function ToPyEntries(es: seq<JEntry>, i: nat, d: seq<PEntry>, t: TypeTree): Result<Step<seq<PEntry>>>
    requires i <= |es|
    decreases JMap(es), 0, |es| - i
  {
    if i == |es| then Ok(Step(d, t))
    else
      assert es[i] in es;
      var s :- ToPyEntry(es[i], d, t);
      ToPyEntries(es, i + 1, s.value, s.tree)
  }

  /**
   One map entry: record "Map.Entry", convert the key and then the value one
   level deeper, and store the pair with `PyDict_SetItem`.
   */
  function ToPyEntry(e: JEntry, d: seq<PEntry>, t: TypeTree): Result<Step<seq<PEntry>>>
    decreases e, 2
  {
    var k :- ToPyObject(e.key, t.AddType("Map.Entry").Enter());
    var w :- ToPyObject(e.value, k.tree);
    var d' :- SetItem(d, k.value, w.value, w.tree.nodes);
    Ok(Step(d', w.tree.Leave()))
  }

  // ---------------------------------------------------------------------
  // The mapping table, stated without the trace.

  /** A map key whose Python form is hashable: not a Map, array or Iterable. */
  predicate KeyHashable(k: JVal) {
    !(k.JMap? || k.JArray? || k.JIterable?)
  }

  /** Every class reached has a mapping and every map key can live in a dict. */
  predicate Convertible(v: JVal) {
    match v
    case JOther(_, _) => false
    case JMap(es) =>
      forall i :: 0 <= i < |es| ==>
        Convertible(es[i].key) && Convertible(es[i].value) && KeyHashable(es[i].key)
    case JArray(xs) => forall i :: 0 <= i < |xs| ==> Convertible(xs[i])
    case JIterable(_, xs) => forall i :: 0 <= i < |xs| ==> Convertible(xs[i])
    case _ => true
  }

  predicate AllConvertible(xs: seq<JVal>) {
    forall i :: 0 <= i < |xs| ==> Convertible(xs[i])
  }

  predicate EntriesConvertible(es: seq<JEntry>) {
    forall i :: 0 <= i < |es| ==>
      Convertible(es[i].key) && Convertible(es[i].value) && KeyHashable(es[i].key)
  }

  /**
   The Java-to-Python table: null to None, Boolean to bool, every integral
   class to int, Float and Double to float, String to str, byte[] to bytes,
   Map to dict (entries in iteration order), Object[] and Iterable to list.
   */
  function Image(v: JVal): PVal
    requires Convertible(v)
  {
    match v
    case JNull => PNone
    case JBoolean(b) => PBool(b)
    case JByte(x) => PInt(x as int)
    case JCharacter(x) => PInt(x as int)
    case JShort(x) => PInt(x as int)
    case JInteger(x) => PInt(x as int)
    case JLong(x) => PInt(x as int)
    case JFloat(f) => PFloat(f)
    case JDouble(f) => PFloat(f)
    case JString(s) => PStr(s)
    case JByteArray(bytes) => PBytes(bytes)
    case JMap(es) =>
      PDict(InsertAll([], seq(|es|, i requires 0 <= i < |es| => PEntry(Image(es[i].key), Image(es[i].value)))))
    case JArray(xs) => PIterable("list", seq(|xs|, i requires 0 <= i < |xs| => Image(xs[i])))
    case JIterable(_, xs) => PIterable("list", seq(|xs|, i requires 0 <= i < |xs| => Image(xs[i])))
  }

  function Images(xs: seq<JVal>): (ps: seq<PVal>)
    requires AllConvertible(xs)
  {
    seq(|xs|, i requires 0 <= i < |xs| => Image(xs[i]))
  }

  function EntryImages(es: seq<JEntry>): seq<PEntry>
    requires EntriesConvertible(es)
  {
    seq(|es|, i requires 0 <= i < |es| => PEntry(Image(es[i].key), Image(es[i].value)))
  }

  /** The Python form of a Java map key is hashable exactly when `KeyHashable` says so. */
  lemma KeyHashableMatchesPython(k: JVal)
    requires Convertible(k)
    ensures Hashable(Image(k)) <==> KeyHashable(k)
  {
  }

  // ---------------------------------------------------------------------
  // The trace, stated without the conversion.

  /**
   The nodes a conversion of `v` records when it starts at indent `d`: the
   value's own name at `d`, the elements of a list at `d + 1`, and for a map
   each "Map.Entry" at `d + 1` with its key and then its value at `d + 2`.
   */
  function JShape(v: JVal, d: int): seq<TypeNode>
    decreases v, 1
  {
    [TypeNode(d, JavaLabel(v))] +
    match v
    case JMap(es) => EntriesShape(es, 0, d + 1)
    case JArray(xs) => ItemsShape(xs, d + 1)
    case JIterable(_, xs) => ItemsShape(xs, d + 1)
    case _ => []
  }

  function ItemsShape(xs: seq<JVal>, d: int): seq<TypeNode>
    decreases xs
  {
    if |xs| == 0 then [] else JShape(xs[0], d) + ItemsShape(xs[1..], d)
  }

  function EntriesShape(es: seq<JEntry>, i: nat, d: int): seq<TypeNode>
    requires i <= |es|
    decreases JMap(es), 0, |es| - i
  {
    if i == |es| then []
    else
      assert es[i] in es;
      EntryShape(es[i], d) + EntriesShape(es, i + 1, d)
  }

  function EntryShape(e: JEntry, d: int): seq<TypeNode>
    decreases e, 2
  {
    [TypeNode(d, "Map.Entry")] + JShape(e.key, d + 1) + JShape(e.value, d + 1)
  }

  lemma MapShape(es: seq<JEntry>, d: int)
    ensures JShape(JMap(es), d) == [TypeNode(d, "Map")] + EntriesShape(es, 0, d + 1)
  {
  }

  lemma EntriesShapeStep(es: seq<JEntry>, i: nat, d: int)
    requires i < |es|
    ensures EntriesShape(es, i, d) == EntryShape(es[i], d) + EntriesShape(es, i + 1, d)
  {
  }

  /** The nodes of the entries before entry `i`. */
  function EntriesShapeBefore(es: seq<JEntry>, i: nat, d: int): seq<TypeNode>
    requires i <= |es|
    decreases JMap(es), 0, i
  {
    if i == 0 then []
    else
      assert es[i - 1] in es;
      EntriesShapeBefore(es, i - 1, d) + EntryShape(es[i - 1], d)
  }

  /** The entries' nodes, split in front of entry `i`. */
  lemma {:induction false} EntriesShapeSplit(es: seq<JEntry>, i: nat, d: int)
    requires i <= |es|
    ensures EntriesShape(es, 0, d) == EntriesShapeBefore(es, i, d) + EntriesShape(es, i, d)
    decreases i
  {
    if i > 0 {
      EntriesShapeSplit(es, i - 1, d);
      EntriesShapeStep(es, i - 1, d);
    }
  }

  // ---------------------------------------------------------------------
  // The conversion against the table and the trace.

  /** The conversion of one value: what it yields, what it records, when it fails. */
  predicate ValueSound(v: JVal, t: TypeTree, r: Result<Step<PVal>>) {
    && (r.Ok? <==> Convertible(v))
    && (r.Ok? ==> Convertible(v) && r.value.value == Image(v))
    && (r.Ok? ==> r.value.tree == TypeTree(t.tab, t.nodes + JShape(v, t.tab)))
    && (r.Err? ==> CarriesTree(r.failure) && t.nodes < r.failure.tree <= t.nodes + JShape(v, t.tab))
    && (r.Err? && r.failure.Unsupported? ==> EndsMarked(r.failure.tree))
  }

  /** The trace half of `ValueSound`. */
  predicate Traced(v: JVal, t: TypeTree, r: Result<Step<PVal>>) {
    && (r.Ok? ==> r.value.tree == TypeTree(t.tab, t.nodes + JShape(v, t.tab)))
    && (r.Err? ==> CarriesTree(r.failure) && t.nodes < r.failure.tree <= t.nodes + JShape(v, t.tab))
    && (r.Err? && r.failure.Unsupported? ==> EndsMarked(r.failure.tree))
  }

  /** The nodes an entry adds, split after its own node. */
  lemma EntryTraceShape(e: JEntry, t: TypeTree)
    ensures t.nodes + EntryShape(e, t.tab) == t.AddType("Map.Entry").nodes + JShape(e.key, t.tab + 1) + JShape(e.value, t.tab + 1)
  {
    var a, x, b, c := t.nodes, TypeNode(t.tab, "Map.Entry"), JShape(e.key, t.tab + 1), JShape(e.value, t.tab + 1);
    Regroup(a, x, b, c);
  }

  lemma {:induction false} ToPyObjectSound(v: JVal, t: TypeTree)
    ensures ValueSound(v, t, ToPyObject(v, t))
    decreases v, 3
  {
    match v
    case JMap(es) => ToPyMapSound(es, t);
    case JArray(xs) => ToPyListSound(v, xs, t);
    case JIterable(_, xs) => ToPyListSound(v, xs, t);
    case JOther(c, _) => MarkedLabel(c);
    case _ =>
  }

  lemma {:induction false} ToPyMapSound(es: seq<JEntry>, t: TypeTree)
    ensures ValueSound(JMap(es), t, ToPyObject(JMap(es), t))
    decreases JMap(es), 2
  {
    ToPyMapAccepts(es, t);
    ToPyMapTrace(es, t);
  }

  /** A map converts exactly when all its entries do, to the dict of their images. */
  lemma {:induction false} ToPyMapAccepts(es: seq<JEntry>, t: TypeTree)
    ensures var r := ToPyObject(JMap(es), t);
      && (r.Ok? <==> Convertible(JMap(es)))
      && (r.Ok? ==> Convertible(JMap(es)) && r.value.value == Image(JMap(es)))
    decreases JMap(es), 1
  {
    ToPyEntriesSound(es, 0, [], t.AddType("Map").Enter());
    assert es[0..] == es;
    ToPyMapUnfold(es, t);
    MapImage(es);
  }

  /** The trace of a map conversion: its own node, then its entries one level deeper. */
  lemma {:induction false} ToPyMapTrace(es: seq<JEntry>, t: TypeTree)
    ensures var r := ToPyObject(JMap(es), t);
      && (r.Ok? ==> r.value.tree == TypeTree(t.tab, t.nodes + JShape(JMap(es), t.tab)))
      && (r.Err? ==> CarriesTree(r.failure) && t.nodes < r.failure.tree <= t.nodes + JShape(JMap(es), t.tab))
      && (r.Err? && r.failure.Unsupported? ==> EndsMarked(r.failure.tree))
    decreases JMap(es), 1
  {
    var t1 := t.AddType("Map");
    var r := ToPyEntries(es, 0, [], t1.Enter());
    ToPyEntriesSound(es, 0, [], t1.Enter());
    ToPyMapUnfold(es, t);
    MapTraceShape(es, t);
    if r.Err? {
      PrefixStep(t.nodes, t1.nodes, r.failure.tree);
    }
  }

  lemma MapTraceShape(es: seq<JEntry>, t: TypeTree)
    ensures t.nodes + JShape(JMap(es), t.tab) == t.AddType("Map").nodes + EntriesShape(es, 0, t.tab + 1)
  {
    MapShape(es, t.tab);
  }

  lemma ToPyMapUnfold(es: seq<JEntry>, t: TypeTree)
    ensures var r := ToPyEntries(es, 0, [], t.AddType("Map").Enter());
      ToPyObject(JMap(es), t) == if r.Ok? then Ok(Step(PDict(r.value.value), r.value.tree.Leave())) else Err(r.failure)
  {
  }

  lemma MapImage(es: seq<JEntry>)
    ensures Convertible(JMap(es)) <==> EntriesConvertible(es)
    ensures Convertible(JMap(es)) ==> Image(JMap(es)) == PDict(InsertAll([], EntryImages(es)))
  {
  }

  lemma {:induction false} ToPyListSound(v: JVal, xs: seq<JVal>, t: TypeTree)
    requires v == JArray(xs) || v.JIterable?
    requires v.elements == xs
    ensures ValueSound(v, t, ToPyObject(v, t))
    decreases v, 2
  {
    ToPyListAccepts(v, xs, t);
    ToPyListTrace(v, xs, t);
  }

  /** An array or iterable converts exactly when all its elements do, to the list of their images. */
  lemma {:induction false} ToPyListAccepts(v: JVal, xs: seq<JVal>, t: TypeTree)
    requires v == JArray(xs) || v.JIterable?
    requires v.elements == xs
    ensures var r := ToPyObject(v, t);
      && (r.Ok? <==> Convertible(v))
      && (r.Ok? ==> Convertible(v) && r.value.value == Image(v))
    decreases v, 1
  {
    ToPyItemsSound(xs, t.AddType(JavaLabel(v)).Enter());
    ToPyListUnfold(v, xs, t);
    ListImage(v, xs);
  }

  /** The trace of an array or iterable: its own node, then its elements one level deeper. */
  lemma {:induction false} ToPyListTrace(v: JVal, xs: seq<JVal>, t: TypeTree)
    requires v == JArray(xs) || v.JIterable?
    requires v.elements == xs
    ensures var r := ToPyObject(v, t);
      && (r.Ok? ==> r.value.tree == TypeTree(t.tab, t.nodes + JShape(v, t.tab)))
      && (r.Err? ==> CarriesTree(r.failure) && t.nodes < r.failure.tree <= t.nodes + JShape(v, t.tab))
      && (r.Err? && r.failure.Unsupported? ==> EndsMarked(r.failure.tree))
    decreases v, 1
  {
    var t1 := t.AddType(JavaLabel(v));
    var r := ToPyItems(xs, t1.Enter());
    ToPyItemsSound(xs, t1.Enter());
    ToPyListUnfold(v, xs, t);
    ListTraceShape(v, xs, t);
    if r.Err? {
      PrefixStep(t.nodes, t1.nodes, r.failure.tree);
    }
  }

  lemma ToPyListUnfold(v: JVal, xs: seq<JVal>, t: TypeTree)
    requires v == JArray(xs) || v.JIterable?
    requires v.elements == xs
    ensures var r := ToPyItems(xs, t.AddType(JavaLabel(v)).Enter());
      ToPyObject(v, t) == if r.Ok? then Ok(Step(PIterable("list", r.value.value), r.value.tree.Leave())) else Err(r.failure)
  {
  }

  lemma ListImage(v: JVal, xs: seq<JVal>)
    requires v == JArray(xs) || v.JIterable?
    requires v.elements == xs
    ensures Convertible(v) <==> AllConvertible(xs)
    ensures Convertible(v) ==> Image(v) == PIterable("list", Images(xs))
  {
  }

  lemma ListTraceShape(v: JVal, xs: seq<JVal>, t: TypeTree)
    requires v == JArray(xs) || v.JIterable?
    requires v.elements == xs
    ensures t.nodes + JShape(v, t.tab) == t.AddType(JavaLabel(v)).nodes + ItemsShape(xs, t.tab + 1)
  {
  }

  lemma {:induction false} ToPyItemsSound(xs: seq<JVal>, t: TypeTree)
    ensures var r := ToPyItems(xs, t);
      && (r.Ok? <==> AllConvertible(xs))
      && (r.Ok? ==> AllConvertible(xs) && r.value.value == Images(xs))
      && (r.Ok? ==> r.value.tree == TypeTree(t.tab, t.nodes + ItemsShape(xs, t.tab)))
      && (r.Err? ==> CarriesTree(r.failure) && t.nodes < r.failure.tree <= t.nodes + ItemsShape(xs, t.tab))
      && (r.Err? && r.failure.Unsupported? ==> EndsMarked(r.failure.tree))
    decreases xs
  {
    if |xs| > 0 {
      ToPyObjectSound(xs[0], t);
      var whole := t.nodes + ItemsShape(xs, t.tab);
      var first := t.nodes + JShape(xs[0], t.tab);
      assert whole == first + ItemsShape(xs[1..], t.tab);
      match ToPyObject(xs[0], t)
      case Err(f) =>
        PrefixGrows(f.tree, first, ItemsShape(xs[1..], t.tab));
      case Ok(h) =>
        ToPyItemsSound(xs[1..], h.tree);
        assert forall i :: 0 < i < |xs| ==> xs[1..][i - 1] == xs[i];
        if AllConvertible(xs) {
          assert Images(xs) == [Image(xs[0])] + Images(xs[1..]);
        }
    }
  }

  lemma {:induction false} ToPyEntriesSound(es: seq<JEntry>, i: nat, d: seq<PEntry>, t: TypeTree)
    requires i <= |es|
    ensures var r := ToPyEntries(es, i, d, t);
      && (r.Ok? <==> EntriesConvertible(es[i..]))
      && (r.Ok? ==> EntriesConvertible(es[i..]) && r.value.value == InsertAll(d, EntryImages(es[i..])))
      && (r.Ok? ==> r.value.tree == TypeTree(t.tab, t.nodes + EntriesShape(es, i, t.tab)))
      && (r.Err? ==> CarriesTree(r.failure) && t.nodes < r.failure.tree <= t.nodes + EntriesShape(es, i, t.tab))
      && (r.Err? && r.failure.Unsupported? ==> EndsMarked(r.failure.tree))
    decreases JMap(es), 0, |es| - i
  {
    if i < |es| {
      assert es[i] in es;
      var rest := EntriesShape(es, i + 1, t.tab);
      var first := t.nodes + EntryShape(es[i], t.tab);
      EntriesShapeStep(es, i, t.tab);
      assert t.nodes + EntriesShape(es, i, t.tab) == first + rest;
      EntriesConvertibleStep(es, i);
      ToPyEntrySound(es[i], d, t);
      match ToPyEntry(es[i], d, t)
      case Err(f) =>
        PrefixGrows(f.tree, first, rest);
      case Ok(s) =>
        ToPyEntriesSound(es, i + 1, s.value, s.tree);
    }
  }

  /** Peeling the first entry off a suffix of the entries. */
  lemma EntriesConvertibleStep(es: seq<JEntry>, i: nat)
    requires i < |es|
    ensures EntriesConvertible(es[i..]) <==>
      Convertible(es[i].key) && Convertible(es[i].value) && KeyHashable(es[i].key)
      && EntriesConvertible(es[i + 1..])
    ensures EntriesConvertible(es[i..]) ==>
      EntryImages(es[i..]) == [PEntry(Image(es[i].key), Image(es[i].value))] + EntryImages(es[i + 1..])
  {
    assert forall j :: 0 < j < |es[i..]| ==> es[i..][j] == es[i + 1..][j - 1];
  }

  lemma {:induction false} ToPyEntrySound(e: JEntry, d: seq<PEntry>, t: TypeTree)
    ensures var r := ToPyEntry(e, d, t);
      && (r.Ok? <==> Convertible(e.key) && Convertible(e.value) && KeyHashable(e.key))
      && (r.Ok? ==> Convertible(e.key) && Convertible(e.value)
                    && r.value.value == Assign(d, Image(e.key), Image(e.value)))
      && (r.Ok? ==> r.value.tree == TypeTree(t.tab, t.nodes + EntryShape(e, t.tab)))
      && (r.Err? ==> CarriesTree(r.failure) && t.nodes < r.failure.tree <= t.nodes + EntryShape(e, t.tab))
      && (r.Err? && r.failure.Unsupported? ==> EndsMarked(r.failure.tree))
    decreases e, 3
  {
    ToPyEntryAccepts(e, d, t);
    ToPyEntryTrace(e, d, t);
  }

  /** An entry is stored exactly when key and value convert and the key can be hashed. */
  lemma {:induction false} ToPyEntryAccepts(e: JEntry, d: seq<PEntry>, t: TypeTree)
    ensures var r := ToPyEntry(e, d, t);
      && (r.Ok? <==> Convertible(e.key) && Convertible(e.value) && KeyHashable(e.key))
      && (r.Ok? ==> Convertible(e.key) && Convertible(e.value)
                    && r.value.value == Assign(d, Image(e.key), Image(e.value)))
    decreases e, 2
  {
    var t1 := t.AddType("Map.Entry").Enter();
    ToPyObjectSound(e.key, t1);
    match ToPyObject(e.key, t1)
    case Err(_) =>
    case Ok(k) =>
      ToPyObjectSound(e.value, k.tree);
      KeyHashableMatchesPython(e.key);
  }

  /** The trace of an entry: "Map.Entry", then its key and its value one level deeper. */
  lemma ToPyEntryTrace(e: JEntry, d: seq<PEntry>, t: TypeTree)
    ensures var r := ToPyEntry(e, d, t);
      && (r.Ok? ==> r.value.tree == TypeTree(t.tab, t.nodes + EntryShape(e, t.tab)))
      && (r.Err? ==> CarriesTree(r.failure) && t.nodes < r.failure.tree <= t.nodes + EntryShape(e, t.tab))
      && (r.Err? && r.failure.Unsupported? ==> EndsMarked(r.failure.tree))
    decreases e, 2
  {
    ToPyEntryTraceOk(e, d, t);
    ToPyEntryTraceErr(e, d, t);
  }

  lemma {:induction false} ToPyEntryTraceOk(e: JEntry, d: seq<PEntry>, t: TypeTree)
    ensures var r := ToPyEntry(e, d, t);
      r.Ok? ==> r.value.tree == TypeTree(t.tab, t.nodes + EntryShape(e, t.tab))
    decreases e, 1
  {
    var t1 := t.AddType("Map.Entry").Enter();
    var rk := ToPyObject(e.key, t1);
    assert rk.Ok? ==> rk.value.tree == TypeTree(t1.tab, t1.nodes + JShape(e.key, t1.tab)) by {
      ToPyObjectSound(e.key, t1);
    }
    if rk.Ok? {
      var k := rk.value;
      var rw := ToPyObject(e.value, k.tree);
      assert rw.Ok? ==> rw.value.tree == TypeTree(k.tree.tab, k.tree.nodes + JShape(e.value, k.tree.tab)) by {
        ToPyObjectSound(e.value, k.tree);
      }
      EntryTraceShape(e, t);
    }
  }

  lemma {:induction false} ToPyEntryTraceErr(e: JEntry, d: seq<PEntry>, t: TypeTree)
    ensures var r := ToPyEntry(e, d, t);
      && (r.Err? ==> CarriesTree(r.failure) && t.nodes < r.failure.tree <= t.nodes + EntryShape(e, t.tab))
      && (r.Err? && r.failure.Unsupported? ==> EndsMarked(r.failure.tree))
    decreases e, 1
  {
    var t1 := t.AddType("Map.Entry").Enter();
    var keyShape := JShape(e.key, t.tab + 1);
    var valueShape := JShape(e.value, t.tab + 1);
    EntryTraceShape(e, t);
    var rk := ToPyObject(e.key, t1);
    assert Traced(e.key, t1, rk) by {
      ToPyObjectSound(e.key, t1);
    }
    match rk
    case Err(f) =>
      PrefixGrows(f.tree, t1.nodes + keyShape, valueShape);
      PrefixStep(t.nodes, t.AddType("Map.Entry").nodes, f.tree);
    case Ok(k) =>
      var rw := ToPyObject(e.value, k.tree);
      assert Traced(e.value, k.tree, rw) by {
        ToPyObjectSound(e.value, k.tree);
      }
      match rw
      case Err(f) =>
        PrefixStep(t.nodes, t.AddType("Map.Entry").nodes, f.tree);
      case Ok(w) =>
        assert w.tree.nodes == t1.nodes + keyShape + valueShape;
        PrefixStep(t.nodes, t.AddType("Map.Entry").nodes, w.tree.nodes);
  }

  // ---------------------------------------------------------------------
  // Consequences, one promise each.

  /**
   A successful conversion hands the builder back at the indent it started
   from, having recorded at least the value's own node after what was there.
   */
  lemma ToPyObjectTraceBalanced(v: JVal, t: TypeTree)
    requires ToPyObject(v, t).Ok?
    ensures ToPyObject(v, t).value.tree.tab == t.tab
    ensures t.nodes < ToPyObject(v, t).value.tree.nodes
    ensures ToPyObject(v, t).value.tree.nodes[|t.nodes|] == TypeNode(t.tab, JavaLabel(v))
  {
    ToPyObjectSound(v, t);
    assert ToPyObject(v, t).value.tree.nodes == t.nodes + JShape(v, t.tab);
  }

  /**
   Wherever entry `i` sits in a map, its "Map.Entry" node is one level below
   the map's node and its key's nodes, then its value's, two levels below,
   between the entries before it and those after it.
   */
  lemma MapEntryDepths(es: seq<JEntry>, i: nat, d: int)
    requires i < |es|
    ensures JShape(JMap(es), d)
      == [TypeNode(d, "Map")] + EntriesShapeBefore(es, i, d + 1)
         + [TypeNode(d + 1, "Map.Entry")] + JShape(es[i].key, d + 2) + JShape(es[i].value, d + 2)
         + EntriesShape(es, i + 1, d + 1)
  {
    MapShape(es, d);
    EntriesShapeSplit(es, i, d + 1);
    EntriesShapeStep(es, i, d + 1);
    RegroupAround([TypeNode(d, "Map")], EntriesShapeBefore(es, i, d + 1), EntryShape(es[i], d + 1),
      EntriesShape(es, i + 1, d + 1), TypeNode(d + 1, "Map.Entry"), JShape(es[i].key, d + 2), JShape(es[i].value, d + 2));
  }

  /**
   An object of a class with no mapping adds exactly one node, its class name
   with the unsupported marker at the current indent, and the conversion
   fails with the tree up to that node and the object's `toString()`.
   */
  lemma UnsupportedObject(className: string, shown: string, t: TypeTree)
    ensures ToPyObject(JOther(className, shown), t)
      == Err(Unsupported(t.nodes + [TypeNode(t.tab, className + UNSUPPORTED)], Some(shown)))
    ensures Marked(className + UNSUPPORTED)
  {
    MarkedLabel(className);
  }

  /**
   The elements of an `Object[]` or `Iterable` convert until the first one
   that does not: the conversion fails exactly as that element does, from the
   tree its predecessors left, and no later element is visited.
   */
  lemma {:induction false} ItemsStopAtFirstFailure(xs: seq<JVal>, i: nat, t: TypeTree)
    requires i < |xs| && AllConvertible(xs[..i]) && !Convertible(xs[i])
    ensures var at := TypeTree(t.tab, t.nodes + ItemsShape(xs[..i], t.tab));
      && ToPyObject(xs[i], at).Err?
      && ToPyItems(xs, t) == Err(ToPyObject(xs[i], at).failure)
    decreases i
  {
    if i == 0 {
      ItemsFailAtHead(xs, t);
    } else {
      var r0 := ToPyObject(xs[0], t);
      ItemsPrefixStep(xs, i, t.tab);
      assert r0.Ok? && r0.value.tree == TypeTree(t.tab, t.nodes + JShape(xs[0], t.tab)) by {
        ToPyObjectSound(xs[0], t);
      }
      var head, rest := JShape(xs[0], t.tab), ItemsShape(xs[1..][..i - 1], t.tab);
      var at := TypeTree(t.tab, t.nodes + ItemsShape(xs[..i], t.tab));
      assert TypeTree(r0.value.tree.tab, r0.value.tree.nodes + rest) == at by {
        assert t.nodes + head + rest == t.nodes + (head + rest);
      }
      ItemsStopAtFirstFailure(xs[1..], i - 1, r0.value.tree);
      ItemsAfterHead(xs, t);
    }
  }

  /** A first element that does not convert fails the whole sequence, from the starting tree. */
  lemma ItemsFailAtHead(xs: seq<JVal>, t: TypeTree)
    requires 0 < |xs| && !Convertible(xs[0])
    ensures ToPyObject(xs[0], TypeTree(t.tab, t.nodes + ItemsShape(xs[..0], t.tab))).Err?
    ensures ToPyItems(xs, t) == Err(ToPyObject(xs[0], TypeTree(t.tab, t.nodes + ItemsShape(xs[..0], t.tab))).failure)
  {
    assert ToPyObject(xs[0], t).Err? by {
      ToPyObjectSound(xs[0], t);
    }
    assert xs[..0] == [];
    assert t.nodes + ItemsShape(xs[..0], t.tab) == t.nodes;
    assert TypeTree(t.tab, t.nodes) == t;
  }

  /** Peeling the first element off a prefix that converts. */
  lemma ItemsPrefixStep(xs: seq<JVal>, i: nat, d: int)
    requires 0 < i < |xs| && AllConvertible(xs[..i])
    ensures Convertible(xs[0]) && AllConvertible(xs[1..][..i - 1]) && xs[1..][i - 1] == xs[i]
    ensures ItemsShape(xs[..i], d) == JShape(xs[0], d) + ItemsShape(xs[1..][..i - 1], d)
  {
    assert xs[..i][0] == xs[0];
    assert xs[..i][1..] == xs[1..][..i - 1];
    var pre := xs[1..][..i - 1];
    forall j | 0 <= j < |pre| ensures Convertible(pre[j]) {
      assert pre[j] == xs[..i][j + 1];
    }
  }

  /** After a head that converts, the elements fail exactly as the rest does. */
  lemma ItemsAfterHead(xs: seq<JVal>, t: TypeTree)
    requires |xs| > 0 && ToPyObject(xs[0], t).Ok?
    ensures var rest := ToPyItems(xs[1..], ToPyObject(xs[0], t).value.tree);
      rest.Err? ==> ToPyItems(xs, t) == Err(rest.failure)
  {
  }

  /**
   An unsupported object inside an `Object[]` or `Iterable`, after elements
   that all convert: the failure's tree is the container's node, the nodes of
   the elements before it one level deeper, and the marked node at that same
   level, and it carries the object's `toString()`.
   */
  lemma UnsupportedInsideArray(v: JVal, i: nat, t: TypeTree)
    requires v.JArray? || v.JIterable?
    requires i < |v.elements| && AllConvertible(v.elements[..i]) && v.elements[i].JOther?
    ensures ToPyObject(v, t) == Err(Unsupported(
      t.nodes + [TypeNode(t.tab, JavaLabel(v))] + ItemsShape(v.elements[..i], t.tab + 1)
        + [TypeNode(t.tab + 1, v.elements[i].className + UNSUPPORTED)],
      Some(v.elements[i].shown)))
  {
    var xs := v.elements;
    var t1 := t.AddType(JavaLabel(v)).Enter();
    ToPyListUnfold(v, xs, t);
    ItemsStopAtFirstFailure(xs, i, t1);
    var at := TypeTree(t1.tab, t1.nodes + ItemsShape(xs[..i], t1.tab));
    UnsupportedObject(xs[i].className, xs[i].shown, at);
  }

  /** A `byte[]` of any length becomes `bytes` with the same contents: this direction has no 2G check. */
  lemma ByteArrayNotLengthChecked(bytes: JavaBytes, t: TypeTree)
    ensures ToPyObject(JByteArray(bytes), t).Ok?
    ensures ToPyObject(JByteArray(bytes), t).value.value == PBytes(bytes)
  {
  }

  /** Every Java integral kind becomes the Python int of the same value. */
  lemma IntegralsWiden(v: JVal, t: TypeTree)
    requires v.JByte? || v.JCharacter? || v.JShort? || v.JInteger? || v.JLong?
    ensures ToPyObject(v, t).Ok?
    ensures ToPyObject(v, t).value.value == PInt(
      match v
      case JByte(x) => x as int
      case JCharacter(x) => x as int
      case JShort(x) => x as int
      case JInteger(x) => x as int
      case JLong(x) => x as int
      case _ => 0)
  {
  }

  /**
   The elements of an `Object[]` or `Iterable` land in the list at the same
   positions, each converted by the table.
   */
  lemma ListOrderPreserved(v: JVal, t: TypeTree)
    requires v.JArray? || v.JIterable?
    requires Convertible(v)
    ensures ToPyObject(v, t).Ok?
    ensures ToPyObject(v, t).value.value.PIterable?
    ensures |ToPyObject(v, t).value.value.drawn| == |v.elements|
    ensures forall i :: 0 <= i < |v.elements| ==> ToPyObject(v, t).value.value.drawn[i] == Image(v.elements[i])
  {
    ToPyObjectSound(v, t);
    ListImage(v, v.elements);
  }

  /**
   The entries of a map whose keys stay distinct in Python land in the dict in
   the map's iteration order.
   */
  lemma MapOrderPreserved(es: seq<JEntry>, t: TypeTree)
    requires Convertible(JMap(es))
    requires DistinctKeys(EntryImages(es))
    ensures ToPyObject(JMap(es), t).Ok?
    ensures ToPyObject(JMap(es), t).value.value == PDict(EntryImages(es))
  {
    ToPyObjectSound(JMap(es), t);
    MapImage(es);
    InsertAllKeepsOrder([], EntryImages(es));
    assert [] + EntryImages(es) == EntryImages(es);
  }
}
