/**
 What survives a trip Java -> Python -> Java.

 `toJava(toPyObject(v))` does not give `v` back: every integral class comes
 back as a `Long`, a `Float` as a `Double`, an `Object[]` or any `Iterable`
 as an `ArrayList`, and a `Map` as a `LinkedHashMap`. `Normalize` names that
 Java value. The trip also loses entries when two keys of one map become the
 same Python key (`Integer` 1 and `Long` 1, `Boolean` true and `Integer` 1,
 or `Double` 0.0 and -0.0), so the round trip holds for values whose map keys
 stay distinct and are not floating-point.
 */
module RoundTrip {
  import opened Values
  import opened TypeTrees
  import opened Outcomes
  import opened Keys
  import J = JavaToPython
  import P = PythonToJava

  /** The Java value a supported `v` comes back as. */
  function Normalize(v: JVal): JVal {
    match v
    case JByte(x) => JLong(x as int64)
    case JCharacter(x) => JLong(x as int64)
    case JShort(x) => JLong(x as int64)
    case JInteger(x) => JLong(x as int64)
    case JFloat(f) => JDouble(f)
    case JMap(es) =>
      JMap(seq(|es|, i requires 0 <= i < |es| => JEntry(Normalize(es[i].key), Normalize(es[i].value))))
    case JArray(xs) => JIterable(ARRAY_LIST, seq(|xs|, i requires 0 <= i < |xs| => Normalize(xs[i])))
    case JIterable(_, xs) => JIterable(ARRAY_LIST, seq(|xs|, i requires 0 <= i < |xs| => Normalize(xs[i])))
    case _ => v
  }

  /**
   No map anywhere inside `v` has two keys that become the same Python key,
   nor a `Float` or `Double` key.
   */
  predicate KeysDistinct(v: JVal)
    requires J.Convertible(v)
  {
    match v
    case JMap(es) =>
      && DistinctKeys(J.EntryImages(es))
      && forall i :: 0 <= i < |es| ==> KeysDistinct(es[i].key) && KeysDistinct(es[i].value)
    case JArray(xs) => forall i :: 0 <= i < |xs| ==> KeysDistinct(xs[i])
    case JIterable(_, xs) => forall i :: 0 <= i < |xs| ==> KeysDistinct(xs[i])
    case _ => true
  }

  /**
   A map with a `Float` or `Double` key is outside `KeysDistinct`: Python
   merges equal numbers of different kinds, and `0.0` with `-0.0`.
   */
  lemma FloatKeysExcluded(es: seq<JEntry>, i: nat)
    requires J.Convertible(JMap(es))
    requires i < |es| && (es[i].key.JFloat? || es[i].key.JDouble?)
    ensures !KeysDistinct(JMap(es))
  {
    assert J.EntryImages(es)[i].key.PFloat?;
  }

  // ---------------------------------------------------------------------
  // Normalising changes nothing Python can see.

  /**
   A value and its normal form convert to the same Python object, and one is
   supported exactly when the other is.
   */
  lemma {:induction false} NormalizeInvisible(v: JVal)
    ensures J.Convertible(Normalize(v)) <==> J.Convertible(v)
    ensures J.Convertible(v) ==> J.Image(Normalize(v)) == J.Image(v)
    decreases v, 1
  {
    match v
    case JMap(es) => NormalizeInvisibleMap(es);
    case JArray(xs) => NormalizeInvisibleList(v, xs);
    case JIterable(_, xs) => NormalizeInvisibleList(v, xs);
    case _ =>
  }

  lemma {:induction false} NormalizeInvisibleList(v: JVal, xs: seq<JVal>)
    requires v == JArray(xs) || v.JIterable?
    requires v.elements == xs
    ensures J.Convertible(Normalize(v)) <==> J.Convertible(v)
    ensures J.Convertible(v) ==> J.Image(Normalize(v)) == J.Image(v)
    decreases v, 0
  {
    var ns := seq(|xs|, i requires 0 <= i < |xs| => Normalize(xs[i]));
    assert Normalize(v) == JIterable(ARRAY_LIST, ns);
    forall i | 0 <= i < |xs|
      ensures J.Convertible(ns[i]) <==> J.Convertible(xs[i])
      ensures J.Convertible(xs[i]) ==> J.Image(ns[i]) == J.Image(xs[i])
    {
      NormalizeInvisible(xs[i]);
    }
    if J.Convertible(v) {
      assert J.Images(ns) == J.Images(xs);
    }
  }

  lemma {:induction false} NormalizeInvisibleMap(es: seq<JEntry>)
    ensures J.Convertible(Normalize(JMap(es))) <==> J.Convertible(JMap(es))
    ensures J.Convertible(JMap(es)) ==> J.Image(Normalize(JMap(es))) == J.Image(JMap(es))
    decreases JMap(es), 0
  {
    var ns := seq(|es|, i requires 0 <= i < |es| => JEntry(Normalize(es[i].key), Normalize(es[i].value)));
    assert Normalize(JMap(es)) == JMap(ns);
    forall i | 0 <= i < |es|
      ensures EntryNormalizes(es[i], ns[i])
    {
      assert es[i] in es;
      NormalizeInvisibleEntry(es[i]);
    }
    J.MapImage(es);
    J.MapImage(ns);
    if J.Convertible(JMap(es)) {
      assert J.EntryImages(ns) == J.EntryImages(es);
    }
  }

  /** `n` is the normal form of the entry `e`, and Python sees no difference. */
  predicate EntryNormalizes(e: JEntry, n: JEntry) {
    && n == JEntry(Normalize(e.key), Normalize(e.value))
    && (J.Convertible(n.key) <==> J.Convertible(e.key))
    && (J.Convertible(n.value) <==> J.Convertible(e.value))
    && (J.KeyHashable(n.key) <==> J.KeyHashable(e.key))
    && (J.Convertible(e.key) ==> J.Image(n.key) == J.Image(e.key))
    && (J.Convertible(e.value) ==> J.Image(n.value) == J.Image(e.value))
  }

  lemma {:induction false} NormalizeInvisibleEntry(e: JEntry)
    ensures EntryNormalizes(e, JEntry(Normalize(e.key), Normalize(e.value)))
    decreases e, 2
  {
    NormalizeInvisible(e.key);
    NormalizeInvisible(e.value);
  }

  // ---------------------------------------------------------------------
  // Java -> Python -> Java.

  /**
   The Python image of a supported value with distinct map keys can always be
   brought back, and comes back as the normal form of the value: every map
   keeps its entries in their order.
   */
  lemma {:induction false} RoundTripImage(v: JVal)
    requires J.Convertible(v) && KeysDistinct(v)
    ensures P.Representable(J.Image(v))
    ensures P.JImage(J.Image(v)) == Normalize(v)
    decreases v, 2
  {
    match v
    case JMap(es) => RoundTripMap(es);
    case JArray(xs) => RoundTripList(v, xs);
    case JIterable(_, xs) => RoundTripList(v, xs);
    case _ =>
  }

  lemma {:induction false} RoundTripList(v: JVal, xs: seq<JVal>)
    requires v == JArray(xs) || v.JIterable?
    requires v.elements == xs
    requires J.Convertible(v) && KeysDistinct(v)
    ensures P.Representable(J.Image(v))
    ensures P.JImage(J.Image(v)) == Normalize(v)
    decreases v, 0
  {
    var ps := J.Images(xs);
    assert J.Image(v) == PIterable("list", ps);
    forall i | 0 <= i < |xs|
      ensures P.Representable(ps[i]) && P.JImage(ps[i]) == Normalize(xs[i])
    {
      RoundTripImage(xs[i]);
    }
    assert P.JImages(ps) == seq(|xs|, i requires 0 <= i < |xs| => Normalize(xs[i]));
  }

  lemma {:induction false} RoundTripMap(es: seq<JEntry>)
    requires J.Convertible(JMap(es)) && KeysDistinct(JMap(es))
    ensures P.Representable(J.Image(JMap(es)))
    ensures P.JImage(J.Image(JMap(es))) == Normalize(JMap(es))
    decreases JMap(es), 1
  {
    var items := J.EntryImages(es);
    var ns := Normalize(JMap(es)).entries;
    MapImageInOrder(es);
    RoundTripItems(es);
    NormalKeysDistinct(es);
    P.DictImage(items);
    PutAllKeepsOrder([], ns);
    assert [] + ns == ns;
  }

  /** A map whose keys stay distinct becomes the dict of its entries' images, in order. */
  lemma MapImageInOrder(es: seq<JEntry>)
    requires J.Convertible(JMap(es)) && KeysDistinct(JMap(es))
    ensures J.Image(JMap(es)) == PDict(J.EntryImages(es))
  {
    J.MapImage(es);
    InsertAllKeepsOrder([], J.EntryImages(es));
    assert [] + J.EntryImages(es) == J.EntryImages(es);
  }

  /** Each entry image comes back as the normalised entry. */
  lemma {:induction false} RoundTripItems(es: seq<JEntry>)
    requires J.Convertible(JMap(es)) && KeysDistinct(JMap(es))
    ensures P.ItemsRepresentable(J.EntryImages(es))
    ensures P.ItemImages(J.EntryImages(es)) == Normalize(JMap(es)).entries
    decreases JMap(es), 0
  {
    var items := J.EntryImages(es);
    var ns := Normalize(JMap(es)).entries;
    forall i | 0 <= i < |es|
      ensures P.Representable(items[i].key) && P.Representable(items[i].value)
      ensures JEntry(P.JImage(items[i].key), P.JImage(items[i].value)) == ns[i]
    {
      assert es[i] in es;
      RoundTripEntry(es[i]);
    }
  }

  /** Keys that stay distinct in Python stay distinct in their normal form. */
  lemma NormalKeysDistinct(es: seq<JEntry>)
    requires J.Convertible(JMap(es)) && KeysDistinct(JMap(es))
    ensures DistinctJavaKeys(Normalize(JMap(es)).entries)
  {
    var items := J.EntryImages(es);
    var ns := Normalize(JMap(es)).entries;
    assert DistinctKeys(items);
    forall i, j | 0 <= i < j < |ns| ensures ns[i].key != ns[j].key {
      assert !SameKey(items[i].key, items[j].key);
      DistinctKeysStayDistinct(es[i].key, es[j].key);
    }
  }

  lemma {:induction false} RoundTripEntry(e: JEntry)
    requires J.Convertible(e.key) && J.Convertible(e.value)
    requires KeysDistinct(e.key) && KeysDistinct(e.value)
    ensures P.Representable(J.Image(e.key)) && P.Representable(J.Image(e.value))
    ensures P.JImage(J.Image(e.key)) == Normalize(e.key)
    ensures P.JImage(J.Image(e.value)) == Normalize(e.value)
    decreases e, 2
  {
    RoundTripImage(e.key);
    RoundTripImage(e.value);
  }

  /** Keys that are different Python keys have different normal forms. */
  lemma DistinctKeysStayDistinct(a: JVal, b: JVal)
    requires J.Convertible(a) && J.Convertible(b)
    requires !SameKey(J.Image(a), J.Image(b))
    ensures Normalize(a) != Normalize(b)
  {
    NormalizeInvisible(a);
    NormalizeInvisible(b);
    SameKeyIsEquivalence();
  }

  /**
   `toJava(toPyObject(v))`: both conversions succeed, whatever the trees they
   start from, and the Java value that comes back is the normal form of `v`.
   */
  lemma RoundTrip(v: JVal, t: TypeTree, t': TypeTree)
    requires J.Convertible(v) && KeysDistinct(v)
    ensures J.ToPyObject(v, t).Ok?
    ensures P.ToJava(J.ToPyObject(v, t).value.value, t').Ok?
    ensures P.ToJava(J.ToPyObject(v, t).value.value, t').value.value == Normalize(v)
  {
    J.ToPyObjectSound(v, t);
    RoundTripImage(v);
    P.ToJavaSound(J.Image(v), t');
  }

  // ---------------------------------------------------------------------
  // What `toJava` produces is already in normal form.

  /**
   The classes `toJava` creates: no Byte, Character, Short, Integer, Float,
   array or foreign object, and every list an `ArrayList`, all the way down.
   */
  predicate Normal(v: JVal) {
    match v
    case JByte(_) => false
    case JCharacter(_) => false
    case JShort(_) => false
    case JInteger(_) => false
    case JFloat(_) => false
    case JArray(_) => false
    case JOther(_, _) => false
    case JMap(es) => forall i :: 0 <= i < |es| ==> Normal(es[i].key) && Normal(es[i].value)
    case JIterable(c, xs) => c == ARRAY_LIST && forall i :: 0 <= i < |xs| ==> Normal(xs[i])
    case _ => true
  }

  predicate NormalEntries(es: seq<JEntry>) {
    forall i :: 0 <= i < |es| ==> Normal(es[i].key) && Normal(es[i].value)
  }

  /** Normalising a value in normal form gives it back unchanged. */
  lemma {:induction false} NormalFixed(v: JVal)
    requires Normal(v)
    ensures Normalize(v) == v
    decreases v, 1
  {
    match v
    case JMap(es) => NormalFixedMap(es);
    case JIterable(_, xs) =>
      forall i | 0 <= i < |xs| ensures Normalize(xs[i]) == xs[i] {
        NormalFixed(xs[i]);
      }
      assert Normalize(v).elements == xs;
    case _ =>
  }

  lemma {:induction false} NormalFixedMap(es: seq<JEntry>)
    requires Normal(JMap(es))
    ensures Normalize(JMap(es)) == JMap(es)
    decreases JMap(es), 0
  {
    forall i | 0 <= i < |es| ensures Normalize(JMap(es)).entries[i] == es[i] {
      assert es[i] in es;
      NormalFixedEntry(es[i]);
    }
  }

  lemma {:induction false} NormalFixedEntry(e: JEntry)
    requires Normal(e.key) && Normal(e.value)
    ensures JEntry(Normalize(e.key), Normalize(e.value)) == e
    decreases e, 2
  {
    NormalFixed(e.key);
    NormalFixed(e.value);
  }

  /** Every value `toJava` builds is in normal form. */
  lemma {:induction false} JImageNormal(p: PVal)
    requires P.Representable(p)
    ensures Normal(P.JImage(p))
    decreases p, 1
  {
    match p
    case PDict(items) => JImageNormalDict(items);
    case PIterable(_, xs) =>
      forall i | 0 <= i < |xs| ensures Normal(P.JImages(xs)[i]) {
        JImageNormal(xs[i]);
      }
      P.IterableImage(p, xs);
    case _ =>
  }

  lemma {:induction false} JImageNormalDict(items: seq<PEntry>)
    requires P.Representable(PDict(items))
    ensures Normal(P.JImage(PDict(items)))
    decreases PDict(items), 0
  {
    P.DictImage(items);
    var es := P.ItemImages(items);
    forall i | 0 <= i < |items| ensures Normal(es[i].key) && Normal(es[i].value) {
      assert items[i] in items;
      JImageNormalItem(items[i]);
    }
    PutAllKeepsNormal([], es);
  }

  lemma {:induction false} JImageNormalItem(e: PEntry)
    requires P.Representable(e.key) && P.Representable(e.value)
    ensures Normal(P.JImage(e.key)) && Normal(P.JImage(e.value))
    decreases e, 2
  {
    JImageNormal(e.key);
    JImageNormal(e.value);
  }

  /** `put` only ever stores keys and values it is given. */
  lemma {:induction false} PutAllKeepsNormal(m: seq<JEntry>, es: seq<JEntry>)
    requires NormalEntries(m) && NormalEntries(es)
    ensures NormalEntries(PutAll(m, es))
    decreases |es|
  {
    if |es| > 0 {
      var m' := MapPut(m, es[0].key, es[0].value);
      MapPutSemantics(m, es[0].key, es[0].value);
      assert NormalEntries(m');
      PutAllKeepsNormal(m', es[1..]);
    }
  }
}
