/**
 Key semantics of the two associative containers the marshaller fills: a
 Python dict (`PyDict_SetItem`) and a Java `LinkedHashMap` (`put`). Both keep
 insertion order; both treat a key equal to one already present as an update
 of that entry in place, keeping the original key.
 */
module Keys {
  import opened Values
  import opened Outcomes
  import opened TypeTrees

  /**
   Whether CPython can hash the value, so that it can be a dict key.
   bytearray, dict, list and set are unhashable; a tuple is hashable when its
   items are; other objects hash by identity.
   */
  predicate Hashable(p: PVal) {
    match p
    case PByteArray(_) => false
    case PDict(_) => false
    case PIterable(typeName, xs) =>
      && typeName != "list"
      && typeName != "set"
      && (typeName == "tuple" ==> forall i :: 0 <= i < |xs| ==> Hashable(xs[i]))
    case _ => true
  }

  /** `bool` is a subclass of `int`: as a key, `True` is the same key as `1`. */
  predicate IsNumber(p: PVal) {
    p.PBool? || p.PInt?
  }

  function NumberOf(p: PVal): int
    requires IsNumber(p)
  {
    if p.PInt? then p.number else if p.truth then 1 else 0
  }

  /**
   Python's key equality on the values the Java side produces: bools and ints
   compare by value, everything else structurally. A float key is compared by
   its bit pattern, which is not Python's equality (`0.0 == -0.0`, `1 == 1.0`):
   the claims about whole dicts below therefore leave float keys out.
   */
  predicate SameKey(a: PVal, b: PVal) {
    if IsNumber(a) && IsNumber(b) then NumberOf(a) == NumberOf(b) else a == b
  }

  lemma SameKeyIsEquivalence()
    ensures forall a :: SameKey(a, a)
    ensures forall a, b :: SameKey(a, b) ==> SameKey(b, a)
    ensures forall a, b, c :: SameKey(a, b) && SameKey(b, c) ==> SameKey(a, c)
  {
  }

  /** Position of the entry whose key equals `k`, or -1. */
  function IndexOfKey(d: seq<PEntry>, k: PVal): (i: int)
    ensures -1 <= i < |d|
    ensures 0 <= i ==> SameKey(d[i].key, k)
    ensures forall j :: 0 <= j < |d| && (i < 0 || j < i) ==> !SameKey(d[j].key, k)
  {
    if |d| == 0 then -1
    else if SameKey(d[0].key, k) then 0
    else
      var j := IndexOfKey(d[1..], k);
      if j < 0 then -1 else j + 1
  }

  /** `d[k]` */
  function Lookup(d: seq<PEntry>, k: PVal): Option<PVal> {
    var i := IndexOfKey(d, k);
    if i < 0 then None else Some(d[i].value)
  }

  function KeysOf(d: seq<PEntry>): seq<PVal> {
    seq(|d|, i requires 0 <= i < |d| => d[i].key)
  }

  /** Two dicts with the same key sequence find every key at the same place. */
  lemma SameKeysSameIndex(d: seq<PEntry>, e: seq<PEntry>, k: PVal)
    requires KeysOf(d) == KeysOf(e)
    ensures IndexOfKey(d, k) == IndexOfKey(e, k)
  {
    assert |d| == |KeysOf(d)| == |e|;
    assert forall n :: 0 <= n < |d| ==> d[n].key == KeysOf(d)[n] == KeysOf(e)[n] == e[n].key;
  }

  /** `d[k] = v` on a hashable key. */
  function Assign(d: seq<PEntry>, k: PVal, v: PVal): seq<PEntry> {
    var i := IndexOfKey(d, k);
    if i < 0 then d + [PEntry(k, v)] else d[i := PEntry(d[i].key, v)]
  }

  /**
   After `d[k] = v`, `k` maps to `v` and every other key to what it mapped to
   before; a key already present keeps its position and its original key
   object, a new key goes at the end.
   */
  lemma AssignSemantics(d: seq<PEntry>, k: PVal, v: PVal)
    ensures forall k' {:trigger Lookup(Assign(d, k, v), k')} ::
      Lookup(Assign(d, k, v), k') == if SameKey(k', k) then Some(v) else Lookup(d, k')
    ensures KeysOf(Assign(d, k, v)) == if Lookup(d, k).Some? then KeysOf(d) else KeysOf(d) + [k]
  {
    var i := IndexOfKey(d, k);
    var r := Assign(d, k, v);
    if i < 0 {
      AppendedLookup(d, k, v);
      assert KeysOf(r) == KeysOf(d) + [k];
    } else {
      assert KeysOf(r) == KeysOf(d);
      SameKeyIsEquivalence();
      forall k' ensures Lookup(r, k') == if SameKey(k', k) then Some(v) else Lookup(d, k') {
        SameKeysSameIndex(r, d, k');
      }
    }
  }

  lemma AppendedLookup(d: seq<PEntry>, k: PVal, v: PVal)
    requires IndexOfKey(d, k) < 0
    ensures forall k' {:trigger Lookup(d + [PEntry(k, v)], k')} ::
      Lookup(d + [PEntry(k, v)], k') == if SameKey(k', k) then Some(v) else Lookup(d, k')
  {
    SameKeyIsEquivalence();
    var r := d + [PEntry(k, v)];
    forall k' ensures Lookup(r, k') == if SameKey(k', k) then Some(v) else Lookup(d, k') {
      var i, j := IndexOfKey(d, k'), IndexOfKey(r, k');
      if 0 <= i {
        assert r[i] == d[i];
      } else if SameKey(k', k) {
        assert SameKey(r[|d|].key, k');
      } else {
        assert forall m :: 0 <= m < |r| ==> !SameKey(r[m].key, k');
      }
    }
  }

  /**
   `PyDict_SetItem(dict, k, v)`: fails, leaving the dict alone, when `k` cannot
   be hashed; otherwise assigns. The tree is the one to report the failure with.
   */
  function SetItem(d: seq<PEntry>, k: PVal, v: PVal, tree: seq<TypeNode>): Result<seq<PEntry>> {
    if Hashable(k) then Ok(Assign(d, k, v)) else Err(UnhashableKey(tree))
  }

  /**
   Checking the status: a hashable key is stored, mapping to its value with
   every other key untouched, and an unhashable one is reported, not dropped.
   */
  lemma SetItemStores(d: seq<PEntry>, k: PVal, v: PVal, tree: seq<TypeNode>)
    ensures SetItem(d, k, v, tree).Ok? <==> Hashable(k)
    ensures SetItem(d, k, v, tree).Ok? ==> Lookup(SetItem(d, k, v, tree).value, k) == Some(v)
    ensures SetItem(d, k, v, tree).Ok? ==> forall k' {:trigger Lookup(d, k')} ::
      !SameKey(k', k) ==> Lookup(SetItem(d, k, v, tree).value, k') == Lookup(d, k')
    ensures SetItem(d, k, v, tree).Err? ==> SetItem(d, k, v, tree).failure == UnhashableKey(tree)
  {
    AssignSemantics(d, k, v);
    SameKeyIsEquivalence();
  }

  /**
   The map-to-dict loop as written: the status `PyDict_SetItem` returns is
   dropped, so the tree that would have gone into the report goes nowhere.
   */
  function SetItemIgnoringStatus(d: seq<PEntry>, k: PVal, v: PVal, tree: seq<TypeNode>): seq<PEntry> {
    match SetItem(d, k, v, tree)
    case Ok(e) => e
    case Err(_) => d
  }

  /** An entry whose key is a list vanishes from the dict without any error. */
  lemma ListKeyIsDroppedSilently(d: seq<PEntry>, items: seq<PVal>, v: PVal, tree: seq<TypeNode>)
    ensures SetItemIgnoringStatus(d, PIterable("list", items), v, tree) == d
    ensures SetItem(d, PIterable("list", items), v, tree) == Err(UnhashableKey(tree))
  {
  }

  /** Entries assigned one after another, left to right. */
  function InsertAll(d: seq<PEntry>, ps: seq<PEntry>): seq<PEntry>
    decreases |ps|
  {
    if |ps| == 0 then d else InsertAll(Assign(d, ps[0].key, ps[0].value), ps[1..])
  }

  /**
   No two keys are the same Python key, and none is a float, whose equality
   with other numbers `SameKey` does not capture.
   */
  predicate DistinctKeys(ps: seq<PEntry>) {
    && (forall i :: 0 <= i < |ps| ==> !ps[i].key.PFloat?)
    && forall i, j :: 0 <= i < j < |ps| ==> !SameKey(ps[i].key, ps[j].key)
  }

  /** Entries whose keys are pairwise distinct land in the dict in the order given. */
  lemma {:induction false} InsertAllKeepsOrder(d: seq<PEntry>, ps: seq<PEntry>)
    requires DistinctKeys(d + ps)
    ensures InsertAll(d, ps) == d + ps
    decreases |ps|
  {
    if |ps| > 0 {
      SameKeyIsEquivalence();
      assert (d + ps)[|d|] == ps[0];
      forall j | 0 <= j < |d| ensures !SameKey(d[j].key, ps[0].key) {
        assert (d + ps)[j] == d[j];
      }
      assert IndexOfKey(d, ps[0].key) < 0;
      var d' := d + [ps[0]];
      assert d' + ps[1..] == d + ps;
      InsertAllKeepsOrder(d', ps[1..]);
    }
  }

  /** `LinkedHashMap.put`: position of the entry whose key equals `k`, or -1. */
  function IndexOfJavaKey(m: seq<JEntry>, k: JVal): (i: int)
    ensures -1 <= i < |m|
    ensures 0 <= i ==> m[i].key == k
    ensures forall j :: 0 <= j < |m| && (i < 0 || j < i) ==> m[j].key != k
  {
    if |m| == 0 then -1
    else if m[0].key == k then 0
    else
      var j := IndexOfJavaKey(m[1..], k);
      if j < 0 then -1 else j + 1
  }

  function JavaLookup(m: seq<JEntry>, k: JVal): Option<JVal> {
    var i := IndexOfJavaKey(m, k);
    if i < 0 then None else Some(m[i].value)
  }

  /** `map.put(k, v)` on a `LinkedHashMap`. */
  function MapPut(m: seq<JEntry>, k: JVal, v: JVal): seq<JEntry> {
    var i := IndexOfJavaKey(m, k);
    if i < 0 then m + [JEntry(k, v)] else m[i := JEntry(m[i].key, v)]
  }

  /**
   After `map.put(k, v)`, `k` maps to `v` and every other key as before; a
   present key keeps its slot and its key object, a new one is appended.
   */
  lemma MapPutSemantics(m: seq<JEntry>, k: JVal, v: JVal)
    ensures JavaLookup(MapPut(m, k, v), k) == Some(v)
    ensures forall k' {:trigger JavaLookup(MapPut(m, k, v), k')} ::
      k' != k ==> JavaLookup(MapPut(m, k, v), k') == JavaLookup(m, k')
    ensures |MapPut(m, k, v)| == if JavaLookup(m, k).Some? then |m| else |m| + 1
    ensures forall j :: 0 <= j < |m| ==> MapPut(m, k, v)[j].key == m[j].key
  {
    var i := IndexOfJavaKey(m, k);
    var r := MapPut(m, k, v);
    if i < 0 {
      forall k' | k' != k ensures JavaLookup(r, k') == JavaLookup(m, k') {
        var a := IndexOfJavaKey(m, k');
        if 0 <= a { assert r[a] == m[a]; }
        else { assert forall n :: 0 <= n < |r| ==> r[n].key != k'; }
      }
      assert r[|m|].key == k;
    } else {
      assert forall j :: 0 <= j < |m| ==> r[j].key == m[j].key;
    }
  }

  function PutAll(m: seq<JEntry>, es: seq<JEntry>): seq<JEntry>
    decreases |es|
  {
    if |es| == 0 then m else PutAll(MapPut(m, es[0].key, es[0].value), es[1..])
  }

  predicate DistinctJavaKeys(es: seq<JEntry>) {
    forall i, j :: 0 <= i < j < |es| ==> es[i].key != es[j].key
  }

  /** Entries with pairwise distinct keys land in the `LinkedHashMap` in the order given. */
  lemma {:induction false} PutAllKeepsOrder(m: seq<JEntry>, es: seq<JEntry>)
    requires DistinctJavaKeys(m + es)
    ensures PutAll(m, es) == m + es
    decreases |es|
  {
    if |es| > 0 {
      assert (m + es)[|m|] == es[0];
      forall j | 0 <= j < |m| ensures m[j].key != es[0].key {
        assert (m + es)[j] == m[j];
      }
      assert IndexOfJavaKey(m, es[0].key) < 0;
      var m' := m + [es[0]];
      assert m' + es[1..] == m + es;
      PutAllKeepsOrder(m', es[1..]);
    }
  }
}
