/**
 The interpreter's global namespace as `get` and `put` use it: a map from
 variable names to Python objects. `put` converts a Java value and binds it;
 `get` looks a name up and converts the object back. Each call starts a fresh
 type tree.
 */
module Session {
  import opened Values
  import opened TypeTrees
  import opened Outcomes
  import J = JavaToPython
  import P = PythonToJava
  import R = RoundTrip

  /** The `globals` dict of the `__main__` module. */
  type Globals = map<string, PVal>

  /** `getPyObject(name)`: the bound object, or `NoSuchElementException`. */
  function GetPyObject(g: Globals, name: string): Result<PVal> {
    if name in g then Ok(g[name]) else Err(NoSuchElement(name))
  }

  /** `get(name)`: look the name up, then convert the object with a fresh tree. */
  function Get(g: Globals, name: string): Result<JVal> {
    var p :- GetPyObject(g, name);
    var s :- P.ToJava(p, NewTree());
    Ok(s.value)
  }

  /** `putPyObject(name, obj)`: bind the name, replacing any earlier binding. */
  function PutPyObject(g: Globals, name: string, p: PVal): Globals {
    g[name := p]
  }

  /**
   `put(name, value)`: convert with a fresh tree, then bind. When the
   conversion throws, nothing is bound.
   */
  function Put(g: Globals, name: string, v: JVal): Result<Globals> {
    var s :- J.ToPyObject(v, NewTree());
    Ok(PutPyObject(g, name, s.value))
  }

  /**
   `get` throws `NoSuchElementException` exactly when the name is unbound; a
   bound name either converts by the table or fails for a reason of the
   conversion.
   */
  lemma GetFailsIffUnbound(g: Globals, name: string)
    ensures Get(g, name).Err? && Get(g, name).failure == NoSuchElement(name) <==> name !in g
    ensures name in g ==>
      (Get(g, name).Ok? <==> P.Representable(g[name]))
    ensures name in g && Get(g, name).Ok? ==>
      P.Representable(g[name]) && Get(g, name).value == P.JImage(g[name])
  {
    if name in g {
      P.ToJavaSound(g[name], NewTree());
    }
  }

  /**
   `put` succeeds exactly when the value converts; it then binds the name to
   the converted object, and every other name keeps its binding or its absence.
   */
  lemma PutBinds(g: Globals, name: string, v: JVal)
    ensures Put(g, name, v).Ok? <==> J.Convertible(v)
    ensures Put(g, name, v).Ok? ==>
      J.Convertible(v) && name in Put(g, name, v).value && Put(g, name, v).value[name] == J.Image(v)
    ensures Put(g, name, v).Ok? ==> forall n :: n != name ==>
      (n in Put(g, name, v).value <==> n in g)
      && (n in g ==> Put(g, name, v).value[n] == g[n])
  {
    J.ToPyObjectSound(v, NewTree());
  }

  /** `put` leaves what `get` returns for every other name as it was. */
  lemma PutLeavesOtherNames(g: Globals, name: string, v: JVal, other: string)
    requires Put(g, name, v).Ok?
    requires other != name
    ensures Get(Put(g, name, v).value, other) == Get(g, other)
  {
    PutBinds(g, name, v);
    assert GetPyObject(Put(g, name, v).value, other) == GetPyObject(g, other);
  }

  /**
   `put` then `get` of the same name gives back the normal form of the value
   put, when its map keys stay distinct in Python.
   */
  lemma PutThenGet(g: Globals, name: string, v: JVal)
    requires J.Convertible(v) && R.KeysDistinct(v)
    ensures Put(g, name, v).Ok?
    ensures Get(Put(g, name, v).value, name) == Ok(R.Normalize(v))
  {
    PutBinds(g, name, v);
    R.RoundTrip(v, NewTree(), NewTree());
    J.ToPyObjectSound(v, NewTree());
  }
}
