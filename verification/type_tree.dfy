/**
 The diagnostic type tree both conversions record while they walk a value.

 The builder class itself is not part of this model; what follows is what its
 uses imply. Each `addType` appends one node at the current indent, and every
 composite raises the indent before it recurses and lowers it afterwards.
 */
module TypeTrees {

  /** One line of the tree: a type name at an indent level. */
  datatype TypeNode = TypeNode(indent: int, name: string)

  /** The builder's state: the current indent (`tab`) and the nodes recorded so far. */
  datatype TypeTree = TypeTree(tab: int, nodes: seq<TypeNode>) {

    function AddType(name: string): TypeTree {
      TypeTree(tab, nodes + [TypeNode(tab, name)])
    }

    /** `tab++` */
    function Enter(): TypeTree {
      TypeTree(tab + 1, nodes)
    }

    /** `tab--` */
    function Leave(): TypeTree {
      TypeTree(tab - 1, nodes)
    }
  }

  /** `new TypeTreeBuilder(1)`: the argument is taken to be the starting indent. */
  const START_TAB: int := 1

  function NewTree(): TypeTree {
    TypeTree(START_TAB, [])
  }

  /** The suffix appended to the type name of a value that has no mapping. */
  const UNSUPPORTED: string := "  <- Unsupported"

  /** Regrouping the nodes of a composite: its own node, then its parts. */
  lemma Regroup<T>(a: seq<T>, x: T, b: seq<T>, c: seq<T>)
    ensures a + ([x] + b + c) == a + [x] + b + c
  {
  }

  /** Regrouping a composite's nodes around one part `e`, itself a node `x` followed by `k` and `w`. */
  lemma RegroupAround<T>(a: seq<T>, b: seq<T>, e: seq<T>, c: seq<T>, x: T, k: seq<T>, w: seq<T>)
    requires e == [x] + k + w
    ensures a + (b + (e + c)) == a + b + [x] + k + w + c
  {
  }

  /** A prefix one node longer than `a` that is a proper prefix of `c` makes `a` one too. */
  lemma PrefixStep<T>(a: seq<T>, b: seq<T>, c: seq<T>)
    requires |b| == |a| + 1 && a <= b && b < c
    ensures a < c
  {
  }

  /** A prefix stays a prefix when more nodes are recorded. */
  lemma PrefixGrows<T>(a: seq<T>, b: seq<T>, c: seq<T>)
    requires a <= b
    ensures a <= b + c
  {
    assert (b + c)[..|a|] == b[..|a|];
  }

  /** A node name that carries the unsupported marker. */
  predicate Marked(name: string) {
    |UNSUPPORTED| <= |name| && name[|name| - |UNSUPPORTED|..] == UNSUPPORTED
  }

  /** The last node recorded is the one for an unsupported value. */
  predicate EndsMarked(nodes: seq<TypeNode>) {
    |nodes| > 0 && Marked(nodes[|nodes| - 1].name)
  }

  lemma MarkedLabel(typeName: string)
    ensures Marked(typeName + UNSUPPORTED)
  {
    assert (typeName + UNSUPPORTED)[|typeName|..] == UNSUPPORTED;
  }
}
