/**
 The ways a marshalling call ends: a value together with the type tree as it
 stands afterwards, or one of the exceptions the bridge throws.
 */
module Outcomes {
  import opened Values
  import opened TypeTrees

  datatype Failure =
      /** "Cannot convert the ... object": the type tree up to and including the
          unsupported node, and the rendering of the value when there is one */
    | Unsupported(tree: seq<TypeNode>, rendering: Option<string>)
      /** "Cannot convert because the length is larger than 2G" */
    | TooLong(length: int)
      /** a Python int outside the range of a Java `long` */
    | IntOverflow(number: int)
      /** a map key whose Python form cannot be hashed, so no dict can hold it */
    | UnhashableKey(tree: seq<TypeNode>)
      /** `NoSuchElementException`: no global of that name */
    | NoSuchElement(name: string)

  datatype Result<+T> = Ok(value: T) | Err(failure: Failure) {

    predicate IsFailure() {
      Err?
    }

    function PropagateFailure<U>(): Result<U>
      requires Err?
    {
      Err(failure)
    }

    function Extract(): T
      requires Ok?
    {
      value
    }
  }

  /** A converted value and the type tree after its conversion. */
  datatype Step<+T> = Step(value: T, tree: TypeTree)

  /** True of the failures that carry a type tree. */
  predicate CarriesTree(f: Failure) {
    f.Unsupported? || f.UnhashableKey?
  }
}
