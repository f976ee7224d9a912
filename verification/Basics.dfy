/** Definitions shared by every module. */
module Basics {
  datatype Option<+T> = None | Some(value: T)

  datatype Result<+T, +E> = Ok(value: T) | Err(error: E)

  predicate NoDuplicates<T(==)>(s: seq<T>)
  {
    forall i, j :: 0 <= i < j < |s| ==> s[i] != s[j]
  }

  /** `order` lists the keys of `m`, each once: one possible iteration over the map. */
  ghost predicate IterationOrder<V>(order: seq<string>, m: map<string, V>)
  {
    && (forall n :: n in order <==> n in m)
    && NoDuplicates(order)
  }
}
