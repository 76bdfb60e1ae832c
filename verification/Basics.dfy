module Basics {
  datatype Option<T> = None | Some(value: T)

  newtype byte = x: int | 0 <= x < 256

  ghost predicate Distinct<T>(s: seq<T>) {
    forall i, j :: 0 <= i < j < |s| ==> s[i] != s[j]
  }
}
