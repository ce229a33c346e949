// What every module may use: optional values and duplicate-free sequences.
module Wrappers {
  datatype Option<+T> = None | Some(value: T)

  /** The first n elements are all different. */
  ghost predicate DistinctBelow<T>(s: seq<T>, n: nat)
    requires n <= |s|
  {
    forall i, j :: 0 <= i < j < n ==> s[i] != s[j]
  }

  ghost predicate Distinct<T>(s: seq<T>) { DistinctBelow(s, |s|) }
}
