/** Small shared vocabulary used by every component model. */
module Common {

  /** A value that may be missing: an element `getElementById` did not find,
      a `find` that matched nothing. */
  datatype Option<+T> = None | Some(value: T)

  /** No value occurs twice; the property React relies on for list keys. */
  predicate Distinct<T(==)>(s: seq<T>) {
    forall i, j :: 0 <= i < j < |s| ==> s[i] != s[j]
  }

  /** In a sequence without repetitions a value sits at one index only. */
  lemma DistinctIndex<T>(s: seq<T>, i: int, j: int)
    requires Distinct(s)
    requires 0 <= i < |s| && 0 <= j < |s|
    requires s[i] == s[j]
    ensures i == j
  {
  }
}
