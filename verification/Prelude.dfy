/** What the modules share: results that may be missing, and lists without repetition. */
module Prelude {
  datatype Option<T> = None | Some(value: T)

  ghost predicate Distinct<T>(s: seq<T>) {
    forall k, m :: 0 <= k < m < |s| ==> s[k] != s[m]
  }
}
