/** What several modules share: optional values, and two notions about sequences. */
module Wrappers {
  datatype Option<+T> = None | Some(value: T)

  /** No element comes twice. */
  ghost predicate Distinct<T>(s: seq<T>) {
    forall i, j :: 0 <= i < j < |s| ==> s[i] != s[j]
  }

  /** The sequence without its element `k`. */
  function RemovedAt<T>(s: seq<T>, k: nat): seq<T>
    requires k < |s|
  {
    s[..k] + s[k + 1..]
  }
}
