/** What several modules share: values that may be absent, and two notions of sequences. */
module Wrappers {
  datatype Option<+T> = None | Some(value: T)

  /** No element stands twice in the sequence. */
  ghost predicate NoTwice<T>(s: seq<T>)
  {
    forall i, j :: 0 <= i < j < |s| ==> s[i] != s[j]
  }

  function Reverse<T>(s: seq<T>): (r: seq<T>)
    ensures |r| == |s|
  {
    if s == [] then [] else Reverse(s[1..]) + [s[0]]
  }
}
