/** What several modules share: optional values, three-way results, a fact about sequences. */
module Basics {
  datatype Option<+T> = None | Some(value: T)

  /** Three-way results: negative, zero, positive. */
  function Sign(a: int, b: int): int {
    if a < b then -1 else if a > b then 1 else 0
  }

  /** Where an element is. */
  function IndexOf<T(==)>(s: seq<T>, x: T): (i: nat)
    requires x in s
    ensures i < |s| && s[i] == x
  {
    if s[0] == x then 0 else 1 + IndexOf(s[1..], x)
  }

  lemma Regroup<T>(a: seq<T>, b: seq<T>, c: seq<T>)
    ensures a + (b + c) == a + b + c && [] + b == b
  {
  }
}
