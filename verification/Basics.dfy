/** Small datatypes and sequence facts shared by every component. */
module Basics {

  datatype Option<+T> = None | Some(value: T)

  /** No value occurs twice. */
  ghost predicate Distinct<T>(s: seq<T>) {
    forall i, j :: 0 <= i < j < |s| ==> s[i] != s[j]
  }

  lemma Snoc<T>(s: seq<T>, t: seq<T>, x: T)
    ensures s + (t + [x]) == (s + t) + [x]
  {
  }

  function Min(a: int, b: int): (m: int)
    ensures m <= a && m <= b && (m == a || m == b)
  {
    if a < b then a else b
  }

  function Abs(n: int): (m: nat)
    ensures m == n || m == -n
  {
    if n < 0 then -n else n
  }

  /** Identifiers are drawn at random, and a draw is taken to be new; there always is a new one. */
  lemma SomeIdIsFree(used: set<string>)
    ensures exists id: string :: id !in used
  {
    var id, rest := "", used;
    while id in used
      invariant rest <= used
      invariant forall s :: s in used - rest ==> |s| < |id|
      decreases rest
    {
      assert id in rest by {
        assert id !in used - rest;
      }
      rest := rest - {id};
      id := id + "0";
    }
  }
}
