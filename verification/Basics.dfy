/** What several modules share: optional values, and two facts the verifier does not find by itself. */
module Basics {

  datatype Option<+T> = None | Some(value: T)

  lemma Assoc<T>(a: seq<T>, b: seq<T>, c: seq<T>)
    ensures a + (b + c) == a + b + c
  {
  }

  lemma MulLessEq(a: nat, b: nat, c: nat)
    requires b <= c
    ensures a * b <= a * c
  {
  }
}
