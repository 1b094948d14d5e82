/** Small pieces shared by the other modules. */
module Wrappers {

  datatype Option<+T> = None | Some(value: T)

  /** A set of ids that is not empty has an element to pick. */
  lemma EmptyOrSome(s: set<int>)
    ensures s == {} || exists x :: x in s
  {
    if forall x :: x !in s { assert s == {}; }
  }

}
