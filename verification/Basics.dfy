/** Stock pieces that several modules use. */
module Basics {

  datatype Option<+T> = None | Some(value: T)

  lemma EmptyOrNot(s: set<int>)
    ensures s == {} || exists x :: x in s
  {
    if forall x :: x !in s {
      assert s == {};
    }
  }

  lemma TimesGrows(c: int, x: int, y: int)
    requires c >= 0
    ensures x <= y ==> c * x <= c * y
  {
    if x <= y {
      assert c * (y - x) >= 0;
    }
  }
}
