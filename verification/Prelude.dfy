/** Small definitions shared by every part of the model. */
module Prelude {
  datatype Option<+T> = None | Some(value: T)

  /** An injective function maps a finite set onto an image of the same size. */
  lemma {:induction false} InjectiveImageSize<A, B>(s: set<A>, t: set<B>, f: A -> B)
    requires forall x, y :: x in s && y in s && f(x) == f(y) ==> x == y
    requires forall x :: x in s ==> f(x) in t
    requires forall y :: y in t ==> exists x :: x in s && f(x) == y
    ensures |s| == |t|
    decreases s
  {
    if s == {} {
      assert t == {};
    } else {
      var x :| x in s;
      InjectiveImageSize(s - {x}, t - {f(x)}, f);
    }
  }
}
