/** Sums over a list, for the measures of the searches. */
module Counting {

  function Count<T>(xs: seq<T>, f: T -> nat): nat {
    if xs == [] then 0 else f(xs[0]) + Count(xs[1..], f)
  }

  lemma {:induction false} CountUpdate<T>(xs: seq<T>, f: T -> nat, i: nat, to: T)
    requires i < |xs|
    ensures Count(xs[i := to], f) + f(xs[i]) == Count(xs, f) + f(to)
    decreases |xs|
  {
    if i > 0 {
      CountUpdate(xs[1..], f, i - 1, to);
      assert xs[i := to][1..] == xs[1..][i - 1 := to];
    } else {
      assert xs[i := to][1..] == xs[1..];
    }
  }
}
