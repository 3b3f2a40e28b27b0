/** Small collection helpers shared by the protocol machines. */
module Collections {

  datatype Option<T> = None | Some(value: T)

  /** How often u occurs in xs. */
  function Count(xs: seq<nat>, u: nat): nat { multiset(xs)[u] }

  lemma CountConcat(xs: seq<nat>, ys: seq<nat>, u: nat)
    ensures Count(xs + ys, u) == Count(xs, u) + Count(ys, u)
  {
    assert multiset(xs + ys) == multiset(xs) + multiset(ys);
  }
}
