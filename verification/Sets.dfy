/** Ordered sets of positions and ids. */
module Sets {
  /** Where an ordered traversal starts. */
  method First(s: set<nat>) returns (r: nat)
    requires s != {}
    ensures r in s && forall x :: x in s ==> r <= x
  {
    ghost var w :| w in s;
    r := 0;
    while r !in s
      invariant r <= w && forall x :: x in s ==> r <= x
      decreases w - r
    {
      r := r + 1;
    }
  }
}
