/** What several modules say of plain lists. */
module Lists {

  ghost predicate NoRepeats<T>(xs: seq<T>) { forall i, j :: 0 <= i < j < |xs| ==> xs[i] != xs[j] }

  lemma FirstIsIn<T>(xs: seq<T>)
    ensures xs == [] || xs[0] in xs
  {
  }

  lemma TakeNext<T>(xs: seq<T>, i: nat)
    requires i < |xs|
    ensures xs[..i + 1] == xs[..i] + [xs[i]]
  {
  }

  lemma TakeAll<T>(xs: seq<T>)
    ensures xs[..|xs|] == xs
  {
  }

  /** A list without repeats is as long as the set of its members is large. */
  lemma {:induction false} DistinctCount<T>(xs: seq<T>, all: set<T>)
    requires NoRepeats(xs) && forall x :: x in xs <==> x in all
    ensures |xs| == |all|
  {
    if xs == [] {
      assert all == {};
    } else {
      var front, last := xs[..|xs| - 1], xs[|xs| - 1];
      assert xs == front + [last];
      DistinctCount(front, all - {last});
    }
  }
}
