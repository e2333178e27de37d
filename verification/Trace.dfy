/** Flattening a call trace into one list with depths and child indices, in `src/decoder.rs`,
    and building the calls back from it. */
module Trace {

  /** A call with the calls it made; `info` is everything else shown of it. */
  datatype Call = Call(info: nat, calls: seq<Call>)

  datatype Flat = Flat(info: nat, depth: nat, children: seq<nat>)

  function Size(c: Call): (n: nat)
    ensures n >= 1
    decreases c, 1
  {
    1 + Sizes(c.calls)
  }

  function Sizes(cs: seq<Call>): nat
    decreases cs, 0
  {
    if cs == [] then 0 else Size(cs[0]) + Sizes(cs[1..])
  }

  /** A call's info, then its calls' in the order they were made. */
  function PreOrder(c: Call): seq<nat>
    decreases c, 1
  {
    [c.info] + PreOrders(c.calls)
  }

  function PreOrders(cs: seq<Call>): seq<nat>
    decreases cs, 0
  {
    if cs == [] then [] else PreOrder(cs[0]) + PreOrders(cs[1..])
  }

  function Infos(fs: seq<Flat>): (infos: seq<nat>)
    ensures |infos| == |fs| && forall i :: 0 <= i < |fs| ==> infos[i] == fs[i].info
  {
    seq(|fs|, i requires 0 <= i < |fs| => fs[i].info)
  }

  /** Where each of `cs` starts when they are laid out one after another from `base`. */
  function Starts(cs: seq<Call>, base: nat): seq<nat> {
    if cs == [] then [] else [base] + Starts(cs[1..], base + Size(cs[0]))
  }

  /** A call laid out from index `base`: itself, then its calls in order. */
  function Flattened(c: Call, depth: nat, base: nat): (fs: seq<Flat>)
    ensures |fs| == Size(c)
    decreases c, 1
  {
    [Flat(c.info, depth, Starts(c.calls, base + 1))] + FlattenedAll(c.calls, depth + 1, base + 1)
  }

  function FlattenedAll(cs: seq<Call>, depth: nat, base: nat): (fs: seq<Flat>)
    ensures |fs| == Sizes(cs)
    decreases cs, 0
  {
    if cs == [] then []
    else Flattened(cs[0], depth, base) + FlattenedAll(cs[1..], depth, base + Size(cs[0]))
  }

  /** Push the node, walk its calls, then patch the entry with where they began. */
  method WalkTrace(c: Call, depth: nat, before: seq<Flat>) returns (result: seq<Flat>)
    ensures result == before + Flattened(c, depth, |before|)
    ensures Infos(result) == Infos(before) + PreOrder(c)
    decreases c
  {
    var idx := |before|;
    result := before + [Flat(c.info, depth, [])];
    ghost var pushed := result;
    var childIndices: seq<nat> := [];
    for i := 0 to |c.calls|
      invariant result == pushed + FlattenedAll(c.calls[..i], depth + 1, idx + 1)
      invariant childIndices == Starts(c.calls[..i], idx + 1)
    {
      WalkedNext(pushed, c.calls, i, depth + 1);
      childIndices := childIndices + [|result|];
      result := WalkTrace(c.calls[i], depth + 1, result);
    }
    assert c.calls[..|c.calls|] == c.calls;
    result := result[idx := result[idx].(children := childIndices)];
    InfosArePreOrder(c, depth, |before|);
  }

  lemma {:induction false} InfosArePreOrder(c: Call, depth: nat, base: nat)
    ensures Infos(Flattened(c, depth, base)) == PreOrder(c)
    decreases c, 1
  {
    InfosArePreOrders(c.calls, depth + 1, base + 1);
  }

  lemma {:induction false} InfosArePreOrders(cs: seq<Call>, depth: nat, base: nat)
    ensures Infos(FlattenedAll(cs, depth, base)) == PreOrders(cs)
    decreases cs, 0
  {
    if cs != [] {
      InfosArePreOrder(cs[0], depth, base);
      InfosArePreOrders(cs[1..], depth, base + Size(cs[0]));
    }
  }

  /** What walking one more of `cs` appends, after `pushed` and the calls before it. */
  lemma WalkedNext(pushed: seq<Flat>, cs: seq<Call>, i: nat, depth: nat)
    requires i < |cs|
    ensures
      var (base, walked) := (|pushed|, pushed + FlattenedAll(cs[..i], depth, |pushed|));
      && pushed + FlattenedAll(cs[..i + 1], depth, base) == walked + Flattened(cs[i], depth, |walked|)
      && Starts(cs[..i + 1], base) == Starts(cs[..i], base) + [|walked|]
  {
    assert cs[..i + 1] == cs[..i] + [cs[i]];
    LayoutSnoc(cs[..i], cs[i], depth, |pushed|);
  }

  /** Flatten one trace, or a list of them, from depth 0. */
  method FlattenTrace(nodes: seq<Call>) returns (result: seq<Flat>)
    ensures result == FlattenedAll(nodes, 0, 0)
    ensures Infos(result) == PreOrders(nodes)
  {
    result := [];
    for i := 0 to |nodes|
      invariant result == FlattenedAll(nodes[..i], 0, 0)
    {
      assert nodes[..i + 1] == nodes[..i] + [nodes[i]];
      LayoutSnoc(nodes[..i], nodes[i], 0, 0);
      result := WalkTrace(nodes[i], 0, result);
    }
    assert nodes[..|nodes|] == nodes;
    InfosArePreOrders(nodes, 0, 0);
  }

  lemma LayoutSnoc(cs: seq<Call>, c: Call, depth: nat, base: nat)
    ensures FlattenedAll(cs + [c], depth, base) == FlattenedAll(cs, depth, base) + Flattened(c, depth, base + Sizes(cs))
    ensures Starts(cs + [c], base) == Starts(cs, base) + [base + Sizes(cs)]
    ensures Sizes(cs + [c]) == Sizes(cs) + Size(c)
  {
    FlatSnoc(cs, c, depth, base);
    StartsSnoc(cs, c, base);
  }

  lemma {:induction false} FlatSnoc(cs: seq<Call>, c: Call, depth: nat, base: nat)
    ensures FlattenedAll(cs + [c], depth, base) == FlattenedAll(cs, depth, base) + Flattened(c, depth, base + Sizes(cs))
  {
    if cs == [] {
      assert [] + [c] == [c];
      FlatOne(c, depth, base);
    } else {
      assert (cs + [c])[1..] == cs[1..] + [c];
      FlatSnoc(cs[1..], c, depth, base + Size(cs[0]));
      FlatCons(cs, depth, base);
      FlatCons(cs + [c], depth, base);
    }
  }

  lemma FlatOne(c: Call, depth: nat, base: nat)
    ensures FlattenedAll([c], depth, base) == Flattened(c, depth, base)
  {
  }

  lemma FlatCons(cs: seq<Call>, depth: nat, base: nat)
    requires cs != []
    ensures FlattenedAll(cs, depth, base) ==
            Flattened(cs[0], depth, base) + FlattenedAll(cs[1..], depth, base + Size(cs[0]))
  {
  }

  lemma {:induction false} StartsSnoc(cs: seq<Call>, c: Call, base: nat)
    ensures Starts(cs + [c], base) == Starts(cs, base) + [base + Sizes(cs)]
    ensures Sizes(cs + [c]) == Sizes(cs) + Size(c)
  {
    if cs == [] {
      assert [] + [c] == [c] && [c][1..] == [];
    } else {
      assert (cs + [c])[1..] == cs[1..] + [c];
      StartsSnoc(cs[1..], c, base + Size(cs[0]));
    }
  }

  // ------------------------------------------------------------ rebuilding

  /** Child indices point forward and stay in the list. */
  ghost predicate Forward(fs: seq<Flat>) {
    forall i, k :: 0 <= i < |fs| && 0 <= k < |fs[i].children| ==> i < fs[i].children[k] < |fs|
  }

  /** The call an entry heads, read off the list by child indices alone. */
  function Rebuilt(fs: seq<Flat>, idx: nat): Call
    requires Forward(fs) && idx < |fs|
    decreases |fs| - idx, 0
  {
    Call(fs[idx].info, RebuiltAll(fs, idx, 0))
  }

  function RebuiltAll(fs: seq<Flat>, idx: nat, from: nat): seq<Call>
    requires Forward(fs) && idx < |fs| && from <= |fs[idx].children|
    decreases |fs| - idx - 1, 1, |fs[idx].children| - from
  {
    if from == |fs[idx].children| then []
    else [Rebuilt(fs, fs[idx].children[from])] + RebuiltAll(fs, idx, from + 1)
  }

  /** The list `fs` holds the layout of `c` at `at`. */
  ghost predicate Holds(fs: seq<Flat>, at: nat, part: seq<Flat>) {
    at + |part| <= |fs| && fs[at..at + |part|] == part
  }

  lemma HoldsParts(fs: seq<Flat>, at: nat, x: seq<Flat>, y: seq<Flat>)
    requires Holds(fs, at, x + y)
    ensures Holds(fs, at, x) && Holds(fs, at + |x|, y)
  {
    var all := fs[at..at + |x + y|];
    assert all[..|x|] == x && all[|x|..] == y;
  }

  lemma {:induction false} StartsCount(cs: seq<Call>, base: nat)
    ensures |Starts(cs, base)| == |cs|
    ensures forall k :: 0 <= k < |cs| ==> base <= Starts(cs, base)[k] && Starts(cs, base)[k] + Size(cs[k]) <= base + Sizes(cs)
  {
    if cs != [] { StartsCount(cs[1..], base + Size(cs[0])); }
  }

  /** Rebuilding at the place where a call is laid out gives back the call. */
  lemma {:induction false} RebuiltIs(fs: seq<Flat>, c: Call, depth: nat, at: nat)
    requires Forward(fs) && Holds(fs, at, Flattened(c, depth, at))
    ensures at < |fs| && Rebuilt(fs, at) == c
    decreases c, 1
  {
    var head := Flat(c.info, depth, Starts(c.calls, at + 1));
    HoldsParts(fs, at, [head], FlattenedAll(c.calls, depth + 1, at + 1));
    assert fs[at..at + 1][0] == head;
    StartsCount(c.calls, at + 1);
    RebuiltAllIs(fs, c.calls, depth + 1, at, 0, at + 1);
  }

  /** The calls laid out from `base` are those the entry at `at` lists from its `from`-th child on. */
  lemma {:induction false} RebuiltAllIs(fs: seq<Flat>, cs: seq<Call>, depth: nat, at: nat, from: nat, base: nat)
    requires Forward(fs) && at < |fs| && |fs[at].children| == from + |cs|
    requires fs[at].children[from..] == Starts(cs, base)
    requires Holds(fs, base, FlattenedAll(cs, depth, base))
    ensures RebuiltAll(fs, at, from) == cs
    decreases cs, 0
  {
    if cs != [] {
      var mid := base + Size(cs[0]);
      assert fs[at].children[from] == base by { assert fs[at].children[from..][0] == base; }
      HoldsParts(fs, base, Flattened(cs[0], depth, base), FlattenedAll(cs[1..], depth, mid));
      RebuiltIs(fs, cs[0], depth, base);
      assert fs[at].children[from + 1..] == fs[at].children[from..][1..] == Starts(cs[1..], mid);
      RebuiltAllIs(fs, cs[1..], depth, at, from + 1, mid);
    }
  }

  // --------------------------------------------------------------- shape

  /** Entries `at..at+n` of a list laid out from `at`: child indices point forward within it. */
  lemma {:induction false} ChildrenAreWithin(c: Call, depth: nat, at: nat)
    ensures forall i, k :: 0 <= i < Size(c) && 0 <= k < |Flattened(c, depth, at)[i].children| ==>
      at + i < Flattened(c, depth, at)[i].children[k] < at + Size(c)
    decreases c, 1
  {
    StartsCount(c.calls, at + 1);
    ChildrenAreWithinAll(c.calls, depth + 1, at + 1);
  }

  lemma {:induction false} ChildrenAreWithinAll(cs: seq<Call>, depth: nat, at: nat)
    ensures forall i, k :: 0 <= i < Sizes(cs) && 0 <= k < |FlattenedAll(cs, depth, at)[i].children| ==>
      at + i < FlattenedAll(cs, depth, at)[i].children[k] < at + Sizes(cs)
    decreases cs, 0
  {
    if cs != [] {
      ChildrenAreWithin(cs[0], depth, at);
      ChildrenAreWithinAll(cs[1..], depth, at + Size(cs[0]));
    }
  }

  lemma FlattenedIsForward(cs: seq<Call>, depth: nat)
    ensures Forward(FlattenedAll(cs, depth, 0))
  {
    ChildrenAreWithinAll(cs, depth, 0);
  }

  /** The roots of a forest, rebuilt one by one. */
  function RebuiltForest(fs: seq<Flat>, roots: seq<nat>): seq<Call>
    requires Forward(fs) && forall k :: 0 <= k < |roots| ==> roots[k] < |fs|
  {
    if roots == [] then [] else [Rebuilt(fs, roots[0])] + RebuiltForest(fs, roots[1..])
  }

  lemma {:induction false} ForestFrom(fs: seq<Flat>, cs: seq<Call>, depth: nat, at: nat)
    requires Forward(fs) && Holds(fs, at, FlattenedAll(cs, depth, at))
    ensures forall k :: 0 <= k < |Starts(cs, at)| ==> Starts(cs, at)[k] < |fs|
    ensures RebuiltForest(fs, Starts(cs, at)) == cs
  {
    StartsCount(cs, at);
    if cs != [] {
      HoldsParts(fs, at, Flattened(cs[0], depth, at), FlattenedAll(cs[1..], depth, at + Size(cs[0])));
      RebuiltIs(fs, cs[0], depth, at);
      ForestFrom(fs, cs[1..], depth, at + Size(cs[0]));
      assert Starts(cs, at)[1..] == Starts(cs[1..], at + Size(cs[0]));
    }
  }

  /** The entries of a list laid out from `base` that stand at `depth`, in order. */
  function AtDepth(fs: seq<Flat>, base: nat, depth: nat): seq<nat> {
    if fs == [] then [] else (if fs[0].depth == depth then [base] else []) + AtDepth(fs[1..], base + 1, depth)
  }

  /** The roots of a flat list: its entries at depth 0. */
  function Roots(fs: seq<Flat>): seq<nat> { AtDepth(fs, 0, 0) }

  lemma {:induction false} AtDepthJoin(x: seq<Flat>, y: seq<Flat>, base: nat, depth: nat)
    ensures AtDepth(x + y, base, depth) == AtDepth(x, base, depth) + AtDepth(y, base + |x|, depth)
  {
    if x == [] {
      assert x + y == y;
    } else {
      assert (x + y)[1..] == x[1..] + y;
      AtDepthJoin(x[1..], y, base + 1, depth);
    }
  }

  lemma {:induction false} NoneAtDepth(fs: seq<Flat>, base: nat, depth: nat)
    requires forall i :: 0 <= i < |fs| ==> fs[i].depth > depth
    ensures AtDepth(fs, base, depth) == []
  {
    if fs != [] { NoneAtDepth(fs[1..], base + 1, depth); }
  }

  lemma {:induction false} CallGoesDeeper(c: Call, depth: nat, base: nat)
    ensures forall i :: 0 <= i < Size(c) ==> Flattened(c, depth, base)[i].depth >= depth
    decreases c, 1
  {
    CallsGoDeeper(c.calls, depth + 1, base + 1);
  }

  lemma {:induction false} CallsGoDeeper(cs: seq<Call>, depth: nat, base: nat)
    ensures forall i :: 0 <= i < Sizes(cs) ==> FlattenedAll(cs, depth, base)[i].depth >= depth
    decreases cs, 0
  {
    if cs != [] {
      CallGoesDeeper(cs[0], depth, base);
      CallsGoDeeper(cs[1..], depth, base + Size(cs[0]));
    }
  }

  lemma OneAtItsDepth(c: Call, depth: nat, base: nat)
    ensures AtDepth(Flattened(c, depth, base), base, depth) == [base]
  {
    CallsGoDeeper(c.calls, depth + 1, base + 1);
    NoneAtDepth(FlattenedAll(c.calls, depth + 1, base + 1), base + 1, depth);
  }

  /** The entries at the top depth of a layout are where its calls start. */
  lemma {:induction false} TopAreStarts(cs: seq<Call>, depth: nat, base: nat)
    ensures AtDepth(FlattenedAll(cs, depth, base), base, depth) == Starts(cs, base)
  {
    if cs != [] {
      var mid := base + Size(cs[0]);
      FlatCons(cs, depth, base);
      AtDepthJoin(Flattened(cs[0], depth, base), FlattenedAll(cs[1..], depth, mid), base, depth);
      OneAtItsDepth(cs[0], depth, base);
      TopAreStarts(cs[1..], depth, mid);
    }
  }

  /** Round trip: the forest comes back from its flat list alone, roots by depth and the rest by
      child indices; the list has one entry a call. */
  lemma FlattenRoundTrips(forest: seq<Call>)
    ensures
      var fs := FlattenedAll(forest, 0, 0);
      && |fs| == Sizes(forest) && Forward(fs)
      && (forall k :: 0 <= k < |Roots(fs)| ==> Roots(fs)[k] < |fs|)
      && RebuiltForest(fs, Roots(fs)) == forest
  {
    var fs := FlattenedAll(forest, 0, 0);
    FlattenedIsForward(forest, 0);
    assert fs[0..|fs|] == fs;
    TopAreStarts(forest, 0, 0);
    ForestFrom(fs, forest, 0, 0);
  }

  // ------------------------------------------------- depth and parenthood

  /** `j` is listed as a child of `i`. */
  predicate Parent(fs: seq<Flat>, base: nat, i: int, j: int) {
    base <= i < base + |fs| && j in fs[i - base].children
  }

  /** In a list laid out from `base`: each entry is a root at `depth`, or has exactly one parent,
      earlier and one level above. */
  ghost predicate WellNested(fs: seq<Flat>, base: nat, depth: nat, roots: seq<nat>) {
    && (forall j :: j in roots ==> base <= j < base + |fs| && fs[j - base].depth == depth)
    && (forall i, j :: Parent(fs, base, i, j) ==>
          i < j < base + |fs| && fs[j - base].depth == fs[i - base].depth + 1 && j !in roots)
    && (forall j :: base <= j < base + |fs| && j !in roots ==> exists i :: Parent(fs, base, i, j))
    && (forall i, i', j :: Parent(fs, base, i, j) && Parent(fs, base, i', j) ==> i == i')
  }

  lemma {:induction false} CallIsNested(c: Call, depth: nat, base: nat)
    ensures WellNested(Flattened(c, depth, base), base, depth, [base])
    decreases c, 1
  {
    CallsAreNested(c.calls, depth + 1, base + 1);
    NestedUnder(Flat(c.info, depth, Starts(c.calls, base + 1)), FlattenedAll(c.calls, depth + 1, base + 1), base);
  }

  /** An entry put before the list its children head. */
  lemma NestedUnder(head: Flat, rest: seq<Flat>, base: nat)
    requires WellNested(rest, base + 1, head.depth + 1, head.children)
    ensures WellNested([head] + rest, base, head.depth, [base])
  {
    var fs := [head] + rest;
    forall i, j ensures Parent(fs, base, i, j) <==> (i == base && j in head.children) || Parent(rest, base + 1, i, j) {
      if i > base && i < base + |fs| { assert fs[i - base] == rest[i - (base + 1)]; }
    }
    forall j | base <= j < base + |fs| && j !in [base] ensures exists i :: Parent(fs, base, i, j) {
      if j in head.children {
        assert Parent(fs, base, base, j);
      } else {
        var i :| Parent(rest, base + 1, i, j);
        assert Parent(fs, base, i, j);
      }
    }
  }

  lemma {:induction false} CallsAreNested(cs: seq<Call>, depth: nat, base: nat)
    ensures WellNested(FlattenedAll(cs, depth, base), base, depth, Starts(cs, base))
    decreases cs, 0
  {
    if cs == [] {
    } else {
      CallIsNested(cs[0], depth, base);
      CallsAreNested(cs[1..], depth, base + Size(cs[0]));
      NestedCons(cs, depth, base);
    }
  }

  lemma NestedCons(cs: seq<Call>, depth: nat, base: nat)
    requires cs != [] && WellNested(Flattened(cs[0], depth, base), base, depth, [base])
    requires
      var mid := base + Size(cs[0]);
      WellNested(FlattenedAll(cs[1..], depth, mid), mid, depth, Starts(cs[1..], mid))
    ensures WellNested(FlattenedAll(cs, depth, base), base, depth, Starts(cs, base))
  {
    var mid := base + Size(cs[0]);
    NestedJoin(Flattened(cs[0], depth, base), FlattenedAll(cs[1..], depth, mid), base, depth, Starts(cs[1..], mid));
    FlatCons(cs, depth, base);
  }

  lemma NestedJoin(x: seq<Flat>, y: seq<Flat>, base: nat, depth: nat, roots: seq<nat>)
    requires x != [] && WellNested(x, base, depth, [base]) && WellNested(y, base + |x|, depth, roots)
    ensures WellNested(x + y, base, depth, [base] + roots)
  {
    var mid := base + |x|;
    forall i, j ensures Parent(x + y, base, i, j) <==> Parent(x, base, i, j) || Parent(y, mid, i, j) {
    }
    forall j | base <= j < base + |x + y| && j !in [base] + roots ensures exists i :: Parent(x + y, base, i, j) {
      if j < mid {
        var i :| Parent(x, base, i, j);
        assert Parent(x + y, base, i, j);
      } else {
        var i :| Parent(y, mid, i, j);
        assert Parent(x + y, base, i, j);
      }
    }
  }

  /** Every entry of a flattened forest is a root at depth 0 or the child of exactly one earlier
      entry, one level above it. */
  lemma FlattenIsNested(forest: seq<Call>)
    ensures
      var fs := FlattenedAll(forest, 0, 0);
      WellNested(fs, 0, 0, Roots(fs))
  {
    CallsAreNested(forest, 0, 0);
    TopAreStarts(forest, 0, 0);
  }
}
