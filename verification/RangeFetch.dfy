/** Fetching a range of heights in parallel chunks, in `src/indexer.rs`: how the range is
    chunked, how answers are collected in whatever order they come, and which of the blocks a
    loop may keep. */
module RangeFetch {
  import opened Lists

  const U64_MAX: nat := 0xFFFF_FFFF_FFFF_FFFF
  const RPC_BLOCK_BATCH: nat := 16

  datatype Option<T> = None | Some(value: T)

  /** An inclusive range of heights. */
  datatype Chunk = Chunk(first: nat, last: nat)

  function CheckedAdd(x: nat, y: nat): Option<nat> { if x + y <= U64_MAX then Some(x + y) else None }

  function SaturatingAdd(x: nat, y: nat): nat { if x + y <= U64_MAX then x + y else U64_MAX }

  function Min(x: nat, y: nat): nat { if x <= y then x else y }

  function ChunksFrom(start: nat, to: nat, size: nat): (chunks: seq<Chunk>)
    requires size >= 1 && start <= to
    decreases if start <= to then to - start else 0
  {
    var next := CheckedAdd(start, size);
    [Chunk(start, Min(SaturatingAdd(start, size - 1), to))] +
    if next.Some? && next.value <= to then ChunksFrom(next.value, to, size) else []
  }

  /** The chunks of `from..=to`, each of `batch` heights but perhaps the last. */
  function BlockChunks(from: nat, to: nat, batch: nat): seq<Chunk> {
    if from <= to then ChunksFrom(from, to, if batch < 1 then 1 else batch) else []
  }

  /** Chunks that follow on from one another, from `first` to `last`. */
  ghost predicate Tiles(chunks: seq<Chunk>, first: nat, last: nat, size: nat) {
    && chunks != [] && chunks[0].first == first && chunks[|chunks| - 1].last == last
    && (forall i :: 0 <= i < |chunks| ==> chunks[i].first <= chunks[i].last < chunks[i].first + size)
    && (forall i, j :: 0 <= i && j == i + 1 && j < |chunks| ==>
          chunks[j].first == chunks[i].last + 1 && chunks[i].last == chunks[i].first + size - 1)
  }

  lemma {:induction false} ChunksTile(start: nat, to: nat, size: nat)
    requires start <= to <= U64_MAX && 1 <= size <= U64_MAX
    ensures Tiles(ChunksFrom(start, to, size), start, to, size)
    decreases if start <= to then to - start else 0
  {
    if start + size <= to {
      var rest := ChunksFrom(start + size, to, size);
      assert ChunksFrom(start, to, size) == [Chunk(start, start + size - 1)] + rest;
      ChunksTile(start + size, to, size);
    } else {
      assert ChunksFrom(start, to, size) == [Chunk(start, to)];
    }
  }

  /** Any u64 range splits, in order and up to the very last height, into full chunks and one
      remainder; an empty range into none. */
  lemma BlockChunksTile(from: nat, to: nat, batch: nat)
    requires to <= U64_MAX && batch <= U64_MAX
    ensures from > to ==> BlockChunks(from, to, batch) == []
    ensures from <= to ==> Tiles(BlockChunks(from, to, batch), from, to, if batch < 1 then 1 else batch)
  {
    if from <= to { ChunksTile(from, to, if batch < 1 then 1 else batch); }
  }

  lemma {:induction false} TilesAreOrdered(chunks: seq<Chunk>, first: nat, last: nat, size: nat, i: nat, j: nat)
    requires Tiles(chunks, first, last, size) && i < j < |chunks|
    ensures chunks[i].last < chunks[j].first
    decreases |chunks| - i
  {
    if i + 1 < j { TilesAreOrdered(chunks, first, last, size, i + 1, j); }
  }

  lemma TilesAreWithin(chunks: seq<Chunk>, first: nat, last: nat, size: nat, i: nat)
    requires Tiles(chunks, first, last, size) && i < |chunks|
    ensures first <= chunks[i].first && chunks[i].last <= last
  {
    if i > 0 { TilesAreOrdered(chunks, first, last, size, 0, i); }
    if i < |chunks| - 1 { TilesAreOrdered(chunks, first, last, size, i, |chunks| - 1); }
  }

  // -------------------------------------------------------- gapless runs

  ghost predicate Ascending(xs: seq<nat>) { forall i, j :: 0 <= i < j < |xs| ==> xs[i] < xs[j] }

  function Elements(xs: seq<nat>): set<nat> { set x | x in xs }

  /** The longest stretch `from, from + 1, ...` that lies wholly in `got`. */
  function RunFrom(got: set<nat>, from: nat): (run: seq<nat>)
    ensures forall i :: 0 <= i < |run| ==> run[i] == from + i && run[i] in got
    ensures from + |run| !in got
    decreases |got|
  {
    if from in got then
      var rest := RunFrom(got - {from}, from + 1);
      [from] + rest
    else []
  }

  /** The longest stretch `..., to - 1, to` that lies wholly in `got`. */
  function RunDownTo(got: set<nat>, to: nat): (run: seq<nat>)
    ensures |run| <= to + 1
    ensures forall i :: 0 <= i < |run| ==> run[i] == to + 1 - |run| + i && run[i] in got
    ensures |run| <= to ==> to - |run| !in got
  {
    if to !in got then [] else if to == 0 then [0] else RunDownTo(got, to - 1) + [to]
  }

  /** `contiguous_from`: walk a sorted list while each height is the one expected. */
  method ContiguousFrom(bundles: seq<nat>, from: nat) returns (kept: seq<nat>)
    requires Ascending(bundles) && forall i :: 0 <= i < |bundles| ==> bundles[i] >= from
    ensures kept == RunFrom(Elements(bundles), from)
  {
    kept := [];
    var expected := from;
    while |kept| < |bundles| && bundles[|kept|] == expected
      invariant |kept| <= |bundles| && kept == bundles[..|kept|]
      invariant expected == from + |kept|
      invariant forall i :: 0 <= i < |kept| ==> kept[i] == from + i
    {
      kept := kept + [bundles[|kept|]];
      expected := expected + 1;
    }
    var k := |kept|;
    assert k > 0 ==> bundles[k - 1] == kept[k - 1];
    forall i | 0 <= i < |bundles| ensures bundles[i] != expected {
      if i < k { assert bundles[i] == kept[i]; } else { assert bundles[k] > expected; }
    }
    RunIsMaximal(kept, Elements(bundles), from);
  }

  lemma {:induction false} RunIsMaximal(run: seq<nat>, got: set<nat>, from: nat)
    requires forall i :: 0 <= i < |run| ==> run[i] == from + i && run[i] in got
    requires from + |run| !in got
    ensures run == RunFrom(got, from)
    decreases |run|
  {
    if run != [] {
      assert run == [run[0]] + run[1..];
      RunIsMaximal(run[1..], got - {from}, from + 1);
    }
  }

  /** `contiguous_down_to`: the same from the top, handed back ascending. */
  method ContiguousDownTo(bundles: seq<nat>, to: nat) returns (kept: seq<nat>)
    requires Ascending(bundles) && forall i :: 0 <= i < |bundles| ==> bundles[i] <= to
    ensures kept == RunDownTo(Elements(bundles), to)
  {
    kept := [];
    var n := |bundles|;
    while |kept| < n && bundles[n - 1 - |kept|] == to - |kept|
      invariant |kept| <= n && |kept| <= to + 1 && kept == bundles[n - |kept|..]
      invariant forall i :: 0 <= i < |kept| ==> kept[i] == to + 1 - |kept| + i
    {
      kept := [bundles[n - 1 - |kept|]] + kept;
    }
    var got := Elements(bundles);
    var k := n - |kept|;
    assert k < n ==> bundles[k] == kept[0];
    forall i | 0 <= i < n ensures bundles[i] != to - |kept| {
      if i >= k { assert bundles[i] == kept[i - k]; } else { assert bundles[k - 1] < to - |kept|; }
    }
    forall i | 0 <= i < |kept| ensures kept[i] in got { assert kept[i] == bundles[n - |kept| + i]; }
    RunDownIsMaximal(kept, got, to);
  }

  lemma {:induction false} RunDownIsMaximal(run: seq<nat>, got: set<nat>, to: nat)
    requires |run| <= to + 1
    requires forall i :: 0 <= i < |run| ==> run[i] == to + 1 - |run| + i && run[i] in got
    requires |run| <= to ==> to - |run| !in got
    ensures run == RunDownTo(got, to)
    decreases |run|
  {
    if run != [] {
      var last := |run| - 1;
      assert run == run[..last] + [run[last]];
      if to > 0 { RunDownIsMaximal(run[..last], got, to - 1); }
    }
  }

  // ------------------------------------------------------ parallel fetch

  datatype Answer = Failed | Fetched(heights: seq<nat>)

  /** A node answers a chunk with blocks of that chunk, ascending, or fails it. */
  ghost predicate Answers(answer: Chunk -> Answer) {
    forall c :: answer(c).Fetched? ==>
      Ascending(answer(c).heights) && forall h :: h in answer(c).heights ==> c.first <= h <= c.last
  }

  /** What one chunk brings in. */
  function Brought(answer: Chunk -> Answer, c: Chunk): set<nat> {
    if answer(c).Fetched? then Elements(answer(c).heights) else {}
  }

  function AllBrought(answer: Chunk -> Answer, chunks: seq<Chunk>): set<nat> {
    set c, h | c in chunks && h in Brought(answer, c) :: h
  }

  /** Insertion into an ascending list; the library's sort by height gives the same list. */
  function Inserted(xs: seq<nat>, x: nat): seq<nat> {
    if xs == [] || xs[|xs| - 1] < x then xs + [x] else Inserted(xs[..|xs| - 1], x) + [xs[|xs| - 1]]
  }

  function Sorted(xs: seq<nat>): seq<nat> {
    if xs == [] then [] else Inserted(Sorted(xs[..|xs| - 1]), xs[|xs| - 1])
  }

  lemma {:induction false} InsertedAscends(xs: seq<nat>, x: nat)
    requires Ascending(xs) && x !in xs
    ensures Ascending(Inserted(xs, x))
    ensures forall y :: y in Inserted(xs, x) <==> y in xs || y == x
  {
    if xs != [] && xs[|xs| - 1] >= x {
      var last := |xs| - 1;
      assert xs == xs[..last] + [xs[last]];
      InsertedAscends(xs[..last], x);
      var head := Inserted(xs[..last], x);
      forall i | 0 <= i < |head| ensures head[i] < xs[last] { assert head[i] in head; }
    }
  }

  lemma {:induction false} SortedAscends(xs: seq<nat>)
    requires NoRepeats(xs)
    ensures Ascending(Sorted(xs)) && forall y :: y in Sorted(xs) <==> y in xs
  {
    if xs != [] {
      var last := |xs| - 1;
      assert xs == xs[..last] + [xs[last]];
      SortedAscends(xs[..last]);
      InsertedAscends(Sorted(xs[..last]), xs[last]);
    }
  }

  /** The list holds, once each, the heights brought by the chunks that have joined. */
  ghost predicate Collected(answer: Chunk -> Answer, chunks: seq<Chunk>, joined: set<nat>, out: seq<nat>) {
    && NoRepeats(out)
    && (forall j :: j in joined ==> j < |chunks|)
    && (forall h :: h in out <==> exists j :: j in joined && h in Brought(answer, chunks[j]))
  }

  lemma ChunksAreApart(from: nat, to: nat, i: nat, j: nat)
    requires from <= to <= U64_MAX && i < j < |BlockChunks(from, to, RPC_BLOCK_BATCH)|
    ensures BlockChunks(from, to, RPC_BLOCK_BATCH)[i].last < BlockChunks(from, to, RPC_BLOCK_BATCH)[j].first
  {
    BlockChunksTile(from, to, RPC_BLOCK_BATCH);
    TilesAreOrdered(BlockChunks(from, to, RPC_BLOCK_BATCH), from, to, RPC_BLOCK_BATCH, i, j);
  }

  lemma CollectedNext(answer: Chunk -> Answer, chunks: seq<Chunk>, from: nat, to: nat, joined: set<nat>, i: nat,
      out: seq<nat>)
    requires from <= to <= U64_MAX && chunks == BlockChunks(from, to, RPC_BLOCK_BATCH)
    requires Answers(answer) && Collected(answer, chunks, joined, out)
    requires i < |chunks| && i !in joined
    ensures
      var more := if answer(chunks[i]).Fetched? then answer(chunks[i]).heights else [];
      Collected(answer, chunks, joined + {i}, out + more)
  {
    var more := if answer(chunks[i]).Fetched? then answer(chunks[i]).heights else [];
    forall x, y | 0 <= x < |out| && 0 <= y < |more| ensures out[x] != more[y] {
      assert out[x] in out && more[y] in more;
      var j :| j in joined && out[x] in Brought(answer, chunks[j]);
      if j < i { ChunksAreApart(from, to, j, i); } else { ChunksAreApart(from, to, i, j); }
    }
  }

  lemma CollectedIsBrought(answer: Chunk -> Answer, chunks: seq<Chunk>, from: nat, to: nat, joined: set<nat>,
      out: seq<nat>)
    requires from <= to <= U64_MAX && chunks == BlockChunks(from, to, RPC_BLOCK_BATCH)
    requires Answers(answer) && Collected(answer, chunks, joined, out)
    ensures Ascending(Sorted(out)) && forall h :: h in Sorted(out) ==> from <= h <= to
    ensures Elements(Sorted(out)) <= AllBrought(answer, chunks)
    ensures (forall j: nat :: j < |chunks| ==> j in joined) ==> Elements(Sorted(out)) == AllBrought(answer, chunks)
  {
    SortedAscends(out);
    BlockChunksTile(from, to, RPC_BLOCK_BATCH);
    forall h | h in out ensures h in AllBrought(answer, chunks) && from <= h <= to {
      var j :| j in joined && h in Brought(answer, chunks[j]);
      assert chunks[j] in chunks;
      TilesAreWithin(chunks, from, to, RPC_BLOCK_BATCH, j);
    }
  }

  /** Chunks go out in order, a bounded number at a time; answers join in any order, and a
      shutdown, where `mayStop` allows one, may end the collection early. */
  method Collect(answer: Chunk -> Answer, chunks: seq<Chunk>, ghost from: nat, ghost to: nat, inflight: nat,
      mayStop: bool)
    returns (out: seq<nat>, completed: bool, ghost joined: set<nat>)
    requires from <= to <= U64_MAX && chunks == BlockChunks(from, to, RPC_BLOCK_BATCH) && inflight >= 1
    requires Answers(answer)
    ensures Collected(answer, chunks, joined, out)
    ensures completed ==> forall j: nat :: j < |chunks| ==> j in joined
    ensures !mayStop ==> completed
  {
    var next: nat := 0;
    var running: set<nat> := {};
    out, joined := [], {};
    while next < |chunks| || running != {}
      invariant next <= |chunks| && running !! joined
      invariant forall i: nat :: i in running || i in joined <==> i < next
      invariant Collected(answer, chunks, joined, out)
      decreases |chunks| - next, running
    {
      var shutdown: bool := *;
      if shutdown && mayStop {
        break;
      }
      if next < |chunks| && |running| < inflight {
        running := running + {next};
        next := next + 1;
      } else {
        var i :| i in running;
        running := running - {i};
        CollectedNext(answer, chunks, from, to, joined, i, out);
        if answer(chunks[i]).Fetched? {
          out := out + answer(chunks[i]).heights;
        }
        joined := joined + {i};
      }
    }
    completed := next == |chunks| && running == {};
  }

  /** Completed, the result is every height any chunk brought, ascending: neither the order of the
      answers nor the failures leave another trace. */
  method FetchRange(from: nat, to: nat, concurrency: nat, answer: Chunk -> Answer, mayStop: bool)
    returns (out: seq<nat>, completed: bool)
    requires to <= U64_MAX && Answers(answer)
    ensures Ascending(out) && forall h :: h in out ==> from <= h <= to
    ensures Elements(out) <= AllBrought(answer, BlockChunks(from, to, RPC_BLOCK_BATCH))
    ensures completed ==> Elements(out) == AllBrought(answer, BlockChunks(from, to, RPC_BLOCK_BATCH))
    ensures !mayStop ==> completed
  {
    if from > to {
      return [], true;
    }
    var inflight := ((if concurrency < 1 then 1 else concurrency) + RPC_BLOCK_BATCH - 1) / RPC_BLOCK_BATCH;
    var chunks := BlockChunks(from, to, RPC_BLOCK_BATCH);
    ghost var joined;
    out, completed, joined := Collect(answer, chunks, from, to, inflight, mayStop);
    CollectedIsBrought(answer, chunks, from, to, joined, out);
    out := Sorted(out);
  }

  lemma {:induction false} TilesCover(chunks: seq<Chunk>, first: nat, last: nat, size: nat, h: nat, i: nat)
    requires Tiles(chunks, first, last, size) && i < |chunks| && chunks[i].first <= h <= last
    ensures exists c :: c in chunks && c.first <= h <= c.last
    decreases |chunks| - i
  {
    if h <= chunks[i].last {
      assert chunks[i] in chunks;
    } else {
      TilesCover(chunks, first, last, size, h, i + 1);
    }
  }

  /** If the node answers every chunk with all it has there, every height it has in the range is
      brought, however the range was chunked. */
  lemma AnsweredIsBrought(answer: Chunk -> Answer, from: nat, to: nat, has: set<nat>)
    requires to <= U64_MAX && Answers(answer)
    requires forall c :: answer(c).Fetched? && forall h :: h in answer(c).heights <==> h in has && c.first <= h <= c.last
    ensures AllBrought(answer, BlockChunks(from, to, RPC_BLOCK_BATCH)) == set h | h in has && from <= h <= to
  {
    var chunks := BlockChunks(from, to, RPC_BLOCK_BATCH);
    BlockChunksTile(from, to, RPC_BLOCK_BATCH);
    forall h ensures h in AllBrought(answer, chunks) <==> h in has && from <= h <= to {
      if h in AllBrought(answer, chunks) {
        var c :| c in chunks && h in Brought(answer, c);
        var i :| 0 <= i < |chunks| && chunks[i] == c;
        TilesAreWithin(chunks, from, to, RPC_BLOCK_BATCH, i);
      }
      if h in has && from <= h <= to {
        TilesCover(chunks, from, to, RPC_BLOCK_BATCH, h, 0);
        var c :| c in chunks && c.first <= h <= c.last;
        assert h in Brought(answer, c);
      }
    }
  }

  /** One forward window: what it keeps is exactly the longest stretch from `from` up in what the
      node gave. */
  method FetchForward(from: nat, to: nat, concurrency: nat, answer: Chunk -> Answer, mayStop: bool)
    returns (kept: seq<nat>, completed: bool)
    requires to <= U64_MAX && Answers(answer)
    ensures exists got :: got <= AllBrought(answer, BlockChunks(from, to, RPC_BLOCK_BATCH)) && kept == RunFrom(got, from)
    ensures completed ==> kept == RunFrom(AllBrought(answer, BlockChunks(from, to, RPC_BLOCK_BATCH)), from)
    ensures !mayStop ==> completed
  {
    var out;
    out, completed := FetchRange(from, to, concurrency, answer, mayStop);
    forall i | 0 <= i < |out| ensures out[i] >= from { assert out[i] in out; }
    kept := ContiguousFrom(out, from);
  }

  /** One backfill window: the gapless run at its top. */
  method FetchBackward(from: nat, to: nat, concurrency: nat, answer: Chunk -> Answer, mayStop: bool)
    returns (kept: seq<nat>, completed: bool)
    requires to <= U64_MAX && Answers(answer)
    ensures exists got :: got <= AllBrought(answer, BlockChunks(from, to, RPC_BLOCK_BATCH)) && kept == RunDownTo(got, to)
    ensures completed ==> kept == RunDownTo(AllBrought(answer, BlockChunks(from, to, RPC_BLOCK_BATCH)), to)
    ensures !mayStop ==> completed
  {
    var out;
    out, completed := FetchRange(from, to, concurrency, answer, mayStop);
    forall i | 0 <= i < |out| ensures out[i] <= to { assert out[i] in out; }
    kept := ContiguousDownTo(out, to);
  }
}
