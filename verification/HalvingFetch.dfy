/** Batched JSON-RPC calls (`src/rpc.rs`) and the block fetch that halves a refused range
    (`src/indexer.rs`), against a node that answers each call the same way every time but may
    refuse some batches as a whole, and may leave any request unanswered. */
module HalvingFetch {
  import opened Lists
  import opened RangeFetch

  datatype Call = GetBlock(number: nat) | GetBlockReceipts(number: nat) | GetReceipt(hash: nat)

  datatype Value = Null | BlockValue(number: nat,
    hashes: seq<nat>) | ReceiptList(receipts: seq<nat>) | Receipt(data: nat)

  /** One call's answer: a value, or the error the node gave for that call. */
  datatype Result = Ok(value: Value) | Err

  /** One element of a batch response; an id that is no number is dropped. */
  datatype Item = Item(id: Option<nat>, result: Result)

  datatype Outcome = Dropped | RefusedWhole | Results(results: seq<Result>)

  /** `one` answers each call, `respond` arranges the answers to a batch, `refuses` says which
      batches get one error instead, `silent` which requests go unanswered, and `receiptOf` is what
      each hash's receipt is on chain. No request is made twice in one fetch, so these choices cover
      every way a node may behave while it lasts. */
  datatype Node = Node(
    one: Call -> Result,
    respond: seq<Call> -> seq<Item>,
    refuses: seq<Call> -> bool,
    silent: seq<Call> -> bool,
    receiptOf: nat -> nat)

  /** The last element under an id, as the map keeps it. */
  function LastUnder(items: seq<Item>, id: nat): Option<Result> {
    if items == [] then None
    else if items[|items| - 1].id == Some(id) then Some(items[|items| - 1].result)
    else LastUnder(items[..|items| - 1], id)
  }

  /** `r` is what the last item under `id` says, or an error if none stands under it. */
  ghost predicate SaidLast(items: seq<Item>, id: nat, r: Result) {
    || (exists j :: 0 <= j < |items| && items[j] == Item(Some(id), r) &&
          forall k :: j < k < |items| ==> items[k].id != Some(id))
    || (r == Err && forall k :: 0 <= k < |items| ==> items[k].id != Some(id))
  }

  lemma SaidLastSnoc(items: seq<Item>, item: Item, id: nat, r: Result)
    requires SaidLast(items, id, r) && item.id != Some(id)
    ensures SaidLast(items + [item], id, r)
  {
    if j :| 0 <= j < |items| && items[j] == Item(Some(id), r) && forall k :: j < k < |items| ==> items[k].id != Some(id) {
      assert (items + [item])[j] == Item(Some(id), r);
    }
  }

  lemma {:induction false} LastUnderIsLast(items: seq<Item>, id: nat)
    ensures SaidLast(items, id, match LastUnder(items, id) case Some(r) => r case None => Err)
  {
    if items != [] {
      var front, item := items[..|items| - 1], items[|items| - 1];
      assert items == front + [item];
      if item.id == Some(id) {
        assert items[|front|] == Item(Some(id), item.result);
      } else {
        LastUnderIsLast(front, id);
        SaidLastSnoc(front, item, id, match LastUnder(front, id) case Some(r) => r case None => Err);
      }
    }
  }

  /** Match a response's items to the calls by id, counted from 1: under a repeated id the last item
      counts, and a call whose id is missing gets an error. */
  method Reordered(n: nat, items: seq<Item>) returns (out: seq<Result>)
    ensures |out| == n
    ensures forall i :: 0 <= i < n ==> out[i] == match LastUnder(items, i + 1) case Some(r) => r case None => Err
    ensures forall i :: 0 <= i < n ==> SaidLast(items, i + 1, out[i])
  {
    var byId: map<nat, Result> := map[];
    for j := 0 to |items|
      invariant forall id: nat :: id in byId <==> LastUnder(items[..j], id).Some?
      invariant forall id: nat :: id in byId ==> LastUnder(items[..j], id) == Some(byId[id])
    {
      assert items[..j + 1][..j] == items[..j];
      if items[j].id.Some? {
        byId := byId[items[j].id.value := items[j].result];
      }
    }
    assert items[..|items|] == items;
    out := [];
    for i := 0 to n
      invariant |out| == i
      invariant forall k :: 0 <= k < i ==> out[k] == match LastUnder(items, k + 1) case Some(r) => r case None => Err
      invariant forall id: nat :: id > i ==> (id in byId <==> LastUnder(items, id).Some?)
      invariant forall id: nat :: id > i && id in byId ==> LastUnder(items, id) == Some(byId[id])
    {
      var id := i + 1;
      if id in byId {
        out := out + [byId[id]];
        byId := byId - {id};
      } else {
        out := out + [Err];
      }
    }
    forall i | 0 <= i < n ensures SaidLast(items, i + 1, out[i]) { LastUnderIsLast(items, i + 1); }
  }

  function AnswerTo(node: Node, calls: seq<Call>, i: nat): Item
    requires i < |calls|
  {
    Item(Some(i + 1), node.one(calls[i]))
  }

  /** Every call answered under its own id, in any order. */
  ghost predicate Faithful(node: Node, calls: seq<Call>, items: seq<Item>) {
    && (forall i :: 0 <= i < |calls| ==> AnswerTo(node, calls, i) in items)
    && (forall j :: 0 <= j < |items| && items[j].id.Some? && 1 <= items[j].id.value <= |calls| ==>
          items[j] == AnswerTo(node, calls, items[j].id.value - 1))
  }

  function Answers(node: Node, calls: seq<Call>): (rs: seq<Result>)
    ensures |rs| == |calls| && forall i :: 0 <= i < |calls| ==> rs[i] == node.one(calls[i])
  {
    seq(|calls|, i requires 0 <= i < |calls| => node.one(calls[i]))
  }

  lemma {:induction false} LastUnderIs(items: seq<Item>, id: nat, r: Result)
    requires forall j :: 0 <= j < |items| && items[j].id == Some(id) ==> items[j].result == r
    ensures LastUnder(items, id) == if exists j :: 0 <= j < |items| && items[j].id == Some(id) then Some(r) else None
  {
    if items != [] { LastUnderIs(items[..|items| - 1], id, r); }
  }

  /** The order of a faithful response does not show. */
  lemma OrderDoesNotShow(node: Node, calls: seq<Call>, items: seq<Item>, i: nat)
    requires Faithful(node, calls, items) && i < |calls|
    ensures LastUnder(items, i + 1) == Some(node.one(calls[i]))
  {
    assert AnswerTo(node, calls, i) in items;
    var j :| 0 <= j < |items| && items[j] == AnswerTo(node, calls, i);
    LastUnderIs(items, i + 1, node.one(calls[i]));
  }

  /** A lone call is no batch, so it cannot be refused as one. */
  predicate Accepts(node: Node, calls: seq<Call>) { |calls| == 1 || !node.refuses(calls) }

  /** The node answers the request, and not with one error for all of it. */
  predicate Gives(node: Node, calls: seq<Call>) { !node.silent(calls) && Accepts(node, calls) }

  /** One batch: no answer, a refusal, or what the node says to each call. */
  method BatchCall(node: Node, calls: seq<Call>) returns (r: Outcome)
    requires Faithful(node, calls, node.respond(calls))
    ensures r == if node.silent(calls) then Dropped
                 else if Accepts(node, calls) then Results(Answers(node, calls))
                 else RefusedWhole
  {
    if node.silent(calls) {
      return Dropped;
    }
    if |calls| == 1 {
      assert [node.one(calls[0])] == Answers(node, calls);
      return Results([node.one(calls[0])]);
    }
    if node.refuses(calls) {
      return RefusedWhole;
    }
    var items := node.respond(calls);
    var out := Reordered(|calls|, items);
    forall i | 0 <= i < |calls| ensures out[i] == node.one(calls[i]) { OrderDoesNotShow(node, calls, items, i); }
    assert out == Answers(node, calls);
    r := Results(out);
  }

  // ------------------------------------------------------------- blocks

  /** A block as fetched: its transactions' hashes, and receipts when they could be had. */
  datatype Raw = Raw(number: nat, hashes: seq<nat>, receipts: Option<seq<nat>>)

  /** The receipts on chain of a list of transactions. */
  function Receipts(node: Node, hashes: seq<nat>): seq<nat> {
    seq<nat>(|hashes|, i requires 0 <= i < |hashes| => node.receiptOf(hashes[i]))
  }

  predicate HasBlock(node: Node, n: nat) { node.one(GetBlock(n)).Ok? && node.one(GetBlock(n)).value.BlockValue? }

  function HashesAt(node: Node, n: nat): seq<nat>
    requires HasBlock(node, n)
  {
    node.one(GetBlock(n)).value.hashes
  }

  /** The node answers a height with that height's block, a hash with its receipt, a block's
      receipts with those of its transactions, or with nothing; and a batch faithfully. */
  ghost predicate Coherent(node: Node) {
    && (forall calls :: Faithful(node, calls, node.respond(calls)))
    && (forall n :: node.one(GetBlock(n)).Ok? ==>
          var v := node.one(GetBlock(n)).value; v.Null? || (v.BlockValue? && v.number == n))
    && (forall h :: node.one(GetReceipt(h)).Ok? ==>
          var v := node.one(GetReceipt(h)).value; v.Null? || v == Receipt(node.receiptOf(h)))
    && (forall n :: node.one(GetBlockReceipts(n)).Ok? ==>
          var v := node.one(GetBlockReceipts(n)).value;
          v.Null? || (v.ReceiptList? && (HasBlock(node, n) ==> v.receipts == Receipts(node, HashesAt(node, n)))))
  }

  // ------------------------------------------------ what a fetch should give

  predicate BlockReceiptsServed(node: Node, n: nat) {
    node.one(GetBlockReceipts(n)).Ok? && node.one(GetBlockReceipts(n)).value.ReceiptList?
  }

  /** Each of a list of transactions has its receipt served when asked for by hash. */
  predicate EachServed(node: Node, hashes: seq<nat>) {
    forall h :: h in hashes ==> node.one(GetReceipt(h)).Ok? && node.one(GetReceipt(h)).value.Receipt?
  }

  function Dressed(node: Node, n: nat): Raw
    requires HasBlock(node, n)
  {
    var hashes := HashesAt(node, n);
    Raw(n, hashes, if hashes == [] then None else Some(Receipts(node, hashes)))
  }

  /** The one-shot answer for a height: its block, whole, or nothing. */
  function Whole(node: Node, n: nat): Option<Raw> {
    if !HasBlock(node, n) then None
    else if HashesAt(node, n) == [] || BlockReceiptsServed(node, n) || EachServed(node, HashesAt(node, n)) then
      Some(Dressed(node, n))
    else None
  }

  /** The one-shot answer for `n` heights from `from`. */
  function OneShot(node: Node, from: nat, n: nat): seq<Raw> {
    if n == 0 then []
    else OneShot(node, from, n - 1) + match Whole(node, from + n - 1) case Some(b) => [b] case None => []
  }

  ghost predicate InOrder(blocks: seq<Raw>) {
    forall i, j :: 0 <= i < j < |blocks| ==> blocks[i].number < blocks[j].number
  }

  /** The one-shot answer holds every height of the range that has a whole block, and no other. */
  lemma {:induction false} OneShotIsEveryWhole(node: Node, from: nat, n: nat, b: Raw)
    ensures b in OneShot(node, from, n) <==> from <= b.number < from + n && Whole(node, b.number) == Some(b)
  {
    if n > 0 { OneShotIsEveryWhole(node, from, n - 1, b); }
  }

  lemma {:induction false} OneShotIsInOrder(node: Node, from: nat, n: nat)
    ensures InOrder(OneShot(node, from, n))
  {
    if n > 0 {
      OneShotIsInOrder(node, from, n - 1);
      var prior := OneShot(node, from, n - 1);
      forall i | 0 <= i < |prior| ensures prior[i].number < from + n - 1 {
        OneShotIsEveryWhole(node, from, n - 1, prior[i]);
        assert prior[i] in prior;
      }
    }
  }

  lemma LastIsLatest(xs: seq<Raw>, b: Raw)
    requires InOrder(xs) && xs != []
    ensures b in xs ==> b == xs[|xs| - 1] || b.number < xs[|xs| - 1].number
    ensures b in xs[..|xs| - 1] <==> b in xs && b != xs[|xs| - 1]
  {
  }

  /** A list of blocks in order is known by its members. */
  lemma {:induction false} OrderDetermines(xs: seq<Raw>, ys: seq<Raw>)
    requires InOrder(xs) && InOrder(ys) && forall b :: b in xs <==> b in ys
    ensures xs == ys
  {
    FirstIsIn(ys);
    FirstIsIn(xs);
    if xs != [] {
      var (x, y) := (xs[|xs| - 1], ys[|ys| - 1]);
      LastIsLatest(xs, y);
      LastIsLatest(ys, x);
      assert x == y;
      var (front, back) := (xs[..|xs| - 1], ys[..|ys| - 1]);
      forall b ensures b in front <==> b in back {
        LastIsLatest(xs, b);
        LastIsLatest(ys, b);
      }
      OrderDetermines(front, back);
      assert xs == front + [x] && ys == back + [y];
    }
  }

  // ----------------------------------------- what the halving fetch gives

  function BlockCalls(from: nat, n: nat): seq<Call> { seq(n, i requires 0 <= i < n => GetBlock(from + i)) }

  function BlockReceiptCalls(heights: seq<nat>): seq<Call> {
    seq(|heights|, i requires 0 <= i < |heights| => GetBlockReceipts(heights[i]))
  }

  function ReceiptCalls(hashes: seq<nat>): seq<Call> {
    seq(|hashes|, i requires 0 <= i < |hashes| => GetReceipt(hashes[i]))
  }

  /** The part of `from..=to` whose blocks the node gives in one batch, around `h`. */
  function Part(node: Node, from: nat, to: nat, h: nat): Chunk
    decreases if from <= to then to - from else 0
  {
    if from >= to || Accepts(node, BlockCalls(from, to + 1 - from)) then Chunk(from, to)
    else
      var mid := from + (to - from) / 2;
      if h <= mid then Part(node, from, mid, h) else Part(node, mid + 1, to, h)
  }

  /** No request for blocks of `from..=to` goes unanswered. */
  predicate Heard(node: Node, from: nat, to: nat)
    decreases if from <= to then 1 + to - from else 0
  {
    from > to ||
    (!node.silent(BlockCalls(from, to + 1 - from)) &&
     (from == to || Accepts(node, BlockCalls(from, to + 1 - from)) ||
      (Heard(node, from, from + (to - from) / 2) && Heard(node, from + (to - from) / 2 + 1, to))))
  }

  function Width(part: Chunk): nat { if part.first <= part.last then part.last + 1 - part.first else 0 }

  lemma {:induction false} PartIsAccepted(node: Node, from: nat, to: nat, h: nat)
    requires from <= h <= to
    ensures
      var part := Part(node, from, to, h);
      && from <= part.first <= h <= part.last <= to
      && Accepts(node, BlockCalls(part.first, Width(part)))
    decreases if from <= to then to - from else 0
  {
    if !Accepts(node, BlockCalls(from, to + 1 - from)) {
      var mid := from + (to - from) / 2;
      if h <= mid { PartIsAccepted(node, from, mid, h); } else { PartIsAccepted(node, mid + 1, to, h); }
    }
  }

  /** The heights among `n` from `from` whose blocks need receipts. */
  function Needy(node: Node, from: nat, n: nat): (heights: seq<nat>)
    ensures |heights| <= n
  {
    if n == 0 then []
    else
      var h := from + n - 1;
      Needy(node, from, n - 1) + if HasBlock(node, h) && HashesAt(node, h) != [] then [h] else []
  }

  predicate ReceiptsComeWithTheirs(node: Node, part: Chunk, n: nat) {
    BlockReceiptsServed(node, n) && Gives(node, BlockReceiptCalls(Needy(node, part.first, Width(part))))
  }

  predicate ReceiptsComeSingly(node: Node, hashes: seq<nat>) {
    EachServed(node, hashes) && Gives(node, ReceiptCalls(hashes))
  }

  /** A height's block reaches the caller when fetched as one of `part`. */
  predicate Reaches(node: Node, part: Chunk, n: nat) {
    HasBlock(node, n) &&
    (HashesAt(node, n) == [] || ReceiptsComeWithTheirs(node, part, n) || ReceiptsComeSingly(node, HashesAt(node, n)))
  }

  /** Blocks of the range in order, each the one-shot answer for its height. */
  ghost predicate Sound(node: Node, from: nat, to: nat, blocks: seq<Raw>) {
    InOrder(blocks) && forall b :: b in blocks ==> from <= b.number <= to && Whole(node, b.number) == Some(b)
  }

  /** The halving fetch of `from..=to` brings block `b`. */
  ghost predicate Brings(node: Node, from: nat, to: nat, b: Raw) {
    from <= b.number <= to && Reaches(node, Part(node, from, to, b.number), b.number) && b == Dressed(node, b.number)
  }

  ghost predicate AllBroughtIn(node: Node, from: nat, to: nat, blocks: seq<Raw>) {
    forall b :: b in blocks <==> Brings(node, from, to, b)
  }

  /** Exactly the blocks it brings, in order. */
  ghost predicate Delivers(node: Node, from: nat, to: nat, blocks: seq<Raw>) {
    InOrder(blocks) && AllBroughtIn(node, from, to, blocks)
  }

  // ---------------------------------------- a node that caps its batches

  /** The node answers every request, and refuses exactly the batches of more than `cap` calls. */
  ghost predicate Capped(node: Node, cap: nat) {
    cap >= 1 && forall calls :: !node.silent(calls) && (node.refuses(calls) <==> |calls| > cap)
  }

  /** From a node with a cap, a whole block reaches the caller, wherever the splits fell, exactly
      when it has no transactions, its block receipts are served, or its transactions fit one batch. */
  predicate Fits(node: Node, cap: nat, b: Raw) {
    b.hashes == [] || BlockReceiptsServed(node, b.number) || |b.hashes| <= cap
  }

  /** Such a node is asked in parts that fit its cap, and never needlessly small ones. */
  lemma {:induction false} PartsAreLarge(node: Node, cap: nat, from: nat, to: nat, h: nat)
    requires Capped(node, cap) && from <= h <= to
    ensures
      var width := Width(Part(node, from, to, h));
      width <= cap && (width == to + 1 - from || 2 * width >= cap)
    decreases if from <= to then to - from else 0
  {
    PartIsAccepted(node, from, to, h);
    assert |BlockCalls(from, to + 1 - from)| == to + 1 - from;
    if to + 1 - from > cap {
      var mid := from + (to - from) / 2;
      if h <= mid { PartsAreLarge(node, cap, from, mid, h); } else { PartsAreLarge(node, cap, mid + 1, to, h); }
    }
  }

  lemma BringsIff(node: Node, cap: nat, from: nat, to: nat, b: Raw)
    requires Capped(node, cap)
    ensures Brings(node, from, to, b) <==> from <= b.number <= to && Whole(node, b.number) == Some(b) && Fits(node, cap, b)
  {
    if from <= b.number <= to {
      var part := Part(node, from, to, b.number);
      PartIsAccepted(node, from, to, b.number);
      assert |BlockCalls(part.first, Width(part))| <= cap;
      assert |BlockReceiptCalls(Needy(node, part.first, Width(part)))| <= cap;
    }
  }

  lemma DeliveredIff(node: Node, cap: nat, from: nat, to: nat, blocks: seq<Raw>, b: Raw)
    requires Capped(node, cap) && Delivers(node, from, to, blocks)
    ensures b in blocks <==> from <= b.number <= to && Whole(node, b.number) == Some(b) && Fits(node, cap, b)
  {
    BringsIff(node, cap, from, to, b);
  }

  /** The halving fetch is the one-shot fetch exactly when every whole block of the range fits. */
  lemma HalvingIsOneShotIff(node: Node, cap: nat, from: nat, to: nat, blocks: seq<Raw>)
    requires Capped(node, cap) && from <= to && Delivers(node, from, to, blocks)
    ensures blocks == OneShot(node, from, to + 1 - from) <==>
            forall b :: b in OneShot(node, from, to + 1 - from) ==> Fits(node, cap, b)
  {
    var all := OneShot(node, from, to + 1 - from);
    forall b ensures b in blocks <==> b in all && Fits(node, cap, b) {
      OneShotIsEveryWhole(node, from, to + 1 - from, b);
      DeliveredIff(node, cap, from, to, blocks, b);
    }
    OneShotIsInOrder(node, from, to + 1 - from);
    if forall b :: b in all ==> Fits(node, cap, b) { OrderDetermines(blocks, all); }
  }

  /** So it is for every cap when the node serves block receipts. */
  lemma HalvingIsOneShot(node: Node, cap: nat, from: nat, to: nat, blocks: seq<Raw>)
    requires Capped(node, cap) && from <= to && Delivers(node, from, to, blocks)
    requires forall n :: from <= n <= to && HasBlock(node, n) && HashesAt(node, n) != [] ==>
      BlockReceiptsServed(node, n)
    ensures blocks == OneShot(node, from, to + 1 - from)
  {
    forall b | b in OneShot(node, from, to + 1 - from) ensures Fits(node, cap, b) {
      OneShotIsEveryWhole(node, from, to + 1 - from, b);
    }
    HalvingIsOneShotIff(node, cap, from, to, blocks);
  }

  /** What a node without `eth_getBlockReceipts` answers; each block has two transactions. */
  function Answer(call: Call): Result {
    match call
    case GetBlock(n) => Ok(BlockValue(n, [2 * n, 2 * n + 1]))
    case GetReceipt(h) => Ok(Receipt(h))
    case GetBlockReceipts(_) => Err
  }

  function InTurn(calls: seq<Call>): seq<Item> {
    seq(|calls|, i requires 0 <= i < |calls| => Item(Some(i + 1), Answer(calls[i])))
  }

  /** That node, taking one call at a time. */
  function OneAtATime(): Node { Node(Answer, InTurn, calls => |calls| > 1, calls => false, h => h) }

  lemma InTurnIsFaithful(calls: seq<Call>)
    ensures Faithful(OneAtATime(), calls, InTurn(calls))
  {
    var items := InTurn(calls);
    forall i | 0 <= i < |calls| ensures AnswerTo(OneAtATime(), calls, i) in items {
      assert items[i] == AnswerTo(OneAtATime(), calls, i);
    }
  }

  lemma OneAtATimeIsCoherent()
    ensures Coherent(OneAtATime()) && Capped(OneAtATime(), 1)
  {
    forall calls ensures Faithful(OneAtATime(), calls, InTurn(calls)) { InTurnIsFaithful(calls); }
    assert forall calls :: OneAtATime().respond(calls) == InTurn(calls);
  }

  /** Of that node, every block is there with its receipts, and the fetch leaves it out, now and at
      every further try: its two receipts do not fit one batch. */
  lemma DroppedBlock(n: nat, blocks: seq<Raw>)
    requires Delivers(OneAtATime(), n, n, blocks)
    ensures Coherent(OneAtATime()) && Capped(OneAtATime(), 1)
    ensures OneShot(OneAtATime(), n, 1) == [Raw(n, [2 * n, 2 * n + 1], Some([2 * n, 2 * n + 1]))] && blocks == []
  {
    OneAtATimeIsCoherent();
    WholeOfTwo(n);
    assert OneShot(OneAtATime(), n, 1) == OneShot(OneAtATime(), n, 0) + [Whole(OneAtATime(), n).value];
    forall b ensures b !in blocks {
      DeliveredIff(OneAtATime(), 1, n, n, blocks, b);
      WholeOfTwo(b.number);
    }
    FirstIsIn(blocks);
  }

  lemma WholeOfTwo(n: nat)
    ensures Whole(OneAtATime(), n) == Some(Raw(n, [2 * n, 2 * n + 1], Some([2 * n, 2 * n + 1])))
    ensures !BlockReceiptsServed(OneAtATime(), n)
  {
    var hashes := HashesAt(OneAtATime(), n);
    assert hashes == [2 * n, 2 * n + 1];
    assert Receipts(OneAtATime(), hashes) == hashes;
  }

  // ------------------------------------------------------- the halving fetch

  lemma BringsInHalves(node: Node, from: nat, mid: nat, to: nat, low: seq<Raw>, high: seq<Raw>, b: Raw)
    requires from < to && mid == from + (to - from) / 2 && !Accepts(node, BlockCalls(from, to + 1 - from))
    requires (b in low <==> Brings(node, from, mid, b)) && (b in high <==> Brings(node, mid + 1, to, b))
    ensures b in low + high <==> Brings(node, from, to, b)
  {
    assert Brings(node, from, to, b) <==> Brings(node, from, mid, b) || Brings(node, mid + 1, to, b);
  }

  lemma OrderJoins(low: seq<Raw>, high: seq<Raw>, mid: nat)
    requires InOrder(low) && InOrder(high)
    requires (forall b :: b in low ==> b.number <= mid) && (forall b :: b in high ==> b.number > mid)
    ensures InOrder(low + high)
  {
    forall i, j | 0 <= i < |low| && 0 <= j < |high| ensures low[i].number < high[j].number {
      assert low[i] in low && high[j] in high;
    }
  }

  /** Two halves of a refused range make the range. */
  lemma HalvesJoin(node: Node, from: nat, mid: nat, to: nat, low: seq<Raw>, high: seq<Raw>)
    requires from < to && mid == from + (to - from) / 2 && !Accepts(node, BlockCalls(from, to + 1 - from))
    requires AllBroughtIn(node, from, mid, low) && AllBroughtIn(node, mid + 1, to, high)
    ensures AllBroughtIn(node, from, to, low + high)
  {
    forall b ensures b in low + high <==> Brings(node, from, to, b) {
      BringsInHalves(node, from, mid, to, low, high, b);
    }
  }

  lemma HalvesMake(node: Node, from: nat, mid: nat, to: nat, low: seq<Raw>, high: seq<Raw>)
    requires from < to && mid == from + (to - from) / 2 && !Accepts(node, BlockCalls(from, to + 1 - from))
    requires Delivers(node, from, mid, low) && Delivers(node, mid + 1, to, high)
    ensures Delivers(node, from, to, low + high)
  {
    OrderJoins(low, high, mid);
    HalvesJoin(node, from, mid, to, low, high);
  }

  /** What is delivered is sound. */
  lemma DeliveredIsSound(node: Node, from: nat, to: nat, blocks: seq<Raw>)
    requires Delivers(node, from, to, blocks)
    ensures Sound(node, from, to, blocks)
  {
  }

  /** The blocks of `n` heights from `from`, without receipts. */
  function Bare(node: Node, from: nat, n: nat): seq<Raw> {
    if n == 0 then []
    else
      var h := from + n - 1;
      Bare(node, from, n - 1) + if HasBlock(node, h) then [Raw(h, HashesAt(node, h), None)] else []
  }

  /** A bare block of the node's, that has transactions or none. */
  ghost predicate IsBare(node: Node, b: Raw) {
    HasBlock(node, b.number) && b == Raw(b.number, HashesAt(node, b.number), None)
  }

  lemma {:induction false} InBare(node: Node, from: nat, n: nat, b: Raw)
    ensures b in Bare(node, from, n) <==> from <= b.number < from + n && IsBare(node, b)
  {
    if n > 0 { InBare(node, from, n - 1, b); }
  }

  lemma {:induction false} BareIsEveryBlock(node: Node, from: nat, n: nat)
    ensures InOrder(Bare(node, from, n))
    ensures forall b :: b in Bare(node, from, n) <==> from <= b.number < from + n && IsBare(node, b)
  {
    forall b ensures b in Bare(node, from, n) <==> from <= b.number < from + n && IsBare(node, b) {
      InBare(node, from, n, b);
    }
    if n > 0 {
      BareIsEveryBlock(node, from, n - 1);
      var prior := Bare(node, from, n - 1);
      forall i | 0 <= i < |prior| ensures prior[i].number < from + n - 1 { assert prior[i] in prior; }
    }
  }

  predicate Complete(b: Raw) { b.receipts.Some? || b.hashes == [] }

  /** `without_missing_receipts`. */
  function Kept(blocks: seq<Raw>): seq<Raw> {
    if blocks == [] then []
    else Kept(blocks[..|blocks| - 1]) + if Complete(blocks[|blocks| - 1]) then [blocks[|blocks| - 1]] else []
  }

  lemma {:induction false} KeptIsEveryComplete(blocks: seq<Raw>)
    requires InOrder(blocks)
    ensures InOrder(Kept(blocks))
    ensures forall b :: b in Kept(blocks) <==> b in blocks && Complete(b)
  {
    if blocks != [] {
      var front, last := blocks[..|blocks| - 1], blocks[|blocks| - 1];
      assert blocks == front + [last];
      KeptIsEveryComplete(front);
      forall i | 0 <= i < |Kept(front)| ensures Kept(front)[i].number < last.number { assert Kept(front)[i] in front; }
    }
  }

  /** `b` is bare block `a`, or `a` with the receipts of all its transactions. */
  ghost predicate Dressing(node: Node, a: Raw, b: Raw) {
    b == a || (a.hashes != [] && b.receipts.Some? && Whole(node, a.number) == Some(b))
  }

  ghost predicate AllDressing(node: Node, bare: seq<Raw>, blocks: seq<Raw>) {
    |blocks| == |bare| && forall k :: 0 <= k < |bare| ==> Dressing(node, bare[k], blocks[k])
  }

  lemma KeptIsSound(node: Node, from: nat, to: nat, blocks: seq<Raw>)
    requires from <= to && AllDressing(node, Bare(node, from, to + 1 - from), blocks)
    ensures InOrder(blocks) && Sound(node, from, to, Kept(blocks))
  {
    var bare := Bare(node, from, to + 1 - from);
    BareIsEveryBlock(node, from, to + 1 - from);
    forall k | 0 <= k < |blocks| ensures blocks[k].number == bare[k].number { assert bare[k] in bare; }
    KeptIsEveryComplete(blocks);
    forall b | b in Kept(blocks) ensures from <= b.number <= to && Whole(node, b.number) == Some(b) {
      var k :| 0 <= k < |blocks| && blocks[k] == b;
      assert bare[k] in bare;
    }
  }

  /** The blocks of a range the node gave in one batch, complete exactly where they can be. */
  ghost predicate BestEffort(node: Node, from: nat, to: nat, blocks: seq<Raw>) {
    from <= to && forall b :: b in blocks ==> (Complete(b) <==> Reaches(node, Chunk(from, to), b.number))
  }

  /** Dropping the blocks still short of receipts leaves all that can be had. */
  lemma KeptIsDelivered(node: Node, from: nat, to: nat, blocks: seq<Raw>)
    requires from <= to && AllDressing(node, Bare(node, from, to + 1 - from), blocks)
    requires Accepts(node, BlockCalls(from, to + 1 - from)) && BestEffort(node, from, to, blocks)
    ensures Delivers(node, from, to, Kept(blocks))
  {
    KeptIsSound(node, from, to, blocks);
    forall b ensures b in Kept(blocks) <==> Brings(node, from, to, b) {
      KeptIsEveryComplete(blocks);
      if Brings(node, from, to, b) {
        BlockIsThere(node, from, to, blocks, b.number);
      }
    }
  }

  lemma BlockIsThere(node: Node, from: nat, to: nat, blocks: seq<Raw>, n: nat)
    requires from <= to && AllDressing(node, Bare(node, from, to + 1 - from), blocks)
    requires BestEffort(node, from, to, blocks) && from <= n <= to && Reaches(node, Chunk(from, to), n)
    ensures Dressed(node, n) in blocks && Complete(Dressed(node, n))
  {
    var bare := Bare(node, from, to + 1 - from);
    BareIsEveryBlock(node, from, to + 1 - from);
    var a := Raw(n, HashesAt(node, n), None);
    assert a in bare;
    var k :| 0 <= k < |bare| && bare[k] == a;
    assert blocks[k] in blocks;
  }

  /** Fetch a range of blocks with their receipts; a refused range is split. There is a result unless
      a request for blocks went unanswered, and it is exactly the whole blocks whose receipts come
      with their part's or singly, whichever requests were refused or, for receipts, unanswered. */
  method FetchRawBlocks(node: Node, from: nat, to: nat) returns (r: Option<seq<Raw>>)
    requires Coherent(node)
    ensures r.Some? <==> Heard(node, from, to)
    ensures r.Some? ==> Delivers(node, from, to, r.value) && Sound(node, from, to, r.value)
    decreases if from <= to then 1 + to - from else 0, 1
  {
    if from > to {
      return Some([]);
    }
    var outcome := BatchCall(node, BlockCalls(from, to + 1 - from));
    if outcome.RefusedWhole? && from < to {
      r := FetchHalves(node, from, to);
      return;
    }
    if !outcome.Results? {
      return None;
    }
    var bare, need := Blocks(node, from, outcome.results);
    var blocks := AttachReceipts(node, from, to, bare, need);
    KeptIsDelivered(node, from, to, blocks);
    DeliveredIsSound(node, from, to, Kept(blocks));
    r := Some(Kept(blocks));
  }

  function NumbersOf(blocks: seq<Raw>): (ns: seq<nat>)
    ensures |ns| == |blocks| && forall i :: 0 <= i < |blocks| ==> ns[i] == blocks[i].number
  {
    seq(|blocks|, i requires 0 <= i < |blocks| => blocks[i].number)
  }

  /** What comes back for a chunk is an answer a parallel fetch can collect. */
  lemma SoundIsAnAnswer(node: Node, c: Chunk, blocks: seq<Raw>)
    requires Sound(node, c.first, c.last, blocks)
    ensures Ascending(NumbersOf(blocks)) && forall h :: h in NumbersOf(blocks) ==> c.first <= h <= c.last
  {
    forall h | h in NumbersOf(blocks) ensures c.first <= h <= c.last {
      var i :| 0 <= i < |blocks| && NumbersOf(blocks)[i] == h;
      assert blocks[i] in blocks;
    }
  }

  method FetchHalves(node: Node, from: nat, to: nat) returns (r: Option<seq<Raw>>)
    requires Coherent(node) && from < to
    requires !Accepts(node, BlockCalls(from, to + 1 - from)) && !node.silent(BlockCalls(from, to + 1 - from))
    ensures r.Some? <==> Heard(node, from, to)
    ensures r.Some? ==> Delivers(node, from, to, r.value) && Sound(node, from, to, r.value)
    decreases 1 + to - from, 0
  {
    var mid := from + (to - from) / 2;
    r := FetchRawBlocks(node, from, mid);
    if r.Some? {
      var high := FetchRawBlocks(node, mid + 1, to);
      if high.Some? {
        HalvesMake(node, from, mid, to, r.value, high.value);
        DeliveredIsSound(node, from, to, r.value + high.value);
      }
      r := if high.Some? then Some(r.value + high.value) else None;
    }
  }

  /** The position in a list of blocks, and the height, of one that needs receipts. */
  datatype Need = Need(at: nat, number: nat)

  function NeedNumbers(need: seq<Need>): seq<nat> { seq(|need|, i requires 0 <= i < |need| => need[i].number) }

  /** `need` names exactly the blocks of the list that have transactions. */
  ghost predicate Needed(blocks: seq<Raw>, need: seq<Need>) {
    && (forall i :: 0 <= i < |need| ==>
          need[i].at < |blocks| && blocks[need[i].at].hashes != [] && blocks[need[i].at].number == need[i].number)
    && (forall k :: 0 <= k < |blocks| && blocks[k].hashes != [] ==> exists i :: 0 <= i < |need| && need[i].at == k)
  }

  /** The first `n` heights from `from` that have a block, without receipts, and which need them. */
  ghost predicate Gathered(node: Node, from: nat, n: nat, blocks: seq<Raw>, need: seq<Need>) {
    blocks == Bare(node, from, n) && Needed(blocks, need) && NeedNumbers(need) == Needy(node, from, n)
  }

  /** The heights that came back with a block, in order, and which of them need receipts. */
  method Blocks(node: Node, from: nat, results: seq<Result>) returns (blocks: seq<Raw>, need: seq<Need>)
    requires Coherent(node)
    requires forall i :: 0 <= i < |results| ==> results[i] == node.one(GetBlock(from + i))
    ensures Gathered(node, from, |results|, blocks, need)
  {
    blocks, need := [], [];
    for i := 0 to |results|
      invariant Gathered(node, from, i, blocks, need)
    {
      assert results[i] == node.one(GetBlock(from + i));
      GatheredNext(node, from, i, blocks, need);
      if results[i].Ok? && results[i].value.BlockValue? {
        if results[i].value.hashes != [] {
          need := need + [Need(|blocks|, from + i)];
        }
        blocks := blocks + [Raw(from + i, results[i].value.hashes, None)];
      }
    }
  }

  lemma GatheredNext(node: Node, from: nat, i: nat, blocks: seq<Raw>, need: seq<Need>)
    requires Gathered(node, from, i, blocks, need)
    ensures
      if HasBlock(node, from + i) then
        var hashes := HashesAt(node, from + i);
        Gathered(node, from, i + 1, blocks + [Raw(from + i, hashes, None)],
                 if hashes != [] then need + [Need(|blocks|, from + i)] else need)
      else Gathered(node, from, i + 1, blocks, need)
  {
    if HasBlock(node, from + i) { NeededSnoc(blocks, need, Raw(from + i, HashesAt(node, from + i), None)); }
  }

  /** Receipts for the blocks that need them: a batch for all of them, then block by block. */
  method AttachReceipts(node: Node, ghost from: nat, ghost to: nat, bare: seq<Raw>, need: seq<Need>)
    returns (blocks: seq<Raw>)
    requires Coherent(node) && from <= to && bare == Bare(node, from, to + 1 - from)
    requires Needed(bare, need) && NeedNumbers(need) == Needy(node, from, to + 1 - from)
    ensures AllDressing(node, bare, blocks)
    ensures BestEffort(node, from, to, blocks)
  {
    forall b | b in bare ensures IsBare(node, b) { BareIsEveryBlock(node, from, to + 1 - from); }
    if need == [] {
      AttachedAreBest(node, from, to, bare, bare, bare);
      return bare;
    }
    var some := AttachBlockReceipts(node, bare, need);
    blocks := AttachEachReceipt(node, bare, some, need);
    AttachedAreBest(node, from, to, bare, some, blocks);
  }

  /** One batch of `eth_getBlockReceipts`; a failed one leaves the blocks as they were. */
  method AttachBlockReceipts(node: Node, bare: seq<Raw>, need: seq<Need>) returns (blocks: seq<Raw>)
    requires Coherent(node) && Needed(bare, need) && forall b :: b in bare ==> IsBare(node, b)
    ensures AllDressing(node, bare, blocks)
    ensures forall k :: 0 <= k < |bare| && blocks[k] != bare[k] ==> BlockReceiptsServed(node, bare[k].number)
    ensures forall k :: 0 <= k < |bare| && bare[k].hashes != [] ==>
      (blocks[k].receipts.Some? <==>
       BlockReceiptsServed(node, bare[k].number) && Gives(node, BlockReceiptCalls(NeedNumbers(need))))
  {
    blocks := bare;
    var calls := BlockReceiptCalls(NeedNumbers(need));
    var outcome := BatchCall(node, calls);
    if outcome.Results? {
      for i := 0 to |need|
        invariant AllDressing(node, bare, blocks)
        invariant forall k :: 0 <= k < |bare| && blocks[k] != bare[k] ==> BlockReceiptsServed(node, bare[k].number)
        invariant forall j :: 0 <= j < i && BlockReceiptsServed(node, need[j].number) ==>
          blocks[need[j].at].receipts.Some?
      {
        var k := need[i].at;
        assert bare[k] in bare;
        assert outcome.results[i] == node.one(GetBlockReceipts(bare[k].number));
        if outcome.results[i].Ok? && !outcome.results[i].value.Null? {
          blocks := blocks[k := blocks[k].(receipts := Some(outcome.results[i].value.receipts))];
        }
      }
    }
    forall k | 0 <= k < |bare| ensures bare[k].receipts == None { assert bare[k] in bare; }
  }

  /** The fallback, block by block by transaction hash. It touches only blocks that lack receipts
      and leaves the others exactly as they were. */
  method AttachEachReceipt(node: Node, ghost bare: seq<Raw>, some: seq<Raw>, need: seq<Need>)
    returns (blocks: seq<Raw>)
    requires Coherent(node) && Needed(bare, need) && AllDressing(node, bare, some)
    requires forall b :: b in bare ==> IsBare(node, b)
    ensures AllDressing(node, bare, blocks)
    ensures forall k :: 0 <= k < |bare| && (some[k].receipts.Some? || bare[k].hashes == []) ==> blocks[k] == some[k]
    ensures forall k :: 0 <= k < |bare| && bare[k].hashes != [] ==>
      (blocks[k].receipts.Some? <==> some[k].receipts.Some? || ReceiptsComeSingly(node, bare[k].hashes))
  {
    blocks := some;
    for i := 0 to |need|
      invariant AllDressing(node, bare, blocks)
      invariant forall k :: 0 <= k < |bare| && (some[k].receipts.Some? || bare[k].hashes == []) ==> blocks[k] == some[k]
      invariant forall k :: 0 <= k < |bare| && blocks[k] != some[k] ==> ReceiptsComeSingly(node, bare[k].hashes)
      invariant forall j :: 0 <= j < i ==>
        (blocks[need[j].at].receipts.Some? <== ReceiptsComeSingly(node, bare[need[j].at].hashes))
    {
      var k := need[i].at;
      assert bare[k] in bare && Dressing(node, bare[k], blocks[k]);
      if blocks[k].receipts == None {
        var receipts := ReceiptsOneByOne(node, blocks[k].hashes);
        if receipts.Some? {
          blocks := blocks[k := blocks[k].(receipts := receipts)];
        }
      }
    }
  }

  method ReceiptsOneByOne(node: Node, hashes: seq<nat>) returns (receipts: Option<seq<nat>>)
    requires Coherent(node)
    ensures receipts == if ReceiptsComeSingly(node, hashes) then Some(Receipts(node, hashes)) else None
  {
    var outcome := BatchCall(node, ReceiptCalls(hashes));
    if !outcome.Results? {
      return None;
    }
    receipts := Some([]);
    for i := 0 to |hashes|
      invariant receipts.Some? ==> receipts.value == Receipts(node, hashes[..i])
      invariant receipts.Some? <==> EachServed(node, hashes[..i])
    {
      assert hashes[..i + 1] == hashes[..i] + [hashes[i]];
      assert outcome.results[i] == node.one(GetReceipt(hashes[i]));
      if receipts.Some? && outcome.results[i].Ok? && !outcome.results[i].value.Null? {
        receipts := Some(receipts.value + [outcome.results[i].value.data]);
      } else {
        receipts := None;
      }
    }
    assert hashes[..|hashes|] == hashes;
  }

  lemma NeededSnoc(blocks: seq<Raw>, need: seq<Need>, b: Raw)
    requires Needed(blocks, need)
    ensures
      var more := if b.hashes != [] then need + [Need(|blocks|, b.number)] else need;
      && Needed(blocks + [b], more)
      && NeedNumbers(more) == NeedNumbers(need) + if b.hashes != [] then [b.number] else []
  {
    var more := if b.hashes != [] then need + [Need(|blocks|, b.number)] else need;
    forall k | 0 <= k <= |blocks| && (blocks + [b])[k].hashes != []
        ensures exists i :: 0 <= i < |more| && more[i].at == k {
      if k < |blocks| {
        var i :| 0 <= i < |need| && need[i].at == k;
        assert more[i].at == k;
      } else {
        assert more[|need|].at == k;
      }
    }
  }

  lemma AttachedAreBest(node: Node, from: nat, to: nat, bare: seq<Raw>, some: seq<Raw>, blocks: seq<Raw>)
    requires from <= to && AllDressing(node, bare, some) && AllDressing(node, bare, blocks)
    requires forall b :: b in bare ==> IsBare(node, b)
    requires forall k :: 0 <= k < |bare| && bare[k].hashes != [] ==>
      (some[k].receipts.Some? <==> ReceiptsComeWithTheirs(node, Chunk(from, to), bare[k].number))
    requires forall k :: 0 <= k < |bare| && bare[k].hashes != [] ==>
      (blocks[k].receipts.Some? <==> some[k].receipts.Some? || ReceiptsComeSingly(node, bare[k].hashes))
    ensures BestEffort(node, from, to, blocks)
  {
    forall b | b in blocks ensures Complete(b) <==> Reaches(node, Chunk(from, to), b.number) {
      var k :| 0 <= k < |blocks| && blocks[k] == b;
      assert bare[k] in bare;
    }
  }
}
