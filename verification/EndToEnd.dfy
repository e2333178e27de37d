/** The protocol and the ledger put together: the protocol decides which blocks the ledger holds,
    and what it guarantees is what the ledger rests on. */
module EndToEnd {
  import Index = IndexProtocol
  import opened RangeFetch
  import opened Balances
  import opened Schema
  import opened LedgerRuns
  import opened GenesisPass

  /** The two loops and the writer above one database. */
  datatype Explorer = Explorer(index: Index.State, ledger: System)

  datatype Event =
    | Indexing(step: Index.Action)                   // a loop or the channel moves
    | Writing(bundles: seq<Bundle>)                  // the writer's batch is committed
    | Ledgering(act: GenesisPass.Action)             // anything else that touches the tables
    | Restart

  function Heights(bundles: seq<Bundle>): seq<nat> {
    seq(|bundles|, i requires 0 <= i < |bundles| => bundles[i].number)
  }

  ghost predicate Happens(c: Chain, e: Explorer, ev: Event, e': Explorer) {
    match ev
    case Indexing(step) =>
      && !step.Commit? && !step.Crash?
      && Index.Acts(e.index, step, e'.index) && Index.Guarded(e.index, step) && e'.ledger == e.ledger
    case Writing(bundles) =>
      && Heights(bundles) == e.index.held
      && Index.Acts(e.index, Index.Commit, e'.index)
      && GenesisPass.Acts(c, e.ledger, Commit(Write(bundles)), e'.ledger)
    case Ledgering(act) =>
      && !(act.Commit? && act.op.Write?)
      && GenesisPass.Acts(c, e.ledger, act, e'.ledger) && e'.index == e.index
    case Restart =>
      && Index.Acts(e.index, Index.Crash, e'.index)
      && GenesisPass.Acts(c, e.ledger, Abandon, e'.ledger)
  }

  const FRESH: Explorer := Explorer(Index.State({}, [], [], Index.Stopped, Index.Off), System(EMPTY, CaughtUp))

  ghost predicate Life(c: Chain, evs: seq<Event>, es: seq<Explorer>) {
    && |es| == |evs| + 1
    && es[0] == FRESH
    && (forall i :: 0 <= i < |evs| ==> Happens(c, es[i], evs[i], es[i + 1]))
  }

  ghost predicate Sound(c: Chain, e: Explorer, lo: nat, hi: nat) {
    && Index.Inv(e.index, lo, hi)
    && SystemInv(c, e.ledger)
    && e.ledger.db.blocks.Keys == e.index.stored
  }

  lemma HeightsAreNumbers(bundles: seq<Bundle>)
    ensures Elements(Heights(bundles)) == Numbers(bundles)
  {
    forall n | n in Numbers(bundles) ensures n in Heights(bundles) {
      var b :| b in bundles && b.number == n;
      var i :| 0 <= i < |bundles| && bundles[i] == b;
      assert Heights(bundles)[i] == n;
    }
  }

  /** Only a block batch changes which heights the tables hold. */
  lemma OnlyWritesAdd(c: Chain, s: System, act: GenesisPass.Action, s': System)
    requires !(act.Commit? && act.op.Write?) && GenesisPass.Acts(c, s, act, s')
    ensures s'.db.blocks == s.db.blocks
  {
  }

  /** The step of the protocol, and that of the ledger, an event stands for, where it stands for one. */
  function ProtocolStep(ev: Event): Index.Action {
    match ev
    case Indexing(step) => step
    case Writing(_) => Index.Commit
    case _ => Index.Crash
  }

  function LedgerStep(ev: Event): GenesisPass.Action {
    match ev
    case Writing(bundles) => Commit(Write(bundles))
    case Ledgering(act) => act
    case _ => Abandon
  }

  lemma HappensKeepsSound(c: Chain, e: Explorer, ev: Event, e': Explorer, lo: nat, hi: nat) returns (lo': nat, hi': nat)
    requires WellFormed(c) && Sound(c, e, lo, hi) && Happens(c, e, ev, e')
    ensures Sound(c, e', lo', hi')
  {
    lo', hi' := lo, hi;
    if !ev.Ledgering? {
      lo', hi' := Index.ActKeepsInv(e.index, ProtocolStep(ev), e'.index, lo, hi);
      Index.StoredGrows(e.index, ProtocolStep(ev), e'.index);
    }
    if !ev.Indexing? {
      ActKeepsTables(c, e.ledger, LedgerStep(ev), e'.ledger);
      ActKeepsCursor(c, e.ledger, LedgerStep(ev), e'.ledger);
    }
    if ev.Writing? {
      WroteBlocks(c, e.ledger.db.blocks, ev.bundles);
      HeightsAreNumbers(ev.bundles);
    } else if !ev.Indexing? {
      OnlyWritesAdd(c, e.ledger, LedgerStep(ev), e'.ledger);
    }
  }

  lemma FreshIsSound(c: Chain, e: Explorer) returns (lo: nat, hi: nat)
    requires e == FRESH
    ensures Sound(c, e, lo, hi)
  {
    lo, hi := Index.FreshStart({});
  }

  lemma LifeStep(c: Chain, evs: seq<Event>, es: seq<Explorer>, n: nat, lo: nat, hi: nat) returns (lo': nat, hi': nat)
    requires WellFormed(c) && Life(c, evs, es) && 0 < n <= |evs| && Sound(c, es[n - 1], lo, hi)
    ensures Sound(c, es[n], lo', hi')
  {
    var e, ev, e' := es[n - 1], evs[n - 1], es[n];
    lo', hi' := HappensKeepsSound(c, e, ev, e', lo, hi);
  }

  /** At every state the stored blocks are one gapless run and the ledger is theirs. */
  lemma {:induction false} LifeIsSound(c: Chain, evs: seq<Event>, es: seq<Explorer>, n: nat) returns (lo: nat, hi: nat)
    requires WellFormed(c) && Life(c, evs, es) && n <= |evs|
    ensures Sound(c, es[n], lo, hi)
  {
    if n == 0 {
      lo, hi := FreshIsSound(c, es[0]);
    } else {
      lo, hi := LifeIsSound(c, evs, es, n - 1);
      lo, hi := LifeStep(c, evs, es, n, lo, hi);
    }
  }

  /** From an empty database, whatever was fetched, lost, retried or restarted on the way: once
      backfill has reached block 1, the pipe is drained and the genesis pass has caught up,
      every holder but the zero address has exactly its balance on chain, if a transfer ever
      named it or it held nothing at genesis, and otherwise has not. */
  lemma IndexedBalancesAreExact(c: Chain, evs: seq<Event>, es: seq<Explorer>, n: nat, a: Account)
    requires WellFormed(c) && Life(c, evs, es) && n <= |evs|
    requires
      var x := es[n].index;
      x.fwd.Idle? && x.fwd.sent > 0 && x.back == Index.Waiting(Some(1)) && x.held == [] && x.queue == []
    requires CaughtUpWith(es[n].ledger.db) && a.holder != ZERO_ADDRESS
    ensures
      var (head, db) := (es[n].index.fwd.sent, es[n].ledger.db);
      Stored(db.balances, a) == ChainBalance(c, head, a) <==> Seen(c, head, a) || c.genesis(a) == 0
  {
    var lo, hi := LifeIsSound(c, evs, es, n);
    var x := es[n].index;
    assert Index.Pipe(x) == [] && x.stored + Elements([]) == x.stored;
    assert Complete(es[n].ledger.db, x.fwd.sent);
    ExactBalances(c, es[n].ledger, x.fwd.sent, a);
  }

  /** And it is the pass's own answer that tells: so are the balances in the state in which a read of
      at least one row comes back with nothing left to ask. */
  lemma CaughtUpAnswerIsExact(c: Chain, evs: seq<Event>, es: seq<Explorer>, n: nat, limit: nat, a: Account)
    requires WellFormed(c) && Life(c, evs, es) && n < |evs| && evs[n] == Ledgering(ReadHolders(limit)) && limit >= 1
    requires
      var x := es[n].index;
      x.fwd.Idle? && x.fwd.sent > 0 && x.back == Index.Waiting(Some(1)) && x.held == [] && x.queue == []
    requires es[n + 1].ledger.pending == CaughtUp && a.holder != ZERO_ADDRESS
    ensures
      var (head, db) := (es[n].index.fwd.sent, es[n + 1].ledger.db);
      Stored(db.balances, a) == ChainBalance(c, head, a) <==> Seen(c, head, a) || c.genesis(a) == 0
  {
    var lo, hi := LifeIsSound(c, evs, es, n);
    assert Happens(c, es[n], evs[n], es[n + 1]);
    CaughtUpIff(es[n].ledger.db, limit, es[n + 1].ledger.pending);
    IndexedBalancesAreExact(c, evs, es, n, a);
  }

  // ------------------------------------------- a balance that stays short

  ghost predicate Lives(c: Chain, e: Explorer) {
    exists evs, es :: Life(c, evs, es) && es[|evs|] == e
  }

  lemma LifeGoesOn(c: Chain, evs: seq<Event>, es: seq<Explorer>, ev: Event, e': Explorer)
    requires Life(c, evs, es) && Happens(c, es[|evs|], ev, e')
    ensures Life(c, evs + [ev], es + [e'])
  {
  }

  lemma Then(c: Chain, e: Explorer, ev: Event, e': Explorer)
    requires Lives(c, e) && Happens(c, e, ev, e')
    ensures Lives(c, e')
  {
    var evs, es :| Life(c, evs, es) && es[|evs|] == e;
    LifeGoesOn(c, evs, es, ev, e');
  }

  lemma ThenIndexing(c: Chain, x: Index.State, step: Index.Action, x': Index.State, ledger: System)
    requires Lives(c, Explorer(x, ledger)) && Index.Acts(x, step, x')
    requires !step.Commit? && !step.Crash? && !step.BackReread?
    ensures Lives(c, Explorer(x', ledger))
  {
    Then(c, Explorer(x, ledger), Indexing(step), Explorer(x', ledger));
  }

  /** The backfill loop hands over block 1 of a chain of one. */
  lemma BlockHandedOver(c: Chain)
    ensures Lives(c, Explorer(Index.State({}, [], [1], Index.Stopped, Index.Waiting(Some(1))), System(EMPTY, CaughtUp)))
  {
    var ledger := System(EMPTY, CaughtUp);
    assert Life(c, [], [FRESH]);
    var x0 := Index.State({}, [], [], Index.Stopped, Index.Off);
    var x1 := x0.(back := Index.Waiting(None));
    ThenIndexing(c, x0, Index.BackStart, x1, ledger);
    var x2 := x1.(back := Index.Feeding([1], 1));
    Index.LoneBlockFeeds(x1, 1);
    ThenIndexing(c, x1, Index.BackSeedFetch(1, 1, {1}), x2, ledger);
    var x3 := x2.(queue := [] + [1], back := Index.Feeding([], 1));
    Index.LoneBlockSends(x2, 1);
    ThenIndexing(c, x2, Index.BackSend, x3, ledger);
    ThenIndexing(c, x3, Index.BackDone, x3.(back := Index.Waiting(Some(1))), ledger);
    assert [] + [1] == [1];
  }

  lemma BlockTaken(c: Chain)
    ensures Lives(c, Explorer(Index.State({}, [1], [], Index.Stopped, Index.Waiting(Some(1))), System(EMPTY, CaughtUp)))
  {
    BlockHandedOver(c);
    var x := Index.State({}, [], [1], Index.Stopped, Index.Waiting(Some(1)));
    assert [1][..1] == [1] && [1][1..] == [];
    ThenIndexing(c, x, Index.WriterTake(1), x.(held := [1], queue := []), System(EMPTY, CaughtUp));
  }

  /** The chain's first block, when there is nothing in it. */
  ghost predicate FirstIsEmpty(c: Chain, b: Bundle) {
    From(c, b) && b.number == 1 && b.txs == [] && b.transfers == [] && b.tokens == []
  }

  /** The tables with that block alone. */
  function WithOne(b: Bundle): Tables { EMPTY.(blocks := map[b.number := b.header], blockCount := 1) }

  lemma EmptyBlockRows(b: Bundle)
    requires b.txs == [] && b.transfers == [] && b.tokens == []
    ensures WroteRows(EMPTY, [b], WithOne(b)) && TxGains(map[], [b]) == 0
  {
    assert [b][..0] == [];
    assert AllTransfers([b]) == AllTransfers([]) + [];
    assert NewTo(EMPTY.transfers, []) == [];
    assert AllTokens([b]) == {};
  }

  lemma EmptyBlockStep(c: Chain, b: Bundle)
    requires FirstIsEmpty(c, b)
    ensures GenesisPass.Acts(c, System(EMPTY, CaughtUp), Commit(Write([b])), System(WithOne(b), CaughtUp))
  {
    EmptyBlockRows(b);
  }

  lemma BlockWritten(c: Chain, b: Bundle)
    requires FirstIsEmpty(c, b)
    ensures Lives(c, Explorer(Index.State({1}, [], [], Index.Stopped, Index.Waiting(Some(1))), System(WithOne(b),
      CaughtUp)))
  {
    BlockTaken(c);
    var x := Index.State({}, [1], [], Index.Stopped, Index.Waiting(Some(1)));
    var x' := x.(stored := {1}, held := []);
    OneCommitted(x, x', b);
    EmptyBlockStep(c, b);
    Then(c, Explorer(x, System(EMPTY, CaughtUp)), Writing([b]), Explorer(x', System(WithOne(b), CaughtUp)));
  }

  lemma OneCommitted(x: Index.State, x': Index.State, b: Bundle)
    requires x.stored == {} && x.held == [1] && b.number == 1 && x' == x.(stored := {1}, held := [])
    ensures Index.Acts(x, Index.Commit, x') && Heights([b]) == [1]
  {
    assert {} + Elements([1]) == {1};
  }

  /** The failing side of `IndexedBalancesAreExact`, reached from an empty database: the chain's
      one block, with nothing in it, is stored, the pipe is drained and the genesis pass has
      nothing left to read, yet an account that was funded at genesis reads zero. */
  lemma BalanceStaysShort(c: Chain, b: Bundle, a: Account)
    requires WellFormed(c) && FirstIsEmpty(c, b) && c.genesis(a) != 0
    ensures
      var e := Explorer(Index.State({1}, [], [], Index.Idle(1), Index.Waiting(Some(1))), System(WithOne(b), CaughtUp));
      && Lives(c, e) && CaughtUpWith(e.ledger.db) && Complete(e.ledger.db, 1)
      && Stored(e.ledger.db.balances, a) == 0 && ChainBalance(c, 1, a) == c.genesis(a)
  {
    BlockWritten(c, b);
    var x := Index.State({1}, [], [], Index.Stopped, Index.Waiting(Some(1)));
    assert Index.Highest({1}) == 1;
    ThenIndexing(c, x, Index.ForwardStart, x.(fwd := Index.Idle(1)), System(WithOne(b), CaughtUp));
    assert c.block(1).transfers == [];
    assert Transfers(c, 1) == Transfers(c, 0) + [];
  }

  function EmptyBlock(n: nat): Bundle { Bundle(n, Header(n, 0), [], [], []) }

  function NoTx(hash: nat): Tx { Tx(hash, 0, 0, 0, NoRecipient) }

  /** Such a chain: five for every account at genesis, and nothing since. */
  lemma QuietChain() returns (c: Chain)
    ensures WellFormed(c) && FirstIsEmpty(c, EmptyBlock(1)) && forall a :: c.genesis(a) == 5
  {
    c := Chain(EmptyBlock, NoTx, (a: Account) => 5);
  }
}
