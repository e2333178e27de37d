/** The genesis pass beside the block writer: its cursor, and what the balances amount to
    once it has caught up with a complete history. */
module GenesisPass {
  import opened Balances
  import opened Lists
  import opened Schema
  import opened LedgerRuns

  /** The database and the page a genesis pass has read and not yet saved. The node is asked
      in between, while blocks go on being written. */
  datatype System = System(db: Tables, pending: GenesisPage)

  datatype Action =
    | Commit(op: Op)      // a block batch, token descriptions, a rebuild or a recount
    | ReadHolders(limit: nat)
    | SaveHolders         // the node answered for every holder read
    | Abandon             // it did not, or the process restarted

  function Credits(c: Chain, holders: seq<Account>): seq<(Account, int)> {
    seq(|holders|, i requires 0 <= i < |holders| => (holders[i], c.genesis(holders[i])))
  }

  ghost predicate Acts(c: Chain, s: System, act: Action, s': System) {
    match act
    case Commit(op) => !op.AddGenesis? && OpFrom(c, op) && Step(s.db, op, s'.db) && s'.pending == s.pending
    case ReadHolders(limit) => s.pending == CaughtUp && s'.db == s.db && ReadPage(s.db, limit, s'.pending)
    case SaveHolders =>
      s.pending.Page? && s'.pending == CaughtUp &&
      Step(s.db, AddGenesis(Credits(c, s.pending.holders), s.pending.last), s'.db)
    case Abandon => s' == System(s.db, CaughtUp)
  }

  ghost predicate History(c: Chain, acts: seq<Action>, ss: seq<System>) {
    && |ss| == |acts| + 1 && ss[0] == System(EMPTY, CaughtUp)
    && forall i :: 0 <= i < |acts| ==> Acts(c, ss[i], acts[i], ss[i + 1])
  }

  /** Both sides of every transfer up to `id` have a genesis balance in `known`, or are the
      zero address. */
  ghost predicate CoveredTo(rows: seq<Row>, id: nat, known: set<Account>) {
    forall r, a :: r in rows && r.id <= id && a in Sides(r.transfer) && a.holder != ZERO_ADDRESS ==> a in known
  }

  ghost predicate SeenIn(rows: seq<Row>, a: Account) { exists r :: r in rows && a in Sides(r.transfer) }

  /** Genesis balances are kept only for holders some transfer named, never the zero address. */
  ghost predicate OnlySeen(rows: seq<Row>, known: set<Account>) {
    forall a :: a in known ==> a.holder != ZERO_ADDRESS && SeenIn(rows, a)
  }

  function ListSet(xs: seq<Account>): set<Account> { set a | a in xs }

  ghost predicate PendingInv(s: System) {
    s.pending.Page? ==>
      && s.db.cursor < s.pending.last <= LastId(s.db.transfers)
      && NoRepeats(s.pending.holders)
      && ListSet(s.pending.holders) !! s.db.genesis.Keys
      && CoveredTo(s.db.transfers, s.pending.last, s.db.genesis.Keys + ListSet(s.pending.holders))
      && OnlySeen(s.db.transfers, ListSet(s.pending.holders))
  }

  ghost predicate CursorInv(s: System) {
    && s.db.cursor <= LastId(s.db.transfers)
    && CoveredTo(s.db.transfers, s.db.cursor, s.db.genesis.Keys)
    && OnlySeen(s.db.transfers, s.db.genesis.Keys)
    && PendingInv(s)
  }

  ghost predicate SystemInv(c: Chain, s: System) {
    LedgerInv(s.db) && ChainInv(c, s.db) && CursorInv(s)
  }

  // ------------------------------------------------------------- the steps

  lemma CommitKeepsCursor(s: System, s': System)
    requires CursorInv(s) && s'.pending == s.pending
    requires s.db.transfers <= s'.db.transfers && IdsAscend(s'.db.transfers)
    requires s'.db.genesis == s.db.genesis && s'.db.cursor == s.db.cursor
    ensures CursorInv(s')
  {
  }

  lemma ReadKeepsCursor(s: System, limit: nat, s': System)
    requires CursorInv(s) && IdsAscend(s.db.transfers)
    requires s'.db == s.db && ReadPage(s.db, limit, s'.pending)
    ensures CursorInv(s')
  {
    if s'.pending.Page? {
      var (rows, known, holders) := (s.db.transfers, s.db.genesis.Keys, ListSet(s'.pending.holders));
      var page := PageOf(rows, s.db.cursor, limit);
      forall r, a | r in rows && r.id <= s'.pending.last && a in Sides(r.transfer) && a.holder != ZERO_ADDRESS
          ensures a in known + holders {
        if r.id > s.db.cursor {
          assert a in known || Wanted(page, s.db.genesis, a);
        }
      }
      forall a | a in holders ensures SeenIn(rows, a) && a.holder != ZERO_ADDRESS && a !in known {
        assert Wanted(page, s.db.genesis, a);
      }
    }
  }

  /** The save stores every balance read, each for the first time, and the cursor moves on. */
  lemma SaveKeepsCursor(c: Chain, s: System, s': System)
    requires CursorInv(s) && s.pending.Page? && s'.pending == CaughtUp
    requires s'.db.transfers == s.db.transfers && s'.db.cursor == s.pending.last
    requires s'.db.genesis == WithGenesis(s.db.genesis, Credits(c, s.pending.holders))
    ensures CursorInv(s') && s'.db.cursor > s.db.cursor
    ensures s'.db.genesis.Keys == s.db.genesis.Keys + ListSet(s.pending.holders)
    ensures |s'.db.genesis| == |s.db.genesis| + |s.pending.holders|
  {
    var holders := s.pending.holders;
    HoldersCredited(c, s.db.genesis, holders);
    DistinctCount(holders, ListSet(holders));
    assert |s.db.genesis.Keys + ListSet(holders)| == |s.db.genesis.Keys| + |ListSet(holders)|;
  }

  lemma HoldersCredited(c: Chain, genesis: Table, holders: seq<Account>)
    ensures WithGenesis(genesis, Credits(c, holders)).Keys == genesis.Keys + ListSet(holders)
  {
    var entries := Credits(c, holders);
    GenesisIsFirst(genesis, entries);
    forall a ensures (exists e :: e in entries && e.0 == a) <==> a in holders {
      if a in holders {
        var i :| 0 <= i < |holders| && holders[i] == a;
        assert entries[i] in entries;
      }
    }
  }

  lemma ActKeepsCursor(c: Chain, s: System, act: Action, s': System)
    requires SystemInv(c, s) && Acts(c, s, act, s')
    ensures CursorInv(s')
  {
    match act
    case Commit(op) =>
      CommitAppends(s.db, op, s'.db);
      CommitKeepsCursor(s, s');
    case ReadHolders(limit) => ReadKeepsCursor(s, limit, s');
    case SaveHolders => SaveKeepsCursor(c, s, s');
    case Abandon =>
  }

  lemma CommitAppends(s: Tables, op: Op, s': Tables)
    requires Step(s, op, s') && !op.AddGenesis? && IdsAscend(s.transfers)
    ensures s.transfers <= s'.transfers && IdsAscend(s'.transfers)
    ensures s'.genesis == s.genesis && s'.cursor == s.cursor
  {
  }

  lemma ActKeepsTables(c: Chain, s: System, act: Action, s': System)
    requires WellFormed(c) && SystemInv(c, s) && Acts(c, s, act, s')
    ensures LedgerInv(s'.db) && ChainInv(c, s'.db)
  {
    match act
    case Commit(op) => StepKeepsAll(c, s.db, s.db.blocks.Keys, s.db.genesis.Keys, op, s'.db);
    case ReadHolders(_) =>
    case SaveHolders =>
      StepKeepsAll(c, s.db, s.db.blocks.Keys, s.db.genesis.Keys,
                   AddGenesis(Credits(c, s.pending.holders), s.pending.last), s'.db);
    case Abandon =>
  }

  /** At every state of every run the ledger holds, the tables are the chain's, and each
      transfer up to the cursor has a genesis balance for both its non-zero sides. */
  lemma {:induction false} HistoryKeepsAll(c: Chain, acts: seq<Action>, ss: seq<System>, n: nat)
    requires WellFormed(c) && History(c, acts, ss) && n <= |acts|
    ensures SystemInv(c, ss[n])
  {
    if n > 0 {
      HistoryKeepsAll(c, acts, ss, n - 1);
      ActKeepsTables(c, ss[n - 1], acts[n - 1], ss[n]);
      ActKeepsCursor(c, ss[n - 1], acts[n - 1], ss[n]);
    }
  }

  /** Each pass moves the cursor on, and what it credits was never credited before. */
  lemma SavesAdvance(c: Chain, acts: seq<Action>, ss: seq<System>, n: nat)
    requires WellFormed(c) && History(c, acts, ss) && n < |acts| && acts[n] == SaveHolders
    ensures ss[n + 1].db.cursor > ss[n].db.cursor
    ensures ListSet(ss[n].pending.holders) !! ss[n].db.genesis.Keys
    ensures |ss[n + 1].db.genesis| == |ss[n].db.genesis| + |ss[n].pending.holders|
  {
    HistoryKeepsAll(c, acts, ss, n);
    SaveKeepsCursor(c, ss[n], ss[n + 1]);
  }

  // ------------------------------------------------------------- exactness

  /** Every transfer of blocks 1 to `head`, in order. */
  function Transfers(c: Chain, head: nat): seq<Transfer> {
    if head == 0 then [] else Transfers(c, head - 1) + c.block(head).transfers
  }

  /** An account's balance at `head`, on a chain whose every change since genesis emits a transfer. */
  function ChainBalance(c: Chain, head: nat, a: Account): int {
    c.genesis(a) + Net(Transfers(c, head), a)
  }

  ghost predicate Seen(c: Chain, head: nat, a: Account) {
    exists t :: t in Transfers(c, head) && a in Sides(t)
  }

  ghost predicate Complete(s: Tables, head: nat) { forall n :: n in s.blocks <==> 1 <= n <= head }

  /** No transfer past the cursor: the pass reads nothing more. */
  ghost predicate CaughtUpWith(s: Tables) { forall r :: r in s.transfers ==> r.id <= s.cursor }

  /** What the pass answers says so: it reads at least one row unless there is none. */
  lemma CaughtUpSaysSo(c: Chain, acts: seq<Action>, ss: seq<System>, n: nat, limit: nat)
    requires WellFormed(c) && History(c, acts, ss) && n < |acts| && acts[n] == ReadHolders(limit) && limit >= 1
    ensures ss[n + 1].pending == CaughtUp <==> CaughtUpWith(ss[n].db)
  {
    HistoryKeepsAll(c, acts, ss, n);
    CaughtUpIff(ss[n].db, limit, ss[n + 1].pending);
  }

  lemma {:induction false} InTransfers(c: Chain, head: nat, t: Transfer)
    requires WellFormed(c)
    ensures t in Transfers(c, head) <==> 1 <= t.block <= head && t in c.block(t.block).transfers
  {
    if head > 0 { InTransfers(c, head - 1, t); }
  }

  lemma {:induction false} TransfersAreDistinct(c: Chain, head: nat)
    requires WellFormed(c)
    ensures DistinctKeys(Transfers(c, head))
  {
    if head > 0 {
      TransfersAreDistinct(c, head - 1);
      var x, y := Transfers(c, head - 1), c.block(head).transfers;
      forall t, u | t in x && u in y ensures t.Key() != u.Key() { InTransfers(c, head - 1, t); }
      DistinctJoin(x, y);
    }
  }

  lemma StoredTransfersAreHistory(c: Chain, s: Tables, head: nat)
    requires WellFormed(c) && RowsInv(s) && ChainInv(c, s) && Complete(s, head)
    ensures multiset(Payload(s.transfers)) == multiset(Transfers(c, head))
  {
    forall t ensures t in Payload(s.transfers) <==> t in Transfers(c, head) { InTransfers(c, head, t); }
    TransfersAreDistinct(c, head);
    SameRows(Payload(s.transfers), Transfers(c, head));
  }

  lemma SeenIsStored(c: Chain, s: Tables, head: nat, a: Account)
    requires multiset(Payload(s.transfers)) == multiset(Transfers(c, head))
    ensures Seen(c, head, a) <==> SeenIn(s.transfers, a)
  {
    if Seen(c, head, a) {
      var t :| t in Transfers(c, head) && a in Sides(t);
      assert t in multiset(Payload(s.transfers));
      var i :| 0 <= i < |s.transfers| && Payload(s.transfers)[i] == t;
      assert s.transfers[i] in s.transfers;
    }
    if SeenIn(s.transfers, a) {
      var r :| r in s.transfers && a in Sides(r.transfer);
      assert r.transfer in Payload(s.transfers);
      assert r.transfer in multiset(Transfers(c, head));
    }
  }

  /** A complete history and a finished genesis pass credit exactly the holders transfers named. */
  lemma CreditedAreSeen(s: System, a: Account)
    requires CursorInv(s) && CaughtUpWith(s.db)
    ensures a in s.db.genesis <==> a.holder != ZERO_ADDRESS && SeenIn(s.db.transfers, a)
  {
  }

  lemma {:induction false} UnseenIsStill(ts: seq<Transfer>, a: Account)
    requires forall t :: t in ts ==> a !in Sides(t)
    ensures Net(ts, a) == 0
  {
    if ts != [] {
      assert ts[|ts| - 1] in ts;
      UnseenIsStill(ts[..|ts| - 1], a);
    }
  }

  /** With blocks 1 to `head` stored and the genesis pass caught up, a holder's balance is its
      balance on chain exactly when some transfer named it or it held nothing at genesis. */
  lemma ExactBalances(c: Chain, s: System, head: nat, a: Account)
    requires WellFormed(c) && SystemInv(c, s) && Complete(s.db, head) && CaughtUpWith(s.db)
    requires a.holder != ZERO_ADDRESS
    ensures Stored(s.db.balances, a) == ChainBalance(c, head, a) <==> Seen(c, head, a) || c.genesis(a) == 0
    ensures !Seen(c, head, a) ==> a !in s.db.balances
  {
    StoredTransfersAreHistory(c, s.db, head);
    NetIgnoresOrder(Payload(s.db.transfers), Transfers(c, head), a);
    SeenIsStored(c, s.db, head, a);
    CreditedAreSeen(s, a);
    assert Stored(s.db.balances, a) == Expected(s.db, a);
    if !Seen(c, head, a) { UnseenIsStill(Transfers(c, head), a); }
  }

  /** The zero address is never credited, so its row is what it received less what it minted. */
  lemma ZeroAddressBalance(c: Chain, s: System, head: nat, a: Account)
    requires WellFormed(c) && SystemInv(c, s) && Complete(s.db, head)
    requires a.holder == ZERO_ADDRESS
    ensures Stored(s.db.balances, a) == ChainBalance(c, head, a) - c.genesis(a)
  {
    StoredTransfersAreHistory(c, s.db, head);
    NetIgnoresOrder(Payload(s.db.transfers), Transfers(c, head), a);
    assert Stored(s.db.balances, a) == Expected(s.db, a);
  }

  /** Balances on chain are never negative, so no negative row is left but the zero address's. */
  lemma NoNegativeRows(c: Chain, s: System, head: nat)
    requires WellFormed(c) && SystemInv(c, s) && Complete(s.db, head) && CaughtUpWith(s.db)
    requires forall a: Account :: a.holder != ZERO_ADDRESS ==> ChainBalance(c, head, a) >= 0
    ensures forall a :: a in s.db.balances && s.db.balances[a] <= 0 ==> a.holder == ZERO_ADDRESS
  {
    forall a | a in s.db.balances && a.holder != ZERO_ADDRESS ensures s.db.balances[a] > 0 {
      ExactBalances(c, s, head, a);
    }
  }
}
