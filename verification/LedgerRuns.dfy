/** Whole runs of the ledger's writers against one chain: the genesis pass interleaved with
    block writes, confluence, and exactness once history is complete. */
module LedgerRuns {
  import opened Balances
  import opened Schema

  /** The chain being indexed: its block at each height, the transaction each hash names, and
      each account's balance at genesis. */
  datatype Chain = Chain(block: nat -> Bundle, txOf: nat -> Tx, genesis: Account -> int)

  ghost predicate WellFormed(c: Chain) {
    && (forall n :: c.block(n).number == n)
    && (forall n :: DistinctKeys(c.block(n).transfers))
    && (forall n, t :: t in c.block(n).transfers ==> t.block == n)
    && (forall n :: DistinctHashes(c.block(n).txs))
    && (forall n, tx :: tx in c.block(n).txs ==> tx.block == n && c.txOf(tx.hash) == tx)
  }

  ghost predicate DistinctHashes(txs: seq<Tx>) {
    forall i, j :: 0 <= i < j < |txs| ==> txs[i].hash != txs[j].hash
  }

  /** `b` is the chain's block; which tokens were described with it is up to the fetch. */
  ghost predicate From(c: Chain, b: Bundle) {
    var x := c.block(b.number);
    b.header == x.header && b.txs == x.txs && b.transfers == x.transfers
  }

  ghost predicate AllFrom(c: Chain, bundles: seq<Bundle>) { forall b :: b in bundles ==> From(c, b) }

  function Numbers(bundles: seq<Bundle>): set<nat> { set b | b in bundles :: b.number }

  // ------------------------------------------------------- the stored rows

  /** The stored transfers are exactly those of the stored blocks. */
  ghost predicate TransfersMatch(c: Chain, stored: set<nat>, ts: seq<Transfer>) {
    forall t {:trigger t in ts} :: t in ts <==> t.block in stored && t in c.block(t.block).transfers
  }

  ghost predicate TxsMatch(c: Chain, stored: set<nat>, txs: map<nat, Tx>) {
    && (forall h :: h in txs ==> txs[h].hash == h && txs[h].block in stored && txs[h] in c.block(txs[h].block).txs)
    && (forall n, tx :: n in stored && tx in c.block(n).txs ==> tx.hash in txs)
  }

  ghost predicate ChainInv(c: Chain, s: Tables) {
    && (forall n :: n in s.blocks ==> s.blocks[n] == c.block(n).header)
    && TransfersMatch(c, s.blocks.Keys, Payload(s.transfers))
    && TxsMatch(c, s.blocks.Keys, s.txs)
    && s.blockCount == |s.blocks| && s.txCount == |s.txs|
    && (forall a :: a in s.genesis ==> s.genesis[a] == c.genesis(a))
  }

  lemma {:induction false} InAllTransfers(bundles: seq<Bundle>, t: Transfer)
    ensures t in AllTransfers(bundles) <==> exists b :: b in bundles && t in b.transfers
  {
    if bundles != [] {
      var last := |bundles| - 1;
      InAllTransfers(bundles[..last], t);
      assert bundles == bundles[..last] + [bundles[last]];
    }
  }

  lemma {:induction false} FreshIsOffered(keys: set<(nat, nat)>, ts: seq<Transfer>, t: Transfer)
    requires t in Fresh(keys, ts)
    ensures t in ts
  {
    var last := |ts| - 1;
    if t in Fresh(keys, ts[..last]) { FreshIsOffered(keys, ts[..last], t); }
  }

  lemma WroteTransfers(c: Chain, stored: set<nat>, rows: seq<Row>, bundles: seq<Bundle>, rows': seq<Row>)
    requires WellFormed(c) && AllFrom(c, bundles)
    requires TransfersMatch(c, stored, Payload(rows)) && Grew(rows, AllTransfers(bundles), rows')
    ensures TransfersMatch(c, stored + Numbers(bundles), Payload(rows'))
  {
    var keys, offered := KeysOf(Payload(rows)), AllTransfers(bundles);
    var taken := Fresh(keys, offered);
    FreshKeys(keys, offered);
    forall t ensures t in Payload(rows') <==>
        t.block in stored + Numbers(bundles) && t in c.block(t.block).transfers {
      InAllTransfers(bundles, t);
      if t in taken {
        FreshIsOffered(keys, offered, t);
      }
      if t in offered && t !in Payload(rows) {
        assert t.Key() in KeysOf(offered);
        var u :| u in Payload(rows) + taken && u.Key() == t.Key();
        if u in taken {
          FreshIsOffered(keys, offered, u);
          InAllTransfers(bundles, u);
        }
        SameKeySameTransfer(c, u, t);
      }
    }
  }

  lemma SameKeySameTransfer(c: Chain, t: Transfer, u: Transfer)
    requires WellFormed(c) && t.Key() == u.Key()
    requires t in c.block(t.block).transfers && u in c.block(u.block).transfers
    ensures t == u
  {
    var ts := c.block(t.block).transfers;
    var i :| 0 <= i < |ts| && ts[i] == t;
    var j :| 0 <= j < |ts| && ts[j] == u;
  }

  lemma {:induction false} WroteBlocks(c: Chain, blocks: map<nat, Header>, bundles: seq<Bundle>)
    requires AllFrom(c, bundles)
    requires forall n :: n in blocks ==> blocks[n] == c.block(n).header
    ensures WithBlocks(blocks, bundles).Keys == blocks.Keys + Numbers(bundles)
    ensures forall n :: n in WithBlocks(blocks, bundles) ==> WithBlocks(blocks, bundles)[n] == c.block(n).header
  {
    if bundles != [] {
      var last := |bundles| - 1;
      WroteBlocks(c, blocks, bundles[..last]);
      assert From(c, bundles[last]);
    }
  }

  function Hashes(txs: seq<Tx>): set<nat> { set tx | tx in txs :: tx.hash }

  lemma {:induction false} UpsertedRows(txOf: nat -> Tx, txs: map<nat, Tx>, offered: seq<Tx>)
    requires forall tx :: tx in offered ==> txOf(tx.hash) == tx
    ensures Upserted(txs, offered).Keys == txs.Keys + Hashes(offered)
    ensures forall h :: h in Upserted(txs, offered) ==> Upserted(txs, offered)[h] == if h in Hashes(offered) then txOf(h) else txs[h]
  {
    if offered != [] {
      var last := |offered| - 1;
      UpsertedRows(txOf, txs, offered[..last]);
      HashesSnoc(offered);
    }
  }

  lemma HashesSnoc(txs: seq<Tx>)
    requires txs != []
    ensures Hashes(txs) == Hashes(txs[..|txs| - 1]) + {txs[|txs| - 1].hash}
  {
    assert txs == txs[..|txs| - 1] + [txs[|txs| - 1]];
  }

  lemma {:induction false} HashCount(txs: seq<Tx>)
    requires DistinctHashes(txs)
    ensures |Hashes(txs)| == |txs|
  {
    if txs != [] {
      HashCount(txs[..|txs| - 1]);
      HashesSnoc(txs);
    }
  }

  lemma UpsertedMatch(c: Chain, stored: set<nat>, txs: map<nat, Tx>, n: nat)
    requires WellFormed(c) && TxsMatch(c, stored, txs)
    ensures TxsMatch(c, stored + {n}, Upserted(txs, c.block(n).txs))
  {
    UpsertedRows(c.txOf, txs, c.block(n).txs);
  }

  /** One block's gain is what the transaction table grew by, written once or again. */
  lemma TxGainIsGrowth(c: Chain, stored: set<nat>, txs: map<nat, Tx>, b: Bundle)
    requires WellFormed(c) && From(c, b) && TxsMatch(c, stored, txs)
    ensures TxGain(txs, b) == |Upserted(txs, b.txs)| - |txs|
  {
    HashCount(b.txs);
    HeldHashes(c, stored, txs, b.number);
    UpsertedKeys(txs, b.txs);
    UnionCount(txs.Keys, Hashes(b.txs));
  }

  lemma UnionCount(x: set<nat>, y: set<nat>)
    ensures y <= x ==> |x + y| == |x|
    ensures y !! x ==> |x + y| == |x| + |y|
  {
    if y <= x { assert x + y == x; }
  }

  /** A stored height holds the chain's transactions there, any other height none. */
  lemma HeldHashes(c: Chain, stored: set<nat>, txs: map<nat, Tx>, n: nat)
    requires WellFormed(c) && TxsMatch(c, stored, txs)
    ensures n in stored ==> HeldAt(txs, n) == Hashes(c.block(n).txs) <= txs.Keys
    ensures n !in stored ==> HeldAt(txs, n) == {} && txs.Keys !! Hashes(c.block(n).txs)
  {
    forall h | h in Hashes(c.block(n).txs) ensures h in txs <==> n in stored {
      var tx :| tx in c.block(n).txs && tx.hash == h;
      if h in txs { assert c.txOf(txs[h].hash) == txs[h]; }
    }
    if n in stored {
      forall h | h in Hashes(c.block(n).txs) ensures h in HeldAt(txs, n) {
        assert txs[h] == c.txOf(h);
      }
    }
  }

  lemma OneMoreNumber(stored: set<nat>, bundles: seq<Bundle>)
    requires bundles != []
    ensures
      var last := |bundles| - 1;
      stored + Numbers(bundles) == stored + Numbers(bundles[..last]) + {bundles[last].number}
  {
  }

  lemma {:induction false} WroteTxs(c: Chain, stored: set<nat>, txs: map<nat, Tx>, bundles: seq<Bundle>)
    requires WellFormed(c) && AllFrom(c, bundles) && TxsMatch(c, stored, txs)
    ensures TxsMatch(c, stored + Numbers(bundles), WithTxs(txs, bundles))
  {
    if bundles == [] {
      assert stored + Numbers(bundles) == stored;
    } else {
      var last := |bundles| - 1;
      WroteTxs(c, stored, txs, bundles[..last]);
      assert From(c, bundles[last]);
      UpsertedMatch(c, stored + Numbers(bundles[..last]), WithTxs(txs, bundles[..last]), bundles[last].number);
      OneMoreNumber(stored, bundles);
    }
  }

  lemma {:induction false} GainsAreGrowth(c: Chain, stored: set<nat>, txs: map<nat, Tx>, bundles: seq<Bundle>)
    requires WellFormed(c) && AllFrom(c, bundles) && TxsMatch(c, stored, txs)
    ensures TxGains(txs, bundles) == |WithTxs(txs, bundles)| - |txs|
  {
    if bundles != [] {
      var last := |bundles| - 1;
      GainsAreGrowth(c, stored, txs, bundles[..last]);
      WroteTxs(c, stored, txs, bundles[..last]);
      assert From(c, bundles[last]);
      TxGainIsGrowth(c, stored + Numbers(bundles[..last]), WithTxs(txs, bundles[..last]), bundles[last]);
    }
  }

  lemma {:induction false} GenesisIsFirst(genesis: Table, entries: seq<(Account, int)>)
    ensures forall a :: a in WithGenesis(genesis, entries) <==> a in genesis || exists e :: e in entries && e.0 == a
    ensures forall a :: a in genesis ==> WithGenesis(genesis, entries)[a] == genesis[a]
    ensures forall a :: a in WithGenesis(genesis, entries) && a !in genesis ==>
      (a, WithGenesis(genesis, entries)[a]) in entries
  {
    if entries != [] {
      var last := |entries| - 1;
      GenesisIsFirst(genesis, entries[..last]);
      assert entries == entries[..last] + [entries[last]];
    }
  }

  /** An operation that speaks of this chain. */
  ghost predicate OpFrom(c: Chain, op: Op) {
    match op
    case Write(bundles) => AllFrom(c, bundles)
    case AddGenesis(entries, _) => forall e :: e in entries ==> e.1 == c.genesis(e.0)
    case _ => true
  }

  function Wrote(op: Op): set<nat> { if op.Write? then Numbers(op.bundles) else {} }

  function Credited(op: Op): set<Account> { if op.AddGenesis? then set e | e in op.entries :: e.0 else {} }

  /** The chain's rows for one more set of heights and one more set of accounts. */
  ghost predicate Advanced(c: Chain, s: Tables, op: Op, s': Tables) {
    && ChainInv(c, s')
    && s'.blocks.Keys == s.blocks.Keys + Wrote(op)
    && s'.genesis.Keys == s.genesis.Keys + Credited(op)
  }

  /** The tables stay the chain's, restricted to the stored blocks, and the counters stay the
      numbers of rows. */
  lemma StepKeepsChain(c: Chain, s: Tables, op: Op, s': Tables)
    requires WellFormed(c) && OpFrom(c, op) && ChainInv(c, s) && Step(s, op, s')
    ensures Advanced(c, s, op, s')
  {
    match op
    case Write(bundles) => WriteKeepsChain(c, s, bundles, s');
    case AddGenesis(entries, cursor) => GenesisKeepsChain(c, s, entries, cursor, s');
    case _ =>
      NothingAdvanced(c, s, op, s');
  }

  lemma WriteKeepsChain(c: Chain, s: Tables, bundles: seq<Bundle>, s': Tables)
    requires WellFormed(c) && AllFrom(c, bundles) && ChainInv(c, s)
    requires s'.blocks == WithBlocks(s.blocks, bundles) && Grew(s.transfers, AllTransfers(bundles), s'.transfers)
    requires s'.txs == WithTxs(s.txs, bundles) && s'.genesis == s.genesis
    requires s'.blockCount == s.blockCount + |s'.blocks| - |s.blocks|
    requires s'.txCount == s.txCount + TxGains(s.txs, bundles)
    ensures Advanced(c, s, Write(bundles), s')
  {
    WroteBlocks(c, s.blocks, bundles);
    WroteTransfers(c, s.blocks.Keys, s.transfers, bundles, s'.transfers);
    WroteTxs(c, s.blocks.Keys, s.txs, bundles);
    GainsAreGrowth(c, s.blocks.Keys, s.txs, bundles);
    NoCredit(c, s, bundles, s');
  }

  lemma NoCredit(c: Chain, s: Tables, bundles: seq<Bundle>, s': Tables)
    requires ChainInv(c, s') && s'.blocks.Keys == s.blocks.Keys + Numbers(bundles) && s'.genesis == s.genesis
    ensures Advanced(c, s, Write(bundles), s')
  {
    assert s.genesis.Keys + {} == s.genesis.Keys;
  }

  lemma GenesisKeepsChain(c: Chain, s: Tables, entries: seq<(Account, int)>, cursor: nat, s': Tables)
    requires OpFrom(c, AddGenesis(entries, cursor)) && ChainInv(c, s)
    requires s'.genesis == WithGenesis(s.genesis, entries)
    requires s'.blocks == s.blocks && s'.txs == s.txs && s'.transfers == s.transfers
    requires s'.blockCount == s.blockCount && s'.txCount == s.txCount
    ensures Advanced(c, s, AddGenesis(entries, cursor), s')
  {
    GenesisIsFirst(s.genesis, entries);
    SameRowsSameChain(c, s, s');
    assert s.blocks.Keys + {} == s.blocks.Keys;
    CreditedKeys(c, s.genesis, entries, cursor);
  }

  lemma CreditedKeys(c: Chain, genesis: Table, entries: seq<(Account, int)>, cursor: nat)
    ensures WithGenesis(genesis, entries).Keys == genesis.Keys + Credited(AddGenesis(entries, cursor))
  {
    GenesisIsFirst(genesis, entries);
  }

  lemma NothingAdvanced(c: Chain, s: Tables, op: Op, s': Tables)
    requires Wrote(op) == {} && Credited(op) == {}
    requires ChainInv(c, s) && s'.blocks == s.blocks && s'.txs == s.txs && s'.transfers == s.transfers
    requires s'.blockCount == s.blockCount && s'.txCount == s.txCount && s'.genesis == s.genesis
    ensures Advanced(c, s, op, s')
  {
    SameRowsSameChain(c, s, s');
    assert s.blocks.Keys + {} == s.blocks.Keys && s.genesis.Keys + {} == s.genesis.Keys;
  }

  lemma SameRowsSameChain(c: Chain, s: Tables, s': Tables)
    requires ChainInv(c, s)
    requires s'.blocks == s.blocks && s'.txs == s.txs && s'.transfers == s.transfers
    requires s'.blockCount == s.blockCount && s'.txCount == s.txCount
    requires forall a :: a in s'.genesis ==> s'.genesis[a] == c.genesis(a)
    ensures ChainInv(c, s')
  {
  }

  lemma {:induction false} UpsertedKeys(txs: map<nat, Tx>, offered: seq<Tx>)
    ensures Upserted(txs, offered).Keys == txs.Keys + Hashes(offered)
  {
    if offered != [] {
      UpsertedKeys(txs, offered[..|offered| - 1]);
      HashesSnoc(offered);
    }
  }

  lemma {:induction false} AtMostOneHashEach(txs: seq<Tx>)
    ensures |Hashes(txs)| <= |txs|
    ensures |Hashes(txs)| == |txs| ==> DistinctHashes(txs)
  {
    if txs != [] {
      var prior, last := txs[..|txs| - 1], txs[|txs| - 1];
      AtMostOneHashEach(prior);
      HashesSnoc(txs);
      if last.hash in Hashes(prior) {
        assert Hashes(txs) == Hashes(prior);
      } else {
        assert forall i :: 0 <= i < |prior| ==> prior[i].hash in Hashes(prior);
      }
    }
  }

  /** Off the chain's promises the counter can overcount: at a height that holds nothing yet it
      is right exactly when the block's hashes are distinct and none is stored elsewhere. */
  lemma FirstWriteCountsIff(txs: map<nat, Tx>, b: Bundle)
    requires HeldAt(txs, b.number) == {}
    ensures TxGain(txs, b) == |Upserted(txs, b.txs)| - |txs| <==> DistinctHashes(b.txs) && Hashes(b.txs) !! txs.Keys
  {
    UpsertedKeys(txs, b.txs);
    AtMostOneHashEach(b.txs);
    var added := Hashes(b.txs) - txs.Keys;
    assert |Upserted(txs, b.txs)| == |txs| + |added| by {
      assert Upserted(txs, b.txs).Keys == txs.Keys + added;
    }
    SmallerIfShared(Hashes(b.txs), txs.Keys);
    if DistinctHashes(b.txs) { HashCount(b.txs); }
  }

  lemma SmallerIfShared(x: set<nat>, y: set<nat>)
    ensures |x - y| <= |x| && (|x - y| == |x| <==> x !! y)
  {
    assert |x| == |x - y| + |x * y| by { assert x == (x - y) + (x * y); }
    assert forall e :: e in x && e in y <==> e in x * y;
    assert |x * y| == 0 <==> x * y == {};
  }

  // ------------------------------------------------------------ confluence

  lemma {:induction false} DistinctCounts(ts: seq<Transfer>, t: Transfer)
    requires DistinctKeys(ts)
    ensures multiset(ts)[t] == if t in ts then 1 else 0
  {
    if ts != [] {
      var last := |ts| - 1;
      assert ts == ts[..last] + [ts[last]];
      DistinctCounts(ts[..last], t);
    }
  }

  lemma SameRows(x: seq<Transfer>, y: seq<Transfer>)
    requires DistinctKeys(x) && DistinctKeys(y)
    requires forall t :: t in x <==> t in y
    ensures multiset(x) == multiset(y)
  {
    forall t ensures multiset(x)[t] == multiset(y)[t] {
      DistinctCounts(x, t);
      DistinctCounts(y, t);
    }
  }

  /** Two databases holding the same blocks and genesis balances of one chain agree, however
      they came about. */
  lemma SameBlocksSameTables(c: Chain, s: Tables, u: Tables)
    requires LedgerInv(s) && LedgerInv(u) && WellFormed(c) && ChainInv(c, s) && ChainInv(c, u)
    requires s.blocks.Keys == u.blocks.Keys && s.genesis.Keys == u.genesis.Keys
    ensures s.blocks == u.blocks && s.txs == u.txs && s.genesis == u.genesis
    ensures multiset(Payload(s.transfers)) == multiset(Payload(u.transfers))
    ensures s.balances == u.balances
    ensures forall t :: t in s.holderCounts && t in u.holderCounts ==> s.holderCounts[t] == u.holderCounts[t]
    ensures s.blockCount == u.blockCount && s.txCount == u.txCount
  {
    SameRows(Payload(s.transfers), Payload(u.transfers));
    forall a ensures Stored(s.balances, a) == Stored(u.balances, a) {
      assert Stored(s.balances, a) == Expected(s, a) && Stored(u.balances, a) == Expected(u, a);
      NetIgnoresOrder(Payload(s.transfers), Payload(u.transfers), a);
    }
    CanonicalIsDetermined(s.balances, u.balances);
    SameTxs(c, s.blocks.Keys, s.txs, u.txs);
  }

  lemma SameTxs(c: Chain, stored: set<nat>, x: map<nat, Tx>, y: map<nat, Tx>)
    requires WellFormed(c) && TxsMatch(c, stored, x) && TxsMatch(c, stored, y)
    ensures x == y
  {
    forall h ensures h in x <==> h in y {
      if h in x { assert x[h] in c.block(x[h].block).txs && x[h].hash in y; }
      if h in y { assert y[h] in c.block(y[h].block).txs && y[h].hash in x; }
    }
    forall h | h in x ensures x[h] == y[h] {
      assert x[h] == c.txOf(h) && y[h] == c.txOf(h);
    }
  }

  /** A run of committed transactions from an empty database. */
  ghost predicate Run(c: Chain, ops: seq<Op>, ss: seq<Tables>) {
    && |ss| == |ops| + 1 && ss[0] == EMPTY
    && (forall i :: 0 <= i < |ops| ==> OpFrom(c, ops[i]))
    && (forall i :: 0 <= i < |ops| ==> Step(ss[i], ops[i], ss[i + 1]))
  }

  function AllWrote(ops: seq<Op>): set<nat> { set op, n | op in ops && n in Wrote(op) :: n }

  function AllCredited(ops: seq<Op>): set<Account> { set op, a | op in ops && a in Credited(op) :: a }

  /** The invariants, at a state that holds heights `wrote` and the genesis of `credited`. */
  ghost predicate Kept(c: Chain, s: Tables, wrote: set<nat>, credited: set<Account>) {
    LedgerInv(s) && ChainInv(c, s) && s.blocks.Keys == wrote && s.genesis.Keys == credited
  }

  lemma StepKeepsAll(c: Chain, s: Tables, wrote: set<nat>, credited: set<Account>, op: Op, s': Tables)
    requires WellFormed(c) && Kept(c, s, wrote, credited) && OpFrom(c, op) && Step(s, op, s')
    ensures Kept(c, s', wrote + Wrote(op), credited + Credited(op))
  {
    StepKeepsLedger(s, op, s');
    StepKeepsChain(c, s, op, s');
  }

  lemma {:induction false} RunKeepsAll(c: Chain, ops: seq<Op>, ss: seq<Tables>, n: nat)
    requires WellFormed(c) && Run(c, ops, ss) && n <= |ops|
    ensures Kept(c, ss[n], AllWrote(ops[..n]), AllCredited(ops[..n]))
  {
    if n == 0 {
      assert AllWrote(ops[..0]) == {} && AllCredited(ops[..0]) == {};
    } else {
      RunKeepsAll(c, ops, ss, n - 1);
      StepKeepsAll(c, ss[n - 1], AllWrote(ops[..n - 1]), AllCredited(ops[..n - 1]), ops[n - 1], ss[n]);
      AllSnoc(ops, n - 1);
    }
  }

  lemma AllSnoc(ops: seq<Op>, i: nat)
    requires i < |ops|
    ensures AllWrote(ops[..i + 1]) == AllWrote(ops[..i]) + Wrote(ops[i])
    ensures AllCredited(ops[..i + 1]) == AllCredited(ops[..i]) + Credited(ops[i])
  {
    assert ops[..i + 1] == ops[..i] + [ops[i]];
  }

  /** Confluence: whatever the order, the repeats, the batch boundaries and the restarts, two
      runs that wrote the same heights and credited the same accounts end with the same
      balances, transactions, transfers, counters and counts. */
  lemma Confluence(c: Chain, ops: seq<Op>, ss: seq<Tables>, ops': seq<Op>, us: seq<Tables>)
    requires WellFormed(c) && Run(c, ops, ss) && Run(c, ops', us)
    requires AllWrote(ops) == AllWrote(ops') && AllCredited(ops) == AllCredited(ops')
    ensures
      var (s, u) := (ss[|ops|], us[|ops'|]);
      && s.balances == u.balances && s.txs == u.txs && s.blocks == u.blocks && s.genesis == u.genesis
      && multiset(Payload(s.transfers)) == multiset(Payload(u.transfers))
      && s.blockCount == u.blockCount == |u.blocks| && s.txCount == u.txCount == |u.txs|
      && forall t :: t in s.holderCounts && t in u.holderCounts ==> s.holderCounts[t] == u.holderCounts[t]
  {
    RunKeepsAll(c, ops, ss, |ops|);
    RunKeepsAll(c, ops', us, |ops'|);
    assert ops[..|ops|] == ops && ops'[..|ops'|] == ops';
    SameBlocksSameTables(c, ss[|ops|], us[|ops'|]);
  }
}
