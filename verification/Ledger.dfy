/** The ledger's writer: the statements and loops of `src/db.rs`, each transaction proved
    against its step in `Schema`. One object is one connection; a method is one
    transaction, or a statement run inside one. */
module Ledger {
  import opened Balances
  import opened Lists
  import opened Schema

  function Get(m: map<Address, int>, t: Address): int { if t in m then m[t] else 0 }

  /** `holders` with `a` added unless it is known, listed, or the zero address. */
  function Noted(holders: seq<Account>, genesis: Table, a: Account): (r: seq<Account>)
    ensures NoRepeats(holders) ==> NoRepeats(r)
    ensures forall x :: x in r <==> x in holders || (x == a && a !in genesis && a.holder != ZERO_ADDRESS)
  {
    if a !in genesis && a.holder != ZERO_ADDRESS && a !in holders then holders + [a] else holders
  }

  lemma WantedNext(page: seq<Row>, i: nat, genesis: Table)
    requires i < |page|
    ensures forall a :: Wanted(page[..i + 1], genesis, a) <==>
      Wanted(page[..i], genesis, a) || (a in Sides(page[i].transfer) && a.holder != ZERO_ADDRESS && a !in genesis)
  {
    assert page[..i + 1] == page[..i] + [page[i]];
    assert page[i] in page[..i + 1];
  }

  class Database {
    var blocks: map<nat, Header>
    var txs: map<nat, Tx>
    var transfers: seq<Row>
    var balances: Table
    var genesis: Table
    var holderCounts: map<Address, int>
    var cursor: nat
    var blockCount: int
    var txCount: int

    function Contents(): Tables
      reads this
    {
      Tables(blocks, txs, transfers, balances, genesis, holderCounts, cursor, blockCount, txCount)
    }

    constructor ()
      ensures Contents() == EMPTY && LedgerInv(Contents())
    {
      blocks, txs, transfers, balances := map[], map[], [], map[];
      genesis, holderCounts, cursor, blockCount, txCount := map[], map[], 0, 0, 0;
    }

    /** One account's balance moves by `delta` and no other account's does; `moved` is how the
        token's number of holders changed. Both hold of any table, kept or not. */
    method AdjustBalance(a: Account, delta: int) returns (moved: int)
      modifies this`balances
      ensures balances == Adjusted(old(balances), a, delta)
      ensures forall t :: Holders(balances, t) == Holders(old(balances), t) + if t == a.token then moved else 0
    {
      forall t ensures Holders(Adjusted(balances, a, delta), t) == Holders(balances, t) +
          (if delta == 0 || t != a.token then 0
           else (if Stored(balances, a) + delta > 0 then 1 else 0) -
                (if a in balances && balances[a] >= 0 then 1 else 0)) {
        AdjustedHolders(balances, a, delta, t);
      }
      if delta == 0 {
        return 0;
      }
      var wasHolding := a in balances && balances[a] >= 0;
      var updated := (if a in balances then balances[a] else 0) + delta;
      var isHolding := updated > 0;
      if updated == 0 {
        balances := balances - {a};
      } else {
        balances := balances[a := updated];
      }
      moved := (if isHolding then 1 else 0) - (if wasHolding then 1 else 0);
    }

    method AddToHolderCounts(moved: map<Address, int>)
      modifies this`holderCounts
      ensures holderCounts.Keys == old(holderCounts.Keys)
      ensures forall t :: t in holderCounts ==> holderCounts[t] == old(holderCounts)[t] + Get(moved, t)
    {
      var todo := moved.Keys;
      while todo != {}
        invariant todo <= moved.Keys
        invariant holderCounts.Keys == old(holderCounts.Keys)
        invariant forall t :: t in holderCounts ==>
          holderCounts[t] == old(holderCounts)[t] + if t in todo then 0 else Get(moved, t)
      {
        var t :| t in todo;
        todo := todo - {t};
        if moved[t] != 0 && t in holderCounts {
          holderCounts := holderCounts[t := holderCounts[t] + moved[t]];
        }
      }
    }

    /** One netted delta per (token, holder), applied in whatever order the map yields. */
    method ApplyTransferBalances(inserted: seq<Transfer>)
      requires Canonical(balances)
      modifies this`balances, this`holderCounts
      ensures balances == Settled(old(balances), inserted)
      ensures CountsMoved(old(holderCounts), holderCounts, {}, old(balances), balances)
    {
      var deltas := NetDeltas(inserted);
      var moved := ApplyDeltas(deltas);
      NettedIsSettled(old(balances), inserted, balances);
      AddToHolderCounts(moved);
    }

    method ApplyDeltas(deltas: Table) returns (moved: map<Address, int>)
      requires Canonical(balances)
      modifies this`balances
      ensures Canonical(balances)
      ensures forall a :: Stored(balances, a) == Stored(old(balances), a) + Stored(deltas, a)
      ensures forall t :: Holders(balances, t) == Holders(old(balances), t) + Get(moved, t)
    {
      moved := map[];
      var todo := deltas.Keys;
      while todo != {}
        invariant todo <= deltas.Keys
        invariant Canonical(balances)
        invariant forall a ::
          Stored(balances, a) == Stored(old(balances), a) + if a in todo then 0 else Stored(deltas, a)
        invariant forall t :: Holders(balances, t) == Holders(old(balances), t) + Get(moved, t)
      {
        var a :| a in todo;
        todo := todo - {a};
        AdjustedStored(balances, a, deltas[a]);
        var delta := AdjustBalance(a, deltas[a]);
        moved := moved[a.token := Get(moved, a.token) + delta];
      }
    }

    /** The first value under (block, log index) stands. The id is past every id before it;
        ignored inserts may leave gaps. */
    method InsertTransfer(t: Transfer) returns (inserted: bool)
      requires IdsAscend(transfers)
      modifies this`transfers
      ensures IdsAscend(transfers) && old(transfers) <= transfers
      ensures inserted == (t.Key() !in KeysOf(Payload(old(transfers))))
      ensures Payload(transfers) == Payload(old(transfers)) + if inserted then [t] else []
    {
      if exists r :: r in transfers && r.transfer.Key() == t.Key() {
        var r :| r in transfers && r.transfer.Key() == t.Key();
        assert r.transfer in Payload(transfers);
        inserted := false;
      } else {
        forall u | u in Payload(transfers) ensures u.Key() != t.Key() {
          var i :| 0 <= i < |transfers| && Payload(transfers)[i] == u;
          assert transfers[i] in transfers;
        }
        var gap: nat :| gap >= 0;
        transfers := transfers + [Row(LastId(transfers) + 1 + gap, t)];
        inserted := true;
      }
    }

    /** Describing a token leaves its count true: a new row takes the count from the balance table,
        an old row keeps what it has. */
    method UpsertTokenMeta(token: Address)
      modifies this`holderCounts
      ensures CountsMoved(old(holderCounts), holderCounts, {token}, balances, balances)
    {
      if token !in holderCounts {
        holderCounts := holderCounts[token := Holders(balances, token)];
      }
    }

    method UpsertTokens(tokens: seq<Address>)
      modifies this`holderCounts
      ensures CountsMoved(old(holderCounts), holderCounts, TokenSet(tokens), balances, balances)
    {
      for i := 0 to |tokens|
        invariant CountsMoved(old(holderCounts), holderCounts, TokenSet(tokens[..i]), balances, balances)
      {
        UpsertTokenMeta(tokens[i]);
        assert TokenSet(tokens[..i + 1]) == TokenSet(tokens[..i]) + {tokens[i]};
      }
      assert tokens[..|tokens|] == tokens;
    }

    method UpsertTransactions(offered: seq<Tx>)
      modifies this`txs
      ensures txs == Upserted(old(txs), offered)
    {
      for i := 0 to |offered|
        invariant txs == Upserted(old(txs), offered[..i])
      {
        assert offered[..i + 1][..i] == offered[..i];
        txs := txs[offered[i].hash := offered[i]];
      }
      assert offered[..|offered|] == offered;
    }

    method InsertTransfers(offered: seq<Transfer>) returns (inserted: seq<Transfer>)
      requires IdsAscend(transfers)
      modifies this`transfers
      ensures Grew(old(transfers), offered, transfers)
      ensures inserted == NewTo(old(transfers), offered)
    {
      ghost var stored := Payload(transfers);
      inserted := [];
      assert offered[..0] == [];
      for i := 0 to |offered|
        invariant old(transfers) <= transfers && IdsAscend(transfers)
        invariant inserted == Fresh(KeysOf(stored), offered[..i])
        invariant Payload(transfers) == stored + inserted
      {
        FreshNext(stored, offered, i);
        var isNew := InsertTransfer(offered[i]);
        if isNew {
          inserted := inserted + [offered[i]];
        }
      }
      assert offered[..|offered|] == offered;
    }

    /** The tables become those of the write step for `b` alone; the two results are what that adds
        to the row counters. */
    method WriteBlock(b: Bundle) returns (newBlocks: int, newTxs: int)
      requires Canonical(balances) && IdsAscend(transfers)
      modifies this`blocks, this`txs, this`transfers, this`balances, this`holderCounts
      ensures WroteRows(old(Contents()), [b], Contents())
      ensures newBlocks == |blocks| - |old(blocks)|
      ensures newTxs == TxGains(old(txs), [b])
    {
      var stored := if b.number in blocks then 1 else 0;
      var held := if b.txs == [] then 0 else |HeldAt(txs, b.number)|;
      newBlocks := 1 - stored;
      newTxs := if |b.txs| - held < 0 then 0 else |b.txs| - held;
      Singly(b, blocks, txs);
      StoreRows(b);
    }

    method StoreRows(b: Bundle)
      requires Canonical(balances) && IdsAscend(transfers)
      modifies this`blocks, this`txs, this`transfers, this`balances, this`holderCounts
      ensures WroteRows(old(Contents()), [b], Contents())
    {
      blocks := blocks[b.number := b.header];
      UpsertTransactions(b.txs);
      var inserted := InsertTransfers(b.transfers);
      MoveHoldings(b.tokens, inserted);
      Singly(b, old(blocks), old(txs));
    }

    /** In this order every count ends at the number of holders the new balances give, whether its
        row existed before or not. */
    method MoveHoldings(tokens: seq<Address>, inserted: seq<Transfer>)
      requires Canonical(balances)
      modifies this`balances, this`holderCounts
      ensures balances == Settled(old(balances), inserted)
      ensures CountsMoved(old(holderCounts), holderCounts, TokenSet(tokens), old(balances), balances)
    {
      UpsertTokens(tokens);
      ghost var born := holderCounts;
      ApplyTransferBalances(inserted);
      CountsCompose(old(holderCounts), born, holderCounts, TokenSet(tokens), {}, old(balances), old(balances),
        balances);
      assert TokenSet(tokens) + {} == TokenSet(tokens);
    }

    /** A batch is one write step: the same tables and counters as its blocks one by one. */
    method SaveBlockBundles(bundles: seq<Bundle>)
      requires Canonical(balances) && IdsAscend(transfers)
      modifies this
      ensures Step(old(Contents()), Write(bundles), Contents())
      ensures LedgerInv(old(Contents())) ==> LedgerInv(Contents())
    {
      var newBlocks, newTxs := WriteBlocks(bundles);
      blockCount, txCount := blockCount + newBlocks, txCount + newTxs;
      if LedgerInv(old(Contents())) { StepKeepsLedger(old(Contents()), Write(bundles), Contents()); }
    }

    method WriteBlocks(bundles: seq<Bundle>) returns (newBlocks: int, newTxs: int)
      requires Canonical(balances) && IdsAscend(transfers)
      modifies this`blocks, this`txs, this`transfers, this`balances, this`holderCounts
      ensures WroteSoFar(old(Contents()), bundles, Contents(), newBlocks, newTxs)
    {
      ghost var s := Contents();
      ghost var done: seq<Bundle> := [];
      newBlocks, newTxs := 0, 0;
      NothingWritten(s);
      for i := 0 to |bundles|
        invariant done == bundles[..i]
        invariant WroteSoFar(s, done, Contents(), newBlocks, newTxs)
      {
        newBlocks, newTxs := WriteNext(s, done, bundles[i], newBlocks, newTxs);
        TakeNext(bundles, i);
        done := done + [bundles[i]];
      }
      TakeAll(bundles);
    }

    /** One more block of the batch, with the counts so far moved on by what it added. */
    method WriteNext(ghost s: Tables, ghost done: seq<Bundle>, b: Bundle, newBlocks: int, newTxs: int)
      returns (blocksNow: int, txsNow: int)
      requires WroteSoFar(s, done, Contents(), newBlocks, newTxs)
      modifies this`blocks, this`txs, this`transfers, this`balances, this`holderCounts
      ensures WroteSoFar(s, done + [b], Contents(), blocksNow, txsNow)
    {
      ghost var now := Contents();
      var moreBlocks, moreTxs := WriteBlock(b);
      WroteOneMore(s, done, b, now, newBlocks, newTxs, Contents(), moreBlocks, moreTxs);
      blocksNow, txsNow := newBlocks + moreBlocks, newTxs + moreTxs;
    }

    method SaveTokenMetadata(tokens: seq<Address>)
      modifies this`holderCounts
      ensures Step(old(Contents()), Describe(tokens), Contents())
      ensures LedgerInv(old(Contents())) ==> LedgerInv(Contents())
    {
      UpsertTokens(tokens);
      if LedgerInv(old(Contents())) { StepKeepsLedger(old(Contents()), Describe(tokens), Contents()); }
    }

    /** One pass's reading: caught up exactly when no row lies past the cursor; otherwise each
        account of the page whose genesis balance is unknown, once, and never the zero address. */
    method HoldersWithoutGenesisBalance(limit: nat) returns (r: GenesisPage)
      requires IdsAscend(transfers)
      ensures ReadPage(Contents(), limit, r) && ReadsOn(Contents(), limit, r)
    {
      var page := PageOf(transfers, cursor, limit);
      var last, holders := cursor, [];
      for i := 0 to |page|
        invariant last == if i == 0 then cursor else page[i - 1].id
        invariant NoRepeats(holders)
        invariant forall a :: a in holders <==> Wanted(page[..i], genesis, a)
      {
        last := page[i].id;
        var t := page[i].transfer;
        WantedNext(page, i, genesis);
        holders := Noted(holders, genesis, Account(t.token, t.sender));
        holders := Noted(holders, genesis, Account(t.token, t.recipient));
      }
      assert page[..|page|] == page;
      r := if last != cursor then Page(last, holders) else CaughtUp;
      ReadPageReadsOn(Contents(), limit, r);
    }

    /** Every account moves by what its genesis entry grew, so an account known before is not
        credited again and the ledger is kept. */
    method SaveGenesisBalances(entries: seq<(Account, int)>, newCursor: nat)
      requires Canonical(balances)
      modifies this`genesis, this`balances, this`holderCounts, this`cursor
      ensures Step(old(Contents()), AddGenesis(entries, newCursor), Contents())
      ensures LedgerInv(old(Contents())) ==> LedgerInv(Contents())
    {
      var moved := CreditGenesis(entries);
      AddToHolderCounts(moved);
      cursor := newCursor;
      CreditedIsStep(old(Contents()), entries, newCursor, Contents());
    }

    method CreditGenesis(entries: seq<(Account, int)>) returns (moved: map<Address, int>)
      requires Canonical(balances)
      modifies this`genesis, this`balances
      ensures genesis == WithGenesis(old(genesis), entries)
      ensures Canonical(balances)
      ensures forall a ::
        Stored(balances, a) == Stored(old(balances), a) + Stored(genesis, a) - Stored(old(genesis), a)
      ensures forall t :: Holders(balances, t) == Holders(old(balances), t) + Get(moved, t)
    {
      moved := map[];
      for i := 0 to |entries|
        invariant genesis == WithGenesis(old(genesis), entries[..i])
        invariant Canonical(balances)
        invariant forall a ::
          Stored(balances, a) == Stored(old(balances), a) + Stored(genesis, a) - Stored(old(genesis), a)
        invariant forall t :: Holders(balances, t) == Holders(old(balances), t) + Get(moved, t)
      {
        assert entries[..i + 1][..i] == entries[..i];
        var (a, v) := entries[i];
        if a !in genesis {
          genesis := genesis[a := v];
          AdjustedStored(balances, a, v);
          var delta := AdjustBalance(a, v);
          moved := moved[a.token := Get(moved, a.token) + delta];
        }
      }
      assert entries[..|entries|] == entries;
    }

    method UpdateHolderCount(token: Address)
      modifies this`holderCounts
      ensures holderCounts == if token in old(holderCounts) then old(holderCounts)[token := Holders(balances, token)]
                              else old(holderCounts)
    {
      if token in holderCounts {
        holderCounts := holderCounts[token := Holders(balances, token)];
      }
    }

    method UpdateHolderCounts(tokens: set<Address>)
      modifies this`holderCounts
      ensures holderCounts.Keys == old(holderCounts.Keys)
      ensures forall t :: t in holderCounts ==>
        holderCounts[t] == if t in tokens then Holders(balances, t) else old(holderCounts)[t]
    {
      var todo := tokens;
      while todo != {}
        invariant todo <= tokens
        invariant holderCounts.Keys == old(holderCounts.Keys)
        invariant forall t :: t in holderCounts ==>
          holderCounts[t] == if t in tokens - todo then Holders(balances, t) else old(holderCounts)[t]
      {
        var t :| t in todo;
        todo := todo - {t};
        UpdateHolderCount(t);
      }
    }

    /** Recompute every balance from the transfers, one at a time in id order, and the genesis
        balances. Asks nothing of what the balance table or the counts hold. */
    method RebuildTokenBalances()
      modifies this`balances, this`holderCounts
      ensures Step(old(Contents()), Rebuild, Contents())
    {
      ghost var s := Contents();
      balances := map[];
      var touched := ReplayTransfers();
      SettledStored(map[], Payload(transfers));
      var alsoTouched := ReplayGenesis();
      UpdateHolderCounts(touched + alsoTouched);
      assert forall t :: t in touched + alsoTouched <==> Touched(s, t);
    }

    method ReplayGenesis() returns (touched: set<Address>)
      requires Canonical(balances)
      modifies this`balances
      ensures Canonical(balances)
      ensures forall a :: Stored(balances, a) == Stored(old(balances), a) + Stored(genesis, a)
      ensures touched == set a | a in genesis :: a.token
    {
      touched := {};
      var todo := genesis.Keys;
      while todo != {}
        invariant todo <= genesis.Keys
        invariant Canonical(balances)
        invariant forall a ::
          Stored(balances, a) == Stored(old(balances), a) + if a in todo then 0 else Stored(genesis, a)
        invariant touched == set a | a in genesis && a !in todo :: a.token
      {
        var a :| a in todo;
        todo := todo - {a};
        AdjustedStored(balances, a, genesis[a]);
        var _ := AdjustBalance(a, genesis[a]);
        touched := touched + {a.token};
      }
    }

    method ReplayTransfers() returns (touched: set<Address>)
      modifies this`balances
      ensures balances == Settled(old(balances), Payload(transfers))
      ensures touched == TokensOf(Payload(transfers))
    {
      touched := {};
      ghost var ts := Payload(transfers);
      for i := 0 to |transfers|
        invariant balances == Settled(old(balances), ts[..i])
        invariant touched == TokensOf(ts[..i])
      {
        var t := transfers[i].transfer;
        SettledNext(old(balances), ts, i);
        TokensNext(ts, i);
        var _ := AdjustBalance(Account(t.token, t.sender), -t.amount);
        var _ := AdjustBalance(Account(t.token, t.recipient), t.amount);
        touched := touched + {t.token};
      }
      assert ts[..|transfers|] == ts;
    }

    method SyncHolderCounts()
      modifies this`holderCounts
      ensures Step(old(Contents()), SyncCounts, Contents())
    {
      UpdateHolderCounts(set a | a in balances :: a.token);
    }
  }

  /** Received minus sent per (token, holder), collected in a map. */
  method NetDeltas(ts: seq<Transfer>) returns (deltas: Table)
    ensures forall a :: Stored(deltas, a) == Net(ts, a)
  {
    deltas := map[];
    for i := 0 to |ts|
      invariant forall a :: Stored(deltas, a) == Net(ts[..i], a)
    {
      var t := ts[i];
      var from, to := Account(t.token, t.sender), Account(t.token, t.recipient);
      ghost var prior := deltas;
      deltas := deltas[from := Stored(deltas, from) - t.amount];
      deltas := deltas[to := Stored(deltas, to) + t.amount];
      assert ts[..i + 1][..i] == ts[..i];
      forall a ensures Stored(deltas, a) == Net(ts[..i + 1], a) {
        assert Stored(prior, a) == Net(ts[..i], a);
      }
    }
    assert ts[..|ts|] == ts;
  }

  lemma CreditedIsStep(s: Tables, entries: seq<(Account, int)>, cursor: nat, s': Tables)
    requires s' == s.(genesis := WithGenesis(s.genesis, entries), cursor := cursor,
                      balances := s'.balances, holderCounts := s'.holderCounts)
    requires Canonical(s'.balances)
    requires forall a :: Stored(s'.balances, a) == Stored(s.balances, a) + Stored(s'.genesis, a) - Stored(s.genesis, a)
    requires CountsMoved(s.holderCounts, s'.holderCounts, {}, s.balances, s'.balances)
    ensures Step(s, AddGenesis(entries, cursor), s')
    ensures LedgerInv(s) ==> LedgerInv(s')
  {
    if LedgerInv(s) { GenesisKeepsLedger(s, entries, cursor, s'); }
  }

  function TokensOf(ts: seq<Transfer>): set<Address> { set t | t in ts :: t.token }

  lemma TokensNext(ts: seq<Transfer>, i: nat)
    requires i < |ts|
    ensures TokensOf(ts[..i + 1]) == TokensOf(ts[..i]) + {ts[i].token}
  {
    assert ts[..i + 1] == ts[..i] + [ts[i]];
  }

  /** What the batch loop has done after some of its blocks. */
  ghost predicate WroteSoFar(s: Tables, bundles: seq<Bundle>, s': Tables, newBlocks: int, newTxs: int) {
    && Canonical(s'.balances) && WroteRows(s, bundles, s')
    && newBlocks == |s'.blocks| - |s.blocks|
    && newTxs == TxGains(s.txs, bundles)
  }

  lemma NothingWritten(s: Tables)
    requires Canonical(s.balances) && IdsAscend(s.transfers)
    ensures WroteSoFar(s, [], s, 0, 0)
  {
    assert AllTokens([]) == {};
  }

  lemma WroteOneMore(s: Tables, done: seq<Bundle>, b: Bundle, mid: Tables, blocks: int, txs: int,
                     s': Tables, newBlocks: int, newTxs: int)
    requires WroteSoFar(s, done, mid, blocks, txs) && WroteRows(mid, [b], s')
    requires newBlocks == |s'.blocks| - |mid.blocks| && newTxs == TxGains(mid.txs, [b])
    ensures WroteSoFar(s, done + [b], s', blocks + newBlocks, txs + newTxs)
  {
    SettledIsCanonical(mid.balances, NewTo(mid.transfers, AllTransfers([b])));
    RowsCompose(s, done, mid, [b], s');
    GainsAppend(s.txs, done, [b]);
  }

  lemma FreshNext(stored: seq<Transfer>, offered: seq<Transfer>, i: nat)
    requires i < |offered|
    ensures Fresh(KeysOf(stored), offered[..i + 1]) ==
      Fresh(KeysOf(stored), offered[..i]) +
      if offered[i].Key() in KeysOf(stored + Fresh(KeysOf(stored), offered[..i])) then [] else [offered[i]]
  {
    var keys := KeysOf(stored);
    FreshKeys(keys, offered[..i]);
    assert KeysOf(stored + Fresh(keys, offered[..i])) == keys + KeysOf(Fresh(keys, offered[..i]));
    assert offered[..i + 1][..i] == offered[..i];
  }

  lemma Singly(b: Bundle, blocks: map<nat, Header>, txs: map<nat, Tx>)
    ensures AllTransfers([b]) == b.transfers
    ensures AllTokens([b]) == TokenSet(b.tokens)
    ensures WithBlocks(blocks, [b]) == blocks[b.number := b.header]
    ensures WithTxs(txs, [b]) == Upserted(txs, b.txs)
    ensures TxGains(txs, [b]) == TxGain(txs, b)
  {
    assert [b][..0] == [];
  }
}
