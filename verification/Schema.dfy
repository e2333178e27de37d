/** The explorer's tables as one value, what each write in `src/db.rs` leaves behind,
    and the invariant every such write keeps. */
module Schema {
  import opened Balances
  import opened Lists

  datatype Header = Header(hash: nat, timestamp: int)

  datatype Recipient = NoRecipient | To(address: Address)

  datatype Tx = Tx(hash: nat, block: nat, position: nat, sender: Address, recipient: Recipient)

  /** One block with everything written beside it; `tokens` are those described with it. */
  datatype Bundle = Bundle(number: nat, header: Header, txs: seq<Tx>, transfers: seq<Transfer>, tokens: seq<Address>)

  /** A row of `transfer_events`. Ids ascend in insertion order and are never reused. */
  datatype Row = Row(id: nat, transfer: Transfer)

  datatype Tables = Tables(
    blocks: map<nat, Header>,
    txs: map<nat, Tx>,
    transfers: seq<Row>,
    balances: Table,
    genesis: Table,
    holderCounts: map<Address, int>,  // one entry per row of `token_metadata`
    cursor: nat,                      // the genesis pass has read up to this transfer id
    blockCount: int,
    txCount: int)

  const EMPTY: Tables := Tables(map[], map[], [], map[], map[], map[], 0, 0, 0)

  // ------------------------------------------------------------------ rows

  function Payload(rows: seq<Row>): (ts: seq<Transfer>)
    ensures |ts| == |rows| && forall i :: 0 <= i < |rows| ==> ts[i] == rows[i].transfer
  {
    seq(|rows|, i requires 0 <= i < |rows| => rows[i].transfer)
  }

  function KeysOf(ts: seq<Transfer>): set<(nat, nat)> { set t | t in ts :: t.Key() }

  ghost predicate DistinctKeys(ts: seq<Transfer>) {
    forall i, j :: 0 <= i < j < |ts| ==> ts[i].Key() != ts[j].Key()
  }

  ghost predicate IdsAscend(rows: seq<Row>) {
    && (forall i :: 0 <= i < |rows| ==> rows[i].id > 0)
    && (forall i, j :: 0 <= i < j < |rows| ==> rows[i].id < rows[j].id)
  }

  /** The offered transfers whose key is neither stored nor offered earlier. */
  function Fresh(keys: set<(nat, nat)>, ts: seq<Transfer>): seq<Transfer> {
    if ts == [] then []
    else
      var last := |ts| - 1;
      Fresh(keys, ts[..last]) + if ts[last].Key() in keys + KeysOf(ts[..last]) then [] else [ts[last]]
  }

  lemma {:induction false} FreshKeys(keys: set<(nat, nat)>, ts: seq<Transfer>)
    ensures keys + KeysOf(Fresh(keys, ts)) == keys + KeysOf(ts)
  {
    if ts != [] {
      var last := |ts| - 1;
      var prior, t := Fresh(keys, ts[..last]), ts[last];
      FreshKeys(keys, ts[..last]);
      KeysOfSnoc(prior, t);
      KeysOfSnoc(ts[..last], t);
      assert ts == ts[..last] + [t];
      SameWithOneMore(keys, KeysOf(prior), KeysOf(ts[..last]), t.Key());
    }
  }

  lemma SameWithOneMore<T>(k: set<T>, x: set<T>, y: set<T>, e: T)
    requires k + x == k + y
    ensures k + (x + {e}) == k + (y + {e})
    ensures e in k + y ==> k + x == k + (y + {e})
  {
  }

  lemma {:induction false} FreshIsDistinct(keys: set<(nat, nat)>, ts: seq<Transfer>)
    ensures DistinctKeys(Fresh(keys, ts))
    ensures keys !! KeysOf(Fresh(keys, ts))
  {
    if ts != [] {
      var last := |ts| - 1;
      var prior, t := Fresh(keys, ts[..last]), ts[last];
      FreshIsDistinct(keys, ts[..last]);
      FreshKeys(keys, ts[..last]);
      KeysOfSnoc(prior, t);
      if t.Key() !in keys + KeysOf(ts[..last]) {
        assert t.Key() !in keys + KeysOf(prior);
      }
    }
  }

  lemma KeysOfSnoc(ts: seq<Transfer>, t: Transfer)
    ensures KeysOf(ts + [t]) == KeysOf(ts) + {t.Key()}
    ensures DistinctKeys(ts) && t.Key() !in KeysOf(ts) ==> DistinctKeys(ts + [t])
  {
  }

  /** Of several transfers offered under one key that is not stored the first is taken, and no other. */
  lemma FreshIsFirst(keys: set<(nat, nat)>, ts: seq<Transfer>, i: nat)
    requires i < |ts| && ts[i].Key() !in keys && forall j :: 0 <= j < i ==> ts[j].Key() != ts[i].Key()
    ensures ts[i] in Fresh(keys, ts)
    ensures forall t :: t in Fresh(keys, ts) && t.Key() == ts[i].Key() ==> t == ts[i]
  {
    FirstIsTaken(keys, ts, i);
    FreshIsDistinct(keys, ts);
    var k :| 0 <= k < |Fresh(keys, ts)| && Fresh(keys, ts)[k] == ts[i];
  }

  lemma {:induction false} FirstIsTaken(keys: set<(nat, nat)>, ts: seq<Transfer>, i: nat)
    requires i < |ts| && ts[i].Key() !in keys && forall j :: 0 <= j < i ==> ts[j].Key() != ts[i].Key()
    ensures ts[i] in Fresh(keys, ts)
  {
    var last := |ts| - 1;
    if i < last {
      FirstIsTaken(keys, ts[..last], i);
    } else {
      forall t | t in ts[..last] ensures t.Key() != ts[i].Key() {
        var j :| 0 <= j < last && ts[..last][j] == t;
      }
    }
  }

  lemma {:induction false} FreshAppend(keys: set<(nat, nat)>, x: seq<Transfer>, y: seq<Transfer>)
    ensures Fresh(keys, x + y) == Fresh(keys, x) + Fresh(keys + KeysOf(x), y)
  {
    if y == [] {
      assert x + y == x;
    } else {
      var last := |y| - 1;
      assert (x + y)[..|x + y| - 1] == x + y[..last];
      FreshAppend(keys, x, y[..last]);
      assert KeysOf(x + y[..last]) == KeysOf(x) + KeysOf(y[..last]);
    }
  }

  function AllTransfers(bundles: seq<Bundle>): seq<Transfer> {
    if bundles == [] then [] else AllTransfers(bundles[..|bundles| - 1]) + bundles[|bundles| - 1].transfers
  }

  function AllTokens(bundles: seq<Bundle>): set<Address> {
    set b, t | b in bundles && t in b.tokens :: t
  }

  function TokenSet(tokens: seq<Address>): set<Address> { set t | t in tokens }

  function WithBlocks(blocks: map<nat, Header>, bundles: seq<Bundle>): map<nat, Header> {
    if bundles == [] then blocks
    else
      var b := bundles[|bundles| - 1];
      WithBlocks(blocks, bundles[..|bundles| - 1])[b.number := b.header]
  }

  /** A height's header is the last one offered for it; other heights keep theirs. */
  lemma {:induction false} LastHeaderStands(blocks: map<nat, Header>, bundles: seq<Bundle>, i: nat)
    requires i < |bundles| && forall j :: i < j < |bundles| ==> bundles[j].number != bundles[i].number
    ensures bundles[i].number in WithBlocks(blocks, bundles)
    ensures WithBlocks(blocks, bundles)[bundles[i].number] == bundles[i].header
  {
    if i < |bundles| - 1 { LastHeaderStands(blocks, bundles[..|bundles| - 1], i); }
  }

  lemma {:induction false} OtherHeadersStay(blocks: map<nat, Header>, bundles: seq<Bundle>, n: nat)
    requires forall j :: 0 <= j < |bundles| ==> bundles[j].number != n
    ensures n in WithBlocks(blocks, bundles) <==> n in blocks
    ensures n in blocks ==> WithBlocks(blocks, bundles)[n] == blocks[n]
  {
    if bundles != [] { OtherHeadersStay(blocks, bundles[..|bundles| - 1], n); }
  }

  /** An upsert by hash: of the rows offered under one hash the last stands. */
  function Upserted(txs: map<nat, Tx>, offered: seq<Tx>): map<nat, Tx> {
    if offered == [] then txs
    else
      var tx := offered[|offered| - 1];
      Upserted(txs, offered[..|offered| - 1])[tx.hash := tx]
  }

  /** What stands under a hash is the last row offered for it; other hashes keep theirs. */
  lemma {:induction false} LastTxStands(txs: map<nat, Tx>, offered: seq<Tx>, i: nat)
    requires i < |offered| && forall j :: i < j < |offered| ==> offered[j].hash != offered[i].hash
    ensures offered[i].hash in Upserted(txs, offered) && Upserted(txs, offered)[offered[i].hash] == offered[i]
  {
    if i < |offered| - 1 { LastTxStands(txs, offered[..|offered| - 1], i); }
  }

  lemma {:induction false} OtherTxsStay(txs: map<nat, Tx>, offered: seq<Tx>, h: nat)
    requires forall j :: 0 <= j < |offered| ==> offered[j].hash != h
    ensures h in Upserted(txs, offered) <==> h in txs
    ensures h in txs ==> Upserted(txs, offered)[h] == txs[h]
  {
    if offered != [] { OtherTxsStay(txs, offered[..|offered| - 1], h); }
  }

  function WithTxs(txs: map<nat, Tx>, bundles: seq<Bundle>): map<nat, Tx> {
    if bundles == [] then txs
    else Upserted(WithTxs(txs, bundles[..|bundles| - 1]), bundles[|bundles| - 1].txs)
  }

  /** The transactions stored under one height. */
  function HeldAt(txs: map<nat, Tx>, number: nat): set<nat> { set h | h in txs && txs[h].block == number }

  /** What one block adds to the transaction counter: the excess over those it already held. */
  function TxGain(txs: map<nat, Tx>, b: Bundle): int {
    var gain := |b.txs| - |HeldAt(txs, b.number)|;
    if b.txs == [] || gain < 0 then 0 else gain
  }

  function TxGains(txs: map<nat, Tx>, bundles: seq<Bundle>): int {
    if bundles == [] then 0
    else
      var earlier := bundles[..|bundles| - 1];
      TxGains(txs, earlier) + TxGain(WithTxs(txs, earlier), bundles[|bundles| - 1])
  }

  lemma {:induction false} TransfersAppend(x: seq<Bundle>, y: seq<Bundle>)
    ensures AllTransfers(x + y) == AllTransfers(x) + AllTransfers(y)
  {
    if y == [] {
      assert x + y == x;
    } else {
      assert (x + y)[..|x + y| - 1] == x + y[..|y| - 1];
      TransfersAppend(x, y[..|y| - 1]);
    }
  }

  lemma {:induction false} BlocksAppend(blocks: map<nat, Header>, x: seq<Bundle>, y: seq<Bundle>)
    ensures WithBlocks(blocks, x + y) == WithBlocks(WithBlocks(blocks, x), y)
  {
    if y == [] {
      assert x + y == x;
    } else {
      assert (x + y)[..|x + y| - 1] == x + y[..|y| - 1];
      BlocksAppend(blocks, x, y[..|y| - 1]);
    }
  }

  lemma {:induction false} TxsAppend(txs: map<nat, Tx>, x: seq<Bundle>, y: seq<Bundle>)
    ensures WithTxs(txs, x + y) == WithTxs(WithTxs(txs, x), y)
  {
    if y == [] {
      assert x + y == x;
    } else {
      assert (x + y)[..|x + y| - 1] == x + y[..|y| - 1];
      TxsAppend(txs, x, y[..|y| - 1]);
    }
  }

  lemma {:induction false} GainsAppend(txs: map<nat, Tx>, x: seq<Bundle>, y: seq<Bundle>)
    ensures TxGains(txs, x + y) == TxGains(txs, x) + TxGains(WithTxs(txs, x), y)
  {
    if y == [] {
      assert x + y == x;
    } else {
      assert (x + y)[..|x + y| - 1] == x + y[..|y| - 1];
      GainsAppend(txs, x, y[..|y| - 1]);
      TxsAppend(txs, x, y[..|y| - 1]);
    }
  }

  lemma TokensAppend(x: seq<Bundle>, y: seq<Bundle>)
    ensures AllTokens(x + y) == AllTokens(x) + AllTokens(y)
  {
  }

  // -------------------------------------------------------------- genesis

  /** Entries under an account already in the table are ignored: its first value stands. */
  function WithGenesis(genesis: Table, entries: seq<(Account, int)>): Table {
    if entries == [] then genesis
    else
      var prior := WithGenesis(genesis, entries[..|entries| - 1]);
      var (a, v) := entries[|entries| - 1];
      if a in prior then prior else prior[a := v]
  }

  /** A new account's entry is the first offered for it; a known account keeps its own. */
  lemma {:induction false} FirstEntryStands(genesis: Table, entries: seq<(Account, int)>, i: nat)
    requires i < |entries| && forall j :: 0 <= j < i ==> entries[j].0 != entries[i].0
    ensures
      var a := entries[i].0;
      a in WithGenesis(genesis, entries) &&
      WithGenesis(genesis, entries)[a] == if a in genesis then genesis[a] else entries[i].1
  {
    var last := |entries| - 1;
    if i < last { FirstEntryStands(genesis, entries[..last], i); } else { OthersAreNotNew(genesis, entries[..last], entries[i].0); }
  }

  lemma {:induction false} OthersAreNotNew(genesis: Table, entries: seq<(Account, int)>, a: Account)
    requires forall j :: 0 <= j < |entries| ==> entries[j].0 != a
    ensures a in WithGenesis(genesis, entries) <==> a in genesis
    ensures a in genesis ==> WithGenesis(genesis, entries)[a] == genesis[a]
  {
    if entries != [] { OthersAreNotNew(genesis, entries[..|entries| - 1], a); }
  }

  function LastId(rows: seq<Row>): nat { if rows == [] then 0 else rows[|rows| - 1].id }

  /** Where the rows past `cursor` begin. */
  function FirstPast(rows: seq<Row>, cursor: nat): (k: nat)
    ensures k <= |rows|
    ensures IdsAscend(rows) ==> forall i :: 0 <= i < |rows| ==> (rows[i].id <= cursor <==> i < k)
  {
    if rows == [] then 0
    else if rows[|rows| - 1].id <= cursor then |rows|
    else FirstPast(rows[..|rows| - 1], cursor)
  }

  datatype GenesisPage = CaughtUp | Page(last: nat, holders: seq<Account>)

  function Sides(t: Transfer): set<Account> { {Account(t.token, t.sender), Account(t.token, t.recipient)} }

  /** What a genesis pass must still ask the node about in `rows`. */
  ghost predicate Wanted(rows: seq<Row>, genesis: Table, a: Account) {
    a.holder != ZERO_ADDRESS && a !in genesis && exists r :: r in rows && a in Sides(r.transfer)
  }

  /** The rows one genesis pass reads. */
  function PageOf(rows: seq<Row>, cursor: nat, limit: nat): (page: seq<Row>)
    ensures IdsAscend(rows) ==> forall i :: 0 <= i < |page| ==> page[i].id > cursor
  {
    var k := FirstPast(rows, cursor);
    if k + limit < |rows| then rows[k..k + limit] else rows[k..]
  }

  /** What a genesis pass reads: the next transfers past the cursor, and every holder in them
      whose genesis balance is unknown. */
  ghost predicate ReadPage(s: Tables, limit: nat, r: GenesisPage) {
    var page := PageOf(s.transfers, s.cursor, limit);
    match r
    case CaughtUp => page == []
    case Page(last, holders) =>
      && page != [] && last == LastId(page) && NoRepeats(holders)
      && forall a :: a in holders <==> Wanted(page, s.genesis, a)
  }

  /** The rows past `cursor`, up to `last`. */
  function RowsPast(rows: seq<Row>, cursor: nat, last: nat): set<Row> {
    set r | r in rows && cursor < r.id <= last
  }

  /** What a genesis pass answers, said of the stored rows alone. It is caught up exactly when none
      lies past the cursor. Otherwise it ends at a stored id, with as many rows up to there as the
      limit allows and there are, and names each account on either side of one of them whose
      genesis balance is unknown, once, and never the zero address. */
  ghost predicate ReadsOn(s: Tables, limit: nat, r: GenesisPage) {
    var past := RowsPast(s.transfers, s.cursor, LastId(s.transfers));
    && (limit >= 1 ==> (r == CaughtUp <==> forall row :: row in s.transfers ==> row.id <= s.cursor))
    && (r.Page? ==>
          && (exists row :: row in past && row.id == r.last)
          && |RowsPast(s.transfers, s.cursor, r.last)| == (if limit < |past| then limit else |past|)
          && NoRepeats(r.holders)
          && forall a :: a in r.holders <==>
               && a.holder != ZERO_ADDRESS && a !in s.genesis
               && exists row :: row in RowsPast(s.transfers, s.cursor, r.last) && a in Sides(row.transfer))
  }

  lemma SliceMembers(rows: seq<Row>, cursor: nat, slice: seq<Row>, r: Row)
    requires IdsAscend(rows) && slice != [] && FirstPast(rows, cursor) + |slice| <= |rows|
    requires slice == rows[FirstPast(rows, cursor)..FirstPast(rows, cursor) + |slice|]
    ensures r in slice <==> r in RowsPast(rows, cursor, LastId(slice))
  {
    var k := FirstPast(rows, cursor);
    assert slice[|slice| - 1] == rows[k + |slice| - 1];
    if r in RowsPast(rows, cursor, LastId(slice)) {
      var i :| 0 <= i < |rows| && rows[i] == r;
      assert slice[i - k] == r;
    }
  }

  /** A slice of rows just past the cursor is the rows up to its last id. */
  lemma SliceIsPast(rows: seq<Row>, cursor: nat, slice: seq<Row>)
    requires IdsAscend(rows) && slice != [] && FirstPast(rows, cursor) + |slice| <= |rows|
    requires slice == rows[FirstPast(rows, cursor)..FirstPast(rows, cursor) + |slice|]
    ensures forall r :: r in slice <==> r in RowsPast(rows, cursor, LastId(slice))
    ensures |RowsPast(rows, cursor, LastId(slice))| == |slice|
  {
    forall r ensures r in slice <==> r in RowsPast(rows, cursor, LastId(slice)) { SliceMembers(rows, cursor, slice, r); }
    assert NoRepeats(slice) by {
      assert forall i :: 0 <= i < |slice| ==> slice[i] == rows[FirstPast(rows, cursor) + i];
    }
    DistinctCount(slice, RowsPast(rows, cursor, LastId(slice)));
  }

  lemma AllArePast(rows: seq<Row>, cursor: nat)
    requires IdsAscend(rows)
    ensures |RowsPast(rows, cursor, LastId(rows))| == |rows| - FirstPast(rows, cursor)
  {
    if FirstPast(rows, cursor) < |rows| {
      SliceIsPast(rows, cursor, rows[FirstPast(rows, cursor)..]);
    } else {
      assert RowsPast(rows, cursor, LastId(rows)) == {};
    }
  }

  lemma CaughtUpIff(s: Tables, limit: nat, r: GenesisPage)
    requires IdsAscend(s.transfers) && ReadPage(s, limit, r) && limit >= 1
    ensures r == CaughtUp <==> forall row :: row in s.transfers ==> row.id <= s.cursor
  {
    var k := FirstPast(s.transfers, s.cursor);
    if k < |s.transfers| { assert s.transfers[k] in s.transfers; }
  }

  lemma ReadPageReadsOn(s: Tables, limit: nat, r: GenesisPage)
    requires IdsAscend(s.transfers) && ReadPage(s, limit, r)
    ensures ReadsOn(s, limit, r)
  {
    var page := PageOf(s.transfers, s.cursor, limit);
    if limit >= 1 { CaughtUpIff(s, limit, r); }
    if page != [] {
      PageIsPast(s, limit, page);
      EndsAtStored(s, limit, page);
    }
  }

  lemma PageIsPast(s: Tables, limit: nat, page: seq<Row>)
    requires IdsAscend(s.transfers) && page == PageOf(s.transfers, s.cursor, limit) != []
    ensures forall r :: r in page <==> r in RowsPast(s.transfers, s.cursor, LastId(page))
    ensures
      var past := RowsPast(s.transfers, s.cursor, LastId(s.transfers));
      |RowsPast(s.transfers, s.cursor, LastId(page))| == if limit < |past| then limit else |past|
  {
    var k := FirstPast(s.transfers, s.cursor);
    assert page == s.transfers[k..k + |page|];
    SliceIsPast(s.transfers, s.cursor, page);
    AllArePast(s.transfers, s.cursor);
  }

  lemma EndsAtStored(s: Tables, limit: nat, page: seq<Row>)
    requires IdsAscend(s.transfers) && page == PageOf(s.transfers, s.cursor, limit) != []
    ensures exists row :: row in RowsPast(s.transfers, s.cursor, LastId(s.transfers)) && row.id == LastId(page)
  {
    var k := FirstPast(s.transfers, s.cursor);
    var row := s.transfers[k + |page| - 1];
    assert page[|page| - 1] == row && row in s.transfers;
  }

  /** The specification of a balance: genesis, plus received, minus sent. */
  function Expected(s: Tables, a: Account): int {
    Stored(s.genesis, a) + Net(Payload(s.transfers), a)
  }

  // ---------------------------------------------------------- transitions

  datatype Op =
    | Write(bundles: seq<Bundle>)
    | Describe(tokens: seq<Address>)
    | AddGenesis(entries: seq<(Account, int)>, cursor: nat)
    | Rebuild
    | SyncCounts

  /** Holder counts follow the balances from `b` to `c`; a token described on the way is
      counted as it is born. */
  ghost predicate CountsMoved(before: map<Address, int>, after: map<Address, int>, described: set<Address>,
      b: Table, c: Table) {
    && after.Keys == before.Keys + described
    && (forall t :: t in after ==>
          after[t] == if t in before then before[t] + Holders(c, t) - Holders(b, t) else Holders(c, t))
  }

  /** The offered transfers that a table of rows takes in. */
  function NewTo(rows: seq<Row>, offered: seq<Transfer>): seq<Transfer> {
    Fresh(KeysOf(Payload(rows)), offered)
  }

  ghost predicate Grew(rows: seq<Row>, offered: seq<Transfer>, rows': seq<Row>) {
    rows <= rows' && IdsAscend(rows') && Payload(rows') == Payload(rows) + NewTo(rows, offered)
  }

  /** The rows a list of blocks leaves behind, counters aside. */
  ghost predicate WroteRows(s: Tables, bundles: seq<Bundle>, s': Tables) {
    && Grew(s.transfers, AllTransfers(bundles), s'.transfers)
    && s'.blocks == WithBlocks(s.blocks, bundles)
    && s'.txs == WithTxs(s.txs, bundles)
    && s'.balances == Settled(s.balances, NewTo(s.transfers, AllTransfers(bundles)))
    && CountsMoved(s.holderCounts, s'.holderCounts, AllTokens(bundles), s.balances, s'.balances)
    && s'.genesis == s.genesis && s'.cursor == s.cursor
  }

  ghost predicate Touched(s: Tables, token: Address) {
    || (exists t :: t in Payload(s.transfers) && t.token == token)
    || (exists a :: a in s.genesis && a.token == token)
  }

  /** What each committed transaction does to the tables. */
  ghost predicate Step(s: Tables, op: Op, s': Tables) {
    match op
    case Write(bundles) =>
      && WroteRows(s, bundles, s')
      && s'.blockCount == s.blockCount + |s'.blocks| - |s.blocks|
      && s'.txCount == s.txCount + TxGains(s.txs, bundles)
    case Describe(tokens) =>
      && CountsMoved(s.holderCounts, s'.holderCounts, TokenSet(tokens), s.balances, s.balances)
      && s' == s.(holderCounts := s'.holderCounts)
    case AddGenesis(entries, cursor) =>
      && s' == s.(genesis := WithGenesis(s.genesis, entries), cursor := cursor,
                  balances := s'.balances, holderCounts := s'.holderCounts)
      && Canonical(s'.balances)
      && (forall a :: Stored(s'.balances, a) == Stored(s.balances, a) + Stored(s'.genesis, a) - Stored(s.genesis, a))
      && CountsMoved(s.holderCounts, s'.holderCounts, {}, s.balances, s'.balances)
    case Rebuild =>
      && s' == s.(balances := s'.balances, holderCounts := s'.holderCounts)
      && Canonical(s'.balances)
      && (forall a :: Stored(s'.balances, a) == Expected(s, a))
      && s'.holderCounts.Keys == s.holderCounts.Keys
      && (forall t :: t in s.holderCounts ==>
            s'.holderCounts[t] == if Touched(s, t) then Holders(s'.balances, t) else s.holderCounts[t])
    case SyncCounts =>
      && s' == s.(holderCounts := s'.holderCounts)
      && s'.holderCounts.Keys == s.holderCounts.Keys
      && (forall t :: t in s.holderCounts ==>
            s'.holderCounts[t] ==
            if exists a :: a in s.balances && a.token == t then Holders(s.balances, t) else s.holderCounts[t])
  }

  // ------------------------------------------------------------ invariant

  ghost predicate RowsInv(s: Tables) {
    IdsAscend(s.transfers) && DistinctKeys(Payload(s.transfers))
  }

  ghost predicate LedgerInv(s: Tables) {
    && RowsInv(s)
    && Canonical(s.balances)
    && (forall a :: Stored(s.balances, a) == Expected(s, a))
    && (forall t :: t in s.holderCounts ==> s.holderCounts[t] == Holders(s.balances, t))
  }

  /** Every committed transaction keeps the ledger: each balance is its specified sum, no
      row is zero, and each described token's count is its number of holders. */
  lemma StepKeepsLedger(s: Tables, op: Op, s': Tables)
    requires LedgerInv(s) && Step(s, op, s')
    ensures LedgerInv(s')
  {
    match op
    case Write(bundles) => WriteKeepsLedger(s, bundles, s');
    case Describe(tokens) => DescribeKeepsLedger(s, tokens, s');
    case AddGenesis(entries, cursor) => GenesisKeepsLedger(s, entries, cursor, s');
    case Rebuild => RebuildIsIdle(s, s');
    case SyncCounts => SyncKeepsLedger(s, s');
  }

  lemma DescribeKeepsLedger(s: Tables, tokens: seq<Address>, s': Tables)
    requires LedgerInv(s) && Step(s, Describe(tokens), s')
    ensures LedgerInv(s')
  {
    forall a ensures Stored(s'.balances, a) == Expected(s', a) {
      assert Stored(s.balances, a) == Expected(s, a);
    }
  }

  lemma GenesisKeepsLedger(s: Tables, entries: seq<(Account, int)>, cursor: nat, s': Tables)
    requires LedgerInv(s) && Step(s, AddGenesis(entries, cursor), s')
    ensures LedgerInv(s')
  {
    forall a ensures Stored(s'.balances, a) == Expected(s', a) {
      assert Stored(s.balances, a) == Expected(s, a);
    }
  }

  lemma SyncKeepsLedger(s: Tables, s': Tables)
    requires LedgerInv(s) && Step(s, SyncCounts, s')
    ensures LedgerInv(s')
  {
    forall a ensures Stored(s'.balances, a) == Expected(s', a) {
      assert Stored(s.balances, a) == Expected(s, a);
    }
  }

  lemma WriteKeepsLedger(s: Tables, bundles: seq<Bundle>, s': Tables)
    requires LedgerInv(s) && WroteRows(s, bundles, s')
    ensures LedgerInv(s')
  {
    var stored, offered := Payload(s.transfers), NewTo(s.transfers, AllTransfers(bundles));
    FreshIsDistinct(KeysOf(stored), AllTransfers(bundles));
    DistinctJoin(stored, offered);
    SettledStored(s.balances, offered);
    forall a ensures Stored(s'.balances, a) == Expected(s', a) {
      NetAppend(stored, offered, a);
      assert Stored(s.balances, a) == Expected(s, a);
    }
  }

  lemma DistinctJoin(x: seq<Transfer>, y: seq<Transfer>)
    requires DistinctKeys(x) && DistinctKeys(y) && KeysOf(x) !! KeysOf(y)
    ensures DistinctKeys(x + y)
  {
    forall i, j | 0 <= i < |x| && 0 <= j < |y| ensures x[i].Key() != y[j].Key() {
      assert x[i].Key() in KeysOf(x) && y[j].Key() in KeysOf(y);
    }
  }

  /** The rebuild computes what the incremental path keeps, so on a kept ledger it changes nothing. */
  lemma RebuildIsIdle(s: Tables, s': Tables)
    requires LedgerInv(s) && Step(s, Rebuild, s')
    ensures s' == s
  {
    forall a ensures Stored(s'.balances, a) == Stored(s.balances, a) {
      assert Stored(s.balances, a) == Expected(s, a);
    }
    CanonicalIsDetermined(s'.balances, s.balances);
    assert s'.holderCounts == s.holderCounts;
  }

  /** From any contents of the balance table the rebuild restores the whole ledger exactly when
      no untouched token carries a stale count. */
  lemma RebuildRestores(s: Tables, s': Tables)
    requires RowsInv(s) && Step(s, Rebuild, s')
    ensures LedgerInv(s') <==> forall t :: t in s.holderCounts && !Touched(s, t) ==> s.holderCounts[t] == 0
  {
    forall t | !Touched(s, t) ensures Holders(s'.balances, t) == 0 {
      forall a | a in s'.balances ensures a.token != t {
        assert Stored(s'.balances, a) == Expected(s, a);
        if a.token == t {
          UntouchedIsZero(Payload(s.transfers), a);
        }
      }
      assert HolderSet(s'.balances, t) == {};
    }
    forall a ensures Stored(s'.balances, a) == Expected(s', a) {
      assert Expected(s', a) == Expected(s, a);
    }
  }

  lemma {:induction false} UntouchedIsZero(ts: seq<Transfer>, a: Account)
    requires forall t :: t in ts ==> t.token != a.token
    ensures Net(ts, a) == 0
  {
    if ts != [] {
      assert ts[|ts| - 1] in ts;
      UntouchedIsZero(ts[..|ts| - 1], a);
    }
  }

  /** Recounting at start-up repairs every count exactly when the tokens left with no balance
      row already read zero. */
  lemma SyncRepairs(s: Tables, s': Tables)
    requires Step(s, SyncCounts, s')
    ensures (forall t :: t in s'.holderCounts ==> s'.holderCounts[t] == Holders(s'.balances, t)) <==>
            (forall t :: t in s.holderCounts && !(exists a :: a in s.balances && a.token == t) ==>
              s.holderCounts[t] == 0)
  {
  }

  /** The failing side of both: a described token nothing names, with a count of three. Neither the
      rebuild nor the recount touches it, and both leave a count that is no number of holders. */
  lemma StaleCountStays(token: Address)
    ensures
      var s := EMPTY.(holderCounts := map[token := 3]);
      && RowsInv(s) && Step(s, Rebuild, s) && Step(s, SyncCounts, s)
      && (forall s' :: Step(s, Rebuild, s') || Step(s, SyncCounts, s') ==> !LedgerInv(s'))
  {
    var s := EMPTY.(holderCounts := map[token := 3]);
    forall a ensures Stored(s.balances, a) == Expected(s, a) { assert Payload(s.transfers) == []; }
    assert !Touched(s, token);
    forall s' | Step(s, Rebuild, s') || Step(s, SyncCounts, s') ensures !LedgerInv(s') {
      assert token in s.holderCounts && s'.holderCounts[token] == 3;
      NoneHeld(s, s', token);
    }
  }

  lemma NoneHeld(s: Tables, s': Tables, token: Address)
    requires s.transfers == [] && s.genesis == map[] && s.balances == map[]
    requires Step(s, Rebuild, s') || Step(s, SyncCounts, s')
    ensures Holders(s'.balances, token) == 0
  {
    assert Payload(s.transfers) == [];
    if Step(s, Rebuild, s') {
      forall a ensures a !in s'.balances { assert Stored(s'.balances, a) == Expected(s, a); }
    }
    assert HolderSet(s'.balances, token) == {};
  }

  /** Where one batch ends and the next begins does not matter. */
  lemma BatchesCompose(s: Tables, x: seq<Bundle>, s1: Tables, y: seq<Bundle>, s2: Tables)
    requires Step(s, Write(x), s1) && Step(s1, Write(y), s2)
    ensures Step(s, Write(x + y), s2)
  {
    RowsCompose(s, x, s1, y, s2);
    GainsAppend(s.txs, x, y);
  }

  lemma RowsCompose(s: Tables, x: seq<Bundle>, s1: Tables, y: seq<Bundle>, s2: Tables)
    requires WroteRows(s, x, s1) && WroteRows(s1, y, s2)
    ensures WroteRows(s, x + y, s2)
  {
    GrewCompose(s.transfers, AllTransfers(x), s1.transfers, AllTransfers(y), s2.transfers);
    TransfersAppend(x, y);
    SettledAppend(s.balances, NewTo(s.transfers, AllTransfers(x)), NewTo(s1.transfers, AllTransfers(y)));
    CountsCompose(s.holderCounts, s1.holderCounts, s2.holderCounts, AllTokens(x), AllTokens(y),
                  s.balances, s1.balances, s2.balances);
    TokensAppend(x, y);
    BlocksAppend(s.blocks, x, y);
    TxsAppend(s.txs, x, y);
  }

  lemma GrewCompose(rows: seq<Row>, x: seq<Transfer>, rows1: seq<Row>, y: seq<Transfer>, rows2: seq<Row>)
    requires Grew(rows, x, rows1) && Grew(rows1, y, rows2)
    ensures Grew(rows, x + y, rows2)
    ensures NewTo(rows, x + y) == NewTo(rows, x) + NewTo(rows1, y)
  {
    FreshCompose(Payload(rows), x, Payload(rows1), y);
    Joins(Payload(rows), NewTo(rows, x), NewTo(rows1, y));
  }

  lemma Joins(p: seq<Transfer>, x: seq<Transfer>, y: seq<Transfer>)
    ensures (p + x) + y == p + (x + y)
  {
  }

  lemma FreshCompose(stored: seq<Transfer>, x: seq<Transfer>, stored1: seq<Transfer>, y: seq<Transfer>)
    requires stored1 == stored + Fresh(KeysOf(stored), x)
    ensures Fresh(KeysOf(stored), x + y) == Fresh(KeysOf(stored), x) + Fresh(KeysOf(stored1), y)
  {
    var keys := KeysOf(stored);
    FreshAppend(keys, x, y);
    FreshKeys(keys, x);
    assert KeysOf(stored1) == keys + KeysOf(Fresh(keys, x));
  }

  lemma CountsCompose(m: map<Address, int>, m1: map<Address, int>, m2: map<Address, int>,
                      d: set<Address>, e: set<Address>, b: Table, b1: Table, b2: Table)
    requires CountsMoved(m, m1, d, b, b1) && CountsMoved(m1, m2, e, b1, b2)
    ensures CountsMoved(m, m2, d + e, b, b2)
  {
  }

  /** The sum of a token's stored balances is the genesis balance credited so far. */
  lemma LedgerConserves(s: Tables, token: Address)
    requires LedgerInv(s)
    ensures Total(s.balances, token) == Total(s.genesis, token)
  {
    var g := Trimmed(s.genesis);
    forall a ensures Stored(s.balances, a) == Stored(g, a) + Net(Payload(s.transfers), a) {
      assert Stored(s.balances, a) == Expected(s, a);
    }
    NettedIsSettled(g, Payload(s.transfers), s.balances);
    SettledConserves(g, Payload(s.transfers), token);
    TrimmedTotal(s.genesis, token);
  }

  /** A count is the number of strictly positive balances. */
  lemma CountsArePositiveBalances(s: Tables, token: Address)
    requires LedgerInv(s) && token in s.holderCounts
    ensures s.holderCounts[token] == |set a | a in s.balances && a.token == token && Expected(s, a) > 0|
  {
    forall a | a in s.balances ensures s.balances[a] >= 0 <==> Expected(s, a) > 0 {
      assert Stored(s.balances, a) == Expected(s, a);
    }
    assert HolderSet(s.balances, token) == set a | a in s.balances && a.token == token && Expected(s, a) > 0;
  }
}
