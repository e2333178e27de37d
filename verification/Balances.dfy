/** The balance table of `src/db.rs` on values: one row per (token, holder), moved
    by transfers, counted by holder, and summed per token. */
module Balances {

  /** A 20-byte address read as a number. */
  type Address = nat

  const ZERO_ADDRESS: Address := 0

  datatype Account = Account(token: Address, holder: Address)

  datatype Transfer = Transfer(block: nat, logIndex: nat, token: Address, sender: Address, recipient: Address,
    amount: int)
  {
    /** The unique key of `transfer_events`. */
    function Key(): (nat, nat) { (block, logIndex) }
  }

  type Table = map<Account, int>

  /** What a table says an account holds: a missing row is a zero balance. */
  function Stored(b: Table, a: Account): int { if a in b then b[a] else 0 }

  /** No row at zero: the writer deletes them. */
  ghost predicate Canonical(b: Table) { forall a | a in b :: b[a] != 0 }

  /** One signed delta applied to one row. */
  function Adjusted(b: Table, a: Account, delta: int): Table {
    if delta == 0 then b
    else if Stored(b, a) + delta == 0 then b - {a}
    else b[a := Stored(b, a) + delta]
  }

  /** The rows a holders listing counts: those that are not negative. */
  function HolderSet(b: Table, token: Address): set<Account> {
    set a | a in b && a.token == token && b[a] >= 0
  }

  function Holders(b: Table, token: Address): nat { |HolderSet(b, token)| }

  /** What transfer `t` adds to account `a`: received minus sent. */
  function Effect(t: Transfer, a: Account): int {
    (if a == Account(t.token, t.recipient) then t.amount else 0) -
    (if a == Account(t.token, t.sender) then t.amount else 0)
  }

  /** Received minus sent over a list of transfers. */
  function Net(ts: seq<Transfer>, a: Account): int {
    if ts == [] then 0 else Net(ts[..|ts| - 1], a) + Effect(ts[|ts| - 1], a)
  }

  /** The reference the netted path is measured against: transfers applied one at a
      time, each taken from the sender and then given to the recipient. */
  function Settled(b: Table, ts: seq<Transfer>): Table {
    if ts == [] then b
    else
      var t := ts[|ts| - 1];
      Adjusted(Adjusted(Settled(b, ts[..|ts| - 1]), Account(t.token, t.sender), -t.amount),
               Account(t.token, t.recipient), t.amount)
  }

  /** One transfer, said of the table alone: the recipient gains the amount, the sender loses it, no
      one else moves, and a transfer to oneself moves nothing. */
  lemma OneTransferMoves(b: Table, t: Transfer)
    ensures
      var c := Settled(b, [t]);
      var (from, to) := (Account(t.token, t.sender), Account(t.token, t.recipient));
      && (from != to ==> Stored(c, from) == Stored(b, from) - t.amount && Stored(c, to) == Stored(b, to) + t.amount)
      && (from == to ==> Stored(c, from) == Stored(b, from))
      && forall a :: a != from && a != to ==> Stored(c, a) == Stored(b, a)
  {
    assert [t][..0] == [];
    assert Settled(b, [t][..0]) == b;
  }

  lemma AdjustedStored(b: Table, a: Account, delta: int)
    ensures forall x :: Stored(Adjusted(b, a, delta), x) == Stored(b, x) + (if x == a then delta else 0)
    ensures Canonical(b) ==> Canonical(Adjusted(b, a, delta))
  {
  }

  /** A table without zero rows is determined by what it says each account holds. */
  lemma CanonicalIsDetermined(b: Table, c: Table)
    requires Canonical(b) && Canonical(c)
    requires forall a :: Stored(b, a) == Stored(c, a)
    ensures b == c
  {
    forall a ensures a in b <==> a in c {
      assert Stored(b, a) == Stored(c, a);
    }
    forall a | a in b ensures b[a] == c[a] {
      assert Stored(b, a) == Stored(c, a);
    }
  }

  /** The movement `adjust_balance` reports is what the holder count did, whatever the table held. */
  lemma AdjustedHolders(b: Table, a: Account, delta: int, token: Address)
    ensures Holders(Adjusted(b, a, delta), token) ==
            Holders(b, token) +
            (if delta == 0 || token != a.token then 0
             else (if Stored(b, a) + delta > 0 then 1 else 0) - (if a in b && b[a] >= 0 then 1 else 0))
  {
    var c := Adjusted(b, a, delta);
    var before, after := HolderSet(b, token), HolderSet(c, token);
    if delta == 0 || token != a.token {
      assert before == after;
    } else {
      assert before - {a} == after - {a};
      assert a in before <==> a in b && b[a] >= 0;
      assert a in after <==> Stored(b, a) + delta > 0;
      assert |before| == |before - {a}| + if a in before then 1 else 0;
      assert |after| == |after - {a}| + if a in after then 1 else 0;
    }
  }

  lemma {:induction false} NetAppend(x: seq<Transfer>, y: seq<Transfer>, a: Account)
    ensures Net(x + y, a) == Net(x, a) + Net(y, a)
  {
    if y == [] {
      assert x + y == x;
    } else {
      var last := |y| - 1;
      assert (x + y)[..|x + y| - 1] == x + y[..last];
      NetAppend(x, y[..last], a);
    }
  }

  lemma {:induction false} SettledAppend(b: Table, x: seq<Transfer>, y: seq<Transfer>)
    ensures Settled(b, x + y) == Settled(Settled(b, x), y)
  {
    if y == [] {
      assert x + y == x;
    } else {
      var last := |y| - 1;
      assert (x + y)[..|x + y| - 1] == x + y[..last];
      SettledAppend(b, x, y[..last]);
    }
  }

  /** One-at-a-time application, through intermediate zero and negative balances, moves
      each account by its net. */
  lemma {:induction false} SettledStored(b: Table, ts: seq<Transfer>)
    ensures forall a :: Stored(Settled(b, ts), a) == Stored(b, a) + Net(ts, a)
    ensures Canonical(b) ==> Canonical(Settled(b, ts))
  {
    forall a ensures Stored(Settled(b, ts), a) == Stored(b, a) + Net(ts, a) {
      SettledAt(b, ts, a);
    }
    if Canonical(b) { SettledIsCanonical(b, ts); }
  }

  lemma {:induction false} SettledAt(b: Table, ts: seq<Transfer>, a: Account)
    ensures Stored(Settled(b, ts), a) == Stored(b, a) + Net(ts, a)
  {
    if ts != [] {
      var last := |ts| - 1;
      SettledAt(b, ts[..last], a);
    }
  }

  lemma SettledNext(b: Table, ts: seq<Transfer>, i: nat)
    requires i < |ts|
    ensures Settled(b, ts[..i + 1]) ==
      Adjusted(Adjusted(Settled(b, ts[..i]), Account(ts[i].token, ts[i].sender), -ts[i].amount),
               Account(ts[i].token, ts[i].recipient), ts[i].amount)
  {
    assert ts[..i + 1][..i] == ts[..i];
  }

  lemma {:induction false} SettledIsCanonical(b: Table, ts: seq<Transfer>)
    requires Canonical(b)
    ensures Canonical(Settled(b, ts))
  {
    if ts != [] {
      SettledIsCanonical(b, ts[..|ts| - 1]);
    }
  }

  /** Netting refines sequential application: any table without zero rows in which each
      account moved by its net is the table the transfers leave one by one. */
  lemma NettedIsSettled(b: Table, ts: seq<Transfer>, c: Table)
    requires Canonical(b) && Canonical(c)
    requires forall a :: Stored(c, a) == Stored(b, a) + Net(ts, a)
    ensures c == Settled(b, ts)
  {
    SettledStored(b, ts);
    forall a ensures Stored(c, a) == Stored(Settled(b, ts), a) {
      assert Stored(Settled(b, ts), a) == Stored(b, a) + Net(ts, a);
    }
    CanonicalIsDetermined(c, Settled(b, ts));
  }

  /** A transfer counts for the same wherever it stands. */
  lemma NetWithout(ts: seq<Transfer>, i: nat, a: Account)
    requires i < |ts|
    ensures Net(ts, a) == Net(ts[..i] + ts[i + 1..], a) + Effect(ts[i], a)
  {
    var x, t, y := ts[..i], ts[i], ts[i + 1..];
    assert ts == x + ([t] + y);
    NetAppend(x, [t] + y, a);
    NetAppend([t], y, a);
    NetAppend(x, y, a);
    assert [t][..0] == [];
  }

  lemma BagWithout(ts: seq<Transfer>, i: nat)
    requires i < |ts|
    ensures multiset(ts[..i] + ts[i + 1..]) == multiset(ts) - multiset{ts[i]}
  {
    assert ts == ts[..i] + ([ts[i]] + ts[i + 1..]);
  }

  /** Net is a sum over the rows, not over their order. */
  lemma {:induction false} NetIgnoresOrder(x: seq<Transfer>, y: seq<Transfer>, a: Account)
    requires multiset(x) == multiset(y)
    ensures Net(x, a) == Net(y, a)
    decreases |x|
  {
    if x == [] {
      assert |multiset(y)| == 0;
    } else {
      var last := |x| - 1;
      assert x[last] in multiset(y);
      var i :| 0 <= i < |y| && y[i] == x[last];
      BagWithout(x, last);
      BagWithout(y, i);
      assert x[..last] + x[last + 1..] == x[..last];
      NetIgnoresOrder(x[..last], y[..i] + y[i + 1..], a);
      NetWithout(y, i, a);
    }
  }

  /** The balances of one token, summed. */
  ghost function Total(b: Table, token: Address): int {
    if b == map[] then 0
    else
      var a :| a in b;
      (if a.token == token then b[a] else 0) + Total(b - {a}, token)
  }

  lemma {:induction false} TotalWithout(b: Table, a: Account, token: Address)
    requires a in b
    ensures Total(b, token) == (if a.token == token then b[a] else 0) + Total(b - {a}, token)
    decreases |b|
  {
    var x :| x in b && Total(b, token) == (if x.token == token then b[x] else 0) + Total(b - {x}, token);
    if x != a {
      TotalWithout(b - {x}, a, token);
      TotalWithout(b - {a}, x, token);
      assert b - {x} - {a} == b - {a} - {x};
    }
  }

  lemma AdjustedTotal(b: Table, a: Account, delta: int, token: Address)
    ensures Total(Adjusted(b, a, delta), token) == Total(b, token) + (if a.token == token then delta else 0)
  {
    var c := Adjusted(b, a, delta);
    if delta != 0 {
      assert c - {a} == b - {a};
      if a in b { TotalWithout(b, a, token); } else { assert b - {a} == b; }
      if a in c { TotalWithout(c, a, token); } else { assert c - {a} == c; }
    }
  }

  /** Transfers move a token's balances without changing their sum. */
  lemma {:induction false} SettledConserves(b: Table, ts: seq<Transfer>, token: Address)
    ensures Total(Settled(b, ts), token) == Total(b, token)
  {
    if ts != [] {
      var t := ts[|ts| - 1];
      var c := Settled(b, ts[..|ts| - 1]);
      SettledConserves(b, ts[..|ts| - 1], token);
      AdjustedTotal(c, Account(t.token, t.sender), -t.amount, token);
      AdjustedTotal(Adjusted(c, Account(t.token, t.sender), -t.amount), Account(t.token, t.recipient), t.amount, token);
    }
  }

  /** A table with its zero rows dropped. */
  function Trimmed(b: Table): Table { map a | a in b && b[a] != 0 :: b[a] }

  lemma {:induction false} TrimmedTotal(b: Table, token: Address)
    ensures Total(Trimmed(b), token) == Total(b, token)
    decreases |b|
  {
    if b == map[] {
      assert Trimmed(b) == map[];
    } else {
      var a :| a in b;
      TotalWithout(b, a, token);
      TrimmedTotal(b - {a}, token);
      TrimmedWithout(b, a);
      if b[a] != 0 { TotalWithout(Trimmed(b), a, token); }
    }
  }

  lemma TrimmedWithout(b: Table, a: Account)
    requires a in b
    ensures Trimmed(b - {a}) == if b[a] != 0 then Trimmed(b) - {a} else Trimmed(b)
  {
  }
}
