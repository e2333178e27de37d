/** The address listings of `src/db.rs`: two bounded index walks merged into one page, and the
    order of a holders page. */
module Paging {
  import opened Balances
  import opened Lists
  import opened Schema
  import opened Decimals

  /** A transfer or transaction as a listing sees it: its place and its two addresses. */
  datatype Entry = Entry(block: nat, index: nat, sender: nat, recipient: Recipient)

  /** `x` stands before `y` in a listing: a later block, or a later place in the same one. */
  predicate Newer(x: Entry, y: Entry) { x.block > y.block || (x.block == y.block && x.index > y.index) }

  ghost predicate DistinctPlaces(rows: seq<Entry>) {
    forall i, j :: 0 <= i < j < |rows| ==> rows[i].block != rows[j].block || rows[i].index != rows[j].index
  }

  ghost predicate NewestFirst(xs: seq<Entry>) { forall i, j :: 0 <= i < j < |xs| ==> Newer(xs[i], xs[j]) }

  function Placed(xs: seq<Entry>, x: Entry): seq<Entry> {
    if xs == [] then [x] else if Newer(x, xs[0]) then [x] + xs else [xs[0]] + Placed(xs[1..], x)
  }

  /** All of `rows`, sorted by that order. */
  function Ordered(rows: seq<Entry>): seq<Entry> {
    if rows == [] then [] else Placed(Ordered(rows[1..]), rows[0])
  }

  function Take<T>(xs: seq<T>, n: nat): seq<T> { if n < |xs| then xs[..n] else xs }

  function Drop<T>(xs: seq<T>, n: nat): seq<T> { if n < |xs| then xs[n..] else [] }

  /** `LIMIT ? OFFSET ?`. */
  function Slice<T>(xs: seq<T>, offset: nat, limit: nat): seq<T> { Take(Drop(xs, offset), limit) }

  function Sent(rows: seq<Entry>, a: nat): seq<Entry> {
    if rows == [] then [] else (if rows[0].sender == a then [rows[0]] else []) + Sent(rows[1..], a)
  }

  /** What others sent to `a`; a transfer of `a` to `a` is in `Sent` and so not here. */
  function Received(rows: seq<Entry>, a: nat): seq<Entry> {
    if rows == [] then []
    else (if rows[0].recipient == To(a) && rows[0].sender != a then [rows[0]] else []) + Received(rows[1..], a)
  }

  /** The whole history of an address. */
  function SentOrReceived(rows: seq<Entry>, a: nat): seq<Entry> {
    if rows == [] then []
    else (if rows[0].sender == a || rows[0].recipient == To(a) then [rows[0]] else []) + SentOrReceived(rows[1..], a)
  }

  /** The query: each index walked to the page's end, the two merged, ordered and cut. */
  function TwoWalkPage(rows: seq<Entry>, a: nat, offset: nat, limit: nat): seq<Entry> {
    var n := limit + offset;
    Slice(Ordered(Take(Ordered(Sent(rows, a)), n) + Take(Ordered(Received(rows, a)), n)), offset, limit)
  }

  // ------------------------------------------------------------- ordering

  lemma {:induction false} PlacedIsOrdered(xs: seq<Entry>, x: Entry)
    requires NewestFirst(xs) && forall y :: y in xs ==> Newer(x, y) || Newer(y, x)
    ensures NewestFirst(Placed(xs, x))
    ensures forall y :: y in Placed(xs, x) <==> y in xs || y == x
  {
    if xs != [] && !Newer(x, xs[0]) {
      assert xs == [xs[0]] + xs[1..];
      PlacedIsOrdered(xs[1..], x);
      var rest := Placed(xs[1..], x);
      forall i | 0 <= i < |rest| ensures Newer(xs[0], rest[i]) { assert rest[i] in rest; }
    }
  }

  lemma {:induction false} OrderedIsOrdered(rows: seq<Entry>)
    requires DistinctPlaces(rows)
    ensures NewestFirst(Ordered(rows)) && forall y :: y in Ordered(rows) <==> y in rows
  {
    if rows != [] {
      assert rows == [rows[0]] + rows[1..];
      OrderedIsOrdered(rows[1..]);
      forall y | y in rows[1..] ensures Newer(rows[0], y) || Newer(y, rows[0]) {
        var j :| 1 <= j < |rows| && rows[j] == y;
      }
      PlacedIsOrdered(Ordered(rows[1..]), rows[0]);
    }
  }

  lemma InTail(xs: seq<Entry>, e: Entry)
    requires NewestFirst(xs) && xs != []
    ensures e in xs[1..] <==> e in xs && e != xs[0]
  {
  }

  /** A set of rows has one newest-first list. */
  lemma {:induction false} OrderIsUnique(xs: seq<Entry>, ys: seq<Entry>)
    requires NewestFirst(xs) && NewestFirst(ys) && forall e :: e in xs <==> e in ys
    ensures xs == ys
    decreases |xs|
  {
    if xs == [] {
      FirstIsIn(ys);
    } else {
      assert xs[0] in ys && ys[0] in xs;
      assert xs[0] == ys[0];
      forall e ensures e in xs[1..] <==> e in ys[1..] {
        InTail(xs, e);
        InTail(ys, e);
      }
      OrderIsUnique(xs[1..], ys[1..]);
      assert xs == [xs[0]] + xs[1..] && ys == [ys[0]] + ys[1..];
    }
  }

  /** Two newest-first lists interleaved. */
  function Merged(xs: seq<Entry>, ys: seq<Entry>): seq<Entry> {
    if xs == [] then ys
    else if ys == [] then xs
    else if Newer(xs[0], ys[0]) then [xs[0]] + Merged(xs[1..], ys)
    else [ys[0]] + Merged(xs, ys[1..])
  }

  lemma {:induction false} InMerged(xs: seq<Entry>, ys: seq<Entry>, e: Entry)
    ensures e in Merged(xs, ys) <==> e in xs || e in ys
    decreases |xs| + |ys|
  {
    if xs != [] && ys != [] {
      assert xs == [xs[0]] + xs[1..] && ys == [ys[0]] + ys[1..];
      if Newer(xs[0], ys[0]) { InMerged(xs[1..], ys, e); } else { InMerged(xs, ys[1..], e); }
    }
  }

  lemma {:induction false} MergedIsOrdered(xs: seq<Entry>, ys: seq<Entry>)
    requires NewestFirst(xs) && NewestFirst(ys)
    requires forall x, y :: x in xs && y in ys ==> Newer(x, y) || Newer(y, x)
    ensures NewestFirst(Merged(xs, ys))
    decreases |xs| + |ys|
  {
    if xs != [] && ys != [] {
      var first := if Newer(xs[0], ys[0]) then xs[0] else ys[0];
      var (xs', ys') := if Newer(xs[0], ys[0]) then (xs[1..], ys) else (xs, ys[1..]);
      MergedIsOrdered(xs', ys');
      var rest := Merged(xs', ys');
      forall i | 0 <= i < |rest| ensures Newer(first, rest[i]) {
        InMerged(xs', ys', rest[i]);
        assert rest[i] in rest;
        if rest[i] in xs' { FirstIsNewest(xs, rest[i]); } else { FirstIsNewest(ys, rest[i]); }
      }
    }
  }

  lemma FirstIsNewest(xs: seq<Entry>, e: Entry)
    requires NewestFirst(xs) && e in xs
    ensures e == xs[0] || Newer(xs[0], e)
  {
  }

  /** The first rows of a merge come from the first rows of what is merged. */
  lemma {:induction false} MergeOfTakes(xs: seq<Entry>, ys: seq<Entry>, p: nat, q: nat, n: nat)
    requires n <= p && n <= q
    ensures Take(Merged(Take(xs, p), Take(ys, q)), n) == Take(Merged(xs, ys), n)
    decreases n
  {
    if n > 0 && xs != [] && ys != [] {
      var (a, b) := (Take(xs, p), Take(ys, q));
      TakeTail(xs, p);
      TakeTail(ys, q);
      if Newer(xs[0], ys[0]) {
        MergeOfTakes(xs[1..], ys, p - 1, q, n - 1);
        TakeCons(xs[0], Merged(a[1..], b), n);
        TakeCons(xs[0], Merged(xs[1..], ys), n);
      } else {
        MergeOfTakes(xs, ys[1..], p, q - 1, n - 1);
        TakeCons(ys[0], Merged(a, b[1..]), n);
        TakeCons(ys[0], Merged(xs, ys[1..]), n);
      }
    }
  }

  lemma TakeTail(xs: seq<Entry>, n: nat)
    requires n > 0 && xs != []
    ensures Take(xs, n) != [] && Take(xs, n)[0] == xs[0] && Take(xs, n)[1..] == Take(xs[1..], n - 1)
  {
  }

  lemma TakeCons(x: Entry, xs: seq<Entry>, n: nat)
    requires n > 0
    ensures Take([x] + xs, n) == [x] + Take(xs, n - 1)
  {
  }

  /** A page looks no further than its end. */
  lemma SliceOfTake(xs: seq<Entry>, ys: seq<Entry>, offset: nat, limit: nat)
    requires Take(xs, offset + limit) == Take(ys, offset + limit)
    ensures Slice(xs, offset, limit) == Slice(ys, offset, limit)
  {
    SliceWithin(xs, offset, limit);
    SliceWithin(ys, offset, limit);
  }

  lemma SliceWithin(xs: seq<Entry>, offset: nat, limit: nat)
    ensures Slice(xs, offset, limit) == Slice(Take(xs, offset + limit), offset, limit)
  {
  }

  // ------------------------------------------------------------ selection

  lemma {:induction false} Selected(rows: seq<Entry>, a: nat, e: Entry)
    ensures e in Sent(rows, a) <==> e in rows && e.sender == a
    ensures e in Received(rows, a) <==> e in rows && e.recipient == To(a) && e.sender != a
    ensures e in SentOrReceived(rows, a) <==> e in rows && (e.sender == a || e.recipient == To(a))
  {
    if rows != [] {
      assert rows == [rows[0]] + rows[1..];
      Selected(rows[1..], a, e);
    }
  }

  lemma {:induction false} SelectionsAreDistinct(rows: seq<Entry>, a: nat)
    requires DistinctPlaces(rows)
    ensures DistinctPlaces(Sent(rows, a)) && DistinctPlaces(Received(rows, a)) &&
      DistinctPlaces(SentOrReceived(rows, a))
  {
    if rows != [] {
      SelectionsAreDistinct(rows[1..], a);
      forall e | e in rows[1..] ensures Newer(rows[0], e) || Newer(e, rows[0]) {
        var j :| 1 <= j < |rows| && rows[j] == e;
      }
      ConsIsDistinct(rows, Sent(rows[1..], a), a);
      ConsIsDistinct(rows, Received(rows[1..], a), a);
      ConsIsDistinct(rows, SentOrReceived(rows[1..], a), a);
    }
  }

  lemma ConsIsDistinct(rows: seq<Entry>, xs: seq<Entry>, a: nat)
    requires rows != [] && DistinctPlaces(xs)
    requires forall e :: e in rows[1..] ==> Newer(rows[0], e) || Newer(e, rows[0])
    requires xs == Sent(rows[1..], a) || xs == Received(rows[1..], a) || xs == SentOrReceived(rows[1..], a)
    ensures DistinctPlaces([rows[0]] + xs)
  {
    forall i | 0 <= i < |xs| ensures Newer(rows[0], xs[i]) || Newer(xs[i], rows[0]) {
      Selected(rows[1..], a, xs[i]);
      assert xs[i] in xs;
    }
  }

  /** Ordering two lists put together is merging them in order. */
  lemma OrderedJoin(rows: seq<Entry>, xs: seq<Entry>, ys: seq<Entry>)
    requires DistinctPlaces(rows) && NewestFirst(xs) && NewestFirst(ys)
    requires (forall e :: e in xs ==> e in rows) && (forall e :: e in ys ==> e in rows && e !in xs)
    ensures Ordered(xs + ys) == Merged(xs, ys) && NewestFirst(Merged(xs, ys))
  {
    assert forall x, y :: x in xs && y in ys ==> Newer(x, y) || Newer(y, x);
    forall i, j | 0 <= i < |xs| && 0 <= j < |ys| ensures Newer(xs[i], ys[j]) || Newer(ys[j], xs[i]) {
      assert xs[i] in xs && ys[j] in ys;
    }
    assert DistinctPlaces(xs + ys);
    OrderedIsOrdered(xs + ys);
    MergedIsOrdered(xs, ys);
    forall e ensures e in Ordered(xs + ys) <==> e in Merged(xs, ys) { InMerged(xs, ys, e); }
    OrderIsUnique(Ordered(xs + ys), Merged(xs, ys));
  }

  lemma WholeHistoryIsMerged(rows: seq<Entry>, a: nat)
    requires DistinctPlaces(rows)
    ensures Ordered(SentOrReceived(rows, a)) == Merged(Ordered(Sent(rows, a)), Ordered(Received(rows, a)))
  {
    var (sent, received, all) := (Sent(rows, a), Received(rows, a), SentOrReceived(rows, a));
    SelectionsAreDistinct(rows, a);
    OrderedIsOrdered(sent);
    OrderedIsOrdered(received);
    OrderedIsOrdered(all);
    forall e ensures (e in Ordered(sent) ==> e in rows) && (e in Ordered(received) ==> e in rows && e !in Ordered(sent)) {
      Selected(rows, a, e);
    }
    OrderedJoin(rows, Ordered(sent), Ordered(received));
    forall e ensures e in Ordered(all) <==> e in Merged(Ordered(sent), Ordered(received)) {
      Selected(rows, a, e);
      InMerged(Ordered(sent), Ordered(received), e);
    }
    OrderIsUnique(Ordered(all), Merged(Ordered(sent), Ordered(received)));
  }

  lemma TwoWalksAreSlice(rows: seq<Entry>, a: nat, offset: nat, limit: nat)
    requires DistinctPlaces(rows)
    ensures TwoWalkPage(rows, a, offset, limit) == Slice(Ordered(SentOrReceived(rows, a)), offset, limit)
  {
    var n := limit + offset;
    var (xs, ys) := (Ordered(Sent(rows, a)), Ordered(Received(rows, a)));
    SelectionsAreDistinct(rows, a);
    OrderedIsOrdered(Sent(rows, a));
    OrderedIsOrdered(Received(rows, a));
    forall e ensures (e in Take(xs, n) ==> e in rows) && (e in Take(ys, n) ==> e in rows && e !in Take(xs, n)) {
      Selected(rows, a, e);
      assert e in Take(xs, n) ==> e in xs;
      assert e in Take(ys, n) ==> e in ys;
    }
    OrderedJoin(rows, Take(xs, n), Take(ys, n));
    MergeOfTakes(xs, ys, n, n, n);
    WholeHistoryIsMerged(rows, a);
    SliceOfTake(Ordered(Take(xs, n) + Take(ys, n)), Merged(xs, ys), offset, limit);
  }

  /** The two bounded walks give exactly the page of the whole history: later blocks first, and in a
      block later places first. */
  lemma TwoWalksArePage(rows: seq<Entry>, a: nat, offset: nat, limit: nat)
    requires DistinctPlaces(rows)
    ensures TwoWalkPage(rows, a, offset, limit) == Slice(Ordered(SentOrReceived(rows, a)), offset, limit)
    ensures
      var page := TwoWalkPage(rows, a, offset, limit);
      forall i, j :: 0 <= i < j < |page| ==>
        page[i].block > page[j].block || (page[i].block == page[j].block && page[i].index > page[j].index)
  {
    TwoWalksAreSlice(rows, a, offset, limit);
    SelectionsAreDistinct(rows, a);
    OrderedIsOrdered(SentOrReceived(rows, a));
    SliceIsOrdered(Ordered(SentOrReceived(rows, a)), offset, limit);
  }

  lemma SliceIsOrdered(xs: seq<Entry>, offset: nat, limit: nat)
    requires NewestFirst(xs)
    ensures NewestFirst(Slice(xs, offset, limit))
  {
  }

  // ---------------------------------------------------------------- pages

  const U32_MAX: nat := 0xFFFF_FFFF
  const I64_MAX: nat := 0x7FFF_FFFF_FFFF_FFFF

  /** How many rows the pages before this one hold; page 0 counts as page 1. */
  function PageOffset(page: nat, perPage: nat): nat { (if page == 0 then 0 else page - 1) * perPage }

  /** The page size of the listings served. */
  const PER_PAGE: nat := 25

  /** The offset of any page asked for fits, and would not in 32 bits. */
  lemma OffsetFits(page: nat)
    requires page <= U32_MAX
    ensures PageOffset(page, PER_PAGE) <= I64_MAX
    ensures PageOffset(0, PER_PAGE) == PageOffset(1, PER_PAGE) == 0
    ensures PageOffset(page, PER_PAGE) <= U32_MAX <==> page <= 171_798_692
  {
  }

  /** For pages of another size: no page of any 32-bit number overflows the 64-bit offset exactly
      while pages hold at most 2^31 + 1 rows. */
  lemma OffsetFitsIff(perPage: nat)
    requires perPage <= U32_MAX
    ensures (forall page: nat :: page <= U32_MAX ==> PageOffset(page, perPage) <= I64_MAX) <==> perPage <= 0x8000_0001
  {
    if perPage <= 0x8000_0001 {
      forall page: nat | page <= U32_MAX ensures PageOffset(page, perPage) <= I64_MAX {
        ProductBound(if page == 0 then 0 else page - 1, perPage, U32_MAX - 1, 0x8000_0001);
      }
    } else {
      ProductBound(U32_MAX - 1, 0x8000_0002, U32_MAX - 1, perPage);
      assert PageOffset(U32_MAX, perPage) > I64_MAX;
    }
  }

  lemma ProductBound(x: nat, y: nat, m: nat, n: nat)
    requires x <= m && y <= n
    ensures x * y <= m * n
  {
  }

  /** The first `k` pages, one after another. */
  function Pages(rows: seq<Entry>, a: nat, perPage: nat, k: nat): seq<Entry> {
    if k == 0 then [] else Pages(rows, a, perPage, k - 1) + TwoWalkPage(rows, a, PageOffset(k, perPage), perPage)
  }

  lemma {:induction false} PagesArePrefix(rows: seq<Entry>, a: nat, perPage: nat, k: nat)
    requires DistinctPlaces(rows)
    ensures Pages(rows, a, perPage, k) == Take(Ordered(SentOrReceived(rows, a)), k * perPage)
  {
    if k > 0 {
      PagesArePrefix(rows, a, perPage, k - 1);
      NextPage(rows, a, perPage, k);
    }
  }

  lemma NextPage(rows: seq<Entry>, a: nat, perPage: nat, k: nat)
    requires DistinctPlaces(rows) && k > 0
    ensures
      var all := Ordered(SentOrReceived(rows, a));
      Take(all, (k - 1) * perPage) + TwoWalkPage(rows, a, PageOffset(k, perPage), perPage) == Take(all, k * perPage)
  {
    TwoWalksAreSlice(rows, a, PageOffset(k, perPage), perPage);
    OffsetNext(k, perPage);
    TakeThenSlice(Ordered(SentOrReceived(rows, a)), PageOffset(k, perPage), perPage);
  }

  lemma OffsetNext(page: nat, perPage: nat)
    requires page > 0
    ensures PageOffset(page, perPage) == (page - 1) * perPage
    ensures page * perPage == PageOffset(page, perPage) + perPage
  {
  }

  lemma TakeThenSlice(xs: seq<Entry>, offset: nat, limit: nat)
    ensures Take(xs, offset) + Slice(xs, offset, limit) == Take(xs, offset + limit)
  {
  }

  /** Enough pages make the whole history: every row sent or received, newest first, each once. */
  lemma PagesAreHistory(rows: seq<Entry>, a: nat, perPage: nat, k: nat)
    requires DistinctPlaces(rows) && k * perPage >= |Ordered(SentOrReceived(rows, a))|
    ensures
      var all := Pages(rows, a, perPage, k);
      forall i, j :: 0 <= i < j < |all| ==>
        all[i].block > all[j].block || (all[i].block == all[j].block && all[i].index > all[j].index)
    ensures forall e :: e in Pages(rows, a, perPage, k) <==> e in rows && (e.sender == a || e.recipient == To(a))
  {
    PagesArePrefix(rows, a, perPage, k);
    SelectionsAreDistinct(rows, a);
    OrderedIsOrdered(SentOrReceived(rows, a));
    forall e ensures e in SentOrReceived(rows, a) <==> e in rows && (e.sender == a || e.recipient == To(a)) {
      Selected(rows, a, e);
    }
  }

  // -------------------------------------------------------------- holders

  /** A holders listing: the token's rows whose text is not negative, longest text first, then
      by text, descending. Equal balances may come in either order. */
  ghost predicate HoldersListing(s: Tables, token: Address, list: seq<Account>) {
    && (forall a :: a in list <==> a in s.balances && a.token == token && Text(s.balances[a])[0] != '-')
    && (forall i, j :: 0 <= i < j < |list| ==>
          && list[i] in s.balances && list[j] in s.balances && list[i] != list[j]
          && !ListedBelow(Text(s.balances[list[i]]), Text(s.balances[list[j]])))
  }

  /** On a kept ledger the listing is every positive balance of the token, largest first, and
      as many as its holder count says. */
  lemma HoldersAreNumeric(s: Tables, token: Address, list: seq<Account>)
    requires LedgerInv(s) && HoldersListing(s, token, list)
    ensures forall i :: 0 <= i < |list| ==> list[i] in s.balances && s.balances[list[i]] > 0
    ensures forall i, j :: 0 <= i < j < |list| ==>
      list[i] in s.balances && list[j] in s.balances && s.balances[list[i]] >= s.balances[list[j]]
    ensures token in s.holderCounts ==> |list| == s.holderCounts[token]
  {
    forall i | 0 <= i < |list| ensures list[i] in s.balances && s.balances[list[i]] > 0 {
      assert list[i] in list;
      MinusIsNegative(s.balances[list[i]]);
    }
    forall i, j | 0 <= i < j < |list| ensures s.balances[list[i]] >= s.balances[list[j]] {
      assert list[i] in list && list[j] in list;
      ListedBelowIsLess(Decimal(s.balances[list[i]]), Decimal(s.balances[list[j]]));
    }
    forall a ensures a in list <==> a in HolderSet(s.balances, token) {
      if a in s.balances { MinusIsNegative(s.balances[a]); }
    }
    DistinctCount(list, HolderSet(s.balances, token));
  }

  /** The accounts of a token that hold more than `v`, and those that hold at least `v`. */
  function Above(b: Table, token: Address, v: int): set<Account> { set a | a in b && a.token == token && b[a] > v }

  function AtLeast(b: Table, token: Address, v: int): set<Account> { set a | a in b && a.token == token && b[a] >= v }

  /** Fewer than `rank` accounts hold more than `a`, and at least `rank` hold no less. */
  predicate RankFits(b: Table, token: Address, a: Account, rank: nat)
    requires a in b
  {
    |Above(b, token, b[a])| < rank <= |AtLeast(b, token, b[a])|
  }

  /** A page of the listing has the rows that are left for it, and shows each at its rank: fewer
      accounts hold more than the row does, and at least as many hold no less. */
  lemma HoldersAreRanked(s: Tables, token: Address, list: seq<Account>, page: nat, perPage: nat)
    requires LedgerInv(s) && HoldersListing(s, token, list)
    ensures
      var (rows, offset) := (Slice(list, PageOffset(page, perPage), perPage), PageOffset(page, perPage));
      && (token in s.holderCounts ==>
            var left := s.holderCounts[token] - offset;
            |rows| == if left < 0 then 0 else if left < perPage then left else perPage)
      && forall i :: 0 <= i < |rows| ==>
           rows[i] in s.balances && s.balances[rows[i]] > 0
           && RankFits(s.balances, token, rows[i], offset + i + 1)
  {
    var (rows, offset) := (Slice(list, PageOffset(page, perPage), perPage), PageOffset(page, perPage));
    HoldersAreNumeric(s, token, list);
    forall i | 0 <= i < |rows|
        ensures rows[i] in s.balances && s.balances[rows[i]] > 0
        ensures RankFits(s.balances, token, rows[i], offset + i + 1) {
      assert rows[i] == list[offset + i];
      RankOf(s, token, list, offset + i);
    }
  }

  lemma RankOf(s: Tables, token: Address, list: seq<Account>, k: nat)
    requires LedgerInv(s) && HoldersListing(s, token, list) && k < |list|
    ensures list[k] in s.balances
    ensures |Above(s.balances, token, s.balances[list[k]])| <= k < |AtLeast(s.balances, token, s.balances[list[k]])|
  {
    HoldersAreNumeric(s, token, list);
    forall a ensures a in list <==> a in s.balances && a.token == token && s.balances[a] > 0 {
      if a in s.balances { MinusIsNegative(s.balances[a]); }
    }
    RankIn(s.balances, token, list, k);
  }

  lemma RankIn(b: Table, token: Address, list: seq<Account>, k: nat)
    requires forall a :: a in list <==> a in b && a.token == token && b[a] > 0
    requires forall i, j :: 0 <= i < j < |list| ==> list[i] != list[j]
    requires forall i, j :: 0 <= i < j < |list| ==> list[i] in b && list[j] in b && b[list[i]] >= b[list[j]]
    requires k < |list|
    ensures list[k] in b && |Above(b, token, b[list[k]])| <= k < |AtLeast(b, token, b[list[k]])|
  {
    assert list[k] in list;
    var before, through := list[..k], list[..k + 1];
    forall a | a in Above(b, token, b[list[k]]) ensures a in before {
      var i :| 0 <= i < |list| && list[i] == a;
      assert before[i] == a;
    }
    forall a | a in through ensures a in AtLeast(b, token, b[list[k]]) {
      var i :| 0 <= i <= k && list[i] == a;
      assert list[i] in list;
    }
    var (x, y) := ((set a | a in before), (set a | a in through));
    DistinctCount(before, x);
    DistinctCount(through, y);
    FewerIn(Above(b, token, b[list[k]]), x);
    FewerIn(y, AtLeast(b, token, b[list[k]]));
  }

  lemma {:induction false} FewerIn(x: set<Account>, y: set<Account>)
    requires x <= y
    ensures |x| <= |y|
  {
    assert y == x + (y - x);
  }
}
