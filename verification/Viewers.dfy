/** The protocol and the live feed in one process: what the protocol guarantees is what the feed
    and its viewers rest on, until the process stops. */
module Viewers {
  import Index = IndexProtocol
  import Feed = LiveFeed
  import opened RangeFetch

  /** The indexing protocol above a database, and the feed that polls it with one viewer, once the
      feed has started. */
  datatype Watched = Watched(index: Index.State, feed: Option<Feed.System>)

  datatype Move =
    | IndexMove(step: Index.Action)   // the loops, the channel, the writer; a crash ends the feed too
    | FeedStarts
    | FeedMove(act: Feed.Action)      // the feed, or its viewer

  function FeedAbove(stored: set<nat>, feed: Option<Feed.System>): Option<Feed.System> {
    match feed
    case None => None
    case Some(f) => Some(f.(stored := stored))
  }

  ghost predicate Moves(w: Watched, m: Move, w': Watched) {
    match m
    case IndexMove(step) =>
      && Index.Acts(w.index, step, w'.index) && Index.Guarded(w.index, step)
      && w'.feed == if step.Crash? then None else FeedAbove(w'.index.stored, w.feed)
    case FeedStarts =>
      && w.feed == None && w'.index == w.index
      && w'.feed == Some(Feed.System(w.index.stored, [], Feed.TipOf(w.index.stored), [], None))
    case FeedMove(act) =>
      && w.feed.Some? && w'.feed.Some? && w'.index == w.index
      && !act.Write? && Feed.Acts(w.feed.value, act, w'.feed.value)
  }

  /** From a start over a gapless database, any interleaving of protocol, feed, viewers and restarts. */
  ghost predicate Session(ms: seq<Move>, ws: seq<Watched>) {
    && |ws| == |ms| + 1 && Index.Initial(ws[0].index) && ws[0].feed == None
    && (forall i :: 0 <= i < |ms| ==> Moves(ws[i], ms[i], ws[i + 1]))
  }

  ghost predicate WatchedInv(w: Watched, lo: nat, hi: nat) {
    Index.Inv(w.index, lo, hi) && (w.feed.Some? ==> w.feed.value.stored == w.index.stored)
  }

  function FeedOf(w: Watched): Feed.System {
    if w.feed.Some? then w.feed.value else Feed.System({}, [], -1, [], None)
  }

  /** What a move is to a feed that is up before and after it: the writer's commits are writes, the
      protocol's other steps write nothing. */
  function AsFeedAction(w: Watched, m: Move): Feed.Action {
    match m
    case IndexMove(step) => Feed.Write(if step.Commit? then Elements(w.index.held) else {})
    case FeedStarts => Feed.Write({})
    case FeedMove(act) => act
  }

  lemma MoveIsFeedAction(w: Watched, m: Move, w': Watched, lo: nat, hi: nat) returns (lo': nat, hi': nat)
    requires WatchedInv(w, lo, hi) && Moves(w, m, w')
    ensures WatchedInv(w', lo', hi')
    ensures w.feed.Some? && w'.feed.Some? ==> Feed.Acts(FeedOf(w), AsFeedAction(w, m), FeedOf(w'))
  {
    lo', hi' := lo, hi;
    if m.IndexMove? {
      lo', hi' := Index.ActKeepsInv(w.index, m.step, w'.index, lo, hi);
      Index.StoredIsGapless(w'.index, lo', hi');
      Index.StoredGrows(w.index, m.step, w'.index);
    } else if m.FeedMove? {
    }
  }

  lemma {:induction false} SessionKeepsInv(ms: seq<Move>, ws: seq<Watched>, n: nat) returns (lo: nat, hi: nat)
    requires Session(ms, ws) && n <= |ms|
    ensures WatchedInv(ws[n], lo, hi)
  {
    if n == 0 {
      lo, hi := Index.FreshStart(ws[0].index.stored);
    } else {
      lo, hi := SessionKeepsInv(ms, ws, n - 1);
      lo, hi := MoveIsFeedAction(ws[n - 1], ms[n - 1], ws[n], lo, hi);
    }
  }

  /** The feed is up in all states from `first` to `last`. */
  ghost predicate Up(ws: seq<Watched>, first: nat, last: nat) {
    last < |ws| && forall i :: first <= i <= last ==> ws[i].feed.Some?
  }

  /** When the feed that is up at `n` was started. */
  lemma {:induction false} StartOf(ms: seq<Move>, ws: seq<Watched>, n: nat) returns (k: nat)
    requires Session(ms, ws) && n <= |ms| && ws[n].feed.Some?
    ensures k < n && ms[k] == FeedStarts && Up(ws, k + 1, n)
  {
    assert n > 0;
    assert Moves(ws[n - 1], ms[n - 1], ws[n]);
    if ms[n - 1] == FeedStarts {
      k := n - 1;
    } else {
      k := StartOf(ms, ws, n - 1);
    }
  }

  /** The part of a session from `first` to `last`, as its feed sees it. */
  function FeedActions(ms: seq<Move>, ws: seq<Watched>, first: nat, last: nat): (acts: seq<Feed.Action>)
    requires first <= last <= |ms| && |ws| == |ms| + 1
    ensures |acts| == last - first && forall i :: 0 <= i < |acts| ==>
      acts[i] == AsFeedAction(ws[first + i], ms[first + i])
  {
    seq(last - first, i requires 0 <= i < last - first => AsFeedAction(ws[first + i], ms[first + i]))
  }

  function FeedStates(ws: seq<Watched>, first: nat, last: nat): (ss: seq<Feed.System>)
    requires first <= last < |ws|
    ensures |ss| == last - first + 1 && forall i :: 0 <= i < |ss| ==> ss[i] == FeedOf(ws[first + i])
  {
    seq(last - first + 1, i requires 0 <= i <= last - first => FeedOf(ws[first + i]))
  }

  lemma MoveAt(ms: seq<Move>, ws: seq<Watched>, i: nat)
    requires Session(ms, ws) && i < |ms| && ws[i].feed.Some? && ws[i + 1].feed.Some?
    ensures Feed.Acts(FeedOf(ws[i]), AsFeedAction(ws[i], ms[i]), FeedOf(ws[i + 1]))
  {
    var lo, hi := SessionKeepsInv(ms, ws, i);
    lo, hi := MoveIsFeedAction(ws[i], ms[i], ws[i + 1], lo, hi);
  }

  /** Seen from a feed, a session from its start on is a run of the feed. */
  lemma SessionIsFeedRun(ms: seq<Move>, ws: seq<Watched>, k: nat, n: nat)
    requires Session(ms, ws) && k < n <= |ms| && ms[k] == FeedStarts && Up(ws, k + 1, n)
    ensures Feed.Behaviour(FeedActions(ms, ws, k + 1, n), FeedStates(ws, k + 1, n))
  {
    var (acts, ss) := (FeedActions(ms, ws, k + 1, n), FeedStates(ws, k + 1, n));
    forall i | 0 <= i < |acts| ensures Feed.Acts(ss[i], acts[i], ss[i + 1]) { MoveAt(ms, ws, k + 1 + i); }
    var lo, hi := SessionKeepsInv(ms, ws, k);
    Index.StoredIsGapless(ws[k].index, lo, hi);
    assert Moves(ws[k], ms[k], ws[k + 1]);
  }

  /** No lag of the viewer outran a replay in the states past `at` and before `n`. */
  ghost predicate LagsFit(ws: seq<Watched>, at: nat, n: nat) {
    n < |ws| && forall i :: at < i < n ==> Feed.LagFits(FeedOf(ws[i]))
  }

  /** What the viewer of `w` has been sent is the heights from `first` on, each once and in order,
      all of them stored; and once nothing is left to read, up to all the feed has read. */
  ghost predicate SentFrom(w: Watched, first: int) {
    && w.feed.Some? && w.feed.value.client.Some?
    && var sent := w.feed.value.client.value.delivered;
       && sent == Feed.Span(first, first + |sent| - 1)
       && (forall i :: 0 <= i < |sent| ==> sent[i] >= 0 && sent[i] in w.index.stored)
       && (Feed.Drained(w.feed.value) ==> first + |sent| - 1 >= w.feed.value.sent)
  }

  lemma ExactIsSent(w: Watched, first: int, lo: nat, hi: nat)
    requires WatchedInv(w, lo, hi) && w.feed.Some? && w.feed.value.client.Some?
    requires w.feed.value.client.value.sentInitial && Feed.ExactInv(w.feed.value, w.feed.value.client.value, first)
    ensures SentFrom(w, first)
  {
    var c := w.feed.value.client.value;
    Feed.FrontOfSpan(c.delivered, c.pending, first, c.lastNum);
    Index.StoredIsGapless(w.index, lo, hi);
    forall i | 0 <= i < |c.delivered| ensures c.delivered[i] >= 0 && c.delivered[i] in w.index.stored {
      assert (c.delivered + c.pending)[i] == first + i;
    }
  }

  /** With the protocol underneath, whatever it fetches, loses or retries, and whatever restarts
      there were before: a viewer that found a tip when it connected, in step `at`, is sent the
      heights from that tip on, as long as the process is up and no lag outran a replay. */
  lemma IndexedBlocksReachViewers(ms: seq<Move>, ws: seq<Watched>, at: nat, n: nat)
    requires Session(ms, ws) && at < n <= |ms| && Up(ws, at, n) && LagsFit(ws, at, n)
    requires ms[at] == FeedMove(Feed.ClientStep) && ws[at].index.stored != {}
    requires ws[at].feed.value.client.Some? && !ws[at].feed.value.client.value.sentInitial
    ensures SentFrom(ws[n], Feed.TipOf(ws[at].index.stored))
  {
    var k := StartOf(ms, ws, at);
    SessionIsFeedRun(ms, ws, k, n);
    var lo, hi := SessionKeepsInv(ms, ws, at);
    var (acts, ss) := (FeedActions(ms, ws, k + 1, n), FeedStates(ws, k + 1, n));
    var (at', n') := (at - (k + 1), n - (k + 1));
    assert ss[at'] == ws[at].feed.value && ss[n'] == ws[n].feed.value;
    forall i | at' + 1 <= i < n' ensures Feed.LagFits(ss[i]) { assert Feed.LagFits(FeedOf(ws[k + 1 + i])); }
    Feed.DeliveredExactly(acts, ss, at', n');
    lo, hi := SessionKeepsInv(ms, ws, n);
    ExactIsSent(ws[n], Feed.TipOf(ws[at].index.stored), lo, hi);
  }

  /** And any viewer, subscribed in step `at` to whatever there was, from the first block it is sent. */
  lemma IndexedBlocksReachAnyone(ms: seq<Move>, ws: seq<Watched>, at: nat, n: nat)
    requires Session(ms, ws) && at < n <= |ms| && Up(ws, at, n) && LagsFit(ws, at, n)
    requires ms[at] == FeedMove(Feed.Subscribe)
    ensures ws[n].feed.value.client.Some?
    ensures
      var sent := ws[n].feed.value.client.value.delivered;
      sent != [] ==> SentFrom(ws[n], sent[0])
  {
    var k := StartOf(ms, ws, at);
    SessionIsFeedRun(ms, ws, k, n);
    var (acts, ss) := (FeedActions(ms, ws, k + 1, n), FeedStates(ws, k + 1, n));
    var (at', n') := (at - (k + 1), n - (k + 1));
    assert ss[n'] == ws[n].feed.value;
    forall i | at' + 1 <= i < n' ensures Feed.LagFits(ss[i]) { assert Feed.LagFits(FeedOf(ws[k + 1 + i])); }
    Feed.BehaviourKeepsOnward(acts, ss, at', n');
    var c := ws[n].feed.value.client.value;
    if c.delivered != [] {
      assert (c.delivered + c.pending)[0] == c.delivered[0];
      var lo, hi := SessionKeepsInv(ms, ws, n);
      ExactIsSent(ws[n], c.delivered[0], lo, hi);
    }
  }
}
