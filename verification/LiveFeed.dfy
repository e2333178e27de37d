/** The live feed of `src/web.rs`: the poller that publishes new tip blocks on a bounded, lossy
    channel, and one subscriber that replays from the database when it lags. */
module LiveFeed {
  import opened RangeFetch
  import opened IndexProtocol

  const CHANNEL: nat := 8192
  const SSE_MAX_REPLAY: int := 4096

  datatype Message = Stats | Block(number: int)

  /** A subscriber. `delivered` is what its viewer has been sent so far. */
  datatype Client = Client(pos: nat, pending: seq<int>, lastNum: int, sentInitial: bool, delivered: seq<int>)

  /** What one step hands to the viewer; `Quiet` when the channel has nothing new. */
  datatype Event = Quiet | NullTip | Tip(number: int) | StatsEvent

  datatype System = System(
    stored: set<nat>,
    log: seq<Message>,        // every message published; the channel retains the last CHANNEL
    sent: int,                // the feed has read blocks up to this height
    due: seq<int>,            // read by the feed, not published yet
    client: Option<Client>)

  datatype Action =
    | Write(more: set<nat>)
    | Poll
    | Publish
    | PublishStats
    | Subscribe
    | ClientStep

  ghost function TipOf(stored: set<nat>): int { if stored == {} then -1 else Highest(stored) }

  /** `block_events_in_range`: the stored blocks between two heights, oldest first. */
  function EventsIn(stored: set<nat>, first: int, last: int): seq<int>
    decreases if first <= last then last - first + 1 else 0
  {
    if first > last then []
    else EventsIn(stored, first, last - 1) + if last >= 0 && last in stored then [last] else []
  }

  /** The heights `first..=last`. */
  function Span(first: int, last: int): (s: seq<int>)
    ensures |s| == if first <= last then last - first + 1 else 0
    ensures forall i :: 0 <= i < |s| ==> s[i] == first + i
  {
    if first > last then [] else seq(last - first + 1, i => first + i)
  }

  function Blocks(numbers: seq<int>): (ms: seq<Message>)
    ensures |ms| == |numbers| && forall i :: 0 <= i < |ms| ==> ms[i] == Block(numbers[i])
  {
    seq(|numbers|, i requires 0 <= i < |numbers| => Block(numbers[i]))
  }

  // --------------------------------------------------------- subscriber

  ghost predicate Ready(c: Client, log: seq<Message>) {
    !c.sentInitial || c.pending != [] || c.pos < |log|
  }

  function Lagged(c: Client, log: seq<Message>): bool { |log| - c.pos > CHANNEL }

  /** Where a replay stops: at the tip, or at the most blocks a replay may hold. */
  function ReplayEnd(c: Client, tip: int): int {
    if tip <= c.lastNum + SSE_MAX_REPLAY then tip else c.lastNum + SSE_MAX_REPLAY
  }

  /** One turn of `sse_step`: the initial tip, a replayed block, or one message. */
  function Turn(c: Client, stored: set<nat>, tip: int, log: seq<Message>): (r: (Client, Event))
    requires c.sentInitial && c.pending == [] ==> c.pos < |log|
  {
    if !c.sentInitial then
      if tip < 0 then (c.(sentInitial := true), NullTip)
      else (c.(sentInitial := true, lastNum := tip, delivered := c.delivered + [tip]), Tip(tip))
    else if c.pending != [] then
      (c.(pending := c.pending[1..], delivered := c.delivered + [c.pending[0]]), Tip(c.pending[0]))
    else if Lagged(c, log) then
      var end := ReplayEnd(c, tip);
      (c.(pos := |log| - CHANNEL, pending := EventsIn(stored, c.lastNum + 1, end),
          lastNum := if end > c.lastNum then end else c.lastNum), Quiet)
    else
      var next := c.(pos := c.pos + 1);
      match log[c.pos]
      case Stats => (next, StatsEvent)
      case Block(n) =>
        if n <= c.lastNum then (next, Quiet)
        else (next.(lastNum := n, delivered := c.delivered + [n]), Tip(n))
  }

  /** What a viewer is handed is what counts as delivered to it: the blocks of tip events and no
      others, each under its own number. */
  function Handed(e: Event): seq<int> { if e.Tip? then [e.number] else [] }

  /** The message a turn reads off the channel, if it reads one. */
  function MessageRead(c: Client, log: seq<Message>): Option<Message> {
    if c.sentInitial && c.pending == [] && !Lagged(c, log) && c.pos < |log| then Some(log[c.pos]) else None
  }

  /** What event a turn hands over, case by case, and that it is what it delivers. A message read is
      passed for good, whatever becomes of it. */
  lemma TurnHandsOver(c: Client, stored: set<nat>, tip: int, log: seq<Message>)
    requires Ready(c, log)
    ensures
      var (c', e) := Turn(c, stored, tip, log);
      && c'.delivered == c.delivered + Handed(e) && c'.sentInitial
      && (e == NullTip <==> !c.sentInitial && tip < 0)
      && (e == StatsEvent <==> MessageRead(c, log) == Some(Stats))
      && (!c.sentInitial && tip >= 0 ==> e == Tip(tip) && c'.lastNum == tip)
      && (c.sentInitial && c.pending != [] ==> e == Tip(c.pending[0]) && c'.pending == c.pending[1..])
      && (MessageRead(c, log).Some? ==> c'.pos == c.pos + 1)
      && (forall n :: MessageRead(c, log) == Some(Block(n)) ==>
            e == (if n > c.lastNum then Tip(n) else Quiet) && c'.lastNum == if n > c.lastNum then n else c.lastNum)
      && (c.sentInitial && c.pending == [] && Lagged(c, log) ==> e == Quiet)
  {
  }

  ghost predicate Acts(s: System, act: Action, s': System) {
    match act
    case Write(more) => Gapless(s.stored + more) && s' == s.(stored := s.stored + more)
    case Poll =>
      var tip := TipOf(s.stored);
      s.due == [] && tip > s.sent && s' == s.(due := EventsIn(s.stored, s.sent + 1, tip), sent := tip)
    case Publish => s.due != [] && s' == s.(log := s.log + [Block(s.due[0])], due := s.due[1..])
    case PublishStats => s.due == [] && s' == s.(log := s.log + [Stats])
    case Subscribe => s.client == None && s' == s.(client := Some(Client(|s.log|, [], -1, false, [])))
    case ClientStep =>
      s.client.Some? && Ready(s.client.value, s.log) &&
      s' == s.(client := Some(Turn(s.client.value, s.stored, TipOf(s.stored), s.log).0))
  }

  // -------------------------------------------------- the published stream

  /** Everything published or about to be. */
  function Stream(s: System): seq<Message> { s.log + Blocks(s.due) }

  /** The height just below the next block at or after `pos`. */
  function Before(stream: seq<Message>, pos: nat, sent: int): int
    decreases if pos < |stream| then |stream| - pos else 0
  {
    if pos >= |stream| then sent
    else if stream[pos].Block? then stream[pos].number - 1
    else Before(stream, pos + 1, sent)
  }

  /** Published blocks follow one another without a hole, up to what the feed has read. */
  ghost predicate Consecutive(stream: seq<Message>, sent: int) {
    forall i :: 0 <= i < |stream| && stream[i].Block? ==> Before(stream, i + 1, sent) == stream[i].number
  }

  ghost predicate FeedInv(s: System) {
    && Gapless(s.stored)
    && (s.sent == -1 || (s.sent >= 0 && s.sent in s.stored))
    && (s.sent == -1 ==> forall i :: 0 <= i < |Stream(s)| ==> Stream(s)[i].Stats?)
    && Consecutive(Stream(s), s.sent)
  }

  ghost predicate StrictlyAscending(xs: seq<int>) { forall i, j :: 0 <= i < j < |xs| ==> xs[i] < xs[j] }

  /** Delivered and about to be delivered, in order, none past `lastNum`. */
  ghost predicate OrderInv(c: Client) {
    && StrictlyAscending(c.delivered + c.pending)
    && (forall i :: 0 <= i < |c.delivered + c.pending| ==> (c.delivered + c.pending)[i] <= c.lastNum)
    && (!c.sentInitial ==> c.delivered == [] && c.pending == [])
  }

  /** Nothing is missing between what the client was sent and what it will read next. */
  ghost predicate NoGap(c: Client, stream: seq<Message>, sent: int) { Before(stream, c.pos, sent) <= c.lastNum }

  /** A client that found a tip at connect has been sent, or is about to be, every height from
      that tip to `lastNum`. */
  ghost predicate ExactInv(s: System, c: Client, first: int) {
    && c.sentInitial ==>
      (0 <= first <= c.lastNum && c.lastNum in s.stored && first in s.stored
       && c.delivered + c.pending == Span(first, c.lastNum)
       && NoGap(c, Stream(s), s.sent))
  }

  // ---------------------------------------------------------- range reads

  lemma {:induction false} EventsAreStored(stored: set<nat>, first: int, last: int)
    ensures StrictlyAscending(EventsIn(stored, first, last))
    ensures forall i :: 0 <= i < |EventsIn(stored, first, last)| ==> first <= EventsIn(stored, first, last)[i] <= last
    decreases if first <= last then last - first + 1 else 0
  {
    if first <= last { EventsAreStored(stored, first, last - 1); }
  }

  /** Over a stretch with no hole the range read is the whole stretch. */
  lemma {:induction false} EventsAreAll(stored: set<nat>, first: int, last: int)
    requires 0 <= first && forall x: nat :: first <= x <= last ==> x in stored
    ensures EventsIn(stored, first, last) == Span(first, last)
    decreases if first <= last then last - first + 1 else 0
  {
    if first <= last {
      EventsAreAll(stored, first, last - 1);
      assert Span(first, last) == Span(first, last - 1) + [last];
    }
  }

  lemma {:induction false} EventsSkipMissing(stored: set<nat>, first: int, low: int, last: int)
    requires first <= low && forall x: nat :: first <= x < low ==> x !in stored
    ensures EventsIn(stored, first, last) == EventsIn(stored, low, last)
    decreases if first <= last then last - first + 1 else 0
  {
    if first <= last {
      EventsSkipMissing(stored, first, low, last - 1);
    }
  }

  // -------------------------------------------------------- stream lemmas

  lemma {:induction false} BeforeIsMonotone(stream: seq<Message>, p: nat, q: nat, sent: int)
    requires Consecutive(stream, sent) && p <= q
    ensures Before(stream, p, sent) <= Before(stream, q, sent) <= sent
    decreases if p < |stream| then |stream| - p else 0, q - p
  {
    if p < |stream| {
      BeforeIsMonotone(stream, p + 1, if p < q then q else p + 1, sent);
      if p == q { BeforeIsMonotone(stream, p + 1, p + 1, sent); }
    }
  }

  /** Publishing the run that follows `sent` is invisible to a reader that is not there yet. */
  lemma {:induction false} BeforeExtends(stream: seq<Message>, pos: nat, sent: int, first: int, last: int)
    requires pos <= |stream| && first <= last
    ensures
      var longer := stream + Blocks(Span(first, last));
      Before(longer, pos, last) ==
      if exists i :: pos <= i < |stream| && stream[i].Block? then Before(stream, pos, sent) else first - 1
    decreases |stream| - pos
  {
    var longer := stream + Blocks(Span(first, last));
    if pos < |stream| {
      assert longer[pos] == stream[pos];
      if stream[pos].Stats? { BeforeExtends(stream, pos + 1, sent, first, last); }
    } else {
      assert longer[pos] == Block(first);
    }
  }

  lemma {:induction false} BeforeOfStats(stream: seq<Message>, pos: nat, sent: int)
    requires pos <= |stream| && forall i :: pos <= i < |stream| ==> stream[i].Stats?
    ensures Before(stream, pos, sent) == sent
    decreases |stream| - pos
  {
    if pos < |stream| { BeforeOfStats(stream, pos + 1, sent); }
  }

  lemma RunIsConsecutive(stream: seq<Message>, sent: int, first: int, last: int)
    requires Consecutive(stream, sent) && first <= last
    requires first == sent + 1 || forall i :: 0 <= i < |stream| ==> stream[i].Stats?
    ensures Consecutive(stream + Blocks(Span(first, last)), last)
  {
    var longer := stream + Blocks(Span(first, last));
    forall i | 0 <= i < |longer| && longer[i].Block? ensures Before(longer, i + 1, last) == longer[i].number {
      if i < |stream| {
        BeforeExtends(stream, i + 1, sent, first, last);
        if forall j :: i + 1 <= j < |stream| ==> stream[j].Stats? { BeforeOfStats(stream, i + 1, sent); }
      }
    }
  }

  lemma {:induction false} BeforeStats(stream: seq<Message>, pos: nat, sent: int)
    requires pos <= |stream|
    ensures Before(stream + [Stats], pos, sent) == Before(stream, pos, sent)
    decreases |stream| - pos
  {
    if pos < |stream| { BeforeStats(stream, pos + 1, sent); }
  }

  // ------------------------------------------------------------ the steps

  lemma PublishKeepsStream(s: System, s': System)
    requires Acts(s, Publish, s')
    ensures Stream(s') == Stream(s)
  {
  }

  lemma StatsKeepFeed(s: System, s': System)
    requires FeedInv(s) && Acts(s, PublishStats, s')
    ensures FeedInv(s')
    ensures forall pos: nat :: pos <= |s.log| ==> Before(Stream(s'), pos, s'.sent) == Before(Stream(s), pos, s.sent)
  {
    assert Stream(s) == s.log && Stream(s') == s.log + [Stats];
    forall pos: nat | pos <= |s.log| ensures Before(s.log + [Stats], pos, s.sent) == Before(s.log, pos, s.sent) {
      BeforeStats(s.log, pos, s.sent);
    }
  }

  /** A poll reads exactly the blocks that follow the last one it read; from an empty start,
      those from the lowest stored. */
  lemma PollReads(s: System) returns (first: int)
    requires FeedInv(s) && s.due == [] && TipOf(s.stored) > s.sent
    ensures first <= TipOf(s.stored) && EventsIn(s.stored, s.sent + 1, TipOf(s.stored)) == Span(first, TipOf(s.stored))
    ensures if s.sent == -1 then first in s.stored && first == Lowest(s.stored) else first == s.sent + 1
  {
    var tip := TipOf(s.stored);
    if s.sent == -1 {
      first := Lowest(s.stored);
      EventsSkipMissing(s.stored, 0, first, tip);
    } else {
      first := s.sent + 1;
    }
    EventsAreAll(s.stored, first, tip);
  }

  lemma PollKeepsFeed(s: System, s': System)
    requires FeedInv(s) && Acts(s, Poll, s')
    ensures FeedInv(s')
    ensures forall pos: nat, n: int :: pos <= |s.log| && n >= 0 && n in s.stored && Before(Stream(s), pos, s.sent) <= n ==>
      Before(Stream(s'), pos, s'.sent) <= n
  {
    var first := PollReads(s);
    var tip := TipOf(s.stored);
    assert Stream(s) == s.log && Stream(s') == s.log + Blocks(Span(first, tip));
    RunIsConsecutive(s.log, s.sent, first, tip);
    forall pos: nat, n: int | pos <= |s.log| && n >= 0 && n in s.stored && Before(Stream(s), pos, s.sent) <= n
        ensures Before(Stream(s'), pos, s'.sent) <= n {
      BeforeExtends(s.log, pos, s.sent, first, tip);
      if !exists i :: pos <= i < |s.log| && s.log[i].Block? { BeforeOfStats(s.log, pos, s.sent); }
    }
  }

  lemma ActKeepsFeed(s: System, act: Action, s': System)
    requires FeedInv(s) && Acts(s, act, s')
    ensures FeedInv(s')
  {
    match act
    case Write(_) =>
    case Poll => PollKeepsFeed(s, s');
    case Publish => PublishKeepsStream(s, s');
    case PublishStats => StatsKeepFeed(s, s');
    case Subscribe =>
    case ClientStep =>
  }

  lemma ReplayKeepsOrder(c: Client, stored: set<nat>, tip: int, log: seq<Message>)
    requires OrderInv(c) && c.sentInitial && c.pending == [] && Lagged(c, log)
    ensures OrderInv(Turn(c, stored, tip, log).0)
  {
    var c' := Turn(c, stored, tip, log).0;
    EventsAreStored(stored, c.lastNum + 1, ReplayEnd(c, tip));
    assert c'.delivered + c'.pending == c.delivered + c.pending + c'.pending;
  }

  lemma MessageKeepsOrder(c: Client, stored: set<nat>, tip: int, log: seq<Message>)
    requires OrderInv(c) && c.sentInitial && c.pending == [] && !Lagged(c, log) && c.pos < |log|
    ensures OrderInv(Turn(c, stored, tip, log).0)
  {
    var c' := Turn(c, stored, tip, log).0;
    if log[c.pos].Block? && log[c.pos].number > c.lastNum {
      assert c'.delivered + c'.pending == c.delivered + c.pending + [log[c.pos].number];
    }
  }

  /** Order holds for every client, whatever it lost and whatever the database held. */
  lemma TurnKeepsOrder(c: Client, stored: set<nat>, tip: int, log: seq<Message>)
    requires OrderInv(c) && Ready(c, log)
    ensures OrderInv(Turn(c, stored, tip, log).0)
  {
    var c' := Turn(c, stored, tip, log).0;
    if !c.sentInitial {
    } else if c.pending != [] {
      assert c'.delivered + c'.pending == c.delivered + c.pending;
    } else if Lagged(c, log) {
      ReplayKeepsOrder(c, stored, tip, log);
    } else {
      MessageKeepsOrder(c, stored, tip, log);
    }
  }

  /** After a lag nothing is missing exactly when the blocks dropped before the client could
      read them number at most `SSE_MAX_REPLAY`. */
  lemma LagIsCoveredIff(s: System, c: Client)
    requires FeedInv(s) && c.sentInitial && c.pending == [] && Lagged(c, s.log)
    requires c.lastNum >= 0 && c.lastNum in s.stored
    ensures
      var c' := Turn(c, s.stored, TipOf(s.stored), s.log).0;
      NoGap(c', Stream(s), s.sent) <==> Before(Stream(s), c'.pos, s.sent) - c.lastNum <= SSE_MAX_REPLAY
  {
    BeforeIsMonotone(Stream(s), |s.log| - CHANNEL, |s.log| - CHANNEL, s.sent);
  }

  /** What the channel dropped before this turn, beyond what the client had, fits in a replay. */
  ghost predicate LagFits(s: System) {
    s.client.Some? && s.client.value.sentInitial && s.client.value.pending == [] && Lagged(s.client.value, s.log) ==>
      Before(Stream(s), |s.log| - CHANNEL, s.sent) - s.client.value.lastNum <= SSE_MAX_REPLAY
  }

  /** A block read off the channel is the next one exactly when nothing was missing. */
  lemma ReceivedIsNextIff(s: System, c: Client)
    requires FeedInv(s) && c.sentInitial && c.pending == [] && !Lagged(c, s.log)
    requires c.pos < |s.log| && s.log[c.pos].Block? && s.log[c.pos].number > c.lastNum
    ensures s.log[c.pos].number == c.lastNum + 1 <==> NoGap(c, Stream(s), s.sent)
  {
  }

  lemma ConnectIsExact(s: System, c: Client)
    requires FeedInv(s) && OrderInv(c) && !c.sentInitial && s.stored != {}
    requires c.pos <= |s.log|
    ensures ExactInv(s, Turn(c, s.stored, TipOf(s.stored), s.log).0, TipOf(s.stored))
  {
    BeforeIsMonotone(Stream(s), c.pos, c.pos, s.sent);
    var tip := TipOf(s.stored);
    assert Span(tip, tip) == [tip];
  }

  lemma ReplayIsExact(s: System, c: Client, first: int)
    requires FeedInv(s) && ExactInv(s, c, first) && c.sentInitial && c.pending == [] && Lagged(c, s.log)
    requires Before(Stream(s), |s.log| - CHANNEL, s.sent) - c.lastNum <= SSE_MAX_REPLAY
    ensures ExactInv(s, Turn(c, s.stored, TipOf(s.stored), s.log).0, first)
  {
    LagIsCoveredIff(s, c);
    var end := ReplayEnd(c, TipOf(s.stored));
    EventsAreAll(s.stored, c.lastNum + 1, end);
    assert c.delivered + c.pending == c.delivered;
    assert Span(first, c.lastNum) + Span(c.lastNum + 1, end) == Span(first, end);
  }

  lemma MessageIsExact(s: System, c: Client, first: int)
    requires FeedInv(s) && ExactInv(s, c, first) && c.sentInitial && c.pending == []
    requires !Lagged(c, s.log) && c.pos < |s.log|
    ensures ExactInv(s, Turn(c, s.stored, TipOf(s.stored), s.log).0, first)
  {
    var c' := Turn(c, s.stored, TipOf(s.stored), s.log).0;
    assert Stream(s)[c.pos] == s.log[c.pos];
    assert c.delivered + c.pending == c.delivered && c'.delivered + c'.pending == c'.delivered;
    if s.log[c.pos].Block? {
      var n := s.log[c.pos].number;
      assert Before(Stream(s), c.pos + 1, s.sent) == n;
      if n > c.lastNum {
        BeforeIsMonotone(Stream(s), c.pos + 1, c.pos + 1, s.sent);
        assert Span(first, n) == Span(first, c.lastNum) + [n];
      }
    }
  }

  lemma TurnKeepsExact(s: System, c: Client, first: int)
    requires FeedInv(s) && ExactInv(s, c, first) && c.sentInitial && Ready(c, s.log)
    requires c.pending == [] && Lagged(c, s.log) ==>
      Before(Stream(s), |s.log| - CHANNEL, s.sent) - c.lastNum <= SSE_MAX_REPLAY
    ensures ExactInv(s, Turn(c, s.stored, TipOf(s.stored), s.log).0, first)
  {
    if c.pending != [] {
      var c' := Turn(c, s.stored, TipOf(s.stored), s.log).0;
      assert c'.delivered + c'.pending == c.delivered + c.pending;
    } else if Lagged(c, s.log) {
      ReplayIsExact(s, c, first);
    } else {
      MessageIsExact(s, c, first);
    }
  }

  // ------------------------------------------------------------ whole runs

  /** A run starts with a gapless database and a feed that has read its tip. */
  ghost predicate Behaviour(acts: seq<Action>, ss: seq<System>) {
    && |ss| == |acts| + 1
    && Gapless(ss[0].stored) && ss[0] == System(ss[0].stored, [], TipOf(ss[0].stored), [], None)
    && (forall i :: 0 <= i < |acts| ==> Acts(ss[i], acts[i], ss[i + 1]))
  }

  ghost predicate RunInv(s: System) {
    FeedInv(s) && (s.client.Some? ==> OrderInv(s.client.value) && s.client.value.pos <= |s.log|)
  }

  lemma ActKeepsRun(s: System, act: Action, s': System)
    requires RunInv(s) && Acts(s, act, s')
    ensures RunInv(s')
  {
    ActKeepsFeed(s, act, s');
    if act.ClientStep? { TurnKeepsOrder(s.client.value, s.stored, TipOf(s.stored), s.log); }
  }

  lemma {:induction false} BehaviourKeepsRun(acts: seq<Action>, ss: seq<System>, n: nat)
    requires Behaviour(acts, ss) && n <= |acts|
    ensures RunInv(ss[n])
  {
    if n > 0 {
      BehaviourKeepsRun(acts, ss, n - 1);
      ActKeepsRun(ss[n - 1], acts[n - 1], ss[n]);
    }
  }

  /** In every run, whatever was lost, a client sees block numbers strictly increasing. */
  lemma DeliveredInOrder(acts: seq<Action>, ss: seq<System>, n: nat)
    requires Behaviour(acts, ss) && n <= |acts| && ss[n].client.Some?
    ensures StrictlyAscending(ss[n].client.value.delivered)
  {
    BehaviourKeepsRun(acts, ss, n);
    var c := ss[n].client.value;
    assert forall i :: 0 <= i < |c.delivered| ==> c.delivered[i] == (c.delivered + c.pending)[i];
  }

  /** From the moment of connecting until `n`, no lag outran a replay. */
  ghost predicate AllLagsFit(ss: seq<System>, from: nat, n: nat) {
    n < |ss| && forall i :: from <= i < n ==> LagFits(ss[i])
  }

  lemma StepKeepsExact(s: System, act: Action, s': System, first: int)
    requires RunInv(s) && Acts(s, act, s') && LagFits(s)
    requires s.client.Some? && s.client.value.sentInitial && ExactInv(s, s.client.value, first)
    ensures s'.client.Some? && s'.client.value.sentInitial && ExactInv(s', s'.client.value, first)
  {
    var c := s.client.value;
    match act
    case Write(_) =>
    case Poll => PollKeepsFeed(s, s');
    case Publish => PublishKeepsStream(s, s');
    case PublishStats => StatsKeepFeed(s, s');
    case Subscribe =>
    case ClientStep => TurnKeepsExact(s, c, first);
  }

  /** The client has nothing left to read, and the feed nothing left to publish. */
  ghost predicate Drained(s: System) {
    s.client.Some? && s.client.value.pos == |s.log| && s.client.value.pending == [] && s.due == []
  }

  /** Exactly once and in order: a client that found a tip at connect has been sent precisely
      the heights from that tip on, in sequence, replays included, as long as no lag dropped
      more than a replay holds; and once nothing is left to read, up to all the feed has read.
      `at` is the state in which it connected. */
  lemma {:induction false} DeliveredExactly(acts: seq<Action>, ss: seq<System>, at: nat, n: nat)
    requires Behaviour(acts, ss) && at < n <= |acts| && AllLagsFit(ss, at + 1, n)
    requires acts[at] == ClientStep && ss[at].client.Some? && !ss[at].client.value.sentInitial && ss[at].stored != {}
    ensures ss[n].client.Some? && ss[n].client.value.sentInitial
    ensures ExactInv(ss[n], ss[n].client.value, TipOf(ss[at].stored))
    ensures ss[n].client.value.delivered ==
      Span(TipOf(ss[at].stored), TipOf(ss[at].stored) + |ss[n].client.value.delivered| - 1)
    ensures Drained(ss[n]) ==> TipOf(ss[at].stored) + |ss[n].client.value.delivered| - 1 >= ss[n].sent
    decreases n
  {
    BehaviourKeepsRun(acts, ss, n - 1);
    if n == at + 1 {
      ConnectIsExact(ss[at], ss[at].client.value);
    } else {
      DeliveredExactly(acts, ss, at, n - 1);
      StepKeepsExact(ss[n - 1], acts[n - 1], ss[n], TipOf(ss[at].stored));
    }
    FrontOfSpan(ss[n].client.value.delivered, ss[n].client.value.pending, TipOf(ss[at].stored),
      ss[n].client.value.lastNum);
  }

  lemma FrontOfSpan(x: seq<int>, y: seq<int>, first: int, last: int)
    requires x + y == Span(first, last)
    ensures x == Span(first, first + |x| - 1)
  {
    assert forall i :: 0 <= i < |x| ==> x[i] == (x + y)[i];
  }

  // --------------------------------------------- from the first block on

  /** Whatever is published is stored. */
  ghost predicate PublishedAreStored(s: System) {
    forall i :: 0 <= i < |Stream(s)| && Stream(s)[i].Block? ==> Stream(s)[i].number >= 0 && Stream(s)[i].number in s.stored
  }

  lemma {:induction false} EventsAreThere(stored: set<nat>, first: int, last: int, x: int)
    ensures x in EventsIn(stored, first, last) <==> first <= x <= last && x >= 0 && x in stored
    decreases if first <= last then last - first + 1 else 0
  {
    if first <= last { EventsAreThere(stored, first, last - 1, x); }
  }

  lemma PollPublishesStored(s: System, s': System)
    requires PublishedAreStored(s) && Acts(s, Poll, s')
    ensures PublishedAreStored(s')
  {
    assert Stream(s) == s.log && Stream(s') == s.log + Blocks(s'.due);
    forall i | 0 <= i < |s'.due| ensures s'.due[i] >= 0 && s'.due[i] in s'.stored {
      assert s'.due[i] in s'.due;
      EventsAreThere(s.stored, s.sent + 1, TipOf(s.stored), s'.due[i]);
    }
  }

  lemma ActKeepsPublished(s: System, act: Action, s': System)
    requires PublishedAreStored(s) && Acts(s, act, s')
    ensures PublishedAreStored(s')
  {
    if act.Poll? {
      PollPublishesStored(s, s');
    } else if act.PublishStats? {
      assert Stream(s) == s.log && Stream(s') == s.log + [Stats];
    } else {
      assert Stream(s') == Stream(s);
    }
  }

  /** Once a client has been sent anything, or is about to be, nothing is missing from there on. */
  ghost predicate OnwardInv(s: System, c: Client) {
    && (c.delivered + c.pending != [] ==> c.sentInitial && ExactInv(s, c, (c.delivered + c.pending)[0]))
    && c.lastNum >= -1
  }

  /** A part of a gapless database that ends at or below the tip is one stretch. */
  lemma EventsAreAStretch(stored: set<nat>, first: int, last: int)
    requires Gapless(stored) && last <= TipOf(stored) && EventsIn(stored, first, last) != []
    ensures
      var low := EventsIn(stored, first, last)[0];
      0 <= low <= last && low in stored && last in stored && EventsIn(stored, first, last) == Span(low, last)
  {
    var events := EventsIn(stored, first, last);
    var low := events[0];
    assert low in events;
    EventsAreThere(stored, first, last, low);
    EventsAreStored(stored, first, last);
    assert TipOf(stored) in stored;
    forall x: nat | first <= x < low ensures x !in stored {
      EventsAreThere(stored, first, last, x);
    }
    EventsSkipMissing(stored, first, low, last);
    EventsAreAll(stored, low, last);
  }

  lemma FirstReplay(s: System, c: Client)
    requires FeedInv(s) && OnwardInv(s, c) && c.sentInitial && c.delivered == [] && c.pending == [] && Lagged(c, s.log)
    requires Before(Stream(s), |s.log| - CHANNEL, s.sent) - c.lastNum <= SSE_MAX_REPLAY
    ensures OnwardInv(s, Turn(c, s.stored, TipOf(s.stored), s.log).0)
  {
    var c' := Turn(c, s.stored, TipOf(s.stored), s.log).0;
    assert c'.delivered + c'.pending == c'.pending;
    if c'.pending != [] {
      EventsAreAStretch(s.stored, c.lastNum + 1, ReplayEnd(c, TipOf(s.stored)));
      BeforeIsMonotone(Stream(s), |s.log| - CHANNEL, |s.log| - CHANNEL, s.sent);
    }
  }

  lemma FirstBlockIsExact(s: System, c: Client, n: int)
    requires FeedInv(s) && PublishedAreStored(s) && c.sentInitial && 0 < c.pos <= |s.log|
    requires s.log[c.pos - 1] == Block(n) && c.delivered == [n] && c.pending == [] && c.lastNum == n
    ensures ExactInv(s, c, n)
  {
    assert Stream(s)[c.pos - 1] == Block(n);
    assert c.delivered + c.pending == [n] == Span(n, n);
  }

  lemma FirstMessage(s: System, c: Client)
    requires FeedInv(s) && PublishedAreStored(s) && OnwardInv(s, c)
    requires c.sentInitial && c.delivered == [] && c.pending == [] && !Lagged(c, s.log) && c.pos < |s.log|
    ensures OnwardInv(s, Turn(c, s.stored, TipOf(s.stored), s.log).0)
  {
    var c' := Turn(c, s.stored, TipOf(s.stored), s.log).0;
    assert c'.delivered + c'.pending == c'.delivered;
    if c'.delivered != [] {
      assert [] + [c'.lastNum] == [c'.lastNum];
      FirstBlockIsExact(s, c', c'.lastNum);
    }
  }

  lemma TurnKeepsOnward(s: System, c: Client)
    requires FeedInv(s) && PublishedAreStored(s) && OrderInv(c) && OnwardInv(s, c) && Ready(c, s.log) &&
      c.pos <= |s.log|
    requires c.sentInitial && c.pending == [] && Lagged(c, s.log) ==>
      Before(Stream(s), |s.log| - CHANNEL, s.sent) - c.lastNum <= SSE_MAX_REPLAY
    ensures OnwardInv(s, Turn(c, s.stored, TipOf(s.stored), s.log).0)
  {
    var c' := Turn(c, s.stored, TipOf(s.stored), s.log).0;
    if !c.sentInitial {
      if s.stored != {} { ConnectIsExact(s, c); }
    } else if c.delivered + c.pending != [] {
      var first := (c.delivered + c.pending)[0];
      TurnKeepsExact(s, c, first);
    } else if Lagged(c, s.log) {
      FirstReplay(s, c);
    } else {
      FirstMessage(s, c);
    }
  }

  lemma StepKeepsOnward(s: System, act: Action, s': System)
    requires RunInv(s) && PublishedAreStored(s) && Acts(s, act, s') && LagFits(s)
    requires s.client.Some? && OnwardInv(s, s.client.value)
    ensures s'.client.Some? && OnwardInv(s', s'.client.value)
  {
    var c := s.client.value;
    if act.ClientStep? {
      TurnKeepsOnward(s, c);
    } else if c.delivered + c.pending != [] {
      StepKeepsExact(s, act, s', (c.delivered + c.pending)[0]);
    }
  }

  lemma {:induction false} BehaviourKeepsPublished(acts: seq<Action>, ss: seq<System>, n: nat)
    requires Behaviour(acts, ss) && n <= |acts|
    ensures PublishedAreStored(ss[n])
  {
    if n > 0 {
      BehaviourKeepsPublished(acts, ss, n - 1);
      ActKeepsPublished(ss[n - 1], acts[n - 1], ss[n]);
    }
  }

  lemma {:induction false} BehaviourKeepsOnward(acts: seq<Action>, ss: seq<System>, at: nat, n: nat)
    requires Behaviour(acts, ss) && at < n <= |acts| && acts[at] == Subscribe && AllLagsFit(ss, at + 1, n)
    ensures ss[n].client.Some? && OnwardInv(ss[n], ss[n].client.value)
    decreases n
  {
    if n > at + 1 {
      BehaviourKeepsRun(acts, ss, n - 1);
      BehaviourKeepsPublished(acts, ss, n - 1);
      BehaviourKeepsOnward(acts, ss, at, n - 1);
      StepKeepsOnward(ss[n - 1], acts[n - 1], ss[n]);
    }
  }

  /** Whatever a client found when it connected, an empty database included: from the first block
      it is sent it is sent every height in sequence, as long as no lag dropped more than a replay
      holds; and once nothing is left to read, up to all the feed has read. It subscribed in step
      `at`. */
  lemma DeliveredOnward(acts: seq<Action>, ss: seq<System>, at: nat, n: nat)
    requires Behaviour(acts, ss) && at < n <= |acts| && acts[at] == Subscribe && AllLagsFit(ss, at + 1, n)
    ensures ss[n].client.Some?
    ensures
      var sent := ss[n].client.value.delivered;
      sent != [] ==>
        && sent[0] >= 0 && sent == Span(sent[0], sent[0] + |sent| - 1)
        && (Drained(ss[n]) ==> sent[0] + |sent| - 1 >= ss[n].sent)
  {
    BehaviourKeepsOnward(acts, ss, at, n);
    var c := ss[n].client.value;
    if c.delivered != [] {
      var first := (c.delivered + c.pending)[0];
      assert first == c.delivered[0];
      FrontOfSpan(c.delivered, c.pending, first, c.lastNum);
    }
  }

  // ------------------------------------------------- a lag that is not covered

  ghost predicate Reachable(s: System) {
    exists acts, ss :: Behaviour(acts, ss) && ss[|acts|] == s
  }

  lemma Then(s: System, act: Action, s': System)
    requires Reachable(s) && Acts(s, act, s')
    ensures Reachable(s')
  {
    var acts, ss :| Behaviour(acts, ss) && ss[|acts|] == s;
    assert Behaviour(acts + [act], ss + [s']);
  }

  /** What has been read is published, one block at a time. */
  lemma {:induction false} ThenPublishAll(s: System)
    requires Reachable(s)
    ensures Reachable(s.(log := s.log + Blocks(s.due), due := []))
    decreases |s.due|
  {
    if s.due == [] {
      assert s.log + Blocks([]) == s.log;
    } else {
      var s1 := s.(log := s.log + [Block(s.due[0])], due := s.due[1..]);
      Then(s, Publish, s1);
      ThenPublishAll(s1);
      assert s.log + Blocks(s.due) == s1.log + Blocks(s1.due);
    }
  }

  function UpTo(n: nat): (s: set<nat>)
    ensures forall x: nat :: x in s <==> x <= n
  {
    if n == 0 then {0} else UpTo(n - 1) + {n}
  }

  /** A viewer connects at block 0, and `n` more blocks are published before its next turn. */
  lemma BurstAfterConnect(n: nat)
    requires n >= 1
    ensures Reachable(System(UpTo(n), Blocks(Span(1, n)), n, [], Some(Client(0, [], 0, true, [0]))))
  {
    var s0 := System({0}, [], 0, [], None);
    assert TipOf({0}) == 0;
    assert Behaviour([], [s0]);
    var s1 := s0.(client := Some(Client(0, [], -1, false, [])));
    Then(s0, Subscribe, s1);
    var s2 := s1.(client := Some(Client(0, [], 0, true, [0])));
    assert [] + [0] == [0];
    Then(s1, ClientStep, s2);
    var all := UpTo(n);
    var s3 := s2.(stored := all);
    assert {0} + all == all;
    Then(s2, Write(all), s3);
    assert TipOf(all) == n by { assert n in all; }
    EventsAreAll(all, 1, n);
    var s4 := s3.(due := Span(1, n), sent := n);
    Then(s3, Poll, s4);
    ThenPublishAll(s4);
    assert [] + Blocks(Span(1, n)) == Blocks(Span(1, n));
  }

  /** The failing side of `LagIsCoveredIff`, in a reachable state: 4098 blocks were dropped unread.
      The replay ends at 4096, the next block off the channel is 4099, and 4097 and 4098 are
      never shown. */
  lemma LagLosesBlocks() returns (s: System, c: Client)
    ensures Reachable(s) && s.client == Some(c) && !LagFits(s)
    ensures
      var c' := Turn(c, s.stored, TipOf(s.stored), s.log).0;
      && c'.pending == Span(1, 4096) && c'.lastNum == 4096 && !NoGap(c', Stream(s), s.sent)
      && !Lagged(c', s.log) && c'.pos < |s.log| && s.log[c'.pos] == Block(4099)
  {
    var n := CHANNEL + 4098;
    BurstAfterConnect(n);
    c := Client(0, [], 0, true, [0]);
    s := System(UpTo(n), Blocks(Span(1, n)), n, [], Some(c));
    assert TipOf(s.stored) == n by { assert n in s.stored; }
    EventsAreAll(s.stored, 1, 4096);
    assert Stream(s) == s.log;
    assert s.log[4098] == Block(4099);
  }

  // -------------------------------------------------- the subscriber object

  /** `cs` are the clients that turns take one through, all of them quiet but perhaps the last, which
      hands over `e`; the channel has run dry if none does. */
  ghost predicate Turns(cs: seq<Client>, stored: set<nat>, tip: int, log: seq<Message>, e: Event) {
    && cs != []
    && (forall i :: 0 <= i < |cs| - 1 ==> Ready(cs[i], log) && cs[i + 1] == Turn(cs[i], stored, tip, log).0)
    && (forall i :: 0 <= i < |cs| - 2 ==> Turn(cs[i], stored, tip, log).1 == Quiet)
    && (if e == Quiet then !Ready(cs[|cs| - 1], log) && (|cs| > 1 ==> Turn(cs[|cs| - 2], stored, tip, log).1 == Quiet)
        else |cs| > 1 && Turn(cs[|cs| - 2], stored, tip, log).1 == e)
  }

  /** Turns until one hands the viewer something or the channel runs dry. */
  function UntilEvent(c: Client, stored: set<nat>, tip: int, log: seq<Message>): (Client, Event)
    decreases if c.pos < |log| then |log| - c.pos else 0, |c.pending|
  {
    if c.sentInitial && c.pending == [] && c.pos >= |log| then (c, Quiet)
    else
      var (c', e) := Turn(c, stored, tip, log);
      if e != Quiet then (c', e) else UntilEvent(c', stored, tip, log)
  }

  lemma {:induction false} UntilEventIsTurns(c: Client, stored: set<nat>, tip: int, log: seq<Message>)
    returns (cs: seq<Client>)
    ensures
      var (last, e) := UntilEvent(c, stored, tip, log);
      Turns(cs, stored, tip, log, e) && cs[0] == c && cs[|cs| - 1] == last
    decreases if c.pos < |log| then |log| - c.pos else 0, |c.pending|
  {
    if !Ready(c, log) {
      cs := [c];
    } else {
      var (c', e) := Turn(c, stored, tip, log);
      if e != Quiet {
        cs := [c, c'];
      } else {
        var rest := UntilEventIsTurns(c', stored, tip, log);
        cs := [c] + rest;
      }
    }
  }

  /** Such turns are client steps of the feed, one after another. */
  lemma TurnsAreClientSteps(s: System, cs: seq<Client>, e: Event, i: nat)
    requires Turns(cs, s.stored, TipOf(s.stored), s.log, e) && i < |cs| - 1
    ensures Acts(s.(client := Some(cs[i])), ClientStep, s.(client := Some(cs[i + 1])))
  {
  }

  /** Together they deliver what the event hands over. */
  lemma {:induction false} TurnsDeliver(cs: seq<Client>, stored: set<nat>, tip: int, log: seq<Message>, e: Event)
    requires Turns(cs, stored, tip, log, e)
    ensures cs[|cs| - 1].delivered == cs[0].delivered + Handed(e)
    ensures e == NullTip <==> !cs[0].sentInitial && tip < 0
    ensures e == StatsEvent <==> |cs| > 1 && MessageRead(cs[|cs| - 2], log) == Some(Stats)
  {
    if |cs| > 1 {
      TurnHandsOver(cs[0], stored, tip, log);
      if |cs| > 2 {
        var rest := cs[1..];
        TurnsDeliver(rest, stored, tip, log, e);
        assert cs[0].delivered + [] == cs[0].delivered;
      }
    }
  }

  /** The state one subscriber keeps between calls. */
  class SseState {
    var pos: nat
    var pending: seq<int>
    var lastNum: int
    var sentInitial: bool
    ghost var delivered: seq<int>

    ghost function Value(): Client
      reads this
    {
      Client(pos, pending, lastNum, sentInitial, delivered)
    }

    constructor (log: seq<Message>)
      ensures Value() == Client(|log|, [], -1, false, [])
    {
      pos, pending, lastNum, sentInitial, delivered := |log|, [], -1, false, [];
    }

    /** One call of `sse_step`, against a snapshot of the database and the channel. */
    method SseStep(stored: set<nat>, tip: int, log: seq<Message>) returns (e: Event)
      modifies this
      ensures (Value(), e) == UntilEvent(old(Value()), stored, tip, log)
      ensures exists cs :: Turns(cs, stored, tip, log, e) && cs[0] == old(Value()) && cs[|cs| - 1] == Value()
      ensures delivered == old(delivered) + if e.Tip? then [e.number] else []
      ensures e == NullTip <==> !old(sentInitial) && tip < 0
      ensures e == StatsEvent ==> 0 < pos <= |log| && log[pos - 1] == Stats
    {
      ghost var cs := UntilEventIsTurns(Value(), stored, tip, log);
      TurnsDeliver(cs, stored, tip, log, UntilEvent(Value(), stored, tip, log).1);
      e := StepUntilEvent(stored, tip, log);
    }

    method StepUntilEvent(stored: set<nat>, tip: int, log: seq<Message>) returns (e: Event)
      modifies this
      ensures (Value(), e) == UntilEvent(old(Value()), stored, tip, log)
    {
      if !sentInitial {
        sentInitial := true;
        if tip >= 0 {
          lastNum := tip;
          delivered := delivered + [tip];
          return Tip(tip);
        }
        return NullTip;
      }
      if pending != [] {
        e := PopPending();
        return;
      }
      while pos < |log|
        invariant sentInitial && pending == []
        invariant UntilEvent(Value(), stored, tip, log) == UntilEvent(old(Value()), stored, tip, log)
        decreases |log| - pos
      {
        ghost var turn := Turn(Value(), stored, tip, log);
        if |log| - pos > CHANNEL {
          var start := lastNum + 1;
          var end := if tip <= start + SSE_MAX_REPLAY - 1 then tip else start + SSE_MAX_REPLAY - 1;
          pos := |log| - CHANNEL;
          pending := EventsIn(stored, start, end);
          lastNum := if end > lastNum then end else lastNum;
          assert (Value(), Quiet) == turn;
          if pending != [] {
            e := PopPending();
            return;
          }
        } else {
          var message := log[pos];
          pos := pos + 1;
          if message.Stats? {
            return StatsEvent;
          }
          if message.number > lastNum {
            lastNum := message.number;
            delivered := delivered + [message.number];
            return Tip(message.number);
          }
        }
      }
      e := Quiet;
    }

    method PopPending() returns (e: Event)
      requires pending != []
      modifies this`pending, this`delivered
      ensures pending == old(pending)[1..] && delivered == old(delivered) + [old(pending)[0]] &&
        e == Tip(old(pending)[0])
    {
      e := Tip(pending[0]);
      delivered := delivered + [pending[0]];
      pending := pending[1..];
    }
  }
}
