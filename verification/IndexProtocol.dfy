/** The indexing protocol of `src/indexer.rs`: a forward loop and a backfill loop feeding one
    writer through a FIFO channel, with lossy fetches, failed writes and restarts. */
module IndexProtocol {
  import opened RangeFetch

  const CHANNEL_CAPACITY: nat := 1024
  const MAX_BATCH: nat := 64

  /** The forward loop. `Idle(0)` has not been seeded yet; `Sending` is handing the rest of a
      window to the channel, after which `sent` becomes `reached`. */
  datatype Forward = Stopped | Idle(sent: nat) | Sending(rest: seq<nat>, reached: nat)

  /** The backfill loop; `frontier` is the lowest height it has handed over, if any. */
  datatype Backfill = Off | Waiting(frontier: Option<nat>) | Feeding(due: seq<nat>, floor: nat)

  datatype State = State(
    stored: set<nat>,   // heights committed
    held: seq<nat>,     // the writer's batch, being written or retried
    queue: seq<nat>,    // the channel
    fwd: Forward,
    back: Backfill)

  datatype Action =
    | ForwardStart
    | ForwardSeed
    | ForwardFetch(head: nat, batch: nat, got: set<nat>)
    | ForwardSend
    | ForwardDone
    | BackStart
    | BackFetch(span: nat, found: set<nat>)
    | BackSeedFetch(tip: nat, span: nat, found: set<nat>)
    | BackReread
    | BackSend
    | BackDone
    | WriterTake(k: nat)
    | Commit
    | WriteFails
    | Crash

  // ------------------------------------------------------------- heights

  ghost predicate Gapless(s: set<nat>) { forall a, b, x :: a in s && b in s && a <= x <= b ==> x in s }

  ghost function Highest(s: set<nat>): (m: nat)
    requires s != {}
    ensures m in s && forall x :: x in s ==> x <= m
  {
    var x :| x in s;
    if s == {x} then x
    else
      assert s == {x} + (s - {x});
      var m := Highest(s - {x});
      if m >= x then m else x
  }

  ghost function Lowest(s: set<nat>): (m: nat)
    requires s != {}
    ensures m in s && forall x :: x in s ==> m <= x
  {
    var x :| x in s;
    if s == {x} then x
    else
      assert s == {x} + (s - {x});
      var m := Lowest(s - {x});
      if m <= x then m else x
  }

  function Reversed(xs: seq<nat>): (r: seq<nat>)
    ensures |r| == |xs| && forall i :: 0 <= i < |xs| ==> r[i] == xs[|xs| - 1 - i]
  {
    seq(|xs|, i requires 0 <= i < |xs| => xs[|xs| - 1 - i])
  }

  function Max(x: nat, y: nat): nat { if x >= y then x else y }

  /** The lowest height a backfill fetch below `target` asks for. */
  function Bottom(target: nat, span: nat): nat { Max(if span <= target then target - span else 0, 1) }

  /** What a backfill fetch below `target` leaves to send, tip first. */
  ghost predicate Fed(s: State, target: nat, span: nat, found: set<nat>, s': State) {
    && (forall x :: x in found ==> Bottom(target, span) <= x < target)
    && (target >= 1 ==>
          var kept := RunDownTo(found, target - 1);
          s' == if kept == [] then s else s.(back := Feeding(Reversed(kept), kept[0])))
    && (target == 0 ==> s' == s)
  }

  ghost predicate Acts(s: State, act: Action, s': State) {
    match act
    case ForwardStart =>
      s.fwd == Stopped && s' == s.(fwd := Idle(if s.stored == {} then 0 else Highest(s.stored)))
    case ForwardSeed =>
      s.fwd == Idle(0) && s' == s.(fwd := Idle(if s.stored == {} then 0 else Highest(s.stored)))
    case ForwardFetch(head, batch, got) =>
      && s.fwd.Idle? && 0 < s.fwd.sent < head
      && (forall x :: x in got ==> s.fwd.sent < x <= Min(s.fwd.sent + batch, head))
      && (var kept := RunFrom(got, s.fwd.sent + 1);
          s' == if kept == [] then s else s.(fwd := Sending(kept, kept[|kept| - 1])))
    case ForwardSend =>
      && s.fwd.Sending? && s.fwd.rest != [] && |s.queue| < CHANNEL_CAPACITY
      && s' == s.(queue := s.queue + [s.fwd.rest[0]], fwd := Sending(s.fwd.rest[1..], s.fwd.reached))
    case ForwardDone => s.fwd.Sending? && s.fwd.rest == [] && s' == s.(fwd := Idle(s.fwd.reached))
    case BackStart =>
      s.back == Off && s' == s.(back := Waiting(if s.stored == {} then None else Some(Lowest(s.stored))))
    case BackFetch(span, found) =>
      s.back.Waiting? && s.back.frontier.Some? && s.back.frontier.value > 1 &&
      Fed(s, s.back.frontier.value, span, found, s')
    case BackSeedFetch(tip, span, found) => s.back == Waiting(None) && Fed(s, tip + 1, span, found, s')
    case BackReread =>
      && s.back.Waiting? && s.back.frontier.Some? && s.back.frontier.value <= 1
      && s' == s.(back := Waiting(if s.stored == {} then None else Some(Lowest(s.stored))))
    case BackSend =>
      && s.back.Feeding? && s.back.due != [] && |s.queue| < CHANNEL_CAPACITY
      && s' == s.(queue := s.queue + [s.back.due[0]], back := Feeding(s.back.due[1..], s.back.floor))
    case BackDone => s.back.Feeding? && s.back.due == [] && s' == s.(back := Waiting(Some(s.back.floor)))
    case WriterTake(k) =>
      && s.held == [] && 1 <= k <= MAX_BATCH && k <= |s.queue|
      && s' == s.(held := s.queue[..k], queue := s.queue[k..])
    case Commit => s.held != [] && s' == s.(stored := s.stored + Elements(s.held), held := [])
    case WriteFails => s.held != [] && s' == s
    case Crash => s' == State(s.stored, [], [], Stopped, Off)
  }

  // ----------------------------------------------------------- invariant

  /** Everything on its way to the database, in the order it will be committed. */
  function Pipe(s: State): seq<nat> { s.held + s.queue }

  /** Whatever prefix of the pipe is committed, the database has no hole. */
  ghost predicate PrefixesGapless(stored: set<nat>, pipe: seq<nat>) {
    forall k :: 0 <= k <= |pipe| ==> Gapless(stored + Elements(pipe[..k]))
  }

  /** Stored or in the pipe are exactly the heights `lo..=hi`; none when `lo` is past `hi`. */
  ghost predicate Spans(s: State, lo: nat, hi: nat) {
    forall x :: x in s.stored + Elements(Pipe(s)) <==> lo <= x <= hi
  }

  /** Until the forward loop is seeded, the top of the span is committed first. */
  ghost predicate TopFirst(s: State, lo: nat, hi: nat) {
    lo <= hi ==> hi in s.stored || (s.stored == {} && Pipe(s) != [] && Pipe(s)[0] == hi)
  }

  ghost predicate ForwardInv(s: State, lo: nat, hi: nat) {
    match s.fwd
    case Stopped => TopFirst(s, lo, hi)
    case Idle(sent) => if sent == 0 then TopFirst(s, lo, hi) else s.stored != {} && sent == hi
    case Sending(rest, reached) =>
      s.stored != {} && reached == hi + |rest| && forall i :: 0 <= i < |rest| ==> rest[i] == hi + 1 + i
  }

  ghost predicate BackInv(s: State, lo: nat, hi: nat) {
    match s.back
    case Off => s.stored == {} ==> Pipe(s) == []
    case Waiting(None) => lo > hi
    case Waiting(Some(f)) => lo <= f <= hi
    case Feeding(due, floor) =>
      && floor >= 1
      && (forall i :: 0 <= i < |due| ==> due[i] == floor + |due| - 1 - i)
      && (if lo > hi then due != [] else lo <= floor + |due| <= hi + 1 && (due == [] ==> floor <= hi))
  }

  ghost predicate Inv(s: State, lo: nat, hi: nat) {
    && lo >= 1
    && Spans(s, lo, hi)
    && PrefixesGapless(s.stored, Pipe(s))
    && ForwardInv(s, lo, hi)
    && BackInv(s, lo, hi)
  }

  /** A fresh start over an empty or gapless database. */
  ghost predicate Initial(s: State) {
    s == State(s.stored, [], [], Stopped, Off) && Gapless(s.stored) && 0 !in s.stored
  }

  /** Re-reading the frontier finds at least one stored block. */
  ghost predicate Guarded(s: State, act: Action) { act.BackReread? ==> s.stored != {} }

  // ------------------------------------------------------------- lemmas

  lemma FreshStart(stored: set<nat>) returns (lo: nat, hi: nat)
    requires Gapless(stored) && 0 !in stored
    ensures Inv(State(stored, [], [], Stopped, Off), lo, hi)
  {
    var s := State(stored, [], [], Stopped, Off);
    assert Pipe(s) == [] && Elements([]) == {};
    if stored == {} {
      lo, hi := 1, 0;
    } else {
      lo, hi := Lowest(stored), Highest(stored);
    }
    assert forall k :: 0 <= k <= |Pipe(s)| ==> stored + Elements(Pipe(s)[..k]) == stored;
  }

  /** Adding `x` to the span `lo..=hi` gives the span `lo'..=hi'`. */
  ghost predicate Extended(lo: nat, hi: nat, x: nat, lo': nat, hi': nat) {
    if lo > hi then lo' == hi' == x
    else if x == hi + 1 then lo' == lo && hi' == x
    else if x + 1 == lo then lo' == x && hi' == hi
    else lo <= x <= hi && lo' == lo && hi' == hi
  }

  /** One more height at either end of the span, or inside it, leaves every prefix gapless. */
  lemma SendKeepsPrefixes(s: State, lo: nat, hi: nat, x: nat, lo': nat, hi': nat)
    requires PrefixesGapless(s.stored, Pipe(s)) && Spans(s, lo, hi)
    requires Extended(lo, hi, x, lo', hi')
    ensures
      var s' := s.(queue := s.queue + [x]);
      PrefixesGapless(s'.stored, Pipe(s')) && Spans(s', lo', hi')
  {
    var s' := s.(queue := s.queue + [x]);
    var pipe := Pipe(s);
    assert Pipe(s') == pipe + [x];
    assert Elements(pipe + [x]) == Elements(pipe) + {x};
    forall y ensures y in s.stored + Elements(pipe + [x]) <==> lo' <= y <= hi' {
      assert y in s.stored + Elements(pipe) <==> lo <= y <= hi;
    }
    forall k | 0 <= k <= |pipe| + 1 ensures Gapless(s.stored + Elements((pipe + [x])[..k])) {
      if k <= |pipe| {
        assert (pipe + [x])[..k] == pipe[..k];
      } else {
        assert (pipe + [x])[..k] == pipe + [x];
      }
    }
  }

  lemma CommitKeepsPrefixes(stored: set<nat>, held: seq<nat>, queue: seq<nat>)
    requires PrefixesGapless(stored, held + queue)
    ensures PrefixesGapless(stored + Elements(held), queue)
    ensures stored + Elements(held) + Elements(queue) == stored + Elements(held + queue)
  {
    forall k | 0 <= k <= |queue| ensures Gapless(stored + Elements(held) + Elements(queue[..k])) {
      var n := |held| + k;
      assert (held + queue)[..n] == held + queue[..k];
      assert stored + Elements((held + queue)[..n]) == stored + Elements(held) + Elements(queue[..k]);
    }
  }

  lemma ForwardSendKeeps(s: State, s': State, lo: nat, hi: nat)
    requires Inv(s, lo, hi) && Acts(s, ForwardSend, s')
    ensures Inv(s', lo, hi + 1)
  {
    assert lo <= hi by { assert Highest(s.stored) in s.stored + Elements(Pipe(s)); }
    SendKeepsPrefixes(s, lo, hi, hi + 1, lo, hi + 1);
    if s.back.Off? { assert s'.stored != {}; }
  }

  lemma BackSendKeeps(s: State, s': State, lo: nat, hi: nat) returns (lo': nat, hi': nat)
    requires Inv(s, lo, hi) && Acts(s, BackSend, s')
    ensures Inv(s', lo', hi')
  {
    var x := s.back.due[0];
    if lo > hi {
      lo', hi' := x, x;
      assert s.stored == {} && Pipe(s) == [] by { NothingSpanned(s, lo, hi); }
    } else {
      lo', hi' := if x < lo then x else lo, hi;
    }
    SendKeepsPrefixes(s, lo, hi, x, lo', hi');
    assert s.held == [] ==> Pipe(s') == s.queue + [x];
    assert Pipe(s') == Pipe(s) + [x];
  }

  lemma NothingSpanned(s: State, lo: nat, hi: nat)
    requires Spans(s, lo, hi) && lo > hi
    ensures s.stored == {} && Pipe(s) == []
  {
    assert s.stored + Elements(Pipe(s)) == {};
    assert s.stored <= s.stored + Elements(Pipe(s));
    assert Elements(Pipe(s)) == {};
    NoElements(Pipe(s));
  }

  lemma NoElements(xs: seq<nat>)
    ensures Elements(xs) == {} ==> xs == []
  {
    if xs != [] { assert xs[0] in Elements(xs); }
  }

  lemma TakeKeeps(s: State, k: nat, s': State, lo: nat, hi: nat)
    requires Inv(s, lo, hi) && Acts(s, WriterTake(k), s')
    ensures Inv(s', lo, hi)
  {
    assert Pipe(s') == Pipe(s);
  }

  lemma CommitKeeps(s: State, s': State, lo: nat, hi: nat)
    requires Inv(s, lo, hi) && Acts(s, Commit, s')
    ensures Inv(s', lo, hi)
  {
    CommitKeepsPrefixes(s.stored, s.held, s.queue);
    assert Pipe(s') == s.queue;
    assert s.held[0] in Elements(s.held);
    assert Pipe(s)[0] == s.held[0];
  }

  lemma CrashKeeps(s: State, lo: nat, hi: nat) returns (lo': nat, hi': nat)
    requires Inv(s, lo, hi)
    ensures Inv(State(s.stored, [], [], Stopped, Off), lo', hi')
  {
    StoredIsGapless(s, lo, hi);
    assert 0 !in s.stored + Elements(Pipe(s));
    lo', hi' := FreshStart(s.stored);
  }

  lemma StoredIsGapless(s: State, lo: nat, hi: nat)
    requires Inv(s, lo, hi)
    ensures Gapless(s.stored)
  {
    assert s.stored + Elements(Pipe(s)[..0]) == s.stored;
  }

  /** Seeding reads the top of the span: nothing above it is under way. */
  lemma {:induction false} SeedKeeps(s: State, s': State, lo: nat, hi: nat)
    requires Inv(s, lo, hi) && (Acts(s, ForwardStart, s') || Acts(s, ForwardSeed, s'))
    ensures Inv(s', lo, hi)
  {
    if s.stored != {} {
      var top := Highest(s.stored);
      assert top in s.stored + Elements(Pipe(s));
      assert hi in s.stored;
    }
  }

  lemma FeedKeeps(s: State, target: nat, span: nat, found: set<nat>, s': State, lo: nat, hi: nat)
    requires Inv(s, lo, hi) && Fed(s, target, span, found, s') && s.back.Waiting?
    requires lo > hi || lo <= target <= hi
    ensures Inv(s', lo, hi)
  {
  }

  lemma FrontierKeeps(s: State, act: Action, s': State, lo: nat, hi: nat)
    requires act == BackStart || act == BackReread
    requires Inv(s, lo, hi) && Acts(s, act, s') && Guarded(s, act)
    ensures Inv(s', lo, hi)
  {
    if s.stored != {} {
      assert Lowest(s.stored) in s.stored + Elements(Pipe(s));
    } else {
      assert Pipe(s) == [] ==> lo !in s.stored + Elements(Pipe(s));
    }
  }

  predicate OfForwardLoop(act: Action) {
    act.ForwardStart? || act.ForwardSeed? || act.ForwardFetch? || act.ForwardSend? || act.ForwardDone?
  }

  predicate OfBackfillLoop(act: Action) {
    act.BackStart? || act.BackFetch? || act.BackSeedFetch? || act.BackReread? || act.BackSend? || act.BackDone?
  }

  lemma ForwardKeepsInv(s: State, act: Action, s': State, lo: nat, hi: nat) returns (hi': nat)
    requires OfForwardLoop(act) && Inv(s, lo, hi) && Acts(s, act, s')
    ensures Inv(s', lo, hi')
  {
    hi' := hi;
    if act.ForwardSend? {
      ForwardSendKeeps(s, s', lo, hi);
      hi' := hi + 1;
    } else if act.ForwardStart? || act.ForwardSeed? {
      SeedKeeps(s, s', lo, hi);
    }
  }

  lemma BackfillKeepsInv(s: State, act: Action, s': State, lo: nat, hi: nat) returns (lo': nat, hi': nat)
    requires OfBackfillLoop(act) && Inv(s, lo, hi) && Acts(s, act, s') && Guarded(s, act)
    ensures Inv(s', lo', hi')
  {
    lo', hi' := lo, hi;
    if act.BackFetch? {
      FeedKeeps(s, s.back.frontier.value, act.span, act.found, s', lo, hi);
    } else if act.BackSeedFetch? {
      FeedKeeps(s, act.tip + 1, act.span, act.found, s', lo, hi);
    } else if act.BackSend? {
      lo', hi' := BackSendKeeps(s, s', lo, hi);
    } else if act.BackStart? || act.BackReread? {
      FrontierKeeps(s, act, s', lo, hi);
    }
  }

  /** Every guarded step keeps the invariant, for some span. */
  lemma ActKeepsInv(s: State, act: Action, s': State, lo: nat, hi: nat) returns (lo': nat, hi': nat)
    requires Inv(s, lo, hi) && Acts(s, act, s') && Guarded(s, act)
    ensures Inv(s', lo', hi')
  {
    lo', hi' := lo, hi;
    if OfForwardLoop(act) {
      hi' := ForwardKeepsInv(s, act, s', lo, hi);
    } else if OfBackfillLoop(act) {
      lo', hi' := BackfillKeepsInv(s, act, s', lo, hi);
    } else if act.WriterTake? {
      TakeKeeps(s, act.k, s', lo, hi);
    } else if act.Commit? {
      CommitKeeps(s, s', lo, hi);
    } else if act.Crash? {
      lo', hi' := CrashKeeps(s, lo, hi);
    }
  }

  /** Only a commit changes the database. */
  lemma StoredGrows(s: State, act: Action, s': State)
    requires Acts(s, act, s')
    ensures s'.stored == if act.Commit? then s.stored + Elements(s.held) else s.stored
  {
  }

  /** A run: any interleaving of the loops, the writer, failures and restarts. */
  ghost predicate Behaviour(acts: seq<Action>, ss: seq<State>) {
    && |ss| == |acts| + 1 && Initial(ss[0])
    && (forall i :: 0 <= i < |acts| ==> Acts(ss[i], acts[i], ss[i + 1]))
  }

  ghost predicate AllGuarded(acts: seq<Action>, ss: seq<State>) {
    |acts| <= |ss| && forall i :: 0 <= i < |acts| ==> Guarded(ss[i], acts[i])
  }

  lemma {:induction false} BehaviourKeepsInv(acts: seq<Action>, ss: seq<State>, n: nat) returns (lo: nat, hi: nat)
    requires Behaviour(acts, ss) && AllGuarded(acts, ss) && n <= |acts|
    ensures Inv(ss[n], lo, hi)
  {
    if n == 0 {
      lo, hi := FreshStart(ss[0].stored);
    } else {
      lo, hi := BehaviourKeepsInv(acts, ss, n - 1);
      lo, hi := ActKeepsInv(ss[n - 1], acts[n - 1], ss[n], lo, hi);
    }
  }

  /** The index is gapless at every state of every guarded run, and stays so whatever prefix of
      the pipe is committed next. */
  lemma GaplessForever(acts: seq<Action>, ss: seq<State>, n: nat, k: nat)
    requires Behaviour(acts, ss) && AllGuarded(acts, ss) && n <= |acts| && k <= |Pipe(ss[n])|
    ensures Gapless(ss[n].stored) && Gapless(ss[n].stored + Elements(Pipe(ss[n])[..k]))
  {
    var lo, hi := BehaviourKeepsInv(acts, ss, n);
    StoredIsGapless(ss[n], lo, hi);
  }

  /** How far up the forward loop has handed heights over, and how far it will have. */
  function HandedUpTo(f: Forward): int {
    match f
    case Stopped => 0
    case Idle(sent) => sent
    case Sending(rest, reached) => reached - |rest|
  }

  function FetchedUpTo(f: Forward): int { if f.Sending? then f.reached else HandedUpTo(f) }

  /** How far down the backfill loop has handed heights over, and how far it will have. */
  function HandedDownTo(b: Backfill): Option<nat> {
    match b
    case Off => None
    case Waiting(frontier) => frontier
    case Feeding(due, floor) => Some(floor + |due|)
  }

  function FetchedDownTo(b: Backfill): Option<nat> { if b.Feeding? then Some(b.floor) else HandedDownTo(b) }

  ghost predicate StoredOrPiped(s: State, x: nat) { x in s.stored || x in s.held || x in s.queue }

  ghost predicate BeingHandedOver(s: State, x: nat) {
    (s.fwd.Sending? && x in s.fwd.rest) || (s.back.Feeding? && x in s.back.due)
  }

  /** Nothing is lost at any state, windows half handed over included: a height between what the
      two loops have handed over is stored or in the pipe, and one between what they have
      fetched is so, or still to be handed over. */
  lemma NothingLost(acts: seq<Action>, ss: seq<State>, n: nat, x: nat)
    requires Behaviour(acts, ss) && AllGuarded(acts, ss) && n <= |acts|
    requires HandedDownTo(ss[n].back).Some?
    ensures HandedDownTo(ss[n].back).value <= x <= HandedUpTo(ss[n].fwd) ==> StoredOrPiped(ss[n], x)
    ensures FetchedDownTo(ss[n].back).value <= x <= FetchedUpTo(ss[n].fwd) ==>
      StoredOrPiped(ss[n], x) || BeingHandedOver(ss[n], x)
  {
    var lo, hi := BehaviourKeepsInv(acts, ss, n);
    SpannedOrOnTheWay(ss[n], lo, hi, x);
  }

  lemma SpannedOrOnTheWay(s: State, lo: nat, hi: nat, x: nat)
    requires Inv(s, lo, hi) && HandedDownTo(s.back).Some?
    ensures HandedDownTo(s.back).value <= x <= HandedUpTo(s.fwd) ==> StoredOrPiped(s, x)
    ensures FetchedDownTo(s.back).value <= x <= FetchedUpTo(s.fwd) ==> StoredOrPiped(s, x) || BeingHandedOver(s, x)
  {
    assert lo <= x <= hi ==> x in s.stored + Elements(Pipe(s));
    if s.stored != {} { assert Highest(s.stored) in s.stored + Elements(Pipe(s)); }
    if s.fwd.Sending? && hi < x <= s.fwd.reached { assert s.fwd.rest[x - hi - 1] == x; }
    if s.back.Feeding? && s.back.floor <= x < s.back.floor + |s.back.due| {
      assert s.back.due[s.back.floor + |s.back.due| - 1 - x] == x;
    }
  }

  /** Once backfill has reached the first block and the pipe is empty, history is complete. */
  lemma DrainedIsComplete(acts: seq<Action>, ss: seq<State>, n: nat)
    requires Behaviour(acts, ss) && AllGuarded(acts, ss) && n <= |acts|
    requires ss[n].fwd.Idle? && ss[n].fwd.sent > 0
    requires ss[n].back == Waiting(Some(1)) && ss[n].held == [] && ss[n].queue == []
    ensures forall x :: x in ss[n].stored <==> 1 <= x <= ss[n].fwd.sent
  {
    var lo, hi := BehaviourKeepsInv(acts, ss, n);
    assert Pipe(ss[n]) == [] && ss[n].stored + Elements([]) == ss[n].stored;
  }

  /** The channel never holds more than it has room for. */
  lemma {:induction false} ChannelIsBounded(acts: seq<Action>, ss: seq<State>, n: nat)
    requires Behaviour(acts, ss) && n <= |acts|
    ensures |ss[n].queue| <= CHANNEL_CAPACITY
  {
    if n > 0 { ChannelIsBounded(acts, ss, n - 1); }
  }

  /** `ss` are the states `acts` go through from `s`. */
  ghost predicate Steps(s: State, acts: seq<Action>, ss: seq<State>) {
    |ss| == |acts| + 1 && ss[0] == s && forall i :: 0 <= i < |acts| ==> Acts(ss[i], acts[i], ss[i + 1])
  }

  /** The writer makes room in a full channel without losing a height. */
  lemma WriterMakesRoom(s: State) returns (acts: seq<Action>, ss: seq<State>)
    requires |s.queue| <= CHANNEL_CAPACITY
    ensures Steps(s, acts, ss)
    ensures
      var s' := ss[|acts|];
      && |s'.queue| < CHANNEL_CAPACITY && s'.fwd == s.fwd && s'.back == s.back
      && s'.stored + Elements(Pipe(s')) == s.stored + Elements(Pipe(s))
  {
    if |s.queue| < CHANNEL_CAPACITY {
      acts, ss := [], [s];
    } else if s.held == [] {
      var s1 := s.(held := s.queue[..1], queue := s.queue[1..]);
      acts, ss := [WriterTake(1)], [s, s1];
      assert Pipe(s1) == Pipe(s);
    } else {
      var s1 := s.(stored := s.stored + Elements(s.held), held := []);
      var s2 := s1.(held := s.queue[..1], queue := s.queue[1..]);
      acts, ss := [Commit, WriterTake(1)], [s, s1, s2];
      assert Pipe(s2) == s.queue && Pipe(s) == s.held + s.queue;
    }
  }

  /** The guard is needed: from any state in which the frontier is re-read while nothing is
      stored yet, the loop may re-seed above a block the node then withholds, and committing
      what is in the pipe leaves a hole. */
  lemma UnguardedRereadLeavesHole(s: State, lo: nat, hi: nat) returns (acts: seq<Action>, ss: seq<State>)
    requires Inv(s, lo, hi) && s.stored == {} && |s.queue| <= CHANNEL_CAPACITY
    requires s.back.Waiting? && s.back.frontier.Some? && s.back.frontier.value <= 1
    ensures Steps(s, acts, ss) && acts != [] && acts[0] == BackReread
    ensures !Gapless(ss[|acts|].stored + Elements(Pipe(ss[|acts|])))
  {
    var x := hi + 2;
    var s1 := s.(back := Waiting(None));
    var s2 := s1.(back := Feeding([x], x));
    assert Acts(s, BackReread, s1);
    LoneBlockFeeds(s1, x);
    var mid, states := WriterMakesRoom(s2);
    var s3 := states[|mid|];
    var s4 := s3.(queue := s3.queue + [x], back := Feeding([], x));
    LoneBlockSends(s3, x);
    StepsSnoc(s2, mid, states, BackSend, s4);
    StepsCons(s1, BackSeedFetch(x, 1, {x}), s2, mid + [BackSend], states + [s4]);
    acts, ss := [BackSeedFetch(x, 1, {x})] + (mid + [BackSend]), [s1] + (states + [s4]);
    StepsCons(s, BackReread, s1, acts, ss);
    acts, ss := [BackReread] + acts, [s] + ss;
    assert Pipe(s4) == Pipe(s3) + [x] && Pipe(s2) == Pipe(s);
    SentAboveLeavesHole(s, lo, hi, s3, s4);
  }

  lemma StepsCons(s: State, act: Action, s1: State, acts: seq<Action>, ss: seq<State>)
    requires Acts(s, act, s1) && Steps(s1, acts, ss)
    ensures Steps(s, [act] + acts, [s] + ss)
  {
  }

  lemma StepsSnoc(s: State, acts: seq<Action>, ss: seq<State>, act: Action, s': State)
    requires Steps(s, acts, ss) && Acts(ss[|acts|], act, s')
    ensures Steps(s, acts + [act], ss + [s'])
  {
  }

  lemma SentAboveLeavesHole(s: State, lo: nat, hi: nat, s3: State, s4: State)
    requires Spans(s, lo, hi) && lo <= hi && s3.stored + Elements(Pipe(s3)) == s.stored + Elements(Pipe(s))
    requires s4.stored == s3.stored && Pipe(s4) == Pipe(s3) + [hi + 2]
    ensures !Gapless(s4.stored + Elements(Pipe(s4)))
  {
    var before := s.stored + Elements(Pipe(s));
    assert hi in before && hi + 1 !in before;
    assert s4.stored + Elements(Pipe(s4)) == before + {hi + 2};
    MissingBetween(s4.stored + Elements(Pipe(s4)), hi, hi + 1, hi + 2);
  }

  lemma MissingBetween(s: set<nat>, a: nat, x: nat, b: nat)
    requires a in s && b in s && a <= x <= b && x !in s
    ensures !Gapless(s)
  {
  }

  lemma LoneBlockFeeds(s: State, x: nat)
    requires s.back == Waiting(None) && x >= 1
    ensures Acts(s, BackSeedFetch(x, 1, {x}), s.(back := Feeding([x], x)))
  {
    assert RunDownTo({x}, x - 1) == [];
    assert RunDownTo({x}, x) == [x];
    assert Reversed([x]) == [x];
  }

  lemma LoneBlockSends(s: State, x: nat)
    requires s.back == Feeding([x], x) && |s.queue| < CHANNEL_CAPACITY
    ensures Acts(s, BackSend, s.(queue := s.queue + [x], back := Feeding([], x)))
  {
    assert [x][1..] == [];
  }

  /** Some run from an empty database ends in `s`. */
  ghost predicate Reachable(s: State) {
    exists acts: seq<Action>, ss: seq<State> :: Behaviour(acts, ss) && ss[0].stored == {} && ss[|acts|] == s
  }

  lemma Then(s: State, act: Action, s': State)
    requires Reachable(s) && Acts(s, act, s')
    ensures Reachable(s')
  {
    var acts: seq<Action>, ss: seq<State> :| Behaviour(acts, ss) && ss[0].stored == {} && ss[|acts|] == s;
    assert Behaviour(acts + [act], ss + [s']);
  }

  // ------------------------------------------------- windows and their steps

  lemma BroughtIsWithin(answer: Chunk -> Answer, from: nat, to: nat)
    requires to <= U64_MAX && Answers(answer)
    ensures forall h :: h in AllBrought(answer, BlockChunks(from, to, RPC_BLOCK_BATCH)) ==> from <= h <= to
  {
    var chunks := BlockChunks(from, to, RPC_BLOCK_BATCH);
    BlockChunksTile(from, to, RPC_BLOCK_BATCH);
    forall h | h in AllBrought(answer, chunks) ensures from <= h <= to {
      var c :| c in chunks && h in Brought(answer, c);
      var j :| 0 <= j < |chunks| && chunks[j] == c;
      TilesAreWithin(chunks, from, to, RPC_BLOCK_BATCH, j);
    }
  }

  lemma ForwardFetchActs(s: State, head: nat, batch: nat, got: set<nat>)
    requires s.fwd.Idle? && 0 < s.fwd.sent < head
    requires forall x :: x in got ==> s.fwd.sent + 1 <= x <= Min(s.fwd.sent + batch, head)
    ensures
      var kept := RunFrom(got, s.fwd.sent + 1);
      Acts(s, ForwardFetch(head, batch, got), if kept == [] then s else s.(fwd := Sending(kept, kept[|kept| - 1])))
  {
  }

  /** Whatever `FetchForward` may return for the window above `sent` is a fetch of the protocol. */
  lemma ForwardWindowIsAStep(s: State, head: nat, batch: nat, answer: Chunk -> Answer, got: set<nat>)
    requires s.fwd.Idle? && 0 < s.fwd.sent < head <= U64_MAX && Answers(answer)
    requires got <= AllBrought(answer, BlockChunks(s.fwd.sent + 1, Min(s.fwd.sent + batch, head), RPC_BLOCK_BATCH))
    ensures
      var kept := RunFrom(got, s.fwd.sent + 1);
      Acts(s, ForwardFetch(head, batch, got), if kept == [] then s else s.(fwd := Sending(kept, kept[|kept| - 1])))
  {
    BroughtIsWithin(answer, s.fwd.sent + 1, Min(s.fwd.sent + batch, head));
    ForwardFetchActs(s, head, batch, got);
  }

  /** And so is what `FetchBackward` may return for the window below the frontier. */
  lemma BackwardWindowIsAStep(s: State, span: nat, answer: Chunk -> Answer, found: set<nat>)
    requires s.back.Waiting? && s.back.frontier.Some? && 1 < s.back.frontier.value <= U64_MAX && Answers(answer)
    requires
      var target := s.back.frontier.value;
      found <= AllBrought(answer, BlockChunks(Bottom(target, span), target - 1, RPC_BLOCK_BATCH))
    ensures
      var kept := RunDownTo(found, s.back.frontier.value - 1);
      Acts(s, BackFetch(span, found), if kept == [] then s else s.(back := Feeding(Reversed(kept), kept[0])))
  {
    var target := s.back.frontier.value;
    BroughtIsWithin(answer, Bottom(target, span), target - 1);
  }

  /** Or, on a fresh database, for the window at the tip. */
  lemma SeedWindowIsAStep(s: State, tip: nat, span: nat, answer: Chunk -> Answer, found: set<nat>)
    requires s.back == Waiting(None) && tip <= U64_MAX && Answers(answer)
    requires found <= AllBrought(answer, BlockChunks(Bottom(tip + 1, span), tip, RPC_BLOCK_BATCH))
    ensures
      var kept := RunDownTo(found, tip);
      Acts(s, BackSeedFetch(tip, span, found), if kept == [] then s else s.(back := Feeding(Reversed(kept), kept[0])))
  {
    BroughtIsWithin(answer, Bottom(tip + 1, span), tip);
  }

  // ------------------------------------------------------------- progress

  /** Some guarded steps lead from `s` to `s'`. */
  ghost predicate Leads(s: State, s': State) {
    exists acts: seq<Action>, ss: seq<State> ::
      Steps(s, acts, ss) && ss[|acts|] == s' && forall i :: 0 <= i < |acts| ==> !acts[i].BackReread? && !acts[i].Crash?
  }

  lemma LeadsNowhere(s: State)
    ensures Leads(s, s)
  {
    assert Steps(s, [], [s]);
  }

  lemma LeadsOn(s: State, mid: State, act: Action, s': State)
    requires Leads(s, mid) && Acts(mid, act, s') && !act.BackReread? && !act.Crash?
    ensures Leads(s, s')
  {
    var acts: seq<Action>, ss: seq<State> :| Steps(s, acts, ss) && ss[|acts|] == mid &&
      forall i :: 0 <= i < |acts| ==> !acts[i].BackReread? && !acts[i].Crash?;
    StepsSnoc(s, acts, ss, act, s');
  }

  /** Nothing on its way, the loops at `sent` and `frontier`. */
  function AtRest(stored: set<nat>, sent: nat, frontier: Option<nat>): State {
    State(stored, [], [], Idle(sent), Waiting(frontier))
  }

  /** A block in an otherwise empty channel is taken and committed. */
  lemma OneIsWritten(s: State, mid: State, x: nat)
    requires Leads(s, mid) && mid.held == [] && mid.queue == [x]
    ensures Leads(s, mid.(stored := mid.stored + {x}, queue := []))
  {
    assert [x][..1] == [x] && [x][1..] == [];
    var taken := mid.(held := [x], queue := []);
    LeadsOn(s, mid, WriterTake(1), taken);
    assert Elements([x]) == {x};
    LeadsOn(s, taken, Commit, mid.(stored := mid.stored + {x}, queue := []));
  }

  lemma OneMoreUp(s: State, stored: set<nat>, sent: nat, frontier: Option<nat>)
    requires Leads(s, AtRest(stored, sent, frontier)) && sent > 0
    ensures Leads(s, AtRest(stored + {sent + 1}, sent + 1, frontier))
  {
    var s0 := AtRest(stored, sent, frontier);
    var x := sent + 1;
    LoneBlockReached(s0, sent);
    var s1 := s0.(fwd := Sending([x], x));
    LeadsOn(s, s0, ForwardFetch(x, 1, {x}), s1);
    var s2 := s1.(queue := [x], fwd := Sending([], x));
    assert [x][1..] == [] && [] + [x] == [x];
    LeadsOn(s, s1, ForwardSend, s2);
    var s3 := s2.(fwd := Idle(x));
    LeadsOn(s, s2, ForwardDone, s3);
    OneIsWritten(s, s3, x);
  }

  lemma OneMoreDown(s: State, stored: set<nat>, sent: nat, f: nat)
    requires Leads(s, AtRest(stored, sent, Some(f))) && f > 1
    ensures Leads(s, AtRest(stored + {f - 1}, sent, Some(f - 1)))
  {
    var s0 := AtRest(stored, sent, Some(f));
    var x := f - 1;
    LoneBlockFetched(s0, f);
    var s1 := s0.(back := Feeding([x], x));
    LeadsOn(s, s0, BackFetch(1, {x}), s1);
    var s2 := s1.(queue := s0.queue + [x], back := Feeding([], x));
    LoneBlockSends(s1, x);
    LeadsOn(s, s1, BackSend, s2);
    var s3 := s2.(back := Waiting(Some(x)));
    LeadsOn(s, s2, BackDone, s3);
    assert [] + [x] == [x];
    OneIsWritten(s, s3, x);
  }

  lemma LoneBlockFetched(s: State, f: nat)
    requires s.back == Waiting(Some(f)) && f > 1
    ensures Acts(s, BackFetch(1, {f - 1}), s.(back := Feeding([f - 1], f - 1)))
  {
    var x := f - 1;
    assert RunDownTo({x}, x - 1) == [];
    assert RunDownTo({x}, x) == [x];
    assert Reversed([x]) == [x];
  }

  lemma LoneBlockReached(s: State, sent: nat)
    requires s.fwd == Idle(sent) && sent > 0
    ensures Acts(s, ForwardFetch(sent + 1, 1, {sent + 1}), s.(fwd := Sending([sent + 1], sent + 1)))
  {
    var x := sent + 1;
    assert RunFrom({x} - {x}, x + 1) == [];
    assert RunFrom({x}, x) == [x];
  }

  function Heights(lo: nat, hi: nat): (s: set<nat>)
    ensures forall x :: x in s <==> lo <= x <= hi
    decreases hi
  {
    if lo > hi then {} else if lo == hi then {lo} else Heights(lo, hi - 1) + {hi}
  }

  lemma {:induction false} FillUp(s: State, lo: nat, hi: nat, head: nat)
    requires 1 <= lo <= hi <= head && Leads(s, AtRest(Heights(lo, hi), hi, Some(lo)))
    ensures Leads(s, AtRest(Heights(lo, head), head, Some(lo)))
    decreases head - hi
  {
    if hi < head {
      OneMoreUp(s, Heights(lo, hi), hi, Some(lo));
      assert Heights(lo, hi) + {hi + 1} == Heights(lo, hi + 1);
      FillUp(s, lo, hi + 1, head);
    }
  }

  lemma {:induction false} FillDown(s: State, lo: nat, hi: nat)
    requires 1 <= lo <= hi && Leads(s, AtRest(Heights(lo, hi), hi, Some(lo)))
    ensures Leads(s, AtRest(Heights(1, hi), hi, Some(1)))
  {
    if lo > 1 {
      OneMoreDown(s, Heights(lo, hi), hi, lo);
      assert Heights(lo, hi) + {lo - 1} == Heights(lo - 1, hi);
      FillDown(s, lo - 1, hi);
    }
  }

  /** From a fresh start over an empty database the backfill loop hands over the tip, and once that is
      stored the forward loop is seeded with it. */
  lemma TipIsStored(tip: nat)
    requires tip >= 1
    ensures Leads(State({}, [], [], Stopped, Off), AtRest({tip}, tip, Some(tip)))
  {
    var s := State({}, [], [], Stopped, Off);
    LeadsNowhere(s);
    var s0 := s.(fwd := Idle(0));
    LeadsOn(s, s, ForwardStart, s0);
    var s1 := s0.(back := Waiting(None));
    LeadsOn(s, s0, BackStart, s1);
    TipIsSent(s, s1, tip);
    var s4 := s1.(queue := [tip], back := Waiting(Some(tip)));
    OneIsWritten(s, s4, tip);
    assert {} + {tip} == {tip};
    var s5 := State({tip}, [], [], Idle(0), Waiting(Some(tip)));
    assert Highest({tip}) == tip;
    LeadsOn(s, s5, ForwardSeed, s5.(fwd := Idle(tip)));
  }

  lemma TipIsSent(s: State, s1: State, tip: nat)
    requires Leads(s, s1) && s1.back == Waiting(None) && s1.queue == [] && tip >= 1
    ensures Leads(s, s1.(queue := [tip], back := Waiting(Some(tip))))
  {
    var s2 := s1.(back := Feeding([tip], tip));
    LoneBlockFeeds(s1, tip);
    LeadsOn(s, s1, BackSeedFetch(tip, 1, {tip}), s2);
    var s3 := s2.(queue := s2.queue + [tip], back := Feeding([], tip));
    LoneBlockSends(s2, tip);
    LeadsOn(s, s2, BackSend, s3);
    assert s2.queue + [tip] == [tip];
    LeadsOn(s, s3, BackDone, s3.(back := Waiting(Some(tip))));
  }

  /** The loops can always finish: from a fresh start over a gapless database, empty or not, some
      run without a re-read or a crash stores every block from 1 to any head not below what is
      stored, with nothing left on its way and both loops at the ends. */
  lemma CompletionIsReachable(stored: set<nat>, head: nat)
    requires Gapless(stored) && 0 !in stored && head >= 1 && forall x :: x in stored ==> x <= head
    ensures Leads(State(stored, [], [], Stopped, Off), AtRest(Heights(1, head), head, Some(1)))
  {
    var s := State(stored, [], [], Stopped, Off);
    if stored == {} {
      TipIsStored(head);
      assert {head} == Heights(head, head);
      FillDown(s, head, head);
    } else {
      var lo, hi := Lowest(stored), Highest(stored);
      assert stored == Heights(lo, hi);
      LeadsNowhere(s);
      var s1 := s.(fwd := Idle(hi));
      LeadsOn(s, s, ForwardStart, s1);
      LeadsOn(s, s1, BackStart, s1.(back := Waiting(Some(lo))));
      FillUp(s, lo, hi, head);
      FillDown(s, lo, head);
    }
  }

  // ------------------------------------------------------- without the guard

  /** A fresh database after one block was handed over and the frontier re-read. */
  lemma RereadFromScratch()
    ensures Reachable(State({}, [], [1], Stopped, Waiting(None)))
  {
    var e := State({}, [], [], Stopped, Off);
    assert Behaviour([], [e]);
    var s1 := e.(back := Waiting(None));
    Then(e, BackStart, s1);
    var s2 := s1.(back := Feeding([1], 1));
    LoneBlockFeeds(s1, 1);
    Then(s1, BackSeedFetch(1, 1, {1}), s2);
    var s3 := s2.(queue := [] + [1], back := Feeding([], 1));
    LoneBlockSends(s2, 1);
    Then(s2, BackSend, s3);
    var s4 := s3.(back := Waiting(Some(1)));
    Then(s3, BackDone, s4);
    Then(s4, BackReread, s4.(back := Waiting(None)));
  }

  /** The hole, from an empty database: the chain's one block is handed over, the frontier is
      re-read before it is committed, and the tip has moved to five. Blocks 1 and 5 are
      committed, 2 to 4 are not. */
  lemma HoleFromScratch()
    ensures Reachable(State({1, 5}, [], [], Stopped, Feeding([], 5)))
  {
    RereadFromScratch();
    var s5 := State({}, [], [1], Stopped, Waiting(None));
    var s6 := s5.(back := Feeding([5], 5));
    LoneBlockFeeds(s5, 5);
    Then(s5, BackSeedFetch(5, 1, {5}), s6);
    var s7 := s6.(queue := [1] + [5], back := Feeding([], 5));
    LoneBlockSends(s6, 5);
    Then(s6, BackSend, s7);
    CommitBoth(s7);
  }

  lemma CommitBoth(s: State)
    requires Reachable(s) && s == State({}, [], [1] + [5], Stopped, Feeding([], 5))
    ensures Reachable(State({1, 5}, [], [], Stopped, Feeding([], 5)))
  {
    var t := State({}, [1, 5], [], Stopped, Feeding([], 5));
    assert s.queue[..2] == [1, 5] && s.queue[2..] == [];
    Then(s, WriterTake(2), t);
    assert Elements([1, 5]) == {1, 5};
    Then(t, Commit, t.(stored := {1, 5}, held := []));
  }

  /** Every run started on `stored` keeps the index gapless, guarded or not. */
  ghost predicate AlwaysGapless(stored: set<nat>) {
    forall acts: seq<Action>, ss: seq<State>, n: nat ::
      Behaviour(acts, ss) && ss[0].stored == stored && n <= |acts| ==> Gapless(ss[n].stored)
  }

  lemma {:induction false} NothingIsRemoved(acts: seq<Action>, ss: seq<State>, n: nat)
    requires Behaviour(acts, ss) && n <= |acts|
    ensures ss[0].stored <= ss[n].stored
  {
    if n > 0 {
      NothingIsRemoved(acts, ss, n - 1);
      StoredGrows(ss[n - 1], acts[n - 1], ss[n]);
    }
  }

  /** Exactly when the index stays gapless, in terms of what a start finds: over a gapless database
      every run does if, and only if, something is stored already. */
  lemma AlwaysGaplessIff(stored: set<nat>)
    requires Gapless(stored) && 0 !in stored
    ensures AlwaysGapless(stored) <==> stored != {}
  {
    if stored == {} {
      HoleFromScratch();
      var acts: seq<Action>, ss: seq<State> :| Behaviour(acts, ss) && ss[0].stored == {} &&
        ss[|acts|] == State({1, 5}, [], [], Stopped, Feeding([], 5));
      var one: nat, three: nat, five: nat := 1, 3, 5;
      MissingBetween(ss[|acts|].stored, one, three, five);
    } else {
      forall acts: seq<Action>, ss: seq<State>, n: nat | Behaviour(acts, ss) && ss[0].stored == stored && n <= |acts|
          ensures Gapless(ss[n].stored) {
        forall i | 0 <= i < |acts| ensures Guarded(ss[i], acts[i]) { NothingIsRemoved(acts, ss, i); }
        GaplessForever(acts, ss, n, 0);
      }
    }
  }

  /** Block `missing` is in neither the database nor the pipe, the backfill loop is at the bottom
      and the forward loop above. */
  ghost predicate HoleKept(s: State, bottom: nat, missing: nat, top: nat) {
    && bottom <= 1 && bottom < missing < top && bottom in s.stored && top in s.stored && missing !in s.stored
    && (forall i :: 0 <= i < |Pipe(s)| ==> Pipe(s)[i] > missing)
    && (match s.fwd
        case Stopped => true
        case Idle(sent) => sent > missing
        case Sending(rest, reached) => reached > missing && forall i :: 0 <= i < |rest| ==> rest[i] > missing)
    && (s.back == Off || (s.back.Waiting? && s.back.frontier.Some? && s.back.frontier.value <= 1))
  }

  lemma ActKeepsHole(s: State, act: Action, s': State, bottom: nat, missing: nat, top: nat)
    requires HoleKept(s, bottom, missing, top) && Acts(s, act, s')
    ensures HoleKept(s', bottom, missing, top)
  {
    if act.Commit? {
      CommitKeepsHole(s, s', bottom, missing, top);
    } else if act.Crash? {
      assert Pipe(s') == [];
    } else {
      assert Pipe(s') == if act.ForwardSend? then Pipe(s) + [s.fwd.rest[0]] else Pipe(s);
    }
  }

  lemma CommitKeepsHole(s: State, s': State, bottom: nat, missing: nat, top: nat)
    requires HoleKept(s, bottom, missing, top) && Acts(s, Commit, s')
    ensures HoleKept(s', bottom, missing, top)
  {
    forall i | 0 <= i < |s.held| ensures s.held[i] > missing { assert Pipe(s)[i] == s.held[i]; }
    forall i | 0 <= i < |s.queue| ensures s.queue[i] > missing { assert Pipe(s)[|s.held| + i] == s.queue[i]; }
    assert Pipe(s') == s.queue;
  }

  /** From there the hole is for good: whatever is fetched, written or restarted next, the missing
      block is never asked for again. */
  lemma {:induction false} HoleIsPermanent(acts: seq<Action>, ss: seq<State>, n: nat, bottom: nat, missing: nat,
      top: nat)
    requires |ss| == |acts| + 1 && forall i :: 0 <= i < |acts| ==> Acts(ss[i], acts[i], ss[i + 1])
    requires HoleKept(ss[0], bottom, missing, top) && n <= |acts|
    ensures HoleKept(ss[n], bottom, missing, top) && !Gapless(ss[n].stored)
  {
    if n > 0 {
      HoleIsPermanent(acts, ss, n - 1, bottom, missing, top);
      ActKeepsHole(ss[n - 1], acts[n - 1], ss[n], bottom, missing, top);
    }
    MissingBetween(ss[n].stored, bottom, missing, top);
  }

  /** The hole at blocks 2 to 4 becomes such a one by a restart: both loops then start from the
      ends of what is stored. */
  lemma HoleAfterRestart()
    ensures
      var s := State({1, 5}, [], [], Idle(5), Waiting(Some(1)));
      Reachable(s) && forall missing :: 2 <= missing <= 4 ==> HoleKept(s, 1, missing, 5)
  {
    HoleFromScratch();
    var s := State({1, 5}, [], [], Stopped, Feeding([], 5));
    var s1 := State({1, 5}, [], [], Stopped, Off);
    var s2 := s1.(fwd := Idle(5));
    assert Highest(s1.stored) == 5 && Lowest(s1.stored) == 1;
    Then(s, Crash, s1);
    Then(s1, ForwardStart, s2);
    Then(s2, BackStart, s2.(back := Waiting(Some(1))));
  }
}
