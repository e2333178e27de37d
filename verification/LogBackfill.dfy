/** The anchoring backfill of `src/indexer.rs`: windows of node logs behind a watermark, halved
    when the node refuses them, beside a block writer that writes rows too, and stopped and
    started again at any point. */
module LogBackfill {
  import opened RangeFetch

  const WINDOW: nat := 50_000

  /** A log of the anchoring contract; `named` when it names a registry and so makes a row. */
  datatype Log = Log(block: nat, logIndex: nat, named: bool, payload: nat)
  {
    function Key(): (nat, nat) { (block, logIndex) }
  }

  /** The contract's logs at each height, and the one log each key names. */
  datatype Node = Node(logs: nat -> seq<Log>, at: ((nat, nat)) -> Log)

  ghost predicate WellFormed(node: Node) {
    forall n, x :: x in node.logs(n) ==> x.block == n && node.at(x.Key()) == x
  }

  ghost predicate OnChain(node: Node, x: Log) { x in node.logs(x.block) }

  lemma SameKeySameLog(node: Node, x: Log, y: Log)
    requires WellFormed(node) && OnChain(node, x) && OnChain(node, y) && x.Key() == y.Key()
    ensures x == y
  {
  }

  /** All rows one block should have. */
  ghost predicate HasAll(node: Node, rows: map<(nat, nat), Log>, block: nat) {
    forall x: Log :: x.block == block && x.named && OnChain(node, x) ==> x.Key() in rows && rows[x.Key()] == x
  }

  /** Stored rows are the chain's, each under its own key. */
  ghost predicate RowsAreTrue(node: Node, rows: map<(nat, nat), Log>) {
    forall k :: k in rows ==> rows[k].Key() == k && rows[k].named && OnChain(node, rows[k])
  }

  /** What the node may answer for a range: its logs there, in any order. */
  ghost predicate LogsOf(node: Node, first: nat, last: nat, logs: seq<Log>) {
    forall x :: x in logs <==> first <= x.block <= last && OnChain(node, x)
  }

  /** The windows read so far run on from one another. */
  ghost predicate Tiling(windows: seq<Chunk>, first: nat, next: nat) {
    if windows == [] then next == first
    else
      var last := windows[|windows| - 1];
      next == last.last + 1 && last.first <= last.last && Tiling(windows[..|windows| - 1], first, last.first)
  }

  /** How a run ends. `Interrupted` stands for a shutdown, a crash or a failed write. */
  datatype Outcome = NothingToDo | Finished | Refused | Interrupted

  /** Where a run that began at `mark` and read `windows` has left the watermark. */
  ghost predicate LeftAt(windows: seq<Chunk>, mark: nat, after: nat) {
    if windows == [] then after == mark else Tiling(windows, mark, after + 1)
  }

  lemma {:induction false} TilingCovers(windows: seq<Chunk>, first: nat, next: nat, h: nat)
    requires Tiling(windows, first, next) && first <= h < next
    ensures exists i :: 0 <= i < |windows| && windows[i].first <= h <= windows[i].last
  {
    var last := |windows| - 1;
    if windows[last].first <= h {
      assert windows[last].first <= h <= windows[last].last;
    } else {
      TilingCovers(windows[..last], first, windows[last].first, h);
      var i :| 0 <= i < last && windows[..last][i].first <= h <= windows[..last][i].last;
      assert windows[i] == windows[..last][i];
    }
  }

  /** A run up to `head`: what it read, and the watermark before and after. */
  datatype Run = Run(head: nat, outcome: Outcome, windows: seq<Chunk>, before: nat, after: nat)

  /** The watermark was past its head, or got there. */
  predicate Reached(r: Run) { r.outcome == Finished || r.outcome == NothingToDo }

  /** It read on from where it began without a gap, and all the way if it was not cut short. */
  ghost predicate WellRun(r: Run) {
    && r.before <= r.after && LeftAt(r.windows, r.before, r.after)
    && (r.outcome == Finished ==> r.after == r.head)
    && (r.outcome == NothingToDo ==> r.after == r.before >= r.head)
  }

  /** Runs one after another, each from the watermark the one before left. */
  ghost predicate Resumed(runs: seq<Run>, first: nat, last: nat) {
    if runs == [] then last == first
    else
      var r := runs[|runs| - 1];
      WellRun(r) && r.after == last && Resumed(runs[..|runs| - 1], first, r.before)
  }

  ghost predicate ReadBy(runs: seq<Run>, h: nat) {
    exists r, w :: r in runs && w in r.windows && w.first <= h <= w.last
  }

  /** However often the reading was stopped, no height between the first watermark and the last
      goes unread, and the watermark has passed every head that some run reached. */
  lemma {:induction false} ResumedReadsAll(runs: seq<Run>, first: nat, last: nat, h: nat)
    requires Resumed(runs, first, last)
    ensures first < h <= last ==> ReadBy(runs, h)
    ensures forall r :: r in runs && Reached(r) ==> r.head <= last
    ensures first <= last
  {
    if runs != [] {
      var r := runs[|runs| - 1];
      var earlier := runs[..|runs| - 1];
      assert runs == earlier + [r];
      ResumedReadsAll(earlier, first, r.before, h);
      if r.before < h <= last {
        TilingCovers(r.windows, r.before, last + 1, h);
        var i :| 0 <= i < |r.windows| && r.windows[i].first <= h <= r.windows[i].last;
        assert r.windows[i] in r.windows;
      }
    }
  }

  ghost predicate Below(blocks: set<nat>, head: nat) { forall b :: b in blocks ==> 1 <= b <= head }

  class AnchoringIndex {
    const node: Node
    ghost const legacy: set<nat>  // the blocks stored before there was a table for their rows
    var stored: set<nat>
    var rows: map<(nat, nat), Log>
    var watermark: nat

    /** Every stored block has all its rows, each once, unless it is a legacy block the watermark
        has not passed. */
    ghost predicate Valid()
      reads this
    {
      && WellFormed(node) && RowsAreTrue(node, rows)
      && (forall b :: b in stored && 1 <= b <= watermark ==> HasAll(node, rows, b))
      && (forall b :: b in stored && b !in legacy ==> HasAll(node, rows, b))
    }

    ghost predicate Complete()
      reads this
    {
      forall b :: b in stored ==> HasAll(node, rows, b)
    }

    /** Any set of blocks may have been stored before, none with its rows. */
    constructor (node: Node, legacy: set<nat>)
      requires WellFormed(node)
      ensures Valid() && stored == legacy && rows == map[] && watermark == 0
      ensures this.node == node && this.legacy == legacy
    {
      this.node, this.legacy := node, legacy;
      stored, rows, watermark := legacy, map[], 0;
    }

    method InsertAnchoring(x: Log) returns (inserted: bool)
      modifies this`rows
      ensures inserted == (x.Key() !in old(rows))
      ensures rows == if inserted then old(rows)[x.Key() := x] else old(rows)
    {
      inserted := x.Key() !in rows;
      if inserted {
        rows := rows[x.Key() := x];
      }
    }

    /** Insert the rows of some logs; `held` is the set of blocks a row may be stamped from. */
    method InsertLogs(logs: seq<Log>, held: set<nat>)
      requires WellFormed(node) && RowsAreTrue(node, rows)
      requires forall x :: x in logs ==> OnChain(node, x)
      modifies this`rows
      ensures RowsAreTrue(node, rows)
      ensures forall k :: k in old(rows) ==> k in rows && rows[k] == old(rows)[k]
      ensures forall x :: x in logs && x.named && x.block in held ==> x.Key() in rows && rows[x.Key()] == x
      ensures forall k :: k in rows && k !in old(rows) ==> rows[k] in logs && rows[k].block in held
    {
      for i := 0 to |logs|
        invariant RowsAreTrue(node, rows)
        invariant forall k :: k in old(rows) ==> k in rows && rows[k] == old(rows)[k]
        invariant forall j :: 0 <= j < i && logs[j].named && logs[j].block in held ==>
          logs[j].Key() in rows && rows[logs[j].Key()] == logs[j]
        invariant forall k :: k in rows && k !in old(rows) ==> rows[k] in logs && rows[k].block in held
      {
        var x := logs[i];
        assert OnChain(node, x);
        if x.block in held && x.named {
          if x.Key() in rows { SameKeySameLog(node, x, rows[x.Key()]); }
          var inserted := InsertAnchoring(x);
        }
      }
    }

    /** The block writer: whatever was stored under a height, its rows are all there afterwards. */
    method WriteBlock(n: nat)
      requires Valid() && n >= 1
      modifies this`stored, this`rows
      ensures Valid() && stored == old(stored) + {n} && HasAll(node, rows, n)
      ensures forall k :: k in old(rows) ==> k in rows && rows[k] == old(rows)[k]
    {
      InsertLogs(node.logs(n), {n});
      stored := stored + {n};
    }

    /** Whatever the block writer does while the backfill is asking or waiting. */
    method OthersWrite()
      requires Valid()
      modifies this`stored, this`rows
      ensures Valid() && old(stored) <= stored
    {
      var more: nat := 0;
      var blocks: nat :| true;
      while more < blocks
        invariant Valid() && old(stored) <= stored
      {
        var n: nat :| n >= 1;
        WriteBlock(n);
        more := more + 1;
      }
    }

    /** One window's rows and the watermark, in one transaction. */
    method CommitWindow(from: nat, to: nat, logs: seq<Log>)
      requires Valid() && LogsOf(node, from, to, logs) && from <= to
      requires from <= watermark + 1
      modifies this`rows, this`watermark
      ensures Valid() && watermark == to
    {
      InsertLogs(logs, stored);
      forall b | b in stored && from <= b <= to ensures HasAll(node, rows, b) {
        forall x: Log | x.block == b && x.named && OnChain(node, x) ensures x.Key() in rows && rows[x.Key()] == x {
          assert x in logs;
        }
      }
      watermark := to;
    }

    /** One run, up to `head`, window by window. The block writer writes at every point where this
        one waits, requests go unanswered a finite number of times, refusals are the node's to
        choose, of a single block only if `refusesOne`, and if `mayStop` the run may be cut short
        between any two windows. However it ends, what it read tiles from the old watermark to the
        new one. */
    method BackfillAnchoring(head: nat, answer: (nat, nat) -> seq<Log>, refusesOne: bool, mayStop: bool)
      returns (r: Outcome, ghost windows: seq<Chunk>)
      requires Valid() && forall first, last :: LogsOf(node, first, last, answer(first, last))
      modifies this`stored, this`rows, this`watermark
      ensures Valid() && old(stored) <= stored && LeftAt(windows, old(watermark), watermark)
      ensures old(watermark) <= watermark && (watermark <= head || watermark == old(watermark))
      ensures r == NothingToDo <==> old(watermark) >= head
      ensures r == NothingToDo ==> windows == []
      ensures forall w :: w in windows ==> w.first <= w.last < w.first + 50_000
      ensures r == Finished ==> watermark == head
      ensures r == Refused ==> refusesOne
      ensures r == Interrupted ==> mayStop
      ensures (r == Finished || r == NothingToDo) && Below(legacy, head) ==> Complete()
    {
      windows := [];
      var done := watermark;
      if done >= head {
        return NothingToDo, [];
      }
      var from, window := done, WINDOW;
      while from <= head
        invariant Valid() && old(stored) <= stored && 1 <= window <= WINDOW
        invariant forall w :: w in windows ==> w.first <= w.last < w.first + WINDOW
        invariant done == old(watermark) <= from <= head + 1
        invariant if windows == [] then watermark == done == from else watermark == from - 1 && from > done
        invariant Tiling(windows, done, from)
        decreases head + 1 - from, window
      {
        var to := if from + window - 1 < head then from + window - 1 else head;
        WaitForAnswer();
        var stopped: bool := *;
        if stopped && mayStop {
          return Interrupted, windows;
        }
        var refused: bool := *;
        if refused && (window > 1 || refusesOne) {
          if window == 1 {
            return Refused, windows;
          }
          window := window / 2;
          continue;
        }
        CommitWindow(from, to, answer(from, to));
        windows := windows + [Chunk(from, to)];
        from := to + 1;
      }
      r := Finished;
    }

    /** One start of the process: the run stopped anywhere, refused or finished. */
    method StartOnce(head: nat, answer: (nat, nat) -> seq<Log>) returns (ghost run: Run)
      requires Valid() && forall first, last :: LogsOf(node, first, last, answer(first, last))
      modifies this`stored, this`rows, this`watermark
      ensures Valid() && old(stored) <= stored
      ensures WellRun(run) && run.head == head && run.before == old(watermark) && run.after == watermark
    {
      OthersWrite();
      ghost var before := watermark;
      var refusesOne: bool, mayStop: bool := *, *;
      var r;
      ghost var windows;
      r, windows := BackfillAnchoring(head, answer, refusesOne, mayStop);
      run := Run(head, r, windows, before, watermark);
    }

    /** The process started over and over, each time against the head and the node's answers of the
        day, each run stopped anywhere, refused or finished, the block writer going on throughout.
        Each run resumes where the one before was left, and once one has reached a head above the
        legacy blocks every stored block has all its rows, for good. */
    method BackfillAcrossRestarts(heads: seq<nat>, answers: seq<(nat, nat) -> seq<Log>>) returns (ghost runs: seq<Run>)
      requires Valid() && |answers| == |heads|
      requires forall i, first, last :: 0 <= i < |answers| ==> LogsOf(node, first, last, answers[i](first, last))
      modifies this`stored, this`rows, this`watermark
      ensures Valid() && old(stored) <= stored
      ensures |runs| == |heads| && forall i :: 0 <= i < |runs| ==> runs[i].head == heads[i]
      ensures Resumed(runs, old(watermark), watermark)
      ensures forall h :: old(watermark) < h <= watermark ==> ReadBy(runs, h)
      ensures forall r :: r in runs && Reached(r) && Below(legacy, r.head) ==> Complete()
    {
      runs := [];
      for i := 0 to |heads|
        invariant Valid() && old(stored) <= stored
        invariant |runs| == i && forall j :: 0 <= j < i ==> runs[j].head == heads[j]
        invariant Resumed(runs, old(watermark), watermark)
      {
        ghost var run := StartOnce(heads[i], answers[i]);
        runs := runs + [run];
      }
      OthersWrite();
      ReachedIsComplete(runs, old(watermark));
    }

    lemma ReachedIsComplete(runs: seq<Run>, first: nat)
      requires Valid() && Resumed(runs, first, watermark)
      ensures forall h :: first < h <= watermark ==> ReadBy(runs, h)
      ensures forall r :: r in runs && Reached(r) && Below(legacy, r.head) ==> Complete()
    {
      forall h | first < h <= watermark ensures ReadBy(runs, h) { ResumedReadsAll(runs, first, watermark, h); }
      forall r | r in runs && Reached(r) && Below(legacy, r.head) ensures Complete() {
        ResumedReadsAll(runs, first, watermark, 0);
      }
    }

    /** Some finite number of requests go unanswered; the block writer goes on meanwhile. */
    method WaitForAnswer()
      requires Valid()
      modifies this`stored, this`rows
      ensures Valid() && old(stored) <= stored
    {
      var attempts: nat :| true;
      OthersWrite();
      while attempts > 0
        invariant Valid() && old(stored) <= stored
      {
        OthersWrite();
        attempts := attempts - 1;
      }
    }
  }
}
