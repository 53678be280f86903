/**
 The loop that drives the projection: windows, failures, crashes and targeted advances.
 */
module IngestionLoop {
  import opened Prelude
  import opened Projection
  import opened TokenLedger
  import opened WindowIndependence
  import opened WholeProjection
  import opened WindowTransaction

  const BATCH_SIZE: nat := 500

  datatype Window = Window(from: nat, to: nat)

  function ComputeIngestionWindow(nextBlock: nat, latest: nat): (w: Option<Window>)
    ensures w.None? <==> latest < nextBlock
    ensures w.Some? ==> w.value.from == nextBlock <= w.value.to <= latest
    ensures w.Some? ==> w.value.to - w.value.from + 1 <= 501
    ensures w.Some? && w.value.to < latest ==> w.value.to - w.value.from + 1 == 501
  {
    if latest < nextBlock then None
    else Some(Window(nextBlock, if latest < nextBlock + BATCH_SIZE then latest else nextBlock + BATCH_SIZE))
  }

  // --------------------------------------------------------- runs of the loop

  /** What the transaction over the blocks `from..to` makes of the tables. */
  type Processor = (Whole, nat, nat) -> Result<Whole, string>

  /** The database (tables and checkpoint) and the volatile variables of the loop. */
  datatype LoopState = LoopState(tables: Whole, checkpoint: nat, nextBlock: nat, lastBlockProcessed: int)

  datatype LoopEvent =
    | Tick(latest: nat)  // try one window towards `latest`
    | FailedTick         // an RPC call throws before the transaction
    | Crash              // the process dies; a new loop starts from the checkpoint

  /** The volatile variables as a new loop sets them from the checkpoint. */
  function Restarted(s: LoopState): LoopState {
    s.(nextBlock := s.checkpoint, lastBlockProcessed := s.checkpoint - 1)
  }

  const FIRST_STATE := LoopState(NOTHING_YET, 0, 0, -1)

  /** Committing a window advances tables, checkpoint and variables together; a throw changes nothing. */
  function CommitWindow(p: Processor, s: LoopState, w: Window): LoopState {
    var r := p(s.tables, w.from, w.to + 1);
    if r.Failure? then s else LoopState(r.value, w.to + 1, w.to + 1, w.to)
  }

  function Step(p: Processor, s: LoopState, e: LoopEvent): LoopState {
    match e
    case Tick(latest) =>
      var w := ComputeIngestionWindow(s.nextBlock, latest);
      if w.None? then s else CommitWindow(p, s, w.value)
    case FailedTick => s
    case Crash => Restarted(s)
  }

  function Run(p: Processor, s: LoopState, events: seq<LoopEvent>): LoopState {
    if events == [] then s
    else Step(p, Run(p, s, events[..|events|-1]), events[|events|-1])
  }

  /** Windows compose: from the tables `at(from)`, blocks `from..to` lead to `at(to)`; blocks beyond
      `height` are missing. */
  ghost predicate Composes(p: Processor, at: nat -> Whole, height: nat) {
    && (forall from: nat, to: nat | from <= to <= height :: p(at(from), from, to) == Success(at(to)))
    && (forall t: Whole, from: nat, to: nat | to > height :: p(t, from, to).Failure?)
  }

  /** The loop has ingested exactly the blocks before its checkpoint. */
  ghost predicate ExactlyOnce(at: nat -> Whole, height: nat, s: LoopState) {
    && s.checkpoint <= height
    && s.tables == at(s.checkpoint)
    && s.nextBlock == s.checkpoint
    && s.lastBlockProcessed == s.checkpoint - 1
  }

  lemma StepKeepsExactlyOnce(p: Processor, at: nat -> Whole, height: nat, s: LoopState, e: LoopEvent)
    requires Composes(p, at, height) && ExactlyOnce(at, height, s)
    ensures ExactlyOnce(at, height, Step(p, s, e))
    ensures s.checkpoint <= Step(p, s, e).checkpoint
    ensures e.Tick? && s.checkpoint <= e.latest < height ==> s.checkpoint < Step(p, s, e).checkpoint
  {
    if e.Tick? {
      var w := ComputeIngestionWindow(s.nextBlock, e.latest);
      if w.Some? && w.value.to < height {
        assert p(at(s.checkpoint), s.checkpoint, w.value.to + 1) == Success(at(w.value.to + 1));
      }
    }
  }

  /** What one window of the loop does, and that it succeeds on blocks that exist. */
  lemma WindowOfTick(p: Processor, at: nat -> Whole, height: nat, s: LoopState, latest: nat, w: Window)
    requires Composes(p, at, height) && ExactlyOnce(at, height, s)
    requires ComputeIngestionWindow(s.nextBlock, latest) == Some(w)
    ensures Step(p, s, Tick(latest)) == CommitWindow(p, s, w) && ExactlyOnce(at, height, CommitWindow(p, s, w))
    ensures latest < height ==> p(s.tables, w.from, w.to + 1).Success?
    ensures p(s.tables, w.from, w.to + 1).Success? ==> s.nextBlock < CommitWindow(p, s, w).nextBlock <= latest + 1
    ensures p(s.tables, w.from, w.to + 1).Failure? ==> CommitWindow(p, s, w) == s
  {
    StepKeepsExactlyOnce(p, at, height, s, Tick(latest));
  }

  lemma {:induction false} RunKeepsExactlyOnce(p: Processor, at: nat -> Whole, height: nat, events: seq<LoopEvent>)
    requires Composes(p, at, height) && at(0) == NOTHING_YET
    ensures ExactlyOnce(at, height, Run(p, FIRST_STATE, events))
  {
    if events != [] {
      RunKeepsExactlyOnce(p, at, height, events[..|events|-1]);
      StepKeepsExactlyOnce(p, at, height, Run(p, FIRST_STATE, events[..|events|-1]), events[|events|-1]);
    }
  }

  // ------------------------------------------------------- runs over a chain

  /** The transaction over a range of blocks; a block that does not exist yet throws. */
  function ProcessorOf(h: PartitionHash, chain: Blocks): Processor {
    (t: Whole, from: nat, to: nat) =>
      if from <= to <= |chain| then ProcessBlocks(h, t, chain[from..to]) else Failure("missing checkpoint block")
  }

  lemma CommitIs(p: Processor, s: LoopState, w: Window, r: Result<Whole, string>)
    requires p(s.tables, w.from, w.to + 1) == r
    ensures r.Failure? ==> CommitWindow(p, s, w) == s
    ensures r.Success? ==> CommitWindow(p, s, w) == LoopState(r.value, w.to + 1, w.to + 1, w.to)
  {
  }

  /** The tables block by block (on a valid chain no block fails). */
  function TablesOf(h: PartitionHash, chain: Blocks): nat -> Whole {
    (n: nat) => if n <= |chain| then WholeAfter(h, chain, n) else NOTHING_YET
  }

  lemma ValidChainComposes(h: PartitionHash, chain: Blocks)
    requires ValidBlocks(h, chain)
    ensures Composes(ProcessorOf(h, chain), TablesOf(h, chain), |chain|)
    ensures TablesOf(h, chain)(0) == NOTHING_YET
  {
    assert BondSide(chain)[..0] == [] && AuctionSide(chain)[..0] == [];
    var p, at := ProcessorOf(h, chain), TablesOf(h, chain);
    forall from: nat, to: nat | from <= to <= |chain| ensures p(at(from), from, to) == Success(at(to)) {
      WindowOfWhole(h, chain, from, to);
    }
  }

  // no hypothesis on the chain

  /** Consecutive windows, one transaction each. */
  function RunBlocks(h: PartitionHash, w: Whole, windows: seq<Blocks>): Result<Whole, string> {
    if windows == [] then Success(w)
    else
      var r := RunBlocks(h, w, windows[..|windows|-1]);
      if r.Failure? then r else ProcessBlocks(h, r.value, windows[|windows|-1])
  }

  function FlattenBlocks(windows: seq<Blocks>): Blocks {
    if windows == [] then [] else FlattenBlocks(windows[..|windows|-1]) + windows[|windows|-1]
  }

  /** Windows of 1 to 501 blocks that make up `blocks`, none left out and none twice. */
  ghost predicate Cut(windows: seq<Blocks>, blocks: Blocks) {
    FlattenBlocks(windows) == blocks && forall i | 0 <= i < |windows| :: 1 <= |windows[i]| <= BATCH_SIZE + 1
  }

  ghost predicate Makes(h: PartitionHash, windows: seq<Blocks>, w: Whole) {
    RunBlocks(h, NOTHING_YET, windows) == Success(w)
  }

  /** The tables are those of some windows into which the first `n` blocks can be cut. */
  ghost predicate MadeOfWindows(h: PartitionHash, chain: Blocks, n: nat, w: Whole) {
    n <= |chain| && exists windows :: Cut(windows, chain[..n]) && Makes(h, windows, w)
  }

  ghost predicate Commits(h: PartitionHash, w: Whole, window: Blocks, w1: Whole) {
    ProcessBlocks(h, w, window) == Success(w1)
  }

  lemma MakesMore(h: PartitionHash, windows: seq<Blocks>, w: Whole, window: Blocks, w1: Whole)
    requires Makes(h, windows, w) && Commits(h, w, window, w1)
    ensures Makes(h, windows + [window], w1)
  {
    assert (windows + [window])[..|windows|] == windows;
  }

  lemma CutFurther(chain: Blocks, windows: seq<Blocks>, n: nat, to: nat)
    requires n < to <= |chain| && to - n <= BATCH_SIZE + 1 && Cut(windows, chain[..n])
    ensures Cut(windows + [chain[n..to]], chain[..to])
  {
    assert (windows + [chain[n..to]])[..|windows|] == windows;
    assert chain[..to] == chain[..n] + chain[n..to];
  }

  lemma OneMoreWindow(h: PartitionHash, chain: Blocks, w: Whole, n: nat, to: nat, w1: Whole)
    requires MadeOfWindows(h, chain, n, w)
    requires n < to <= |chain| && to - n <= BATCH_SIZE + 1 && Commits(h, w, chain[n..to], w1)
    ensures MadeOfWindows(h, chain, to, w1)
  {
    var windows :| Cut(windows, chain[..n]) && Makes(h, windows, w);
    CutFurther(chain, windows, n, to);
    MakesMore(h, windows, w, chain[n..to], w1);
  }

  /** A tick leaves things as they are, or commits the next window. */
  lemma TickCommits(h: PartitionHash, chain: Blocks, s: LoopState, latest: nat)
    requires s.nextBlock == s.checkpoint
    ensures var t := Step(ProcessorOf(h, chain), s, Tick(latest));
            || t == s
            || (&& s.checkpoint < t.checkpoint <= |chain| && t.checkpoint - s.checkpoint <= BATCH_SIZE + 1
                && Commits(h, s.tables, chain[s.checkpoint..t.checkpoint], t.tables)
                && t.nextBlock == t.checkpoint && t.lastBlockProcessed == t.checkpoint - 1)
  {
  }

  lemma StartsMade(h: PartitionHash, chain: Blocks)
    ensures MadeOfWindows(h, chain, 0, NOTHING_YET)
  {
    assert Cut([], chain[..0]) && Makes(h, [], NOTHING_YET);
  }

  /** On any chain, valid or not, and in any run of ticks, failures and crashes: no gap, no overlap, and windows of at
      most 501 blocks. */
  lemma {:induction false} NoGapNoOverlap(h: PartitionHash, chain: Blocks, events: seq<LoopEvent>)
    ensures var s := Run(ProcessorOf(h, chain), FIRST_STATE, events);
            && MadeOfWindows(h, chain, s.checkpoint, s.tables)
            && s.nextBlock == s.checkpoint && s.lastBlockProcessed == s.checkpoint - 1
  {
    if events == [] {
      StartsMade(h, chain);
    } else {
      var init, e := events[..|events|-1], events[|events|-1];
      NoGapNoOverlap(h, chain, init);
      var s, t := Run(ProcessorOf(h, chain), FIRST_STATE, init), Run(ProcessorOf(h, chain), FIRST_STATE, events);
      if e.Tick? {
        TickCommits(h, chain, s, e.latest);
        if t != s { OneMoreWindow(h, chain, s.tables, s.checkpoint, t.checkpoint, t.tables); }
      }
    }
  }

  /** The tables are the fold of exactly the first `n` blocks, and the bond half agrees with the token ledger there. */
  ghost predicate FoldOf(h: PartitionHash, chain: Blocks, n: nat, tables: Whole) {
    && n <= |chain|
    && Blockwise(h, BondSide(chain)[..n]) == Success(tables.bonds)
    && Auctions.Blockwise(NO_AUCTIONS, AuctionSide(chain)[..n]) == tables.auctions
    && Sound(h, tables.bonds, LedgerOf(BondSide(chain)[..n]))
  }

  lemma AfterIsFold(h: PartitionHash, chain: Blocks, n: nat)
    requires ValidBlocks(h, chain) && n <= |chain|
    ensures FoldOf(h, chain, n, WholeAfter(h, chain, n))
  {
    ChainStaysInStep(h, BondSide(chain), n);
  }

  /** Exactly-once ingestion: whatever the ticks, failures and crashes, the committed tables, those of bonds and of
      auctions, are the fold of exactly the blocks before the checkpoint. */
  lemma RunIsExactlyOnce(h: PartitionHash, chain: Blocks, events: seq<LoopEvent>)
    requires ValidBlocks(h, chain)
    ensures var s := Run(ProcessorOf(h, chain), FIRST_STATE, events);
            && FoldOf(h, chain, s.checkpoint, s.tables)
            && s.nextBlock == s.checkpoint
            && s.lastBlockProcessed == s.checkpoint - 1
  {
    ValidChainComposes(h, chain);
    RunKeepsExactlyOnce(ProcessorOf(h, chain), TablesOf(h, chain), |chain|, events);
    AfterIsFold(h, chain, Run(ProcessorOf(h, chain), FIRST_STATE, events).checkpoint);
  }

  /** Two runs that reach the same checkpoint hold the same tables, whatever happened on the way. */
  lemma CheckpointDeterminesTables(h: PartitionHash, chain: Blocks, one: seq<LoopEvent>, other: seq<LoopEvent>)
    requires ValidBlocks(h, chain)
    requires Run(ProcessorOf(h, chain), FIRST_STATE, one).checkpoint ==
             Run(ProcessorOf(h, chain), FIRST_STATE, other).checkpoint
    ensures Run(ProcessorOf(h, chain), FIRST_STATE, one) == Run(ProcessorOf(h, chain), FIRST_STATE, other)
  {
    ValidChainComposes(h, chain);
    RunKeepsExactlyOnce(ProcessorOf(h, chain), TablesOf(h, chain), |chain|, one);
    RunKeepsExactlyOnce(ProcessorOf(h, chain), TablesOf(h, chain), |chain|, other);
  }

  // ------------------------------------------------------- the loop as it is

  class Ingestion {
    const store: WindowDb
    const chain: Blocks
    ghost const p: Processor // the transaction of `store` over `chain`
    var nextBlock: nat
    var lastBlockProcessed: int
    var consecutiveFailures: nat

    ghost function State(): LoopState
      reads this, store.db, store.auctions
    {
      LoopState(store.Contents(), store.db.checkpoint, nextBlock, lastBlockProcessed)
    }

    /** `p` is what `store` does. */
    ghost predicate Runs() {
      && (forall t: Whole, from: nat, to: nat {:trigger ProcessBlocks(store.db.h, t, chain[from..to])} |
            from <= to <= |chain| :: p(t, from, to) == ProcessBlocks(store.db.h, t, chain[from..to]))
      && (forall t: Whole, from: nat, to: nat | to > |chain| :: p(t, from, to).Failure?)
    }

    ghost predicate Valid(at: nat -> Whole)
      reads this, store.db, store.auctions
    {
      && Runs() && Composes(p, at, |chain|)
      && ExactlyOnce(at, |chain|, State())
    }

    /** A new loop over an existing database: after a crash the variables come from the checkpoint. */
    constructor (store: WindowDb, chain: Blocks)
      ensures this.store == store && this.chain == chain && consecutiveFailures == 0
      ensures p == ProcessorOf(store.db.h, chain) && Runs()
      ensures nextBlock == store.db.checkpoint && lastBlockProcessed == store.db.checkpoint - 1
    {
      this.store, this.chain := store, chain;
      p := ProcessorOf(store.db.h, chain);
      nextBlock := store.db.checkpoint;
      lastBlockProcessed := store.db.checkpoint - 1;
      consecutiveFailures := 0;
    }

    /** One transaction; a missing checkpoint block or an error of the transaction is a throw. */
    method ProcessWindow(w: Window) returns (committed: bool)
      requires w.from <= w.to && Runs()
      modifies this`nextBlock, this`lastBlockProcessed, store.db, store.auctions
      ensures State() == CommitWindow(p, old(State()), w)
      ensures committed <==> p(old(store.Contents()), w.from, w.to + 1).Success?
    {
      CommitIs(p, State(), w, p(store.Contents(), w.from, w.to + 1));
      if w.to >= |chain| {
        return false;
      }
      committed := store.ProcessRange(chain[w.from..w.to+1], w.to + 1);
      if !committed {
        return;
      }
      nextBlock := w.to + 1;
      lastBlockProcessed := w.to;
    }

    /** One turn of the loop towards `latest`; `None` is a throw, `Some(false)` the end of the loop. */
    method Turn(latest: nat, outages: set<nat>, ghost at: nat -> Whole) returns (outcome: Option<bool>)
      requires Valid(at)
      modifies this`nextBlock, this`lastBlockProcessed, store.db, store.auctions
      ensures Valid(at)
      ensures outcome == Some(false) <==> latest < old(nextBlock)
      ensures outcome == Some(true) ==>
        State() == Step(p, old(State()), Tick(latest)) && old(nextBlock) < nextBlock <= latest + 1
      ensures outcome != Some(true) ==> State() == old(State())
      ensures outages == {} && latest < |chain| ==> outcome != None
    {
      var window := ComputeIngestionWindow(nextBlock, latest);
      if window.None? {
        return Some(false);
      }
      WindowOfTick(p, at, |chain|, State(), latest, window.value);
      if window.value.from in outages {
        return None;
      }
      var committed := ProcessWindow(window.value);
      return if committed then Some(true) else None;
    }

    /** `outages` are the blocks at which an RPC call of the window throws; `head` is the chain head.
        `at` gives the tables block by block, as `ValidChainComposes` provides them. */
    method ProcessTo(target: Option<nat>, head: nat, outages: set<nat>, ghost at: nat -> Whole)
      returns (caughtUp: bool, ghost trace: seq<LoopEvent>)
      requires Valid(at)
      modifies this, store.db, store.auctions
      ensures Valid(at) && State() == Run(p, old(State()), trace)
      ensures caughtUp <==> Goal(target, head) < store.db.checkpoint
      ensures caughtUp ==> store.db.checkpoint == Max(old(store.db.checkpoint), Goal(target, head) + 1)
      ensures !caughtUp ==> old(store.db.checkpoint) <= store.db.checkpoint <= Goal(target, head)
      ensures outages == {} && Goal(target, head) < |chain| ==> caughtUp
      ensures consecutiveFailures == if caughtUp then 0 else old(consecutiveFailures) + 1
    {
      var latest := Goal(target, head);
      trace := [];
      while true
        invariant Valid(at) && State() == Run(p, old(State()), trace)
        invariant old(nextBlock) <= nextBlock
        invariant nextBlock <= latest + 1 || nextBlock == old(nextBlock)
        invariant consecutiveFailures == old(consecutiveFailures)
        decreases latest - nextBlock
      {
        var outcome := Turn(latest, outages, at);
        if outcome == Some(false) {
          break;
        }
        if outcome == None {
          consecutiveFailures := consecutiveFailures + 1;
          caughtUp := false;
          return;
        }
        assert outcome.Some? && outcome.value;
        assert (trace + [Tick(latest)])[..|trace|] == trace;
        trace := trace + [Tick(latest)];
      }
      consecutiveFailures := 0;
      caughtUp := target.None? || lastBlockProcessed >= target.value;
    }

    /** `timedOut` says whether the request's own wait ran out first; the queued work goes on. */
    method AdvanceProjectionTo(target: nat, outages: set<nat>, timedOut: bool, ghost at: nat -> Whole)
      returns (projected: bool)
      requires Valid(at)
      modifies this, store.db, store.auctions
      ensures Valid(at)
      ensures projected ==> target < store.db.checkpoint <= |chain|
      ensures target < old(store.db.checkpoint) ==> projected
      ensures outages == {} && target < |chain| && !timedOut ==> projected
    {
      if lastBlockProcessed >= target {
        return true;
      }
      var caughtUp, _ := ProcessTo(Some(target), 0, outages, at);
      return caughtUp && !timedOut;
    }
  }

  function Goal(target: Option<nat>, head: nat): nat {
    if target.Some? then target.value else head
  }

  function Max(a: nat, b: nat): nat {
    if a < b then b else a
  }
}
