/**
 The queue that background polling and request-driven catch-up share: `processTo` runs are chained one after another,
 and a request learns from its own run whether its block is in the committed projection.
 */
module IngestionQueue {
  import opened Prelude
  import opened PromiseChain
  import opened Projection
  import opened WholeProjection
  import opened IngestionLoop

  /** A job inside is one run of `processTo` towards the block that its stage names. */
  datatype State = State(jobs: Callers<nat>, targets: seq<Option<nat>>, answers: seq<Option<bool>>, loop: LoopState)

  datatype Event =
    | Enqueue(target: Option<nat>)
    | Start(j: nat, head: nat)         // the tail has settled; `head` is the node's block number
    | StartFails(j: nat)               // the block number cannot be read
    | WindowOf(j: nat, outage: bool)   // one window of the loop, or a throw on the way to its transaction
    | Finish(j: nat)

  predicate MayStart(s: State, j: nat) {
    j < |s.jobs| && s.jobs[j].Waiting? && QueueSettled(s.jobs, j)
  }

  predicate Running(s: State, j: nat) {
    j < |s.jobs| && s.jobs[j].Inside?
  }

  predicate Wellformed(s: State) {
    |s.jobs| == |s.targets| == |s.answers|
  }

  function NextWindow(s: State, j: nat): Option<Window>
    requires Running(s, j)
  {
    ComputeIngestionWindow(s.loop.nextBlock, s.jobs[j].stage)
  }

  predicate Enabled(s: State, e: Event) {
    && Wellformed(s)
    && match e
       case Enqueue(_) => true
       case Start(j, _) => MayStart(s, j)
       case StartFails(j) => MayStart(s, j) && s.targets[j] == None
       case WindowOf(j, _) => Running(s, j) && NextWindow(s, j).Some?
       case Finish(j) => Running(s, j) && NextWindow(s, j).None?
  }

  function Answer(s: State, j: nat, answer: bool): State
    requires Wellformed(s) && j < |s.jobs|
  {
    s.(jobs := s.jobs[j := Released], answers := s.answers[j := Some(answer)])
  }

  /** The transaction of the window throws. */
  predicate Throws(p: Processor, loop: LoopState, w: Window) {
    p(loop.tables, w.from, w.to + 1).Failure?
  }

  function Next(p: Processor, s: State, e: Event): State
    requires Enabled(s, e)
  {
    match e
    case Enqueue(target) =>
      s.(jobs := s.jobs + [Waiting], targets := s.targets + [target], answers := s.answers + [None])
    case Start(j, head) => s.(jobs := s.jobs[j := Inside(Goal(s.targets[j], head))])
    case StartFails(j) => Answer(s, j, false)
    case WindowOf(j, outage) =>
      if outage || Throws(p, s.loop, NextWindow(s, j).value) then Answer(s, j, false)
      else s.(loop := CommitWindow(p, s.loop, NextWindow(s, j).value))
    case Finish(j) => Answer(s, j, s.targets[j].None? || s.loop.lastBlockProcessed >= s.targets[j].value)
  }

  // ------------------------------------------------------------------ invariant

  /** A job that answered yes to a target has it in the committed tables. */
  ghost predicate AnswersHold(s: State) {
    forall j | 0 <= j < |s.answers| && j < |s.targets| ::
      s.answers[j] == Some(true) && s.targets[j].Some? ==> s.targets[j].value < s.loop.checkpoint
  }

  /** Exactly the jobs that are over have been answered. */
  ghost predicate AllAnswered(s: State)
    requires Wellformed(s)
  {
    forall j | 0 <= j < |s.jobs| :: s.jobs[j].Released? <==> s.answers[j].Some?
  }

  ghost predicate Sane(at: nat -> Whole, height: nat, s: State) {
    Wellformed(s) && InOrder(s.jobs) && ExactlyOnce(at, height, s.loop) && AnswersHold(s) && AllAnswered(s)
  }

  /** The loop never goes back. */
  ghost predicate NotBefore(s: State, t: State) {
    s.loop.lastBlockProcessed <= t.loop.lastBlockProcessed && s.loop.checkpoint <= t.loop.checkpoint
  }

  /** A committed window is a tick of the loop. */
  lemma WindowIsTick(p: Processor, at: nat -> Whole, height: nat, loop: LoopState, latest: nat)
    requires Composes(p, at, height) && ExactlyOnce(at, height, loop)
    requires ComputeIngestionWindow(loop.nextBlock, latest).Some?
    ensures var t := CommitWindow(p, loop, ComputeIngestionWindow(loop.nextBlock, latest).value);
            && ExactlyOnce(at, height, t)
            && loop.checkpoint <= t.checkpoint && loop.lastBlockProcessed <= t.lastBlockProcessed
  {
    StepKeepsExactlyOnce(p, at, height, loop, Tick(latest));
  }

  lemma JobInTurn(s: State, j: nat)
    requires InOrder(s.jobs) && (Running(s, j) || MayStart(s, j))
    ensures AllReleased(s.jobs, j)
  {
    SettledExactly(s.jobs, j);
  }

  lemma NextKeepsSane(p: Processor, at: nat -> Whole, height: nat, s: State, e: Event)
    requires Composes(p, at, height) && Sane(at, height, s) && Enabled(s, e)
    ensures Sane(at, height, Next(p, s, e))
    ensures NotBefore(s, Next(p, s, e))
  {
    var t := Next(p, s, e);
    if e.Enqueue? {
      ArriveKeepsOrder(s.jobs);
    } else {
      JobInTurn(s, e.j);
      AdvanceKeepsOrder(s.jobs, e.j, t.jobs[e.j]);
      assert s.jobs[e.j := t.jobs[e.j]] == t.jobs;
      if e.WindowOf? { WindowIsTick(p, at, height, s.loop, s.jobs[e.j].stage); }
    }
  }

  function After(p: Processor, s: State, events: seq<Event>): Option<State> {
    if events == [] then Some(s)
    else
      match After(p, s, events[..|events|-1])
      case None => None
      case Some(t) => if Enabled(t, events[|events|-1]) then Some(Next(p, t, events[|events|-1])) else None
  }

  const EMPTY := State([], [], [], FIRST_STATE)

  lemma {:induction false} RunIsSane(p: Processor, at: nat -> Whole, height: nat, s: State, events: seq<Event>)
    requires Composes(p, at, height) && Sane(at, height, s) && After(p, s, events).Some?
    ensures Sane(at, height, After(p, s, events).value) && NotBefore(s, After(p, s, events).value)
  {
    if events != [] {
      RunIsSane(p, at, height, s, events[..|events|-1]);
      NextKeepsSane(p, at, height, After(p, s, events[..|events|-1]).value, events[|events|-1]);
    }
  }

  /** What `advanceProjectionTo(block)` may rely on when it returns true: the loop is past the block already, or a run
      towards the block has answered yes. */
  ghost predicate Advanced(s: State, block: nat) {
    || s.loop.lastBlockProcessed >= block
    || exists j | 0 <= j < |s.answers| && j < |s.targets| :: s.answers[j] == Some(true) && s.targets[j] == Some(block)
  }

  /** Over every interleaving of polling and catch-up: at most one `processTo` runs, jobs start in the order in which
      they were enqueued, the loop holds exactly the blocks before its checkpoint, and an advance that returns true
      finds its block among them. */
  lemma QueueSafe(p: Processor, at: nat -> Whole, height: nat, events: seq<Event>, block: nat)
    requires Composes(p, at, height) && at(0) == NOTHING_YET && After(p, EMPTY, events).Some?
    ensures var s := After(p, EMPTY, events).value;
            && (forall i, j | 0 <= i < |s.jobs| && 0 <= j < |s.jobs| ::
                  s.jobs[i].Inside? && s.jobs[j].Inside? ==> i == j)
            && (forall i, j | 0 <= i < j < |s.jobs| :: !s.jobs[j].Waiting? ==> s.jobs[i].Released?)
            && ExactlyOnce(at, height, s.loop)
            && (Advanced(s, block) ==> block < s.loop.checkpoint)
  {
    RunIsSane(p, at, height, EMPTY, events);
    var s := After(p, EMPTY, events).value;
    forall i, j | 0 <= i < |s.jobs| && 0 <= j < |s.jobs| && s.jobs[i].Inside? && s.jobs[j].Inside?
      ensures i == j
    {
      MutualExclusion(s.jobs, i, j);
    }
    forall i, j | 0 <= i < j < |s.jobs| && !s.jobs[j].Waiting? ensures s.jobs[i].Released? {
      assert AllReleased(s.jobs, j);
    }
  }

  /** Once an advance to a block has returned true, the block stays in the projection, whatever runs later. */
  lemma AdvancedForGood(p: Processor, at: nat -> Whole, height: nat, events: seq<Event>, later: seq<Event>, block: nat)
    requires Composes(p, at, height) && at(0) == NOTHING_YET && After(p, EMPTY, events).Some?
    requires var s := After(p, EMPTY, events).value; Advanced(s, block) && After(p, s, later).Some?
    ensures var t := After(p, After(p, EMPTY, events).value, later).value;
            block < t.loop.checkpoint && t.loop.tables == at(t.loop.checkpoint)
  {
    QueueSafe(p, at, height, events, block);
    RunIsSane(p, at, height, EMPTY, events);
    RunIsSane(p, at, height, After(p, EMPTY, events).value, later);
  }

  /** On a valid chain the tables are then the fold of the blocks before the checkpoint. */
  lemma QueueOverChain(h: PartitionHash, chain: Blocks, events: seq<Event>, block: nat)
    requires ValidBlocks(h, chain) && After(ProcessorOf(h, chain), EMPTY, events).Some?
    ensures var s := After(ProcessorOf(h, chain), EMPTY, events).value;
            && FoldOf(h, chain, s.loop.checkpoint, s.loop.tables)
            && (Advanced(s, block) ==> block < s.loop.checkpoint)
  {
    ValidChainComposes(h, chain);
    QueueSafe(ProcessorOf(h, chain), TablesOf(h, chain), |chain|, events, block);
    AfterIsFold(h, chain, After(ProcessorOf(h, chain), EMPTY, events).value.loop.checkpoint);
  }

  // ------------------------------------------------------------------- progress

  /** The queue cannot get stuck: unless every job has been answered, some job can take a step. */
  lemma NeverStuck(at: nat -> Whole, height: nat, s: State) returns (e: Event)
    requires Sane(at, height, s) && !AllReleased(s.jobs, |s.jobs|)
    ensures !e.Enqueue? && Enabled(s, e)
  {
    var j := SomebodyMoves(s.jobs, 0);
    SettledExactly(s.jobs, j);
    if s.jobs[j].Waiting? {
      e := Start(j, 0);
    } else {
      e := if NextWindow(s, j).Some? then WindowOf(j, false) else Finish(j);
    }
  }

  /** The starts and ends that these jobs still need. */
  function Turns(jobs: Callers<nat>): nat {
    if jobs == [] then 0
    else Turns(jobs[..|jobs|-1]) + match jobs[|jobs|-1] case Waiting => 2 case Inside(_) => 1 case Released => 0
  }

  lemma {:induction false} TurnsUpdate(jobs: Callers<nat>, i: nat, c: Phase<nat>)
    requires i < |jobs| && ((jobs[i].Waiting? && c.Inside?) || (!jobs[i].Released? && c.Released?))
    ensures Turns(jobs[i := c]) < Turns(jobs)
  {
    var n := |jobs| - 1;
    if i < n {
      TurnsUpdate(jobs[..n], i, c);
      assert jobs[i := c][..n] == jobs[..n][i := c];
    } else {
      assert jobs[i := c][..n] == jobs[..n];
    }
  }

  /** No job up to `j` that is running or has a target, and no head the node reports, is beyond `top`. */
  ghost predicate Within(s: State, j: nat, top: nat)
    requires Wellformed(s)
  {
    forall i | 0 <= i <= j && i < |s.jobs| ::
      && (s.targets[i].Some? ==> s.targets[i].value <= top)
      && (s.jobs[i].Inside? ==> s.jobs[i].stage <= top)
  }

  ghost predicate HeadsWithin(events: seq<Event>, top: nat) {
    forall e <- events :: e.Start? ==> e.head <= top
  }

  /** A bound on the steps until job `j` is answered: its own and its predecessors' turns, and one window for each block
      up to `top` that is not ingested yet. */
  function Patience(s: State, j: nat, top: nat): nat
    requires j < |s.jobs|
  {
    Turns(s.jobs[..j+1]) + if s.loop.nextBlock <= top then top + 1 - s.loop.nextBlock else 0
  }

  /** A window that does not answer its job brings the loop forward, but not beyond the job's goal. */
  lemma WindowsRunOut(p: Processor, s: State, j: nat, outage: bool)
    requires Enabled(s, WindowOf(j, outage))
    ensures var t := Next(p, s, WindowOf(j, outage));
            || (t.loop == s.loop && t.jobs == s.jobs[j := Released])
            || (t.jobs == s.jobs && s.loop.nextBlock < t.loop.nextBlock <= s.jobs[j].stage + 1)
  {
  }

  lemma StaysWithin(p: Processor, s: State, e: Event, j: nat, top: nat)
    requires Enabled(s, e) && j < |s.jobs| && Within(s, j, top) && HeadsWithin([e], top)
    ensures j < |Next(p, s, e).jobs| && Within(Next(p, s, e), j, top)
  {
    assert e in [e];
  }

  /** Until job `j` is answered, every step but an enqueuing uses up its patience; once answered, it stays so. */
  lemma StepsUsePatience(
    p: Processor, at: nat -> Whole, height: nat, s: State, e: Event, j: nat, top: nat)
    requires Sane(at, height, s) && Enabled(s, e) && j < |s.jobs| && Within(s, j, top) && HeadsWithin([e], top)
    ensures j < |Next(p, s, e).jobs|
    ensures s.jobs[j].Released? ==> Next(p, s, e).jobs[j].Released?
    ensures !s.jobs[j].Released? ==>
              Patience(Next(p, s, e), j, top) + (if e.Enqueue? then 0 else 1) <= Patience(s, j, top)
  {
    var t := Next(p, s, e);
    var ahead := s.jobs[..j+1];
    if e.Enqueue? {
      assert t.jobs[..j+1] == ahead;
    } else {
      JobInTurn(s, e.j);
      if !s.jobs[j].Released? {
        assert e.j <= j;
        if e.WindowOf? { WindowsRunOut(p, s, e.j, e.outage); }
        if t.jobs == s.jobs {
          assert s.loop.nextBlock < t.loop.nextBlock <= top + 1;
        } else {
          assert t.jobs[..j+1] == ahead[e.j := t.jobs[e.j]];
          TurnsUpdate(ahead, e.j, t.jobs[e.j]);
        }
      }
    }
  }

  function Steps(events: seq<Event>): nat {
    if events == [] then 0 else Steps(events[..|events|-1]) + if events[|events|-1].Enqueue? then 0 else 1
  }

  lemma {:induction false} PatienceRunsOut(
    p: Processor, at: nat -> Whole, height: nat, s: State, events: seq<Event>, j: nat, top: nat)
    requires Composes(p, at, height) && Sane(at, height, s) && After(p, s, events).Some?
    requires j < |s.jobs| && Within(s, j, top) && HeadsWithin(events, top)
    ensures var t := After(p, s, events).value;
            && Wellformed(t) && j < |t.jobs| && Within(t, j, top)
            && (t.jobs[j].Released? || Steps(events) + Patience(t, j, top) <= Patience(s, j, top))
  {
    if events != [] {
      var init, last := events[..|events|-1], events[|events|-1];
      PatienceRunsOut(p, at, height, s, init, j, top);
      RunIsSane(p, at, height, s, init);
      var t := After(p, s, init).value;
      assert HeadsWithin([last], top) by { assert last in events; }
      StaysWithin(p, t, last, j, top);
      StepsUsePatience(p, at, height, t, last, j, top);
    }
  }

  lemma {:induction false} NoTurnsLeft(jobs: Callers<nat>)
    ensures Turns(jobs) == 0 ==> AllReleased(jobs, |jobs|)
  {
    if jobs != [] {
      NoTurnsLeft(jobs[..|jobs|-1]);
      if Turns(jobs) == 0 {
        forall i | 0 <= i < |jobs| ensures jobs[i].Released? {
          if i < |jobs| - 1 { assert jobs[..|jobs|-1][i].Released?; }
        }
      }
    }
  }

  /** Every job is answered, whatever is enqueued behind it: after boundedly many steps, namely the turns of the jobs up
      to it and at most one window for each block still to ingest; and until then one of those jobs can take a step. */
  lemma EveryJobIsAnswered(
    p: Processor, at: nat -> Whole, height: nat, before: seq<Event>, events: seq<Event>, j: nat, top: nat)
    requires Composes(p, at, height) && at(0) == NOTHING_YET && After(p, EMPTY, before).Some?
    requires After(p, After(p, EMPTY, before).value, events).Some?
    requires Wellformed(After(p, EMPTY, before).value) && j < |After(p, EMPTY, before).value.jobs|
    requires Within(After(p, EMPTY, before).value, j, top) && HeadsWithin(events, top)
    ensures var s := After(p, EMPTY, before).value;
            var t := After(p, s, events).value;
            && j < |t.answers| && Wellformed(t)
            && (Steps(events) >= Patience(s, j, top) ==> t.answers[j].Some?)
            && (t.answers[j].None? ==> exists e: Event :: !e.Enqueue? && Enabled(t, e) && e.j <= j)
  {
    var s := After(p, EMPTY, before).value;
    var t := After(p, s, events).value;
    RunIsSane(p, at, height, EMPTY, before);
    RunIsSane(p, at, height, s, events);
    PatienceRunsOut(p, at, height, s, events, j, top);
    NoTurnsLeft(t.jobs[..j+1]);
    if !t.jobs[j].Released? {
      assert t.jobs[..j+1][j] == t.jobs[j];
      var e := NeverStuck(at, height, t);
      JobInTurn(t, e.j);
    }
  }

  // -------------------------------------------------------------------- the answer

  /** The event by which job `j` fails: the head cannot be read, a call of a window throws, or its transaction does. */
  predicate Fails(p: Processor, s: State, e: Event, j: nat) {
    || e == StartFails(j)
    || (&& e.WindowOf? && e.j == j && Enabled(s, e)
        && (e.outage || p(s.loop.tables, NextWindow(s, j).value.from, NextWindow(s, j).value.to + 1).Failure?))
  }

  ghost predicate FailsAt(p: Processor, events: seq<Event>, i: int, j: nat) {
    && 0 <= i < |events| && After(p, EMPTY, events[..i]).Some?
    && Fails(p, After(p, EMPTY, events[..i]).value, events[i], j)
  }

  ghost predicate HasFailed(p: Processor, events: seq<Event>, j: nat) {
    exists i :: FailsAt(p, events, i, j)
  }

  /** A running job is on its way to its own target. */
  ghost predicate OnTarget(s: State)
    requires Wellformed(s)
  {
    forall j | 0 <= j < |s.jobs| :: s.jobs[j].Inside? && s.targets[j].Some? ==> s.jobs[j].stage == s.targets[j].value
  }

  /** What the answers say of the events so far. */
  ghost predicate AnswersTell(p: Processor, events: seq<Event>, s: State)
    requires Wellformed(s)
  {
    forall j | 0 <= j < |s.jobs| ::
      && (s.answers[j] == Some(false) <==> HasFailed(p, events, j))
      && (s.answers[j] == Some(true) <==> Finish(j) in events)
  }

  lemma FailedStep(p: Processor, init: seq<Event>, e: Event, j: nat)
    requires After(p, EMPTY, init).Some?
    ensures HasFailed(p, init + [e], j) <==> HasFailed(p, init, j) || Fails(p, After(p, EMPTY, init).value, e, j)
  {
    var all := init + [e];
    assert all[..|init|] == init;
    forall i | 0 <= i < |init| ensures FailsAt(p, all, i, j) <==> FailsAt(p, init, i, j) {
      assert all[..i] == init[..i];
    }
    assert FailsAt(p, all, |init|, j) <==> Fails(p, After(p, EMPTY, init).value, e, j);
    if i :| FailsAt(p, init, i, j) { assert FailsAt(p, all, i, j); }
    if i :| FailsAt(p, all, i, j) { assert i == |init| || FailsAt(p, init, i, j); }
  }

  /** One event answers its own job: no, if the job fails by it, and yes, if it finishes. */
  lemma StepAnswers(p: Processor, at: nat -> Whole, height: nat, s: State, e: Event, j: nat)
    requires Sane(at, height, s) && OnTarget(s) && Enabled(s, e) && j < |s.jobs|
    ensures var t := Next(p, s, e);
            && j < |t.answers|
            && (t.answers[j] == Some(false) <==> s.answers[j] == Some(false) || Fails(p, s, e, j))
            && (t.answers[j] == Some(true) <==> s.answers[j] == Some(true) || e == Finish(j))
  {
  }

  lemma StepOnTarget(p: Processor, s: State, e: Event)
    requires Enabled(s, e) && OnTarget(s)
    ensures OnTarget(Next(p, s, e))
  {
  }

  lemma {:induction false} NoneYet(p: Processor, events: seq<Event>, j: nat)
    requires After(p, EMPTY, events).Some? && j >= |After(p, EMPTY, events).value.jobs|
    ensures !HasFailed(p, events, j) && Finish(j) !in events
  {
    if events != [] {
      var init, e := events[..|events|-1], events[|events|-1];
      assert events == init + [e];
      NoneYet(p, init, j);
      FailedStep(p, init, e, j);
    }
  }

  lemma {:induction false} RunTells(p: Processor, at: nat -> Whole, height: nat, events: seq<Event>)
    requires Composes(p, at, height) && at(0) == NOTHING_YET && After(p, EMPTY, events).Some?
    ensures var s := After(p, EMPTY, events).value;
            Wellformed(s) && OnTarget(s) && AnswersTell(p, events, s)
  {
    if events != [] {
      var init, e := events[..|events|-1], events[|events|-1];
      assert events == init + [e];
      RunTells(p, at, height, init);
      RunIsSane(p, at, height, EMPTY, init);
      var s := After(p, EMPTY, init).value;
      var t := Next(p, s, e);
      StepOnTarget(p, s, e);
      forall j | 0 <= j < |t.jobs|
        ensures t.answers[j] == Some(false) <==> HasFailed(p, events, j)
        ensures t.answers[j] == Some(true) <==> Finish(j) in events
      {
        FailedStep(p, init, e, j);
        if j < |s.jobs| {
          StepAnswers(p, at, height, s, e, j);
        } else {
          NoneYet(p, init, j);
        }
      }
    }
  }

  /** Every answer, both ways: a job is told no exactly if the head could not be read for it, a call of one of its
      windows threw, or a transaction did; it is told yes exactly if it came to its end, and then its target, if it has
      one, is committed. */
  lemma AnswerExactly(p: Processor, at: nat -> Whole, height: nat, events: seq<Event>, j: nat)
    requires Composes(p, at, height) && at(0) == NOTHING_YET && After(p, EMPTY, events).Some?
    requires j < |After(p, EMPTY, events).value.jobs|
    ensures var s := After(p, EMPTY, events).value;
            && |s.answers| == |s.targets| == |s.jobs|
            && (s.answers[j] == Some(false) <==> HasFailed(p, events, j))
            && (s.answers[j] == Some(true) <==> Finish(j) in events)
            && (s.answers[j] == Some(true) && s.targets[j].Some? ==> s.targets[j].value < s.loop.checkpoint)
  {
    RunTells(p, at, height, events);
    RunIsSane(p, at, height, EMPTY, events);
  }

  /** The event does job `j` no harm: its head is read, its calls do not throw, and it is not asked to go beyond the
      chain. */
  predicate Harmless(e: Event, j: nat, target: Option<nat>, height: nat) {
    && e != StartFails(j) && e != WindowOf(j, true)
    && (e.Start? && e.j == j ==> (if target.Some? then target.value else e.head) < height)
  }

  ghost predicate Undisturbed(events: seq<Event>, j: nat, target: Option<nat>, height: nat) {
    forall e <- events :: Harmless(e, j, target, height)
  }

  lemma HarmlessStep(p: Processor, at: nat -> Whole, height: nat, s: State, e: Event, j: nat)
    requires Composes(p, at, height) && Sane(at, height, s) && Enabled(s, e) && j < |s.jobs|
    requires s.jobs[j].Inside? ==> s.jobs[j].stage < height
    requires Harmless(e, j, s.targets[j], height)
    ensures !Fails(p, s, e, j)
    ensures var t := Next(p, s, e);
            j < |t.jobs| && t.targets[j] == s.targets[j] && (t.jobs[j].Inside? ==> t.jobs[j].stage < height)
  {
    if e.WindowOf? && e.j == j {
      WindowOfTick(p, at, height, s.loop, s.jobs[j].stage, NextWindow(s, j).value);
    }
  }

  /** Job `j` is in `s`, has not failed, and does not go beyond the chain. */
  ghost predicate GoesWell(p: Processor, height: nat, events: seq<Event>, s: State, j: nat, target: Option<nat>) {
    && !HasFailed(p, events, j)
    && (j < |s.jobs| && j < |s.targets| && s.targets[j] == target ==> (s.jobs[j].Inside? ==> s.jobs[j].stage < height))
  }

  lemma {:induction false} UndisturbedNeverFails(
    p: Processor, at: nat -> Whole, height: nat, events: seq<Event>, j: nat, target: Option<nat>)
    requires Composes(p, at, height) && at(0) == NOTHING_YET && After(p, EMPTY, events).Some?
    requires var s := After(p, EMPTY, events).value;
             j < |s.jobs| && j < |s.targets| ==> s.targets[j] == target
    requires Undisturbed(events, j, target, height)
    ensures GoesWell(p, height, events, After(p, EMPTY, events).value, j, target)
  {
    if events != [] {
      var init, e := events[..|events|-1], events[|events|-1];
      assert events == init + [e];
      assert Undisturbed(init, j, target, height) && Harmless(e, j, target, height) by {
        assert forall d <- init :: d in events;
        assert e in events;
      }
      FailedStep(p, init, e, j);
      RunIsSane(p, at, height, EMPTY, init);
      var s := After(p, EMPTY, init).value;
      if j < |s.jobs| {
        assert Next(p, s, e).targets[j] == s.targets[j];
        UndisturbedNeverFails(p, at, height, init, j, target);
        HarmlessStep(p, at, height, s, e, j);
      } else {
        NoneYet(p, init, j);
        NewJobWaits(p, s, e, j);
      }
    }
  }

  /** A job that was not there before is waiting, and nothing has failed for it. */
  lemma NewJobWaits(p: Processor, s: State, e: Event, j: nat)
    requires Enabled(s, e) && j >= |s.jobs|
    ensures !Fails(p, s, e, j)
    ensures j < |Next(p, s, e).jobs| ==> Next(p, s, e).jobs[j].Waiting?
  {
  }

  lemma UndisturbedIsToldYes(p: Processor, at: nat -> Whole, height: nat, events: seq<Event>, j: nat)
    requires Composes(p, at, height) && at(0) == NOTHING_YET && After(p, EMPTY, events).Some?
    requires var s := After(p, EMPTY, events).value;
             Wellformed(s) && j < |s.jobs| && s.answers[j].Some? && Undisturbed(events, j, s.targets[j], height)
    ensures After(p, EMPTY, events).value.answers[j] == Some(true)
  {
    UndisturbedNeverFails(p, at, height, events, j, After(p, EMPTY, events).value.targets[j]);
    AnswerExactly(p, at, height, events, j);
  }

  /** An undisturbed job succeeds: it is told yes after boundedly many steps, whatever is enqueued behind it and
      however the other jobs fare. */
  lemma UndisturbedSucceeds(
    p: Processor, at: nat -> Whole, height: nat, before: seq<Event>, events: seq<Event>, j: nat, top: nat)
    requires Composes(p, at, height) && at(0) == NOTHING_YET && After(p, EMPTY, before).Some?
    requires After(p, After(p, EMPTY, before).value, events).Some?
    requires Wellformed(After(p, EMPTY, before).value) && j < |After(p, EMPTY, before).value.jobs|
    requires Within(After(p, EMPTY, before).value, j, top) && HeadsWithin(events, top)
    requires Undisturbed(before + events, j, After(p, EMPTY, before).value.targets[j], height)
    requires Steps(events) >= Patience(After(p, EMPTY, before).value, j, top)
    ensures var t := After(p, After(p, EMPTY, before).value, events).value;
            j < |t.answers| && t.answers[j] == Some(true)
  {
    EveryJobIsAnswered(p, at, height, before, events, j, top);
    AfterAppend(p, EMPTY, before, events);
    TargetsStay(p, After(p, EMPTY, before).value, events, j);
    UndisturbedIsToldYes(p, at, height, before + events, j);
  }

  lemma {:induction false} AfterAppend(p: Processor, s: State, a: seq<Event>, b: seq<Event>)
    requires After(p, s, a).Some?
    ensures After(p, s, a + b) == After(p, After(p, s, a).value, b)
  {
    if b == [] {
      assert a + b == a;
    } else {
      AfterAppend(p, s, a, b[..|b|-1]);
      assert (a + b)[..|a + b|-1] == a + b[..|b|-1];
    }
  }

  lemma {:induction false} TargetsStay(p: Processor, s: State, events: seq<Event>, j: nat)
    requires Wellformed(s) && j < |s.jobs| && After(p, s, events).Some?
    ensures var t := After(p, s, events).value;
            Wellformed(t) && j < |t.jobs| && t.targets[j] == s.targets[j]
  {
    if events != [] { TargetsStay(p, s, events[..|events|-1], j); }
  }

  // --------------------------------------------------------------------- crashes

  /** The process dies: its jobs and answers with it. A new queue starts over the same database. */
  function Crashed(s: State): State {
    State([], [], [], Restarted(s.loop))
  }

  /** Lives of the process, a crash between each and the next. */
  function Lives(p: Processor, lives: seq<seq<Event>>): Option<State> {
    if lives == [] then Some(EMPTY)
    else
      match Lives(p, lives[..|lives|-1])
      case None => None
      case Some(s) => After(p, Crashed(s), lives[|lives|-1])
  }

  lemma CrashKeepsSane(at: nat -> Whole, height: nat, s: State)
    requires Sane(at, height, s)
    ensures Sane(at, height, Crashed(s)) && NotBefore(s, Crashed(s))
  {
  }

  /** `t` keeps the committed blocks of `s`, and those that an advance was told of. */
  ghost predicate Remembers(s: State, t: State) {
    NotBefore(s, t) && forall block: nat :: Advanced(s, block) ==> block < t.loop.checkpoint
  }

  lemma NextLifeIsSane(p: Processor, at: nat -> Whole, height: nat, before: State, events: seq<Event>)
    requires Composes(p, at, height) && Sane(at, height, before) && After(p, Crashed(before), events).Some?
    ensures Sane(at, height, After(p, Crashed(before), events).value)
    ensures Remembers(before, After(p, Crashed(before), events).value)
  {
    CrashKeepsSane(at, height, before);
    RunIsSane(p, at, height, Crashed(before), events);
  }

  /** Through any number of crashes the queue is sound and the loop never goes back, so a block that was committed, and
      a block that an advance was told of before a crash, stays. */
  lemma {:induction false} LivesAreSane(p: Processor, at: nat -> Whole, height: nat, lives: seq<seq<Event>>)
    requires Composes(p, at, height) && at(0) == NOTHING_YET && Lives(p, lives).Some?
    ensures Sane(at, height, Lives(p, lives).value)
    ensures lives != [] && Lives(p, lives[..|lives|-1]).Some? ==>
              Remembers(Lives(p, lives[..|lives|-1]).value, Lives(p, lives).value)
    decreases |lives|
  {
    if lives != [] {
      var init := lives[..|lives|-1];
      LivesAreSane(p, at, height, init);
      NextLifeIsSane(p, at, height, Lives(p, init).value, lives[|lives|-1]);
    }
  }
}
