/**
 Sending with a managed nonce: under the lock, a caller reads the cached nonce or fetches the account's pending count,
 broadcasts, waits, and leaves the next nonce in the cache, or empties it after any failure.

 Assumed of the environment: only this service sends from the account, and the node's pending count counts exactly
 the transactions broadcast so far.
 */
module NonceProtocol {
  import opened Prelude
  import opened PromiseChain

  datatype Stage = Start | Ready(nonce: nat) | Sent(nonce: nat)

  datatype State = State(callers: Callers<Stage>, cached: Option<nat>, pending: nat, broadcasts: seq<nat>)

  datatype Event =
    | Arrive
    | Enter(i: nat)        // the awaited tail has settled
    | FetchFails(i: nat)   // the address or the pending count cannot be read
    | TakeNonce(i: nat)    // from the cache, or from the node
    | FailsUnsent(i: nat)  // `send` throws before the node has the transaction
    | Broadcast(i: nat)
    | Confirmed(i: nat)
    | FailsSent(i: nat)    // `send` or `wait` throws although the node has the transaction

  predicate At(s: State, i: nat, stage: Stage -> bool) {
    i < |s.callers| && s.callers[i].Inside? && stage(s.callers[i].stage)
  }

  predicate Enabled(s: State, e: Event) {
    match e
    case Arrive => true
    case Enter(i) => i < |s.callers| && s.callers[i].Waiting? && LockSettled(s.callers, i)
    case FetchFails(i) => At(s, i, (stage: Stage) => stage.Start?)
    case TakeNonce(i) => At(s, i, (stage: Stage) => stage.Start?)
    case FailsUnsent(i) => At(s, i, (stage: Stage) => stage.Ready?)
    case Broadcast(i) => At(s, i, (stage: Stage) => stage.Ready?)
    case Confirmed(i) => At(s, i, (stage: Stage) => stage.Sent?)
    case FailsSent(i) => At(s, i, (stage: Stage) => stage.Sent?)
  }

  /** What the code does between two suspension points. */
  function Next(s: State, e: Event): State
    requires Enabled(s, e)
  {
    match e
    case Arrive => s.(callers := s.callers + [Waiting])
    case Enter(i) => s.(callers := s.callers[i := Inside(Start)])
    case FetchFails(i) => s.(callers := s.callers[i := Released])
    case TakeNonce(i) =>
      var nonce := if s.cached.Some? then s.cached.value else s.pending;
      s.(callers := s.callers[i := Inside(Ready(nonce))], cached := Some(nonce))
    case FailsUnsent(i) => s.(callers := s.callers[i := Released], cached := None)
    case Broadcast(i) =>
      var nonce := s.callers[i].stage.nonce;
      s.(callers := s.callers[i := Inside(Sent(nonce))], broadcasts := s.broadcasts + [nonce],
         pending := if nonce == s.pending then s.pending + 1 else s.pending)
    case Confirmed(i) =>
      s.(callers := s.callers[i := Released], cached := Some(s.callers[i].stage.nonce + 1))
    case FailsSent(i) => s.(callers := s.callers[i := Released], cached := None)
  }

  // ------------------------------------------------------------------ invariant

  /** The nonces used so far are the consecutive numbers from `first` up to the pending count. */
  ghost predicate Consecutive(s: State, first: nat) {
    && first + |s.broadcasts| == s.pending
    && forall k | 0 <= k < |s.broadcasts| :: s.broadcasts[k] == first + k
  }

  ghost predicate StageFits(s: State, c: Phase<Stage>) {
    match c
    case Inside(Ready(n)) => n == s.pending && s.cached == Some(n)
    case Inside(Sent(n)) => n + 1 == s.pending && s.cached == Some(n)
    case _ => true
  }

  predicate Midway(c: Phase<Stage>) {
    c.Inside? && !c.stage.Start?
  }

  /** Between two sends the cache is empty or holds the pending count. */
  ghost predicate CacheFits(s: State) {
    (forall i | 0 <= i < |s.callers| :: !Midway(s.callers[i])) ==> s.cached == None || s.cached == Some(s.pending)
  }

  ghost predicate Orderly(s: State, first: nat) {
    && InOrder(s.callers) && Consecutive(s, first) && CacheFits(s)
    && forall i | 0 <= i < |s.callers| :: StageFits(s, s.callers[i])
  }

  lemma InTurn(s: State, e: Event, first: nat)
    requires Orderly(s, first) && Enabled(s, e) && !e.Arrive?
    ensures AllReleased(s.callers, e.i) && !s.callers[e.i].Released?
    ensures forall j | 0 <= j < |s.callers| && j != e.i :: !s.callers[j].Inside?
  {
    if e.Enter? { LockSettledExactly(s.callers, e.i); }
    forall j | 0 <= j < |s.callers| && j != e.i ensures !s.callers[j].Inside? {
      assert !s.callers[j].Waiting? ==> AllReleased(s.callers, j);
    }
  }

  /** Every event keeps the protocol orderly. */
  lemma NextKeepsOrderly(s: State, e: Event, first: nat)
    requires Orderly(s, first) && Enabled(s, e)
    ensures Orderly(Next(s, e), first)
  {
    var t := Next(s, e);
    if e.Arrive? {
      ArriveKeepsOrder(s.callers);
      if forall i | 0 <= i < |t.callers| :: !Midway(t.callers[i]) {
        assert forall i | 0 <= i < |s.callers| :: s.callers[i] == t.callers[i];
      }
    } else {
      InTurn(s, e, first);
      AdvanceKeepsOrder(s.callers, e.i, t.callers[e.i]);
      assert StageFits(s, s.callers[e.i]);
      assert e.Enter? || e.TakeNonce? || e.FetchFails? ==> !Midway(s.callers[e.i]);
    }
  }

  function After(s: State, events: seq<Event>): Option<State> {
    if events == [] then Some(s)
    else
      match After(s, events[..|events|-1])
      case None => None
      case Some(t) => if Enabled(t, events[|events|-1]) then Some(Next(t, events[|events|-1])) else None
  }

  function Initial(pending: nat): State {
    State([], None, pending, [])
  }

  lemma {:induction false} RunIsOrderly(pending: nat, events: seq<Event>)
    requires After(Initial(pending), events).Some?
    ensures Orderly(After(Initial(pending), events).value, pending)
  {
    if events != [] {
      RunIsOrderly(pending, events[..|events|-1]);
      NextKeepsOrderly(After(Initial(pending), events[..|events|-1]).value, events[|events|-1], pending);
    }
  }

  /** Over every interleaving of callers and outcomes: at most one caller is in the critical section, callers enter in
      the order of their arrival, and the nonces broadcast are the account's own, one after the other. */
  lemma NonceProtocolSafe(pending: nat, events: seq<Event>)
    requires After(Initial(pending), events).Some?
    ensures var s := After(Initial(pending), events).value;
            && (forall i, j | 0 <= i < |s.callers| && 0 <= j < |s.callers| ::
                  s.callers[i].Inside? && s.callers[j].Inside? ==> i == j)
            && (forall i, j | 0 <= i < j < |s.callers| :: !s.callers[j].Waiting? ==> s.callers[i].Released?)
            && s.pending == pending + |s.broadcasts|
            && (forall k | 0 <= k < |s.broadcasts| :: s.broadcasts[k] == pending + k)
  {
    RunIsOrderly(pending, events);
    var s := After(Initial(pending), events).value;
    forall i, j | 0 <= i < |s.callers| && 0 <= j < |s.callers| && s.callers[i].Inside? && s.callers[j].Inside?
      ensures i == j
    {
      MutualExclusion(s.callers, i, j);
    }
    forall i, j | 0 <= i < j < |s.callers| && !s.callers[j].Waiting? ensures s.callers[i].Released? {
      assert AllReleased(s.callers, j);
    }
  }

  /** Each single broadcast uses the account's pending count at that moment. */
  lemma BroadcastUsesPending(pending: nat, events: seq<Event>, i: nat)
    requires After(Initial(pending), events).Some?
    requires Enabled(After(Initial(pending), events).value, Broadcast(i))
    ensures var s := After(Initial(pending), events).value;
            s.callers[i].stage.nonce == s.pending
  {
    RunIsOrderly(pending, events);
    var s := After(Initial(pending), events).value;
    assert StageFits(s, s.callers[i]);
  }

  // ------------------------------------------------------------------- progress

  function Weight(c: Phase<Stage>): nat {
    match c
    case Waiting => 4
    case Inside(Start) => 3
    case Inside(Ready(_)) => 2
    case Inside(Sent(_)) => 1
    case Released => 0
  }

  /** The steps that the present callers can still take. */
  function Remaining(cs: Callers<Stage>): nat {
    if cs == [] then 0 else Remaining(cs[..|cs|-1]) + Weight(cs[|cs|-1])
  }

  lemma {:induction false} RemainingUpdate(cs: Callers<Stage>, i: nat, c: Phase<Stage>)
    requires i < |cs|
    ensures Remaining(cs[i := c]) == Remaining(cs) - Weight(cs[i]) + Weight(c)
  {
    var n := |cs| - 1;
    if i < n {
      RemainingUpdate(cs[..n], i, c);
      assert cs[i := c][..n] == cs[..n][i := c];
    } else {
      assert cs[i := c][..n] == cs[..n];
    }
  }

  lemma {:induction false} NothingRemains(cs: Callers<Stage>)
    ensures Remaining(cs) == 0 <==> AllReleased(cs, |cs|)
  {
    if cs != [] {
      NothingRemains(cs[..|cs|-1]);
      if AllReleased(cs, |cs|) { assert AllReleased(cs[..|cs|-1], |cs| - 1); }
      if AllReleased(cs[..|cs|-1], |cs| - 1) && cs[|cs|-1].Released? {
        forall i | 0 <= i < |cs| ensures cs[i].Released? { if i < |cs| - 1 { assert cs[..|cs|-1][i].Released?; } }
      }
    }
  }

  /** As long as somebody has not left, somebody can move. */
  lemma NoDeadlock(s: State, first: nat) returns (e: Event)
    requires Orderly(s, first) && !AllReleased(s.callers, |s.callers|)
    ensures !e.Arrive? && Enabled(s, e)
  {
    var i := SomebodyMoves(s.callers, 0);
    LockSettledExactly(s.callers, i);
    match s.callers[i]
    case Waiting => e := Enter(i);
    case Inside(Start) => e := TakeNonce(i);
    case Inside(Ready(_)) => e := Broadcast(i);
    case Inside(Sent(_)) => e := Confirmed(i);
  }

  lemma {:induction false} StaysOrderly(s: State, events: seq<Event>, first: nat)
    requires Orderly(s, first) && After(s, events).Some?
    ensures Orderly(After(s, events).value, first)
  {
    if events != [] {
      StaysOrderly(s, events[..|events|-1], first);
      NextKeepsOrderly(After(s, events[..|events|-1]).value, events[|events|-1], first);
    }
  }

  /** The steps of the run that are not arrivals. */
  function Steps(events: seq<Event>): nat {
    if events == [] then 0 else Steps(events[..|events|-1]) + if events[|events|-1].Arrive? then 0 else 1
  }

  /** As long as caller `i` has not left, every step is taken by a caller that came no later, and uses up one of their
      steps; arrivals queue up behind. Once it has left, it stays out. */
  lemma StepsComeFromAhead(s: State, e: Event, first: nat, i: nat)
    requires Orderly(s, first) && Enabled(s, e) && i < |s.callers|
    ensures i < |Next(s, e).callers|
    ensures s.callers[i].Released? ==> Next(s, e).callers[i].Released?
    ensures !s.callers[i].Released? ==>
              Remaining(Next(s, e).callers[..i+1]) + (if e.Arrive? then 0 else 1) <= Remaining(s.callers[..i+1])
  {
    var ahead := s.callers[..i+1];
    if e.Arrive? {
      assert Next(s, e).callers[..i+1] == ahead;
    } else {
      InTurn(s, e, first);
      if !s.callers[i].Released? {
        assert e.i <= i;
        var c := Next(s, e).callers[e.i];
        assert Next(s, e).callers[..i+1] == ahead[e.i := c];
        RemainingUpdate(ahead, e.i, c);
      }
    }
  }

  lemma {:induction false} StepsBounded(s: State, events: seq<Event>, first: nat, i: nat)
    requires Orderly(s, first) && After(s, events).Some? && i < |s.callers|
    ensures var t := After(s, events).value;
            && i < |t.callers|
            && (t.callers[i].Released? || Steps(events) + Remaining(t.callers[..i+1]) <= Remaining(s.callers[..i+1]))
  {
    if events != [] {
      StepsBounded(s, events[..|events|-1], first, i);
      StaysOrderly(s, events[..|events|-1], first);
      StepsComeFromAhead(After(s, events[..|events|-1]).value, events[|events|-1], first, i);
    }
  }

  /** Every caller is released, whatever queues up behind it: from any reachable state, and through any run, arrivals
      included, a caller is out after at most as many steps as it and the callers before it still have to take; and
      until it is out, one of them can take a step. */
  lemma EveryoneIsReleased(pending: nat, before: seq<Event>, events: seq<Event>, i: nat)
    requires After(Initial(pending), before).Some?
    requires After(After(Initial(pending), before).value, events).Some?
    requires i < |After(Initial(pending), before).value.callers|
    ensures var s := After(Initial(pending), before).value;
            var t := After(s, events).value;
            && i < |t.callers|
            && (Steps(events) >= Remaining(s.callers[..i+1]) ==> t.callers[i].Released?)
            && (!t.callers[i].Released? ==> exists e: Event :: !e.Arrive? && Enabled(t, e) && e.i <= i)
  {
    var s := After(Initial(pending), before).value;
    RunIsOrderly(pending, before);
    StepsBounded(s, events, pending, i);
    StaysOrderly(s, events, pending);
    var t := After(s, events).value;
    NothingRemains(t.callers[..i+1]);
    if !t.callers[i].Released? {
      assert t.callers[..i+1][i] == t.callers[i];
      var e := NoDeadlock(t, pending);
      InTurn(t, e, pending);
    }
  }

  // ------------------------------------------------------------- the code itself

  /** `chain.ts`: the module variables, and the pieces that run between two suspension points. What the node does is
      passed in. */
  class NonceManager {
    var callers: Callers<Stage>     // the promises chained on `nonceMutex`
    var cachedNonce: Option<nat>
    ghost var pending: nat          // the node's side
    ghost var broadcasts: seq<nat>

    ghost function Now(): State
      reads this
    {
      State(callers, cachedNonce, pending, broadcasts)
    }

    constructor (ghost pending: nat)
      ensures Now() == Initial(pending)
    {
      callers, cachedNonce := [], None;
      this.pending, broadcasts := pending, [];
    }

    /** Join the chain; the caller then awaits the tail it found. */
    method WithNonceLock() returns (i: nat)
      modifies this
      ensures i == |old(callers)| && Now() == Next(old(Now()), Arrive)
    {
      i := |callers|;
      callers := callers + [Waiting];
    }

    method Resume(i: nat)
      requires Enabled(Now(), Enter(i))
      modifies this
      ensures Now() == Next(old(Now()), Enter(i))
    {
      callers := callers[i := Inside(Start)];
    }

    /** `fetched` is the pending count if the node answers; it is only looked at when the cache is empty. */
    method NextNonce(i: nat, fetched: Option<nat>) returns (nonce: Option<nat>)
      requires Enabled(Now(), TakeNonce(i))
      requires fetched.Some? ==> fetched.value == pending
      modifies this
      ensures Now() == Next(old(Now()), if nonce.Some? then TakeNonce(i) else FetchFails(i))
      ensures nonce.Some? ==> callers[i] == Inside(Ready(nonce.value))
      ensures nonce == None <==> old(cachedNonce) == None && fetched == None
    {
      if cachedNonce == None {
        if fetched == None {
          Release(i);
          return None;
        }
        cachedNonce := fetched;
      }
      callers := callers[i := Inside(Ready(cachedNonce.value))];
      return cachedNonce;
    }

    /** The node takes the transaction, or `send` throws before it does. */
    method Send(i: nat, accepted: bool)
      requires Enabled(Now(), Broadcast(i))
      modifies this
      ensures Now() == Next(old(Now()), if accepted then Broadcast(i) else FailsUnsent(i))
    {
      if !accepted {
        cachedNonce := None;
        Release(i);
        return;
      }
      var nonce := callers[i].stage.nonce;
      broadcasts := broadcasts + [nonce];
      pending := if nonce == pending then pending + 1 else pending;
      callers := callers[i := Inside(Sent(nonce))];
    }

    /** `wait` returns, or something throws after the broadcast. */
    method Settle(i: nat, confirmed: bool)
      requires Enabled(Now(), Confirmed(i))
      modifies this
      ensures Now() == Next(old(Now()), if confirmed then Confirmed(i) else FailsSent(i))
    {
      cachedNonce := if confirmed then Some(callers[i].stage.nonce + 1) else None;
      Release(i);
    }

    /** `finally { release(); }` */
    method Release(i: nat)
      requires i < |callers|
      modifies this`callers
      ensures callers == old(callers)[i := Released]
    {
      callers := callers[i := Released];
    }
  }
}
