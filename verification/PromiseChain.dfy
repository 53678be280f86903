/**
 Callers that queue up on a chain of promises: each waits for the promise that was the tail when it arrived and
 leaves a new tail behind. The nonce lock and the ingestion queue are two such chains.
 */
module PromiseChain {

  /** A caller before, in and after its critical section. */
  datatype Phase<+S> = Waiting | Inside(stage: S) | Released

  /** Callers in the order of their arrival. */
  type Callers<+S> = seq<Phase<S>>

  /** The lock's tail after `k` arrivals, `previous.then(() => next)`: settled once the tail before it is and caller
      `k - 1` has resolved its own promise. */
  predicate LockSettled<S>(cs: Callers<S>, k: nat)
    requires k <= |cs|
  {
    k == 0 || (LockSettled(cs, k - 1) && cs[k-1].Released?)
  }

  /** The queue's tail after `k` arrivals, `work.then(...)`: settled once job `k - 1` is. */
  predicate QueueSettled<S>(cs: Callers<S>, k: nat)
    requires k <= |cs|
  {
    k == 0 || cs[k-1].Released?
  }

  ghost predicate AllReleased<S>(cs: Callers<S>, k: nat)
    requires k <= |cs|
  {
    forall i | 0 <= i < k :: cs[i].Released?
  }

  /** Whoever has entered came after callers that have all left. */
  ghost predicate InOrder<S>(cs: Callers<S>) {
    forall j | 0 <= j < |cs| :: !cs[j].Waiting? ==> AllReleased(cs, j)
  }

  lemma {:induction false} LockSettledExactly<S>(cs: Callers<S>, k: nat)
    requires k <= |cs|
    ensures LockSettled(cs, k) <==> AllReleased(cs, k)
  {
    if k > 0 { LockSettledExactly(cs, k - 1); }
  }

  /** In an orderly chain the two kinds of tail settle at the same time: when everybody before has left. */
  lemma SettledExactly<S>(cs: Callers<S>, k: nat)
    requires InOrder(cs) && k <= |cs|
    ensures QueueSettled(cs, k) <==> AllReleased(cs, k)
    ensures LockSettled(cs, k) <==> AllReleased(cs, k)
  {
    LockSettledExactly(cs, k);
    if k > 0 && cs[k-1].Released? { assert AllReleased(cs, k - 1); }
  }

  /** At most one caller is inside. */
  lemma MutualExclusion<S>(cs: Callers<S>, i: nat, j: nat)
    requires InOrder(cs) && i < |cs| && j < |cs| && cs[i].Inside? && cs[j].Inside?
    ensures i == j
  {
    assert AllReleased(cs, i) && AllReleased(cs, j);
  }

  lemma ArriveKeepsOrder<S>(cs: Callers<S>)
    requires InOrder(cs)
    ensures InOrder(cs + [Waiting])
  {
    forall j | 0 <= j < |cs| && !cs[j].Waiting? ensures AllReleased(cs + [Waiting], j) {
      assert AllReleased(cs, j);
    }
  }

  /** Entering in turn, moving on inside and leaving keep the order. */
  lemma AdvanceKeepsOrder<S>(cs: Callers<S>, i: nat, phase: Phase<S>)
    requires InOrder(cs) && i < |cs| && AllReleased(cs, i) && !cs[i].Released? && !phase.Waiting?
    ensures InOrder(cs[i := phase])
  {
    var ds := cs[i := phase];
    forall j | 0 <= j < |ds| && !ds[j].Waiting? ensures AllReleased(ds, j) {
      if j != i { assert AllReleased(cs, j); }
    }
  }

  /** Unless everybody has left, somebody is inside or next in turn. */
  lemma SomebodyMoves<S>(cs: Callers<S>, from: nat) returns (i: nat)
    requires from < |cs| && InOrder(cs) && AllReleased(cs, from) && !AllReleased(cs, |cs|)
    ensures i < |cs| && AllReleased(cs, i) && !cs[i].Released?
    decreases |cs| - from
  {
    if !cs[from].Released? { return from; }
    assert AllReleased(cs, from + 1);
    i := SomebodyMoves(cs, from + 1);
  }
}
