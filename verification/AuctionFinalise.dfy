/**
 Finalising an auction: the server looks up the selected bids, allocates over them afresh, cross-checks the clearing
 rate the operator saw, and pairs every fill with the bidder's proof.
 */
module AuctionFinalise {
  import opened Prelude
  import opened BondLifecycle
  import opened Allocation
  import opened AllocationTheorems
  import Decimal

  datatype Proof = Proof(bidIndex: nat, bidderNonce: nat, bidderSig: string)

  datatype Submission = Submission(allocations: seq<Fill>, proofs: seq<Proof>)

  datatype FinaliseError =
    | AlreadyFinalised | AuctionCancelled | NotClosed | NoOfferingSize
    | UnknownIndex(index: nat) | DuplicateIndex(index: nat)
    | NotAllocatable(error: AllocationError)
    | RateMismatch(computed: nat)
    | MissingSignature(bidder: nat)

  /** The bids as unsealed: each carries its position in the on-chain list. */
  function Numbered(chain: seq<Bid>): seq<Bid> {
    seq(|chain|, i requires 0 <= i < |chain| => chain[i].(bidIndex := i))
  }

  // ------------------------------------------------------------------ selection

  function Lookup(chain: seq<Bid>, winning: seq<nat>): Result<seq<Bid>, FinaliseError> {
    if winning == [] then Success([])
    else
      var init, index := winning[..|winning|-1], winning[|winning|-1];
      match Lookup(chain, init)
      case Failure(e) => Failure(e)
      case Success(bids) =>
        if index >= |chain| then Failure(UnknownIndex(index))
        else if index in init then Failure(DuplicateIndex(index))
        else Success(bids + [Numbered(chain)[index]])
  }

  ghost predicate Distinct(xs: seq<nat>) {
    forall i, j | 0 <= i < j < |xs| :: xs[i] != xs[j]
  }

  ghost predicate Known(chain: seq<Bid>, winning: seq<nat>) {
    forall i | 0 <= i < |winning| :: winning[i] < |chain|
  }

  function At(chain: seq<Bid>, winning: seq<nat>): seq<Bid>
    requires Known(chain, winning)
  {
    seq(|winning|, i requires 0 <= i < |winning| => Numbered(chain)[winning[i]])
  }

  /** A selection is accepted exactly if its indexes exist and are pairwise distinct; then it is the bids at them. */
  lemma {:induction false} LookupExactly(chain: seq<Bid>, winning: seq<nat>)
    ensures Lookup(chain, winning).Success? <==> Known(chain, winning) && Distinct(winning)
    ensures Lookup(chain, winning).Success? ==> Lookup(chain, winning).value == At(chain, winning)
  {
    if winning != [] {
      var init, index := winning[..|winning|-1], winning[|winning|-1];
      LookupExactly(chain, init);
      if Lookup(chain, init).Success? {
        if index < |chain| && index !in init {
          assert Known(chain, winning) && Distinct(winning);
          assert At(chain, winning) == At(chain, init) + [Numbered(chain)[index]];
        }
      } else if Known(chain, winning) && Distinct(winning) {
        assert Known(chain, init) && Distinct(init);
      }
    }
  }

  /** The indexes seen so far are scanned with a map of the unsealed bids and a set of seen indexes. */
  method SelectBids(unsealedByIndex: map<nat, Bid>, ghost chain: seq<Bid>, winning: seq<nat>)
    returns (r: Result<seq<Bid>, FinaliseError>)
    requires forall i: nat :: i in unsealedByIndex <==> i < |chain|
    requires forall i | 0 <= i < |chain| :: i in unsealedByIndex && unsealedByIndex[i] == Numbered(chain)[i]
    ensures r == Lookup(chain, winning)
  {
    var seen: set<nat> := {};
    var selected: seq<Bid> := [];
    var i := 0;
    while i < |winning|
      invariant i <= |winning|
      invariant seen == set k | 0 <= k < i :: winning[k]
      invariant Lookup(chain, winning[..i]) == Success(selected)
    {
      var index := winning[i];
      assert winning[..i+1][..i] == winning[..i];
      if index !in unsealedByIndex {
        LookupFails(chain, winning, i + 1);
        return Failure(UnknownIndex(index));
      }
      if index in seen {
        LookupFails(chain, winning, i + 1);
        return Failure(DuplicateIndex(index));
      }
      seen := seen + {index};
      selected := selected + [unsealedByIndex[index]];
      i := i + 1;
    }
    assert winning[..i] == winning;
    return Success(selected);
  }

  /** The first refused index decides the error. */
  lemma {:induction false} LookupFails(chain: seq<Bid>, winning: seq<nat>, k: nat)
    requires k <= |winning| && Lookup(chain, winning[..k]).Failure?
    ensures Lookup(chain, winning) == Lookup(chain, winning[..k])
  {
    if k < |winning| {
      assert winning[..|winning|-1][..k] == winning[..k];
      LookupFails(chain, winning[..|winning|-1], k);
    } else {
      assert winning[..k] == winning;
    }
  }

  // --------------------------------------------------------------------- proofs

  /** The fills that the unsealed bids can prove, up to the first missing signature. */
  function Proofs(chain: seq<Bid>, fills: seq<Fill>): Result<seq<Proof>, FinaliseError>
    requires forall i | 0 <= i < |fills| :: fills[i].bidIndex < |chain|
  {
    if fills == [] then Success([])
    else
      match Proofs(chain, fills[..|fills|-1])
      case Failure(e) => Failure(e)
      case Success(proofs) =>
        var bid := Numbered(chain)[fills[|fills|-1].bidIndex];
        if bid.bidderSig == "" then Failure(MissingSignature(bid.bidder))
        else Success(proofs + [Proof(bid.bidIndex, bid.bidderNonce, bid.bidderSig)])
  }

  lemma {:induction false} ProofsExactly(chain: seq<Bid>, fills: seq<Fill>)
    requires forall i | 0 <= i < |fills| :: fills[i].bidIndex < |chain|
    ensures Proofs(chain, fills).Success? <==>
            forall i | 0 <= i < |fills| :: chain[fills[i].bidIndex].bidderSig != ""
    ensures Proofs(chain, fills).Success? ==>
              && |Proofs(chain, fills).value| == |fills|
              && forall i | 0 <= i < |fills| ::
                   var bid := chain[fills[i].bidIndex];
                   Proofs(chain, fills).value[i] == Proof(fills[i].bidIndex, bid.bidderNonce, bid.bidderSig)
  {
    if fills != [] {
      ProofsExactly(chain, fills[..|fills|-1]);
    }
  }

  /** The submission that the proofs allow. */
  function Provable(chain: seq<Bid>, fills: seq<Fill>): Result<Submission, FinaliseError>
    requires forall i | 0 <= i < |fills| :: fills[i].bidIndex < |chain|
  {
    var proofs :- Proofs(chain, fills);
    Success(Submission(fills, proofs))
  }

  // ------------------------------------------------------------------- finalise

  /** Everything after the selection. */
  function Submit(auctionType: AuctionType, chain: seq<Bid>, selected: seq<Bid>, offering: nat, expected: string)
    : Result<Submission, FinaliseError>
    requires forall b | b in selected :: b.bidIndex < |chain|
  {
    match Allocate(auctionType, selected, offering)
    case Failure(e) => Failure(NotAllocatable(e))
    case Success(o) =>
      if Decimal.Text(o.clearingRate) != expected then Failure(RateMismatch(o.clearingRate))
      else
        FillsOwned(auctionType, selected, offering);
        Provable(chain, o.allocations)
  }

  /** Every fill belongs to a bid of the list it was computed from. */
  lemma FillsOwned(auctionType: AuctionType, bids: seq<Bid>, offering: int)
    requires Allocate(auctionType, bids, offering).Success?
    ensures forall a | a in Allocate(auctionType, bids, offering).value.allocations ::
              exists b | b in bids :: b.bidIndex == a.bidIndex && b.bidder == a.bidder && a.units <= b.units
  {
    AllocationSound(auctionType, bids, offering);
    var fills := Allocate(auctionType, bids, offering).value.allocations;
    var ranked := Ranked(auctionType, bids);
    forall a | a in fills
      ensures exists b | b in bids :: b.bidIndex == a.bidIndex && b.bidder == a.bidder && a.units <= b.units
    {
      var i :| 0 <= i < |fills| && fills[i] == a;
      assert ranked[i] in multiset(ranked);
    }
  }

  function Decide(status: AuctionStatus, size: Option<nat>, auctionType: AuctionType, chain: seq<Bid>,
                  winning: seq<nat>, expected: string): Result<Submission, FinaliseError>
  {
    match status
    case Finalised => Failure(AlreadyFinalised)
    case Cancelled => Failure(AuctionCancelled)
    case Open => Failure(NotClosed)
    case Closed =>
      if size == None then Failure(NoOfferingSize)
      else
        LookupExactly(chain, winning);
        match Lookup(chain, winning)
        case Failure(e) => Failure(e)
        case Success(selected) => Submit(auctionType, chain, selected, size.value, expected)
  }

  method Finalise(status: AuctionStatus, size: Option<nat>, auctionType: AuctionType, chain: seq<Bid>,
                  winning: seq<nat>, expectedClearingRate: string) returns (r: Result<Submission, FinaliseError>)
    ensures r == Decide(status, size, auctionType, chain, winning, expectedClearingRate)
  {
    if status == Finalised { return Failure(AlreadyFinalised); }
    if status == Cancelled { return Failure(AuctionCancelled); }
    if status != Closed { return Failure(NotClosed); }
    if size == None { return Failure(NoOfferingSize); }
    var unsealedByIndex: map<nat, Bid> := map[];
    for i := 0 to |chain|
      invariant forall k: nat :: k in unsealedByIndex <==> k < i
      invariant forall k | 0 <= k < i :: k in unsealedByIndex && unsealedByIndex[k] == Numbered(chain)[k]
    {
      unsealedByIndex := unsealedByIndex[i := chain[i].(bidIndex := i)];
    }
    var selected := SelectBids(unsealedByIndex, chain, winning);
    if selected.Failure? { return Failure(selected.error); }
    LookupExactly(chain, winning);

    var result: Result<Outcome, AllocationError>;
    if auctionType == BUYBACK {
      result := ComputeBuybackAllocation(selected.value, size.value);
    } else {
      result := ComputeUniformAllocation(auctionType, selected.value, size.value);
    }
    if result.Failure? { return Failure(NotAllocatable(result.error)); }
    if Decimal.Text(result.value.clearingRate) != expectedClearingRate {
      return Failure(RateMismatch(result.value.clearingRate));
    }
    FillsOwned(auctionType, selected.value, size.value);
    r := PairProofs(unsealedByIndex, chain, result.value.allocations);
  }

  method PairProofs(unsealedByIndex: map<nat, Bid>, ghost chain: seq<Bid>, fills: seq<Fill>)
    returns (r: Result<Submission, FinaliseError>)
    requires forall i | 0 <= i < |chain| :: i in unsealedByIndex && unsealedByIndex[i] == Numbered(chain)[i]
    requires forall i | 0 <= i < |fills| :: fills[i].bidIndex < |chain|
    ensures r == Provable(chain, fills)
  {
    var proofs: seq<Proof> := [];
    for i := 0 to |fills|
      invariant Proofs(chain, fills[..i]) == Success(proofs)
    {
      assert fills[..i+1][..i] == fills[..i];
      var bid := unsealedByIndex[fills[i].bidIndex];
      if bid.bidderSig == "" {
        ProofsFail(chain, fills, i + 1);
        return Failure(MissingSignature(bid.bidder));
      }
      proofs := proofs + [Proof(bid.bidIndex, bid.bidderNonce, bid.bidderSig)];
    }
    assert fills[..|fills|] == fills;
    return Success(Submission(fills, proofs));
  }

  lemma {:induction false} ProofsFail(chain: seq<Bid>, fills: seq<Fill>, k: nat)
    requires forall i | 0 <= i < |fills| :: fills[i].bidIndex < |chain|
    requires k <= |fills| && Proofs(chain, fills[..k]).Failure?
    ensures Proofs(chain, fills) == Proofs(chain, fills[..k])
  {
    if k < |fills| {
      assert fills[..|fills|-1][..k] == fills[..k];
      ProofsFail(chain, fills[..|fills|-1], k);
    } else {
      assert fills[..k] == fills;
    }
  }
}
