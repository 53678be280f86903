/**
 When finalising is refused and with which error, and what is submitted otherwise, said of the request and the bids.
 */
module FinaliseRefusals {
  import opened Prelude
  import opened BondLifecycle
  import opened Allocation
  import opened AuctionFinalise
  import Decimal

  // ----------------------------------------------------------------------- selection

  /** Index `k` of the selection can be taken after those before it. */
  predicate Taken(chain: seq<Bid>, winning: seq<nat>, k: nat)
    requires k < |winning|
  {
    winning[k] < |chain| && winning[k] !in winning[..k]
  }

  /** Index `k` is the first that cannot be taken. */
  ghost predicate FirstBad(chain: seq<Bid>, winning: seq<nat>, k: nat) {
    k < |winning| && !Taken(chain, winning, k) && forall j | 0 <= j < k :: Taken(chain, winning, j)
  }

  lemma TakenAll(chain: seq<Bid>, winning: seq<nat>, k: nat)
    requires k <= |winning| && forall j | 0 <= j < k :: Taken(chain, winning, j)
    ensures Lookup(chain, winning[..k]).Success?
  {
    var front := winning[..k];
    LookupExactly(chain, front);
    forall i, j | 0 <= i < j < k ensures front[i] != front[j] {
      assert Taken(chain, winning, j) && winning[i] == winning[..j][i];
    }
    forall i | 0 <= i < k ensures front[i] < |chain| {
      assert Taken(chain, winning, i);
    }
  }

  lemma FirstBadFails(chain: seq<Bid>, winning: seq<nat>, k: nat)
    requires FirstBad(chain, winning, k)
    ensures Lookup(chain, winning) ==
            Failure(if winning[k] >= |chain| then UnknownIndex(winning[k]) else DuplicateIndex(winning[k]))
  {
    TakenAll(chain, winning, k);
    assert winning[..k+1][..k] == winning[..k];
    LookupFails(chain, winning, k + 1);
  }

  lemma {:induction false} FirstBadExists(chain: seq<Bid>, winning: seq<nat>, k: nat)
    requires k <= |winning|
    ensures (forall j | 0 <= j < k :: Taken(chain, winning, j)) || exists j: nat :: FirstBad(chain, winning, j)
  {
    if k > 0 {
      FirstBadExists(chain, winning, k - 1);
      if forall j | 0 <= j < k - 1 :: Taken(chain, winning, j) {
        if !Taken(chain, winning, k - 1) { assert FirstBad(chain, winning, k - 1); }
      }
    }
  }

  function SelectionError(chain: seq<Bid>, winning: seq<nat>, k: nat): FinaliseError
    requires k < |winning|
  {
    if winning[k] >= |chain| then UnknownIndex(winning[k]) else DuplicateIndex(winning[k])
  }

  /** The first index that is unknown or was selected before decides the refusal; if there is none, the selection is
      accepted. */
  lemma SelectionExactly(chain: seq<Bid>, winning: seq<nat>)
    ensures forall k: nat | FirstBad(chain, winning, k) ::
              Lookup(chain, winning) == Failure(SelectionError(chain, winning, k))
    ensures Lookup(chain, winning).Failure? <==> exists k: nat :: FirstBad(chain, winning, k)
  {
    forall k: nat | FirstBad(chain, winning, k)
      ensures Lookup(chain, winning) == Failure(SelectionError(chain, winning, k))
    {
      FirstBadFails(chain, winning, k);
    }
    FirstBadExists(chain, winning, |winning|);
    if forall j | 0 <= j < |winning| :: Taken(chain, winning, j) {
      TakenAll(chain, winning, |winning|);
      assert winning[..|winning|] == winning;
    }
  }

  // -------------------------------------------------------------------------- proofs

  ghost predicate Owned(chain: seq<Bid>, fills: seq<Fill>) {
    forall i | 0 <= i < |fills| :: fills[i].bidIndex < |chain|
  }

  /** Fill `k` is the first whose bid carries no signature. */
  ghost predicate FirstUnsigned(chain: seq<Bid>, fills: seq<Fill>, k: nat)
    requires Owned(chain, fills)
  {
    && k < |fills| && chain[fills[k].bidIndex].bidderSig == ""
    && forall j | 0 <= j < k :: chain[fills[j].bidIndex].bidderSig != ""
  }

  /** The first fill without a signature is refused with its bidder's name. */
  lemma UnsignedRefused(chain: seq<Bid>, fills: seq<Fill>, k: nat)
    requires Owned(chain, fills) && FirstUnsigned(chain, fills, k)
    ensures Proofs(chain, fills) == Failure(MissingSignature(chain[fills[k].bidIndex].bidder))
  {
    ProofsExactly(chain, fills[..k]);
    assert fills[..k+1][..k] == fills[..k];
    ProofsFail(chain, fills, k + 1);
  }

  lemma {:induction false} UnsignedExists(chain: seq<Bid>, fills: seq<Fill>, k: nat)
    requires Owned(chain, fills) && k <= |fills|
    ensures (forall j | 0 <= j < k :: chain[fills[j].bidIndex].bidderSig != "") ||
            exists j: nat :: FirstUnsigned(chain, fills, j)
  {
    if k > 0 {
      UnsignedExists(chain, fills, k - 1);
      if forall j | 0 <= j < k - 1 :: chain[fills[j].bidIndex].bidderSig != "" {
        if chain[fills[k-1].bidIndex].bidderSig == "" { assert FirstUnsigned(chain, fills, k - 1); }
      }
    }
  }

  // ---------------------------------------------------------------------- the decision

  datatype Request = Request(status: AuctionStatus, size: Option<nat>, auctionType: AuctionType, chain: seq<Bid>,
                             winning: seq<nat>, expected: string)
  {
    /** The auction can be finalised at all. */
    predicate Ready() {
      status == Closed && size.Some?
    }

    ghost predicate Selectable() {
      Ready() && Known(chain, winning) && Distinct(winning)
    }

    function Answer(): Result<Submission, FinaliseError> {
      Decide(status, size, auctionType, chain, winning, expected)
    }

    /** What the auction's own rules allocate over the selected bids. */
    function Allocated(): Result<Outcome, AllocationError>
      requires Selectable()
    {
      Allocate(auctionType, At(chain, winning), size.value)
    }
  }

  /** Refusals that do not look at a bid. */
  lemma NotReady(r: Request)
    ensures r.Answer() == Failure(AlreadyFinalised) <==> r.status == Finalised
    ensures r.Answer() == Failure(AuctionCancelled) <==> r.status == Cancelled
    ensures r.Answer() == Failure(NotClosed) <==> r.status == Open
    ensures r.Answer() == Failure(NoOfferingSize) <==> r.status == Closed && r.size == None
  {
    if r.Ready() {
      LookupExactly(r.chain, r.winning);
      LookupErrors(r.chain, r.winning);
      if r.Selectable() { SubmitErrors(r); }
    }
  }

  lemma LookupErrors(chain: seq<Bid>, winning: seq<nat>)
    ensures Lookup(chain, winning).Failure? ==>
              Lookup(chain, winning).error.UnknownIndex? || Lookup(chain, winning).error.DuplicateIndex?
  {
    SelectionExactly(chain, winning);
  }

  lemma AtOwned(chain: seq<Bid>, winning: seq<nat>)
    requires Known(chain, winning)
    ensures forall b | b in At(chain, winning) :: b.bidIndex < |chain|
  {
    forall b | b in At(chain, winning) ensures b.bidIndex < |chain| {
      var i :| 0 <= i < |winning| && At(chain, winning)[i] == b;
      assert b == Numbered(chain)[winning[i]];
    }
  }

  lemma FillsKnown(r: Request)
    requires r.Selectable() && r.Allocated().Success?
    ensures Owned(r.chain, r.Allocated().value.allocations)
  {
    AtOwned(r.chain, r.winning);
    FillsOwned(r.auctionType, At(r.chain, r.winning), r.size.value);
    var fills := r.Allocated().value.allocations;
    forall i | 0 <= i < |fills| ensures fills[i].bidIndex < |r.chain| {
      assert fills[i] in fills;
    }
  }

  lemma ProofsErrors(chain: seq<Bid>, fills: seq<Fill>)
    requires Owned(chain, fills)
    ensures Proofs(chain, fills).Failure? ==> Proofs(chain, fills).error.MissingSignature?
  {
    ProofsExactly(chain, fills);
    UnsignedExists(chain, fills, |fills|);
    if k: nat :| FirstUnsigned(chain, fills, k) { UnsignedRefused(chain, fills, k); }
  }

  lemma SubmitErrors(r: Request)
    requires r.Selectable()
    ensures r.Answer().Failure? ==>
              r.Answer().error.NotAllocatable? || r.Answer().error.RateMismatch? || r.Answer().error.MissingSignature?
  {
    LookupExactly(r.chain, r.winning);
    AtOwned(r.chain, r.winning);
    if r.Allocated().Success? {
      FillsKnown(r);
      ProofsErrors(r.chain, r.Allocated().value.allocations);
    }
  }

  /** An unacceptable selection is refused by its first bad index. */
  ghost predicate SelectionDecides(r: Request) {
    && (r.Selectable() || exists k: nat :: FirstBad(r.chain, r.winning, k))
    && forall k: nat | FirstBad(r.chain, r.winning, k) ::
         r.Answer() == Failure(SelectionError(r.chain, r.winning, k))
  }

  /** An acceptable one is refused by its allocation's error, or by a clearing rate that is not the expected one. */
  ghost predicate AllocationDecides(r: Request)
    requires r.Selectable()
  {
    && (forall e :: r.Answer() == Failure(NotAllocatable(e)) <==> r.Allocated() == Failure(e))
    && (forall n :: r.Answer() == Failure(RateMismatch(n)) <==>
          r.Allocated().Success? && r.Allocated().value.clearingRate == n && Decimal.Text(n) != r.expected)
  }

  /** Which closed auction's request is refused with which error: by the first index that is unknown or repeated; an
      allocation that fails; or a clearing rate that is not the expected one. */
  lemma RefusedExactly(r: Request)
    requires r.Ready()
    ensures SelectionDecides(r) && (r.Selectable() ==> AllocationDecides(r))
  {
    SelectionExactly(r.chain, r.winning);
    LookupExactly(r.chain, r.winning);
    if r.Selectable() {
      SubmitExactly(r);
      forall k: nat ensures !FirstBad(r.chain, r.winning, k) {}
    }
  }

  lemma SubmitExactly(r: Request)
    requires r.Selectable()
    ensures AllocationDecides(r)
  {
    LookupExactly(r.chain, r.winning);
    AtOwned(r.chain, r.winning);
    if r.Allocated().Success? {
      FillsKnown(r);
      ProofsErrors(r.chain, r.Allocated().value.allocations);
    }
  }

  /** The first fill without a signature decides. */
  ghost predicate SignaturesDecide(r: Request, fills: seq<Fill>) {
    && Owned(r.chain, fills)
    && (forall k: nat | FirstUnsigned(r.chain, fills, k) ::
          r.Answer() == Failure(MissingSignature(r.chain[fills[k].bidIndex].bidder)))
    && (r.Answer().Failure? ==> exists k: nat :: FirstUnsigned(r.chain, fills, k))
  }

  /** The allocation, and for every fill the nonce and the signature of the bid it fills. */
  ghost predicate Submits(chain: seq<Bid>, fills: seq<Fill>, s: Submission)
    requires Owned(chain, fills)
  {
    && s.allocations == fills && |s.proofs| == |fills|
    && forall i | 0 <= i < |fills| ::
         var bid := chain[fills[i].bidIndex];
         s.proofs[i] == Proof(fills[i].bidIndex, bid.bidderNonce, bid.bidderSig)
  }

  lemma AnswerIsProvable(r: Request)
    requires r.Selectable() && r.Allocated().Success?
    requires Decimal.Text(r.Allocated().value.clearingRate) == r.expected
    ensures Owned(r.chain, r.Allocated().value.allocations)
    ensures r.Answer() == Provable(r.chain, r.Allocated().value.allocations)
  {
    LookupExactly(r.chain, r.winning);
    AtOwned(r.chain, r.winning);
    FillsKnown(r);
  }

  /** Once selection, allocation and rate are accepted, the allocation is submitted with its proofs, unless one of the
      filled bids has no signature. */
  lemma SubmittedExactly(r: Request)
    requires r.Selectable() && r.Allocated().Success?
    requires Decimal.Text(r.Allocated().value.clearingRate) == r.expected
    ensures SignaturesDecide(r, r.Allocated().value.allocations)
    ensures r.Answer().Success? ==> Submits(r.chain, r.Allocated().value.allocations, r.Answer().value)
  {
    var fills := r.Allocated().value.allocations;
    AnswerIsProvable(r);
    ProofsExactly(r.chain, fills);
    UnsignedExists(r.chain, fills, |fills|);
    forall k: nat | FirstUnsigned(r.chain, fills, k)
      ensures r.Answer() == Failure(MissingSignature(r.chain[fills[k].bidIndex].bidder))
    {
      UnsignedRefused(r.chain, fills, k);
    }
  }
}
