/**
 The auction allocation engine: bids are ranked, then filled greedily until the offering is used up.
 RATE and PRICE auctions pay every winner the last filled rate; a BUYBACK pays each winner its own rate.

 Rates and units arrive as decimal texts that have already been checked to be digits only, so they are
 natural numbers here; zero is the one value `parsePositiveBigInt` still refuses.
 */
module Allocation {
  import opened Prelude
  import opened StableSort

  datatype AuctionType = RATE | PRICE | BUYBACK

  datatype Bid = Bid(bidder: nat, units: nat, rate: nat, bidIndex: nat, bidderNonce: nat, bidderSig: string)

  datatype Fill = Fill(bidder: nat, units: nat, rate: nat, bidIndex: nat)

  datatype Outcome = Outcome(auctionType: AuctionType, clearingRate: nat, totalAllocated: nat, allocations: seq<Fill>)

  datatype AllocationError = WrongAuctionType | OfferingNotPositive | NotPositive | NoAllocatableBids

  // ------------------------------------------------------------------ ranking

  /** The server's comparator, for rates and units that passed `parsePositiveBigInt`. */
  function Compare(auctionType: AuctionType, a: Bid, b: Bid): int {
    var better := if auctionType == PRICE then b.rate > a.rate else a.rate > b.rate;
    if a.rate == b.rate then
      if b.units > a.units then 1 else if b.units < a.units then -1 else 0
    else if better then 1 else -1
  }

  function Ranking(auctionType: AuctionType): Comparator<Bid> {
    (a, b) => Compare(auctionType, a, b)
  }

  lemma RankingOrders(auctionType: AuctionType)
    ensures Ordering(Ranking(auctionType))
  {
  }

  predicate Parses(bid: Bid) {
    bid.units > 0 && bid.rate > 0
  }

  /** The comparator parses every rate, and the units of bids that tie on the rate. Sorting two or more bids
      compares every bid with some other, and every two neighbours of the result, so these are exactly the
      lists on which it throws. */
  predicate SortThrows(bids: seq<Bid>) {
    && |bids| >= 2
    && ((exists i | 0 <= i < |bids| :: bids[i].rate == 0) ||
        (exists i, j | 0 <= i < |bids| && 0 <= j < |bids| && i != j ::
           bids[i].rate == bids[j].rate && bids[i].units == 0))
  }

  function Ranked(auctionType: AuctionType, bids: seq<Bid>): seq<Bid> {
    Sort(bids, Ranking(auctionType))
  }

  // ------------------------------------------------------------------ filling

  const UNITS: Bid -> int := (b: Bid) => b.units
  const FILLED: Fill -> int := (a: Fill) => a.units

  function Min(a: int, b: int): int {
    if a <= b then a else b
  }

  lemma {:induction false} UnitsMonotone(bids: seq<Bid>, k: nat)
    requires k <= |bids|
    ensures 0 <= Sum(UNITS, bids[..k]) <= Sum(UNITS, bids)
  {
    if |bids| == 0 {
    } else if k < |bids| {
      UnitsMonotone(bids[..|bids|-1], k);
      assert bids[..|bids|-1][..k] == bids[..k];
    } else {
      assert bids[..k] == bids;
      UnitsMonotone(bids[..|bids|-1], |bids| - 1);
      assert bids[..|bids|-1][..|bids|-1] == bids[..|bids|-1];
    }
  }

  /** How many of the ranked bids are reached before the offering is used up. */
  function Cut(ranked: seq<Bid>, offering: int): (c: nat)
    ensures c <= |ranked|
  {
    if ranked == [] then 0
    else if Sum(UNITS, ranked[..|ranked|-1]) >= offering then Cut(ranked[..|ranked|-1], offering)
    else |ranked|
  }

  /** What each ranked bid receives, at its own rate. */
  function Fills(ranked: seq<Bid>, offering: int): seq<Fill> {
    if ranked == [] then []
    else
      var last := ranked[|ranked|-1];
      var remaining := offering - Sum(UNITS, ranked[..|ranked|-1]);
      Fills(ranked[..|ranked|-1], offering) +
      if remaining <= 0 || last.units == 0 then []
      else [Fill(last.bidder, Min(last.units, remaining), last.rate, last.bidIndex)]
  }

  function AtRate(fills: seq<Fill>, rate: nat): seq<Fill> {
    seq(|fills|, i requires 0 <= i < |fills| => fills[i].(rate := rate))
  }

  /** How many ranked bids the loop parses: the uniform loop parses one more before it notices that nothing
      remains; the buyback loop checks first. */
  function Examined(auctionType: AuctionType, ranked: seq<Bid>, offering: int): (n: nat)
    ensures n <= |ranked|
  {
    var cut := Cut(ranked, offering);
    if auctionType != BUYBACK && cut < |ranked| then cut + 1 else cut
  }

  /** One of the bids the loop parses does not parse. */
  predicate Refused(auctionType: AuctionType, ranked: seq<Bid>, offering: int) {
    exists i | 0 <= i < Examined(auctionType, ranked, offering) :: !Parses(ranked[i])
  }

  function OutcomeOf(auctionType: AuctionType, fills: seq<Fill>, total: nat): Result<Outcome, AllocationError> {
    if fills == [] then Failure(NoAllocatableBids)
    else if auctionType == BUYBACK then Success(Outcome(BUYBACK, fills[0].rate, total, fills))
    else
      var rate := fills[|fills|-1].rate;
      Success(Outcome(auctionType, rate, total, AtRate(fills, rate)))
  }

  /** What the loops make of ranked bids. */
  function Allot(auctionType: AuctionType, ranked: seq<Bid>, offering: nat): Result<Outcome, AllocationError> {
    UnitsMonotone(ranked, |ranked|);
    if Refused(auctionType, ranked, offering) then Failure(NotPositive)
    else OutcomeOf(auctionType, Fills(ranked, offering), Min(offering, Sum(UNITS, ranked)))
  }

  /** What the two compute functions return, dispatched on the auction type as their callers do. */
  function Allocate(auctionType: AuctionType, bids: seq<Bid>, offering: int): Result<Outcome, AllocationError> {
    if offering <= 0 then Failure(OfferingNotPositive)
    else if SortThrows(bids) then Failure(NotPositive)
    else Allot(auctionType, Ranked(auctionType, bids), offering)
  }

  lemma {:induction false} CutReached(ranked: seq<Bid>, offering: int, k: nat)
    requires k <= |ranked|
    ensures k < Cut(ranked, offering) ==> Sum(UNITS, ranked[..k]) < offering
    ensures Cut(ranked, offering) <= k < |ranked| ==> Sum(UNITS, ranked[..k]) >= offering
  {
    if ranked != [] && k < |ranked| {
      var init := ranked[..|ranked|-1];
      assert init[..k] == ranked[..k];
      if Sum(UNITS, init) >= offering {
        CutReached(init, offering, k);
        assert k == |init| ==> init[..k] == init;
      } else {
        UnitsMonotone(init, k);
      }
    }
  }

  lemma {:induction false} FillsPrefix(ranked: seq<Bid>, offering: int, k: nat)
    requires Cut(ranked, offering) <= k <= |ranked|
    ensures Fills(ranked[..k], offering) == Fills(ranked, offering)
    ensures Cut(ranked[..k], offering) == Cut(ranked, offering)
  {
    if k < |ranked| {
      var init := ranked[..|ranked|-1];
      FillsPrefix(init, offering, k);
      assert init[..k] == ranked[..k];
    } else {
      assert ranked[..k] == ranked;
    }
  }

  lemma {:induction false} FillsTotal(ranked: seq<Bid>, offering: int)
    requires offering >= 0
    ensures Sum(FILLED, Fills(ranked, offering)) == Min(offering, Sum(UNITS, ranked))
  {
    if ranked != [] {
      var init, last := ranked[..|ranked|-1], ranked[|ranked|-1];
      FillsTotal(init, offering);
      assert Sum(UNITS, ranked) == Sum(UNITS, init) + last.units;
      var remaining := offering - Sum(UNITS, init);
      if remaining > 0 && last.units > 0 {
        SumAppend(FILLED, Fills(init, offering),
                  Fill(last.bidder, Min(last.units, remaining), last.rate, last.bidIndex));
      } else {
        assert Fills(ranked, offering) == Fills(init, offering);
      }
    }
  }

  /** What a ranked bid gets from the units its predecessors left. */
  function Share(ranked: seq<Bid>, offering: int, i: nat): Fill
    requires i < |ranked| && Sum(UNITS, ranked[..i]) < offering
  {
    Fill(ranked[i].bidder, Min(ranked[i].units, offering - Sum(UNITS, ranked[..i])), ranked[i].rate, ranked[i].bidIndex)
  }

  /** The fills one by one: the bids before the cut, in order, each taking what is left up to its own size. */
  lemma {:induction false} FillsAt(ranked: seq<Bid>, offering: int, i: nat)
    requires i < Cut(ranked, offering)
    requires forall j | 0 <= j < Cut(ranked, offering) :: ranked[j].units > 0
    ensures |Fills(ranked, offering)| == Cut(ranked, offering)
    ensures Sum(UNITS, ranked[..i]) < offering
    ensures Fills(ranked, offering)[i] == Share(ranked, offering, i)
  {
    var init := ranked[..|ranked|-1];
    if Sum(UNITS, init) >= offering {
      FillsAt(init, offering, i);
      assert init[..i] == ranked[..i];
      assert Fills(ranked, offering) == Fills(init, offering);
    } else {
      assert Cut(init, offering) == |init| by {
        if init != [] { UnitsMonotone(init, |init| - 1); }
      }
      assert init[..|init|] == init;
      if i < |init| {
        FillsAt(init, offering, i);
        assert init[..i] == ranked[..i];
      } else if init != [] {
        FillsAt(init, offering, 0);
      }
    }
  }

  /** Every bid before the last one reached is filled completely. */
  lemma CompleteButLast(ranked: seq<Bid>, offering: int, i: nat)
    requires i + 1 < Cut(ranked, offering)
    ensures Sum(UNITS, ranked[..i]) + ranked[i].units < offering
  {
    CutReached(ranked, offering, i + 1);
    assert ranked[..i+1][..i] == ranked[..i];
  }

  // --------------------------------------------------------------- the loops

  /** A loop that stops at bid `k`, with nothing remaining or no bid left, has seen all that matters. */
  lemma LoopStop(ranked: seq<Bid>, offering: int, k: nat)
    requires k <= |ranked| && (k > 0 ==> Sum(UNITS, ranked[..k-1]) < offering)
    requires k == |ranked| || Sum(UNITS, ranked[..k]) >= offering
    ensures Cut(ranked, offering) == k
    ensures Fills(ranked[..k], offering) == Fills(ranked, offering)
    ensures Min(offering, Sum(UNITS, ranked[..k])) == Min(offering, Sum(UNITS, ranked))
  {
    if k > 0 { CutReached(ranked, offering, k - 1); }
    CutReached(ranked, offering, k);
    FillsPrefix(ranked, offering, k);
    UnitsMonotone(ranked, k);
    assert k == |ranked| ==> ranked[..k] == ranked;
  }

  /** One more bid of the list, seen from the front. */
  lemma FillsStep(ranked: seq<Bid>, offering: int, i: nat)
    requires i < |ranked| && Sum(UNITS, ranked[..i]) < offering && ranked[i].units > 0
    ensures Sum(UNITS, ranked[..i+1]) == Sum(UNITS, ranked[..i]) + ranked[i].units
    ensures Fills(ranked[..i+1], offering) == Fills(ranked[..i], offering) + [Share(ranked, offering, i)]
  {
    assert ranked[..i+1][..i] == ranked[..i];
  }

  /** A bid that does not parse, met after bids that left something over, makes the allocation fail. */
  lemma MeetsUnparsable(auctionType: AuctionType, ranked: seq<Bid>, offering: nat, i: nat)
    requires i < |ranked| && !Parses(ranked[i])
    requires i > 0 ==> Sum(UNITS, ranked[..i-1]) < offering
    requires auctionType == BUYBACK ==> Sum(UNITS, ranked[..i]) < offering
    ensures Refused(auctionType, ranked, offering)
  {
    if i > 0 { CutReached(ranked, offering, i - 1); }
    CutReached(ranked, offering, i);
  }

  /** What both loops know when they reach bid `i`. */
  ghost predicate Progress(ranked: seq<Bid>, offering: nat, i: nat, remaining: int, total: int, fills: seq<Fill>) {
    && i <= |ranked| && (i > 0 ==> Sum(UNITS, ranked[..i-1]) < offering)
    && total == Min(offering, Sum(UNITS, ranked[..i])) >= 0
    && remaining == offering - total
    && fills == Fills(ranked[..i], offering)
    && forall j | 0 <= j < i :: Parses(ranked[j])
  }

  lemma ProgressStep(ranked: seq<Bid>, offering: nat, i: nat, remaining: int, total: int, fills: seq<Fill>, fill: int)
    requires Progress(ranked, offering, i, remaining, total, fills) && i < |ranked| && Parses(ranked[i])
    requires remaining != 0 && fill == Min(ranked[i].units, remaining)
    ensures Progress(ranked, offering, i + 1, remaining - fill, total + fill,
                     fills + [Fill(ranked[i].bidder, fill, ranked[i].rate, ranked[i].bidIndex)])
  {
    FillsStep(ranked, offering, i);
  }

  lemma ProgressEnd(auctionType: AuctionType, ranked: seq<Bid>, offering: nat, i: nat, remaining: int, total: nat,
                    fills: seq<Fill>)
    requires Progress(ranked, offering, i, remaining, total, fills)
    requires i == |ranked| || (remaining == 0 && (auctionType == BUYBACK || Parses(ranked[i])))
    ensures Allot(auctionType, ranked, offering) == OutcomeOf(auctionType, fills, total)
  {
    LoopStop(ranked, offering, i);
  }

  /** The loop of `computeUniformAllocation`. */
  method FillUniform(auctionType: AuctionType, sorted: seq<Bid>, offering: nat)
    returns (r: Result<Outcome, AllocationError>)
    requires auctionType != BUYBACK
    ensures r == Allot(auctionType, sorted, offering)
  {
    var remaining, totalAllocated := offering, 0;
    var allocations: seq<Fill> := [];
    var clearingRate: Option<nat> := None;
    var i := 0;
    while i < |sorted|
      invariant Progress(sorted, offering, i, remaining, totalAllocated, allocations)
      invariant clearingRate == if allocations == [] then None else Some(allocations[|allocations|-1].rate)
    {
      if !Parses(sorted[i]) {
        MeetsUnparsable(auctionType, sorted, offering, i);
        return Failure(NotPositive);
      }
      if remaining == 0 { break; }
      var fill := if sorted[i].units > remaining then remaining else sorted[i].units;
      ProgressStep(sorted, offering, i, remaining, totalAllocated, allocations, fill);
      allocations := allocations + [Fill(sorted[i].bidder, fill, sorted[i].rate, sorted[i].bidIndex)];
      totalAllocated := totalAllocated + fill;
      remaining := remaining - fill;
      clearingRate := Some(sorted[i].rate);
      i := i + 1;
    }
    ProgressEnd(auctionType, sorted, offering, i, remaining, totalAllocated, allocations);
    if clearingRate == None { return Failure(NoAllocatableBids); }
    return Success(Outcome(auctionType, clearingRate.value, totalAllocated, AtRate(allocations, clearingRate.value)));
  }

  /** The loop of `computeBuybackAllocation`. */
  method FillBuyback(sorted: seq<Bid>, targetSize: nat) returns (r: Result<Outcome, AllocationError>)
    ensures r == Allot(BUYBACK, sorted, targetSize)
  {
    var remaining, totalAllocated := targetSize, 0;
    var allocations: seq<Fill> := [];
    var i := 0;
    while i < |sorted|
      invariant Progress(sorted, targetSize, i, remaining, totalAllocated, allocations)
    {
      if remaining == 0 { break; }
      if !Parses(sorted[i]) {
        MeetsUnparsable(BUYBACK, sorted, targetSize, i);
        return Failure(NotPositive);
      }
      var fill := if sorted[i].units > remaining then remaining else sorted[i].units;
      ProgressStep(sorted, targetSize, i, remaining, totalAllocated, allocations, fill);
      allocations := allocations + [Fill(sorted[i].bidder, fill, sorted[i].rate, sorted[i].bidIndex)];
      totalAllocated := totalAllocated + fill;
      remaining := remaining - fill;
      i := i + 1;
    }
    ProgressEnd(BUYBACK, sorted, targetSize, i, remaining, totalAllocated, allocations);
    if allocations == [] { return Failure(NoAllocatableBids); }
    return Success(Outcome(BUYBACK, allocations[0].rate, totalAllocated, allocations));
  }

  method ComputeUniformAllocation(auctionType: AuctionType, bids: seq<Bid>, offering: int)
    returns (r: Result<Outcome, AllocationError>)
    ensures r == if auctionType == BUYBACK then Failure(WrongAuctionType) else Allocate(auctionType, bids, offering)
  {
    if auctionType == BUYBACK { return Failure(WrongAuctionType); }
    if offering <= 0 { return Failure(OfferingNotPositive); }
    if SortThrows(bids) { return Failure(NotPositive); }
    r := FillUniform(auctionType, Ranked(auctionType, bids), offering);
  }

  method ComputeBuybackAllocation(bids: seq<Bid>, targetSize: int) returns (r: Result<Outcome, AllocationError>)
    ensures r == Allocate(BUYBACK, bids, targetSize)
  {
    if targetSize <= 0 { return Failure(OfferingNotPositive); }
    if SortThrows(bids) { return Failure(NotPositive); }
    r := FillBuyback(Ranked(BUYBACK, bids), targetSize);
  }
}
