/**
 The two ends together: what a finalised auction guarantees about its proofs, and what becomes of the allocation
 that was computed when the auction closed once the operator auto-fills and approves it.
 */
module AuctionRoundTrip {
  import opened Prelude
  import opened BondLifecycle
  import opened StableSort
  import opened Allocation
  import opened AllocationTheorems
  import opened AuctionSelection
  import opened AuctionFinalise
  import Decimal

  // ------------------------------------------------------------- no bid twice

  lemma SelectedIsNumbered(chain: seq<Bid>, winning: seq<nat>, b: Bid)
    requires Known(chain, winning) && b in At(chain, winning)
    ensures b.bidIndex < |chain| && b.bidIndex in winning && b == Numbered(chain)[b.bidIndex]
  {
    var k :| 0 <= k < |winning| && At(chain, winning)[k] == b;
    assert Numbered(chain)[winning[k]].bidIndex == winning[k];
  }

  lemma RankedMember(auctionType: AuctionType, bids: seq<Bid>, i: nat)
    requires i < |Ranked(auctionType, bids)|
    ensures Ranked(auctionType, bids)[i] in bids
  {
    SortPermutes(bids, Ranking(auctionType));
    assert Ranked(auctionType, bids)[i] in multiset(Ranked(auctionType, bids));
  }

  /** Ranking distinct on-chain bids keeps their indexes distinct. */
  lemma RankedIndexesDistinct(auctionType: AuctionType, chain: seq<Bid>, winning: seq<nat>, i: nat, j: nat)
    requires Known(chain, winning) && Distinct(winning)
    requires i < j < |Ranked(auctionType, At(chain, winning))|
    ensures Ranked(auctionType, At(chain, winning))[i].bidIndex != Ranked(auctionType, At(chain, winning))[j].bidIndex
  {
    var selected := At(chain, winning);
    var ranked := Ranked(auctionType, selected);
    SortPermutes(selected, Ranking(auctionType));
    RankedMember(auctionType, selected, i);
    RankedMember(auctionType, selected, j);
    SelectedIsNumbered(chain, winning, ranked[i]);
    SelectedIsNumbered(chain, winning, ranked[j]);
    forall k, l | 0 <= k < l < |selected| ensures selected[k] != selected[l] {
      assert selected[k].bidIndex == winning[k] && selected[l].bidIndex == winning[l];
    }
    PermutedDistinct(selected, ranked, i, j);
  }

  /** What an accepted selection went through. */
  lemma SubmittedSteps(auctionType: AuctionType, chain: seq<Bid>, selected: seq<Bid>, offering: nat, expected: string)
    requires forall b | b in selected :: b.bidIndex < |chain|
    requires Submit(auctionType, chain, selected, offering, expected).Success?
    ensures Allocate(auctionType, selected, offering).Success?
    ensures var s := Submit(auctionType, chain, selected, offering, expected).value;
            var o := Allocate(auctionType, selected, offering).value;
            && s.allocations == o.allocations && Decimal.Text(o.clearingRate) == expected
            && (forall i | 0 <= i < |o.allocations| :: o.allocations[i].bidIndex < |chain|)
            && Proofs(chain, o.allocations) == Success(s.proofs)
  {
    FillsOwned(auctionType, selected, offering);
  }

  lemma AcceptedSteps(status: AuctionStatus, size: Option<nat>, auctionType: AuctionType, chain: seq<Bid>,
                      winning: seq<nat>, expected: string)
    requires Decide(status, size, auctionType, chain, winning, expected).Success?
    ensures status == Closed && size.Some? && Known(chain, winning) && Distinct(winning)
    ensures Submit(auctionType, chain, At(chain, winning), size.value, expected) ==
            Decide(status, size, auctionType, chain, winning, expected)
  {
    LookupExactly(chain, winning);
  }

  /** Proof `i` is the proof of the bid that fill `i` fills, and that bid was selected. */
  ghost predicate Paired(chain: seq<Bid>, winning: seq<nat>, fill: Fill, proof: Proof) {
    var index := proof.bidIndex;
    && index in winning && index < |chain| && index == fill.bidIndex
    && fill.bidder == chain[index].bidder && 0 < fill.units <= chain[index].units
    && proof.bidderNonce == chain[index].bidderNonce && proof.bidderSig == chain[index].bidderSig != ""
  }

  /** Every allocation but the last gives its bid all the units it asked for. */
  ghost predicate CompleteButLastProof(chain: seq<Bid>, s: Submission) {
    forall i | 0 <= i < |s.allocations| - 1 ::
      s.allocations[i].bidIndex < |chain| && s.allocations[i].units == chain[s.allocations[i].bidIndex].units
  }

  ghost predicate Named(proofs: seq<Proof>, index: nat) {
    exists j | 0 <= j < |proofs| :: proofs[j].bidIndex == index
  }

  /** The bid of the proof ranks no worse than bid `index`. */
  predicate NoWorse(auctionType: AuctionType, chain: seq<Bid>, proof: Proof, index: nat) {
    && index < |chain| && proof.bidIndex < |chain|
    && Key(auctionType, chain[proof.bidIndex].rate) <= Key(auctionType, chain[index].rate)
  }

  /** A selected bid that no proof names is no better than any bid that a proof names. */
  ghost predicate NoBetterLeftOut(auctionType: AuctionType, chain: seq<Bid>, winning: seq<nat>, s: Submission) {
    forall i, k | 0 <= i < |s.proofs| && 0 <= k < |winning| ::
      Named(s.proofs, winning[k]) || NoWorse(auctionType, chain, s.proofs[i], winning[k])
  }

  /** A finalised auction fills min(offering, selected units), and its proofs are pairwise distinct selected bids,
      each the bid that its allocation fills, with that bid's own nonce and signature. All fills but the last are
      complete, and no selected bid is passed over for a worse one. */
  lemma FinaliseSound(status: AuctionStatus, size: Option<nat>, auctionType: AuctionType, chain: seq<Bid>,
                      winning: seq<nat>, expected: string)
    requires Decide(status, size, auctionType, chain, winning, expected).Success?
    ensures status == Closed && size.Some? && Known(chain, winning) && Distinct(winning)
    ensures var s := Decide(status, size, auctionType, chain, winning, expected).value;
            && Sum(FILLED, s.allocations) == Min(size.value, Sum(UNITS, At(chain, winning)))
            && |s.proofs| == |s.allocations|
            && (forall i | 0 <= i < |s.proofs| :: Paired(chain, winning, s.allocations[i], s.proofs[i]))
            && (forall i, j | 0 <= i < j < |s.proofs| :: s.proofs[i].bidIndex != s.proofs[j].bidIndex)
            && CompleteButLastProof(chain, s)
            && NoBetterLeftOut(auctionType, chain, winning, s)
  {
    AcceptedSteps(status, size, auctionType, chain, winning, expected);
    SubmittedSteps(auctionType, chain, At(chain, winning), size.value, expected);
    var s := Decide(status, size, auctionType, chain, winning, expected).value;
    PairedProofs(auctionType, chain, winning, size.value, s);
    forall i | 0 <= i < |s.proofs| ensures s.proofs[i].bidIndex == s.allocations[i].bidIndex {
      assert Paired(chain, winning, s.allocations[i], s.proofs[i]);
    }
    CompleteProofs(auctionType, chain, winning, size.value, s);
    NothingBetterLeftOut(auctionType, chain, winning, size.value, s);
  }

  lemma PairedProofs(auctionType: AuctionType, chain: seq<Bid>, winning: seq<nat>, offering: nat, s: Submission)
    requires Known(chain, winning) && Distinct(winning)
    requires Allocate(auctionType, At(chain, winning), offering).Success?
    requires s.allocations == Allocate(auctionType, At(chain, winning), offering).value.allocations
    requires forall i | 0 <= i < |s.allocations| :: s.allocations[i].bidIndex < |chain|
    requires Proofs(chain, s.allocations) == Success(s.proofs)
    ensures Sum(FILLED, s.allocations) == Min(offering, Sum(UNITS, At(chain, winning)))
    ensures |s.proofs| == |s.allocations|
    ensures forall i | 0 <= i < |s.proofs| :: Paired(chain, winning, s.allocations[i], s.proofs[i])
    ensures forall i, j | 0 <= i < j < |s.proofs| :: s.proofs[i].bidIndex != s.proofs[j].bidIndex
  {
    var selected := At(chain, winning);
    var ranked := Ranked(auctionType, selected);
    AllocationSound(auctionType, selected, offering);
    ProofsExactly(chain, s.allocations);
    forall i | 0 <= i < |s.proofs| ensures Paired(chain, winning, s.allocations[i], s.proofs[i]) {
      RankedMember(auctionType, selected, i);
      SelectedIsNumbered(chain, winning, ranked[i]);
    }
    forall i, j | 0 <= i < j < |s.proofs| ensures s.proofs[i].bidIndex != s.proofs[j].bidIndex {
      RankedIndexesDistinct(auctionType, chain, winning, i, j);
    }
  }

  lemma CompleteProofs(auctionType: AuctionType, chain: seq<Bid>, winning: seq<nat>, offering: nat, s: Submission)
    requires Known(chain, winning)
    requires Allocate(auctionType, At(chain, winning), offering).Success?
    requires s.allocations == Allocate(auctionType, At(chain, winning), offering).value.allocations
    ensures CompleteButLastProof(chain, s)
  {
    var selected := At(chain, winning);
    AllocationSound(auctionType, selected, offering);
    forall i | 0 <= i < |s.allocations| - 1
      ensures s.allocations[i].bidIndex < |chain| && s.allocations[i].units == chain[s.allocations[i].bidIndex].units
    {
      RankedMember(auctionType, selected, i);
      SelectedIsNumbered(chain, winning, Ranked(auctionType, selected)[i]);
    }
  }

  lemma NothingBetterLeftOut(
    auctionType: AuctionType, chain: seq<Bid>, winning: seq<nat>, offering: nat, s: Submission)
    requires Known(chain, winning)
    requires Allocate(auctionType, At(chain, winning), offering).Success?
    requires s.allocations == Allocate(auctionType, At(chain, winning), offering).value.allocations
    requires |s.proofs| == |s.allocations|
    requires forall i | 0 <= i < |s.proofs| :: s.proofs[i].bidIndex == s.allocations[i].bidIndex
    ensures NoBetterLeftOut(auctionType, chain, winning, s)
  {
    var selected := At(chain, winning);
    var ranked := Ranked(auctionType, selected);
    AllocationSound(auctionType, selected, offering);
    forall i, k | 0 <= i < |s.proofs| && 0 <= k < |winning|
      ensures Named(s.proofs, winning[k]) || NoWorse(auctionType, chain, s.proofs[i], winning[k])
    {
      var q := PlaceOf(auctionType, chain, winning, k);
      if q < |s.proofs| {
        assert s.proofs[q].bidIndex == winning[k];
      } else {
        RankedMember(auctionType, selected, i);
        SelectedIsNumbered(chain, winning, ranked[i]);
      }
    }
  }

  /** Where the ranking puts a selected bid. */
  lemma PlaceOf(auctionType: AuctionType, chain: seq<Bid>, winning: seq<nat>, k: nat) returns (q: nat)
    requires Known(chain, winning) && k < |winning|
    ensures q < |Ranked(auctionType, At(chain, winning))|
    ensures Ranked(auctionType, At(chain, winning))[q] == Numbered(chain)[winning[k]]
  {
    var selected := At(chain, winning);
    var ranked := Ranked(auctionType, selected);
    SortPermutes(selected, Ranking(auctionType));
    assert selected[k] in multiset(selected);
    assert selected[k] in multiset(ranked);
    q :| 0 <= q < |ranked| && ranked[q] == selected[k];
  }

  // ---------------------------------------------------- auto-fill, then finalise

  /** Allocating again over the bids that the first allocation reached, in rank order, changes nothing. */
  lemma PrefixAllocatesTheSame(auctionType: AuctionType, bids: seq<Bid>, offering: int)
    requires Allocate(auctionType, bids, offering).Success?
    ensures var ranked := Ranked(auctionType, bids);
            var reached := ranked[..Cut(ranked, offering)];
            Allocate(auctionType, reached, offering) == Allocate(auctionType, bids, offering)
  {
    var ranked := Ranked(auctionType, bids);
    SuccessFacts(auctionType, bids, offering);
    RankingOrders(auctionType);
    SortSorted(bids, Ranking(auctionType));
    SortedPrefix(ranked, Ranking(auctionType), Cut(ranked, offering));
    SortOfSorted(ranked[..Cut(ranked, offering)], Ranking(auctionType));
    ReachedAllots(auctionType, ranked, offering);
  }

  lemma ReachedAllots(auctionType: AuctionType, ranked: seq<Bid>, offering: nat)
    requires forall i | 0 <= i < Cut(ranked, offering) :: Parses(ranked[i])
    ensures var reached := ranked[..Cut(ranked, offering)];
            && !SortThrows(reached)
            && Min(offering, Sum(UNITS, reached)) == Min(offering, Sum(UNITS, ranked)) >= 0
            && Allot(auctionType, reached, offering) ==
               OutcomeOf(auctionType, Fills(ranked, offering), Min(offering, Sum(UNITS, reached)))
  {
    var reached := ranked[..Cut(ranked, offering)];
    FillsPrefix(ranked, offering, |reached|);
    FillsTotal(ranked, offering);
    FillsTotal(reached, offering);
    UnitsMonotone(ranked, |reached|);
    UnitsMonotone(reached, |reached|);
    AllParse(auctionType, reached, offering);
  }

  /** The list the auction was closed with, as the projection keeps it: every bid is the on-chain bid of its index,
      and no index appears twice. */
  ghost predicate Projected(active: seq<Bid>, chain: seq<Bid>) {
    && (forall i | 0 <= i < |active| ::
          active[i].bidIndex < |chain| && active[i] == Numbered(chain)[active[i].bidIndex])
    && (forall i, j | 0 <= i < j < |active| :: active[i].bidIndex != active[j].bidIndex)
  }

  /** The indexes that the browser sends: those of the selected positions, in the order of the selection. */
  function WinningIndexes(active: seq<Bid>, selected: seq<nat>): seq<nat>
    requires forall i | 0 <= i < |selected| :: selected[i] < |active|
  {
    seq(|selected|, i requires 0 <= i < |selected| => Map(SHOWN, active)[selected[i]].bidIndex)
  }

  function Picked(active: seq<Bid>, selected: seq<nat>): seq<Bid>
    requires forall i | 0 <= i < |selected| :: selected[i] < |active|
  {
    seq(|selected|, i requires 0 <= i < |selected| => active[selected[i]])
  }

  lemma AutoFillIsReached(auctionType: AuctionType, active: seq<Bid>, offering: nat)
    ensures var selected := AutoFill(auctionType, Map(SHOWN, active), offering);
            var ranked := Ranked(auctionType, active);
            && |selected| == Cut(ranked, offering)
            && (forall i | 0 <= i < |selected| :: selected[i] < |active|)
            && forall i | 0 <= i < |selected| :: Shown(active[selected[i]]) == Shown(ranked[i])
  {
    var ranked := Ranked(auctionType, active);
    AutoFillPicks(auctionType, Map(SHOWN, active), offering);
    SameOrder(auctionType, active);
    ShownCut(ranked, offering);
  }

  /** A bid of the projected list is known by its index. */
  lemma SameIndexSameBid(active: seq<Bid>, chain: seq<Bid>, a: Bid, b: Bid)
    requires Projected(active, chain) && a in active && b in active && a.bidIndex == b.bidIndex
    ensures a == b == Numbered(chain)[a.bidIndex]
    ensures a.bidIndex < |chain|
  {
  }

  /** What the server reads back for the auto-filled selection is the reached prefix of its own ranking. */
  lemma AutoFillLooksUp(auctionType: AuctionType, active: seq<Bid>, chain: seq<Bid>, offering: nat)
    requires Projected(active, chain)
    ensures var selected := AutoFill(auctionType, Map(SHOWN, active), offering);
            var ranked := Ranked(auctionType, active);
            && (forall i | 0 <= i < |selected| :: selected[i] < |active|)
            && Picked(active, selected) == ranked[..Cut(ranked, offering)]
            && Lookup(chain, WinningIndexes(active, selected)) == Success(ranked[..Cut(ranked, offering)])
  {
    var selected := AutoFill(auctionType, Map(SHOWN, active), offering);
    var ranked := Ranked(auctionType, active);
    AutoFillIsReached(auctionType, active, offering);
    forall i | 0 <= i < |selected| ensures active[selected[i]] == ranked[i] {
      RankedMember(auctionType, active, i);
      SameIndexSameBid(active, chain, active[selected[i]], ranked[i]);
    }
    SortPermutes(active, Ranking(auctionType));
    forall i, j | 0 <= i < j < |selected| ensures ranked[i] != ranked[j] {
      PermutedDistinct(active, ranked, i, j);
    }
    LooksUp(active, chain, selected, ranked[..Cut(ranked, offering)]);
  }

  lemma LooksUp(active: seq<Bid>, chain: seq<Bid>, selected: seq<nat>, bids: seq<Bid>)
    requires Projected(active, chain) && |selected| == |bids|
    requires forall i | 0 <= i < |selected| :: selected[i] < |active| && active[selected[i]] == bids[i]
    requires forall i, j | 0 <= i < j < |bids| :: bids[i] != bids[j]
    ensures Picked(active, selected) == bids
    ensures Lookup(chain, WinningIndexes(active, selected)) == Success(bids)
  {
    var winning := WinningIndexes(active, selected);
    forall i | 0 <= i < |winning|
      ensures winning[i] == bids[i].bidIndex < |chain| && bids[i] == Numbered(chain)[winning[i]]
    {}
    LookupExactly(chain, winning);
    assert At(chain, winning) == bids;
  }

  /** Every filled bid carries a signature. */
  ghost predicate Signed(chain: seq<Bid>, fills: seq<Fill>) {
    forall a | a in fills :: a.bidIndex < |chain| && chain[a.bidIndex].bidderSig != ""
  }

  /** With an allocation at hand, the rate and the signatures of the filled bids decide. */
  lemma SubmitDecides(
    auctionType: AuctionType, chain: seq<Bid>, selected: seq<Bid>, offering: nat, rate: nat, o: Outcome)
    requires forall b | b in selected :: b.bidIndex < |chain|
    requires Allocate(auctionType, selected, offering) == Success(o)
    ensures var r := Submit(auctionType, chain, selected, offering, Decimal.Text(rate));
            if rate != o.clearingRate then r == Failure(RateMismatch(o.clearingRate))
            else if Signed(chain, o.allocations) then r.Success? && r.value.allocations == o.allocations
            else r.Failure? && r.error.MissingSignature?
  {
    FillsOwned(auctionType, selected, offering);
    ProofsExactly(chain, o.allocations);
    ProofsMissOnly(chain, o.allocations);
    if Decimal.Text(rate) == Decimal.Text(o.clearingRate) {
      Decimal.TextInjective(rate, o.clearingRate);
    }
  }

  lemma {:induction false} ProofsMissOnly(chain: seq<Bid>, fills: seq<Fill>)
    requires forall i | 0 <= i < |fills| :: fills[i].bidIndex < |chain|
    ensures Proofs(chain, fills).Failure? ==> Proofs(chain, fills).error.MissingSignature?
  {
    if fills != [] {
      ProofsMissOnly(chain, fills[..|fills|-1]);
    }
  }

  lemma ClosedDecides(auctionType: AuctionType, chain: seq<Bid>, winning: seq<nat>, selected: seq<Bid>, offering: nat,
                      expected: string)
    requires Lookup(chain, winning) == Success(selected)
    ensures forall b | b in selected :: b.bidIndex < |chain|
    ensures Decide(Closed, Some(offering), auctionType, chain, winning, expected) ==
            Submit(auctionType, chain, selected, offering, expected)
  {
    LookupExactly(chain, winning);
    forall b | b in selected ensures b.bidIndex < |chain| { SelectedIsNumbered(chain, winning, b); }
  }

  /** Auto-fill, then approve: the server recomputes the allocation of the close, fill by fill. It is accepted exactly
      if every filled bid is signed and, for a BUYBACK, the units that ask the lowest rate cover the offering: the
      browser sends the last filled rate and the server expects the first. */
  lemma AutoFillThenFinalise(auctionType: AuctionType, active: seq<Bid>, chain: seq<Bid>, offering: nat)
    requires Projected(active, chain)
    requires Allocate(auctionType, active, offering).Success?
    ensures var closed := Allocate(auctionType, active, offering).value;
            var selected := AutoFill(auctionType, Map(SHOWN, active), offering);
            && (forall i | 0 <= i < |selected| :: selected[i] < |active|)
            && var expected := Decimal.Text(MarginalRate(auctionType, Picked(active, selected), offering));
               var r := Decide(Closed, Some(offering), auctionType, chain, WinningIndexes(active, selected), expected);
               if auctionType == BUYBACK && !LowestRateCovers(active, offering)
               then r == Failure(RateMismatch(closed.clearingRate))
               else if Signed(chain, closed.allocations) then r.Success? && r.value.allocations == closed.allocations
               else r.Failure? && r.error.MissingSignature?
  {
    var selected := AutoFill(auctionType, Map(SHOWN, active), offering);
    var ranked := Ranked(auctionType, active);
    var reached := ranked[..Cut(ranked, offering)];
    AutoFillLooksUp(auctionType, active, chain, offering);
    PrefixAllocatesTheSame(auctionType, active, offering);
    MarginalRateOfFills(auctionType, reached, offering);
    if auctionType == BUYBACK { OneRateExactly(active, offering); }
    var rate := MarginalRate(auctionType, reached, offering);
    ClosedDecides(auctionType, chain, WinningIndexes(active, selected), reached, offering, Decimal.Text(rate));
    SubmitDecides(auctionType, chain, reached, offering, rate, Allocate(auctionType, active, offering).value);
  }

  /** Two bids, two rates, a buyback that needs both: the server computes 100, the browser shows 200. */
  lemma BuybackRatesDisagree()
    ensures var chain := [Bid(1, 10, 100, 0, 0, "s"), Bid(2, 10, 200, 1, 0, "t")];
            && Allocate(BUYBACK, chain, 20).Success?
            && Allocate(BUYBACK, chain, 20).value.clearingRate == 100
            && MarginalRate(BUYBACK, chain, 20) == 200
  {
    var low, high := Bid(1, 10, 100, 0, 0, "s"), Bid(2, 10, 200, 1, 0, "t");
    var chain := [low, high];
    PositiveBidsSucceed(BUYBACK, chain, 20);
    BuybackRateExactly(chain, 20, 100);
    assert low in chain;
    TwoRanked(chain);
    SameOrder(BUYBACK, chain);
    ShownFills(chain, 20);
    assert chain[..1] == [low] && [low][..0] == [];
    assert Sum(UNITS, [low]) == 10;
    assert Fills([low], 20) == [Fill(1, 10, 100, 0)];
  }

  lemma TwoRanked(chain: seq<Bid>)
    requires |chain| == 2 && chain[0].rate < chain[1].rate
    ensures Ranked(BUYBACK, chain) == chain
  {
    assert Sorted(chain[..0], Ranking(BUYBACK));
    assert chain[..1][..0] == [];
    assert Sorted(chain[..1], Ranking(BUYBACK));
    SortOfSorted(chain, Ranking(BUYBACK));
  }
}
