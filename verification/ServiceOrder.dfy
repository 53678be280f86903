/**
 Who is served, and with what: the outcome of an allocation said of the bids and of nothing in between.
 */
module ServiceOrder {
  import opened Prelude
  import opened StableSort
  import opened Allocation
  import opened AllocationTheorems

  // ----------------------------------------------------------------------- the order

  /** Bid `i` goes before bid `j`: by the better rate, which is the lower one or, for PRICE, the higher; at equal rates
      by more units; at equal rates and units by the earlier place in the list. */
  predicate Precedes(auctionType: AuctionType, bids: seq<Bid>, i: nat, j: nat)
    requires i < |bids| && j < |bids|
  {
    var a, b := bids[i], bids[j];
    if a.rate != b.rate then (if auctionType == PRICE then a.rate > b.rate else a.rate < b.rate)
    else if a.units != b.units then a.units > b.units
    else i < j
  }

  /** Every place of the list, once. */
  ghost predicate AllPlaces(places: seq<nat>, n: nat) {
    && |places| == n
    && (forall i | 0 <= i < n :: places[i] < n)
    && (forall i, j | 0 <= i < j < n :: places[i] != places[j])
  }

  ghost predicate InOrder(auctionType: AuctionType, bids: seq<Bid>, places: seq<nat>)
    requires AllPlaces(places, |bids|)
  {
    forall i, j | 0 <= i < j < |places| :: Precedes(auctionType, bids, places[i], places[j])
  }

  /** The units of the first `k` bids in that order. */
  function Before(bids: seq<Bid>, places: seq<nat>, k: nat): int
    requires k <= |places| && forall i | 0 <= i < |places| :: places[i] < |bids|
  {
    if k == 0 then 0 else Before(bids, places, k - 1) + bids[places[k-1]].units
  }

  /** Fill `k` goes to the `k`th bid in that order, which gets all it asks for or all that is left; a buyback pays it
      its own rate, another auction the clearing rate. */
  ghost predicate Serves(
    auctionType: AuctionType, bids: seq<Bid>, offering: int, rate: nat, places: seq<nat>, k: nat, fill: Fill)
    requires AllPlaces(places, |bids|) && k < |bids|
  {
    var bid := bids[places[k]];
    && Before(bids, places, k) < offering
    && fill.bidder == bid.bidder && fill.bidIndex == bid.bidIndex
    && fill.units == Min(bid.units, offering - Before(bids, places, k))
    && fill.rate == if auctionType == BUYBACK then bid.rate else rate
  }

  /** The fills go to the bids in order, until nothing is left or no bid. */
  ghost predicate Served(auctionType: AuctionType, bids: seq<Bid>, offering: int, o: Outcome, places: seq<nat>) {
    && AllPlaces(places, |bids|) && InOrder(auctionType, bids, places)
    && 0 < |o.allocations| <= |bids|
    && (forall k | 0 <= k < |o.allocations| ::
          Serves(auctionType, bids, offering, o.clearingRate, places, k, o.allocations[k]))
    && (|o.allocations| == |bids| || Before(bids, places, |o.allocations|) >= offering)
  }

  // ------------------------------------------------------------------- sorting places

  datatype Placed = Placed(bid: Bid, place: nat)

  const BID: Placed -> Bid := (p: Placed) => p.bid
  const PLACE: Placed -> nat := (p: Placed) => p.place

  function PlacedRanking(auctionType: AuctionType): Comparator<Placed> {
    (a: Placed, b: Placed) => Compare(auctionType, a.bid, b.bid)
  }

  function WithPlaces(bids: seq<Bid>): seq<Placed> {
    seq(|bids|, i requires 0 <= i < |bids| => Placed(bids[i], i))
  }

  predicate Ahead(auctionType: AuctionType, a: Placed, b: Placed) {
    if a.bid.rate != b.bid.rate then (if auctionType == PRICE then a.bid.rate > b.bid.rate else a.bid.rate < b.bid.rate)
    else if a.bid.units != b.bid.units then a.bid.units > b.bid.units
    else a.place < b.place
  }

  ghost predicate Aligned(auctionType: AuctionType, ps: seq<Placed>) {
    forall i, j | 0 <= i < j < |ps| :: Ahead(auctionType, ps[i], ps[j])
  }

  ghost predicate PlacedBefore(ps: seq<Placed>, n: nat) {
    forall p | p in ps :: p.place < n
  }

  /** Inserting the next place from the right puts it behind its equals. */
  lemma {:induction false} InsertAligned(auctionType: AuctionType, sorted: seq<Placed>, x: Placed)
    requires Aligned(auctionType, sorted) && PlacedBefore(sorted, x.place)
    ensures Aligned(auctionType, Insert(sorted, x, PlacedRanking(auctionType)))
    ensures forall p :: p in Insert(sorted, x, PlacedRanking(auctionType)) <==> p in sorted || p == x
  {
    if sorted != [] {
      var init, last := sorted[..|sorted|-1], sorted[|sorted|-1];
      assert sorted == init + [last];
      assert last in sorted && last.place < x.place;
      if PlacedRanking(auctionType)(last, x) > 0 {
        assert forall p | p in init :: p in sorted;
        InsertAligned(auctionType, init, x);
        var front := Insert(init, x, PlacedRanking(auctionType));
        assert Insert(sorted, x, PlacedRanking(auctionType)) == front + [last];
        forall i | 0 <= i < |front| ensures Ahead(auctionType, front[i], last) {
          assert front[i] in front;
          if front[i] in init { FromInit(auctionType, sorted, front[i]); }
        }
      } else {
        forall i | 0 <= i < |sorted| ensures Ahead(auctionType, sorted[i], x) {
          assert sorted[i] in sorted;
          if i < |sorted| - 1 { assert Ahead(auctionType, sorted[i], last); }
        }
      }
    }
  }

  lemma FromInit(auctionType: AuctionType, sorted: seq<Placed>, p: Placed)
    requires Aligned(auctionType, sorted) && sorted != [] && p in sorted[..|sorted|-1]
    ensures Ahead(auctionType, p, sorted[|sorted|-1])
  {
    var i :| 0 <= i < |sorted| - 1 && sorted[i] == p;
  }

  lemma {:induction false} SortAligned(auctionType: AuctionType, bids: seq<Bid>, n: nat)
    requires n <= |bids|
    ensures Aligned(auctionType, Sort(WithPlaces(bids)[..n], PlacedRanking(auctionType)))
    ensures forall p :: p in Sort(WithPlaces(bids)[..n], PlacedRanking(auctionType)) <==> p in WithPlaces(bids)[..n]
  {
    if n > 0 {
      var all := WithPlaces(bids);
      SortAligned(auctionType, bids, n - 1);
      assert all[..n][..n-1] == all[..n-1];
      assert all[..n] == all[..n-1] + [all[n-1]];
      assert PlacedBefore(Sort(all[..n-1], PlacedRanking(auctionType)), n - 1);
      InsertAligned(auctionType, Sort(all[..n-1], PlacedRanking(auctionType)), all[n-1]);
    }
  }

  function RankedPlaces(auctionType: AuctionType, bids: seq<Bid>): seq<Placed> {
    Sort(WithPlaces(bids), PlacedRanking(auctionType))
  }

  /** The ranking is the bids in the stated order. */
  lemma PlacesOfRanking(auctionType: AuctionType, bids: seq<Bid>) returns (places: seq<nat>)
    ensures AllPlaces(places, |bids|) && InOrder(auctionType, bids, places)
    ensures |Ranked(auctionType, bids)| == |bids|
    ensures forall i | 0 <= i < |bids| :: Ranked(auctionType, bids)[i] == bids[places[i]]
  {
    var all, ps := WithPlaces(bids), RankedPlaces(auctionType, bids);
    assert all[..|bids|] == all;
    SortAligned(auctionType, bids, |bids|);
    SortMap(BID, PlacedRanking(auctionType), Ranking(auctionType), all);
    assert Map(BID, all) == bids;
    SortPermutes(all, PlacedRanking(auctionType));
    assert |multiset(ps)| == |ps| && |multiset(all)| == |all|;
    places := Map(PLACE, ps);
    forall i | 0 <= i < |ps| ensures ps[i].place < |bids| && bids[ps[i].place] == ps[i].bid {
      assert ps[i] in ps;
    }
    forall i | 0 <= i < |bids| ensures Ranked(auctionType, bids)[i] == bids[places[i]] {
      assert Map(BID, ps)[i] == ps[i].bid;
    }
    forall i, j | 0 <= i < j < |ps|
      ensures places[i] != places[j] && Precedes(auctionType, bids, places[i], places[j])
    {
      assert Ahead(auctionType, ps[i], ps[j]);
    }
  }

  // ------------------------------------------------------------------------- the fills

  lemma {:induction false} UnitsBefore(bids: seq<Bid>, ranked: seq<Bid>, places: seq<nat>, k: nat)
    requires AllPlaces(places, |bids|) && |ranked| == |bids| && k <= |bids|
    requires forall i | 0 <= i < |bids| :: ranked[i] == bids[places[i]]
    ensures Before(bids, places, k) == Sum(UNITS, ranked[..k])
  {
    if k > 0 {
      UnitsBefore(bids, ranked, places, k - 1);
      assert ranked[..k][..k-1] == ranked[..k-1];
    }
  }

  /** The same, said of the ranking. */
  ghost predicate FillsRank(
    auctionType: AuctionType, ranked: seq<Bid>, offering: int, rate: nat, k: nat, fill: Fill)
    requires k < |ranked|
  {
    && Sum(UNITS, ranked[..k]) < offering
    && fill == Fill(ranked[k].bidder, Min(ranked[k].units, offering - Sum(UNITS, ranked[..k])),
                    if auctionType == BUYBACK then ranked[k].rate else rate, ranked[k].bidIndex)
  }

  lemma OutcomeShape(auctionType: AuctionType, bids: seq<Bid>, offering: int)
    requires Allocate(auctionType, bids, offering).Success?
    ensures var o, ranked := Allocate(auctionType, bids, offering).value, Ranked(auctionType, bids);
            && o.auctionType == auctionType && o.totalAllocated == Min(offering, Sum(UNITS, ranked))
            && 0 < |o.allocations| == Cut(ranked, offering)
            && forall k | 0 <= k < |o.allocations| ::
                 FillsRank(auctionType, ranked, offering, o.clearingRate, k, o.allocations[k])
  {
    var ranked := Ranked(auctionType, bids);
    SuccessFacts(auctionType, bids, offering);
    FillsLength(ranked, offering);
    forall k | 0 <= k < Cut(ranked, offering)
      ensures Sum(UNITS, ranked[..k]) < offering && Fills(ranked, offering)[k] == Share(ranked, offering, k)
    {
      FillsAt(ranked, offering, k);
    }
  }

  lemma RankServes(auctionType: AuctionType, bids: seq<Bid>, offering: int, rate: nat, ranked: seq<Bid>,
                   places: seq<nat>, k: nat, fill: Fill)
    requires AllPlaces(places, |bids|) && |ranked| == |bids| && k < |bids|
    requires forall i | 0 <= i < |bids| :: ranked[i] == bids[places[i]]
    requires FillsRank(auctionType, ranked, offering, rate, k, fill)
    ensures Serves(auctionType, bids, offering, rate, places, k, fill)
  {
    UnitsBefore(bids, ranked, places, k);
  }

  lemma NothingLeft(bids: seq<Bid>, offering: int, ranked: seq<Bid>, places: seq<nat>, n: nat)
    requires AllPlaces(places, |bids|) && |ranked| == |bids| && n == Cut(ranked, offering) < |bids|
    requires forall i | 0 <= i < |bids| :: ranked[i] == bids[places[i]]
    ensures Before(bids, places, n) >= offering
  {
    UnitsBefore(bids, ranked, places, n);
    CutReached(ranked, offering, n);
  }

  lemma ServedFromRanking(
    auctionType: AuctionType, bids: seq<Bid>, offering: int, o: Outcome, ranked: seq<Bid>, places: seq<nat>)
    requires AllPlaces(places, |bids|) && InOrder(auctionType, bids, places) && |ranked| == |bids|
    requires forall i | 0 <= i < |bids| :: ranked[i] == bids[places[i]]
    requires 0 < |o.allocations| == Cut(ranked, offering)
    requires forall k | 0 <= k < |o.allocations| ::
               FillsRank(auctionType, ranked, offering, o.clearingRate, k, o.allocations[k])
    ensures Served(auctionType, bids, offering, o, places)
  {
    forall k | 0 <= k < |o.allocations|
      ensures Serves(auctionType, bids, offering, o.clearingRate, places, k, o.allocations[k])
    {
      RankServes(auctionType, bids, offering, o.clearingRate, ranked, places, k, o.allocations[k]);
    }
    if |o.allocations| < |bids| { NothingLeft(bids, offering, ranked, places, |o.allocations|); }
  }

  lemma TotalPlaced(auctionType: AuctionType, bids: seq<Bid>)
    ensures Sum(UNITS, Ranked(auctionType, bids)) == Sum(UNITS, bids)
  {
    SumSort(UNITS, bids, Ranking(auctionType));
  }

  /** An allocation, both kinds: it says the type it was asked for, its total is all that can be placed, and its fills
      are those of the best bids in the stated order. */
  lemma ServedExactly(auctionType: AuctionType, bids: seq<Bid>, offering: int) returns (places: seq<nat>)
    requires Allocate(auctionType, bids, offering).Success?
    ensures Allocate(auctionType, bids, offering).value.auctionType == auctionType
    ensures Allocate(auctionType, bids, offering).value.totalAllocated == Min(offering, Sum(UNITS, bids))
    ensures Served(auctionType, bids, offering, Allocate(auctionType, bids, offering).value, places)
  {
    places := PlacesOfRanking(auctionType, bids);
    OutcomeShape(auctionType, bids, offering);
    TotalPlaced(auctionType, bids);
    ServedFromRanking(auctionType, bids, offering, Allocate(auctionType, bids, offering).value,
                      Ranked(auctionType, bids), places);
  }

  /** Among bids of one rate, a filled bid has no fewer units than any that is filled later or not at all, and at equal
      units it stands earlier in the list. */
  lemma TiesPreferUnits(auctionType: AuctionType, bids: seq<Bid>, places: seq<nat>, k: nat, l: nat)
    requires AllPlaces(places, |bids|) && InOrder(auctionType, bids, places) && k < l < |bids|
    requires bids[places[k]].rate == bids[places[l]].rate
    ensures bids[places[k]].units >= bids[places[l]].units
    ensures bids[places[k]].units == bids[places[l]].units ==> places[k] < places[l]
  {
    assert Precedes(auctionType, bids, places[k], places[l]);
  }

  // ------------------------------------------------------------------------- refusals

  predicate HasZero(bid: Bid) {
    bid.units == 0 || bid.rate == 0
  }

  /** Comparing two bids reads both rates and, if these are equal, both sizes; every bid is compared with some other,
      and bids of one rate with each other. */
  ghost predicate ComparingFails(bids: seq<Bid>) {
    exists i, j | 0 <= i < |bids| && 0 <= j < |bids| && i != j ::
      bids[i].rate == 0 || (bids[i].rate == bids[j].rate && bids[i].units == 0)
  }

  /** A buyback looks at no further bid once nothing is left; another auction reads one more before it notices. */
  predicate LookedAt(auctionType: AuctionType, bids: seq<Bid>, offering: int, places: seq<nat>, k: nat)
    requires AllPlaces(places, |bids|) && k < |bids|
  {
    if auctionType == BUYBACK then Before(bids, places, k) < offering
    else k == 0 || Before(bids, places, k - 1) < offering
  }

  ghost predicate ReadingFails(auctionType: AuctionType, bids: seq<Bid>, offering: int, places: seq<nat>)
    requires AllPlaces(places, |bids|)
  {
    exists k | 0 <= k < |bids| :: LookedAt(auctionType, bids, offering, places, k) && HasZero(bids[places[k]])
  }

  lemma ExaminedPlaces(auctionType: AuctionType, bids: seq<Bid>, offering: int, ranked: seq<Bid>, places: seq<nat>,
                       k: nat)
    requires AllPlaces(places, |bids|) && |ranked| == |bids| && k < |bids| && offering > 0
    requires forall i | 0 <= i < |bids| :: ranked[i] == bids[places[i]]
    ensures k < Examined(auctionType, ranked, offering) <==> LookedAt(auctionType, bids, offering, places, k)
  {
    UnitsBefore(bids, ranked, places, k);
    CutReached(ranked, offering, k);
    if k > 0 {
      UnitsBefore(bids, ranked, places, k - 1);
      CutReached(ranked, offering, k - 1);
    }
  }

  lemma RefusedPlaces(auctionType: AuctionType, bids: seq<Bid>, offering: int, ranked: seq<Bid>, places: seq<nat>)
    requires AllPlaces(places, |bids|) && |ranked| == |bids| && offering > 0
    requires forall i | 0 <= i < |bids| :: ranked[i] == bids[places[i]]
    ensures Refused(auctionType, ranked, offering) <==> ReadingFails(auctionType, bids, offering, places)
  {
    forall k | 0 <= k < |bids|
      ensures k < Examined(auctionType, ranked, offering) <==> LookedAt(auctionType, bids, offering, places, k)
      ensures Parses(ranked[k]) <==> !HasZero(bids[places[k]])
    {
      ExaminedPlaces(auctionType, bids, offering, ranked, places, k);
    }
  }

  lemma FillsOfSome(ranked: seq<Bid>, offering: int)
    requires ranked != [] && offering > 0 && forall i | 0 <= i < Cut(ranked, offering) :: Parses(ranked[i])
    ensures Fills(ranked, offering) != []
  {
    CutReached(ranked, offering, 0);
    assert ranked[..0] == [];
    FillsLength(ranked, offering);
  }

  /** When nothing is allocated, and with which error: no offering; no bid; or a rate or a size of zero among the bids
      that are compared or looked at. */
  lemma RefusedExactly(auctionType: AuctionType, bids: seq<Bid>, offering: int) returns (places: seq<nat>)
    ensures AllPlaces(places, |bids|) && InOrder(auctionType, bids, places)
    ensures var r := Allocate(auctionType, bids, offering);
            && (r == Failure(OfferingNotPositive) <==> offering <= 0)
            && (r == Failure(NoAllocatableBids) <==> offering > 0 && bids == [])
            && (r == Failure(NotPositive) <==>
                  offering > 0 && (ComparingFails(bids) || ReadingFails(auctionType, bids, offering, places)))
            && (r.Failure? ==> r.error in {OfferingNotPositive, NoAllocatableBids, NotPositive})
  {
    places := PlacesOfRanking(auctionType, bids);
    var ranked := Ranked(auctionType, bids);
    if offering > 0 {
      RefusedPlaces(auctionType, bids, offering, ranked, places);
      assert SortThrows(bids) <==> ComparingFails(bids) by { ThrowsComparing(bids); }
      if bids == [] {
        assert Fills(ranked, offering) == [];
      } else if !Refused(auctionType, ranked, offering) {
        FillsOfSome(ranked, offering);
      }
    }
  }

  lemma ThrowsComparing(bids: seq<Bid>)
    ensures SortThrows(bids) <==> ComparingFails(bids)
  {
    forall i | 0 <= i < |bids| && bids[i].rate == 0 && |bids| >= 2 ensures ComparingFails(bids) {
      var j := if i == 0 then 1 else 0;
      assert 0 <= j < |bids| && j != i && bids[j] == bids[j];
    }
  }
}
