/**
 The operator's side of an auction: the ranking, the auto-fill selection and the marginal rate that the browser
 computes for itself, independently of the server.
 */
module AuctionSelection {
  import opened StableSort
  import opened Allocation
  import opened AllocationTheorems

  /** A bid as the browser sees it: no nonce, no signature. */
  function Shown(b: Bid): Bid {
    b.(bidderNonce := 0, bidderSig := "")
  }

  const SHOWN: Bid -> Bid := (b: Bid) => Shown(b)

  function CompareIntegers(left: int, right: int): int {
    if left < right then -1 else if left > right then 1 else 0
  }

  function CompareAuctionBids(auctionType: AuctionType, left: Bid, right: Bid): int {
    var rateOrder := CompareIntegers(left.rate, right.rate);
    if rateOrder != 0 then (if auctionType == PRICE then 0 - rateOrder else rateOrder)
    else 0 - CompareIntegers(left.units, right.units)
  }

  function ShownRanking(auctionType: AuctionType): Comparator<Bid> {
    (a, b) => CompareAuctionBids(auctionType, a, b)
  }

  function SortAuctionBids(auctionType: AuctionType, bids: seq<Bid>): seq<Bid> {
    Sort(bids, ShownRanking(auctionType))
  }

  /** The two rankings agree, so browser and server put the same bids in the same order, ties included. */
  lemma SameOrder(auctionType: AuctionType, bids: seq<Bid>)
    ensures SortAuctionBids(auctionType, Map(SHOWN, bids)) == Map(SHOWN, Ranked(auctionType, bids))
  {
    SortMap(SHOWN, Ranking(auctionType), ShownRanking(auctionType), bids);
  }

  lemma {:induction false} ShownUnits(bids: seq<Bid>)
    ensures Sum(UNITS, Map(SHOWN, bids)) == Sum(UNITS, bids)
  {
    if bids != [] {
      ShownUnits(bids[..|bids|-1]);
      assert Map(SHOWN, bids)[..|bids|-1] == Map(SHOWN, bids[..|bids|-1]);
    }
  }

  lemma {:induction false} ShownCut(ranked: seq<Bid>, offering: int)
    ensures Cut(Map(SHOWN, ranked), offering) == Cut(ranked, offering)
  {
    if ranked != [] {
      var init := ranked[..|ranked|-1];
      ShownCut(init, offering);
      ShownUnits(init);
      assert Map(SHOWN, ranked)[..|ranked|-1] == Map(SHOWN, init);
    }
  }

  /** The server does not look at nonces or signatures when it fills. */
  lemma {:induction false} ShownFills(ranked: seq<Bid>, offering: int)
    ensures Fills(Map(SHOWN, ranked), offering) == Fills(ranked, offering)
  {
    if ranked != [] {
      var init := ranked[..|ranked|-1];
      ShownFills(init, offering);
      ShownUnits(init);
      assert Map(SHOWN, ranked)[..|ranked|-1] == Map(SHOWN, init);
    }
  }

  // ------------------------------------------------------------- the auto-fill

  datatype Placed = Placed(bid: Bid, position: nat)

  const BID: Placed -> Bid := (p: Placed) => p.bid
  const POSITION: Placed -> nat := (p: Placed) => p.position

  function PlacedRanking(auctionType: AuctionType): Comparator<Placed> {
    (a: Placed, b: Placed) => CompareAuctionBids(auctionType, a.bid, b.bid)
  }

  function WithPositions(bids: seq<Bid>): seq<Placed> {
    seq(|bids|, i requires 0 <= i < |bids| => Placed(bids[i], i))
  }

  function RankedPlaces(auctionType: AuctionType, bids: seq<Bid>): seq<Placed> {
    Sort(WithPositions(bids), PlacedRanking(auctionType))
  }

  /** Ranking positioned bids ranks the bids, and every position still points at its bid. */
  lemma RankedPlacesPoint(auctionType: AuctionType, bids: seq<Bid>)
    ensures var ranked := RankedPlaces(auctionType, bids);
            && Map(BID, ranked) == SortAuctionBids(auctionType, bids)
            && |ranked| == |bids|
            && forall i | 0 <= i < |ranked| :: ranked[i].position < |bids| && bids[ranked[i].position] == ranked[i].bid
  {
    var placed := WithPositions(bids);
    var ranked := RankedPlaces(auctionType, bids);
    SortMap(BID, PlacedRanking(auctionType), ShownRanking(auctionType), placed);
    assert Map(BID, placed) == bids;
    SortPermutes(placed, PlacedRanking(auctionType));
    forall i | 0 <= i < |ranked| ensures ranked[i] in placed {
      assert ranked[i] in multiset(ranked);
    }
  }

  /** The positions that cover the offering, in the order in which the set will list them. */
  function Covering(ranked: seq<Placed>, offering: nat): seq<nat> {
    Map(POSITION, ranked[..Cut(Map(BID, ranked), offering)])
  }

  function AutoFill(auctionType: AuctionType, bids: seq<Bid>, offering: nat): seq<nat> {
    Covering(RankedPlaces(auctionType, bids), offering)
  }

  method TakeToCover(ranked: seq<Placed>, offering: nat) returns (selected: seq<nat>)
    ensures selected == Covering(ranked, offering)
  {
    ghost var bids := Map(BID, ranked);
    selected := [];
    var accumulated := 0;
    var i := 0;
    while i < |ranked|
      invariant i <= |ranked|
      invariant selected == Map(POSITION, ranked[..i])
      invariant accumulated == Sum(UNITS, bids[..i])
      invariant i > 0 ==> Sum(UNITS, bids[..i-1]) < offering
    {
      if accumulated >= offering { break; }
      assert bids[..i+1][..i] == bids[..i];
      selected := selected + [ranked[i].position];
      accumulated := accumulated + ranked[i].bid.units;
      i := i + 1;
    }
    LoopStop(bids, offering, i);
  }

  method SelectAuctionBidPositions(bids: seq<Bid>, auctionType: AuctionType, offering: nat) returns (selected: seq<nat>)
    ensures selected == AutoFill(auctionType, bids, offering)
  {
    if offering == 0 {
      CutOfNothing(Map(BID, RankedPlaces(auctionType, bids)));
      return [];
    }
    selected := TakeToCover(RankedPlaces(auctionType, bids), offering);
  }

  /** Auto-fill selects the best bids, in rank order, up to the first that covers the offering. */
  lemma AutoFillPicks(auctionType: AuctionType, bids: seq<Bid>, offering: nat)
    ensures var sorted := SortAuctionBids(auctionType, bids);
            var selected := AutoFill(auctionType, bids, offering);
            && |selected| == Cut(sorted, offering)
            && forall i | 0 <= i < |selected| :: selected[i] < |bids| && bids[selected[i]] == sorted[i]
  {
    RankedPlacesPoint(auctionType, bids);
    var ranked := RankedPlaces(auctionType, bids);
    forall i | 0 <= i < |ranked| ensures Map(BID, ranked)[i] == ranked[i].bid {}
  }

  lemma {:induction false} CutOfNothing(ranked: seq<Bid>)
    ensures Cut(ranked, 0) == 0
  {
    if ranked != [] {
      UnitsMonotone(ranked, |ranked| - 1);
      CutOfNothing(ranked[..|ranked|-1]);
    }
  }

  // --------------------------------------------------------- the marginal rate

  /** The rate of the last fill; 0 when nothing is filled. */
  function LastRate(fills: seq<Fill>): nat {
    if fills == [] then 0 else fills[|fills|-1].rate
  }

  method MarginalClearingRate(picked: seq<Bid>, auctionType: AuctionType, offering: nat) returns (clearingRate: nat)
    ensures clearingRate == LastRate(Fills(SortAuctionBids(auctionType, picked), offering))
  {
    ghost var fills := Fills(SortAuctionBids(auctionType, picked), offering);
    if picked == [] { return 0; }
    var sorted := SortAuctionBids(auctionType, picked);
    if offering == 0 {
      CutOfNothing(sorted);
      FillsPrefix(sorted, 0, 0);
      assert sorted[..0] == [];
      return 0;
    }
    var remaining := offering;
    clearingRate := 0;
    var i := 0;
    while i < |sorted|
      invariant i <= |sorted| && (i > 0 ==> Sum(UNITS, sorted[..i-1]) < offering)
      invariant remaining == offering - Min(offering, Sum(UNITS, sorted[..i])) && Sum(UNITS, sorted[..i]) >= 0
      invariant clearingRate == LastRate(Fills(sorted[..i], offering))
    {
      if remaining == 0 { break; }
      assert sorted[..i+1][..i] == sorted[..i];
      if sorted[i].units != 0 {
        FillsStep(sorted, offering, i);
        remaining := remaining - if sorted[i].units > remaining then remaining else sorted[i].units;
        clearingRate := sorted[i].rate;
      } else {
        assert Fills(sorted[..i+1], offering) == Fills(sorted[..i], offering);
      }
      i := i + 1;
    }
    LoopStop(sorted, offering, i);
  }

  /** The rate the browser shows for a selection. */
  function MarginalRate(auctionType: AuctionType, picked: seq<Bid>, offering: nat): nat {
    LastRate(Fills(SortAuctionBids(auctionType, Map(SHOWN, picked)), offering))
  }

  ghost predicate OneRate(fills: seq<Fill>) {
    forall i, j | 0 <= i < |fills| && 0 <= j < |fills| :: fills[i].rate == fills[j].rate
  }

  /** The browser's marginal rate is the server's clearing rate, except for a BUYBACK whose fills are at several
      rates: there the server reports the first and lowest, the browser the last and highest. */
  lemma MarginalRateOfFills(auctionType: AuctionType, picked: seq<Bid>, offering: int)
    requires Allocate(auctionType, picked, offering).Success?
    ensures var o := Allocate(auctionType, picked, offering).value;
            MarginalRate(auctionType, picked, offering) == o.clearingRate <==>
            auctionType != BUYBACK || OneRate(o.allocations)
  {
    var ranked := Ranked(auctionType, picked);
    SuccessFacts(auctionType, picked, offering);
    SameOrder(auctionType, picked);
    ShownFills(ranked, offering);
    if auctionType == BUYBACK { FillsBetween(picked, offering); }
  }

  lemma FillsBetween(bids: seq<Bid>, offering: int)
    requires Allocate(BUYBACK, bids, offering).Success?
    ensures var fills := Allocate(BUYBACK, bids, offering).value.allocations;
            && fills != []
            && forall i | 0 <= i < |fills| :: fills[0].rate <= fills[i].rate <= fills[|fills|-1].rate
  {
    var ranked := Ranked(BUYBACK, bids);
    var fills := Fills(ranked, offering);
    SuccessFacts(BUYBACK, bids, offering);
    FillsLength(ranked, offering);
    forall i | 0 <= i < |fills|
      ensures fills[0].rate <= fills[i].rate <= fills[|fills|-1].rate
    {
      FillsAt(ranked, offering, 0);
      FillsAt(ranked, offering, i);
      FillsAt(ranked, offering, |fills| - 1);
      RankedKeys(BUYBACK, bids, 0, i);
      RankedKeys(BUYBACK, bids, i, |fills| - 1);
    }
  }

  /** The units that ask the lowest rate are all that the offering takes. */
  ghost predicate LowestRateCovers(bids: seq<Bid>, offering: int) {
    exists rate: nat ::
      && (forall b | b in bids :: rate <= b.rate)
      && Sum(UpTo(BUYBACK, rate), bids) >= Min(offering, Sum(UNITS, bids))
  }

  lemma LowestRateClears(bids: seq<Bid>, offering: int, lowest: nat)
    requires offering > 0 && Sum(UNITS, bids) > 0
    requires (exists b | b in bids :: b.rate == lowest) && forall b | b in bids :: lowest <= b.rate
    ensures ClearsAt(BUYBACK, bids, Min(offering, Sum(UNITS, bids)), lowest) <==> LowestRateCovers(bids, offering)
  {
    var total := Min(offering, Sum(UNITS, bids));
    forall lower | lower < lowest ensures Sum(UpTo(BUYBACK, lower), bids) < total {
      assert bids[..0] == [];
      UpToWithin(BUYBACK, bids, 0, lower);
    }
    if rate: nat :| (forall b | b in bids :: rate <= b.rate) && Sum(UpTo(BUYBACK, rate), bids) >= total {
      assert rate <= lowest;
    }
  }

  lemma SomethingToPlace(bids: seq<Bid>, offering: int)
    requires Allocate(BUYBACK, bids, offering).Success?
    ensures offering > 0 && Sum(UNITS, bids) > 0
  {
    AllocationSound(BUYBACK, bids, offering);
    SuccessFacts(BUYBACK, bids, offering);
    SomethingPlaced(Allocate(BUYBACK, bids, offering).value.allocations);
  }

  /** A buyback is filled at one rate exactly if the units that ask the lowest rate cover it. */
  lemma OneRateExactly(bids: seq<Bid>, offering: int)
    requires Allocate(BUYBACK, bids, offering).Success?
    ensures OneRate(Allocate(BUYBACK, bids, offering).value.allocations) <==> LowestRateCovers(bids, offering)
  {
    var o := Allocate(BUYBACK, bids, offering).value;
    FillsBetween(bids, offering);
    assert OneRate(o.allocations) <==> o.allocations[0].rate == o.allocations[|o.allocations|-1].rate;
    SuccessFacts(BUYBACK, bids, offering);
    SomethingToPlace(bids, offering);
    BuybackRateExactly(bids, offering, o.clearingRate);
    LastFilledRateClears(BUYBACK, bids, offering, o.clearingRate);
    LowestRateClears(bids, offering, o.clearingRate);
  }

  lemma {:induction false} SomethingPlaced(fills: seq<Fill>)
    requires fills != [] && forall a | a in fills :: a.units > 0
    ensures Sum(FILLED, fills) > 0
  {
    if |fills| > 1 { SomethingPlaced(fills[..|fills|-1]); }
  }

  /** For every selection that the server can allocate, the browser's marginal rate is the server's clearing rate,
      for a BUYBACK exactly if the selected units that ask the lowest rate are all that the offering takes. */
  lemma MarginalRateExactly(auctionType: AuctionType, picked: seq<Bid>, offering: int)
    requires Allocate(auctionType, picked, offering).Success?
    ensures MarginalRate(auctionType, picked, offering) == Allocate(auctionType, picked, offering).value.clearingRate
       <==> auctionType != BUYBACK || LowestRateCovers(picked, offering)
  {
    MarginalRateOfFills(auctionType, picked, offering);
    if auctionType == BUYBACK { OneRateExactly(picked, offering); }
  }
}
