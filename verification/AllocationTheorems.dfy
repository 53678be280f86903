/**
 What the allocation engine promises: it fills what can be filled, best bids first, at the least possible cost,
 and its clearing rate is an order statistic of the bids that does not depend on their order.
 */
module AllocationTheorems {
  import opened StableSort
  import opened Allocation

  /** Lower is better, whatever the auction type. */
  function Key(auctionType: AuctionType, rate: nat): int {
    if auctionType == PRICE then 0 - rate else rate
  }

  // ------------------------------------------------------------ what a success tells

  lemma SuccessFacts(auctionType: AuctionType, bids: seq<Bid>, offering: int)
    requires Allocate(auctionType, bids, offering).Success?
    ensures offering > 0
    ensures var ranked := Ranked(auctionType, bids);
            var fills := Fills(ranked, offering);
            && (forall i | 0 <= i < Cut(ranked, offering) :: Parses(ranked[i]))
            && fills != []
            && Allocate(auctionType, bids, offering) ==
               OutcomeOf(auctionType, fills, Min(offering, Sum(UNITS, ranked)))
  {
  }

  /** Fill `i` goes to ranked bid `i`, at `rate`, and is complete unless it is the last of `n`. */
  ghost predicate Serves(fill: Fill, bid: Bid, rate: nat, complete: bool) {
    && fill.bidder == bid.bidder && fill.bidIndex == bid.bidIndex && fill.rate == rate
    && 0 < fill.units <= bid.units && (complete ==> fill.units == bid.units)
  }

  lemma FillServes(ranked: seq<Bid>, offering: int, i: nat)
    requires forall j | 0 <= j < Cut(ranked, offering) :: Parses(ranked[j])
    requires i < |Fills(ranked, offering)| == Cut(ranked, offering)
    ensures Serves(Fills(ranked, offering)[i], ranked[i], ranked[i].rate, i + 1 < |Fills(ranked, offering)|)
  {
    FillsAt(ranked, offering, i);
    if i + 1 < Cut(ranked, offering) { CompleteButLast(ranked, offering, i); }
  }

  /** Filling is sound: the total is all that can be placed, the fills add up to it, they go to the best ranked
      bids, one fill a bid, complete except perhaps the last, and no bid left out is better than a filled one. */
  lemma AllocationSound(auctionType: AuctionType, bids: seq<Bid>, offering: int)
    requires Allocate(auctionType, bids, offering).Success?
    ensures var o := Allocate(auctionType, bids, offering).value;
            var ranked := Ranked(auctionType, bids);
            && multiset(ranked) == multiset(bids)
            && o.totalAllocated == Sum(FILLED, o.allocations) == Min(offering, Sum(UNITS, bids))
            && 0 < |o.allocations| <= |ranked|
            && (forall i | 0 <= i < |o.allocations| ::
                  Serves(o.allocations[i], ranked[i], if auctionType == BUYBACK then ranked[i].rate else o.clearingRate,
                         i + 1 < |o.allocations|))
            && (forall i, j | 0 <= i < |o.allocations| <= j < |ranked| ::
                  Key(auctionType, ranked[i].rate) <= Key(auctionType, ranked[j].rate))
  {
    var ranked := Ranked(auctionType, bids);
    var fills := Fills(ranked, offering);
    SuccessFacts(auctionType, bids, offering);
    SortPermutes(bids, Ranking(auctionType));
    SumSort(UNITS, bids, Ranking(auctionType));
    FillsTotal(ranked, offering);
    FillsLength(ranked, offering);
    var o := OutcomeOf(auctionType, fills, Min(offering, Sum(UNITS, ranked))).value;
    if auctionType != BUYBACK { AtRateTotal(fills, o.clearingRate); }
    forall i | 0 <= i < |fills| ensures Serves(fills[i], ranked[i], ranked[i].rate, i + 1 < |fills|) {
      FillServes(ranked, offering, i);
    }
    forall i, j | 0 <= i < |fills| <= j < |ranked|
      ensures Key(auctionType, ranked[i].rate) <= Key(auctionType, ranked[j].rate)
    {
      RankedKeys(auctionType, bids, i, j);
    }
  }

  lemma FillsLength(ranked: seq<Bid>, offering: int)
    requires forall i | 0 <= i < Cut(ranked, offering) :: ranked[i].units > 0
    ensures |Fills(ranked, offering)| == Cut(ranked, offering)
  {
    if Cut(ranked, offering) > 0 {
      FillsAt(ranked, offering, 0);
    } else {
      FillsPrefix(ranked, offering, 0);
      assert ranked[..0] == [];
    }
  }

  lemma {:induction false} AtRateTotal(fills: seq<Fill>, rate: nat)
    ensures Sum(FILLED, AtRate(fills, rate)) == Sum(FILLED, fills)
  {
    if fills != [] {
      AtRateTotal(fills[..|fills|-1], rate);
      assert AtRate(fills, rate)[..|fills|-1] == AtRate(fills[..|fills|-1], rate);
    }
  }

  lemma RankedKeys(auctionType: AuctionType, bids: seq<Bid>, i: nat, j: nat)
    requires i <= j < |Ranked(auctionType, bids)|
    ensures var ranked := Ranked(auctionType, bids);
            Key(auctionType, ranked[i].rate) <= Key(auctionType, ranked[j].rate)
  {
    RankingOrders(auctionType);
    SortSorted(bids, Ranking(auctionType));
    if i < j {
      SortedAt(Ranked(auctionType, bids), Ranking(auctionType), i, j);
    }
  }

  lemma AllParse(auctionType: AuctionType, bids: seq<Bid>, offering: nat)
    requires forall i | 0 <= i < |bids| :: Parses(bids[i])
    ensures !SortThrows(bids) && !Refused(auctionType, bids, offering)
  {
  }

  /** Lists of positive bids are allocated whenever there is anything to allocate to anyone. */
  lemma PositiveBidsSucceed(auctionType: AuctionType, bids: seq<Bid>, offering: int)
    requires forall i | 0 <= i < |bids| :: Parses(bids[i])
    ensures Allocate(auctionType, bids, offering).Success? <==> offering > 0 && bids != []
  {
    var ranked := Ranked(auctionType, bids);
    SortPermutes(bids, Ranking(auctionType));
    forall i | 0 <= i < |ranked| ensures Parses(ranked[i]) {
      assert ranked[i] in multiset(ranked);
    }
    AllParse(auctionType, bids, AtLeastZero(offering));
    AllParse(auctionType, ranked, AtLeastZero(offering));
    if offering > 0 {
      SomeFill(ranked, offering);
    }
  }

  function AtLeastZero(offering: int): nat {
    if offering > 0 then offering else 0
  }

  lemma SomeFill(ranked: seq<Bid>, offering: nat)
    requires offering > 0 && forall i | 0 <= i < |ranked| :: Parses(ranked[i])
    ensures Fills(ranked, offering) != [] <==> ranked != []
  {
    FillsLength(ranked, offering);
    if ranked != [] {
      CutReached(ranked, offering, 0);
      assert ranked[..0] == [];
    }
  }

  // -------------------------------------------------------------- optimality

  /** Another way of spreading the offering: bid `i` of the original list receives `x[i]` units. */
  ghost predicate Feasible(bids: seq<Bid>, x: seq<nat>) {
    |x| == |bids| && forall i | 0 <= i < |bids| :: x[i] <= bids[i].units
  }

  function Total(x: seq<nat>): nat {
    if x == [] then 0 else Total(x[..|x|-1]) + x[|x|-1]
  }

  /** What the units of `x` cost at the bids' own rates. */
  function Cost(bids: seq<Bid>, x: seq<nat>): int
    requires |x| == |bids|
  {
    if x == [] then 0 else Cost(bids[..|bids|-1], x[..|x|-1]) + x[|x|-1] * bids[|bids|-1].rate
  }

  function KeyCost(auctionType: AuctionType, bids: seq<Bid>, x: seq<nat>): int
    requires |x| == |bids|
  {
    if x == [] then 0
    else KeyCost(auctionType, bids[..|bids|-1], x[..|x|-1]) + x[|x|-1] * Key(auctionType, bids[|bids|-1].rate)
  }

  /** What a set of fills costs at the rates of the bids they go to. */
  function FillCost(fills: seq<Fill>): int {
    if fills == [] then 0 else FillCost(fills[..|fills|-1]) + fills[|fills|-1].units * fills[|fills|-1].rate
  }

  /** The most that taking all of a bid could save against paying `price` for its units. */
  function Saving(auctionType: AuctionType, price: int): Bid -> int {
    (b: Bid) => Min(0, Key(auctionType, b.rate) - price) * b.units
  }

  /** Weak duality: whatever the price, no feasible vector costs less than the price of its units and all savings. */
  lemma {:induction false} CostBound(auctionType: AuctionType, bids: seq<Bid>, x: seq<nat>, price: int)
    requires Feasible(bids, x)
    ensures KeyCost(auctionType, bids, x) >= price * Total(x) + Sum(Saving(auctionType, price), bids)
  {
    if x != [] {
      var n := |x| - 1;
      CostBound(auctionType, bids[..n], x[..n], price);
      var key, units := Key(auctionType, bids[n].rate), bids[n].units;
      TermBound(x[n], units, key, price);
      BoundStep(KeyCost(auctionType, bids[..n], x[..n]), Total(x[..n]), Sum(Saving(auctionType, price), bids[..n]),
                price, x[n], x[n] * key, Saving(auctionType, price)(bids[n]));
    }
  }

  lemma BoundStep(cost: int, total: int, saving: int, price: int, x: int, term: int, save: int)
    requires cost >= price * total + saving && term >= price * x + save
    ensures cost + term >= price * (total + x) + (saving + save)
  {
    assert price * (total + x) == price * total + price * x;
  }

  lemma TermBound(x: nat, units: nat, key: int, price: int)
    requires x <= units
    ensures x * key >= price * x + Min(0, key - price) * units
  {
    var d := key - price;
    assert x * key == price * x + x * d;
    if d >= 0 {
      assert x * d >= 0;
    } else {
      assert (units - x) * d <= 0;
      assert (units - x) * d == units * d - x * d;
    }
  }

  lemma {:induction false} KeyCostIsCost(auctionType: AuctionType, bids: seq<Bid>, x: seq<nat>)
    requires |x| == |bids|
    ensures KeyCost(auctionType, bids, x) == if auctionType == PRICE then 0 - Cost(bids, x) else Cost(bids, x)
  {
    if x != [] {
      KeyCostIsCost(auctionType, bids[..|bids|-1], x[..|x|-1]);
    }
  }

  function KeyFillCost(auctionType: AuctionType, fills: seq<Fill>): int {
    if auctionType == PRICE then 0 - FillCost(fills) else FillCost(fills)
  }

  lemma FillCostAppend(fills: seq<Fill>, a: Fill)
    ensures FillCost(fills + [a]) == FillCost(fills) + a.units * a.rate
  {
    assert (fills + [a])[..|fills|] == fills;
  }

  /** Bids that are taken whole and are no dearer than the price save exactly what they can. */
  lemma {:induction false} WholeCost(auctionType: AuctionType, ranked: seq<Bid>, offering: nat, price: int)
    requires Sum(UNITS, ranked) < offering
    requires forall i | 0 <= i < |ranked| :: Key(auctionType, ranked[i].rate) <= price
    ensures KeyFillCost(auctionType, Fills(ranked, offering)) ==
            price * Sum(UNITS, ranked) + Sum(Saving(auctionType, price), ranked)
  {
    if ranked != [] {
      var init, last := ranked[..|ranked|-1], ranked[|ranked|-1];
      UnitsMonotone(ranked, |init|);
      WholeCost(auctionType, init, offering, price);
      assert ranked == init + [last];
      WholeStep(auctionType, init, last, offering, price);
    }
  }

  lemma WholeStep(auctionType: AuctionType, init: seq<Bid>, last: Bid, offering: nat, price: int)
    requires 0 <= Sum(UNITS, init) && Sum(UNITS, init) + last.units < offering && Key(auctionType, last.rate) <= price
    requires KeyFillCost(auctionType, Fills(init, offering)) ==
             price * Sum(UNITS, init) + Sum(Saving(auctionType, price), init)
    ensures KeyFillCost(auctionType, Fills(init + [last], offering)) ==
            price * Sum(UNITS, init + [last]) + Sum(Saving(auctionType, price), init + [last])
  {
    SumAppend(UNITS, init, last);
    SumAppend(Saving(auctionType, price), init, last);
    TakenWhole(auctionType, init, last, offering);
    WholeTerm(Sum(UNITS, init), last.units, Key(auctionType, last.rate), price);
  }

  lemma WholeTerm(total: int, units: nat, key: int, price: int)
    requires key <= price
    ensures price * total + units * key == price * (total + units) + Min(0, key - price) * units
  {
    assert price * (total + units) == price * total + price * units;
    assert (key - price) * units == key * units - price * units;
  }

  lemma TakenWhole(auctionType: AuctionType, init: seq<Bid>, last: Bid, offering: nat)
    requires Sum(UNITS, init) + last.units < offering
    ensures KeyFillCost(auctionType, Fills(init + [last], offering)) ==
            KeyFillCost(auctionType, Fills(init, offering)) + last.units * Key(auctionType, last.rate)
  {
    assert (init + [last])[..|init|] == init;
    if last.units > 0 {
      LastFillCost(auctionType, Fills(init, offering), Fill(last.bidder, last.units, last.rate, last.bidIndex));
    } else {
      assert Fills(init + [last], offering) == Fills(init, offering);
    }
  }

  /** Bids that are no cheaper than the price save nothing. */
  lemma {:induction false} NoSaving(auctionType: AuctionType, ranked: seq<Bid>, k: nat, price: int)
    requires k <= |ranked|
    requires forall i | k <= i < |ranked| :: Key(auctionType, ranked[i].rate) >= price
    ensures Sum(Saving(auctionType, price), ranked) == Sum(Saving(auctionType, price), ranked[..k])
  {
    if k < |ranked| {
      NoSaving(auctionType, ranked[..|ranked|-1], k, price);
      assert ranked[..|ranked|-1][..k] == ranked[..k];
    } else {
      assert ranked[..k] == ranked;
    }
  }

  /** The greedy fill meets the bound at the price of its last filled bid. */
  lemma GreedyMeetsBound(auctionType: AuctionType, ranked: seq<Bid>, offering: nat, k: nat, price: int)
    requires k + 1 == Cut(ranked, offering) && price == Key(auctionType, ranked[k].rate)
    requires forall i | 0 <= i < Cut(ranked, offering) :: Parses(ranked[i])
    requires forall i | 0 <= i < k :: Key(auctionType, ranked[i].rate) <= price
    requires forall i | k <= i < |ranked| :: Key(auctionType, ranked[i].rate) >= price
    ensures KeyFillCost(auctionType, Fills(ranked, offering)) ==
            price * Min(offering, Sum(UNITS, ranked)) + Sum(Saving(auctionType, price), ranked)
  {
    CutReached(ranked, offering, k);
    WholeCost(auctionType, ranked[..k], offering, price);
    NoSaving(auctionType, ranked, k, price);
    LastFill(ranked, offering, k);
    LastFillCost(auctionType, Fills(ranked[..k], offering), Share(ranked, offering, k));
    PriceSplits(price, Sum(UNITS, ranked[..k]), Share(ranked, offering, k).units);
  }

  /** The last filled bid separates the ranked bids by key. */
  lemma LastFilled(auctionType: AuctionType, bids: seq<Bid>, offering: int) returns (k: nat)
    requires Allocate(auctionType, bids, offering).Success?
    ensures var ranked := Ranked(auctionType, bids);
            && k + 1 == Cut(ranked, offering) == |Fills(ranked, offering)|
            && Fills(ranked, offering)[k].rate == ranked[k].rate
            && Sum(UNITS, ranked[..k]) < offering
            && (forall i | 0 <= i < Cut(ranked, offering) :: Parses(ranked[i]))
            && (forall i | 0 <= i <= k :: Key(auctionType, ranked[i].rate) <= Key(auctionType, ranked[k].rate))
            && (forall i | k <= i < |ranked| :: Key(auctionType, ranked[i].rate) >= Key(auctionType, ranked[k].rate))
  {
    var ranked := Ranked(auctionType, bids);
    SuccessFacts(auctionType, bids, offering);
    FillsLength(ranked, offering);
    k := |Fills(ranked, offering)| - 1;
    FillsAt(ranked, offering, k);
    var price := Key(auctionType, ranked[k].rate);
    forall i | 0 <= i < |ranked|
      ensures i <= k ==> Key(auctionType, ranked[i].rate) <= price
      ensures i >= k ==> Key(auctionType, ranked[i].rate) >= price
    {
      if i <= k { RankedKeys(auctionType, bids, i, k); } else { RankedKeys(auctionType, bids, k, i); }
    }
  }

  lemma PriceSplits(price: int, a: int, b: int)
    ensures price * (a + b) == price * a + b * price
  {
  }

  lemma LastFill(ranked: seq<Bid>, offering: nat, k: nat)
    requires k + 1 == Cut(ranked, offering)
    requires forall i | 0 <= i < Cut(ranked, offering) :: Parses(ranked[i])
    requires Sum(UNITS, ranked[..k]) < offering
    ensures var fills := Fills(ranked, offering);
            && fills == Fills(ranked[..k], offering) + [Share(ranked, offering, k)]
            && Sum(UNITS, ranked[..k]) + Share(ranked, offering, k).units == Min(offering, Sum(UNITS, ranked))
  {
    FillsPrefix(ranked, offering, k + 1);
    FillsStep(ranked, offering, k);
    if k + 1 < |ranked| { CutReached(ranked, offering, k + 1); } else { assert ranked[..k+1] == ranked; }
    UnitsMonotone(ranked, k + 1);
  }

  lemma LastFillCost(auctionType: AuctionType, fills: seq<Fill>, a: Fill)
    ensures KeyFillCost(auctionType, fills + [a]) ==
            KeyFillCost(auctionType, fills) + a.units * Key(auctionType, a.rate)
  {
    FillCostAppend(fills, a);
    assert a.units * (0 - a.rate) == 0 - a.units * a.rate;
  }

  /** A RATE or BUYBACK fill costs the least, and a PRICE fill raises the most, of all ways to place as many units
      with the same bids. */
  lemma AllocationOptimal(auctionType: AuctionType, bids: seq<Bid>, offering: int, x: seq<nat>)
    requires Allocate(auctionType, bids, offering).Success?
    requires Feasible(bids, x) && Total(x) == Allocate(auctionType, bids, offering).value.totalAllocated
    ensures var fills := Fills(Ranked(auctionType, bids), offering);
            if auctionType == PRICE then FillCost(fills) >= Cost(bids, x) else FillCost(fills) <= Cost(bids, x)
  {
    var ranked := Ranked(auctionType, bids);
    var k := LastFilled(auctionType, bids, offering);
    var price := Key(auctionType, ranked[k].rate);
    GreedyMeetsBound(auctionType, ranked, offering, k, price);
    CostBound(auctionType, bids, x, price);
    SuccessFacts(auctionType, bids, offering);
    SumSort(Saving(auctionType, price), bids, Ranking(auctionType));
    KeyCostIsCost(auctionType, bids, x);
  }

  /** A buyback pays each bid its own rate, so what it really pays is the least possible. */
  lemma BuybackPaysLeast(bids: seq<Bid>, target: int, x: seq<nat>)
    requires Allocate(BUYBACK, bids, target).Success?
    requires Feasible(bids, x) && Total(x) == Allocate(BUYBACK, bids, target).value.totalAllocated
    ensures FillCost(Allocate(BUYBACK, bids, target).value.allocations) <= Cost(bids, x)
  {
    AllocationOptimal(BUYBACK, bids, target, x);
  }

  // ----------------------------------------------- the clearing rate as an order statistic

  /** The units of a bid if its key is at most `key`. */
  function UpTo(auctionType: AuctionType, key: int): Bid -> int {
    (b: Bid) => if Key(auctionType, b.rate) <= key then b.units else 0
  }

  /** `key` is the least key whose cumulative units cover `total`. */
  ghost predicate ClearsAt(auctionType: AuctionType, bids: seq<Bid>, total: int, key: int) {
    && Sum(UpTo(auctionType, key), bids) >= total
    && forall lower | lower < key :: Sum(UpTo(auctionType, lower), bids) < total
  }

  lemma {:induction false} UpToCovers(auctionType: AuctionType, ranked: seq<Bid>, k: nat, key: int)
    requires k <= |ranked|
    requires forall i | 0 <= i < k :: Key(auctionType, ranked[i].rate) <= key
    ensures Sum(UpTo(auctionType, key), ranked) >= Sum(UNITS, ranked[..k])
  {
    if ranked != [] {
      if k < |ranked| {
        UpToCovers(auctionType, ranked[..|ranked|-1], k, key);
        assert ranked[..|ranked|-1][..k] == ranked[..k];
      } else {
        UpToCovers(auctionType, ranked[..|ranked|-1], k - 1, key);
        assert ranked[..k] == ranked;
        assert ranked[..k-1][..k-1] == ranked[..k-1];
      }
    }
  }

  lemma {:induction false} UpToWithin(auctionType: AuctionType, ranked: seq<Bid>, k: nat, key: int)
    requires k <= |ranked|
    requires forall i | k <= i < |ranked| :: Key(auctionType, ranked[i].rate) > key
    ensures Sum(UpTo(auctionType, key), ranked) <= Sum(UNITS, ranked[..k])
  {
    if ranked != [] {
      if k < |ranked| {
        UpToWithin(auctionType, ranked[..|ranked|-1], k, key);
        assert ranked[..|ranked|-1][..k] == ranked[..k];
      } else {
        UpToWithin(auctionType, ranked[..|ranked|-1], k - 1, key);
        assert ranked[..k] == ranked;
        assert ranked[..k-1][..k-1] == ranked[..k-1];
      }
    }
  }

  /** The rate of the last filled bid clears the market, and no other rate does. */
  lemma LastFilledRateClears(auctionType: AuctionType, bids: seq<Bid>, offering: int, rate: nat)
    requires Allocate(auctionType, bids, offering).Success?
    ensures var fills := Fills(Ranked(auctionType, bids), offering);
            rate == fills[|fills|-1].rate <==>
            ClearsAt(auctionType, bids, Min(offering, Sum(UNITS, bids)), Key(auctionType, rate))
  {
    var ranked := Ranked(auctionType, bids);
    var total := Min(offering, Sum(UNITS, bids));
    var k := LastFilled(auctionType, bids, offering);
    SuccessFacts(auctionType, bids, offering);
    LastFill(ranked, offering, k);
    SumSort(UNITS, bids, Ranking(auctionType));
    var clearing := Key(auctionType, ranked[k].rate);
    UpToCovers(auctionType, ranked, k + 1, clearing);
    assert ranked[..k+1][..k] == ranked[..k];
    SumSort(UpTo(auctionType, clearing), bids, Ranking(auctionType));
    forall lower | lower < clearing ensures Sum(UpTo(auctionType, lower), bids) < total {
      UpToWithin(auctionType, ranked, k, lower);
      SumSort(UpTo(auctionType, lower), bids, Ranking(auctionType));
    }
    assert ClearsAt(auctionType, bids, total, clearing);
  }

  /** The clearing rate of a uniform auction is the least rate (for PRICE, the greatest) at which the bids willing
      to trade cover what is placed. */
  lemma ClearingRateExactly(auctionType: AuctionType, bids: seq<Bid>, offering: int, rate: nat)
    requires auctionType != BUYBACK && Allocate(auctionType, bids, offering).Success?
    ensures rate == Allocate(auctionType, bids, offering).value.clearingRate <==>
            ClearsAt(auctionType, bids, Min(offering, Sum(UNITS, bids)), Key(auctionType, rate))
  {
    SuccessFacts(auctionType, bids, offering);
    LastFilledRateClears(auctionType, bids, offering, rate);
  }

  /** A buyback reports the lowest rate on offer. */
  lemma BuybackRateExactly(bids: seq<Bid>, target: int, rate: nat)
    requires Allocate(BUYBACK, bids, target).Success?
    ensures rate == Allocate(BUYBACK, bids, target).value.clearingRate <==>
            (exists b | b in bids :: b.rate == rate) && (forall b | b in bids :: rate <= b.rate)
  {
    SuccessFacts(BUYBACK, bids, target);
    AllocationSound(BUYBACK, bids, target);
    LowestFirst(bids, rate);
  }

  lemma LowestFirst(bids: seq<Bid>, rate: nat)
    requires Ranked(BUYBACK, bids) != []
    ensures rate == Ranked(BUYBACK, bids)[0].rate <==>
            (exists b | b in bids :: b.rate == rate) && (forall b | b in bids :: rate <= b.rate)
  {
    var ranked := Ranked(BUYBACK, bids);
    SortPermutes(bids, Ranking(BUYBACK));
    assert ranked[0] in multiset(ranked);
    forall b | b in bids ensures ranked[0].rate <= b.rate {
      assert b in multiset(ranked);
      var i :| 0 <= i < |ranked| && ranked[i] == b;
      RankedKeys(BUYBACK, bids, 0, i);
    }
  }
}
