/**
 The order in which bids arrive: it decides at most which of several equal bids is served.
 */
module BidOrder {
  import opened Prelude
  import opened StableSort
  import opened Allocation

  // ------------------------------------------------------------- permutations

  lemma RemoveOne<T>(xs: seq<T>, i: nat)
    requires i < |xs|
    ensures multiset(xs[..i] + xs[i+1..]) == multiset(xs) - multiset{xs[i]}
  {
    assert xs == xs[..i] + [xs[i]] + xs[i+1..];
    assert multiset(xs) == multiset(xs[..i] + xs[i+1..]) + multiset{xs[i]};
  }

  lemma {:induction false} SumRemove<T>(f: T -> int, xs: seq<T>, i: nat)
    requires i < |xs|
    ensures Sum(f, xs) == Sum(f, xs[..i] + xs[i+1..]) + f(xs[i])
  {
    var n := |xs| - 1;
    if i == n {
      assert xs[..i] + xs[i+1..] == xs[..n];
    } else {
      SumRemove(f, xs[..n], i);
      assert xs[..i] + xs[i+1..] == (xs[..n][..i] + xs[..n][i+1..]) + [xs[n]];
      SumAppend(f, xs[..n][..i] + xs[..n][i+1..], xs[n]);
    }
  }

  lemma {:induction false} SumOfPermutation<T>(f: T -> int, xs: seq<T>, ys: seq<T>)
    requires multiset(xs) == multiset(ys)
    ensures Sum(f, xs) == Sum(f, ys)
  {
    if xs == [] {
      assert |multiset(ys)| == 0;
    } else {
      var x, init := xs[|xs|-1], xs[..|xs|-1];
      assert x in multiset(xs);
      var i :| 0 <= i < |ys| && ys[i] == x;
      RemoveOne(ys, i);
      RemoveOne(xs, |xs| - 1);
      assert init + xs[|xs|..] == init;
      SumOfPermutation(f, init, ys[..i] + ys[i+1..]);
      SumRemove(f, ys, i);
    }
  }

  lemma MapRemove<S, T>(f: S -> T, xs: seq<S>, i: nat)
    requires i < |xs|
    ensures multiset(Map(f, xs)) == multiset(Map(f, xs[..i] + xs[i+1..])) + multiset{f(xs[i])}
  {
    var all := Map(f, xs);
    RemoveOne(all, i);
    assert Map(f, xs[..i] + xs[i+1..]) == all[..i] + all[i+1..];
    assert all[i] in multiset(all);
  }

  lemma {:induction false} MapOfPermutation<S, T>(f: S -> T, xs: seq<S>, ys: seq<S>)
    requires multiset(xs) == multiset(ys)
    ensures multiset(Map(f, xs)) == multiset(Map(f, ys))
  {
    if xs == [] {
      assert |multiset(ys)| == 0;
    } else {
      var x, init := xs[|xs|-1], xs[..|xs|-1];
      assert x in multiset(xs);
      var i :| 0 <= i < |ys| && ys[i] == x;
      RemoveOne(ys, i);
      RemoveOne(xs, |xs| - 1);
      assert init + xs[|xs|..] == init;
      MapOfPermutation(f, init, ys[..i] + ys[i+1..]);
      MapRemove(f, ys, i);
      MapRemove(f, xs, |xs| - 1);
    }
  }

  /** No two different elements of `xs` tie. */
  ghost predicate TieFree<T>(xs: seq<T>, cmp: Comparator<T>) {
    forall i, j | 0 <= i < |xs| && 0 <= j < |xs| && cmp(xs[i], xs[j]) == 0 :: xs[i] == xs[j]
  }

  lemma LastIsGreatest<T(!new)>(xs: seq<T>, y: T, cmp: Comparator<T>)
    requires Ordering(cmp) && Sorted(xs, cmp) && y in xs
    ensures cmp(y, xs[|xs|-1]) <= 0
  {
    var i :| 0 <= i < |xs| && xs[i] == y;
    if i < |xs| - 1 { SortedAt(xs, cmp, i, |xs| - 1); }
  }

  lemma SameLast<T(!new)>(xs: seq<T>, ys: seq<T>, cmp: Comparator<T>)
    requires Ordering(cmp) && Sorted(xs, cmp) && Sorted(ys, cmp) && TieFree(xs, cmp)
    requires multiset(xs) == multiset(ys) && xs != []
    ensures ys != [] && xs[|xs|-1] == ys[|ys|-1]
  {
    var x := xs[|xs|-1];
    assert x in multiset(ys);
    var y := ys[|ys|-1];
    assert y in multiset(xs);
    LastIsGreatest(xs, y, cmp);
    LastIsGreatest(ys, x, cmp);
    assert cmp(x, y) == 0;
    var i :| 0 <= i < |xs| && xs[i] == y;
    assert xs[|xs|-1] == xs[i];
  }

  lemma DropSameLast<T>(xs: seq<T>, ys: seq<T>)
    requires xs != [] && ys != [] && xs[|xs|-1] == ys[|ys|-1] && multiset(xs) == multiset(ys)
    ensures multiset(xs[..|xs|-1]) == multiset(ys[..|ys|-1])
  {
    RemoveOne(xs, |xs| - 1);
    RemoveOne(ys, |ys| - 1);
    assert xs[..|xs|-1] + xs[|xs|..] == xs[..|xs|-1] && ys[..|ys|-1] + ys[|ys|..] == ys[..|ys|-1];
  }

  /** Sorted lists of the same elements are the same list if no two different elements tie. */
  lemma {:induction false} SortedPermutations<T(!new)>(xs: seq<T>, ys: seq<T>, cmp: Comparator<T>)
    requires Ordering(cmp) && Sorted(xs, cmp) && Sorted(ys, cmp) && TieFree(xs, cmp)
    requires multiset(xs) == multiset(ys)
    ensures xs == ys
    decreases |xs|
  {
    if xs == [] {
      assert |multiset(ys)| == 0;
    } else {
      SameLast(xs, ys, cmp);
      DropSameLast(xs, ys);
      SortedPermutations(xs[..|xs|-1], ys[..|ys|-1], cmp);
      assert xs == xs[..|xs|-1] + [xs[|xs|-1]];
    }
  }

  // -------------------------------------------------- bids without their bidder

  /** All that the ranking looks at. */
  function Plain(b: Bid): Bid {
    Bid(0, b.units, b.rate, 0, 0, "")
  }

  const PLAIN: Bid -> Bid := (b: Bid) => Plain(b)

  const PLAIN_FILL: Fill -> Fill := (a: Fill) => Fill(0, a.units, a.rate, 0)

  /** An outcome without the names of the winners. */
  function Anonymous(r: Result<Outcome, AllocationError>): Result<Outcome, AllocationError> {
    if r.Failure? then r else Success(r.value.(allocations := Map(PLAIN_FILL, r.value.allocations)))
  }

  lemma {:induction false} PlainUnits(bids: seq<Bid>)
    ensures Sum(UNITS, Map(PLAIN, bids)) == Sum(UNITS, bids)
  {
    if bids != [] {
      PlainUnits(bids[..|bids|-1]);
      assert Map(PLAIN, bids)[..|bids|-1] == Map(PLAIN, bids[..|bids|-1]);
    }
  }

  lemma {:induction false} PlainCut(ranked: seq<Bid>, offering: int)
    ensures Cut(Map(PLAIN, ranked), offering) == Cut(ranked, offering)
  {
    if ranked != [] {
      var init := ranked[..|ranked|-1];
      PlainCut(init, offering);
      PlainUnits(init);
      assert Map(PLAIN, ranked)[..|ranked|-1] == Map(PLAIN, init);
    }
  }

  lemma {:induction false} PlainFills(ranked: seq<Bid>, offering: int)
    ensures Fills(Map(PLAIN, ranked), offering) == Map(PLAIN_FILL, Fills(ranked, offering))
  {
    if ranked != [] {
      var init := ranked[..|ranked|-1];
      PlainFills(init, offering);
      PlainUnits(init);
      assert Map(PLAIN, ranked)[..|ranked|-1] == Map(PLAIN, init);
    }
  }

  /** Filling ranked bids does not look at who offers them. */
  lemma PlainAllot(auctionType: AuctionType, ranked: seq<Bid>, offering: nat)
    ensures Allot(auctionType, Map(PLAIN, ranked), offering) == Anonymous(Allot(auctionType, ranked, offering))
  {
    var plain := Map(PLAIN, ranked);
    PlainCut(ranked, offering);
    PlainFills(ranked, offering);
    PlainUnits(ranked);
    assert Refused(auctionType, plain, offering) <==> Refused(auctionType, ranked, offering) by {
      forall i | 0 <= i < |ranked| ensures Parses(plain[i]) == Parses(ranked[i]) {}
    }
    var fills := Fills(ranked, offering);
    if fills != [] {
      var rate := fills[|fills|-1].rate;
      assert Map(PLAIN_FILL, AtRate(fills, rate)) == AtRate(Map(PLAIN_FILL, fills), rate);
    }
  }

  lemma PlainBidsAreTieFree(auctionType: AuctionType, bids: seq<Bid>)
    ensures TieFree(Ranked(auctionType, Map(PLAIN, bids)), Ranking(auctionType))
  {
    var plain := Map(PLAIN, bids);
    var ranked := Ranked(auctionType, plain);
    SortPermutes(plain, Ranking(auctionType));
    forall i | 0 <= i < |ranked| ensures ranked[i] == Plain(ranked[i]) {
      assert ranked[i] in multiset(ranked);
      assert ranked[i] in plain;
    }
  }

  /** The ranking, bidders aside, depends on the bids alone and not on their order. */
  lemma PlainRanking(auctionType: AuctionType, bids: seq<Bid>, reordered: seq<Bid>)
    requires multiset(bids) == multiset(reordered)
    ensures Map(PLAIN, Ranked(auctionType, bids)) == Map(PLAIN, Ranked(auctionType, reordered))
  {
    var cmp := Ranking(auctionType);
    var one, other := Map(PLAIN, bids), Map(PLAIN, reordered);
    SortMap(PLAIN, cmp, cmp, bids);
    SortMap(PLAIN, cmp, cmp, reordered);
    RankingOrders(auctionType);
    SortSorted(one, cmp);
    SortSorted(other, cmp);
    SortPermutes(one, cmp);
    SortPermutes(other, cmp);
    MapOfPermutation(PLAIN, bids, reordered);
    PlainBidsAreTieFree(auctionType, bids);
    SortedPermutations(Sort(one, cmp), Sort(other, cmp), cmp);
  }

  // ------------------------------------------------------- when sorting throws

  function OfRate(rate: nat): Bid -> int {
    (b: Bid) => if b.rate == rate then 1 else 0
  }

  predicate HasRate(bids: seq<Bid>, rate: nat) {
    exists i | 0 <= i < |bids| :: bids[i].rate == rate
  }

  lemma {:induction false} SomeOfRate(bids: seq<Bid>, rate: nat)
    ensures Sum(OfRate(rate), bids) >= 0
    ensures Sum(OfRate(rate), bids) > 0 <==> HasRate(bids, rate)
  {
    if bids != [] {
      var init := bids[..|bids|-1];
      SomeOfRate(init, rate);
      if i :| 0 <= i < |init| && init[i].rate == rate {
        assert bids[i].rate == rate;
      }
      if i :| 0 <= i < |bids| && bids[i].rate == rate {
        assert i == |init| || init[i].rate == rate;
      }
    }
  }

  lemma OthersOfRate(bids: seq<Bid>, j: nat)
    requires j < |bids|
    ensures Sum(OfRate(bids[j].rate), bids) >= 2
       <==> exists i | 0 <= i < |bids| :: i != j && bids[i].rate == bids[j].rate
  {
    var rest := bids[..j] + bids[j+1..];
    SumRemove(OfRate(bids[j].rate), bids, j);
    SomeOfRate(rest, bids[j].rate);
    RestOfRate(bids, j, bids[j].rate);
  }

  lemma RestOfRate(bids: seq<Bid>, j: nat, rate: nat)
    requires j < |bids|
    ensures HasRate(bids[..j] + bids[j+1..], rate)
       <==> exists i | 0 <= i < |bids| :: i != j && bids[i].rate == rate
  {
    var rest := bids[..j] + bids[j+1..];
    if i :| 0 <= i < |rest| && rest[i].rate == rate {
      assert bids[if i < j then i else i + 1] == rest[i];
    }
    if i :| 0 <= i < |bids| && i != j && bids[i].rate == rate {
      assert rest[if i < j then i else i - 1] == bids[i];
    }
  }

  /** A bid without units that ties with another. */
  ghost predicate TiesAtZero(bids: seq<Bid>, b: Bid) {
    b.units == 0 && Sum(OfRate(b.rate), bids) >= 2
  }

  /** `SortThrows` said of the bids and not of their places. */
  lemma SortThrowsExactly(bids: seq<Bid>)
    ensures SortThrows(bids) <==> |bids| >= 2 && exists b | b in bids :: b.rate == 0 || TiesAtZero(bids, b)
  {
    forall j | 0 <= j < |bids|
      ensures TiesAtZero(bids, bids[j]) <==>
              bids[j].units == 0 && exists i | 0 <= i < |bids| :: i != j && bids[i].rate == bids[j].rate
    {
      OthersOfRate(bids, j);
    }
    if b :| b in bids && (b.rate == 0 || TiesAtZero(bids, b)) {
      var j :| 0 <= j < |bids| && bids[j] == b;
    }
  }

  lemma SortThrowsIgnoresOrder(bids: seq<Bid>, reordered: seq<Bid>)
    requires multiset(bids) == multiset(reordered)
    ensures SortThrows(bids) <==> SortThrows(reordered)
  {
    SortThrowsExactly(bids);
    SortThrowsExactly(reordered);
    assert |multiset(bids)| == |bids| && |multiset(reordered)| == |reordered|;
    forall b ensures b in bids <==> b in reordered
             ensures TiesAtZero(bids, b) <==> TiesAtZero(reordered, b) {
      assert b in multiset(bids) <==> b in multiset(reordered);
      SumOfPermutation(OfRate(b.rate), bids, reordered);
    }
  }

  /** Whatever the order of the bids, the allocation succeeds or fails with the same error, at the same clearing
      rate and total, and with fills of the same sizes at the same rates in the same order. */
  lemma OrderMattersOnlyForTies(auctionType: AuctionType, bids: seq<Bid>, reordered: seq<Bid>, offering: int)
    requires multiset(bids) == multiset(reordered)
    ensures Anonymous(Allocate(auctionType, bids, offering)) == Anonymous(Allocate(auctionType, reordered, offering))
  {
    SortThrowsIgnoresOrder(bids, reordered);
    if offering > 0 && !SortThrows(bids) {
      PlainRanking(auctionType, bids, reordered);
      PlainAllot(auctionType, Ranked(auctionType, bids), offering);
      PlainAllot(auctionType, Ranked(auctionType, reordered), offering);
    }
  }
}
