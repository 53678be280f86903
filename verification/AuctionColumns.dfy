/**
 Every column of the auction tables after a window, said of the window's logs.
 */
module AuctionColumns {
  import opened Prelude
  import opened BondLifecycle
  import opened AuctionProjection

  // ------------------------------------------------------------------ finding a log

  function Latest<T>(logs: seq<T>, p: T -> bool): (r: Option<T>)
    ensures r.Some? ==> p(r.value) && r.value in logs
  {
    if logs == [] then None
    else if p(logs[|logs|-1]) then Some(logs[|logs|-1])
    else Latest(logs[..|logs|-1], p)
  }

  function Earliest<T>(logs: seq<T>, p: T -> bool): (r: Option<T>)
    ensures r.Some? ==> p(r.value) && r.value in logs
  {
    if logs == [] then None
    else
      var before := Earliest(logs[..|logs|-1], p);
      if before.Some? then before else if p(logs[|logs|-1]) then Some(logs[|logs|-1]) else None
  }

  lemma {:induction false} EarliestWithLatest<T>(logs: seq<T>, p: T -> bool)
    ensures Earliest(logs, p).Some? <==> Latest(logs, p).Some?
  {
    if logs != [] { EarliestWithLatest(logs[..|logs|-1], p); }
  }

  // ----------------------------------------------------------------- manager columns

  function About(x: AuctionId): ManagerLog -> bool {
    (m: ManagerLog) => m.auction == x
  }

  function Closing(x: AuctionId): ManagerLog -> bool {
    (m: ManagerLog) => m.auction == x && m.body.AuctionClosed?
  }

  function Finalising(x: AuctionId): ManagerLog -> bool {
    (m: ManagerLog) => m.auction == x && m.body.AuctionFinalised?
  }

  /** An event that names the bond of the auction. */
  function Naming(x: AuctionId): ManagerLog -> bool {
    (m: ManagerLog) => m.auction == x && m.body.Initialised? && m.body.bond.Some?
  }

  predicate Means(b: ManagerBody, status: AuctionStatus) {
    || (b.Initialised? && status == Open)
    || (b.AuctionClosed? && status == Closed)
    || (b.AuctionFinalised? && status == AuctionStatus.Finalised)
    || (b.AuctionCancelled? && status == AuctionStatus.Cancelled)
  }

  predicate TypeSays(b: ManagerBody, kind: string) {
    || (b.Initialised? && kind == b.kind)
    || (b.AuctionClosed? && kind == "CLOSED")
    || (b.AuctionFinalised? && kind == "FINALISED")
    || (b.AuctionCancelled? && kind == "CANCELLED")
  }

  /** What the manager's logs make of the row of `x`: its ISIN and its status come from the last of its logs; its type,
      block and transaction from the first, if there was no row; its bond stays what it was or comes from the first
      that names one; the times are those of the last closing and the last finalising. */
  ghost predicate ManagerWrites(r: Option<Row>, ms: seq<ManagerLog>, x: AuctionId, after: Option<Row>) {
    match (Earliest(ms, About(x)), Latest(ms, About(x)))
    case (Some(first), Some(last)) =>
      && after.Some?
      && after.value.isin == last.isin && Means(last.body, after.value.status)
      && (if r.Some? then
            && after.value.kind == r.value.kind && after.value.terms == r.value.terms
            && after.value.block == r.value.block && after.value.tx == r.value.tx
          else
            && TypeSays(first.body, after.value.kind) && after.value.terms == None
            && after.value.block == first.id.block && after.value.tx == first.id.tx)
      && after.value.bond == NamedBond(r, ms, x)
      && after.value.closedAt == ClosingTime(r, ms, x)
      && after.value.finalisedAt == FinalisingTime(r, ms, x)
    case _ => after == r
  }

  function NamedBond(r: Option<Row>, ms: seq<ManagerLog>, x: AuctionId): Option<Address> {
    if r.Some? && r.value.bond.Some? then r.value.bond
    else if Earliest(ms, Naming(x)).Some? then Earliest(ms, Naming(x)).value.body.bond
    else None
  }

  function ClosingTime(r: Option<Row>, ms: seq<ManagerLog>, x: AuctionId): Option<nat> {
    if Latest(ms, Closing(x)).Some? then Some(Latest(ms, Closing(x)).value.body.at)
    else if r.Some? then r.value.closedAt else None
  }

  function FinalisingTime(r: Option<Row>, ms: seq<ManagerLog>, x: AuctionId): Option<nat> {
    if Latest(ms, Finalising(x)).Some? then Some(Latest(ms, Finalising(x)).value.body.at)
    else if r.Some? then r.value.finalisedAt else None
  }

  lemma {:induction false} NothingAbout(ms: seq<ManagerLog>, x: AuctionId)
    requires Latest(ms, About(x)).None?
    ensures Latest(ms, Closing(x)).None? && Latest(ms, Finalising(x)).None? && Earliest(ms, Naming(x)).None?
  {
    if ms != [] {
      assert !About(x)(ms[|ms|-1]);
      NothingAbout(ms[..|ms|-1], x);
    }
  }

  /** One more log. */
  lemma ManagerWritesNext(r: Option<Row>, ms: seq<ManagerLog>, x: AuctionId, row: Option<Row>)
    requires ms != [] && ManagerWrites(r, ms[..|ms|-1], x, row)
    ensures ms[|ms|-1].auction != x ==> ManagerWrites(r, ms, x, row)
    ensures ms[|ms|-1].auction == x ==> ManagerWrites(r, ms, x, Some(ManagerRow(row, ms[|ms|-1])))
  {
    EarliestWithLatest(ms[..|ms|-1], About(x));
    if Latest(ms[..|ms|-1], About(x)).None? { NothingAbout(ms[..|ms|-1], x); }
  }

  lemma {:induction false} ManagerColumns(t: Tables, ms: seq<ManagerLog>, x: AuctionId)
    ensures ManagerWrites(At(t.rows, x), ms, x, At(ManagerPass(t, ms).rows, x))
  {
    if ms != [] {
      var before := ManagerPass(t, ms[..|ms|-1]);
      ManagerColumns(t, ms[..|ms|-1], x);
      ManagerWritesNext(At(t.rows, x), ms, x, At(before.rows, x));
    }
  }

  // ------------------------------------------------------------ the auction's own logs

  function Creating(x: AuctionId): AuctionLog -> bool {
    (a: AuctionLog) => a.auction == x && a.body.Created?
  }

  /** What the auction's own logs make of the row of `x`: ISIN, type and terms come from its last `AuctionCreated`; if
      there was no row, block and transaction from the first, and the auction is open. */
  ghost predicate CreationWrites(r: Option<Row>, ls: seq<AuctionLog>, x: AuctionId, after: Option<Row>) {
    match (Earliest(ls, Creating(x)), Latest(ls, Creating(x)))
    case (Some(first), Some(last)) =>
      && after.Some?
      && after.value.isin == last.body.isin && after.value.kind == last.body.kind
      && after.value.terms == Some(last.body.terms)
      && (if r.Some? then
            && after.value.block == r.value.block && after.value.tx == r.value.tx && after.value.bond == r.value.bond
            && after.value.status == r.value.status
            && after.value.closedAt == r.value.closedAt && after.value.finalisedAt == r.value.finalisedAt
          else
            && after.value.block == first.id.block && after.value.tx == first.id.tx && after.value.bond == None
            && after.value.status == Open && after.value.closedAt == None && after.value.finalisedAt == None)
    case _ => after == r
  }

  lemma {:induction false} CreationColumns(t: Tables, ls: seq<AuctionLog>, x: AuctionId)
    ensures CreationWrites(At(t.rows, x), ls, x, At(AuctionPass(t, ls).rows, x))
  {
    if ls != [] {
      CreationColumns(t, ls[..|ls|-1], x);
      EarliestWithLatest(ls[..|ls|-1], Creating(x));
      EarliestWithLatest(ls, Creating(x));
    }
  }

  // ----------------------------------------------------------------------------- bids

  function Submitting(x: AuctionId, index: nat): AuctionLog -> bool {
    (a: AuctionLog) => a.auction == x && a.body.BidSubmitted? && a.body.index == index
  }

  /** What was last submitted under a key: by the logs or, before them, by the row that was there. */
  datatype Content = Content(bidder: Address, ciphertext: string, hash: Hash, source: Position)

  function Submitted(before: Option<BidRow>, ls: seq<AuctionLog>, x: AuctionId, index: nat): Option<Content> {
    var last := Latest(ls, Submitting(x, index));
    if last.Some? then
      var b, id := last.value.body, last.value.id;
      Some(Content(b.bidder, b.ciphertext, b.hash, Position(id.block, id.index)))
    else if before.Some? then
      Some(Content(before.value.bidder, before.value.ciphertext, before.value.hash, before.value.source))
    else None
  }

  /** Log `i` cancels what stands under the key when it comes. */
  ghost predicate CancelledBy(before: Option<BidRow>, ls: seq<AuctionLog>, x: AuctionId, index: nat, i: nat) {
    && i < |ls| && ls[i].auction == x && ls[i].body.BidCancelled?
    && Submitted(before, ls[..i], x, index).Some?
    && ls[i].body.bidder == Submitted(before, ls[..i], x, index).value.bidder
    && ls[i].body.hash == Submitted(before, ls[..i], x, index).value.hash
  }

  ghost predicate Cancelled(before: Option<BidRow>, ls: seq<AuctionLog>, x: AuctionId, index: nat) {
    exists i: nat :: CancelledBy(before, ls, x, index, i)
  }

  /** A bid's row: there if it was or was submitted; with the contents of the last submission; cancelled if it was, or
      once a cancellation met it with its bidder and hash, and for good. */
  ghost predicate BidWrites(
    before: Option<BidRow>, ls: seq<AuctionLog>, x: AuctionId, index: nat, after: Option<BidRow>)
  {
    && (after.Some? <==> Submitted(before, ls, x, index).Some?)
    && (after.Some? ==>
          && Submitted(before, ls, x, index).value ==
             Content(after.value.bidder, after.value.ciphertext, after.value.hash, after.value.source)
          && (after.value.cancelled <==>
                (before.Some? && before.value.cancelled) || Cancelled(before, ls, x, index)))
  }

  lemma CancelledEarlier(before: Option<BidRow>, ls: seq<AuctionLog>, x: AuctionId, index: nat)
    requires ls != []
    ensures Cancelled(before, ls, x, index) <==>
            Cancelled(before, ls[..|ls|-1], x, index) || CancelledBy(before, ls, x, index, |ls| - 1)
  {
    var init := ls[..|ls|-1];
    forall i: nat | i < |init|
      ensures CancelledBy(before, ls, x, index, i) <==> CancelledBy(before, init, x, index, i)
    {
      assert ls[..i] == init[..i];
    }
  }

  lemma {:induction false} SubmittedStays(before: Option<BidRow>, ls: seq<AuctionLog>, x: AuctionId, index: nat,
                                          i: nat)
    requires i <= |ls| && Submitted(before, ls[..i], x, index).Some?
    ensures Submitted(before, ls, x, index).Some?
  {
    if i < |ls| {
      assert ls[..|ls|-1][..i] == ls[..i];
      SubmittedStays(before, ls[..|ls|-1], x, index, i);
    } else {
      assert ls[..i] == ls;
    }
  }

  /** Nothing is cancelled that was never there. */
  lemma NothingCancelled(before: Option<BidRow>, ls: seq<AuctionLog>, x: AuctionId, index: nat)
    requires Submitted(before, ls, x, index).None?
    ensures !Cancelled(before, ls, x, index)
  {
    forall i: nat | i < |ls| ensures Submitted(before, ls[..i], x, index).None? {
      if Submitted(before, ls[..i], x, index).Some? { SubmittedStays(before, ls, x, index, i); }
    }
  }

  lemma {:induction false} BidColumns(t: Tables, ls: seq<AuctionLog>, x: AuctionId, index: nat)
    ensures BidWrites(At(t.bids, (x, index)), ls, x, index, At(AuctionPass(t, ls).bids, (x, index)))
  {
    var before := At(t.bids, (x, index));
    if ls != [] {
      var init := ls[..|ls|-1];
      BidColumns(t, init, x, index);
      CancelledEarlier(before, ls, x, index);
      if Submitted(before, init, x, index).None? { NothingCancelled(before, init, x, index); }
      BidStepWrites(AuctionPass(t, init), ls[|ls|-1], x, index);
    }
  }

  lemma BidStepWrites(t: Tables, a: AuctionLog, x: AuctionId, index: nat)
    ensures var row, after := At(t.bids, (x, index)), At(AuctionStep(t, a).bids, (x, index));
            if Submitting(x, index)(a) then
              after == Some(BidRow(a.body.bidder, a.body.ciphertext, a.body.hash, row.Some? && row.value.cancelled,
                                   Position(a.id.block, a.id.index)))
            else if row.Some? && a.auction == x && a.body.BidCancelled? && a.body.bidder == row.value.bidder
                    && a.body.hash == row.value.hash then
              after == Some(row.value.(cancelled := true))
            else after == row
  {
  }

  // ------------------------------------------------------------------------ allotments

  function Finalizing(x: AuctionId): AuctionLog -> bool {
    (a: AuctionLog) => a.auction == x && a.body.Finalized?
  }

  /** The allotments are those of the last `AuctionFinalized`. */
  lemma {:induction false} AllotmentColumns(t: Tables, ls: seq<AuctionLog>, x: AuctionId)
    ensures At(AuctionPass(t, ls).allotments, x) ==
            if Latest(ls, Finalizing(x)).Some? then Some(Latest(ls, Finalizing(x)).value.body.allotments)
            else At(t.allotments, x)
  {
    if ls != [] { AllotmentColumns(t, ls[..|ls|-1], x); }
  }

  // -------------------------------------------------------------------------- a window

  lemma {:induction false} ManagerLeavesBids(t: Tables, ms: seq<ManagerLog>)
    ensures ManagerPass(t, ms).bids == t.bids && ManagerPass(t, ms).allotments == t.allotments
  {
    if ms != [] { ManagerLeavesBids(t, ms[..|ms|-1]); }
  }

  lemma {:induction false} AuctionLeavesHistory(t: Tables, ls: seq<AuctionLog>)
    ensures AuctionPass(t, ls).history == t.history
  {
    if ls != [] { AuctionLeavesHistory(t, ls[..|ls|-1]); }
  }

  /** Every column of every auction after a window: the row first as the manager's logs write it, `mid`, then as the
      auction's own do; bids and allotments by the latter alone. */
  lemma WindowColumns(t: Tables, b: AuctionBatch, x: AuctionId, index: nat) returns (mid: Option<Row>)
    ensures ManagerWrites(At(t.rows, x), b.manager, x, mid)
    ensures CreationWrites(mid, b.auction, x, At(Process(t, b).rows, x))
    ensures BidWrites(At(t.bids, (x, index)), b.auction, x, index, At(Process(t, b).bids, (x, index)))
    ensures At(Process(t, b).allotments, x) ==
            if Latest(b.auction, Finalizing(x)).Some? then Some(Latest(b.auction, Finalizing(x)).value.body.allotments)
            else At(t.allotments, x)
  {
    var between := ManagerPass(t, b.manager);
    mid := At(between.rows, x);
    ManagerColumns(t, b.manager, x);
    ManagerLeavesBids(t, b.manager);
    CreationColumns(between, b.auction, x);
    BidColumns(between, b.auction, x, index);
    AllotmentColumns(between, b.auction, x);
  }

  // --------------------------------------------------------------------------- history

  /** The history grows by the logs whose key is new, as they are and in their order. */
  function NewOnes(history: seq<ManagerLog>, ms: seq<ManagerLog>): seq<ManagerLog> {
    if ms == [] then []
    else
      var init, last := ms[..|ms|-1], ms[|ms|-1];
      NewOnes(history, init) + if InHistory(history, last) || InHistory(init, last) then [] else [last]
  }

  lemma InBoth(a: seq<ManagerLog>, b: seq<ManagerLog>, m: ManagerLog)
    ensures InHistory(a + b, m) <==> InHistory(a, m) || InHistory(b, m)
  {
    if i :| 0 <= i < |a| && a[i].id.SameLog(m.id) { assert (a + b)[i] == a[i]; }
    if i :| 0 <= i < |b| && b[i].id.SameLog(m.id) { assert (a + b)[|a| + i] == b[i]; }
  }

  lemma {:induction false} NewOnesKeys(history: seq<ManagerLog>, ms: seq<ManagerLog>, m: ManagerLog)
    ensures InHistory(history + NewOnes(history, ms), m) <==> InHistory(history, m) || InHistory(ms, m)
  {
    InBoth(history, NewOnes(history, ms), m);
    if ms != [] {
      var init, last := ms[..|ms|-1], ms[|ms|-1];
      assert ms == init + [last];
      NewOnesKeys(history, init, m);
      NewOnesKeys(history, init, last);
      assert NewOnes(history, init) + [] == NewOnes(history, init);
      InBoth(history, NewOnes(history, init), m);
      InBoth(NewOnes(history, init), [last], m);
      InBoth(init, [last], m);
      SameKey(history, init, last, m);
    }
  }

  lemma SameKey(history: seq<ManagerLog>, init: seq<ManagerLog>, last: ManagerLog, m: ManagerLog)
    ensures InHistory([last], m) <==> last.id.SameLog(m.id)
    ensures last.id.SameLog(m.id) ==>
              (InHistory(history, m) <==> InHistory(history, last)) && (InHistory(init, m) <==> InHistory(init, last))
  {
    assert [last][0] == last;
  }

  lemma {:induction false} HistoryGrows(t: Tables, ms: seq<ManagerLog>)
    ensures ManagerPass(t, ms).history == t.history + NewOnes(t.history, ms)
  {
    if ms != [] {
      HistoryGrows(t, ms[..|ms|-1]);
      NewOnesKeys(t.history, ms[..|ms|-1], ms[|ms|-1]);
    }
  }

  lemma HistoryOfWindow(t: Tables, b: AuctionBatch)
    ensures Process(t, b).history == t.history + NewOnes(t.history, b.manager)
  {
    HistoryGrows(t, b.manager);
    AuctionLeavesHistory(ManagerPass(t, b.manager), b.auction);
  }
}
