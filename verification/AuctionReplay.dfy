/**
 Processing committed windows a second time, on the auction tables.
 */
module AuctionReplay {
  import opened Prelude
  import opened BondLifecycle
  import opened Projection
  import opened AuctionProjection

  // ----------------------------------------------------------------------- bids

  function BidPass(bids: Bids, ls: seq<AuctionLog>): Bids {
    if ls == [] then bids else BidStep(BidPass(bids, ls[..|ls|-1]), ls[|ls|-1])
  }

  /** The bids of a window depend on the bids before it alone. */
  lemma {:induction false} PassBids(t: AuctionProjection.Tables, ls: seq<AuctionLog>)
    ensures AuctionPass(t, ls).bids == BidPass(t.bids, ls)
  {
    if ls != [] { PassBids(t, ls[..|ls|-1]); }
  }

  /** The chain numbers bids: no index of an auction is submitted twice. */
  ghost predicate OncePerIndex(ls: seq<AuctionLog>) {
    forall i, j | 0 <= i < j < |ls| ::
      ls[i].body.BidSubmitted? && ls[j].body.BidSubmitted? && ls[i].auction == ls[j].auction ==>
      ls[i].body.index != ls[j].body.index
  }

  /** The bid of a submission is in the table, cancelled or not. */
  ghost predicate Holds(bids: Bids, a: AuctionLog)
    requires a.body.BidSubmitted?
  {
    var key := (a.auction, a.body.index);
    && key in bids
    && bids[key] == BidRow(a.body.bidder, a.body.ciphertext, a.body.hash, bids[key].cancelled, a.id.At())
  }

  /** `s` is `bids` with, perhaps, more bids cancelled. */
  ghost predicate Grown(bids: Bids, s: Bids) {
    && s.Keys == bids.Keys
    && forall key | key in bids ::
         s[key] == bids[key].(cancelled := s[key].cancelled) && (bids[key].cancelled ==> s[key].cancelled)
  }

  lemma {:induction false} SubmissionsHold(bids: Bids, ls: seq<AuctionLog>)
    requires OncePerIndex(ls)
    ensures forall a | a in ls :: a.body.BidSubmitted? ==> Holds(BidPass(bids, ls), a)
  {
    if ls != [] {
      var init, last := ls[..|ls|-1], ls[|ls|-1];
      SubmissionsHold(bids, init);
      var before, after := BidPass(bids, init), BidPass(bids, ls);
      forall a | a in ls && a.body.BidSubmitted? ensures Holds(after, a) {
        if a in init {
          assert Holds(before, a);
          var i :| 0 <= i < |init| && init[i] == a;
          assert ls[i] == a && ls[|ls|-1] == last;
        } else {
          assert a == last;
        }
      }
    }
  }

  /** One step of the second run only cancels. */
  lemma ReplayStepGrows(after: Bids, s: Bids, a: AuctionLog)
    requires Grown(after, s) && (a.body.BidSubmitted? ==> Holds(after, a))
    ensures Grown(after, BidStep(s, a))
    ensures forall key | key in s :: s[key].cancelled ==> BidStep(s, a)[key].cancelled
  {
    if a.body.BidSubmitted? {
      var key := (a.auction, a.body.index);
      assert s[key] == after[key].(cancelled := s[key].cancelled);
      assert BidStep(s, a) == s[key := s[key]] == s;
    }
  }

  /** A cancellation of the window that would hit a bid that is active after it. */
  ghost predicate Rehits(after: Bids, a: AuctionLog) {
    && a.body.BidCancelled?
    && exists key | key in after ::
         Matches(key, after[key], a.auction, a.body.bidder, a.body.hash) && !after[key].cancelled
  }

  lemma {:induction false} ReplayGrows(after: Bids, ls: seq<AuctionLog>)
    requires forall a | a in ls :: a.body.BidSubmitted? ==> Holds(after, a)
    ensures Grown(after, BidPass(after, ls))
    ensures (forall a | a in ls :: !Rehits(after, a)) ==> BidPass(after, ls) == after
    ensures forall a, key | a in ls && a.body.BidCancelled? && key in after ::
              Matches(key, after[key], a.auction, a.body.bidder, a.body.hash) ==> BidPass(after, ls)[key].cancelled
  {
    if ls != [] {
      var init, last := ls[..|ls|-1], ls[|ls|-1];
      forall a | a in init ensures a in ls {}
      assert last in ls;
      ReplayGrows(after, init);
      var s := BidPass(after, init);
      ReplayStepGrows(after, s, last);
      if forall a | a in ls :: !Rehits(after, a) {
        assert s == after && !Rehits(after, last);
        IdleStep(after, last);
      }
      forall a, key | a in ls && a.body.BidCancelled? && key in after &&
                      Matches(key, after[key], a.auction, a.body.bidder, a.body.hash)
        ensures BidPass(after, ls)[key].cancelled
      {
        if a in init { assert s[key].cancelled; } else { assert a == last; }
      }
    }
  }

  lemma IdleStep(after: Bids, a: AuctionLog)
    requires !Rehits(after, a) && (a.body.BidSubmitted? ==> Holds(after, a))
    ensures BidStep(after, a) == after
  {
    if a.body.BidSubmitted? {
      var key := (a.auction, a.body.index);
      assert BidStep(after, a) == after[key := after[key]];
    } else if a.body.BidCancelled? {
      forall key | key in after ensures BidStep(after, a)[key] == after[key] {}
    }
  }

  /** A second run leaves the bids alone exactly if no cancellation of the window matches a bid that is active after
      the window, such as a bid that was withdrawn and submitted again unchanged. */
  lemma BidReplayExactly(bids: Bids, ls: seq<AuctionLog>)
    requires OncePerIndex(ls)
    ensures var after := BidPass(bids, ls);
            BidPass(after, ls) == after <==> forall a | a in ls :: !Rehits(after, a)
  {
    var after := BidPass(bids, ls);
    SubmissionsHold(bids, ls);
    ReplayGrows(after, ls);
    if a :| a in ls && Rehits(after, a) {
      var key :| && key in after && !after[key].cancelled
                 && Matches(key, after[key], a.auction, a.body.bidder, a.body.hash);
      assert BidPass(after, ls)[key].cancelled;
    }
  }

  const WITHDRAWN: seq<AuctionLog> := [
    AuctionLog(LogId(10, 0, 100), 1, BidSubmitted(0, 7, "c", 9)),
    AuctionLog(LogId(11, 0, 101), 1, BidCancelled(7, 9)),
    AuctionLog(LogId(12, 0, 102), 1, BidSubmitted(1, 7, "c", 9))]

  /** The instance: after the window bid 1 is active; a second run cancels it. */
  lemma ResubmittedBidIsLost()
    ensures var after := BidPass(map[], WITHDRAWN);
            && (1, 1) in after && !after[(1, 1)].cancelled
            && BidPass(after, WITHDRAWN) != after
  {
    var a, c, b := WITHDRAWN[0], WITHDRAWN[1], WITHDRAWN[2];
    assert WITHDRAWN[..2] == [a, c] && [a, c][..1] == [a] && [a][..0] == [];
    assert BidPass(map[], []) == map[];
    var one := BidPass(map[], [a]);
    assert one == BidStep(map[], a);
    var two := BidPass(map[], [a, c]);
    assert two == BidStep(one, c);
    var after := BidPass(map[], WITHDRAWN);
    assert after == BidStep(two, b);
    assert (1, 1) !in two;
    assert Matches((1, 1), after[(1, 1)], c.auction, c.body.bidder, c.body.hash);
    assert Rehits(after, c) && c in WITHDRAWN;
    BidReplayExactly(map[], WITHDRAWN);
  }

  // ----------------------------------------------------------------------- rows

  /** What a manager pass leaves on the row of one auction: the last ISIN, status and times, the first bond. */
  datatype Mark = Mark(isin: Option<Isin>, bond: Option<Address>, status: Option<AuctionStatus>,
                       closedAt: Option<nat>, finalisedAt: Option<nat>)

  function StatusSet(b: AuctionProjection.ManagerBody): AuctionStatus {
    match b
    case Initialised(_, _) => Open
    case AuctionClosed(_) => Closed
    case AuctionFinalised(_) => Finalised
    case AuctionCancelled => Cancelled
  }

  function MarkOf(ms: seq<AuctionProjection.ManagerLog>, x: AuctionId): Mark {
    if ms == [] then Mark(None, None, None, None, None)
    else
      var init, m := MarkOf(ms[..|ms|-1], x), ms[|ms|-1];
      if m.auction != x then init
      else Mark(Some(m.isin), Coalesce(init.bond, BondOfEvent(m.body)), Some(StatusSet(m.body)),
                if m.body.AuctionClosed? then Some(m.body.at) else init.closedAt,
                if m.body.AuctionFinalised? then Some(m.body.at) else init.finalisedAt)
  }

  function Either<T>(a: Option<T>, b: T): T {
    if a.Some? then a.value else b
  }

  function Marked(r: Row, k: Mark): Row {
    r.(isin := Either(k.isin, r.isin), bond := Coalesce(r.bond, k.bond), status := Either(k.status, r.status),
       closedAt := Coalesce(k.closedAt, r.closedAt), finalisedAt := Coalesce(k.finalisedAt, r.finalisedAt))
  }

  /** The row that a manager pass marks: the one that was there, or the one its first event inserts. */
  function MarkedFrom(r: Option<Row>, ms: seq<AuctionProjection.ManagerLog>, x: AuctionId): Option<Row> {
    if r.Some? || ms == [] then r
    else
      var base, m := MarkedFrom(r, ms[..|ms|-1], x), ms[|ms|-1];
      if base.Some? || m.auction != x then base else Some(Upserted(None, m))
  }

  lemma {:induction false} ManagerRowsMarked(
    t: AuctionProjection.Tables, ms: seq<AuctionProjection.ManagerLog>, x: AuctionId)
    ensures var base := MarkedFrom(At(t.rows, x), ms, x);
            At(AuctionProjection.ManagerPass(t, ms).rows, x)
            == if base.None? then None else Some(Marked(base.value, MarkOf(ms, x)))
    ensures MarkedFrom(At(t.rows, x), ms, x).None? ==> MarkOf(ms, x) == MarkOf([], x)
    ensures AuctionProjection.ManagerPass(t, ms).bids == t.bids
    ensures AuctionProjection.ManagerPass(t, ms).allotments == t.allotments
  {
    if ms != [] {
      ManagerRowsMarked(t, ms[..|ms|-1], x);
    }
  }

  /** The last creation event of an auction. */
  function LastCreated(ls: seq<AuctionLog>, x: AuctionId): (r: Option<AuctionBody>)
    ensures r.Some? ==> r.value.Created?
  {
    if ls == [] then None
    else
      var a := ls[|ls|-1];
      if a.body.Created? && a.auction == x then Some(a.body) else LastCreated(ls[..|ls|-1], x)
  }

  function Made(r: Row, c: Option<AuctionBody>): Row
    requires c.Some? ==> c.value.Created?
  {
    if c.None? then r else r.(isin := c.value.isin, kind := c.value.kind, terms := Some(c.value.terms))
  }

  function LastAllotments(ls: seq<AuctionLog>, x: AuctionId): Option<seq<Allotment>> {
    if ls == [] then None
    else
      var a := ls[|ls|-1];
      if a.body.Finalized? && a.auction == x then Some(a.body.allotments) else LastAllotments(ls[..|ls|-1], x)
  }

  /** An auction pass overwrites what the last creation says, and the allotments by the last finalisation. */
  lemma {:induction false} AuctionRowsMade(t: AuctionProjection.Tables, ls: seq<AuctionLog>, x: AuctionId)
    ensures var after := At(AuctionPass(t, ls).rows, x);
            && (after.None? <==> x !in t.rows && LastCreated(ls, x).None?)
            && (x in t.rows ==> after == Some(Made(t.rows[x], LastCreated(ls, x))))
            && (after.Some? ==> Made(after.value, LastCreated(ls, x)) == after.value)
    ensures At(AuctionPass(t, ls).allotments, x) == Coalesce(LastAllotments(ls, x), At(t.allotments, x))
    ensures AuctionPass(t, ls).history == t.history
  {
    if ls != [] {
      AuctionRowsMade(t, ls[..|ls|-1], x);
    }
  }

  lemma MarkTwice(r: Row, k: Mark, c: Option<AuctionBody>)
    requires c.Some? ==> c.value.Created?
    ensures Made(Marked(Made(Marked(r, k), c), k), c) == Made(Marked(r, k), c)
  {
  }

  lemma RowReplay(t: AuctionProjection.Tables, b: AuctionBatch, x: AuctionId)
    ensures var t1 := AuctionProjection.Process(t, b);
            At(AuctionProjection.Process(t1, b).rows, x) == At(t1.rows, x)
    ensures var t1 := AuctionProjection.Process(t, b);
            At(AuctionProjection.Process(t1, b).allotments, x) == At(t1.allotments, x)
  {
    var t1 := AuctionProjection.Process(t, b);
    var s, s1 := AuctionProjection.ManagerPass(t, b.manager), AuctionProjection.ManagerPass(t1, b.manager);
    ManagerRowsMarked(t, b.manager, x);
    AuctionRowsMade(s, b.auction, x);
    ManagerRowsMarked(t1, b.manager, x);
    AuctionRowsMade(s1, b.auction, x);
    if x in s.rows {
      MarkTwice(MarkedFrom(At(t.rows, x), b.manager, x).value, MarkOf(b.manager, x), LastCreated(b.auction, x));
    }
  }

  // -------------------------------------------------------------------- history

  lemma {:induction false} ManagerHistoryRecords(t: AuctionProjection.Tables, ms: seq<AuctionProjection.ManagerLog>)
    ensures t.history <= AuctionProjection.ManagerPass(t, ms).history
    ensures forall m | m in ms :: InHistory(AuctionProjection.ManagerPass(t, ms).history, m)
    ensures (forall m | m in ms :: InHistory(t.history, m)) ==>
              AuctionProjection.ManagerPass(t, ms).history == t.history
  {
    if ms != [] {
      var init, last := ms[..|ms|-1], ms[|ms|-1];
      assert ms == init + [last];
      ManagerHistoryRecords(t, init);
      var before := AuctionProjection.ManagerPass(t, init).history;
      var after := AuctionProjection.ManagerPass(t, ms).history;
      assert after == if InHistory(before, last) then before else before + [last];
      forall m | m in ms ensures InHistory(after, m) {
        if m in init {
          var i :| 0 <= i < |before| && before[i].id.SameLog(m.id);
          assert after[i] == before[i];
        } else if !InHistory(before, last) {
          assert after[|before|] == last;
        }
      }
    }
  }

  // ------------------------------------------------------------- whole tables

  /** A second run of a window right after the first leaves rows, history and allotments alone; it leaves
      all four tables alone exactly when no cancellation of the window matches a bid that is active after it. */
  lemma AuctionReplayExactly(t: AuctionProjection.Tables, b: AuctionBatch)
    ensures var t1 := AuctionProjection.Process(t, b);
            && AuctionProjection.Process(t1, b) == t1.(bids := BidPass(t1.bids, b.auction))
            && (OncePerIndex(b.auction) ==>
                  (AuctionProjection.Process(t1, b) == t1 <==> forall a | a in b.auction :: !Rehits(t1.bids, a)))
  {
    var t1 := AuctionProjection.Process(t, b);
    var t2 := AuctionProjection.Process(t1, b);
    var s, s1 := AuctionProjection.ManagerPass(t, b.manager), AuctionProjection.ManagerPass(t1, b.manager);
    forall x ensures At(t2.rows, x) == At(t1.rows, x) && At(t2.allotments, x) == At(t1.allotments, x) {
      RowReplay(t, b, x);
    }
    SameMap(t2.rows, t1.rows);
    SameMap(t2.allotments, t1.allotments);
    ManagerHistoryRecords(t, b.manager);
    ManagerHistoryRecords(t1, b.manager);
    AuctionRowsMade(s, b.auction, 0);
    AuctionRowsMade(s1, b.auction, 0);
    ManagerRowsMarked(t, b.manager, 0);
    ManagerRowsMarked(t1, b.manager, 0);
    PassBids(s, b.auction);
    PassBids(s1, b.auction);
    if OncePerIndex(b.auction) { BidReplayExactly(t.bids, b.auction); }
  }

  lemma SameMap<K, V>(m: map<K, V>, n: map<K, V>)
    requires forall k :: At(m, k) == At(n, k)
    ensures m == n
  {
    forall k ensures k in m <==> k in n {
      assert At(m, k) == At(n, k);
    }
    forall k | k in m ensures m[k] == n[k] {
      assert At(m, k) == At(n, k);
    }
  }

  /** A loop that starts from an old checkpoint runs all blocks committed since, in whatever windows: the
      auction tables end where they were, but for the bids that a second run of those blocks cancels. */
  lemma ReplayOfCommittedAuctions(
    t: AuctionProjection.Tables, blocks: seq<AuctionBatch>, windows: seq<seq<AuctionBatch>>)
    requires Consistent(blocks) && AuctionProjection.Flatten(windows) == blocks
    ensures var t1 := AuctionProjection.Blockwise(t, blocks);
            var again := AuctionProjection.RunWindows(t1, windows);
            var ls := AuctionProjection.JoinAll(blocks).auction;
            && again == t1.(bids := BidPass(t1.bids, ls))
            && (OncePerIndex(ls) ==> (again == t1 <==> forall a | a in ls :: !Rehits(t1.bids, a)))
  {
    var t1 := AuctionProjection.Blockwise(t, blocks);
    AnyAuctionWindows(t1, windows);
    WindowIsBlockwise(t1, blocks);
    WindowIsBlockwise(t, blocks);
    AuctionReplayExactly(t, AuctionProjection.JoinAll(blocks));
  }

  // ------------------------------------------------- windows that are not the newest

  /** `o` says nothing, or what the column shows. */
  predicate SaysNo<T(==)>(o: Option<T>, shown: T) {
    o == None || o == Some(shown)
  }

  /** The row shows everything that the manager's mark and the last creation say. An auction without a row is
      named by neither. */
  predicate RowShown(r: Option<Row>, k: Mark, c: Option<AuctionBody>)
    requires c.Some? ==> c.value.Created?
  {
    if r.None? then k.status.None? && c.None?
    else
      && (if c.Some? then
            r.value.isin == c.value.isin && r.value.kind == c.value.kind && r.value.terms == Some(c.value.terms)
          else
            SaysNo(k.isin, r.value.isin))
      && (r.value.bond.Some? || k.bond.None?)
      && SaysNo(k.status, r.value.status)
      && k.closedAt in {None, r.value.closedAt}
      && k.finalisedAt in {None, r.value.finalisedAt}
  }

  lemma {:induction false} MarkIsNone(ms: seq<AuctionProjection.ManagerLog>, x: AuctionId)
    ensures MarkOf(ms, x).status.None? <==> forall m | m in ms :: m.auction != x
    ensures MarkedFrom(None, ms, x).None? <==> MarkOf(ms, x).status.None?
  {
    if ms != [] {
      assert ms == ms[..|ms|-1] + [ms[|ms|-1]];
      MarkIsNone(ms[..|ms|-1], x);
    }
  }

  lemma RowShownExactly(r: Row, k: Mark, c: Option<AuctionBody>)
    requires c.Some? ==> c.value.Created?
    ensures Made(Marked(r, k), c) == r <==> RowShown(Some(r), k, c)
  {
  }

  /** Any window on any tables: an auction's row and allotments are left alone exactly if they show what the
      window says. */
  lemma AuctionIsIdleExactly(t: AuctionProjection.Tables, u: AuctionBatch, x: AuctionId)
    ensures var r := AuctionProjection.Process(t, u);
            && (At(r.rows, x) == At(t.rows, x)
                <==> RowShown(At(t.rows, x), MarkOf(u.manager, x), LastCreated(u.auction, x)))
            && (At(r.allotments, x) == At(t.allotments, x)
                <==> LastAllotments(u.auction, x) in {None, At(t.allotments, x)})
  {
    var s := AuctionProjection.ManagerPass(t, u.manager);
    var k, c := MarkOf(u.manager, x), LastCreated(u.auction, x);
    ManagerRowsMarked(t, u.manager, x);
    AuctionRowsMade(s, u.auction, x);
    MarkIsNone(u.manager, x);
    if x in t.rows {
      RowShownExactly(t.rows[x], k, c);
    }
  }

  /** The history holds every manager event of these logs. */
  ghost predicate Recorded(t: AuctionProjection.Tables, u: AuctionBatch) {
    forall m | m in u.manager :: InHistory(t.history, m)
  }

  /** The bids hold every submission of these logs. */
  ghost predicate AllHeld(t: AuctionProjection.Tables, u: AuctionBatch) {
    forall a | a in u.auction :: a.body.BidSubmitted? ==> Holds(t.bids, a)
  }

  lemma BlocksAreCommitted(t: AuctionProjection.Tables, blocks: seq<AuctionBatch>, a: nat, b: nat)
    requires Consistent(blocks) && a <= b <= |blocks|
    ensures var u := AuctionProjection.JoinAll(blocks[a..b]);
            && Recorded(AuctionProjection.Blockwise(t, blocks), u)
            && (OncePerIndex(AuctionProjection.JoinAll(blocks).auction) ==>
                  AllHeld(AuctionProjection.Blockwise(t, blocks), u))
  {
    var all := AuctionProjection.JoinAll(blocks);
    WindowIsBlockwise(t, blocks);
    var s := AuctionProjection.ManagerPass(t, all.manager);
    ManagerHistoryRecords(t, all.manager);
    AuctionRowsMade(s, all.auction, 0);
    ManagerRowsMarked(t, all.manager, 0);
    PassBids(s, all.auction);
    LogsOfPart(blocks, a, b);
    if OncePerIndex(all.auction) { SubmissionsHold(t.bids, all.auction); }
  }

  lemma LogsOfPart(blocks: seq<AuctionBatch>, a: nat, b: nat)
    requires a <= b <= |blocks|
    ensures forall m | m in AuctionProjection.JoinAll(blocks[a..b]).manager ::
              m in AuctionProjection.JoinAll(blocks).manager
    ensures forall l | l in AuctionProjection.JoinAll(blocks[a..b]).auction ::
              l in AuctionProjection.JoinAll(blocks).auction
  {
    assert blocks == blocks[..a] + blocks[a..b] + blocks[b..];
    JoinAllAppend(blocks[..a] + blocks[a..b], blocks[b..]);
    JoinAllAppend(blocks[..a], blocks[a..b]);
  }

  lemma {:induction false} JoinAllAppend(a: seq<AuctionBatch>, b: seq<AuctionBatch>)
    ensures AuctionProjection.JoinAll(a + b)
         == AuctionProjection.Join(AuctionProjection.JoinAll(a), AuctionProjection.JoinAll(b))
  {
    if b == [] {
      assert a + b == a;
    } else {
      assert (a + b)[..|a + b|-1] == a + b[..|b|-1];
      JoinAllAppend(a, b[..|b|-1]);
    }
  }

  /** Logs that the tables hold leave the history alone, and the bids exactly if no cancellation hits an active one. */
  lemma CommittedWindow(t: AuctionProjection.Tables, u: AuctionBatch)
    requires Recorded(t, u)
    ensures AuctionProjection.Process(t, u).history == t.history
    ensures AllHeld(t, u) ==>
              (AuctionProjection.Process(t, u).bids == t.bids <==> forall a | a in u.auction :: !Rehits(t.bids, a))
  {
    var s := AuctionProjection.ManagerPass(t, u.manager);
    ManagerHistoryRecords(t, u.manager);
    AuctionRowsMade(s, u.auction, 0);
    ManagerRowsMarked(t, u.manager, 0);
    PassBids(s, u.auction);
    if AllHeld(t, u) {
      ReplayGrows(t.bids, u.auction);
      if a :| a in u.auction && Rehits(t.bids, a) {
        var key :| && key in t.bids && !t.bids[key].cancelled
                   && Matches(key, t.bids[key], a.auction, a.body.bidder, a.body.hash);
        assert BidPass(t.bids, u.auction)[key].cancelled;
      }
    }
  }

  /** The row and the allotments of auction `x` show everything that `u` says of it. */
  predicate ShowsAuction(t: AuctionProjection.Tables, u: AuctionBatch, x: AuctionId) {
    && RowShown(At(t.rows, x), MarkOf(u.manager, x), LastCreated(u.auction, x))
    && LastAllotments(u.auction, x) in {None, At(t.allotments, x)}
  }

  /** Earlier blocks `a..b`, run again in any windows when all of `blocks` are committed: the history is left
      alone; the row of an auction exactly if it shows what those blocks say of it, and so the allotments; the
      bids, whose indexes the chain gives once, exactly if no cancellation of those blocks matches an active one. */
  lemma EarlierAuctionsAreIdleExactly(
    t0: AuctionProjection.Tables, blocks: seq<AuctionBatch>, a: nat, b: nat, windows: seq<seq<AuctionBatch>>)
    requires Consistent(blocks) && a <= b <= |blocks| && AuctionProjection.Flatten(windows) == blocks[a..b]
    ensures var t := AuctionProjection.Blockwise(t0, blocks);
            var again, u := AuctionProjection.RunWindows(t, windows), AuctionProjection.JoinAll(blocks[a..b]);
            && again.history == t.history
            && (forall x ::
                  At(again.rows, x) == At(t.rows, x)
                  <==> RowShown(At(t.rows, x), MarkOf(u.manager, x), LastCreated(u.auction, x)))
            && (forall x ::
                  At(again.allotments, x) == At(t.allotments, x)
                  <==> LastAllotments(u.auction, x) in {None, At(t.allotments, x)})
            && (OncePerIndex(AuctionProjection.JoinAll(blocks).auction) ==>
                  && (again.bids == t.bids <==> forall l | l in u.auction :: !Rehits(t.bids, l))
                  && (again == t <==>
                        (forall x :: ShowsAuction(t, u, x)) && forall l | l in u.auction :: !Rehits(t.bids, l)))
  {
    var t, u := AuctionProjection.Blockwise(t0, blocks), AuctionProjection.JoinAll(blocks[a..b]);
    PartIsOneWindow(t, blocks, a, b, windows);
    BlocksAreCommitted(t0, blocks, a, b);
    CommittedWindow(t, u);
    var again := AuctionProjection.Process(t, u);
    forall x
      ensures At(again.rows, x) == At(t.rows, x)
         <==> RowShown(At(t.rows, x), MarkOf(u.manager, x), LastCreated(u.auction, x))
      ensures At(again.allotments, x) == At(t.allotments, x)
         <==> LastAllotments(u.auction, x) in {None, At(t.allotments, x)}
    {
      AuctionIsIdleExactly(t, u, x);
    }
    if forall x :: ShowsAuction(t, u, x) {
      forall x ensures At(again.rows, x) == At(t.rows, x) && At(again.allotments, x) == At(t.allotments, x) {
        assert ShowsAuction(t, u, x);
      }
      SameMap(again.rows, t.rows);
      SameMap(again.allotments, t.allotments);
    }
  }

  lemma PartIsOneWindow(
    t: AuctionProjection.Tables, blocks: seq<AuctionBatch>, a: nat, b: nat, windows: seq<seq<AuctionBatch>>)
    requires Consistent(blocks) && a <= b <= |blocks| && AuctionProjection.Flatten(windows) == blocks[a..b]
    ensures AuctionProjection.RunWindows(t, windows)
         == AuctionProjection.Process(t, AuctionProjection.JoinAll(blocks[a..b]))
  {
    forall i | 0 <= i < b - a ensures blocks[a..b][i] == blocks[a + i] {}
    AnyAuctionWindows(t, windows);
    WindowIsBlockwise(t, blocks[a..b]);
  }

  // the condition fails

  const OPENING := AuctionBatch(
    [AuctionProjection.ManagerLog(LogId(10, 0, 100), 1, "NO0000000001", Initialised("RATE", None))], [])

  const FINALISING := AuctionBatch(
    [AuctionProjection.ManagerLog(LogId(11, 0, 101), 1, "NO0000000001", AuctionFinalised(50))], [])

  predicate HasStatus(t: AuctionProjection.Tables, x: AuctionId, status: AuctionStatus) {
    x in t.rows && t.rows[x].status == status
  }

  lemma StatusOfOne(t: AuctionProjection.Tables, b: AuctionBatch, m: AuctionProjection.ManagerLog)
    requires b == AuctionBatch([m], [])
    ensures HasStatus(AuctionProjection.Process(t, b), m.auction, StatusSet(m.body))
  {
    assert b.manager[..0] == [];
  }

  /** Before it has caught up, such a loop shows an older status: the second run of the window that opened
      an auction opens it again, although it is finalised. */
  lemma OlderWindowReopensAuction(t: AuctionProjection.Tables)
    ensures var started := AuctionProjection.Process(t, OPENING);
            var finalised := AuctionProjection.Process(started, FINALISING);
            && HasStatus(finalised, 1, Finalised)
            && HasStatus(AuctionProjection.Process(finalised, OPENING), 1, Open)
  {
    var started := AuctionProjection.Process(t, OPENING);
    var finalised := AuctionProjection.Process(started, FINALISING);
    StatusOfOne(started, FINALISING, FINALISING.manager[0]);
    StatusOfOne(finalised, OPENING, OPENING.manager[0]);
  }
}
