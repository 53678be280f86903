/**
 Processing a window a second time right after its first run (ReplayOfRange.dfy has the older windows).
 */
module Replay {
  import opened Prelude
  import opened BondLifecycle
  import opened Projection
  import opened ProjectionLens
  import opened WindowMerge

  /** Every posting of `log` is already in the books. */
  ghost predicate Posted(p: map<Hash, Isin>, books: Books, log: TokenLog) {
    Mapped(p, log) ==> forall d <- DeltasOf(log) :: !Writes(books, d, log.id)
  }

  lemma {:induction false} PostDeltasRecords(books: Books, isin: Isin, ds: seq<HolderDelta>, id: LogId)
    ensures forall r <- books.events :: r in PostDeltas(books, isin, ds, id).events
    ensures forall d <- ds :: !Writes(PostDeltas(books, isin, ds, id), d, id)
  {
    if ds != [] {
      PostDeltasRecords(books, isin, ds[..|ds|-1], id);
      var before, after := PostDeltas(books, isin, ds[..|ds|-1], id), PostDeltas(books, isin, ds, id);
      var last := ds[|ds|-1];
      if Writes(before, last, id) {
        assert after.events[|before.events|] in after.events;
      }
      forall d | d in ds ensures !Writes(after, d, id) {
        if d in ds[..|ds|-1] && d.holder != ZERO_ADDRESS {
          assert !Writes(before, d, id);
          RecordedStays(before.events, after.events, id, d.holder);
        }
      }
    }
  }

  lemma RecordedStays(a: seq<BalanceEvent>, b: seq<BalanceEvent>, id: LogId, holder: Address)
    requires Recorded(a, id, holder) && forall r <- a :: r in b
    ensures Recorded(b, id, holder)
  {
  }

  lemma {:induction false} PostLogsRecords(p: map<Hash, Isin>, books: Books, logs: seq<TokenLog>)
    ensures forall r <- books.events :: r in PostLogs(p, books, logs).events
    ensures forall log <- logs :: Posted(p, PostLogs(p, books, logs), log)
  {
    if logs != [] {
      var init, last := logs[..|logs|-1], logs[|logs|-1];
      PostLogsRecords(p, books, init);
      var before := PostLogs(p, books, init);
      if Mapped(p, last) {
        PostDeltasRecords(before, p[last.body.partition], DeltasOf(last), last.id);
      }
      var after := PostLogs(p, books, logs);
      forall log | log in logs ensures Posted(p, after, log) {
        if log in init && Mapped(p, log) {
          forall d | d in DeltasOf(log) ensures !Writes(after, d, log.id) {
            if d.holder != ZERO_ADDRESS {
              assert Posted(p, before, log);
              RecordedStays(before.events, after.events, log.id, d.holder);
            }
          }
        }
      }
    }
  }

  lemma {:induction false} RepostDeltas(books: Books, isin: Isin, ds: seq<HolderDelta>, id: LogId)
    requires forall d <- ds :: !Writes(books, d, id)
    ensures PostDeltas(books, isin, ds, id) == books
    ensures forall i :: SupplyOfDeltas(books, isin, ds, id, i) == []
  {
    if ds != [] {
      RepostDeltas(books, isin, ds[..|ds|-1], id);
    }
  }

  lemma {:induction false} RepostLogs(p: map<Hash, Isin>, books: Books, logs: seq<TokenLog>)
    requires forall log <- logs :: Posted(p, books, log)
    ensures PostLogs(p, books, logs) == books
    ensures forall isin :: SupplyOf(p, books, logs, isin) == []
  {
    if logs != [] {
      var init, last := logs[..|logs|-1], logs[|logs|-1];
      RepostLogs(p, books, init);
      assert Posted(p, books, last);
      if Mapped(p, last) {
        RepostDeltas(books, p[last.body.partition], DeltasOf(last), last.id);
      }
    }
  }

  lemma {:induction false} HistoryRecords(rows: seq<HistoryRow>, logs: seq<ManagerLog>)
    ensures forall r <- rows :: r in History(rows, logs)
    ensures forall log <- logs :: RecordHistory(History(rows, logs), log) == History(rows, logs)
  {
    if logs != [] {
      var init, last := logs[..|logs|-1], logs[|logs|-1];
      HistoryRecords(rows, init);
      var before, after := History(rows, init), History(rows, logs);
      if !last.body.AuctionInitialised? && !exists r <- before :: r.id.SameLog(last.id) {
        assert after[|before|] in after;
      }
      forall log | log in logs ensures RecordHistory(after, log) == after {
        if log in init && !log.body.AuctionInitialised? {
          var r :| r in before && r.id.SameLog(log.id);
          assert r in after;
        }
      }
    }
  }

  lemma {:induction false} RewriteHistory(rows: seq<HistoryRow>, logs: seq<ManagerLog>)
    requires forall log <- logs :: RecordHistory(rows, log) == rows
    ensures History(rows, logs) == rows
  {
    if logs != [] {
      RewriteHistory(rows, logs[..|logs|-1]);
    }
  }

  /** Equal in every column but the position of the last update. */
  predicate SameFacts(s: BondState, r: BondState) {
    s == r.(updated := s.updated)
  }

  /** What a second run of a window does: it never fails, leaves partitions, balances, balance events
      and history alone, leaves alone every bond the window does not create, and puts the supply of
      each bond it does create to zero. */
  lemma ReplayOfWindow(h: PartitionHash, t: Tables, b: Batch)
    requires Injective(h) && WellMapped(h, t.partitions)
    requires Process(h, t, b).Success?
    ensures var t1 := Process(h, t, b).value;
            var again := Process(h, t1, b);
            && again.Success?
            && again.value.(bonds := t1.bonds) == t1
            && again.value.bonds.Keys == t1.bonds.Keys
            && forall isin ::
                 if HasCreated(ManagerEntriesOf(h, b.manager, isin))
                 then SameFacts(BondOf(h, again.value.bonds, isin), BondOf(h, t1.bonds, isin).(totalSupply := 0))
                 else BondOf(h, again.value.bonds, isin) == BondOf(h, t1.bonds, isin)
  {
    var t1 := Process(h, t, b).value;
    ProcessAt(h, t, b);
    ProcessAt(h, t1, b);
    AnnounceTwice(h, t.partitions, b);
    var p := Announce(h, t.partitions, b);
    PostLogsRecords(p, t.books, b.token);
    RepostLogs(p, t1.books, b.token);
    HistoryRecords(t.bondEvents, b.manager);
    RewriteHistory(t1.bondEvents, b.manager);
    forall isin
      ensures BondPass(h, t1, b, isin).Success?
      ensures if HasCreated(ManagerEntriesOf(h, b.manager, isin))
              then SameFacts(BondPass(h, t1, b, isin).value, BondOf(h, t1.bonds, isin).(totalSupply := 0))
              else BondPass(h, t1, b, isin).value == BondOf(h, t1.bonds, isin)
    {
      ManagerPassAt(h, t.bonds, b.manager, isin);
      TokenPassAt(h, t.bonds, b.token, isin);
      assert BondPass(h, t, b, isin) == Success(BondOf(h, t1.bonds, isin));
      ReplayOfBatch(BondOf(h, t.bonds, isin), ManagerEntriesOf(h, b.manager, isin), TokenEntriesOf(b.token, isin),
                    SupplyOf(p, t.books, b.token, isin));
    }
    forall isin ensures isin in Process(h, t1, b).value.bonds <==> isin in t1.bonds {
      assert isin in t1.bonds <==> isin in t.bonds || Touches(h, t, b, isin);
    }
  }

  lemma AnnounceTwice(h: PartitionHash, p: map<Hash, Isin>, b: Batch)
    requires Injective(h) && WellMapped(h, p)
    ensures Announce(h, Announce(h, p, b), b) == Announce(h, p, b)
  {
    var q := Announce(h, p, b);
    AnnounceAt(h, p, b, "");
    AnnounceAt(h, q, b, "");
    forall isin ensures h(isin) in Announce(h, q, b) <==> h(isin) in q {
      AnnounceAt(h, p, b, isin);
      AnnounceAt(h, q, b, isin);
    }
    MappedOnlyHashes(h, Announce(h, q, b), q);
  }

  /** A replay changes no fact of any bond exactly when every bond the window creates ends it
      without supply. */
  lemma ReplayIsHarmless(h: PartitionHash, t: Tables, b: Batch)
    requires Injective(h) && WellMapped(h, t.partitions)
    requires Process(h, t, b).Success?
    ensures var t1 := Process(h, t, b).value;
            var again := Process(h, t1, b);
            && again.Success?
            && ((forall isin :: SameFacts(BondOf(h, again.value.bonds, isin), BondOf(h, t1.bonds, isin)))
                <==>
                forall isin | HasCreated(ManagerEntriesOf(h, b.manager, isin)) ::
                  BondOf(h, t1.bonds, isin).totalSupply == 0)
  {
    var t1 := Process(h, t, b).value;
    ReplayOfWindow(h, t, b);
    var again := Process(h, t1, b).value;
    forall isin
      ensures SameFacts(BondOf(h, again.bonds, isin), BondOf(h, t1.bonds, isin))
         <==> (HasCreated(ManagerEntriesOf(h, b.manager, isin)) ==> BondOf(h, t1.bonds, isin).totalSupply == 0)
    {
      if HasCreated(ManagerEntriesOf(h, b.manager, isin)) {
        assert SameFacts(BondOf(h, again.bonds, isin), BondOf(h, t1.bonds, isin).(totalSupply := 0));
      }
    }
  }
}
