/**
 When may two adjacent windows be processed as one?
 */
module WindowMerge {
  import opened Prelude
  import opened BondLifecycle
  import opened Projection
  import opened ProjectionLens

  // ----------------------------------------------------------- announcements

  /** Every mapped partition is the hash of its ISIN. */
  ghost predicate WellMapped(h: PartitionHash, p: map<Hash, Isin>) {
    forall k | k in p :: h(p[k]) == k
  }

  ghost predicate Announces(b: Batch, isin: Isin) {
    || (exists log <- b.manager :: ResolvedIsin(log) == Some(isin) || LoopIsin(log) == Some(isin))
    || (exists log <- b.token :: TokenIsin(log) == Some(isin))
  }

  ghost predicate AnnouncedByToken(h: PartitionHash, logs: seq<TokenLog>, k: Hash) {
    exists log <- logs :: TokenIsin(log).Some? && h(TokenIsin(log).value) == k
  }

  ghost predicate AnnouncedByLoop(h: PartitionHash, logs: seq<ManagerLog>, k: Hash) {
    exists log <- logs :: LoopIsin(log).Some? && h(LoopIsin(log).value) == k
  }

  ghost predicate AnnouncedByResolved(h: PartitionHash, logs: seq<ManagerLog>, k: Hash) {
    exists log <- logs :: ResolvedIsin(log).Some? && h(ResolvedIsin(log).value) == k
  }

  lemma {:induction false} UpsertTokenAt(h: PartitionHash, p: map<Hash, Isin>, logs: seq<TokenLog>)
    requires WellMapped(h, p)
    ensures WellMapped(h, UpsertToken(h, p, logs))
    ensures forall k :: k in UpsertToken(h, p, logs) <==> k in p || AnnouncedByToken(h, logs, k)
  {
    if logs != [] {
      UpsertTokenAt(h, p, logs[..|logs|-1]);
      assert logs == logs[..|logs|-1] + [logs[|logs|-1]];
    }
  }

  lemma {:induction false} UpsertLoopAt(h: PartitionHash, p: map<Hash, Isin>, logs: seq<ManagerLog>)
    requires WellMapped(h, p)
    ensures WellMapped(h, UpsertLoop(h, p, logs))
    ensures forall k :: k in UpsertLoop(h, p, logs) <==> k in p || AnnouncedByLoop(h, logs, k)
  {
    if logs != [] {
      UpsertLoopAt(h, p, logs[..|logs|-1]);
      assert logs == logs[..|logs|-1] + [logs[|logs|-1]];
    }
  }

  lemma {:induction false} UpsertResolvedAt(h: PartitionHash, p: map<Hash, Isin>, logs: seq<ManagerLog>)
    requires WellMapped(h, p)
    ensures WellMapped(h, UpsertResolved(h, p, logs))
    ensures forall k :: k in UpsertResolved(h, p, logs) <==> k in p || AnnouncedByResolved(h, logs, k)
  {
    if logs != [] {
      UpsertResolvedAt(h, p, logs[..|logs|-1]);
      assert logs == logs[..|logs|-1] + [logs[|logs|-1]];
    }
  }

  /** After a window, the mapped partitions are the old ones and the hashes of the ISINs it announces. */
  lemma AnnounceAt(h: PartitionHash, p: map<Hash, Isin>, b: Batch, isin: Isin)
    requires Injective(h) && WellMapped(h, p)
    ensures WellMapped(h, Announce(h, p, b))
    ensures h(isin) in Announce(h, p, b) <==> h(isin) in p || Announces(b, isin)
  {
    var q := UpsertResolved(h, p, b.manager);
    UpsertResolvedAt(h, p, b.manager);
    UpsertTokenAt(h, q, b.token);
    UpsertLoopAt(h, UpsertToken(h, q, b.token), b.manager);
  }

  lemma AnnouncesJoin(u: Batch, v: Batch, isin: Isin)
    ensures Announces(Join(u, v), isin) <==> Announces(u, isin) || Announces(v, isin)
  {
  }

  lemma MappedOnlyHashes(h: PartitionHash, p: map<Hash, Isin>, q: map<Hash, Isin>)
    requires Injective(h) && WellMapped(h, p) && WellMapped(h, q)
    requires forall isin :: h(isin) in p <==> h(isin) in q
    ensures p == q
  {
    forall k ensures k in p <==> k in q {
      if k in p { assert h(p[k]) in q; }
      if k in q { assert h(q[k]) in p; }
    }
    forall k | k in p ensures p[k] == q[k] {
      assert h(p[k]) == h(q[k]);
    }
  }

  lemma AnnounceJoin(h: PartitionHash, p: map<Hash, Isin>, u: Batch, v: Batch)
    requires Injective(h) && WellMapped(h, p)
    ensures WellMapped(h, Announce(h, p, u))
    ensures Announce(h, p, Join(u, v)) == Announce(h, Announce(h, p, u), v)
    ensures p.Keys <= Announce(h, p, u).Keys
  {
    AnnounceAt(h, p, u, "");
    var p1 := Announce(h, p, u);
    AnnounceAt(h, p, Join(u, v), "");
    AnnounceAt(h, p1, v, "");
    forall isin ensures h(isin) in Announce(h, p, Join(u, v)) <==> h(isin) in Announce(h, p1, v) {
      AnnounceAt(h, p, u, isin);
      AnnounceAt(h, p, Join(u, v), isin);
      AnnounceAt(h, p1, v, isin);
      AnnouncesJoin(u, v, isin);
    }
    MappedOnlyHashes(h, Announce(h, p, Join(u, v)), Announce(h, p1, v));
    forall k | k in p ensures k in p1 {
      AnnounceAt(h, p, u, p[k]);
    }
  }

  // ------------------------------------------------------------------- books

  lemma {:induction false} PostLogsAppend(p: map<Hash, Isin>, books: Books, a: seq<TokenLog>, b: seq<TokenLog>)
    ensures PostLogs(p, books, a + b) == PostLogs(p, PostLogs(p, books, a), b)
    ensures forall isin :: SupplyOf(p, books, a + b, isin)
                        == SupplyOf(p, books, a, isin) + SupplyOf(p, PostLogs(p, books, a), b, isin)
  {
    if b == [] {
      assert a + b == a;
    } else {
      var init := b[..|b|-1];
      PostLogsAppend(p, books, a, init);
      assert (a + b)[..|a+b|-1] == a + init;
    }
  }

  lemma {:induction false} HistoryAppend(rows: seq<HistoryRow>, a: seq<ManagerLog>, b: seq<ManagerLog>)
    ensures History(rows, a + b) == History(History(rows, a), b)
  {
    if b == [] {
      assert a + b == a;
    } else {
      HistoryAppend(rows, a, b[..|b|-1]);
      assert (a + b)[..|a+b|-1] == a + b[..|b|-1];
    }
  }

  /** A log that `p` skips for want of a mapping and `q` posts. */
  predicate Late(p: map<Hash, Isin>, q: map<Hash, Isin>, log: TokenLog) {
    DeltasOf(log) != [] && !Mapped(p, log) && Mapped(q, log)
  }

  lemma {:induction false} SamePosting(
    h: PartitionHash, p: map<Hash, Isin>, q: map<Hash, Isin>, books: Books, logs: seq<TokenLog>)
    requires Injective(h) && WellMapped(h, p) && WellMapped(h, q) && p.Keys <= q.Keys
    requires !exists log <- logs :: Late(p, q, log)
    ensures PostLogs(p, books, logs) == PostLogs(q, books, logs)
    ensures forall isin :: SupplyOf(p, books, logs, isin) == SupplyOf(q, books, logs, isin)
  {
    if logs != [] {
      var init, log := logs[..|logs|-1], logs[|logs|-1];
      SamePosting(h, p, q, books, init);
      assert !Late(p, q, log);
      if Mapped(p, log) {
        var k := log.body.partition;
        assert h(p[k]) == h(q[k]) == k;
      }
    }
  }

  // --------------------------------------------------------------- freshness

  /** No row and no other log has the key of one of `logs`: no log is processed twice. */
  ghost predicate Fresh(events: seq<BalanceEvent>, logs: seq<TokenLog>) {
    && (forall r <- events, log <- logs :: !r.id.SameLog(log.id))
    && (forall i, j | 0 <= i < j < |logs| :: !logs[i].id.SameLog(logs[j].id))
  }

  function RowCount(p: map<Hash, Isin>, logs: seq<TokenLog>): nat {
    if logs == [] then 0
    else
      RowCount(p, logs[..|logs|-1])
      + if Mapped(p, logs[|logs|-1]) then |DeltasOf(logs[|logs|-1])| else 0
  }

  lemma PostFreshLog(books: Books, isin: Isin, log: TokenLog)
    requires forall r <- books.events :: !r.id.SameLog(log.id)
    ensures var posted := PostDeltas(books, isin, DeltasOf(log), log.id);
            && |posted.events| == |books.events| + |DeltasOf(log)|
            && forall r <- posted.events :: r in books.events || r.id == log.id
  {
    var ds := DeltasOf(log);
    if |ds| > 0 {
      var one := PostDelta(books, isin, ds[0], log.id);
      assert ds[..1][..0] == [];
      assert PostDeltas(books, isin, ds[..1], log.id) == one;
      if |ds| == 1 {
        assert ds == ds[..1];
      } else {
        assert ds[..|ds|-1] == ds[..1];
        assert !Recorded(one.events, log.id, ds[1].holder);
      }
    }
  }

  /** Fresh logs are never deduplicated: each mapped one writes a row per delta. */
  lemma {:induction false} FreshRows(p: map<Hash, Isin>, books: Books, logs: seq<TokenLog>)
    requires Fresh(books.events, logs)
    ensures |PostLogs(p, books, logs).events| == |books.events| + RowCount(p, logs)
    ensures forall r <- PostLogs(p, books, logs).events :: r in books.events || exists log <- logs :: r.id == log.id
  {
    if logs != [] {
      var init, log := logs[..|logs|-1], logs[|logs|-1];
      FreshRows(p, books, init);
      var before := PostLogs(p, books, init);
      forall r | r in before.events ensures !r.id.SameLog(log.id) {
        if r !in books.events {
          var i :| 0 <= i < |init| && r.id == init[i].id;
          assert !logs[i].id.SameLog(logs[|logs|-1].id);
        }
      }
      if Mapped(p, log) {
        PostFreshLog(before, p[log.body.partition], log);
      }
      assert logs == init + [log];
    }
  }

  lemma {:induction false} LateRowsCount(p: map<Hash, Isin>, q: map<Hash, Isin>, logs: seq<TokenLog>)
    requires p.Keys <= q.Keys
    ensures RowCount(p, logs) <= RowCount(q, logs)
    ensures (exists log <- logs :: Late(p, q, log)) ==> RowCount(p, logs) < RowCount(q, logs)
  {
    if logs != [] {
      LateRowsCount(p, q, logs[..|logs|-1]);
      assert logs == logs[..|logs|-1] + [logs[|logs|-1]];
    }
  }

  lemma FreshTail(p: map<Hash, Isin>, books: Books, a: seq<TokenLog>, b: seq<TokenLog>)
    requires Fresh(books.events, a + b)
    ensures Fresh(books.events, a) && Fresh(PostLogs(p, books, a).events, b)
  {
    assert forall i | 0 <= i < |a| :: (a + b)[i] == a[i];
    assert forall i | 0 <= i < |b| :: (a + b)[|a| + i] == b[i];
    forall i, j | 0 <= i < j < |a| ensures !a[i].id.SameLog(a[j].id) {
      assert !(a + b)[i].id.SameLog((a + b)[j].id);
    }
    forall i, j | 0 <= i < j < |b| ensures !b[i].id.SameLog(b[j].id) {
      assert !(a + b)[|a| + i].id.SameLog((a + b)[|a| + j].id);
    }
    FreshRows(p, books, a);
    forall r, log | r in PostLogs(p, books, a).events && log in b ensures !r.id.SameLog(log.id) {
      if r !in books.events {
        var i :| 0 <= i < |a| && r.id == a[i].id;
        var j :| 0 <= j < |b| && b[j] == log;
        assert !(a + b)[i].id.SameLog((a + b)[|a| + j].id);
      } else {
        assert log in a + b;
      }
    }
  }

  // --------------------------------------------------------------- positions

  ghost predicate BlocksBefore(u: Batch, v: Batch) {
    forall x <- u.token, y <- v.manager :: x.id.block < y.id.block
  }

  lemma {:induction false} ManagerEntryHasLog(h: PartitionHash, logs: seq<ManagerLog>, isin: Isin)
    ensures forall e <- ManagerEntriesOf(h, logs, isin) :: exists log <- logs :: e.at == log.id.At()
  {
    if logs != [] {
      ManagerEntryHasLog(h, logs[..|logs|-1], isin);
      assert logs == logs[..|logs|-1] + [logs[|logs|-1]];
    }
  }

  lemma {:induction false} TokenEntryHasLog(logs: seq<TokenLog>, isin: Isin)
    ensures forall e <- TokenEntriesOf(logs, isin) :: exists log <- logs :: e.at == log.id.At()
  {
    if logs != [] {
      TokenEntryHasLog(logs[..|logs|-1], isin);
      assert logs == logs[..|logs|-1] + [logs[|logs|-1]];
    }
  }

  lemma {:induction false} SupplyOfDeltasAt(books: Books, posted: Isin, ds: seq<HolderDelta>, id: LogId, isin: Isin)
    ensures forall d <- SupplyOfDeltas(books, posted, ds, id, isin) :: d.at == id.At()
  {
    if ds != [] {
      SupplyOfDeltasAt(books, posted, ds[..|ds|-1], id, isin);
    }
  }

  lemma {:induction false} SupplyHasLog(p: map<Hash, Isin>, books: Books, logs: seq<TokenLog>, isin: Isin)
    ensures forall d <- SupplyOf(p, books, logs, isin) :: exists log <- logs :: d.at == log.id.At()
  {
    if logs != [] {
      var init, log := logs[..|logs|-1], logs[|logs|-1];
      SupplyHasLog(p, books, init, isin);
      assert logs == init + [log];
      if Mapped(p, log) {
        SupplyOfDeltasAt(PostLogs(p, books, init), p[log.body.partition], DeltasOf(log), log.id, isin);
      }
    }
  }

  lemma EarlierPositions(h: PartitionHash, p: map<Hash, Isin>, books: Books, u: Batch, v: Batch, isin: Isin)
    requires BlocksBefore(u, v)
    ensures PrecedeCreation(TokenEntriesOf(u.token, isin), SupplyOf(p, books, u.token, isin),
                            ManagerEntriesOf(h, v.manager, isin))
  {
    ManagerEntryHasLog(h, v.manager, isin);
    TokenEntryHasLog(u.token, isin);
    SupplyHasLog(p, books, u.token, isin);
  }

  // ----------------------------------------------------------------- merging

  lemma {:induction false} ManagerEntriesAppend(h: PartitionHash, a: seq<ManagerLog>, b: seq<ManagerLog>, isin: Isin)
    ensures ManagerEntriesOf(h, a + b, isin) == ManagerEntriesOf(h, a, isin) + ManagerEntriesOf(h, b, isin)
  {
    if b == [] {
      assert a + b == a;
    } else {
      ManagerEntriesAppend(h, a, b[..|b|-1], isin);
      assert (a + b)[..|a+b|-1] == a + b[..|b|-1];
    }
  }

  lemma {:induction false} TokenEntriesAppend(a: seq<TokenLog>, b: seq<TokenLog>, isin: Isin)
    ensures TokenEntriesOf(a + b, isin) == TokenEntriesOf(a, isin) + TokenEntriesOf(b, isin)
  {
    if b == [] {
      assert a + b == a;
    } else {
      TokenEntriesAppend(a, b[..|b|-1], isin);
      assert (a + b)[..|a+b|-1] == a + b[..|b|-1];
    }
  }

  /** Nothing of bond `isin` stands against processing `u` and `v` as one window. */
  ghost predicate Mergeable(h: PartitionHash, t: Tables, u: Batch, v: Batch, isin: Isin) {
    var mv := ManagerEntriesOf(h, v.manager, isin);
    HasCreated(mv) ==>
      StaleFactsMasked(mv, TokenEntriesOf(u.token, isin), TokenEntriesOf(v.token, isin),
                       SupplyOf(Announce(h, t.partitions, u), t.books, u.token, isin))
  }

  /** A transfer of `u` that is skipped there, but posted when `v`'s announcements come with it. */
  ghost predicate AnnouncedLate(h: PartitionHash, t: Tables, u: Batch, v: Batch) {
    var p := Announce(h, t.partitions, u);
    exists log <- u.token :: Late(p, Announce(h, p, v), log)
  }

  lemma BondMerges(h: PartitionHash, t: Tables, u: Batch, v: Batch, isin: Isin)
    requires Injective(h) && WellMapped(h, t.partitions) && BlocksBefore(u, v)
    requires !AnnouncedLate(h, t, u, v)
    requires Process(h, t, u).Success? && Process(h, Process(h, t, u).value, v).Success?
    ensures BondPass(h, t, Join(u, v), isin) == BondPass(h, Process(h, t, u).value, v, isin)
       <==> Mergeable(h, t, u, v, isin)
    ensures Touches(h, t, Join(u, v), isin)
       <==> Touches(h, t, u, isin) || Touches(h, Process(h, t, u).value, v, isin)
  {
    var t1 := Process(h, t, u).value;
    ProcessAt(h, t, u);
    ProcessAt(h, t1, v);
    assert BondPass(h, t, u, isin) == Success(BondOf(h, t1.bonds, isin));
    assert BondPass(h, t1, v, isin).Success?;
    var p := Announce(h, t.partitions, u);
    var q := Announce(h, p, v);
    AnnounceJoin(h, t.partitions, u, v);
    AnnounceJoin(h, p, v, Batch([], []));
    SamePosting(h, p, q, t.books, u.token);
    PostLogsAppend(q, t.books, u.token, v.token);
    ManagerEntriesAppend(h, u.manager, v.manager, isin);
    TokenEntriesAppend(u.token, v.token, isin);
    ManagerPassAt(h, t.bonds, u.manager, isin);
    ManagerPassAt(h, t1.bonds, v.manager, isin);
    TokenPassAt(h, t.bonds, u.token, isin);
    TokenPassAt(h, t1.bonds, v.token, isin);
    var s := BondOf(h, t.bonds, isin);
    var mu, mv := ManagerEntriesOf(h, u.manager, isin), ManagerEntriesOf(h, v.manager, isin);
    var tu, tv := TokenEntriesOf(u.token, isin), TokenEntriesOf(v.token, isin);
    var du, dv := SupplyOf(p, t.books, u.token, isin), SupplyOf(q, t1.books, v.token, isin);
    assert BondPass(h, t, Join(u, v), isin) == Pass(s, mu + mv, tu + tv, du + dv);
    if HasCreated(mv) {
      EarlierPositions(h, p, t.books, u, v, isin);
      MergeWithCreation(s, mu, tu, du, mv, tv, dv);
    } else {
      MergeWithoutCreation(s, mu, tu, du, mv, tv, dv);
    }
  }

  /** Two adjacent windows give the same tables as the one window over both exactly when no
      transfer of the first waits for an announcement of the second, and each bond that the second
      creates masks what the first left on the token side. */
  lemma MergeOfWindows(h: PartitionHash, t: Tables, u: Batch, v: Batch)
    requires Injective(h) && WellMapped(h, t.partitions) && BlocksBefore(u, v)
    requires Fresh(t.books.events, u.token + v.token)
    requires Process(h, t, u).Success? && Process(h, Process(h, t, u).value, v).Success?
    ensures Process(h, t, Join(u, v)) == Process(h, Process(h, t, u).value, v)
       <==> !AnnouncedLate(h, t, u, v) && forall isin :: Mergeable(h, t, u, v, isin)
  {
    if AnnouncedLate(h, t, u, v) {
      LateTransferSurvives(h, t, u, v);
    } else {
      MergeWhenAnnounced(h, t, u, v);
    }
  }

  lemma LateTransferSurvives(h: PartitionHash, t: Tables, u: Batch, v: Batch)
    requires Injective(h) && WellMapped(h, t.partitions)
    requires Fresh(t.books.events, u.token + v.token)
    requires Process(h, t, u).Success? && Process(h, Process(h, t, u).value, v).Success?
    requires AnnouncedLate(h, t, u, v)
    ensures Process(h, t, Join(u, v)) != Process(h, Process(h, t, u).value, v)
  {
    var t1 := Process(h, t, u).value;
    ProcessAt(h, t, u);
    ProcessAt(h, t1, v);
    ProcessAt(h, t, Join(u, v));
    var p := Announce(h, t.partitions, u);
    var q := Announce(h, p, v);
    AnnounceJoin(h, t.partitions, u, v);
    AnnounceJoin(h, p, v, Batch([], []));
    PostLogsAppend(q, t.books, u.token, v.token);
    FreshTail(p, t.books, u.token, v.token);
    FreshTail(q, t.books, u.token, v.token);
    FreshRows(p, t.books, u.token);
    FreshRows(q, t.books, u.token);
    FreshRows(q, t1.books, v.token);
    FreshRows(q, PostLogs(q, t.books, u.token), v.token);
    LateRowsCount(p, q, u.token);
  }

  lemma MergeWhenAnnounced(h: PartitionHash, t: Tables, u: Batch, v: Batch)
    requires Injective(h) && WellMapped(h, t.partitions) && BlocksBefore(u, v)
    requires Process(h, t, u).Success? && Process(h, Process(h, t, u).value, v).Success?
    requires !AnnouncedLate(h, t, u, v)
    ensures Process(h, t, Join(u, v)) == Process(h, Process(h, t, u).value, v)
       <==> forall isin :: Mergeable(h, t, u, v, isin)
  {
    var t1 := Process(h, t, u).value;
    var t2 := Process(h, t1, v).value;
    var r := Process(h, t, Join(u, v));
    ProcessAt(h, t, u);
    ProcessAt(h, t1, v);
    ProcessAt(h, t, Join(u, v));
    forall isin
      ensures BondPass(h, t, Join(u, v), isin) == Success(BondOf(h, t2.bonds, isin)) <==> Mergeable(h, t, u, v, isin)
      ensures r.Success? ==> (isin in r.value.bonds <==> isin in t2.bonds)
    {
      BondMerges(h, t, u, v, isin);
    }
    if forall isin :: Mergeable(h, t, u, v, isin) {
      assert r.Success?;
      forall isin ensures isin in r.value.bonds <==> isin in t2.bonds
                  ensures isin in t2.bonds ==> r.value.bonds[isin] == t2.bonds[isin] {
        assert BondOf(h, r.value.bonds, isin) == BondOf(h, t2.bonds, isin);
      }
      assert r.value.bonds == t2.bonds;
      var p := Announce(h, t.partitions, u);
      var q := Announce(h, p, v);
      AnnounceJoin(h, t.partitions, u, v);
      AnnounceJoin(h, p, v, Batch([], []));
      SamePosting(h, p, q, t.books, u.token);
      PostLogsAppend(q, t.books, u.token, v.token);
      HistoryAppend(t.bondEvents, u.manager, v.manager);
    }
  }
}
