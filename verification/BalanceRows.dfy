/**
 The rows that a window adds to `balance_events`, said of its transfers.
 */
module BalanceRows {
  import opened BondLifecycle
  import opened Projection
  import opened ProjectionLens
  import opened TokenLedger

  /** `r` is a side of the transfer `log`: the receiver's with the value, or the sender's with its negative; never of
      the zero address, and none if somebody sends to himself. */
  ghost predicate SideOf(p: map<Hash, Isin>, log: TokenLog, r: BalanceEvent) {
    && log.body.TransferByPartition? && log.body.partition in p && log.body.from != log.body.to
    && r.isin == p[log.body.partition] && r.id == log.id && r.holder != ZERO_ADDRESS
    && ((r.holder == log.body.to && r.delta == log.body.value)
        || (r.holder == log.body.from && r.delta == 0 - log.body.value))
    && (r.kind.Mint? <==> log.body.from == ZERO_ADDRESS) && (r.kind.Burn? <==> log.body.to == ZERO_ADDRESS)
  }

  /** `log` moves units of a known bond from or to `holder`. */
  predicate Concerns(p: map<Hash, Isin>, log: TokenLog, holder: Address) {
    && log.body.TransferByPartition? && log.body.partition in p && log.body.from != log.body.to
    && holder in {log.body.from, log.body.to} && holder != ZERO_ADDRESS
  }

  /** Nothing is taken away; every new row is a side of one of the transfers; and every side of every transfer has its
      row. */
  ghost predicate Adds(
    p: map<Hash, Isin>, before: seq<BalanceEvent>, logs: seq<TokenLog>, after: seq<BalanceEvent>)
  {
    && |before| <= |after| && after[..|before|] == before
    && (forall i | |before| <= i < |after| :: IsSide(p, logs, after[i]))
    && (forall log, holder | log in logs && Concerns(p, log, holder) :: HasRow(after, log.id, holder))
  }

  ghost predicate IsSide(p: map<Hash, Isin>, logs: seq<TokenLog>, r: BalanceEvent) {
    exists log | log in logs :: SideOf(p, log, r)
  }

  ghost predicate HasRow(rows: seq<BalanceEvent>, id: LogId, holder: Address) {
    exists i | 0 <= i < |rows| :: rows[i].id.tx == id.tx && rows[i].id.index == id.index && rows[i].holder == holder
  }

  lemma RecordedHasRow(rows: seq<BalanceEvent>, id: LogId, holder: Address)
    ensures Recorded(rows, id, holder) <==> HasRow(rows, id, holder)
  {
    if r :| r in rows && r.id.SameLog(id) && r.holder == holder {
      var i :| 0 <= i < |rows| && rows[i] == r;
    }
  }

  lemma RowsStay(before: seq<BalanceEvent>, after: seq<BalanceEvent>, id: LogId, holder: Address)
    requires |before| <= |after| && after[..|before|] == before && HasRow(before, id, holder)
    ensures HasRow(after, id, holder)
  {
    var i :| 0 <= i < |before| && before[i].id.tx == id.tx && before[i].id.index == id.index
             && before[i].holder == holder;
    assert after[..|before|][i] == after[i];
  }

  /** One posting adds its row, or finds it. */
  lemma PostAdds(books: Books, isin: Isin, d: HolderDelta, id: LogId)
    requires d.holder != ZERO_ADDRESS
    ensures var rows := PostDelta(books, isin, d, id).events;
            && |books.events| <= |rows| <= |books.events| + 1 && rows[..|books.events|] == books.events
            && HasRow(rows, id, d.holder)
            && forall i | |books.events| <= i < |rows| ::
                 rows[i].isin == isin && rows[i].id == id && rows[i].holder == d.holder && rows[i].delta == d.delta
                 && rows[i].kind == d.kind
  {
    var rows := PostDelta(books, isin, d, id).events;
    RecordedHasRow(books.events, id, d.holder);
    if Writes(books, d, id) { assert rows[|rows|-1].holder == d.holder; }
  }

  /** The deltas of one transfer. */
  ghost predicate Sides(log: TokenLog, ds: seq<HolderDelta>)
    requires log.body.TransferByPartition?
  {
    var from, to, value := log.body.from, log.body.to, log.body.value;
    && (forall d | d in ds ::
          && from != to && d.holder != ZERO_ADDRESS
          && ((d.holder == to && d.delta == value) || (d.holder == from && d.delta == 0 - value))
          && (d.kind.Mint? <==> from == ZERO_ADDRESS) && (d.kind.Burn? <==> to == ZERO_ADDRESS))
    && (from != to && from != ZERO_ADDRESS ==> HasDelta(ds, from))
    && (from != to && to != ZERO_ADDRESS ==> HasDelta(ds, to))
  }

  ghost predicate HasDelta(ds: seq<HolderDelta>, holder: Address) {
    exists i | 0 <= i < |ds| :: ds[i].holder == holder
  }

  lemma ReduceExactly(log: TokenLog)
    requires log.body.TransferByPartition?
    ensures Sides(log, DeltasOf(log)) && |DeltasOf(log)| <= 2
  {
    var from, to, ds := log.body.from, log.body.to, DeltasOf(log);
    if from != to && |ds| > 0 {
      assert ds[0].holder == if from == ZERO_ADDRESS then to else from;
      assert |ds| == 2 ==> ds[1].holder == to;
    }
  }

  lemma {:induction false} PostAllAdds(p: map<Hash, Isin>, books: Books, log: TokenLog, ds: seq<HolderDelta>)
    requires log.body.TransferByPartition? && log.body.partition in p
    requires forall d | d in ds :: d.holder != ZERO_ADDRESS
    ensures var rows := PostDeltas(books, p[log.body.partition], ds, log.id).events;
            && |books.events| <= |rows| && rows[..|books.events|] == books.events
            && (forall d | d in ds :: HasRow(rows, log.id, d.holder))
            && forall i | |books.events| <= i < |rows| ::
                 exists d | d in ds ::
                   rows[i].isin == p[log.body.partition] && rows[i].id == log.id && rows[i].holder == d.holder
                   && rows[i].delta == d.delta && rows[i].kind == d.kind
  {
    if ds != [] {
      var init, last, isin := ds[..|ds|-1], ds[|ds|-1], p[log.body.partition];
      assert ds == init + [last];
      PostAllAdds(p, books, log, init);
      var mid := PostDeltas(books, isin, init, log.id);
      PostAdds(mid, isin, last, log.id);
      var rows := PostDelta(mid, isin, last, log.id).events;
      assert rows[..|books.events|] == rows[..|mid.events|][..|books.events|];
      forall d | d in ds ensures HasRow(rows, log.id, d.holder) {
        if d in init { RowsStay(mid.events, rows, log.id, d.holder); }
      }
      forall i | |books.events| <= i < |rows|
        ensures exists d | d in ds ::
                  rows[i].isin == isin && rows[i].id == log.id && rows[i].holder == d.holder
                  && rows[i].delta == d.delta && rows[i].kind == d.kind
      {
        if i < |mid.events| { assert rows[..|mid.events|][i] == mid.events[i]; } else { assert last in ds; }
      }
    }
  }

  lemma LogAdds(p: map<Hash, Isin>, books: Books, log: TokenLog)
    ensures Adds(p, books.events, [log], PostLog(p, books, log).events)
  {
    var rows := PostLog(p, books, log).events;
    if Mapped(p, log) {
      var ds := DeltasOf(log);
      ReduceExactly(log);
      PostAllAdds(p, books, log, ds);
      forall i | |books.events| <= i < |rows| ensures IsSide(p, [log], rows[i]) {
        assert log in [log] && SideOf(p, log, rows[i]);
      }
      forall other, holder | other in [log] && Concerns(p, other, holder) ensures HasRow(rows, other.id, holder) {
        assert HasDelta(ds, holder);
        var i :| 0 <= i < |ds| && ds[i].holder == holder;
        assert ds[i] in ds;
      }
    }
  }

  lemma AddsBoth(p: map<Hash, Isin>, a: seq<BalanceEvent>, ls: seq<TokenLog>, b: seq<BalanceEvent>, log: TokenLog,
                 c: seq<BalanceEvent>)
    requires Adds(p, a, ls, b) && Adds(p, b, [log], c)
    ensures Adds(p, a, ls + [log], c)
  {
    assert c[..|a|] == c[..|b|][..|a|];
    forall i | |a| <= i < |c| ensures IsSide(p, ls + [log], c[i]) {
      if i < |b| {
        assert c[i] == c[..|b|][i];
        var l :| l in ls && SideOf(p, l, c[i]);
        assert l in ls + [log];
      } else {
        assert log in ls + [log];
      }
    }
    forall l, holder | l in ls + [log] && Concerns(p, l, holder) ensures HasRow(c, l.id, holder) {
      if l in ls { RowsStay(b, c, l.id, holder); }
    }
  }

  lemma {:induction false} PostedRows(p: map<Hash, Isin>, books: Books, logs: seq<TokenLog>)
    ensures Adds(p, books.events, logs, PostLogs(p, books, logs).events)
  {
    if logs != [] {
      var init, last := logs[..|logs|-1], logs[|logs|-1];
      PostedRows(p, books, init);
      LogAdds(p, PostLogs(p, books, init), last);
      AddsBoth(p, books.events, init, PostLogs(p, books, init).events, last, PostLogs(p, books, logs).events);
      assert init + [last] == logs;
    }
  }

  /** The rows of a window. */
  lemma WindowRows(h: PartitionHash, t: Tables, b: Batch)
    requires Process(h, t, b).Success?
    ensures var after := Process(h, t, b).value;
            Adds(after.partitions, t.books.events, b.token, after.books.events)
  {
    ProcessAt(h, t, b);
    PostedRows(Announce(h, t.partitions, b), t.books, b.token);
  }

  // ------------------------------------------------------------------- running totals

  /** Every row says what its holder has after it. */
  ghost predicate RunningTotals(rows: seq<BalanceEvent>) {
    forall i | 0 <= i < |rows| :: rows[i].balanceAfter == SumOfRows(rows[..i+1], rows[i].isin, rows[i].holder)
  }

  lemma PostKeepsTotals(books: Books, isin: Isin, d: HolderDelta, id: LogId)
    requires Explained(books) && RunningTotals(books.events)
    ensures RunningTotals(PostDelta(books, isin, d, id).events)
  {
    var rows := PostDelta(books, isin, d, id).events;
    if Writes(books, d, id) {
      forall i | 0 <= i < |rows| ensures rows[i].balanceAfter == SumOfRows(rows[..i+1], rows[i].isin, rows[i].holder) {
        if i < |books.events| {
          assert rows[..i+1] == books.events[..i+1];
        } else {
          assert rows[..i+1] == rows && rows[..i] == books.events;
        }
      }
    }
  }

  lemma {:induction false} PostAllKeepTotals(books: Books, isin: Isin, ds: seq<HolderDelta>, id: LogId)
    requires Explained(books) && RunningTotals(books.events)
    ensures RunningTotals(PostDeltas(books, isin, ds, id).events)
  {
    if ds != [] {
      PostAllKeepTotals(books, isin, ds[..|ds|-1], id);
      PostDeltasExplained(books, isin, ds[..|ds|-1], id);
      PostKeepsTotals(PostDeltas(books, isin, ds[..|ds|-1], id), isin, ds[|ds|-1], id);
    }
  }

  /** Kept by every window: each row's balance is the sum of its holder's rows up to it. */
  lemma {:induction false} TotalsKeepRunning(p: map<Hash, Isin>, books: Books, logs: seq<TokenLog>)
    requires Explained(books) && RunningTotals(books.events)
    ensures RunningTotals(PostLogs(p, books, logs).events)
  {
    if logs != [] {
      var init, log := logs[..|logs|-1], logs[|logs|-1];
      TotalsKeepRunning(p, books, init);
      PostLogsExplained(p, books, init);
      if Mapped(p, log) { PostAllKeepTotals(PostLogs(p, books, init), p[log.body.partition], DeltasOf(log), log.id); }
    }
  }
}
