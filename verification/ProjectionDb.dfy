/**
 The writing side of the projection, in the form of the source: tables that are updated in place,
 and one transaction per window.
 */
module ProjectionDb {
  import opened Prelude
  import opened BondLifecycle
  import opened Projection
  import opened ProjectionLens

  class Database {
    const h: PartitionHash
    var partitions: map<Hash, Isin>
    var bonds: map<Isin, BondState>
    var balances: map<(Isin, Address), int>
    var balanceEvents: seq<BalanceEvent>
    var bondEvents: seq<HistoryRow>
    var checkpoint: nat

    function Contents(): Tables
      reads this
    {
      Tables(partitions, bonds, Books(balances, balanceEvents), bondEvents)
    }

    constructor (h: PartitionHash, startBlock: nat)
      ensures this.h == h && checkpoint == startBlock
      ensures Contents() == Tables(map[], map[], Books(map[], []), [])
    {
      this.h := h;
      partitions, bonds, balances, balanceEvents, bondEvents := map[], map[], map[], [], [];
      checkpoint := startBlock;
    }

    method UpsertPartition(isin: Option<Isin>)
      modifies this`partitions
      ensures partitions == Upsert(h, old(partitions), isin)
    {
      if isin.Some? {
        partitions := partitions[h(isin.value) := isin.value];
      }
    }

    method InsertBondEvent(log: ManagerLog)
      modifies this`bondEvents
      ensures bondEvents == RecordHistory(old(bondEvents), log)
    {
      if !log.body.AuctionInitialised? && !(exists r <- bondEvents :: r.id.SameLog(log.id)) {
        bondEvents := bondEvents + [HistoryRow(log.id, log.isin, log.body)];
      }
    }

    /** Returns whether the row was written, in which case alone the balance moves. */
    method ApplyBalanceDelta(isin: Isin, d: HolderDelta, id: LogId) returns (wrote: bool)
      modifies this`balances, this`balanceEvents
      ensures wrote == Writes(old(Contents().books), d, id)
      ensures Contents().books == PostDelta(old(Contents().books), isin, d, id)
    {
      if d.holder == ZERO_ADDRESS {
        return false;
      }
      var current := if (isin, d.holder) in balances then balances[(isin, d.holder)] else 0;
      var next := current + d.delta;
      if exists r <- balanceEvents :: r.id.SameLog(id) && r.holder == d.holder {
        return false;
      }
      balanceEvents := balanceEvents + [BalanceEvent(isin, d.holder, d.delta, next, id, d.kind)];
      balances := balances[(isin, d.holder) := next];
      return true;
    }

    method ApplyBondStateEvent(isin: Isin, e: Entry)
      modifies this`bonds
      ensures bonds == SaveFact(h, old(bonds), isin, e)
    {
      var current := if isin in bonds then bonds[isin] else EmptyBond(isin, h(isin));
      bonds := bonds[isin := ApplyFact(current, e)];
    }

    method ApplySupplyDelta(isin: Isin, d: SupplyDelta) returns (error: Option<string>)
      modifies this`bonds
      ensures var s := ApplySupply(BondOf(h, old(bonds), isin), d);
              if s.Failure? then error == Some(s.error) && bonds == old(bonds)
              else error == None && bonds == old(bonds)[isin := s.value]
    {
      var current := if isin in bonds then bonds[isin] else EmptyBond(isin, h(isin));
      var next := ApplySupply(current, d);
      if next.Failure? {
        return Some(next.error);
      }
      bonds := bonds[isin := next.value];
      return None;
    }

    method RunManagerPass(logs: seq<ManagerLog>)
      modifies this`partitions, this`bonds, this`bondEvents
      ensures partitions == UpsertLoop(h, old(partitions), logs)
      ensures bonds == ManagerPass(h, old(bonds), logs)
      ensures bondEvents == History(old(bondEvents), logs)
    {
      for i := 0 to |logs|
        invariant partitions == UpsertLoop(h, old(partitions), logs[..i])
        invariant bonds == ManagerPass(h, old(bonds), logs[..i])
        invariant bondEvents == History(old(bondEvents), logs[..i])
      {
        assert logs[..i+1][..i] == logs[..i];
        UpsertPartition(LoopIsin(logs[i]));
        var fact := ManagerFact(h, logs[i]);
        if fact.Some? {
          ApplyBondStateEvent(logs[i].isin, Entry(fact.value, logs[i].id.At()));
        }
        InsertBondEvent(logs[i]);
      }
      assert logs[..|logs|] == logs;
    }

    method RunTokenPass(logs: seq<TokenLog>)
      modifies this`bonds
      ensures bonds == TokenPass(h, old(bonds), logs)
    {
      for i := 0 to |logs|
        invariant bonds == TokenPass(h, old(bonds), logs[..i])
      {
        assert logs[..i+1][..i] == logs[..i];
        var fact := TokenFact(logs[i]);
        if fact.Some? {
          ApplyBondStateEvent(logs[i].body.isin, Entry(fact.value, logs[i].id.At()));
        }
      }
      assert logs[..|logs|] == logs;
    }

    method RunTransfer(isin: Isin, ds: seq<HolderDelta>, id: LogId) returns (error: Option<string>)
      modifies this`bonds, this`balances, this`balanceEvents
      ensures var r := TransferDeltas(h, old(Contents()), isin, ds, id);
              if r.Failure? then error == Some(r.error) else error == None && Contents() == r.value
    {
      for i := 0 to |ds|
        invariant TransferDeltas(h, old(Contents()), isin, ds[..i], id) == Success(Contents())
      {
        assert ds[..i+1][..i] == ds[..i];
        var wrote := ApplyBalanceDelta(isin, ds[i], id);
        if wrote && !ds[i].kind.Move? {
          error := ApplySupplyDelta(isin, SupplyDelta(ds[i].delta, id.At()));
          if error.Some? {
            TransferFailureSticks(h, old(Contents()), isin, ds, id, i + 1);
            return;
          }
        }
      }
      assert ds[..|ds|] == ds;
      error := None;
    }

    method RunTransferPass(logs: seq<TokenLog>) returns (error: Option<string>)
      modifies this`bonds, this`balances, this`balanceEvents
      ensures var r := TransferPass(h, old(Contents()), logs);
              if r.Failure? then error == Some(r.error) else error == None && Contents() == r.value
    {
      for i := 0 to |logs|
        invariant TransferPass(h, old(Contents()), logs[..i]) == Success(Contents())
        invariant partitions == old(partitions)
      {
        assert logs[..i+1][..i] == logs[..i];
        if logs[i].body.TransferByPartition? && logs[i].body.partition in partitions {
          error := RunTransfer(partitions[logs[i].body.partition], DeltasOf(logs[i]), logs[i].id);
          if error.Some? {
            PassFailureSticks(h, old(Contents()), logs, i + 1);
            return;
          }
        }
      }
      assert logs[..|logs|] == logs;
      error := None;
    }

    /** One window: either all of its effects and the checkpoint commit, or none. */
    method ProcessBlockRange(b: Batch, nextCheckpoint: nat) returns (error: Option<string>)
      modifies this
      ensures var r := Process(h, old(Contents()), b);
              if r.Failure?
              then error == Some(r.error) && Contents() == old(Contents()) && checkpoint == old(checkpoint)
              else error == None && Contents() == r.value && checkpoint == nextCheckpoint
    {
      var saved := Contents();
      for i := 0 to |b.manager|
        invariant Contents() == old(Contents()).(partitions := UpsertResolved(h, old(partitions), b.manager[..i]))
        invariant checkpoint == old(checkpoint)
      {
        assert b.manager[..i+1][..i] == b.manager[..i];
        UpsertPartition(ResolvedIsin(b.manager[i]));
      }
      assert b.manager[..|b.manager|] == b.manager;
      var resolved := partitions;
      for i := 0 to |b.token|
        invariant Contents() == old(Contents()).(partitions := UpsertToken(h, resolved, b.token[..i]))
        invariant checkpoint == old(checkpoint)
      {
        assert b.token[..i+1][..i] == b.token[..i];
        UpsertPartition(TokenIsin(b.token[i]));
      }
      assert b.token[..|b.token|] == b.token;
      RunManagerPass(b.manager);
      RunTokenPass(b.token);
      assert Contents() == Lifecycle(h, saved, b);
      error := RunTransferPass(b.token);
      if error.Some? {
        partitions, bonds, bondEvents := saved.partitions, saved.bonds, saved.bondEvents;
        balances, balanceEvents := saved.books.balances, saved.books.events;
      } else {
        checkpoint := nextCheckpoint;
      }
    }
  }

  /** Once a prefix of the postings fails, the whole fails with that error. */
  lemma {:induction false} TransferFailureSticks(
    h: PartitionHash, t: Tables, isin: Isin, ds: seq<HolderDelta>, id: LogId, n: nat)
    requires n <= |ds| && TransferDeltas(h, t, isin, ds[..n], id).Failure?
    ensures TransferDeltas(h, t, isin, ds, id) == TransferDeltas(h, t, isin, ds[..n], id)
    decreases |ds|
  {
    if n == |ds| {
      assert ds[..n] == ds;
    } else {
      assert ds[..|ds|-1][..n] == ds[..n];
      TransferFailureSticks(h, t, isin, ds[..|ds|-1], id, n);
    }
  }

  lemma {:induction false} PassFailureSticks(h: PartitionHash, t: Tables, logs: seq<TokenLog>, n: nat)
    requires n <= |logs| && TransferPass(h, t, logs[..n]).Failure?
    ensures TransferPass(h, t, logs) == TransferPass(h, t, logs[..n])
    decreases |logs|
  {
    if n == |logs| {
      assert logs[..n] == logs;
    } else {
      assert logs[..|logs|-1][..n] == logs[..n];
      PassFailureSticks(h, t, logs[..|logs|-1], n);
    }
  }

  // ---------------------------------------------------------- unique indexes

  /** `bond_events` is unique on the key of the log. */
  ghost predicate UniqueHistory(rows: seq<HistoryRow>) {
    forall i, j | 0 <= i < j < |rows| :: !rows[i].id.SameLog(rows[j].id)
  }

  /** `balance_events` is unique on the key of the log and the holder. */
  ghost predicate UniquePostings(rows: seq<BalanceEvent>) {
    forall i, j | 0 <= i < j < |rows| :: !(rows[i].id.SameLog(rows[j].id) && rows[i].holder == rows[j].holder)
  }

  /** The history keeps its key unique, whatever logs come, and holds every log that it is given. */
  lemma {:induction false} HistoryStaysUnique(rows: seq<HistoryRow>, logs: seq<ManagerLog>)
    requires UniqueHistory(rows)
    ensures UniqueHistory(History(rows, logs)) && rows <= History(rows, logs)
    ensures forall log <- logs | !log.body.AuctionInitialised? ::
              exists r <- History(rows, logs) :: r.id.SameLog(log.id)
  {
    if logs != [] {
      var init, last := logs[..|logs|-1], logs[|logs|-1];
      assert logs == init + [last];
      HistoryStaysUnique(rows, init);
      var before, after := History(rows, init), History(rows, logs);
      if after != before { assert after[|before|].id == last.id; }
      forall log | log in logs && !log.body.AuctionInitialised? ensures exists r <- after :: r.id.SameLog(log.id) {
        if log in init {
          var i :| 0 <= i < |before| && before[i].id.SameLog(log.id);
          assert after[i] == before[i];
        }
      }
    }
  }

  lemma {:induction false} PostDeltasStayUnique(books: Books, isin: Isin, ds: seq<HolderDelta>, id: LogId)
    requires UniquePostings(books.events)
    ensures UniquePostings(PostDeltas(books, isin, ds, id).events)
    ensures books.events <= PostDeltas(books, isin, ds, id).events
  {
    if ds != [] {
      var init := ds[..|ds|-1];
      PostDeltasStayUnique(books, isin, init, id);
      var before := PostDeltas(books, isin, init, id).events;
      if Writes(PostDeltas(books, isin, init, id), ds[|ds|-1], id) {
        forall i | 0 <= i < |before| ensures !(before[i].id.SameLog(id) && before[i].holder == ds[|ds|-1].holder) {
          assert before[i] in before;
        }
      }
    }
  }

  /** The balance rows keep their key unique, whatever transfers come: no log is posted to a holder twice. */
  lemma {:induction false} PostingsStayUnique(p: map<Hash, Isin>, books: Books, logs: seq<TokenLog>)
    requires UniquePostings(books.events)
    ensures UniquePostings(PostLogs(p, books, logs).events) && books.events <= PostLogs(p, books, logs).events
  {
    if logs != [] {
      var init, last := logs[..|logs|-1], logs[|logs|-1];
      PostingsStayUnique(p, books, init);
      if Mapped(p, last) {
        PostDeltasStayUnique(PostLogs(p, books, init), p[last.body.partition], DeltasOf(last), last.id);
      }
    }
  }

  /** Both indexes hold after every window, whether its logs are new or seen before. */
  lemma WindowKeepsUnique(h: PartitionHash, t: Tables, b: Batch)
    requires UniqueHistory(t.bondEvents) && UniquePostings(t.books.events) && Process(h, t, b).Success?
    ensures UniqueHistory(Process(h, t, b).value.bondEvents)
    ensures UniquePostings(Process(h, t, b).value.books.events)
  {
    ProcessAt(h, t, b);
    HistoryStaysUnique(t.bondEvents, b.manager);
    PostingsStayUnique(Announce(h, t.partitions, b), t.books, b.token);
  }
}
