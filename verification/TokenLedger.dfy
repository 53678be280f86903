/**
 The token ledger as an independent reference, and what every window keeps of it:
 refinement, conservation and the absence of negative supplies.
 */
module TokenLedger {
  import opened Prelude
  import opened BondLifecycle
  import opened Projection
  import opened ProjectionLens
  import opened WindowMerge

  /** ERC-1410 balances by partition and holder; absent means zero. */
  type Ledger = map<(Hash, Address), int>

  function Held(l: Ledger, k: Hash, a: Address): int {
    if (k, a) in l then l[(k, a)] else 0
  }

  function Debit(l: Ledger, k: Hash, a: Address, value: int): Ledger {
    if a == ZERO_ADDRESS then l else l[(k, a) := Held(l, k, a) - value]
  }

  /** A transfer debits the sender, then credits the receiver; minting has no sender, burning no receiver. */
  function LedgerStep(l: Ledger, log: TokenLog): Ledger {
    match log.body
    case TransferByPartition(k, from, to, value) => Debit(Debit(l, k, from, value), k, to, 0 - value)
    case _ => l
  }

  predicate Covered(l: Ledger, log: TokenLog) {
    match log.body
    case TransferByPartition(k, from, to, value) => from != ZERO_ADDRESS ==> Held(l, k, from) >= value
    case _ => true
  }

  function LedgerAfter(l: Ledger, logs: seq<TokenLog>): Ledger {
    if logs == [] then l else LedgerStep(LedgerAfter(l, logs[..|logs|-1]), logs[|logs|-1])
  }

  /** A valid log: no transfer takes more than its sender holds. */
  predicate ValidLogs(l: Ledger, logs: seq<TokenLog>) {
    logs == [] || (ValidLogs(l, logs[..|logs|-1]) && Covered(LedgerAfter(l, logs[..|logs|-1]), logs[|logs|-1]))
  }

  // ------------------------------------------------------------------ totals

  ghost function SumOver(keys: set<Address>, isin: Isin, balances: map<(Isin, Address), int>): int
    requires forall a <- keys :: (isin, a) in balances
  {
    if keys == {} then 0
    else
      var a :| a in keys;
      balances[(isin, a)] + SumOver(keys - {a}, isin, balances)
  }

  ghost function HoldersOf(isin: Isin, balances: map<(Isin, Address), int>): set<Address> {
    set k | k in balances && k.0 == isin :: k.1
  }

  /** The sum of the balances of `isin`. */
  ghost function TotalOf(books: Books, isin: Isin): int {
    SumOver(HoldersOf(isin, books.balances), isin, books.balances)
  }

  lemma {:induction false} SumOverTakes(keys: set<Address>, isin: Isin, balances: map<(Isin, Address), int>, a: Address)
    requires a in keys && forall x <- keys :: (isin, x) in balances
    ensures SumOver(keys, isin, balances) == balances[(isin, a)] + SumOver(keys - {a}, isin, balances)
    decreases |keys|
  {
    var b :| b in keys && SumOver(keys, isin, balances) == balances[(isin, b)] + SumOver(keys - {b}, isin, balances);
    if b != a {
      SumOverTakes(keys - {b}, isin, balances, a);
      SumOverTakes(keys - {a}, isin, balances, b);
      assert keys - {b} - {a} == keys - {a} - {b};
    }
  }

  lemma {:induction false} SumOverIgnores(
    keys: set<Address>, isin: Isin, m: map<(Isin, Address), int>, n: map<(Isin, Address), int>)
    requires forall x <- keys :: (isin, x) in m && (isin, x) in n && m[(isin, x)] == n[(isin, x)]
    ensures SumOver(keys, isin, m) == SumOver(keys, isin, n)
    decreases |keys|
  {
    if keys != {} {
      var a :| a in keys;
      SumOverTakes(keys, isin, m, a);
      SumOverTakes(keys, isin, n, a);
      SumOverIgnores(keys - {a}, isin, m, n);
    }
  }

  lemma {:induction false} SumOverNonNegative(keys: set<Address>, isin: Isin, m: map<(Isin, Address), int>)
    requires forall x <- keys :: (isin, x) in m && m[(isin, x)] >= 0
    ensures SumOver(keys, isin, m) >= 0
    decreases |keys|
  {
    if keys != {} {
      var a :| a in keys;
      SumOverTakes(keys, isin, m, a);
      SumOverNonNegative(keys - {a}, isin, m);
    }
  }

  lemma PostDeltaTotals(books: Books, posted: Isin, d: HolderDelta, id: LogId, isin: Isin)
    ensures TotalOf(PostDelta(books, posted, d, id), isin)
         == TotalOf(books, isin) + if posted == isin && Writes(books, d, id) then d.delta else 0
  {
    if Writes(books, d, id) {
      var m, n := books.balances, PostDelta(books, posted, d, id).balances;
      var before, after := HoldersOf(isin, m), HoldersOf(isin, n);
      if posted == isin {
        assert after == before + {d.holder} by {
          assert (posted, d.holder) in n;
          forall a ensures a in after <==> a in before + {d.holder} {
            if a in before { assert (isin, a) in m; assert (isin, a) in n; }
            if a in after { assert (isin, a) in n; }
          }
        }
        SumOverTakes(after, isin, n, d.holder);
        assert after - {d.holder} == before - {d.holder};
        SumOverIgnores(after - {d.holder}, isin, m, n);
        if d.holder in before {
          SumOverTakes(before, isin, m, d.holder);
          assert (isin, d.holder) in m;
        } else {
          assert before - {d.holder} == before;
          assert (isin, d.holder) !in m;
        }
      } else {
        assert after == before by {
          forall a ensures a in after <==> a in before {
            if a in before { assert (isin, a) in m; assert (isin, a) in n; }
            if a in after { assert (isin, a) in n; }
          }
        }
        SumOverIgnores(after, isin, m, n);
      }
    }
  }

  /** A fresh log adds to the total exactly what it adds to the supply: moves cancel out. */
  lemma PostLogTotals(p: map<Hash, Isin>, books: Books, log: TokenLog, isin: Isin)
    requires forall r <- books.events :: !r.id.SameLog(log.id)
    ensures TotalOf(PostLog(p, books, log), isin) == TotalOf(books, isin) + SumDeltas(SupplyOfLog(p, books, log, isin))
    ensures |SupplyOfLog(p, books, log, isin)| <= 1
  {
    if Mapped(p, log) {
      var ds, posted := DeltasOf(log), p[log.body.partition];
      if |ds| > 0 {
        assert ds[..1][..0] == [];
        var one := PostDelta(books, posted, ds[0], log.id);
        PostDeltaTotals(books, posted, ds[0], log.id, isin);
        if |ds| == 1 {
          assert ds == ds[..1];
          var x := SupplyOfDelta(books, posted, ds[0], log.id, isin);
          assert SupplyOfLog(p, books, log, isin) == [] + x;
          if x != [] { assert x[..0] == []; }
        } else {
          assert ds[..|ds|-1] == ds[..1];
          assert PostDeltas(books, posted, ds[..1], log.id) == one;
          assert !Recorded(one.events, log.id, ds[1].holder);
          PostDeltaTotals(one, posted, ds[1], log.id, isin);
          assert SupplyOfDeltas(books, posted, ds[..1], log.id, isin) == [];
        }
      }
    }
  }

  lemma {:induction false} PostLogsTotals(p: map<Hash, Isin>, books: Books, logs: seq<TokenLog>, isin: Isin)
    requires Fresh(books.events, logs)
    ensures TotalOf(PostLogs(p, books, logs), isin) == TotalOf(books, isin) + SumDeltas(SupplyOf(p, books, logs, isin))
  {
    if logs != [] {
      var init, log := logs[..|logs|-1], logs[|logs|-1];
      assert logs == init + [log];
      FreshTail(p, books, init, [log]);
      assert log in [log];
      PostLogsTotals(p, books, init, isin);
      PostLogTotals(p, PostLogs(p, books, init), log, isin);
      SumDeltasAppend(SupplyOf(p, books, init, isin), SupplyOfLog(p, PostLogs(p, books, init), log, isin));
    }
  }

  // ------------------------------------------------------------ conservation

  /** The supply of `isin` is the sum of its balances. */
  ghost predicate Conserved(h: PartitionHash, t: Tables, isin: Isin) {
    BondOf(h, t.bonds, isin).totalSupply == TotalOf(t.books, isin)
  }

  lemma LifecycleSupply(h: PartitionHash, t: Tables, b: Batch, isin: Isin)
    ensures Reduce(Reduce(BondOf(h, t.bonds, isin), ManagerEntriesOf(h, b.manager, isin)),
                   TokenEntriesOf(b.token, isin)).totalSupply
         == if HasCreated(ManagerEntriesOf(h, b.manager, isin)) then 0 else BondOf(h, t.bonds, isin).totalSupply
  {
    var s := BondOf(h, t.bonds, isin);
    var ms, ts := ManagerEntriesOf(h, b.manager, isin), TokenEntriesOf(b.token, isin);
    ManagerPassAt(h, t.bonds, b.manager, isin);
    TokenPassAt(h, t.bonds, b.token, isin);
    TokenEntriesCreateNothing(ts);
    SupplyCommutesWithFacts(Reduce(s, ms), ts, []);
    if HasCreated(ms) {
      CreatedForgets(s, s, ms);
    } else {
      SupplyCommutesWithFacts(s, ms, []);
    }
  }

  /** A window keeps supply equal to the sum of balances exactly when it does not create a bond
      that has balances outstanding. */
  lemma ConservationOfWindow(h: PartitionHash, t: Tables, b: Batch, isin: Isin)
    requires Process(h, t, b).Success? && Fresh(t.books.events, b.token)
    requires Conserved(h, t, isin)
    ensures Conserved(h, Process(h, t, b).value, isin)
       <==> !HasCreated(ManagerEntriesOf(h, b.manager, isin)) || TotalOf(t.books, isin) == 0
  {
    var p := Announce(h, t.partitions, b);
    var ds := SupplyOf(p, t.books, b.token, isin);
    ProcessAt(h, t, b);
    assert BondPass(h, t, b, isin) == Success(BondOf(h, Process(h, t, b).value.bonds, isin));
    LifecycleSupply(h, t, b, isin);
    SupplyPassSums(Reduce(Reduce(BondOf(h, t.bonds, isin), ManagerEntriesOf(h, b.manager, isin)),
                          TokenEntriesOf(b.token, isin)), ds);
    PostLogsTotals(p, t.books, b.token, isin);
  }

  // ----------------------------------------------------------- balance rows

  function SumOfRows(events: seq<BalanceEvent>, isin: Isin, holder: Address): int {
    if events == [] then 0
    else
      var r := events[|events|-1];
      SumOfRows(events[..|events|-1], isin, holder)
      + if r.isin == isin && r.holder == holder then r.delta else 0
  }

  function LastBalanceAfter(events: seq<BalanceEvent>, isin: Isin, holder: Address): int {
    if events == [] then 0
    else
      var r := events[|events|-1];
      if r.isin == isin && r.holder == holder then r.balanceAfter
      else LastBalanceAfter(events[..|events|-1], isin, holder)
  }

  /** Each balance is the sum of its holder's rows, and the balance its last row announces. */
  ghost predicate Explained(books: Books) {
    && (forall isin, a :: BalanceOf(books, isin, a) == SumOfRows(books.events, isin, a))
    && (forall isin, a :: BalanceOf(books, isin, a) == LastBalanceAfter(books.events, isin, a))
    && (forall k | k in books.balances :: k.1 != ZERO_ADDRESS)
  }

  lemma PostDeltaExplained(books: Books, isin: Isin, d: HolderDelta, id: LogId)
    requires Explained(books)
    ensures Explained(PostDelta(books, isin, d, id))
  {
    var posted := PostDelta(books, isin, d, id);
    if Writes(books, d, id) {
      assert posted.events[..|posted.events|-1] == books.events;
      forall i, a
        ensures BalanceOf(posted, i, a) == SumOfRows(posted.events, i, a)
        ensures BalanceOf(posted, i, a) == LastBalanceAfter(posted.events, i, a)
      {
        assert BalanceOf(books, i, a) == SumOfRows(books.events, i, a);
        assert BalanceOf(books, i, a) == LastBalanceAfter(books.events, i, a);
      }
    }
  }

  lemma {:induction false} PostDeltasExplained(books: Books, isin: Isin, ds: seq<HolderDelta>, id: LogId)
    requires Explained(books)
    ensures Explained(PostDeltas(books, isin, ds, id))
  {
    if ds != [] {
      PostDeltasExplained(books, isin, ds[..|ds|-1], id);
      PostDeltaExplained(PostDeltas(books, isin, ds[..|ds|-1], id), isin, ds[|ds|-1], id);
    }
  }

  /** Kept by every window, whether or not its logs are duplicates. */
  lemma {:induction false} PostLogsExplained(p: map<Hash, Isin>, books: Books, logs: seq<TokenLog>)
    requires Explained(books)
    ensures Explained(PostLogs(p, books, logs))
  {
    if logs != [] {
      var init, log := logs[..|logs|-1], logs[|logs|-1];
      PostLogsExplained(p, books, init);
      if Mapped(p, log) {
        PostDeltasExplained(PostLogs(p, books, init), p[log.body.partition], DeltasOf(log), log.id);
      }
    }
  }

  // -------------------------------------------------------------- refinement

  ghost predicate Refines(h: PartitionHash, books: Books, l: Ledger) {
    forall isin, a | a != ZERO_ADDRESS :: BalanceOf(books, isin, a) == Held(l, h(isin), a)
  }

  ghost predicate NonNegative(l: Ledger) {
    forall k | k in l :: l[k] >= 0
  }

  /** Every transfer that moves something is of an announced partition. */
  ghost predicate Announced(p: map<Hash, Isin>, logs: seq<TokenLog>) {
    forall log <- logs :: DeltasOf(log) != [] ==> Mapped(p, log)
  }

  lemma PostLogRefines(h: PartitionHash, p: map<Hash, Isin>, books: Books, l: Ledger, log: TokenLog)
    requires Injective(h) && WellMapped(h, p) && Refines(h, books, l)
    requires forall r <- books.events :: !r.id.SameLog(log.id)
    requires DeltasOf(log) != [] ==> Mapped(p, log)
    ensures Refines(h, PostLog(p, books, log), LedgerStep(l, log))
  {
    var posted, moved := PostLog(p, books, log), LedgerStep(l, log);
    if DeltasOf(log) != [] {
      PostedBalances(books, p[log.body.partition], log);
    }
    forall isin, a | a != ZERO_ADDRESS ensures BalanceOf(posted, isin, a) == Held(moved, h(isin), a) {
      assert BalanceOf(books, isin, a) == Held(l, h(isin), a);
      if DeltasOf(log) != [] {
        assert h(isin) == log.body.partition <==> isin == p[log.body.partition];
      }
    }
  }

  /** What a fresh log does to every balance. */
  lemma PostedBalances(books: Books, posting: Isin, log: TokenLog)
    requires forall r <- books.events :: !r.id.SameLog(log.id)
    requires DeltasOf(log) != []
    ensures forall isin, a | a != ZERO_ADDRESS ::
      BalanceOf(PostDeltas(books, posting, DeltasOf(log), log.id), isin, a)
      == BalanceOf(books, isin, a)
         - (if isin == posting && a == log.body.from then log.body.value else 0)
         + (if isin == posting && a == log.body.to then log.body.value else 0)
  {
    var ds := DeltasOf(log);
    assert ds[..1][..0] == [];
    assert PostDeltas(books, posting, ds[..1], log.id) == PostDelta(books, posting, ds[0], log.id);
    if |ds| == 1 {
      assert ds == ds[..1];
    } else {
      assert ds[..|ds|-1] == ds[..1];
      assert !Recorded(PostDelta(books, posting, ds[0], log.id).events, log.id, ds[1].holder);
    }
  }

  lemma LedgerStepNonNegative(l: Ledger, log: TokenLog)
    requires NonNegative(l) && Covered(l, log)
    ensures NonNegative(LedgerStep(l, log))
  {
  }

  /** On a valid log the books follow the ledger, and no balance is negative. */
  lemma {:induction false} PostLogsRefine(
    h: PartitionHash, p: map<Hash, Isin>, books: Books, l: Ledger, logs: seq<TokenLog>)
    requires Injective(h) && WellMapped(h, p) && Refines(h, books, l) && NonNegative(l)
    requires Fresh(books.events, logs) && Announced(p, logs) && ValidLogs(l, logs)
    ensures Refines(h, PostLogs(p, books, logs), LedgerAfter(l, logs))
    ensures NonNegative(LedgerAfter(l, logs))
  {
    if logs != [] {
      var init, log := logs[..|logs|-1], logs[|logs|-1];
      assert logs == init + [log];
      FreshTail(p, books, init, [log]);
      assert log in [log];
      PostLogsRefine(h, p, books, l, init);
      PostLogRefines(h, p, PostLogs(p, books, init), LedgerAfter(l, init), log);
      LedgerStepNonNegative(LedgerAfter(l, init), log);
    }
  }

  lemma TotalNonNegative(h: PartitionHash, books: Books, l: Ledger, isin: Isin)
    requires Refines(h, books, l) && NonNegative(l) && Explained(books)
    ensures TotalOf(books, isin) >= 0
  {
    forall a | a in HoldersOf(isin, books.balances)
      ensures (isin, a) in books.balances && books.balances[(isin, a)] >= 0
    {
      assert BalanceOf(books, isin, a) == Held(l, h(isin), a);
    }
    SumOverNonNegative(HoldersOf(isin, books.balances), isin, books.balances);
  }

  /** The running supply never goes below zero: after each log it is a sum of ledger balances. */
  lemma {:induction false} SupplyStaysCovered(
    h: PartitionHash, p: map<Hash, Isin>, books: Books, l: Ledger, logs: seq<TokenLog>, isin: Isin)
    requires Injective(h) && WellMapped(h, p) && Refines(h, books, l) && NonNegative(l) && Explained(books)
    requires Fresh(books.events, logs) && Announced(p, logs) && ValidLogs(l, logs)
    ensures StaysCovered(TotalOf(books, isin), SupplyOf(p, books, logs, isin))
  {
    if logs != [] {
      var init, log := logs[..|logs|-1], logs[|logs|-1];
      assert logs == init + [log];
      FreshTail(p, books, init, [log]);
      assert log in [log];
      SupplyStaysCovered(h, p, books, l, init, isin);
      PostLogsRefine(h, p, books, l, logs);
      PostLogsExplained(p, books, logs);
      TotalNonNegative(h, PostLogs(p, books, logs), LedgerAfter(l, logs), isin);
      PostLogsTotals(p, books, logs, isin);
      PostLogTotals(p, PostLogs(p, books, init), log, isin);
      CoveredExtends(TotalOf(books, isin), SupplyOf(p, books, init, isin),
                     SupplyOfLog(p, PostLogs(p, books, init), log, isin));
    }
  }

  lemma CoveredExtends(supply: int, ds: seq<SupplyDelta>, last: seq<SupplyDelta>)
    requires StaysCovered(supply, ds) && |last| <= 1 && supply + SumDeltas(ds + last) >= 0
    ensures StaysCovered(supply, ds + last)
  {
    if last == [] {
      assert ds + last == ds;
    } else {
      assert (ds + last)[..|ds + last|-1] == ds;
      CoveredStep(supply, ds + last);
    }
  }

  // ------------------------------------------------------ what windows keep

  /** The committed projection agrees with the ledger `l`. */
  ghost predicate Sound(h: PartitionHash, t: Tables, l: Ledger) {
    && WellMapped(h, t.partitions)
    && Explained(t.books)
    && Refines(h, t.books, l)
    && NonNegative(l)
    && forall isin :: Conserved(h, t, isin)
  }

  /** The hypotheses on a window: new logs, announced partitions, a valid ledger history, and no
      creation of a bond that still has balances. */
  ghost predicate Admissible(h: PartitionHash, t: Tables, l: Ledger, b: Batch) {
    && Fresh(t.books.events, b.token)
    && Announced(Announce(h, t.partitions, b), b.token)
    && ValidLogs(l, b.token)
    && forall isin :: HasCreated(ManagerEntriesOf(h, b.manager, isin)) ==> TotalOf(t.books, isin) == 0
  }

  /** An admissible window never raises the negative-supply error and keeps the projection sound:
      every balance is the ledger's, every supply the sum of its balances. */
  lemma WindowKeepsSound(h: PartitionHash, t: Tables, l: Ledger, b: Batch)
    requires Injective(h) && Sound(h, t, l) && Admissible(h, t, l, b)
    ensures Process(h, t, b).Success?
    ensures Sound(h, Process(h, t, b).value, LedgerAfter(l, b.token))
  {
    var p := Announce(h, t.partitions, b);
    AnnounceJoin(h, t.partitions, b, Batch([], []));
    ProcessAt(h, t, b);
    forall isin ensures BondPass(h, t, b, isin).Success? {
      LifecycleSupply(h, t, b, isin);
      SupplyStaysCovered(h, p, t.books, l, b.token, isin);
      assert Conserved(h, t, isin);
      SupplyPassSums(Reduce(Reduce(BondOf(h, t.bonds, isin), ManagerEntriesOf(h, b.manager, isin)),
                            TokenEntriesOf(b.token, isin)),
                     SupplyOf(p, t.books, b.token, isin));
    }
    PostLogsExplained(p, t.books, b.token);
    PostLogsRefine(h, p, t.books, l, b.token);
    forall isin ensures Conserved(h, Process(h, t, b).value, isin) {
      assert Conserved(h, t, isin);
      ConservationOfWindow(h, t, b, isin);
    }
  }
}
