/**
 The projection of a run of blocks does not depend on how the blocks are cut into windows.
 */
module WindowIndependence {
  import opened Prelude
  import opened BondLifecycle
  import opened Projection
  import opened ProjectionLens
  import opened WindowMerge
  import opened TokenLedger

  /** A chain: the logs of each block, in block order. Block numbers count from the start block. */
  type Chain = seq<Batch>

  const NOTHING := Batch([], [])
  const NO_TABLES := Tables(map[], map[], Books(map[], []), [])

  /** What one `getLogs` over a run of blocks returns. */
  function JoinAll(blocks: Chain): Batch {
    if blocks == [] then NOTHING else Join(JoinAll(blocks[..|blocks|-1]), blocks[|blocks|-1])
  }

  /** The reference: every block on its own. */
  function Blockwise(h: PartitionHash, blocks: Chain): Result<Tables, string> {
    if blocks == [] then Success(NO_TABLES)
    else
      var r := Blockwise(h, blocks[..|blocks|-1]);
      if r.Failure? then r else Process(h, r.value, blocks[|blocks|-1])
  }

  /** The ledger that the chain's own transfers define. */
  function LedgerOf(blocks: Chain): Ledger {
    LedgerAfter(map[], JoinAll(blocks).token)
  }

  // -------------------------------------------------------------- hypotheses

  ghost predicate Numbered(chain: Chain) {
    forall i | 0 <= i < |chain| ::
      && (forall log <- chain[i].manager :: log.id.block == i)
      && (forall log <- chain[i].token :: log.id.block == i)
  }

  /** Every effective transfer is of a partition announced in its block or earlier. */
  ghost predicate AnnouncedInTime(h: PartitionHash, chain: Chain) {
    forall i | 0 <= i < |chain| :: forall log <- chain[i].token ::
      DeltasOf(log) != [] ==>
        exists isin :: h(isin) == log.body.partition && exists j | 0 <= j <= i :: Announces(chain[j], isin)
  }

  /** A bond is created only while the ledger holds none of its units. */
  ghost predicate CreatedEmpty(h: PartitionHash, chain: Chain) {
    forall n, isin, a | 0 <= n < |chain| && HasCreated(ManagerEntriesOf(h, chain[n].manager, isin)) ::
      Held(LedgerOf(chain[..n]), h(isin), a) == 0
  }

  ghost predicate ValidChain(h: PartitionHash, chain: Chain) {
    && Injective(h)
    && Numbered(chain)
    && Fresh([], JoinAll(chain).token)
    && AnnouncedInTime(h, chain)
    && ValidLogs(map[], JoinAll(chain).token)
    && CreatedEmpty(h, chain)
  }

  // ------------------------------------------------------------------ basics

  lemma {:induction false} JoinAllAppend(a: Chain, b: Chain)
    ensures JoinAll(a + b) == Join(JoinAll(a), JoinAll(b))
  {
    if b == [] {
      assert a + b == a;
      assert Join(JoinAll(a), NOTHING) == JoinAll(a);
    } else {
      JoinAllAppend(a, b[..|b|-1]);
      assert (a + b)[..|a+b|-1] == a + b[..|b|-1];
    }
  }

  lemma {:induction false} JoinAllMembers(blocks: Chain)
    ensures forall log <- JoinAll(blocks).token :: exists i | 0 <= i < |blocks| :: log in blocks[i].token
    ensures forall log <- JoinAll(blocks).manager :: exists i | 0 <= i < |blocks| :: log in blocks[i].manager
    ensures forall i | 0 <= i < |blocks| :: forall log <- blocks[i].token :: log in JoinAll(blocks).token
    ensures forall i | 0 <= i < |blocks| :: forall log <- blocks[i].manager :: log in JoinAll(blocks).manager
  {
    if blocks != [] {
      JoinAllMembers(blocks[..|blocks|-1]);
    }
  }

  lemma {:induction false} ValidLogsSplit(l: Ledger, a: seq<TokenLog>, b: seq<TokenLog>)
    requires ValidLogs(l, a + b)
    ensures ValidLogs(l, a) && ValidLogs(LedgerAfter(l, a), b)
    ensures LedgerAfter(l, a + b) == LedgerAfter(LedgerAfter(l, a), b)
  {
    if b == [] {
      assert a + b == a;
    } else {
      assert (a + b)[..|a+b|-1] == a + b[..|b|-1];
      ValidLogsSplit(l, a, b[..|b|-1]);
    }
  }

  // ---------------------------------------------------- block by block

  /** The state of the projection after the first `n` blocks of a valid chain, block by block. */
  ghost predicate InStep(h: PartitionHash, chain: Chain, n: nat)
    requires n <= |chain|
  {
    && Blockwise(h, chain[..n]).Success?
    && var t := Blockwise(h, chain[..n]).value;
       && Sound(h, t, LedgerOf(chain[..n]))
       && (forall r <- t.books.events :: exists log <- JoinAll(chain[..n]).token :: r.id == log.id)
       && (forall isin, j | 0 <= j < n && Announces(chain[j], isin) :: h(isin) in t.partitions)
  }

  lemma EmptyIsInStep(h: PartitionHash, chain: Chain)
    ensures InStep(h, chain, 0)
  {
    assert chain[..0] == [];
    assert LedgerOf([]) == map[];
    forall isin ensures Conserved(h, NO_TABLES, isin) {
      assert HoldersOf(isin, NO_TABLES.books.balances) == {};
    }
  }

  lemma TokensAround(chain: Chain, n: nat) returns (after: seq<TokenLog>)
    requires n < |chain|
    ensures JoinAll(chain).token == JoinAll(chain[..n]).token + chain[n].token + after
    ensures JoinAll(chain[..n+1]).token == JoinAll(chain[..n]).token + chain[n].token
  {
    after := JoinAll(chain[n+1..]).token;
    assert chain == chain[..n+1] + chain[n+1..] && chain[..n+1][..n] == chain[..n];
    JoinAllAppend(chain[..n+1], chain[n+1..]);
  }

  lemma FreshMiddle(events: seq<BalanceEvent>, before: seq<TokenLog>, logs: seq<TokenLog>, after: seq<TokenLog>)
    requires Fresh([], before + logs + after)
    requires forall r <- events :: exists log <- before :: r.id == log.id
    ensures Fresh(events, logs)
  {
    var none, all := Books(map[], []), before + logs;
    FreshTail(map[], none, all, after);
    FreshTail(map[], none, before, logs);
    forall r, log | r in events && log in logs ensures !r.id.SameLog(log.id) {
      var i :| 0 <= i < |before| && r.id == before[i].id;
      var j :| 0 <= j < |logs| && logs[j] == log;
      assert all[i] == before[i] && all[|before| + j] == log;
      assert !all[i].id.SameLog(all[|before| + j].id);
    }
  }

  lemma NextIsAdmissible(h: PartitionHash, chain: Chain, n: nat)
    requires ValidChain(h, chain) && n < |chain| && InStep(h, chain, n)
    ensures Admissible(h, Blockwise(h, chain[..n]).value, LedgerOf(chain[..n]), chain[n])
  {
    var t, b := Blockwise(h, chain[..n]).value, chain[n];
    var before := JoinAll(chain[..n]).token;
    var after := TokensAround(chain, n);
    FreshMiddle(t.books.events, before, b.token, after);
    ValidLogsSplit(map[], before + b.token, after);
    ValidLogsSplit(map[], before, b.token);
    forall log | log in b.token && DeltasOf(log) != [] ensures Mapped(Announce(h, t.partitions, b), log) {
      assert log in chain[n].token;
      var isin :| h(isin) == log.body.partition && exists j | 0 <= j <= n :: Announces(chain[j], isin);
      AnnounceAt(h, t.partitions, b, isin);
    }
    forall isin | HasCreated(ManagerEntriesOf(h, b.manager, isin)) ensures TotalOf(t.books, isin) == 0 {
      forall a | a in HoldersOf(isin, t.books.balances)
        ensures (isin, a) in t.books.balances && t.books.balances[(isin, a)] == 0
      {
        assert BalanceOf(t.books, isin, a) == Held(LedgerOf(chain[..n]), h(isin), a);
      }
      ZeroTotal(HoldersOf(isin, t.books.balances), isin, t.books.balances);
    }
  }

  lemma {:induction false} ZeroTotal(keys: set<Address>, isin: Isin, m: map<(Isin, Address), int>)
    requires forall x <- keys :: (isin, x) in m && m[(isin, x)] == 0
    ensures SumOver(keys, isin, m) == 0
    decreases |keys|
  {
    if keys != {} {
      var a :| a in keys;
      SumOverTakes(keys, isin, m, a);
      ZeroTotal(keys - {a}, isin, m);
    }
  }

  lemma BlockStaysInStep(h: PartitionHash, chain: Chain, n: nat)
    requires ValidChain(h, chain) && n < |chain| && InStep(h, chain, n)
    ensures InStep(h, chain, n + 1)
  {
    NextIsAdmissible(h, chain, n);
    ValidPrefix(h, chain, n);
    var t1 := NextTables(h, chain, n);
    ProcessedRows(h, Blockwise(h, chain[..n]).value, chain, n);
  }

  lemma NextTables(h: PartitionHash, chain: Chain, n: nat) returns (t1: Tables)
    requires Injective(h) && n < |chain| && Blockwise(h, chain[..n]).Success?
    requires Sound(h, Blockwise(h, chain[..n]).value, LedgerOf(chain[..n]))
    requires Admissible(h, Blockwise(h, chain[..n]).value, LedgerOf(chain[..n]), chain[n])
    ensures Process(h, Blockwise(h, chain[..n]).value, chain[n]) == Success(t1)
    ensures Blockwise(h, chain[..n+1]) == Success(t1)
    ensures Sound(h, t1, LedgerAfter(LedgerOf(chain[..n]), chain[n].token))
  {
    var t := Blockwise(h, chain[..n]).value;
    WindowKeepsSound(h, t, LedgerOf(chain[..n]), chain[n]);
    assert chain[..n+1][..n] == chain[..n];
    t1 := Process(h, t, chain[n]).value;
  }

  lemma ProcessedRows(h: PartitionHash, t: Tables, chain: Chain, n: nat)
    requires ValidChain(h, chain) && n < |chain| && InStep(h, chain, n)
    requires Blockwise(h, chain[..n]) == Success(t) && Process(h, t, chain[n]).Success?
    requires Fresh(t.books.events, chain[n].token)
    ensures var t1 := Process(h, t, chain[n]).value;
            && (forall r <- t1.books.events :: exists log <- JoinAll(chain[..n+1]).token :: r.id == log.id)
            && (forall isin, j | 0 <= j < n + 1 && Announces(chain[j], isin) :: h(isin) in t1.partitions)
  {
    var b := chain[n];
    var p := Announce(h, t.partitions, b);
    ProcessAt(h, t, b);
    ValidPrefix(h, chain, n);
    RowsHaveLogs(p, t.books, JoinAll(chain[..n]).token, b.token);
    forall isin, j | 0 <= j < n + 1 && Announces(chain[j], isin) ensures h(isin) in p {
      AnnounceAt(h, t.partitions, b, isin);
    }
  }

  lemma RowsHaveLogs(p: map<Hash, Isin>, books: Books, before: seq<TokenLog>, logs: seq<TokenLog>)
    requires Fresh(books.events, logs)
    requires forall r <- books.events :: exists log <- before :: r.id == log.id
    ensures forall r <- PostLogs(p, books, logs).events :: exists log <- before + logs :: r.id == log.id
  {
    FreshRows(p, books, logs);
    forall r | r in PostLogs(p, books, logs).events ensures exists log <- before + logs :: r.id == log.id {
      if r in books.events {
        var log :| log in before && r.id == log.id;
        assert log in before + logs;
      } else {
        var log :| log in logs && r.id == log.id;
        assert log in before + logs;
      }
    }
  }

  lemma ValidPrefix(h: PartitionHash, chain: Chain, n: nat)
    requires ValidChain(h, chain) && n < |chain|
    ensures JoinAll(chain[..n+1]).token == JoinAll(chain[..n]).token + chain[n].token
    ensures LedgerOf(chain[..n+1]) == LedgerAfter(LedgerOf(chain[..n]), chain[n].token)
  {
    var after := TokensAround(chain, n);
    ValidLogsSplit(map[], JoinAll(chain[..n]).token + chain[n].token, after);
    ValidLogsSplit(map[], JoinAll(chain[..n]).token, chain[n].token);
  }

  /** On a valid chain the projection never fails, and after every block it agrees with the ledger. */
  lemma {:induction false} ChainStaysInStep(h: PartitionHash, chain: Chain, n: nat)
    requires ValidChain(h, chain) && n <= |chain|
    ensures InStep(h, chain, n)
  {
    if n == 0 {
      EmptyIsInStep(h, chain);
    } else {
      ChainStaysInStep(h, chain, n - 1);
      BlockStaysInStep(h, chain, n - 1);
    }
  }

  // ------------------------------------------------------- any window at all

  /** The tables after `n` blocks, block by block (on a valid chain no block fails). */
  function TablesAfter(h: PartitionHash, chain: Chain, n: nat): Tables
    requires n <= |chain|
  {
    var r := Blockwise(h, chain[..n]);
    if r.Success? then r.value else NO_TABLES
  }

  ghost predicate WindowAgrees(h: PartitionHash, chain: Chain, from: nat, to: nat)
    requires from <= to <= |chain|
  {
    Process(h, TablesAfter(h, chain, from), JoinAll(chain[from..to])) == Success(TablesAfter(h, chain, to))
  }

  /** Each bond that block `n` creates masks what blocks `from..n` left on the token side. */
  ghost predicate CreationMasks(h: PartitionHash, chain: Chain, from: nat, n: nat)
    requires from <= n < |chain|
  {
    forall isin :: Mergeable(h, TablesAfter(h, chain, from), JoinAll(chain[from..n]), chain[n], isin)
  }

  lemma AfterNext(h: PartitionHash, chain: Chain, n: nat)
    requires ValidChain(h, chain) && n < |chain|
    ensures Process(h, TablesAfter(h, chain, n), chain[n]) == Success(TablesAfter(h, chain, n + 1))
  {
    ChainStaysInStep(h, chain, n + 1);
    assert chain[..n+1][..n] == chain[..n];
  }

  lemma BlocksInOrder(chain: Chain, from: nat, n: nat, to: nat)
    requires Numbered(chain) && from <= n <= to <= |chain|
    ensures BlocksBefore(JoinAll(chain[from..n]), JoinAll(chain[n..to]))
  {
    var blocks, next := chain[from..n], chain[n..to];
    JoinAllMembers(blocks);
    JoinAllMembers(next);
    forall x, y | x in JoinAll(blocks).token && y in JoinAll(next).manager ensures x.id.block < y.id.block {
      var i :| 0 <= i < |blocks| && x in blocks[i].token;
      var j :| 0 <= j < |next| && y in next[j].manager;
      assert blocks[i] == chain[from + i] && next[j] == chain[n + j];
    }
  }

  /** No transfer of the blocks `from..n` waits for an announcement of the blocks after them. */
  lemma NoneAnnouncedLate(h: PartitionHash, chain: Chain, from: nat, n: nat, next: Batch)
    requires ValidChain(h, chain) && from <= n <= |chain|
    requires WindowAgrees(h, chain, from, n)
    ensures !AnnouncedLate(h, TablesAfter(h, chain, from), JoinAll(chain[from..n]), next)
  {
    var t, blocks := TablesAfter(h, chain, from), chain[from..n];
    var u := JoinAll(blocks);
    ChainStaysInStep(h, chain, n);
    JoinAllMembers(blocks);
    ProcessAt(h, t, u);
    forall log | log in u.token && DeltasOf(log) != [] ensures Mapped(Announce(h, t.partitions, u), log) {
      var i :| 0 <= i < |blocks| && log in blocks[i].token;
      assert log in chain[from + i].token;
      var isin :| h(isin) == log.body.partition && exists j | 0 <= j <= from + i :: Announces(chain[j], isin);
      assert h(isin) in TablesAfter(h, chain, n).partitions;
    }
  }

  lemma WindowExtends(h: PartitionHash, chain: Chain, from: nat, n: nat)
    requires ValidChain(h, chain) && from <= n < |chain|
    requires WindowAgrees(h, chain, from, n)
    ensures WindowAgrees(h, chain, from, n + 1) <==> CreationMasks(h, chain, from, n)
  {
    ChainStaysInStep(h, chain, from);
    AfterNext(h, chain, n);
    BlocksInOrder(chain, from, n, n + 1);
    NoneAnnouncedLate(h, chain, from, n, chain[n]);
    OneBlock(chain, n);
    LastOfWindow(chain, from, n);
    MergeWhenAnnounced(h, TablesAfter(h, chain, from), JoinAll(chain[from..n]), chain[n]);
  }

  lemma OneBlock(chain: Chain, n: nat)
    requires n < |chain|
    ensures JoinAll(chain[n..n+1]) == chain[n]
  {
    assert chain[n..n+1][..0] == [];
    assert Join(NOTHING, chain[n]) == chain[n];
  }

  lemma LastOfWindow(chain: Chain, from: nat, n: nat)
    requires from <= n < |chain|
    ensures JoinAll(chain[from..n+1]) == Join(JoinAll(chain[from..n]), chain[n])
  {
    assert chain[from..n+1][..n-from] == chain[from..n];
  }

  lemma MaskedWindowExtends(h: PartitionHash, chain: Chain, from: nat, n: nat)
    requires ValidChain(h, chain) && from <= n < |chain|
    requires WindowAgrees(h, chain, from, n) && CreationMasks(h, chain, from, n)
    ensures WindowAgrees(h, chain, from, n + 1)
  {
    WindowExtends(h, chain, from, n);
  }

  ghost predicate AllMask(h: PartitionHash, chain: Chain, from: nat, to: nat)
    requires from <= to <= |chain|
  {
    forall n | from <= n < to :: CreationMasks(h, chain, from, n)
  }

  lemma LastMasks(h: PartitionHash, chain: Chain, from: nat, n: nat)
    requires from <= n < |chain| && AllMask(h, chain, from, n + 1)
    ensures AllMask(h, chain, from, n) && CreationMasks(h, chain, from, n)
  {
  }

  lemma {:induction false} MaskedWindowAgrees(h: PartitionHash, chain: Chain, from: nat, to: nat)
    requires ValidChain(h, chain) && from <= to <= |chain| && AllMask(h, chain, from, to)
    ensures WindowAgrees(h, chain, from, to)
  {
    if from == to {
      EmptyWindowAgrees(h, chain, from, to);
    } else {
      var n := to - 1;
      LastMasks(h, chain, from, n);
      MaskedWindowAgrees(h, chain, from, n);
      MaskedWindowExtends(h, chain, from, n);
    }
  }

  lemma EmptyWindowAgrees(h: PartitionHash, chain: Chain, n: nat, to: nat)
    requires ValidChain(h, chain) && n == to <= |chain|
    ensures WindowAgrees(h, chain, n, to)
  {
    assert chain[n..n] == [];
    ChainStaysInStep(h, chain, n);
    NothingProcessed(h, TablesAfter(h, chain, n));
  }

  lemma NothingProcessed(h: PartitionHash, t: Tables)
    ensures Process(h, t, NOTHING) == Success(t)
  {
  }

  ghost predicate WindowsAgree(h: PartitionHash, chain: Chain) {
    forall from, to | 0 <= from <= to <= |chain| :: WindowAgrees(h, chain, from, to)
  }

  ghost predicate CreationsMask(h: PartitionHash, chain: Chain) {
    forall from, n | 0 <= from <= n < |chain| :: CreationMasks(h, chain, from, n)
  }

  lemma AllOfThemMask(h: PartitionHash, chain: Chain, from: nat, to: nat)
    requires CreationsMask(h, chain) && from <= to <= |chain|
    ensures AllMask(h, chain, from, to)
  {
  }

  lemma OneWindowAgrees(h: PartitionHash, chain: Chain, from: nat, to: nat)
    requires ValidChain(h, chain) && CreationsMask(h, chain) && from <= to <= |chain|
    ensures WindowAgrees(h, chain, from, to)
  {
    AllOfThemMask(h, chain, from, to);
    MaskedWindowAgrees(h, chain, from, to);
  }

  lemma OneCreationMasks(h: PartitionHash, chain: Chain, from: nat, n: nat)
    requires ValidChain(h, chain) && WindowsAgree(h, chain) && from <= n < |chain|
    ensures CreationMasks(h, chain, from, n)
  {
    assert WindowAgrees(h, chain, from, n) && WindowAgrees(h, chain, from, n + 1);
    WindowExtends(h, chain, from, n);
  }

  /** Every window of a valid chain gives what its blocks give one by one, exactly when every
      creation masks the token events of the blocks before it. */
  lemma WindowsAgreeExactly(h: PartitionHash, chain: Chain)
    requires ValidChain(h, chain)
    ensures WindowsAgree(h, chain) <==> CreationsMask(h, chain)
  {
    if CreationsMask(h, chain) {
      forall from, to | 0 <= from <= to <= |chain| ensures WindowAgrees(h, chain, from, to) {
        OneWindowAgrees(h, chain, from, to);
      }
    }
    if WindowsAgree(h, chain) {
      forall from, n | 0 <= from <= n < |chain| ensures CreationMasks(h, chain, from, n) {
        OneCreationMasks(h, chain, from, n);
      }
    }
  }

  // ------------------------------------------------- chains without re-creation

  /** `b` neither names `isin` in a lifecycle event nor moves its units. */
  ghost predicate Quiet(h: PartitionHash, b: Batch, isin: Isin) {
    && TokenEntriesOf(b.token, isin) == []
    && forall log <- b.token :: DeltasOf(log) != [] ==> log.body.partition != h(isin)
  }

  /** No bond is created at a block later than one of its token events. */
  ghost predicate NoRecreation(h: PartitionHash, chain: Chain) {
    forall i, j, isin | 0 <= i < j < |chain| && HasCreated(ManagerEntriesOf(h, chain[j].manager, isin)) ::
      Quiet(h, chain[i], isin)
  }

  lemma {:induction false} QuietWindow(h: PartitionHash, p: map<Hash, Isin>, books: Books, blocks: Chain, isin: Isin)
    requires Injective(h) && WellMapped(h, p)
    requires forall i | 0 <= i < |blocks| :: Quiet(h, blocks[i], isin)
    ensures TokenEntriesOf(JoinAll(blocks).token, isin) == []
    ensures SupplyOf(p, books, JoinAll(blocks).token, isin) == []
  {
    if blocks != [] {
      var init, last := blocks[..|blocks|-1], blocks[|blocks|-1];
      QuietWindow(h, p, books, init, isin);
      TokenEntriesAppend(JoinAll(init).token, last.token, isin);
      PostLogsAppend(p, books, JoinAll(init).token, last.token);
      QuietSupply(h, p, PostLogs(p, books, JoinAll(init).token), last.token, isin);
    }
  }

  lemma {:induction false} QuietSupply(
    h: PartitionHash, p: map<Hash, Isin>, books: Books, logs: seq<TokenLog>, isin: Isin)
    requires Injective(h) && WellMapped(h, p)
    requires forall log <- logs :: DeltasOf(log) != [] ==> log.body.partition != h(isin)
    ensures SupplyOf(p, books, logs, isin) == []
  {
    if logs != [] {
      var init, log := logs[..|logs|-1], logs[|logs|-1];
      QuietSupply(h, p, books, init, isin);
      if Mapped(p, log) && DeltasOf(log) != [] {
        assert p[log.body.partition] != isin;
        QuietPosting(PostLogs(p, books, init), p[log.body.partition], DeltasOf(log), log.id, isin);
      }
    }
  }

  lemma {:induction false} QuietPosting(books: Books, posted: Isin, ds: seq<HolderDelta>, id: LogId, isin: Isin)
    requires posted != isin
    ensures SupplyOfDeltas(books, posted, ds, id, isin) == []
  {
    if ds != [] {
      QuietPosting(books, posted, ds[..|ds|-1], id, isin);
    }
  }

  lemma NoRecreationMasks(h: PartitionHash, chain: Chain)
    requires ValidChain(h, chain) && NoRecreation(h, chain)
    ensures CreationsMask(h, chain)
  {
    forall from, n, isin | 0 <= from <= n < |chain|
      ensures Mergeable(h, TablesAfter(h, chain, from), JoinAll(chain[from..n]), chain[n], isin)
    {
      if HasCreated(ManagerEntriesOf(h, chain[n].manager, isin)) {
        var t, blocks := TablesAfter(h, chain, from), chain[from..n];
        ChainStaysInStep(h, chain, from);
        AnnounceJoin(h, t.partitions, JoinAll(blocks), NOTHING);
        forall i | 0 <= i < |blocks| ensures Quiet(h, blocks[i], isin) {
          assert blocks[i] == chain[from + i];
        }
        QuietWindow(h, Announce(h, t.partitions, JoinAll(blocks)), t.books, blocks, isin);
      }
    }
  }

  // --------------------------------------------------------------- whole runs

  /** The windows of one run, as the blocks each of them covers. */
  function RunWindows(h: PartitionHash, t: Tables, windows: seq<Chain>): Result<Tables, string> {
    if windows == [] then Success(t)
    else
      var r := RunWindows(h, t, windows[..|windows|-1]);
      if r.Failure? then r else Process(h, r.value, JoinAll(windows[|windows|-1]))
  }

  function Flatten(windows: seq<Chain>): Chain {
    if windows == [] then [] else Flatten(windows[..|windows|-1]) + windows[|windows|-1]
  }

  lemma NothingAfterNoBlock(h: PartitionHash, chain: Chain)
    ensures TablesAfter(h, chain, 0) == NO_TABLES
  {
    assert chain[..0] == [];
  }

  /** One window of a valid chain whose creations mask, as a step of a run. */
  lemma WindowStep(h: PartitionHash, chain: Chain, from: nat, to: nat, window: Chain)
    requires ValidChain(h, chain) && CreationsMask(h, chain)
    requires from <= to <= |chain| && window == chain[from..to]
    ensures Process(h, TablesAfter(h, chain, from), JoinAll(window)) == Success(TablesAfter(h, chain, to))
  {
    OneWindowAgrees(h, chain, from, to);
  }

  lemma {:induction false} AnyWindowing(h: PartitionHash, chain: Chain, windows: seq<Chain>)
    requires ValidChain(h, chain) && CreationsMask(h, chain) && Flatten(windows) <= chain
    ensures RunWindows(h, NO_TABLES, windows) == Success(TablesAfter(h, chain, |Flatten(windows)|))
  {
    if windows == [] {
      NothingAfterNoBlock(h, chain);
    } else {
      var init, last := windows[..|windows|-1], windows[|windows|-1];
      AnyWindowing(h, chain, init);
      var from, to := |Flatten(init)|, |Flatten(windows)|;
      assert chain[from..to] == last;
      WindowStep(h, chain, from, to, last);
    }
  }

  /** Window independence: two ways of cutting the same blocks give the same tables. */
  lemma WindowsDoNotMatter(h: PartitionHash, chain: Chain, one: seq<Chain>, other: seq<Chain>)
    requires ValidChain(h, chain) && CreationsMask(h, chain)
    requires Flatten(one) == Flatten(other) && Flatten(one) <= chain
    ensures RunWindows(h, NO_TABLES, one).Success?
    ensures RunWindows(h, NO_TABLES, one) == RunWindows(h, NO_TABLES, other)
  {
    AnyWindowing(h, chain, one);
    AnyWindowing(h, chain, other);
  }
}
