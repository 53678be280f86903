/**
 The concrete history behind the condition on a loop that catches up: a bond is created, ten units are minted and,
 once those blocks have been processed twice, burnt.
 */
module BurnAfterReplay {
  import opened Prelude
  import opened BondLifecycle
  import opened Projection
  import opened ProjectionLens
  import opened WindowMerge
  import opened TokenLedger
  import opened WindowIndependence
  import opened ReplayOfRange
  import opened CatchingUp
  import opened Recreation

  const HOLDER: Address := 7

  const CREATING := Batch([ManagerLog(LogId(0, 0, 100), ISIN, BondCreated(None, 3600))], [])

  function Mint(h: PartitionHash): TokenLog {
    TokenLog(LogId(1, 0, 101), TransferByPartition(h(ISIN), ZERO_ADDRESS, HOLDER, 10))
  }

  function Burn(h: PartitionHash): TokenLog {
    TokenLog(LogId(2, 0, 102), TransferByPartition(h(ISIN), HOLDER, ZERO_ADDRESS, 10))
  }

  function History3(h: PartitionHash): Chain {
    [CREATING, Batch([], [Mint(h)]), Batch([], [Burn(h)])]
  }

  lemma Joined(h: PartitionHash)
    ensures JoinAll(History3(h)[0..2]) == Batch(CREATING.manager, [Mint(h)])
    ensures JoinAll(History3(h)[2..3]) == Batch([], [Burn(h)])
    ensures JoinAll(History3(h)).token == [Mint(h), Burn(h)]
  {
    var chain := History3(h);
    OneBlock(chain, 0);
    OneBlock(chain, 1);
    OneBlock(chain, 2);
    WindowSplits(chain, 0, 1, 2);
    WindowSplits(chain, 0, 2, 3);
    assert chain[0..3] == chain;
  }

  lemma Creations(h: PartitionHash, isin: Isin)
    ensures Creates(h, CREATING, isin) <==> isin == ISIN
    ensures forall logs: seq<TokenLog> :: !Creates(h, Batch([], logs), isin)
  {
    var e := Entry(Created(h(ISIN), None, 3600), Position(0, 0));
    assert CREATING.manager[..0] == [];
    assert ManagerEntriesOf(h, [], isin) == [];
    assert ManagerFact(h, CREATING.manager[0]) == Some(e.fact);
    if isin == ISIN {
      assert ManagerEntriesOf(h, CREATING.manager, isin) == [] + [e];
      assert e in [] + [e];
    }
  }

  lemma ValidTransfers(h: PartitionHash)
    ensures ValidLogs(map[], [Mint(h), Burn(h)])
  {
    var both := [Mint(h), Burn(h)];
    assert both[..1] == [Mint(h)] && both[..1][..0] == [];
    assert LedgerAfter(map[], [Mint(h)]) == LedgerStep(map[], Mint(h)) by { assert [Mint(h)][..0] == []; }
  }

  lemma CreatedOnce(h: PartitionHash)
    ensures CreatedEmpty(h, History3(h)) && NoRecreation(h, History3(h))
  {
    var chain := History3(h);
    forall n, isin | 0 <= n < 3 ensures HasCreated(ManagerEntriesOf(h, chain[n].manager, isin)) ==> n == 0 {
      Creations(h, isin);
      assert !Creates(h, Batch([], chain[n].token), isin) || n == 0;
    }
    assert chain[..0] == [];
    assert LedgerOf([]) == map[];
  }

  lemma NewLogs(h: PartitionHash)
    ensures Numbered(History3(h)) && Fresh([], [Mint(h), Burn(h)])
  {
  }

  lemma ValidHistory(h: PartitionHash)
    requires Injective(h)
    ensures ValidChain(h, History3(h))
  {
    Joined(h);
    ValidTransfers(h);
    CreatedOnce(h);
    AnnouncedFirst(h);
    NewLogs(h);
  }

  lemma Valid(h: PartitionHash)
    requires Injective(h)
    ensures ValidChain(h, History3(h)) && CreationsMask(h, History3(h))
  {
    ValidHistory(h);
    CreatedOnce(h);
    NoRecreationMasks(h, History3(h));
  }

  lemma AnnouncedFirst(h: PartitionHash)
    ensures Announces(History3(h)[0], ISIN) && AnnouncedInTime(h, History3(h))
  {
    var chain := History3(h);
    assert Announces(chain[0], ISIN) by { assert LoopIsin(CREATING.manager[0]) == Some(ISIN); }
    forall i, log | 0 <= i < 3 && log in chain[i].token
      ensures exists isin :: h(isin) == log.body.partition && exists j | 0 <= j <= i :: Announces(chain[j], isin)
    {
      assert h(ISIN) == log.body.partition;
    }
  }

  /** The burn is new on the tables after two blocks, and takes ten units of supply. */
  lemma BurnIsNew(h: PartitionHash)
    requires Injective(h)
    ensures NewDeltas(h, TablesAfter(h, History3(h), 2), JoinAll(History3(h)[2..3]), ISIN)
         == [SupplyDelta(-10, Position(2, 0))]
  {
    var chain := History3(h);
    var t := TablesAfter(h, chain, 2);
    Valid(h);
    Joined(h);
    ChainStaysInStep(h, chain, 2);
    AnnouncedFirst(h);
    assert h(ISIN) in t.partitions && t.partitions[h(ISIN)] == ISIN by {
      assert h(t.partitions[h(ISIN)]) == h(ISIN);
    }
    assert chain[..2] == chain[0..2];
    BurnWrites(h, t);
  }

  lemma BurnWrites(h: PartitionHash, t: Tables)
    requires h(ISIN) in t.partitions && t.partitions[h(ISIN)] == ISIN
    requires forall r <- t.books.events :: r.id == Mint(h).id
    ensures NewDeltas(h, t, Batch([], [Burn(h)]), ISIN) == [SupplyDelta(-10, Position(2, 0))]
  {
    var logs := [Burn(h)];
    assert logs[..0] == [];
    assert Announce(h, t.partitions, Batch([], logs)) == t.partitions by {
      assert UpsertToken(h, t.partitions, logs) == t.partitions;
    }
    var ds, id := DeltasOf(Burn(h)), Burn(h).id;
    assert ds == [HolderDelta(HOLDER, -10, TransferKind.Burn)] && ds[..0] == [];
    assert PostDeltas(t.books, ISIN, ds[..0], id) == t.books;
    assert Writes(t.books, ds[0], id);
    assert SupplyOfDelta(t.books, ISIN, ds[0], id, ISIN) == [SupplyDelta(-10, Position(2, 0))];
    assert SupplyOfDeltas(t.books, ISIN, ds, id, ISIN) == [] + [SupplyDelta(-10, Position(2, 0))];
    assert SupplyOf(t.partitions, t.books, logs, ISIN)
        == [] + SupplyOfLog(t.partitions, PostLogs(t.partitions, t.books, []), Burn(h), ISIN);
  }

  lemma NotMintedAfresh(h: PartitionHash)
    requires Injective(h)
    ensures !MintedAfresh(h, History3(h), 0, 2, 3)
  {
    var chain := History3(h);
    BurnIsNew(h);
    Joined(h);
    Creations(h, ISIN);
    assert Creates(h, Over(chain, 0, 2), ISIN) && !Creates(h, Over(chain, 2, 3), ISIN);
    var ds := NewDeltas(h, TablesAfter(h, chain, 2), Over(chain, 2, 3), ISIN);
    assert ds[..1] == ds && ds[..0] == [];
    assert !StaysCovered(0, ds) by { assert 0 + SumDeltas(ds[..1]) < 0; }
  }

  lemma RunWindowsOfOne(h: PartitionHash, t: Tables, window: Chain)
    ensures RunWindows(h, t, [window]) == Process(h, t, JoinAll(window))
    ensures Flatten([window]) == window
  {
    assert [window][..0] == [];
  }

  /** The chain itself is processed without error, and so are its first two blocks a second time; but after that the
      window over the third fails for want of supply, and so does one window over all three. */
  lemma BurnFailsAfterReplay(h: PartitionHash)
    requires Injective(h)
    ensures Blockwise(h, History3(h)).Success?
    ensures var t := TablesAfter(h, History3(h), 2);
            var again := Process(h, t, JoinAll(History3(h)[0..2]));
            && again.Success?
            && Process(h, again.value, JoinAll(History3(h)[2..3])).Failure?
            && Process(h, t, JoinAll(History3(h)[0..3])).Failure?
  {
    var chain := History3(h);
    Valid(h);
    ChainStaysInStep(h, chain, 3);
    assert chain[..3] == chain;
    NotMintedAfresh(h);
    StraddlingWindowExactly(h, chain, 0, 2, 3);
    RunWindowsOfOne(h, TablesAfter(h, chain, 2), chain[0..2]);
    WindowAfterCatchingUpExactly(h, chain, 0, 2, 3, [chain[0..2]]);
  }
}
