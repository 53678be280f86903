/**
 Processing committed windows again when they are not the newest ones: a loop that starts from an
 old checkpoint runs every window that another loop has committed since.
 */
module ReplayOfRange {
  import opened Prelude
  import opened BondLifecycle
  import opened Projection
  import opened ProjectionLens
  import opened WindowMerge
  import opened TokenLedger
  import opened WindowIndependence
  import opened Replay

  // ------------------------------------------------------------ stored windows

  /** The tables know every announcement, every posting and every history row of `b`. */
  ghost predicate Stored(h: PartitionHash, t: Tables, b: Batch) {
    && Announce(h, t.partitions, b) == t.partitions
    && (forall log <- b.token :: Posted(t.partitions, t.books, log))
    && (forall log <- b.manager :: RecordHistory(t.bondEvents, log) == t.bondEvents)
  }

  /** `r` and `t` are the same partitions, balances, balance rows and history. */
  predicate SameBooks(r: Tables, t: Tables) {
    r.(bonds := t.bonds) == t
  }

  /** Running `windows` on `t` succeeds and leaves partitions, balances, balance rows and history alone. */
  ghost predicate Replays(h: PartitionHash, t: Tables, windows: seq<Chain>) {
    RunWindows(h, t, windows).Success? && SameBooks(RunWindows(h, t, windows).value, t)
  }

  /** What a stored window does to one bond: its facts are reduced again, its supply deltas are not. */
  function Reread(h: PartitionHash, s: BondState, b: Batch, isin: Isin): BondState {
    Reduce(Reduce(s, ManagerEntriesOf(h, b.manager, isin)), TokenEntriesOf(b.token, isin))
  }

  predicate Names(h: PartitionHash, b: Batch, isin: Isin) {
    ManagerEntriesOf(h, b.manager, isin) != [] || TokenEntriesOf(b.token, isin) != []
  }

  lemma StoredWindow(h: PartitionHash, t: Tables, b: Batch)
    requires Stored(h, t, b)
    ensures var r := Process(h, t, b);
            && r.Success?
            && SameBooks(r.value, t)
            && forall isin ::
                 && BondOf(h, r.value.bonds, isin) == Reread(h, BondOf(h, t.bonds, isin), b, isin)
                 && (isin in r.value.bonds <==> isin in t.bonds || Names(h, b, isin))
  {
    ProcessAt(h, t, b);
    RepostLogs(t.partitions, t.books, b.token);
    RewriteHistory(t.bondEvents, b.manager);
    forall isin
      ensures BondPass(h, t, b, isin) == Success(Reread(h, BondOf(h, t.bonds, isin), b, isin))
      ensures Touches(h, t, b, isin) <==> Names(h, b, isin)
    {
      assert SupplyOf(t.partitions, t.books, b.token, isin) == [];
    }
  }

  /** The tables have every posting of `b`, mapped or not, and every history row. */
  ghost predicate Kept(t: Tables, b: Batch) {
    && (forall log <- b.token :: forall d <- DeltasOf(log) :: !Writes(t.books, d, log.id))
    && (forall log <- b.manager :: RecordHistory(t.bondEvents, log) == t.bondEvents)
  }

  /** The tables after `n` blocks hold everything the blocks before `n` posted and recorded. */
  ghost predicate BlocksKept(h: PartitionHash, chain: Chain, n: nat)
    requires n <= |chain|
  {
    forall j | 0 <= j < n :: Kept(TablesAfter(h, chain, n), chain[j])
  }

  /** Books and history only grow, so what is kept stays kept. */
  lemma KeptStays(t: Tables, t1: Tables, b: Batch)
    requires Kept(t, b)
    requires forall r <- t.books.events :: r in t1.books.events
    requires forall r <- t.bondEvents :: r in t1.bondEvents
    ensures Kept(t1, b)
  {
    forall log, d | log in b.token && d in DeltasOf(log) ensures !Writes(t1.books, d, log.id) {
      if d.holder != ZERO_ADDRESS {
        assert !Writes(t.books, d, log.id);
        RecordedStays(t.books.events, t1.books.events, log.id, d.holder);
      }
    }
    forall log | log in b.manager ensures RecordHistory(t1.bondEvents, log) == t1.bondEvents {
      if !log.body.AuctionInitialised? {
        assert RecordHistory(t.bondEvents, log) == t.bondEvents;
        var r :| r in t.bondEvents && r.id.SameLog(log.id);
        assert r in t1.bondEvents;
      }
    }
  }

  lemma BlocksAreKept(h: PartitionHash, chain: Chain, n: nat)
    requires ValidChain(h, chain) && n <= |chain|
    ensures BlocksKept(h, chain, n)
  {
    NoneIsKept(h, chain);
    for i := 0 to n
      invariant BlocksKept(h, chain, i)
    {
      NextIsKept(h, chain, i);
    }
  }

  lemma NoneIsKept(h: PartitionHash, chain: Chain)
    ensures BlocksKept(h, chain, 0)
  {
  }

  lemma NextIsKept(h: PartitionHash, chain: Chain, n: nat)
    requires ValidChain(h, chain) && n < |chain| && BlocksKept(h, chain, n)
    ensures BlocksKept(h, chain, n + 1)
  {
    var t, t1 := TablesAfter(h, chain, n), TablesAfter(h, chain, n + 1);
    ChainStaysInStep(h, chain, n);
    NextIsAdmissible(h, chain, n);
    AfterNext(h, chain, n);
    ProcessKeeps(h, t, chain[n]);
    forall j | 0 <= j < n + 1 ensures Kept(t1, chain[j]) {
      if j < n { KeptStays(t, t1, chain[j]); }
    }
  }

  /** A window whose transfers are all announced is kept, and forgets nothing. */
  lemma ProcessKeeps(h: PartitionHash, t: Tables, b: Batch)
    requires Process(h, t, b).Success? && Announced(Announce(h, t.partitions, b), b.token)
    ensures var t1 := Process(h, t, b).value;
            && Kept(t1, b)
            && (forall r <- t.books.events :: r in t1.books.events)
            && (forall r <- t.bondEvents :: r in t1.bondEvents)
  {
    var p := Announce(h, t.partitions, b);
    var t1 := Process(h, t, b).value;
    ProcessAt(h, t, b);
    PostLogsRecords(p, t.books, b.token);
    HistoryRecords(t.bondEvents, b.manager);
    forall log, d | log in b.token && d in DeltasOf(log) ensures !Writes(t1.books, d, log.id) {
      assert Posted(p, t1.books, log);
    }
  }

  lemma KeptTogether(t: Tables, blocks: Chain)
    requires forall i | 0 <= i < |blocks| :: Kept(t, blocks[i])
    ensures Kept(t, JoinAll(blocks))
  {
    JoinAllMembers(blocks);
    forall log, d | log in JoinAll(blocks).token && d in DeltasOf(log) ensures !Writes(t.books, d, log.id) {
      var i :| 0 <= i < |blocks| && log in blocks[i].token;
      assert Kept(t, blocks[i]);
    }
    forall log | log in JoinAll(blocks).manager ensures RecordHistory(t.bondEvents, log) == t.bondEvents {
      var i :| 0 <= i < |blocks| && log in blocks[i].manager;
      assert Kept(t, blocks[i]);
    }
  }

  lemma KnownAnnouncements(h: PartitionHash, p: map<Hash, Isin>, blocks: Chain)
    requires Injective(h) && WellMapped(h, p)
    requires forall isin, i | 0 <= i < |blocks| && Announces(blocks[i], isin) :: h(isin) in p
    ensures Announce(h, p, JoinAll(blocks)) == p
  {
    var u := JoinAll(blocks);
    AnnounceAt(h, p, u, "");
    forall isin ensures h(isin) in Announce(h, p, u) <==> h(isin) in p {
      AnnounceAt(h, p, u, isin);
      if Announces(u, isin) { AnnouncedByABlock(blocks, isin); }
    }
    MappedOnlyHashes(h, Announce(h, p, u), p);
  }

  lemma EarlierWindowIsKept(h: PartitionHash, chain: Chain, a: nat, b: nat, c: nat)
    requires ValidChain(h, chain) && a <= b <= c <= |chain|
    ensures Kept(TablesAfter(h, chain, c), JoinAll(chain[a..b]))
  {
    BlocksAreKept(h, chain, c);
    forall i | 0 <= i < b - a ensures Kept(TablesAfter(h, chain, c), chain[a..b][i]) {
      assert chain[a..b][i] == chain[a + i];
    }
    KeptTogether(TablesAfter(h, chain, c), chain[a..b]);
  }

  lemma EarlierAnnouncements(h: PartitionHash, chain: Chain, a: nat, b: nat, c: nat)
    requires ValidChain(h, chain) && a <= b <= c <= |chain|
    ensures Announce(h, TablesAfter(h, chain, c).partitions, JoinAll(chain[a..b]))
         == TablesAfter(h, chain, c).partitions
  {
    var p, blocks := TablesAfter(h, chain, c).partitions, chain[a..b];
    ChainStaysInStep(h, chain, c);
    forall isin, i | 0 <= i < |blocks| && Announces(blocks[i], isin) ensures h(isin) in p {
      assert Announces(chain[a + i], isin);
    }
    KnownAnnouncements(h, p, blocks);
  }

  lemma KeptIsStored(h: PartitionHash, t: Tables, u: Batch)
    requires Kept(t, u) && Announce(h, t.partitions, u) == t.partitions
    ensures Stored(h, t, u)
  {
  }

  /** Every window over blocks before `c` is stored in the tables after `c` blocks. */
  lemma EarlierWindowIsStored(h: PartitionHash, chain: Chain, a: nat, b: nat, c: nat)
    requires ValidChain(h, chain) && a <= b <= c <= |chain|
    ensures Stored(h, TablesAfter(h, chain, c), JoinAll(chain[a..b]))
  {
    EarlierWindowIsKept(h, chain, a, b, c);
    EarlierAnnouncements(h, chain, a, b, c);
    KeptIsStored(h, TablesAfter(h, chain, c), JoinAll(chain[a..b]));
  }

  lemma AnnouncedByABlock(blocks: Chain, isin: Isin)
    requires Announces(JoinAll(blocks), isin)
    ensures exists i | 0 <= i < |blocks| :: Announces(blocks[i], isin)
  {
    JoinAllMembers(blocks);
    var u := JoinAll(blocks);
    if log :| log in u.manager && (ResolvedIsin(log) == Some(isin) || LoopIsin(log) == Some(isin)) {
      var i :| 0 <= i < |blocks| && log in blocks[i].manager;
      assert Announces(blocks[i], isin);
    } else {
      var log :| log in u.token && TokenIsin(log) == Some(isin);
      var i :| 0 <= i < |blocks| && log in blocks[i].token;
      assert Announces(blocks[i], isin);
    }
  }

  // -------------------------------------------------- several windows, re-run

  lemma WindowSplits(chain: Chain, a: nat, n: nat, b: nat)
    requires a <= n <= b <= |chain|
    ensures JoinAll(chain[a..b]) == Join(JoinAll(chain[a..n]), JoinAll(chain[n..b]))
  {
    assert chain[a..b] == chain[a..n] + chain[n..b];
    JoinAllAppend(chain[a..n], chain[n..b]);
  }

  /** Adjacent batches of one bond are reduced again as the batch over both, when creations mask. */
  lemma RereadTwoBatches(s: BondState, mu: seq<Entry>, tu: seq<Entry>, mv: seq<Entry>, tv: seq<Entry>)
    requires ManagerEntries(mv) && TokenEntries(tu) && TokenEntries(tv)
    requires HasCreated(mv) ==> StaleFactsMasked(mv, tu, tv, []) && PrecedeCreation(tu, [], mv)
    ensures Reduce(Reduce(Reduce(Reduce(s, mu), tu), mv), tv) == Reduce(Reduce(s, mu + mv), tu + tv)
  {
    var none: seq<SupplyDelta> := [];
    assert none + none == none;
    if HasCreated(mv) {
      MergeWithCreation(s, mu, tu, [], mv, tv, []);
    } else {
      MergeWithoutCreation(s, mu, tu, [], mv, tv, []);
    }
  }

  lemma AdjacentEntries(h: PartitionHash, chain: Chain, a: nat, n: nat, b: nat, isin: Isin)
    requires ValidChain(h, chain) && CreationsMask(h, chain) && a <= n <= b <= |chain|
    ensures var u, v := JoinAll(chain[a..n]), JoinAll(chain[n..b]);
            var mv := ManagerEntriesOf(h, v.manager, isin);
            var tu, tv := TokenEntriesOf(u.token, isin), TokenEntriesOf(v.token, isin);
            && ManagerEntries(mv) && TokenEntries(tu) && TokenEntries(tv)
            && (HasCreated(mv) ==> StaleFactsMasked(mv, tu, tv, []) && PrecedeCreation(tu, [], mv))
  {
    var u, v := JoinAll(chain[a..n]), JoinAll(chain[n..b]);
    ManagerPassAt(h, map[], v.manager, isin);
    TokenPassAt(h, map[], u.token, isin);
    TokenPassAt(h, map[], v.token, isin);
    AdjacentWindowsMask(h, chain, a, n, b, isin);
    EarlierPositions(h, map[], Books(map[], []), u, v, isin);
  }

  /** Bond by bond, the facts of two adjacent windows are reduced again as those of the window over both. */
  lemma RereadTwoWindows(h: PartitionHash, chain: Chain, a: nat, n: nat, b: nat, s: BondState, isin: Isin)
    requires ValidChain(h, chain) && CreationsMask(h, chain) && a <= n <= b <= |chain|
    ensures Reread(h, Reread(h, s, JoinAll(chain[a..n]), isin), JoinAll(chain[n..b]), isin)
         == Reread(h, s, JoinAll(chain[a..b]), isin)
  {
    var u, v := JoinAll(chain[a..n]), JoinAll(chain[n..b]);
    AdjacentEntries(h, chain, a, n, b, isin);
    WindowSplits(chain, a, n, b);
    ManagerEntriesAppend(h, u.manager, v.manager, isin);
    TokenEntriesAppend(u.token, v.token, isin);
    RereadTwoBatches(s, ManagerEntriesOf(h, u.manager, isin), TokenEntriesOf(u.token, isin),
                     ManagerEntriesOf(h, v.manager, isin), TokenEntriesOf(v.token, isin));
  }

  lemma AdjacentWindowsMask(h: PartitionHash, chain: Chain, a: nat, n: nat, b: nat, isin: Isin)
    requires ValidChain(h, chain) && CreationsMask(h, chain) && a <= n <= b <= |chain|
    ensures Mergeable(h, TablesAfter(h, chain, a), JoinAll(chain[a..n]), JoinAll(chain[n..b]), isin)
    ensures BlocksBefore(JoinAll(chain[a..n]), JoinAll(chain[n..b]))
  {
    OneWindowAgrees(h, chain, a, n);
    OneWindowAgrees(h, chain, n, b);
    OneWindowAgrees(h, chain, a, b);
    ChainStaysInStep(h, chain, a);
    BlocksInOrder(chain, a, n, b);
    NoneAnnouncedLate(h, chain, a, n, JoinAll(chain[n..b]));
    WindowSplits(chain, a, n, b);
    MergeWhenAnnounced(h, TablesAfter(h, chain, a), JoinAll(chain[a..n]), JoinAll(chain[n..b]));
  }

  lemma NamesAppend(h: PartitionHash, u: Batch, v: Batch, isin: Isin)
    ensures Names(h, Join(u, v), isin) <==> Names(h, u, isin) || Names(h, v, isin)
  {
    ManagerEntriesAppend(h, u.manager, v.manager, isin);
    TokenEntriesAppend(u.token, v.token, isin);
  }

  /** Running the windows over blocks `a..b` again, however they are cut, is running the one window over
      all of them again: window independence holds for re-runs too. */
  lemma {:induction false} RerunIsOneWindow(h: PartitionHash, chain: Chain, a: nat, b: nat, c: nat, windows: seq<Chain>)
    requires ValidChain(h, chain) && CreationsMask(h, chain)
    requires a <= b <= c <= |chain| && Flatten(windows) == chain[a..b]
    ensures RunWindows(h, TablesAfter(h, chain, c), windows)
         == Process(h, TablesAfter(h, chain, c), JoinAll(chain[a..b]))
    ensures Replays(h, TablesAfter(h, chain, c), windows)
  {
    var t := TablesAfter(h, chain, c);
    if windows == [] {
      NothingProcessed(h, t);
    } else {
      var init, last := windows[..|windows|-1], windows[|windows|-1];
      var n := a + |Flatten(init)|;
      assert chain[a..b][..n-a] == chain[a..n] && chain[a..b][n-a..] == chain[n..b];
      assert Flatten(init) == chain[a..n] && last == chain[n..b];
      RerunIsOneWindow(h, chain, a, n, c, init);
      RerunNext(h, chain, a, n, b, c, RunWindows(h, t, init).value);
    }
  }

  lemma RerunNext(h: PartitionHash, chain: Chain, a: nat, n: nat, b: nat, c: nat, r: Tables)
    requires ValidChain(h, chain) && CreationsMask(h, chain) && a <= n <= b <= c <= |chain|
    requires Process(h, TablesAfter(h, chain, c), JoinAll(chain[a..n])) == Success(r)
    ensures Process(h, r, JoinAll(chain[n..b])) == Process(h, TablesAfter(h, chain, c), JoinAll(chain[a..b]))
    ensures Process(h, r, JoinAll(chain[n..b])).Success?
    ensures SameBooks(Process(h, r, JoinAll(chain[n..b])).value, TablesAfter(h, chain, c))
  {
    var t, u, v := TablesAfter(h, chain, c), JoinAll(chain[a..n]), JoinAll(chain[n..b]);
    EarlierWindowIsStored(h, chain, a, n, c);
    EarlierWindowIsStored(h, chain, n, b, c);
    EarlierWindowIsStored(h, chain, a, b, c);
    StoredWindow(h, t, u);
    StoredWindow(h, t, JoinAll(chain[a..b]));
    assert Stored(h, r, v);
    StoredWindow(h, r, v);
    WindowSplits(chain, a, n, b);
    var one, other := Process(h, t, JoinAll(chain[a..b])).value, Process(h, r, v).value;
    forall isin
      ensures isin in one.bonds <==> isin in other.bonds
      ensures BondOf(h, one.bonds, isin) == BondOf(h, other.bonds, isin)
    {
      NamesAppend(h, u, v, isin);
      RereadTwoWindows(h, chain, a, n, b, BondOf(h, t.bonds, isin), isin);
    }
    SameBonds(h, one.bonds, other.bonds);
  }

  lemma SameBonds(h: PartitionHash, one: map<Isin, BondState>, other: map<Isin, BondState>)
    requires forall isin :: isin in one <==> isin in other
    requires forall isin :: BondOf(h, one, isin) == BondOf(h, other, isin)
    ensures one == other
  {
    forall isin | isin in one ensures one[isin] == other[isin] {
      assert BondOf(h, one, isin) == BondOf(h, other, isin);
    }
  }

  // ------------------------------------------- everything since an old checkpoint

  /** A loop that starts from the old checkpoint `a` when `c` blocks are committed: every window it
      runs, however it cuts the blocks `a..c`, succeeds and leaves partitions, balances, balance rows
      and history alone, and when it has caught up every bond is back where it was, except that the
      supply of each bond created in `a..c` is zero. */
  lemma ReplayOfCommittedBlocks(h: PartitionHash, chain: Chain, a: nat, c: nat, windows: seq<Chain>)
    requires ValidChain(h, chain) && CreationsMask(h, chain)
    requires a <= c <= |chain| && Flatten(windows) == chain[a..c]
    ensures var t := TablesAfter(h, chain, c);
            && (forall k | 0 <= k <= |windows| :: Replays(h, t, windows[..k]))
            && var again := RunWindows(h, t, windows);
               && again.Success?
               && again.value.bonds.Keys == t.bonds.Keys
               && forall isin ::
                    if HasCreated(ManagerEntriesOf(h, JoinAll(chain[a..c]).manager, isin))
                    then SameFacts(BondOf(h, again.value.bonds, isin), BondOf(h, t.bonds, isin).(totalSupply := 0))
                    else BondOf(h, again.value.bonds, isin) == BondOf(h, t.bonds, isin)
  {
    EveryWindowSucceeds(h, chain, a, c, windows);
    RerunIsOneWindow(h, chain, a, c, c, windows);
    RangeReplayed(h, chain, a, c);
  }

  lemma EveryWindowSucceeds(h: PartitionHash, chain: Chain, a: nat, c: nat, windows: seq<Chain>)
    requires ValidChain(h, chain) && CreationsMask(h, chain)
    requires a <= c <= |chain| && Flatten(windows) == chain[a..c]
    ensures forall k | 0 <= k <= |windows| :: Replays(h, TablesAfter(h, chain, c), windows[..k])
  {
    forall k | 0 <= k <= |windows| ensures Replays(h, TablesAfter(h, chain, c), windows[..k]) {
      FirstWindowsReplay(h, chain, a, c, windows, k);
    }
  }

  lemma FirstWindowsReplay(h: PartitionHash, chain: Chain, a: nat, c: nat, windows: seq<Chain>, k: nat)
    requires ValidChain(h, chain) && CreationsMask(h, chain)
    requires a <= c <= |chain| && Flatten(windows) == chain[a..c] && k <= |windows|
    ensures Replays(h, TablesAfter(h, chain, c), windows[..k])
  {
    var b := FirstBlocks(chain, a, c, windows, k);
    RerunIsOneWindow(h, chain, a, b, c, windows[..k]);
  }

  /** The first windows of a range make up its first blocks. */
  lemma FirstBlocks(chain: Chain, a: nat, c: nat, windows: seq<Chain>, k: nat) returns (b: nat)
    requires a <= c <= |chain| && Flatten(windows) == chain[a..c] && k <= |windows|
    ensures a <= b <= c && Flatten(windows[..k]) == chain[a..b]
  {
    FlattenPrefix(windows, k);
    b := a + |Flatten(windows[..k])|;
    assert chain[a..c][..b-a] == chain[a..b];
  }

  /** The one window over `a..c`, run again right after it. */
  lemma RangeReplayed(h: PartitionHash, chain: Chain, a: nat, c: nat)
    requires ValidChain(h, chain) && CreationsMask(h, chain) && a <= c <= |chain|
    ensures var t := TablesAfter(h, chain, c);
            var again := Process(h, t, JoinAll(chain[a..c]));
            && again.Success?
            && again.value.bonds.Keys == t.bonds.Keys
            && forall isin ::
                 if HasCreated(ManagerEntriesOf(h, JoinAll(chain[a..c]).manager, isin))
                 then SameFacts(BondOf(h, again.value.bonds, isin), BondOf(h, t.bonds, isin).(totalSupply := 0))
                 else BondOf(h, again.value.bonds, isin) == BondOf(h, t.bonds, isin)
  {
    OneWindowAgrees(h, chain, a, c);
    ChainStaysInStep(h, chain, a);
    ReplayOfWindow(h, TablesAfter(h, chain, a), JoinAll(chain[a..c]));
  }

  lemma {:induction false} FlattenPrefix(windows: seq<Chain>, k: nat)
    requires k <= |windows|
    ensures Flatten(windows[..k]) <= Flatten(windows)
  {
    if k == |windows| {
      assert windows[..k] == windows;
    } else {
      FlattenPrefix(windows[..|windows|-1], k);
      assert windows[..|windows|-1][..k] == windows[..k];
    }
  }

  /** Catching up from an old checkpoint changes no fact of any bond exactly when every bond created
      since that checkpoint has no supply. */
  lemma ReplayOfCommittedBlocksIsHarmless(h: PartitionHash, chain: Chain, a: nat, c: nat, windows: seq<Chain>)
    requires ValidChain(h, chain) && CreationsMask(h, chain)
    requires a <= c <= |chain| && Flatten(windows) == chain[a..c]
    ensures var t := TablesAfter(h, chain, c);
            var again := RunWindows(h, t, windows);
            && again.Success?
            && ((forall isin :: SameFacts(BondOf(h, again.value.bonds, isin), BondOf(h, t.bonds, isin)))
                <==>
                forall isin | HasCreated(ManagerEntriesOf(h, JoinAll(chain[a..c]).manager, isin)) ::
                  BondOf(h, t.bonds, isin).totalSupply == 0)
  {
    var t := TablesAfter(h, chain, c);
    ReplayOfCommittedBlocks(h, chain, a, c, windows);
    var again := RunWindows(h, t, windows).value;
    forall isin
      ensures SameFacts(BondOf(h, again.bonds, isin), BondOf(h, t.bonds, isin))
         <==> (HasCreated(ManagerEntriesOf(h, JoinAll(chain[a..c]).manager, isin)) ==>
                 BondOf(h, t.bonds, isin).totalSupply == 0)
    {
      if HasCreated(ManagerEntriesOf(h, JoinAll(chain[a..c]).manager, isin)) {
        assert SameFacts(BondOf(h, again.bonds, isin), BondOf(h, t.bonds, isin).(totalSupply := 0));
      }
    }
  }

  // ------------------------------------------------------- one older window

  /** The token facts `ts` say nothing that `s` does not show. */
  predicate Shown(s: BondState, ts: seq<Entry>) {
    && (HasDisabled(ts) ==> s.life.disabled)
    && LastOffering(ts) in {None, Some(s.life.offering)}
    && (LastEnabled(ts).Some? ==> EnableShown(s.life, LastEnabled(ts).value))
    && (forall e <- ts :: !After(e.at, s.updated))
  }

  predicate EnableShown(l: Life, f: BondFact)
    requires f.Enabled?
  {
    && l.couponDuration == Some(f.couponDuration) && l.couponYield == Some(f.couponYield)
    && l.maturityDate == Some(f.timestamp + if l.maturityDuration.Some? then l.maturityDuration.value else 0)
    && (l.couponPaymentCount == 0 ==> l.lastCouponPayment == Some(f.timestamp))
  }

  function LastCreation(ms: seq<Entry>): (c: Entry)
    requires HasCreated(ms)
    ensures c.fact.Created?
  {
    var last := ms[|ms|-1];
    if last.fact.Created? then last
    else
      assert ms == ms[..|ms|-1] + [last];
      LastCreation(ms[..|ms|-1])
  }

  function AfterCreation(ms: seq<Entry>): (es: seq<Entry>)
    requires HasCreated(ms)
    ensures !HasCreated(es)
  {
    var last := ms[|ms|-1];
    if last.fact.Created? then []
    else
      assert ms == ms[..|ms|-1] + [last];
      AfterCreation(ms[..|ms|-1]) + [last]
  }

  /** Column by column: the row is that of a bond created by `c` with the facts `es` since, and no supply. */
  ghost predicate CreatedRow(s: BondState, c: Entry, es: seq<Entry>)
    requires c.fact.Created?
  {
    && LifeRecorded(s.life, c.fact, es) && PaymentsRecorded(s.life, es)
    && s.totalSupply == 0 && s.updated == Latest(c.at, es)
  }

  /** The row has everything that the facts `ms` and `ts` say: either they create the bond, and the row records
      the creation and what they say after it and no more, or every one of them is already shown by the row. */
  ghost predicate Idle(s: BondState, ms: seq<Entry>, ts: seq<Entry>) {
    if HasCreated(ms) then CreatedRow(s, LastCreation(ms), AfterCreation(ms) + ts)
    else (forall e <- ms :: Settled(s, e)) && Shown(s, ts)
  }

  lemma {:induction false} ReduceFromCreation(s: BondState, ms: seq<Entry>)
    requires HasCreated(ms)
    ensures Reduce(s, ms) == Reduce(ApplyFact(s, LastCreation(ms)), AfterCreation(ms))
  {
    var init, last := ms[..|ms|-1], ms[|ms|-1];
    assert ms == init + [last];
    IsinKept(s, init);
    if !last.fact.Created? {
      ReduceFromCreation(s, init);
      assert AfterCreation(ms)[..|AfterCreation(init)|] == AfterCreation(init);
    }
  }

  lemma {:induction false} ReduceUpdates(s: BondState, es: seq<Entry>)
    requires !HasCreated(es)
    ensures Reduce(s, es).updated == Latest(s.updated, es)
  {
    if es != [] {
      assert es == es[..|es|-1] + [es[|es|-1]];
      ReduceUpdates(s, es[..|es|-1]);
    }
  }

  /** The payment columns are determined by what they record. */
  lemma PaymentsDetermined(l: Life, k: Life, es: seq<Entry>)
    requires PaymentsRecorded(l, es) && PaymentsRecorded(k, es)
    ensures l.couponPaymentCount == k.couponPaymentCount && l.lastCouponPayment == k.lastCouponPayment
  {
    if l.couponPaymentCount > 0 && k.couponPaymentCount > 0 {
      var n, m := l.couponPaymentCount, k.couponPaymentCount;
      var at, to := l.lastCouponPayment.value, k.lastCouponPayment.value;
      var i :| PaysAt(es, i, n, at) && forall j, t | j < i :: !PaysAt(es, j, n, t);
      var j :| PaysAt(es, j, m, to) && forall i, t | i < j :: !PaysAt(es, i, m, t);
      assert n == m && i == j;
    }
  }

  lemma CreatedRowDetermined(s: BondState, r: BondState, c: Entry, es: seq<Entry>)
    requires c.fact.Created? && CreatedRow(s, c, es) && CreatedRow(r, c, es) && s.isin == r.isin
    ensures s == r
  {
    PaymentsDetermined(s.life, r.life, es);
    assert s.life == r.life;
  }

  lemma CreatedRowReached(s: BondState, ms: seq<Entry>, ts: seq<Entry>)
    requires HasCreated(ms) && TokenEntries(ts)
    ensures CreatedRow(Reduce(Reduce(s, ms), ts), LastCreation(ms), AfterCreation(ms) + ts)
    ensures Reduce(Reduce(s, ms), ts).isin == s.isin
  {
    var c, es := LastCreation(ms), AfterCreation(ms) + ts;
    var created := ApplyFact(s, c);
    ReduceFromCreation(s, ms);
    ReduceAppend(created, AfterCreation(ms), ts);
    TokenEntriesCreateNothing(ts);
    assert !HasCreated(es);
    LifeOfFacts(s, c, es);
    SupplyCommutesWithFacts(created, es, []);
    ReduceUpdates(created, es);
    IsinKept(created, es);
  }

  /** `r` is `s` or further: flags set, payments counted, position moved forward. */
  predicate Further(s: BondState, r: BondState) {
    && (s.life.disabled ==> r.life.disabled)
    && (s.life.everIssued ==> r.life.everIssued)
    && (s.life.isMatured ==> r.life.isMatured)
    && s.life.couponPaymentCount <= r.life.couponPaymentCount
    && !After(s.updated, r.updated)
  }

  lemma {:induction false} FactsGoFurther(s: BondState, es: seq<Entry>)
    requires !HasCreated(es)
    ensures Further(s, Reduce(s, es))
    ensures forall e <- es | FromManager(e.fact) :: Settled(Reduce(s, es), e)
    ensures forall e <- es :: !After(e.at, Reduce(s, es).updated)
  {
    if es != [] {
      var init, last := es[..|es|-1], es[|es|-1];
      assert es == init + [last];
      FactsGoFurther(s, init);
      forall e | e in es && FromManager(e.fact) ensures Settled(Reduce(s, es), e) {
        if e in init { SettledStays(Reduce(s, init), e, last); }
      }
    }
  }

  lemma SettledBehind(s: BondState, r: BondState, e: Entry)
    requires Settled(r, e) && Further(r, s)
    ensures Settled(s, e)
  {
  }

  lemma {:induction false} LatestCovered(p: Position, es: seq<Entry>)
    ensures Latest(p, es) == p <==> forall e <- es :: !After(e.at, p)
  {
    if es != [] {
      var init, last := es[..|es|-1], es[|es|-1];
      assert es == init + [last];
      LatestCovered(p, init);
      LatestIsLater(p, init);
    }
  }

  lemma OverlayIsIdle(s: BondState, ts: seq<Entry>)
    ensures Overlay(s, ts) == s <==> Shown(s, ts)
  {
    LatestCovered(s.updated, ts);
  }

  /** Reducing facts again changes nothing exactly when the row has everything they say, column by column. */
  lemma RereadIsIdleExactly(s: BondState, ms: seq<Entry>, ts: seq<Entry>)
    requires ManagerEntries(ms) && TokenEntries(ts)
    ensures Reduce(Reduce(s, ms), ts) == s <==> Idle(s, ms, ts)
  {
    var m := Reduce(s, ms);
    if HasCreated(ms) {
      CreatedRowReached(s, ms, ts);
      if Idle(s, ms, ts) {
        CreatedRowDetermined(s, Reduce(m, ts), LastCreation(ms), AfterCreation(ms) + ts);
      }
    } else {
      TokenPassOverlays(m, ts);
      OverlayIsIdle(s, ts);
      if Reduce(m, ts) == s {
        FactsGoFurther(s, ms);
        FactsGoFurther(m, ts);
        forall e | e in ms ensures Settled(s, e) { SettledBehind(s, m, e); }
        SettledPassIsIdle(s, ms);
      } else if forall e <- ms :: Settled(s, e) {
        SettledPassIsIdle(s, ms);
      }
    }
  }

  predicate LeftAlone(h: PartitionHash, r: Tables, t: Tables, isin: Isin) {
    BondOf(h, r.bonds, isin) == BondOf(h, t.bonds, isin)
  }

  /** The row of `isin` in `t` has everything that the window `u` says of it. */
  ghost predicate SaysNothingNew(h: PartitionHash, t: Tables, u: Batch, isin: Isin) {
    Idle(BondOf(h, t.bonds, isin), ManagerEntriesOf(h, u.manager, isin), TokenEntriesOf(u.token, isin))
  }

  /** A bond is untouched by a re-run of the stored window `u` exactly when its row has everything
      that `u` says of it. */
  lemma StoredWindowIsIdleExactly(h: PartitionHash, t: Tables, u: Batch, isin: Isin)
    requires Stored(h, t, u)
    ensures Process(h, t, u).Success?
    ensures LeftAlone(h, Process(h, t, u).value, t, isin) <==> SaysNothingNew(h, t, u, isin)
  {
    StoredWindow(h, t, u);
    ManagerPassAt(h, t.bonds, u.manager, isin);
    TokenPassAt(h, t.bonds, u.token, isin);
    RereadIsIdleExactly(BondOf(h, t.bonds, isin), ManagerEntriesOf(h, u.manager, isin), TokenEntriesOf(u.token, isin));
  }

  /** The same for any window or sequence of windows over earlier blocks `a..b` of a chain of which `c`
      blocks are committed: it succeeds, touches nothing but bonds, and leaves a bond alone exactly
      when the bond's row has everything those blocks say. */
  lemma EarlierBlocksAreIdleExactly(
    h: PartitionHash, chain: Chain, a: nat, b: nat, c: nat, windows: seq<Chain>, isin: Isin)
    requires ValidChain(h, chain) && CreationsMask(h, chain)
    requires a <= b <= c <= |chain| && Flatten(windows) == chain[a..b]
    ensures var t := TablesAfter(h, chain, c);
            var again := RunWindows(h, t, windows);
            && again.Success? && SameBooks(again.value, t)
            && (LeftAlone(h, again.value, t, isin) <==> SaysNothingNew(h, t, JoinAll(chain[a..b]), isin))
  {
    RerunIsOneWindow(h, chain, a, b, c, windows);
    EarlierWindowIsStored(h, chain, a, b, c);
    StoredWindowIsIdleExactly(h, TablesAfter(h, chain, c), JoinAll(chain[a..b]), isin);
  }
}
