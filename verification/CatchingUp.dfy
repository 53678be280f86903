/**
 A loop that starts from an old checkpoint and runs on: it knows nothing of the block up to which windows are
 committed, so its windows reach beyond that block, and there the supply that a re-run takes away is missed.
 */
module CatchingUp {
  import opened Prelude
  import opened BondLifecycle
  import opened Projection
  import opened ProjectionLens
  import opened WindowMerge
  import opened WindowIndependence
  import opened Replay
  import opened ReplayOfRange

  // ---------------------------------------------------------- one bond, short of supply

  lemma {:induction false} SameLife(s: BondState, r: BondState, es: seq<Entry>)
    requires r.life == s.life && r.isin == s.isin
    ensures Reduce(r, es).life == Reduce(s, es).life && Reduce(r, es).isin == Reduce(s, es).isin
  {
    if es != [] {
      SameLife(s, r, es[..|es|-1]);
    }
  }

  /** A row that differs in supply and update position alone: a creation makes up for it; without one the batch
      succeeds exactly if the row's own supply covers the deltas, and the difference stays. */
  lemma PassOnShortRow(s: BondState, r: BondState, ms: seq<Entry>, ts: seq<Entry>, ds: seq<SupplyDelta>)
    requires ManagerEntries(ms) && TokenEntries(ts) && Pass(s, ms, ts, ds).Success?
    requires r.life == s.life && r.isin == s.isin
    ensures HasCreated(ms) ==> Pass(r, ms, ts, ds) == Pass(s, ms, ts, ds)
    ensures !HasCreated(ms) ==> (Pass(r, ms, ts, ds).Success? <==> StaysCovered(r.totalSupply, ds))
    ensures !HasCreated(ms) && Pass(r, ms, ts, ds).Success? ==>
              var after := Pass(s, ms, ts, ds).value;
              SameFacts(Pass(r, ms, ts, ds).value,
                        after.(totalSupply := after.totalSupply + r.totalSupply - s.totalSupply))
  {
    if HasCreated(ms) {
      CreatedForgets(s, r, ms);
    } else {
      TokenEntriesCreateNothing(ts);
      SameLife(s, r, ms);
      SameLife(Reduce(s, ms), Reduce(r, ms), ts);
      SupplyCommutesWithFacts(s, ms, []);
      SupplyCommutesWithFacts(r, ms, []);
      SupplyCommutesWithFacts(Reduce(s, ms), ts, []);
      SupplyCommutesWithFacts(Reduce(r, ms), ts, []);
      SupplyPassSums(Reduce(Reduce(s, ms), ts), ds);
      SupplyPassSums(Reduce(Reduce(r, ms), ts), ds);
    }
  }

  // --------------------------------------------------------- one window on such tables

  predicate SameRow(s: BondState, r: BondState) {
    r.life == s.life && r.isin == s.isin
  }

  /** `r` is `t` but for the supply and the update position of bonds. */
  ghost predicate SameButSupply(h: PartitionHash, r: Tables, t: Tables) {
    && SameBooks(r, t) && r.bonds.Keys == t.bonds.Keys
    && forall isin :: SameRow(BondOf(h, t.bonds, isin), BondOf(h, r.bonds, isin))
  }

  /** The supply deltas of bond `isin` that window `v` writes on `t`. */
  function NewDeltas(h: PartitionHash, t: Tables, v: Batch, isin: Isin): seq<SupplyDelta> {
    SupplyOf(Announce(h, t.partitions, v), t.books, v.token, isin)
  }

  function SupplyIn(h: PartitionHash, t: Tables, isin: Isin): int {
    BondOf(h, t.bonds, isin).totalSupply
  }

  predicate Creates(h: PartitionHash, v: Batch, isin: Isin) {
    HasCreated(ManagerEntriesOf(h, v.manager, isin))
  }

  /** The row of `isin` in `r` is that in `t`, but for a supply that is `missing` lower. */
  predicate ShortBy(h: PartitionHash, r: Tables, t: Tables, isin: Isin, missing: int) {
    SameFacts(BondOf(h, r.bonds, isin),
              BondOf(h, t.bonds, isin).(totalSupply := SupplyIn(h, t, isin) - missing))
  }

  lemma BondOnShortTables(h: PartitionHash, t: Tables, r: Tables, v: Batch, isin: Isin)
    requires SameButSupply(h, r, t) && BondPass(h, t, v, isin).Success?
    ensures Creates(h, v, isin) || BondOf(h, r.bonds, isin) == BondOf(h, t.bonds, isin) ==>
              BondPass(h, r, v, isin) == BondPass(h, t, v, isin)
    ensures !Creates(h, v, isin) ==>
              (BondPass(h, r, v, isin).Success? <==> StaysCovered(SupplyIn(h, r, isin), NewDeltas(h, t, v, isin)))
    ensures !Creates(h, v, isin) && BondPass(h, r, v, isin).Success? ==>
              var after := BondPass(h, t, v, isin).value;
              SameFacts(BondPass(h, r, v, isin).value,
                        after.(totalSupply := after.totalSupply + SupplyIn(h, r, isin) - SupplyIn(h, t, isin)))
  {
    assert SameRow(BondOf(h, t.bonds, isin), BondOf(h, r.bonds, isin));
    ManagerPassAt(h, t.bonds, v.manager, isin);
    TokenPassAt(h, t.bonds, v.token, isin);
    PassOnShortRow(BondOf(h, t.bonds, isin), BondOf(h, r.bonds, isin), ManagerEntriesOf(h, v.manager, isin),
                   TokenEntriesOf(v.token, isin), NewDeltas(h, t, v, isin));
  }

  /** Nothing that window `v` takes from a bond it does not create exceeds the supply of `r`. */
  ghost predicate Covers(h: PartitionHash, r: Tables, t: Tables, v: Batch) {
    forall isin | !Creates(h, v, isin) :: StaysCovered(SupplyIn(h, r, isin), NewDeltas(h, t, v, isin))
  }

  ghost predicate Follows(h: PartitionHash, t: Tables, r: Tables, t1: Tables, r1: Tables, v: Batch, isin: Isin) {
    if Creates(h, v, isin) || BondOf(h, r.bonds, isin) == BondOf(h, t.bonds, isin)
    then BondOf(h, r1.bonds, isin) == BondOf(h, t1.bonds, isin)
    else ShortBy(h, r1, t1, isin, SupplyIn(h, t, isin) - SupplyIn(h, r, isin))
  }

  lemma WindowOnShortTables(h: PartitionHash, t: Tables, r: Tables, v: Batch)
    requires SameButSupply(h, r, t) && Process(h, t, v).Success?
    ensures Process(h, r, v).Success? <==> Covers(h, r, t, v)
    ensures Process(h, r, v).Success? ==>
              var t1, r1 := Process(h, t, v).value, Process(h, r, v).value;
              && SameBooks(r1, t1) && r1.bonds.Keys == t1.bonds.Keys
              && forall isin :: Follows(h, t, r, t1, r1, v, isin)
  {
    ProcessAt(h, t, v);
    ProcessAt(h, r, v);
    forall isin
      ensures !Creates(h, v, isin) ==>
                (BondPass(h, r, v, isin).Success? <==> StaysCovered(SupplyIn(h, r, isin), NewDeltas(h, t, v, isin)))
      ensures Creates(h, v, isin) ==> BondPass(h, r, v, isin).Success?
    {
      BondOnShortTables(h, t, r, v, isin);
    }
    if Process(h, r, v).Success? {
      var t1, r1 := Process(h, t, v).value, Process(h, r, v).value;
      forall isin
        ensures Follows(h, t, r, t1, r1, v, isin)
        ensures isin in r1.bonds <==> isin in t1.bonds
      {
        BondOnShortTables(h, t, r, v, isin);
        assert BondPass(h, r, v, isin) == Success(BondOf(h, r1.bonds, isin));
        assert BondPass(h, t, v, isin) == Success(BondOf(h, t1.bonds, isin));
        assert Touches(h, r, v, isin) <==> Touches(h, t, v, isin);
      }
    }
  }

  // ------------------------------------------- a window over stored and new blocks

  /** No posting of `logs` writes anything, mapped or not. */
  ghost predicate AllPosted(books: Books, logs: seq<TokenLog>) {
    forall log <- logs :: forall d <- DeltasOf(log) :: !Writes(books, d, log.id)
  }

  /** Bond by bond nothing stands against running the stored window `u` and the window `v` as one. */
  ghost predicate MergesAt(h: PartitionHash, u: Batch, v: Batch, isin: Isin) {
    var mv, tu := ManagerEntriesOf(h, v.manager, isin), TokenEntriesOf(u.token, isin);
    HasCreated(mv) ==>
      StaleFactsMasked(mv, tu, TokenEntriesOf(v.token, isin), []) && PrecedeCreation(tu, [], mv)
  }

  lemma StoredThenNewDeltas(h: PartitionHash, r: Tables, u: Batch, v: Batch, isin: Isin)
    requires Injective(h) && WellMapped(h, r.partitions)
    requires Stored(h, r, u) && AllPosted(r.books, u.token)
    ensures NewDeltas(h, r, Join(u, v), isin) == NewDeltas(h, r, v, isin)
    ensures Announce(h, r.partitions, Join(u, v)) == Announce(h, r.partitions, v)
    ensures PostLogs(Announce(h, r.partitions, v), r.books, u.token + v.token)
         == PostLogs(Announce(h, r.partitions, v), r.books, v.token)
    ensures History(r.bondEvents, u.manager + v.manager) == History(r.bondEvents, v.manager)
  {
    var q := Announce(h, r.partitions, v);
    AnnounceJoin(h, r.partitions, u, v);
    RepostLogs(q, r.books, u.token);
    PostLogsAppend(q, r.books, u.token, v.token);
    RewriteHistory(r.bondEvents, u.manager);
    HistoryAppend(r.bondEvents, u.manager, v.manager);
  }

  lemma BondOfBoth(h: PartitionHash, r: Tables, r2: Tables, u: Batch, v: Batch, isin: Isin)
    requires Injective(h) && WellMapped(h, r.partitions)
    requires Stored(h, r, u) && AllPosted(r.books, u.token) && Process(h, r, u) == Success(r2)
    requires MergesAt(h, u, v, isin) && (Creates(h, v, isin) ==> BondPass(h, r2, v, isin).Success?)
    ensures BondPass(h, r, Join(u, v), isin) == BondPass(h, r2, v, isin)
    ensures Touches(h, r, Join(u, v), isin) || isin in r.bonds <==> Touches(h, r2, v, isin) || isin in r2.bonds
  {
    StoredWindow(h, r, u);
    StoredThenNewDeltas(h, r, u, v, isin);
    ManagerEntriesAppend(h, u.manager, v.manager, isin);
    TokenEntriesAppend(u.token, v.token, isin);
    ManagerPassAt(h, map[], v.manager, isin);
    TokenPassAt(h, map[], u.token, isin);
    TokenPassAt(h, map[], v.token, isin);
    PassOverBoth(BondOf(h, r.bonds, isin), ManagerEntriesOf(h, u.manager, isin), TokenEntriesOf(u.token, isin),
                 ManagerEntriesOf(h, v.manager, isin), TokenEntriesOf(v.token, isin), NewDeltas(h, r, v, isin));
  }

  lemma PassOverBoth(
    s: BondState, mu: seq<Entry>, tu: seq<Entry>, mv: seq<Entry>, tv: seq<Entry>, dv: seq<SupplyDelta>)
    requires ManagerEntries(mv) && TokenEntries(tu) && TokenEntries(tv)
    requires HasCreated(mv) ==> StaleFactsMasked(mv, tu, tv, []) && PrecedeCreation(tu, [], mv)
    requires HasCreated(mv) ==> Pass(Reduce(Reduce(s, mu), tu), mv, tv, dv).Success?
    ensures Pass(s, mu + mv, tu + tv, dv) == Pass(Reduce(Reduce(s, mu), tu), mv, tv, dv)
  {
    var none: seq<SupplyDelta> := [];
    assert none + dv == dv;
    if HasCreated(mv) {
      MergeWithCreation(s, mu, tu, none, mv, tv, dv);
    } else {
      MergeWithoutCreation(s, mu, tu, none, mv, tv, dv);
    }
  }

  /** Both succeed with the same tables, or both fail. */
  predicate SameOutcome(one: Result<Tables, string>, other: Result<Tables, string>) {
    one.Success? == other.Success? && (one.Success? ==> one == other)
  }

  /** One window over stored blocks and new ones comes to what the two windows come to. */
  lemma WindowOverBoth(h: PartitionHash, r: Tables, r2: Tables, u: Batch, v: Batch)
    requires Injective(h) && WellMapped(h, r.partitions)
    requires Stored(h, r, u) && AllPosted(r.books, u.token) && Process(h, r, u) == Success(r2)
    requires forall isin :: MergesAt(h, u, v, isin) && (Creates(h, v, isin) ==> BondPass(h, r2, v, isin).Success?)
    ensures SameOutcome(Process(h, r, Join(u, v)), Process(h, r2, v))
  {
    StoredWindow(h, r, u);
    ProcessAt(h, r, Join(u, v));
    ProcessAt(h, r2, v);
    StoredThenNewDeltas(h, r, u, v, "");
    forall isin
      ensures BondPass(h, r, Join(u, v), isin) == BondPass(h, r2, v, isin)
      ensures Touches(h, r, Join(u, v), isin) || isin in r.bonds <==> Touches(h, r2, v, isin) || isin in r2.bonds
    {
      BondOfBoth(h, r, r2, u, v, isin);
    }
    var one, other := Process(h, r, Join(u, v)), Process(h, r2, v);
    if one.Success? {
      forall isin
        ensures isin in one.value.bonds <==> isin in other.value.bonds
        ensures BondOf(h, one.value.bonds, isin) == BondOf(h, other.value.bonds, isin)
      {
        BondOfBoth(h, r, r2, u, v, isin);
        assert BondPass(h, r, Join(u, v), isin) == Success(BondOf(h, one.value.bonds, isin));
      }
      SameBonds(h, one.value.bonds, other.value.bonds);
    }
  }

  // ---------------------------------------------------------------- on a chain

  function Over(chain: Chain, n: nat, m: nat): Batch
    requires n <= m <= |chain|
  {
    JoinAll(chain[n..m])
  }

  /** Bond `isin` was created in the committed blocks `a..c` that are run again, and not in the blocks `c..n` after
      them: the mints of its present life up to `c` are known, so its row has missed them. */
  predicate Short(h: PartitionHash, chain: Chain, a: nat, c: nat, n: nat, isin: Isin)
    requires a <= c <= n <= |chain|
  {
    Creates(h, Over(chain, a, c), isin) && !Creates(h, Over(chain, c, n), isin)
  }

  predicate RowBehind(h: PartitionHash, chain: Chain, a: nat, c: nat, n: nat, r: Tables, isin: Isin)
    requires a <= c <= n <= |chain|
  {
    if Short(h, chain, a, c, n, isin)
    then ShortBy(h, r, TablesAfter(h, chain, n), isin, SupplyIn(h, TablesAfter(h, chain, c), isin))
    else BondOf(h, r.bonds, isin) == BondOf(h, TablesAfter(h, chain, n).bonds, isin)
  }

  /** `r` is what the tables after `n` blocks are, but for the bonds created in `a..c` and not since: each is short by
      the supply that it had after `c` blocks. */
  ghost predicate Behind(h: PartitionHash, chain: Chain, a: nat, c: nat, n: nat, r: Tables)
    requires a <= c <= n <= |chain|
  {
    && SameBooks(r, TablesAfter(h, chain, n)) && r.bonds.Keys == TablesAfter(h, chain, n).bonds.Keys
    && forall isin :: RowBehind(h, chain, a, c, n, r, isin)
  }

  /** Without the supply of `a..c`, what is left of each short bond still covers every burn of `n..m`. */
  ghost predicate StillCovered(h: PartitionHash, chain: Chain, a: nat, c: nat, n: nat, m: nat)
    requires a <= c <= n <= m <= |chain|
  {
    forall isin | Short(h, chain, a, c, m, isin) :: BondStillCovered(h, chain, c, n, m, isin)
  }

  ghost predicate BondStillCovered(h: PartitionHash, chain: Chain, c: nat, n: nat, m: nat, isin: Isin)
    requires c <= n <= m <= |chain|
  {
    var before := TablesAfter(h, chain, n);
    StaysCovered(SupplyIn(h, before, isin) - SupplyIn(h, TablesAfter(h, chain, c), isin),
                 NewDeltas(h, before, Over(chain, n, m), isin))
  }

  lemma ShortSplits(h: PartitionHash, chain: Chain, a: nat, c: nat, n: nat, m: nat, isin: Isin)
    requires a <= c <= n <= m <= |chain|
    ensures Short(h, chain, a, c, m, isin) <==>
              Short(h, chain, a, c, n, isin) && !Creates(h, Over(chain, n, m), isin)
  {
    WindowSplits(chain, c, n, m);
    ManagerEntriesAppend(h, Over(chain, c, n).manager, Over(chain, n, m).manager, isin);
  }

  lemma NothingCreated(h: PartitionHash, chain: Chain, n: nat, isin: Isin)
    requires n <= |chain|
    ensures !Creates(h, Over(chain, n, n), isin)
  {
    assert chain[n..n] == [];
  }

  /** Where the committed blocks end, a loop that has run them again is behind by their own supply. */
  lemma BehindAtStart(h: PartitionHash, chain: Chain, a: nat, c: nat, r: Tables)
    requires ValidChain(h, chain) && CreationsMask(h, chain) && a <= c <= |chain|
    requires Process(h, TablesAfter(h, chain, c), Over(chain, a, c)) == Success(r)
    ensures Behind(h, chain, a, c, c, r)
  {
    EarlierWindowIsStored(h, chain, a, c, c);
    StoredWindow(h, TablesAfter(h, chain, c), Over(chain, a, c));
    RangeReplayed(h, chain, a, c);
    forall isin ensures RowBehind(h, chain, a, c, c, r, isin) {
      NothingCreated(h, chain, c, isin);
    }
  }

  lemma BehindIsSameButSupply(h: PartitionHash, chain: Chain, a: nat, c: nat, n: nat, r: Tables)
    requires a <= c <= n <= |chain| && Behind(h, chain, a, c, n, r)
    ensures SameButSupply(h, r, TablesAfter(h, chain, n))
  {
    forall isin ensures SameRow(BondOf(h, TablesAfter(h, chain, n).bonds, isin), BondOf(h, r.bonds, isin)) {
      assert RowBehind(h, chain, a, c, n, r, isin);
    }
  }

  lemma OwnSupplyCovers(h: PartitionHash, t: Tables, v: Batch, isin: Isin)
    requires Process(h, t, v).Success? && !Creates(h, v, isin)
    ensures StaysCovered(SupplyIn(h, t, isin), NewDeltas(h, t, v, isin))
  {
    ProcessAt(h, t, v);
    BondOnShortTables(h, t, t, v, isin);
  }

  lemma CoversExactly(h: PartitionHash, chain: Chain, a: nat, c: nat, n: nat, m: nat, r: Tables)
    requires a <= c <= n <= m <= |chain| && Behind(h, chain, a, c, n, r)
    requires Process(h, TablesAfter(h, chain, n), Over(chain, n, m)).Success?
    ensures Covers(h, r, TablesAfter(h, chain, n), Over(chain, n, m)) <==> StillCovered(h, chain, a, c, n, m)
  {
    var t, v := TablesAfter(h, chain, n), Over(chain, n, m);
    forall isin
      ensures Short(h, chain, a, c, m, isin) ==>
                && !Creates(h, v, isin)
                && SupplyIn(h, r, isin) == SupplyIn(h, t, isin) - SupplyIn(h, TablesAfter(h, chain, c), isin)
      ensures !Creates(h, v, isin) && !Short(h, chain, a, c, m, isin) ==>
                StaysCovered(SupplyIn(h, r, isin), NewDeltas(h, t, v, isin))
    {
      ShortSplits(h, chain, a, c, n, m, isin);
      assert RowBehind(h, chain, a, c, n, r, isin);
      if !Creates(h, v, isin) && !Short(h, chain, a, c, m, isin) { OwnSupplyCovers(h, t, v, isin); }
    }
    if Covers(h, r, t, v) {
      forall isin | Short(h, chain, a, c, m, isin) ensures BondStillCovered(h, chain, c, n, m, isin) {
        assert StaysCovered(SupplyIn(h, r, isin), NewDeltas(h, t, v, isin));
      }
    }
    if StillCovered(h, chain, a, c, n, m) {
      forall isin | !Creates(h, v, isin) ensures StaysCovered(SupplyIn(h, r, isin), NewDeltas(h, t, v, isin)) {
        if Short(h, chain, a, c, m, isin) { assert BondStillCovered(h, chain, c, n, m, isin); }
      }
    }
  }

  /** From tables that are behind, the next window succeeds exactly if what is left still covers it, and leaves
      tables that are behind. */
  lemma NextWindowBehind(h: PartitionHash, chain: Chain, a: nat, c: nat, n: nat, m: nat, r: Tables)
    requires ValidChain(h, chain) && CreationsMask(h, chain)
    requires a <= c <= n <= m <= |chain| && Behind(h, chain, a, c, n, r)
    ensures Process(h, r, Over(chain, n, m)).Success? <==> StillCovered(h, chain, a, c, n, m)
    ensures Process(h, r, Over(chain, n, m)).Success? ==>
              Behind(h, chain, a, c, m, Process(h, r, Over(chain, n, m)).value)
  {
    var t, v := TablesAfter(h, chain, n), Over(chain, n, m);
    WindowStep(h, chain, n, m, chain[n..m]);
    BehindIsSameButSupply(h, chain, a, c, n, r);
    CoversExactly(h, chain, a, c, n, m, r);
    WindowOnShortTables(h, t, r, v);
    if Process(h, r, v).Success? {
      StaysBehind(h, chain, a, c, n, m, r, Process(h, r, v).value);
    }
  }

  lemma StaysBehind(h: PartitionHash, chain: Chain, a: nat, c: nat, n: nat, m: nat, r: Tables, r1: Tables)
    requires a <= c <= n <= m <= |chain| && Behind(h, chain, a, c, n, r)
    requires SameBooks(r1, TablesAfter(h, chain, m)) && r1.bonds.Keys == TablesAfter(h, chain, m).bonds.Keys
    requires forall isin ::
               Follows(h, TablesAfter(h, chain, n), r, TablesAfter(h, chain, m), r1, Over(chain, n, m), isin)
    ensures Behind(h, chain, a, c, m, r1)
  {
    forall isin ensures RowBehind(h, chain, a, c, m, r1, isin) {
      ShortSplits(h, chain, a, c, n, m, isin);
      assert RowBehind(h, chain, a, c, n, r, isin);
      assert Follows(h, TablesAfter(h, chain, n), r, TablesAfter(h, chain, m), r1, Over(chain, n, m), isin);
    }
  }

  // ------------------------------------------------------ windows beyond the committed blocks

  lemma EarlierTransfersPosted(h: PartitionHash, chain: Chain, n: nat, c: nat, books: Books)
    requires ValidChain(h, chain) && n <= c <= |chain| && books == TablesAfter(h, chain, c).books
    ensures AllPosted(books, Over(chain, n, c).token)
  {
    EarlierWindowIsKept(h, chain, n, c, c);
  }

  lemma ChainMergesAt(h: PartitionHash, chain: Chain, n: nat, c: nat, d: nat, isin: Isin)
    requires ValidChain(h, chain) && CreationsMask(h, chain) && n <= c <= d <= |chain|
    ensures MergesAt(h, Over(chain, n, c), Over(chain, c, d), isin)
  {
    AdjacentEntries(h, chain, n, c, d, isin);
  }

  lemma CreatedCatchesUp(h: PartitionHash, chain: Chain, a: nat, c: nat, d: nat, r: Tables, isin: Isin)
    requires ValidChain(h, chain) && CreationsMask(h, chain) && a <= c <= d <= |chain|
    requires Behind(h, chain, a, c, c, r) && Creates(h, Over(chain, c, d), isin)
    ensures BondPass(h, r, Over(chain, c, d), isin).Success?
  {
    WindowStep(h, chain, c, d, chain[c..d]);
    BehindIsSameButSupply(h, chain, a, c, c, r);
    ProcessAt(h, TablesAfter(h, chain, c), Over(chain, c, d));
    BondOnShortTables(h, TablesAfter(h, chain, c), r, Over(chain, c, d), isin);
  }

  /** A window that begins among the committed blocks and ends beyond them comes to what two windows come to that
      meet where the committed blocks end. */
  lemma StraddlesAsTwo(h: PartitionHash, chain: Chain, a: nat, n: nat, c: nat, d: nat, r: Tables, r2: Tables)
    requires ValidChain(h, chain) && CreationsMask(h, chain) && a <= n <= c <= d <= |chain|
    requires Process(h, TablesAfter(h, chain, c), Over(chain, a, n)) == Success(r)
    requires Process(h, TablesAfter(h, chain, c), Over(chain, a, c)) == Success(r2)
    ensures SameOutcome(Process(h, r, Over(chain, n, d)), Process(h, r2, Over(chain, c, d)))
  {
    var t, u, v := TablesAfter(h, chain, c), Over(chain, n, c), Over(chain, c, d);
    RerunNext(h, chain, a, n, c, c, r);
    EarlierWindowIsStored(h, chain, a, n, c);
    StoredWindow(h, t, Over(chain, a, n));
    EarlierWindowIsStored(h, chain, n, c, c);
    EarlierTransfersPosted(h, chain, n, c, r.books);
    assert Stored(h, r, u);
    PartitionsWellMapped(h, chain, c);
    BehindAtStart(h, chain, a, c, r2);
    forall isin ensures MergesAt(h, u, v, isin) && (Creates(h, v, isin) ==> BondPass(h, r2, v, isin).Success?) {
      ChainMergesAt(h, chain, n, c, d, isin);
      if Creates(h, v, isin) { CreatedCatchesUp(h, chain, a, c, d, r2, isin); }
    }
    WindowOverBoth(h, r, r2, u, v);
    WindowSplits(chain, n, c, d);
  }

  lemma PartitionsWellMapped(h: PartitionHash, chain: Chain, n: nat)
    requires ValidChain(h, chain) && n <= |chain|
    ensures WellMapped(h, TablesAfter(h, chain, n).partitions)
  {
    ChainStaysInStep(h, chain, n);
  }

  // ------------------------------------------------------------------ the whole run

  /** What a window over `n..m` needs: nothing, if its blocks are committed; otherwise that what is left covers the
      part of it that is new. */
  ghost predicate WindowCovered(h: PartitionHash, chain: Chain, a: nat, c: nat, n: nat, m: nat)
    requires a <= c <= |chain| && a <= n <= m <= |chain|
  {
    m > c ==> StillCovered(h, chain, a, c, if n < c then c else n, m)
  }

  /** What holds of the tables when the run has reached block `n`. */
  ghost predicate Reached(h: PartitionHash, chain: Chain, a: nat, c: nat, n: nat, r: Tables)
    requires a <= c <= |chain| && a <= n <= |chain|
  {
    if n < c then Process(h, TablesAfter(h, chain, c), Over(chain, a, n)) == Success(r)
    else Behind(h, chain, a, c, n, r)
  }

  lemma ReachedAtStart(h: PartitionHash, chain: Chain, a: nat, c: nat)
    requires ValidChain(h, chain) && CreationsMask(h, chain) && a <= c <= |chain|
    ensures Reached(h, chain, a, c, a, TablesAfter(h, chain, c))
  {
    NothingProcessed(h, TablesAfter(h, chain, c));
    assert chain[a..a] == [];
    if a == c { BehindAtStart(h, chain, a, c, TablesAfter(h, chain, c)); }
  }

  /** One window of the run: committed, new, or both. */
  lemma WindowOfRun(h: PartitionHash, chain: Chain, a: nat, c: nat, n: nat, m: nat, r: Tables)
    requires ValidChain(h, chain) && CreationsMask(h, chain)
    requires a <= c <= |chain| && a <= n <= m <= |chain| && Reached(h, chain, a, c, n, r)
    ensures Process(h, r, Over(chain, n, m)).Success? <==> WindowCovered(h, chain, a, c, n, m)
    ensures Process(h, r, Over(chain, n, m)).Success? ==>
              Reached(h, chain, a, c, m, Process(h, r, Over(chain, n, m)).value)
  {
    if n >= c {
      NextWindowBehind(h, chain, a, c, n, m, r);
      if m == c { NothingIsCovered(h, chain, a, c); }
    } else if m <= c {
      RerunNext(h, chain, a, n, m, c, r);
      if m == c { BehindAtStart(h, chain, a, c, Process(h, r, Over(chain, n, m)).value); }
    } else {
      RerunNext(h, chain, a, n, c, c, r);
      var r2 := Process(h, TablesAfter(h, chain, c), Over(chain, a, c)).value;
      BehindAtStart(h, chain, a, c, r2);
      StraddlesAsTwo(h, chain, a, n, c, m, r, r2);
      NextWindowBehind(h, chain, a, c, c, m, r2);
    }
  }

  lemma NothingIsCovered(h: PartitionHash, chain: Chain, a: nat, c: nat)
    requires a <= c <= |chain|
    ensures StillCovered(h, chain, a, c, c, c)
  {
    assert chain[c..c] == [];
  }

  /** The windows of a run, each given by the block after its last: where one ends, the next begins. */
  type Ends = seq<nat>

  function EndOf(a: nat, ends: Ends): nat {
    if ends == [] then a else ends[|ends|-1]
  }

  predicate Forward(a: nat, ends: Ends, top: nat) {
    if ends == [] then a <= top
    else Forward(a, ends[..|ends|-1], top) && EndOf(a, ends[..|ends|-1]) <= ends[|ends|-1] <= top
  }

  /** The loop from block `a`, on the tables `t`. */
  function RunFrom(h: PartitionHash, chain: Chain, t: Tables, a: nat, ends: Ends): Result<Tables, string>
    requires Forward(a, ends, |chain|)
  {
    if ends == [] then Success(t)
    else
      var r := RunFrom(h, chain, t, a, ends[..|ends|-1]);
      if r.Failure? then r else Process(h, r.value, Over(chain, EndOf(a, ends[..|ends|-1]), ends[|ends|-1]))
  }

  lemma {:induction false} EndIsForward(a: nat, ends: Ends, top: nat)
    requires Forward(a, ends, top)
    ensures a <= EndOf(a, ends) <= top
  {
    if ends != [] { EndIsForward(a, ends[..|ends|-1], top); }
  }

  /** Every window of the run is covered. */
  ghost predicate RunCovered(h: PartitionHash, chain: Chain, a: nat, c: nat, ends: Ends)
    requires a <= c <= |chain| && Forward(a, ends, |chain|)
  {
    if ends == [] then true
    else
      EndIsForward(a, ends[..|ends|-1], |chain|);
      && RunCovered(h, chain, a, c, ends[..|ends|-1])
      && WindowCovered(h, chain, a, c, EndOf(a, ends[..|ends|-1]), ends[|ends|-1])
  }

  /** What a run comes to, from what it was before its last window `n..m`. */
  lemma RunContinues(
    h: PartitionHash, chain: Chain, a: nat, c: nat, before: Result<Tables, string>, n: nat, m: nat,
    run: Result<Tables, string>)
    requires ValidChain(h, chain) && CreationsMask(h, chain)
    requires a <= c <= |chain| && a <= n <= m <= |chain|
    requires before.Success? ==> Reached(h, chain, a, c, n, before.value)
    requires run == if before.Failure? then before else Process(h, before.value, Over(chain, n, m))
    ensures run.Success? <==> before.Success? && WindowCovered(h, chain, a, c, n, m)
    ensures run.Success? ==> Reached(h, chain, a, c, m, run.value)
  {
    if before.Success? { WindowOfRun(h, chain, a, c, n, m, before.value); }
  }

  /** A loop that starts from the old checkpoint `a` when `c` blocks are committed, with any windows at all: the run
      succeeds exactly if in each part beyond `c` the bonds created in `a..c` and not since cover their burns without
      the supply they had at `c`. Then its tables are those of the chain, but for that supply. */
  lemma {:induction false} CatchingUpExactly(h: PartitionHash, chain: Chain, a: nat, c: nat, ends: Ends)
    requires ValidChain(h, chain) && CreationsMask(h, chain)
    requires a <= c <= |chain| && Forward(a, ends, |chain|)
    ensures a <= EndOf(a, ends) <= |chain|
    ensures var run := RunFrom(h, chain, TablesAfter(h, chain, c), a, ends);
            && (run.Success? <==> RunCovered(h, chain, a, c, ends))
            && (run.Success? ==> Reached(h, chain, a, c, EndOf(a, ends), run.value))
  {
    EndIsForward(a, ends, |chain|);
    if ends == [] {
      ReachedAtStart(h, chain, a, c);
    } else {
      var init := ends[..|ends|-1];
      CatchingUpExactly(h, chain, a, c, init);
      RunContinues(h, chain, a, c, RunFrom(h, chain, TablesAfter(h, chain, c), a, init), EndOf(a, init),
                   ends[|ends|-1], RunFrom(h, chain, TablesAfter(h, chain, c), a, ends));
    }
  }

  // --------------------------------------------------- the first window beyond the committed blocks

  /** No bond created in `a..c` and not in `c..d` is burnt below zero in `c..d` when it starts there from nothing. */
  ghost predicate MintedAfresh(h: PartitionHash, chain: Chain, a: nat, c: nat, d: nat)
    requires a <= c <= d <= |chain|
  {
    forall isin | Creates(h, Over(chain, a, c), isin) && !Creates(h, Over(chain, c, d), isin) ::
      StaysCovered(0, NewDeltas(h, TablesAfter(h, chain, c), Over(chain, c, d), isin))
  }

  lemma MintedAfreshExactly(h: PartitionHash, chain: Chain, a: nat, c: nat, d: nat)
    requires a <= c <= d <= |chain|
    ensures MintedAfresh(h, chain, a, c, d) <==> StillCovered(h, chain, a, c, c, d)
  {
    forall isin
      ensures BondStillCovered(h, chain, c, c, d, isin)
         <==> StaysCovered(0, NewDeltas(h, TablesAfter(h, chain, c), Over(chain, c, d), isin))
    {
    }
  }

  /** One window over committed blocks `a..c` and new blocks `c..d`: when it succeeds, and what it leaves. */
  lemma StraddlingWindowExactly(h: PartitionHash, chain: Chain, a: nat, c: nat, d: nat)
    requires ValidChain(h, chain) && CreationsMask(h, chain) && a <= c <= d <= |chain|
    ensures var run := Process(h, TablesAfter(h, chain, c), JoinAll(chain[a..d]));
            && (run.Success? <==> MintedAfresh(h, chain, a, c, d))
            && (run.Success? ==> Behind(h, chain, a, c, d, run.value))
  {
    ReachedAtStart(h, chain, a, c);
    WindowOfRun(h, chain, a, c, a, d, TablesAfter(h, chain, c));
    MintedAfreshExactly(h, chain, a, c, d);
    if d == c { NothingIsCovered(h, chain, a, c); }
  }

  /** The window over new blocks `c..d` of a loop whose windows happen to have met block `c`. */
  lemma WindowAfterCatchingUpExactly(
    h: PartitionHash, chain: Chain, a: nat, c: nat, d: nat, windows: seq<Chain>)
    requires ValidChain(h, chain) && CreationsMask(h, chain) && a <= c <= d <= |chain|
    requires Flatten(windows) == chain[a..c]
    ensures RunWindows(h, TablesAfter(h, chain, c), windows).Success?
    ensures var again := RunWindows(h, TablesAfter(h, chain, c), windows).value;
            var run := Process(h, again, JoinAll(chain[c..d]));
            && (run.Success? <==> MintedAfresh(h, chain, a, c, d))
            && (run.Success? ==> Behind(h, chain, a, c, d, run.value))
  {
    RerunIsOneWindow(h, chain, a, c, c, windows);
    var again := RunWindows(h, TablesAfter(h, chain, c), windows).value;
    BehindAtStart(h, chain, a, c, again);
    NextWindowBehind(h, chain, a, c, c, d, again);
    MintedAfreshExactly(h, chain, a, c, d);
  }

  // ----------------------------------------------------------------- no way out

  lemma NewDeltasSplit(h: PartitionHash, chain: Chain, n: nat, m: nat, d: nat, isin: Isin)
    requires ValidChain(h, chain) && CreationsMask(h, chain) && n <= m <= d <= |chain|
    ensures NewDeltas(h, TablesAfter(h, chain, n), Over(chain, n, d), isin)
         == NewDeltas(h, TablesAfter(h, chain, n), Over(chain, n, m), isin)
          + NewDeltas(h, TablesAfter(h, chain, m), Over(chain, m, d), isin)
  {
    var t, u, v := TablesAfter(h, chain, n), Over(chain, n, m), Over(chain, m, d);
    PartitionsWellMapped(h, chain, n);
    WindowStep(h, chain, n, m, chain[n..m]);
    ProcessAt(h, t, u);
    OneWindowAgrees(h, chain, n, m);
    NoneAnnouncedLate(h, chain, n, m, v);
    WindowSplits(chain, n, m, d);
    SplitsWhenAnnounced(h, t, u, v, isin);
  }

  lemma SplitsWhenAnnounced(h: PartitionHash, t: Tables, u: Batch, v: Batch, isin: Isin)
    requires Injective(h) && WellMapped(h, t.partitions) && !AnnouncedLate(h, t, u, v)
    ensures var p := Announce(h, t.partitions, u);
            NewDeltas(h, t, Join(u, v), isin)
            == NewDeltas(h, t, u, isin) + SupplyOf(Announce(h, p, v), PostLogs(p, t.books, u.token), v.token, isin)
  {
    var p := Announce(h, t.partitions, u);
    var q := Announce(h, p, v);
    AnnounceJoin(h, t.partitions, u, v);
    AnnounceJoin(h, p, v, Batch([], []));
    SamePosting(h, p, q, t.books, u.token);
    PostLogsAppend(q, t.books, u.token, v.token);
  }

  lemma PrefixCovered(supply: int, a: seq<SupplyDelta>, b: seq<SupplyDelta>)
    requires StaysCovered(supply, a + b)
    ensures StaysCovered(supply, a)
  {
    forall k | 0 < k <= |a| ensures supply + SumDeltas(a[..k]) >= 0 {
      assert (a + b)[..k] == a[..k];
    }
  }

  /** A window that fails keeps failing however far the head moves on, until a bond that was short is created again:
      the loop stays where it is, and every tick repeats the error. */
  lemma FailsAgain(h: PartitionHash, chain: Chain, a: nat, c: nat, n: nat, m: nat, d: nat, r: Tables)
    requires ValidChain(h, chain) && CreationsMask(h, chain)
    requires a <= c <= |chain| && a <= n <= m <= d <= |chain| && Reached(h, chain, a, c, n, r)
    requires Process(h, r, Over(chain, n, m)).Failure?
    requires m > c ==> forall isin | Short(h, chain, a, c, m, isin) :: !Creates(h, Over(chain, m, d), isin)
    ensures Process(h, r, Over(chain, n, d)).Failure?
  {
    WindowOfRun(h, chain, a, c, n, m, r);
    WindowOfRun(h, chain, a, c, n, d, r);
    var start := if n < c then c else n;
    var isin :| Short(h, chain, a, c, m, isin) && !BondStillCovered(h, chain, c, start, m, isin);
    ShortSplits(h, chain, a, c, m, d, isin);
    NewDeltasSplit(h, chain, start, m, d, isin);
    if BondStillCovered(h, chain, c, start, d, isin) {
      PrefixCovered(SupplyIn(h, TablesAfter(h, chain, start), isin) - SupplyIn(h, TablesAfter(h, chain, c), isin),
                    NewDeltas(h, TablesAfter(h, chain, start), Over(chain, start, m), isin),
                    NewDeltas(h, TablesAfter(h, chain, m), Over(chain, m, d), isin));
    }
  }
}
