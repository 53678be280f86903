/**
 The concrete history behind the condition on re-created bonds: an ISIN is disabled in one block
 and created again in the next.
 */
module Recreation {
  import opened Prelude
  import opened BondLifecycle
  import opened Projection
  import opened ProjectionLens

  const ISIN := "NO0000000001"

  const DISABLING := Batch(
    [ManagerLog(LogId(10, 1, 100), ISIN, BondDisabled)],
    [TokenLog(LogId(10, 0, 100), IsinDisabled(ISIN))])

  const RECREATING := Batch(
    [ManagerLog(LogId(11, 1, 101), ISIN, BondCreated(None, 3600))],
    [TokenLog(LogId(11, 0, 101), IsinIssued(ISIN, 7))])

  lemma Entries(h: PartitionHash)
    ensures ManagerEntriesOf(h, DISABLING.manager, ISIN) == [Entry(Disabled, Position(10, 1))]
    ensures ManagerEntriesOf(h, RECREATING.manager, ISIN) == [Entry(Created(h(ISIN), None, 3600), Position(11, 1))]
    ensures TokenEntriesOf(DISABLING.token, ISIN) == [Entry(Disabled, Position(10, 0))]
    ensures TokenEntriesOf(RECREATING.token, ISIN) == [Entry(OfferingSet(7), Position(11, 0))]
  {
    assert DISABLING.manager[..0] == [] && RECREATING.manager[..0] == [];
    assert DISABLING.token[..0] == [] && RECREATING.token[..0] == [];
  }

  lemma {:induction false} NoTransfers(p: map<Hash, Isin>, books: Books, logs: seq<TokenLog>, isin: Isin)
    requires forall log <- logs :: !log.body.TransferByPartition?
    ensures SupplyOf(p, books, logs, isin) == []
  {
    if logs != [] {
      NoTransfers(p, books, logs[..|logs|-1], isin);
    }
  }

  /** Without transfers a window just reduces each bond's facts. */
  lemma WithoutTransfers(h: PartitionHash, t: Tables, b: Batch)
    requires forall log <- b.token :: !log.body.TransferByPartition?
    ensures Process(h, t, b).Success?
    ensures BondOf(h, Process(h, t, b).value.bonds, ISIN)
         == Reduce(Reduce(BondOf(h, t.bonds, ISIN), ManagerEntriesOf(h, b.manager, ISIN)),
                   TokenEntriesOf(b.token, ISIN))
  {
    ProcessAt(h, t, b);
    forall isin ensures BondPass(h, t, b, isin).Success? {
      NoTransfers(Announce(h, t.partitions, b), t.books, b.token, isin);
    }
    NoTransfers(Announce(h, t.partitions, b), t.books, b.token, ISIN);
    assert BondPass(h, t, b, ISIN) == Success(BondOf(h, Process(h, t, b).value.bonds, ISIN));
  }

  lemma BothEntries(h: PartitionHash)
    ensures var both := Join(DISABLING, RECREATING);
            && ManagerEntriesOf(h, both.manager, ISIN)
               == [Entry(Disabled, Position(10, 1)), Entry(Created(h(ISIN), None, 3600), Position(11, 1))]
            && TokenEntriesOf(both.token, ISIN)
               == [Entry(Disabled, Position(10, 0)), Entry(OfferingSet(7), Position(11, 0))]
  {
    var both := Join(DISABLING, RECREATING);
    Entries(h);
    assert both.manager[..1] == DISABLING.manager && both.token[..1] == DISABLING.token;
  }

  lemma {:induction false} CreatedLast(s: BondState, ms: seq<Entry>, c: Entry, ts: seq<Entry>)
    requires c.fact.Created? && TokenEntries(ts)
    ensures Reduce(Reduce(s, ms + [c]), ts).life.disabled <==> HasDisabled(ts)
  {
    assert (ms + [c])[..|ms|] == ms;
    TokenPassOverlays(Reduce(s, ms + [c]), ts);
  }

  lemma CreatedApart(h: PartitionHash, t: Tables)
    ensures Process(h, t, RECREATING).Success?
    ensures !BondOf(h, Process(h, t, RECREATING).value.bonds, ISIN).life.disabled
  {
    WithoutTransfers(h, t, RECREATING);
    Entries(h);
    var created := Entry(Created(h(ISIN), None, 3600), Position(11, 1));
    assert [] + [created] == [created];
    CreatedLast(BondOf(h, t.bonds, ISIN), [], created, [Entry(OfferingSet(7), Position(11, 0))]);
  }

  lemma CreatedMerged(h: PartitionHash, t: Tables)
    ensures Process(h, t, Join(DISABLING, RECREATING)).Success?
    ensures BondOf(h, Process(h, t, Join(DISABLING, RECREATING)).value.bonds, ISIN).life.disabled
  {
    WithoutTransfers(h, t, Join(DISABLING, RECREATING));
    BothEntries(h);
    var off, created := Entry(Disabled, Position(10, 1)), Entry(Created(h(ISIN), None, 3600), Position(11, 1));
    var ts := [Entry(Disabled, Position(10, 0)), Entry(OfferingSet(7), Position(11, 0))];
    assert [off] + [created] == [off, created];
    assert ts[0] in ts;
    CreatedLast(BondOf(h, t.bonds, ISIN), [off], created, ts);
  }

  /** Whatever the tables before: block by block the new bond is enabled, but one window over both
      blocks leaves it disabled, because the old token event is applied after the new creation. */
  lemma RecreatedBondShowsDisabled(h: PartitionHash, t: Tables)
    ensures Process(h, t, DISABLING).Success?
    ensures var t1 := Process(h, t, DISABLING).value;
            var apart, merged := Process(h, t1, RECREATING), Process(h, t, Join(DISABLING, RECREATING));
            && apart.Success? && merged.Success?
            && !BondOf(h, apart.value.bonds, ISIN).life.disabled
            && BondOf(h, merged.value.bonds, ISIN).life.disabled
  {
    WithoutTransfers(h, t, DISABLING);
    CreatedApart(h, Process(h, t, DISABLING).value);
    CreatedMerged(h, t);
  }
}
