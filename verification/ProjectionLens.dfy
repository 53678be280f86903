/**
 One bond at a time: what a window does to a single ISIN, and to the books.
 */
module ProjectionLens {
  import opened Prelude
  import opened BondLifecycle
  import opened Projection

  function ManagerEntriesOf(h: PartitionHash, logs: seq<ManagerLog>, isin: Isin): seq<Entry> {
    if logs == [] then []
    else
      var init, log := ManagerEntriesOf(h, logs[..|logs|-1], isin), logs[|logs|-1];
      var f := ManagerFact(h, log);
      if f.Some? && log.isin == isin then init + [Entry(f.value, log.id.At())] else init
  }

  function TokenEntriesOf(logs: seq<TokenLog>, isin: Isin): seq<Entry> {
    if logs == [] then []
    else
      var init, log := TokenEntriesOf(logs[..|logs|-1], isin), logs[|logs|-1];
      var f := TokenFact(log);
      if f.Some? && log.body.isin == isin then init + [Entry(f.value, log.id.At())] else init
  }

  /** The supply changes that one posting, resp. one log, writes for `isin`. */
  function SupplyOfDelta(books: Books, posted: Isin, d: HolderDelta, id: LogId, isin: Isin): seq<SupplyDelta> {
    if posted == isin && Writes(books, d, id) && !d.kind.Move? then [SupplyDelta(d.delta, id.At())] else []
  }

  function SupplyOfDeltas(books: Books, posted: Isin, ds: seq<HolderDelta>, id: LogId, isin: Isin): seq<SupplyDelta> {
    if ds == [] then []
    else
      SupplyOfDeltas(books, posted, ds[..|ds|-1], id, isin)
      + SupplyOfDelta(PostDeltas(books, posted, ds[..|ds|-1], id), posted, ds[|ds|-1], id, isin)
  }

  function SupplyOfLog(p: map<Hash, Isin>, books: Books, log: TokenLog, isin: Isin): seq<SupplyDelta> {
    if !Mapped(p, log) then []
    else SupplyOfDeltas(books, p[log.body.partition], DeltasOf(log), log.id, isin)
  }

  function SupplyOf(p: map<Hash, Isin>, books: Books, logs: seq<TokenLog>, isin: Isin): seq<SupplyDelta> {
    if logs == [] then []
    else
      SupplyOf(p, books, logs[..|logs|-1], isin)
      + SupplyOfLog(p, PostLogs(p, books, logs[..|logs|-1]), logs[|logs|-1], isin)
  }

  // -------------------------------------------------------- lifecycle passes

  lemma {:induction false} ManagerPassAt(
    h: PartitionHash, bonds: map<Isin, BondState>, logs: seq<ManagerLog>, isin: Isin)
    ensures var es := ManagerEntriesOf(h, logs, isin);
            && ManagerEntries(es)
            && BondOf(h, ManagerPass(h, bonds, logs), isin) == Reduce(BondOf(h, bonds, isin), es)
            && (isin in ManagerPass(h, bonds, logs) <==> isin in bonds || es != [])
  {
    if logs != [] {
      ManagerPassAt(h, bonds, logs[..|logs|-1], isin);
      var es, log := ManagerEntriesOf(h, logs[..|logs|-1], isin), logs[|logs|-1];
      var f := ManagerFact(h, log);
      if f.Some? && log.isin == isin {
        assert (es + [Entry(f.value, log.id.At())])[..|es|] == es;
      }
    }
  }

  lemma {:induction false} TokenPassAt(h: PartitionHash, bonds: map<Isin, BondState>, logs: seq<TokenLog>, isin: Isin)
    ensures var es := TokenEntriesOf(logs, isin);
            && TokenEntries(es)
            && BondOf(h, TokenPass(h, bonds, logs), isin) == Reduce(BondOf(h, bonds, isin), es)
            && (isin in TokenPass(h, bonds, logs) <==> isin in bonds || es != [])
  {
    if logs != [] {
      TokenPassAt(h, bonds, logs[..|logs|-1], isin);
      var es, log := TokenEntriesOf(logs[..|logs|-1], isin), logs[|logs|-1];
      var f := TokenFact(log);
      if f.Some? && log.body.isin == isin {
        assert (es + [Entry(f.value, log.id.At())])[..|es|] == es;
      }
    }
  }

  // ----------------------------------------------------------- transfer pass

  /** `r` is `t` with the supply changes `ds(isin)` reduced into each bond, or a failure
      exactly when some bond's reduction fails. */
  ghost predicate SupplyReduced(h: PartitionHash, t: Tables, r: Result<Tables, string>, ds: Isin -> seq<SupplyDelta>) {
    && (r.Success? <==> forall isin :: ReduceSupply(BondOf(h, t.bonds, isin), ds(isin)).Success?)
    && (r.Success? ==> forall isin :: BondReduced(h, t, r.value, isin, ds(isin)))
  }

  ghost predicate BondReduced(h: PartitionHash, t: Tables, r: Tables, isin: Isin, ds: seq<SupplyDelta>) {
    && ReduceSupply(BondOf(h, t.bonds, isin), ds) == Success(BondOf(h, r.bonds, isin))
    && (isin in r.bonds <==> isin in t.bonds || ds != [])
  }

  lemma TransferDeltaAt(h: PartitionHash, t: Tables, posted: Isin, d: HolderDelta, id: LogId)
    ensures SupplyReduced(h, t, TransferDelta(h, t, posted, d, id),
                          isin => SupplyOfDelta(t.books, posted, d, id, isin))
    ensures TransferDelta(h, t, posted, d, id).Success? ==>
      TransferDelta(h, t, posted, d, id).value.(bonds := t.bonds) == t.(books := PostDelta(t.books, posted, d, id))
  {
    var ds := isin => SupplyOfDelta(t.books, posted, d, id, isin);
    var r := TransferDelta(h, t, posted, d, id);
    forall isin
      ensures ReduceSupply(BondOf(h, t.bonds, isin), ds(isin)).Success? || isin == posted
      ensures r.Success? ==> BondReduced(h, t, r.value, isin, ds(isin))
    {
      if ds(isin) != [] {
        assert ds(isin)[..0] == [];
      }
    }
    assert ReduceSupply(BondOf(h, t.bonds, posted), ds(posted)).Success? <==> r.Success? by {
      if ds(posted) != [] {
        assert ds(posted)[..0] == [];
      }
    }
  }

  lemma SupplyComposes(
    h: PartitionHash, t: Tables, r: Result<Tables, string>, q: Result<Tables, string>,
    ds: Isin -> seq<SupplyDelta>, es: Isin -> seq<SupplyDelta>, all: Isin -> seq<SupplyDelta>)
    requires SupplyReduced(h, t, r, ds)
    requires if r.Success? then SupplyReduced(h, r.value, q, es) else q.Failure?
    requires forall isin :: all(isin) == ds(isin) + es(isin)
    ensures SupplyReduced(h, t, q, all)
  {
    forall isin
      ensures ReduceSupply(BondOf(h, t.bonds, isin), ds(isin)).Failure? ==>
                ReduceSupply(BondOf(h, t.bonds, isin), all(isin)).Failure?
      ensures r.Success? ==>
                ReduceSupply(BondOf(h, t.bonds, isin), all(isin))
                == ReduceSupply(BondOf(h, r.value.bonds, isin), es(isin))
      ensures r.Success? && q.Success? ==> BondReduced(h, t, q.value, isin, all(isin))
    {
      ReduceSupplyAppend(BondOf(h, t.bonds, isin), ds(isin), es(isin));
      if r.Success? {
        assert BondReduced(h, t, r.value, isin, ds(isin));
        if q.Success? {
          assert BondReduced(h, r.value, q.value, isin, es(isin));
        }
      }
    }
  }

  lemma {:induction false} TransferDeltasAt(
    h: PartitionHash, t: Tables, posted: Isin, deltas: seq<HolderDelta>, id: LogId)
    ensures SupplyReduced(h, t, TransferDeltas(h, t, posted, deltas, id),
                          isin => SupplyOfDeltas(t.books, posted, deltas, id, isin))
    ensures TransferDeltas(h, t, posted, deltas, id).Success? ==>
      TransferDeltas(h, t, posted, deltas, id).value.(bonds := t.bonds)
      == t.(books := PostDeltas(t.books, posted, deltas, id))
  {
    if deltas == [] {
      NothingReduced(h, t, isin => SupplyOfDeltas(t.books, posted, deltas, id, isin));
    } else {
      var init, d := deltas[..|deltas|-1], deltas[|deltas|-1];
      TransferDeltasAt(h, t, posted, init, id);
      var r := TransferDeltas(h, t, posted, init, id);
      var books := PostDeltas(t.books, posted, init, id);
      if r.Success? {
        TransferDeltaAt(h, r.value, posted, d, id);
      }
      SupplyComposes(h, t, r, TransferDeltas(h, t, posted, deltas, id),
                     isin => SupplyOfDeltas(t.books, posted, init, id, isin),
                     isin => SupplyOfDelta(books, posted, d, id, isin),
                     isin => SupplyOfDeltas(t.books, posted, deltas, id, isin));
    }
  }

  lemma NothingReduced(h: PartitionHash, t: Tables, ds: Isin -> seq<SupplyDelta>)
    requires forall isin :: ds(isin) == []
    ensures SupplyReduced(h, t, Success(t), ds)
  {
  }

  /** The transfer pass, seen from the books and from each bond. */
  lemma {:induction false} TransferPassAt(h: PartitionHash, t: Tables, logs: seq<TokenLog>)
    ensures SupplyReduced(h, t, TransferPass(h, t, logs), isin => SupplyOf(t.partitions, t.books, logs, isin))
    ensures TransferPass(h, t, logs).Success? ==>
      TransferPass(h, t, logs).value.(bonds := t.bonds) == t.(books := PostLogs(t.partitions, t.books, logs))
  {
    if logs == [] {
      NothingReduced(h, t, isin => SupplyOf(t.partitions, t.books, logs, isin));
    } else {
      var init, log := logs[..|logs|-1], logs[|logs|-1];
      TransferPassAt(h, t, init);
      var r := TransferPass(h, t, init);
      var books := PostLogs(t.partitions, t.books, init);
      if r.Success? {
        assert r.value.partitions == t.partitions;
        if Mapped(t.partitions, log) {
          TransferDeltasAt(h, r.value, t.partitions[log.body.partition], DeltasOf(log), log.id);
          assert SupplyReduced(h, r.value, TransferLog(h, r.value, log),
                               isin => SupplyOfLog(t.partitions, books, log, isin)) by {
            forall isin ensures SupplyOfLog(t.partitions, books, log, isin)
              == SupplyOfDeltas(books, t.partitions[log.body.partition], DeltasOf(log), log.id, isin) {}
            SameSupply(h, r.value, TransferLog(h, r.value, log),
              isin => SupplyOfDeltas(books, t.partitions[log.body.partition], DeltasOf(log), log.id, isin),
              isin => SupplyOfLog(t.partitions, books, log, isin));
          }
        } else {
          NothingReduced(h, r.value, isin => SupplyOfLog(t.partitions, books, log, isin));
        }
      }
      SupplyComposes(h, t, r, TransferPass(h, t, logs),
                     isin => SupplyOf(t.partitions, t.books, init, isin),
                     isin => SupplyOfLog(t.partitions, books, log, isin),
                     isin => SupplyOf(t.partitions, t.books, logs, isin));
    }
  }

  lemma SameSupply(
    h: PartitionHash, t: Tables, r: Result<Tables, string>, ds: Isin -> seq<SupplyDelta>, es: Isin -> seq<SupplyDelta>)
    requires SupplyReduced(h, t, r, ds) && forall isin :: ds(isin) == es(isin)
    ensures SupplyReduced(h, t, r, es)
  {
    forall isin ensures r.Success? ==> BondReduced(h, t, r.value, isin, es(isin)) {
      assert ds(isin) == es(isin);
    }
  }

  // -------------------------------------------------------------- one window

  /** A window at one bond is one `Pass` over that bond's own entries. */
  function BondPass(h: PartitionHash, t: Tables, b: Batch, isin: Isin): Result<BondState, string> {
    Pass(BondOf(h, t.bonds, isin),
         ManagerEntriesOf(h, b.manager, isin),
         TokenEntriesOf(b.token, isin),
         SupplyOf(Announce(h, t.partitions, b), t.books, b.token, isin))
  }

  predicate Touches(h: PartitionHash, t: Tables, b: Batch, isin: Isin) {
    || ManagerEntriesOf(h, b.manager, isin) != []
    || TokenEntriesOf(b.token, isin) != []
    || SupplyOf(Announce(h, t.partitions, b), t.books, b.token, isin) != []
  }

  /** The window fails exactly when some bond's pass fails, and otherwise gives each bond its pass. */
  lemma ProcessAt(h: PartitionHash, t: Tables, b: Batch)
    ensures var r := Process(h, t, b);
            var p := Announce(h, t.partitions, b);
            && (r.Success? <==> forall isin :: BondPass(h, t, b, isin).Success?)
            && (r.Success? ==>
                 && r.value.partitions == p
                 && r.value.books == PostLogs(p, t.books, b.token)
                 && r.value.bondEvents == History(t.bondEvents, b.manager)
                 && forall isin :: BondPass(h, t, b, isin) == Success(BondOf(h, r.value.bonds, isin))
                                && (isin in r.value.bonds <==> isin in t.bonds || Touches(h, t, b, isin)))
  {
    var l := Lifecycle(h, t, b);
    TransferPassAt(h, l, b.token);
    var r := Process(h, t, b);
    forall isin
      ensures BondPass(h, t, b, isin)
           == ReduceSupply(BondOf(h, l.bonds, isin), SupplyOf(l.partitions, l.books, b.token, isin))
      ensures r.Success? ==> BondReduced(h, l, r.value, isin, SupplyOf(l.partitions, l.books, b.token, isin))
      ensures isin in l.bonds
         <==> isin in t.bonds || ManagerEntriesOf(h, b.manager, isin) != [] || TokenEntriesOf(b.token, isin) != []
    {
      ManagerPassAt(h, t.bonds, b.manager, isin);
      TokenPassAt(h, ManagerPass(h, t.bonds, b.manager), b.token, isin);
    }
  }
}
