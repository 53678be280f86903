/**
 The concrete history behind the condition on re-run windows: an offering is issued in one block and
 extended in the next, and the first block is processed again.
 */
module StaleReplay {
  import opened BondLifecycle
  import opened Projection
  import opened ProjectionLens
  import opened Recreation

  const ISSUING := Batch([], [TokenLog(LogId(10, 0, 100), IsinIssued(ISIN, 100))])

  const EXTENDING := Batch([], [TokenLog(LogId(11, 0, 101), IsinExtended(ISIN, 200))])

  function OfferingOf(h: PartitionHash, t: Tables): nat {
    BondOf(h, t.bonds, ISIN).life.offering
  }

  lemma Entries()
    ensures TokenEntriesOf(ISSUING.token, ISIN) == [Entry(OfferingSet(100), Position(10, 0))]
    ensures TokenEntriesOf(EXTENDING.token, ISIN) == [Entry(OfferingSet(200), Position(11, 0))]
  {
    assert ISSUING.token[..0] == [] && EXTENDING.token[..0] == [];
  }

  lemma OneOffering(s: BondState, offering: nat, at: Position)
    ensures Reduce(s, [Entry(OfferingSet(offering), at)]).life.offering == offering
  {
    var es := [Entry(OfferingSet(offering), at)];
    assert es[..0] == [];
  }

  lemma OfferingFollows(h: PartitionHash, t: Tables, b: Batch, offering: nat, at: Position)
    requires forall log <- b.token :: !log.body.TransferByPartition?
    requires b.manager == [] && TokenEntriesOf(b.token, ISIN) == [Entry(OfferingSet(offering), at)]
    ensures Process(h, t, b).Success? && OfferingOf(h, Process(h, t, b).value) == offering
  {
    WithoutTransfers(h, t, b);
    OneOffering(BondOf(h, t.bonds, ISIN), offering, at);
  }

  /** Whatever the tables before, and although neither window creates a bond and every run succeeds:
      the second run of the first window takes the offering back from 200 to 100, and only the second
      run of the window after it restores 200. */
  lemma OlderWindowTakesOfferingBack(h: PartitionHash, t: Tables)
    ensures forall isin :: !HasCreated(ManagerEntriesOf(h, Join(ISSUING, EXTENDING).manager, isin))
    ensures Process(h, t, ISSUING).Success?
    ensures var issued := Process(h, t, ISSUING).value;
            && Process(h, issued, EXTENDING).Success?
            && var extended := Process(h, issued, EXTENDING).value;
               && Process(h, extended, ISSUING).Success?
               && OfferingOf(h, extended) == 200
               && var again := Process(h, extended, ISSUING).value;
                  && OfferingOf(h, again) == 100
                  && Process(h, again, EXTENDING).Success?
                  && OfferingOf(h, Process(h, again, EXTENDING).value) == 200
  {
    Entries();
    OfferingFollows(h, t, ISSUING, 100, Position(10, 0));
    var issued := Process(h, t, ISSUING).value;
    OfferingFollows(h, issued, EXTENDING, 200, Position(11, 0));
    var extended := Process(h, issued, EXTENDING).value;
    OfferingFollows(h, extended, ISSUING, 100, Position(10, 0));
    OfferingFollows(h, Process(h, extended, ISSUING).value, EXTENDING, 200, Position(11, 0));
  }
}
