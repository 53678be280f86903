/**
 Which log writes which column: the bond rows and the mapped partitions after a window, said of the constructors of its
 logs and of nothing in between.
 */
module BondColumns {
  import opened Prelude
  import opened BondLifecycle
  import opened Projection
  import opened ProjectionLens
  import opened WindowMerge
  import opened WindowIndependence

  // ------------------------------------------------------------- the logs of one bond

  /** The manager logs after the last creation of bond `x`; all of them, if there is none. */
  function Since(ms: seq<ManagerLog>, x: Isin): seq<ManagerLog> {
    if ms == [] then []
    else
      var last := ms[|ms|-1];
      if last.isin == x && last.body.BondCreated? then [] else Since(ms[..|ms|-1], x) + [last]
  }

  function CreationOf(ms: seq<ManagerLog>, x: Isin): (c: Option<ManagerLog>)
    ensures c.Some? ==> c.value in ms && c.value.isin == x && c.value.body.BondCreated?
  {
    if ms == [] then None
    else
      var last := ms[|ms|-1];
      if last.isin == x && last.body.BondCreated? then Some(last) else CreationOf(ms[..|ms|-1], x)
  }

  ghost predicate Matures(ms: seq<ManagerLog>, x: Isin) {
    x != "" && exists log <- ms :: log.isin == x && log.body.BondMatured?
  }

  ghost predicate Completes(ms: seq<ManagerLog>, x: Isin) {
    exists log <- ms :: log.isin == x && log.body.BondIssuanceComplete?
  }

  ghost predicate ManagerDisables(ms: seq<ManagerLog>, x: Isin) {
    exists log <- ms :: log.isin == x && log.body.BondDisabled?
  }

  ghost predicate TokenDisables(ts: seq<TokenLog>, x: Isin) {
    x != "" && exists log <- ts :: log.body.IsinDisabled? && log.body.isin == x
  }

  /** Log `i` reports payment `n` of bond `x`, made at `at`, to a holder or for the period. */
  predicate PaysIn(ms: seq<ManagerLog>, x: Isin, i: int, n: int, at: int) {
    && 0 <= i < |ms| && x != "" && ms[i].isin == x
    && (ms[i].body.HolderCouponPaid? || ms[i].body.CouponPeriodPaid?)
    && ms[i].body.paymentNumber == n && ms[i].body.timestamp == at
  }

  /** The offering of the last log that issues, extends or reduces `x`. */
  function OfferingIn(ts: seq<TokenLog>, x: Isin): Option<nat> {
    if ts == [] || x == "" then None
    else
      match ts[|ts|-1].body
      case IsinIssued(isin, offering) => if isin == x then Some(offering) else OfferingIn(ts[..|ts|-1], x)
      case IsinExtended(isin, offering) => if isin == x then Some(offering) else OfferingIn(ts[..|ts|-1], x)
      case IsinReduced(isin, offering) => if isin == x then Some(offering) else OfferingIn(ts[..|ts|-1], x)
      case _ => OfferingIn(ts[..|ts|-1], x)
  }

  datatype Terms = Terms(couponDuration: nat, couponYield: nat, timestamp: nat)

  /** The coupon terms of the last log that enables `x`. */
  function TermsIn(ts: seq<TokenLog>, x: Isin): Option<Terms> {
    if ts == [] || x == "" then None
    else
      match ts[|ts|-1].body
      case IsinEnabled(isin, duration, yield_, timestamp) =>
        if isin == x then Some(Terms(duration, yield_, timestamp)) else TermsIn(ts[..|ts|-1], x)
      case _ => TermsIn(ts[..|ts|-1], x)
  }

  // ---------------------------------------------------------------------- the columns

  /** The columns that a creation starts from: what it carries, and nothing else. */
  function Newborn(partition: Hash, body: ManagerBody): Life
    requires body.BondCreated?
  {
    Life(partition := partition, bondAddress := body.bondAddress, disabled := false,
         maturityDuration := Some(body.maturityDuration), maturityDate := None, couponDuration := None,
         couponYield := None, lastCouponPayment := None, couponPaymentCount := 0, isMatured := false, offering := 0,
         everIssued := false)
  }

  function Start(h: PartitionHash, before: Life, ms: seq<ManagerLog>, x: Isin): Life {
    var c := CreationOf(ms, x);
    if c.Some? then Newborn(h(x), c.value.body) else before
  }

  /** The payment columns: the greatest number reported, with the time of its first report. An enabling gives the time
      as long as nothing is paid. */
  ghost predicate PaymentsWritten(base: Life, ms: seq<ManagerLog>, terms: Option<Terms>, x: Isin, l: Life) {
    && l.couponPaymentCount >= base.couponPaymentCount
    && (forall i, n, at :: PaysIn(ms, x, i, n, at) ==> n <= l.couponPaymentCount)
    && if l.couponPaymentCount == base.couponPaymentCount then
         l.lastCouponPayment == if terms.Some? && l.couponPaymentCount == 0 then Some(terms.value.timestamp)
                                else base.lastCouponPayment
       else
         && l.lastCouponPayment.Some?
         && exists i :: && PaysIn(ms, x, i, l.couponPaymentCount, l.lastCouponPayment.value)
                        && forall j, at | j < i :: !PaysIn(ms, x, j, l.couponPaymentCount, at)
  }

  ghost predicate TermsWritten(base: Life, terms: Option<Terms>, l: Life) {
    if terms.None? then
      && l.couponDuration == base.couponDuration && l.couponYield == base.couponYield
      && l.maturityDate == base.maturityDate
    else
      && l.couponDuration == Some(terms.value.couponDuration) && l.couponYield == Some(terms.value.couponYield)
      && l.maturityDate == Some(terms.value.timestamp
                                + if base.maturityDuration.Some? then base.maturityDuration.value else 0)
  }

  /** Every column, from those of `base`, the manager logs `ms` and the token logs `ts`. */
  ghost predicate Written(base: Life, ms: seq<ManagerLog>, ts: seq<TokenLog>, x: Isin, l: Life) {
    && l.partition == base.partition && l.bondAddress == base.bondAddress && l.maturityDuration == base.maturityDuration
    && (l.isMatured <==> base.isMatured || Matures(ms, x))
    && (l.everIssued <==> base.everIssued || Completes(ms, x))
    && (l.disabled <==> base.disabled || ManagerDisables(ms, x) || TokenDisables(ts, x))
    && l.offering == (if OfferingIn(ts, x).Some? then OfferingIn(ts, x).value else base.offering)
    && TermsWritten(base, TermsIn(ts, x), l)
    && PaymentsWritten(base, ms, TermsIn(ts, x), x, l)
  }

  // --------------------------------------------------------------------- manager logs

  /** What manager logs without a creation of `x` leave of `base`. */
  ghost predicate ManagerWrote(base: Life, ms: seq<ManagerLog>, x: Isin, l: Life) {
    && l == base.(isMatured := l.isMatured, everIssued := l.everIssued, disabled := l.disabled,
                  couponPaymentCount := l.couponPaymentCount, lastCouponPayment := l.lastCouponPayment)
    && (l.isMatured <==> base.isMatured || Matures(ms, x))
    && (l.everIssued <==> base.everIssued || Completes(ms, x))
    && (l.disabled <==> base.disabled || ManagerDisables(ms, x))
    && PaymentsWritten(base, ms, None, x, l)
  }

  /** One manager log, straight from its constructor. */
  function ManagerChange(l: Life, log: ManagerLog, x: Isin): Life
    requires !(log.isin == x && log.body.BondCreated?)
  {
    if log.isin != x then l
    else
      match log.body
      case BondDisabled => l.(disabled := true)
      case BondIssuanceComplete => l.(everIssued := true)
      case BondMatured => if x == "" then l else l.(isMatured := true)
      case HolderCouponPaid(n, at) => if x == "" then l else Paid(l, n, at)
      case CouponPeriodPaid(n, at) => if x == "" then l else Paid(l, n, at)
      case _ => l
  }

  function Paid(l: Life, n: nat, at: nat): Life {
    if n > l.couponPaymentCount then l.(couponPaymentCount := n, lastCouponPayment := Some(at)) else l
  }

  lemma PaymentsStep(base: Life, ms: seq<ManagerLog>, log: ManagerLog, x: Isin, l: Life)
    requires PaymentsWritten(base, ms, None, x, l) && !(log.isin == x && log.body.BondCreated?)
    ensures PaymentsWritten(base, ms + [log], None, x, ManagerChange(l, log, x))
  {
    var all, r := ms + [log], ManagerChange(l, log, x);
    forall i, n, at | i < |ms| ensures PaysIn(all, x, i, n, at) == PaysIn(ms, x, i, n, at) {}
    var n := r.couponPaymentCount;
    if n > l.couponPaymentCount {
      assert PaysIn(all, x, |ms|, n, r.lastCouponPayment.value);
      forall j, at | j < |ms| ensures !PaysIn(all, x, j, n, at) {
        assert PaysIn(all, x, j, n, at) == PaysIn(ms, x, j, n, at);
      }
    } else if n > base.couponPaymentCount {
      var at := l.lastCouponPayment.value;
      var i :| PaysIn(ms, x, i, n, at) && forall j, at | j < i :: !PaysIn(ms, x, j, n, at);
      assert PaysIn(all, x, i, n, at);
    }
  }

  lemma ManagerStep(base: Life, ms: seq<ManagerLog>, log: ManagerLog, x: Isin, l: Life)
    requires ManagerWrote(base, ms, x, l) && !(log.isin == x && log.body.BondCreated?)
    ensures ManagerWrote(base, ms + [log], x, ManagerChange(l, log, x))
  {
    var all := ms + [log];
    PaymentsStep(base, ms, log, x, l);
    assert Matures(all, x) <==> Matures(ms, x) || (x != "" && log.isin == x && log.body.BondMatured?);
    assert Completes(all, x) <==> Completes(ms, x) || (log.isin == x && log.body.BondIssuanceComplete?);
    assert ManagerDisables(all, x) <==> ManagerDisables(ms, x) || (log.isin == x && log.body.BondDisabled?);
  }

  /** The manager pass does to a bond's columns what the constructors of its logs say. */
  lemma ManagerEntryChanges(h: PartitionHash, s: BondState, ms: seq<ManagerLog>, x: Isin)
    requires ms != [] && !(ms[|ms|-1].isin == x && ms[|ms|-1].body.BondCreated?)
    ensures Reduce(s, ManagerEntriesOf(h, ms, x)).life
         == ManagerChange(Reduce(s, ManagerEntriesOf(h, ms[..|ms|-1], x)).life, ms[|ms|-1], x)
  {
    var es, log := ManagerEntriesOf(h, ms[..|ms|-1], x), ms[|ms|-1];
    var f := ManagerFact(h, log);
    if f.Some? && log.isin == x {
      assert (es + [Entry(f.value, log.id.At())])[..|es|] == es;
    }
  }

  lemma ManagerEntryCreates(h: PartitionHash, s: BondState, ms: seq<ManagerLog>, x: Isin)
    requires ms != [] && ms[|ms|-1].isin == x && ms[|ms|-1].body.BondCreated?
    ensures Reduce(s, ManagerEntriesOf(h, ms, x)).life == Newborn(h(x), ms[|ms|-1].body)
  {
    var es, log := ManagerEntriesOf(h, ms[..|ms|-1], x), ms[|ms|-1];
    var f := ManagerFact(h, log);
    assert (es + [Entry(f.value, log.id.At())])[..|es|] == es;
  }

  lemma NothingWritten(base: Life, x: Isin)
    ensures ManagerWrote(base, [], x, base)
  {
  }

  lemma {:induction false} ManagerPassWrites(h: PartitionHash, s: BondState, ms: seq<ManagerLog>, x: Isin)
    ensures ManagerWrote(Start(h, s.life, ms, x), Since(ms, x), x, Reduce(s, ManagerEntriesOf(h, ms, x)).life)
  {
    if ms == [] {
      NothingWritten(s.life, x);
    } else {
      var init, log := ms[..|ms|-1], ms[|ms|-1];
      if log.isin == x && log.body.BondCreated? {
        ManagerEntryCreates(h, s, ms, x);
        NothingWritten(Newborn(h(x), log.body), x);
      } else {
        ManagerPassWrites(h, s, init, x);
        ManagerEntryChanges(h, s, ms, x);
        ManagerStep(Start(h, s.life, init, x), Since(init, x), log, x, Reduce(s, ManagerEntriesOf(h, init, x)).life);
      }
    }
  }

  // ----------------------------------------------------------------------- token logs

  function Enable(l: Life, terms: Terms): Life {
    l.(couponDuration := Some(terms.couponDuration), couponYield := Some(terms.couponYield),
       lastCouponPayment := if l.couponPaymentCount == 0 then Some(terms.timestamp) else l.lastCouponPayment,
       maturityDate := Some(terms.timestamp + if l.maturityDuration.Some? then l.maturityDuration.value else 0))
  }

  /** What token logs leave of `base`. */
  function TokenWrote(base: Life, disabled: bool, offering: Option<nat>, terms: Option<Terms>): Life {
    var l := base.(disabled := base.disabled || disabled,
                   offering := if offering.Some? then offering.value else base.offering);
    if terms.Some? then Enable(l, terms.value) else l
  }

  /** One token log, straight from its constructor. */
  function TokenChange(l: Life, log: TokenLog, x: Isin): Life {
    if x == "" || log.body.TransferByPartition? || log.body.isin != x then l
    else
      match log.body
      case IsinIssued(_, offering) => l.(offering := offering)
      case IsinExtended(_, offering) => l.(offering := offering)
      case IsinReduced(_, offering) => l.(offering := offering)
      case IsinDisabled(_) => l.(disabled := true)
      case IsinEnabled(_, duration, yield_, timestamp) => Enable(l, Terms(duration, yield_, timestamp))
      case _ => l
  }

  lemma TokenEntryChanges(s: BondState, ts: seq<TokenLog>, x: Isin)
    requires ts != []
    ensures Reduce(s, TokenEntriesOf(ts, x)).life
         == TokenChange(Reduce(s, TokenEntriesOf(ts[..|ts|-1], x)).life, ts[|ts|-1], x)
  {
    var es, log := TokenEntriesOf(ts[..|ts|-1], x), ts[|ts|-1];
    var f := TokenFact(log);
    if f.Some? && log.body.isin == x {
      assert (es + [Entry(f.value, log.id.At())])[..|es|] == es;
    }
  }

  lemma TokenStep(base: Life, log: TokenLog, x: Isin, disabled: bool, offering: Option<nat>, terms: Option<Terms>,
                  offering': Option<nat>, terms': Option<Terms>)
    requires offering' == var o := OfferingIn([log], x); if o.Some? then o else offering
    requires terms' == var t := TermsIn([log], x); if t.Some? then t else terms
    ensures TokenChange(TokenWrote(base, disabled, offering, terms), log, x)
         == TokenWrote(base, disabled || TokenDisables([log], x), offering', terms')
  {
    assert [log][..0] == [];
    assert log in [log];
    OneToken(log, x);
  }

  lemma OneToken(log: TokenLog, x: Isin)
    ensures TokenDisables([log], x) <==> x != "" && log.body.IsinDisabled? && log.body.isin == x
  {
    assert log in [log];
  }

  lemma LastTokenLog(ts: seq<TokenLog>, x: Isin)
    requires ts != []
    ensures var init, log := ts[..|ts|-1], ts[|ts|-1];
            && (TokenDisables(ts, x) <==> TokenDisables(init, x) || TokenDisables([log], x))
            && OfferingIn(ts, x) == (if OfferingIn([log], x).Some? then OfferingIn([log], x) else OfferingIn(init, x))
            && TermsIn(ts, x) == (if TermsIn([log], x).Some? then TermsIn([log], x) else TermsIn(init, x))
  {
    var init, log := ts[..|ts|-1], ts[|ts|-1];
    assert ts == init + [log];
    assert [log][..0] == [];
    OneToken(log, x);
  }

  lemma {:induction false} TokenPassWrites(s: BondState, ts: seq<TokenLog>, x: Isin)
    ensures Reduce(s, TokenEntriesOf(ts, x)).life
         == TokenWrote(s.life, TokenDisables(ts, x), OfferingIn(ts, x), TermsIn(ts, x))
  {
    if ts != [] {
      TokenPassWrites(s, ts[..|ts|-1], x);
      TokenEntryChanges(s, ts, x);
      LastTokenLog(ts, x);
      var init := ts[..|ts|-1];
      TokenStep(s.life, ts[|ts|-1], x, TokenDisables(init, x), OfferingIn(init, x), TermsIn(init, x),
                OfferingIn(ts, x), TermsIn(ts, x));
    }
  }

  lemma BothWritten(base: Life, ms: seq<ManagerLog>, ts: seq<TokenLog>, x: Isin, mid: Life, l: Life)
    requires ManagerWrote(base, ms, x, mid)
    requires l == TokenWrote(mid, TokenDisables(ts, x), OfferingIn(ts, x), TermsIn(ts, x))
    ensures Written(base, ms, ts, x, l)
  {
  }

  // ------------------------------------------------------------------------ one window

  /** After a window, every column of every bond is what the logs of the window say: those of the manager since the
      bond's last creation there, if there is one, and then all those of the token. */
  lemma WindowWrites(h: PartitionHash, t: Tables, b: Batch, x: Isin)
    requires Process(h, t, b).Success?
    ensures Written(Start(h, BondOf(h, t.bonds, x).life, b.manager, x), Since(b.manager, x), b.token, x,
                    BondOf(h, Process(h, t, b).value.bonds, x).life)
  {
    var s := BondOf(h, t.bonds, x);
    var m := Reduce(s, ManagerEntriesOf(h, b.manager, x));
    ProcessAt(h, t, b);
    assert BondPass(h, t, b, x) == Success(BondOf(h, Process(h, t, b).value.bonds, x));
    ManagerPassWrites(h, s, b.manager, x);
    TokenPassWrites(m, b.token, x);
    SupplyPassSums(Reduce(m, TokenEntriesOf(b.token, x)), SupplyOf(Announce(h, t.partitions, b), t.books, b.token, x));
    BothWritten(Start(h, s.life, b.manager, x), Since(b.manager, x), b.token, x, m.life,
                BondOf(h, Process(h, t, b).value.bonds, x).life);
  }

  /** On a valid chain whose creations mask, every column is what all the logs so far say, since the bond's last
      creation. */
  lemma ChainWrites(h: PartitionHash, chain: Chain, n: nat, x: Isin)
    requires ValidChain(h, chain) && CreationsMask(h, chain) && n <= |chain|
    ensures var b := JoinAll(chain[..n]);
            Written(Start(h, BlankLife(h(x)), b.manager, x), Since(b.manager, x), b.token, x,
                    BondOf(h, TablesAfter(h, chain, n).bonds, x).life)
  {
    WindowStep(h, chain, 0, n, chain[..n]);
    NothingAfterNoBlock(h, chain);
    WindowWrites(h, NO_TABLES, JoinAll(chain[..n]), x);
  }

  // ---------------------------------------------------------------------- partitions

  /** A log that names `x` for a mapping: the manager's auction, creation, payment, maturity and redemption, and every
      lifecycle event of the token. An empty ISIN is mapped only by an auction or a creation. */
  ghost predicate NamedByManager(ms: seq<ManagerLog>, x: Isin) {
    exists log <- ms :: log.isin == x &&
      (|| log.body.AuctionInitialised? || log.body.BondCreated?
       || (x != "" && (log.body.HolderCouponPaid? || log.body.CouponPeriodPaid? || log.body.BondMatured?
                       || log.body.BondRedeemed?)))
  }

  ghost predicate NamedByToken(ts: seq<TokenLog>, x: Isin) {
    x != "" && exists log <- ts :: !log.body.TransferByPartition? && log.body.isin == x
  }

  lemma AnnouncesExactly(b: Batch, x: Isin)
    ensures Announces(b, x) <==> NamedByManager(b.manager, x) || NamedByToken(b.token, x)
  {
  }

  /** Exactly the partitions of the ISINs that are named, or were before, are mapped, each to its ISIN. */
  lemma WindowMaps(h: PartitionHash, t: Tables, b: Batch, x: Isin)
    requires Injective(h) && WellMapped(h, t.partitions) && Process(h, t, b).Success?
    ensures var p := Process(h, t, b).value.partitions;
            && (h(x) in p <==> h(x) in t.partitions || NamedByManager(b.manager, x) || NamedByToken(b.token, x))
            && (h(x) in p ==> p[h(x)] == x)
  {
    ProcessAt(h, t, b);
    AnnounceAt(h, t.partitions, b, x);
    AnnouncesExactly(b, x);
  }

  // -------------------------------------------------------------------------- history

  function RowOf(log: ManagerLog): HistoryRow {
    HistoryRow(id := log.id, isin := log.isin, body := log.body)
  }

  ghost predicate KnownIn(rows: seq<HistoryRow>, log: ManagerLog) {
    exists r <- rows :: r.id.tx == log.id.tx && r.id.index == log.id.index
  }

  /** The history keeps its rows and gains, in order, the row of each log that is new: every log but the start of an
      auction, with its own key, ISIN and payload. */
  lemma {:induction false} HistoryGains(rows: seq<HistoryRow>, logs: seq<ManagerLog>)
    ensures rows <= History(rows, logs)
    ensures forall k | |rows| <= k < |History(rows, logs)| ::
              exists log <- logs :: History(rows, logs)[k] == RowOf(log) && !log.body.AuctionInitialised?
    ensures forall i | 0 <= i < |logs| ::
              !logs[i].body.AuctionInitialised? && !KnownIn(History(rows, logs[..i]), logs[i]) ==>
              RowOf(logs[i]) in History(rows, logs)
    ensures logs != [] ==>
              History(rows, logs) ==
              var before, log := History(rows, logs[..|logs|-1]), logs[|logs|-1];
              if log.body.AuctionInitialised? || KnownIn(before, log) then before else before + [RowOf(log)]
  {
    if logs != [] {
      var init, last := logs[..|logs|-1], logs[|logs|-1];
      assert logs == init + [last];
      HistoryGains(rows, init);
      var before, after := History(rows, init), History(rows, logs);
      assert KnownIn(before, last) <==> exists r <- before :: r.id.SameLog(last.id);
      forall k | |rows| <= k < |after|
        ensures exists log <- logs :: after[k] == RowOf(log) && !log.body.AuctionInitialised?
      {
        if k < |before| {
          var log :| log in init && before[k] == RowOf(log) && !log.body.AuctionInitialised?;
          assert log in logs && after[k] == RowOf(log);
        } else {
          assert last in logs;
        }
      }
      forall i | 0 <= i < |logs| && !logs[i].body.AuctionInitialised? && !KnownIn(History(rows, logs[..i]), logs[i])
        ensures RowOf(logs[i]) in after
      {
        if i < |init| {
          assert init[..i] == logs[..i];
          assert RowOf(init[i]) in before;
        } else {
          assert logs[..i] == init;
          assert after[|before|] == RowOf(last);
        }
      }
    }
  }
}
