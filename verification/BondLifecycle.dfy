/**
 The per-ISIN lifecycle reducer of the bond projection
 (services/nb-bond-api/src/projection/bond-state.ts).

 Decimal text columns hold unbounded integers, and a uint256 argument is a `nat`.
 The lifecycle columns of a row are grouped in `Life`. `BondFact` has one constructor for each
 event the two lifecycle passes produce; `SupplyDelta` is the one event that can fail, so it is
 reduced apart from them.
 */
module BondLifecycle {
  import opened Prelude

  type Isin = string
  type Hash = nat
  type Address = nat

  datatype Position = Position(block: nat, logIndex: nat)

  datatype Life = Life(
    partition: Hash,
    bondAddress: Option<Address>,
    disabled: bool,
    maturityDuration: Option<nat>,
    maturityDate: Option<nat>,
    couponDuration: Option<nat>,
    couponYield: Option<nat>,
    lastCouponPayment: Option<nat>,
    couponPaymentCount: nat,
    isMatured: bool,
    offering: nat,
    everIssued: bool)

  datatype BondState = BondState(isin: Isin, life: Life, totalSupply: int, updated: Position)

  datatype BondFact =
    | Created(partition: Hash, bondAddress: Option<Address>, maturityDuration: nat)
    | Disabled
    | OfferingSet(offering: nat) // issued, offering-changed
    | Enabled(couponDuration: nat, couponYield: nat, timestamp: nat)
    | IssuanceComplete
    | CouponPaid(paymentNumber: nat, timestamp: nat)
    | Matured

  /** A fact and the chain position of the log that carried it. */
  datatype Entry = Entry(fact: BondFact, at: Position)

  /** A written mint (positive) or burn (negative) and its position. */
  datatype SupplyDelta = SupplyDelta(delta: int, at: Position)

  // ---------------------------------------------------------------- reducer

  const ORIGIN := Position(0, 0)

  function BlankLife(partition: Hash): Life {
    Life(partition, None, false, None, None, None, None, None, 0, false, 0, false)
  }

  function EmptyBond(isin: Isin, partition: Hash): BondState {
    BondState(isin, BlankLife(partition), 0, ORIGIN)
  }

  predicate After(p: Position, q: Position) {
    p.block > q.block || (p.block == q.block && p.logIndex > q.logIndex)
  }

  function Later(p: Position, q: Position): Position {
    if After(q, p) then q else p
  }

  function Change(l: Life, fact: BondFact): Life {
    match fact
    case Created(partition, bondAddress, maturityDuration) =>
      BlankLife(partition).(bondAddress := bondAddress, maturityDuration := Some(maturityDuration))
    case Disabled => l.(disabled := true)
    case OfferingSet(offering) => l.(offering := offering)
    case Enabled(couponDuration, couponYield, timestamp) =>
      l.(couponDuration := Some(couponDuration),
         couponYield := Some(couponYield),
         lastCouponPayment := if l.couponPaymentCount == 0 then Some(timestamp) else l.lastCouponPayment,
         maturityDate := Some(timestamp + if l.maturityDuration.Some? then l.maturityDuration.value else 0))
    case IssuanceComplete => l.(everIssued := true)
    case CouponPaid(paymentNumber, timestamp) =>
      if paymentNumber > l.couponPaymentCount
      then l.(couponPaymentCount := paymentNumber, lastCouponPayment := Some(timestamp))
      else l
    case Matured => l.(isMatured := true)
  }

  /** A creation starts from the empty row, every other fact from the current one. */
  function ApplyFact(s: BondState, e: Entry): BondState {
    var next := if e.fact.Created? then EmptyBond(s.isin, e.fact.partition) else s;
    next.(life := Change(next.life, e.fact), updated := Later(next.updated, e.at))
  }

  function ApplySupply(s: BondState, d: SupplyDelta): Result<BondState, string> {
    if s.totalSupply + d.delta < 0
    then Failure("negative projected supply for " + s.isin)
    else Success(s.(totalSupply := s.totalSupply + d.delta, updated := Later(s.updated, d.at)))
  }

  function Reduce(s: BondState, entries: seq<Entry>): BondState {
    if entries == [] then s
    else ApplyFact(Reduce(s, entries[..|entries|-1]), entries[|entries|-1])
  }

  function ReduceSupply(s: BondState, deltas: seq<SupplyDelta>): Result<BondState, string> {
    if deltas == [] then Success(s)
    else
      var before := ReduceSupply(s, deltas[..|deltas|-1]);
      if before.Failure? then before else ApplySupply(before.value, deltas[|deltas|-1])
  }

  lemma {:induction false} ReduceAppend(s: BondState, a: seq<Entry>, b: seq<Entry>)
    ensures Reduce(s, a + b) == Reduce(Reduce(s, a), b)
  {
    if b == [] {
      assert a + b == a;
    } else {
      ReduceAppend(s, a, b[..|b|-1]);
      assert (a + b)[..|a+b|-1] == a + b[..|b|-1];
    }
  }

  lemma {:induction false} ReduceSupplyAppend(s: BondState, a: seq<SupplyDelta>, b: seq<SupplyDelta>)
    ensures ReduceSupply(s, a + b) ==
            if ReduceSupply(s, a).Failure? then ReduceSupply(s, a) else ReduceSupply(ReduceSupply(s, a).value, b)
  {
    if b == [] {
      assert a + b == a;
    } else {
      ReduceSupplyAppend(s, a, b[..|b|-1]);
      assert (a + b)[..|a+b|-1] == a + b[..|b|-1];
    }
  }

  // ----------------------------------------- which pass produces which fact

  /** Facts of the manager pass; the token pass produces the others, and `Disabled` too. */
  predicate FromManager(f: BondFact) {
    f.Created? || f.Disabled? || f.IssuanceComplete? || f.CouponPaid? || f.Matured?
  }

  predicate FromToken(f: BondFact) {
    f.Disabled? || f.OfferingSet? || f.Enabled?
  }

  ghost predicate ManagerEntries(es: seq<Entry>) {
    forall e <- es :: FromManager(e.fact)
  }

  ghost predicate TokenEntries(es: seq<Entry>) {
    forall e <- es :: FromToken(e.fact)
  }

  predicate HasCreated(es: seq<Entry>) {
    exists e <- es :: e.fact.Created?
  }

  lemma TokenEntriesCreateNothing(ts: seq<Entry>)
    requires TokenEntries(ts)
    ensures !HasCreated(ts)
  {
  }

  // ------------------------------------------------------------ commutation

  /** The core of window independence: a manager fact other than `Created` commutes
      with every token fact, `CouponPaid` with `Enabled` included. */
  lemma ManagerFactCommutesWithTokenFact(s: BondState, m: Entry, t: Entry)
    requires FromManager(m.fact) && !m.fact.Created? && FromToken(t.fact)
    ensures ApplyFact(ApplyFact(s, t), m) == ApplyFact(ApplyFact(s, m), t)
  {
    ChangesCommute(s.life, m.fact, t.fact);
    LaterCommutes(s.updated, m.at, t.at);
  }

  lemma ChangesCommute(l: Life, m: BondFact, t: BondFact)
    requires FromManager(m) && !m.Created? && FromToken(t)
    ensures Change(Change(l, t), m) == Change(Change(l, m), t)
  {
  }

  lemma LaterCommutes(p: Position, q: Position, r: Position)
    ensures Later(Later(p, q), r) == Later(Later(p, r), q)
  {
  }

  lemma {:induction false} FactCommutesWithTokenPass(s: BondState, m: Entry, ts: seq<Entry>)
    requires FromManager(m.fact) && !m.fact.Created? && TokenEntries(ts)
    ensures ApplyFact(Reduce(s, ts), m) == Reduce(ApplyFact(s, m), ts)
  {
    if ts != [] {
      var init := ts[..|ts|-1];
      FactCommutesWithTokenPass(s, m, init);
      ManagerFactCommutesWithTokenFact(Reduce(s, init), m, ts[|ts|-1]);
    }
  }

  lemma {:induction false} PassesCommute(s: BondState, ms: seq<Entry>, ts: seq<Entry>)
    requires ManagerEntries(ms) && !HasCreated(ms) && TokenEntries(ts)
    ensures Reduce(Reduce(s, ts), ms) == Reduce(Reduce(s, ms), ts)
  {
    if ms != [] {
      var init, m := ms[..|ms|-1], ms[|ms|-1];
      PassesCommute(s, init, ts);
      FactCommutesWithTokenPass(Reduce(s, init), m, ts);
    }
  }

  // ------------------------------------------------- closed forms of a pass

  predicate HasDisabled(es: seq<Entry>) {
    exists e <- es :: e.fact.Disabled?
  }

  predicate HasEnabled(es: seq<Entry>) {
    exists e <- es :: e.fact.Enabled?
  }

  predicate HasIssued(es: seq<Entry>) {
    exists e <- es :: e.fact.IssuanceComplete?
  }

  predicate HasMatured(es: seq<Entry>) {
    exists e <- es :: e.fact.Matured?
  }

  function LastOffering(es: seq<Entry>): Option<nat> {
    if es == [] then None
    else
      var last := es[|es|-1].fact;
      if last.OfferingSet? then Some(last.offering) else LastOffering(es[..|es|-1])
  }

  function LastEnabled(es: seq<Entry>): (r: Option<BondFact>)
    ensures r.Some? <==> HasEnabled(es)
    ensures r.Some? ==> r.value.Enabled?
  {
    if es == [] then None
    else
      var last := es[|es|-1].fact;
      if last.Enabled? then Some(last) else LastEnabled(es[..|es|-1])
  }

  function Latest(p: Position, es: seq<Entry>): Position {
    if es == [] then p else Later(Latest(p, es[..|es|-1]), es[|es|-1].at)
  }

  function Laid(l: Life, disabled: bool, offering: Option<nat>, enabled: Option<BondFact>): Life {
    var k := l.(disabled := l.disabled || disabled,
                offering := if offering.Some? then offering.value else l.offering);
    if enabled.Some? then Change(k, enabled.value) else k
  }

  /** A token pass only overlays: the last offering, the last enable, the disabled flag. */
  function OverlayLife(l: Life, es: seq<Entry>): Life {
    Laid(l, HasDisabled(es), LastOffering(es), LastEnabled(es))
  }

  function Overlay(s: BondState, es: seq<Entry>): BondState {
    s.(life := OverlayLife(s.life, es), updated := Latest(s.updated, es))
  }

  lemma {:induction false} TokenPassOverlays(s: BondState, es: seq<Entry>)
    requires TokenEntries(es)
    ensures Reduce(s, es) == Overlay(s, es)
  {
    if es != [] {
      var init, last := es[..|es|-1], es[|es|-1];
      TokenPassOverlays(s, init);
      assert es == init + [last];
      OverlayStep(s.life, init, last);
    }
  }

  lemma OverlayStep(l: Life, init: seq<Entry>, last: Entry)
    requires FromToken(last.fact)
    ensures Change(OverlayLife(l, init), last.fact) == OverlayLife(l, init + [last])
  {
    var es := init + [last];
    assert es[..|es|-1] == init;
    assert HasDisabled(es) == (HasDisabled(init) || last.fact.Disabled?);
    assert LastOffering(es) == if last.fact.OfferingSet? then Some(last.fact.offering) else LastOffering(init);
    assert LastEnabled(es) == if last.fact.Enabled? then Some(last.fact) else LastEnabled(init);
    LaidStep(l, HasDisabled(init), LastOffering(init), LastEnabled(init), last.fact);
  }

  lemma LaidStep(l: Life, disabled: bool, offering: Option<nat>, enabled: Option<BondFact>, f: BondFact)
    requires FromToken(f) && (enabled.Some? ==> enabled.value.Enabled?)
    ensures Change(Laid(l, disabled, offering, enabled), f)
         == Laid(l, disabled || f.Disabled?,
                 if f.OfferingSet? then Some(f.offering) else offering,
                 if f.Enabled? then Some(f) else enabled)
  {
  }

  function SumDeltas(ds: seq<SupplyDelta>): int {
    if ds == [] then 0 else SumDeltas(ds[..|ds|-1]) + ds[|ds|-1].delta
  }

  function LatestDelta(p: Position, ds: seq<SupplyDelta>): Position {
    if ds == [] then p else Later(LatestDelta(p, ds[..|ds|-1]), ds[|ds|-1].at)
  }

  /** No running total of `ds`, started at `supply`, is negative. */
  ghost predicate StaysCovered(supply: int, ds: seq<SupplyDelta>) {
    forall k | 0 < k <= |ds| :: supply + SumDeltas(ds[..k]) >= 0
  }

  function AddSupply(s: BondState, ds: seq<SupplyDelta>): BondState {
    s.(totalSupply := s.totalSupply + SumDeltas(ds), updated := LatestDelta(s.updated, ds))
  }

  lemma {:induction false} CoveredStep(supply: int, ds: seq<SupplyDelta>)
    requires ds != []
    ensures StaysCovered(supply, ds) <==> StaysCovered(supply, ds[..|ds|-1]) && supply + SumDeltas(ds) >= 0
  {
    var init := ds[..|ds|-1];
    assert ds[..|ds|] == ds;
    forall k | 0 <= k <= |init| ensures ds[..k] == init[..k] {}
    if StaysCovered(supply, ds) {
      forall k | 0 < k <= |init| ensures supply + SumDeltas(init[..k]) >= 0 {
        assert supply + SumDeltas(ds[..k]) >= 0;
      }
      assert supply + SumDeltas(ds[..|ds|]) >= 0;
    }
  }

  /** The supply pass fails exactly when some running total is negative, and otherwise adds the sum. */
  lemma {:induction false} SupplyPassSums(s: BondState, ds: seq<SupplyDelta>)
    ensures ReduceSupply(s, ds).Success? <==> StaysCovered(s.totalSupply, ds)
    ensures ReduceSupply(s, ds).Success? ==> ReduceSupply(s, ds).value == AddSupply(s, ds)
  {
    if ds != [] {
      SupplyPassSums(s, ds[..|ds|-1]);
      CoveredStep(s.totalSupply, ds);
    }
  }

  lemma {:induction false} SumDeltasAppend(a: seq<SupplyDelta>, b: seq<SupplyDelta>)
    ensures SumDeltas(a + b) == SumDeltas(a) + SumDeltas(b)
  {
    if b == [] {
      assert a + b == a;
    } else {
      SumDeltasAppend(a, b[..|b|-1]);
      assert (a + b)[..|a+b|-1] == a + b[..|b|-1];
    }
  }

  lemma {:induction false} LatestDeltaAppend(p: Position, a: seq<SupplyDelta>, b: seq<SupplyDelta>)
    ensures LatestDelta(p, a + b) == LatestDelta(LatestDelta(p, a), b)
  {
    if b == [] {
      assert a + b == a;
    } else {
      LatestDeltaAppend(p, a, b[..|b|-1]);
      assert (a + b)[..|a+b|-1] == a + b[..|b|-1];
    }
  }

  lemma {:induction false} LatestDeltaShifts(p: Position, q: Position, ds: seq<SupplyDelta>)
    ensures LatestDelta(Later(p, q), ds) == Later(LatestDelta(p, ds), q)
  {
    if ds != [] {
      LatestDeltaShifts(p, q, ds[..|ds|-1]);
    }
  }

  /** The supply pass commutes with every fact but `Created`. */
  lemma {:induction false} SupplyCommutesWithFacts(s: BondState, es: seq<Entry>, ds: seq<SupplyDelta>)
    requires !HasCreated(es)
    ensures AddSupply(Reduce(s, es), ds) == Reduce(AddSupply(s, ds), es)
    ensures Reduce(s, es).totalSupply == s.totalSupply
  {
    if es != [] {
      var before := Reduce(s, es[..|es|-1]);
      SupplyCommutesWithFacts(s, es[..|es|-1], ds);
      LatestDeltaShifts(before.updated, es[|es|-1].at, ds);
    }
  }

  // ------------------------------------------------------------ re-creation

  /** Is the bond disabled by `es` alone, counting from its last `Created`? */
  function DisabledSinceCreated(es: seq<Entry>): bool {
    if es == [] then false
    else
      var last := es[|es|-1].fact;
      !last.Created? && (last.Disabled? || DisabledSinceCreated(es[..|es|-1]))
  }

  /** A row as the manager pass leaves it: no supply, and the token-side columns blank. */
  predicate Young(s: BondState, disabled: bool) {
    s.totalSupply == 0 && s.life.offering == 0 && s.life.couponDuration.None? && s.life.disabled == disabled
  }

  /** `Created` starts a new life: nothing of the state before it survives, and in the
      manager pass the token-side columns stay blank after it. */
  lemma {:induction false} CreatedForgets(s: BondState, s': BondState, ms: seq<Entry>)
    requires s.isin == s'.isin && ManagerEntries(ms) && HasCreated(ms)
    ensures Reduce(s, ms) == Reduce(s', ms)
    ensures Young(Reduce(s, ms), DisabledSinceCreated(ms))
    ensures exists c <- ms :: c.fact.Created? && !After(c.at, Reduce(s, ms).updated)
  {
    var init, last := ms[..|ms|-1], ms[|ms|-1];
    assert ms == init + [last];
    IsinKept(s, init);
    IsinKept(s', init);
    if last.fact.Created? {
      assert last in ms;
    } else {
      assert HasCreated(init);
      CreatedForgets(s, s', init);
      YoungStays(Reduce(s, init), last, DisabledSinceCreated(init));
      var c :| c in init && c.fact.Created? && !After(c.at, Reduce(s, init).updated);
      assert c in ms;
    }
  }

  lemma YoungStays(s: BondState, e: Entry, disabled: bool)
    requires FromManager(e.fact) && !e.fact.Created? && Young(s, disabled)
    ensures Young(ApplyFact(s, e), disabled || e.fact.Disabled?)
  {
  }

  lemma {:induction false} IsinKept(s: BondState, es: seq<Entry>)
    ensures Reduce(s, es).isin == s.isin
  {
    if es != [] {
      IsinKept(s, es[..|es|-1]);
    }
  }

  /** One batch at one bond: the manager pass, the token pass, then the supply pass. */
  function Pass(s: BondState, ms: seq<Entry>, ts: seq<Entry>, ds: seq<SupplyDelta>): Result<BondState, string> {
    ReduceSupply(Reduce(Reduce(s, ms), ts), ds)
  }

  /** The token-side facts of an earlier batch (`tu`, `du`) leave no trace on the bond that the
      later batch (`mv`, `tv`) creates, although a merged batch applies them after that creation. */
  ghost predicate StaleFactsMasked(mv: seq<Entry>, tu: seq<Entry>, tv: seq<Entry>, du: seq<SupplyDelta>) {
    && (HasDisabled(tu) ==> DisabledSinceCreated(mv) || HasDisabled(tv))
    && (LastOffering(tu) in {None, Some(0)} || LastOffering(tv).Some?)
    && (HasEnabled(tu) ==> HasEnabled(tv))
    && StaysCovered(0, du) && SumDeltas(du) == 0
  }

  /** No position of the earlier batch is after a creation of the later one. */
  ghost predicate PrecedeCreation(tu: seq<Entry>, du: seq<SupplyDelta>, mv: seq<Entry>) {
    forall c <- mv | c.fact.Created? ::
      && (forall t <- tu :: !After(t.at, c.at))
      && (forall d <- du :: !After(d.at, c.at))
  }

  /** Merging two batches of one bond changes nothing when the later one does not create it. */
  lemma MergeWithoutCreation(
    s: BondState, mu: seq<Entry>, tu: seq<Entry>, du: seq<SupplyDelta>,
    mv: seq<Entry>, tv: seq<Entry>, dv: seq<SupplyDelta>)
    requires ManagerEntries(mv) && TokenEntries(tu) && TokenEntries(tv) && !HasCreated(mv)
    requires Pass(s, mu, tu, du).Success?
    ensures Pass(s, mu + mv, tu + tv, du + dv) == Pass(Pass(s, mu, tu, du).value, mv, tv, dv)
  {
    var x := Reduce(s, mu);
    var y := Reduce(x, tu);
    SupplyPassSums(y, du);
    TokenEntriesCreateNothing(tv);
    SupplyCommutesWithFacts(y, mv, du);
    SupplyCommutesWithFacts(Reduce(y, mv), tv, du);
    PassesCommute(x, mv, tu);
    ReduceAppend(s, mu, mv);
    ReduceAppend(Reduce(x, mv), tu, tv);
    var z := Reduce(Reduce(y, mv), tv);
    assert z == Reduce(Reduce(s, mu + mv), tu + tv);
    ReduceSupplyAppend(z, du, dv);
    SupplyPassSums(z, du);
    assert z.totalSupply == y.totalSupply;
  }

  lemma {:induction false} LatestOfEarlier(p: Position, es: seq<Entry>, ds: seq<SupplyDelta>)
    requires forall e <- es :: !After(e.at, p)
    requires forall d <- ds :: !After(d.at, p)
    ensures Latest(p, es) == p && LatestDelta(p, ds) == p
  {
    if es != [] {
      LatestOfEarlier(p, es[..|es|-1], ds);
    } else if ds != [] {
      LatestOfEarlier(p, es, ds[..|ds|-1]);
    }
  }

  lemma {:induction false} LastTokenFactsAppend(a: seq<Entry>, b: seq<Entry>)
    ensures LastOffering(a + b) == if LastOffering(b).Some? then LastOffering(b) else LastOffering(a)
    ensures LastEnabled(a + b) == if LastEnabled(b).Some? then LastEnabled(b) else LastEnabled(a)
  {
    if b == [] {
      assert a + b == a;
    } else {
      LastTokenFactsAppend(a, b[..|b|-1]);
      assert (a + b)[..|a+b|-1] == a + b[..|b|-1];
    }
  }

  lemma {:induction false} LatestAppend(p: Position, a: seq<Entry>, b: seq<Entry>)
    ensures Latest(p, a + b) == Latest(Latest(p, a), b)
  {
    if b == [] {
      assert a + b == a;
    } else {
      LatestAppend(p, a, b[..|b|-1]);
      assert (a + b)[..|a+b|-1] == a + b[..|b|-1];
    }
  }

  lemma {:induction false} LatestIsLater(p: Position, es: seq<Entry>)
    ensures !After(p, Latest(p, es))
  {
    if es != [] {
      LatestIsLater(p, es[..|es|-1]);
    }
  }

  lemma OverlaysAgree(l: Life, tu: seq<Entry>, tv: seq<Entry>)
    requires l.offering == 0 && l.couponDuration.None?
    ensures OverlayLife(l, tu + tv) == OverlayLife(l, tv)
       <==> (&& (HasDisabled(tu) ==> l.disabled || HasDisabled(tv))
             && (LastOffering(tu) in {None, Some(0)} || LastOffering(tv).Some?)
             && (HasEnabled(tu) ==> HasEnabled(tv)))
  {
    LastTokenFactsAppend(tu, tv);
    assert HasDisabled(tu + tv) == (HasDisabled(tu) || HasDisabled(tv));
    var p, q := OverlayLife(l, tu + tv), OverlayLife(l, tv);
    if HasEnabled(tv) {
      assert LastEnabled(tu + tv) == LastEnabled(tv);
    } else if HasEnabled(tu) {
      assert p.couponDuration.Some? && q.couponDuration.None?;
    }
    assert p.disabled == (l.disabled || HasDisabled(tu) || HasDisabled(tv));
    assert q.disabled == (l.disabled || HasDisabled(tv));
  }

  lemma MergedSupply(p: BondState, q: BondState, du: seq<SupplyDelta>, dv: seq<SupplyDelta>)
    requires p.totalSupply == q.totalSupply == 0 && p.updated == q.updated && p.isin == q.isin
    requires LatestDelta(q.updated, du) == q.updated
    requires ReduceSupply(q, dv).Success?
    ensures ReduceSupply(p, du + dv) == ReduceSupply(q, dv)
       <==> p.life == q.life && StaysCovered(0, du) && SumDeltas(du) == 0
  {
    SupplyPassSums(q, dv);
    SupplyPassSums(p, du);
    SupplyPassSums(p, du + dv);
    SupplyPassSums(AddSupply(p, du), dv);
    ReduceSupplyAppend(p, du, dv);
    SumDeltasAppend(du, dv);
    LatestDeltaAppend(p.updated, du, dv);
  }

  /** A batch that re-creates the bond: merging it with the batch before is harmless exactly
      when that batch's token-side facts are masked. */
  lemma MergeWithCreation(
    s: BondState, mu: seq<Entry>, tu: seq<Entry>, du: seq<SupplyDelta>,
    mv: seq<Entry>, tv: seq<Entry>, dv: seq<SupplyDelta>)
    requires ManagerEntries(mv) && TokenEntries(tu) && TokenEntries(tv) && HasCreated(mv)
    requires PrecedeCreation(tu, du, mv)
    requires Pass(s, mu, tu, du).Success?
    requires Pass(Pass(s, mu, tu, du).value, mv, tv, dv).Success?
    ensures Pass(s, mu + mv, tu + tv, du + dv) == Pass(Pass(s, mu, tu, du).value, mv, tv, dv)
       <==> StaleFactsMasked(mv, tu, tv, du)
  {
    var x := Reduce(s, mu);
    var y := Reduce(x, tu);
    SupplyPassSums(y, du);
    var s1 := Pass(s, mu, tu, du).value;
    IsinKept(s, mu);
    IsinKept(x, tu);
    CreatedForgets(x, s1, mv);
    ReduceAppend(s, mu, mv);
    var m := Reduce(s1, mv);
    assert m == Reduce(s, mu + mv);
    // the stale positions are all covered by the creation
    var c :| c in mv && c.fact.Created? && !After(c.at, m.updated);
    forall e | e in tu ensures !After(e.at, m.updated) { assert !After(e.at, c.at); }
    forall d | d in du ensures !After(d.at, m.updated) { assert !After(d.at, c.at); }
    LatestOfEarlier(m.updated, tu, du);
    TokenPassOverlays(m, tv);
    TokenPassOverlays(m, tu + tv);
    LatestAppend(m.updated, tu, tv);
    LatestIsLater(m.updated, tv);
    forall d | d in du ensures !After(d.at, Latest(m.updated, tv)) {}
    LatestOfEarlier(Latest(m.updated, tv), [], du);
    MergedSupply(Overlay(m, tu + tv), Overlay(m, tv), du, dv);
    OverlaysAgree(m.life, tu, tv);
  }

  // ------------------------------------------------------------------ replay

  /** `e` has nothing left to say to `s`. */
  predicate Settled(s: BondState, e: Entry) {
    && !After(e.at, s.updated)
    && match e.fact
       case Disabled => s.life.disabled
       case IssuanceComplete => s.life.everIssued
       case CouponPaid(paymentNumber, _) => paymentNumber <= s.life.couponPaymentCount
       case Matured => s.life.isMatured
       case _ => false
  }

  lemma SettledStays(s: BondState, e: Entry, f: Entry)
    requires Settled(s, e) && !f.fact.Created?
    ensures Settled(ApplyFact(s, f), e)
  {
  }

  lemma {:induction false} SettledStaysThrough(s: BondState, e: Entry, es: seq<Entry>)
    requires Settled(s, e) && !HasCreated(es)
    ensures Settled(Reduce(s, es), e)
  {
    if es != [] {
      SettledStaysThrough(s, e, es[..|es|-1]);
      SettledStays(Reduce(s, es[..|es|-1]), e, es[|es|-1]);
    }
  }

  lemma {:induction false} PassSettles(s: BondState, ms: seq<Entry>)
    requires ManagerEntries(ms) && !HasCreated(ms)
    ensures forall e <- ms :: Settled(Reduce(s, ms), e)
  {
    if ms != [] {
      var init, last := ms[..|ms|-1], ms[|ms|-1];
      PassSettles(s, init);
      forall e | e in ms ensures Settled(Reduce(s, ms), e) {
        if e in init { SettledStays(Reduce(s, init), e, last); }
      }
    }
  }

  lemma {:induction false} SettledPassIsIdle(s: BondState, ms: seq<Entry>)
    requires forall e <- ms :: Settled(s, e)
    ensures Reduce(s, ms) == s
  {
    if ms != [] {
      SettledPassIsIdle(s, ms[..|ms|-1]);
      SettledIsIdle(s, ms[|ms|-1]);
    }
  }

  lemma SettledIsIdle(s: BondState, e: Entry)
    requires Settled(s, e)
    ensures ApplyFact(s, e) == s
  {
    assert Change(s.life, e.fact) == s.life;
  }

  lemma {:induction false} LatestDeltaIsLater(p: Position, q: Position, ds: seq<SupplyDelta>)
    requires !After(q, p)
    ensures !After(q, LatestDelta(p, ds))
  {
    if ds != [] {
      LatestDeltaIsLater(p, q, ds[..|ds|-1]);
    }
  }

  lemma {:induction false} LatestCovers(p: Position, q: Position, es: seq<Entry>)
    requires !After(Latest(p, es), q)
    ensures Latest(q, es) == q
  {
    if es != [] {
      LatestCovers(p, q, es[..|es|-1]);
    }
  }

  lemma OverlayTwice(m: BondState, ts: seq<Entry>, ds: seq<SupplyDelta>)
    ensures Overlay(AddSupply(Overlay(m, ts), ds), ts) == AddSupply(Overlay(m, ts), ds)
  {
    var t := Overlay(m, ts);
    LatestDeltaIsLater(t.updated, t.updated, ds);
    LatestCovers(m.updated, LatestDelta(t.updated, ds), ts);
    assert OverlayLife(t.life, ts) == t.life;
  }

  /** Replaying a batch whose transfers are all deduplicated: without a creation the bond is
      untouched; with one, the bond falls back to what it was before the batch's own supply. */
  lemma ReplayOfBatch(s: BondState, ms: seq<Entry>, ts: seq<Entry>, ds: seq<SupplyDelta>)
    requires ManagerEntries(ms) && TokenEntries(ts)
    requires Pass(s, ms, ts, ds).Success?
    ensures var after := Pass(s, ms, ts, ds).value;
            var again := Pass(after, ms, ts, []);
            if HasCreated(ms)
            then again == Success(after.(totalSupply := 0, updated := Reduce(Reduce(s, ms), ts).updated))
            else again == Success(after)
  {
    var m := Reduce(s, ms);
    var after := Pass(s, ms, ts, ds).value;
    TokenPassOverlays(m, ts);
    SupplyPassSums(Overlay(m, ts), ds);
    TokenPassOverlays(after, ts);
    OverlayTwice(m, ts, ds);
    IsinKept(s, ms);
    IsinKept(m, ts);
    if HasCreated(ms) {
      CreatedForgets(s, after, ms);
    } else {
      PassSettles(s, ms);
      TokenEntriesCreateNothing(ts);
      forall e | e in ms ensures Settled(after, e) {
        SettledStaysThrough(m, e, ts);
        LatestDeltaIsLater(Overlay(m, ts).updated, e.at, ds);
      }
      SettledPassIsIdle(after, ms);
    }
  }

  // ------------------------------------------------- closed form of a life

  /** Entry `i` carries payment number `n` with timestamp `at`. */
  predicate PaysAt(es: seq<Entry>, i: int, n: int, at: int) {
    0 <= i < |es| && es[i].fact.CouponPaid? && es[i].fact.paymentNumber == n && es[i].fact.timestamp == at
  }

  /** `n` at `at` is the first entry that carries the greatest payment number. */
  ghost predicate FirstGreatestPayment(es: seq<Entry>, n: int, at: int) {
    && (forall i, k, t :: PaysAt(es, i, k, t) ==> k <= n)
    && exists i :: PaysAt(es, i, n, at) && forall j, t | j < i :: !PaysAt(es, j, n, t)
  }

  /** The two payment columns of `l`, said of the whole history `es`. */
  ghost predicate PaymentsRecorded(l: Life, es: seq<Entry>) {
    if l.couponPaymentCount == 0 then
      && (forall i, k, t :: PaysAt(es, i, k, t) ==> k == 0)
      && l.lastCouponPayment == (if LastEnabled(es).Some? then Some(LastEnabled(es).value.timestamp) else None)
    else
      && l.lastCouponPayment.Some?
      && FirstGreatestPayment(es, l.couponPaymentCount, l.lastCouponPayment.value)
  }

  /** The other columns of a bond created by `c`, from a summary of the facts since. */
  predicate Summarised(l: Life, c: BondFact, disabled: bool, issued: bool, matured: bool,
                       offering: Option<nat>, enabled: Option<BondFact>)
    requires c.Created? && (enabled.Some? ==> enabled.value.Enabled?)
  {
    && l.partition == c.partition && l.bondAddress == c.bondAddress
    && l.maturityDuration == Some(c.maturityDuration)
    && l.disabled == disabled && l.everIssued == issued && l.isMatured == matured
    && l.offering == (if offering.Some? then offering.value else 0)
    && (if enabled.Some? then
          && l.maturityDate == Some(enabled.value.timestamp + c.maturityDuration)
          && l.couponDuration == Some(enabled.value.couponDuration)
          && l.couponYield == Some(enabled.value.couponYield)
        else
          l.maturityDate == None && l.couponDuration == None && l.couponYield == None)
  }

  ghost predicate LifeRecorded(l: Life, c: BondFact, es: seq<Entry>)
    requires c.Created?
  {
    Summarised(l, c, HasDisabled(es), HasIssued(es), HasMatured(es), LastOffering(es), LastEnabled(es))
  }

  /** What the lifecycle columns are, said of the facts since the creation `c`, whatever their order. */
  lemma {:induction false} LifeOfFacts(s: BondState, c: Entry, es: seq<Entry>)
    requires c.fact.Created? && !HasCreated(es)
    ensures LifeRecorded(Reduce(ApplyFact(s, c), es).life, c.fact, es)
    ensures PaymentsRecorded(Reduce(ApplyFact(s, c), es).life, es)
  {
    if es != [] {
      var init, last := es[..|es|-1], es[|es|-1];
      assert es == init + [last];
      LifeOfFacts(s, c, init);
      LifeExtends(init, last, c.fact, Reduce(ApplyFact(s, c), init).life);
      PaymentsExtend(init, last, Reduce(ApplyFact(s, c), init).life);
    }
  }

  lemma LifeExtends(init: seq<Entry>, last: Entry, c: BondFact, before: Life)
    requires c.Created? && !last.fact.Created? && LifeRecorded(before, c, init)
    ensures LifeRecorded(Change(before, last.fact), c, init + [last])
  {
    var es := init + [last];
    assert es[..|es|-1] == init;
    assert HasDisabled(es) == (HasDisabled(init) || last.fact.Disabled?);
    assert HasIssued(es) == (HasIssued(init) || last.fact.IssuanceComplete?);
    assert HasMatured(es) == (HasMatured(init) || last.fact.Matured?);
    assert LastOffering(es) == if last.fact.OfferingSet? then Some(last.fact.offering) else LastOffering(init);
    assert LastEnabled(es) == if last.fact.Enabled? then Some(last.fact) else LastEnabled(init);
    SummaryExtends(before, c, HasDisabled(init), HasIssued(init), HasMatured(init),
                   LastOffering(init), LastEnabled(init), last.fact);
  }

  lemma SummaryExtends(l: Life, c: BondFact, disabled: bool, issued: bool, matured: bool,
                       offering: Option<nat>, enabled: Option<BondFact>, f: BondFact)
    requires c.Created? && !f.Created? && (enabled.Some? ==> enabled.value.Enabled?)
    requires Summarised(l, c, disabled, issued, matured, offering, enabled)
    ensures Summarised(Change(l, f), c, disabled || f.Disabled?, issued || f.IssuanceComplete?, matured || f.Matured?,
                       if f.OfferingSet? then Some(f.offering) else offering, if f.Enabled? then Some(f) else enabled)
  {
  }

  lemma PaymentsExtend(init: seq<Entry>, last: Entry, before: Life)
    requires !last.fact.Created? && PaymentsRecorded(before, init)
    ensures PaymentsRecorded(Change(before, last.fact), init + [last])
  {
    var es, r := init + [last], Change(before, last.fact);
    assert es[..|es|-1] == init;
    forall i, k, t | i < |init| ensures PaysAt(es, i, k, t) == PaysAt(init, i, k, t) {}
    var n := r.couponPaymentCount;
    if n > before.couponPaymentCount {
      assert PaysAt(es, |init|, n, last.fact.timestamp);
      forall j, t | j < |init| ensures !PaysAt(es, j, n, t) {
        assert PaysAt(es, j, n, t) == PaysAt(init, j, n, t);
      }
    } else if n > 0 {
      var at := before.lastCouponPayment.value;
      var i :| PaysAt(init, i, n, at) && forall j, t | j < i :: !PaysAt(init, j, n, t);
      assert PaysAt(es, i, n, at);
    }
  }

  // -------------------------------------------- histories of facts and supply deltas

  /** The reducer's whole input: facts and supply deltas, in any mixture. */
  datatype BondEvent = Fact(entry: Entry) | Supply(delta: SupplyDelta)

  function PositionOf(ev: BondEvent): Position {
    match ev
    case Fact(entry) => entry.at
    case Supply(delta) => delta.at
  }

  function ApplyEvent(s: BondState, ev: BondEvent): Result<BondState, string> {
    match ev
    case Fact(entry) => Success(ApplyFact(s, entry))
    case Supply(delta) => ApplySupply(s, delta)
  }

  function ReduceEvents(s: BondState, evs: seq<BondEvent>): Result<BondState, string> {
    if evs == [] then Success(s)
    else
      var before := ReduceEvents(s, evs[..|evs|-1]);
      if before.Failure? then before else ApplyEvent(before.value, evs[|evs|-1])
  }

  function Facts(evs: seq<BondEvent>): seq<Entry> {
    if evs == [] then []
    else Facts(evs[..|evs|-1]) + if evs[|evs|-1].Fact? then [evs[|evs|-1].entry] else []
  }

  function Deltas(evs: seq<BondEvent>): seq<SupplyDelta> {
    if evs == [] then []
    else Deltas(evs[..|evs|-1]) + if evs[|evs|-1].Supply? then [evs[|evs|-1].delta] else []
  }

  lemma {:induction false} ReduceEventsAppend(s: BondState, a: seq<BondEvent>, b: seq<BondEvent>)
    ensures ReduceEvents(s, a + b) ==
            if ReduceEvents(s, a).Failure? then ReduceEvents(s, a) else ReduceEvents(ReduceEvents(s, a).value, b)
  {
    if b == [] {
      assert a + b == a;
    } else {
      ReduceEventsAppend(s, a, b[..|b|-1]);
      assert (a + b)[..|a+b|-1] == a + b[..|b|-1];
    }
  }

  /** A fact slides over the supply deltas before it. */
  lemma FactAfterSupply(s: BondState, e: Entry, ds: seq<SupplyDelta>)
    requires !e.fact.Created?
    ensures ApplyFact(AddSupply(s, ds), e) == AddSupply(ApplyFact(s, e), ds)
  {
    LatestDeltaShifts(s.updated, e.at, ds);
  }

  /** However facts and supply deltas are mixed, without a creation the reduction fails exactly if a running total of
      the deltas is negative, and otherwise is the facts' reduction with the sum of the deltas added. */
  lemma {:induction false} MixedExactly(s: BondState, evs: seq<BondEvent>)
    requires !HasCreated(Facts(evs))
    ensures ReduceEvents(s, evs).Success? <==> StaysCovered(s.totalSupply, Deltas(evs))
    ensures ReduceEvents(s, evs).Success? ==>
              ReduceEvents(s, evs).value == AddSupply(Reduce(s, Facts(evs)), Deltas(evs))
    ensures Reduce(s, Facts(evs)).totalSupply == s.totalSupply
  {
    if evs != [] {
      var init, last := evs[..|evs|-1], evs[|evs|-1];
      var es, ds := Facts(init), Deltas(init);
      assert forall e <- es :: e in Facts(evs);
      MixedExactly(s, init);
      if last.Fact? {
        assert (es + [last.entry])[..|es|] == es;
        assert last.entry in Facts(evs);
        FactAfterSupply(Reduce(s, es), last.entry, ds);
        assert Deltas(evs) == ds;
      } else {
        assert (ds + [last.delta])[..|ds|] == ds;
        CoveredStep(s.totalSupply, Deltas(evs));
        assert Facts(evs) == es;
      }
    }
  }

  /** `p` is the greatest of `first` and the events' positions. */
  ghost predicate IsLatest(p: Position, first: Position, evs: seq<BondEvent>) {
    && !After(first, p) && (forall ev <- evs :: !After(PositionOf(ev), p))
    && (p == first || exists ev <- evs :: p == PositionOf(ev))
  }

  lemma {:induction false} UpdatedIsLatest(s: BondState, evs: seq<BondEvent>)
    requires !HasCreated(Facts(evs)) && ReduceEvents(s, evs).Success?
    ensures IsLatest(ReduceEvents(s, evs).value.updated, s.updated, evs)
    ensures ReduceEvents(s, evs).value.isin == s.isin
  {
    if evs != [] {
      var init, last := evs[..|evs|-1], evs[|evs|-1];
      assert evs == init + [last];
      assert forall e <- Facts(init) :: e in Facts(evs);
      UpdatedIsLatest(s, init);
      if last.Fact? { assert last.entry in Facts(evs); }
      var p := ReduceEvents(s, init).value.updated;
      if ReduceEvents(s, evs).value.updated == PositionOf(last) {
        assert last in evs;
      } else if p != s.updated {
        var ev :| ev in init && p == PositionOf(ev);
        assert ev in evs;
      }
    }
  }

  /** What a bond is, every column of it, said of the whole history since its creation `c`: whatever came before and
      however facts and supply deltas are mixed after it. */
  lemma LifeClosedForm(s: BondState, before: seq<BondEvent>, c: Entry, evs: seq<BondEvent>)
    requires c.fact.Created? && !HasCreated(Facts(evs)) && ReduceEvents(s, before).Success?
    ensures var r := ReduceEvents(s, before + [Fact(c)] + evs);
            && (r.Success? <==> StaysCovered(0, Deltas(evs)))
            && (r.Success? ==>
                  && LifeRecorded(r.value.life, c.fact, Facts(evs)) && PaymentsRecorded(r.value.life, Facts(evs))
                  && r.value.totalSupply == SumDeltas(Deltas(evs))
                  && IsLatest(r.value.updated, c.at, evs))
  {
    var past := ReduceEvents(s, before).value;
    var created := ApplyFact(past, c);
    assert (before + [Fact(c)])[..|before|] == before;
    ReduceEventsAppend(s, before + [Fact(c)], evs);
    MixedExactly(created, evs);
    LifeOfFacts(past, c, Facts(evs));
    if ReduceEvents(created, evs).Success? { UpdatedIsLatest(created, evs); }
  }

  // ------------------------------------------------------------ bond status

  datatype AuctionStatus = Open | Closed | Finalised | Cancelled

  datatype BondStatus = MaturedBond | Auctioning | Outstanding | Staged

  function RemainingCouponPeriods(l: Life): nat {
    if l.maturityDuration.None? || l.couponDuration.None? || l.couponDuration.value == 0 then 0
    else
      var total := l.maturityDuration.value / l.couponDuration.value;
      if total > l.couponPaymentCount then total - l.couponPaymentCount else 0
  }

  function StatusOf(s: BondState, latestAuction: Option<AuctionStatus>): BondStatus {
    if s.life.isMatured then MaturedBond
    else if latestAuction in {Some(Open), Some(Closed)} then Auctioning
    else if s.life.everIssued && (s.totalSupply > 0 || RemainingCouponPeriods(s.life) > 0) then Outstanding
    else Staged
  }

  /** Coupon `n` is still to be paid: it comes after those paid and falls due within the maturity. */
  predicate Owes(l: Life, n: nat) {
    && l.maturityDuration.Some? && l.couponDuration.Some? && l.couponDuration.value > 0
    && l.couponPaymentCount < n && n * l.couponDuration.value <= l.maturityDuration.value
  }

  lemma Multiples(n: nat, d: nat, m: nat)
    requires d > 0
    ensures n * d <= m <==> n <= m / d
  {
    var q := m / d;
    assert q * d <= m < (q + 1) * d;
    if n <= q { assert n * d <= q * d; } else { assert n * d >= (q + 1) * d; }
  }

  /** The coupons still to be paid are the next ones, as many as remain. */
  lemma RemainingExactly(l: Life)
    ensures forall n: nat ::
              Owes(l, n) <==> l.couponPaymentCount < n <= l.couponPaymentCount + RemainingCouponPeriods(l)
  {
    forall n: nat
      ensures Owes(l, n) <==> l.couponPaymentCount < n <= l.couponPaymentCount + RemainingCouponPeriods(l)
    {
      if l.maturityDuration.Some? && l.couponDuration.Some? && l.couponDuration.value > 0 {
        Multiples(n, l.couponDuration.value, l.maturityDuration.value);
      }
    }
  }

  ghost predicate OwesSome(l: Life) {
    exists n: nat :: Owes(l, n)
  }

  /** A bond is matured once its flag is set; else auctioning while its latest auction is open or closed; else
      outstanding if it was issued and still has units or owes a coupon; else staged. */
  lemma StatusExactly(s: BondState, auction: Option<AuctionStatus>)
    ensures var running := auction == Some(Open) || auction == Some(Closed);
            var live := s.totalSupply > 0 || OwesSome(s.life);
            && (StatusOf(s, auction) == MaturedBond <==> s.life.isMatured)
            && (StatusOf(s, auction) == Auctioning <==> !s.life.isMatured && running)
            && (StatusOf(s, auction) == Outstanding <==> !s.life.isMatured && !running && s.life.everIssued && live)
            && (StatusOf(s, auction) == Staged <==> !s.life.isMatured && !running && !(s.life.everIssued && live))
  {
    RemainingExactly(s.life);
    if RemainingCouponPeriods(s.life) > 0 { assert Owes(s.life, s.life.couponPaymentCount + 1); }
  }

  /** `matured` is terminal: whatever facts, transfers and auctions follow, the status stays, until the next
      creation. */
  lemma MaturedIsTerminal(s: BondState, evs: seq<BondEvent>, auction: Option<AuctionStatus>)
    requires s.life.isMatured && !HasCreated(Facts(evs)) && ReduceEvents(s, evs).Success?
    ensures StatusOf(ReduceEvents(s, evs).value, auction) == MaturedBond
  {
    MixedExactly(s, evs);
    SettledStaysThrough(s, Entry(Matured, ORIGIN), Facts(evs));
  }

  /** Until then it is reached exactly by a `Matured` fact of the current life. */
  lemma MaturedStatusExactly(
    s: BondState, before: seq<BondEvent>, c: Entry, evs: seq<BondEvent>, auction: Option<AuctionStatus>)
    requires c.fact.Created? && !HasCreated(Facts(evs))
    requires ReduceEvents(s, before + [Fact(c)] + evs).Success?
    ensures StatusOf(ReduceEvents(s, before + [Fact(c)] + evs).value, auction) == MaturedBond
       <==> HasMatured(Facts(evs))
  {
    ReduceEventsAppend(s, before + [Fact(c)], evs);
    ReduceEventsAppend(s, before, [Fact(c)]);
    LifeClosedForm(s, before, c, evs);
  }
}
