/**
 The event-sourced projection: what one block window does to the tables
 (services/nb-bond-api/src/ingestion.ts, services/nb-bond-api/src/projection/balance-reducer.ts).

 `Tables` is the pure picture of the SQLite tables and `Process` the pure picture of one
 window transaction; ProjectionDb.dfy holds the imperative code that is proved equal to it.
 Addresses and hashes are numbers, so that two spellings of one address are one value.
 The partition hash is the parameter `h`.
 */
module Projection {
  import opened Prelude
  import opened BondLifecycle

  const ZERO_ADDRESS: Address := 0

  type PartitionHash = Isin -> Hash

  ghost predicate Injective(h: PartitionHash) {
    forall x, y | h(x) == h(y) :: x == y
  }

  // -------------------------------------------------------------------- logs

  /** Where a log is; `(tx, index)` is the unique key of the log. */
  datatype LogId = LogId(block: nat, index: nat, tx: nat) {
    function At(): Position { Position(block, index) }
    predicate SameLog(that: LogId) { tx == that.tx && index == that.index }
  }

  datatype ManagerBody =
    | AuctionInitialised
    | BondCreated(bondAddress: Option<Address>, maturityDuration: nat)
    | BondDisabled
    | HolderCouponPaid(paymentNumber: nat, timestamp: nat)
    | CouponPeriodPaid(paymentNumber: nat, timestamp: nat)
    | BondMatured
    | BondIssuanceComplete
    | BondRedeemed

  /** A manager log. `isin` is the ISIN that the event names or that its partition hash resolves to, empty when the
      event carries neither. The hash that stands in for an ISIN whose lookup fails is not modelled. */
  datatype ManagerLog = ManagerLog(id: LogId, isin: Isin, body: ManagerBody)

  datatype TokenBody =
    | IsinIssued(isin: Isin, offering: nat)
    | IsinEnabled(isin: Isin, couponDuration: nat, couponYield: nat, timestamp: nat)
    | IsinExtended(isin: Isin, newOffering: nat)
    | IsinReduced(isin: Isin, newOffering: nat)
    | IsinDisabled(isin: Isin)
    | IsinMinted(isin: Isin)
    | IsinRedeemed(isin: Isin)
    | TransferByPartition(partition: Hash, from: Address, to: Address, value: nat)

  datatype TokenLog = TokenLog(id: LogId, body: TokenBody)

  /** The decoded logs of a run of blocks, each contract's in chain order. */
  datatype Batch = Batch(manager: seq<ManagerLog>, token: seq<TokenLog>)

  function Join(u: Batch, v: Batch): Batch {
    Batch(u.manager + v.manager, u.token + v.token)
  }

  // ------------------------------------------------------------------ tables

  datatype TransferKind = Mint | Burn | Move

  datatype BalanceEvent = BalanceEvent(
    isin: Isin, holder: Address, delta: int, balanceAfter: int, id: LogId, kind: TransferKind)

  /** The `balances` table and the `balance_events` table in id order. */
  datatype Books = Books(balances: map<(Isin, Address), int>, events: seq<BalanceEvent>)

  datatype HistoryRow = HistoryRow(id: LogId, isin: Isin, body: ManagerBody)

  datatype Tables = Tables(
    partitions: map<Hash, Isin>,
    bonds: map<Isin, BondState>,
    books: Books,
    bondEvents: seq<HistoryRow>)

  function BondOf(h: PartitionHash, bonds: map<Isin, BondState>, isin: Isin): BondState {
    if isin in bonds then bonds[isin] else EmptyBond(isin, h(isin))
  }

  function BalanceOf(books: Books, isin: Isin, holder: Address): int {
    if (isin, holder) in books.balances then books.balances[(isin, holder)] else 0
  }

  // ----------------------------------------------------------- announcements

  /** Hash-typed manager arguments, resolved to ISINs before the transaction. */
  predicate IsResolved(body: ManagerBody) {
    body.HolderCouponPaid? || body.CouponPeriodPaid? || body.BondMatured? || body.BondRedeemed?
  }

  function ResolvedIsin(log: ManagerLog): Option<Isin> {
    if IsResolved(log.body) && log.isin != "" then Some(log.isin) else None
  }

  function LoopIsin(log: ManagerLog): Option<Isin> {
    if log.body.AuctionInitialised? || log.body.BondCreated? then Some(log.isin) else None
  }

  function TokenIsin(log: TokenLog): Option<Isin> {
    if log.body.TransferByPartition? || log.body.isin == "" then None else Some(log.body.isin)
  }

  function Upsert(h: PartitionHash, partitions: map<Hash, Isin>, isin: Option<Isin>): map<Hash, Isin> {
    if isin.Some? then partitions[h(isin.value) := isin.value] else partitions
  }

  function UpsertResolved(h: PartitionHash, p: map<Hash, Isin>, logs: seq<ManagerLog>): map<Hash, Isin> {
    if logs == [] then p
    else Upsert(h, UpsertResolved(h, p, logs[..|logs|-1]), ResolvedIsin(logs[|logs|-1]))
  }

  function UpsertToken(h: PartitionHash, p: map<Hash, Isin>, logs: seq<TokenLog>): map<Hash, Isin> {
    if logs == [] then p
    else Upsert(h, UpsertToken(h, p, logs[..|logs|-1]), TokenIsin(logs[|logs|-1]))
  }

  function UpsertLoop(h: PartitionHash, p: map<Hash, Isin>, logs: seq<ManagerLog>): map<Hash, Isin> {
    if logs == [] then p
    else Upsert(h, UpsertLoop(h, p, logs[..|logs|-1]), LoopIsin(logs[|logs|-1]))
  }

  function Announce(h: PartitionHash, p: map<Hash, Isin>, b: Batch): map<Hash, Isin> {
    UpsertLoop(h, UpsertToken(h, UpsertResolved(h, p, b.manager), b.token), b.manager)
  }

  // -------------------------------------------------------- lifecycle passes

  function ManagerFact(h: PartitionHash, log: ManagerLog): Option<BondFact> {
    match log.body
    case AuctionInitialised => None
    case BondCreated(address, duration) => Some(Created(h(log.isin), address, duration))
    case BondDisabled => Some(Disabled)
    case HolderCouponPaid(n, t) => if log.isin == "" then None else Some(CouponPaid(n, t))
    case CouponPeriodPaid(n, t) => if log.isin == "" then None else Some(CouponPaid(n, t))
    case BondMatured => if log.isin == "" then None else Some(Matured)
    case BondIssuanceComplete => Some(IssuanceComplete)
    case BondRedeemed => None
  }

  function TokenFact(log: TokenLog): Option<BondFact> {
    if TokenIsin(log).None? then None
    else
      match log.body
      case IsinIssued(_, offering) => Some(OfferingSet(offering))
      case IsinEnabled(_, duration, yield_, t) => Some(Enabled(duration, yield_, t))
      case IsinExtended(_, offering) => Some(OfferingSet(offering))
      case IsinReduced(_, offering) => Some(OfferingSet(offering))
      case IsinDisabled(_) => Some(Disabled)
      case _ => None
  }

  /** `applyBondStateEvent`: load or start the row, reduce, save. */
  function SaveFact(h: PartitionHash, bonds: map<Isin, BondState>, isin: Isin, e: Entry): map<Isin, BondState> {
    bonds[isin := ApplyFact(BondOf(h, bonds, isin), e)]
  }

  function ManagerBonds(h: PartitionHash, bonds: map<Isin, BondState>, log: ManagerLog): map<Isin, BondState> {
    var f := ManagerFact(h, log);
    if f.Some? then SaveFact(h, bonds, log.isin, Entry(f.value, log.id.At())) else bonds
  }

  function TokenBonds(h: PartitionHash, bonds: map<Isin, BondState>, log: TokenLog): map<Isin, BondState> {
    var f := TokenFact(log);
    if f.Some? then SaveFact(h, bonds, log.body.isin, Entry(f.value, log.id.At())) else bonds
  }

  function ManagerPass(h: PartitionHash, bonds: map<Isin, BondState>, logs: seq<ManagerLog>): map<Isin, BondState> {
    if logs == [] then bonds
    else ManagerBonds(h, ManagerPass(h, bonds, logs[..|logs|-1]), logs[|logs|-1])
  }

  function TokenPass(h: PartitionHash, bonds: map<Isin, BondState>, logs: seq<TokenLog>): map<Isin, BondState> {
    if logs == [] then bonds
    else TokenBonds(h, TokenPass(h, bonds, logs[..|logs|-1]), logs[|logs|-1])
  }

  /** `INSERT OR IGNORE INTO bond_events`, unique on the log key. */
  function RecordHistory(rows: seq<HistoryRow>, log: ManagerLog): seq<HistoryRow> {
    if log.body.AuctionInitialised? || (exists r <- rows :: r.id.SameLog(log.id)) then rows
    else rows + [HistoryRow(log.id, log.isin, log.body)]
  }

  function History(rows: seq<HistoryRow>, logs: seq<ManagerLog>): seq<HistoryRow> {
    if logs == [] then rows
    else RecordHistory(History(rows, logs[..|logs|-1]), logs[|logs|-1])
  }

  // ----------------------------------------------------------- transfer pass

  datatype HolderDelta = HolderDelta(holder: Address, delta: int, kind: TransferKind)

  function ReducePartitionTransfer(from: Address, to: Address, value: nat): seq<HolderDelta> {
    if from == to then []
    else if from == ZERO_ADDRESS then (if to == ZERO_ADDRESS then [] else [HolderDelta(to, value, Mint)])
    else if to == ZERO_ADDRESS then [HolderDelta(from, 0 - value, Burn)]
    else [HolderDelta(from, 0 - value, Move), HolderDelta(to, value, Move)]
  }

  /** Is there already a row for this log and holder? */
  predicate Recorded(events: seq<BalanceEvent>, id: LogId, holder: Address) {
    exists r <- events :: r.id.SameLog(id) && r.holder == holder
  }

  predicate Writes(books: Books, d: HolderDelta, id: LogId) {
    d.holder != ZERO_ADDRESS && !Recorded(books.events, id, d.holder)
  }

  /** `applyBalanceDelta` */
  function PostDelta(books: Books, isin: Isin, d: HolderDelta, id: LogId): Books {
    if !Writes(books, d, id) then books
    else
      var next := BalanceOf(books, isin, d.holder) + d.delta;
      Books(books.balances[(isin, d.holder) := next],
            books.events + [BalanceEvent(isin, d.holder, d.delta, next, id, d.kind)])
  }

  function PostDeltas(books: Books, isin: Isin, ds: seq<HolderDelta>, id: LogId): Books {
    if ds == [] then books
    else PostDelta(PostDeltas(books, isin, ds[..|ds|-1], id), isin, ds[|ds|-1], id)
  }

  function DeltasOf(log: TokenLog): seq<HolderDelta> {
    if log.body.TransferByPartition?
    then ReducePartitionTransfer(log.body.from, log.body.to, log.body.value) else []
  }

  predicate Mapped(p: map<Hash, Isin>, log: TokenLog) {
    log.body.TransferByPartition? && log.body.partition in p
  }

  function PostLog(p: map<Hash, Isin>, books: Books, log: TokenLog): Books {
    if !Mapped(p, log) then books
    else PostDeltas(books, p[log.body.partition], DeltasOf(log), log.id)
  }

  function PostLogs(p: map<Hash, Isin>, books: Books, logs: seq<TokenLog>): Books {
    if logs == [] then books
    else PostLog(p, PostLogs(p, books, logs[..|logs|-1]), logs[|logs|-1])
  }

  /** One posting of the transfer loop: the balance, and the supply when a mint or burn was written. */
  function TransferDelta(h: PartitionHash, t: Tables, isin: Isin, d: HolderDelta, id: LogId): Result<Tables, string> {
    var posted := t.(books := PostDelta(t.books, isin, d, id));
    if !Writes(t.books, d, id) || d.kind.Move? then Success(posted)
    else
      var s := ApplySupply(BondOf(h, t.bonds, isin), SupplyDelta(d.delta, id.At()));
      if s.Failure? then Failure(s.error) else Success(posted.(bonds := t.bonds[isin := s.value]))
  }

  function TransferDeltas(h: PartitionHash, t: Tables, isin: Isin, ds: seq<HolderDelta>, id: LogId)
    : Result<Tables, string>
  {
    if ds == [] then Success(t)
    else
      var r := TransferDeltas(h, t, isin, ds[..|ds|-1], id);
      if r.Failure? then r else TransferDelta(h, r.value, isin, ds[|ds|-1], id)
  }

  function TransferLog(h: PartitionHash, t: Tables, log: TokenLog): Result<Tables, string> {
    if !Mapped(t.partitions, log) then Success(t)
    else TransferDeltas(h, t, t.partitions[log.body.partition], DeltasOf(log), log.id)
  }

  function TransferPass(h: PartitionHash, t: Tables, logs: seq<TokenLog>): Result<Tables, string> {
    if logs == [] then Success(t)
    else
      var r := TransferPass(h, t, logs[..|logs|-1]);
      if r.Failure? then r else TransferLog(h, r.value, logs[|logs|-1])
  }

  // -------------------------------------------------------------- one window

  /** The tables after the lifecycle passes, before any transfer. */
  function Lifecycle(h: PartitionHash, t: Tables, b: Batch): Tables {
    Tables(Announce(h, t.partitions, b),
           TokenPass(h, ManagerPass(h, t.bonds, b.manager), b.token),
           t.books,
           History(t.bondEvents, b.manager))
  }

  function Process(h: PartitionHash, t: Tables, b: Batch): Result<Tables, string> {
    TransferPass(h, Lifecycle(h, t, b), b.token)
  }
}
