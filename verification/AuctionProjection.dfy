/**
 The auction tables of the projection: the manager's auction events and the auction contract's own events write the
 same rows, the manager's first in every window.
 */
module AuctionProjection {
  import opened Prelude
  import opened BondLifecycle
  import opened Projection

  type AuctionId = nat

  datatype Terms = Terms(owner: Address, end: nat, offering: nat, key: string)

  /** A row of `auctions`. The kind is the text of the `type` column; `terms` are the columns that only
      `AuctionCreated` fills. */
  datatype Row = Row(isin: Isin, kind: string, block: nat, tx: nat, bond: Option<Address>, terms: Option<Terms>,
                     status: AuctionStatus, closedAt: Option<nat>, finalisedAt: Option<nat>)

  datatype BidRow = BidRow(bidder: Address, ciphertext: string, hash: Hash, cancelled: bool, source: Position)

  datatype Allotment = Allotment(bidder: Address, units: nat, rate: nat, kind: string, block: nat)

  datatype ManagerBody =
    | Initialised(kind: string, bond: Option<Address>)
    | AuctionClosed(at: nat)
    | AuctionFinalised(at: nat)
    | AuctionCancelled

  datatype ManagerLog = ManagerLog(id: LogId, auction: AuctionId, isin: Isin, body: ManagerBody)

  datatype AuctionBody =
    | Created(isin: Isin, kind: string, terms: Terms)
    | BidSubmitted(index: nat, bidder: Address, ciphertext: string, hash: Hash)
    | BidCancelled(bidder: Address, hash: Hash)
    | Finalized(allotments: seq<Allotment>)

  datatype AuctionLog = AuctionLog(id: LogId, auction: AuctionId, body: AuctionBody)

  type Bids = map<(AuctionId, nat), BidRow>

  datatype Tables = Tables(rows: map<AuctionId, Row>, history: seq<ManagerLog>, bids: Bids,
                           allotments: map<AuctionId, seq<Allotment>>)

  datatype AuctionBatch = AuctionBatch(manager: seq<ManagerLog>, auction: seq<AuctionLog>)

  // ------------------------------------------------------------- manager events

  /** The `type` text with which an event would insert its row. */
  function KindOf(b: ManagerBody): string {
    match b
    case Initialised(kind, _) => kind
    case AuctionClosed(_) => "CLOSED"
    case AuctionFinalised(_) => "FINALISED"
    case AuctionCancelled => "CANCELLED"
  }

  function BondOfEvent(b: ManagerBody): Option<Address> {
    if b.Initialised? then b.bond else None
  }

  function Coalesce<T>(a: Option<T>, b: Option<T>): Option<T> {
    if a.Some? then a else b
  }

  function WithStatus(r: Row, b: ManagerBody): Row {
    match b
    case Initialised(_, _) => r.(status := Open)
    case AuctionClosed(at) => r.(status := Closed, closedAt := Some(at))
    case AuctionFinalised(at) => r.(status := Finalised, finalisedAt := Some(at))
    case AuctionCancelled => r.(status := Cancelled)
  }

  function Upserted(r: Option<Row>, m: ManagerLog): Row {
    match r
    case None => Row(m.isin, KindOf(m.body), m.id.block, m.id.tx, BondOfEvent(m.body), None, Open, None, None)
    case Some(row) => row.(isin := m.isin, bond := Coalesce(row.bond, BondOfEvent(m.body)))
  }

  /** Upsert the row, then set its status. */
  function ManagerRow(r: Option<Row>, m: ManagerLog): Row {
    WithStatus(Upserted(r, m), m.body)
  }

  function At<K, V>(m: map<K, V>, k: K): Option<V> {
    if k in m then Some(m[k]) else None
  }

  /** The history has a row with the key of `m`. */
  predicate InHistory(rows: seq<ManagerLog>, m: ManagerLog) {
    exists i | 0 <= i < |rows| :: rows[i].id.SameLog(m.id)
  }

  function ManagerStep(t: Tables, m: ManagerLog): Tables {
    t.(rows := t.rows[m.auction := ManagerRow(At(t.rows, m.auction), m)],
       history := if InHistory(t.history, m) then t.history else t.history + [m])
  }

  // ------------------------------------------------------------- auction events

  function CreatedRow(r: Option<Row>, id: LogId, b: AuctionBody): Row
    requires b.Created?
  {
    match r
    case None => Row(b.isin, b.kind, id.block, id.tx, None, Some(b.terms), Open, None, None)
    case Some(row) => row.(isin := b.isin, kind := b.kind, terms := Some(b.terms))
  }

  /** A new bid is active; a bid that is already there keeps its cancellation. */
  function Submit(bids: Bids, key: (AuctionId, nat), b: AuctionBody, at: Position): Bids
    requires b.BidSubmitted?
  {
    bids[key := BidRow(b.bidder, b.ciphertext, b.hash, key in bids && bids[key].cancelled, at)]
  }

  predicate Matches(key: (AuctionId, nat), row: BidRow, auction: AuctionId, bidder: Address, hash: Hash) {
    key.0 == auction && row.bidder == bidder && row.hash == hash
  }

  function Cancel(bids: Bids, auction: AuctionId, bidder: Address, hash: Hash): Bids {
    map key | key in bids ::
      if Matches(key, bids[key], auction, bidder, hash) then bids[key].(cancelled := true) else bids[key]
  }

  function BidStep(bids: Bids, a: AuctionLog): Bids {
    match a.body
    case BidSubmitted(index, _, _, _) => Submit(bids, (a.auction, index), a.body, a.id.At())
    case BidCancelled(bidder, hash) => Cancel(bids, a.auction, bidder, hash)
    case _ => bids
  }

  function AuctionStep(t: Tables, a: AuctionLog): Tables {
    match a.body
    case Created(_, _, _) => t.(rows := t.rows[a.auction := CreatedRow(At(t.rows, a.auction), a.id, a.body)])
    case Finalized(allotments) => t.(allotments := t.allotments[a.auction := allotments])
    case _ => t.(bids := BidStep(t.bids, a))
  }

  // --------------------------------------------------------------------- passes

  function ManagerPass(t: Tables, ms: seq<ManagerLog>): Tables {
    if ms == [] then t else ManagerStep(ManagerPass(t, ms[..|ms|-1]), ms[|ms|-1])
  }

  function AuctionPass(t: Tables, ls: seq<AuctionLog>): Tables {
    if ls == [] then t else AuctionStep(AuctionPass(t, ls[..|ls|-1]), ls[|ls|-1])
  }

  function Process(t: Tables, b: AuctionBatch): Tables {
    AuctionPass(ManagerPass(t, b.manager), b.auction)
  }

  function Join(u: AuctionBatch, v: AuctionBatch): AuctionBatch {
    AuctionBatch(u.manager + v.manager, u.auction + v.auction)
  }

  lemma {:induction false} ManagerPassAppend(t: Tables, a: seq<ManagerLog>, b: seq<ManagerLog>)
    ensures ManagerPass(t, a + b) == ManagerPass(ManagerPass(t, a), b)
  {
    if b == [] {
      assert a + b == a;
    } else {
      assert (a + b)[..|a + b|-1] == a + b[..|b|-1];
      ManagerPassAppend(t, a, b[..|b|-1]);
    }
  }

  lemma {:induction false} AuctionPassAppend(t: Tables, a: seq<AuctionLog>, b: seq<AuctionLog>)
    ensures AuctionPass(t, a + b) == AuctionPass(AuctionPass(t, a), b)
  {
    if b == [] {
      assert a + b == a;
    } else {
      assert (a + b)[..|a + b|-1] == a + b[..|b|-1];
      AuctionPassAppend(t, a, b[..|b|-1]);
    }
  }

  // ---------------------------------------------------------------- commutation

  /** The two events disagree about a row: about its ISIN, or about the transaction that created it. */
  predicate Conflict(t: Tables, m: ManagerLog, a: AuctionLog) {
    && m.auction == a.auction && a.body.Created?
    && (m.isin != a.body.isin || (m.auction !in t.rows && (m.id.block != a.id.block || m.id.tx != a.id.tx)))
  }

  lemma RowsCommuteExactly(r: Option<Row>, m: ManagerLog, a: AuctionLog)
    requires a.body.Created?
    ensures CreatedRow(Some(ManagerRow(r, m)), a.id, a.body) == ManagerRow(Some(CreatedRow(r, a.id, a.body)), m) <==>
            m.isin == a.body.isin && (r.Some? || (m.id.block == a.id.block && m.id.tx == a.id.tx))
  {
  }

  /** A manager event and an auction event commute exactly if they do not conflict. */
  lemma StepsCommuteExactly(t: Tables, m: ManagerLog, a: AuctionLog)
    ensures AuctionStep(ManagerStep(t, m), a) == ManagerStep(AuctionStep(t, a), m) <==> !Conflict(t, m, a)
  {
    if a.body.Created? && m.auction == a.auction {
      RowsCommuteExactly(At(t.rows, m.auction), m, a);
      var x, y := AuctionStep(ManagerStep(t, m), a), ManagerStep(AuctionStep(t, a), m);
      assert x.rows[m.auction] == CreatedRow(Some(ManagerRow(At(t.rows, m.auction), m)), a.id, a.body);
      assert y.rows[m.auction] == ManagerRow(Some(CreatedRow(At(t.rows, m.auction), a.id, a.body)), m);
      assert x.rows == t.rows[m.auction := x.rows[m.auction]];
      assert y.rows == t.rows[m.auction := y.rows[m.auction]];
    } else if a.body.Created? {
      var marked, made := ManagerRow(At(t.rows, m.auction), m), CreatedRow(At(t.rows, a.auction), a.id, a.body);
      assert t.rows[m.auction := marked][a.auction := made] == t.rows[a.auction := made][m.auction := marked];
    }
  }

  /** Manager and auction agree on the ISIN of every auction that both name. */
  ghost predicate Agree(ms: seq<ManagerLog>, ls: seq<AuctionLog>) {
    forall m, a | m in ms && a in ls :: m.auction == a.auction && a.body.Created? ==> m.isin == a.body.isin
  }

  /** Every auction that `ls` creates has a row already. */
  ghost predicate Listed(t: Tables, ls: seq<AuctionLog>) {
    forall a | a in ls :: a.body.Created? ==> a.auction in t.rows
  }

  lemma {:induction false} EventPassesManager(t: Tables, ms: seq<ManagerLog>, a: AuctionLog)
    requires Agree(ms, [a]) && Listed(t, [a])
    ensures AuctionStep(ManagerPass(t, ms), a) == ManagerPass(AuctionStep(t, a), ms)
    ensures t.rows.Keys <= ManagerPass(t, ms).rows.Keys
  {
    if ms != [] {
      var init, m := ms[..|ms|-1], ms[|ms|-1];
      EventPassesManager(t, init, a);
      assert m in ms && a in [a];
      assert a.body.Created? ==> a.auction in t.rows;
      StepsCommuteExactly(ManagerPass(t, init), m, a);
    }
  }

  lemma {:induction false} PassesCommute(t: Tables, ms: seq<ManagerLog>, ls: seq<AuctionLog>)
    requires Agree(ms, ls) && Listed(t, ls)
    ensures AuctionPass(ManagerPass(t, ms), ls) == ManagerPass(AuctionPass(t, ls), ms)
    ensures t.rows.Keys <= AuctionPass(t, ls).rows.Keys
  {
    if ls != [] {
      var init, a := ls[..|ls|-1], ls[|ls|-1];
      PassesCommute(t, ms, init);
      assert a in ls;
      EventPassesManager(AuctionPass(t, init), ms, a);
    }
  }

  /** What the contracts guarantee of a batch: an auction is created in a block in which the manager names it. */
  ghost predicate Paired(b: AuctionBatch) {
    forall a | a in b.auction :: a.body.Created? ==> exists m | m in b.manager :: m.auction == a.auction
  }

  lemma {:induction false} NamedIsListed(t: Tables, ms: seq<ManagerLog>, m: ManagerLog)
    requires m in ms
    ensures m.auction in ManagerPass(t, ms).rows
  {
    var init, last := ms[..|ms|-1], ms[|ms|-1];
    if m != last { NamedIsListed(t, init, m); }
  }

  /** Two consecutive windows make of the auction tables what one window over both makes. */
  lemma MergeOfWindows(t: Tables, u: AuctionBatch, v: AuctionBatch)
    requires Paired(u) && Agree(v.manager, u.auction)
    ensures Process(t, Join(u, v)) == Process(Process(t, u), v)
  {
    var s := ManagerPass(t, u.manager);
    forall a | a in u.auction && a.body.Created? ensures a.auction in s.rows {
      var m :| m in u.manager && m.auction == a.auction;
      NamedIsListed(t, u.manager, m);
    }
    ManagerPassAppend(t, u.manager, v.manager);
    AuctionPassAppend(ManagerPass(s, v.manager), u.auction, v.auction);
    PassesCommute(s, v.manager, u.auction);
  }

  // ---------------------------------------------------------------- any windows

  function JoinAll(blocks: seq<AuctionBatch>): AuctionBatch {
    if blocks == [] then AuctionBatch([], []) else Join(JoinAll(blocks[..|blocks|-1]), blocks[|blocks|-1])
  }

  function Blockwise(t: Tables, blocks: seq<AuctionBatch>): Tables {
    if blocks == [] then t else Process(Blockwise(t, blocks[..|blocks|-1]), blocks[|blocks|-1])
  }

  ghost predicate Consistent(blocks: seq<AuctionBatch>) {
    && (forall i | 0 <= i < |blocks| :: Paired(blocks[i]))
    && (forall i, j | 0 <= i < |blocks| && 0 <= j < |blocks| :: Agree(blocks[i].manager, blocks[j].auction))
  }

  lemma {:induction false} JoinAllMembers(blocks: seq<AuctionBatch>)
    ensures forall m | m in JoinAll(blocks).manager :: exists i | 0 <= i < |blocks| :: m in blocks[i].manager
    ensures forall a | a in JoinAll(blocks).auction :: exists i | 0 <= i < |blocks| :: a in blocks[i].auction
    ensures forall i, m | 0 <= i < |blocks| && m in blocks[i].manager :: m in JoinAll(blocks).manager
  {
    if blocks != [] {
      var n := |blocks| - 1;
      JoinAllMembers(blocks[..n]);
      forall m | m in JoinAll(blocks).manager ensures exists i | 0 <= i < |blocks| :: m in blocks[i].manager {
        if m in JoinAll(blocks[..n]).manager {
          var i :| 0 <= i < n && m in blocks[..n][i].manager;
          assert m in blocks[i].manager;
        } else {
          assert m in blocks[n].manager;
        }
      }
      forall a | a in JoinAll(blocks).auction ensures exists i | 0 <= i < |blocks| :: a in blocks[i].auction {
        if a in JoinAll(blocks[..n]).auction {
          var i :| 0 <= i < n && a in blocks[..n][i].auction;
          assert a in blocks[i].auction;
        } else {
          assert a in blocks[n].auction;
        }
      }
      forall i, m | 0 <= i < |blocks| && m in blocks[i].manager ensures m in JoinAll(blocks).manager {
        if i < n { assert m in blocks[..n][i].manager; }
      }
    }
  }

  lemma JoinedPaired(blocks: seq<AuctionBatch>)
    requires Consistent(blocks)
    ensures Paired(JoinAll(blocks))
  {
    JoinAllMembers(blocks);
    forall a | a in JoinAll(blocks).auction && a.body.Created?
      ensures exists m | m in JoinAll(blocks).manager :: m.auction == a.auction
    {
      var i :| 0 <= i < |blocks| && a in blocks[i].auction;
      assert Paired(blocks[i]);
      var m :| m in blocks[i].manager && m.auction == a.auction;
      assert m in JoinAll(blocks).manager;
    }
  }

  lemma JoinedAgrees(blocks: seq<AuctionBatch>, n: nat)
    requires Consistent(blocks) && n < |blocks|
    ensures Agree(blocks[n].manager, JoinAll(blocks[..n]).auction)
  {
    JoinAllMembers(blocks[..n]);
    var earlier := JoinAll(blocks[..n]).auction;
    forall m, a | m in blocks[n].manager && a in earlier && m.auction == a.auction && a.body.Created?
      ensures m.isin == a.body.isin
    {
      var i :| 0 <= i < n && a in blocks[..n][i].auction;
      assert Agree(blocks[n].manager, blocks[i].auction);
    }
  }

  /** One window over a run of blocks is as good as block by block. */
  lemma {:induction false} WindowIsBlockwise(t: Tables, blocks: seq<AuctionBatch>)
    requires Consistent(blocks)
    ensures Process(t, JoinAll(blocks)) == Blockwise(t, blocks)
  {
    if blocks != [] {
      var n := |blocks| - 1;
      WindowIsBlockwise(t, blocks[..n]);
      JoinedPaired(blocks[..n]);
      JoinedAgrees(blocks, n);
      MergeOfWindows(t, JoinAll(blocks[..n]), blocks[n]);
    }
  }

  function RunWindows(t: Tables, windows: seq<seq<AuctionBatch>>): Tables {
    if windows == [] then t else Process(RunWindows(t, windows[..|windows|-1]), JoinAll(windows[|windows|-1]))
  }

  function Flatten(windows: seq<seq<AuctionBatch>>): seq<AuctionBatch> {
    if windows == [] then [] else Flatten(windows[..|windows|-1]) + windows[|windows|-1]
  }

  lemma {:induction false} BlockwiseAppend(t: Tables, a: seq<AuctionBatch>, b: seq<AuctionBatch>)
    ensures Blockwise(t, a + b) == Blockwise(Blockwise(t, a), b)
  {
    if b == [] {
      assert a + b == a;
    } else {
      assert (a + b)[..|a + b|-1] == a + b[..|b|-1];
      BlockwiseAppend(t, a, b[..|b|-1]);
    }
  }

  lemma {:induction false} AnyAuctionWindows(t: Tables, windows: seq<seq<AuctionBatch>>)
    requires Consistent(Flatten(windows))
    ensures RunWindows(t, windows) == Blockwise(t, Flatten(windows))
  {
    if windows != [] {
      var init, last := windows[..|windows|-1], windows[|windows|-1];
      var all := Flatten(windows);
      assert forall i | 0 <= i < |Flatten(init)| :: Flatten(init)[i] == all[i];
      assert forall i | 0 <= i < |last| :: last[i] == all[|Flatten(init)| + i];
      AnyAuctionWindows(t, init);
      WindowIsBlockwise(RunWindows(t, init), last);
      BlockwiseAppend(t, Flatten(init), last);
    }
  }

  /** However a range of blocks is cut into windows, the auction tables end up the same. */
  lemma AuctionWindowsDoNotMatter(t: Tables, one: seq<seq<AuctionBatch>>, other: seq<seq<AuctionBatch>>)
    requires Flatten(one) == Flatten(other) && Consistent(Flatten(one))
    ensures RunWindows(t, one) == RunWindows(t, other)
  {
    AnyAuctionWindows(t, one);
    AnyAuctionWindows(t, other);
  }
}
