/**
 The auction tables as the window transaction updates them, statement by statement.
 */
module AuctionDb {
  import opened Prelude
  import opened BondLifecycle
  import opened Projection
  import opened AuctionProjection

  class AuctionTables {
    var rows: map<AuctionId, Row>
    var history: seq<AuctionProjection.ManagerLog>
    var bids: Bids
    var allotments: map<AuctionId, seq<Allotment>>

    function Contents(): AuctionProjection.Tables
      reads this
    {
      AuctionProjection.Tables(rows, history, bids, allotments)
    }

    constructor ()
      ensures Contents() == AuctionProjection.Tables(map[], [], map[], map[])
    {
      rows, history, bids, allotments := map[], [], map[], map[];
    }

    /** Insert or update the row; insert the event unless the log is known. */
    method UpsertAuctionEvent(m: AuctionProjection.ManagerLog)
      modifies this`rows, this`history
      ensures rows == old(rows)[m.auction := Upserted(At(old(rows), m.auction), m)]
      ensures history == ManagerStep(old(Contents()), m).history
    {
      if m.auction in rows {
        var row := rows[m.auction];
        rows := rows[m.auction := row.(isin := m.isin, bond := Coalesce(row.bond, BondOfEvent(m.body)))];
      } else {
        var bond := BondOfEvent(m.body);
        rows := rows[m.auction := Row(m.isin, KindOf(m.body), m.id.block, m.id.tx, bond, None, Open, None, None)];
      }
      if !exists i | 0 <= i < |history| :: history[i].id.SameLog(m.id) {
        history := history + [m];
      }
    }

    method SetAuctionStatus(auction: AuctionId, body: AuctionProjection.ManagerBody)
      requires auction in rows
      modifies this`rows
      ensures rows == old(rows)[auction := WithStatus(old(rows)[auction], body)]
    {
      rows := rows[auction := WithStatus(rows[auction], body)];
    }

    method RunManagerEvent(m: AuctionProjection.ManagerLog)
      modifies this
      ensures Contents() == ManagerStep(old(Contents()), m)
    {
      UpsertAuctionEvent(m);
      SetAuctionStatus(m.auction, m.body);
      assert rows == old(rows)[m.auction := ManagerRow(At(old(rows), m.auction), m)];
    }

    method UpsertAuctionMetadata(auction: AuctionId, id: LogId, b: AuctionBody)
      requires b.Created?
      modifies this`rows
      ensures rows == old(rows)[auction := CreatedRow(At(old(rows), auction), id, b)]
    {
      if auction in rows {
        rows := rows[auction := rows[auction].(isin := b.isin, kind := b.kind, terms := Some(b.terms))];
      } else {
        rows := rows[auction := Row(b.isin, b.kind, id.block, id.tx, None, Some(b.terms), Open, None, None)];
      }
    }

    method UpsertAuctionBid(key: (AuctionId, nat), b: AuctionBody, at: Position)
      requires b.BidSubmitted?
      modifies this`bids
      ensures bids == Submit(old(bids), key, b, at)
    {
      var cancelled := false;
      if key in bids { cancelled := bids[key].cancelled; }
      bids := bids[key := BidRow(b.bidder, b.ciphertext, b.hash, cancelled, at)];
    }

    /** Mark every bid of the bidder with this hash, one row after the other. */
    method CancelAuctionBid(auction: AuctionId, bidder: Address, hash: Hash)
      modifies this`bids
      ensures bids == Cancel(old(bids), auction, bidder, hash)
    {
      ghost var before := bids;
      var pending := bids.Keys;
      while pending != {}
        invariant pending <= before.Keys && bids.Keys == before.Keys
        invariant forall key | key in before ::
                    bids[key] == if key in pending then before[key] else Cancel(before, auction, bidder, hash)[key]
        decreases pending
      {
        var key :| key in pending;
        if Matches(key, bids[key], auction, bidder, hash) {
          bids := bids[key := bids[key].(cancelled := true)];
        }
        pending := pending - {key};
      }
      assert bids == Cancel(before, auction, bidder, hash);
    }

    /** Delete, then insert one by one. */
    method ReplaceAuctionAllocations(auction: AuctionId, allocations: seq<Allotment>)
      modifies this`allotments
      ensures allotments == old(allotments)[auction := allocations]
    {
      allotments := allotments[auction := []];
      for position := 0 to |allocations|
        invariant allotments == old(allotments)[auction := allocations[..position]]
      {
        assert allocations[..position+1] == allocations[..position] + [allocations[position]];
        allotments := allotments[auction := allotments[auction] + [allocations[position]]];
      }
      assert allocations[..|allocations|] == allocations;
    }

    method RunAuctionEvent(a: AuctionLog)
      modifies this
      ensures Contents() == AuctionStep(old(Contents()), a)
    {
      match a.body
      case Created(_, _, _) => UpsertAuctionMetadata(a.auction, a.id, a.body);
      case BidSubmitted(index, _, _, _) => UpsertAuctionBid((a.auction, index), a.body, a.id.At());
      case BidCancelled(bidder, hash) => CancelAuctionBid(a.auction, bidder, hash);
      case Finalized(allocations) => ReplaceAuctionAllocations(a.auction, allocations);
    }

    /** The auction half of a window: all manager events, then all events of the auction contract. */
    method ProcessAuctions(b: AuctionBatch)
      modifies this
      ensures Contents() == AuctionProjection.Process(old(Contents()), b)
    {
      ghost var t := Contents();
      for i := 0 to |b.manager|
        invariant Contents() == AuctionProjection.ManagerPass(t, b.manager[..i])
      {
        assert b.manager[..i+1][..i] == b.manager[..i];
        RunManagerEvent(b.manager[i]);
      }
      assert b.manager[..|b.manager|] == b.manager;
      ghost var s := Contents();
      for i := 0 to |b.auction|
        invariant Contents() == AuctionPass(s, b.auction[..i])
      {
        assert b.auction[..i+1][..i] == b.auction[..i];
        RunAuctionEvent(b.auction[i]);
      }
      assert b.auction[..|b.auction|] == b.auction;
    }
  }
}
