/**
 One window transaction over all tables, as the source runs it: everything commits with the checkpoint, or nothing.
 */
module WindowTransaction {
  import opened Prelude
  import opened Projection
  import opened ProjectionDb
  import opened WindowIndependence
  import opened WholeProjection
  import opened AuctionDb

  class WindowDb {
    const db: Database
    const auctions: AuctionTables

    function Contents(): Whole
      reads db, auctions
    {
      Whole(db.Contents(), auctions.Contents())
    }

    /** An existing pair of table sets. */
    constructor (db: Database, auctions: AuctionTables)
      ensures this.db == db && this.auctions == auctions
    {
      this.db, this.auctions := db, auctions;
    }

    method ProcessBlockRange(bonds: Batch, events: Auctions.AuctionBatch, nextCheckpoint: nat)
      returns (error: Option<string>)
      modifies db, auctions
      ensures var r := ProcessWhole(db.h, old(Contents()), bonds, events);
              if r.Failure?
              then error == Some(r.error) && Contents() == old(Contents()) && db.checkpoint == old(db.checkpoint)
              else error == None && Contents() == r.value && db.checkpoint == nextCheckpoint
    {
      var saved := auctions.Contents();
      auctions.ProcessAuctions(events);
      error := db.ProcessBlockRange(bonds, nextCheckpoint);
      if error.Some? {
        auctions.rows, auctions.history := saved.rows, saved.history;
        auctions.bids, auctions.allotments := saved.bids, saved.allotments;
      }
    }

    /** The transaction over the logs that `getLogs` returns for these blocks. */
    method ProcessRange(blocks: Blocks, nextCheckpoint: nat) returns (committed: bool)
      modifies db, auctions
      ensures committed <==> ProcessBlocks(db.h, old(Contents()), blocks).Success?
      ensures committed ==> Success(Contents()) == ProcessBlocks(db.h, old(Contents()), blocks)
      ensures committed ==> db.checkpoint == nextCheckpoint
      ensures !committed ==> Contents() == old(Contents()) && db.checkpoint == old(db.checkpoint)
    {
      var error := ProcessBlockRange(JoinAll(BondSide(blocks)), Auctions.JoinAll(AuctionSide(blocks)), nextCheckpoint);
      return error.None?;
    }
  }
}
