/**
 Both halves of the projection together: the bond tables and the auction tables that one transaction writes.
 */
module WholeProjection {
  import opened Prelude
  import opened Projection
  import opened WindowIndependence
  import Auctions = AuctionProjection

  datatype Whole = Whole(bonds: Tables, auctions: Auctions.Tables)

  /** The logs of one block, those of the auctions apart. */
  datatype Block = Block(bonds: Batch, auctions: Auctions.AuctionBatch)

  type Blocks = seq<Block>

  const NO_AUCTIONS := Auctions.Tables(map[], [], map[], map[])
  const NOTHING_YET := Whole(NO_TABLES, NO_AUCTIONS)

  function BondSide(blocks: Blocks): Chain {
    seq(|blocks|, i requires 0 <= i < |blocks| => blocks[i].bonds)
  }

  function AuctionSide(blocks: Blocks): seq<Auctions.AuctionBatch> {
    seq(|blocks|, i requires 0 <= i < |blocks| => blocks[i].auctions)
  }

  /** One transaction over a window: an error of the bond half takes the auction half with it. */
  function ProcessWhole(h: PartitionHash, w: Whole, bonds: Batch, auctions: Auctions.AuctionBatch)
    : Result<Whole, string>
  {
    var r :- Process(h, w.bonds, bonds);
    Success(Whole(r, Auctions.Process(w.auctions, auctions)))
  }

  function ProcessBlocks(h: PartitionHash, w: Whole, blocks: Blocks): Result<Whole, string> {
    ProcessWhole(h, w, JoinAll(BondSide(blocks)), Auctions.JoinAll(AuctionSide(blocks)))
  }

  ghost predicate ValidBlocks(h: PartitionHash, blocks: Blocks) {
    && ValidChain(h, BondSide(blocks)) && CreationsMask(h, BondSide(blocks))
    && Auctions.Consistent(AuctionSide(blocks))
  }

  /** The tables after `n` blocks, block by block. */
  function WholeAfter(h: PartitionHash, blocks: Blocks, n: nat): Whole
    requires n <= |blocks|
  {
    Whole(TablesAfter(h, BondSide(blocks), n), Auctions.Blockwise(NO_AUCTIONS, AuctionSide(blocks)[..n]))
  }

  lemma WindowOfAuctions(auctions: seq<Auctions.AuctionBatch>, from: nat, to: nat)
    requires Auctions.Consistent(auctions) && from <= to <= |auctions|
    ensures Auctions.Process(Auctions.Blockwise(NO_AUCTIONS, auctions[..from]), Auctions.JoinAll(auctions[from..to]))
         == Auctions.Blockwise(NO_AUCTIONS, auctions[..to])
  {
    assert auctions[..to] == auctions[..from] + auctions[from..to];
    Auctions.WindowIsBlockwise(Auctions.Blockwise(NO_AUCTIONS, auctions[..from]), auctions[from..to]);
    Auctions.BlockwiseAppend(NO_AUCTIONS, auctions[..from], auctions[from..to]);
  }

  lemma SidesOfWindow(blocks: Blocks, from: nat, to: nat)
    requires from <= to <= |blocks|
    ensures BondSide(blocks[from..to]) == BondSide(blocks)[from..to]
    ensures AuctionSide(blocks[from..to]) == AuctionSide(blocks)[from..to]
  {
  }

  lemma BothHalves(h: PartitionHash, w: Whole, blocks: Blocks, r: Whole)
    requires Process(h, w.bonds, JoinAll(BondSide(blocks))) == Success(r.bonds)
    requires Auctions.Process(w.auctions, Auctions.JoinAll(AuctionSide(blocks))) == r.auctions
    ensures ProcessBlocks(h, w, blocks) == Success(r)
  {
  }

  /** Every window of a valid chain takes the tables from its first block to its last, both halves of them. */
  lemma WindowOfWhole(h: PartitionHash, blocks: Blocks, from: nat, to: nat)
    requires ValidBlocks(h, blocks) && from <= to <= |blocks|
    ensures ProcessBlocks(h, WholeAfter(h, blocks, from), blocks[from..to]) == Success(WholeAfter(h, blocks, to))
  {
    WindowStep(h, BondSide(blocks), from, to, BondSide(blocks)[from..to]);
    WindowOfAuctions(AuctionSide(blocks), from, to);
    SidesOfWindow(blocks, from, to);
    BothHalves(h, WholeAfter(h, blocks, from), blocks[from..to], WholeAfter(h, blocks, to));
  }
}
