/** Chunk planning: how the driver's claim loop carves a partition of
    `part_size` bytes into chunks. Each claim takes min(bytes_left, chunk_size)
    bytes at the current offset, and then both counters move by the configured
    chunk size, so only the last chunk can be short. */
module Chunks {
  import opened Types

  /** The byte range [offset, offset + size) of a partition image. */
  datatype Chunk = Chunk(offset: nat, size: nat) {
    function End(): (e: nat) {
      offset + size
    }
  }

  /** The chunks the claim loop hands out, in order, starting from the state
      (bytesLeft, offset) and running until bytesLeft is no longer positive. */
  function Claims(bytesLeft: int, offset: nat, chunkSize: int): (cs: seq<Chunk>)
    requires chunkSize > 0
    ensures cs == [] <==> bytesLeft <= 0
    ensures forall i :: 0 <= i < |cs| ==> 0 < cs[i].size <= chunkSize
    ensures forall i :: 0 <= i < |cs| ==> offset <= cs[i].offset
    decreases if bytesLeft > 0 then bytesLeft else 0
  {
    if bytesLeft <= 0 then []
    else [Chunk(offset, Min(bytesLeft, chunkSize))] + Claims(bytesLeft - chunkSize, offset + chunkSize, chunkSize)
  }

  /** The number of bytes the driver believes a partition has: the configured
      `uint64_t` size as seen through the `off_t` bytes_left counter. */
  function PartitionBytes(partSize: int): (bytes: int)
    requires IsUint64(partSize)
  {
    AsOffT(partSize)
  }

  /** Every chunk of one partition, in the order the driver claims them. */
  function Plan(partSize: int, chunkSize: int): (plan: seq<Chunk>)
    requires IsUint64(partSize) && chunkSize > 0
  {
    Claims(PartitionBytes(partSize), 0, chunkSize)
  }

  /** chunks cover [lo, hi) exactly, back to back, in increasing order. */
  predicate Tiles(chunks: seq<Chunk>, lo: int, hi: int)
    decreases |chunks|
  {
    if |chunks| == 0 then lo == hi
    else chunks[0].offset == lo && Tiles(chunks[1..], lo + chunks[0].size, hi)
  }

  /** Total number of bytes the chunks claim. */
  function TotalSize(chunks: seq<Chunk>): (total: nat)
    decreases |chunks|
  {
    if |chunks| == 0 then 0 else chunks[0].size + TotalSize(chunks[1..])
  }

  /** The claim loop's chunk count is the ceiling of bytesLeft / chunkSize. */
  lemma {:induction false} ClaimsCount(bytesLeft: int, offset: nat, chunkSize: int)
    requires chunkSize > 0
    ensures |Claims(bytesLeft, offset, chunkSize)| == if bytesLeft <= 0 then 0 else Quotient(bytesLeft + chunkSize - 1, chunkSize)
    decreases if bytesLeft > 0 then bytesLeft else 0
  {
    if bytesLeft > 0 {
      ClaimsCount(bytesLeft - chunkSize, offset + chunkSize, chunkSize);
      var x := bytesLeft + chunkSize - 1;
      if bytesLeft - chunkSize <= 0 {
        QuotientUnique(x, chunkSize, 1);
      } else {
        assert Quotient(x, chunkSize) == 1 + Quotient(x - chunkSize, chunkSize);
      }
    }
  }

  /** Chunk i of the claim loop starts i full chunk sizes past the first
      offset and claims what is left there, capped at the chunk size. */
  lemma {:induction false} ClaimsAt(bytesLeft: int, offset: nat, chunkSize: int, i: nat)
    requires chunkSize > 0
    requires i < |Claims(bytesLeft, offset, chunkSize)|
    ensures Claims(bytesLeft, offset, chunkSize)[i].offset == offset + i * chunkSize
    ensures Claims(bytesLeft, offset, chunkSize)[i].size == Min(bytesLeft - i * chunkSize, chunkSize)
    decreases i
  {
    if i > 0 {
      ClaimsAt(bytesLeft - chunkSize, offset + chunkSize, chunkSize, i - 1);
      MulSucc(i - 1, chunkSize);
    }
  }

  /** The chunks claimed from (bytesLeft, offset) tile [offset, offset + bytesLeft). */
  lemma {:induction false} ClaimsTile(bytesLeft: int, offset: nat, chunkSize: int)
    requires chunkSize > 0 && bytesLeft > 0
    ensures Tiles(Claims(bytesLeft, offset, chunkSize), offset, offset + bytesLeft)
    decreases bytesLeft
  {
    var cs := Claims(bytesLeft, offset, chunkSize);
    var rest := Claims(bytesLeft - chunkSize, offset + chunkSize, chunkSize);
    assert cs[1..] == rest;
    if bytesLeft - chunkSize > 0 {
      ClaimsTile(bytesLeft - chunkSize, offset + chunkSize, chunkSize);
    }
  }

  /** Tiling chunks add up to the width of the range they tile. */
  lemma {:induction false} TilesTotal(chunks: seq<Chunk>, lo: int, hi: int)
    requires Tiles(chunks, lo, hi)
    ensures TotalSize(chunks) == hi - lo
    decreases |chunks|
  {
    if |chunks| > 0 {
      TilesTotal(chunks[1..], lo + chunks[0].size, hi);
    }
  }

  /** The last tiling chunk ends exactly at hi. */
  lemma {:induction false} TilesLast(chunks: seq<Chunk>, lo: int, hi: int)
    requires Tiles(chunks, lo, hi) && |chunks| > 0
    ensures chunks[|chunks| - 1].End() == hi
    decreases |chunks|
  {
    if |chunks| > 1 {
      TilesLast(chunks[1..], lo + chunks[0].size, hi);
      assert chunks[1..][|chunks| - 2] == chunks[|chunks| - 1];
    }
  }

  /** Each tiling chunk lies inside [lo, hi). */
  lemma {:induction false} TilesBounds(chunks: seq<Chunk>, lo: int, hi: int)
    requires Tiles(chunks, lo, hi)
    ensures forall i :: 0 <= i < |chunks| ==> lo <= chunks[i].offset && chunks[i].End() <= hi
    decreases |chunks|
  {
    if |chunks| > 0 {
      TilesBounds(chunks[1..], lo + chunks[0].size, hi);
      forall i | 1 <= i < |chunks|
        ensures lo <= chunks[i].offset && chunks[i].End() <= hi
      {
        assert chunks[i] == chunks[1..][i - 1];
      }
    }
  }

  /** The shape of a partition's plan: ceil(bytes / chunkSize) chunks at
      offsets 0, chunkSize, 2 * chunkSize, ..., every chunk but the last
      exactly chunkSize long, together covering the partition exactly. */
  lemma PlanShape(partSize: int, chunkSize: int)
    requires IsUint64(partSize) && chunkSize > 0
    ensures var p := PartitionBytes(partSize);
            var plan := Plan(partSize, chunkSize);
            && |plan| == (if p <= 0 then 0 else Quotient(p + chunkSize - 1, chunkSize))
            && (forall i :: 0 <= i < |plan| ==> plan[i].offset == i * chunkSize)
            && (forall i :: 0 <= i < |plan| ==> plan[i].size == Min(p - i * chunkSize, chunkSize))
            && (forall i :: 0 <= i < |plan| - 1 ==> plan[i].size == chunkSize)
            && (forall i :: 0 <= i < |plan| - 1 ==> plan[i + 1].offset == plan[i].offset + chunkSize)
            && (p > 0 ==> Tiles(plan, 0, p) && TotalSize(plan) == p)
            && (p <= 0 ==> plan == [])
  {
    var p := PartitionBytes(partSize);
    var plan := Plan(partSize, chunkSize);
    ClaimsCount(p, 0, chunkSize);
    forall i | 0 <= i < |plan|
      ensures plan[i].offset == i * chunkSize && plan[i].size == Min(p - i * chunkSize, chunkSize)
    {
      ClaimsAt(p, 0, chunkSize, i);
    }
    forall i | 0 <= i < |plan| - 1
      ensures plan[i].size == chunkSize && plan[i + 1].offset == plan[i].offset + chunkSize
    {
      ClaimsAt(p, 0, chunkSize, i);
      ClaimsAt(p, 0, chunkSize, i + 1);
      MulSucc(i, chunkSize);
    }
    if p > 0 {
      ClaimsTile(p, 0, chunkSize);
      TilesTotal(plan, 0, p);
    }
  }

  /** Plan chunks are disjoint and strictly ordered by offset. */
  lemma PlanOrdered(partSize: int, chunkSize: int)
    requires IsUint64(partSize) && chunkSize > 0
    ensures var plan := Plan(partSize, chunkSize);
            forall i, j :: 0 <= i < j < |plan| ==> plan[i].End() <= plan[j].offset
  {
    var plan := Plan(partSize, chunkSize);
    PlanShape(partSize, chunkSize);
    forall i, j | 0 <= i < j < |plan|
      ensures plan[i].End() <= plan[j].offset
    {
      assert plan[i].size <= chunkSize;
      MulMonotone(i + 1, j, chunkSize);
      MulSucc(i, chunkSize);
    }
  }
}
