/** Reading a full update back: take each operation's range of the data
    blob, bunzip it when the type is REPLACE_BZ, and concatenate the results
    in operation order. These lemmas show that a plan's recorded operations
    give back exactly the bytes of its partition, and that their destination
    extents line up block after block when the chunk size is a whole number
    of blocks. */
module FullUpdateReadback {
  import opened Types
  import opened Chunks
  import opened ChunkProcessor
  import opened Operations
  import opened FullUpdateGenerator
  import opened FullUpdateProperties
  import opened FullUpdateTheorems

  /** The decoder an updater pairs with the codec. */
  type Decompressor = seq<byte> -> seq<byte>

  /** decompress undoes every compression the codec accepts. */
  ghost predicate Inverts(compress: Compressor, decompress: Decompressor) {
    forall x :: compress(x).Some? ==> decompress(compress(x).value) == x
  }

  /** The bytes an operation stands for, given the bytes at its data range. */
  function Unpack(decompress: Decompressor, op: Op, data: seq<byte>): (plain: seq<byte>) {
    if op.opType == ReplaceBz then decompress(data) else data
  }

  /** Operation i's data range lies in written, whose first byte is at blob
      offset base. */
  predicate InBlobAt(ops: seq<Op>, written: seq<byte>, base: int, i: nat)
    requires i < |ops|
  {
    InBlob(written, base, ops[i])
  }

  /** Every operation's data range lies in the blob. */
  predicate AllInBlob(ops: seq<Op>, written: seq<byte>, base: int) {
    forall i: nat :: i < |ops| ==> InBlobAt(ops, written, base, i)
  }

  /** Every prefix of operations in the blob is in the blob. */
  lemma AllInBlobPrefix(ops: seq<Op>, written: seq<byte>, base: int, n: nat)
    requires AllInBlob(ops, written, base) && n <= |ops|
    ensures AllInBlob(ops[..n], written, base)
  {
    forall i: nat | i < n
      ensures InBlobAt(ops[..n], written, base, i)
    {
      assert InBlobAt(ops, written, base, i);
    }
  }

  /** The bytes the operations stand for, in order. */
  function Restore(decompress: Decompressor, ops: seq<Op>, written: seq<byte>, base: int): (restored: seq<byte>)
    requires AllInBlob(ops, written, base)
    decreases |ops|
  {
    if |ops| == 0 then []
    else
      var n := |ops| - 1;
      assert InBlobAt(ops, written, base, n);
      AllInBlobPrefix(ops, written, base, n);
      Restore(decompress, ops[..n], written, base) + Unpack(decompress, ops[n], BlobBytes(written, base, ops[n]))
  }

  /** The operation of a chunk stands for the chunk's raw bytes: the type
      says REPLACE_BZ exactly when the compressed form was written. */
  lemma UnpackPayload(env: Env, image: seq<byte>, chunk: Chunk, op: Op, decompress: Decompressor)
    requires env.Valid() && Inverts(env.compress, decompress)
    requires OpForChunk(env, image, chunk, op)
    ensures Unpack(decompress, op, Payload(env, image, chunk)) == Raw(image, chunk)
  {
    var raw := Raw(image, chunk);
    assert |raw| == chunk.size;
    assert env.compress(raw).Some?;
  }

  /** Chunks that start at 0 and follow each other with no gap. */
  predicate Adjacent(chunks: seq<Chunk>) {
    && (|chunks| > 0 ==> chunks[0].offset == 0)
    && (forall i :: 0 < i < |chunks| ==> chunks[i].offset == chunks[i - 1].End())
  }

  /** Operation i is chunk i's and finds its payload in the blob. */
  predicate RecordedAt(env: Env, image: seq<byte>, chunks: seq<Chunk>, ops: seq<Op>, written: seq<byte>, base: int, i: nat)
    requires env.Valid() && i < |ops| <= |chunks|
  {
    OpForChunk(env, image, chunks[i], ops[i]) && PayloadAt(env, image, chunks, ops, written, base, i)
  }

  /** Operations that are their chunks' and find their payloads in the blob. */
  predicate Recorded(env: Env, image: seq<byte>, chunks: seq<Chunk>, ops: seq<Op>, written: seq<byte>, base: int)
    requires env.Valid()
  {
    |ops| == |chunks| && forall i: nat :: i < |ops| ==> RecordedAt(env, image, chunks, ops, written, base, i)
  }

  /** Operation i's data range lies in the blob and stands for chunk i's
      bytes of the image. */
  predicate ReadsBack(decompress: Decompressor, ops: seq<Op>, written: seq<byte>, base: int,
                      image: seq<byte>, chunks: seq<Chunk>, i: nat)
    requires i < |ops| <= |chunks|
  {
    && InBlob(written, base, ops[i])
    && chunks[i].End() <= |image|
    && Unpack(decompress, ops[i], BlobBytes(written, base, ops[i])) == image[chunks[i].offset..chunks[i].End()]
  }

  /** With a decoder for the codec, every recorded operation reads back as
      its chunk. */
  lemma RecordedReadsBack(env: Env, image: seq<byte>, chunks: seq<Chunk>, ops: seq<Op>, written: seq<byte>,
                          base: int, decompress: Decompressor)
    requires env.Valid() && Inverts(env.compress, decompress)
    requires Recorded(env, image, chunks, ops, written, base)
    ensures forall i: nat :: i < |ops| ==> ReadsBack(decompress, ops, written, base, image, chunks, i)
  {
    forall i: nat | i < |ops|
      ensures ReadsBack(decompress, ops, written, base, image, chunks, i)
    {
      assert RecordedAt(env, image, chunks, ops, written, base, i);
      UnpackPayload(env, image, chunks[i], ops[i], decompress);
    }
  }

  /** Reading back the first k operations of adjacent chunks gives the image
      up to the end of chunk k - 1. */
  lemma {:induction false} RestorePrefix(decompress: Decompressor, ops: seq<Op>, written: seq<byte>, base: int,
                                         image: seq<byte>, chunks: seq<Chunk>, k: nat)
    requires Adjacent(chunks) && |ops| == |chunks|
    requires forall i: nat :: i < |ops| ==> ReadsBack(decompress, ops, written, base, image, chunks, i)
    requires 0 < k <= |ops|
    ensures chunks[k - 1].End() <= |image|
    ensures AllInBlob(ops[..k], written, base)
    ensures Restore(decompress, ops[..k], written, base) == image[..chunks[k - 1].End()]
    decreases k
  {
    var op, chunk := ops[k - 1], chunks[k - 1];
    assert ReadsBack(decompress, ops, written, base, image, chunks, k - 1);
    var pre := ops[..k];
    assert AllInBlob(pre, written, base) by {
      forall i: nat | i < k
        ensures InBlobAt(pre, written, base, i)
      {
        assert ReadsBack(decompress, ops, written, base, image, chunks, i);
      }
    }
    var unpacked := Unpack(decompress, op, BlobBytes(written, base, op));
    assert pre[k - 1] == op && pre[..k - 1] == ops[..k - 1];
    AllInBlobPrefix(pre, written, base, k - 1);
    assert Restore(decompress, pre, written, base) == Restore(decompress, ops[..k - 1], written, base) + unpacked;
    if k == 1 {
      assert chunk.offset == 0;
      assert Restore(decompress, ops[..0], written, base) == [];
    } else {
      RestorePrefix(decompress, ops, written, base, image, chunks, k - 1);
      assert chunk.offset == chunks[k - 2].End();
      assert image[..chunk.offset] + image[chunk.offset..chunk.End()] == image[..chunk.End()];
    }
  }

  /** The chunks of a plan are adjacent, and the last ends at the
      partition's end. */
  lemma PlanAdjacent(partSize: int, chunkSize: int)
    requires IsUint64(partSize) && chunkSize > 0
    ensures Adjacent(Plan(partSize, chunkSize))
    ensures var plan := Plan(partSize, chunkSize);
            |plan| > 0 ==> plan[|plan| - 1].End() == PartitionBytes(partSize)
  {
    var plan := Plan(partSize, chunkSize);
    PlanShape(partSize, chunkSize);
    forall i | 0 < i < |plan|
      ensures plan[i].offset == plan[i - 1].End()
    {
      assert plan[i - 1].size == chunkSize;
    }
    if |plan| > 0 {
      TilesLast(plan, 0, PartitionBytes(partSize));
    }
  }

  /** ops stand for the image's bytes up to the partition's end. */
  ghost predicate Restores(decompress: Decompressor, ops: seq<Op>, written: seq<byte>, base: int, image: seq<byte>, partSize: int)
    requires IsUint64(partSize)
  {
    && Max(PartitionBytes(partSize), 0) <= |image|
    && AllInBlob(ops, written, base)
    && Restore(decompress, ops, written, base) == image[..Max(PartitionBytes(partSize), 0)]
  }

  /** The operations recorded for a whole plan read back as the partition's
      bytes. */
  lemma PlanRestores(env: Env, image: seq<byte>, partSize: int, ops: seq<Op>, written: seq<byte>, base: int,
                     decompress: Decompressor)
    requires env.Valid() && IsUint64(partSize) && Inverts(env.compress, decompress)
    requires Recorded(env, image, Plan(partSize, env.chunkSize), ops, written, base)
    ensures Restores(decompress, ops, written, base, image, partSize)
  {
    var plan := Plan(partSize, env.chunkSize);
    PlanAdjacent(partSize, env.chunkSize);
    PlanShape(partSize, env.chunkSize);
    if |ops| == 0 {
      assert PartitionBytes(partSize) <= 0;
    } else {
      RecordedReadsBack(env, image, plan, ops, written, base, decompress);
      RestorePrefix(decompress, ops, written, base, image, plan, |ops|);
      assert ops[..|ops|] == ops;
    }
  }

  /** The destination extent of the chunk that starts i chunk sizes into
      the partition. */
  function ChunkExtent(i: nat, chunkSize: nat, blockSize: int): (e: Extent)
    requires blockSize > 0
  {
    Extent(Quotient(i * chunkSize, blockSize), Quotient(chunkSize, blockSize))
  }

  /** The extent recorded for chunk i of a plan starts at block
      (i * chunkSize) / blockSize and spans chunkSize / blockSize blocks, the
      last chunk's included. */
  lemma PlanExtents(env: Env, image: seq<byte>, partSize: int, ops: seq<Op>)
    requires env.Valid() && IsUint64(partSize)
    requires |ops| == |Plan(partSize, env.chunkSize)|
    requires forall i :: 0 <= i < |ops| ==> OpForChunk(env, image, Plan(partSize, env.chunkSize)[i], ops[i])
    ensures forall i :: 0 <= i < |ops| ==> ops[i].dstExtents == [ChunkExtent(i, env.chunkSize, env.blockSize)]
  {
    var plan := Plan(partSize, env.chunkSize);
    PlanShape(partSize, env.chunkSize);
    forall i | 0 <= i < |ops|
      ensures ops[i].dstExtents == [ChunkExtent(i, env.chunkSize, env.blockSize)]
    {
      assert OpForChunk(env, image, plan[i], ops[i]);
      assert plan[i].offset == i * env.chunkSize;
    }
  }

  /** Operations i - 1 and i have one extent each, and the second starts
      at the block where the first ends. */
  predicate FollowsAt(ops: seq<Op>, i: nat)
    requires 0 < i < |ops|
  {
    && |ops[i - 1].dstExtents| == 1 && |ops[i].dstExtents| == 1
    && ops[i].dstExtents[0].startBlock == ops[i - 1].dstExtents[0].startBlock + ops[i - 1].dstExtents[0].numBlocks
  }

  /** Each operation's extent starts where the previous one's ends. */
  predicate ExtentsFollow(ops: seq<Op>) {
    forall i: nat :: 0 < i < |ops| ==> FollowsAt(ops, i)
  }

  /** The first block of chunk i, when a chunk is n whole blocks. */
  function FirstBlock(i: nat, n: nat): (b: nat) {
    i * n
  }

  /** When the chunk size is a whole number n of blocks, chunk i's extent is
      blocks [i * n, (i + 1) * n), so the extents of a plan's operations
      follow each other block after block. */
  lemma ExtentsAbut(env: Env, image: seq<byte>, partSize: int, ops: seq<Op>)
    requires env.Valid() && IsUint64(partSize)
    requires env.chunkSize % env.blockSize == 0
    requires |ops| == |Plan(partSize, env.chunkSize)|
    requires forall i :: 0 <= i < |ops| ==> OpForChunk(env, image, Plan(partSize, env.chunkSize)[i], ops[i])
    ensures var n := Quotient(env.chunkSize, env.blockSize);
            && n * env.blockSize == env.chunkSize
            && forall i :: 0 <= i < |ops| ==> ops[i].dstExtents == [Extent(FirstBlock(i, n), n)]
    ensures ExtentsFollow(ops)
  {
    var cs, bs := env.chunkSize, env.blockSize;
    PlanExtents(env, image, partSize, ops);
    var n := Quotient(cs, bs);
    QuotientIsDiv(cs, bs);
    assert cs == n * bs;
    forall i | 0 <= i < |ops|
      ensures ops[i].dstExtents == [Extent(FirstBlock(i, n), n)]
    {
      assert ops[i].dstExtents == [ChunkExtent(i, cs, bs)];
      BlockOfMultiple(i, n, bs);
    }
    forall i: nat | 0 < i < |ops|
      ensures FollowsAt(ops, i)
    {
      assert ops[i].dstExtents == [Extent(FirstBlock(i, n), n)];
      assert ops[i - 1].dstExtents == [Extent(FirstBlock(i - 1, n), n)];
      MulSucc(i - 1, n);
    }
  }

  /** The extents of a successful run: the i-th new rootfs operation's
      extent starts at block (i * chunkSize) / blockSize, and so does the
      i-th new kernel operation's, each spanning chunkSize / blockSize
      blocks; with a chunk size of whole blocks, each partition's extents
      follow each other. */
  lemma GenerateExtents(cfg: Config, rootfs: seq<byte>, kernel: seq<byte>, compress: Compressor, write: Writer,
                        init: Output, out: Output)
    requires Validated(cfg)
    requires Generate(cfg, rootfs, kernel, compress, write, init) == Success(out)
    ensures |init.graph| <= |out.graph| && |init.kernelOps| <= |out.kernelOps|
    ensures cfg.chunkSize > 0
    ensures forall i :: 0 <= i < |RootfsOps(init, out)| ==>
              RootfsOps(init, out)[i].dstExtents == [ChunkExtent(i, cfg.chunkSize, cfg.blockSize)]
    ensures forall i :: 0 <= i < |KernelOps(init, out)| ==>
              KernelOps(init, out)[i].dstExtents == [ChunkExtent(i, cfg.chunkSize, cfg.blockSize)]
    ensures cfg.chunkSize % cfg.blockSize == 0 ==> ExtentsFollow(RootfsOps(init, out)) && ExtentsFollow(KernelOps(init, out))
  {
    var env := RunEnv(cfg, compress, write);
    GenerateOps(cfg, rootfs, kernel, compress, write, init, out);
    PlanExtents(env, rootfs, cfg.rootfsSize, RootfsOps(init, out));
    PlanExtents(env, kernel, cfg.kernelSize, KernelOps(init, out));
    if cfg.chunkSize % cfg.blockSize == 0 {
      ExtentsAbut(env, rootfs, cfg.rootfsSize, RootfsOps(init, out));
      ExtentsAbut(env, kernel, cfg.kernelSize, KernelOps(init, out));
    }
  }

  /** The chunk that starts i chunk sizes in starts i * n blocks in, when a
      chunk is n whole blocks. */
  lemma BlockOfMultiple(i: nat, n: nat, bs: int)
    requires bs > 0
    ensures Quotient(i * (n * bs), bs) == i * n
  {
    assert i * (n * bs) == (i * n) * bs;
    QuotientUnique(i * (n * bs), bs, i * n);
  }
}
