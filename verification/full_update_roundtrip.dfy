/** The read-back theorem for a whole run, stated over the run's result:
    the operations a successful run appends for each partition read back as
    that partition's bytes. */
module FullUpdateRoundTrip {
  import opened Types
  import opened Chunks
  import opened ChunkProcessor
  import opened Operations
  import opened FullUpdateGenerator
  import opened FullUpdateProperties
  import opened FullUpdateTheorems
  import opened FullUpdateReadback

  /** Operations that are their chunks' and find their payloads in the blob
      are recorded. */
  lemma PackRecorded(env: Env, image: seq<byte>, chunks: seq<Chunk>, ops: seq<Op>, written: seq<byte>, base: int)
    requires env.Valid() && |ops| == |chunks|
    requires forall i :: 0 <= i < |chunks| ==> OpForChunk(env, image, chunks[i], ops[i])
    requires PayloadsAt(env, image, chunks, ops, written, base)
    ensures Recorded(env, image, chunks, ops, written, base)
  {
    forall i: nat | i < |ops|
      ensures RecordedAt(env, image, chunks, ops, written, base, i)
    {
      assert PayloadAt(env, image, chunks, ops, written, base, i);
    }
  }

  /** Recorded operations stay recorded as the blob grows. */
  lemma RecordedExtend(env: Env, image: seq<byte>, chunks: seq<Chunk>, ops: seq<Op>, w: seq<byte>, w': seq<byte>, base: int)
    requires env.Valid() && w <= w'
    requires Recorded(env, image, chunks, ops, w, base)
    ensures Recorded(env, image, chunks, ops, w', base)
  {
    forall i: nat | i < |ops|
      ensures RecordedAt(env, image, chunks, ops, w', base, i)
    {
      assert RecordedAt(env, image, chunks, ops, w, base, i);
      BlobExtend(w, w', base, ops[i]);
    }
  }

  /** A successful pass records one operation per planned chunk. */
  lemma PassRecorded(env: Env, image: seq<byte>, part: PartitionKind, partSize: int, out0: Output, out: Output)
    requires env.Valid() && IsUint64(partSize)
    requires Emit(env, image, part, Plan(partSize, env.chunkSize), out0, 0) == Success(out)
    ensures out0.written <= out.written
    ensures out.dataFileSize - |out.written| == out0.dataFileSize - |out0.written|
    ensures |OpsOf(part, out0)| <= |OpsOf(part, out)|
    ensures Recorded(env, image, Plan(partSize, env.chunkSize), Emitted(part, out0, out), out.written,
                     out0.dataFileSize - |out0.written|)
  {
    var plan, base := Plan(partSize, env.chunkSize), out0.dataFileSize - |out0.written|;
    PassOps(env, image, part, partSize, out0, out);
    PassPayloads(env, image, part, partSize, out0, out);
    PackRecorded(env, image, plan, Emitted(part, out0, out), out.written, base);
  }

  /** The new rootfs operations of a successful run are recorded for the
      rootfs plan, with their payloads in the final blob. */
  lemma RootfsRecorded(cfg: Config, rootfs: seq<byte>, kernel: seq<byte>, compress: Compressor, write: Writer,
                       init: Output, out: Output)
    requires Validated(cfg)
    requires Generate(cfg, rootfs, kernel, compress, write, init) == Success(out)
    ensures cfg.chunkSize > 0 && |init.graph| <= |out.graph|
    ensures Recorded(RunEnv(cfg, compress, write), rootfs, Plan(cfg.rootfsSize, cfg.chunkSize), RootfsOps(init, out),
                     out.written, init.dataFileSize - |init.written|)
  {
    GenerateSplit(cfg, rootfs, kernel, compress, write, init);
    var env := RunEnv(cfg, compress, write);
    var mid := Midway(cfg, rootfs, compress, write, init);
    var p0 := Plan(cfg.rootfsSize, cfg.chunkSize);
    var base := init.dataFileSize - |init.written|;
    assert |init.graph| <= |mid.graph| && Recorded(env, rootfs, p0, Emitted(Rootfs, init, mid), mid.written, base) by {
      PassRecorded(env, rootfs, Rootfs, cfg.rootfsSize, init, mid);
    }
    assert mid.written <= out.written && out.graph == mid.graph by {
      PassGrows(env, kernel, Kernel, cfg.kernelSize, mid, out);
      KernelPassRecords(env, kernel, cfg.kernelSize, mid, out);
    }
    assert RootfsOps(init, out) == Emitted(Rootfs, init, mid);
    RecordedExtend(env, rootfs, p0, RootfsOps(init, out), mid.written, out.written, base);
  }

  /** The new kernel operations of a successful run are recorded for the
      kernel plan, with their payloads in the final blob. */
  lemma KernelRecorded(cfg: Config, rootfs: seq<byte>, kernel: seq<byte>, compress: Compressor, write: Writer,
                       init: Output, out: Output)
    requires Validated(cfg)
    requires Generate(cfg, rootfs, kernel, compress, write, init) == Success(out)
    ensures cfg.chunkSize > 0 && |init.kernelOps| <= |out.kernelOps|
    ensures Recorded(RunEnv(cfg, compress, write), kernel, Plan(cfg.kernelSize, cfg.chunkSize), KernelOps(init, out),
                     out.written, init.dataFileSize - |init.written|)
  {
    GenerateSplit(cfg, rootfs, kernel, compress, write, init);
    var env := RunEnv(cfg, compress, write);
    var mid := Midway(cfg, rootfs, compress, write, init);
    PassGrows(env, rootfs, Rootfs, cfg.rootfsSize, init, mid);
    RootfsPassRecords(env, rootfs, cfg.rootfsSize, init, mid);
    PassRecorded(env, kernel, Kernel, cfg.kernelSize, mid, out);
    assert KernelOps(init, out) == Emitted(Kernel, mid, out);
  }

  /** The operations recorded for a partition under a run's configuration
      read back as the partition's bytes. */
  lemma RecordedRestores(cfg: Config, image: seq<byte>, partSize: int, compress: Compressor, write: Writer,
                         ops: seq<Op>, written: seq<byte>, base: int, decompress: Decompressor)
    requires Validated(cfg) && cfg.chunkSize > 0 && IsUint64(partSize) && Inverts(compress, decompress)
    requires Recorded(RunEnv(cfg, compress, write), image, Plan(partSize, cfg.chunkSize), ops, written, base)
    ensures Restores(decompress, ops, written, base, image, partSize)
  {
    var env := RunEnv(cfg, compress, write);
    assert env.compress == compress && env.chunkSize == cfg.chunkSize && env.Valid();
    assert Inverts(env.compress, decompress);
    PlanRestores(env, image, partSize, ops, written, base, decompress);
  }

  /** Reading a successful run back: the new rootfs operations, applied in
      order against the final blob, give the rootfs image's bytes up to the
      partition size, and the new kernel operations the kernel image's. */
  lemma GenerateRestores(cfg: Config, rootfs: seq<byte>, kernel: seq<byte>, compress: Compressor, write: Writer,
                         init: Output, out: Output, decompress: Decompressor)
    requires Validated(cfg) && Inverts(compress, decompress)
    requires Generate(cfg, rootfs, kernel, compress, write, init) == Success(out)
    ensures |init.graph| <= |out.graph| && |init.kernelOps| <= |out.kernelOps|
    ensures Restores(decompress, RootfsOps(init, out), out.written, init.dataFileSize - |init.written|, rootfs, cfg.rootfsSize)
    ensures Restores(decompress, KernelOps(init, out), out.written, init.dataFileSize - |init.written|, kernel, cfg.kernelSize)
  {
    RootfsRecorded(cfg, rootfs, kernel, compress, write, init, out);
    KernelRecorded(cfg, rootfs, kernel, compress, write, init, out);
    RecordedRunRestores(cfg, rootfs, kernel, compress, write, init, out, decompress);
  }

  /** Both partitions' recorded operations read back as their images. */
  lemma RecordedRunRestores(cfg: Config, rootfs: seq<byte>, kernel: seq<byte>, compress: Compressor, write: Writer,
                    init: Output, out: Output, decompress: Decompressor)
    requires Validated(cfg) && Inverts(compress, decompress) && cfg.chunkSize > 0
    requires |init.graph| <= |out.graph| && |init.kernelOps| <= |out.kernelOps|
    requires Recorded(RunEnv(cfg, compress, write), rootfs, Plan(cfg.rootfsSize, cfg.chunkSize), RootfsOps(init, out),
                      out.written, init.dataFileSize - |init.written|)
    requires Recorded(RunEnv(cfg, compress, write), kernel, Plan(cfg.kernelSize, cfg.chunkSize), KernelOps(init, out),
                      out.written, init.dataFileSize - |init.written|)
    ensures Restores(decompress, RootfsOps(init, out), out.written, init.dataFileSize - |init.written|, rootfs, cfg.rootfsSize)
    ensures Restores(decompress, KernelOps(init, out), out.written, init.dataFileSize - |init.written|, kernel, cfg.kernelSize)
  {
    var base := init.dataFileSize - |init.written|;
    RecordedRestores(cfg, rootfs, cfg.rootfsSize, compress, write, RootfsOps(init, out), out.written, base, decompress);
    RecordedRestores(cfg, kernel, cfg.kernelSize, compress, write, KernelOps(init, out), out.written, base, decompress);
  }
}
