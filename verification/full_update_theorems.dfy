/** End-to-end guarantees of a successful full-update run, stated against the
    configuration and the two images: the records it produces, where their
    bytes sit in the data blob, that those bytes give the images back, that a
    short image makes the run fail, how the extents line up, and that the
    progress reports of a pass climb to 100. */
module FullUpdateTheorems {
  import opened Types
  import opened Chunks
  import opened ChunkProcessor
  import opened Operations
  import opened FullUpdateGenerator
  import opened FullUpdateProperties
  import Progress

  /** The environment a run with this configuration and these collaborators
      hands to each partition pass. */
  function RunEnv(cfg: Config, compress: Compressor, write: Writer): (env: Env) {
    Env(cfg.chunkSize, cfg.blockSize, compress, write)
  }

  /** One successful partition pass only grows the blob and its
      partition's list, by one operation per planned chunk. */
  lemma PassGrows(env: Env, image: seq<byte>, part: PartitionKind, partSize: int, out0: Output, out: Output)
    requires env.Valid() && IsUint64(partSize)
    requires Emit(env, image, part, Plan(partSize, env.chunkSize), out0, 0) == Success(out)
    ensures out0.written <= out.written
    ensures out.dataFileSize - |out.written| == out0.dataFileSize - |out0.written|
    ensures OpsOf(part, out0) <= OpsOf(part, out)
    ensures |OpsOf(part, out)| == |OpsOf(part, out0)| + |Plan(partSize, env.chunkSize)|
  {
    var plan := Plan(partSize, env.chunkSize);
    EmitSteps(env, image, part, plan, out0, 0, out);
    StepsGrow(part, Trace(env, image, part, plan, out0, 0), |plan|);
  }

  /** One successful partition pass over its plan appends one operation per
      planned chunk, each the chunk's, and only grows the blob. */
  lemma PassOps(env: Env, image: seq<byte>, part: PartitionKind, partSize: int, out0: Output, out: Output)
    requires env.Valid() && IsUint64(partSize)
    requires Emit(env, image, part, Plan(partSize, env.chunkSize), out0, 0) == Success(out)
    ensures out0.written <= out.written
    ensures out.dataFileSize - |out.written| == out0.dataFileSize - |out0.written|
    ensures |OpsOf(part, out0)| <= |OpsOf(part, out)|
    ensures var plan := Plan(partSize, env.chunkSize);
            var ops := Emitted(part, out0, out);
            && |ops| == |plan|
            && (forall i :: 0 <= i < |plan| ==> OpForChunk(env, image, plan[i], ops[i]))
  {
    var plan := Plan(partSize, env.chunkSize);
    EmitSteps(env, image, part, plan, out0, 0, out);
    var outs := Trace(env, image, part, plan, out0, 0);
    assert outs[0] == out0 && outs[|plan|] == out;
    TraceOps(env, image, part, plan, outs);
  }

  /** The steps of a pass, read off its trace: the blob only grew, and the
      pass appended one operation per chunk, each the chunk's. */
  lemma TraceOps(env: Env, image: seq<byte>, part: PartitionKind, chunks: seq<Chunk>, outs: seq<Output>)
    requires env.Valid() && |outs| == |chunks| + 1
    requires Growing(part, outs) && Writing(env, image, part, chunks, outs)
    ensures outs[0].written <= outs[|chunks|].written
    ensures outs[|chunks|].dataFileSize - |outs[|chunks|].written| == outs[0].dataFileSize - |outs[0].written|
    ensures |OpsOf(part, outs[0])| <= |OpsOf(part, outs[|chunks|])|
    ensures var ops := Emitted(part, outs[0], outs[|chunks|]);
            && |ops| == |chunks|
            && (forall i :: 0 <= i < |chunks| ==> OpForChunk(env, image, chunks[i], ops[i]))
  {
    StepsGrow(part, outs, |chunks|);
    StepsOpsMatch(env, image, part, chunks, outs, |chunks|);
  }

  /** The operations of one successful partition pass have data ranges back
      to back from the blob's old end to its new end. */
  lemma PassContiguous(env: Env, image: seq<byte>, part: PartitionKind, partSize: int, out0: Output, out: Output)
    requires env.Valid() && IsUint64(partSize)
    requires Emit(env, image, part, Plan(partSize, env.chunkSize), out0, 0) == Success(out)
    ensures |OpsOf(part, out0)| <= |OpsOf(part, out)|
    ensures Contiguous(Emitted(part, out0, out), out0.dataFileSize, out.dataFileSize)
  {
    var plan := Plan(partSize, env.chunkSize);
    EmitSteps(env, image, part, plan, out0, 0, out);
    StepsContiguous(part, Trace(env, image, part, plan, out0, 0), |plan|);
  }

  /** Each operation of one successful partition pass finds its chunk's
      payload at its range of the blob. */
  lemma PassPayloads(env: Env, image: seq<byte>, part: PartitionKind, partSize: int, out0: Output, out: Output)
    requires env.Valid() && IsUint64(partSize)
    requires Emit(env, image, part, Plan(partSize, env.chunkSize), out0, 0) == Success(out)
    ensures |OpsOf(part, out0)| <= |OpsOf(part, out)|
    ensures |Emitted(part, out0, out)| == |Plan(partSize, env.chunkSize)|
    ensures PayloadsAt(env, image, Plan(partSize, env.chunkSize), Emitted(part, out0, out), out.written,
                       out0.dataFileSize - |out0.written|)
  {
    var plan := Plan(partSize, env.chunkSize);
    EmitSteps(env, image, part, plan, out0, 0, out);
    var outs := Trace(env, image, part, plan, out0, 0);
    assert outs[|plan|] == out;
    StepsPayloads(env, image, part, plan, outs, |plan|);
  }

  /** A successful rootfs pass appends one vertex per planned chunk, labelled
      from counter 0 in plan order, appends their indices to the final order,
      and leaves the kernel list alone. */
  lemma RootfsPassRecords(env: Env, image: seq<byte>, partSize: int, out0: Output, out: Output)
    requires env.Valid() && IsUint64(partSize)
    requires Emit(env, image, Rootfs, Plan(partSize, env.chunkSize), out0, 0) == Success(out)
    ensures var n := |Plan(partSize, env.chunkSize)|;
            && out0.graph <= out.graph && |out.graph| == |out0.graph| + n
            && (forall i :: |out0.graph| <= i < |out.graph| ==> out.graph[i].fileName == RootfsLabel(i - |out0.graph|))
            && out.finalOrder == out0.finalOrder + Indices(|out0.graph|, n)
            && out.kernelOps == out0.kernelOps
  {
    var plan := Plan(partSize, env.chunkSize);
    EmitSteps(env, image, Rootfs, plan, out0, 0, out);
    StepsRootfs(Trace(env, image, Rootfs, plan, out0, 0), 0, |plan|);
  }

  /** A successful kernel pass leaves the graph and the final order alone and
      appends one operation per planned chunk to the kernel list. */
  lemma KernelPassRecords(env: Env, image: seq<byte>, partSize: int, out0: Output, out: Output)
    requires env.Valid() && IsUint64(partSize)
    requires Emit(env, image, Kernel, Plan(partSize, env.chunkSize), out0, 0) == Success(out)
    ensures out.graph == out0.graph && out.finalOrder == out0.finalOrder
    ensures out0.kernelOps <= out.kernelOps
    ensures |out.kernelOps| == |out0.kernelOps| + |Plan(partSize, env.chunkSize)|
  {
    var plan := Plan(partSize, env.chunkSize);
    EmitSteps(env, image, Kernel, plan, out0, 0, out);
    var outs := Trace(env, image, Kernel, plan, out0, 0);
    StepsKernel(outs, 0, |plan|);
    StepsGrow(Kernel, outs, |plan|);
  }

  /** The output between the two passes of a successful run. */
  function Midway(cfg: Config, rootfs: seq<byte>, compress: Compressor, write: Writer, init: Output): (mid: Output)
    requires Validated(cfg) && cfg.chunkSize > 0
    requires Emit(RunEnv(cfg, compress, write), rootfs, Rootfs, Plan(cfg.rootfsSize, cfg.chunkSize), init, 0).Success?
  {
    Emit(RunEnv(cfg, compress, write), rootfs, Rootfs, Plan(cfg.rootfsSize, cfg.chunkSize), init, 0).value
  }

  /** A successful run is a successful rootfs pass from the initial output
      followed by a successful kernel pass from where it stopped. */
  lemma GenerateSplit(cfg: Config, rootfs: seq<byte>, kernel: seq<byte>, compress: Compressor, write: Writer, init: Output)
    requires Validated(cfg)
    requires Generate(cfg, rootfs, kernel, compress, write, init).Success?
    ensures cfg.chunkSize > 0
    ensures Emit(RunEnv(cfg, compress, write), rootfs, Rootfs, Plan(cfg.rootfsSize, cfg.chunkSize), init, 0).Success?
    ensures Emit(RunEnv(cfg, compress, write), kernel, Kernel, Plan(cfg.kernelSize, cfg.chunkSize),
                 Midway(cfg, rootfs, compress, write, init), 0) == Generate(cfg, rootfs, kernel, compress, write, init)
  {
  }

  /** The records of a successful run: one rootfs vertex per rootfs chunk,
      labelled <rootfs-operation-0>, <rootfs-operation-1>, ... after the
      vertices already there, their indices appended to the final order in
      the same order, and one kernel operation per kernel chunk. */
  lemma GenerateRecords(cfg: Config, rootfs: seq<byte>, kernel: seq<byte>, compress: Compressor, write: Writer,
                        init: Output, out: Output)
    requires Validated(cfg)
    requires Generate(cfg, rootfs, kernel, compress, write, init) == Success(out)
    ensures cfg.chunkSize > 0
    ensures var n0 := |Plan(cfg.rootfsSize, cfg.chunkSize)|;
            var n1 := |Plan(cfg.kernelSize, cfg.chunkSize)|;
            && init.graph <= out.graph && |out.graph| == |init.graph| + n0
            && (forall i :: |init.graph| <= i < |out.graph| ==> out.graph[i].fileName == RootfsLabel(i - |init.graph|))
            && out.finalOrder == init.finalOrder + Indices(|init.graph|, n0)
            && init.kernelOps <= out.kernelOps && |out.kernelOps| == |init.kernelOps| + n1
  {
    GenerateSplit(cfg, rootfs, kernel, compress, write, init);
    var env := RunEnv(cfg, compress, write);
    var mid := Midway(cfg, rootfs, compress, write, init);
    RootfsPassRecords(env, rootfs, cfg.rootfsSize, init, mid);
    KernelPassRecords(env, kernel, cfg.kernelSize, mid, out);
  }

  /** The rootfs and the kernel operations a successful run appended. */
  function RootfsOps(init: Output, out: Output): (ops: seq<Op>)
    requires |init.graph| <= |out.graph|
  {
    Emitted(Rootfs, init, out)
  }

  function KernelOps(init: Output, out: Output): (ops: seq<Op>)
    requires |init.kernelOps| <= |out.kernelOps|
  {
    Emitted(Kernel, init, out)
  }

  /** Every operation of a successful run is its chunk's: the i-th new rootfs
      operation is the i-th rootfs chunk's and the i-th new kernel operation
      the i-th kernel chunk's. */
  lemma GenerateOps(cfg: Config, rootfs: seq<byte>, kernel: seq<byte>, compress: Compressor, write: Writer,
                    init: Output, out: Output)
    requires Validated(cfg)
    requires Generate(cfg, rootfs, kernel, compress, write, init) == Success(out)
    ensures cfg.chunkSize > 0
    ensures |init.graph| <= |out.graph| && |init.kernelOps| <= |out.kernelOps|
    ensures var env := RunEnv(cfg, compress, write);
            var p0, p1 := Plan(cfg.rootfsSize, cfg.chunkSize), Plan(cfg.kernelSize, cfg.chunkSize);
            && |RootfsOps(init, out)| == |p0| && |KernelOps(init, out)| == |p1|
            && (forall i :: 0 <= i < |p0| ==> OpForChunk(env, rootfs, p0[i], RootfsOps(init, out)[i]))
            && (forall i :: 0 <= i < |p1| ==> OpForChunk(env, kernel, p1[i], KernelOps(init, out)[i]))
  {
    GenerateSplit(cfg, rootfs, kernel, compress, write, init);
    var env := RunEnv(cfg, compress, write);
    var mid := Midway(cfg, rootfs, compress, write, init);
    PassOps(env, rootfs, Rootfs, cfg.rootfsSize, init, mid);
    PassOps(env, kernel, Kernel, cfg.kernelSize, mid, out);
    RootfsPassRecords(env, rootfs, cfg.rootfsSize, init, mid);
    KernelPassRecords(env, kernel, cfg.kernelSize, mid, out);
    assert RootfsOps(init, out) == Emitted(Rootfs, init, mid);
    assert KernelOps(init, out) == Emitted(Kernel, mid, out);
  }

  lemma {:induction false} ContiguousAppend(a: seq<Op>, b: seq<Op>, lo: int, mid: int, hi: int)
    requires Contiguous(a, lo, mid) && Contiguous(b, mid, hi)
    ensures Contiguous(a + b, lo, hi)
    decreases |a|
  {
    if |a| == 0 {
      assert a + b == b;
    } else {
      ContiguousAppend(a[1..], b, lo + a[0].dataLength, mid, hi);
      assert (a + b)[1..] == a[1..] + b;
    }
  }

  lemma PayloadsExtend(env: Env, image: seq<byte>, chunks: seq<Chunk>, ops: seq<Op>, w: seq<byte>, w': seq<byte>, base: int)
    requires |ops| <= |chunks| && w <= w'
    requires PayloadsAt(env, image, chunks, ops, w, base)
    ensures PayloadsAt(env, image, chunks, ops, w', base)
  {
    forall i: nat | i < |ops|
      ensures PayloadAt(env, image, chunks, ops, w', base, i)
    {
      assert PayloadAt(env, image, chunks, ops, w, base, i);
      BlobExtend(w, w', base, ops[i]);
    }
  }

  /** The data blob of a successful run only grew, and the rootfs
      operations' ranges and then the kernel operations' ranges run back to
      back from its old end to its new end. */
  lemma GenerateBlob(cfg: Config, rootfs: seq<byte>, kernel: seq<byte>, compress: Compressor, write: Writer,
                     init: Output, out: Output)
    requires Validated(cfg)
    requires Generate(cfg, rootfs, kernel, compress, write, init) == Success(out)
    ensures |init.graph| <= |out.graph| && |init.kernelOps| <= |out.kernelOps|
    ensures init.written <= out.written
    ensures out.dataFileSize - |out.written| == init.dataFileSize - |init.written|
    ensures Contiguous(RootfsOps(init, out) + KernelOps(init, out), init.dataFileSize, out.dataFileSize)
  {
    GenerateSplit(cfg, rootfs, kernel, compress, write, init);
    var env := RunEnv(cfg, compress, write);
    var mid := Midway(cfg, rootfs, compress, write, init);
    PassOps(env, rootfs, Rootfs, cfg.rootfsSize, init, mid);
    PassOps(env, kernel, Kernel, cfg.kernelSize, mid, out);
    PassContiguous(env, rootfs, Rootfs, cfg.rootfsSize, init, mid);
    PassContiguous(env, kernel, Kernel, cfg.kernelSize, mid, out);
    KernelPassRecords(env, kernel, cfg.kernelSize, mid, out);
    RootfsPassRecords(env, rootfs, cfg.rootfsSize, init, mid);
    var r, k := RootfsOps(init, out), KernelOps(init, out);
    assert r == Emitted(Rootfs, init, mid);
    assert k == Emitted(Kernel, mid, out);
    ContiguousAppend(r, k, init.dataFileSize, mid.dataFileSize, out.dataFileSize);
  }

  /** Each rootfs operation of a successful run finds its chunk's payload at
      its range of the final blob, whose first written byte is at base. */
  lemma RootfsPayloads(cfg: Config, rootfs: seq<byte>, kernel: seq<byte>, compress: Compressor, write: Writer,
                       init: Output, out: Output)
    requires Validated(cfg)
    requires Generate(cfg, rootfs, kernel, compress, write, init) == Success(out)
    ensures cfg.chunkSize > 0
    ensures |init.graph| <= |out.graph|
    ensures var p0 := Plan(cfg.rootfsSize, cfg.chunkSize);
            && |RootfsOps(init, out)| == |p0|
            && PayloadsAt(RunEnv(cfg, compress, write), rootfs, p0, RootfsOps(init, out), out.written,
                          init.dataFileSize - |init.written|)
  {
    GenerateSplit(cfg, rootfs, kernel, compress, write, init);
    var env := RunEnv(cfg, compress, write);
    var mid := Midway(cfg, rootfs, compress, write, init);
    var p0 := Plan(cfg.rootfsSize, cfg.chunkSize);
    var base := init.dataFileSize - |init.written|;
    assert |init.graph| <= |mid.graph| && |Emitted(Rootfs, init, mid)| == |p0|
           && PayloadsAt(env, rootfs, p0, Emitted(Rootfs, init, mid), mid.written, base) by {
      PassPayloads(env, rootfs, Rootfs, cfg.rootfsSize, init, mid);
    }
    assert mid.written <= out.written && out.graph == mid.graph by {
      PassGrows(env, kernel, Kernel, cfg.kernelSize, mid, out);
      KernelPassRecords(env, kernel, cfg.kernelSize, mid, out);
    }
    var r := RootfsOps(init, out);
    assert r == Emitted(Rootfs, init, mid);
    PayloadsExtend(env, rootfs, p0, r, mid.written, out.written, base);
  }

  /** Each kernel operation of a successful run finds its chunk's payload at
      its range of the final blob, whose first written byte is at base. */
  lemma KernelPayloads(cfg: Config, rootfs: seq<byte>, kernel: seq<byte>, compress: Compressor, write: Writer,
                       init: Output, out: Output)
    requires Validated(cfg)
    requires Generate(cfg, rootfs, kernel, compress, write, init) == Success(out)
    ensures cfg.chunkSize > 0
    ensures |init.kernelOps| <= |out.kernelOps|
    ensures var p1 := Plan(cfg.kernelSize, cfg.chunkSize);
            && |KernelOps(init, out)| == |p1|
            && PayloadsAt(RunEnv(cfg, compress, write), kernel, p1, KernelOps(init, out), out.written,
                          init.dataFileSize - |init.written|)
  {
    GenerateSplit(cfg, rootfs, kernel, compress, write, init);
    var env := RunEnv(cfg, compress, write);
    var mid := Midway(cfg, rootfs, compress, write, init);
    PassGrows(env, rootfs, Rootfs, cfg.rootfsSize, init, mid);
    RootfsPassRecords(env, rootfs, cfg.rootfsSize, init, mid);
    PassPayloads(env, kernel, Kernel, cfg.kernelSize, mid, out);
    assert KernelOps(init, out) == Emitted(Kernel, mid, out);
  }

  /** A successful run read every planned byte of both partitions, so each
      image holds at least as many bytes as the driver believes its partition
      has. */
  lemma GenerateNeedsImages(cfg: Config, rootfs: seq<byte>, kernel: seq<byte>, compress: Compressor, write: Writer, init: Output)
    requires Validated(cfg)
    requires Generate(cfg, rootfs, kernel, compress, write, init).Success?
    ensures PartitionBytes(cfg.rootfsSize) <= |rootfs|
    ensures PartitionBytes(cfg.kernelSize) <= |kernel|
  {
    var out := Generate(cfg, rootfs, kernel, compress, write, init).value;
    var env := RunEnv(cfg, compress, write);
    var base := init.dataFileSize - |init.written|;
    assert PartitionBytes(cfg.rootfsSize) <= |rootfs| by {
      RootfsPayloads(cfg, rootfs, kernel, compress, write, init, out);
      PlanCoversImage(env, rootfs, cfg.rootfsSize, RootfsOps(init, out), out.written, base);
    }
    assert PartitionBytes(cfg.kernelSize) <= |kernel| by {
      KernelPayloads(cfg, rootfs, kernel, compress, write, init, out);
      PlanCoversImage(env, kernel, cfg.kernelSize, KernelOps(init, out), out.written, base);
    }
  }

  /** When every chunk of a plan was readable, the image reaches the end of
      the partition. */
  lemma PlanCoversImage(env: Env, image: seq<byte>, partSize: int, ops: seq<Op>, w: seq<byte>, base: int)
    requires env.Valid() && IsUint64(partSize)
    requires |ops| == |Plan(partSize, env.chunkSize)|
    requires PayloadsAt(env, image, Plan(partSize, env.chunkSize), ops, w, base)
    ensures PartitionBytes(partSize) <= |image|
  {
    var plan := Plan(partSize, env.chunkSize);
    PlanShape(partSize, env.chunkSize);
    if PartitionBytes(partSize) > 0 {
      TilesLast(plan, 0, PartitionBytes(partSize));
      assert PayloadAt(env, image, plan, ops, w, base, |plan| - 1);
    }
  }

  /** An image shorter than its partition makes the run fail. */
  lemma ShortImageFails(cfg: Config, rootfs: seq<byte>, kernel: seq<byte>, compress: Compressor, write: Writer, init: Output)
    requires Validated(cfg)
    requires |rootfs| < PartitionBytes(cfg.rootfsSize) || |kernel| < PartitionBytes(cfg.kernelSize)
    ensures Generate(cfg, rootfs, kernel, compress, write, init).Failure?
  {
    if Generate(cfg, rootfs, kernel, compress, write, init).Success? {
      GenerateNeedsImages(cfg, rootfs, kernel, compress, write, init);
    }
  }
}
