/** The full-update driver. For each of the two partitions (rootfs, then
    kernel) it claims chunks into a bounded FIFO of outstanding workers,
    drains the oldest worker, appends the chosen buffer to the data blob and
    records one REPLACE or REPLACE_BZ operation per chunk: rootfs operations
    become graph vertices, kernel operations go to a flat list.

    `Generate` is the reference meaning of a run: a fold over the planned
    chunks of each partition, with no queue and no thread count. `Run` is the
    driver with its queue, proved to compute exactly `Generate`. */
module FullUpdateGenerator {
  import opened Types
  import opened Chunks
  import opened ChunkProcessor
  import opened Operations
  import Progress

  /** The parts of the payload generation config the driver reads. Sizes are
      the `uint64_t` partition sizes; chunkSize is a signed `off_t`. */
  datatype Config = Config(chunkSize: int, blockSize: int, rootfsSize: int, kernelSize: int)

  /** What the caller's config validation guarantees to the driver. */
  predicate Validated(cfg: Config) {
    cfg.blockSize > 0 && IsUint64(cfg.rootfsSize) && IsUint64(cfg.kernelSize)
  }

  /** The output file: given the running data_file_size and the bytes, says
      whether writing them all succeeded. */
  type Writer = (int, seq<byte>) -> bool

  /** Everything a partition pass needs besides the image and the output. */
  datatype Env = Env(chunkSize: int, blockSize: int, compress: Compressor, write: Writer) {
    predicate Valid() {
      chunkSize > 0 && blockSize > 0
    }
  }

  datatype PartitionKind = Rootfs | Kernel

  datatype RunError =
    | ChunkSizeNotPositive
    | ChunkFailed(partition: PartitionKind, offset: nat, cause: ChunkError)
    | WriteFailed(partition: PartitionKind, offset: nat)

  /** What a run produces: the data blob's size and the bytes appended to it,
      the rootfs graph with its traversal order, and the kernel operations. */
  datatype Output = Output(
    dataFileSize: int,
    written: seq<byte>,
    graph: seq<Vertex>,
    finalOrder: seq<nat>,
    kernelOps: seq<Op>)

  /** Draining one finished chunk: build its operation at the current end of
      the blob, write the chosen buffer, and route the operation. counter
      numbers the rootfs vertices. */
  function EmitOne(env: Env, image: seq<byte>, part: PartitionKind, out: Output, chunk: Chunk, counter: nat): (r: Result<Output, RunError>)
    requires env.Valid()
  {
    match ReadAndCompress(image, chunk, env.compress)
    case Failure(e) => Failure(ChunkFailed(part, chunk.offset, e))
    case Success(res) =>
      var buf := UseBuffer(res);
      var op := MakeOp(res, out.dataFileSize, env.chunkSize, env.blockSize);
      if !env.write(out.dataFileSize, buf) then Failure(WriteFailed(part, chunk.offset))
      else
        var grown := out.(dataFileSize := out.dataFileSize + |buf|, written := out.written + buf);
        Success(
          match part
          case Rootfs => grown.(graph := out.graph + [Vertex(RootfsLabel(counter), op)], finalOrder := out.finalOrder + [|out.graph|])
          case Kernel => grown.(kernelOps := out.kernelOps + [op]))
  }

  /** The drain step as a value, for folding. */
  function Drainer(env: Env, image: seq<byte>, part: PartitionKind): (Output, Chunk, nat) -> Result<Output, RunError>
    requires env.Valid()
  {
    (o: Output, c: Chunk, k: nat) => EmitOne(env, image, part, o, c, k)
  }

  /** Draining the chunks in order, numbering them from counter; the first
      failure ends the pass. */
  function Emit(env: Env, image: seq<byte>, part: PartitionKind, chunks: seq<Chunk>, out: Output, counter: nat): (r: Result<Output, RunError>)
    requires env.Valid()
  {
    Fold(Drainer(env, image, part), chunks, out, counter)
  }

  /** Draining no chunks leaves the output alone; draining some is draining
      the first, then the rest numbered after it. */
  lemma EmitCons(env: Env, image: seq<byte>, part: PartitionKind, chunks: seq<Chunk>, out: Output, counter: nat)
    requires env.Valid()
    ensures |chunks| == 0 ==> Emit(env, image, part, chunks, out, counter) == Success(out)
    ensures |chunks| > 0 ==>
              var step := EmitOne(env, image, part, out, chunks[0], counter);
              && (step.Failure? ==> Emit(env, image, part, chunks, out, counter) == Failure(step.error))
              && (step.Success? ==> Emit(env, image, part, chunks, out, counter) == Emit(env, image, part, chunks[1..], step.value, counter + 1))
  {
    if |chunks| > 0 {
      assert Drainer(env, image, part)(out, chunks[0], counter) == EmitOne(env, image, part, out, chunks[0], counter);
    }
  }

  /** The reference meaning of a run: reject a non-positive chunk size, then
      the whole rootfs plan, then the whole kernel plan. */
  function Generate(cfg: Config, rootfs: seq<byte>, kernel: seq<byte>, compress: Compressor, write: Writer, init: Output): (r: Result<Output, RunError>)
    requires Validated(cfg)
  {
    if cfg.chunkSize <= 0 then Failure(ChunkSizeNotPositive)
    else
      var env := Env(cfg.chunkSize, cfg.blockSize, compress, write);
      match Emit(env, rootfs, Rootfs, Plan(cfg.rootfsSize, cfg.chunkSize), init, 0)
      case Failure(e) => Failure(e)
      case Success(mid) => Emit(env, kernel, Kernel, Plan(cfg.kernelSize, cfg.chunkSize), mid, 0)
  }

  /** Draining a + b is draining a, then b numbered after a. */
  lemma EmitAppend(env: Env, image: seq<byte>, part: PartitionKind, a: seq<Chunk>, b: seq<Chunk>, out: Output, counter: nat)
    requires env.Valid()
    ensures Emit(env, image, part, a, out, counter).Failure? ==>
              Emit(env, image, part, a + b, out, counter) == Emit(env, image, part, a, out, counter)
    ensures Emit(env, image, part, a, out, counter).Success? ==>
              Emit(env, image, part, a + b, out, counter) == Emit(env, image, part, b, Emit(env, image, part, a, out, counter).value, counter + |a|)
  {
    if Emit(env, image, part, a, out, counter).Failure? {
      FoldAppendFailure(Drainer(env, image, part), a, b, out, counter);
    } else {
      FoldAppendSuccess(Drainer(env, image, part), a, b, out, counter);
    }
  }

  /** The driver's claim state: the outstanding chunks, oldest first, and the
      bytes_left / offset counters of the claim loop. */
  datatype Claim = Claim(queue: seq<Chunk>, bytesLeft: int, offset: nat)

  /** The inner claim loop: start workers for the next chunks while fewer
      than maxThreads are outstanding and bytes remain. New chunks join the
      back of the queue, in claim order, and the queue grows to the smaller of
      the limit and all the work there is. */
  function Fill(c: Claim, chunkSize: int, maxThreads: nat): (c': Claim)
    requires chunkSize > 0
    ensures c'.queue + Claims(c'.bytesLeft, c'.offset, chunkSize) == c.queue + Claims(c.bytesLeft, c.offset, chunkSize)
    ensures c.queue <= c'.queue
    ensures |c'.queue| == Max(|c.queue|, Min(maxThreads, |c.queue| + |Claims(c.bytesLeft, c.offset, chunkSize)|))
    decreases if c.bytesLeft > 0 then c.bytesLeft else 0
  {
    if |c.queue| < maxThreads && c.bytesLeft > 0 then
      var chunk := Chunk(c.offset, Min(c.bytesLeft, chunkSize));
      var next := Claim(c.queue + [chunk], c.bytesLeft - chunkSize, c.offset + chunkSize);
      var rest := Claims(next.bytesLeft, next.offset, chunkSize);
      assert [chunk] + rest == Claims(c.bytesLeft, c.offset, chunkSize);
      assert next.queue + rest == c.queue + Claims(c.bytesLeft, c.offset, chunkSize);
      assert |next.queue| + |rest| == |c.queue| + |Claims(c.bytesLeft, c.offset, chunkSize)|;
      Fill(next, chunkSize, maxThreads)
    else c
  }

  /** The progress the driver computes after draining chunk: how far into the
      partition the chunk ends, in whole percent. */
  function Percent(chunk: Chunk, partBytes: int): (pc: int)
    requires partBytes > 0
  {
    Quotient(chunk.End() * 100, partBytes)
  }

  function Percents(chunks: seq<Chunk>, partBytes: int): (ps: seq<int>)
    requires partBytes > 0
    ensures |ps| == |chunks|
  {
    seq(|chunks|, i requires 0 <= i < |chunks| => Percent(chunks[i], partBytes))
  }

  /** Popping the oldest outstanding chunk: it is the next chunk of the plan,
      and what stays queued plus what is still unclaimed is the rest. */
  lemma QueuePop(plan: seq<Chunk>, done: seq<Chunk>, queue: seq<Chunk>, unclaimed: seq<Chunk>)
    requires |done| <= |plan| && done == plan[..|done|]
    requires queue + unclaimed == plan[|done|..] && queue != []
    ensures |done| < |plan| && queue[0] == plan[|done|]
    ensures done + [queue[0]] == plan[..|done| + 1]
    ensures queue[1..] + unclaimed == plan[|done| + 1..]
  {
    assert (queue + unclaimed)[0] == queue[0];
    assert (queue + unclaimed)[1..] == queue[1..] + unclaimed;
  }

  /** Starting workers extends the record of submitted chunks by exactly the
      chunks that joined the queue. */
  lemma SubmitLog(done: seq<Chunk>, queue: seq<Chunk>, grown: seq<Chunk>)
    requires queue <= grown && grown != []
    ensures (done + queue) + grown[|queue|..] == done + grown
    ensures (done + [grown[0]]) + grown[1..] == done + grown
  {
    assert queue + grown[|queue|..] == grown;
    assert [grown[0]] + grown[1..] == grown;
  }

  /** Chunks already drained followed by those still queued are a prefix of the plan. */
  lemma SubmittedPrefix(plan: seq<Chunk>, done: seq<Chunk>, queue: seq<Chunk>, unclaimed: seq<Chunk>)
    requires |done| <= |plan| && done == plan[..|done|]
    requires queue + unclaimed == plan[|done|..]
    ensures done <= done + queue <= plan
    ensures unclaimed == [] ==> done + queue == plan
  {
    assert plan == plan[..|done|] + plan[|done|..];
    assert plan == (done + queue) + unclaimed;
  }

  lemma PercentsSnoc(chunks: seq<Chunk>, chunk: Chunk, partBytes: int)
    requires partBytes > 0
    ensures Percents(chunks + [chunk], partBytes) == Percents(chunks, partBytes) + [Percent(chunk, partBytes)]
  {
  }

  /** The driver's state during one partition pass: the claim loop's queue
      and counters, the vertex counter, the progress rule's state (its last
      report and every report made), the output so far, and a record of which
      chunks were handed to workers (submitted), which were waited on
      (processed) and the largest number outstanding at once (peak). */
  datatype Pass = Pass(
    queue: seq<Chunk>,
    bytesLeft: int,
    offset: nat,
    counter: nat,
    progress: Progress.Log,
    out: Output,
    submitted: seq<Chunk>,
    processed: seq<Chunk>,
    peak: nat)

  /** The result of one turn of the driver loop: the new state, and the error
      that ends the run if draining the oldest chunk failed. */
  datatype Turn = Turn(next: Pass, error: Option<RunError>)

  /** The oldest outstanding chunk, taken off the queue, and the state left. */
  datatype Taken = Taken(pass: Pass, chunk: Chunk)

  /** The claim half of a turn: start workers until maxThreads are outstanding
      or no bytes remain, then take the oldest one off the front of the queue. */
  function TakeOldest(s: Pass, chunkSize: int, maxThreads: nat): (taken: Taken)
    requires chunkSize > 0 && maxThreads > 0
    requires s.bytesLeft > 0 || s.queue != []
    ensures taken.pass.out == s.out && taken.pass.counter == s.counter
    ensures taken.pass.progress == s.progress
    ensures taken.pass.processed == s.processed + [taken.chunk]
  {
    var filled := Fill(Claim(s.queue, s.bytesLeft, s.offset), chunkSize, maxThreads);
    var chunk := filled.queue[0];
    Taken(
      s.(queue := filled.queue[1..],
         bytesLeft := filled.bytesLeft,
         offset := filled.offset,
         submitted := s.submitted + filled.queue[|s.queue|..],
         processed := s.processed + [chunk],
         peak := Max(s.peak, |filled.queue|)),
      chunk)
  }

  /** The queue discipline of one turn: the chunk taken is the oldest of all
      outstanding and unclaimed work, the rest stays queued or unclaimed in
      order, and the queue was first filled to the smaller of maxThreads and
      all that work, so one slot is now free. */
  lemma TakeOldestFifo(s: Pass, chunkSize: int, maxThreads: nat)
    requires chunkSize > 0 && maxThreads > 0 && |s.queue| <= maxThreads
    requires s.bytesLeft > 0 || s.queue != []
    ensures var all := s.queue + Claims(s.bytesLeft, s.offset, chunkSize);
            var taken := TakeOldest(s, chunkSize, maxThreads);
            && all != [] && taken.chunk == all[0]
            && taken.pass.queue + Claims(taken.pass.bytesLeft, taken.pass.offset, chunkSize) == all[1..]
            && |taken.pass.queue| == Min(maxThreads, |all|) - 1
            && taken.pass.submitted == s.submitted + all[|s.queue|..|taken.pass.queue| + 1]
  {
    var all := s.queue + Claims(s.bytesLeft, s.offset, chunkSize);
    var filled := Fill(Claim(s.queue, s.bytesLeft, s.offset), chunkSize, maxThreads);
    var rest := Claims(filled.bytesLeft, filled.offset, chunkSize);
    assert filled.queue + rest == all;
    assert all != [];
    assert filled.queue != [];
    assert filled.queue[1..] + rest == all[1..];
    assert filled.queue == all[..|filled.queue|];
    assert filled.queue[|s.queue|..] == all[|s.queue|..|filled.queue|];
  }

  /** The drain half of a turn: build and write the chunk's operation, then
      apply the progress rule. Only the output, the vertex counter and the
      progress state change. */
  function Drain(env: Env, image: seq<byte>, part: PartitionKind, partBytes: int, p: Pass, chunk: Chunk): (t: Turn)
    requires env.Valid() && partBytes > 0
    ensures t.next.queue == p.queue && t.next.bytesLeft == p.bytesLeft && t.next.offset == p.offset
    ensures t.next.submitted == p.submitted && t.next.processed == p.processed && t.next.peak == p.peak
    ensures var step := EmitOne(env, image, part, p.out, chunk, p.counter);
            && (t.error.None? <==> step.Success?)
            && (step.Success? ==> t.next.out == step.value)
            && (step.Failure? ==> t.error == Some(step.error))
    ensures t.error.None? ==> t.next.progress == Progress.Feed(p.progress, Percent(chunk, partBytes))
    ensures t.error.None? ==> t.next.counter == if part.Rootfs? then p.counter + 1 else p.counter
  {
    match EmitOne(env, image, part, p.out, chunk, p.counter)
    case Failure(e) => Turn(p, Some(e))
    case Success(out) =>
      var drained := p.(out := out, counter := if part.Rootfs? then p.counter + 1 else p.counter);
      Turn(drained.(progress := Progress.Feed(p.progress, Percent(chunk, partBytes))), None)
  }

  /** One turn of the driver loop: claim, wait for the oldest worker, drain it. */
  function Step(env: Env, image: seq<byte>, part: PartitionKind, maxThreads: nat, partBytes: int, s: Pass): (t: Turn)
    requires env.Valid() && maxThreads > 0 && partBytes > 0
    requires s.bytesLeft > 0 || s.queue != []
  {
    var taken := TakeOldest(s, env.chunkSize, maxThreads);
    Drain(env, image, part, partBytes, taken.pass, taken.chunk)
  }

  /** The claim side of a pass over plan: the drained chunks are a prefix of
      the plan, the queue followed by the unclaimed chunks is the rest of it,
      and at most maxThreads chunks are outstanding. */
  ghost predicate ClaimInvariant(plan: seq<Chunk>, chunkSize: int, maxThreads: nat, s: Pass)
    requires chunkSize > 0
  {
    && |s.processed| <= |plan|
    && s.processed == plan[..|s.processed|]
    && s.queue + Claims(s.bytesLeft, s.offset, chunkSize) == plan[|s.processed|..]
    && s.submitted == s.processed + s.queue
    && |s.queue| <= maxThreads
    && (s.processed == [] ==> s.queue == [] && Claims(s.bytesLeft, s.offset, chunkSize) == plan)
    && s.peak == (if s.processed == [] then 0 else Min(maxThreads, |plan|))
  }

  /** The drain side: the output is the reference fold over the drained
      chunks, and the progress state is the rule replayed over them. */
  ghost predicate OutputInvariant(env: Env, image: seq<byte>, part: PartitionKind, partBytes: int, out0: Output, s: Pass)
    requires env.Valid()
  {
    && (part.Rootfs? ==> s.counter == |s.processed|)
    && Emit(env, image, part, s.processed, out0, 0) == Success(s.out)
    && (s.processed != [] ==> partBytes > 0 && Progress.Replay(Progress.IntMin, Percents(s.processed, partBytes)) == s.progress)
    && (s.processed == [] ==> s.progress == Progress.Log(Progress.IntMin, []))
  }

  ghost predicate PassInvariant(env: Env, image: seq<byte>, part: PartitionKind, plan: seq<Chunk>, partBytes: int,
                                maxThreads: nat, out0: Output, s: Pass)
    requires env.Valid()
  {
    && ClaimInvariant(plan, env.chunkSize, maxThreads, s)
    && OutputInvariant(env, image, part, partBytes, out0, s)
    && (plan != [] ==> partBytes > 0)
  }

  /** Taking the oldest chunk takes the next chunk of the plan and keeps the
      claim side intact, with one slot of the queue now free. */
  lemma TakeOldestKeepsClaims(plan: seq<Chunk>, chunkSize: int, maxThreads: nat, s: Pass)
    requires chunkSize > 0 && maxThreads > 0
    requires ClaimInvariant(plan, chunkSize, maxThreads, s)
    requires s.bytesLeft > 0 || s.queue != []
    ensures var taken := TakeOldest(s, chunkSize, maxThreads);
            && |s.processed| < |plan|
            && taken.chunk == plan[|s.processed|]
            && ClaimInvariant(plan, chunkSize, maxThreads, taken.pass)
            && |taken.pass.queue| < maxThreads
  {
    var unclaimed := Claims(s.bytesLeft, s.offset, chunkSize);
    assert |s.queue| + |unclaimed| == |plan| - |s.processed|;
    var filled := Fill(Claim(s.queue, s.bytesLeft, s.offset), chunkSize, maxThreads);
    var rest := Claims(filled.bytesLeft, filled.offset, chunkSize);
    assert |filled.queue| <= Min(maxThreads, |plan|);
    assert s.processed == [] ==> |filled.queue| == Min(maxThreads, |plan|);
    SubmitLog(s.processed, s.queue, filled.queue);
    QueuePop(plan, s.processed, filled.queue, rest);
  }

  /** Only rootfs vertices are numbered: a kernel chunk drains the same
      whatever the counter. */
  lemma KernelIgnoresCounter(env: Env, image: seq<byte>, out: Output, chunk: Chunk, c1: nat, c2: nat)
    requires env.Valid()
    ensures EmitOne(env, image, Kernel, out, chunk, c1) == EmitOne(env, image, Kernel, out, chunk, c2)
  {
  }

  /** Draining a single chunk is one EmitOne. */
  lemma EmitSingle(env: Env, image: seq<byte>, part: PartitionKind, chunk: Chunk, out: Output, counter: nat)
    requires env.Valid()
    ensures Emit(env, image, part, [chunk], out, counter) == EmitOne(env, image, part, out, chunk, counter)
  {
    EmitCons(env, image, part, [chunk], out, counter);
    var step := EmitOne(env, image, part, out, chunk, counter);
    if step.Success? {
      assert [chunk][1..] == [];
      EmitCons(env, image, part, [], step.value, counter + 1);
    }
  }

  /** Draining a chunk extends the reference fold by that chunk. */
  lemma DrainExtendsFold(env: Env, image: seq<byte>, part: PartitionKind, partBytes: int, out0: Output, p: Pass, chunk: Chunk)
    requires env.Valid() && partBytes > 0
    requires |p.processed| > 0 && chunk == p.processed[|p.processed| - 1]
    requires part.Rootfs? ==> p.counter == |p.processed| - 1
    requires Emit(env, image, part, p.processed[..|p.processed| - 1], out0, 0) == Success(p.out)
    ensures var t := Drain(env, image, part, partBytes, p, chunk);
            && (t.error.None? ==> Emit(env, image, part, p.processed, out0, 0) == Success(t.next.out))
            && (t.error.Some? ==> Emit(env, image, part, p.processed, out0, 0) == Failure(t.error.value))
  {
    var before := p.processed[..|p.processed| - 1];
    assert p.processed == before + [chunk];
    EmitAppend(env, image, part, before, [chunk], out0, 0);
    EmitSingle(env, image, part, chunk, p.out, |before|);
    if part.Kernel? {
      KernelIgnoresCounter(env, image, p.out, chunk, p.counter, |before|);
    }
  }

  /** Draining the next chunk: on success the drain side holds again, on
      failure the fold over the drained chunks fails there. */
  lemma DrainKeepsOutput(env: Env, image: seq<byte>, part: PartitionKind, partBytes: int, out0: Output, p: Pass, chunk: Chunk)
    requires env.Valid() && partBytes > 0
    requires |p.processed| > 0 && chunk == p.processed[|p.processed| - 1]
    requires OutputInvariant(env, image, part, partBytes, out0, p.(processed := p.processed[..|p.processed| - 1]))
    ensures var t := Drain(env, image, part, partBytes, p, chunk);
            && (t.error.None? ==> OutputInvariant(env, image, part, partBytes, out0, t.next))
            && (t.error.Some? ==> Emit(env, image, part, p.processed, out0, 0) == Failure(t.error.value))
  {
    var before := p.processed[..|p.processed| - 1];
    assert p.processed == before + [chunk];
    DrainExtendsFold(env, image, part, partBytes, out0, p, chunk);
    var t := Drain(env, image, part, partBytes, p, chunk);
    if t.error.None? {
      var ps := Percents(p.processed, partBytes);
      assert Progress.Replay(Progress.IntMin, ps) == t.next.progress by {
        PercentsSnoc(before, chunk, partBytes);
        Progress.ReplaySnoc(Progress.IntMin, Percents(before, partBytes), Percent(chunk, partBytes));
        if before == [] {
          assert Percents(before, partBytes) == [];
        }
      }
    }
  }

  /** A turn drains the next chunk of the plan. Either it keeps the
      invariant, or it fails on exactly that chunk and so does the whole
      reference fold. */
  lemma StepKeepsInvariant(env: Env, image: seq<byte>, part: PartitionKind, plan: seq<Chunk>, partBytes: int,
                           maxThreads: nat, out0: Output, s: Pass)
    requires env.Valid() && maxThreads > 0
    requires PassInvariant(env, image, part, plan, partBytes, maxThreads, out0, s)
    requires s.bytesLeft > 0 || s.queue != []
    ensures partBytes > 0
    ensures var t := Step(env, image, part, maxThreads, partBytes, s);
            && |t.next.processed| == |s.processed| + 1
            && (t.error.None? ==> PassInvariant(env, image, part, plan, partBytes, maxThreads, out0, t.next))
            && (t.error.Some? ==>
                  && t.next.processed <= t.next.submitted <= plan
                  && |t.next.submitted| <= |t.next.processed| + maxThreads
                  && t.next.peak == Min(maxThreads, |plan|)
                  && Emit(env, image, part, t.next.processed, out0, 0) == Failure(t.error.value)
                  && Emit(env, image, part, plan, out0, 0) == Failure(t.error.value))
  {
    TakeOldestKeepsClaims(plan, env.chunkSize, maxThreads, s);
    var taken := TakeOldest(s, env.chunkSize, maxThreads);
    var p := taken.pass;
    assert p.(processed := p.processed[..|p.processed| - 1]).processed == s.processed;
    DrainKeepsOutput(env, image, part, partBytes, out0, p, taken.chunk);
    var t := Drain(env, image, part, partBytes, p, taken.chunk);
    if t.error.Some? {
      var done := p.processed;
      EmitAppend(env, image, part, done, plan[|done|..], out0, 0);
      assert done + plan[|done|..] == plan;
      SubmittedPrefix(plan, done, p.queue, Claims(p.bytesLeft, p.offset, env.chunkSize));
    }
  }

  /** A pass that has drained everything has drained exactly the plan. */
  lemma PassComplete(env: Env, image: seq<byte>, part: PartitionKind, plan: seq<Chunk>, partBytes: int,
                     maxThreads: nat, out0: Output, s: Pass)
    requires env.Valid()
    requires PassInvariant(env, image, part, plan, partBytes, maxThreads, out0, s)
    requires s.bytesLeft <= 0 && s.queue == []
    ensures s.processed == s.submitted == plan
  {
    assert Claims(s.bytesLeft, s.offset, env.chunkSize) == [];
    SubmittedPrefix(plan, s.processed, s.queue, []);
    assert s.processed + s.queue == s.processed;
  }

  /** One partition pass with the bounded FIFO of outstanding workers. A
      worker's result is a function of its chunk alone, so it is computed
      when the driver waits on it; what matters is the order of waiting. */
  method RunPartition(env: Env, maxThreads: nat, part: PartitionKind, partSize: int, image: seq<byte>, out0: Output)
    returns (r: Result<Output, RunError>, submitted: seq<Chunk>, processed: seq<Chunk>, peak: nat, reported: seq<int>)
    requires env.Valid() && maxThreads > 0 && IsUint64(partSize)
    ensures r == Emit(env, image, part, Plan(partSize, env.chunkSize), out0, 0)
    ensures processed <= submitted <= Plan(partSize, env.chunkSize)
    ensures |submitted| <= |processed| + maxThreads
    ensures r.Success? ==> processed == submitted == Plan(partSize, env.chunkSize)
    ensures r.Failure? ==> processed != [] && Emit(env, image, part, processed, out0, 0) == r
    ensures peak == Min(maxThreads, |Plan(partSize, env.chunkSize)|)
    ensures r.Success? && PartitionBytes(partSize) > 0 ==>
              reported == Progress.Replay(Progress.IntMin, Percents(Plan(partSize, env.chunkSize), PartitionBytes(partSize))).reported
    ensures PartitionBytes(partSize) <= 0 ==> reported == []
  {
    ghost var plan := Plan(partSize, env.chunkSize);
    var bytes := PartitionBytes(partSize);
    var s := Pass([], bytes, 0, 0, Progress.Log(Progress.IntMin, []), out0, [], [], 0);
    while s.bytesLeft > 0 || s.queue != []
      invariant PassInvariant(env, image, part, plan, bytes, maxThreads, out0, s)
      decreases |plan| - |s.processed|
    {
      StepKeepsInvariant(env, image, part, plan, bytes, maxThreads, out0, s);
      var t := Step(env, image, part, maxThreads, bytes, s);
      if t.error.Some? {
        r := Failure(t.error.value);
        submitted, processed, peak, reported := t.next.submitted, t.next.processed, t.next.peak, t.next.progress.reported;
        return;
      }
      s := t.next;
    }
    PassComplete(env, image, part, plan, bytes, maxThreads, out0, s);
    r := Success(s.out);
    submitted, processed, peak, reported := s.submitted, s.processed, s.peak, s.progress.reported;
  }

  /** The whole run: fail on a non-positive chunk size, then one pass per
      partition, rootfs first, each drained completely before the next. The
      thread limit is the processor count, but at least 4. */
  method Run(cfg: Config, onlineProcessors: int, rootfs: seq<byte>, kernel: seq<byte>, compress: Compressor, write: Writer,
             dataFileSize: int, graph: seq<Vertex>, finalOrder: seq<nat>, kernelOps: seq<Op>)
    returns (r: Result<Output, RunError>)
    requires Validated(cfg)
    ensures cfg.chunkSize <= 0 ==> r == Failure(ChunkSizeNotPositive)
    ensures r == Generate(cfg, rootfs, kernel, compress, write, Output(dataFileSize, [], graph, finalOrder, kernelOps))
  {
    if cfg.chunkSize <= 0 {
      return Failure(ChunkSizeNotPositive);
    }
    var maxThreads: nat := Max(onlineProcessors, 4);
    var env := Env(cfg.chunkSize, cfg.blockSize, compress, write);
    var out := Output(dataFileSize, [], graph, finalOrder, kernelOps);
    var first, submitted, processed, peak, reported := RunPartition(env, maxThreads, Rootfs, cfg.rootfsSize, rootfs, out);
    if first.Failure? {
      return Failure(first.error);
    }
    r, submitted, processed, peak, reported := RunPartition(env, maxThreads, Kernel, cfg.kernelSize, kernel, first.value);
  }
}
