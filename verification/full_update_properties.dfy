/** What a successful full-update run guarantees about its output, stated
    against the partition plans and the images: one operation per planned
    chunk in plan order, the right type and extent for each, back-to-back
    data ranges across both partitions, payload bytes that decode to the
    image, rootfs vertices numbered from 0, and failure on a short image. */
module FullUpdateProperties {
  import opened Types
  import opened Chunks
  import opened ChunkProcessor
  import opened Operations
  import opened FullUpdateGenerator
  import Progress

  /** The bytes of chunk in the image. */
  function Raw(image: seq<byte>, chunk: Chunk): (raw: seq<byte>)
    requires chunk.End() <= |image|
  {
    image[chunk.offset..chunk.End()]
  }

  /** chunk lies inside the image and the codec accepts its bytes. */
  predicate Readable(env: Env, image: seq<byte>, chunk: Chunk) {
    chunk.End() <= |image| && env.compress(Raw(image, chunk)).Some?
  }

  /** The bytes the driver writes for a readable chunk: the compressed form
      when it is strictly shorter, the raw bytes otherwise. */
  function Payload(env: Env, image: seq<byte>, chunk: Chunk): (payload: seq<byte>)
    requires Readable(env, image, chunk)
  {
    var raw := Raw(image, chunk);
    var z := env.compress(raw).value;
    if |z| < |raw| then z else raw
  }

  /** op is the operation the driver records for chunk: REPLACE_BZ exactly
      when compression strictly shrank the chunk, the length of the bytes
      written, and one extent from the chunk's offset and the configured
      chunk size. */
  predicate OpForChunk(env: Env, image: seq<byte>, chunk: Chunk, op: Op)
    requires env.Valid()
  {
    && Readable(env, image, chunk)
    && (op.opType == ReplaceBz <==> |env.compress(Raw(image, chunk)).value| < chunk.size)
    && op.dataLength == |Payload(env, image, chunk)|
    && op.dstExtents == [Extent(Quotient(chunk.offset, env.blockSize), Quotient(env.chunkSize, env.blockSize))]
  }

  /** A drain turn in the driver's terms: it fails exactly when the chunk's
      read or compression fails or writing the chosen buffer fails, naming
      the partition and chunk, and then leaves the state as it was; otherwise
      it appends the chunk's payload and operation, routes the operation,
      moves the vertex counter for rootfs only and feeds the chunk's
      percentage to the progress rule, touching nothing else. */
  lemma DrainSpec(env: Env, image: seq<byte>, part: PartitionKind, partBytes: int, p: Pass, chunk: Chunk)
    requires env.Valid() && partBytes > 0
    ensures var rc := ReadAndCompress(image, chunk, env.compress);
            var t := Drain(env, image, part, partBytes, p, chunk);
            && (t.error.None? <==> rc.Success? && env.write(p.out.dataFileSize, UseBuffer(rc.value)))
            && (rc.Failure? ==> t.error == Some(ChunkFailed(part, chunk.offset, rc.error)))
            && (rc.Success? && !env.write(p.out.dataFileSize, UseBuffer(rc.value)) ==> t.error == Some(WriteFailed(part, chunk.offset)))
            && (t.error.Some? ==> t.next == p)
    ensures var t := Drain(env, image, part, partBytes, p, chunk);
            t.error.None? && chunk.size > 0 ==>
              && Grew(part, p.out, t.next.out)
              && Wrote(env, image, part, chunk, p.out, t.next.out)
              && Routed(part, p.counter, p.out, t.next.out)
    ensures var t := Drain(env, image, part, partBytes, p, chunk);
            t.error.None? ==>
              && t.next == p.(out := t.next.out, counter := t.next.counter, progress := t.next.progress)
              && t.next.counter == (if part.Rootfs? then p.counter + 1 else p.counter)
              && t.next.progress == Progress.Feed(p.progress, Percent(chunk, partBytes))
  {
    var t := Drain(env, image, part, partBytes, p, chunk);
    if t.error.None? && chunk.size > 0 {
      EmitOneStep(env, image, part, p.out, chunk, p.counter);
    }
  }

  function GraphOps(graph: seq<Vertex>): (ops: seq<Op>)
    ensures |ops| == |graph|
  {
    seq(|graph|, i requires 0 <= i < |graph| => graph[i].op)
  }

  /** The operation list a partition feeds: the graph's operations for
      rootfs, the flat list for kernel. */
  function OpsOf(part: PartitionKind, out: Output): (ops: seq<Op>) {
    match part
    case Rootfs => GraphOps(out.graph)
    case Kernel => out.kernelOps
  }

  /** The operations appended to part's list between out0 and out. */
  function Emitted(part: PartitionKind, out0: Output, out: Output): (ops: seq<Op>)
    requires |OpsOf(part, out0)| <= |OpsOf(part, out)|
  {
    OpsOf(part, out)[|OpsOf(part, out0)|..]
  }

  /** The operations' data ranges follow each other with no gap and no
      overlap, starting at lo and ending at hi. */
  predicate Contiguous(ops: seq<Op>, lo: int, hi: int)
    decreases |ops|
  {
    if |ops| == 0 then lo == hi
    else ops[0].dataOffset == lo && Contiguous(ops[1..], lo + ops[0].dataLength, hi)
  }

  /** op's data range lies in written, whose first byte is at blob offset base. */
  predicate InBlob(written: seq<byte>, base: int, op: Op) {
    base <= op.dataOffset && op.dataOffset - base + op.dataLength <= |written|
  }

  function BlobBytes(written: seq<byte>, base: int, op: Op): (bytes: seq<byte>)
    requires InBlob(written, base, op)
  {
    written[op.dataOffset - base..op.dataOffset - base + op.dataLength]
  }

  /** start, start + 1, ..., start + n - 1. */
  function Indices(start: nat, n: nat): (s: seq<nat>)
    ensures |s| == n
  {
    seq(n, i requires 0 <= i < n => start + i)
  }

  lemma GraphOpsSnoc(graph: seq<Vertex>, v: Vertex)
    ensures GraphOps(graph + [v]) == GraphOps(graph) + [v.op]
  {
  }

  /** The operation a step from a to b appended to part's list. */
  function NewOp(part: PartitionKind, a: Output, b: Output): (op: Op)
    requires |OpsOf(part, a)| < |OpsOf(part, b)|
  {
    OpsOf(part, b)[|OpsOf(part, a)|]
  }

  /** How one drained chunk grows the output: one operation is appended to
      its partition's list, its bytes start at the blob's old end, and the
      blob grows by exactly its length. */
  predicate Grew(part: PartitionKind, a: Output, b: Output) {
    && |OpsOf(part, b)| == |OpsOf(part, a)| + 1
    && OpsOf(part, b)[..|OpsOf(part, a)|] == OpsOf(part, a)
    && NewOp(part, a, b).dataOffset == a.dataFileSize
    && b.dataFileSize == a.dataFileSize + NewOp(part, a, b).dataLength
    && a.written <= b.written
    && |b.written| == |a.written| + NewOp(part, a, b).dataLength
  }

  /** What one drained chunk writes: its payload goes to the blob and the
      appended operation is the chunk's. */
  predicate Wrote(env: Env, image: seq<byte>, part: PartitionKind, chunk: Chunk, a: Output, b: Output)
    requires env.Valid()
  {
    && |OpsOf(part, a)| < |OpsOf(part, b)|
    && Readable(env, image, chunk)
    && b.written == a.written + Payload(env, image, chunk)
    && OpForChunk(env, image, chunk, NewOp(part, a, b))
  }

  /** Where one drained chunk's operation goes: a rootfs one becomes a vertex
      labelled with counter whose index joins the final order, a kernel one
      leaves the graph alone; the other partition's records stay as they were. */
  predicate Routed(part: PartitionKind, counter: nat, a: Output, b: Output) {
    match part
    case Rootfs =>
      && |b.graph| == |a.graph| + 1
      && b.graph[..|a.graph|] == a.graph
      && b.graph[|a.graph|].fileName == RootfsLabel(counter)
      && b.finalOrder == a.finalOrder + [|a.graph|]
      && b.kernelOps == a.kernelOps
    case Kernel => b.graph == a.graph && b.finalOrder == a.finalOrder
  }

  lemma EmitOneStep(env: Env, image: seq<byte>, part: PartitionKind, out: Output, chunk: Chunk, counter: nat)
    requires env.Valid() && chunk.size > 0
    requires EmitOne(env, image, part, out, chunk, counter).Success?
    ensures var b := EmitOne(env, image, part, out, chunk, counter).value;
            && Grew(part, out, b) && Wrote(env, image, part, chunk, out, b) && Routed(part, counter, out, b)
  {
    ReadAndCompressSpec(image, chunk, env.compress);
    var res := ReadAndCompress(image, chunk, env.compress).value;
    UseBufferSpec(res);
    MakeOpSpec(res, out.dataFileSize, env.chunkSize, env.blockSize);
    var op := MakeOp(res, out.dataFileSize, env.chunkSize, env.blockSize);
    var mid := EmitOne(env, image, part, out, chunk, counter).value;
    if part.Rootfs? {
      GraphOpsSnoc(out.graph, Vertex(RootfsLabel(counter), op));
      assert mid.graph == out.graph + [Vertex(RootfsLabel(counter), op)];
    }
    assert OpsOf(part, mid) == OpsOf(part, out) + [op];
  }

  predicate GrewAt(part: PartitionKind, outs: seq<Output>, i: nat)
    requires i < |outs| - 1
  {
    Grew(part, outs[i], outs[i + 1])
  }

  predicate WroteAt(env: Env, image: seq<byte>, part: PartitionKind, chunks: seq<Chunk>, outs: seq<Output>, i: nat)
    requires env.Valid() && i < |chunks| && |outs| == |chunks| + 1
  {
    Wrote(env, image, part, chunks[i], outs[i], outs[i + 1])
  }

  predicate RoutedAt(part: PartitionKind, outs: seq<Output>, counter: nat, i: nat)
    requires i < |outs| - 1
  {
    Routed(part, counter + i, outs[i], outs[i + 1])
  }

  /** Every step of outs grows the output by one operation. */
  predicate Growing(part: PartitionKind, outs: seq<Output>) {
    forall i: nat :: i < |outs| - 1 ==> GrewAt(part, outs, i)
  }

  /** Every step of outs writes its chunk's payload and operation. */
  predicate Writing(env: Env, image: seq<byte>, part: PartitionKind, chunks: seq<Chunk>, outs: seq<Output>)
    requires env.Valid() && |outs| == |chunks| + 1
  {
    forall i: nat :: i < |chunks| ==> WroteAt(env, image, part, chunks, outs, i)
  }

  /** Every step of outs routes its operation, numbering from counter. */
  predicate Routing(part: PartitionKind, outs: seq<Output>, counter: nat) {
    forall i: nat :: i < |outs| - 1 ==> RoutedAt(part, outs, counter, i)
  }

  /** outs[0], outs[1], ... are the outputs before and after each chunk of
      a pass that numbers its chunks from counter. */
  predicate Steps(env: Env, image: seq<byte>, part: PartitionKind, chunks: seq<Chunk>, outs: seq<Output>, counter: nat)
    requires env.Valid()
  {
    && |outs| == |chunks| + 1
    && Growing(part, outs)
    && Writing(env, image, part, chunks, outs)
    && Routing(part, outs, counter)
  }

  /** The outputs a successful pass goes through, its start first. */
  function Trace(env: Env, image: seq<byte>, part: PartitionKind, chunks: seq<Chunk>, out: Output, counter: nat): (outs: seq<Output>)
    requires env.Valid()
    requires Emit(env, image, part, chunks, out, counter).Success?
    ensures |outs| == |chunks| + 1 && outs[0] == out
    decreases |chunks|
  {
    EmitCons(env, image, part, chunks, out, counter);
    if |chunks| == 0 then [out]
    else [out] + Trace(env, image, part, chunks[1..], EmitOne(env, image, part, out, chunks[0], counter).value, counter + 1)
  }

  /** A successful pass over chunks of positive size goes step by step from
      its start to its result. */
  lemma {:induction false} EmitSteps(env: Env, image: seq<byte>, part: PartitionKind, chunks: seq<Chunk>,
                                     out0: Output, counter: nat, out: Output)
    requires env.Valid()
    requires forall i :: 0 <= i < |chunks| ==> chunks[i].size > 0
    requires Emit(env, image, part, chunks, out0, counter) == Success(out)
    ensures var outs := Trace(env, image, part, chunks, out0, counter);
            Steps(env, image, part, chunks, outs, counter) && outs[|outs| - 1] == out
    decreases |chunks|
  {
    if |chunks| > 0 {
      EmitCons(env, image, part, chunks, out0, counter);
      var mid := EmitOne(env, image, part, out0, chunks[0], counter).value;
      assert Emit(env, image, part, chunks[1..], mid, counter + 1) == Success(out);
      EmitOneStep(env, image, part, out0, chunks[0], counter);
      EmitSteps(env, image, part, chunks[1..], mid, counter + 1, out);
      var outs := Trace(env, image, part, chunks, out0, counter);
      var tail := Trace(env, image, part, chunks[1..], mid, counter + 1);
      assert outs == [out0] + tail;
      assert chunks == [chunks[0]] + chunks[1..];
      GrowingCons(part, out0, tail);
      WritingCons(env, image, part, chunks[0], chunks[1..], out0, tail);
      RoutingCons(part, counter, out0, tail);
      assert outs[|outs| - 1] == tail[|tail| - 1];
    }
  }

  /** A step in front of a growing run of steps gives a growing run. */
  lemma GrowingCons(part: PartitionKind, a: Output, tail: seq<Output>)
    requires |tail| > 0 && Grew(part, a, tail[0]) && Growing(part, tail)
    ensures Growing(part, [a] + tail)
  {
    var outs := [a] + tail;
    forall i: nat | i < |outs| - 1
      ensures GrewAt(part, outs, i)
    {
      if i > 0 {
        assert GrewAt(part, tail, i - 1);
        assert outs[i] == tail[i - 1] && outs[i + 1] == tail[i];
      }
    }
  }

  /** A step that writes chunk, in front of a run that writes chunks. */
  lemma WritingCons(env: Env, image: seq<byte>, part: PartitionKind, chunk: Chunk, chunks: seq<Chunk>, a: Output, tail: seq<Output>)
    requires env.Valid() && |tail| == |chunks| + 1
    requires Wrote(env, image, part, chunk, a, tail[0]) && Writing(env, image, part, chunks, tail)
    ensures Writing(env, image, part, [chunk] + chunks, [a] + tail)
  {
    var outs, all := [a] + tail, [chunk] + chunks;
    forall i: nat | i < |all|
      ensures WroteAt(env, image, part, all, outs, i)
    {
      if i > 0 {
        assert WroteAt(env, image, part, chunks, tail, i - 1);
        assert all[i] == chunks[i - 1];
        assert outs[i] == tail[i - 1] && outs[i + 1] == tail[i];
      }
    }
  }

  /** A step routed with counter in front of a run routed from counter + 1. */
  lemma RoutingCons(part: PartitionKind, counter: nat, a: Output, tail: seq<Output>)
    requires |tail| > 0 && Routed(part, counter, a, tail[0]) && Routing(part, tail, counter + 1)
    ensures Routing(part, [a] + tail, counter)
  {
    var outs := [a] + tail;
    forall i: nat | i < |outs| - 1
      ensures RoutedAt(part, outs, counter, i)
    {
      if i > 0 {
        assert RoutedAt(part, tail, counter + 1, i - 1);
        assert outs[i] == tail[i - 1] && outs[i + 1] == tail[i];
        assert counter + i == (counter + 1) + (i - 1);
      }
    }
  }

  /** Up to any step k the blob and the partition's list only grow, by one
      operation per step, and the blob's end keeps in step with the bytes
      written. */
  lemma {:induction false} StepsGrow(part: PartitionKind, outs: seq<Output>, k: nat)
    requires Growing(part, outs) && k < |outs|
    ensures outs[0].written <= outs[k].written
    ensures outs[k].dataFileSize - |outs[k].written| == outs[0].dataFileSize - |outs[0].written|
    ensures OpsOf(part, outs[0]) <= OpsOf(part, outs[k])
    ensures |OpsOf(part, outs[k])| == |OpsOf(part, outs[0])| + k
    decreases k
  {
    if k > 0 {
      StepsGrow(part, outs, k - 1);
      assert GrewAt(part, outs, k - 1);
    }
  }

  /** The operations appended up to step k + 1 are those up to step k and the
      one step k appends. */
  lemma EmittedSnoc(part: PartitionKind, outs: seq<Output>, k: nat)
    requires Growing(part, outs) && k + 1 < |outs|
    ensures |OpsOf(part, outs[0])| <= |OpsOf(part, outs[k])| < |OpsOf(part, outs[k + 1])|
    ensures Grew(part, outs[k], outs[k + 1])
    ensures Emitted(part, outs[0], outs[k + 1]) == Emitted(part, outs[0], outs[k]) + [NewOp(part, outs[k], outs[k + 1])]
  {
    StepsGrow(part, outs, k);
    assert GrewAt(part, outs, k);
    var n0 := |OpsOf(part, outs[0])|;
    var a, b := OpsOf(part, outs[k]), OpsOf(part, outs[k + 1]);
    assert b == a + [b[|a|]];
    assert b[n0..] == a[n0..] + [b[|a|]];
  }

  /** Up to step k every appended operation is its chunk's, in chunk order. */
  lemma {:induction false} StepsOpsMatch(env: Env, image: seq<byte>, part: PartitionKind, chunks: seq<Chunk>, outs: seq<Output>, k: nat)
    requires env.Valid() && |outs| == |chunks| + 1 && k <= |chunks|
    requires Growing(part, outs) && Writing(env, image, part, chunks, outs)
    ensures |OpsOf(part, outs[0])| <= |OpsOf(part, outs[k])|
    ensures |Emitted(part, outs[0], outs[k])| == k
    ensures forall i :: 0 <= i < k ==> OpForChunk(env, image, chunks[i], Emitted(part, outs[0], outs[k])[i])
    decreases k
  {
    StepsGrow(part, outs, k);
    if k > 0 {
      StepsOpsMatch(env, image, part, chunks, outs, k - 1);
      EmittedSnoc(part, outs, k - 1);
      var e, e' := Emitted(part, outs[0], outs[k - 1]), Emitted(part, outs[0], outs[k]);
      forall i | 0 <= i < k
        ensures OpForChunk(env, image, chunks[i], e'[i])
      {
        if i < k - 1 {
          assert e'[i] == e[i];
        } else {
          assert WroteAt(env, image, part, chunks, outs, k - 1);
        }
      }
    }
  }

  lemma {:induction false} ContiguousSnoc(ops: seq<Op>, lo: int, hi: int, op: Op)
    requires Contiguous(ops, lo, hi) && op.dataOffset == hi
    ensures Contiguous(ops + [op], lo, hi + op.dataLength)
    decreases |ops|
  {
    if |ops| == 0 {
      assert ops + [op] == [op];
      assert Contiguous([op][1..], lo + op.dataLength, hi + op.dataLength);
    } else {
      ContiguousSnoc(ops[1..], lo + ops[0].dataLength, hi, op);
      assert (ops + [op])[1..] == ops[1..] + [op];
    }
  }

  /** Up to step k the appended operations' data ranges run back to back from
      the blob's old end to its end after step k. */
  lemma {:induction false} StepsContiguous(part: PartitionKind, outs: seq<Output>, k: nat)
    requires Growing(part, outs) && k < |outs|
    ensures |OpsOf(part, outs[0])| <= |OpsOf(part, outs[k])|
    ensures Contiguous(Emitted(part, outs[0], outs[k]), outs[0].dataFileSize, outs[k].dataFileSize)
    decreases k
  {
    StepsGrow(part, outs, k);
    if k == 0 {
      assert Emitted(part, outs[0], outs[0]) == [];
    } else {
      var a, b := outs[k - 1], outs[k];
      var lo := outs[0].dataFileSize;
      StepsContiguous(part, outs, k - 1);
      EmittedSnoc(part, outs, k - 1);
      var op := NewOp(part, a, b);
      assert op.dataOffset == a.dataFileSize && b.dataFileSize == a.dataFileSize + op.dataLength;
      ContiguousSnoc(Emitted(part, outs[0], a), lo, a.dataFileSize, op);
    }
  }

  /** An operation whose range starts where the written bytes w0 ended and
      spans p finds p in any later written bytes that extend w0 + p. */
  lemma BlobAfter(w0: seq<byte>, p: seq<byte>, w: seq<byte>, base: int, op: Op)
    requires w0 + p <= w
    requires op.dataOffset == base + |w0| && op.dataLength == |p|
    ensures InBlob(w, base, op) && BlobBytes(w, base, op) == p
  {
    assert w[|w0|..|w0| + |p|] == (w0 + p)[|w0|..];
  }

  /** What an operation finds in the blob does not change when more bytes
      are written after it. */
  lemma BlobExtend(w: seq<byte>, w': seq<byte>, base: int, op: Op)
    requires w <= w' && InBlob(w, base, op)
    ensures InBlob(w', base, op) && BlobBytes(w', base, op) == BlobBytes(w, base, op)
  {
  }

  /** The i-th of ops finds the payload of the i-th chunk at its data range
      of written, whose first byte is at blob offset base. */
  predicate PayloadAt(env: Env, image: seq<byte>, chunks: seq<Chunk>, ops: seq<Op>, written: seq<byte>, base: int, i: nat)
    requires i < |ops| <= |chunks|
  {
    && Readable(env, image, chunks[i])
    && InBlob(written, base, ops[i])
    && BlobBytes(written, base, ops[i]) == Payload(env, image, chunks[i])
  }

  /** Each of ops finds the payload of the matching chunk in written. */
  predicate PayloadsAt(env: Env, image: seq<byte>, chunks: seq<Chunk>, ops: seq<Op>, written: seq<byte>, base: int)
    requires |ops| <= |chunks|
  {
    forall i: nat :: i < |ops| ==> PayloadAt(env, image, chunks, ops, written, base, i)
  }

  lemma PayloadsSnoc(env: Env, image: seq<byte>, chunks: seq<Chunk>, ops: seq<Op>, w: seq<byte>, w': seq<byte>, base: int, op: Op)
    requires |ops| < |chunks| && w <= w'
    requires PayloadsAt(env, image, chunks, ops, w, base)
    requires Readable(env, image, chunks[|ops|]) && InBlob(w', base, op)
    requires BlobBytes(w', base, op) == Payload(env, image, chunks[|ops|])
    ensures PayloadsAt(env, image, chunks, ops + [op], w', base)
  {
    var all := ops + [op];
    forall i: nat | i < |all|
      ensures PayloadAt(env, image, chunks, all, w', base, i)
    {
      if i < |ops| {
        assert PayloadAt(env, image, chunks, ops, w, base, i);
        assert all[i] == ops[i];
        BlobExtend(w, w', base, ops[i]);
      }
    }
  }

  /** Up to step k each appended operation finds its chunk's payload at its
      data range of the blob. */
  lemma {:induction false} StepsPayloads(env: Env, image: seq<byte>, part: PartitionKind, chunks: seq<Chunk>, outs: seq<Output>, k: nat)
    requires env.Valid() && |outs| == |chunks| + 1 && k <= |chunks|
    requires Growing(part, outs) && Writing(env, image, part, chunks, outs)
    ensures |OpsOf(part, outs[0])| <= |OpsOf(part, outs[k])|
    ensures |Emitted(part, outs[0], outs[k])| == k
    ensures PayloadsAt(env, image, chunks, Emitted(part, outs[0], outs[k]), outs[k].written, outs[0].dataFileSize - |outs[0].written|)
    decreases k
  {
    StepsGrow(part, outs, k);
    if k > 0 {
      StepsPayloads(env, image, part, chunks, outs, k - 1);
      PayloadsStep(env, image, part, chunks, outs, k - 1);
    }
  }

  /** Step k keeps every earlier operation's payload where it was and puts
      its own chunk's payload at its new operation's range. */
  lemma PayloadsStep(env: Env, image: seq<byte>, part: PartitionKind, chunks: seq<Chunk>, outs: seq<Output>, k: nat)
    requires env.Valid() && |outs| == |chunks| + 1 && k < |chunks|
    requires Growing(part, outs) && Writing(env, image, part, chunks, outs)
    requires |OpsOf(part, outs[0])| <= |OpsOf(part, outs[k])|
    requires |Emitted(part, outs[0], outs[k])| == k
    requires PayloadsAt(env, image, chunks, Emitted(part, outs[0], outs[k]), outs[k].written, outs[0].dataFileSize - |outs[0].written|)
    ensures |OpsOf(part, outs[0])| <= |OpsOf(part, outs[k + 1])|
    ensures |Emitted(part, outs[0], outs[k + 1])| == k + 1
    ensures PayloadsAt(env, image, chunks, Emitted(part, outs[0], outs[k + 1]), outs[k + 1].written, outs[0].dataFileSize - |outs[0].written|)
  {
    var base := outs[0].dataFileSize - |outs[0].written|;
    var a, b := outs[k], outs[k + 1];
    StepsGrow(part, outs, k);
    EmittedSnoc(part, outs, k);
    assert WroteAt(env, image, part, chunks, outs, k);
    var op := NewOp(part, a, b);
    BlobAfter(a.written, Payload(env, image, chunks[k]), b.written, base, op);
    PayloadsSnoc(env, image, chunks, Emitted(part, outs[0], a), a.written, b.written, base, op);
  }

  /** Up to step k of a rootfs pass one vertex per step is appended,
      labelled counter, counter + 1, ... in step order, their indices are
      appended to the final order, and the kernel list stays as it was. */
  lemma {:induction false} StepsRootfs(outs: seq<Output>, counter: nat, k: nat)
    requires Routing(Rootfs, outs, counter) && k < |outs|
    ensures var a, b := outs[0], outs[k];
            && a.graph <= b.graph && |b.graph| == |a.graph| + k
            && (forall i :: |a.graph| <= i < |b.graph| ==> b.graph[i].fileName == RootfsLabel(counter + (i - |a.graph|)))
            && b.finalOrder == a.finalOrder + Indices(|a.graph|, k)
            && b.kernelOps == a.kernelOps
    decreases k
  {
    if k == 0 {
      assert Indices(|outs[0].graph|, 0) == [];
    } else {
      StepsRootfs(outs, counter, k - 1);
      var a, m, b := outs[0], outs[k - 1], outs[k];
      assert RoutedAt(Rootfs, outs, counter, k - 1);
      assert Indices(|a.graph|, k) == Indices(|a.graph|, k - 1) + [|m.graph|];
      forall i | |a.graph| <= i < |b.graph|
        ensures b.graph[i].fileName == RootfsLabel(counter + (i - |a.graph|))
      {
        if i < |m.graph| {
          assert b.graph[i] == m.graph[i];
        }
      }
    }
  }

  /** Up to any step of a kernel pass the graph and the final order stay as
      they were. */
  lemma {:induction false} StepsKernel(outs: seq<Output>, counter: nat, k: nat)
    requires Routing(Kernel, outs, counter) && k < |outs|
    ensures outs[k].graph == outs[0].graph && outs[k].finalOrder == outs[0].finalOrder
    decreases k
  {
    if k > 0 {
      StepsKernel(outs, counter, k - 1);
      assert RoutedAt(Kernel, outs, counter, k - 1);
    }
  }
}
