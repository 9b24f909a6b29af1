# Full update payload generation, modelled in Dafny

This project models the full-update generator of the update engine's payload
generator. The generator turns two partition images (rootfs, then kernel) into
a stream of REPLACE / REPLACE_BZ install operations and a data blob:

- it carves each partition into chunks of `chunk_size` bytes (the last one may be short);
- it reads and bzip2-compresses every chunk in a bounded pool of workers, drained oldest first;
- it appends the smaller of the raw and compressed buffers to the data file;
- it records one operation per chunk. Rootfs operations become graph vertices
  labelled `<rootfs-operation-N>`, with their indices appended to the final
  order. Kernel operations go to a flat list;
- it logs progress under a "at least 10 points more, or exactly 100" rule.

The model is functional:

- Images are byte sequences.
- The codec is a parameter `seq<byte> -> Option<seq<byte>>`.
- The output file is a parameter: given the running data file size and the bytes, it says whether writing succeeded.
- A worker is a pure function of its chunk, evaluated when the driver drains it.
- `Generate` is the reference meaning of a run. It rejects a non-positive chunk size, then folds the drain step over the rootfs plan and then the kernel plan.
- `Run` / `RunPartition` is the driver with its FIFO queue of outstanding chunks. Its loop invariants prove that it computes exactly `Generate`, whatever the thread count.

On top of that, the model proves the following properties:

- the plan's arithmetic;
- the compress decision;
- the operation fields and extents;
- the gap-free layout of the data blob across both partitions;
- the routing of operations to the graph or the kernel list;
- the progress rule;
- read-back: decoding a successful run's operation payloads with a decoder for the codec and concatenating them in operation order gives back each partition's bytes.

Files:

| file | module | contents |
|---|---|---|
| `types.dfy` | `Types` | bytes and `Option`/`Result`; the `uint64_t` to `off_t` conversion; exact floor division `Quotient`; a generic left fold |
| `chunks.dfy` | `Chunks` | the claim loop (`Claims`, `Plan`) and its shape |
| `chunk_processor.dfy` | `ChunkProcessor` | positioned read, read-and-compress, `ShouldCompress`, the buffer choice |
| `operations.dfy` | `Operations` | operations, extents, vertices, decimal labels |
| `progress.dfy` | `Progress` | the progress-report rule |
| `full_update_generator.dfy` | `FullUpdateGenerator` | the drain step, `Generate`, and the queue driver `RunPartition` / `Run` |
| `full_update_properties.dfy` | `FullUpdateProperties` | the per-step trace of a pass |
| `full_update_theorems.dfy` | `FullUpdateTheorems` | pass- and run-level records, blob layout and payloads |
| `full_update_progress.dfy` | `FullUpdateProgress` | the percentages of a plan and the reports they produce |
| `full_update_readback.dfy` | `FullUpdateReadback` | reading operations back, and their extents |
| `full_update_roundtrip.dfy` | `FullUpdateRoundTrip` | the read-back theorem for a whole run |

## Model

| member | source | states |
|---|---|---|
| ChunkProcessor.PReadAllSpec | payload_generator/full_update_generator.cc:98-103 | the positioned read returns all requested bytes iff the range lies in the image; a short read stops at the image's end; the bytes returned are the image's bytes at that offset |
| ChunkProcessor.ReadAndCompressSpec | payload_generator/full_update_generator.cc:96-106 | a chunk inside the image succeeds iff the codec accepts its bytes; a chunk that runs past the image fails with a short read of fewer bytes than requested; on success the worker keeps the raw bytes and their compressed form |
| ChunkProcessor.UseBufferSpec | payload_generator/full_update_generator.cc:168-170 | the emitted buffer is one of the two buffers, has the smaller length, and is the raw buffer on a tie |
| Operations.MakeOpSpec | payload_generator/full_update_generator.cc:168-179 | the type is REPLACE_BZ iff the compressed buffer is strictly shorter; the data offset is the data file size before the append; the data length is the chosen buffer's length; there is exactly one destination extent |
| Operations.MakeOpExtent | payload_generator/full_update_generator.cc:179-181 | the extent's start block is the block holding the chunk's offset, and its block count is the configured chunk size rounded down to whole blocks |
| Operations.DecimalRoundTrip | payload_generator/full_update_generator.cc:160 | the decimal rendering of a counter parses back to the counter |
| Operations.LabelRoundTrip | payload_generator/full_update_generator.cc:159-160 | the index can be recovered from the label `<rootfs-operation-N>` |
| Operations.LabelsDistinct | payload_generator/full_update_generator.cc:159-160 | different counters give different vertex labels |
| Types.AsOffT | payload_generator/full_update_generator.cc:137 | a `uint64_t` partition size seen as `off_t` is congruent to it modulo 2^64, and is non-negative exactly when the size fits in `off_t` |
| Types.QuotientIsDiv | payload_generator/full_update_generator.cc:180-181 | the exact floor quotient used for blocks and percentages is integer division |
| Chunks.Claims | payload_generator/full_update_generator.cc:140-148 | the claim loop hands out nothing iff no bytes are left, and every chunk is non-empty, at most a chunk size long and at or after the start offset |
| Chunks.ClaimsCount | payload_generator/full_update_generator.cc:138-148 | the loop makes ceil(bytes_left / chunk_size) claims |
| Chunks.ClaimsAt | payload_generator/full_update_generator.cc:141-147 | claim i starts i chunk sizes after the start and has min(bytes_left - i * chunk_size, chunk_size) bytes |
| Chunks.ClaimsTile | payload_generator/full_update_generator.cc:140-147 | the claims tile the range [offset, offset + bytes_left) with no gap or overlap |
| Chunks.TilesTotal | payload_generator/full_update_generator.cc:143-146 | the sizes of chunks that tile a range sum to its length |
| Chunks.PlanShape | payload_generator/full_update_generator.cc:137-148 | a partition's plan has ceil(size / chunk_size) chunks at offsets 0, chunk_size, 2 * chunk_size, ...; only the last can be short; the sizes sum to the partition size; an empty or negative partition gives no chunks |
| Chunks.PlanOrdered | payload_generator/full_update_generator.cc:137-147 | earlier chunks of a plan end before later chunks start, so offsets strictly increase in submission order |
| Progress.Replay | payload_generator/full_update_generator.cc:186-190 | the last reported value never decreases, changes only to a value seen, and is the last report made |
| Progress.ReplayReports | payload_generator/full_update_generator.cc:186-190 | the reports are strictly increasing, all above the starting value, each at least 10 above the previous one or equal to 100, and each one of the computed percentages |
| Progress.ReplayEndsAt100 | payload_generator/full_update_generator.cc:186-190 | if the percentages end at 100 and never exceed it, 100 is reported last |
| FullUpdateGenerator.Fill | payload_generator/full_update_generator.cc:140-148 | refilling the queue keeps its old entries in order; it moves claims from the unclaimed rest to the back without losing or reordering any; it stops at max_threads entries or when the partition is exhausted |
| FullUpdateGenerator.TakeOldestFifo | payload_generator/full_update_generator.cc:140-153 | the chunk taken is the oldest of all outstanding and unclaimed work; the rest stays queued or unclaimed in the same order; the queue was first filled to min(max_threads, all work), so after the pop it holds one less; the chunks newly submitted are the next ones after the old queue |
| FullUpdateProperties.DrainSpec | payload_generator/full_update_generator.cc:154-191 | a drain turn fails exactly when the chunk's read or compression fails or writing the chosen buffer fails, names the partition and chunk, and then leaves the state unchanged; otherwise it appends the chunk's payload at the blob's old end and its operation to the partition's list, routes it (a labelled vertex and final-order index for rootfs, the kernel list for kernel), counts rootfs vertices only, feeds the chunk's percentage to the progress rule, and changes nothing else |
| FullUpdateGenerator.TakeOldestKeepsClaims | payload_generator/full_update_generator.cc:138-153 | the chunk taken from the front is the next chunk of the plan, and afterwards the queue is below max_threads |
| FullUpdateGenerator.KernelIgnoresCounter | payload_generator/full_update_generator.cc:163-166 | a kernel operation does not depend on the vertex counter |
| FullUpdateGenerator.DrainExtendsFold | payload_generator/full_update_generator.cc:152-181 | draining the oldest chunk extends the reference fold over the chunks processed so far by exactly that chunk |
| FullUpdateGenerator.StepKeepsInvariant | payload_generator/full_update_generator.cc:138-191 | one loop turn processes exactly one more chunk and keeps the queue invariant (submitted is a prefix of the plan, at most max_threads outstanding) and the output invariant (output = fold over processed chunks); a failing turn is the fold's failure |
| FullUpdateGenerator.PassComplete | payload_generator/full_update_generator.cc:138 | when the loop exits, every planned chunk was submitted and processed, in plan order |
| FullUpdateGenerator.RunPartition | payload_generator/full_update_generator.cc:135-192 | the queue driver computes the reference fold over the plan; processed chunks are a prefix of submitted ones, which are a prefix of the plan; at most max_threads are outstanding; the queue's peak is min(max_threads, chunk count); a success processed the whole plan; a failure is the first failing chunk's; the progress reports are the rule's over the plan's percentages |
| FullUpdateGenerator.Run | payload_generator/full_update_generator.cc:110-196 | a non-positive chunk size fails before anything is read; otherwise the run equals the reference run, independent of the processor count |
| FullUpdateProperties.EmitOneStep | payload_generator/full_update_generator.cc:156-181 | a successful drain step grows exactly its partition's operation list by one operation, writes the chosen buffer at the old end of the blob, and routes rootfs to the graph and kernel to the kernel list |
| FullUpdateProperties.StepsRootfs | payload_generator/full_update_generator.cc:157-162 | after k rootfs steps the graph grew by k vertices labelled with consecutive counters, the final order grew by their indices, and the kernel list is unchanged |
| FullUpdateProperties.StepsKernel | payload_generator/full_update_generator.cc:163-166 | kernel steps leave the graph and final order unchanged |
| FullUpdateProperties.StepsContiguous | payload_generator/full_update_generator.cc:174-178 | the operations of k steps occupy the blob back to back from the old data file size to the new one |
| FullUpdateProperties.StepsPayloads | payload_generator/full_update_generator.cc:168-178 | after k steps, operation i's range of the blob holds chunk i's payload |
| FullUpdateTheorems.PassGrows | payload_generator/full_update_generator.cc:174-177 | a successful pass only appends to the blob and to its partition's list, one operation per planned chunk |
| FullUpdateTheorems.PassOps | payload_generator/full_update_generator.cc:156-181 | the i-th operation of a pass is the i-th planned chunk's: readable, REPLACE_BZ iff compression shrank it, its length the payload's, its extent from the chunk offset |
| FullUpdateTheorems.RootfsPassRecords | payload_generator/full_update_generator.cc:157-162 | the rootfs pass adds one vertex per chunk labelled `<rootfs-operation-0>`, `<rootfs-operation-1>`, ..., appends their indices to the final order, and leaves the kernel list alone |
| FullUpdateTheorems.KernelPassRecords | payload_generator/full_update_generator.cc:163-166 | the kernel pass appends one kernel operation per chunk and leaves the graph and final order alone |
| FullUpdateTheorems.GenerateRecords | payload_generator/full_update_generator.cc:157-166 | a successful run adds one labelled vertex per rootfs chunk, final-order indices for exactly those vertices, and one kernel operation per kernel chunk |
| FullUpdateTheorems.GenerateOps | payload_generator/full_update_generator.cc:168-181 | every new rootfs and kernel operation is its chunk's, in plan order |
| FullUpdateTheorems.GenerateBlob | payload_generator/full_update_generator.cc:174-178 | the blob only grew, and the rootfs operations and then the kernel operations occupy it back to back from the old data file size to the new one |
| FullUpdateTheorems.RootfsPayloads | payload_generator/full_update_generator.cc:168-178 | each new rootfs operation finds its chunk's payload at its range of the final blob |
| FullUpdateTheorems.KernelPayloads | payload_generator/full_update_generator.cc:168-178 | each new kernel operation finds its chunk's payload at its range of the final blob |
| FullUpdateTheorems.GenerateNeedsImages | payload_generator/full_update_generator.cc:98-103 | a successful run read every planned byte, so both images cover their partitions |
| FullUpdateTheorems.ShortImageFails | payload_generator/full_update_generator.cc:103 | an image shorter than its partition makes the whole run fail |
| FullUpdateProgress.PercentBounds | payload_generator/full_update_generator.cc:183-185 | a chunk's percentage is at most 100, and is 100 exactly for the chunk that ends the partition |
| FullUpdateProgress.PlanPercents | payload_generator/full_update_generator.cc:183-185 | over a plan the percentages lie in [0, 100], only the last is 100, and the last is 100 |
| FullUpdateProgress.PassReportsClimbTo100 | payload_generator/full_update_generator.cc:183-191 | a whole pass reports a non-empty, strictly increasing, 10-point-spaced sequence of percentages in [0, 100] that ends at 100 |
| FullUpdateReadback.UnpackPayload | payload_generator/full_update_generator.cc:168-173 | with a decoder that undoes the codec, unpacking an operation's payload according to its type gives the chunk's raw bytes |
| FullUpdateReadback.RestorePrefix | payload_generator/full_update_generator.cc:140-178 | reading back the first k operations of adjacent chunks gives the image up to the end of chunk k - 1 |
| FullUpdateReadback.PlanAdjacent | payload_generator/full_update_generator.cc:140-147 | a plan starts at 0, each chunk starts where the previous one ends, and the last ends at the partition's end |
| FullUpdateReadback.PlanRestores | payload_generator/full_update_generator.cc:137-178 | the operations recorded for a whole plan read back as the partition's bytes |
| FullUpdateReadback.PlanExtents | payload_generator/full_update_generator.cc:179-181 | operation i's extent starts at block (i * chunk_size) / block_size and spans chunk_size / block_size blocks, the short last chunk included |
| FullUpdateReadback.ExtentsAbut | payload_generator/full_update_generator.cc:179-181 | when the chunk size is a whole number of blocks, consecutive extents abut: each starts at the block where the previous one ends |
| FullUpdateReadback.GenerateExtents | payload_generator/full_update_generator.cc:179-181 | in a successful run the i-th operation of each partition has the extent of chunk i |
| FullUpdateRoundTrip.PassRecorded | payload_generator/full_update_generator.cc:156-178 | a successful pass records one operation per planned chunk, each with its payload in the blob |
| FullUpdateRoundTrip.RecordedExtend | payload_generator/full_update_generator.cc:175-177 | recorded operations stay readable as the blob grows by later appends |
| FullUpdateRoundTrip.RootfsRecorded | payload_generator/full_update_generator.cc:157-178 | the new rootfs operations of a run are recorded for the rootfs plan, payloads included |
| FullUpdateRoundTrip.KernelRecorded | payload_generator/full_update_generator.cc:163-178 | the new kernel operations of a run are recorded for the kernel plan, payloads included |
| FullUpdateRoundTrip.GenerateRestores | payload_generator/full_update_generator.cc:129-181 | decoding a successful run's new rootfs operation payloads from the final blob, with a decoder for the codec, and concatenating them in operation order gives the rootfs image's bytes up to the partition size; the kernel operations likewise give the kernel image's bytes |

## Left out

- Threads: `g_thread_try_new` and `g_thread_join` are not modelled. A worker is a pure function evaluated when the driver drains it, so a failed thread start or join has no counterpart.
- `sysconf(_SC_NPROCESSORS_ONLN)` is a parameter of `Run`. The driver takes the maximum of it and 4, as the source does.
- `open` of the partition paths, and its failure, are left out: the images are given as byte sequences.
- `utils::PReadAll` is modelled by `PReadAll` over the image. `utils::WriteAll` is a parameter that may fail. The bytes appended are kept in `Output.written`.
- `BzipCompress` is an abstract codec parameter that may fail. Read-back assumes only a decoder that undoes it.
- Read-back concatenates the decoded payloads in operation order; it does not write them to the destination extents. With a short last chunk, or a chunk size that is not a whole number of blocks, extent-wise writing would differ. `ExtentsAbut` states how the extents line up when the chunk size is block-aligned.
- `config.Validate()` is not part of this model. `Validated` states what the driver relies on: a positive block size and `uint64_t` partition sizes.
- FullUpdateProgress.PercentBounds: the floating-point progress value `static_cast<int>((offset + size) * 100.0 / part_size)` is replaced by the exact floor quotient. The two can differ by one for partition or chunk sizes around 2^48 bytes and above, where double rounding can land just below an integer (the source may then never report exactly 100). The progress lemmas (`PercentBounds`, `PlanPercents`, `PassReportsClimbTo100`) are about the exact quotient. The LOG output is left out.
- Protobuf manifest types are replaced by the `Op`, `Extent` and `Vertex` datatypes.
- Run: on failure the source leaves the operations and bytes of earlier chunks appended to its out-parameters. On a write failure it also leaves the failing chunk's own entry behind: its graph vertex and final-order index, or its kernel operation, already has its type and data offset set, because those are filled in before `WriteAll`. `WriteAll` may also have written part of the bytes. The model returns only the error, naming the partition and chunk offset.
- Run: overflow of the `off_t` offset and `data_file_size` counters is not modelled. Both are unbounded integers.
- The num_blocks of a short final chunk is still `chunk_size / block_size`, as written. `PlanExtents` states this, so it is not corrected.
- The progress percentage is computed from the requested chunk size, as `buffer_in().size()` is. The short-read check makes this equal to the bytes actually read.
