/** The chunk worker: read one chunk of the partition image with a positioned
    read, compress it, and decide which of the two buffers is worth emitting.
    The codec is a parameter; the image is a byte sequence. */
module ChunkProcessor {
  import opened Types
  import opened Chunks

  /** A lossless codec that may fail (bzip2 in the system modelled). */
  type Compressor = seq<byte> -> Option<seq<byte>>

  datatype ChunkError =
    | ShortRead(requested: nat, bytesRead: nat)
    | CompressFailed

  /** What a finished worker holds: the chunk's offset, the raw bytes it read
      and their compressed form. */
  datatype ChunkResult = ChunkResult(offset: nat, bufferIn: seq<byte>, bufferCompressed: seq<byte>)

  /** Positioned read of up to count bytes at offset that keeps reading until
      it has them all or reaches the end of the image. */
  function PReadAll(image: seq<byte>, offset: nat, count: nat): (got: seq<byte>)
  {
    if offset >= |image| then [] else image[offset..Min(|image|, offset + count)]
  }

  /** The read returns everything asked for exactly when the range lies in
      the image; a short read stops at the image's end; and what it returns
      is the image's bytes from offset on. */
  lemma PReadAllSpec(image: seq<byte>, offset: nat, count: nat)
    ensures var got := PReadAll(image, offset, count);
            && |got| <= count
            && (|got| == count <==> count == 0 || offset + count <= |image|)
            && (|got| < count ==> offset + |got| >= |image|)
            && (offset + |got| <= |image| ==> got == image[offset..offset + |got|])
  {
  }

  /** The worker body: fail on a short read, fail if the codec fails,
      otherwise keep both buffers. */
  function ReadAndCompress(image: seq<byte>, chunk: Chunk, compress: Compressor): (r: Result<ChunkResult, ChunkError>)
  {
    var got := PReadAll(image, chunk.offset, chunk.size);
    if |got| != chunk.size then Failure(ShortRead(chunk.size, |got|))
    else
      match compress(got)
      case None => Failure(CompressFailed)
      case Some(z) => Success(ChunkResult(chunk.offset, got, z))
  }

  /** A chunk inside the image succeeds exactly when the codec accepts its
      bytes; a non-empty chunk past the image's end is a short read; a
      result holds the chunk's own bytes and their compressed form. */
  lemma ReadAndCompressSpec(image: seq<byte>, chunk: Chunk, compress: Compressor)
    ensures var r := ReadAndCompress(image, chunk, compress);
            && (chunk.End() <= |image| ==> (r.Success? <==> compress(image[chunk.offset..chunk.End()]).Some?))
            && (chunk.End() > |image| && chunk.size > 0 ==> r.Failure? && r.error.ShortRead? && r.error.bytesRead < chunk.size)
            && (r.Success? ==> r.value.offset == chunk.offset && |r.value.bufferIn| == chunk.size)
            && (r.Success? ==> Some(r.value.bufferCompressed) == compress(r.value.bufferIn))
            && (r.Success? && chunk.End() <= |image| ==> r.value.bufferIn == image[chunk.offset..chunk.End()])
  {
    PReadAllSpec(image, chunk.offset, chunk.size);
  }

  /** Compression is worth it only when it strictly shrinks the chunk. */
  predicate ShouldCompress(r: ChunkResult) {
    |r.bufferCompressed| < |r.bufferIn|
  }

  /** The buffer the driver writes out for a finished chunk. */
  function UseBuffer(r: ChunkResult): (b: seq<byte>)
  {
    if ShouldCompress(r) then r.bufferCompressed else r.bufferIn
  }

  /** The buffer written is one of the two, the shorter one, and the raw one
      when they are equally long. */
  lemma UseBufferSpec(r: ChunkResult)
    ensures var b := UseBuffer(r);
            && (b == r.bufferIn || b == r.bufferCompressed)
            && |b| == Min(|r.bufferIn|, |r.bufferCompressed|)
            && (|r.bufferCompressed| >= |r.bufferIn| ==> b == r.bufferIn)
  {
  }
}
