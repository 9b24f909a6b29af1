/** The records a full update is made of: install operations that replace a
    run of destination blocks with (possibly bzip2-compressed) bytes from the
    payload's data blob, and the graph vertices that wrap the rootfs ones. */
module Operations {
  import opened Types
  import opened ChunkProcessor

  datatype OpType = Replace | ReplaceBz

  /** numBlocks blocks of the destination partition starting at startBlock. */
  datatype Extent = Extent(startBlock: nat, numBlocks: nat)

  /** An install operation: its bytes are data blob [dataOffset, dataOffset + dataLength). */
  datatype Op = Op(opType: OpType, dataOffset: int, dataLength: nat, dstExtents: seq<Extent>)

  /** A node of the rootfs operation graph. */
  datatype Vertex = Vertex(fileName: string, op: Op)

  /** The operation for a finished chunk whose bytes land at dataOffset: the
      smaller buffer decides the type, and one extent names the chunk's
      destination blocks. */
  function MakeOp(res: ChunkResult, dataOffset: int, chunkSize: nat, blockSize: nat): (op: Op)
    requires blockSize > 0
  {
    Op(if ShouldCompress(res) then ReplaceBz else Replace,
       dataOffset,
       |UseBuffer(res)|,
       [Extent(Quotient(res.offset, blockSize), Quotient(chunkSize, blockSize))])
  }

  /** The operation is REPLACE_BZ exactly when compression strictly shrank
      the chunk, its data is the shorter buffer at dataOffset, and it has one
      extent. */
  lemma MakeOpSpec(res: ChunkResult, dataOffset: int, chunkSize: nat, blockSize: nat)
    requires blockSize > 0
    ensures var op := MakeOp(res, dataOffset, chunkSize, blockSize);
            && (op.opType == ReplaceBz <==> |res.bufferCompressed| < |res.bufferIn|)
            && op.dataOffset == dataOffset
            && op.dataLength == Min(|res.bufferIn|, |res.bufferCompressed|)
            && |op.dstExtents| == 1
  {
    UseBufferSpec(res);
  }

  /** The extent of a chunk's operation starts at the block holding the
      chunk's first byte and spans the whole blocks of the configured chunk
      size, whatever the chunk's own length. */
  lemma MakeOpExtent(res: ChunkResult, dataOffset: int, chunkSize: nat, blockSize: nat)
    requires blockSize > 0
    ensures var e := MakeOp(res, dataOffset, chunkSize, blockSize).dstExtents[0];
            && e.startBlock * blockSize <= res.offset < e.startBlock * blockSize + blockSize
            && e.numBlocks * blockSize <= chunkSize < e.numBlocks * blockSize + blockSize
  {
    QuotientBounds(res.offset, blockSize);
    QuotientBounds(chunkSize, blockSize);
  }

  predicate IsDigit(c: char) {
    '0' <= c <= '9'
  }

  predicate AllDigits(s: string) {
    forall i :: 0 <= i < |s| ==> IsDigit(s[i])
  }

  function DigitChar(d: nat): (c: char)
    requires d < 10
    ensures IsDigit(c)
  {
    "0123456789"[d]
  }

  function DigitValue(c: char): (d: nat)
    requires IsDigit(c)
  {
    (c as int) - ('0' as int)
  }

  /** Decimal rendering of n without leading zeros, as printf's %d writes it. */
  function Decimal(n: nat): (s: string)
    ensures |s| >= 1
    ensures AllDigits(s)
  {
    if n < 10 then [DigitChar(n)] else Decimal(n / 10) + [DigitChar(n % 10)]
  }

  /** The number a string of decimal digits denotes. */
  function DecimalValue(s: string): (n: nat)
    requires AllDigits(s)
  {
    if |s| == 0 then 0 else DecimalValue(s[..|s| - 1]) * 10 + DigitValue(s[|s| - 1])
  }

  /** Reading back a rendered number gives the number. */
  lemma {:induction false} DecimalRoundTrip(n: nat)
    ensures DecimalValue(Decimal(n)) == n
  {
    var s := Decimal(n);
    if n >= 10 {
      DecimalRoundTrip(n / 10);
      assert s[..|s| - 1] == Decimal(n / 10);
    }
    assert DigitValue(DigitChar(n % 10)) == n % 10;
  }

  const LabelPrefix: string := "<rootfs-operation-"
  const LabelSuffix: string := ">"

  /** The file name given to the n-th rootfs operation vertex. */
  function RootfsLabel(n: nat): (name: string) {
    LabelPrefix + Decimal(n) + LabelSuffix
  }

  /** Recovers the operation number from a vertex name, if it is one. */
  function LabelIndex(name: string): (index: Option<nat>) {
    if |name| > |LabelPrefix| + |LabelSuffix|
       && name[..|LabelPrefix|] == LabelPrefix
       && name[|name| - 1..] == LabelSuffix
       && AllDigits(name[|LabelPrefix|..|name| - 1])
    then Some(DecimalValue(name[|LabelPrefix|..|name| - 1]))
    else None
  }

  /** A rootfs label reads back as its operation number. */
  lemma LabelRoundTrip(n: nat)
    ensures LabelIndex(RootfsLabel(n)) == Some(n)
  {
    var name := RootfsLabel(n);
    assert name[..|LabelPrefix|] == LabelPrefix;
    assert name[|name| - 1..] == LabelSuffix;
    assert name[|LabelPrefix|..|name| - 1] == Decimal(n);
    DecimalRoundTrip(n);
  }

  /** Different rootfs operations get different labels. */
  lemma LabelsDistinct(m: nat, n: nat)
    requires m != n
    ensures RootfsLabel(m) != RootfsLabel(n)
  {
    LabelRoundTrip(m);
    LabelRoundTrip(n);
  }
}
