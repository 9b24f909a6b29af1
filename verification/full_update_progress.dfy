/** The progress reports of a partition pass. The driver computes, after
    each drained chunk, how far into the partition that chunk ends in whole
    percent, and feeds the value to the report rule. Over a plan the values
    stay below 100 until the last chunk, which ends exactly at 100, so the
    reports of a successful pass climb strictly to 100. */
module FullUpdateProgress {
  import opened Types
  import opened Chunks
  import opened FullUpdateGenerator
  import Progress

  /** A chunk that ends before the partition's end is below 100 percent; one
      that ends at it is exactly 100. */
  lemma PercentBounds(chunk: Chunk, partBytes: int)
    requires partBytes > 0 && chunk.End() <= partBytes
    ensures Percent(chunk, partBytes) <= 100
    ensures Percent(chunk, partBytes) == 100 <==> chunk.End() == partBytes
  {
    var x := chunk.End() * 100;
    var q := Percent(chunk, partBytes);
    QuotientBounds(x, partBytes);
    if chunk.End() == partBytes {
      QuotientUnique(x, partBytes, 100);
    } else if q >= 100 {
      MulMonotone(100, q, partBytes);
      assert false;
    }
  }

  /** The progress values of a plan: each at most 100, below 100 before the
      last chunk and exactly 100 at the last. */
  lemma PlanPercents(partSize: int, chunkSize: int)
    requires IsUint64(partSize) && chunkSize > 0 && PartitionBytes(partSize) > 0
    ensures var ps := Percents(Plan(partSize, chunkSize), PartitionBytes(partSize));
            && |ps| > 0 && ps[|ps| - 1] == 100
            && (forall i :: 0 <= i < |ps| ==> 0 <= ps[i] <= 100)
            && (forall i :: 0 <= i < |ps| - 1 ==> ps[i] < 100)
  {
    var p := PartitionBytes(partSize);
    var plan := Plan(partSize, chunkSize);
    var ps := Percents(plan, p);
    PlanShape(partSize, chunkSize);
    TilesBounds(plan, 0, p);
    TilesLast(plan, 0, p);
    forall i | 0 <= i < |ps|
      ensures 0 <= ps[i] <= 100
      ensures i < |ps| - 1 ==> ps[i] < 100
    {
      PercentBounds(plan[i], p);
      if i < |ps| - 1 {
        assert plan[i].End() == plan[i + 1].offset;
        assert plan[i + 1].End() <= p && plan[i + 1].size > 0;
      }
    }
    PercentBounds(plan[|plan| - 1], p);
  }

  /** The reports of a pass over a plan: the first drained chunk is always
      reported, the reports go strictly up, each at least 10 points above the
      one before unless it is 100, none leaves [0, 100], and the last is 100. */
  lemma PassReportsClimbTo100(partSize: int, chunkSize: int)
    requires IsUint64(partSize) && chunkSize > 0 && PartitionBytes(partSize) > 0
    ensures var r := Progress.Replay(Progress.IntMin, Percents(Plan(partSize, chunkSize), PartitionBytes(partSize))).reported;
            && r != [] && r[|r| - 1] == 100
            && Progress.StrictlyIncreasing(r)
            && Progress.Spaced(Progress.IntMin, r)
            && (forall i :: 0 <= i < |r| ==> 0 <= r[i] <= 100)
  {
    var ps := Percents(Plan(partSize, chunkSize), PartitionBytes(partSize));
    PlanPercents(partSize, chunkSize);
    Progress.ReplayReports(Progress.IntMin, ps);
    Progress.ReplayEndsAt100(Progress.IntMin, ps);
    var r := Progress.Replay(Progress.IntMin, ps).reported;
    forall i | 0 <= i < |r|
      ensures 0 <= r[i] <= 100
    {
      assert r[i] in r;
      var k :| 0 <= k < |ps| && ps[k] == r[i];
    }
  }
}
