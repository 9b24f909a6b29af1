/** The driver's progress-report rule. After each drained chunk it has an
    integer percentage; it reports it only when it is above the last reported
    value and either at least 10 points above it or exactly 100. */
module Progress {

  /** INT_MIN of the 32-bit `int` that `last_progress_update` starts at. */
  const IntMin: int := -0x8000_0000

  predicate ShouldReport(last: int, progress: int) {
    last < progress && (last + 10 <= progress || progress == 100)
  }

  /** The rule's state after a run of progress values: the last reported
      value and every report made, in order. */
  datatype Log = Log(last: int, reported: seq<int>)

  /** The rule applied to one more progress value. */
  function Feed(log: Log, p: int): (next: Log) {
    if ShouldReport(log.last, p) then Log(p, log.reported + [p]) else log
  }

  /** Feeds the progress values ps, in order, through the rule, starting
      from last. */
  function Replay(last: int, ps: seq<int>): (log: Log)
    ensures |log.reported| <= |ps|
    ensures log.last >= last
    ensures log.reported == [] <==> log.last == last
    ensures log.reported != [] ==> log.last == log.reported[|log.reported| - 1]
    ensures log.last == last || log.last in ps
    decreases |ps|
  {
    if |ps| == 0 then Log(last, [])
    else
      var prev := Replay(last, ps[..|ps| - 1]);
      var p := ps[|ps| - 1];
      assert forall x :: x in ps[..|ps| - 1] ==> x in ps;
      Feed(prev, p)
  }

  /** Replaying one more value is feeding it to the replay so far. */
  lemma ReplaySnoc(last: int, ps: seq<int>, p: int)
    ensures Replay(last, ps + [p]) == Feed(Replay(last, ps), p)
  {
    assert (ps + [p])[..|ps|] == ps;
  }

  predicate StrictlyIncreasing(s: seq<int>) {
    forall i, j :: 0 <= i < j < |s| ==> s[i] < s[j]
  }

  /** Reports go strictly up, and each is above the start value. */
  lemma {:induction false} ReplayIncreasing(last: int, ps: seq<int>)
    ensures var r := Replay(last, ps).reported;
            && StrictlyIncreasing(r)
            && (forall i :: 0 <= i < |r| ==> last < r[i])
    decreases |ps|
  {
    if |ps| > 0 {
      var prev := Replay(last, ps[..|ps| - 1]);
      var p := ps[|ps| - 1];
      ReplayIncreasing(last, ps[..|ps| - 1]);
      if ShouldReport(prev.last, p) {
        var q := prev.reported;
        var r := q + [p];
        assert Replay(last, ps).reported == r;
        assert StrictlyIncreasing(q);
        assert last < p;
        forall i | 0 <= i < |q|
          ensures r[i] == q[i] && q[i] <= prev.last
        {
          assert q[i] <= q[|q| - 1];
        }
        forall i, j | 0 <= i < j < |r|
          ensures r[i] < r[j]
        {
          if j < |q| {
            assert r[i] == q[i] && r[j] == q[j];
          }
        }
        assert StrictlyIncreasing(r);
      }
    }
  }

  /** Each of r is at least 10 above the one before it (the first: above
      start), unless it is 100. */
  predicate Spaced(start: int, r: seq<int>) {
    forall i :: 0 <= i < |r| ==> (if i == 0 then start else r[i - 1]) + 10 <= r[i] || r[i] == 100
  }

  /** Each report is at least 10 above the one before it (or the start
      value), unless it is 100. */
  lemma {:induction false} ReplayGaps(last: int, ps: seq<int>)
    ensures Spaced(last, Replay(last, ps).reported)
    decreases |ps|
  {
    if |ps| > 0 {
      var prev := Replay(last, ps[..|ps| - 1]);
      var p := ps[|ps| - 1];
      ReplayGaps(last, ps[..|ps| - 1]);
      if ShouldReport(prev.last, p) {
        var q := prev.reported;
        var r := q + [p];
        assert Replay(last, ps).reported == r;
        assert q == [] ==> prev.last == last;
        assert Spaced(last, q);
        forall i | 0 <= i < |r|
          ensures (if i == 0 then last else r[i - 1]) + 10 <= r[i] || r[i] == 100
        {
          if i < |q| {
            assert r[i] == q[i];
            if i > 0 {
              assert r[i - 1] == q[i - 1];
            }
            assert (if i == 0 then last else q[i - 1]) + 10 <= q[i] || q[i] == 100;
          } else if i > 0 {
            assert r[i - 1] == q[|q| - 1] == prev.last;
            assert r[i] == p;
          } else {
            assert r[i] == p;
            assert prev.last == last;
          }
        }
        assert Spaced(last, r);
      }
    }
  }

  /** Every report is one of the values fed in. */
  lemma {:induction false} ReplayFromInputs(last: int, ps: seq<int>)
    ensures forall x :: x in Replay(last, ps).reported ==> x in ps
    decreases |ps|
  {
    if |ps| > 0 {
      var init := ps[..|ps| - 1];
      var prev := Replay(last, init);
      ReplayFromInputs(last, init);
      var r := Replay(last, ps).reported;
      forall x | x in r
        ensures x in ps
      {
        if x in prev.reported {
          var k :| 0 <= k < |init| && init[k] == x;
          assert ps[k] == x;
        } else {
          assert x == ps[|ps| - 1];
        }
      }
    }
  }

  /** Reports go strictly up, each one at least 10 above the one before (or
      the start value) unless it is 100, and each is one of the values fed in. */
  lemma ReplayReports(last: int, ps: seq<int>)
    ensures var r := Replay(last, ps).reported;
            && StrictlyIncreasing(r)
            && (forall i :: 0 <= i < |r| ==> last < r[i])
            && Spaced(last, r)
            && (forall x :: x in r ==> x in ps)
  {
    ReplayIncreasing(last, ps);
    ReplayGaps(last, ps);
    ReplayFromInputs(last, ps);
  }

  /** When the last value fed in is 100, none is above 100, and the rule starts
      below 100, the final report is 100. */
  lemma ReplayEndsAt100(last: int, ps: seq<int>)
    requires last < 100
    requires |ps| > 0 && ps[|ps| - 1] == 100
    requires forall i :: 0 <= i < |ps| ==> ps[i] <= 100
    ensures var log := Replay(last, ps);
            log.reported != [] && log.reported[|log.reported| - 1] == 100 && log.last == 100
  {
    var prev := Replay(last, ps[..|ps| - 1]);
    assert prev.last <= 100 by {
      if prev.last != last {
        var k :| 0 <= k < |ps| - 1 && ps[..|ps| - 1][k] == prev.last;
        assert ps[k] == prev.last;
      }
    }
  }
}
