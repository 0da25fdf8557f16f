/** Turning a set of sectors into a list of arcs (`ArcSet::as_arcs`, crates/dht/src/arc_set.rs). */
module ArcRuns {
  import opened Wrappers
  import opened Arcs
  import opened Sectors
  import opened ArcSets
  import opened Sorting

  /** A run of consecutive sectors, both ends included. */
  datatype Run = Run(lo: nat, hi: nat) {
    predicate Has(j: nat) {
      lo <= j <= hi
    }

    predicate Valid() {
      lo <= hi < SECTORS
    }
  }

  /** The arc of a run; the multiplication saturates at the end of the circle. */
  function RunArc(run: Run): DhtArc
    requires run.Valid()
  {
    var top := SaturatingMul(run.hi + 1, SECTOR_SIZE);
    Arc(run.lo * SECTOR_SIZE, if top == MAX_LOC then MAX_LOC else top - 1)
  }

  function RunArcs(runs: seq<Run>): seq<DhtArc>
    requires forall k :: 0 <= k < |runs| ==> runs[k].Valid()
  {
    seq(|runs|, k requires 0 <= k < |runs| => RunArc(runs[k]))
  }

  /** The runs lie inside the set, in order, with a gap between any two: disjoint and maximal. */
  ghost predicate Separate(runs: seq<Run>, s: set<nat>) {
    && (forall k :: 0 <= k < |runs| ==> runs[k].Valid() && forall j :: runs[k].Has(j) ==> j in s)
    && (forall k, l :: 0 <= k < l < |runs| ==> runs[k].hi + 1 < runs[l].lo)
  }

  ghost predicate InSomeRun(runs: seq<Run>, j: nat) {
    exists k :: 0 <= k < |runs| && runs[k].Has(j)
  }

  /** The runs of a set: separate, and together all of it. */
  ghost predicate RunsOf(runs: seq<Run>, s: set<nat>) {
    Separate(runs, s) && forall j :: j in s ==> InSomeRun(runs, j)
  }

  lemma RunPushed(runs: seq<Run>, run: Run, s: set<nat>)
    requires Separate(runs, s) && run.Valid() && forall j :: run.Has(j) ==> j in s
    requires runs != [] ==> runs[|runs| - 1].hi + 1 < run.lo
    ensures Separate(runs + [run], s)
    ensures forall j :: InSomeRun(runs, j) || run.Has(j) ==> InSomeRun(runs + [run], j)
  {
    var all := runs + [run];
    forall k | 0 <= k < |runs|
      ensures runs[k].hi + 1 < run.lo
    {
      if k < |runs| - 1 {
        assert runs[k].hi + 1 < runs[|runs| - 1].lo;
      }
    }
    forall j | InSomeRun(runs, j) || run.Has(j)
      ensures InSomeRun(all, j)
    {
      if run.Has(j) {
        assert all[|runs|].Has(j);
      } else {
        var k :| 0 <= k < |runs| && runs[k].Has(j);
        assert all[k].Has(j);
      }
    }
  }

  /** Finds the end of the run of consecutive numbers that starts at an index. */
  method RunEnd(sectors: seq<nat>, start: nat) returns (end: nat)
    requires start < |sectors| && forall i, j :: 0 <= i < j < |sectors| ==> sectors[i] < sectors[j]
    ensures start <= end < |sectors| && sectors[end] == sectors[start] + (end - start)
    ensures forall i :: start <= i <= end ==> sectors[i] == sectors[start] + (i - start)
    ensures end + 1 < |sectors| ==> sectors[end] + 1 < sectors[end + 1]
  {
    end := start;
    while end + 1 < |sectors| && sectors[end] + 1 == sectors[end + 1]
      invariant start <= end < |sectors|
      invariant forall i :: start <= i <= end ==> sectors[i] == sectors[start] + (i - start)
    {
      end := end + 1;
    }
  }

  /** The arcs of a set of sectors, one for each run. */
  method AsArcs(s: set<nat>) returns (arcs: seq<DhtArc>, ghost runs: seq<Run>)
    requires s <= AllSectors()
    ensures RunsOf(runs, s) && arcs == RunArcs(runs)
    ensures Describes(arcs, s)
  {
    RangeMembers(SECTORS);
    FullIsAll(s);
    if s == {} {
      RunsDescribe([], s);
      return [], [];
    }
    if |s| == SECTORS {
      FullRun(s);
      RunsDescribe([Run(0, SECTORS - 1)], s);
      return [FULL], [Run(0, SECTORS - 1)];
    }
    var sectors := Sort(s);
    arcs, runs := SplitRuns(sectors, s);
    RunsDescribe(runs, s);
  }

  /** The arcs are aligned and do not wrap, are in order with at least a whole sector between any two, so
      that they are disjoint and maximal, and contain exactly the locations of the sectors in the set. */
  ghost predicate Describes(arcs: seq<DhtArc>, s: set<nat>) {
    && (forall k :: 0 <= k < |arcs| ==>
          arcs[k].Arc? && arcs[k].start <= arcs[k].end && arcs[k].start % SECTOR_SIZE == 0)
    && (forall k, l :: 0 <= k < l < |arcs| ==> arcs[k].end + SECTOR_SIZE < arcs[l].start)
    && (forall loc: U32 :: SectorOf(loc) in s <==> exists k :: 0 <= k < |arcs| && Covers(arcs[k], loc))
  }

  lemma RunsDescribe(runs: seq<Run>, s: set<nat>)
    requires RunsOf(runs, s)
    ensures Describes(RunArcs(runs), s)
  {
    var arcs := RunArcs(runs);
    forall k | 0 <= k < |arcs|
      ensures arcs[k].Arc? && arcs[k].start <= arcs[k].end && arcs[k].start % SECTOR_SIZE == 0
    {
      RunArcIs(runs[k]);
    }
    forall k, l | 0 <= k < l < |arcs|
      ensures arcs[k].end + SECTOR_SIZE < arcs[l].start
    {
      RunsApart(runs[k], runs[l]);
    }
    forall loc: U32
      ensures SectorOf(loc) in s <==> exists k :: 0 <= k < |arcs| && Covers(arcs[k], loc)
    {
      LocationInSomeArc(runs, s, loc);
    }
  }

  lemma RunsApart(a: Run, b: Run)
    requires a.Valid() && b.Valid() && a.hi + 1 < b.lo
    ensures RunArc(a).end + SECTOR_SIZE < RunArc(b).start
  {
    assert RunArc(a).end == (a.hi + 1) * SECTOR_SIZE - 1;
  }

  /** The whole circle is one run. */
  lemma FullRun(s: set<nat>)
    requires forall j: nat :: j in s <==> j < SECTORS
    ensures RunsOf([Run(0, SECTORS - 1)], s) && RunArcs([Run(0, SECTORS - 1)]) == [FULL]
  {
    var runs := [Run(0, SECTORS - 1)];
    forall j | j in s
      ensures InSomeRun(runs, j)
    {
      assert runs[0].Has(j);
    }
  }

  /** The run from one index to another of consecutive members lies in the set. */
  lemma RunInside(sectors: seq<nat>, s: set<nat>, start: nat, end: nat)
    requires start <= end < |sectors| && forall x :: x in sectors ==> x in s
    requires forall i :: start <= i <= end ==> sectors[i] == sectors[start] + (i - start)
    ensures var run := Run(sectors[start], sectors[end]);
            && (forall j :: run.Has(j) ==> j in s)
            && (forall i :: start <= i <= end ==> run.Has(sectors[i]))
  {
    var run := Run(sectors[start], sectors[end]);
    forall j: nat | run.Has(j)
      ensures j in s
    {
      assert sectors[start + (j - run.lo)] in sectors;
    }
  }

  /** The loop of `as_arcs` over the sorted sectors. */
  method SplitRuns(sectors: seq<nat>, s: set<nat>) returns (arcs: seq<DhtArc>, ghost runs: seq<Run>)
    requires forall x :: x in sectors <==> x in s
    requires forall x :: x in s ==> x < SECTORS
    requires forall i, j :: 0 <= i < j < |sectors| ==> sectors[i] < sectors[j]
    ensures RunsOf(runs, s) && arcs == RunArcs(runs)
  {
    arcs, runs := [], [];
    var start := 0;
    while start < |sectors|
      invariant 0 <= start <= |sectors|
      invariant Separate(runs, s) && arcs == RunArcs(runs)
      invariant forall i :: 0 <= i < start ==> InSomeRun(runs, sectors[i])
      invariant runs != [] && start < |sectors| ==> runs[|runs| - 1].hi + 1 < sectors[start]
    {
      var end := RunEnd(sectors, start);
      RunInside(sectors, s, start, end);
      assert sectors[end] in sectors;
      var run := Run(sectors[start], sectors[end]);
      RunPushed(runs, run, s);
      runs := runs + [run];
      arcs := arcs + [RunArc(run)];
      start := end + 1;
    }
    forall j | j in s
      ensures InSomeRun(runs, j)
    {
      assert j in sectors;
    }
  }

  /** The arc of a run is aligned, covers exactly the sectors of the run, and never wraps. */
  lemma RunArcIs(run: Run)
    requires run.Valid()
    ensures var arc := RunArc(run);
            && arc.start % SECTOR_SIZE == 0 && arc.start <= arc.end && WholeSectors(arc)
            && ArcSpan(arc) + 1 == (run.hi - run.lo + 1) * SECTOR_SIZE
            && (forall j: nat :: j in CoveredSectors(arc) <==> run.Has(j))
            && (forall loc: U32 :: Covers(arc, loc) <==> run.Has(SectorOf(loc)))
  {
    var arc := RunArc(run);
    assert arc.end == (run.hi + 1) * SECTOR_SIZE - 1;
    assert ArcSpan(arc) / SECTOR_SIZE == run.hi - run.lo;
    forall j: nat
      ensures j in CoveredSectors(arc) <==> run.Has(j)
    {
      if run.Has(j) {
        assert Around(arc.start, j - run.lo) == j;
      }
      if j in CoveredSectors(arc) {
        var k: nat :| k <= run.hi - run.lo && j == Around(arc.start, k);
        assert arc.start / SECTOR_SIZE == run.lo;
      }
    }
  }

  lemma {:induction false} UnionOfRuns(runs: seq<Run>, s: set<nat>)
    requires Separate(runs, s)
    ensures forall j: nat :: j in Union(RunArcs(runs)) <==> InSomeRun(runs, j)
  {
    if runs != [] {
      var n := |runs| - 1;
      UnionOfRuns(runs[..n], s);
      assert RunArcs(runs)[..n] == RunArcs(runs[..n]);
      RunArcIs(runs[n]);
      forall j: nat
        ensures InSomeRun(runs, j) <==> InSomeRun(runs[..n], j) || runs[n].Has(j)
      {
        InLastRunOrEarlier(runs, j);
      }
    }
  }

  lemma InLastRunOrEarlier(runs: seq<Run>, j: nat)
    requires runs != []
    ensures var n := |runs| - 1;
            InSomeRun(runs, j) <==> InSomeRun(runs[..n], j) || runs[n].Has(j)
  {
    var n := |runs| - 1;
    if InSomeRun(runs, j) {
      var k :| 0 <= k < |runs| && runs[k].Has(j);
      if k < n {
        assert runs[..n][k].Has(j);
      }
    }
    if InSomeRun(runs[..n], j) {
      var k :| 0 <= k < n && runs[..n][k].Has(j);
      assert runs[k].Has(j);
    }
  }

  /** Making a set again from its arcs gives the set back. */
  method AsArcsThenNew(s: set<nat>) returns (r: Result<set<nat>>)
    requires s <= AllSectors()
    ensures r == Ok(s)
  {
    var arcs, runs := AsArcs(s);
    ArcsMakeSet(runs, s);
    r := New(arcs);
  }

  lemma ArcsMakeSet(runs: seq<Run>, s: set<nat>)
    requires RunsOf(runs, s)
    ensures Union(RunArcs(runs)) == s
    ensures forall k :: 0 <= k < |runs| ==> WholeSectors(RunArcs(runs)[k])
  {
    UnionOfRuns(runs, s);
    forall k | 0 <= k < |runs|
      ensures WholeSectors(RunArc(runs[k]))
    {
      RunArcIs(runs[k]);
    }
  }

  /** A location lies in some arc of a set exactly when its sector is in the set. */
  lemma LocationInSomeArc(runs: seq<Run>, s: set<nat>, loc: U32)
    requires RunsOf(runs, s)
    ensures SectorOf(loc) in s <==> exists k :: 0 <= k < |runs| && Covers(RunArcs(runs)[k], loc)
  {
    if SectorOf(loc) in s {
      assert InSomeRun(runs, SectorOf(loc));
      var k :| 0 <= k < |runs| && runs[k].Has(SectorOf(loc));
      RunArcIs(runs[k]);
      assert Covers(RunArcs(runs)[k], loc);
    }
    forall k | 0 <= k < |runs| && Covers(RunArcs(runs)[k], loc)
      ensures SectorOf(loc) in s
    {
      RunArcIs(runs[k]);
    }
  }
}
