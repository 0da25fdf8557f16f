/** Growing the storage arcs of local agents after a sync (crates/gossip/src/storage_arc.rs, with the
    `sharding` feature). */
module StorageArcs {
  import opened Wrappers
  import opened Combine
  import opened Arcs
  import opened Sectors
  import opened ArcSets
  import opened ArcRuns
  import opened Snapshots

  class LocalAgent {
    const target: DhtArc
    var current: DhtArc

    constructor (target: DhtArc, current: DhtArc)
      ensures this.target == target && this.current == current
    {
      this.target := target;
      this.current := current;
    }
  }

  /** Whether an arc would do as a replacement of a non-empty current arc. */
  predicate Better(arc: DhtArc, current: DhtArc) {
    ArcSpan(arc) > ArcSpan(current) && Overlaps(arc, current)
  }

  /** The arc picked among the runs of the sectors an agent may claim: for an empty current arc a
      longest one, the last if there are several; otherwise the first that is better. */
  ghost predicate Picked(runs: seq<Run>, current: DhtArc, next: DhtArc)
    requires forall k :: 0 <= k < |runs| ==> runs[k].Valid()
  {
    if current.Empty? then
      (runs == [] && next == current) ||
      (exists k :: 0 <= k < |runs| && next == RunArc(runs[k])
                   && (forall l :: 0 <= l < |runs| ==> ArcSpan(RunArc(runs[l])) <= ArcSpan(next))
                   && (forall l :: k < l < |runs| ==> ArcSpan(RunArc(runs[l])) < ArcSpan(next)))
    else
      (next == current && forall k :: 0 <= k < |runs| ==> !Better(RunArc(runs[k]), current)) ||
      (exists k :: 0 <= k < |runs| && next == RunArc(runs[k]) && Better(next, current)
                   && (forall l :: 0 <= l < k ==> !Better(RunArc(runs[l]), current)))
  }

  method PickLongest(arcs: seq<DhtArc>) returns (k: nat)
    requires arcs != []
    ensures k < |arcs| && forall l :: 0 <= l < |arcs| ==> ArcSpan(arcs[l]) <= ArcSpan(arcs[k])
    ensures forall l :: k < l < |arcs| ==> ArcSpan(arcs[l]) < ArcSpan(arcs[k])
  {
    k := 0;
    for l := 1 to |arcs|
      invariant k < l && forall m :: 0 <= m < l ==> ArcSpan(arcs[m]) <= ArcSpan(arcs[k])
      invariant forall m :: k < m < l ==> ArcSpan(arcs[m]) < ArcSpan(arcs[k])
    {
      if ArcSpan(arcs[l]) >= ArcSpan(arcs[k]) {
        k := l;
      }
    }
  }

  method FindBetter(arcs: seq<DhtArc>, current: DhtArc) returns (k: nat)
    ensures k <= |arcs| && forall l :: 0 <= l < k ==> !Better(arcs[l], current)
    ensures k < |arcs| ==> Better(arcs[k], current)
  {
    k := 0;
    while k < |arcs| && !Better(arcs[k], current)
      invariant k <= |arcs| && forall l :: 0 <= l < k ==> !Better(arcs[l], current)
    {
      k := k + 1;
    }
  }

  /** The sectors an agent may claim: those synced or already held, inside its target. */
  function Claimable(target: DhtArc, current: DhtArc, synced: set<nat>): set<nat> {
    (synced + CoveredSectors(current)) * CoveredSectors(target)
  }

  /** The arcs are made of whole sectors, and together they have exactly the given ones. */
  ghost predicate MadeOf(arcs: seq<DhtArc>, sectors: set<nat>) {
    Union(arcs) == sectors && forall k :: 0 <= k < |arcs| ==> WholeSectors(arcs[k])
  }

  /** An agent still growing, with an arc that is not made of whole sectors and is looked at. */
  ghost predicate Unworkable(target: DhtArc, current: DhtArc, synced: set<nat>) {
    target != current && (!WholeSectors(target) || (!WholeSectors(current) && |synced| != SECTORS))
  }

  /** What one update may make of the arc of an agent. */
  ghost predicate Becomes(target: DhtArc, current: DhtArc, synced: set<nat>, next: DhtArc) {
    if target == current then next == current
    else exists runs :: RunsOf(runs, Claimable(target, current, synced)) && Picked(runs, current, next)
  }

  lemma UnionPush(arcs: seq<DhtArc>, arc: DhtArc)
    ensures Union(arcs + [arc]) == Union(arcs) + CoveredSectors(arc)
  {
    assert (arcs + [arc])[..|arcs|] == arcs;
  }

  /** The next storage arc of one agent. It fails exactly when the target, or the current arc while
      not everything is synced, is not made of whole sectors. */
  method NextArc(target: DhtArc, current: DhtArc, syncedArcs: seq<DhtArc>, ghost synced: set<nat>)
      returns (r: Result<DhtArc>, ghost runs: seq<Run>)
    requires MadeOf(syncedArcs, synced)
    ensures r.Err? <==> Unworkable(target, current, synced)
    ensures target == current ==> r == Ok(current)
    ensures r.Ok? && target != current ==>
              RunsOf(runs, Claimable(target, current, synced)) && Picked(runs, current, r.value)
  {
    runs := [];
    if target == current {
      return Ok(current), runs;
    }
    UnionPush([], target);
    UnionPush(syncedArcs, current);
    UnionInRange([target]);
    var targetSet := New([target]);
    OnlyLastMayBeBad([], target);
    if targetSet.Err? {
      return Err, runs;
    }
    var all := New(syncedArcs + [current]);
    OnlyLastMayBeBad(syncedArcs, current);
    if all.Err? {
      return Err, runs;
    }
    var arcs;
    arcs, runs := AsArcs(all.value * targetSet.value);
    var next := PickNext(arcs, runs, current);
    return Ok(next), runs;
  }

  lemma OnlyLastMayBeBad(arcs: seq<DhtArc>, last: DhtArc)
    requires forall k :: 0 <= k < |arcs| ==> WholeSectors(arcs[k])
    ensures (exists k :: 0 <= k < |arcs| + 1 && FirstBad(arcs + [last], k)) <==>
            !WholeSectors(last) && |Union(arcs)| != SECTORS
  {
    var all := arcs + [last];
    assert all[..|arcs|] == arcs;
    assert FirstBad(all, |arcs|) <==> !WholeSectors(last) && |Union(arcs)| != SECTORS;
  }

  method PickNext(arcs: seq<DhtArc>, ghost runs: seq<Run>, current: DhtArc) returns (next: DhtArc)
    requires forall k :: 0 <= k < |runs| ==> runs[k].Valid()
    requires arcs == RunArcs(runs)
    ensures Picked(runs, current, next)
  {
    next := current;
    if current.Empty? {
      if arcs != [] {
        var k := PickLongest(arcs);
        next := arcs[k];
        assert next == RunArc(runs[k]);
        assert forall l :: 0 <= l < |runs| ==> arcs[l] == RunArc(runs[l]);
      }
    } else {
      var k := FindBetter(arcs, current);
      assert forall l :: 0 <= l < |runs| ==> arcs[l] == RunArc(runs[l]);
      if k < |arcs| {
        next := arcs[k];
        assert next == RunArc(runs[k]);
      }
    }
  }

  // ---------------------------------------------------------------- arcs that do not wrap

  /** An arc that growth can start from: empty, or the arc of a run of sectors inside the target. */
  ghost predicate Sound(arc: DhtArc, target: DhtArc) {
    arc.Empty? ||
    exists run: Run :: run.Valid() && arc == RunArc(run) && forall j :: run.Has(j) ==> j in CoveredSectors(target)
  }

  /** Two runs share a sector exactly when their arcs overlap. */
  lemma RunsOverlap(a: Run, b: Run)
    requires a.Valid() && b.Valid()
    ensures Overlaps(RunArc(a), RunArc(b)) <==> exists j :: a.Has(j) && b.Has(j)
  {
    RunArcIs(a);
    RunArcIs(b);
    OverlapsIffShared(RunArc(a), RunArc(b));
    if exists j :: a.Has(j) && b.Has(j) {
      var j: nat :| a.Has(j) && b.Has(j);
      var loc: U32 := j * SECTOR_SIZE;
      assert SectorOf(loc) == j;
      assert Covers(RunArc(a), loc) && Covers(RunArc(b), loc);
    }
    if Overlaps(RunArc(a), RunArc(b)) {
      var loc: U32 :| Covers(RunArc(a), loc) && Covers(RunArc(b), loc);
      assert a.Has(SectorOf(loc)) && b.Has(SectorOf(loc));
    }
  }

  /** A run of sectors inside a set lies inside each run of the set that it meets. */
  lemma {:induction false} RunAbsorbs(runs: seq<Run>, s: set<nat>, k: nat, inner: Run, j: nat)
    requires RunsOf(runs, s) && k < |runs| && runs[k].Has(j) && inner.Has(j)
    requires forall i :: inner.Has(i) ==> i in s
    ensures runs[k].lo <= inner.lo && inner.hi <= runs[k].hi
  {
    GapAround(runs, s, k);
    assert runs[k].lo > 0 ==> !inner.Has(runs[k].lo - 1);
    assert !inner.Has(runs[k].hi + 1);
  }

  /** The sectors next to a run are not in the set. */
  lemma GapAround(runs: seq<Run>, s: set<nat>, k: nat)
    requires RunsOf(runs, s) && k < |runs|
    ensures runs[k].lo > 0 ==> runs[k].lo - 1 !in s
    ensures runs[k].hi + 1 !in s
  {
    forall l | 0 <= l < |runs|
      ensures !(runs[l].lo <= runs[k].lo - 1 <= runs[l].hi) && !runs[l].Has(runs[k].hi + 1)
    {
      assert l < k ==> runs[l].hi + 1 < runs[k].lo;
      assert k < l ==> runs[k].hi + 1 < runs[l].lo;
    }
  }

  /** What one update does to an agent: it stays sound, loses no sector, gains only synced ones, and
      if it changes at all it gains some. */
  ghost predicate Grows(current: DhtArc, next: DhtArc, target: DhtArc, synced: set<nat>) {
    && Sound(next, target)
    && CoveredSectors(current) <= CoveredSectors(next) <= CoveredSectors(current) + synced
    && CoveredSectors(next) <= CoveredSectors(current) + CoveredSectors(target)
    && (next != current ==> CoveredSectors(current) < CoveredSectors(next))
  }

  /** A better run absorbs the current one and is longer. */
  lemma BetterRun(runs: seq<Run>, s: set<nat>, k: nat, run: Run)
    requires RunsOf(runs, s) && k < |runs| && run.Valid() && Better(RunArc(runs[k]), RunArc(run))
    requires forall j :: run.Has(j) ==> j in s
    ensures runs[k].lo <= run.lo && run.hi <= runs[k].hi && runs[k] != run
  {
    RunsOverlap(runs[k], run);
    var j: nat :| runs[k].Has(j) && run.Has(j);
    RunAbsorbs(runs, s, k, run, j);
  }

  lemma PickedGrows(target: DhtArc, current: DhtArc, synced: set<nat>, runs: seq<Run>, next: DhtArc)
    requires Sound(current, target) && RunsOf(runs, Claimable(target, current, synced)) && Picked(runs, current, next)
    ensures Grows(current, next, target, synced)
  {
    if next != current {
      var k :| 0 <= k < |runs| && next == RunArc(runs[k]) && (current.Arc? ==> Better(next, current));
      if current.Arc? {
        var run: Run :| run.Valid() && current == RunArc(run) && forall j :: run.Has(j) ==> j in CoveredSectors(target);
        RunArcIs(run);
        BetterRun(runs, Claimable(target, current, synced), k, run);
        RunGrows(target, current, synced, runs[k], run.lo, run.hi);
      } else {
        RunGrows(target, current, synced, runs[k], runs[k].hi + 1, runs[k].hi);
      }
    }
  }

  /** Replacing the sectors from `lo` to `hi` by a larger run of claimable ones is growth. */
  lemma RunGrows(target: DhtArc, current: DhtArc, synced: set<nat>, run: Run, lo: nat, hi: nat)
    requires run.Valid() && forall j :: run.Has(j) ==> j in Claimable(target, current, synced)
    requires forall j: nat :: j in CoveredSectors(current) <==> lo <= j <= hi
    requires run.lo <= lo && hi <= run.hi && (run.lo < lo || hi < run.hi)
    ensures Grows(current, RunArc(run), target, synced)
  {
    RunArcIs(run);
    var next := CoveredSectors(RunArc(run));
    assert forall j :: j in next ==> run.Has(j);
    var gained := if run.lo < lo then run.lo else run.hi;
    assert run.Has(gained);
    assert gained in next && gained !in CoveredSectors(current);
  }

  // ---------------------------------------------------------------- rounds

  /** The sectors a snapshot reports as mismatched; `None` for snapshots that say nothing about it. */
  function Mismatched(snapshot: Snapshot): Option<set<nat>> {
    match snapshot
    case Minimal(_, _, _) => Some({})
    case RingSectorDetails(rings, _) => Some(set r, j | r in rings && j in rings[r] :: j)
    case _ => None
  }

  /** The sectors a round found in sync. */
  function Synced(snapshot: Snapshot, common: set<nat>): set<nat> {
    match Mismatched(snapshot)
    case Some(bad) => common - bad
    case None => {}
  }

  lemma BecomesGrows(target: DhtArc, current: DhtArc, synced: set<nat>, next: DhtArc)
    requires Sound(current, target) && Becomes(target, current, synced, next)
    ensures Grows(current, next, target, synced)
  {
    if target != current {
      var runs :| RunsOf(runs, Claimable(target, current, synced)) && Picked(runs, current, next);
      PickedGrows(target, current, synced, runs, next);
    }
  }

  // ---------------------------------------------------------------- exactly how far an arc extends

  /** A sector an agent may hold: in its target, and free or held already. */
  ghost predicate MayHold(target: DhtArc, current: DhtArc, free: set<nat>, j: nat) {
    j in CoveredSectors(target) && (j in free || j in CoveredSectors(current))
  }

  /** All sectors from one to another may be held. */
  ghost predicate HoldsBetween(target: DhtArc, current: DhtArc, free: set<nat>, a: nat, b: nat) {
    forall j: nat :: a <= j <= b ==> MayHold(target, current, free, j)
  }

  /** The next arc of an agent: a non-empty one extends as far in both directions as sectors may be held; in place
      of an empty one stands the longest stretch of sectors that may be held, the last if there are several. */
  ghost predicate ExtendsTo(target: DhtArc, current: DhtArc, next: DhtArc, free: set<nat>) {
    if target == current then next == current
    else if current.Arc? then
      forall j: nat :: j in CoveredSectors(next) <==> Reaches(target, current, free, j)
    else if next.Empty? then
      forall j: nat :: !MayHold(target, current, free, j)
    else
      exists lo: nat, hi: nat :: lo <= hi && Longest(target, current, next, free, lo, hi)
  }

  ghost predicate Reaches(target: DhtArc, current: DhtArc, free: set<nat>, j: nat) {
    exists c: nat ::
      && c in CoveredSectors(current)
      && HoldsBetween(target, current, free, if j < c then j else c, if j < c then c else j)
  }

  ghost predicate Longest(target: DhtArc, current: DhtArc, next: DhtArc, free: set<nat>, lo: nat, hi: nat)
    requires lo <= hi
  {
    && (forall j: nat :: j in CoveredSectors(next) <==> lo <= j <= hi)
    && HoldsBetween(target, current, free, lo, hi)
    && (forall a: nat, b: nat :: a <= b && HoldsBetween(target, current, free, a, b) ==>
          b - a < hi - lo || (b - a == hi - lo && a <= lo))
  }

  lemma ClaimableIs(target: DhtArc, current: DhtArc, free: set<nat>)
    ensures forall j: nat :: j in Claimable(target, current, free) <==> MayHold(target, current, free, j)
  {
  }

  /** A stretch of sectors in a set stays within one of its runs. */
  lemma {:induction false} StretchInRun(runs: seq<Run>, s: set<nat>, a: nat, b: nat) returns (k: nat)
    requires RunsOf(runs, s) && a <= b && forall j: nat :: a <= j <= b ==> j in s
    ensures k < |runs| && runs[k].lo <= a && b <= runs[k].hi
  {
    assert a in s && InSomeRun(runs, a);
    k :| 0 <= k < |runs| && runs[k].Has(a);
    RunAbsorbs(runs, s, k, Run(a, b), a);
  }

  /** The run of the claimable sectors that an agent's own run lies in is what it extends to. */
  lemma RunReaches(target: DhtArc, current: DhtArc, free: set<nat>, runs: seq<Run>, run: Run, k: nat, j: nat)
    requires RunsOf(runs, Claimable(target, current, free)) && k < |runs|
    requires run.Valid() && (forall i: nat :: i in CoveredSectors(current) <==> run.Has(i))
    requires runs[k].lo <= run.lo && run.hi <= runs[k].hi
    ensures runs[k].Has(j) <==> Reaches(target, current, free, j)
  {
    ClaimableIs(target, current, free);
    if runs[k].Has(j) {
      var c := run.lo;
      assert c in CoveredSectors(current);
      assert HoldsBetween(target, current, free, if j < c then j else c, if j < c then c else j);
    }
    if Reaches(target, current, free, j) {
      var c: nat :|
        && c in CoveredSectors(current)
        && HoldsBetween(target, current, free, if j < c then j else c, if j < c then c else j);
      var a, b := if j < c then j else c, if j < c then c else j;
      RunAbsorbs(runs, Claimable(target, current, free), k, Run(a, b), c);
    }
  }

  lemma ArcExtends(target: DhtArc, current: DhtArc, free: set<nat>, runs: seq<Run>, next: DhtArc, run: Run)
    requires run.Valid() && current == RunArc(run) && forall j :: run.Has(j) ==> j in CoveredSectors(target)
    requires RunsOf(runs, Claimable(target, current, free)) && Picked(runs, current, next)
    ensures forall j: nat :: j in CoveredSectors(next) <==> Reaches(target, current, free, j)
  {
    RunArcIs(run);
    assert forall j: nat :: run.lo <= j <= run.hi ==> j in Claimable(target, current, free);
    var k := StretchInRun(runs, Claimable(target, current, free), run.lo, run.hi);
    RunArcIs(runs[k]);
    PickedIsRun(target, current, free, runs, next, run, k);
    forall j: nat
      ensures j in CoveredSectors(next) <==> Reaches(target, current, free, j)
    {
      RunReaches(target, current, free, runs, run, k, j);
    }
  }

  /** The arc picked is that of the run the agent's own run lies in. */
  lemma PickedIsRun(target: DhtArc, current: DhtArc, free: set<nat>, runs: seq<Run>, next: DhtArc, run: Run, k: nat)
    requires run.Valid() && current == RunArc(run) && k < |runs|
    requires RunsOf(runs, Claimable(target, current, free)) && Picked(runs, current, next)
    requires forall j :: run.Has(j) ==> j in Claimable(target, current, free)
    requires runs[k].lo <= run.lo && run.hi <= runs[k].hi
    ensures next == RunArc(runs[k])
  {
    RunArcIs(run);
    RunArcIs(runs[k]);
    if next == current {
      assert runs[k].Has(run.lo) && run.Has(run.lo);
      RunsOverlap(runs[k], run);
      assert !Better(RunArc(runs[k]), current);
    } else {
      var l :| 0 <= l < |runs| && next == RunArc(runs[l]) && Better(next, current);
      BetterRun(runs, Claimable(target, current, free), l, run);
      SameRun(runs, Claimable(target, current, free), k, l, run.lo);
    }
  }

  lemma SameRun(runs: seq<Run>, s: set<nat>, k: nat, l: nat, j: nat)
    requires RunsOf(runs, s) && k < |runs| && l < |runs| && runs[k].Has(j) && runs[l].Has(j)
    ensures k == l
  {
  }

  /** One of the longest runs, and the last of these. */
  ghost predicate LastOfLongest(runs: seq<Run>, k: nat)
    requires forall l :: 0 <= l < |runs| ==> runs[l].Valid()
  {
    && k < |runs|
    && (forall l :: 0 <= l < |runs| ==> ArcSpan(RunArc(runs[l])) <= ArcSpan(RunArc(runs[k])))
    && (forall l :: k < l < |runs| ==> ArcSpan(RunArc(runs[l])) < ArcSpan(RunArc(runs[k])))
  }

  lemma EmptyExtends(target: DhtArc, free: set<nat>, runs: seq<Run>, next: DhtArc)
    requires RunsOf(runs, Claimable(target, Empty, free)) && Picked(runs, Empty, next)
    ensures next.Empty? ==> forall j: nat :: !MayHold(target, Empty, free, j)
    ensures next.Arc? ==> exists lo: nat, hi: nat :: lo <= hi && Longest(target, Empty, next, free, lo, hi)
  {
    if runs == [] {
      NothingToHold(target, free);
    } else {
      var k: nat :| LastOfLongest(runs, k) && next == RunArc(runs[k]);
      LastLongestIsLongest(target, free, runs, k);
    }
  }

  lemma NothingToHold(target: DhtArc, free: set<nat>)
    requires RunsOf([], Claimable(target, Empty, free))
    ensures forall j: nat :: !MayHold(target, Empty, free, j)
  {
    ClaimableIs(target, Empty, free);
    forall j: nat
      ensures j !in Claimable(target, Empty, free)
    {
      assert j in Claimable(target, Empty, free) ==> InSomeRun([], j);
    }
  }

  lemma LastLongestIsLongest(target: DhtArc, free: set<nat>, runs: seq<Run>, k: nat)
    requires RunsOf(runs, Claimable(target, Empty, free)) && LastOfLongest(runs, k)
    ensures Longest(target, Empty, RunArc(runs[k]), free, runs[k].lo, runs[k].hi)
  {
    ClaimableIs(target, Empty, free);
    RunArcIs(runs[k]);
    forall a: nat, b: nat | a <= b && HoldsBetween(target, Empty, free, a, b)
      ensures b - a < runs[k].hi - runs[k].lo || (b - a == runs[k].hi - runs[k].lo && a <= runs[k].lo)
    {
      LastLongest(runs, Claimable(target, Empty, free), k, a, b);
    }
  }

  /** No stretch in a set is longer than a last longest run, and one that is as long does not start later. */
  lemma LastLongest(runs: seq<Run>, s: set<nat>, k: nat, a: nat, b: nat)
    requires RunsOf(runs, s) && LastOfLongest(runs, k) && a <= b && forall j: nat :: a <= j <= b ==> j in s
    ensures b - a < runs[k].hi - runs[k].lo || (b - a == runs[k].hi - runs[k].lo && a <= runs[k].lo)
  {
    var l := StretchInRun(runs, s, a, b);
    RunArcIs(runs[k]);
    RunArcIs(runs[l]);
    assert ArcSpan(RunArc(runs[l])) <= ArcSpan(RunArc(runs[k]));
    assert l < k ==> runs[l].hi + 1 < runs[k].lo;
  }

  lemma BecomesExtends(target: DhtArc, current: DhtArc, free: set<nat>, next: DhtArc)
    requires Sound(current, target) && Becomes(target, current, free, next)
    ensures Sound(next, target) && ExtendsTo(target, current, next, free)
  {
    BecomesGrows(target, current, free, next);
    if target != current {
      var runs :| RunsOf(runs, Claimable(target, current, free)) && Picked(runs, current, next);
      if current.Arc? {
        var run: Run :| run.Valid() && current == RunArc(run) && forall j :: run.Has(j) ==> j in CoveredSectors(target);
        ArcExtends(target, current, free, runs, next, run);
      } else {
        EmptyExtends(target, free, runs, next);
      }
    }
  }

  // ---------------------------------------------------------------- one round

  /** The common sectors that are a key of no ring of the details. */
  ghost function Unreported(rings: map<nat, map<nat, Hash>>, common: set<nat>): set<nat> {
    set j | j in common && forall r :: r in rings ==> j !in rings[r]
  }

  /** The sectors a round leaves free to claim: all common ones after a minimal snapshot, those not reported after
      ring details, and none otherwise. */
  ghost function FreeAfter(snapshot: Snapshot, common: set<nat>): set<nat> {
    match snapshot
    case Minimal(_, _, _) => common
    case RingSectorDetails(rings, _) => Unreported(rings, common)
    case _ => {}
  }

  predicate SaysNothing(snapshot: Snapshot) {
    snapshot.DiscSectors? || snapshot.DiscSectorDetails?
  }

  lemma SyncedIsFree(snapshot: Snapshot, common: set<nat>)
    ensures Mismatched(snapshot).None? <==> SaysNothing(snapshot)
    ensures Synced(snapshot, common) == FreeAfter(snapshot, common)
  {
  }

  /** What a round makes of the arc of an agent. */
  ghost predicate Follows(snapshot: Snapshot, common: set<nat>, target: DhtArc, current: DhtArc, next: DhtArc) {
    if SaysNothing(snapshot) then next == current
    else
      && Becomes(target, current, FreeAfter(snapshot, common), next)
      && (Sound(current, target) ==>
            Sound(next, target) && ExtendsTo(target, current, next, FreeAfter(snapshot, common)))
  }

  /** What a round makes of all agents: it works through those before `n` and stops there, at the end or at the first
      that it cannot work with. */
  ghost predicate Round(snapshot: Snapshot, common: set<nat>, targets: seq<DhtArc>, was: seq<DhtArc>,
                        after: seq<DhtArc>, n: nat)
  {
    && |targets| == |was| == |after| && n <= |targets|
    && (forall i :: 0 <= i < n ==> Follows(snapshot, common, targets[i], was[i], after[i]))
    && (forall i :: n <= i < |targets| ==> after[i] == was[i])
    && (!SaysNothing(snapshot) ==>
          forall i :: 0 <= i < n ==> !Unworkable(targets[i], was[i], FreeAfter(snapshot, common)))
    && (n < |targets| ==> !SaysNothing(snapshot) && Unworkable(targets[n], was[n], FreeAfter(snapshot, common)))
  }

  /** The agents before `n` are dealt with, given what is free. */
  ghost predicate Grown(targets: seq<DhtArc>, was: seq<DhtArc>, after: seq<DhtArc>, free: set<nat>, n: nat) {
    && |targets| == |was| == |after| && n <= |targets|
    && (forall i :: 0 <= i < n ==> Becomes(targets[i], was[i], free, after[i]) && !Unworkable(targets[i], was[i], free))
    && (forall i :: n <= i < |targets| ==> after[i] == was[i])
  }

  lemma GrownIsRound(snapshot: Snapshot, common: set<nat>, targets: seq<DhtArc>, was: seq<DhtArc>, after: seq<DhtArc>,
                     n: nat)
    requires !SaysNothing(snapshot) && Grown(targets, was, after, FreeAfter(snapshot, common), n)
    requires n < |targets| ==> Unworkable(targets[n], was[n], FreeAfter(snapshot, common))
    ensures Round(snapshot, common, targets, was, after, n)
  {
    forall i | 0 <= i < n
      ensures Follows(snapshot, common, targets[i], was[i], after[i])
    {
      if Sound(was[i], targets[i]) {
        BecomesExtends(targets[i], was[i], FreeAfter(snapshot, common), after[i]);
      }
    }
  }

  ghost function Targets(agents: seq<LocalAgent>): seq<DhtArc> {
    seq(|agents|, i requires 0 <= i < |agents| => agents[i].target)
  }

  ghost function Currents(agents: seq<LocalAgent>): seq<DhtArc>
    reads agents
  {
    seq(|agents|, i requires 0 <= i < |agents| reads agents => agents[i].current)
  }

  /** One update of all local agents. It fails exactly when there is an agent it cannot work with; every
      agent's arc becomes what the claimable sectors allow, up to the first such agent if there is one; from
      there on the arcs stay as they are. */
  method UpdateStorageArcs(snapshot: Snapshot, agents: seq<LocalAgent>, common: set<nat>)
      returns (r: Result<()>, ghost n: nat)
    requires common <= AllSectors()
    requires forall i, j :: 0 <= i < j < |agents| ==> agents[i] != agents[j]
    modifies agents
    ensures r.Ok? <==> n == |agents|
    ensures Round(snapshot, common, Targets(agents), old(Currents(agents)), Currents(agents), n)
  {
    SyncedIsFree(snapshot, common);
    var bad := Mismatched(snapshot);
    if bad.None? {
      return Ok(()), |agents|;
    }
    var synced := common - bad.value;
    var syncedArcs, syncedRuns := AsArcs(synced);
    ArcsMakeSet(syncedRuns, synced);
    r, n := GrowAll(agents, syncedArcs, synced);
    GrownIsRound(snapshot, common, Targets(agents), old(Currents(agents)), Currents(agents), n);
  }

  /** The loop over the agents. */
  method GrowAll(agents: seq<LocalAgent>, syncedArcs: seq<DhtArc>, ghost synced: set<nat>)
      returns (r: Result<()>, ghost n: nat)
    requires MadeOf(syncedArcs, synced)
    requires forall i, j :: 0 <= i < j < |agents| ==> agents[i] != agents[j]
    modifies agents
    ensures r.Ok? <==> n == |agents|
    ensures Grown(Targets(agents), old(Currents(agents)), Currents(agents), synced, n)
    ensures n < |agents| ==> Unworkable(Targets(agents)[n], old(Currents(agents))[n], synced)
  {
    ghost var targets, was := Targets(agents), Currents(agents);
    for k := 0 to |agents|
      invariant Grown(targets, was, Currents(agents), synced, k)
    {
      ghost var before := Currents(agents);
      r := GrowAgent(agents[k], syncedArcs, synced);
      if r.Err? {
        assert Currents(agents) == before;
        return r, k;
      }
      assert forall i :: 0 <= i < |agents| && i != k ==> Currents(agents)[i] == before[i];
    }
    return Ok(()), |agents|;
  }

  /** Replaces the arc of one agent. */
  method GrowAgent(agent: LocalAgent, syncedArcs: seq<DhtArc>, ghost synced: set<nat>) returns (r: Result<()>)
    requires MadeOf(syncedArcs, synced)
    modifies agent
    ensures r.Err? <==> Unworkable(agent.target, old(agent.current), synced)
    ensures r.Err? ==> agent.current == old(agent.current)
    ensures r.Ok? ==> Becomes(agent.target, old(agent.current), synced, agent.current)
  {
    var next, runs := NextArc(agent.target, agent.current, syncedArcs, synced);
    if next.Err? {
      return Err;
    }
    agent.current := next.value;
    return Ok(());
  }

  /** How often the arc of an agent changes in a run of rounds. */
  function Changes(arcs: seq<DhtArc>): nat {
    if |arcs| < 2 then 0
    else Changes(arcs[..|arcs| - 1]) + if arcs[|arcs| - 2] == arcs[|arcs| - 1] then 0 else 1
  }

  /** Over any run of rounds with a fixed target, the arc of an agent stays inside the target, never
      loses a sector, gains only sectors that some round left free, and changes at most 512 times. */
  lemma {:induction false} GrowthRun(target: DhtArc, arcs: seq<DhtArc>, snapshots: seq<Snapshot>,
                                     commons: seq<set<nat>>)
    requires |arcs| == |snapshots| + 1 == |commons| + 1 && Sound(arcs[0], target)
    requires forall i :: 0 <= i < |snapshots| ==>
               arcs[i + 1] == arcs[i] || Follows(snapshots[i], commons[i], target, arcs[i], arcs[i + 1])
    ensures var last := arcs[|arcs| - 1];
            && Sound(last, target) && CoveredSectors(arcs[0]) <= CoveredSectors(last)
            && (forall j :: j in CoveredSectors(last) ==>
                  j in CoveredSectors(arcs[0]) || LeftFreeBySome(snapshots, commons, j))
            && Changes(arcs) + |CoveredSectors(arcs[0])| <= |CoveredSectors(last)| <= SECTORS
    decreases |arcs|
  {
    SectorCount(arcs[|arcs| - 1]);
    if |snapshots| > 0 {
      var n := |snapshots| - 1;
      var init, free := arcs[..n + 1], FreeAfter(snapshots[n], commons[n]);
      GrowthRun(target, init, snapshots[..n], commons[..n]);
      assert init[|init| - 1] == arcs[n] && init[0] == arcs[0];
      if arcs[n + 1] != arcs[n] {
        BecomesGrows(target, arcs[n], free, arcs[n + 1]);
      }
      GrowthCounts(arcs[n], arcs[n + 1], target, free);
      forall j | j in CoveredSectors(arcs[n + 1]) && j !in CoveredSectors(arcs[0])
        ensures LeftFreeBySome(snapshots, commons, j)
      {
        LeftFreeStays(snapshots, commons, n, j);
      }
    }
  }

  /** Some round of a run left a sector free: it was common, and was not reported as mismatched. */
  ghost predicate LeftFreeBySome(snapshots: seq<Snapshot>, commons: seq<set<nat>>, j: nat)
    requires |snapshots| == |commons|
  {
    exists i :: 0 <= i < |snapshots| && LeftFree(snapshots[i], commons[i], j)
  }

  ghost predicate LeftFree(snapshot: Snapshot, common: set<nat>, j: nat) {
    && j in common && (snapshot.Minimal? || snapshot.RingSectorDetails?)
    && (snapshot.RingSectorDetails? ==> forall r :: r in snapshot.rings ==> j !in snapshot.rings[r])
  }

  lemma LeftFreeStays(snapshots: seq<Snapshot>, commons: seq<set<nat>>, n: nat, j: nat)
    requires n + 1 == |snapshots| == |commons|
    requires LeftFreeBySome(snapshots[..n], commons[..n], j) || j in FreeAfter(snapshots[n], commons[n])
    ensures LeftFreeBySome(snapshots, commons, j)
  {
    if LeftFreeBySome(snapshots[..n], commons[..n], j) {
      var i :| 0 <= i < n && LeftFree(snapshots[..n][i], commons[..n][i], j);
      assert LeftFree(snapshots[i], commons[i], j);
    } else {
      assert LeftFree(snapshots[n], commons[n], j);
    }
  }

  lemma GrowthCounts(current: DhtArc, next: DhtArc, target: DhtArc, synced: set<nat>)
    requires Grows(current, next, target, synced)
    ensures |CoveredSectors(current)| + (if current == next then 0 else 1) <= |CoveredSectors(next)|
  {
    var a, b := CoveredSectors(current), CoveredSectors(next);
    assert b == a + (b - a);
    if current != next {
      assert b - a != {};
    }
  }

  lemma SectorCount(arc: DhtArc)
    ensures |CoveredSectors(arc)| <= SECTORS
  {
    UnionPush([], arc);
    UnionInRange([arc]);
    FullIsAll(CoveredSectors(arc));
  }

  /** For sound arcs and aligned targets, what holds of sectors holds of locations. */
  lemma SoundLocations(arc: DhtArc, target: DhtArc, loc: U32)
    requires Sound(arc, target)
    ensures Covers(arc, loc) <==> SectorOf(loc) in CoveredSectors(arc)
    ensures Covers(arc, loc) && WholeSectors(target) && target.Arc? && target.start % SECTOR_SIZE == 0 ==>
              Covers(target, loc)
  {
    if arc.Arc? {
      var run: Run :| run.Valid() && arc == RunArc(run) && forall j :: run.Has(j) ==> j in CoveredSectors(target);
      RunArcIs(run);
      if target.Arc? && WholeSectors(target) && target.start % SECTOR_SIZE == 0 {
        LocationMatches(target, loc);
      }
    }
  }

  // ---------------------------------------------------------------- what an update may lose

  /** The first run that is better than the current arc: the one it is replaced by. */
  predicate FirstBetter(runs: seq<Run>, current: DhtArc, k: nat)
    requires forall l :: 0 <= l < |runs| ==> runs[l].Valid()
  {
    k < |runs| && Better(RunArc(runs[k]), current) && forall l :: 0 <= l < k ==> !Better(RunArc(runs[l]), current)
  }

  /** A run has the sectors of both ends of an arc, and is the whole circle if the arc wraps around. */
  predicate Encloses(run: Run, arc: DhtArc) {
    && arc.Arc? && run.Has(SectorOf(arc.start)) && run.Has(SectorOf(arc.end))
    && (arc.start > arc.end ==> run == Run(0, SECTORS - 1))
  }

  lemma SectorsInOrder(a: U32, b: U32)
    requires a <= b
    ensures SectorOf(a) <= SectorOf(b) < SECTORS
  {
  }

  lemma EnclosesIff(run: Run, arc: DhtArc)
    requires run.Valid() && arc.Arc?
    ensures (forall loc: U32 :: Covers(arc, loc) ==> Covers(RunArc(run), loc)) <==> Encloses(run, arc)
  {
    RunArcIs(run);
    if Encloses(run, arc) {
      forall loc: U32 | Covers(arc, loc)
        ensures run.Has(SectorOf(loc))
      {
        if arc.start <= arc.end {
          SectorsInOrder(arc.start, loc);
          SectorsInOrder(loc, arc.end);
        } else {
          SectorsInOrder(loc, MAX_LOC);
        }
      }
    } else {
      assert Covers(arc, arc.start) && Covers(arc, arc.end);
      assert arc.start > arc.end ==> Covers(arc, 0) && Covers(arc, MAX_LOC);
      assert SectorOf(0) == 0 && SectorOf(MAX_LOC) == SECTORS - 1;
    }
  }

  /** Whatever the current arc of an agent, aligned or not and wrapping or not, an update keeps all its
      locations if and only if it is not replaced, or the run it is replaced by encloses it. */
  lemma KeepsIff(runs: seq<Run>, current: DhtArc, next: DhtArc)
    requires current.Arc? && (forall k :: 0 <= k < |runs| ==> runs[k].Valid()) && Picked(runs, current, next)
    ensures (forall loc: U32 :: Covers(current, loc) ==> Covers(next, loc)) <==>
            (forall k: nat :: FirstBetter(runs, current, k) ==> Encloses(runs[k], current))
  {
    if exists k: nat :: FirstBetter(runs, current, k) {
      var k: nat :| FirstBetter(runs, current, k);
      EnclosesIff(runs[k], current);
      assert forall l: nat :: FirstBetter(runs, current, l) ==> l == k;
    } else {
      NoneBetter(runs, current, |runs|);
    }
  }

  lemma {:induction false} NoneBetter(runs: seq<Run>, current: DhtArc, n: nat)
    requires n <= |runs| && (forall k :: 0 <= k < |runs| ==> runs[k].Valid())
    requires forall k: nat :: !FirstBetter(runs, current, k)
    ensures forall k :: 0 <= k < n ==> !Better(RunArc(runs[k]), current)
  {
    if n > 0 {
      NoneBetter(runs, current, n - 1);
      assert !FirstBetter(runs, current, n - 1);
    }
  }

  const UNALIGNED: DhtArc := Arc(10 * SECTOR_SIZE + SECTOR_SIZE / 2, 11 * SECTOR_SIZE + SECTOR_SIZE / 2 - 1)

  lemma UnalignedClaim()
    ensures Union([RunArc(Run(9, 9))]) == {9} && WholeSectors(RunArc(Run(9, 9)))
    ensures WholeSectors(FULL) && WholeSectors(UNALIGNED) && FULL != UNALIGNED
    ensures Claimable(FULL, UNALIGNED, {9}) == {9, 10}
  {
    RunArcIs(Run(9, 9));
    UnionPush([], RunArc(Run(9, 9)));
    assert [] + [RunArc(Run(9, 9))] == [RunArc(Run(9, 9))];
    assert CoveredSectors(RunArc(Run(9, 9))) == {9};
    RunArcIs(Run(0, 511));
    assert RunArc(Run(0, 511)) == FULL;
    assert ArcSpan(UNALIGNED) / SECTOR_SIZE == 0;
    assert Around(UNALIGNED.start, 0) == 10;
    assert CoveredSectors(UNALIGNED) == {10};
  }

  lemma UnalignedLoss(runs: seq<Run>)
    requires RunsOf(runs, {9, 10})
    ensures FirstBetter(runs, UNALIGNED, 0) && !Encloses(runs[0], UNALIGNED)
  {
    var s: set<nat> := {9, 10};
    assert 9 in s && InSomeRun(runs, 9);
    var k :| 0 <= k < |runs| && runs[k].Has(9);
    RunAbsorbs(runs, s, k, Run(9, 10), 9);
    assert runs[0].Has(runs[0].lo) && runs[k].Has(runs[k].hi);
    assert k == 0 && runs[0] == Run(9, 10);
    RunArcIs(runs[0]);
    assert Covers(RunArc(runs[0]), UNALIGNED.start) && Covers(UNALIGNED, UNALIGNED.start);
    OverlapsIffShared(RunArc(runs[0]), UNALIGNED);
  }

  /** An arc that does not wrap may lose locations too, if it is not aligned: with half of sectors 10 and 11
      held and sector 9 in sync, the half of sector 11 is dropped. */
  method UnalignedArcLosesLocations() returns (next: DhtArc)
    ensures UNALIGNED.start <= UNALIGNED.end && exists loc: U32 :: Covers(UNALIGNED, loc) && !Covers(next, loc)
  {
    ghost var synced: set<nat> := {9};
    UnalignedClaim();
    var r, runs := NextArc(FULL, UNALIGNED, [RunArc(Run(9, 9))], synced);
    next := r.value;
    UnalignedLoss(runs);
    KeepsIff(runs, UNALIGNED, next);
  }

  // ---------------------------------------------------------------- arcs that wrap

  /** A current arc that wraps past the end of the circle keeps all its locations if and only if it is
      not replaced or everything may be claimed: any other replacement is cut at the end of the circle. */
  lemma WrappingKeepsIff(target: DhtArc, current: DhtArc, synced: set<nat>, runs: seq<Run>, next: DhtArc)
    requires current.Arc? && current.start > current.end && RunsOf(runs, Claimable(target, current, synced))
    requires Picked(runs, current, next)
    ensures (forall loc: U32 :: Covers(current, loc) ==> Covers(next, loc)) <==>
            (forall k :: 0 <= k < |runs| ==> !Better(RunArc(runs[k]), current)) || runs == [Run(0, SECTORS - 1)]
  {
    if next == current {
    } else {
      var k :| 0 <= k < |runs| && next == RunArc(runs[k]) && Better(next, current);
      RunArcIs(runs[k]);
      assert Covers(current, MAX_LOC) && Covers(current, 0);
      if forall loc: U32 :: Covers(current, loc) ==> Covers(next, loc) {
        assert Covers(next, MAX_LOC) && Covers(next, 0);
        assert runs[k] == Run(0, SECTORS - 1);
        FullRunIsAlone(runs, Claimable(target, current, synced), k);
      }
      if runs == [Run(0, SECTORS - 1)] {
        assert next == FULL;
      }
    }
  }

  lemma FullRunIsAlone(runs: seq<Run>, s: set<nat>, k: nat)
    requires RunsOf(runs, s) && k < |runs| && runs[k] == Run(0, SECTORS - 1)
    ensures runs == [Run(0, SECTORS - 1)]
  {
    var before, after := if k > 0 then k - 1 else k, if k + 1 < |runs| then k + 1 else k;
    assert runs[before].Valid() && runs[after].Valid();
  }

  const WRAPPING: DhtArc := Arc(511 * SECTOR_SIZE, SECTOR_SIZE - 1)

  lemma WrappingClaim()
    ensures Union([RunArc(Run(0, 2))]) == {0, 1, 2} && WholeSectors(RunArc(Run(0, 2)))
    ensures WholeSectors(FULL) && WholeSectors(WRAPPING) && FULL != WRAPPING
    ensures Claimable(FULL, WRAPPING, {0, 1, 2}) == {0, 1, 2, 511}
  {
    RunArcIs(Run(0, 2));
    UnionPush([], RunArc(Run(0, 2)));
    assert [] + [RunArc(Run(0, 2))] == [RunArc(Run(0, 2))];
    assert CoveredSectors(RunArc(Run(0, 2))) == {0, 1, 2};
    RunArcIs(Run(0, 511));
    assert RunArc(Run(0, 511)) == FULL;
    assert ArcSpan(WRAPPING) / SECTOR_SIZE == 1;
    assert Around(WRAPPING.start, 0) == 511 && Around(WRAPPING.start, 1) == 0;
  }

  lemma WrappingLoss(runs: seq<Run>)
    requires RunsOf(runs, {0, 1, 2, 511})
    ensures (exists k :: 0 <= k < |runs| && Better(RunArc(runs[k]), WRAPPING)) && runs != [Run(0, SECTORS - 1)]
  {
    var s: set<nat> := {0, 1, 2, 511};
    assert 1 in s && InSomeRun(runs, 1);
    var k :| 0 <= k < |runs| && runs[k].Has(1);
    RunAbsorbs(runs, s, k, Run(0, 2), 1);
    RunArcIs(runs[k]);
    assert Covers(RunArc(runs[k]), 0) && Covers(WRAPPING, 0);
    OverlapsIffShared(RunArc(runs[k]), WRAPPING);
    assert Better(RunArc(runs[k]), WRAPPING);
    assert !runs[0].Has(3);
  }

  /** Such a loss does happen: with sectors 511 and 0 held and sectors 0, 1 and 2 in sync, an agent whose
      target is the full arc drops some of its locations. */
  method WrappingArcLosesLocations() returns (next: DhtArc)
    ensures exists loc: U32 :: Covers(WRAPPING, loc) && !Covers(next, loc)
  {
    ghost var synced: set<nat> := {0, 1, 2};
    var syncedArcs := [RunArc(Run(0, 2))];
    WrappingClaim();
    var r, runs := NextArc(FULL, WRAPPING, syncedArcs, synced);
    next := r.value;
    WrappingLoss(runs);
    WrappingKeepsIff(FULL, WRAPPING, synced, runs, next);
  }
}
