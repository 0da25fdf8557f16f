/** Sets of sectors made from arcs and turned back into arcs (crates/dht/src/arc_set.rs). */
module ArcSets {
  import opened Wrappers
  import opened Arcs
  import opened Sectors

  /** The sectors that `ArcSet::new` walks over for an arc. */
  function CoveredSectors(arc: DhtArc): set<nat> {
    if arc.Empty? then {}
    else set k: nat | k <= ArcSpan(arc) / SECTOR_SIZE :: Around(arc.start, k)
  }

  /** The sector `k` sectors clockwise of that of `start`. */
  function Around(start: U32, k: nat): nat {
    (start / SECTOR_SIZE + k) % SECTORS
  }

  /** An arc is accepted when its length is a whole number of sectors. */
  predicate WholeSectors(arc: DhtArc) {
    arc.Empty? || (ArcSpan(arc) + 1) % SECTOR_SIZE == 0
  }

  function Union(arcs: seq<DhtArc>): set<nat> {
    if arcs == [] then {} else Union(arcs[..|arcs| - 1]) + CoveredSectors(arcs[|arcs| - 1])
  }

  function Range(n: nat): set<nat> {
    if n == 0 then {} else Range(n - 1) + {n - 1}
  }

  lemma {:induction false} RangeMembers(n: nat)
    ensures |Range(n)| == n && forall j: nat :: j in Range(n) <==> j < n
  {
    if n > 0 {
      RangeMembers(n - 1);
    }
  }

  function AllSectors(): set<nat> {
    Range(SECTORS)
  }

  lemma {:induction false} UnionInRange(arcs: seq<DhtArc>)
    ensures Union(arcs) <= AllSectors()
  {
    RangeMembers(SECTORS);
    if arcs != [] {
      UnionInRange(arcs[..|arcs| - 1]);
    }
  }

  lemma {:induction false} UnionMonotone(arcs: seq<DhtArc>, k: nat)
    requires k <= |arcs|
    ensures Union(arcs[..k]) <= Union(arcs)
  {
    if k < |arcs| {
      var init := arcs[..|arcs| - 1];
      UnionMonotone(init, k);
      assert init[..k] == arcs[..k];
    } else {
      assert arcs[..k] == arcs;
    }
  }

  lemma FullIsAll(s: set<nat>)
    requires s <= AllSectors()
    ensures |s| <= SECTORS && (|s| == SECTORS <==> s == AllSectors())
  {
    RangeMembers(SECTORS);
    assert AllSectors() == s + (AllSectors() - s);
    assert |AllSectors()| == |s| + |AllSectors() - s|;
    assert |AllSectors() - s| == 0 ==> AllSectors() - s == {};
  }

  lemma CircleStep(x: nat)
    ensures (x + SECTOR_SIZE) % CIRCLE == (x % CIRCLE + SECTOR_SIZE) % CIRCLE
  {
    var q, r := x / CIRCLE, x % CIRCLE;
    assert x + SECTOR_SIZE == q * CIRCLE + (r + SECTOR_SIZE);
  }

  lemma NextSector(at: U32)
    ensures (at + SECTOR_SIZE) % CIRCLE / SECTOR_SIZE == (at / SECTOR_SIZE + 1) % SECTORS
  {
    var q, r := at / SECTOR_SIZE, at % SECTOR_SIZE;
    assert at == q * SECTOR_SIZE + r && q < SECTORS;
    if q == SECTORS - 1 {
      assert at + SECTOR_SIZE == CIRCLE + r;
    } else {
      assert at + SECTOR_SIZE == (q + 1) * SECTOR_SIZE + r < CIRCLE;
    }
  }

  lemma NextAround(start: U32, k: nat)
    ensures Around(start, k + 1) == (Around(start, k) + 1) % SECTORS
  {
  }

  lemma {:induction false} StepAround(start: U32, k: nat)
    ensures Clockwise(start, k * SECTOR_SIZE) / SECTOR_SIZE == Around(start, k)
    ensures Clockwise(Clockwise(start, k * SECTOR_SIZE), SECTOR_SIZE) == Clockwise(start, (k + 1) * SECTOR_SIZE)
    decreases k
  {
    CircleStep(start + k * SECTOR_SIZE);
    if k > 0 {
      var at := Clockwise(start, (k - 1) * SECTOR_SIZE);
      StepAround(start, k - 1);
      NextSector(at);
      NextAround(start, k - 1);
      assert Clockwise(start, k * SECTOR_SIZE) == (at + SECTOR_SIZE) % CIRCLE;
    }
  }

  /** The walk ends one past the end of the arc exactly when the arc is made of whole sectors. */
  lemma WalkEnds(arc: DhtArc)
    requires arc.Arc?
    ensures Clockwise(arc.start, (ArcSpan(arc) / SECTOR_SIZE + 1) * SECTOR_SIZE) == Clockwise(arc.end, 1) <==>
            WholeSectors(arc)
  {
  }

  /** Walks the sectors of one arc. */
  method AddArc(inner: set<nat>, start: U32, end: U32) returns (r: Result<set<nat>>)
    ensures r.Err? <==> !WholeSectors(Arc(start, end))
    ensures r.Ok? ==> r.value == inner + CoveredSectors(Arc(start, end))
  {
    var count := (if start > end then MAX_LOC - start + end + 1 else end - start) / SECTOR_SIZE + 1;
    var at: U32, sectors := start, inner;
    for n := 0 to count
      invariant at == Clockwise(start, n * SECTOR_SIZE)
      invariant sectors == inner + set k: nat | k < n :: Around(start, k)
    {
      StepAround(start, n);
      sectors := sectors + {at / SECTOR_SIZE};
      at := (at + SECTOR_SIZE) % CIRCLE;
    }
    WalkEnds(Arc(start, end));
    if at != (end + 1) % CIRCLE && !(end == MAX_LOC && at == 0) {
      return Err;
    }
    return Ok(sectors);
  }

  /** Walks the sectors of the next arc of a list. */
  method AddNext(inner: set<nat>, arcs: seq<DhtArc>, n: nat) returns (r: Result<set<nat>>)
    requires n < |arcs| && inner == Union(arcs[..n])
    ensures r.Err? <==> !WholeSectors(arcs[n])
    ensures r.Ok? ==> r.value == Union(arcs[..n + 1])
  {
    UnionPush(arcs, n);
    if arcs[n].Empty? {
      return Ok(inner);
    }
    r := AddArc(inner, arcs[n].start, arcs[n].end);
  }

  /** The set of sectors of a list of arcs: their union. It fails exactly when, before the set is
      full, it meets an arc that is not made of whole sectors. */
  method New(arcs: seq<DhtArc>) returns (r: Result<set<nat>>)
    ensures r.Err? <==> MeetsBad(arcs)
    ensures r.Ok? ==> r.value == Union(arcs)
  {
    var inner, n, bad := AddUntil(arcs);
    if bad {
      assert FirstBad(arcs, n);
      return Err;
    }
    if n < |arcs| {
      StoppedFull(arcs, n);
    } else {
      assert arcs[..n] == arcs;
      NoneBad(arcs);
    }
    return Ok(inner);
  }

  /** Adds arcs until the set is full, or an arc is not made of whole sectors, or there are no more. */
  method AddUntil(arcs: seq<DhtArc>) returns (inner: set<nat>, n: nat, bad: bool)
    ensures n <= |arcs| && inner == Union(arcs[..n]) && AllWhole(arcs, n)
    ensures bad ==> n < |arcs| && |inner| != SECTORS && !WholeSectors(arcs[n])
    ensures !bad ==> n == |arcs| || |inner| == SECTORS
  {
    inner, n, bad := {}, 0, false;
    while n < |arcs| && |inner| != SECTORS
      invariant n <= |arcs| && inner == Union(arcs[..n]) && AllWhole(arcs, n)
    {
      var added := AddNext(inner, arcs, n);
      if added.Err? {
        bad := true;
        return;
      }
      inner, n := added.value, n + 1;
    }
  }

  predicate AllWhole(arcs: seq<DhtArc>, n: nat)
    requires n <= |arcs|
  {
    forall k :: 0 <= k < n ==> WholeSectors(arcs[k])
  }

  lemma NoneBad(arcs: seq<DhtArc>)
    requires AllWhole(arcs, |arcs|)
    ensures !MeetsBad(arcs)
  {
  }

  /** The first arc that is not made of whole sectors, met before the set is full. */
  predicate FirstBad(arcs: seq<DhtArc>, k: nat)
    requires k < |arcs|
  {
    !WholeSectors(arcs[k]) && (forall i :: 0 <= i < k ==> WholeSectors(arcs[i])) && |Union(arcs[..k])| != SECTORS
  }

  ghost predicate MeetsBad(arcs: seq<DhtArc>) {
    exists k :: 0 <= k < |arcs| && FirstBad(arcs, k)
  }

  lemma UnionPush(arcs: seq<DhtArc>, n: nat)
    requires n < |arcs|
    ensures Union(arcs[..n + 1]) == Union(arcs[..n]) + CoveredSectors(arcs[n])
    ensures arcs[n].Empty? ==> Union(arcs[..n + 1]) == Union(arcs[..n])
  {
    assert arcs[..n + 1][..n] == arcs[..n];
  }

  lemma StoppedFull(arcs: seq<DhtArc>, n: nat)
    requires n < |arcs| && |Union(arcs[..n])| == SECTORS && AllWhole(arcs, n)
    ensures Union(arcs[..n]) == Union(arcs)
    ensures !MeetsBad(arcs)
  {
    UnionInRange(arcs);
    UnionInRange(arcs[..n]);
    UnionMonotone(arcs, n);
    FullIsAll(Union(arcs[..n]));
    forall k | n <= k < |arcs|
      ensures |Union(arcs[..k])| == SECTORS
    {
      UnionMonotone(arcs[..k], n);
      assert arcs[..k][..n] == arcs[..n];
      UnionInRange(arcs[..k]);
      FullIsAll(Union(arcs[..k]));
    }
  }

  /** For an accepted arc, looking at sectors is the same as looking at locations if and only if the
      arc starts at a sector boundary or covers the whole circle. */
  lemma LocationsMatchIff(arc: DhtArc)
    requires WholeSectors(arc)
    ensures (forall loc: U32 :: Covers(arc, loc) <==> SectorOf(loc) in CoveredSectors(arc)) <==>
            arc.Empty? || arc.start % SECTOR_SIZE == 0 || ArcSpan(arc) == MAX_LOC
  {
    if arc.Empty? {
    } else if arc.start % SECTOR_SIZE == 0 || ArcSpan(arc) == MAX_LOC {
      forall loc: U32
        ensures Covers(arc, loc) <==> SectorOf(loc) in CoveredSectors(arc)
      {
        LocationMatches(arc, loc);
      }
    } else {
      var loc: U32 := arc.start - 1;
      assert SectorOf(loc) == Around(arc.start, 0);
      assert SectorOf(loc) in CoveredSectors(arc) && !Covers(arc, loc);
    }
  }

  lemma LocationMatches(arc: DhtArc, loc: U32)
    requires arc.Arc? && WholeSectors(arc) && (arc.start % SECTOR_SIZE == 0 || ArcSpan(arc) == MAX_LOC)
    ensures Covers(arc, loc) <==> SectorOf(loc) in CoveredSectors(arc)
  {
    if SectorOf(loc) in CoveredSectors(arc) {
      CoveredSectorCovers(arc, loc);
    }
    if Covers(arc, loc) {
      var first, last := arc.start / SECTOR_SIZE, ArcSpan(arc) / SECTOR_SIZE;
      var k := if SectorOf(loc) >= first then SectorOf(loc) - first else SectorOf(loc) + SECTORS - first;
      assert Around(arc.start, k) == SectorOf(loc);
      assert k <= last;
    }
  }

  lemma CoveredSectorCovers(arc: DhtArc, loc: U32)
    requires arc.Arc? && WholeSectors(arc) && (arc.start % SECTOR_SIZE == 0 || ArcSpan(arc) == MAX_LOC)
    requires SectorOf(loc) in CoveredSectors(arc)
    ensures Covers(arc, loc)
  {
    var first, last := arc.start / SECTOR_SIZE, ArcSpan(arc) / SECTOR_SIZE;
    var k: nat :| k <= last && SectorOf(loc) == Around(arc.start, k);
    assert first + k < SECTORS ==> SectorOf(loc) == first + k;
    assert first + k >= SECTORS ==> SectorOf(loc) == first + k - SECTORS;
  }
}
