/** Comparing the snapshots of two DHTs (crates/dht/src/dht/snapshot.rs). Lists that the original
    gathers out of hash sets, in no particular order, are sets here. */
module Comparison {
  import opened Combine
  import opened TimeLayout
  import opened LayoutLaws
  import opened Ops
  import opened SliceCache
  import opened Snapshots
  import opened Sorting

  datatype SnapshotDiff =
    | Identical
    | CannotCompare
    | DiscMismatch
    | DiscSectorMismatches(sectors: set<nat>)
    | DiscSectorSliceMismatches(slices: map<nat, set<nat>>)
    | RingMismatches(rings: seq<nat>)
    | RingSectorMismatches(sectors': map<nat, set<nat>>)

  /** The keys that only one map has, or that the maps give different values. */
  function KeyMismatches<V(==)>(a: map<nat, V>, b: map<nat, V>): set<nat> {
    (set k | k in a && k !in b) + (set k | k in b && k !in a) + (set k | k in a && k in b && a[k] != b[k])
  }

  /** The indices at which two lists of hashes differ, in order. */
  function HashMismatchIndices(a: seq<Hash>, b: seq<Hash>, from: nat): seq<nat>
    requires from <= |a| == |b|
    decreases |a| - from
  {
    if from == |a| then []
    else (if a[from] != b[from] then [from] else []) + HashMismatchIndices(a, b, from + 1)
  }

  /** The slices to look at in a sector: all of those known to the one side that has the sector, or
      the mismatched ones. */
  function SliceMismatches(ours: map<nat, map<nat, Hash>>, theirs: map<nat, map<nat, Hash>>, j: nat): set<nat>
    requires j in ours || j in theirs
  {
    if j in ours && j in theirs then KeyMismatches(ours[j], theirs[j])
    else if j in ours then ours[j].Keys
    else theirs[j].Keys
  }

  /** `DhtSnapshot::compare`. */
  function Compare(ours: Snapshot, theirs: Snapshot): SnapshotDiff {
    if ours == theirs then Identical
    else
      match (ours, theirs)
      case (Minimal(disc, boundary, rings), Minimal(disc', boundary', rings')) =>
        if boundary != boundary' then CannotCompare
        else if disc != disc' then DiscMismatch
        else if |rings| != |rings'| then CannotCompare
        else RingMismatches(HashMismatchIndices(rings, rings', 0))
      case (DiscSectors(tops, boundary), DiscSectors(tops', boundary')) =>
        if boundary != boundary' then CannotCompare
        else DiscSectorMismatches(KeyMismatches(tops, tops'))
      case (DiscSectorDetails(slices, boundary), DiscSectorDetails(slices', boundary')) =>
        if boundary != boundary' then CannotCompare
        else
          DiscSectorSliceMismatches(
            map j | j in slices.Keys + slices'.Keys &&
                    (j !in slices || j !in slices' || SliceMismatches(slices, slices', j) != {}) ::
              SliceMismatches(slices, slices', j))
      case (RingSectorDetails(rings, boundary), RingSectorDetails(rings', boundary')) =>
        if boundary != boundary' then CannotCompare
        else if rings.Keys != rings'.Keys then CannotCompare
        else RingSectorMismatches(map r | r in rings && r in rings' :: KeyMismatches(rings[r], rings'[r]))
      case _ => CannotCompare
  }

  lemma {:induction false} HashMismatchIndicesAre(a: seq<Hash>, b: seq<Hash>, from: nat, r: nat)
    requires from <= |a| == |b|
    ensures r in HashMismatchIndices(a, b, from) <==> from <= r < |a| && a[r] != b[r]
    decreases |a| - from
  {
    if from < |a| {
      HashMismatchIndicesAre(a, b, from + 1, r);
    }
  }

  // ---------------------------------------------------------------- any two snapshots

  /** Two snapshots say nothing about each other: they are of different kinds or have different boundaries, or they
      have equal histories but a different number of rings, or details of different rings. */
  predicate OutOfStep(ours: Snapshot, theirs: Snapshot) {
    match (ours, theirs)
    case (Minimal(disc, boundary, rings), Minimal(disc', boundary', rings')) =>
      boundary != boundary' || (disc == disc' && |rings| != |rings'|)
    case (DiscSectors(_, boundary), DiscSectors(_, boundary')) => boundary != boundary'
    case (DiscSectorDetails(_, boundary), DiscSectorDetails(_, boundary')) => boundary != boundary'
    case (RingSectorDetails(rings, boundary), RingSectorDetails(rings', boundary')) =>
      boundary != boundary' || rings.Keys != rings'.Keys
    case _ => true
  }

  /** Such snapshots, and no others, are answered by saying so; equal ones, and no others, are identical; and a
      history mismatch is reported exactly for minimal snapshots of one boundary with different histories. */
  lemma CompareAnswers(ours: Snapshot, theirs: Snapshot)
    ensures Compare(ours, theirs).CannotCompare? <==> OutOfStep(ours, theirs)
    ensures Compare(ours, theirs).Identical? <==> ours == theirs
    ensures Compare(ours, theirs).DiscMismatch? <==>
            ours.Minimal? && theirs.Minimal? && ours.boundary == theirs.boundary && ours.discTop != theirs.discTop
  {
  }

  /** Exactly one of two maps has a key, or they give it different values. */
  predicate KeyDiffers<V(==)>(a: map<nat, V>, b: map<nat, V>, k: nat) {
    if k in a && k in b then a[k] != b[k] else k in a || k in b
  }

  /** For any two comparable snapshots, whatever their content, exactly the rings, sectors and slices are named
      where they differ. A sector that only one side has is named with all slices that side knows. */
  lemma CompareNames(ours: Snapshot, theirs: Snapshot)
    requires !OutOfStep(ours, theirs) && ours != theirs
    ensures ours.Minimal? && ours.discTop == theirs.discTop ==>
              var d := Compare(ours, theirs);
              && d.RingMismatches? && Ascending(d.rings)
              && forall r: nat :: r in d.rings <==> r < |ours.ringTops| && ours.ringTops[r] != theirs.ringTops[r]
    ensures ours.DiscSectors? ==>
              var d := Compare(ours, theirs);
              d.DiscSectorMismatches? && forall j: nat :: j in d.sectors <==> KeyDiffers(ours.tops, theirs.tops, j)
    ensures ours.DiscSectorDetails? ==>
              var d := Compare(ours, theirs);
              && d.DiscSectorSliceMismatches?
              && (forall j: nat :: j in d.slices <==> KeyDiffers(ours.slices, theirs.slices, j))
              && (forall j: nat, i: nat :: j in d.slices ==>
                    (i in d.slices[j] <==> SliceNamed(ours.slices, theirs.slices, j, i)))
    ensures ours.RingSectorDetails? ==>
              var d := Compare(ours, theirs);
              && d.RingSectorMismatches? && d.sectors'.Keys == ours.rings.Keys
              && (forall r: nat, j: nat :: r in d.sectors' ==>
                    (j in d.sectors'[r] <==> KeyDiffers(ours.rings[r], theirs.rings[r], j)))
  {
    match (ours, theirs) {
      case (Minimal(_, _, rings), Minimal(_, _, rings')) =>
        if ours.discTop == theirs.discTop {
          HashMismatchIndicesAscend(rings, rings', 0);
          forall r: nat
            ensures r in HashMismatchIndices(rings, rings', 0) <==> r < |rings| && rings[r] != rings'[r]
          {
            HashMismatchIndicesAre(rings, rings', 0, r);
          }
        }
      case (DiscSectorDetails(slices, _), DiscSectorDetails(slices', _)) =>
        forall j: nat | j in slices && j in slices'
          ensures KeyMismatches(slices[j], slices'[j]) == {} <==> slices[j] == slices'[j]
        {
          MapsDiffer(slices[j], slices'[j]);
        }
      case _ =>
    }
  }

  /** A slice to look at: where the slices of both sides differ, or any that the only side has. */
  predicate SliceNamed(a: map<nat, map<nat, Hash>>, b: map<nat, map<nat, Hash>>, j: nat, i: nat) {
    if j in a && j in b then KeyDiffers(a[j], b[j], i) else (j in a && i in a[j]) || (j in b && i in b[j])
  }

  lemma MapsDiffer(a: map<nat, Hash>, b: map<nat, Hash>)
    ensures KeyMismatches(a, b) == {} <==> a == b
  {
    if KeyMismatches(a, b) == {} {
      forall k: nat
        ensures k in a <==> k in b
        ensures k in a && k in b ==> a[k] == b[k]
      {
        assert k !in KeyMismatches(a, b);
      }
    }
  }

  lemma {:induction false} HashMismatchIndicesAscend(a: seq<Hash>, b: seq<Hash>, from: nat)
    requires from <= |a| == |b|
    ensures Ascending(HashMismatchIndices(a, b, from))
    ensures forall i :: 0 <= i < |HashMismatchIndices(a, b, from)| ==> HashMismatchIndices(a, b, from)[i] >= from
    decreases |a| - from
  {
    if from < |a| {
      HashMismatchIndicesAscend(a, b, from + 1);
    }
  }

  /** It does not matter which side compares. */
  lemma CompareIsSymmetric(ours: Snapshot, theirs: Snapshot)
    ensures Compare(ours, theirs) == Compare(theirs, ours)
  {
    if !OutOfStep(ours, theirs) && ours.Minimal? && ours.discTop == theirs.discTop {
      SymmetricIndices(ours.ringTops, theirs.ringTops, 0);
    }
    if !OutOfStep(ours, theirs) && ours.DiscSectorDetails? && ours != theirs {
      CompareNames(ours, theirs);
      CompareNames(theirs, ours);
      var d, d' := Compare(ours, theirs).slices, Compare(theirs, ours).slices;
      forall j | j in d
        ensures j in d' && d[j] == d'[j]
      {
      }
      assert d == d';
    }
    if !OutOfStep(ours, theirs) && ours.RingSectorDetails? && ours != theirs {
      var d, d' := Compare(ours, theirs).sectors', Compare(theirs, ours).sectors';
      assert d.Keys == d'.Keys;
      assert forall r :: r in d ==> d[r] == d'[r];
    }
  }

  lemma {:induction false} SymmetricIndices(a: seq<Hash>, b: seq<Hash>, from: nat)
    requires from <= |a| == |b|
    ensures HashMismatchIndices(a, b, from) == HashMismatchIndices(b, a, from)
    decreases |a| - from
  {
    if from < |a| {
      SymmetricIndices(a, b, from + 1);
    }
  }

  /** Nodes whose full slices do not end together never start on history: their minimal snapshots cannot be
      compared, whatever they hold; nor can they if one has passed a unit boundary more and their histories agree. */
  lemma NodesOutOfStep(a: set<Op>, b: set<Op>, arcs: set<nat>, factor: nat, count: nat, now: nat,
                       count': nat, now': nat)
    requires FullEnd(factor, count) <= now && FullEnd(factor, count') <= now'
    ensures var d := Compare(MinimalOf(a, arcs, factor, count, now), MinimalOf(b, arcs, factor, count', now'));
            && (count != count' ==> d == CannotCompare)
            && (count == count' && |Partials(factor, count, now)| != |Partials(factor, count', now')| ==>
                  if Differ(a, b, arcs, 0, FullEnd(factor, count)) then d == DiscMismatch else d == CannotCompare)
  {
    if count < count' {
      FullEndMonotone(factor, count, count');
    } else if count' < count {
      FullEndMonotone(factor, count', count);
    }
  }

  // ---------------------------------------------------------------- two sets of ops at one time

  /** The op sets of two DHTs have different hashes in a region. */
  ghost predicate Differ(a: set<Op>, b: set<Op>, arcs: set<nat>, lo: nat, hi: nat) {
    SetHash(OpsOf(a, arcs, lo, hi)) != SetHash(OpsOf(b, arcs, lo, hi))
  }

  lemma DifferIff(a: set<Op>, b: set<Op>, arcs: set<nat>, lo: nat, hi: nat, len: nat)
    requires IdLength(a, len) && IdLength(b, len)
    ensures Differ(a, b, arcs, lo, hi) <==>
            || !(OpsOf(a, arcs, lo, hi) == {} <==> OpsOf(b, arcs, lo, hi) == {})
            || !AllZero(SetHash(OpsOf(a - b, arcs, lo, hi) + OpsOf(b - a, arcs, lo, hi)))
  {
    var x, y := OpsOf(a, arcs, lo, hi), OpsOf(b, arcs, lo, hi);
    SetHashEqualIff(x, y, len);
    assert x - y == OpsOf(a - b, arcs, lo, hi) && y - x == OpsOf(b - a, arcs, lo, hi);
  }

  lemma CompareMinimalValues(disc: Hash, disc': Hash, boundary: nat, rings: seq<Hash>, rings': seq<Hash>)
    requires |rings| == |rings'|
    ensures var d := Compare(Minimal(disc, boundary, rings), Minimal(disc', boundary, rings'));
            && (d.DiscMismatch? <==> disc != disc')
            && (d.Identical? <==> disc == disc' && rings == rings')
            && (d.RingMismatches? <==> disc == disc' && rings != rings')
            && (d.RingMismatches? ==> forall r :: r in d.rings <==> 0 <= r < |rings| && rings[r] != rings'[r])
  {
    forall r: nat
      ensures r in HashMismatchIndices(rings, rings', 0) <==> 0 <= r < |rings| && rings[r] != rings'[r]
    {
      HashMismatchIndicesAre(rings, rings', 0, r);
    }
  }

  /** The rings of recent time in which two op sets differ. */
  ghost predicate RingDiffers(a: set<Op>, b: set<Op>, arcs: set<nat>, slots: seq<Slot>, r: nat) {
    r < |slots| && Differ(a, b, arcs, slots[r].start, slots[r].End())
  }

  /** First step: the minimal snapshots of two op sets compare as a disc mismatch exactly when the
      histories differ, and otherwise name exactly the rings that differ. */
  lemma CompareMinimal(a: set<Op>, b: set<Op>, arcs: set<nat>, factor: nat, count: nat, now: nat)
    requires FullEnd(factor, count) <= now
    ensures var d := Compare(MinimalOf(a, arcs, factor, count, now), MinimalOf(b, arcs, factor, count, now));
            var slots := Partials(factor, count, now);
            && (d.DiscMismatch? <==> Differ(a, b, arcs, 0, FullEnd(factor, count)))
            && (d.DiscMismatch? || d.Identical? || d.RingMismatches?)
            && (d.Identical? ==> forall r: nat :: !RingDiffers(a, b, arcs, slots, r))
            && (d.RingMismatches? ==>
                  d.rings != [] && forall r: nat :: r in d.rings <==> RingDiffers(a, b, arcs, slots, r))
  {
    var slots := Partials(factor, count, now);
    var x, y := RingTopsOf(a, arcs, slots), RingTopsOf(b, arcs, slots);
    CompareMinimalValues(SetHash(OpsOf(a, arcs, 0, FullEnd(factor, count))),
                         SetHash(OpsOf(b, arcs, 0, FullEnd(factor, count))),
                         FullEnd(factor, count), x, y);
    forall r: nat
      ensures RingDiffers(a, b, arcs, slots, r) <==> r < |slots| && x[r] != y[r]
    {
    }
    if x != y {
      var r: nat :| r < |x| && x[r] != y[r];
      HashMismatchIndicesAre(x, y, 0, r);
    }
  }

  /** Maps of the non-empty hashes of sets mismatch exactly where the hashes of the sets differ. */
  lemma HashMapMismatch(x: map<nat, Hash>, y: map<nat, Hash>, k: nat, in': bool, a: set<Op>, b: set<Op>, len: nat)
    requires IdLength(a, len) && IdLength(b, len)
    requires (k in x <==> in' && a != {}) && (k in x ==> x[k] == SetHash(a))
    requires (k in y <==> in' && b != {}) && (k in y ==> y[k] == SetHash(b))
    ensures k in KeyMismatches(x, y) <==> in' && SetHash(a) != SetHash(b)
  {
    SetHashLength(a, len);
    SetHashLength(b, len);
  }

  /** A comparison of disc sectors names a sector. */
  predicate NamedDiscSector(d: SnapshotDiff, j: nat) {
    d.DiscSectorMismatches? && j in d.sectors
  }

  /** A comparison of disc sector details names a slice of a sector. */
  predicate NamedSlice(d: SnapshotDiff, j: nat, i: nat) {
    d.DiscSectorSliceMismatches? && j in d.slices && i in d.slices[j]
  }

  /** Second step for history: exactly the sectors that differ are named. */
  lemma CompareDiscSectors(a: set<Op>, b: set<Op>, arcs: set<nat>, factor: nat, count: nat, len: nat)
    requires IdLength(a, len) && IdLength(b, len)
    ensures var d := Compare(DiscSectorsOf(a, arcs, factor, count), DiscSectorsOf(b, arcs, factor, count));
            && (d.Identical? || d.DiscSectorMismatches?)
            && forall j :: NamedDiscSector(d, j) <==>
                           j in arcs && Differ(a, b, {j}, 0, FullEnd(factor, count))
  {
    var hi := FullEnd(factor, count);
    var x, y := DiscSectorsOf(a, arcs, factor, count).tops, DiscSectorsOf(b, arcs, factor, count).tops;
    forall j: nat
      ensures j in KeyMismatches(x, y) <==> j in arcs && Differ(a, b, {j}, 0, hi)
    {
      HashMapMismatch(x, y, j, j in arcs, OpsOf(a, {j}, 0, hi), OpsOf(b, {j}, 0, hi), len);
    }
    assert x == y ==> KeyMismatches(x, y) == {};
  }

  ghost predicate SliceDiffers(a: set<Op>, b: set<Op>, j: nat, factor: nat, count: nat, i: nat) {
    i < count && SetHash(DiscSlice(a, j, factor, i)) != SetHash(DiscSlice(b, j, factor, i))
  }

  lemma SliceMismatchesAre(a: set<Op>, b: set<Op>, j: nat, factor: nat, count: nat, len: nat)
    requires IdLength(a, len) && IdLength(b, len)
    ensures forall i: nat ::
              i in KeyMismatches(SliceDetailsOf(a, j, factor, count), SliceDetailsOf(b, j, factor, count)) <==>
              SliceDiffers(a, b, j, factor, count, i)
  {
    var x, y := SliceDetailsOf(a, j, factor, count), SliceDetailsOf(b, j, factor, count);
    forall i: nat
      ensures i in KeyMismatches(x, y) <==> SliceDiffers(a, b, j, factor, count, i)
    {
      HashMapMismatch(x, y, i, i < count, DiscSlice(a, j, factor, i), DiscSlice(b, j, factor, i), len);
    }
  }

  /** Third step for history: exactly the slices that differ, in the wanted sectors, are named. */
  lemma CompareDiscDetails(a: set<Op>, b: set<Op>, arcs: set<nat>, wanted: set<nat>, factor: nat, count: nat, len: nat)
    requires IdLength(a, len) && IdLength(b, len)
    ensures var d := Compare(DiscDetailsOf(a, arcs, wanted, factor, count),
                             DiscDetailsOf(b, arcs, wanted, factor, count));
            && (d.Identical? || d.DiscSectorSliceMismatches?)
            && forall j, i: nat :: NamedSlice(d, j, i) <==>
                                   j in arcs && j in wanted && SliceDiffers(a, b, j, factor, count, i)
  {
    var x := DiscDetailsOf(a, arcs, wanted, factor, count).slices;
    var y := DiscDetailsOf(b, arcs, wanted, factor, count).slices;
    forall j: nat | j in arcs && j in wanted
      ensures forall i: nat :: i in SliceMismatches(x, y, j) <==> SliceDiffers(a, b, j, factor, count, i)
    {
      SliceMismatchesAre(a, b, j, factor, count, len);
    }
    if x == y {
      forall j: nat, i: nat | j in arcs && j in wanted
        ensures !SliceDiffers(a, b, j, factor, count, i)
      {
        assert i !in SliceMismatches(x, y, j);
      }
    }
  }

  /** Second step for recent time: in the wanted rings, exactly the sectors that differ are named. */
  lemma CompareRingDetails(a: set<Op>, b: set<Op>, arcs: set<nat>, wanted: set<nat>, slots: seq<Slot>, boundary: nat,
                           len: nat)
    requires IdLength(a, len) && IdLength(b, len)
    requires forall r :: r in wanted ==> r < |slots|
    ensures var d := Compare(RingDetailsOf(a, arcs, wanted, slots, boundary),
                             RingDetailsOf(b, arcs, wanted, slots, boundary));
            && (d.Identical? || d.RingSectorMismatches?)
            && forall r, j: nat :: NamedSector(d, r, j) <==>
                                   r in wanted && j in arcs && RingDiffers(a, b, {j}, slots, r)
  {
    var x := RingDetailsOf(a, arcs, wanted, slots, boundary).rings;
    var y := RingDetailsOf(b, arcs, wanted, slots, boundary).rings;
    CompareRingValues(x, y, boundary);
    var d := Compare(RingSectorDetails(x, boundary), RingSectorDetails(y, boundary));
    forall r: nat, j: nat
      ensures NamedSector(d, r, j) <==> r in wanted && j in arcs && RingDiffers(a, b, {j}, slots, r)
    {
      assert NamedSector(d, r, j) <==> r in x && j in KeyMismatches(x[r], y[r]);
      if r in wanted {
        RingSectorMismatchesAre(a, b, arcs, slots, r, len);
      }
    }
  }

  /** A comparison of ring details names a sector of a ring. */
  predicate NamedSector(d: SnapshotDiff, r: nat, j: nat) {
    d.RingSectorMismatches? && r in d.sectors' && j in d.sectors'[r]
  }

  lemma CompareRingValues(x: map<nat, map<nat, Hash>>, y: map<nat, map<nat, Hash>>, boundary: nat)
    requires x.Keys == y.Keys
    ensures var d := Compare(RingSectorDetails(x, boundary), RingSectorDetails(y, boundary));
            && (d.Identical? || d.RingSectorMismatches?)
            && forall r, j: nat :: NamedSector(d, r, j) <==> r in x && j in KeyMismatches(x[r], y[r])
  {
  }

  lemma RingSectorMismatchesAre(a: set<Op>, b: set<Op>, arcs: set<nat>, slots: seq<Slot>, r: nat, len: nat)
    requires IdLength(a, len) && IdLength(b, len) && r < |slots|
    ensures forall j: nat :: j in KeyMismatches(RingSectorsOf(a, arcs, slots[r]), RingSectorsOf(b, arcs, slots[r])) <==>
                             j in arcs && RingDiffers(a, b, {j}, slots, r)
  {
    var lo, hi := slots[r].start, slots[r].End();
    var x, y := RingSectorsOf(a, arcs, slots[r]), RingSectorsOf(b, arcs, slots[r]);
    forall j: nat
      ensures j in KeyMismatches(x, y) <==> j in arcs && Differ(a, b, {j}, lo, hi)
    {
      HashMapMismatch(x, y, j, j in arcs, OpsOf(a, {j}, lo, hi), OpsOf(b, {j}, lo, hi), len);
    }
  }
}
