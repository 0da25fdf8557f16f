/** One op more on one side: comparing the two DHTs leads to exactly the sector and slice of that op. */
module Pinpoint {
  import opened Combine
  import opened TimeLayout
  import opened LayoutLaws
  import opened Ops
  import opened SliceCache
  import opened Sectors
  import opened Snapshots
  import opened Comparison

  /** An extra op shows in a region exactly when it lies in it and either its id is not all zero or
      the region was empty. */
  lemma DiffersByOne(a: set<Op>, o: Op, arcs: set<nat>, lo: nat, hi: nat, len: nat)
    requires IdLength(a + {o}, len) && o !in a
    ensures Differ(a, a + {o}, arcs, lo, hi) <==>
            && SectorOf(o.loc) in arcs && lo <= o.createdAt < hi
            && (OpsOf(a, arcs, lo, hi) == {} || !AllZero(o.id))
  {
    var x := OpsOf(a, arcs, lo, hi);
    if SectorOf(o.loc) in arcs && lo <= o.createdAt < hi {
      assert OpsOf(a + {o}, arcs, lo, hi) == x + {o};
      SetHashEqualIff(x, x + {o}, len);
      assert (x - (x + {o})) + ((x + {o}) - x) == {o};
      SetHashAdd({}, o);
      assert {} + {o} == {o};
      XorUnit(o.id);
    } else {
      assert OpsOf(a + {o}, arcs, lo, hi) == x;
    }
  }

  lemma {:induction false} OnlyMismatch(a: seq<Hash>, b: seq<Hash>, from: nat, r: nat)
    requires from <= |a| == |b| && r < |a|
    requires forall k :: 0 <= k < |a| ==> (a[k] != b[k] <==> k == r)
    ensures HashMismatchIndices(a, b, from) == if from <= r then [r] else []
    decreases |a| - from
  {
    if from < |a| {
      OnlyMismatch(a, b, from + 1, r);
    }
  }

  /** An op in the full slices: disc mismatch, then its sector, then its slice, and nothing else. */
  lemma PinpointHistory(a: set<Op>, o: Op, arcs: set<nat>, factor: nat, count: nat, now: nat, len: nat)
    requires IdLength(a + {o}, len) && o !in a && !AllZero(o.id) && FullEnd(factor, count) <= now
    requires SectorOf(o.loc) in arcs && o.createdAt < FullEnd(factor, count)
    ensures var b, s := a + {o}, SectorOf(o.loc);
            && Compare(MinimalOf(a, arcs, factor, count, now), MinimalOf(b, arcs, factor, count, now)) == DiscMismatch
            && Compare(DiscSectorsOf(a, arcs, factor, count), DiscSectorsOf(b, arcs, factor, count)) ==
               DiscSectorMismatches({s})
            && Compare(DiscDetailsOf(a, arcs, {s}, factor, count), DiscDetailsOf(b, arcs, {s}, factor, count)) ==
               DiscSectorSliceMismatches(map[s := {Div(o.createdAt, SliceSize(factor))}])
  {
    var b, s, hi := a + {o}, SectorOf(o.loc), FullEnd(factor, count);
    DiffersByOne(a, o, arcs, 0, hi, len);
    CompareMinimal(a, b, arcs, factor, count, now);
    PinpointSector(a, o, arcs, factor, count, len);
    PinpointSlice(a, o, arcs, factor, count, len);
  }

  lemma PinpointSector(a: set<Op>, o: Op, arcs: set<nat>, factor: nat, count: nat, len: nat)
    requires IdLength(a + {o}, len) && o !in a && !AllZero(o.id)
    requires SectorOf(o.loc) in arcs && o.createdAt < FullEnd(factor, count)
    ensures Compare(DiscSectorsOf(a, arcs, factor, count), DiscSectorsOf(a + {o}, arcs, factor, count)) ==
            DiscSectorMismatches({SectorOf(o.loc)})
  {
    var b, s, hi := a + {o}, SectorOf(o.loc), FullEnd(factor, count);
    CompareDiscSectors(a, b, arcs, factor, count, len);
    var d := Compare(DiscSectorsOf(a, arcs, factor, count), DiscSectorsOf(b, arcs, factor, count));
    forall j: nat
      ensures NamedDiscSector(d, j) <==> j == s
    {
      DiffersByOne(a, o, {j}, 0, hi, len);
    }
    assert NamedDiscSector(d, s);
    assert forall j :: j in d.sectors ==> NamedDiscSector(d, j);
    assert d.sectors == {s};
  }

  lemma PinpointSlice(a: set<Op>, o: Op, arcs: set<nat>, factor: nat, count: nat, len: nat)
    requires IdLength(a + {o}, len) && o !in a && !AllZero(o.id)
    requires SectorOf(o.loc) in arcs && o.createdAt < FullEnd(factor, count)
    ensures var s := SectorOf(o.loc);
            Compare(DiscDetailsOf(a, arcs, {s}, factor, count), DiscDetailsOf(a + {o}, arcs, {s}, factor, count)) ==
            DiscSectorSliceMismatches(map[s := {Div(o.createdAt, SliceSize(factor))}])
  {
    var b, s, i := a + {o}, SectorOf(o.loc), Div(o.createdAt, SliceSize(factor));
    SliceMismatchesAre(a, b, s, factor, count, len);
    SliceIndexBelow(factor, o.createdAt, count);
    var x, y := SliceDetailsOf(a, s, factor, count), SliceDetailsOf(b, s, factor, count);
    forall k: nat
      ensures k in KeyMismatches(x, y) <==> k == i
    {
      SliceIndexIs(factor, o.createdAt, k);
      DiffersByOne(a, o, {s}, FullEnd(factor, k), FullEnd(factor, k + 1), len);
    }
    assert KeyMismatches(x, y) == {i};
    OneSector(a, arcs, s, factor, count);
    OneSector(b, arcs, s, factor, count);
    OneSectorDetails(s, x, y, i, FullEnd(factor, count));
  }

  lemma OneSector(ops: set<Op>, arcs: set<nat>, s: nat, factor: nat, count: nat)
    requires s in arcs
    ensures DiscDetailsOf(ops, arcs, {s}, factor, count) ==
            DiscSectorDetails(map[s := SliceDetailsOf(ops, s, factor, count)], FullEnd(factor, count))
  {
  }

  lemma OneRing(ops: set<Op>, arcs: set<nat>, slots: seq<Slot>, boundary: nat, r: nat)
    requires r < |slots|
    ensures RingDetailsOf(ops, arcs, {r}, slots, boundary) ==
            RingSectorDetails(map[r := RingSectorsOf(ops, arcs, slots[r])], boundary)
  {
  }

  lemma OneSectorDetails(s: nat, x: map<nat, Hash>, y: map<nat, Hash>, i: nat, boundary: nat)
    requires KeyMismatches(x, y) == {i}
    ensures Compare(DiscSectorDetails(map[s := x], boundary), DiscSectorDetails(map[s := y], boundary)) ==
            DiscSectorSliceMismatches(map[s := {i}])
    ensures Compare(RingSectorDetails(map[s := x], boundary), RingSectorDetails(map[s := y], boundary)) ==
            RingSectorMismatches(map[s := {i}])
  {
    assert i in KeyMismatches(x, y);
    assert map[s := x][s] != map[s := y][s];
  }

  /** The slot of a tiling that contains a time. */
  lemma {:induction false} SlotContaining(start: nat, slots: seq<Slot>, t: nat) returns (r: nat)
    requires Tiles(start, slots) && start <= t < LadderEnd(start, slots)
    ensures r < |slots| && forall k :: 0 <= k < |slots| ==> (slots[k].start <= t < slots[k].End() <==> k == r)
  {
    r := |slots| - 1;
    while t < slots[r].start
      invariant r < |slots| && t < slots[r].End()
    {
      r := r - 1;
    }
    forall k | 0 <= k < |slots|
      ensures slots[k].start <= t < slots[k].End() <==> k == r
    {
      if k < r {
        TilesOrdered(start, slots, k, r);
      } else if r < k {
        TilesOrdered(start, slots, r, k);
      }
    }
  }

  /** An op in the partial slices: the ring of its slice, then its sector, and nothing else. */
  lemma PinpointRecent(a: set<Op>, o: Op, arcs: set<nat>, factor: nat, count: nat, now: nat, len: nat) returns (r: nat)
    requires IdLength(a + {o}, len) && o !in a && !AllZero(o.id) && FullEnd(factor, count) <= now
    requires SectorOf(o.loc) in arcs && FullEnd(factor, count) <= o.createdAt < CoveredEnd(factor, count, now)
    ensures var slots := Partials(factor, count, now);
            && r < |slots| && slots[r].start <= o.createdAt < slots[r].End()
            && Compare(MinimalOf(a, arcs, factor, count, now), MinimalOf(a + {o}, arcs, factor, count, now)) ==
               RingMismatches([r])
            && Compare(RingDetailsOf(a, arcs, {r}, slots, FullEnd(factor, count)),
                       RingDetailsOf(a + {o}, arcs, {r}, slots, FullEnd(factor, count))) ==
               RingSectorMismatches(map[r := {SectorOf(o.loc)}])
  {
    var slots := Partials(factor, count, now);
    LadderGeometry(FullEnd(factor, count), now - FullEnd(factor, count), factor);
    r := SlotContaining(FullEnd(factor, count), slots, o.createdAt);
    PinpointRing(a, o, arcs, factor, count, now, slots, r, len);
    PinpointRingSector(a, o, arcs, slots, FullEnd(factor, count), r, len);
  }

  lemma PinpointRing(a: set<Op>, o: Op, arcs: set<nat>, factor: nat, count: nat, now: nat, slots: seq<Slot>, r: nat,
                     len: nat)
    requires IdLength(a + {o}, len) && o !in a && !AllZero(o.id) && FullEnd(factor, count) <= now
    requires SectorOf(o.loc) in arcs && FullEnd(factor, count) <= o.createdAt
    requires slots == Partials(factor, count, now) && r < |slots|
    requires forall k :: 0 <= k < |slots| ==> (slots[k].start <= o.createdAt < slots[k].End() <==> k == r)
    ensures Compare(MinimalOf(a, arcs, factor, count, now), MinimalOf(a + {o}, arcs, factor, count, now)) ==
            RingMismatches([r])
  {
    var b := a + {o};
    var x, y := RingTopsOf(a, arcs, slots), RingTopsOf(b, arcs, slots);
    forall k | 0 <= k < |slots|
      ensures x[k] != y[k] <==> k == r
    {
      DiffersByOne(a, o, arcs, slots[k].start, slots[k].End(), len);
    }
    OnlyMismatch(x, y, 0, r);
    DiffersByOne(a, o, arcs, 0, FullEnd(factor, count), len);
    assert x[r] != y[r];
  }

  lemma PinpointRingSector(a: set<Op>, o: Op, arcs: set<nat>, slots: seq<Slot>, boundary: nat, r: nat, len: nat)
    requires IdLength(a + {o}, len) && o !in a && !AllZero(o.id)
    requires SectorOf(o.loc) in arcs && r < |slots| && slots[r].start <= o.createdAt < slots[r].End()
    ensures Compare(RingDetailsOf(a, arcs, {r}, slots, boundary), RingDetailsOf(a + {o}, arcs, {r}, slots, boundary)) ==
            RingSectorMismatches(map[r := {SectorOf(o.loc)}])
  {
    var b, s := a + {o}, SectorOf(o.loc);
    var x, y := RingSectorsOf(a, arcs, slots[r]), RingSectorsOf(b, arcs, slots[r]);
    assert KeyMismatches(x, y) == {s} by {
      RingSectorMismatchesAre(a, b, arcs, slots, r, len);
      forall j: nat
        ensures j in KeyMismatches(x, y) <==> j == s
      {
        DiffersByOne(a, o, {j}, slots[r].start, slots[r].End(), len);
      }
    }
    OneRing(a, arcs, slots, boundary, r);
    OneRing(b, arcs, slots, boundary, r);
    OneSectorDetails(r, x, y, s, boundary);
  }

  /** An op outside the included sectors, or too recent for any slice, does not show. */
  lemma UnseenOp(a: set<Op>, o: Op, arcs: set<nat>, factor: nat, count: nat, now: nat, len: nat)
    requires IdLength(a + {o}, len) && o !in a && FullEnd(factor, count) <= now
    requires SectorOf(o.loc) !in arcs || o.createdAt >= CoveredEnd(factor, count, now)
    ensures MinimalOf(a, arcs, factor, count, now) == MinimalOf(a + {o}, arcs, factor, count, now)
  {
    var slots := Partials(factor, count, now);
    var start := FullEnd(factor, count);
    LadderGeometry(start, now - start, factor);
    var x, y := RingTopsOf(a, arcs, slots), RingTopsOf(a + {o}, arcs, slots);
    forall k | 0 <= k < |slots|
      ensures x[k] == y[k]
    {
      if k < |slots| - 1 {
        TilesOrdered(start, slots, k, |slots| - 1);
      }
      DiffersByOne(a, o, arcs, slots[k].start, slots[k].End(), len);
    }
    DiffersByOne(a, o, arcs, 0, start, len);
    assert x == y;
  }
}
