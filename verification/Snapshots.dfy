/** What a snapshot of the DHT says about the plain set of ops it stands for
    (crates/dht/src/dht/snapshot.rs, crates/dht/src/hash.rs). */
module Snapshots {
  import opened Combine
  import opened Arcs
  import opened TimeLayout
  import opened LayoutLaws
  import opened Ops
  import opened Sectors

  datatype Snapshot =
    | Minimal(discTop: Hash, boundary: nat, ringTops: seq<Hash>)
    | DiscSectors(tops: map<nat, Hash>, boundary: nat)
    | DiscSectorDetails(slices: map<nat, map<nat, Hash>>, boundary: nat)
    | RingSectorDetails(rings: map<nat, map<nat, Hash>>, boundary: nat)

  /** The ops of a set of sectors created from `lo` until before `hi`. */
  ghost function OpsOf(ops: set<Op>, arcs: set<nat>, lo: nat, hi: nat): set<Op> {
    set o | o in ops && SectorOf(o.loc) in arcs && lo <= o.createdAt < hi
  }

  /** The minimal snapshot of a set of ops: one hash for all history, one for each ring of recent time. */
  ghost function MinimalOf(ops: set<Op>, arcs: set<nat>, factor: nat, count: nat, now: nat): Snapshot
    requires FullEnd(factor, count) <= now
  {
    Minimal(SetHash(OpsOf(ops, arcs, 0, FullEnd(factor, count))), FullEnd(factor, count),
            RingTopsOf(ops, arcs, Partials(factor, count, now)))
  }

  ghost function RingTopsOf(ops: set<Op>, arcs: set<nat>, slots: seq<Slot>): seq<Hash> {
    seq(|slots|, r requires 0 <= r < |slots| => RingTop(ops, arcs, slots[r]))
  }

  ghost function RingTop(ops: set<Op>, arcs: set<nat>, slot: Slot): Hash {
    SetHash(OpsOf(ops, arcs, slot.start, slot.End()))
  }

  /** The hash of the history of each sector that has any. */
  ghost function DiscSectorsOf(ops: set<Op>, arcs: set<nat>, factor: nat, count: nat): Snapshot {
    DiscSectors(HashesBySector(ops, arcs, 0, FullEnd(factor, count)), FullEnd(factor, count))
  }

  /** The hash of each sector that holds ops of an interval. */
  ghost function HashesBySector(ops: set<Op>, arcs: set<nat>, lo: nat, hi: nat): map<nat, Hash> {
    map j | j in arcs && OpsOf(ops, {j}, lo, hi) != {} :: SetHash(OpsOf(ops, {j}, lo, hi))
  }

  /** The hash of each full slice that holds ops, for the wanted sectors. */
  ghost function DiscDetailsOf(ops: set<Op>, arcs: set<nat>, wanted: set<nat>, factor: nat, count: nat): Snapshot {
    DiscSectorDetails(DetailsBySector(ops, arcs, wanted, factor, count), FullEnd(factor, count))
  }

  ghost function DetailsBySector(ops: set<Op>, arcs: set<nat>, wanted: set<nat>, factor: nat, count: nat)
      : map<nat, map<nat, Hash>>
  {
    map j | j in arcs && j in wanted :: SliceDetailsOf(ops, j, factor, count)
  }

  ghost function SliceDetailsOf(ops: set<Op>, sector: nat, factor: nat, count: nat): map<nat, Hash> {
    map i: nat | 0 <= i < count && DiscSlice(ops, sector, factor, i) != {} :: SetHash(DiscSlice(ops, sector, factor, i))
  }

  ghost function DiscSlice(ops: set<Op>, sector: nat, factor: nat, i: nat): set<Op> {
    OpsOf(ops, {sector}, FullEnd(factor, i), FullEnd(factor, i + 1))
  }

  /** The hash of each sector that holds ops, for the wanted rings among `slots`. */
  ghost function RingDetailsOf(ops: set<Op>, arcs: set<nat>, wanted: set<nat>, slots: seq<Slot>,
                               boundary: nat): Snapshot
    requires forall r :: r in wanted ==> r < |slots|
  {
    RingSectorDetails(map r | r in wanted :: RingSectorsOf(ops, arcs, slots[r]), boundary)
  }

  ghost function RingSectorsOf(ops: set<Op>, arcs: set<nat>, slot: Slot): map<nat, Hash> {
    HashesBySector(ops, arcs, slot.start, slot.End())
  }

  /** The details of the rings listed in `wanted`. */
  ghost predicate RingsCollected(rings: map<nat, map<nat, Hash>>, ops: set<Op>, arcs: set<nat>, slots: seq<Slot>,
                                 wanted: seq<nat>)
  {
    && (forall r :: r in rings <==> r in wanted)
    && (forall r :: r in rings ==> r < |slots| && rings[r] == RingSectorsOf(ops, arcs, slots[r]))
  }

  lemma RingCollected(rings: map<nat, map<nat, Hash>>, ops: set<Op>, arcs: set<nat>, slots: seq<Slot>,
                      wanted: seq<nat>, k: nat)
    requires k < |wanted| && wanted[k] < |slots| && RingsCollected(rings, ops, arcs, slots, wanted[..k])
    ensures RingsCollected(rings[wanted[k] := RingSectorsOf(ops, arcs, slots[wanted[k]])], ops, arcs, slots,
                           wanted[..k + 1])
  {
    assert wanted[..k + 1] == wanted[..k] + [wanted[k]];
  }

  lemma AllRingsCollected(rings: map<nat, map<nat, Hash>>, ops: set<Op>, arcs: set<nat>, slots: seq<Slot>,
                          wanted: seq<nat>, boundary: nat)
    requires RingsCollected(rings, ops, arcs, slots, wanted)
    ensures forall r :: r in wanted ==> r < |slots|
    ensures RingSectorDetails(rings, boundary) == RingDetailsOf(ops, arcs, (set r | r in wanted), slots, boundary)
  {
    assert forall r :: r in wanted ==> r in rings;
    assert rings == RingDetailsOf(ops, arcs, (set r | r in wanted), slots, boundary).rings;
  }

  lemma RingTopsPush(ops: set<Op>, arcs: set<nat>, slots: seq<Slot>, r: nat)
    requires r < |slots|
    ensures RingTopsOf(ops, arcs, slots[..r + 1]) == RingTopsOf(ops, arcs, slots[..r]) + [RingTop(ops, arcs, slots[r])]
  {
  }

  // ---------------------------------------------------------------- what is listed

  /** A sector has an op created from `lo` until before `hi`. */
  ghost predicate HasOp(ops: set<Op>, j: nat, lo: nat, hi: nat) {
    exists o :: o in ops && SectorOf(o.loc) == j && lo <= o.createdAt < hi
  }

  lemma HasOpIs(ops: set<Op>, j: nat, lo: nat, hi: nat)
    ensures HasOp(ops, j, lo, hi) <==> OpsOf(ops, {j}, lo, hi) != {}
  {
    if HasOp(ops, j, lo, hi) {
      var o :| o in ops && SectorOf(o.loc) == j && lo <= o.createdAt < hi;
      assert o in OpsOf(ops, {j}, lo, hi);
    }
  }

  /** Sectors, slices and rings are listed exactly where there are ops: of the included sectors those with a history,
      of the wanted ones all, with the slices that hold ops, and of the wanted rings all, with the sectors that do. */
  lemma ListedExactly(ops: set<Op>, arcs: set<nat>, wanted: set<nat>, factor: nat, count: nat, slots: seq<Slot>, b: nat)
    requires forall r :: r in wanted ==> r < |slots|
    ensures forall j :: j in DiscSectorsOf(ops, arcs, factor, count).tops <==>
                        j in arcs && HasOp(ops, j, 0, FullEnd(factor, count))
    ensures var slices := DiscDetailsOf(ops, arcs, wanted, factor, count).slices;
            && (forall j :: j in slices <==> j in arcs && j in wanted)
            && (forall j, i: nat :: j in slices ==>
                  (i in slices[j] <==> i < count && HasOp(ops, j, FullEnd(factor, i), FullEnd(factor, i + 1))))
    ensures var rings := RingDetailsOf(ops, arcs, wanted, slots, b).rings;
            && rings.Keys == wanted
            && (forall r, j :: r in rings ==>
                  (j in rings[r] <==> j in arcs && HasOp(ops, j, slots[r].start, slots[r].End())))
  {
    forall j: nat, lo: nat, hi: nat
      ensures HasOp(ops, j, lo, hi) <==> OpsOf(ops, {j}, lo, hi) != {}
    {
      HasOpIs(ops, j, lo, hi);
    }
  }

  // ---------------------------------------------------------------- sectors and arcs

  /** The ops of a sector are those its arc contains. */
  lemma OpsOfSector(ops: set<Op>, j: nat, lo: nat, hi: nat)
    requires j < SECTORS
    ensures OpsOf(ops, {j}, lo, hi) == OpsIn(ops, SectorArc(j), lo, hi)
  {
    forall o | o in ops
      ensures Contains(SectorArc(j), o.loc) <==> j == SectorOf(o.loc)
    {
      SectorsPartition(o.loc, j);
    }
  }

  ghost function Below(arcs: set<nat>, i: nat): set<nat> {
    set j | j in arcs && j < i
  }

  /** Taking one more sector into account, given what has been combined so far and the sector's hash. */
  lemma CombineNextSector(ops: set<Op>, arcs: set<nat>, i: nat, lo: nat, hi: nat, combined: Hash, hash: Hash, len: nat)
    requires i < SECTORS && IdLength(ops, len)
    requires combined == SetHash(OpsOf(ops, Below(arcs, i), lo, hi))
    requires hash == SetHash(OpsIn(ops, SectorArc(i), lo, hi))
    ensures SetHash(OpsOf(ops, Below(arcs, i + 1), lo, hi)) == if i in arcs then Xor(combined, hash) else combined
    ensures hash == [] ==> Xor(combined, hash) == combined
    ensures hash != [] ==> combined == [] || |combined| == |hash|
  {
    OpsOfNextSector(ops, arcs, i, lo, hi);
    XorUnit(combined);
    SetHashLength(OpsOf(ops, Below(arcs, i), lo, hi), len);
    SetHashLength(OpsIn(ops, SectorArc(i), lo, hi), len);
  }

  /** Taking one more sector into account. */
  lemma OpsOfNextSector(ops: set<Op>, arcs: set<nat>, i: nat, lo: nat, hi: nat)
    requires i < SECTORS
    ensures SetHash(OpsOf(ops, Below(arcs, i + 1), lo, hi)) ==
            Xor(SetHash(OpsOf(ops, Below(arcs, i), lo, hi)),
                if i in arcs then SetHash(OpsIn(ops, SectorArc(i), lo, hi)) else [])
  {
    var a, b := OpsOf(ops, Below(arcs, i), lo, hi), OpsOf(ops, {i}, lo, hi);
    if i in arcs {
      assert OpsOf(ops, Below(arcs, i + 1), lo, hi) == a + b;
      SetHashUnion(a, b);
      OpsOfSector(ops, i, lo, hi);
    } else {
      assert Below(arcs, i + 1) == Below(arcs, i);
      XorUnit(SetHash(a));
    }
  }

  lemma HashesNextSector(ops: set<Op>, arcs: set<nat>, i: nat, lo: nat, hi: nat)
    ensures HashesBySector(ops, Below(arcs, i + 1), lo, hi) ==
            if i in arcs && OpsOf(ops, {i}, lo, hi) != {}
            then HashesBySector(ops, Below(arcs, i), lo, hi)[i := SetHash(OpsOf(ops, {i}, lo, hi))]
            else HashesBySector(ops, Below(arcs, i), lo, hi)
  {
  }

  lemma DetailsNextSector(ops: set<Op>, arcs: set<nat>, wanted: set<nat>, i: nat, factor: nat, count: nat)
    ensures DetailsBySector(ops, Below(arcs, i + 1), wanted, factor, count) ==
            if i in arcs && i in wanted
            then DetailsBySector(ops, Below(arcs, i), wanted, factor, count)[i := SliceDetailsOf(ops, i, factor, count)]
            else DetailsBySector(ops, Below(arcs, i), wanted, factor, count)
  {
  }
}
