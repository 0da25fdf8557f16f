/** The partition of the hash space into 512 sectors, each with its time partition
    (crates/dht/src/hash.rs). */
module HashPartitions {
  import opened Wrappers
  import opened Combine
  import opened Arcs
  import opened TimeLayout
  import opened LayoutLaws
  import opened Ops
  import opened SliceCache
  import opened Sectors
  import opened TimePartitions
  import opened Snapshots

  /** Two sets of ops that hold the same ops of an arc. */
  ghost predicate SameInArc(a: set<Op>, b: set<Op>, arc: DhtArc) {
    forall o: Op :: Contains(arc, o.loc) ==> (o in a <==> o in b)
  }

  /** A cache of one sector does not look at the ops of the others. */
  lemma InStepSameInArc(v: View, count: nat, now: nat, a: set<Op>, b: set<Op>, stored: map<nat, Hash>)
    requires InStep(v, count, now, a, stored) && SameInArc(a, b, v.sector)
    ensures InStep(v, count, now, b, stored)
  {
    forall lo: nat, hi: nat
      ensures OpsIn(a, v.sector, lo, hi) == OpsIn(b, v.sector, lo, hi)
    {
    }
  }

  /** From sector `lo` on, the store's slice hashes are ones a partition may be rebuilt from. */
  ghost predicate AllPersisted(ops: set<Op>, slices: seq<map<nat, Hash>>, lo: nat, factor: nat)
    requires |slices| == SECTORS
  {
    forall j: nat :: lo <= j < SECTORS ==> Persisted(ops, SectorArc(j), factor, slices[j])
  }

  ghost function ViewsOf(sectors: seq<TimePartition>): (r: seq<View>)
    reads sectors
    ensures |r| == |sectors| && forall j :: 0 <= j < |sectors| ==> r[j] == sectors[j].AsView()
  {
    seq(|sectors|, j requires 0 <= j < |sectors| reads sectors => sectors[j].AsView())
  }

  ghost function Slices(store: OpStore): (r: seq<map<nat, Hash>>)
    reads store
    ensures |r| == SECTORS && forall j :: 0 <= j < SECTORS ==> r[j] == store.Stored(SectorArc(j))
  {
    seq(SECTORS, j requires 0 <= j < SECTORS reads store => store.Stored(SectorArc(j)))
  }

  /** The sectors from `lo` to `hi` are in step with each other. */
  ghost predicate AllInStep(views: seq<View>, slices: seq<map<nat, Hash>>, lo: nat, hi: nat, count: nat, now: nat,
                            ops: set<Op>)
    requires |views| <= |slices|
  {
    forall j: nat :: lo <= j < hi && j < |views| ==> InStep(views[j], count, now, ops, slices[j])
  }

  /** The sectors in `pending` still agree with `known` only, all others with `all` ops. */
  ghost predicate PartlyInformed(views: seq<View>, slices: seq<map<nat, Hash>>, pending: set<nat>,
                                 count: nat, now: nat, known: set<Op>, all: set<Op>)
    requires |views| == |slices|
  {
    forall j: nat :: j < |views| ==> InStep(views[j], count, now, if j in pending then known else all, slices[j])
  }

  lemma OneMoreInformed(views: seq<View>, slices: seq<map<nat, Hash>>, views': seq<View>, slices': seq<map<nat, Hash>>,
                        pending: set<nat>, i: nat, count: nat, now: nat, known: set<Op>, all: set<Op>)
    requires |views| == |slices| == |views'| == |slices'| && i < |views|
    requires PartlyInformed(views, slices, pending, count, now, known, all)
    requires InStep(views'[i], count, now, all, slices'[i])
    requires forall j: nat :: j < |views| && j != i ==> views'[j] == views[j] && slices'[j] == slices[j]
    ensures PartlyInformed(views', slices', pending - {i}, count, now, known, all)
  {
    forall j: nat | j < |views'| && j != i
      ensures InStep(views'[j], count, now, if j in pending - {i} then known else all, slices'[j])
    {
      assert InStep(views[j], count, now, if j in pending then known else all, slices[j]);
    }
  }

  /** No sector below `hi` has an initial count ahead of the time. */
  ghost predicate NoneAhead(ops: set<Op>, slices: seq<map<nat, Hash>>, hi: nat, factor: nat, now: nat)
    requires |slices| == SECTORS && factor >= 1
  {
    forall j: nat :: j < SECTORS && j < hi ==> NotAhead(ops, SectorArc(j), factor, now, slices[j])
  }

  /** The sectors before `i` have been rebuilt, none of them ahead of the time, and the others are as they were. */
  ghost predicate PartlyBuilt(views: seq<View>, was: seq<map<nat, Hash>>, slices: seq<map<nat, Hash>>, i: nat,
                              factor: nat, now: nat, ops: set<Op>)
    requires |was| == |slices| == SECTORS && factor >= 1
  {
    && |views| == i <= SECTORS
    && (forall j: nat :: j < i ==> views[j].sector == SectorArc(j) && views[j].factor == factor)
    && AllInStep(views, slices, 0, i, FullCount(factor, now), now, ops)
    && NoneAhead(ops, was, i, factor, now)
    && (forall j: nat :: i <= j < SECTORS ==> slices[j] == was[j])
    && AllPersisted(ops, slices, 0, factor)
  }

  lemma OthersPersist(slices: seq<map<nat, Hash>>, slices': seq<map<nat, Hash>>, i: nat, factor: nat, ops: set<Op>)
    requires |slices| == |slices'| == SECTORS && i < SECTORS && AllPersisted(ops, slices, 0, factor)
    requires Persisted(ops, SectorArc(i), factor, slices'[i])
    requires forall j: nat :: j < SECTORS && j != i ==> slices'[j] == slices[j]
    ensures AllPersisted(ops, slices', 0, factor)
  {
  }

  lemma OneMoreBuilt(views: seq<View>, was: seq<map<nat, Hash>>, slices: seq<map<nat, Hash>>,
                     slices': seq<map<nat, Hash>>, view: View, i: nat, factor: nat, now: nat, ops: set<Op>)
    requires |was| == |slices| == |slices'| == SECTORS && factor >= 1 && i < SECTORS
    requires PartlyBuilt(views, was, slices, i, factor, now, ops) && AllPersisted(ops, slices', 0, factor)
    requires view.sector == SectorArc(i) && view.factor == factor && NotAhead(ops, SectorArc(i), factor, now, slices[i])
    requires InStep(view, FullCount(factor, now), now, ops, slices'[i])
    requires forall j: nat :: j < SECTORS && j != i ==> slices'[j] == slices[j]
    ensures PartlyBuilt(views + [view], was, slices', i + 1, factor, now, ops)
  {
    forall j: nat | j < i
      ensures InStep((views + [view])[j], FullCount(factor, now), now, ops, slices'[j])
    {
      assert InStep(views[j], FullCount(factor, now), now, ops, slices[j]);
    }
  }

  class HashPartition {
    const factor: nat
    const sectors: seq<TimePartition>

    constructor (factor: nat, sectors: seq<TimePartition>)
      ensures this.factor == factor && this.sectors == sectors
    {
      this.factor := factor;
      this.sectors := sectors;
    }

    /** There are 512 time partitions, one for each sector arc, all of one factor. */
    ghost predicate Shape() {
      && |sectors| == SECTORS
      && (forall j :: 0 <= j < SECTORS ==> sectors[j].sector == SectorArc(j) && sectors[j].factor == factor)
    }

    ghost function Views(): (r: seq<View>)
      requires Shape()
      reads sectors
      ensures |r| == SECTORS && forall j :: 0 <= j < SECTORS ==> r[j] == sectors[j].AsView()
    {
      ViewsOf(sectors)
    }

    /** All sectors have the same count and the same layout, and agree with a set of ops. */
    ghost predicate Lockstep(count: nat, now: nat, ops: set<Op>, store: OpStore)
      requires Shape()
      reads sectors, store
    {
      CaughtUp(factor, count, now) && AllInStep(Views(), Slices(store), 0, SECTORS, count, now, ops)
    }

    lemma DistinctSectors()
      requires Shape()
      ensures forall i, j :: 0 <= i < j < SECTORS ==> sectors[i] != sectors[j] && SectorArc(i) != SectorArc(j)
    {
      forall i, j | 0 <= i < j < SECTORS
        ensures sectors[i] != sectors[j] && SectorArc(i) != SectorArc(j)
      {
        SectorArcsDiffer(i, j);
      }
    }

    /** Updates one sector and leaves the others as they are. */
    method UpdateSector(i: nat, store: OpStore, now: nat, ghost count: nat, ghost before: nat, ghost len: nat)
        returns (r: Result<()>)
      requires Shape() && i < SECTORS && IdLength(store.ops, len)
      requires InStep(Views()[i], count, before, store.ops, Slices(store)[i])
      modifies sectors[i], store`sliceHashes
      ensures r.Err? <==> now < FullEnd(factor, count)
      ensures r.Err? ==> Views() == old(Views()) && store.sliceHashes == old(store.sliceHashes)
      ensures r.Ok? ==> factor >= 1 &&
                        InStep(Views()[i], Max(count, FullCount(factor, now)), now, store.ops, Slices(store)[i])
      ensures forall j: nat :: j < SECTORS && j != i ==>
                Views()[j] == old(Views())[j] && Slices(store)[j] == old(Slices(store))[j]
    {
      DistinctSectors();
      sectors[i].ViewMeans(store.ops, store.Stored(SectorArc(i)));
      r := sectors[i].Update(now, store, len);
      sectors[i].ViewMeans(store.ops, store.Stored(SectorArc(i)));
    }

    /** Updates the first sector that has not been updated yet. */
    method UpdateNext(i: nat, store: OpStore, now: nat, ghost count: nat, ghost next: nat, ghost before: nat,
                      ghost len: nat) returns (r: Result<()>)
      requires Shape() && i < SECTORS && IdLength(store.ops, len)
      requires factor >= 1 ==> next == Max(count, FullCount(factor, now))
      requires AllInStep(Views(), Slices(store), 0, i, next, now, store.ops)
      requires AllInStep(Views(), Slices(store), i, SECTORS, count, before, store.ops)
      modifies sectors, store`sliceHashes
      ensures r.Err? <==> now < FullEnd(factor, count)
      ensures r.Err? ==> Views() == old(Views()) && store.sliceHashes == old(store.sliceHashes)
      ensures r.Ok? ==> factor >= 1 && AllInStep(Views(), Slices(store), 0, i + 1, next, now, store.ops)
      ensures r.Ok? ==> AllInStep(Views(), Slices(store), i + 1, SECTORS, count, before, store.ops)
    {
      r := UpdateSector(i, store, now, count, before, len);
    }

    /** Updates every sector. They succeed or fail together, and stay in lockstep. */
    method Update(store: OpStore, now: nat, ghost count: nat, ghost before: nat, ghost len: nat) returns (r: Result<()>)
      requires Shape() && Lockstep(count, before, store.ops, store) && IdLength(store.ops, len)
      modifies sectors, store`sliceHashes
      ensures r.Err? <==> now < FullEnd(factor, count)
      ensures r.Err? ==> Views() == old(Views()) && store.sliceHashes == old(store.sliceHashes)
      ensures r.Err? ==> Lockstep(count, before, store.ops, store)
      ensures r.Ok? ==> factor >= 1 && Lockstep(Max(count, FullCount(factor, now)), now, store.ops, store)
    {
      ghost var next := if factor >= 1 then Max(count, FullCount(factor, now)) else 0;
      for i := 0 to |sectors|
        invariant i > 0 ==> factor >= 1 && now >= FullEnd(factor, count)
        invariant i == 0 ==> Views() == old(Views()) && store.sliceHashes == old(store.sliceHashes)
        invariant AllInStep(Views(), Slices(store), 0, i, next, now, store.ops)
        invariant AllInStep(Views(), Slices(store), i, SECTORS, count, before, store.ops)
      {
        var updated := UpdateNext(i, store, now, count, next, before, len);
        if updated.Err? {
          return Err;
        }
      }
      FullSlicesEndBefore(factor, count, now);
      return Ok(());
    }

    /** Hands a sector its part of a batch, after which it agrees with all the ops. */
    method InformSector(i: nat, group: seq<Op>, store: OpStore, ghost known: set<Op>, ghost batch: seq<Op>,
                        ghost count: nat, ghost now: nat, ghost len: nat)
      requires Shape() && i < SECTORS && group == OfSector(batch, i)
      requires InStep(Views()[i], count, now, known, Slices(store)[i])
      requires Distinct(batch) && SetOf(batch) !! known && IdLength(known + SetOf(batch), len)
      modifies sectors[i], store`sliceHashes
      ensures InStep(Views()[i], count, now, known + SetOf(batch), Slices(store)[i])
      ensures forall j: nat :: j < SECTORS && j != i ==>
                Views()[j] == old(Views())[j] && Slices(store)[j] == old(Slices(store))[j]
    {
      DistinctSectors();
      var pt := sectors[i];
      OfSectorMembers(batch, i);
      forall o: Op
        ensures Contains(SectorArc(i), o.loc) <==> i == SectorOf(o.loc)
      {
        SectorsPartition(o.loc, i);
      }
      pt.ViewMeans(known, store.Stored(SectorArc(i)));
      pt.InformOpsStored(group, store, known, len);
      pt.ViewMeans(known + SetOf(group), store.Stored(SectorArc(i)));
      InStepSameInArc(pt.AsView(), count, now, known + SetOf(group), known + SetOf(batch), Slices(store)[i]);
    }

    /** Hands every op of a batch to the sector of its location, exactly once. Whatever the order of
        the sectors, all agree with all the ops afterwards, and no layout changes. */
    method InformOpsStored(store: OpStore, batch: seq<Op>, ghost known: set<Op>, ghost count: nat, ghost now: nat,
                           ghost len: nat)
      requires Shape() && Lockstep(count, now, known, store)
      requires Distinct(batch) && SetOf(batch) !! known && IdLength(known + SetOf(batch), len)
      modifies sectors, store`sliceHashes
      ensures Lockstep(count, now, known + SetOf(batch), store)
    {
      var groups := GroupBySector(batch);
      ghost var all := known + SetOf(batch);
      UninformedSectors(batch, groups.Keys, known, count, now, Views(), Slices(store));
      var rest := groups.Keys;
      while rest != {}
        invariant rest <= groups.Keys
        invariant PartlyInformed(Views(), Slices(store), rest, count, now, known, all)
        decreases |rest|
      {
        var i :| i in rest;
        InformNext(i, groups[i], store, rest, known, batch, count, now, len);
        rest := rest - {i};
      }
    }

    /** Hands one of the pending sectors its part of a batch. */
    method InformNext(i: nat, group: seq<Op>, store: OpStore, ghost pending: set<nat>, ghost known: set<Op>,
                      ghost batch: seq<Op>, ghost count: nat, ghost now: nat, ghost len: nat)
      requires Shape() && i < SECTORS && i in pending && group == OfSector(batch, i)
      requires PartlyInformed(Views(), Slices(store), pending, count, now, known, known + SetOf(batch))
      requires Distinct(batch) && SetOf(batch) !! known && IdLength(known + SetOf(batch), len)
      modifies sectors, store`sliceHashes
      ensures PartlyInformed(Views(), Slices(store), pending - {i}, count, now, known, known + SetOf(batch))
    {
      ghost var views, slices, all := Views(), Slices(store), known + SetOf(batch);
      assert InStep(views[i], count, now, known, slices[i]);
      InformSector(i, group, store, known, batch, count, now, len);
      OneMoreInformed(views, slices, Views(), Slices(store), pending, i, count, now, known, all);
    }

    /** Sectors without a group need no work. */
    lemma UninformedSectors(batch: seq<Op>, keys: set<nat>, known: set<Op>, count: nat, now: nat,
                            views: seq<View>, slices: seq<map<nat, Hash>>)
      requires Shape() && |views| == |slices| == SECTORS && AllInStep(views, slices, 0, SECTORS, count, now, known)
      requires forall j: nat :: j < SECTORS ==> views[j].sector == SectorArc(j)
      requires forall j :: j in keys <==> OfSector(batch, j) != []
      ensures PartlyInformed(views, slices, keys, count, now, known, known + SetOf(batch))
    {
      forall j: nat | j < SECTORS && j !in keys
        ensures InStep(views[j], count, now, known + SetOf(batch), slices[j])
      {
        OfSectorMembers(batch, j);
        forall o: Op
          ensures Contains(SectorArc(j), o.loc) <==> j == SectorOf(o.loc)
        {
          SectorsPartition(o.loc, j);
        }
        InStepSameInArc(views[j], count, now, known, known + SetOf(batch), slices[j]);
      }
    }

    /** Rebuilds one sector, leaving the slice hashes of the others alone. */
    static method BuildSector(i: nat, factor: nat, now: nat, store: OpStore, ghost len: nat)
        returns (r: Result<TimePartition>)
      requires i < SECTORS && factor >= 1 && IdLength(store.ops, len)
      requires Persisted(store.ops, SectorArc(i), factor, Slices(store)[i])
      modifies store`sliceHashes
      ensures r.Ok? <==> factor <= 54 && NotAhead(store.ops, SectorArc(i), factor, now, old(Slices(store))[i])
      ensures r.Ok? ==>
                && fresh(r.value) && r.value.sector == SectorArc(i) && r.value.factor == factor
                && InStep(r.value.AsView(), FullCount(factor, now), now, store.ops, Slices(store)[i])
      ensures Persisted(store.ops, SectorArc(i), factor, Slices(store)[i])
      ensures forall j: nat :: j < SECTORS && j != i ==> Slices(store)[j] == old(Slices(store))[j]
    {
      forall j: nat | j < SECTORS && j != i
        ensures SectorArc(j) != SectorArc(i)
      {
        SectorArcsDiffer(if i < j then i else j, if i < j then j else i);
      }
      r := TimePartition.TryFromStore(factor, now, SectorArc(i), store, len);
      if r.Ok? {
        r.value.ViewMeans(store.ops, store.Stored(SectorArc(i)));
      }
    }

    /** Rebuilds all sectors from the store. Whatever their stored counts, they come out in lockstep
        at the count that the time alone asks for; it fails exactly when the initial count of some
        sector is ahead of the time, and then the store can still be rebuilt from. */
    static method TryFromStore(factor: nat, now: nat, store: OpStore, ghost len: nat) returns (r: Result<HashPartition>)
      requires factor >= 1 && AllPersisted(store.ops, Slices(store), 0, factor) && IdLength(store.ops, len)
      modifies store`sliceHashes
      ensures r.Ok? <==> factor <= 54 && NoneAhead(store.ops, old(Slices(store)), SECTORS, factor, now)
      ensures r.Ok? ==>
                && fresh(r.value) && fresh(r.value.sectors) && r.value.factor == factor && r.value.Shape()
                && r.value.Lockstep(FullCount(factor, now), now, store.ops, store)
      ensures AllPersisted(store.ops, Slices(store), 0, factor)
    {
      var sectors: seq<TimePartition> := [];
      ghost var slices := Slices(store);
      for i := 0 to SECTORS
        invariant |sectors| == i && fresh(sectors) && (i > 0 ==> factor <= 54)
        invariant PartlyBuilt(ViewsOf(sectors), slices, Slices(store), i, factor, now, store.ops)
      {
        ghost var views, before := ViewsOf(sectors), Slices(store);
        var pt := BuildSector(i, factor, now, store, len);
        OthersPersist(before, Slices(store), i, factor, store.ops);
        if pt.Err? {
          return Err;
        }
        OneMoreBuilt(views, slices, before, Slices(store), pt.value.AsView(), i, factor, now, store.ops);
        sectors := sectors + [pt.value];
        assert ViewsOf(sectors) == views + [pt.value.AsView()];
      }
      FullSlicesEndBefore(factor, 0, now);
      var partition := new HashPartition(factor, sectors);
      return Ok(partition);
    }

    /** The top hash of one sector's full slices. */
    method SectorTopHash(j: nat, store: OpStore, ghost count: nat, ghost now: nat, ghost len: nat) returns (hash: Hash)
      requires Shape() && Lockstep(count, now, store.ops, store) && IdLength(store.ops, len) && j < SECTORS
      ensures hash == SetHash(OpsIn(store.ops, SectorArc(j), 0, FullEnd(factor, count)))
    {
      assert InStep(Views()[j], count, now, store.ops, Slices(store)[j]);
      sectors[j].ViewMeans(store.ops, store.Stored(SectorArc(j)));
      hash := sectors[j].FullTimeSliceTopHash(store, len);
    }

    /** Combines the histories of the included sectors: the hash of all their ops up to the boundary
        that sector 0 reports for all. */
    method DiscTopHash(arcs: set<nat>, store: OpStore, ghost count: nat, ghost now: nat, ghost len: nat)
        returns (combined: Hash, boundary: nat)
      requires Shape() && Lockstep(count, now, store.ops, store) && IdLength(store.ops, len)
      requires forall j :: j in arcs ==> j < SECTORS
      ensures combined == SetHash(OpsOf(store.ops, arcs, 0, FullEnd(factor, count)))
      ensures boundary == FullEnd(factor, count)
    {
      ghost var hi := FullEnd(factor, count);
      combined := [];
      assert OpsOf(store.ops, Below(arcs, 0), 0, hi) == {};
      for i := 0 to |sectors|
        invariant combined == SetHash(OpsOf(store.ops, Below(arcs, i), 0, hi))
      {
        if i in arcs {
          combined := AddSectorDisc(i, arcs, combined, store, count, now, len);
        } else {
          assert Below(arcs, i + 1) == Below(arcs, i);
        }
      }
      assert Below(arcs, SECTORS) == arcs;
      boundary := Boundary(store, count, now);
    }

    /** Combines the history of one more included sector. */
    method AddSectorDisc(i: nat, arcs: set<nat>, combined: Hash, store: OpStore,
                         ghost count: nat, ghost now: nat, ghost len: nat)
        returns (out: Hash)
      requires Shape() && Lockstep(count, now, store.ops, store) && IdLength(store.ops, len) && i < SECTORS && i in arcs
      requires combined == SetHash(OpsOf(store.ops, Below(arcs, i), 0, FullEnd(factor, count)))
      ensures out == SetHash(OpsOf(store.ops, Below(arcs, i + 1), 0, FullEnd(factor, count)))
    {
      var hash := SectorTopHash(i, store, count, now, len);
      CombineNextSector(store.ops, arcs, i, 0, FullEnd(factor, count), combined, hash, len);
      out := combined;
      if hash != [] {
        out := CombineHashes(combined, hash);
      }
    }

    /** Combines one ring across the included sectors. */
    method RingTopHash(r: nat, arcs: set<nat>, store: OpStore, ghost count: nat, ghost now: nat, ghost len: nat)
        returns (combined: Hash)
      requires Shape() && Lockstep(count, now, store.ops, store) && IdLength(store.ops, len)
      requires r < |Partials(factor, count, now)|
      requires forall j :: j in arcs ==> j < SECTORS
      ensures combined == RingTop(store.ops, arcs, Partials(factor, count, now)[r])
    {
      ghost var slot := Partials(factor, count, now)[r];
      combined := [];
      assert OpsOf(store.ops, Below(arcs, 0), slot.start, slot.End()) == {};
      for i := 0 to |sectors|
        invariant combined == RingTop(store.ops, Below(arcs, i), slot)
      {
        combined := AddSectorRing(i, r, arcs, combined, store, count, now, len);
      }
      assert Below(arcs, SECTORS) == arcs;
    }

    /** Combines one more sector into a ring, if it is included. */
    method AddSectorRing(i: nat, r: nat, arcs: set<nat>, combined: Hash, store: OpStore,
                         ghost count: nat, ghost now: nat, ghost len: nat)
        returns (out: Hash)
      requires Shape() && Lockstep(count, now, store.ops, store) && IdLength(store.ops, len) && i < SECTORS
      requires r < |Partials(factor, count, now)|
      requires combined == RingTop(store.ops, Below(arcs, i), Partials(factor, count, now)[r])
      ensures out == RingTop(store.ops, Below(arcs, i + 1), Partials(factor, count, now)[r])
    {
      ghost var slot := Partials(factor, count, now)[r];
      var hash := PartialHash(i, r, store, count, now);
      CombineNextSector(store.ops, arcs, i, slot.start, slot.End(), combined, hash.value, len);
      out := combined;
      if i in arcs && hash.Ok? && hash.value != [] {
        out := CombineHashes(combined, hash.value);
      }
    }

    /** The hash of one partial slice of one sector, looked up by the index they all share. */
    method PartialHash(i: nat, r: nat, ghost store: OpStore, ghost count: nat, ghost now: nat)
        returns (hash: Result<Hash>)
      requires Shape() && Lockstep(count, now, store.ops, store) && i < SECTORS
      ensures hash.Err? <==> r >= |Partials(factor, count, now)|
      ensures hash.Ok? ==> var slot := Partials(factor, count, now)[r];
                           hash.value == SetHash(OpsIn(store.ops, SectorArc(i), slot.start, slot.End()))
    {
      ghost var view := Views()[i];
      assert InStep(view, count, now, store.ops, Slices(store)[i]);
      assert |SlotsOf(view.partials)| == |Partials(factor, count, now)|;
      hash := sectors[i].PartialSliceHash(r, store.ops);
      if hash.Ok? {
        assert SlotsOf(view.partials)[r] == view.partials[r].slot;
      }
    }

    /** Combines each ring of recent time across the included sectors. */
    method RingTopHashes(arcs: set<nat>, store: OpStore, ghost count: nat, ghost now: nat, ghost len: nat)
        returns (tops: seq<Hash>)
      requires Shape() && Lockstep(count, now, store.ops, store) && IdLength(store.ops, len)
      requires forall j :: j in arcs ==> j < SECTORS
      ensures tops == if arcs == {} then [] else RingTopsOf(store.ops, arcs, Partials(factor, count, now))
    {
      if arcs == {} {
        return [];
      }
      ghost var slots := Partials(factor, count, now);
      var first :| first in arcs;
      assert InStep(Views()[first], count, now, store.ops, Slices(store)[first]);
      assert |SlotsOf(sectors[first].partialSlices)| == |slots|;
      tops := [];
      for r := 0 to |sectors[first].partialSlices|
        invariant tops == RingTopsOf(store.ops, arcs, slots[..r])
      {
        RingTopsPush(store.ops, arcs, slots, r);
        var top := RingTopHash(r, arcs, store, count, now, len);
        tops := tops + [top];
      }
      assert slots[..|slots|] == slots;
    }

    /** The history of one sector; the hash is empty exactly when there are no ops. */
    method SectorHistoryHash(j: nat, store: OpStore, ghost count: nat, ghost now: nat, ghost len: nat)
        returns (hash: Hash)
      requires Shape() && Lockstep(count, now, store.ops, store) && IdLength(store.ops, len) && j < SECTORS
      ensures hash == SetHash(OpsOf(store.ops, {j}, 0, FullEnd(factor, count)))
      ensures hash == [] <==> OpsOf(store.ops, {j}, 0, FullEnd(factor, count)) == {}
    {
      hash := SectorTopHash(j, store, count, now, len);
      OpsOfSector(store.ops, j, 0, FullEnd(factor, count));
      SetHashLength(OpsOf(store.ops, {j}, 0, FullEnd(factor, count)), len);
    }

    /** The histories of the included sectors, one by one, leaving out the empty ones. */
    method DiscSectorHashes(arcs: set<nat>, store: OpStore, ghost count: nat, ghost now: nat, ghost len: nat)
        returns (out: map<nat, Hash>, boundary: nat)
      requires Shape() && Lockstep(count, now, store.ops, store) && IdLength(store.ops, len)
      requires forall j :: j in arcs ==> j < SECTORS
      ensures DiscSectors(out, boundary) == DiscSectorsOf(store.ops, arcs, factor, count)
    {
      ghost var hi := FullEnd(factor, count);
      out := map[];
      for i := 0 to |sectors|
        invariant out == HashesBySector(store.ops, Below(arcs, i), 0, hi)
      {
        HashesNextSector(store.ops, arcs, i, 0, hi);
        if i in arcs {
          var hash := SectorHistoryHash(i, store, count, now, len);
          if hash != [] {
            out := out[i := hash];
          }
        }
      }
      boundary := Boundary(store, count, now);
      assert Below(arcs, SECTORS) == arcs;
    }

    /** The stored slice hashes of one sector are the hashes of its non-empty full slices. */
    lemma StoredAreDetails(j: nat, store: OpStore, count: nat, now: nat)
      requires Shape() && Lockstep(count, now, store.ops, store) && j < SECTORS
      ensures store.Stored(SectorArc(j)) == SliceDetailsOf(store.ops, j, factor, count)
    {
      var stored, details := store.Stored(SectorArc(j)), SliceDetailsOf(store.ops, j, factor, count);
      assert InStep(Views()[j], count, now, store.ops, Slices(store)[j]);
      forall i: nat
        ensures i in stored <==> i in details
        ensures i in stored ==> stored[i] == details[i]
      {
        OpsOfSector(store.ops, j, FullEnd(factor, i), FullEnd(factor, i + 1));
        assert DiscSlice(store.ops, j, factor, i) == SliceOps(store.ops, SectorArc(j), factor, i);
      }
    }

    /** The slice hashes of the included sectors that are asked for. */
    method DiscSectorSectorDetails(arcs: set<nat>, wanted: set<nat>, store: OpStore, ghost count: nat, ghost now: nat)
        returns (out: map<nat, map<nat, Hash>>, boundary: nat)
      requires Shape() && Lockstep(count, now, store.ops, store)
      requires forall j :: j in arcs ==> j < SECTORS
      ensures DiscSectorDetails(out, boundary) == DiscDetailsOf(store.ops, arcs, wanted, factor, count)
    {
      out := map[];
      for i := 0 to |sectors|
        invariant out == DetailsBySector(store.ops, Below(arcs, i), wanted, factor, count)
      {
        DetailsNextSector(store.ops, arcs, wanted, i, factor, count);
        if i in arcs && i in wanted {
          StoredAreDetails(i, store, count, now);
          out := out[i := store.Stored(sectors[i].sector)];
        }
      }
      boundary := Boundary(store, count, now);
      assert Below(arcs, SECTORS) == arcs;
    }

    /** One ring, sector by sector, leaving out the empty ones. */
    method RingSectorHashes(r: nat, arcs: set<nat>, store: OpStore, ghost count: nat, ghost now: nat, ghost len: nat)
        returns (out: map<nat, Hash>)
      requires Shape() && Lockstep(count, now, store.ops, store) && IdLength(store.ops, len)
      requires r < |Partials(factor, count, now)|
      requires forall j :: j in arcs ==> j < SECTORS
      ensures out == RingSectorsOf(store.ops, arcs, Partials(factor, count, now)[r])
    {
      ghost var slot := Partials(factor, count, now)[r];
      out := map[];
      for i := 0 to |sectors|
        invariant out == RingSectorsOf(store.ops, Below(arcs, i), slot)
      {
        HashesNextSector(store.ops, arcs, i, slot.start, slot.End());
        if i in arcs {
          var hash := SectorRingHash(i, r, store, count, now, len);
          if hash != [] {
            out := out[i := hash];
          }
        }
      }
      assert Below(arcs, SECTORS) == arcs;
    }

    /** One sector of one ring; the hash is empty exactly when there are no ops. */
    method SectorRingHash(i: nat, r: nat, store: OpStore, ghost count: nat, ghost now: nat, ghost len: nat)
        returns (hash: Hash)
      requires Shape() && Lockstep(count, now, store.ops, store) && IdLength(store.ops, len) && i < SECTORS
      requires r < |Partials(factor, count, now)|
      ensures var slot := Partials(factor, count, now)[r];
        hash == RingTop(store.ops, {i}, slot) && (hash == [] <==> OpsOf(store.ops, {i}, slot.start, slot.End()) == {})
    {
      ghost var slot := Partials(factor, count, now)[r];
      var found := PartialHash(i, r, store, count, now);
      OpsOfSector(store.ops, i, slot.start, slot.End());
      SetHashLength(OpsOf(store.ops, {i}, slot.start, slot.End()), len);
      hash := found.value;
    }

    /** One ring, sector by sector, or an error if it does not exist. */
    method RingDetail(r: nat, arcs: set<nat>, store: OpStore, ghost count: nat, ghost now: nat, ghost len: nat)
        returns (out: Result<map<nat, Hash>>)
      requires Shape() && Lockstep(count, now, store.ops, store) && IdLength(store.ops, len)
      requires arcs != {} && forall j :: j in arcs ==> j < SECTORS
      ensures out.Err? <==> r >= |Partials(factor, count, now)|
      ensures out.Ok? ==> out.value == RingSectorsOf(store.ops, arcs, Partials(factor, count, now)[r])
    {
      var first :| first in arcs;
      var probe := PartialHash(first, r, store, count, now);
      if probe.Err? {
        return Err;
      }
      var ring := RingSectorHashes(r, arcs, store, count, now, len);
      return Ok(ring);
    }

    /** The rings that are asked for, sector by sector; an error if one of them does not exist. */
    method RingDetails(arcs: set<nat>, wanted: seq<nat>, store: OpStore, ghost count: nat, ghost now: nat,
                       ghost len: nat)
        returns (out: Result<(map<nat, map<nat, Hash>>, nat)>)
      requires Shape() && Lockstep(count, now, store.ops, store) && IdLength(store.ops, len)
      requires forall j :: j in arcs ==> j < SECTORS
      ensures out.Err? <==> arcs != {} && exists r :: r in wanted && r >= |Partials(factor, count, now)|
      ensures out.Ok? && arcs != {} ==>
                RingSectorDetails(out.value.0, out.value.1) ==
                RingDetailsOf(store.ops, arcs, (set r | r in wanted), Partials(factor, count, now),
                              FullEnd(factor, count))
      ensures arcs == {} ==> out == Ok((map[], FullEnd(factor, count)))
    {
      if arcs == {} {
        var end := Boundary(store, count, now);
        return Ok((map[], end));
      }
      ghost var slots := Partials(factor, count, now);
      var rings: map<nat, map<nat, Hash>> := map[];
      for k := 0 to |wanted|
        invariant RingsCollected(rings, store.ops, arcs, slots, wanted[..k])
      {
        assert wanted[k] in wanted;
        var ring := RingDetail(wanted[k], arcs, store, count, now, len);
        if ring.Err? {
          return Err;
        }
        RingCollected(rings, store.ops, arcs, slots, wanted, k);
        rings := rings[wanted[k] := ring.value];
      }
      assert wanted[..|wanted|] == wanted;
      AllRingsCollected(rings, store.ops, arcs, slots, wanted, FullEnd(factor, count));
      var boundary := Boundary(store, count, now);
      return Ok((rings, boundary));
    }

    /** The end of the full slices, as sector 0 has it. */
    method Boundary(ghost store: OpStore, ghost count: nat, ghost now: nat) returns (boundary: nat)
      requires Shape() && Lockstep(count, now, store.ops, store)
      ensures boundary == FullEnd(factor, count)
    {
      assert InStep(Views()[0], count, now, store.ops, Slices(store)[0]);
      boundary := FullEnd(factor, sectors[0].fullSlices);
    }
  }
}
