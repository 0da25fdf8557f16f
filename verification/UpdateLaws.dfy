/** What updates of one sector's partition do to it, as laws about its whole state. */
module UpdateLaws {
  import opened Combine
  import opened Arcs
  import opened TimeLayout
  import opened LayoutLaws
  import opened Ops
  import opened SliceCache
  import opened TimePartitions

  /** The state of a partition is a function of its ops, its count and the time of its layout: no two
      histories can be told apart by their slices or by their stored hashes. */
  lemma StateIsDetermined(v: View, v': View, count: nat, now: nat, ops: set<Op>, stored: map<nat, Hash>,
                          stored': map<nat, Hash>)
    requires v.factor == v'.factor && v.sector == v'.sector
    requires InStep(v, count, now, ops, stored) && InStep(v', count, now, ops, stored')
    ensures v.partials == v'.partials && stored == stored'
    ensures v.partials != [] ==> v.nextUpdateAt == v'.nextUpdateAt
  {
    SamePartials(ops, v.sector, v.partials, v'.partials);
    SameStored(ops, v.sector, v.factor, count, stored, stored');
  }

  lemma SamePartials(ops: set<Op>, arc: DhtArc, a: seq<PartialSlice>, b: seq<PartialSlice>)
    requires SlotsOf(a) == SlotsOf(b) && PartialsAgree(ops, arc, a) && PartialsAgree(ops, arc, b)
    ensures a == b
  {
    assert |SlotsOf(a)| == |SlotsOf(b)|;
    forall k | 0 <= k < |a|
      ensures a[k] == b[k]
    {
      assert SlotsOf(a)[k] == SlotsOf(b)[k];
      assert a[k].slot == b[k].slot;
    }
  }

  lemma SameStored(ops: set<Op>, arc: DhtArc, factor: nat, count: nat, a: map<nat, Hash>, b: map<nat, Hash>)
    requires SliceHashesAgree(ops, arc, factor, a, count) && SliceHashesAgree(ops, arc, factor, b, count)
    ensures a == b
  {
  }

  lemma PartialsReach(v: View, count: nat, now: nat, ops: set<Op>, stored: map<nat, Hash>)
    requires InStep(v, count, now, ops, stored) && v.partials != []
    ensures FullEnd(v.factor, count) < now
    ensures v.nextUpdateAt == CoveredEnd(v.factor, count, now) + UNIT
  {
    var start, slots := FullEnd(v.factor, count), Partials(v.factor, count, now);
    var last := |slots| - 1;
    assert |SlotsOf(v.partials)| == |slots| && SlotsOf(v.partials)[last] == v.partials[last].slot;
    LadderReachesOn(start, now - start, v.factor);
  }

  lemma LadderReachesOn(start: nat, recent: nat, n: nat)
    requires Ladder(start, recent, n) != []
    ensures recent > 0
  {
    LadderGeometry(start, recent, n);
    SlotsReachOn(start, Ladder(start, recent, n));
  }

  lemma SlotsReachOn(start: nat, slots: seq<Slot>)
    requires Tiles(start, slots) && slots != []
    ensures LadderEnd(start, slots) > start
  {
    var last := |slots| - 1;
    if last > 0 {
      TilesOrdered(start, slots, 0, last);
    }
  }

  /** An update strictly between the end of the last partial slice and `nextUpdateAt` changes neither
      the count, nor the slices and their hashes, nor the store, nor `nextUpdateAt`. */
  lemma EarlyUpdateChangesNothing(v: View, v': View, count: nat, now: nat, later: nat, ops: set<Op>,
                                  stored: map<nat, Hash>, stored': map<nat, Hash>)
    requires v.factor == v'.factor && v.sector == v'.sector && v.partials != []
    requires InStep(v, count, now, ops, stored)
    requires v.partials[|v.partials| - 1].slot.End() < later < v.nextUpdateAt
    requires InStep(v', Max(count, FullCount(v.factor, later)), later, ops, stored')
    ensures v'.fullSlices == v.fullSlices && v'.partials == v.partials && v'.nextUpdateAt == v.nextUpdateAt
    ensures stored' == stored
  {
    PartialsReach(v, count, now, ops, stored);
    NothingToDoBeforeNextUpdate(v.factor, count, now, later);
    var w := v.(updatedAt := later);
    assert InStep(w, count, later, ops, stored);
    StateIsDetermined(w, v', count, later, ops, stored, stored');
  }

  /** Updating a partition early: nothing of it changes but the time of the update, and nothing in the store. */
  method UpdateEarly(pt: TimePartition, now: nat, store: OpStore, ghost len: nat)
    requires pt.LaidOut() && pt.Agrees(store.ops, store.Stored(pt.sector)) && IdLength(store.ops, len)
    requires pt.partialSlices != []
    requires pt.partialSlices[|pt.partialSlices| - 1].slot.End() < now < pt.nextUpdateAt
    modifies pt, store`sliceHashes
    ensures pt.AsView() == old(pt.AsView()).(updatedAt := now)
    ensures forall a :: store.Stored(a) == old(store.Stored(a))
  {
    ghost var v, stored := pt.AsView(), store.Stored(pt.sector);
    pt.ViewMeans(store.ops, stored);
    PartialsReach(v, v.fullSlices, v.updatedAt, store.ops, stored);
    CoveredEndBounds(v.factor, v.fullSlices, v.updatedAt);
    var r := pt.Update(now, store, len);
    pt.ViewMeans(store.ops, store.Stored(pt.sector));
    EarlyUpdateChangesNothing(v, pt.AsView(), v.fullSlices, v.updatedAt, now, store.ops, stored,
                              store.Stored(pt.sector));
  }

  /** Updating a partition late: the time covered grows. */
  method UpdateLate(pt: TimePartition, now: nat, store: OpStore, ghost len: nat)
    requires pt.LaidOut() && pt.Agrees(store.ops, store.Stored(pt.sector)) && IdLength(store.ops, len)
    requires pt.partialSlices != [] && pt.nextUpdateAt < now
    modifies pt, store`sliceHashes
    ensures pt.LaidOut() && pt.updatedAt == now
    ensures CoveredEnd(pt.factor, pt.fullSlices, now) >
            CoveredEnd(pt.factor, old(pt.fullSlices), old(pt.updatedAt))
    ensures pt.partialSlices != [] ==> pt.nextUpdateAt > old(pt.nextUpdateAt)
  {
    ghost var v, stored := pt.AsView(), store.Stored(pt.sector);
    pt.ViewMeans(store.ops, stored);
    PartialsReach(v, v.fullSlices, v.updatedAt, store.ops, stored);
    CoveredEndBounds(v.factor, v.fullSlices, v.updatedAt);
    var r := pt.Update(now, store, len);
    pt.ViewMeans(store.ops, store.Stored(pt.sector));
    LateUpdateAdvances(v, pt.AsView(), v.fullSlices, v.updatedAt, now, store.ops, stored, store.Stored(pt.sector));
  }

  /** An update after `nextUpdateAt` strictly advances the covered end, and the next update with it. */
  lemma LateUpdateAdvances(v: View, v': View, count: nat, now: nat, later: nat, ops: set<Op>,
                           stored: map<nat, Hash>, stored': map<nat, Hash>)
    requires v.factor == v'.factor && v.sector == v'.sector && v.partials != []
    requires InStep(v, count, now, ops, stored) && v.nextUpdateAt < later
    requires InStep(v', Max(count, FullCount(v.factor, later)), later, ops, stored')
    ensures CoveredEnd(v.factor, v'.fullSlices, later) > CoveredEnd(v.factor, count, now)
    ensures v'.partials != [] ==> v'.nextUpdateAt > v.nextUpdateAt
  {
    PartialsReach(v, count, now, ops, stored);
    CoveredEndBounds(v.factor, count, now);
    var count' := v'.fullSlices;
    FullSlicesLeaveTime(v.factor, count, count', later);
    LaterUpdateAdvances(v.factor, count, now, count', later);
    if v'.partials != [] {
      PartialsReach(v', count', later, ops, stored');
    }
  }

  lemma FullSlicesLeaveTime(factor: nat, count: nat, count': nat, later: nat)
    requires factor >= 1 && FullEnd(factor, count) < later
    requires count' == Max(count, FullCount(factor, later))
    ensures FullEnd(factor, count') < later
  {
    if FullCount(factor, later) > count {
      CountAheadIff(factor, count', later);
      assert MinRecent(factor) > 0;
    }
  }
}
