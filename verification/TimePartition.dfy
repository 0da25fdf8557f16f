/** The time partition of one sector (crates/dht/src/time.rs): full slices with hashes in the op
    store and partial slices with hashes in memory. */
module TimePartitions {
  import opened Wrappers
  import opened Combine
  import opened Arcs
  import opened TimeLayout
  import opened LayoutLaws
  import opened Ops
  import opened SliceCache

  /** Combines an op into the partial slice that contains it. */
  method AddToPartial(partials: seq<PartialSlice>, k: nat, op: Op, ghost arc: DhtArc, ghost known: set<Op>,
                      ghost len: nat)
      returns (partials': seq<PartialSlice>)
    requires PartialsAgree(known, arc, partials) && k < |partials|
    requires op !in known && Contains(arc, op.loc) && IdLength(known + {op}, len)
    requires forall j :: 0 <= j < |partials| ==>
               (partials[j].slot.start <= op.createdAt < partials[j].slot.End() <==> j == k)
    ensures PartialsAgree(known + {op}, arc, partials') && SlotsOf(partials') == SlotsOf(partials)
    ensures partials' != [] && partials'[|partials'| - 1].slot == partials[|partials| - 1].slot
  {
    SetHashLength(OpsIn(known, arc, partials[k].slot.start, partials[k].slot.End()), len);
    var hash := CombineHashes(partials[k].hash, op.id);
    RecentOp(known, op, arc, partials, k);
    SlotsKept(partials, k, hash);
    partials' := partials[k := partials[k].(hash := hash)];
  }

  /** Fetches and combines the op hashes of an interval, as both kinds of slices do. */
  method CombinedHash(store: OpStore, arc: DhtArc, lo: nat, hi: nat, ghost len: nat) returns (hash: Hash)
    requires IdLength(store.ops, len)
    ensures hash == SetHash(OpsIn(store.ops, arc, lo, hi))
  {
    var found, _ := store.RetrieveOpHashesInTimeSlice(arc, lo, hi);
    ListHashIsSetHash(found);
    assert forall i :: 0 <= i < |found| ==> found[i] in SetOf(found);
    hash := CombineOpHashes(Ids(found));
  }

  datatype View = View(
    factor: nat, sector: DhtArc, fullSlices: nat, partials: seq<PartialSlice>, nextUpdateAt: nat, updatedAt: nat)

  /** A partition is laid out with `count` full slices, due at `now`, and agrees with a set of ops. */
  ghost predicate InStep(v: View, count: nat, now: nat, ops: set<Op>, stored: map<nat, Hash>) {
    && 1 <= v.factor <= 54 && v.fullSlices == count && v.updatedAt == now
    && CaughtUp(v.factor, count, now)
    && SlotsOf(v.partials) == Partials(v.factor, count, now)
    && (v.partials != [] ==> v.nextUpdateAt == v.partials[|v.partials| - 1].slot.End() + UNIT)
    && SliceHashesAgree(ops, v.sector, v.factor, stored, count)
    && PartialsAgree(ops, v.sector, v.partials)
  }

  class TimePartition {
    const factor: nat
    const sector: DhtArc
    var fullSlices: nat
    var partialSlices: seq<PartialSlice>
    var nextUpdateAt: nat
    /** The time of the last update. */
    ghost var updatedAt: nat

    /** The cached hashes agree with a set of ops. */
    ghost predicate Agrees(ops: set<Op>, stored: map<nat, Hash>)
      reads this
    {
      && 1 <= factor <= 54
      && SliceHashesAgree(ops, sector, factor, stored, fullSlices)
      && PartialsAgree(ops, sector, partialSlices)
    }

    /** The slices are those due at `updatedAt`. */
    ghost predicate LaidOut()
      reads this
    {
      && CaughtUp(factor, fullSlices, updatedAt)
      && SlotsOf(partialSlices) == Partials(factor, fullSlices, updatedAt)
      && (partialSlices != [] ==> nextUpdateAt == partialSlices[|partialSlices| - 1].slot.End() + UNIT)
    }

    /** The whole state of the partition as a value. */
    ghost function AsView(): View
      reads this
    {
      View(factor, sector, fullSlices, partialSlices, nextUpdateAt, updatedAt)
    }

    /** The state as a value says the same as the state itself. */
    lemma ViewMeans(ops: set<Op>, stored: map<nat, Hash>)
      ensures InStep(AsView(), fullSlices, updatedAt, ops, stored) <==> LaidOut() && Agrees(ops, stored)
    {
    }

    /** An instance that still needs its first update. */
    constructor (factor: nat, sector: DhtArc)
      ensures this.factor == factor && this.sector == sector
      ensures fullSlices == 0 && partialSlices == [] && nextUpdateAt == 0
    {
      this.factor := factor;
      this.sector := sector;
      fullSlices, partialSlices, nextUpdateAt, updatedAt := 0, [], 0, 0;
    }

    /** Stores the hashes of the full slices that have become due. */
    method UpdateFullSliceHashes(now: nat, store: OpStore, ghost len: nat) returns (r: Result<()>)
      requires Agrees(store.ops, store.Stored(sector)) && IdLength(store.ops, len)
      modifies this`fullSlices, store`sliceHashes
      ensures r.Err? <==> now < FullEnd(factor, old(fullSlices))
      ensures r.Err? ==> fullSlices == old(fullSlices) && store.sliceHashes == old(store.sliceHashes)
      ensures r.Ok? ==> fullSlices == Max(old(fullSlices), FullCount(factor, now))
      ensures fullSlices == old(fullSlices) ==> store.sliceHashes == old(store.sliceHashes)
      ensures Agrees(store.ops, store.Stored(sector))
      ensures forall a :: a != sector ==> store.Stored(a) == old(store.Stored(a))
    {
      LayoutFullReaches(factor, fullSlices, now);
      var due := LayoutFullSlices(factor, fullSlices, now);
      if due.Err? {
        return Err;
      }
      var end := FullEnd(factor, fullSlices);
      for n := 0 to due.value
        invariant fullSlices == old(fullSlices) + n && end == FullEnd(factor, fullSlices)
        invariant n == 0 ==> store.sliceHashes == old(store.sliceHashes)
        invariant Agrees(store.ops, store.Stored(sector))
        invariant forall a :: a != sector ==> store.Stored(a) == old(store.Stored(a))
      {
        StoreNextSlice(end, store, len);
        end := end + SliceSize(factor);
      }
      return Ok(());
    }

    /** Counts the next full slice, storing its hash unless it is empty. */
    method StoreNextSlice(end: nat, store: OpStore, ghost len: nat)
      requires Agrees(store.ops, store.Stored(sector)) && IdLength(store.ops, len) && end == FullEnd(factor, fullSlices)
      modifies this`fullSlices, store`sliceHashes
      ensures fullSlices == old(fullSlices) + 1 && Agrees(store.ops, store.Stored(sector))
      ensures forall a :: a != sector ==> store.Stored(a) == old(store.Stored(a))
    {
      assert FullEnd(factor, fullSlices + 1) == end + SliceSize(factor);
      var hash := CombinedHash(store, sector, end, end + SliceSize(factor), len);
      CompleteSlice(store.ops, sector, factor, store.Stored(sector), fullSlices, hash, len);
      if hash != [] {
        store.StoreSliceHash(sector, fullSlices, hash);
      }
      fullSlices := fullSlices + 1;
    }

    /** Finds the hash of an unchanged slice. */
    method FindOldHash(partials: seq<PartialSlice>, slot: Slot) returns (r: Option<Hash>)
      ensures r.Some? ==> exists k :: 0 <= k < |partials| && partials[k] == PartialSlice(slot, r.value)
      ensures r.None? ==> forall k :: 0 <= k < |partials| ==> partials[k].slot != slot
    {
      for k := 0 to |partials|
        invariant forall j :: 0 <= j < k ==> partials[j].slot != slot
      {
        if partials[k].slot == slot {
          return Some(partials[k].hash);
        }
      }
      return None;
    }

    /** The hash of one slice: kept, computed, or known to be empty. */
    method SlotHash(slot: Slot, partials: seq<PartialSlice>, earliest: Option<nat>, store: OpStore, ghost len: nat)
        returns (hash: Hash)
      requires PartialsAgree(store.ops, sector, partials) && IdLength(store.ops, len)
      requires earliest.None? ==> forall o :: o in store.ops ==> !Contains(sector, o.loc)
      requires earliest.Some? ==>
                 forall o :: o in store.ops && Contains(sector, o.loc) ==> earliest.value <= o.createdAt
      ensures hash == SetHash(OpsIn(store.ops, sector, slot.start, slot.End()))
    {
      var oldHash := FindOldHash(partials, slot);
      if oldHash.Some? {
        hash := oldHash.value;
      } else if earliest.Some? && slot.End() >= earliest.value {
        hash := CombinedHash(store, sector, slot.start, slot.End(), len);
      } else {
        assert OpsIn(store.ops, sector, slot.start, slot.End()) == {};
        hash := [];
      }
    }

    /** Lays out the partial slices anew, keeping the hashes of unchanged ones. */
    method UpdatePartials(earliest: Option<nat>, now: nat, store: OpStore, ghost len: nat) returns (r: Result<()>)
      requires Agrees(store.ops, store.Stored(sector)) && IdLength(store.ops, len)
      requires earliest.None? ==> forall o :: o in store.ops ==> !Contains(sector, o.loc)
      requires earliest.Some? ==>
                 forall o :: o in store.ops && Contains(sector, o.loc) ==> earliest.value <= o.createdAt
      modifies this`partialSlices
      ensures r.Err? <==> now < FullEnd(factor, fullSlices)
      ensures r.Err? ==> partialSlices == old(partialSlices)
      ensures r.Ok? ==> SlotsOf(partialSlices) == Partials(factor, fullSlices, now)
      ensures Agrees(store.ops, store.Stored(sector))
    {
      var layout := LayoutPartials(factor, FullEnd(factor, fullSlices), now);
      if layout.Err? {
        return Err;
      }
      partialSlices := FillSlots(layout.value, earliest, store, len);
      return Ok(());
    }

    /** Pairs each new slot with its hash. */
    method FillSlots(slots: seq<Slot>, earliest: Option<nat>, store: OpStore, ghost len: nat)
        returns (partials: seq<PartialSlice>)
      requires PartialsAgree(store.ops, sector, partialSlices) && IdLength(store.ops, len)
      requires earliest.None? ==> forall o :: o in store.ops ==> !Contains(sector, o.loc)
      requires earliest.Some? ==>
                 forall o :: o in store.ops && Contains(sector, o.loc) ==> earliest.value <= o.createdAt
      ensures SlotsOf(partials) == slots && PartialsAgree(store.ops, sector, partials)
    {
      partials := [];
      for k := 0 to |slots|
        invariant SlotsOf(partials) == slots[..k]
        invariant PartialsAgree(store.ops, sector, partials)
      {
        var hash := SlotHash(slots[k], partialSlices, earliest, store, len);
        partials := partials + [PartialSlice(slots[k], hash)];
        assert SlotsOf(partials) == slots[..k] + [slots[k]];
      }
    }

    /** Brings the partition up to the current time. It fails, changing nothing, exactly when the
        clock is behind the full slices. */
    method Update(now: nat, store: OpStore, ghost len: nat) returns (r: Result<()>)
      requires Agrees(store.ops, store.Stored(sector)) && IdLength(store.ops, len)
      modifies this, store`sliceHashes
      ensures r.Err? <==> now < FullEnd(factor, old(fullSlices))
      ensures r.Err? ==> unchanged(this) && store.sliceHashes == old(store.sliceHashes)
      ensures r.Ok? ==> LaidOut() && updatedAt == now && fullSlices == Max(old(fullSlices), FullCount(factor, now))
      ensures r.Ok? && partialSlices == [] ==> nextUpdateAt == old(nextUpdateAt)
      ensures fullSlices == old(fullSlices) ==> store.sliceHashes == old(store.sliceHashes)
      ensures Agrees(store.ops, store.Stored(sector))
      ensures forall a :: a != sector ==> store.Stored(a) == old(store.Stored(a))
    {
      var full := UpdateFullSliceHashes(now, store, len);
      if full.Err? {
        return Err;
      }
      var earliest := store.EarliestTimestampInArc(sector);
      FullSlicesEndBefore(factor, old(fullSlices), now);
      var partials := UpdatePartials(earliest, now, store, len);
      ScheduleNext(now);
      return Ok(());
    }

    /** Sets when the next update is due, if there are partial slices to tell it from. */
    method ScheduleNext(now: nat)
      requires CaughtUp(factor, fullSlices, now) && SlotsOf(partialSlices) == Partials(factor, fullSlices, now)
      modifies this`nextUpdateAt, this`updatedAt
      ensures LaidOut() && updatedAt == now
      ensures partialSlices == [] ==> nextUpdateAt == old(nextUpdateAt)
    {
      if |partialSlices| > 0 {
        nextUpdateAt := partialSlices[|partialSlices| - 1].slot.End() + UNIT;
      }
      updatedAt := now;
    }

    /** The slots of the partition tile time from the end of the full slices. */
    lemma SlotsTileTime()
      requires LaidOut()
      ensures Tiles(FullEnd(factor, fullSlices), SlotsOf(partialSlices))
    {
      LadderGeometry(FullEnd(factor, fullSlices), updatedAt - FullEnd(factor, fullSlices), factor);
    }

    /** Walks the partial slices backwards to the first that starts no later than `t`: the only one
        that contains it. */
    method FindPartial(t: nat) returns (k: nat)
      requires LaidOut() && partialSlices != []
      requires FullEnd(factor, fullSlices) <= t < partialSlices[|partialSlices| - 1].slot.End()
      ensures k < |partialSlices|
      ensures forall j :: 0 <= j < |partialSlices| ==>
                (partialSlices[j].slot.start <= t < partialSlices[j].slot.End() <==> j == k)
    {
      ghost var slots := SlotsOf(partialSlices);
      SlotsTileTime();
      k := |partialSlices| - 1;
      while t < partialSlices[k].slot.start
        invariant k < |partialSlices| && t < partialSlices[k].slot.End()
      {
        assert slots[k].start == partialSlices[k].slot.start;
        assert k > 0 && slots[k].start == slots[k - 1].End();
        k := k - 1;
      }
      forall j | 0 <= j < |partialSlices|
        ensures partialSlices[j].slot.start <= t < partialSlices[j].slot.End() <==> j == k
      {
        assert slots[j] == partialSlices[j].slot && slots[k] == partialSlices[k].slot;
        if j < k {
          TilesOrdered(FullEnd(factor, fullSlices), slots, j, k);
        } else if k < j {
          TilesOrdered(FullEnd(factor, fullSlices), slots, k, j);
        }
      }
    }

    /** Takes up one stored op: into the stored hash of its full slice, into its partial slice, or
        nowhere if it is too recent for any slice. */
    method InformOp(op: Op, store: OpStore, ghost known: set<Op>, ghost len: nat)
      requires LaidOut() && Agrees(known, store.Stored(sector))
      requires op !in known && Contains(sector, op.loc) && IdLength(known + {op}, len)
      modifies this`partialSlices, store`sliceHashes
      ensures LaidOut() && Agrees(known + {op}, store.Stored(sector))
      ensures SlotsOf(partialSlices) == old(SlotsOf(partialSlices))
      ensures forall a :: a != sector ==> store.Stored(a) == old(store.Stored(a))
    {
      if op.createdAt < FullEnd(factor, fullSlices) {
        InformHistorical(op, store, known, len);
      } else {
        RecentOpSparesSlices(known, op, sector, factor, store.Stored(sector), fullSlices);
        if partialSlices == [] {
          return;
        }
        if op.createdAt >= partialSlices[|partialSlices| - 1].slot.End() {
          SparedByRecency(known, op);
          return;
        }
        InformRecent(op, known, len);
      }
    }

    /** Takes up an op of a full slice. */
    method InformHistorical(op: Op, store: OpStore, ghost known: set<Op>, ghost len: nat)
      requires LaidOut() && Agrees(known, store.Stored(sector))
      requires op !in known && Contains(sector, op.loc) && IdLength(known + {op}, len)
      requires op.createdAt < FullEnd(factor, fullSlices)
      modifies store`sliceHashes
      ensures Agrees(known + {op}, store.Stored(sector))
      ensures forall a :: a != sector ==> store.Stored(a) == old(store.Stored(a))
    {
      HistoricalOp(known, op, sector, factor, store.Stored(sector), fullSlices);
      SparedByHistory(known, op);
      var index := Div(op.createdAt, SliceSize(factor));
      if index in store.Stored(sector) {
        SetHashLength(SliceOps(known, sector, factor, index), len);
        var hash := CombineHashes(store.Stored(sector)[index], op.id);
        store.StoreSliceHash(sector, index, hash);
      } else {
        store.StoreSliceHash(sector, index, op.id);
      }
    }

    /** Takes up an op of a partial slice. */
    method InformRecent(op: Op, ghost known: set<Op>, ghost len: nat)
      requires LaidOut() && PartialsAgree(known, sector, partialSlices) && partialSlices != []
      requires op !in known && Contains(sector, op.loc) && IdLength(known + {op}, len)
      requires FullEnd(factor, fullSlices) <= op.createdAt < partialSlices[|partialSlices| - 1].slot.End()
      modifies this`partialSlices
      ensures LaidOut() && PartialsAgree(known + {op}, sector, partialSlices)
      ensures SlotsOf(partialSlices) == old(SlotsOf(partialSlices))
    {
      var k := FindPartial(op.createdAt);
      partialSlices := AddToPartial(partialSlices, k, op, sector, known, len);
    }

    lemma SparedByHistory(known: set<Op>, op: Op)
      requires LaidOut() && PartialsAgree(known, sector, partialSlices) && Contains(sector, op.loc)
      requires op.createdAt < FullEnd(factor, fullSlices)
      ensures PartialsAgree(known + {op}, sector, partialSlices)
    {
      SlotsTileTime();
      var slots := SlotsOf(partialSlices);
      forall k | 0 <= k < |partialSlices|
        ensures partialSlices[k].slot.start > op.createdAt
      {
        assert slots[k] == partialSlices[k].slot;
        if k > 0 {
          TilesOrdered(FullEnd(factor, fullSlices), slots, 0, k);
        }
      }
      OpSparesPartials(known, op, sector, partialSlices);
    }

    lemma SparedByRecency(known: set<Op>, op: Op)
      requires LaidOut() && PartialsAgree(known, sector, partialSlices) && Contains(sector, op.loc)
      requires partialSlices != [] && op.createdAt >= partialSlices[|partialSlices| - 1].slot.End()
      ensures PartialsAgree(known + {op}, sector, partialSlices)
    {
      SlotsTileTime();
      var slots := SlotsOf(partialSlices);
      var last := |slots| - 1;
      forall k | 0 <= k < |partialSlices|
        ensures partialSlices[k].slot.End() <= op.createdAt
      {
        assert slots[k] == partialSlices[k].slot && slots[last] == partialSlices[last].slot;
        if k < last {
          TilesOrdered(FullEnd(factor, fullSlices), slots, k, last);
        }
      }
      OpSparesPartials(known, op, sector, partialSlices);
    }

    /** Takes up a batch of stored ops of this sector, each of them new. */
    method InformOpsStored(batch: seq<Op>, store: OpStore, ghost known: set<Op>, ghost len: nat)
      requires LaidOut() && Agrees(known, store.Stored(sector))
      requires Distinct(batch) && SetOf(batch) !! known && IdLength(known + SetOf(batch), len)
      requires forall o :: o in batch ==> Contains(sector, o.loc)
      modifies this`partialSlices, store`sliceHashes
      ensures LaidOut() && Agrees(known + SetOf(batch), store.Stored(sector))
      ensures SlotsOf(partialSlices) == old(SlotsOf(partialSlices))
      ensures forall a :: a != sector ==> store.Stored(a) == old(store.Stored(a))
    {
      ghost var taken := known;
      for i := 0 to |batch|
        invariant taken == known + SetOf(batch[..i])
        invariant LaidOut() && Agrees(taken, store.Stored(sector))
        invariant SlotsOf(partialSlices) == old(SlotsOf(partialSlices))
        invariant forall a :: a != sector ==> store.Stored(a) == old(store.Stored(a))
      {
        NextOfBatch(batch, i, known);
        InformOp(batch[i], store, taken, len);
        taken := taken + {batch[i]};
      }
      assert batch[..|batch|] == batch;
    }

    /** The combination of all stored full-slice hashes: the hash of every op of the sector that was
        created before the end of the full slices. */
    method FullTimeSliceTopHash(store: OpStore, ghost len: nat) returns (hash: Hash)
      requires Agrees(store.ops, store.Stored(sector)) && IdLength(store.ops, len)
      ensures hash == SetHash(OpsIn(store.ops, sector, 0, FullEnd(factor, fullSlices)))
    {
      var listing, n := store.RetrieveSliceHashes(sector);
      assert n <= fullSlices;
      ListingStable(store.Stored(sector), n, fullSlices);
      ListingHash(store.ops, sector, factor, store.Stored(sector), fullSlices, fullSlices);
      ListingLength(store.ops, sector, factor, store.Stored(sector), fullSlices, n, len);
      hash := CombineOpHashes(HashesOf(listing));
    }

    /** The hash of one partial slice, or an error beyond the last. */
    method PartialSliceHash(index: nat, ghost ops: set<Op>) returns (r: Result<Hash>)
      requires PartialsAgree(ops, sector, partialSlices)
      ensures r.Err? <==> index >= |partialSlices|
      ensures r.Ok? ==>
                r.value == SetHash(OpsIn(ops, sector, partialSlices[index].slot.start, partialSlices[index].slot.End()))
    {
      if index >= |partialSlices| {
        return Err;
      }
      return Ok(partialSlices[index].hash);
    }

    /** Rebuilds a partition from the store. It succeeds exactly when the initial count is not ahead
        of the time, and then the count is the one the time alone asks for. */
    static method TryFromStore(factor: nat, now: nat, sector: DhtArc, store: OpStore, ghost len: nat)
        returns (r: Result<TimePartition>)
      requires factor >= 1
      requires Persisted(store.ops, sector, factor, store.Stored(sector)) && IdLength(store.ops, len)
      modifies store`sliceHashes
      ensures r.Ok? <==>
              sector.Arc? && factor <= 54 && NotAhead(store.ops, sector, factor, now, old(store.Stored(sector)))
      ensures r.Ok? ==>
                && fresh(r.value) && r.value.sector == sector && r.value.factor == factor
                && r.value.Agrees(store.ops, store.Stored(sector)) && r.value.LaidOut()
                && r.value.updatedAt == now && r.value.fullSlices == FullCount(factor, now)
      ensures Persisted(store.ops, sector, factor, store.Stored(sector))
      ensures forall a :: a != sector ==> store.Stored(a) == old(store.Stored(a))
    {
      var count := store.SliceHashCount(sector);
      PersistedCount(store.ops, sector, factor, store.Stored(sector), count);
      var start := count;
      if count == 0 {
        var earliest := store.EarliestTimestampInArc(sector);
        var index := Div(if earliest.Some? then earliest.value else now, SliceSize(factor));
        start := if index == 0 then 0 else index - 1;
        assert store.Stored(sector) == map[];
        StartBefore(if earliest.Some? then earliest.value else now, factor);
        SkipEmptySlices(store.ops, sector, factor, start);
      }
      NotAheadIs(store.ops, sector, factor, now, store.Stored(sector), start);
      if sector.Empty? || factor > 54 {
        return Err;
      }
      var pt := new TimePartition(factor, sector);
      pt.fullSlices := start;
      if start > 0 {
        CountAheadIff(factor, start, now);
      }
      if now < FullEnd(factor, start) {
        return Err;
      }
      if start > 0 && now - FullEnd(factor, start) < MinRecent(factor) {
        return Err;
      }
      var updated := pt.Update(now, store, len);
      return Ok(pt);
    }
  }

  lemma SlotsKept(partials: seq<PartialSlice>, k: nat, hash: Hash)
    requires k < |partials|
    ensures var partials' := partials[k := partials[k].(hash := hash)];
            SlotsOf(partials') == SlotsOf(partials) && partials'[|partials| - 1].slot == partials[|partials| - 1].slot
  {
  }

  lemma NextOfBatch(batch: seq<Op>, i: nat, known: set<Op>)
    requires Distinct(batch) && i < |batch| && SetOf(batch) !! known
    ensures batch[i] in batch && batch[i] !in known + SetOf(batch[..i])
    ensures known + SetOf(batch[..i + 1]) == known + SetOf(batch[..i]) + {batch[i]} <= known + SetOf(batch)
  {
    assert batch[..i + 1] == batch[..i] + [batch[i]];
    SetOfPush(batch[..i], batch[i]);
    assert batch[i] in SetOf(batch);
  }

  /** Where a rebuilt partition starts counting: after the highest stored slice, or, with nothing
      stored, one slice before that of the earliest op, or of the current time if there is none. */
  ghost predicate InitialCount(ops: set<Op>, sector: DhtArc, factor: nat, now: nat, stored: map<nat, Hash>, count: nat)
  {
    if stored != map[] then
      count > 0 && count - 1 in stored && forall i :: i in stored ==> i < count
    else
      exists t: nat ::
        && EarliestOr(ops, sector, now, t)
        && count == if Div(t, SliceSize(factor)) == 0 then 0 else Div(t, SliceSize(factor)) - 1
  }

  /** The time of the earliest op of the sector, or the current time if it has none. */
  ghost predicate EarliestOr(ops: set<Op>, sector: DhtArc, now: nat, t: nat) {
    if exists o :: o in ops && Contains(sector, o.loc) then
      && (exists o :: o in ops && Contains(sector, o.loc) && o.createdAt == t)
      && (forall o :: o in ops && Contains(sector, o.loc) ==> t <= o.createdAt)
    else
      t == now
  }

  /** The initial count is zero or leaves the reserved recent time. */
  ghost predicate NotAhead(ops: set<Op>, sector: DhtArc, factor: nat, now: nat, stored: map<nat, Hash>)
    requires factor >= 1
  {
    forall count: nat :: InitialCount(ops, sector, factor, now, stored, count) ==>
                           count == 0 || count <= FullCount(factor, now)
  }

  lemma NotAheadIs(ops: set<Op>, sector: DhtArc, factor: nat, now: nat, stored: map<nat, Hash>, count: nat)
    requires factor >= 1 && InitialCount(ops, sector, factor, now, stored, count)
    ensures NotAhead(ops, sector, factor, now, stored) <==> count == 0 || count <= FullCount(factor, now)
  {
    forall c: nat | InitialCount(ops, sector, factor, now, stored, c)
      ensures c == count
    {
    }
  }

  /** When a restart works, in plain times: with slice hashes stored, the reserved time must have passed since the
      end of the highest slice. */
  lemma RestartFromStored(ops: set<Op>, sector: DhtArc, factor: nat, now: nat, stored: map<nat, Hash>, h: nat)
    requires factor >= 1 && h in stored && forall i :: i in stored ==> i <= h
    ensures NotAhead(ops, sector, factor, now, stored) <==> (h + 1) * SliceSize(factor) + MinRecent(factor) <= now
  {
    var count := h + 1;
    assert InitialCount(ops, sector, factor, now, stored, count);
    NotAheadIs(ops, sector, factor, now, stored, count);
    CountAheadIff(factor, count, now);
    FullCountIsFloor(factor, now, count);
  }

  /** With none stored, either the earliest op lies in the first two slices, or the reserved time must have passed
      since the end of the slice two before its own. */
  lemma RestartFromNothing(ops: set<Op>, sector: DhtArc, factor: nat, now: nat, t: nat)
    requires factor >= 1 && EarliestOr(ops, sector, now, t)
    ensures NotAhead(ops, sector, factor, now, map[]) <==>
            || t < 2 * SliceSize(factor)
            || (t / SliceSize(factor) - 1) * SliceSize(factor) + MinRecent(factor) <= now
  {
    var index := Div(t, SliceSize(factor));
    var count := if index == 0 then 0 else index - 1;
    DivIsQuotient(t, SliceSize(factor));
    DivGalois(t, SliceSize(factor), 2);
    TimesUpToTwo(SliceSize(factor));
    assert InitialCount(ops, sector, factor, now, map[], count);
    NotAheadIs(ops, sector, factor, now, map[], count);
    if count > 0 {
      CountAheadIff(factor, count, now);
      FullCountIsFloor(factor, now, count);
    }
  }

  /** A store written by partitions whose clocks were not ahead of this one can always be read back,
      unless it holds no slice hashes and its earliest op lies in the future. */
  lemma RestartSucceeds(ops: set<Op>, sector: DhtArc, factor: nat, now: nat, stored: map<nat, Hash>)
    requires factor >= 1
    requires forall i :: i in stored ==> i < FullCount(factor, now)
    requires stored == map[] ==> forall o :: o in ops && Contains(sector, o.loc) ==> o.createdAt <= now
    ensures NotAhead(ops, sector, factor, now, stored)
  {
    forall c: nat | InitialCount(ops, sector, factor, now, stored, c) && c > 0
      ensures c <= FullCount(factor, now)
    {
      if stored == map[] {
        var t: nat :| EarliestOr(ops, sector, now, t) && c == Div(t, SliceSize(factor)) - 1;
        DivBounds(t, SliceSize(factor));
        assert FullEnd(factor, c + 1) == FullEnd(factor, c) + SliceSize(factor);
        assert SliceSize(factor) == MinRecent(factor) + UNIT;
        CountAheadIff(factor, c, now);
      }
    }
  }

  /** For every clock there is a store that cannot be read back: nothing is stored but an op of the sector too far
      in the future. */
  method FutureOpBlocksRestart(factor: nat, sector: DhtArc, now: nat) returns (r: Result<TimePartition>)
    requires factor >= 1 && sector.Arc?
    ensures r.Err?
  {
    var count := FullCount(factor, now) + 2;
    var op := Op([1], sector.start, FullEnd(factor, count + 1), 0);
    var store := new OpStore();
    store.ops := {op};
    FutureOpAhead(op, sector, factor, now, count);
    SkipEmptySlices(store.ops, sector, factor, 0);
    assert Persisted(store.ops, sector, factor, map[]);
    r := TimePartition.TryFromStore(factor, now, sector, store, 1);
  }

  lemma FutureOpAhead(op: Op, sector: DhtArc, factor: nat, now: nat, count: nat)
    requires factor >= 1 && Contains(sector, op.loc) && op.createdAt == FullEnd(factor, count + 1)
    requires count > FullCount(factor, now)
    ensures !NotAhead({op}, sector, factor, now, map[])
  {
    DivIs(op.createdAt, SliceSize(factor), count + 1);
    assert EarliestOr({op}, sector, now, op.createdAt);
    assert InitialCount({op}, sector, factor, now, map[], count);
  }

  lemma FullSlicesEndBefore(factor: nat, count: nat, now: nat)
    requires factor >= 1 && FullEnd(factor, count) <= now
    ensures FullEnd(factor, Max(count, FullCount(factor, now))) <= now
  {
    if FullCount(factor, now) > 0 {
      CountAheadIff(factor, FullCount(factor, now), now);
    }
  }

  lemma StartBefore(t: nat, factor: nat)
    ensures var index := Div(t, SliceSize(factor));
            FullEnd(factor, if index == 0 then 0 else index - 1) <= t
  {
    var index := Div(t, SliceSize(factor));
    DivBounds(t, SliceSize(factor));
    if index > 0 {
      FullEndMonotone(factor, index - 1, index);
    }
  }
}
