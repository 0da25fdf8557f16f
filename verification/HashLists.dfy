/** Serving the op hashes of mismatched slices under a byte budget: the two hash-list loops of
    `handle_snapshot` (crates/dht/src/dht.rs). */
module HashLists {
  import opened Arcs
  import opened TimeLayout
  import opened LayoutLaws
  import opened Ops
  import opened SliceCache
  import opened Sectors
  import opened TimePartitions
  import opened HashPartitions
  import opened Dhts
  import opened Sorting
  import opened Tallies
  import opened Combine
  import opened Snapshots
  import opened Comparison
  import opened Pinpoint

  /** The total size of a set of ops. */
  ghost function SetSize(s: set<Op>): nat {
    if s == {} then 0
    else
      var o :| o in s;
      SetSize(s - {o}) + o.size
  }

  lemma {:induction false} SetSizeRemove(s: set<Op>, o: Op)
    requires o in s
    ensures SetSize(s) == SetSize(s - {o}) + o.size
    decreases |s|
  {
    var p :| p in s && SetSize(s) == SetSize(s - {p}) + p.size;
    if p != o {
      SetSizeRemove(s - {p}, o);
      SetSizeRemove(s - {o}, p);
      assert s - {p} - {o} == s - {o} - {p};
    }
  }

  lemma {:induction false} ListSizeIsSetSize(ops: seq<Op>)
    requires Distinct(ops)
    ensures TotalSize(ops) == SetSize(SetOf(ops))
  {
    if ops != [] {
      var n := |ops| - 1;
      ListSizeIsSetSize(ops[..n]);
      assert ops == ops[..n] + [ops[n]];
      SetOfPush(ops[..n], ops[n]);
      SetSizeRemove(SetOf(ops), ops[n]);
      assert SetOf(ops) - {ops[n]} == SetOf(ops[..n]);
    }
  }

  // ---------------------------------------------------------------- batches

  /** The ops each key stands for. */
  type Regions = Key -> set<Op>

  ghost function SizesOf(rs: Regions): Sizes {
    key => SetSize(rs(key))
  }

  /** Full slices, by sector and slice index. */
  ghost function DiscRegion(ops: set<Op>, factor: nat, key: Key): set<Op> {
    if key.0 < SECTORS then SliceOps(ops, SectorArc(key.0), factor, key.1) else {}
  }

  ghost function DiscRegions(ops: set<Op>, factor: nat): Regions {
    key => DiscRegion(ops, factor, key)
  }

  /** Partial slices, by ring and sector. */
  ghost function RingRegion(ops: set<Op>, slots: seq<Slot>, key: Key): set<Op> {
    if key.0 < |slots| && key.1 < SECTORS
    then OpsIn(ops, SectorArc(key.1), slots[key.0].start, slots[key.0].End())
    else {}
  }

  ghost function RingRegions(ops: set<Op>, slots: seq<Slot>): Regions {
    key => RingRegion(ops, slots, key)
  }

  function Flatten(batches: seq<seq<Op>>): seq<Op> {
    if batches == [] then [] else Flatten(batches[..|batches| - 1]) + batches[|batches| - 1]
  }

  lemma {:induction false} TotalSizeConcat(a: seq<Op>, b: seq<Op>)
    ensures TotalSize(a + b) == TotalSize(a) + TotalSize(b)
  {
    if b == [] {
      assert a + b == a;
    } else {
      var n := |b| - 1;
      assert (a + b)[..|a + b| - 1] == a + b[..n];
      TotalSizeConcat(a, b[..n]);
    }
  }

  /** One whole batch for each key. */
  ghost predicate Batched(batches: seq<seq<Op>>, rs: Regions, keys: seq<Key>) {
    |batches| == |keys| &&
    forall k :: 0 <= k < |batches| ==> Distinct(batches[k]) && SetOf(batches[k]) == rs(keys[k])
  }

  lemma BatchedPush(batches: seq<seq<Op>>, rs: Regions, keys: seq<Key>, key: Key, found: seq<Op>)
    requires Batched(batches, rs, keys) && Distinct(found) && SetOf(found) == rs(key)
    ensures Batched(batches + [found], rs, keys + [key])
  {
    var all := batches + [found];
    forall k | 0 <= k < |all|
      ensures Distinct(all[k]) && SetOf(all[k]) == rs((keys + [key])[k])
    {
      assert k < |batches| ==> all[k] == batches[k];
    }
  }

  /** The list is made of whole batches, one for each key of the tally in its order, and the bytes used are its
      size, counted in 32 bits. */
  ghost predicate Whole(out: seq<Op>, used: nat, batches: seq<seq<Op>>, rs: Regions, t: Tally) {
    && Batched(batches, rs, t.keys)
    && out == Flatten(batches)
    && t.bytes == TotalSize(out) && used == Wrap(t.bytes)
  }

  lemma WholePush(out: seq<Op>, used: nat, batches: seq<seq<Op>>, rs: Regions, t: Tally, key: Key, found: seq<Op>)
    requires Whole(out, used, batches, rs, t) && Distinct(found) && SetOf(found) == rs(key)
    ensures Whole(out + found, Wrap(t.bytes + TotalSize(found)), batches + [found], rs,
                  Tally(t.bytes + TotalSize(found), t.keys + [key]))
  {
    assert (batches + [found])[..|batches|] == batches;
    TotalSizeConcat(out, found);
    BatchedPush(batches, rs, t.keys, key, found);
  }

  lemma {:induction false} InFlatten(batches: seq<seq<Op>>, k: nat, o: Op)
    requires k < |batches| && o in batches[k]
    ensures o in Flatten(batches)
  {
    if k < |batches| - 1 {
      InFlatten(batches[..|batches| - 1], k, o);
    }
  }

  /** The ops of a served key are on the list. */
  lemma ServedIsListed(out: seq<Op>, used: nat, batches: seq<seq<Op>>, rs: Regions, t: Tally, key: Key, o: Op)
    requires Whole(out, used, batches, rs, t) && key in t.keys && o in rs(key)
    ensures o in out
  {
    var k :| 0 <= k < |t.keys| && t.keys[k] == key;
    assert o in SetOf(batches[k]);
    InFlatten(batches, k, o);
  }

  // ---------------------------------------------------------------- one row

  /** One retrieval to make: the interval of an arc that a key stands for. */
  datatype Job = Job(key: Key, arc: DhtArc, lo: nat, hi: nat)

  ghost predicate Faithful(job: Job, rs: Regions, ops: set<Op>) {
    rs(job.key) == OpsIn(ops, job.arc, job.lo, job.hi)
  }

  ghost predicate AllFaithful(jobs: seq<Job>, rs: Regions, ops: set<Op>) {
    forall n :: 0 <= n < |jobs| ==> Faithful(jobs[n], rs, ops)
  }

  function KeysOf(jobs: seq<Job>): seq<Key> {
    seq(|jobs|, n requires 0 <= n < |jobs| => jobs[n].key)
  }

  lemma JobsPush(jobs: seq<Job>, job: Job, rs: Regions, ops: set<Op>)
    requires AllFaithful(jobs, rs, ops) && Faithful(job, rs, ops)
    ensures AllFaithful(jobs + [job], rs, ops) && KeysOf(jobs + [job]) == KeysOf(jobs) + [job.key]
  {
  }

  method Retrieve(store: OpStore, job: Job, ghost rs: Regions) returns (found: seq<Op>, size: nat)
    requires Faithful(job, rs, store.ops)
    ensures Distinct(found) && SetOf(found) == rs(job.key) && size == TotalSize(found) == SizesOf(rs)(job.key)
  {
    found, size := store.RetrieveOpHashesInTimeSlice(job.arc, job.lo, job.hi);
    ListSizeIsSetSize(found);
  }

  /** Retrieves one batch and puts it on the list if the comparison admits it. A list within the budget stays
      so if and only if the batch is refused or the sum stays within the signed range. */
  method Offer(store: OpStore, job: Job, maxBytes: int, out: seq<Op>, used: nat,
               ghost batches: seq<seq<Op>>, ghost rs: Regions, ghost t: Tally)
      returns (out': seq<Op>, used': nat, ghost batches': seq<seq<Op>>)
    requires Whole(out, used, batches, rs, t) && Faithful(job, rs, store.ops)
    ensures Whole(out', used', batches', rs, Offered(SizesOf(rs), job.key, maxBytes, t))
    ensures 0 <= maxBytes <= I32_MAX && TotalSize(out) <= maxBytes ==>
              (TotalSize(out') <= maxBytes <==>
               batches' == batches || TotalSize(out) + SetSize(rs(job.key)) <= I32_MAX)
  {
    var found, size := Retrieve(store, job, rs);
    ghost var sum := t.bytes + size;
    SameCast(t.bytes, used, size, sum);
    CastIs(sum);
    if Cast(used + size) <= maxBytes {
      WholePush(out, used, batches, rs, t, job.key, found);
      out', used', batches' := out + found, Wrap(used + size), batches + [found];
    } else {
      out', used', batches' := out, used, batches;
    }
  }

  /** Works through one row of jobs. The loop over rings stops as soon as the budget is spent; the
      loop over sectors looks at the budget between rows only. */
  method ServeRow(store: OpStore, jobs: seq<Job>, each: bool, maxBytes: int, out: seq<Op>, used: nat,
                  ghost batches: seq<seq<Op>>, ghost rs: Regions, ghost t: Tally)
      returns (out': seq<Op>, used': nat, ghost batches': seq<seq<Op>>)
    requires Whole(out, used, batches, rs, t) && AllFaithful(jobs, rs, store.ops)
    ensures Whole(out', used', batches', rs, RowTally(SizesOf(rs), KeysOf(jobs), each, maxBytes, t))
  {
    ghost var z, row := SizesOf(rs), KeysOf(jobs);
    out', used', batches' := out, used, batches;
    for n := 0 to |jobs|
      invariant Whole(out', used', batches', rs, RowTally(z, row[..n], each, maxBytes, t))
    {
      ghost var t' := RowTally(z, row[..n], each, maxBytes, t);
      CastIs(t'.bytes);
      if each && Cast(used') >= maxBytes {
        SpentRow(z, row, n, maxBytes, t);
        return;
      }
      assert row[..n + 1] == row[..n] + [jobs[n].key];
      RowTallyPush(z, row[..n], jobs[n].key, each, maxBytes, t);
      out', used', batches' := Offer(store, jobs[n], maxBytes, out', used', batches', rs, t');
    }
    assert row[..|jobs|] == row;
  }

  // ---------------------------------------------------------------- full slices

  lemma KeyedPush(a: nat, order: seq<nat>, n: nat, inner: nat)
    requires n < |order|
    ensures Keyed(a, order[..n + 1], inner) ==
            Keyed(a, order[..n], inner) + if order[n] < inner then [(a, order[n])] else []
  {
    assert order[..n + 1][..n] == order[..n];
  }

  /** The jobs of one sector, in slice order, with bounds read off the layout of sector 0. The guard lets the
      index one past the last full slice through. */
  method SectorRow(sector: nat, slices: set<nat>, factor: nat, count: nat, ghost inner: nat, ghost ops: set<Op>)
      returns (jobs: seq<Job>)
    requires sector < SECTORS && inner == count + 1
    ensures KeysOf(jobs) == Keyed(sector, Listed(slices), inner) && AllFaithful(jobs, DiscRegions(ops, factor), ops)
  {
    var order := Sort(slices);
    jobs := [];
    for n := 0 to |order|
      invariant KeysOf(jobs) == Keyed(sector, order[..n], inner) && AllFaithful(jobs, DiscRegions(ops, factor), ops)
    {
      KeyedPush(sector, order, n, inner);
      if order[n] <= count {
        var job := SectorJob(sector, order[n], factor, ops);
        JobsPush(jobs, job, DiscRegions(ops, factor), ops);
        jobs := jobs + [job];
      }
    }
    assert order[..|order|] == order;
  }

  method SectorJob(sector: nat, i: nat, factor: nat, ghost ops: set<Op>) returns (job: Job)
    requires sector < SECTORS
    ensures job.key == (sector, i) && Faithful(job, DiscRegions(ops, factor), ops)
  {
    var lo := FullEnd(factor, i);
    assert FullEnd(factor, i + 1) == lo + SliceSize(factor);
    job := Job((sector, i), SectorArc(sector), lo, lo + SliceSize(factor));
  }

  /** Serves the wanted slices of one sector, if there is such a sector. */
  method ServeSector(store: OpStore, wanted: map<nat, set<nat>>, sector: nat, factor: nat, count: nat, ghost inner: nat,
                     maxBytes: int, out: seq<Op>, used: nat, ghost batches: seq<seq<Op>>, ghost t: Tally)
      returns (out': seq<Op>, used': nat, ghost batches': seq<seq<Op>>)
    requires sector in wanted && inner == count + 1 && Whole(out, used, batches, DiscRegions(store.ops, factor), t)
    ensures var rs := DiscRegions(store.ops, factor);
            Whole(out', used', batches', rs,
                  RowTally(SizesOf(rs), RowFor(wanted, sector, SECTORS, inner), false, maxBytes, t))
  {
    out', used', batches' := out, used, batches;
    if sector < SECTORS {
      var jobs := SectorRow(sector, wanted[sector], factor, count, inner, store.ops);
      out', used', batches' := ServeRow(store, jobs, false, maxBytes, out, used, batches,
                                        DiscRegions(store.ops, factor), t);
    }
  }

  /** What a list promises: the batches are exactly those of the fold, in the order of their keys, none twice and
      none that was not asked for; it keeps within a non-negative budget if and only if no turn of the plain
      fold slips; and a budget of nothing gives nothing. */
  ghost predicate Lists(out: seq<Op>, used: nat, batches: seq<seq<Op>>, rs: Regions, wanted: map<nat, set<nat>>,
                        outer: nat, inner: nat, each: bool, maxBytes: int)
  {
    var z, rows := SizesOf(rs), Rows(wanted, outer, inner);
    var t := RowsTally(z, rows, each, maxBytes);
    && Whole(out, used, batches, rs, t) && Increasing(t.keys)
    && (forall key :: key in t.keys ==>
          key.0 in wanted && key.1 in wanted[key.0] && key.0 < outer && key.1 < inner)
    && (0 <= maxBytes <= I32_MAX ==> (TotalSize(out) <= maxBytes <==> !Slips(z, rows, each, maxBytes)))
    && (maxBytes <= 0 ==> out == [])
  }

  lemma ListKeeps(out: seq<Op>, used: nat, batches: seq<seq<Op>>, rs: Regions, wanted: map<nat, set<nat>>,
                  outer: nat, inner: nat, each: bool, maxBytes: int)
    requires Whole(out, used, batches, rs, RowsTally(SizesOf(rs), Rows(wanted, outer, inner), each, maxBytes))
    ensures Lists(out, used, batches, rs, wanted, outer, inner, each, maxBytes)
    ensures used == Wrap(TotalSize(out)) && (maxBytes <= 0 ==> out == [])
  {
    var z, rows := SizesOf(rs), Rows(wanted, outer, inner);
    TallyInOrder(z, wanted, Listed(wanted.Keys), outer, inner, each, maxBytes);
    if 0 <= maxBytes <= I32_MAX {
      WithinBudgetIff(z, rows, each, maxBytes);
    }
    if maxBytes <= 0 {
      NothingForNothing(z, rows, each, maxBytes);
    }
  }

  /** A list of full slices: the budget is looked at before each sector, and the guard lets the index one past
      the last full slice through. */
  ghost predicate ListsHistory(out: seq<Op>, used: nat, batches: seq<seq<Op>>, ops: set<Op>, factor: nat, count: nat,
                               wanted: map<nat, set<nat>>, maxBytes: int)
  {
    Lists(out, used, batches, DiscRegions(ops, factor), wanted, SECTORS, count + 1, false, maxBytes)
  }

  /** A list of partial slices: the budget is looked at before each batch. */
  ghost predicate ListsRecent(out: seq<Op>, used: nat, batches: seq<seq<Op>>, ops: set<Op>, slots: seq<Slot>,
                              wanted: map<nat, set<nat>>, maxBytes: int)
  {
    Lists(out, used, batches, RingRegions(ops, slots), wanted, |slots|, SECTORS, true, maxBytes)
  }

  /** The number of full slices, as sector 0 has it. */
  method FullSlices(dht: Dht) returns (count: nat)
    requires dht.Valid()
    ensures count == dht.count
  {
    assert InStep(dht.partition.Views()[0], dht.count, dht.now, dht.store.ops, Slices(dht.store)[0]);
    count := dht.partition.sectors[0].fullSlices;
  }

  /** The partial slices, as sector 0 has them. */
  method PartialSlices(dht: Dht) returns (partials: seq<PartialSlice>)
    requires dht.Valid()
    ensures SlotsOf(partials) == Partials(dht.partition.factor, dht.count, dht.now)
  {
    assert InStep(dht.partition.Views()[0], dht.count, dht.now, dht.store.ops, Slices(dht.store)[0]);
    partials := dht.partition.sectors[0].partialSlices;
  }

  /** The list for mismatched full slices, sector by sector. */
  method DiscHashList(dht: Dht, wanted: map<nat, set<nat>>, maxBytes: int)
      returns (out: seq<Op>, used: nat, ghost batches: seq<seq<Op>>)
    requires dht.Valid() && maxBytes <= I32_MAX
    ensures used == Wrap(TotalSize(out)) && (maxBytes <= 0 ==> out == [])
    ensures ListsHistory(out, used, batches, dht.store.ops, dht.partition.factor, dht.count, wanted, maxBytes)
  {
    var count := FullSlices(dht);
    out, used, batches := ListDisc(dht.store, dht.partition.factor, count, wanted, maxBytes, dht.count);
  }

  method ListDisc(store: OpStore, factor: nat, fullSlices: nat, wanted: map<nat, set<nat>>, maxBytes: int,
                  ghost count: nat)
      returns (out: seq<Op>, used: nat, ghost batches: seq<seq<Op>>)
    requires fullSlices == count
    ensures used == Wrap(TotalSize(out)) && (maxBytes <= 0 ==> out == [])
    ensures ListsHistory(out, used, batches, store.ops, factor, count, wanted, maxBytes)
  {
    out, used, batches := ServeDisc(store, factor, fullSlices, count + 1, wanted, maxBytes);
    ListKeeps(out, used, batches, DiscRegions(store.ops, factor), wanted, SECTORS, count + 1, false, maxBytes);
  }

  method ServeDisc(store: OpStore, factor: nat, count: nat, ghost inner: nat, wanted: map<nat, set<nat>>, maxBytes: int)
      returns (out: seq<Op>, used: nat, ghost batches: seq<seq<Op>>)
    requires inner == count + 1
    ensures var rs := DiscRegions(store.ops, factor);
            Whole(out, used, batches, rs, RowsTally(SizesOf(rs), Rows(wanted, SECTORS, inner), false, maxBytes))
  {
    ghost var z := SizesOf(DiscRegions(store.ops, factor));
    out, used, batches := [], 0, [];
    var order := Sort(wanted.Keys);
    ghost var t := Tally(0, []);
    for n := 0 to |order|
      invariant Whole(out, used, batches, DiscRegions(store.ops, factor), t)
      invariant t == RowsTally(z, RowsFor(wanted, order[..n], SECTORS, inner), false, maxBytes)
    {
      CastIs(t.bytes);
      if Cast(used) >= maxBytes {
        RestSpent(z, wanted, order, n, SECTORS, inner, false, maxBytes);
        return;
      }
      assert order[n] in order;
      NextRow(z, wanted, order, n, SECTORS, inner, false, maxBytes);
      out, used, batches := ServeSector(store, wanted, order[n], factor, count, inner, maxBytes, out, used, batches, t);
      t := RowTally(z, RowFor(wanted, order[n], SECTORS, inner), false, maxBytes, t);
    }
    assert order[..|order|] == order;
  }

  // ---------------------------------------------------------------- partial slices

  method RingJob(ring: nat, j: nat, slot: Slot, ghost ops: set<Op>, ghost slots: seq<Slot>) returns (job: Job)
    requires ring < |slots| && slot == slots[ring] && j < SECTORS
    ensures job.key == (ring, j) && Faithful(job, RingRegions(ops, slots), ops)
  {
    job := Job((ring, j), SectorArc(j), slot.start, slot.End());
  }

  /** The jobs of one ring, in sector order. */
  method RingRow(ring: nat, slot: Slot, sectors: set<nat>, ghost ops: set<Op>, ghost slots: seq<Slot>)
      returns (jobs: seq<Job>)
    requires ring < |slots| && slot == slots[ring]
    ensures KeysOf(jobs) == Keyed(ring, Listed(sectors), SECTORS) && AllFaithful(jobs, RingRegions(ops, slots), ops)
  {
    var order := Sort(sectors);
    jobs := [];
    for n := 0 to |order|
      invariant KeysOf(jobs) == Keyed(ring, order[..n], SECTORS) && AllFaithful(jobs, RingRegions(ops, slots), ops)
    {
      KeyedPush(ring, order, n, SECTORS);
      if order[n] < SECTORS {
        var job := RingJob(ring, order[n], slot, ops, slots);
        JobsPush(jobs, job, RingRegions(ops, slots), ops);
        jobs := jobs + [job];
      }
    }
    assert order[..|order|] == order;
  }

  /** The list for mismatched partial slices, ring by ring. The ring index one past the last would
      panic in the original, so it must not be asked for. */
  method RingHashList(dht: Dht, wanted: map<nat, set<nat>>, maxBytes: int)
      returns (out: seq<Op>, used: nat, ghost batches: seq<seq<Op>>)
    requires dht.Valid() && maxBytes <= I32_MAX
    requires |Partials(dht.partition.factor, dht.count, dht.now)| !in wanted
    ensures used == Wrap(TotalSize(out)) && (maxBytes <= 0 ==> out == [])
    ensures var slots := Partials(dht.partition.factor, dht.count, dht.now);
            ListsRecent(out, used, batches, dht.store.ops, slots, wanted, maxBytes)
  {
    ghost var slots := Partials(dht.partition.factor, dht.count, dht.now);
    var partials := PartialSlices(dht);
    assert |SlotsOf(partials)| == |partials|;
    out, used, batches := ListRings(dht.store, partials, wanted, maxBytes);
  }

  method ListRings(store: OpStore, partials: seq<PartialSlice>, wanted: map<nat, set<nat>>, maxBytes: int)
      returns (out: seq<Op>, used: nat, ghost batches: seq<seq<Op>>)
    requires |partials| !in wanted
    ensures used == Wrap(TotalSize(out)) && (maxBytes <= 0 ==> out == [])
    ensures var slots := SlotsOf(partials);
            ListsRecent(out, used, batches, store.ops, slots, wanted, maxBytes)
  {
    ghost var slots := SlotsOf(partials);
    out, used, batches := ServeRings(store, partials, wanted, maxBytes, slots);
    ListKeeps(out, used, batches, RingRegions(store.ops, slots), wanted, |slots|, SECTORS, true, maxBytes);
  }

  /** Serves the wanted sectors of one ring, if there is such a ring. */
  method ServeRing(store: OpStore, wanted: map<nat, set<nat>>, ring: nat, partials: seq<PartialSlice>, maxBytes: int,
                   out: seq<Op>, used: nat, ghost batches: seq<seq<Op>>, ghost slots: seq<Slot>, ghost t: Tally)
      returns (out': seq<Op>, used': nat, ghost batches': seq<seq<Op>>)
    requires ring in wanted && slots == SlotsOf(partials) && Whole(out, used, batches, RingRegions(store.ops, slots), t)
    ensures var rs := RingRegions(store.ops, slots);
            Whole(out', used', batches', rs,
                  RowTally(SizesOf(rs), RowFor(wanted, ring, |slots|, SECTORS), true, maxBytes, t))
  {
    out', used', batches' := out, used, batches;
    if ring < |partials| {
      var jobs := RingRow(ring, partials[ring].slot, wanted[ring], store.ops, slots);
      out', used', batches' := ServeRow(store, jobs, true, maxBytes, out, used, batches,
                                        RingRegions(store.ops, slots), t);
    }
  }

  method ServeRings(store: OpStore, partials: seq<PartialSlice>, wanted: map<nat, set<nat>>, maxBytes: int,
                    ghost slots: seq<Slot>)
      returns (out: seq<Op>, used: nat, ghost batches: seq<seq<Op>>)
    requires |partials| !in wanted && slots == SlotsOf(partials)
    ensures var rs := RingRegions(store.ops, slots);
            Whole(out, used, batches, rs, RowsTally(SizesOf(rs), Rows(wanted, |slots|, SECTORS), true, maxBytes))
  {
    ghost var z := SizesOf(RingRegions(store.ops, slots));
    out, used, batches := [], 0, [];
    var order := Sort(wanted.Keys);
    ghost var t := Tally(0, []);
    for n := 0 to |order|
      invariant Whole(out, used, batches, RingRegions(store.ops, slots), t)
      invariant t == RowsTally(z, RowsFor(wanted, order[..n], |slots|, SECTORS), true, maxBytes)
    {
      CastIs(t.bytes);
      if Cast(used) >= maxBytes {
        RestSpent(z, wanted, order, n, |slots|, SECTORS, true, maxBytes);
        return;
      }
      assert order[n] in order;
      NextRow(z, wanted, order, n, |slots|, SECTORS, true, maxBytes);
      out, used, batches := ServeRing(store, wanted, order[n], partials, maxBytes, out, used, batches, slots, t);
      t := RowTally(z, RowFor(wanted, order[n], |slots|, SECTORS), true, maxBytes, t);
    }
    assert order[..|order|] == order;
  }

  // ---------------------------------------------------------------- requests for one batch

  lemma OneRow(wanted: map<nat, set<nat>>, key: Key, outer: nat, inner: nat)
    requires wanted == map[key.0 := {key.1}] && key.0 < outer && key.1 < inner
    ensures Rows(wanted, outer, inner) == [[key]]
  {
    RowsOfOne(wanted, key.0, {key.1}, [key.1], outer, inner);
    KeyedOne(key.0, key.1, inner);
  }

  lemma TwoInARow(wanted: map<nat, set<nat>>, a: Key, b: Key, outer: nat, inner: nat)
    requires wanted == map[a.0 := {a.1, b.1}] && a.0 == b.0 < outer && a.1 < b.1 < inner
    ensures Rows(wanted, outer, inner) == [[a, b]]
  {
    RowsOfOne(wanted, a.0, {a.1, b.1}, [a.1, b.1], outer, inner);
    KeyedTwo(a.0, a.1, b.1, inner);
  }

  lemma TwoServed(rs: Regions, wanted: map<nat, set<nat>>, a: Key, b: Key, outer: nat, inner: nat, each: bool,
                  maxBytes: int)
    requires wanted == map[a.0 := {a.1, b.1}] && a.0 == b.0 < outer && a.1 < b.1 < inner && 0 < maxBytes <= I32_MAX
    requires SetSize(rs(a)) == maxBytes && SetSize(rs(b)) == 0
    ensures |RowsTally(SizesOf(rs), Rows(wanted, outer, inner), each, maxBytes).keys| == if each then 1 else 2
  {
    TwoInARow(wanted, a, b, outer, inner);
    SecondOfNoSize(SizesOf(rs), a, b, maxBytes);
  }

  lemma AllServedListed(out: seq<Op>, used: nat, batches: seq<seq<Op>>, rs: Regions, wanted: map<nat, set<nat>>,
                        outer: nat, inner: nat, each: bool, maxBytes: int)
    requires Lists(out, used, batches, rs, wanted, outer, inner, each, maxBytes)
    ensures |batches| == |RowsTally(SizesOf(rs), Rows(wanted, outer, inner), each, maxBytes).keys|
  {
  }

  /** A sector is finished although its first slice used up the budget: a slice of ops without size is served too. */
  lemma SectorIsFinished(out: seq<Op>, used: nat, batches: seq<seq<Op>>, ops: set<Op>, factor: nat, inner: nat,
                         wanted: map<nat, set<nat>>, a: Key, b: Key, maxBytes: int)
    requires wanted == map[a.0 := {a.1, b.1}] && a.0 == b.0 < SECTORS && a.1 < b.1 < inner && 0 < maxBytes <= I32_MAX
    requires inner > 0 && ListsHistory(out, used, batches, ops, factor, inner - 1, wanted, maxBytes)
    requires SetSize(DiscRegion(ops, factor, a)) == maxBytes && SetSize(DiscRegion(ops, factor, b)) == 0
    ensures |batches| == 2
  {
    AllServedListed(out, used, batches, DiscRegions(ops, factor), wanted, SECTORS, inner, false, maxBytes);
    TwoServed(DiscRegions(ops, factor), wanted, a, b, SECTORS, inner, false, maxBytes);
  }

  /** A ring is not: nothing is served once the budget is used up. */
  lemma RingIsCut(out: seq<Op>, used: nat, batches: seq<seq<Op>>, ops: set<Op>, slots: seq<Slot>,
                  wanted: map<nat, set<nat>>, a: Key, b: Key, maxBytes: int)
    requires wanted == map[a.0 := {a.1, b.1}] && a.0 == b.0 < |slots| && a.1 < b.1 < SECTORS
    requires 0 < maxBytes <= I32_MAX && ListsRecent(out, used, batches, ops, slots, wanted, maxBytes)
    requires SetSize(RingRegion(ops, slots, a)) == maxBytes && SetSize(RingRegion(ops, slots, b)) == 0
    ensures |batches| == 1
  {
    TwoServed(RingRegions(ops, slots), wanted, a, b, |slots|, SECTORS, true, maxBytes);
  }

  /** If one key was wanted and its batch fits the budget, its ops are on the list. */
  lemma OnlyKeyServed(key: Key, out: seq<Op>, used: nat, batches: seq<seq<Op>>, rs: Regions, outer: nat, inner: nat,
                      each: bool, maxBytes: int, o: Op)
    requires key.0 < outer && key.1 < inner
    requires Lists(out, used, batches, rs, map[key.0 := {key.1}], outer, inner, each, maxBytes)
    requires 0 < maxBytes <= I32_MAX && SetSize(rs(key)) <= maxBytes && o in rs(key)
    ensures o in out
  {
    var z, rows := SizesOf(rs), Rows(map[key.0 := {key.1}], outer, inner);
    OneRow(map[key.0 := {key.1}], key, outer, inner);
    assert rows[..0] == [] && [key][..0] == [];
    assert RowSize(z, [key]) == z(key);
    AllFit(z, rows, each, maxBytes);
    assert key in rows[0] && Taken(z, rows[0], maxBytes, RowsTally(z, rows, each, maxBytes));
    ServedIsListed(out, used, batches, rs, RowsTally(z, rows, each, maxBytes), key, o);
  }

  /** A list does exceed its budget: a batch of 2 GiB is served on a budget of one byte. */
  method OversizedBatchServed() returns (out: seq<Op>, maxBytes: int)
    ensures maxBytes == 1 && TotalSize(out) == 0x8000_0000
  {
    var o := Op([1], 0, 0, 0x8000_0000);
    var store := new OpStore();
    store.ops := {o};
    maxBytes := 1;
    var used: nat;
    ghost var batches: seq<seq<Op>>;
    out, used, batches := ServeDisc(store, TIME_FACTOR, 1, 2, map[0 := {0}], maxBytes);
    ghost var z := SizesOf(DiscRegions({o}, TIME_FACTOR));
    OwnSlice({o}, o, TIME_FACTOR);
    assert DiscRegion({o}, TIME_FACTOR, (0, 0)) == {o};
    SetSizeRemove({o}, o);
    OneRow(map[0 := {0}], (0, 0), SECTORS, 2);
    OversizedTally(z);
  }

  lemma OversizedTally(z: Sizes)
    requires z((0, 0)) == 0x8000_0000
    ensures RowsTally(z, [[(0, 0)]], false, 1) == Tally(0x8000_0000, [(0, 0)])
  {
    var rows, row: seq<Key> := [[(0, 0)]], [(0, 0)];
    assert rows[..0] == [] && row[..0] == [];
    CastIs(0);
    CastIs(0x8000_0000);
  }

  // ---------------------------------------------------------------- the end of a comparison

  function SliceKey(o: Op, factor: nat): Key {
    (SectorOf(o.loc), Div(o.createdAt, SliceSize(factor)))
  }

  /** An op lies in the region of its sector and slice. */
  lemma OwnSlice(ops: set<Op>, o: Op, factor: nat)
    requires o in ops
    ensures o in DiscRegion(ops, factor, SliceKey(o, factor)) && SectorOf(o.loc) < SECTORS
  {
    SectorsPartition(o.loc, 0);
    SectorsPartition(o.loc, SectorOf(o.loc));
    SliceIndexIs(factor, o.createdAt, SliceKey(o, factor).1);
  }

  lemma OwnRing(ops: set<Op>, o: Op, slots: seq<Slot>, r: nat)
    requires o in ops && r < |slots| && slots[r].start <= o.createdAt < slots[r].End()
    ensures o in RingRegion(ops, slots, (r, SectorOf(o.loc))) && SectorOf(o.loc) < SECTORS
  {
    SectorsPartition(o.loc, 0);
    SectorsPartition(o.loc, SectorOf(o.loc));
  }

  /** If everything asked for fits the budget, the ops of what was asked for are on the list. */
  lemma AskedIsListed(out: seq<Op>, used: nat, batches: seq<seq<Op>>, rs: Regions, wanted: map<nat, set<nat>>,
                      outer: nat, inner: nat, each: bool, maxBytes: int, key: Key, o: Op)
    requires Lists(out, used, batches, rs, wanted, outer, inner, each, maxBytes)
    requires key.0 in wanted && key.1 in wanted[key.0] && key.0 < outer && key.1 < inner && o in rs(key)
    requires RowsSize(SizesOf(rs), Rows(wanted, outer, inner)) <= maxBytes <= I32_MAX
    requires o.size > 0 || RowsSize(SizesOf(rs), Rows(wanted, outer, inner)) < maxBytes
    ensures o in out
  {
    var z, rows := SizesOf(rs), Rows(wanted, outer, inner);
    RowsAre(wanted, outer, inner, key);
    AllFit(z, rows, each, maxBytes);
    SetSizeRemove(rs(key), o);
    var k :| 0 <= k < |rows| && key in rows[k];
    assert Taken(z, rows[k], maxBytes, RowsTally(z, rows, each, maxBytes));
    ServedIsListed(out, used, batches, rs, RowsTally(z, rows, each, maxBytes), key, o);
  }

  /** The size of all full slices that a comparison names. */
  ghost function NamedHistory(ops: set<Op>, d: SnapshotDiff, factor: nat, count: nat): nat
    requires d.DiscSectorSliceMismatches?
  {
    RowsSize(SizesOf(DiscRegions(ops, factor)), Rows(d.slices, SECTORS, count + 1))
  }

  /** With room to spare every op counts; if everything fits exactly, those that have a size. */
  predicate Counted(o: Op, total: nat, maxBytes: int) {
    o.size > 0 || total < maxBytes
  }

  /** An op lies in a compared sector, and in a slice in which two sets of ops differ. */
  ghost predicate InDifferingSlice(o: Op, a: set<Op>, b: set<Op>, arcs: set<nat>, wanted: set<nat>,
                                   factor: nat, count: nat)
  {
    var (j, i) := SliceKey(o, factor);
    j in arcs && j in wanted && SliceDiffers(a, b, j, factor, count, i)
  }

  /** Two nodes with whatever ops have compared details. */
  ghost predicate ComparesHistory(a: set<Op>, b: set<Op>, arcs: set<nat>, wanted: set<nat>, factor: nat, count: nat,
                                  d: SnapshotDiff)
  {
    && d.DiscSectorSliceMismatches?
    && d == Compare(DiscDetailsOf(a, arcs, wanted, factor, count), DiscDetailsOf(b, arcs, wanted, factor, count))
  }

  /** All ops of a node that lie in a differing slice are on its list. */
  ghost predicate ServesHistory(out: seq<Op>, other: set<Op>, ops: set<Op>, arcs: set<nat>, wanted: set<nat>,
                                factor: nat, count: nat, d: SnapshotDiff, maxBytes: int)
    requires d.DiscSectorSliceMismatches?
  {
    forall o | o in ops && InDifferingSlice(o, other, ops, arcs, wanted, factor, count) &&
               Counted(o, NamedHistory(ops, d, factor, count), maxBytes) :: o in out
  }

  lemma HistoryListed(out: seq<Op>, used: nat, batches: seq<seq<Op>>, other: set<Op>, ops: set<Op>, arcs: set<nat>,
                      wanted: set<nat>, factor: nat, count: nat, d: SnapshotDiff, maxBytes: int, len: nat)
    requires ComparesHistory(other, ops, arcs, wanted, factor, count, d) && IdLength(other, len) && IdLength(ops, len)
    requires Lists(out, used, batches, DiscRegions(ops, factor), d.slices, SECTORS, count + 1, false, maxBytes)
    requires NamedHistory(ops, d, factor, count) <= maxBytes <= I32_MAX
    ensures ServesHistory(out, other, ops, arcs, wanted, factor, count, d, maxBytes)
  {
    CompareDiscDetails(other, ops, arcs, wanted, factor, count, len);
    forall o | o in ops && InDifferingSlice(o, other, ops, arcs, wanted, factor, count) &&
               Counted(o, NamedHistory(ops, d, factor, count), maxBytes)
      ensures o in out
    {
      var key := SliceKey(o, factor);
      OwnSlice(ops, o, factor);
      assert NamedSlice(d, key.0, key.1);
      AskedIsListed(out, used, batches, DiscRegions(ops, factor), d.slices, SECTORS, count + 1, false, maxBytes,
                    key, o);
    }
  }

  /** Two nodes with whatever ops compare details: every op that one of them holds in a slice that differs is
      served by it, provided all that is named fits the budget. */
  method ServeHistory(dht: Dht, ghost other: set<Op>, ghost arcs: set<nat>, ghost wanted: set<nat>, d: SnapshotDiff,
                      maxBytes: int)
      returns (out: seq<Op>)
    requires dht.Valid() && IdLength(other, dht.len)
    requires ComparesHistory(other, dht.store.ops, arcs, wanted, dht.partition.factor, dht.count, d)
    requires NamedHistory(dht.store.ops, d, dht.partition.factor, dht.count) <= maxBytes <= I32_MAX
    ensures ServesHistory(out, other, dht.store.ops, arcs, wanted, dht.partition.factor, dht.count, d, maxBytes)
  {
    var count := FullSlices(dht);
    out := ServeHistoryFrom(dht.store, dht.partition.factor, count, other, arcs, wanted, d, maxBytes,
                            dht.count, dht.len);
  }

  method ServeHistoryFrom(store: OpStore, factor: nat, fullSlices: nat, ghost other: set<Op>, ghost arcs: set<nat>,
                          ghost wanted: set<nat>, d: SnapshotDiff, maxBytes: int, ghost count: nat, ghost len: nat)
      returns (out: seq<Op>)
    requires fullSlices == count && IdLength(other, len) && IdLength(store.ops, len)
    requires ComparesHistory(other, store.ops, arcs, wanted, factor, count, d)
    requires NamedHistory(store.ops, d, factor, count) <= maxBytes <= I32_MAX
    ensures ServesHistory(out, other, store.ops, arcs, wanted, factor, count, d, maxBytes)
  {
    var used: nat;
    ghost var batches: seq<seq<Op>>;
    out, used, batches := ListDisc(store, factor, fullSlices, d.slices, maxBytes, count);
    HistoryListed(out, used, batches, other, store.ops, arcs, wanted, factor, count, d, maxBytes, len);
  }

  /** The size of all partial slices that a comparison names. */
  ghost function NamedRecent(ops: set<Op>, d: SnapshotDiff, slots: seq<Slot>): nat
    requires d.RingSectorMismatches?
  {
    RowsSize(SizesOf(RingRegions(ops, slots)), Rows(d.sectors', |slots|, SECTORS))
  }

  /** The ring of an op is wanted, and in its sector two sets of ops differ there. */
  ghost predicate InDifferingRing(o: Op, a: set<Op>, b: set<Op>, wanted: set<nat>, slots: seq<Slot>) {
    exists r :: r in wanted && RingHolds(o, slots, r) && RingDiffers(a, b, {SectorOf(o.loc)}, slots, r)
  }

  predicate RingHolds(o: Op, slots: seq<Slot>, r: nat) {
    r < |slots| && slots[r].start <= o.createdAt < slots[r].End()
  }

  ghost predicate ComparesRecent(a: set<Op>, b: set<Op>, arcs: set<nat>, wanted: set<nat>, slots: seq<Slot>,
                                 boundary: nat, d: SnapshotDiff)
  {
    && d.RingSectorMismatches? && (forall r :: r in wanted ==> r < |slots|)
    && d == Compare(RingDetailsOf(a, arcs, wanted, slots, boundary), RingDetailsOf(b, arcs, wanted, slots, boundary))
  }

  /** All ops of a node that lie in a differing ring and sector are on its list. */
  ghost predicate ServesRecent(out: seq<Op>, other: set<Op>, ops: set<Op>, arcs: set<nat>, wanted: set<nat>,
                               slots: seq<Slot>, d: SnapshotDiff, maxBytes: int)
    requires d.RingSectorMismatches?
  {
    forall o | o in ops && SectorOf(o.loc) in arcs && InDifferingRing(o, other, ops, wanted, slots) &&
               Counted(o, NamedRecent(ops, d, slots), maxBytes) :: o in out
  }

  lemma RecentListed(out: seq<Op>, used: nat, batches: seq<seq<Op>>, other: set<Op>, ops: set<Op>, arcs: set<nat>,
                     wanted: set<nat>, slots: seq<Slot>, boundary: nat, d: SnapshotDiff, maxBytes: int, len: nat)
    requires ComparesRecent(other, ops, arcs, wanted, slots, boundary, d) && IdLength(other, len) && IdLength(ops, len)
    requires Lists(out, used, batches, RingRegions(ops, slots), d.sectors', |slots|, SECTORS, true, maxBytes)
    requires NamedRecent(ops, d, slots) <= maxBytes <= I32_MAX
    ensures ServesRecent(out, other, ops, arcs, wanted, slots, d, maxBytes)
  {
    CompareRingDetails(other, ops, arcs, wanted, slots, boundary, len);
    forall o | o in ops && SectorOf(o.loc) in arcs && InDifferingRing(o, other, ops, wanted, slots) &&
               Counted(o, NamedRecent(ops, d, slots), maxBytes)
      ensures o in out
    {
      var r :| r in wanted && RingHolds(o, slots, r) && RingDiffers(other, ops, {SectorOf(o.loc)}, slots, r);
      OwnRing(ops, o, slots, r);
      assert NamedSector(d, r, SectorOf(o.loc));
      AskedIsListed(out, used, batches, RingRegions(ops, slots), d.sectors', |slots|, SECTORS, true, maxBytes,
                    (r, SectorOf(o.loc)), o);
    }
  }

  /** The same for recent time: every op in a ring and sector that differ is served. */
  method ServeRecent(dht: Dht, ghost other: set<Op>, ghost arcs: set<nat>, ghost wanted: set<nat>,
                     ghost slots: seq<Slot>, ghost boundary: nat, d: SnapshotDiff, maxBytes: int)
      returns (out: seq<Op>)
    requires dht.Valid() && IdLength(other, dht.len)
    requires slots == Partials(dht.partition.factor, dht.count, dht.now)
    requires ComparesRecent(other, dht.store.ops, arcs, wanted, slots, boundary, d)
    requires NamedRecent(dht.store.ops, d, slots) <= maxBytes <= I32_MAX
    ensures ServesRecent(out, other, dht.store.ops, arcs, wanted, slots, d, maxBytes)
  {
    RingsNamed(other, dht.store.ops, arcs, wanted, slots, boundary, d);
    var used: nat;
    ghost var batches: seq<seq<Op>>;
    out, used, batches := RingHashList(dht, d.sectors', maxBytes);
    RecentListed(out, used, batches, other, dht.store.ops, arcs, wanted, slots, boundary, d, maxBytes, dht.len);
  }

  /** A comparison names no ring that was not compared. */
  lemma RingsNamed(a: set<Op>, b: set<Op>, arcs: set<nat>, wanted: set<nat>, slots: seq<Slot>, boundary: nat,
                   d: SnapshotDiff)
    requires ComparesRecent(a, b, arcs, wanted, slots, boundary, d)
    ensures d.sectors'.Keys <= wanted && |slots| !in d.sectors'
  {
  }

  lemma ExtraSliceNamed(other: set<Op>, o: Op, arcs: set<nat>, factor: nat, count: nat, d: SnapshotDiff, len: nat)
    requires IdLength(other + {o}, len) && o !in other && !AllZero(o.id) && SectorOf(o.loc) in arcs
    requires o.createdAt < FullEnd(factor, count)
    requires d == Compare(DiscDetailsOf(other, arcs, {SectorOf(o.loc)}, factor, count),
                          DiscDetailsOf(other + {o}, arcs, {SectorOf(o.loc)}, factor, count))
    ensures var (j, i) := SliceKey(o, factor); d == DiscSectorSliceMismatches(map[j := {i}]) && i < count
  {
    PinpointSlice(other, o, arcs, factor, count, len);
    SliceIndexBelow(factor, o.createdAt, count);
  }

  /** A node that holds one op more than another in the full slices, on comparing details with it,
      serves that op, provided its slice fits the budget. */
  method ServeExtraHistory(dht: Dht, ghost other: set<Op>, ghost o: Op, ghost arcs: set<nat>, d: SnapshotDiff,
                           maxBytes: int)
      returns (out: seq<Op>)
    requires dht.Valid() && dht.store.ops == other + {o} && o !in other && !AllZero(o.id)
    requires SectorOf(o.loc) in arcs && o.createdAt < FullEnd(dht.partition.factor, dht.count)
    requires d == Compare(DiscDetailsOf(other, arcs, {SectorOf(o.loc)}, dht.partition.factor, dht.count),
                          DiscDetailsOf(other + {o}, arcs, {SectorOf(o.loc)}, dht.partition.factor, dht.count))
    requires var factor := dht.partition.factor;
             SetSize(DiscRegion(dht.store.ops, factor, SliceKey(o, factor))) <= maxBytes && 0 < maxBytes <= I32_MAX
    ensures o in out
  {
    ghost var factor := dht.partition.factor;
    ExtraSliceNamed(other, o, arcs, factor, dht.count, d, dht.len);
    var count := FullSlices(dht);
    out := ServeOwnSlice(dht.store, dht.partition.factor, count, d.slices, o, maxBytes);
  }

  /** Asked for the slice of an op and nothing else, a store serves it, if it fits the budget. */
  method ServeOwnSlice(store: OpStore, factor: nat, count: nat, wanted: map<nat, set<nat>>, ghost o: Op, maxBytes: int)
      returns (out: seq<Op>)
    requires o in store.ops && SliceKey(o, factor).1 <= count
    requires var (j, i) := SliceKey(o, factor); wanted == map[j := {i}]
    requires SetSize(DiscRegion(store.ops, factor, SliceKey(o, factor))) <= maxBytes && 0 < maxBytes <= I32_MAX
    ensures o in out
  {
    var used: nat;
    ghost var batches: seq<seq<Op>>;
    OwnSlice(store.ops, o, factor);
    out, used, batches := ListDisc(store, factor, count, wanted, maxBytes, count);
    OnlyKeyServed(SliceKey(o, factor), out, used, batches, DiscRegions(store.ops, factor), SECTORS, count + 1, false,
                  maxBytes, o);
  }

  /** The steps of a comparison for one op more in recent time: the minimal snapshots name a ring, and then the
      details of that ring are compared. */
  ghost predicate ComparesRing(other: set<Op>, o: Op, arcs: set<nat>, factor: nat, count: nat, now: nat, ring: nat,
                               d: SnapshotDiff)
  {
    && FullEnd(factor, count) <= now && FullEnd(factor, count) <= o.createdAt < CoveredEnd(factor, count, now)
    && Compare(MinimalOf(other, arcs, factor, count, now), MinimalOf(other + {o}, arcs, factor, count, now)) ==
       RingMismatches([ring])
    && var slots := Partials(factor, count, now);
    && ring < |slots|
    && d == Compare(RingDetailsOf(other, arcs, {ring}, slots, FullEnd(factor, count)),
                    RingDetailsOf(other + {o}, arcs, {ring}, slots, FullEnd(factor, count)))
  }

  lemma ComparesRingMeans(other: set<Op>, o: Op, arcs: set<nat>, factor: nat, count: nat, now: nat, ring: nat,
                          d: SnapshotDiff, len: nat)
    requires ComparesRing(other, o, arcs, factor, count, now, ring, d)
    requires IdLength(other + {o}, len) && o !in other && !AllZero(o.id) && SectorOf(o.loc) in arcs
    ensures d == RingSectorMismatches(map[ring := {SectorOf(o.loc)}])
    ensures var slots := Partials(factor, count, now); slots[ring].start <= o.createdAt < slots[ring].End()
  {
    var r := PinpointRecent(other, o, arcs, factor, count, now, len);
    assert RingMismatches([r]).rings[0] == RingMismatches([ring]).rings[0];
  }

  /** A node that holds one op more than another in recent time, on comparing with it, serves that op,
      provided its ring of its sector fits the budget. */
  method ServeExtraRecent(dht: Dht, ghost other: set<Op>, ghost o: Op, ghost arcs: set<nat>, ghost ring: nat,
                          d: SnapshotDiff, maxBytes: int)
      returns (out: seq<Op>)
    requires dht.Valid() && dht.store.ops == other + {o} && o !in other && !AllZero(o.id) && SectorOf(o.loc) in arcs
    requires ComparesRing(other, o, arcs, dht.partition.factor, dht.count, dht.now, ring, d)
    requires var slots := Partials(dht.partition.factor, dht.count, dht.now);
             SetSize(RingRegion(dht.store.ops, slots, (ring, SectorOf(o.loc)))) <= maxBytes
    requires 0 < maxBytes <= I32_MAX
    ensures o in out
  {
    ghost var slots := Partials(dht.partition.factor, dht.count, dht.now);
    ComparesRingMeans(other, o, arcs, dht.partition.factor, dht.count, dht.now, ring, d, dht.len);
    OwnRing(dht.store.ops, o, slots, ring);
    var used: nat;
    ghost var batches: seq<seq<Op>>;
    out, used, batches := RingHashList(dht, d.sectors', maxBytes);
    OnlyKeyServed((ring, SectorOf(o.loc)), out, used, batches, RingRegions(dht.store.ops, slots), |slots|, SECTORS,
                  true, maxBytes, o);
  }
}
