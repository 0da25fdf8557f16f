/** The top-level DHT model (crates/dht/src/dht.rs), and every run of it. */
module Dhts {
  import opened Wrappers
  import opened Combine
  import opened TimeLayout
  import opened LayoutLaws
  import opened Ops
  import opened SliceCache
  import opened Sectors
  import opened Snapshots
  import opened TimePartitions
  import opened HashPartitions
  import opened Pinpoint

  /** The time factor is hard-coded. */
  const TIME_FACTOR: nat := 9

  lemma {:induction false} DistinctSize(batch: seq<Op>)
    requires Distinct(batch)
    ensures |SetOf(batch)| == |batch|
  {
    if batch != [] {
      var n := |batch| - 1;
      DistinctSize(batch[..n]);
      assert batch == batch[..n] + [batch[n]];
      SetOfPush(batch[..n], batch[n]);
    }
  }

  lemma NewOpsCount(known: set<Op>, batch: seq<Op>)
    requires Distinct(batch) && SetOf(batch) !! known
    ensures |known + SetOf(batch)| == |known| + |batch|
  {
    DistinctSize(batch);
  }

  /** The layout of the DHT in plain time: full slices of 512 quarters of an hour, and 511 of them always kept for
      partial slices. */
  lemma PlainDurations(now: nat, count: nat)
    ensures FullEnd(TIME_FACTOR, count) == count * 460_800_000_000
    ensures FullCount(TIME_FACTOR, now) ==
            if now < 459_900_000_000 then 0 else (now - 459_900_000_000) / 460_800_000_000
  {
    FullCountIsFloor(TIME_FACTOR, now, count);
    assert SliceSize(TIME_FACTOR) == 460_800_000_000 && MinRecent(TIME_FACTOR) == 459_900_000_000;
  }

  /** The slice hashes of all sectors, for the ops of the first `count` full slices. */
  ghost function StoredFor(ops: set<Op>, count: nat): seq<map<nat, Hash>> {
    seq(SECTORS, j requires 0 <= j < SECTORS => SliceDetailsOf(ops, j, TIME_FACTOR, count))
  }

  class Dht {
    const partition: HashPartition
    const store: OpStore
    var opCount: nat
    /** The full-slice count and the time of the last update, and the length of the op ids. */
    ghost var count: nat
    ghost var now: nat
    ghost const len: nat

    /** All sectors are in lockstep and agree with the ops in the store. */
    ghost predicate Valid()
      reads this, partition.sectors, store
    {
      && partition.Shape() && partition.factor == TIME_FACTOR
      && partition.Lockstep(count, now, store.ops, store)
      && IdLength(store.ops, len)
      && opCount == |store.ops|
    }

    constructor (partition: HashPartition, store: OpStore, opCount: nat, ghost count: nat, ghost now: nat,
                 ghost len: nat)
      ensures this.partition == partition && this.store == store && this.opCount == opCount
      ensures this.count == count && this.now == now && this.len == len
    {
      this.partition := partition;
      this.store := store;
      this.opCount := opCount;
      this.count := count;
      this.now := now;
      this.len := len;
    }

    /** Rebuilds the model from a store. */
    static method TryFromStore(now: nat, store: OpStore, ghost len: nat) returns (r: Result<Dht>)
      requires AllPersisted(store.ops, Slices(store), 0, TIME_FACTOR) && IdLength(store.ops, len)
      modifies store`sliceHashes
      ensures r.Ok? <==> NoneAhead(store.ops, old(Slices(store)), SECTORS, TIME_FACTOR, now)
      ensures r.Ok? ==>
                && fresh(r.value) && fresh(r.value.partition) && fresh(r.value.partition.sectors)
                && r.value.store == store && r.value.len == len && r.value.Valid()
                && r.value.now == now && r.value.count == FullCount(TIME_FACTOR, now)
      ensures AllPersisted(store.ops, Slices(store), 0, TIME_FACTOR)
    {
      var total := |store.ops|;
      var partition := HashPartition.TryFromStore(TIME_FACTOR, now, store, len);
      if partition.Err? {
        return Err;
      }
      ghost var count := FullCount(TIME_FACTOR, now);
      assert InStep(partition.value.Views()[0], count, now, store.ops, Slices(store)[0]);
      var dht := new Dht(partition.value, store, total, count, now, len);
      return Ok(dht);
    }

    /** Brings the model up to the current time, unless the clock is behind the full slices. */
    method Update(currentTime: nat) returns (r: Result<()>)
      requires Valid()
      modifies this`count, this`now, partition.sectors, store`sliceHashes
      ensures Valid()
      ensures r.Err? <==> currentTime < FullEnd(TIME_FACTOR, old(count))
      ensures r.Err? ==> count == old(count) && now == old(now)
      ensures r.Ok? ==> count == Max(old(count), FullCount(TIME_FACTOR, currentTime)) && now == currentTime
    {
      r := partition.Update(store, currentTime, count, now, len);
      if r.Ok? {
        count, now := Max(count, FullCount(partition.factor, currentTime)), currentTime;
      }
    }

    /** Stores a batch of new ops and informs the model, as one step. */
    method StoreAndInform(batch: seq<Op>)
      requires Valid()
      requires Distinct(batch) && SetOf(batch) !! store.ops && IdLength(store.ops + SetOf(batch), len)
      modifies this`opCount, partition.sectors, store
      ensures Valid() && count == old(count) && now == old(now)
      ensures store.ops == old(store.ops) + SetOf(batch)
    {
      ghost var known := store.ops;
      Deliver(batch);
      ghost var all := known + SetOf(batch);
      assert store.ops == all;
      Inform(batch, known);
      assert store.ops == all;
    }

    /** Informs the slices of a batch that is in the store. */
    method Inform(batch: seq<Op>, ghost known: set<Op>)
      requires partition.Shape() && partition.Lockstep(count, now, known, store)
      requires Distinct(batch) && SetOf(batch) !! known && IdLength(known + SetOf(batch), len)
      modifies partition.sectors, store`sliceHashes
      ensures partition.Lockstep(count, now, known + SetOf(batch), store)
    {
      partition.InformOpsStored(store, batch, known, count, now, len);
    }

    /** Puts the ops of a batch into the store; the slices do not know of them yet. */
    method Deliver(batch: seq<Op>)
      requires Valid() && Distinct(batch) && SetOf(batch) !! store.ops
      modifies this`opCount, store`ops
      ensures store.ops == old(store.ops) + SetOf(batch) && opCount == |store.ops|
      ensures partition.Lockstep(count, now, old(store.ops), store)
    {
      ghost var views, slices := partition.Views(), Slices(store);
      NewOpsCount(store.ops, batch);
      store.ops := store.ops + SetOf(batch);
      opCount := opCount + |batch|;
      assert partition.Views() == views && Slices(store) == slices;
    }

    /** The minimal snapshot is that of the plain op set; it fails exactly for an empty arc set. */
    method SnapshotMinimal(arcs: set<nat>) returns (r: Result<Snapshot>)
      requires Valid() && forall j :: j in arcs ==> j < SECTORS
      ensures r.Err? <==> arcs == {}
      ensures r.Ok? ==> r.value == MinimalOf(store.ops, arcs, TIME_FACTOR, count, now)
    {
      if |arcs| == 0 {
        return Err;
      }
      var top, boundary := partition.DiscTopHash(arcs, store, count, now, len);
      var rings := partition.RingTopHashes(arcs, store, count, now, len);
      return Ok(Minimal(top, boundary, rings));
    }

    /** A restart no earlier than the last update succeeds unless some op lies in the future. */
    lemma RestartIsSafe(time: nat)
      requires Valid() && count == FullCount(TIME_FACTOR, now) && now <= time
      requires forall o :: o in store.ops ==> o.createdAt <= time
      ensures NoneAhead(store.ops, Slices(store), SECTORS, TIME_FACTOR, time)
    {
      SlicesAre();
      PastOpsRestart(store.ops, now, time);
    }

    /** The slice hashes in the store are a function of the ops and the count. */
    lemma SlicesAre()
      requires Valid()
      ensures Slices(store) == StoredFor(store.ops, count)
    {
      forall j: nat | j < SECTORS
        ensures Slices(store)[j] == StoredFor(store.ops, count)[j]
      {
        partition.StoredAreDetails(j, store, count, now);
      }
    }

    /** The store behind a valid model can be rebuilt from. */
    lemma StorePersists()
      requires Valid()
      ensures AllPersisted(store.ops, Slices(store), 0, TIME_FACTOR)
    {
      forall j: nat | j < SECTORS
        ensures Persisted(store.ops, SectorArc(j), TIME_FACTOR, Slices(store)[j])
      {
        assert InStep(partition.Views()[j], count, now, store.ops, Slices(store)[j]);
        assert partition.Views()[j].sector == SectorArc(j);
        assert SliceHashesAgree(store.ops, SectorArc(j), TIME_FACTOR, Slices(store)[j], count);
      }
    }
  }

  // ---------------------------------------------------------------- runs

  /** What may happen to a node: it stores ops and informs the model, the clock advances and the
      model is updated, or the process restarts and rebuilds the model from the store. */
  datatype Step = StoreOps(batch: seq<Op>) | Tick(time: nat) | Restart(time: nat)

  /** The ops held after a run. */
  function OpsAfter(ops: set<Op>, steps: seq<Step>): set<Op> {
    if steps == [] then ops
    else
      var before := OpsAfter(ops, steps[..|steps| - 1]);
      var last := steps[|steps| - 1];
      if last.StoreOps? then before + SetOf(last.batch) else before
  }

  /** The time of the last update of a run. */
  function TimeAfter(start: nat, steps: seq<Step>): nat {
    if steps == [] then start
    else
      var last := steps[|steps| - 1];
      if last.StoreOps? then TimeAfter(start, steps[..|steps| - 1]) else last.time
  }

  /** Every op of a run is new when it is stored, ids have one length, and the clock never goes back. */
  ghost predicate Admissible(ops: set<Op>, start: nat, steps: seq<Step>, len: nat) {
    && IdLength(ops, len)
    && (steps != [] ==>
          var init, last := steps[..|steps| - 1], steps[|steps| - 1];
          && Admissible(ops, start, init, len)
          && match last
             case StoreOps(batch) =>
               && Distinct(batch) && SetOf(batch) !! OpsAfter(ops, init)
               && IdLength(OpsAfter(ops, init) + SetOf(batch), len)
             case Tick(time) => time >= TimeAfter(start, init)
             case Restart(time) => time >= TimeAfter(start, init))
  }

  /** No op held at a restart lies in the future. */
  ghost predicate NoFutureOps(ops: set<Op>, steps: seq<Step>) {
    steps != [] ==>
      var init, last := steps[..|steps| - 1], steps[|steps| - 1];
      && NoFutureOps(ops, init)
      && (last.Restart? ==> forall o :: o in OpsAfter(ops, init) ==> o.createdAt <= last.time)
  }

  /** No restart of a run finds an initial count that is ahead of its time. What is stored by then is a function
      of the ops and the time of the last update. */
  ghost predicate RestartsWork(ops: set<Op>, start: nat, steps: seq<Step>) {
    steps != [] ==>
      var init, last := steps[..|steps| - 1], steps[|steps| - 1];
      && RestartsWork(ops, start, init)
      && (last.Restart? ==> RestartWorks(OpsAfter(ops, init), TimeAfter(start, init), last.time))
  }

  ghost predicate RestartWorks(ops: set<Op>, before: nat, time: nat) {
    NoneAhead(ops, StoredFor(ops, FullCount(TIME_FACTOR, before)), SECTORS, TIME_FACTOR, time)
  }

  /** Without ops from the future every restart works. */
  lemma {:induction false} NoFutureOpsRestart(ops: set<Op>, start: nat, steps: seq<Step>, len: nat)
    requires Admissible(ops, start, steps, len) && NoFutureOps(ops, steps)
    ensures RestartsWork(ops, start, steps)
    decreases |steps|
  {
    if steps != [] {
      var init, last := steps[..|steps| - 1], steps[|steps| - 1];
      NoFutureOpsRestart(ops, start, init, len);
      if last.Restart? {
        PastOpsRestart(OpsAfter(ops, init), TimeAfter(start, init), last.time);
      }
    }
  }

  lemma PastOpsRestart(ops: set<Op>, before: nat, time: nat)
    requires before <= time && forall o :: o in ops ==> o.createdAt <= time
    ensures RestartWorks(ops, before, time)
  {
    FullCountMonotone(TIME_FACTOR, before, time);
    var stored := StoredFor(ops, FullCount(TIME_FACTOR, before));
    forall j: nat | j < SECTORS
      ensures NotAhead(ops, SectorArc(j), TIME_FACTOR, time, stored[j])
    {
      RestartSucceeds(ops, SectorArc(j), TIME_FACTOR, time, stored[j]);
    }
  }

  lemma FullCountMonotone(factor: nat, t: nat, t': nat)
    requires factor >= 1 && t <= t'
    ensures FullCount(factor, t) <= FullCount(factor, t')
  {
    if FullCount(factor, t) > 0 {
      CountAheadIff(factor, FullCount(factor, t), t);
      CountAheadIff(factor, FullCount(factor, t), t');
    }
  }

  /** One step of a run. */
  method TakeStep(dht: Dht, step: Step) returns (r: Result<Dht>)
    requires dht.Valid() && dht.count == FullCount(TIME_FACTOR, dht.now)
    requires step.StoreOps? ==>
               && Distinct(step.batch) && SetOf(step.batch) !! dht.store.ops
               && IdLength(dht.store.ops + SetOf(step.batch), dht.len)
    requires !step.StoreOps? ==> step.time >= dht.now
    modifies dht, dht.partition.sectors, dht.store
    ensures r.Err? <==>
            step.Restart? && !NoneAhead(old(dht.store.ops), old(Slices(dht.store)), SECTORS, TIME_FACTOR, step.time)
    ensures r.Ok? ==>
              && r.value.Valid() && r.value.store == dht.store && r.value.len == dht.len
              && (r.value == dht || (fresh(r.value) && fresh(r.value.partition.sectors)))
              && r.value.count == FullCount(TIME_FACTOR, r.value.now)
              && r.value.now == (if step.StoreOps? then old(dht.now) else step.time)
              && r.value.store.ops ==
                 old(dht.store.ops) + (if step.StoreOps? then SetOf(step.batch) else {})
  {
    match step {
      case StoreOps(batch) =>
        dht.StoreAndInform(batch);
        return Ok(dht);
      case Tick(time) =>
        FullCountMonotone(TIME_FACTOR, dht.now, time);
        var updated := dht.Update(time);
        return Ok(dht);
      case Restart(time) =>
        dht.StorePersists();
        r := Dht.TryFromStore(time, dht.store, dht.len);
    }
  }

  /** Over every run from a rebuilt model, however ops, updates and restarts are interleaved, the model
      agrees with the plain op set, and its count is the one the time of the last update asks for. A run
      fails if and only if some initial count is ahead of its time. */
  method Run(start: nat, store: OpStore, steps: seq<Step>, ghost len: nat) returns (r: Result<Dht>)
    requires AllPersisted(store.ops, Slices(store), 0, TIME_FACTOR)
    requires Admissible(store.ops, start, steps, len)
    modifies store
    ensures r.Ok? <==>
            && NoneAhead(old(store.ops), old(Slices(store)), SECTORS, TIME_FACTOR, start)
            && RestartsWork(old(store.ops), start, steps)
    ensures r.Ok? ==>
              && fresh(r.value) && fresh(r.value.partition.sectors)
              && r.value.Valid() && r.value.store == store && r.value.len == len
              && store.ops == OpsAfter(old(store.ops), steps)
              && r.value.now == TimeAfter(start, steps)
              && r.value.count == FullCount(TIME_FACTOR, TimeAfter(start, steps))
    decreases |steps|
  {
    if steps == [] {
      r := Dht.TryFromStore(start, store, len);
    } else {
      r := Run(start, store, steps[..|steps| - 1], len);
      if r.Ok? {
        r.value.SlicesAre();
        r := TakeStep(r.value, steps[|steps| - 1]);
      }
    }
  }

  /** The minimal snapshot that a run must lead to: a function of the ops it ends up with and of the
      time of its last update. */
  ghost function SnapshotAfter(ops: set<Op>, start: nat, steps: seq<Step>, arcs: set<nat>): Snapshot {
    var time := TimeAfter(start, steps);
    FullSlicesEndBefore(TIME_FACTOR, 0, time);
    MinimalOf(OpsAfter(ops, steps), arcs, TIME_FACTOR, FullCount(TIME_FACTOR, time), time)
  }

  /** A run, and then a minimal snapshot. */
  method RunAndSnapshot(start: nat, store: OpStore, steps: seq<Step>, arcs: set<nat>, ghost len: nat)
      returns (r: Result<Snapshot>)
    requires AllPersisted(store.ops, Slices(store), 0, TIME_FACTOR)
    requires Admissible(store.ops, start, steps, len)
    requires forall j :: j in arcs ==> j < SECTORS
    modifies store
    ensures r.Ok? ==> r.value == SnapshotAfter(old(store.ops), start, steps, arcs)
    ensures r.Ok? ==> store.ops == OpsAfter(old(store.ops), steps) && IdLength(store.ops, len)
    ensures r.Ok? <==>
            && arcs != {} && NoneAhead(old(store.ops), old(Slices(store)), SECTORS, TIME_FACTOR, start)
            && RestartsWork(old(store.ops), start, steps)
  {
    var dht := Run(start, store, steps, len);
    if dht.Err? {
      return Err;
    }
    r := dht.value.SnapshotMinimal(arcs);
  }

  /** Two nodes go through any two runs that are last updated at the same time, and each takes a snapshot: with
      the same ops the snapshots are equal, whatever the histories; with one more op of non-zero id inside the
      covered time and the arc set on one side, they differ. */
  method TwoRuns(start: nat, store: OpStore, steps: seq<Step>, start': nat, store': OpStore, steps': seq<Step>,
                 arcs: set<nat>, ghost len: nat)
      returns (r: Result<Snapshot>, r': Result<Snapshot>)
    requires AllPersisted(store.ops, Slices(store), 0, TIME_FACTOR) && Admissible(store.ops, start, steps, len)
    requires AllPersisted(store'.ops, Slices(store'), 0, TIME_FACTOR) && Admissible(store'.ops, start', steps', len)
    requires store != store' && TimeAfter(start, steps) == TimeAfter(start', steps')
    requires forall j :: j in arcs ==> j < SECTORS
    modifies store, store'
    ensures r.Ok? && r'.Ok? && store.ops == store'.ops ==> r == r'
    ensures r.Ok? && r'.Ok? ==>
              forall o :: ShowsMore(o, store.ops, store'.ops, arcs, TimeAfter(start, steps)) ==> r != r'
  {
    r := RunAndSnapshot(start, store, steps, arcs, len);
    r' := RunAndSnapshot(start', store', steps', arcs, len);
    if r.Ok? && r'.Ok? {
      ghost var time := TimeAfter(start, steps);
      forall o | ShowsMore(o, store.ops, store'.ops, arcs, time)
        ensures r != r'
      {
        ExtraOpShows(store.ops, o, arcs, TIME_FACTOR, FullCount(TIME_FACTOR, time), time, len);
      }
    }
  }

  /** The second set of ops has one op more than the first, of non-zero id, in the arcs and in covered time. */
  ghost predicate ShowsMore(o: Op, ops: set<Op>, ops': set<Op>, arcs: set<nat>, now: nat) {
    ops' == ops + {o} && o !in ops && !AllZero(o.id) && SectorOf(o.loc) in arcs && Seen(o, now)
  }

  /** An op lies in the time covered by slices at `now`. */
  ghost predicate Seen(o: Op, now: nat) {
    var count := FullCount(TIME_FACTOR, now);
    FullEnd(TIME_FACTOR, count) <= now && o.createdAt < CoveredEnd(TIME_FACTOR, count, now)
  }

  lemma ExtraOpShows(ops: set<Op>, o: Op, arcs: set<nat>, factor: nat, count: nat, now: nat, len: nat)
    requires IdLength(ops + {o}, len) && o !in ops && !AllZero(o.id) && FullEnd(factor, count) <= now
    requires SectorOf(o.loc) in arcs && o.createdAt < CoveredEnd(factor, count, now)
    ensures MinimalOf(ops, arcs, factor, count, now) != MinimalOf(ops + {o}, arcs, factor, count, now)
  {
    if o.createdAt < FullEnd(factor, count) {
      PinpointHistory(ops, o, arcs, factor, count, now, len);
    } else {
      var r := PinpointRecent(ops, o, arcs, factor, count, now, len);
    }
  }
}
