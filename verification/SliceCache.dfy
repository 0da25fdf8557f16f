/** What it means for cached slice hashes to agree with the plain set of ops. */
module SliceCache {
  import opened Combine
  import opened Arcs
  import opened TimeLayout
  import opened Ops

  /** A slice of recent time with its combined hash. */
  datatype PartialSlice = PartialSlice(slot: Slot, hash: Hash)

  /** The ops of a sector in the full slice at `index`. */
  ghost function SliceOps(ops: set<Op>, arc: DhtArc, factor: nat, index: nat): set<Op> {
    OpsIn(ops, arc, FullEnd(factor, index), FullEnd(factor, index + 1))
  }

  /** Below `count`, a slice hash is stored exactly when the slice holds ops, and it is their hash.
      Nothing is stored from `count` on. */
  ghost predicate SliceHashesAgree(ops: set<Op>, arc: DhtArc, factor: nat, stored: map<nat, Hash>, count: nat) {
    forall i: nat ::
      && (i in stored <==> i < count && SliceOps(ops, arc, factor, i) != {})
      && (i in stored ==> stored[i] == SetHash(SliceOps(ops, arc, factor, i)))
  }

  /** Every partial slice carries the hash of exactly the ops of its interval. */
  ghost predicate PartialsAgree(ops: set<Op>, arc: DhtArc, partials: seq<PartialSlice>) {
    forall k :: 0 <= k < |partials| ==>
      partials[k].hash == SetHash(OpsIn(ops, arc, partials[k].slot.start, partials[k].slot.End()))
  }

  function SlotsOf(partials: seq<PartialSlice>): seq<Slot> {
    seq(|partials|, k requires 0 <= k < |partials| => partials[k].slot)
  }

  /** What a store left behind by some run of a partition satisfies: its own count is enough. */
  ghost predicate Persisted(ops: set<Op>, arc: DhtArc, factor: nat, stored: map<nat, Hash>) {
    exists count: nat :: SliceHashesAgree(ops, arc, factor, stored, count)
  }

  /** Reading the count off the highest stored index loses nothing. */
  lemma PersistedCount(ops: set<Op>, arc: DhtArc, factor: nat, stored: map<nat, Hash>, n: nat)
    requires Persisted(ops, arc, factor, stored)
    requires forall i :: i in stored ==> i < n
    requires n > 0 ==> n - 1 in stored
    ensures SliceHashesAgree(ops, arc, factor, stored, n)
  {
    var count: nat :| SliceHashesAgree(ops, arc, factor, stored, count);
  }

  /** Slices without ops may be counted without storing anything. */
  lemma SkipEmptySlices(ops: set<Op>, arc: DhtArc, factor: nat, count: nat)
    requires forall o :: o in ops && Contains(arc, o.loc) ==> o.createdAt >= FullEnd(factor, count)
    ensures SliceHashesAgree(ops, arc, factor, map[], count)
  {
    forall i: nat | i < count
      ensures SliceOps(ops, arc, factor, i) == {}
    {
      FullEndMonotone(factor, i + 1, count);
    }
  }

  lemma {:induction false} FullEndMonotone(factor: nat, a: nat, b: nat)
    requires a <= b
    ensures FullEnd(factor, a) <= FullEnd(factor, b)
    ensures a < b ==> FullEnd(factor, a) < FullEnd(factor, b)
    decreases b
  {
    if a < b {
      assert FullEnd(factor, b) == FullEnd(factor, b - 1) + SliceSize(factor);
      FullEndMonotone(factor, a, b - 1);
    }
  }

  /** The slice index of a time. */
  lemma SliceIndexIs(factor: nat, t: nat, i: nat)
    ensures i == Div(t, SliceSize(factor)) <==> FullEnd(factor, i) <= t < FullEnd(factor, i + 1)
  {
    assert FullEnd(factor, i + 1) == FullEnd(factor, i) + SliceSize(factor);
    if FullEnd(factor, i) <= t < FullEnd(factor, i + 1) {
      DivIs(t, SliceSize(factor), i);
    }
    DivBounds(t, SliceSize(factor));
  }

  /** Taking up one op of a full slice: only the hash of its slice changes. */
  lemma HistoricalOp(ops: set<Op>, o: Op, arc: DhtArc, factor: nat, stored: map<nat, Hash>, count: nat)
    requires SliceHashesAgree(ops, arc, factor, stored, count)
    requires o !in ops && Contains(arc, o.loc) && o.createdAt < FullEnd(factor, count)
    ensures var i := Div(o.createdAt, SliceSize(factor));
            SliceHashesAgree(ops + {o}, arc, factor,
                             stored[i := if i in stored then Xor(stored[i], o.id) else o.id], count)
  {
    var i := Div(o.createdAt, SliceSize(factor));
    SliceIndexBelow(factor, o.createdAt, count);
    var stored' := stored[i := if i in stored then Xor(stored[i], o.id) else o.id];
    forall j: nat
      ensures j in stored' <==> j < count && SliceOps(ops + {o}, arc, factor, j) != {}
      ensures j in stored' ==> stored'[j] == SetHash(SliceOps(ops + {o}, arc, factor, j))
    {
      SliceOpsAdd(ops, o, arc, factor, j);
      if j == i {
        SetHashAdd(SliceOps(ops, arc, factor, j), o);
        XorUnit(o.id);
      }
    }
  }

  lemma SliceIndexBelow(factor: nat, t: nat, count: nat)
    requires t < FullEnd(factor, count)
    ensures Div(t, SliceSize(factor)) < count
  {
    DivGalois(t, SliceSize(factor), count);
  }

  lemma SliceOpsAdd(ops: set<Op>, o: Op, arc: DhtArc, factor: nat, j: nat)
    requires Contains(arc, o.loc)
    ensures SliceOps(ops + {o}, arc, factor, j) ==
            if j == Div(o.createdAt, SliceSize(factor)) then SliceOps(ops, arc, factor, j) + {o}
            else SliceOps(ops, arc, factor, j)
  {
    SliceIndexIs(factor, o.createdAt, j);
    OpsInAdd(ops, o, arc, FullEnd(factor, j), FullEnd(factor, j + 1));
  }

  /** Ops from the end of the full slices on do not touch their hashes. */
  lemma RecentOpSparesSlices(ops: set<Op>, o: Op, arc: DhtArc, factor: nat, stored: map<nat, Hash>, count: nat)
    requires SliceHashesAgree(ops, arc, factor, stored, count)
    requires o !in ops && Contains(arc, o.loc) && o.createdAt >= FullEnd(factor, count)
    ensures SliceHashesAgree(ops + {o}, arc, factor, stored, count)
  {
    forall j: nat | j < count
      ensures SliceOps(ops + {o}, arc, factor, j) == SliceOps(ops, arc, factor, j)
    {
      FullEndMonotone(factor, j + 1, count);
    }
  }

  /** Ops outside every partial slice do not touch their hashes. */
  lemma OpSparesPartials(ops: set<Op>, o: Op, arc: DhtArc, partials: seq<PartialSlice>)
    requires PartialsAgree(ops, arc, partials) && Contains(arc, o.loc)
    requires forall k :: 0 <= k < |partials| ==>
               !(partials[k].slot.start <= o.createdAt < partials[k].slot.End())
    ensures PartialsAgree(ops + {o}, arc, partials)
  {
    forall k | 0 <= k < |partials|
      ensures partials[k].hash == SetHash(OpsIn(ops + {o}, arc, partials[k].slot.start, partials[k].slot.End()))
    {
      OpsInAdd(ops, o, arc, partials[k].slot.start, partials[k].slot.End());
    }
  }

  /** Taking up one op of a partial slice. */
  lemma RecentOp(ops: set<Op>, o: Op, arc: DhtArc, partials: seq<PartialSlice>, k: nat)
    requires PartialsAgree(ops, arc, partials) && o !in ops && Contains(arc, o.loc) && k < |partials|
    requires forall j :: 0 <= j < |partials| ==>
               (partials[j].slot.start <= o.createdAt < partials[j].slot.End() <==> j == k)
    ensures PartialsAgree(ops + {o}, arc, partials[k := partials[k].(hash := Xor(partials[k].hash, o.id))])
  {
    var partials' := partials[k := partials[k].(hash := Xor(partials[k].hash, o.id))];
    forall j | 0 <= j < |partials'|
      ensures partials'[j].hash == SetHash(OpsIn(ops + {o}, arc, partials'[j].slot.start, partials'[j].slot.End()))
    {
      var slot := partials[j].slot;
      OpsInAdd(ops, o, arc, slot.start, slot.End());
      if j == k {
        SetHashAdd(OpsIn(ops, arc, slot.start, slot.End()), o);
      }
    }
  }

  /** Slots that tile time come one after the other. */
  lemma {:induction false} TilesOrdered(start: nat, slots: seq<Slot>, i: nat, j: nat)
    requires Tiles(start, slots) && i < j < |slots|
    ensures slots[i].End() <= slots[j].start
    decreases j
  {
    assert slots[j].start == slots[j - 1].End();
    if i < j - 1 {
      TilesOrdered(start, slots, i, j - 1);
    }
  }

  /** Completing one more full slice, whose hash is stored unless the slice is empty. */
  lemma CompleteSlice(ops: set<Op>, arc: DhtArc, factor: nat, stored: map<nat, Hash>, count: nat, hash: Hash, len: nat)
    requires SliceHashesAgree(ops, arc, factor, stored, count) && IdLength(ops, len)
    requires hash == SetHash(SliceOps(ops, arc, factor, count))
    ensures SliceHashesAgree(ops, arc, factor, if hash == [] then stored else stored[count := hash], count + 1)
  {
    SetHashLength(SliceOps(ops, arc, factor, count), len);
  }

  function HashesOf(listing: seq<(nat, Hash)>): seq<Hash> {
    seq(|listing|, k requires 0 <= k < |listing| => listing[k].1)
  }

  lemma {:induction false} ListingStable(m: map<nat, Hash>, n: nat, n': nat)
    requires n <= n' && forall i :: i in m ==> i < n
    ensures Listing(m, n') == Listing(m, n)
    decreases n'
  {
    if n < n' {
      ListingStable(m, n, n' - 1);
    }
  }

  lemma ListingPush(m: map<nat, Hash>, n: nat)
    ensures HashesOf(Listing(m, n + 1)) ==
            if n in m then HashesOf(Listing(m, n)) + [m[n]] else HashesOf(Listing(m, n))
    ensures XorAll(HashesOf(Listing(m, n + 1))) ==
            Xor(XorAll(HashesOf(Listing(m, n))), if n in m then m[n] else [])
  {
    var init := HashesOf(Listing(m, n));
    if n in m {
      assert HashesOf(Listing(m, n + 1)) == init + [m[n]];
      assert (init + [m[n]])[..|init|] == init;
    } else {
      XorUnit(XorAll(init));
    }
  }

  lemma {:induction false} ListingLength(ops: set<Op>, arc: DhtArc, factor: nat, stored: map<nat, Hash>, count: nat,
                                         n: nat, len: nat)
    requires SliceHashesAgree(ops, arc, factor, stored, count) && IdLength(ops, len)
    ensures SameLength(HashesOf(Listing(stored, n)), len)
    decreases n
  {
    if n > 0 {
      var m := n - 1;
      ListingLength(ops, arc, factor, stored, count, m, len);
      ListingPush(stored, m);
      if m in stored {
        SetHashLength(SliceOps(ops, arc, factor, m), len);
        SameLengthPush(HashesOf(Listing(stored, m)), stored[m], len);
      }
      assert m + 1 == n;
    }
  }

  lemma SameLengthPush(hashes: seq<Hash>, hash: Hash, len: nat)
    requires SameLength(hashes, len) && |hash| == len
    ensures SameLength(hashes + [hash], len)
  {
  }

  /** Combining all stored slice hashes gives the hash of all ops before the end of the slices. */
  lemma {:induction false} ListingHash(ops: set<Op>, arc: DhtArc, factor: nat, stored: map<nat, Hash>, count: nat,
                                       n: nat)
    requires SliceHashesAgree(ops, arc, factor, stored, count) && n <= count
    ensures XorAll(HashesOf(Listing(stored, n))) == SetHash(OpsIn(ops, arc, 0, FullEnd(factor, n)))
    decreases n
  {
    if n == 0 {
      assert HashesOf(Listing(stored, 0)) == [];
      assert OpsIn(ops, arc, 0, 0) == {};
      assert FullEnd(factor, 0) == 0;
    } else {
      var m := n - 1;
      ListingHash(ops, arc, factor, stored, count, m);
      ListingHashStep(ops, arc, factor, stored, count, m);
      assert m + 1 == n;
    }
  }

  lemma ListingHashStep(ops: set<Op>, arc: DhtArc, factor: nat, stored: map<nat, Hash>, count: nat, n: nat)
    requires SliceHashesAgree(ops, arc, factor, stored, count) && n < count
    requires XorAll(HashesOf(Listing(stored, n))) == SetHash(OpsIn(ops, arc, 0, FullEnd(factor, n)))
    ensures XorAll(HashesOf(Listing(stored, n + 1))) == SetHash(OpsIn(ops, arc, 0, FullEnd(factor, n + 1)))
  {
    ListingPush(stored, n);
    OpsInSplit(ops, arc, 0, FullEnd(factor, n), FullEnd(factor, n) + SliceSize(factor));
    StoredOrEmpty(ops, arc, factor, stored, count, n);
  }

  lemma StoredOrEmpty(ops: set<Op>, arc: DhtArc, factor: nat, stored: map<nat, Hash>, count: nat, i: nat)
    requires SliceHashesAgree(ops, arc, factor, stored, count) && i < count
    ensures SetHash(SliceOps(ops, arc, factor, i)) == if i in stored then stored[i] else []
  {
  }
}
