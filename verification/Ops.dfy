/** Ops, the combined hash of a plain set of ops, and the host's op store
    (crates/api/src/op_store.rs, crates/core/src/factories/mem_op_store.rs). */
module Ops {
  import opened Wrappers
  import opened Combine
  import opened Arcs

  /** A stored op: its id, the location of the id, its creation time and the size of its data. */
  datatype Op = Op(id: Hash, loc: U32, createdAt: nat, size: nat)

  // ---------------------------------------------------------------- the hash of a set of ops

  /** The reference every cached hash is held against: the exclusive or of the ids of a set of ops,
      taken in an arbitrary order, and the empty hash for no ops. */
  ghost function SetHash(s: set<Op>): Hash {
    if s == {} then []
    else
      var o :| o in s;
      Xor(SetHash(s - {o}), o.id)
  }

  /** Any op may be taken out last, so the order does not matter. */
  lemma {:induction false} SetHashRemove(s: set<Op>, o: Op)
    requires o in s
    ensures SetHash(s) == Xor(SetHash(s - {o}), o.id)
    decreases |s|
  {
    var p :| p in s && SetHash(s) == Xor(SetHash(s - {p}), p.id);
    if p != o {
      SetHashRemove(s - {p}, o);
      SetHashRemove(s - {o}, p);
      var rest := SetHash(s - {p} - {o});
      assert s - {p} - {o} == s - {o} - {p};
      XorAssoc(rest, o.id, p.id);
      XorComm(o.id, p.id);
      XorAssoc(rest, p.id, o.id);
    }
  }

  lemma SetHashAdd(s: set<Op>, o: Op)
    requires o !in s
    ensures SetHash(s + {o}) == Xor(SetHash(s), o.id)
  {
    SetHashRemove(s + {o}, o);
    assert s + {o} - {o} == s;
  }

  lemma {:induction false} SetHashUnion(a: set<Op>, b: set<Op>)
    requires a !! b
    ensures SetHash(a + b) == Xor(SetHash(a), SetHash(b))
    decreases |b|
  {
    if b == {} {
      assert a + b == a;
      XorUnit(SetHash(a));
    } else {
      var o :| o in b;
      SetHashUnion(a, b - {o});
      assert a + b == (a + (b - {o})) + {o};
      SetHashAdd(a + (b - {o}), o);
      SetHashRemove(b, o);
      XorAssoc(SetHash(a), SetHash(b - {o}), o.id);
    }
  }

  /** All op ids share one non-zero length. */
  ghost predicate IdLength(s: set<Op>, len: nat) {
    len > 0 && forall o :: o in s ==> |o.id| == len
  }

  lemma {:induction false} SetHashLength(s: set<Op>, len: nat)
    requires IdLength(s, len)
    ensures |SetHash(s)| == if s == {} then 0 else len
    decreases |s|
  {
    if s != {} {
      var o :| o in s;
      SetHashRemove(s, o);
      SetHashLength(s - {o}, len);
    }
  }

  /** Two sets of ops have the same hash exactly when neither or both are empty and the ids of the
      ops held by only one of them cancel out. */
  lemma SetHashEqualIff(a: set<Op>, b: set<Op>, len: nat)
    requires IdLength(a, len) && IdLength(b, len)
    ensures SetHash(a) == SetHash(b) <==>
            ((a == {} <==> b == {}) && AllZero(SetHash((a - b) + (b - a))))
  {
    SetHashLength(a, len);
    SetHashLength(b, len);
    if a == {} || b == {} {
      assert a == b == {} ==> (a - b) + (b - a) == {};
    } else {
      XorDetects(SetHash(a), SetHash(b));
      var common := a * b;
      assert a == common + (a - b) && b == common + (b - a);
      SetHashUnion(common, a - b);
      SetHashUnion(common, b - a);
      SetHashUnion(a - b, b - a);
      SetHashLength(common, len);
      SetHashLength(a - b, len);
      SetHashLength(b - a, len);
      XorOfOverlap(SetHash(common), SetHash(a - b), SetHash(b - a));
    }
  }

  /** What two combinations share cancels between them. */
  lemma XorOfOverlap(c: Hash, x: Hash, y: Hash)
    ensures AllZero(Xor(Xor(c, x), Xor(c, y))) <==> AllZero(Xor(x, y))
  {
    var l, r := Xor(Xor(c, x), Xor(c, y)), Xor(x, y);
    forall i: nat
      ensures ByteAt(l, i) == ByteAt(r, i)
    {
      XorAt(Xor(c, x), Xor(c, y), i);
      XorAt(c, x, i);
      XorAt(c, y, i);
      XorAt(x, y, i);
      ByteXorOverlap(ByteAt(c, i), ByteAt(x, i), ByteAt(y, i));
    }
  }

  lemma ByteXorOverlap(c: bv8, x: bv8, y: bv8)
    ensures (c ^ x) ^ (c ^ y) == x ^ y
  {
  }

  function Ids(ops: seq<Op>): seq<Hash> {
    seq(|ops|, i requires 0 <= i < |ops| => ops[i].id)
  }

  predicate Distinct(ops: seq<Op>) {
    forall i, j :: 0 <= i < j < |ops| ==> ops[i] != ops[j]
  }

  function SetOf(ops: seq<Op>): set<Op> {
    set o | o in ops
  }

  /** Combining a list without repetitions gives the hash of its set, whatever its order. */
  lemma {:induction false} ListHashIsSetHash(ops: seq<Op>)
    requires Distinct(ops)
    ensures XorAll(Ids(ops)) == SetHash(SetOf(ops))
  {
    if ops != [] {
      var n := |ops| - 1;
      var init := ops[..n];
      ListHashIsSetHash(init);
      assert Ids(ops)[..n] == Ids(init);
      assert SetOf(ops) == SetOf(init) + {ops[n]};
      SetHashAdd(SetOf(init), ops[n]);
    }
  }

  // ---------------------------------------------------------------- queries on a set of ops

  /** The ops of an arc created in the half-open interval from `lo` to `hi`. */
  ghost function OpsIn(ops: set<Op>, arc: DhtArc, lo: nat, hi: nat): set<Op> {
    set o | o in ops && Contains(arc, o.loc) && lo <= o.createdAt < hi
  }

  lemma OpsInAdd(ops: set<Op>, o: Op, arc: DhtArc, lo: nat, hi: nat)
    requires Contains(arc, o.loc)
    ensures OpsIn(ops + {o}, arc, lo, hi) ==
            if lo <= o.createdAt < hi then OpsIn(ops, arc, lo, hi) + {o} else OpsIn(ops, arc, lo, hi)
  {
  }

  lemma OpsInSplit(ops: set<Op>, arc: DhtArc, lo: nat, mid: nat, hi: nat)
    requires lo <= mid <= hi
    ensures OpsIn(ops, arc, lo, hi) == OpsIn(ops, arc, lo, mid) + OpsIn(ops, arc, mid, hi)
    ensures OpsIn(ops, arc, lo, mid) !! OpsIn(ops, arc, mid, hi)
    ensures SetHash(OpsIn(ops, arc, lo, hi)) ==
            Xor(SetHash(OpsIn(ops, arc, lo, mid)), SetHash(OpsIn(ops, arc, mid, hi)))
  {
    SetHashUnion(OpsIn(ops, arc, lo, mid), OpsIn(ops, arc, mid, hi));
    assert OpsIn(ops, arc, lo, hi) == OpsIn(ops, arc, lo, mid) + OpsIn(ops, arc, mid, hi);
  }

  function TotalSize(ops: seq<Op>): nat {
    if ops == [] then 0 else TotalSize(ops[..|ops| - 1]) + ops[|ops| - 1].size
  }

  /** Lists the ops that fall in an arc and an interval. */
  method Select(ops: set<Op>, arc: DhtArc, lo: nat, hi: nat) returns (found: seq<Op>, bytes: nat)
    ensures Distinct(found) && SetOf(found) == OpsIn(ops, arc, lo, hi)
    ensures bytes == TotalSize(found)
  {
    found, bytes := [], 0;
    var rest := ops;
    while rest != {}
      invariant rest <= ops
      invariant Distinct(found) && forall o :: o in found <==> o in OpsIn(ops, arc, lo, hi) && o !in rest
      invariant bytes == TotalSize(found)
      decreases |rest|
    {
      var o :| o in rest;
      if Contains(arc, o.loc) && lo <= o.createdAt < hi {
        SetOfPush(found, o);
        found := found + [o];
        bytes := bytes + o.size;
      }
      rest := rest - {o};
    }
  }

  lemma SetOfPush(ops: seq<Op>, o: Op)
    ensures SetOf(ops + [o]) == SetOf(ops) + {o}
    ensures Distinct(ops) && o !in SetOf(ops) ==> Distinct(ops + [o])
    ensures TotalSize(ops + [o]) == TotalSize(ops) + o.size
  {
    assert (ops + [o])[..|ops|] == ops;
  }

  /** One more than the highest key, or 0 for no keys. */
  method CountByHighest(keys: set<nat>) returns (n: nat)
    ensures forall i :: i in keys ==> i < n
    ensures n > 0 ==> n - 1 in keys
  {
    n := 0;
    var rest := keys;
    while rest != {}
      invariant rest <= keys
      invariant forall i :: i in keys ==> i in rest || i < n
      invariant n == 0 || n - 1 in keys
      decreases |rest|
    {
      var i :| i in rest;
      if i >= n {
        n := i + 1;
      }
      rest := rest - {i};
    }
  }

  /** The host's store of ops and of full-slice hashes by sector arc and slice index. */
  class OpStore {
    var ops: set<Op>
    var sliceHashes: map<DhtArc, map<nat, Hash>>

    constructor ()
      ensures ops == {} && sliceHashes == map[]
    {
      ops := {};
      sliceHashes := map[];
    }

    function Stored(arc: DhtArc): map<nat, Hash>
      reads this
    {
      if arc in sliceHashes then sliceHashes[arc] else map[]
    }

    /** The ops of an arc created from `start` until before `end`, with the total size of their data. */
    method RetrieveOpHashesInTimeSlice(arc: DhtArc, start: nat, end: nat) returns (found: seq<Op>, bytes: nat)
      ensures Distinct(found) && SetOf(found) == OpsIn(ops, arc, start, end)
      ensures bytes == TotalSize(found)
    {
      found, bytes := Select(ops, arc, start, end);
    }

    method EarliestTimestampInArc(arc: DhtArc) returns (r: Option<nat>)
      ensures r.None? <==> forall o :: o in ops ==> !Contains(arc, o.loc)
      ensures r.Some? ==> (exists o :: o in ops && Contains(arc, o.loc) && o.createdAt == r.value)
      ensures r.Some? ==> forall o :: o in ops && Contains(arc, o.loc) ==> r.value <= o.createdAt
    {
      r := None;
      var rest := ops;
      while rest != {}
        invariant rest <= ops
        invariant r.None? <==> forall o :: o in ops - rest ==> !Contains(arc, o.loc)
        invariant r.Some? ==> exists o :: o in ops && Contains(arc, o.loc) && o.createdAt == r.value
        invariant r.Some? ==> forall o :: o in ops - rest && Contains(arc, o.loc) ==> r.value <= o.createdAt
        decreases |rest|
      {
        var o :| o in rest;
        if Contains(arc, o.loc) && (r.None? || o.createdAt < r.value) {
          r := Some(o.createdAt);
        }
        rest := rest - {o};
      }
    }

    method StoreSliceHash(arc: DhtArc, index: nat, hash: Hash)
      modifies this`sliceHashes
      ensures Stored(arc) == old(Stored(arc))[index := hash]
      ensures forall a :: a != arc ==> Stored(a) == old(Stored(a))
    {
      sliceHashes := sliceHashes[arc := Stored(arc)[index := hash]];
    }

    /** One more than the highest stored index. */
    method SliceHashCount(arc: DhtArc) returns (n: nat)
      ensures forall i :: i in Stored(arc) ==> i < n
      ensures n > 0 ==> n - 1 in Stored(arc)
    {
      n := CountByHighest(Stored(arc).Keys);
    }

    /** The stored slice hashes of an arc, in order of their index. */
    method RetrieveSliceHashes(arc: DhtArc) returns (found: seq<(nat, Hash)>, ghost n: nat)
      ensures forall i :: i in Stored(arc) ==> i < n
      ensures n > 0 ==> n - 1 in Stored(arc)
      ensures found == Listing(Stored(arc), n)
      ensures forall k, l :: 0 <= k < l < |found| ==> found[k].0 < found[l].0
      ensures forall i, h :: (i, h) in found <==> i in Stored(arc) && Stored(arc)[i] == h
    {
      var count := SliceHashCount(arc);
      n := count;
      found := [];
      for i := 0 to count
        invariant found == Listing(Stored(arc), i)
      {
        if i in Stored(arc) {
          found := found + [(i, Stored(arc)[i])];
        }
      }
      ListingIs(Stored(arc), count);
    }
  }

  /** The entries of a map with keys below `n`, in key order. */
  function Listing(m: map<nat, Hash>, n: nat): seq<(nat, Hash)> {
    if n == 0 then []
    else Listing(m, n - 1) + if n - 1 in m then [(n - 1, m[n - 1])] else []
  }

  lemma {:induction false} ListingIs(m: map<nat, Hash>, n: nat)
    ensures forall k, l :: 0 <= k < l < |Listing(m, n)| ==> Listing(m, n)[k].0 < Listing(m, n)[l].0
    ensures forall i, h :: (i, h) in Listing(m, n) <==> i < n && i in m && m[i] == h
  {
    if n > 0 {
      var init := Listing(m, n - 1);
      ListingIs(m, n - 1);
      forall k | 0 <= k < |init|
        ensures init[k].0 < n - 1
      {
        assert (init[k].0, init[k].1) in init;
      }
    }
  }
}
