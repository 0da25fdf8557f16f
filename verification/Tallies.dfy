/** Which batches the hash-list loops serve under a byte budget, as a fold over the sizes of the batches asked for,
    and what that amounts to (crates/dht/src/dht.rs). */
module Tallies {
  import opened Arcs
  import opened Sorting

  const I32_MAX: nat := 0x7FFF_FFFF

  /** A byte count in 32 bits, which wraps around. */
  function Wrap(x: nat): nat {
    if x < CIRCLE then x else Wrap(x - CIRCLE)
  }

  /** A byte count as the loops compare it: in 32 bits, taken as a signed number. */
  function Cast(x: nat): int {
    if Wrap(x) <= I32_MAX then Wrap(x) else Wrap(x) - CIRCLE
  }

  lemma {:induction false} WrapIs(x: nat)
    ensures Wrap(x) < CIRCLE && Wrap(x) <= x && Wrap(Wrap(x)) == Wrap(x) && Wrap(x) == x % CIRCLE
  {
    if x >= CIRCLE {
      WrapIs(x - CIRCLE);
    }
  }

  lemma CastIs(x: nat)
    ensures Cast(x) <= x && Cast(Wrap(x)) == Cast(x)
    ensures x <= I32_MAX ==> Cast(x) == x
    ensures I32_MAX < x < CIRCLE ==> Cast(x) < 0
  {
    WrapIs(x);
  }

  /** Counting in 32 bits all along gives the same as counting first. */
  lemma {:induction false} WrapSum(x: nat, y: nat)
    ensures Wrap(Wrap(x) + y) == Wrap(x + y)
  {
    if x >= CIRCLE {
      WrapSum(x - CIRCLE, y);
    }
  }

  lemma SameCast(total: nat, used: nat, size: nat, sum: nat)
    requires used == Wrap(total) && sum == total + size
    ensures Cast(used + size) == Cast(sum) && Wrap(used + size) == Wrap(sum)
  {
    WrapSum(total, size);
  }

  /** For a non-negative budget and a sum that does not wrap around, the comparison is right if and only if
      the sum stays within the signed range; beyond it, a batch that is far too large slips through. */
  lemma AdmitsIff(sum: nat, maxBytes: int)
    requires sum < CIRCLE && 0 <= maxBytes <= I32_MAX
    ensures (Cast(sum) <= maxBytes <==> sum <= maxBytes) <==> sum <= I32_MAX
  {
    CastIs(sum);
  }

  // ---------------------------------------------------------------- the fold

  /** A batch is asked for by sector and slice index, or by ring and sector. */
  type Key = (nat, nat)

  /** How large the batch of each key is. */
  type Sizes = Key -> nat

  /** What has been served: the bytes, and the keys in order. */
  datatype Tally = Tally(bytes: nat, keys: seq<Key>)

  /** One batch: it is served if the comparison admits it. */
  ghost function Offered(z: Sizes, key: Key, maxBytes: int, t: Tally): Tally {
    if Cast(t.bytes + z(key)) <= maxBytes then Tally(t.bytes + z(key), t.keys + [key]) else t
  }

  /** One row of batches. The loop over rings looks at the budget before each batch (`each`), the loop over
      sectors does not. */
  ghost function RowTally(z: Sizes, row: seq<Key>, each: bool, maxBytes: int, t: Tally): Tally {
    if row == [] then t
    else
      var n := |row| - 1;
      var t' := RowTally(z, row[..n], each, maxBytes, t);
      if each && Cast(t'.bytes) >= maxBytes then t' else Offered(z, row[n], maxBytes, t')
  }

  /** Row by row. Both loops stop before a row if the budget is spent. */
  ghost function RowsTally(z: Sizes, rows: seq<seq<Key>>, each: bool, maxBytes: int): Tally {
    if rows == [] then Tally(0, [])
    else
      var n := |rows| - 1;
      var t := RowsTally(z, rows[..n], each, maxBytes);
      if Cast(t.bytes) >= maxBytes then t else RowTally(z, rows[n], each, maxBytes, t)
  }

  lemma RowTallyPush(z: Sizes, row: seq<Key>, key: Key, each: bool, maxBytes: int, t: Tally)
    ensures var t' := RowTally(z, row, each, maxBytes, t);
            RowTally(z, row + [key], each, maxBytes, t) ==
            if each && Cast(t'.bytes) >= maxBytes then t' else Offered(z, key, maxBytes, t')
  {
    assert (row + [key])[..|row|] == row;
  }

  lemma RowsTallyPush(z: Sizes, rows: seq<seq<Key>>, row: seq<Key>, each: bool, maxBytes: int)
    ensures var t := RowsTally(z, rows, each, maxBytes);
            RowsTally(z, rows + [row], each, maxBytes) ==
            if Cast(t.bytes) >= maxBytes then t else RowTally(z, row, each, maxBytes, t)
  {
    assert (rows + [row])[..|rows|] == rows;
  }

  /** Breaking out of a row on a spent budget changes nothing: the rest would not be served anyway. */
  lemma {:induction false} SpentRow(z: Sizes, row: seq<Key>, n: nat, maxBytes: int, t: Tally)
    requires n <= |row| && Cast(RowTally(z, row[..n], true, maxBytes, t).bytes) >= maxBytes
    ensures RowTally(z, row, true, maxBytes, t) == RowTally(z, row[..n], true, maxBytes, t)
  {
    if n == |row| {
      assert row[..n] == row;
    } else {
      var last := |row| - 1;
      assert row[..last][..n] == row[..n];
      SpentRow(z, row[..last], n, maxBytes, t);
    }
  }

  /** So does breaking out of the rows. */
  lemma {:induction false} SpentRows(z: Sizes, rows: seq<seq<Key>>, n: nat, each: bool, maxBytes: int)
    requires n <= |rows| && Cast(RowsTally(z, rows[..n], each, maxBytes).bytes) >= maxBytes
    ensures RowsTally(z, rows, each, maxBytes) == RowsTally(z, rows[..n], each, maxBytes)
  {
    if n == |rows| {
      assert rows[..n] == rows;
    } else {
      var last := |rows| - 1;
      assert rows[..last][..n] == rows[..n];
      SpentRows(z, rows[..last], n, each, maxBytes);
    }
  }

  lemma {:induction false} RowGrows(z: Sizes, row: seq<Key>, each: bool, maxBytes: int, t: Tally, n: nat)
    requires n <= |row|
    ensures var t0, t1 := RowTally(z, row[..n], each, maxBytes, t), RowTally(z, row, each, maxBytes, t);
            t.bytes <= t0.bytes <= t1.bytes && t.keys <= t0.keys <= t1.keys
    decreases |row|
  {
    if row != [] {
      var last := |row| - 1;
      if n == |row| {
        assert row[..n] == row;
        RowGrows(z, row[..last], each, maxBytes, t, last);
        assert row[..last][..last] == row[..last];
      } else {
        RowGrows(z, row[..last], each, maxBytes, t, n);
        assert row[..last][..n] == row[..n];
      }
    }
  }

  lemma {:induction false} RowsGrow(z: Sizes, rows: seq<seq<Key>>, each: bool, maxBytes: int, n: nat)
    requires n <= |rows|
    ensures var t0, t1 := RowsTally(z, rows[..n], each, maxBytes), RowsTally(z, rows, each, maxBytes);
            t0.bytes <= t1.bytes && t0.keys <= t1.keys
    decreases |rows|
  {
    if n == |rows| {
      assert rows[..n] == rows;
    } else {
      var last := |rows| - 1;
      RowsGrow(z, rows[..last], each, maxBytes, n);
      assert rows[..last][..n] == rows[..n];
      RowGrows(z, rows[last], each, maxBytes, RowsTally(z, rows[..last], each, maxBytes), |rows[last]|);
    }
  }

  /** A budget of nothing or less serves nothing. */
  lemma {:induction false} NothingForNothing(z: Sizes, rows: seq<seq<Key>>, each: bool, maxBytes: int)
    requires maxBytes <= 0
    ensures RowsTally(z, rows, each, maxBytes) == Tally(0, [])
  {
    CastIs(0);
    if rows != [] {
      NothingForNothing(z, rows[..|rows| - 1], each, maxBytes);
    }
  }

  // ---------------------------------------------------------------- what is left out

  /** The bytes served before the turn of a batch. */
  ghost function BytesAt(z: Sizes, rows: seq<seq<Key>>, each: bool, maxBytes: int, k: nat, n: nat): nat
    requires k < |rows| && n < |rows[k]|
  {
    var t := RowsTally(z, rows[..k], each, maxBytes);
    if Cast(t.bytes) >= maxBytes then t.bytes else RowTally(z, rows[k][..n], each, maxBytes, t).bytes
  }

  /** However large the sums: a batch is served, or at its turn the budget was spent, or it did not fit. */
  lemma LeftOutHadNoRoom(z: Sizes, rows: seq<seq<Key>>, each: bool, maxBytes: int, k: nat, n: nat)
    requires k < |rows| && n < |rows[k]|
    ensures var key, u := rows[k][n], BytesAt(z, rows, each, maxBytes, k, n);
            key in RowsTally(z, rows, each, maxBytes).keys || u >= maxBytes || u + z(key) > maxBytes
  {
    var row, t := rows[k], RowsTally(z, rows[..k], each, maxBytes);
    var u := BytesAt(z, rows, each, maxBytes, k, n);
    CastIs(t.bytes);
    CastIs(u);
    CastIs(u + z(row[n]));
    if Cast(t.bytes) < maxBytes && Cast(u) < maxBytes && Cast(u + z(row[n])) <= maxBytes {
      assert rows[..k + 1] == rows[..k] + [row];
      ServedInRow(z, row, n, each, maxBytes, t);
      RowsTallyPush(z, rows[..k], row, each, maxBytes);
      RowsGrow(z, rows, each, maxBytes, k + 1);
    }
  }

  lemma ServedInRow(z: Sizes, row: seq<Key>, n: nat, each: bool, maxBytes: int, t: Tally)
    requires n < |row|
    requires var u := RowTally(z, row[..n], each, maxBytes, t).bytes;
             Cast(u) < maxBytes && Cast(u + z(row[n])) <= maxBytes
    ensures row[n] in RowTally(z, row, each, maxBytes, t).keys
  {
    assert row[..n + 1] == row[..n] + [row[n]];
    RowTallyPush(z, row[..n], row[n], each, maxBytes, t);
    var t' := RowTally(z, row[..n + 1], each, maxBytes, t);
    assert t'.keys[|t'.keys| - 1] == row[n];
    RowGrows(z, row, each, maxBytes, t, n + 1);
  }

  // ---------------------------------------------------------------- the budget

  /** The same in plain arithmetic: a batch is taken if it fits. */
  ghost function PlainRow(z: Sizes, row: seq<Key>, maxBytes: int, u: nat): nat {
    if row == [] then u
    else
      var n := |row| - 1;
      var v := PlainRow(z, row[..n], maxBytes, u);
      if v + z(row[n]) <= maxBytes then v + z(row[n]) else v
  }

  ghost function PlainRows(z: Sizes, rows: seq<seq<Key>>, maxBytes: int): nat {
    if rows == [] then 0
    else PlainRow(z, rows[|rows| - 1], maxBytes, PlainRows(z, rows[..|rows| - 1], maxBytes))
  }

  /** A sum that does not fit, and that the comparison admits. */
  predicate Misjudged(sum: nat, maxBytes: int) {
    sum > maxBytes && Cast(sum) <= maxBytes
  }

  /** At some turn of the plain fold over a row the sum is misjudged, and the budget is not found spent. */
  ghost predicate RowSlips(z: Sizes, row: seq<Key>, each: bool, maxBytes: int, u: nat) {
    exists n :: 0 <= n < |row| && SlipsAt(z, row, each, maxBytes, u, n)
  }

  ghost predicate SlipsAt(z: Sizes, row: seq<Key>, each: bool, maxBytes: int, u: nat, n: nat)
    requires n < |row|
  {
    var v := PlainRow(z, row[..n], maxBytes, u);
    (each ==> v < maxBytes) && Misjudged(v + z(row[n]), maxBytes)
  }

  /** At some turn of the plain fold over all rows. */
  ghost predicate Slips(z: Sizes, rows: seq<seq<Key>>, each: bool, maxBytes: int) {
    exists k :: 0 <= k < |rows| && SlipsInRow(z, rows, each, maxBytes, k)
  }

  ghost predicate SlipsInRow(z: Sizes, rows: seq<seq<Key>>, each: bool, maxBytes: int, k: nat)
    requires k < |rows|
  {
    var u := PlainRows(z, rows[..k], maxBytes);
    u < maxBytes && RowSlips(z, rows[k], each, maxBytes, u)
  }

  lemma RowSlipsPush(z: Sizes, row: seq<Key>, each: bool, maxBytes: int, u: nat)
    requires row != []
    ensures var n := |row| - 1;
            RowSlips(z, row, each, maxBytes, u) <==>
            RowSlips(z, row[..n], each, maxBytes, u) || SlipsAt(z, row, each, maxBytes, u, n)
  {
    var last := |row| - 1;
    forall n | 0 <= n < last
      ensures SlipsAt(z, row, each, maxBytes, u, n) <==> SlipsAt(z, row[..last], each, maxBytes, u, n)
    {
      assert row[..last][..n] == row[..n];
    }
  }

  lemma SlipsPush(z: Sizes, rows: seq<seq<Key>>, each: bool, maxBytes: int)
    requires rows != []
    ensures var k := |rows| - 1;
            Slips(z, rows, each, maxBytes) <==>
            Slips(z, rows[..k], each, maxBytes) || SlipsInRow(z, rows, each, maxBytes, k)
  {
    var last := |rows| - 1;
    forall k | 0 <= k < last
      ensures SlipsInRow(z, rows, each, maxBytes, k) <==> SlipsInRow(z, rows[..last], each, maxBytes, k)
    {
      assert rows[..last][..k] == rows[..k];
    }
  }

  lemma {:induction false} RowWithinIff(z: Sizes, row: seq<Key>, each: bool, maxBytes: int, t: Tally)
    requires 0 <= t.bytes <= maxBytes <= I32_MAX
    ensures var t' := RowTally(z, row, each, maxBytes, t);
            if RowSlips(z, row, each, maxBytes, t.bytes) then t'.bytes > maxBytes
            else t'.bytes == PlainRow(z, row, maxBytes, t.bytes) <= maxBytes
    decreases |row|
  {
    if row != [] {
      var n := |row| - 1;
      var v := RowTally(z, row[..n], each, maxBytes, t).bytes;
      RowSlipsPush(z, row, each, maxBytes, t.bytes);
      RowWithinIff(z, row[..n], each, maxBytes, t);
      CastIs(v);
      CastIs(v + z(row[n]));
    }
  }

  /** The list keeps within a non-negative budget if and only if no turn of the plain fold slips; then what is
      served is as large as in plain arithmetic. This can be told from the sizes asked for alone. */
  lemma {:induction false} WithinBudgetIff(z: Sizes, rows: seq<seq<Key>>, each: bool, maxBytes: int)
    requires 0 <= maxBytes <= I32_MAX
    ensures var t := RowsTally(z, rows, each, maxBytes);
            && (t.bytes <= maxBytes <==> !Slips(z, rows, each, maxBytes))
            && (t.bytes <= maxBytes ==> t.bytes == PlainRows(z, rows, maxBytes))
    decreases |rows|
  {
    if rows != [] {
      var k := |rows| - 1;
      var t := RowsTally(z, rows[..k], each, maxBytes);
      SlipsPush(z, rows, each, maxBytes);
      WithinBudgetIff(z, rows[..k], each, maxBytes);
      RowsGrow(z, rows, each, maxBytes, k);
      CastIs(t.bytes);
      if t.bytes < maxBytes {
        RowWithinIff(z, rows[k], each, maxBytes, t);
      } else if t.bytes == maxBytes {
        FullTakesNothing(z, rows[k], maxBytes);
      }
    }
  }

  lemma {:induction false} FullTakesNothing(z: Sizes, row: seq<Key>, maxBytes: nat)
    ensures PlainRow(z, row, maxBytes, maxBytes) == maxBytes
  {
    if row != [] {
      FullTakesNothing(z, row[..|row| - 1], maxBytes);
    }
  }

  lemma {:induction false} PlainWithin(z: Sizes, row: seq<Key>, maxBytes: nat, u: nat)
    requires u <= maxBytes
    ensures PlainRow(z, row, maxBytes, u) <= maxBytes
  {
    if row != [] {
      PlainWithin(z, row[..|row| - 1], maxBytes, u);
    }
  }

  /** The budget and every batch asked for stay within the signed range together. */
  ghost predicate AllModest(z: Sizes, rows: seq<seq<Key>>, maxBytes: int) {
    forall k, n :: 0 <= k < |rows| && 0 <= n < |rows[k]| ==> maxBytes + z(rows[k][n]) <= I32_MAX
  }

  /** That is enough. */
  lemma ModestWithinBudget(z: Sizes, rows: seq<seq<Key>>, each: bool, maxBytes: int)
    requires 0 <= maxBytes <= I32_MAX && AllModest(z, rows, maxBytes)
    ensures RowsTally(z, rows, each, maxBytes).bytes <= maxBytes
  {
    WithinBudgetIff(z, rows, each, maxBytes);
    forall k: nat | k < |rows|
      ensures !SlipsInRow(z, rows, each, maxBytes, k)
    {
      var u := PlainRows(z, rows[..k], maxBytes);
      if u < maxBytes {
        forall n: nat | n < |rows[k]|
          ensures !SlipsAt(z, rows[k], each, maxBytes, u, n)
        {
          PlainWithin(z, rows[k][..n], maxBytes, u);
          CastIs(PlainRow(z, rows[k][..n], maxBytes, u) + z(rows[k][n]));
        }
      }
    }
  }

  // ---------------------------------------------------------------- room for everything

  ghost function RowSize(z: Sizes, row: seq<Key>): nat {
    if row == [] then 0 else RowSize(z, row[..|row| - 1]) + z(row[|row| - 1])
  }

  /** The size of everything asked for. */
  ghost function RowsSize(z: Sizes, rows: seq<seq<Key>>): nat {
    if rows == [] then 0 else RowsSize(z, rows[..|rows| - 1]) + RowSize(z, rows[|rows| - 1])
  }

  lemma {:induction false} RowAllFit(z: Sizes, row: seq<Key>, each: bool, maxBytes: int, t: Tally)
    requires t.bytes + RowSize(z, row) <= maxBytes <= I32_MAX
    ensures var t' := RowTally(z, row, each, maxBytes, t);
            && t'.bytes == t.bytes + RowSize(z, row) && t.keys <= t'.keys
            && forall key :: key in row && (z(key) > 0 || t'.bytes < maxBytes) ==> key in t'.keys
    decreases |row|
  {
    if row != [] {
      var n := |row| - 1;
      RowAllFit(z, row[..n], each, maxBytes, t);
      var before, after := RowTally(z, row[..n], each, maxBytes, t), RowTally(z, row, each, maxBytes, t);
      KeyFits(z, row[n], each, maxBytes, before, after);
      assert row == row[..n] + [row[n]];
    }
  }

  lemma KeyFits(z: Sizes, key: Key, each: bool, maxBytes: int, t: Tally, t': Tally)
    requires t.bytes + z(key) <= maxBytes <= I32_MAX
    requires t' == if each && Cast(t.bytes) >= maxBytes then t else Offered(z, key, maxBytes, t)
    ensures t'.bytes == t.bytes + z(key) && t.keys <= t'.keys
    ensures z(key) > 0 || t'.bytes < maxBytes ==> key in t'.keys
  {
    CastIs(t.bytes);
    CastIs(t.bytes + z(key));
  }

  lemma {:induction false} RowSizeHas(z: Sizes, row: seq<Key>, key: Key)
    requires key in row
    ensures z(key) <= RowSize(z, row)
  {
    var n := |row| - 1;
    assert row == row[..n] + [row[n]];
    if key in row[..n] {
      RowSizeHas(z, row[..n], key);
    }
  }

  /** If everything asked for fits the budget together, all of it is served; if it fits exactly, all but batches
      of no size may be relied upon. */
  lemma {:induction false} AllFit(z: Sizes, rows: seq<seq<Key>>, each: bool, maxBytes: int)
    requires RowsSize(z, rows) <= maxBytes <= I32_MAX
    ensures var t := RowsTally(z, rows, each, maxBytes);
            && t.bytes == RowsSize(z, rows)
            && forall k :: 0 <= k < |rows| ==> Taken(z, rows[k], maxBytes, t)
    decreases |rows|
  {
    if rows != [] {
      var last := |rows| - 1;
      var t, t' := RowsTally(z, rows[..last], each, maxBytes), RowsTally(z, rows, each, maxBytes);
      AllFit(z, rows[..last], each, maxBytes);
      RowTaken(z, rows[last], each, maxBytes, t, t');
      forall k | 0 <= k < last
        ensures Taken(z, rows[k], maxBytes, t')
      {
        assert Taken(z, rows[..last][k], maxBytes, t);
      }
    }
  }

  /** Of a row, everything has been served that has a size, and everything at all if there is room left. */
  ghost predicate Taken(z: Sizes, row: seq<Key>, maxBytes: int, t: Tally) {
    forall key :: key in row && (z(key) > 0 || t.bytes < maxBytes) ==> key in t.keys
  }

  lemma RowTaken(z: Sizes, row: seq<Key>, each: bool, maxBytes: int, t: Tally, t': Tally)
    requires t.bytes + RowSize(z, row) <= maxBytes <= I32_MAX
    requires t' == if Cast(t.bytes) >= maxBytes then t else RowTally(z, row, each, maxBytes, t)
    ensures t'.bytes == t.bytes + RowSize(z, row) && t.keys <= t'.keys && Taken(z, row, maxBytes, t')
  {
    CastIs(t.bytes);
    RowAllFit(z, row, each, maxBytes, t);
    forall key | key in row
      ensures z(key) <= RowSize(z, row)
    {
      RowSizeHas(z, row, key);
    }
  }

  /** The difference between the loops: with the budget used up exactly by the first batch of a row, a second one of
      no size is served if the budget is looked at between rows only, and not if it is looked at before each batch. */
  lemma SecondOfNoSize(z: Sizes, a: Key, b: Key, maxBytes: int)
    requires 0 < z(a) == maxBytes <= I32_MAX && z(b) == 0
    ensures RowsTally(z, [[a, b]], false, maxBytes).keys == [a, b]
    ensures RowsTally(z, [[a, b]], true, maxBytes).keys == [a]
  {
    var row: seq<Key> := [a, b];
    var rows: seq<seq<Key>> := [row];
    assert rows[..0] == [] && row[..1] == [a];
    CastIs(0);
    CastIs(maxBytes);
    forall each: bool
      ensures RowTally(z, [a], each, maxBytes, Tally(0, [])) == Tally(maxBytes, [a])
    {
      RowTallyPush(z, [], a, each, maxBytes, Tally(0, []));
      assert [] + [a] == [a];
    }
    RowTallyPush(z, [a], b, false, maxBytes, Tally(0, []));
    RowTallyPush(z, [a], b, true, maxBytes, Tally(0, []));
    assert [a] + [b] == row;
  }

  // ---------------------------------------------------------------- the batches asked for

  /** Keys in lexicographic order. */
  predicate Before(x: Key, y: Key) {
    x.0 < y.0 || (x.0 == y.0 && x.1 < y.1)
  }

  predicate Increasing(keys: seq<Key>) {
    forall k, l :: 0 <= k < l < |keys| ==> Before(keys[k], keys[l])
  }

  /** The keys of a row that can be looked up. */
  function Keyed(a: nat, order: seq<nat>, inner: nat): seq<Key> {
    if order == [] then []
    else
      var n := |order| - 1;
      Keyed(a, order[..n], inner) + if order[n] < inner then [(a, order[n])] else []
  }

  ghost function RowFor(wanted: map<nat, set<nat>>, a: nat, outer: nat, inner: nat): seq<Key>
    requires a in wanted
  {
    if a < outer then Keyed(a, Listed(wanted[a]), inner) else []
  }

  ghost function RowsFor(wanted: map<nat, set<nat>>, order: seq<nat>, outer: nat, inner: nat): seq<seq<Key>>
    requires forall a :: a in order ==> a in wanted
  {
    if order == [] then []
    else
      var n := |order| - 1;
      RowsFor(wanted, order[..n], outer, inner) + [RowFor(wanted, order[n], outer, inner)]
  }

  /** All keys of a request that can be looked up, row by row, in order. */
  ghost function Rows(wanted: map<nat, set<nat>>, outer: nat, inner: nat): seq<seq<Key>> {
    RowsFor(wanted, Listed(wanted.Keys), outer, inner)
  }

  lemma {:induction false} KeyedIs(a: nat, order: seq<nat>, inner: nat)
    requires Ascending(order)
    ensures Increasing(Keyed(a, order, inner))
    ensures forall key: Key :: key in Keyed(a, order, inner) <==> key.0 == a && key.1 in order && key.1 < inner
  {
    if order != [] {
      var n := |order| - 1;
      KeyedIs(a, order[..n], inner);
      assert order == order[..n] + [order[n]];
      forall x | x in order[..n]
        ensures x < order[n]
      {
      }
      var init := Keyed(a, order[..n], inner);
      forall k | 0 <= k < |init|
        ensures Before(init[k], (a, order[n]))
      {
        assert init[k] in init;
      }
    }
  }

  lemma {:induction false} RowsForAre(wanted: map<nat, set<nat>>, order: seq<nat>, outer: nat, inner: nat)
    requires forall a :: a in order ==> a in wanted
    ensures |RowsFor(wanted, order, outer, inner)| == |order|
    ensures forall k :: 0 <= k < |order| ==>
              RowsFor(wanted, order, outer, inner)[k] == RowFor(wanted, order[k], outer, inner)
  {
    if order != [] {
      var n := |order| - 1;
      var init := order[..n];
      RowsForAre(wanted, init, outer, inner);
      forall k | 0 <= k < |order|
        ensures RowsFor(wanted, order, outer, inner)[k] == RowFor(wanted, order[k], outer, inner)
      {
        if k < n {
          assert RowsFor(wanted, init, outer, inner)[k] == RowFor(wanted, init[k], outer, inner);
        }
      }
    }
  }

  lemma {:induction false} RowsForPrefix(wanted: map<nat, set<nat>>, order: seq<nat>, n: nat, outer: nat, inner: nat)
    requires n <= |order| && forall a :: a in order ==> a in wanted
    ensures n <= |RowsFor(wanted, order, outer, inner)|
    ensures RowsFor(wanted, order, outer, inner)[..n] == RowsFor(wanted, order[..n], outer, inner)
    decreases |order|
  {
    RowsForAre(wanted, order, outer, inner);
    if n == |order| {
      assert order[..n] == order;
    } else {
      var last := |order| - 1;
      RowsForPrefix(wanted, order[..last], n, outer, inner);
      assert order[..last][..n] == order[..n];
    }
  }

  lemma RowsOfOne(wanted: map<nat, set<nat>>, a: nat, s: set<nat>, order: seq<nat>, outer: nat, inner: nat)
    requires wanted == map[a := s] && a < outer && Ascending(order) && forall x :: x in order <==> x in s
    ensures Rows(wanted, outer, inner) == [Keyed(a, order, inner)]
  {
    AscendingIsUnique(Listed(wanted.Keys), [a]);
    AscendingIsUnique(Listed(s), order);
    RowsForAre(wanted, [a], outer, inner);
  }

  lemma KeyedOne(a: nat, x: nat, inner: nat)
    requires x < inner
    ensures Keyed(a, [x], inner) == [(a, x)]
  {
    assert Keyed(a, [x][..0], inner) == [];
  }

  lemma KeyedTwo(a: nat, x: nat, y: nat, inner: nat)
    requires x < y < inner
    ensures Keyed(a, [x, y], inner) == [(a, x), (a, y)]
  {
    assert [x, y][..1] == [x];
    KeyedOne(a, x, inner);
  }

  lemma NextRow(z: Sizes, wanted: map<nat, set<nat>>, order: seq<nat>, n: nat, outer: nat, inner: nat,
                each: bool, maxBytes: int)
    requires n < |order| && forall a :: a in order ==> a in wanted
    ensures var t := RowsTally(z, RowsFor(wanted, order[..n], outer, inner), each, maxBytes);
            RowsTally(z, RowsFor(wanted, order[..n + 1], outer, inner), each, maxBytes) ==
            if Cast(t.bytes) >= maxBytes then t
            else RowTally(z, RowFor(wanted, order[n], outer, inner), each, maxBytes, t)
  {
    assert order[..n + 1][..n] == order[..n];
    RowsTallyPush(z, RowsFor(wanted, order[..n], outer, inner), RowFor(wanted, order[n], outer, inner), each, maxBytes);
  }

  lemma RestSpent(z: Sizes, wanted: map<nat, set<nat>>, order: seq<nat>, n: nat, outer: nat, inner: nat,
                  each: bool, maxBytes: int)
    requires n <= |order| && forall a :: a in order ==> a in wanted
    requires Cast(RowsTally(z, RowsFor(wanted, order[..n], outer, inner), each, maxBytes).bytes) >= maxBytes
    ensures RowsTally(z, RowsFor(wanted, order, outer, inner), each, maxBytes) ==
            RowsTally(z, RowsFor(wanted, order[..n], outer, inner), each, maxBytes)
  {
    RowsForPrefix(wanted, order, n, outer, inner);
    SpentRows(z, RowsFor(wanted, order, outer, inner), n, each, maxBytes);
  }

  /** A key is in the row of its first part exactly when it is asked for and can be looked up. */
  lemma RowsAre(wanted: map<nat, set<nat>>, outer: nat, inner: nat, key: Key)
    ensures (exists k :: 0 <= k < |Rows(wanted, outer, inner)| && key in Rows(wanted, outer, inner)[k]) <==>
            key.0 in wanted && key.1 in wanted[key.0] && key.0 < outer && key.1 < inner
  {
    var order, rows := Listed(wanted.Keys), Rows(wanted, outer, inner);
    RowsForAre(wanted, order, outer, inner);
    forall k | 0 <= k < |order|
      ensures key in rows[k] <==> key.0 == order[k] && key.1 in wanted[order[k]] && key.0 < outer && key.1 < inner
    {
      assert order[k] in order;
      KeyedIs(order[k], Listed(wanted[order[k]]), inner);
    }
    if key.0 in wanted {
      assert key.0 in order;
      var k :| 0 <= k < |order| && order[k] == key.0;
    }
  }

  lemma {:induction false} RowTallyInOrder(z: Sizes, row: seq<Key>, each: bool, maxBytes: int, t: Tally)
    requires Increasing(row) && Increasing(t.keys)
    requires forall k, l :: 0 <= k < |t.keys| && 0 <= l < |row| ==> Before(t.keys[k], row[l])
    ensures var t' := RowTally(z, row, each, maxBytes, t);
            Increasing(t'.keys) && forall key :: key in t'.keys ==> key in t.keys || key in row
    decreases |row|
  {
    if row != [] {
      var n := |row| - 1;
      RowTallyInOrder(z, row[..n], each, maxBytes, t);
      var t' := RowTally(z, row[..n], each, maxBytes, t);
      assert row == row[..n] + [row[n]];
      forall k | 0 <= k < |t'.keys|
        ensures Before(t'.keys[k], row[n])
      {
        assert t'.keys[k] in t'.keys;
      }
    }
  }

  /** Served keys are in order, none twice, and were asked for. */
  lemma {:induction false} TallyInOrder(z: Sizes, wanted: map<nat, set<nat>>, order: seq<nat>, outer: nat, inner: nat,
                                        each: bool, maxBytes: int)
    requires Ascending(order) && forall a :: a in order ==> a in wanted
    ensures var t := RowsTally(z, RowsFor(wanted, order, outer, inner), each, maxBytes);
            && Increasing(t.keys)
            && forall key :: key in t.keys ==>
                 key.0 in order && key.1 in wanted[key.0] && key.0 < outer && key.1 < inner
    decreases |order|
  {
    if order != [] {
      var n := |order| - 1;
      TallyInOrder(z, wanted, order[..n], outer, inner, each, maxBytes);
      var t := RowsTally(z, RowsFor(wanted, order[..n], outer, inner), each, maxBytes);
      var row := RowFor(wanted, order[n], outer, inner);
      assert order == order[..n] + [order[n]];
      RowsTallyPush(z, RowsFor(wanted, order[..n], outer, inner), row, each, maxBytes);
      KeyedIs(order[n], Listed(wanted[order[n]]), inner);
      forall k, l | 0 <= k < |t.keys| && 0 <= l < |row|
        ensures Before(t.keys[k], row[l])
      {
        assert t.keys[k] in t.keys && row[l] in row;
      }
      RowTallyInOrder(z, row, each, maxBytes, t);
    }
  }
}
