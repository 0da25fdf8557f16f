/** How time is cut into full slices and a ladder of partial slices
    (crates/dht/src/time.rs). Times and durations are microseconds. */
module TimeLayout {
  import opened Wrappers

  const SECOND: nat := 1_000_000
  const UNIT_SECS: nat := 900
  const UNIT: nat := 900_000_000

  function Pow2(n: nat): (r: nat)
    ensures r >= 1
  {
    if n == 0 then 1 else 2 * Pow2(n - 1)
  }

  /** The duration of a slice of size `i`. A full slice has size `factor`. */
  function SliceSize(i: nat): (r: nat)
    ensures r >= UNIT
  {
    if i == 0 then UNIT else 2 * SliceSize(i - 1)
  }

  /** A slice of size `i` lasts 2^i units. */
  lemma {:induction false} SliceSizeIsPow2(i: nat)
    ensures SliceSize(i) == Pow2(i) * UNIT
    ensures Residual(i) == (Pow2(i + 1) - 1) * UNIT
  {
    if i > 0 {
      SliceSizeIsPow2(i - 1);
    }
  }

  function SliceSeconds(i: nat): nat {
    Pow2(i) * UNIT_SECS
  }

  function Times(k: nat, d: nat): nat {
    if k == 0 then 0 else d + Times(k - 1, d)
  }

  lemma {:induction false} TimesIsProduct(k: nat, d: nat)
    ensures Times(k, d) == k * d
  {
    if k > 0 {
      TimesIsProduct(k - 1, d);
      assert k * d == (k - 1) * d + d;
    }
  }

  lemma TimesUpToTwo(d: nat)
    ensures Times(0, d) == 0 && Times(1, d) == d && Times(2, d) == 2 * d
  {
    assert Times(1, d) == d;
  }

  function Max(a: nat, b: nat): nat {
    if a >= b then a else b
  }

  /** The duration of one slice of each size from `i` down to 0. */
  function Residual(i: nat): nat {
    2 * SliceSize(i) - UNIT
  }

  /** Bitwise or on numbers, one binary digit at a time. */
  function BitOr(a: nat, b: nat): nat
    decreases a + b
  {
    if a == 0 && b == 0 then 0
    else 2 * BitOr(a / 2, b / 2) + (if a % 2 == 1 || b % 2 == 1 then 1 else 0)
  }

  lemma {:induction false} BitOrNextPower(i: nat)
    ensures BitOr(Pow2(i) - 1, Pow2(i)) == Pow2(i + 1) - 1
  {
    if i > 0 {
      BitOrNextPower(i - 1);
      assert (Pow2(i) - 1) / 2 == Pow2(i - 1) - 1 && Pow2(i) / 2 == Pow2(i - 1);
    } else {
      assert BitOr(0, 0) == 0;
    }
  }

  /** The sum of powers of two up to `factor`, set bit by bit, as a duration. */
  method ResidualDurationForFactor(factor: nat) returns (r: Result<nat>)
    ensures r.Err? <==> factor >= 54
    ensures r.Ok? ==> r.value == Residual(factor)
  {
    if factor >= 54 {
      return Err;
    }
    var sum := 1;
    for i := 1 to factor + 1
      invariant sum == Pow2(i) - 1
    {
      BitOrNextPower(i);
      sum := BitOr(sum, Pow2(i));
    }
    SliceSizeIsPow2(factor);
    return Ok(sum * UNIT_SECS * SECOND);
  }

  // ---------------------------------------------------------------- full slices

  /** Whole division, by repeated subtraction; `DivIsQuotient` ties it to `/`. */
  function Div(x: nat, d: nat): nat
    requires d > 0
    decreases x
  {
    if x < d then 0 else 1 + Div(x - d, d)
  }

  /** `c` fits under the quotient exactly when `c` times the divisor fits under the dividend. */
  lemma {:induction false} DivGalois(x: nat, d: nat, c: nat)
    requires d > 0
    ensures c <= Div(x, d) <==> Times(c, d) <= x
    decreases x
  {
    if c > 0 && x >= d {
      DivGalois(x - d, d, c - 1);
    }
  }

  lemma DivBounds(x: nat, d: nat)
    requires d > 0
    ensures Times(Div(x, d), d) <= x < Times(Div(x, d), d) + d
  {
    DivGalois(x, d, Div(x, d));
    DivGalois(x, d, Div(x, d) + 1);
  }

  lemma DivIs(x: nat, d: nat, q: nat)
    requires d > 0 && Times(q, d) <= x < Times(q, d) + d
    ensures Div(x, d) == q
  {
    DivGalois(x, d, q);
    DivGalois(x, d, q + 1);
  }

  lemma DivIsQuotient(x: nat, d: nat)
    requires d > 0
    ensures Div(x, d) == x / d
  {
    assert x == (x / d) * d + x % d;
    TimesIsProduct(x / d, d);
    DivIs(x, d, x / d);
  }

  lemma DivOfDiv(x: nat, a: nat, b: nat)
    requires a > 0 && b > 0 && b * a > 0
    ensures Div(x, b * a) == Div(Div(x, a), b)
  {
    var p, q := Div(Div(x, a), b), Div(x, b * a);
    DivThrough(x, a, b, p);
    DivThrough(x, a, b, q);
  }

  lemma DivThrough(x: nat, a: nat, b: nat, c: nat)
    requires a > 0 && b > 0 && b * a > 0
    ensures c <= Div(Div(x, a), b) <==> c <= Div(x, b * a)
  {
    DivGalois(Div(x, a), b, c);
    DivGalois(x, a, Times(c, b));
    DivGalois(x, b * a, c);
    MulAssoc(c, b, a);
    TimesIsProduct(c, b);
    TimesIsProduct(Times(c, b), a);
    TimesIsProduct(c, b * a);
  }

  lemma MulAssoc(a: nat, b: nat, c: nat)
    ensures a * (b * c) == (a * b) * c
  {
  }

  /** The time always kept out of full slices. */
  function MinRecent(factor: nat): nat
    requires factor >= 1
  {
    Residual(factor - 1)
  }

  function FullEnd(factor: nat, fullSlices: nat): nat {
    Times(fullSlices, SliceSize(factor))
  }

  /** How many full slices belong before time `now`: a function of the time alone. */
  function FullCount(factor: nat, now: nat): nat
    requires factor >= 1
  {
    if now < MinRecent(factor) then 0 else Div(now - MinRecent(factor), SliceSize(factor))
  }

  /** The count is the whole quotient, and the end the product, of ordinary arithmetic. */
  lemma FullCountIsFloor(factor: nat, now: nat, count: nat)
    requires factor >= 1
    ensures FullCount(factor, now) ==
            if now < MinRecent(factor) then 0 else (now - MinRecent(factor)) / SliceSize(factor)
    ensures FullEnd(factor, count) == count * SliceSize(factor)
  {
    if now >= MinRecent(factor) {
      DivIsQuotient(now - MinRecent(factor), SliceSize(factor));
    }
    TimesIsProduct(count, SliceSize(factor));
  }

  /** `layout_full_slices`: how many full slices to add, counted in whole seconds. */
  function LayoutFullSlices(factor: nat, fullSlices: nat, now: nat): Result<nat>
    requires factor >= 1
  {
    if now < FullEnd(factor, fullSlices) then Err
    else
      var recent := now - FullEnd(factor, fullSlices);
      if recent > MinRecent(factor)
      then Ok(Div(Div(recent - MinRecent(factor), SECOND), SliceSeconds(factor)))
      else Ok(0)
  }

  /** Adding full slices fails exactly when the clock is behind the last one, and otherwise brings
      the count up to what the time asks for, never down. */
  lemma LayoutFullReaches(factor: nat, fullSlices: nat, now: nat)
    requires factor >= 1
    ensures LayoutFullSlices(factor, fullSlices, now).Err? <==> now < FullEnd(factor, fullSlices)
    ensures now >= FullEnd(factor, fullSlices) ==>
              fullSlices + LayoutFullSlices(factor, fullSlices, now).value ==
              Max(fullSlices, FullCount(factor, now))
  {
    var full, min := SliceSize(factor), MinRecent(factor);
    if now >= FullEnd(factor, fullSlices) {
      var recent := now - FullEnd(factor, fullSlices);
      if recent > min {
        SliceSizeIsPow2(factor);
        DivOfDiv(recent - min, SECOND, SliceSeconds(factor));
        DivShift(recent - min, full, fullSlices);
      } else if now >= min {
        DivGalois(now - min, full, fullSlices + 1);
      }
    }
  }

  lemma {:induction false} DivShift(x: nat, d: nat, c: nat)
    requires d > 0
    ensures Div(x + Times(c, d), d) == Div(x, d) + c
  {
    if c > 0 {
      DivShift(x, d, c - 1);
    }
  }

  /** A positive count is not ahead of the time exactly when it leaves the reserved recent time. */
  lemma CountAheadIff(factor: nat, count: nat, now: nat)
    requires factor >= 1 && count > 0
    ensures count <= FullCount(factor, now) <==> FullEnd(factor, count) + MinRecent(factor) <= now
  {
    if now >= MinRecent(factor) {
      DivGalois(now - MinRecent(factor), SliceSize(factor), count);
    }
  }

  /** Once the count has caught up with the time, less than two full slices, less one unit, is left. */
  lemma RecentBound(factor: nat, count: nat, now: nat)
    requires factor >= 1 && FullEnd(factor, count) <= now && count >= FullCount(factor, now)
    ensures now - FullEnd(factor, count) < Residual(factor)
  {
    assert Residual(factor) == SliceSize(factor) + MinRecent(factor);
    CountAheadIff(factor, count + 1, now);
    assert FullEnd(factor, count + 1) == FullEnd(factor, count) + SliceSize(factor);
  }

  // ---------------------------------------------------------------- partial slices

  datatype Slot = Slot(start: nat, size: nat) {
    function End(): nat {
      start + SliceSize(size)
    }
  }

  /** How many slices of size `i` to take out of `recent`. */
  function SlotCount(recent: nat, i: nat): (k: nat)
    ensures Times(k, SliceSize(i)) <= recent
    ensures recent > 0 ==> Times(k, SliceSize(i)) < recent
    ensures recent <= Residual(i + 1) ==> recent - Times(k, SliceSize(i)) <= Residual(i)
    ensures k <= 2
  {
    TimesUpToTwo(SliceSize(i));
    if recent > Residual(i) + SliceSize(i) then 2
    else if recent > SliceSize(i) then 1
    else 0
  }

  /** The counts that `layout_partials` settles on for the sizes below `n`, largest first. */
  function Counts(recent: nat, n: nat): (r: seq<nat>)
    ensures |r| == n
    decreases n
  {
    if n == 0 then []
    else
      var k := SlotCount(recent, n - 1);
      [k] + Counts(recent - Times(k, SliceSize(n - 1)), n - 1)
  }

  /** The time taken by `counts[0]` slices of size `|counts| - 1`, and so on down to size 0. */
  function Covered(counts: seq<nat>): nat {
    if counts == [] then 0 else Times(counts[0], SliceSize(|counts| - 1)) + Covered(counts[1..])
  }

  /** `count` slices of one size in a row. */
  function Slots(start: nat, size: nat, count: nat): seq<Slot>
    decreases count
  {
    if count == 0 then [] else [Slot(start, size)] + Slots(start + SliceSize(size), size, count - 1)
  }

  /** The slices with the given counts, laid out from `start`. */
  function Lay(start: nat, counts: seq<nat>): seq<Slot>
    decreases |counts|
  {
    if counts == [] then []
    else
      var size := |counts| - 1;
      Slots(start, size, counts[0]) + Lay(start + Times(counts[0], SliceSize(size)), counts[1..])
  }

  /** The ladder of slices of sizes below `n` that is cut from `recent`. */
  function Ladder(start: nat, recent: nat, n: nat): seq<Slot> {
    Lay(start, Counts(recent, n))
  }

  function LadderEnd(start: nat, slots: seq<Slot>): nat {
    if slots == [] then start else slots[|slots| - 1].End()
  }

  /** The slots follow each other from `start` with neither gap nor overlap. */
  predicate Tiles(start: nat, slots: seq<Slot>) {
    (slots != [] ==> slots[0].start == start) &&
    forall i, j :: 0 <= i && j == i + 1 < |slots| ==> slots[j].start == slots[i].End()
  }

  /** Sizes are below `n` and never grow, and no size occurs a third time. */
  predicate Shrinks(slots: seq<Slot>, n: nat) {
    (forall i :: 0 <= i < |slots| ==> slots[i].size < n) &&
    (forall i, j :: 0 <= i < j < |slots| ==> slots[j].size <= slots[i].size) &&
    (forall i, j :: 0 <= i && i + 2 <= j < |slots| ==> slots[j].size < slots[i].size)
  }

  lemma TilesAppend(start: nat, a: seq<Slot>, b: seq<Slot>)
    requires Tiles(start, a) && Tiles(LadderEnd(start, a), b)
    ensures Tiles(start, a + b)
    ensures LadderEnd(start, a + b) == LadderEnd(LadderEnd(start, a), b)
  {
  }

  lemma {:induction false} SlotsTile(start: nat, size: nat, count: nat)
    ensures Tiles(start, Slots(start, size, count))
    ensures LadderEnd(start, Slots(start, size, count)) == start + Times(count, SliceSize(size))
    decreases count
  {
    if count > 0 {
      var next := start + SliceSize(size);
      SlotsTile(next, size, count - 1);
      TilesAppend(start, [Slot(start, size)], Slots(next, size, count - 1));
    }
  }

  lemma {:induction false} LayTiles(start: nat, counts: seq<nat>)
    ensures Tiles(start, Lay(start, counts))
    ensures LadderEnd(start, Lay(start, counts)) == start + Covered(counts)
    decreases |counts|
  {
    if counts != [] {
      var size := |counts| - 1;
      var next := start + Times(counts[0], SliceSize(size));
      SlotsTile(start, size, counts[0]);
      LayTiles(next, counts[1..]);
      TilesAppend(start, Slots(start, size, counts[0]), Lay(next, counts[1..]));
    }
  }

  lemma {:induction false} SlotsShape(start: nat, size: nat, count: nat)
    ensures |Slots(start, size, count)| == count
    ensures forall i :: 0 <= i < count ==> Slots(start, size, count)[i].size == size
    decreases count
  {
    if count > 0 {
      SlotsShape(start + SliceSize(size), size, count - 1);
    }
  }

  lemma {:induction false} LayShrinks(start: nat, counts: seq<nat>)
    requires forall i :: 0 <= i < |counts| ==> counts[i] <= 2
    ensures Shrinks(Lay(start, counts), |counts|)
    decreases |counts|
  {
    if counts != [] {
      SlotsShape(start, |counts| - 1, counts[0]);
      LayShrinks(start + Times(counts[0], SliceSize(|counts| - 1)), counts[1..]);
    }
  }

  lemma {:induction false} CountsFacts(recent: nat, n: nat)
    ensures forall i :: 0 <= i < n ==> Counts(recent, n)[i] <= 2
    ensures Covered(Counts(recent, n)) <= recent
    ensures recent > 0 ==> Covered(Counts(recent, n)) < recent
    ensures recent <= Residual(n) ==> recent - Covered(Counts(recent, n)) <= UNIT
    decreases n
  {
    if n > 0 {
      var k := SlotCount(recent, n - 1);
      var rest := Counts(recent - Times(k, SliceSize(n - 1)), n - 1);
      CountsFacts(recent - Times(k, SliceSize(n - 1)), n - 1);
      assert Counts(recent, n)[1..] == rest;
    }
  }

  /** The whole geometry of the ladder: it tiles from `start`, sizes never grow and none occurs a
      third time, it stays short of the time it covers, and the uncovered tail is at most one unit. */
  lemma LadderGeometry(start: nat, recent: nat, n: nat)
    ensures var slots := Ladder(start, recent, n);
            && Tiles(start, slots)
            && Shrinks(slots, n)
            && start <= LadderEnd(start, slots) <= start + recent
            && (recent > 0 ==> LadderEnd(start, slots) < start + recent)
            && (recent <= Residual(n) ==> start + recent - LadderEnd(start, slots) <= UNIT)
  {
    CountsFacts(recent, n);
    LayTiles(start, Counts(recent, n));
    LayShrinks(start, Counts(recent, n));
  }

  lemma LayUnfold(start: nat, k: nat, counts: seq<nat>)
    ensures Lay(start, [k] + counts) ==
            Slots(start, |counts|, k) + Lay(start + Times(k, SliceSize(|counts|)), counts)
  {
    assert ([k] + counts)[1..] == counts;
  }

  lemma LadderUnfold(start: nat, recent: nat, i: nat, k: nat, cut: nat)
    requires k == SlotCount(recent, i) && cut == Times(k, SliceSize(i))
    ensures cut <= recent && Ladder(start, recent, i + 1) == Slots(start, i, k) + Ladder(start + cut, recent - cut, i)
  {
    LayUnfold(start, k, Counts(recent - cut, i));
  }

  /** The inner loop of `layout_partials`: pushes `count` slices of one size. */
  method PushSlots(partials: seq<Slot>, start: nat, recent: nat, size: nat, count: nat)
      returns (partials': seq<Slot>, start': nat, recent': nat)
    requires Times(count, SliceSize(size)) <= recent
    ensures partials' == partials + Slots(start, size, count)
    ensures start' == start + Times(count, SliceSize(size))
    ensures recent' == recent - Times(count, SliceSize(size))
  {
    partials', start', recent' := partials, start, recent;
    for j := 0 to count
      invariant start' + Times(count - j, SliceSize(size)) == start + Times(count, SliceSize(size))
      invariant recent' - Times(count - j, SliceSize(size)) == recent - Times(count, SliceSize(size))
      invariant partials' + Slots(start', size, count - j) == partials + Slots(start, size, count)
    {
      partials' := partials' + [Slot(start', size)];
      start' := start' + SliceSize(size);
      recent' := recent' - SliceSize(size);
    }
  }

  /** One round of the outer loop: what is left to push shrinks by what was pushed. */
  method PushSize(partials: seq<Slot>, start: nat, recent: nat, size: nat, count: nat)
      returns (partials': seq<Slot>, start': nat, recent': nat)
    requires count == SlotCount(recent, size)
    ensures partials' + Ladder(start', recent', size) == partials + Ladder(start, recent, size + 1)
  {
    ghost var cut := Times(count, SliceSize(size));
    LadderUnfold(start, recent, size, count, cut);
    partials', start', recent' := PushSlots(partials, start, recent, size, count);
    ghost var pushed, left := Slots(start, size, count), Ladder(start + cut, recent - cut, size);
    assert (partials + pushed) + left == partials + (pushed + left);
  }

  /** How many slices of one size `layout_partials` pushes. */
  method CountOfSize(recent: nat, i: nat) returns (r: Result<nat>)
    ensures r.Err? <==> i >= 54
    ensures r.Ok? ==> r.value == SlotCount(recent, i)
  {
    var size := SliceSize(i);
    var residual :- ResidualDurationForFactor(i);
    return Ok(if recent > residual + size then 2 else if recent > size then 1 else 0);
  }

  /** `layout_partials`. */
  method LayoutPartials(factor: nat, startAt: nat, now: nat) returns (r: Result<seq<Slot>>)
    ensures r.Err? <==> now < startAt || factor > 54
    ensures r.Ok? ==> r.value == Ladder(startAt, now - startAt, factor)
  {
    if now < startAt {
      return Err;
    }
    var start: nat, recent: nat := startAt, now - startAt;
    var partials: seq<Slot> := [];
    ghost var target := Ladder(start, recent, factor);
    for i := factor downto 0
      invariant i == factor || factor <= 54
      invariant partials + Ladder(start, recent, i) == target
    {
      var count :- CountOfSize(recent, i);
      partials, start, recent := PushSize(partials, start, recent, i, count);
    }
    assert Ladder(start, recent, 0) == [];
    return Ok(partials);
  }
}
