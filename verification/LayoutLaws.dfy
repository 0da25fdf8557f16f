/** What the layout of time promises as a whole, for every current time. */
module LayoutLaws {
  import opened TimeLayout

  /** A whole number of units. */
  predicate Aligned(x: nat) {
    x == 0 || (x >= UNIT && Aligned(x - UNIT))
  }

  lemma {:induction false} AlignedSum(a: nat, b: nat)
    requires Aligned(a) && Aligned(b)
    ensures Aligned(a + b)
    decreases a
  {
    if a > 0 {
      AlignedSum(a - UNIT, b);
    }
  }

  lemma {:induction false} AlignedDifference(a: nat, b: nat)
    requires Aligned(a) && Aligned(b) && a <= b
    ensures Aligned(b - a)
    ensures a < b ==> a + UNIT <= b
  {
    if a > 0 {
      AlignedDifference(a - UNIT, b - UNIT);
    }
  }

  lemma {:induction false} AlignedIsMultiple(x: nat)
    requires Aligned(x)
    ensures Times(Div(x, UNIT), UNIT) == x
  {
    if x > 0 {
      AlignedIsMultiple(x - UNIT);
    }
  }

  lemma {:induction false} SizeAligned(i: nat)
    ensures Aligned(SliceSize(i)) && Aligned(Residual(i))
  {
    if i > 0 {
      SizeAligned(i - 1);
      AlignedSum(SliceSize(i - 1), SliceSize(i - 1));
    }
    AlignedSum(SliceSize(i), SliceSize(i));
  }

  lemma {:induction false} TimesAligned(k: nat, d: nat)
    requires Aligned(d)
    ensures Aligned(Times(k, d))
  {
    if k > 0 {
      TimesAligned(k - 1, d);
      AlignedSum(d, Times(k - 1, d));
    }
  }

  lemma FullEndAligned(factor: nat, count: nat)
    ensures Aligned(FullEnd(factor, count))
  {
    SizeAligned(factor);
    TimesAligned(count, SliceSize(factor));
  }

  lemma {:induction false} CoveredAligned(counts: seq<nat>)
    ensures Aligned(Covered(counts))
  {
    if counts != [] {
      CoveredAligned(counts[1..]);
      SizeAligned(|counts| - 1);
      TimesAligned(counts[0], SliceSize(|counts| - 1));
      AlignedSum(Times(counts[0], SliceSize(|counts| - 1)), Covered(counts[1..]));
    }
  }

  /** The partial slices laid out at time `now` behind `count` full slices. */
  function Partials(factor: nat, count: nat, now: nat): seq<Slot>
    requires FullEnd(factor, count) <= now
  {
    Ladder(FullEnd(factor, count), now - FullEnd(factor, count), factor)
  }

  /** The end of the time covered by full and partial slices. */
  function CoveredEnd(factor: nat, count: nat, now: nat): nat
    requires FullEnd(factor, count) <= now
  {
    LadderEnd(FullEnd(factor, count), Partials(factor, count, now))
  }

  /** A layout is caught up when no further full slice fits before `now`. */
  predicate CaughtUp(factor: nat, count: nat, now: nat) {
    factor >= 1 && FullEnd(factor, count) <= now && count >= FullCount(factor, now)
  }

  lemma CoveredEndAligned(factor: nat, count: nat, now: nat)
    requires FullEnd(factor, count) <= now
    ensures Aligned(CoveredEnd(factor, count, now))
  {
    var start := FullEnd(factor, count);
    var counts := Counts(now - start, factor);
    LayTiles(start, counts);
    FullEndAligned(factor, count);
    CoveredAligned(counts);
    AlignedSum(start, Covered(counts));
  }

  lemma CoveredEndBounds(factor: nat, count: nat, now: nat)
    requires CaughtUp(factor, count, now) && FullEnd(factor, count) < now
    ensures FullEnd(factor, count) <= CoveredEnd(factor, count, now) < now <= CoveredEnd(factor, count, now) + UNIT
  {
    var start := FullEnd(factor, count);
    RecentBound(factor, count, now);
    LadderGeometry(start, now - start, factor);
  }

  /** The covered time ends at the last unit boundary strictly before `now`: nothing of the history
      of the layout shows in it, and the uncovered tail is more than 0 and at most one unit. */
  lemma CoveredEndIsLastBoundary(factor: nat, count: nat, now: nat)
    requires CaughtUp(factor, count, now) && FullEnd(factor, count) < now
    ensures CoveredEnd(factor, count, now) == Times(Div(now - 1, UNIT), UNIT)
    ensures 0 < now - CoveredEnd(factor, count, now) <= UNIT
  {
    var e := CoveredEnd(factor, count, now);
    CoveredEndBounds(factor, count, now);
    CoveredEndAligned(factor, count, now);
    AlignedIsMultiple(e);
    DivIs(now - 1, UNIT, Div(e, UNIT));
  }

  lemma SameCounts(r1: nat, r2: nat, n: nat, k: nat, cut: nat)
    requires n > 0 && k == SlotCount(r1, n - 1) == SlotCount(r2, n - 1) && cut == Times(k, SliceSize(n - 1))
    requires Counts(r1 - cut, n - 1) == Counts(r2 - cut, n - 1)
    ensures Counts(r1, n) == Counts(r2, n)
  {
  }

  /** Within one unit of time the counts are the same. */
  lemma {:induction false} CountsWithinUnit(r1: nat, r2: nat, e: nat, n: nat)
    requires Aligned(e) && e < r1 <= e + UNIT && e < r2 <= e + UNIT
    ensures Counts(r1, n) == Counts(r2, n)
    decreases n
  {
    if n > 0 {
      var k := SlotCount(r1, n - 1);
      var cut := Times(k, SliceSize(n - 1));
      CutWithinUnit(r1, r2, e, n - 1, k, cut);
      CountsWithinUnit(r1 - cut, r2 - cut, e - cut, n - 1);
      SameCounts(r1, r2, n, k, cut);
    }
  }

  lemma CutWithinUnit(r1: nat, r2: nat, e: nat, i: nat, k: nat, cut: nat)
    requires Aligned(e) && e < r1 <= e + UNIT && e < r2 <= e + UNIT
    requires k == SlotCount(r1, i) && cut == Times(k, SliceSize(i))
    ensures SlotCount(r2, i) == k && cut <= e && Aligned(e - cut)
  {
    SlotCountWithinUnit(r1, r2, e, i);
    SlotTimeWithinUnit(r1, e, i);
  }

  lemma SlotTimeWithinUnit(r: nat, e: nat, i: nat)
    requires Aligned(e) && e < r <= e + UNIT
    ensures Times(SlotCount(r, i), SliceSize(i)) <= e
    ensures Aligned(e - Times(SlotCount(r, i), SliceSize(i)))
  {
    var cut := Times(SlotCount(r, i), SliceSize(i));
    SizeAligned(i);
    TimesAligned(SlotCount(r, i), SliceSize(i));
    AlwaysBefore(cut, r, e);
    AlignedDifference(cut, e);
  }

  /** An aligned time lies before `r` exactly when it is no later than the boundary before `r`. */
  lemma AlwaysBefore(a: nat, r: nat, e: nat)
    requires Aligned(a) && Aligned(e) && e < r <= e + UNIT
    ensures a < r <==> a <= e
  {
    if a > e {
      AlignedDifference(e, a);
    }
  }

  lemma SlotCountWithinUnit(r1: nat, r2: nat, e: nat, i: nat)
    requires Aligned(e) && e < r1 <= e + UNIT && e < r2 <= e + UNIT
    ensures SlotCount(r1, i) == SlotCount(r2, i)
  {
    SizeAligned(i);
    AlignedSum(Residual(i), SliceSize(i));
    AlwaysBefore(SliceSize(i), r1, e);
    AlwaysBefore(SliceSize(i), r2, e);
    AlwaysBefore(Residual(i) + SliceSize(i), r1, e);
    AlwaysBefore(Residual(i) + SliceSize(i), r2, e);
  }

  /** The next full slice is due once two full slices, less one unit, lie behind the last. */
  lemma NextFullSliceDue(factor: nat, count: nat, now: nat)
    requires factor >= 1
    ensures FullCount(factor, now) > count <==> now >= FullEnd(factor, count) + Residual(factor)
  {
    CountAheadIff(factor, count + 1, now);
    assert FullEnd(factor, count + 1) == FullEnd(factor, count) + SliceSize(factor);
    assert Residual(factor) == SliceSize(factor) + MinRecent(factor);
  }

  lemma BoundaryBeforeNextFullSlice(factor: nat, count: nat, now: nat)
    requires CaughtUp(factor, count, now) && FullEnd(factor, count) < now
    ensures CoveredEnd(factor, count, now) + UNIT <= FullEnd(factor, count) + Residual(factor)
  {
    CoveredEndBounds(factor, count, now);
    CoveredEndAligned(factor, count, now);
    RecentBound(factor, count, now);
    FullEndAligned(factor, count);
    SizeAligned(factor);
    AlignedSum(FullEnd(factor, count), Residual(factor));
    AlignedDifference(CoveredEnd(factor, count, now), FullEnd(factor, count) + Residual(factor));
  }

  /** An update at any time strictly between the end of the last partial slice and one unit later
      finds the full-slice count and every partial slice already in place. */
  lemma NothingToDoBeforeNextUpdate(factor: nat, count: nat, now: nat, later: nat)
    requires CaughtUp(factor, count, now) && FullEnd(factor, count) < now
    requires CoveredEnd(factor, count, now) < later < CoveredEnd(factor, count, now) + UNIT
    ensures CaughtUp(factor, count, later)
    ensures Partials(factor, count, later) == Partials(factor, count, now)
  {
    var start, e := FullEnd(factor, count), CoveredEnd(factor, count, now);
    CoveredEndBounds(factor, count, now);
    BoundaryBeforeNextFullSlice(factor, count, now);
    NextFullSliceDue(factor, count, later);
    CoveredEndAligned(factor, count, now);
    FullEndAligned(factor, count);
    AlignedDifference(start, e);
    CountsWithinUnit(now - start, later - start, e - start, factor);
  }

  /** An update later than that strictly advances the covered end. */
  lemma LaterUpdateAdvances(factor: nat, count: nat, now: nat, count': nat, later: nat)
    requires CaughtUp(factor, count, now) && FullEnd(factor, count) < now
    requires CaughtUp(factor, count', later) && FullEnd(factor, count') < later
    requires later > CoveredEnd(factor, count, now) + UNIT
    ensures CoveredEnd(factor, count', later) > CoveredEnd(factor, count, now)
  {
    CoveredEndBounds(factor, count', later);
  }

  /** At exactly one unit later the covered end stays where it is, and the count changes just when
      a full slice becomes due at that very moment: both bounds above are tight. */
  lemma AtNextUpdateExactly(factor: nat, count: nat, now: nat)
    requires CaughtUp(factor, count, now) && FullEnd(factor, count) < now
    ensures var e := CoveredEnd(factor, count, now);
            && (FullCount(factor, e + UNIT) > count <==> e + UNIT == FullEnd(factor, count) + Residual(factor))
            && forall count' | CaughtUp(factor, count', e + UNIT) && FullEnd(factor, count') < e + UNIT ::
                 CoveredEnd(factor, count', e + UNIT) == e
  {
    var e := CoveredEnd(factor, count, now);
    BoundaryBeforeNextFullSlice(factor, count, now);
    NextFullSliceDue(factor, count, e + UNIT);
    CoveredEndAligned(factor, count, now);
    forall count' | CaughtUp(factor, count', e + UNIT) && FullEnd(factor, count') < e + UNIT
      ensures CoveredEnd(factor, count', e + UNIT) == e
    {
      CoveredToBoundary(factor, count', e);
    }
  }

  lemma CoveredToBoundary(factor: nat, count: nat, e: nat)
    requires CaughtUp(factor, count, e + UNIT) && FullEnd(factor, count) < e + UNIT && Aligned(e)
    ensures CoveredEnd(factor, count, e + UNIT) == e
  {
    var e' := CoveredEnd(factor, count, e + UNIT);
    CoveredEndBounds(factor, count, e + UNIT);
    CoveredEndAligned(factor, count, e + UNIT);
    if e < e' {
      AlignedDifference(e, e');
    }
  }
}
