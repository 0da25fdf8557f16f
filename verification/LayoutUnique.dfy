/** The layout of partial slices is the only one of its kind: what it looks like determines it. */
module LayoutUnique {
  import opened TimeLayout
  import opened LayoutLaws

  // ---------------------------------------------------------------- counts

  /** Every size is used once or twice. */
  predicate NoneSkipped(counts: seq<nat>) {
    forall i :: 0 <= i < |counts| ==> 1 <= counts[i] <= 2
  }

  /** No size is used twice. */
  predicate NoneTwice(counts: seq<nat>) {
    forall i :: 0 <= i < |counts| ==> counts[i] <= 1
  }

  /** As soon as there is more recent time than one slice of each size takes, no size is skipped; before that, no
      size is used twice. */
  lemma {:induction false} CountsAreEven(recent: nat, n: nat)
    requires recent <= Residual(n)
    ensures recent > SliceSize(n) - UNIT ==> NoneSkipped(Counts(recent, n))
    ensures recent <= SliceSize(n) - UNIT ==> NoneTwice(Counts(recent, n))
    decreases n
  {
    if n > 0 {
      var k := SlotCount(recent, n - 1);
      TimesUpToTwo(SliceSize(n - 1));
      var left := recent - Times(k, SliceSize(n - 1));
      CountsAreEven(left, n - 1);
      assert Counts(recent, n) == [k] + Counts(left, n - 1);
      if SliceSize(n - 1) - UNIT < recent <= SliceSize(n - 1) {
        ExactlyOneEach(recent, n - 1);
      }
    }
  }

  /** One unit more than one slice of each size, less the smallest part: exactly one of each. */
  lemma {:induction false} ExactlyOneEach(recent: nat, n: nat)
    requires SliceSize(n) - UNIT < recent <= SliceSize(n)
    ensures NoneTwice(Counts(recent, n))
    decreases n
  {
    if n > 0 {
      TimesUpToTwo(SliceSize(n - 1));
      var k := SlotCount(recent, n - 1);
      var left := recent - Times(k, SliceSize(n - 1));
      assert Counts(recent, n) == [k] + Counts(left, n - 1);
      ExactlyOneEach(left, n - 1);
    }
  }

  lemma {:induction false} SkippingNoneCovers(counts: seq<nat>)
    requires NoneSkipped(counts)
    ensures SliceSize(|counts|) - UNIT <= Covered(counts) <= 2 * (SliceSize(|counts|) - UNIT)
    ensures Covered(counts) == SliceSize(|counts|) - UNIT ==> NoneTwice(counts)
  {
    if counts != [] {
      TimesUpToTwo(SliceSize(|counts| - 1));
      assert counts == [counts[0]] + counts[1..];
      SkippingNoneCovers(counts[1..]);
    }
  }

  lemma {:induction false} TwiceNoneCovers(counts: seq<nat>)
    requires NoneTwice(counts)
    ensures Covered(counts) <= SliceSize(|counts|) - UNIT
    ensures Covered(counts) == SliceSize(|counts|) - UNIT ==> NoneSkipped(counts)
  {
    if counts != [] {
      TimesUpToTwo(SliceSize(|counts| - 1));
      assert counts == [counts[0]] + counts[1..];
      TwiceNoneCovers(counts[1..]);
    }
  }

  lemma {:induction false} SkippingNoneIsUnique(a: seq<nat>, b: seq<nat>)
    requires |a| == |b| && NoneSkipped(a) && NoneSkipped(b) && Covered(a) == Covered(b)
    ensures a == b
  {
    if a != [] {
      TimesUpToTwo(SliceSize(|a| - 1));
      SkippingNoneCovers(a[1..]);
      SkippingNoneCovers(b[1..]);
      SkippingNoneIsUnique(a[1..], b[1..]);
      assert a == [a[0]] + a[1..] && b == [b[0]] + b[1..];
    }
  }

  lemma {:induction false} TwiceNoneIsUnique(a: seq<nat>, b: seq<nat>)
    requires |a| == |b| && NoneTwice(a) && NoneTwice(b) && Covered(a) == Covered(b)
    ensures a == b
  {
    if a != [] {
      TimesUpToTwo(SliceSize(|a| - 1));
      TwiceNoneCovers(a[1..]);
      TwiceNoneCovers(b[1..]);
      TwiceNoneIsUnique(a[1..], b[1..]);
      assert a == [a[0]] + a[1..] && b == [b[0]] + b[1..];
    }
  }

  /** Counts that skip no size, or use none twice, are determined by the time they cover. */
  lemma EvenIsUnique(a: seq<nat>, b: seq<nat>)
    requires |a| == |b| && Covered(a) == Covered(b)
    requires NoneSkipped(a) || NoneTwice(a)
    requires NoneSkipped(b) || NoneTwice(b)
    ensures a == b
  {
    if NoneSkipped(a) {
      SkippingNoneCovers(a);
    } else {
      TwiceNoneCovers(a);
    }
    if NoneSkipped(b) {
      SkippingNoneCovers(b);
    } else {
      TwiceNoneCovers(b);
    }
    if NoneSkipped(a) && NoneSkipped(b) {
      SkippingNoneIsUnique(a, b);
    } else {
      TwiceNoneIsUnique(a, b);
    }
  }

  // ---------------------------------------------------------------- slots

  /** Sizes are below `n` and never grow. */
  predicate Descends(slots: seq<Slot>, n: nat) {
    && (forall i :: 0 <= i < |slots| ==> slots[i].size < n)
    && (forall i, j :: 0 <= i < j < |slots| ==> slots[j].size <= slots[i].size)
  }

  /** How many slots at the front have a size. */
  function Leading(slots: seq<Slot>, size: nat): (k: nat)
    ensures k <= |slots|
  {
    if slots == [] || slots[0].size != size then 0 else 1 + Leading(slots[1..], size)
  }

  function SizeCounts(slots: seq<Slot>, n: nat): (r: seq<nat>)
    ensures |r| == n
    decreases n
  {
    if n == 0 then []
    else
      var k := Leading(slots, n - 1);
      [k] + SizeCounts(slots[k..], n - 1)
  }

  /** The slots at the front of one size, and the slots behind them. */
  lemma {:induction false} LeadingSizes(slots: seq<Slot>, top: nat, k: nat)
    requires Descends(slots, top + 1) && k == Leading(slots, top)
    ensures forall i :: 0 <= i < |slots| ==> (slots[i].size == top <==> i < k)
    ensures Descends(slots[k..], top)
    decreases |slots|
  {
    if k > 0 {
      var rest := slots[1..];
      LeadingSizes(rest, top, k - 1);
      assert slots == [slots[0]] + rest && slots[k..] == rest[k - 1..];
    } else {
      assert slots[0..] == slots;
    }
  }

  /** Where a slot starts that has only slots of one size before it. */
  lemma {:induction false} StartAt(start: nat, slots: seq<Slot>, top: nat, i: nat)
    requires Tiles(start, slots) && i < |slots| && forall j :: 0 <= j < i ==> slots[j].size == top
    ensures slots[i].start == start + Times(i, SliceSize(top))
  {
    if i > 0 {
      StartAt(start, slots, top, i - 1);
      TilesAt(start, slots, i - 1);
    }
  }

  lemma TilesAt(start: nat, slots: seq<Slot>, i: nat)
    requires Tiles(start, slots) && i + 1 < |slots|
    ensures slots[i + 1].start == slots[i].End()
  {
    var j := i + 1;
    assert slots[j].start == slots[i].End();
  }

  lemma {:induction false} SlotsAt(start: nat, size: nat, count: nat, i: nat)
    requires i < count
    ensures |Slots(start, size, count)| == count
    ensures Slots(start, size, count)[i] == Slot(start + Times(i, SliceSize(size)), size)
    decreases count
  {
    SlotsShape(start, size, count);
    if i > 0 {
      SlotsAt(start + SliceSize(size), size, count - 1, i - 1);
    }
  }

  lemma FrontIs(start: nat, slots: seq<Slot>, top: nat, k: nat)
    requires Tiles(start, slots) && k <= |slots| && forall i :: 0 <= i < k ==> slots[i].size == top
    ensures slots[..k] == Slots(start, top, k)
  {
    SlotsShape(start, top, k);
    forall i | 0 <= i < k
      ensures slots[i] == Slots(start, top, k)[i]
    {
      StartAt(start, slots, top, i);
      SlotsAt(start, top, k, i);
    }
  }

  lemma RestTiles(start: nat, slots: seq<Slot>, top: nat, k: nat, next: nat)
    requires Tiles(start, slots) && k <= |slots| && next == start + Times(k, SliceSize(top))
    requires forall i :: 0 <= i < k ==> slots[i].size == top
    ensures Tiles(next, slots[k..])
  {
    var rest := slots[k..];
    if rest != [] {
      StartAt(start, slots, top, k);
    }
    forall i, j | 0 <= i && j == i + 1 < |rest|
      ensures rest[j].start == rest[i].End()
    {
      TilesAt(start, slots, k + i);
    }
  }

  lemma SplitFront(start: nat, slots: seq<Slot>, top: nat, k: nat, next: nat)
    requires Tiles(start, slots) && Descends(slots, top + 1)
    requires k == Leading(slots, top) && next == start + Times(k, SliceSize(top))
    ensures slots[..k] == Slots(start, top, k) && Tiles(next, slots[k..]) && Descends(slots[k..], top)
  {
    LeadingSizes(slots, top, k);
    FrontIs(start, slots, top, k);
    RestTiles(start, slots, top, k, next);
  }

  /** Slots that follow each other with sizes that never grow are laid out by their counts. */
  lemma {:induction false} LaidByCounts(start: nat, slots: seq<Slot>, n: nat, counts: seq<nat>)
    requires Tiles(start, slots) && Descends(slots, n) && counts == SizeCounts(slots, n)
    ensures slots == Lay(start, counts)
    decreases n
  {
    if n == 0 {
      assert slots == [];
    } else {
      var top := n - 1;
      var k := Leading(slots, top);
      var next, rest, fewer := start + Times(k, SliceSize(top)), slots[k..], counts[1..];
      SplitFront(start, slots, top, k, next);
      LaidByCounts(next, rest, top, fewer);
      LaidInTwo(start, slots, k, fewer, top, next);
    }
  }

  lemma LaidInTwo(start: nat, slots: seq<Slot>, k: nat, counts: seq<nat>, top: nat, next: nat)
    requires k <= |slots| && |counts| == top && next == start + Times(k, SliceSize(top))
    requires slots[..k] == Slots(start, top, k) && slots[k..] == Lay(next, counts)
    ensures slots == Lay(start, [k] + counts)
  {
    LayUnfold(start, k, counts);
    assert slots == slots[..k] + slots[k..];
  }

  /** Every size below `n` occurs. */
  predicate AllSizesUsed(slots: seq<Slot>, n: nat) {
    forall size: nat :: size < n ==> Uses(slots, size)
  }

  predicate Uses(slots: seq<Slot>, size: nat) {
    exists k :: 0 <= k < |slots| && slots[k].size == size
  }

  /** No size occurs twice. */
  predicate AllSizesDiffer(slots: seq<Slot>) {
    forall i, j :: 0 <= i < j < |slots| ==> slots[j].size < slots[i].size
  }

  lemma {:induction false} UsedMeansCounted(slots: seq<Slot>, n: nat)
    requires Shrinks(slots, n) && AllSizesUsed(slots, n)
    ensures NoneSkipped(SizeCounts(slots, n))
    decreases n
  {
    if n > 0 {
      var top := n - 1;
      var k := Leading(slots, top);
      LeadingSizes(slots, top, k);
      LeadingOnceOrTwice(slots, k, n);
      UsedMeansCounted(slots[k..], top);
    }
  }

  /** At the front there are one or two slots of the largest size, and behind them the smaller sizes are all used. */
  lemma LeadingOnceOrTwice(slots: seq<Slot>, k: nat, n: nat)
    requires n > 0 && k <= |slots| && Shrinks(slots, n) && AllSizesUsed(slots, n) && Descends(slots[k..], n - 1)
    requires forall i :: 0 <= i < |slots| ==> (slots[i].size == n - 1 <==> i < k)
    ensures 1 <= k <= 2 && Shrinks(slots[k..], n - 1) && AllSizesUsed(slots[k..], n - 1)
  {
    assert Uses(slots, n - 1);
    ShrinksAt(slots, n, 0, 2);
    ShrinksRest(slots, k, n);
    forall size: nat | size < n - 1
      ensures Uses(slots[k..], size)
    {
      assert Uses(slots, size);
      var i :| 0 <= i < |slots| && slots[i].size == size;
      assert slots[k..][i - k] == slots[i];
    }
  }

  lemma ShrinksAt(slots: seq<Slot>, n: nat, i: nat, j: nat)
    requires Shrinks(slots, n)
    ensures i + 2 <= j < |slots| ==> slots[j].size < slots[i].size
  {
  }

  lemma DiffersAt(slots: seq<Slot>, i: nat, j: nat)
    requires AllSizesDiffer(slots)
    ensures i < j < |slots| ==> slots[j].size < slots[i].size
  {
  }

  lemma ShrinksRest(slots: seq<Slot>, k: nat, n: nat)
    requires k <= |slots| && n > 0 && Shrinks(slots, n) && Descends(slots[k..], n - 1)
    ensures Shrinks(slots[k..], n - 1)
  {
    var rest := slots[k..];
    forall i, j | 0 <= i && i + 2 <= j < |rest|
      ensures rest[j].size < rest[i].size
    {
      assert slots[k + j].size < slots[k + i].size;
    }
  }

  /** At the front there is at most one slot of the largest size. */
  lemma LeadingAtMostOnce(slots: seq<Slot>, top: nat, k: nat)
    requires Descends(slots, top + 1) && AllSizesDiffer(slots) && k == Leading(slots, top)
    ensures k <= 1 && Descends(slots[k..], top) && AllSizesDiffer(slots[k..])
  {
    LeadingSizes(slots, top, k);
    DiffersAt(slots, 0, 1);
  }

  lemma {:induction false} DifferMeansCounted(slots: seq<Slot>, n: nat, counts: seq<nat>)
    requires Descends(slots, n) && AllSizesDiffer(slots) && counts == SizeCounts(slots, n)
    ensures NoneTwice(counts)
    decreases n
  {
    if n > 0 {
      var k := Leading(slots, n - 1);
      LeadingAtMostOnce(slots, n - 1, k);
      DifferMeansCounted(slots[k..], n - 1, counts[1..]);
    }
  }

  /** The look of a layout: it tiles time from `start` with sizes that never grow, none three times, and either no
      size is skipped or none occurs twice. */
  predicate Even(start: nat, slots: seq<Slot>, n: nat) {
    Tiles(start, slots) && Shrinks(slots, n) && (AllSizesUsed(slots, n) || AllSizesDiffer(slots))
  }

  lemma EvenCounts(start: nat, slots: seq<Slot>, n: nat)
    requires Even(start, slots, n)
    ensures NoneSkipped(SizeCounts(slots, n)) || NoneTwice(SizeCounts(slots, n))
    ensures slots == Lay(start, SizeCounts(slots, n))
  {
    LaidByCounts(start, slots, n, SizeCounts(slots, n));
    if AllSizesUsed(slots, n) {
      UsedMeansCounted(slots, n);
    } else {
      DifferMeansCounted(slots, n, SizeCounts(slots, n));
    }
  }

  /** Two layouts of that look that reach equally far are the same. */
  lemma EvenLayoutIsUnique(start: nat, a: seq<Slot>, b: seq<Slot>, n: nat)
    requires Even(start, a, n) && Even(start, b, n) && LadderEnd(start, a) == LadderEnd(start, b)
    ensures a == b
  {
    EvenCounts(start, a, n);
    EvenCounts(start, b, n);
    LayTiles(start, SizeCounts(a, n));
    LayTiles(start, SizeCounts(b, n));
    EvenIsUnique(SizeCounts(a, n), SizeCounts(b, n));
  }

  // ---------------------------------------------------------------- the ladder has that look

  lemma {:induction false} LayUses(start: nat, counts: seq<nat>, size: nat)
    requires NoneSkipped(counts) && size < |counts|
    ensures Uses(Lay(start, counts), size)
    decreases |counts|
  {
    var top := |counts| - 1;
    var first := Slots(start, top, counts[0]);
    var rest := Lay(start + Times(counts[0], SliceSize(top)), counts[1..]);
    var all: seq<Slot> := first + rest;
    SlotsShape(start, top, counts[0]);
    if size == top {
      assert all[0].size == top;
    } else {
      LayUses(start + Times(counts[0], SliceSize(top)), counts[1..], size);
      var k :| 0 <= k < |rest| && rest[k].size == size;
      assert all[|first| + k] == rest[k];
    }
  }

  lemma {:induction false} LayDiffers(start: nat, counts: seq<nat>)
    requires NoneTwice(counts)
    ensures AllSizesDiffer(Lay(start, counts))
    decreases |counts|
  {
    if counts != [] {
      var top := |counts| - 1;
      SlotsShape(start, top, counts[0]);
      LayDiffers(start + Times(counts[0], SliceSize(top)), counts[1..]);
      LayShrinks(start + Times(counts[0], SliceSize(top)), counts[1..]);
    }
  }

  lemma LadderIsEven(start: nat, recent: nat, n: nat)
    requires recent <= Residual(n)
    ensures Even(start, Ladder(start, recent, n), n)
    ensures recent > SliceSize(n) - UNIT ==> AllSizesUsed(Ladder(start, recent, n), n)
    ensures recent <= SliceSize(n) - UNIT ==> AllSizesDiffer(Ladder(start, recent, n))
  {
    var counts := Counts(recent, n);
    LadderGeometry(start, recent, n);
    CountsAreEven(recent, n);
    if recent > SliceSize(n) - UNIT {
      forall size: nat | size < n
        ensures Uses(Ladder(start, recent, n), size)
      {
        LayUses(start, counts, size);
      }
    } else {
      LayDiffers(start, counts);
    }
  }

  /** The partial slices of a partition that has caught up are the only ones that tile time from the end of the
      full slices to the last unit boundary before now, with sizes that never grow and none three times, such that
      no size is skipped or none occurs twice. Which of the two holds depends on the recent time. */
  lemma PartialsAreTheOnly(factor: nat, count: nat, now: nat, slots: seq<Slot>)
    requires CaughtUp(factor, count, now) && FullEnd(factor, count) < now
    ensures var start := FullEnd(factor, count);
            slots == Partials(factor, count, now) <==>
            Even(start, slots, factor) && LadderEnd(start, slots) == Times(Div(now - 1, UNIT), UNIT)
    ensures now - FullEnd(factor, count) > SliceSize(factor) - UNIT ==>
              AllSizesUsed(Partials(factor, count, now), factor)
  {
    var start := FullEnd(factor, count);
    RecentBound(factor, count, now);
    LadderIsEven(start, now - start, factor);
    CoveredEndIsLastBoundary(factor, count, now);
    if Even(start, slots, factor) && LadderEnd(start, slots) == Times(Div(now - 1, UNIT), UNIT) {
      EvenLayoutIsUnique(start, slots, Partials(factor, count, now), factor);
    }
  }
}
