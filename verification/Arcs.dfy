/** Arcs on the wrapping 32-bit location circle (crates/api/src/arc.rs). */
module Arcs {
  const CIRCLE: nat := 0x1_0000_0000
  const MAX_LOC: nat := 0xFFFF_FFFF

  type U32 = x: nat | x < 0x1_0000_0000

  datatype DhtArc = Empty | Arc(start: U32, end: U32)

  const FULL: DhtArc := Arc(0, MAX_LOC)

  function Min(a: nat, b: nat): nat {
    if a <= b then a else b
  }

  /** Steps from `a` to `b` going round the circle the short way. */
  function CircularDistance(a: U32, b: U32): nat {
    var d: nat := if a <= b then b - a else a - b;
    Min(d, CIRCLE - d)
  }

  /** The locations of an arc: from `start` clockwise through `end`, both included. */
  predicate Covers(arc: DhtArc, loc: U32) {
    arc.Arc? &&
    if arc.start <= arc.end
    then arc.start <= loc <= arc.end
    else arc.start <= loc || loc <= arc.end
  }

  /** `DhtArc::dist`. Each intermediate value is checked to stay within 32 bits. */
  function Dist(arc: DhtArc, loc: U32): U32 {
    match arc
    case Empty => MAX_LOC
    case Arc(s, e) =>
      if s > e then
        if loc >= s || loc <= e then 0
        else
          var d1: U32 := s - loc;
          var d2: U32 := loc - e;
          Min(d1, d2)
      else if s <= loc <= e then 0
      else if loc < s then
        var d1: U32 := s - loc;
        var gap: U32 := MAX_LOC - e;
        var d2: U32 := gap + loc + 1;
        Min(d1, d2)
      else
        var gap: U32 := MAX_LOC - loc;
        var d1: U32 := gap + s + 1;
        var d2: U32 := loc - e;
        Min(d1, d2)
  }

  predicate Contains(arc: DhtArc, loc: U32) {
    Dist(arc, loc) == 0
  }

  /** `dist` is the least circular distance from the location to any location of the arc. */
  lemma DistIsMinimum(arc: DhtArc, loc: U32)
    ensures arc.Empty? ==> Dist(arc, loc) == MAX_LOC
    ensures arc.Arc? ==>
              (exists x: U32 :: Covers(arc, x) && CircularDistance(loc, x) == Dist(arc, loc)) &&
              (forall x: U32 :: Covers(arc, x) ==> Dist(arc, loc) <= CircularDistance(loc, x))
  {
    if arc.Arc? {
      var s, e := arc.start, arc.end;
      if Covers(arc, loc) {
        assert CircularDistance(loc, loc) == Dist(arc, loc);
      } else if CircularDistance(loc, s) <= CircularDistance(loc, e) {
        assert Covers(arc, s) && CircularDistance(loc, s) == Dist(arc, loc);
      } else {
        assert Covers(arc, e) && CircularDistance(loc, e) == Dist(arc, loc);
      }
    }
  }

  /** An arc contains a location exactly when the location lies between its bounds. */
  lemma ContainsIsCovers(arc: DhtArc, loc: U32)
    ensures Contains(arc, loc) <==> Covers(arc, loc)
  {
  }

  /** `DhtArc::overlaps`, by the end points only. */
  predicate Overlaps(a: DhtArc, b: DhtArc) {
    a.Arc? && b.Arc? &&
    (Dist(a, b.start) == 0 || Dist(a, b.end) == 0 || Dist(b, a.start) == 0 || Dist(b, a.end) == 0)
  }

  /** Looking at the end points decides whether any location is shared. */
  lemma OverlapsIffShared(a: DhtArc, b: DhtArc)
    ensures Overlaps(a, b) <==> exists x: U32 :: Covers(a, x) && Covers(b, x)
  {
    if Overlaps(a, b) {
      var x := if Dist(a, b.start) == 0 then b.start
               else if Dist(a, b.end) == 0 then b.end
               else if Dist(b, a.start) == 0 then a.start
               else a.end;
      assert Covers(a, x) && Covers(b, x);
    }
  }

  /** `DhtArc::arc_span`: the number of locations less one, and 0 for the empty arc. */
  function ArcSpan(arc: DhtArc): U32 {
    match arc
    case Empty => 0
    case Arc(s, e) => if s > e then MAX_LOC - s + e + 1 else e - s
  }

  /** The location `k` steps clockwise of `start`. */
  function Clockwise(start: U32, k: nat): U32 {
    (start + k) % CIRCLE
  }

  /** The locations of an arc are exactly those reached by at most `ArcSpan` steps from its start. */
  lemma SpanReaches(arc: DhtArc, loc: U32)
    requires arc.Arc?
    ensures Covers(arc, loc) <==> exists k: nat :: k <= ArcSpan(arc) && loc == Clockwise(arc.start, k)
  {
    if Covers(arc, loc) {
      var k := if loc >= arc.start then loc - arc.start else loc + CIRCLE - arc.start;
      assert k <= ArcSpan(arc) && loc == Clockwise(arc.start, k);
    }
    forall k: nat | k <= ArcSpan(arc) && loc == Clockwise(arc.start, k)
      ensures Covers(arc, loc)
    {
      assert loc == if arc.start + k < CIRCLE then arc.start + k else arc.start + k - CIRCLE;
    }
  }
}
