/** The 512 equal sectors of the location circle (crates/dht/src/hash.rs, crates/dht/src/constant.rs). */
module Sectors {
  import opened Arcs
  import opened Ops

  const SECTOR_SIZE: nat := 0x80_0000
  const SECTORS: nat := 512

  function SectorOf(loc: U32): nat {
    loc / SECTOR_SIZE
  }

  function SaturatingMul(a: nat, b: nat): U32 {
    if a * b > MAX_LOC then MAX_LOC else a * b
  }

  /** The arc that `HashPartition::try_from_store` gives to a sector: the last one ends the circle. */
  function SectorArc(i: nat): DhtArc
    requires i < SECTORS
  {
    if i < SECTORS - 1 then Arc(i * SECTOR_SIZE, SaturatingMul(i + 1, SECTOR_SIZE) - 1)
    else Arc((SECTORS - 1) * SECTOR_SIZE, MAX_LOC)
  }

  /** The sector arcs partition the circle: each location lies in exactly one, that of its index. */
  lemma SectorsPartition(loc: U32, i: nat)
    requires i < SECTORS
    ensures SectorOf(loc) < SECTORS
    ensures Contains(SectorArc(i), loc) <==> i == SectorOf(loc)
  {
  }

  lemma SectorArcsDiffer(i: nat, j: nat)
    requires i < j < SECTORS
    ensures SectorArc(i) != SectorArc(j)
  {
  }

  /** The ops of a batch that belong to a sector, in batch order. */
  function OfSector(batch: seq<Op>, i: nat): seq<Op> {
    if batch == [] then []
    else
      var n := |batch| - 1;
      OfSector(batch[..n], i) + if SectorOf(batch[n].loc) == i then [batch[n]] else []
  }

  lemma {:induction false} OfSectorMembers(batch: seq<Op>, i: nat)
    ensures forall o :: o in OfSector(batch, i) <==> o in batch && SectorOf(o.loc) == i
    ensures Distinct(batch) ==> Distinct(OfSector(batch, i))
  {
    if batch != [] {
      var n := |batch| - 1;
      OfSectorMembers(batch[..n], i);
      assert batch == batch[..n] + [batch[n]];
      assert Distinct(batch) ==> batch[n] !in batch[..n];
    }
  }

  /** Groups a batch by sector: each op is handed to one group only, that of its location. */
  method GroupBySector(batch: seq<Op>) returns (groups: map<nat, seq<Op>>)
    ensures forall i :: i in groups <==> OfSector(batch, i) != []
    ensures forall i :: i in groups ==> i < SECTORS && groups[i] == OfSector(batch, i)
  {
    groups := map[];
    for k := 0 to |batch|
      invariant forall i :: i in groups <==> OfSector(batch[..k], i) != []
      invariant forall i :: i in groups ==> i < SECTORS && groups[i] == OfSector(batch[..k], i)
    {
      var s := SectorOf(batch[k].loc);
      assert batch[..k + 1][..k] == batch[..k];
      groups := groups[s := (if s in groups then groups[s] else []) + [batch[k]]];
    }
    assert batch[..|batch|] == batch;
  }
}
