/** The bounded list of agent infos of one bootstrap space (crates/bootstrap_srv/src/space.rs). */
module BootstrapSpace {
  import opened Wrappers

  /** A stored info with its parsed fields and its text. */
  datatype Info = Info(agent: nat, createdAt: int, expiresAt: int, tombstone: bool, text: string)

  // ---------------------------------------------------------------- what an update means

  /** What becomes of a stored info: a newer info of the same agent replaces it, a newer tombstone
      removes it, and whatever is left must not have expired. */
  function Fate(e: Info, put: Option<Info>, now: int): Option<Info> {
    var replaced := put.Some? && put.value.agent == e.agent && put.value.createdAt > e.createdAt;
    if replaced && put.value.tombstone then None
    else
      var e' := if replaced then put.value else e;
      if e'.expiresAt <= now then None else Some(e')
  }

  function Survivors(list: seq<Info>, put: Option<Info>, now: int): seq<Info> {
    if list == [] then []
    else
      var n := |list| - 1;
      Survivors(list[..n], put, now) + match Fate(list[n], put, now) case Some(e) => [e] case None => []
  }

  predicate Holds(list: seq<Info>, agent: nat) {
    exists i :: 0 <= i < |list| && list[i].agent == agent
  }

  /** A put of an agent not yet held, other than a tombstone, is pushed; if the list is full, the info
      half-way makes room. */
  function Updated(list: seq<Info>, put: Option<Info>, maxEntries: nat, now: int): seq<Info>
    requires maxEntries >= 1
  {
    var kept := Survivors(list, put, now);
    if put.Some? && !put.value.tombstone && !Holds(list, put.value.agent)
    then MakeRoom(kept, maxEntries) + [put.value]
    else kept
  }

  function MakeRoom(kept: seq<Info>, maxEntries: nat): seq<Info>
    requires maxEntries >= 1
  {
    if |kept| >= maxEntries then Without(kept, maxEntries / 2) else kept
  }

  function Without<T>(s: seq<T>, h: nat): (r: seq<T>)
    requires h < |s|
    ensures |r| == |s| - 1 && forall k :: 0 <= k < |r| ==> r[k] == s[if k < h then k else k + 1]
  {
    s[..h] + s[h + 1..]
  }

  /** No two infos of one agent, and no tombstones. */
  predicate Clean(list: seq<Info>) {
    && (forall i, j :: 0 <= i < j < |list| ==> list[i].agent != list[j].agent)
    && (forall i :: 0 <= i < |list| ==> !list[i].tombstone)
  }

  /** No two infos of one agent, no tombstones, and no more than the limit. */
  predicate WellKept(list: seq<Info>, maxEntries: nat) {
    Clean(list) && |list| <= maxEntries
  }

  class Space {
    var readable: seq<Info>

    constructor ()
      ensures readable == []
    {
      readable := [];
    }

    /** Clears out expired infos and takes in a new one, if any. The new info is taken at most once,
        since agents are distinct. */
    method Update(maxEntries: nat, put: Option<Info>, now: int)
      requires maxEntries >= 1 && WellKept(readable, maxEntries)
      modifies this
      ensures readable == Updated(old(readable), put, maxEntries, now)
      ensures WellKept(readable, maxEntries)
    {
      var list: seq<Info> := [];
      var pending := put;
      for i := 0 to |readable|
        invariant list == Survivors(readable[..i], put, now)
        invariant pending == if put.Some? && Holds(readable[..i], put.value.agent) then None else put
      {
        var e := readable[i];
        assert readable[..i + 1][..i] == readable[..i];
        assert put.Some? ==> (Holds(readable[..i + 1], put.value.agent) <==>
                              Holds(readable[..i], put.value.agent) || e.agent == put.value.agent) by {
          HoldsPush(readable[..i], e);
          assert readable[..i] + [e] == readable[..i + 1];
        }
        var drop := false;
        if put.Some? && put.value.agent == e.agent {
          assert pending.Some?;
          var info := pending.value;
          pending := None;
          if info.createdAt > e.createdAt {
            drop := info.tombstone;
            e := info;
          }
        }
        if !drop && e.expiresAt > now {
          list := list + [e];
        }
      }
      assert readable[..|readable|] == readable;
      if pending.Some? && !pending.value.tombstone {
        if |list| >= maxEntries {
          var half := maxEntries / 2;
          list := Without(list, half);
        }
        list := list + [pending.value];
      }
      UpdateKeeps(readable, put, maxEntries, now);
      readable := list;
    }

    /** The infos as a JSON list. The length computed beforehand is exact. */
    method Read() returns (out: string, len: nat)
      ensures out == "[" + Joined(readable) + "]"
      ensures len == |out|
      ensures forall k :: 0 <= k < |readable| ==> ReadsAt(readable, out, k)
    {
      len := 0;
      for i := 0 to |readable|
        invariant len == TextLength(readable[..i])
      {
        assert readable[..i + 1][..i] == readable[..i];
        len := len + |readable[i].text|;
      }
      len := len + 2;
      if readable != [] {
        len := len + |readable| - 1;
      }
      out := "[";
      for i := 0 to |readable|
        invariant out == "[" + Joined(readable[..i])
      {
        assert readable[..i + 1][..i] == readable[..i];
        if i > 0 {
          out := out + ",";
        }
        out := out + readable[i].text;
      }
      assert readable[..|readable|] == readable;
      out := out + "]";
      JoinedLength(readable);
      forall k | 0 <= k < |readable|
        ensures ReadsAt(readable, out, k)
      {
        ResponseReads(readable, out, k);
      }
    }
  }

  lemma ResponseReads(list: seq<Info>, out: string, k: nat)
    requires k < |list| && out == "[" + Joined(list) + "]"
    ensures ReadsAt(list, out, k)
  {
    var body, at := Joined(list), OffsetOf(list, k);
    JoinedAt(list, k);
    CommaBefore(list, k, body, at);
    InBrackets(body, out, at, list[k].text, k == 0, k + 1 == |list|);
  }

  lemma CommaBefore(list: seq<Info>, k: nat, body: string, at: nat)
    requires k < |list| && body == Joined(list) && at == OffsetOf(list, k)
    ensures if k == 0 then at == 0 else 0 < at <= |body| && body[at - 1] == ','
  {
    if k == 0 {
      assert list[..0] == [];
    } else {
      var prev := k - 1;
      JoinedAt(list, prev);
      NextOffset(list, prev, k);
      CommaAfter(body, OffsetOf(list, prev), list[prev].text, at);
    }
  }

  lemma CommaAfter(body: string, at: nat, text: string, next: nat)
    requires StandsAt(body, at, text, false) && next == at + |text| + 1
    ensures 0 < next <= |body| && body[next - 1] == ','
  {
  }

  /** A text stands in a string at a position, followed by a comma unless it is the last. */
  predicate StandsAt(body: string, at: nat, text: string, last: bool) {
    && at + |text| <= |body| && body[at..at + |text|] == text
    && if last then at + |text| == |body| else at + |text| < |body| && body[at + |text|] == ','
  }

  lemma InBrackets(body: string, out: string, at: nat, text: string, first: bool, last: bool)
    requires out == "[" + body + "]" && StandsAt(body, at, text, last)
    requires if first then at == 0 else 0 < at <= |body| && body[at - 1] == ','
    ensures TextIn(out, 1 + at, text, first, last)
  {
  }

  lemma NextOffset(list: seq<Info>, k: nat, next: nat)
    requires k < |list| && next == k + 1
    ensures OffsetOf(list, next) == OffsetOf(list, k) + |list[k].text| + 1
  {
    assert list[..next][..k] == list[..k];
  }

  /** The text of an info stands in a response between a bracket or comma and a comma or bracket. */
  predicate ReadsAt(list: seq<Info>, out: string, k: nat)
    requires k < |list|
  {
    TextIn(out, 1 + OffsetOf(list, k), list[k].text, k == 0, k + 1 == |list|)
  }

  predicate TextIn(out: string, at: nat, text: string, first: bool, last: bool) {
    && 0 < at && at + |text| < |out| && out[at..at + |text|] == text
    && out[at - 1] == (if first then '[' else ',')
    && out[at + |text|] == (if last then ']' else ',')
  }

  function Joined(list: seq<Info>): string {
    if list == [] then ""
    else if |list| == 1 then list[0].text
    else Joined(list[..|list| - 1]) + "," + list[|list| - 1].text
  }

  function TextLength(list: seq<Info>): nat {
    if list == [] then 0 else TextLength(list[..|list| - 1]) + |list[|list| - 1].text|
  }

  /** Where the text of an info starts. */
  function OffsetOf(list: seq<Info>, k: nat): nat
    requires k <= |list|
  {
    TextLength(list[..k]) + k
  }

  /** The texts stand one after the other, each but the last followed by a comma. */
  lemma {:induction false} JoinedAt(list: seq<Info>, k: nat)
    requires k < |list|
    ensures StandsAt(Joined(list), OffsetOf(list, k), list[k].text, k + 1 == |list|)
  {
    var n := |list| - 1;
    var init := list[..n];
    JoinedLength(init);
    if n == 0 {
      assert list[..0] == [];
    } else if k < n {
      JoinedAt(init, k);
      assert init[..k] == list[..k];
    }
  }

  lemma {:induction false} JoinedLength(list: seq<Info>)
    ensures |Joined(list)| == TextLength(list) + if list == [] then 0 else |list| - 1
  {
    if |list| > 1 {
      JoinedLength(list[..|list| - 1]);
    } else if |list| == 1 {
      assert list[..0] == [];
    }
  }

  lemma HoldsPush(list: seq<Info>, e: Info)
    ensures forall a: nat :: Holds(list + [e], a) <==> Holds(list, a) || e.agent == a
  {
    forall a: nat
      ensures Holds(list + [e], a) <==> Holds(list, a) || e.agent == a
    {
      if Holds(list, a) {
        var i :| 0 <= i < |list| && list[i].agent == a;
        assert (list + [e])[i].agent == a;
      }
      assert (list + [e])[|list|] == e;
    }
  }

  // ---------------------------------------------------------------- what survives

  /** The positions of the survivors in the list before the update. */
  function Origins(list: seq<Info>, put: Option<Info>, now: int): seq<nat> {
    if list == [] then []
    else
      var n := |list| - 1;
      Origins(list[..n], put, now) + if Fate(list[n], put, now).Some? then [n] else []
  }

  /** Survivors keep their order, stay no later than they were, keep their agent, and never become older. */
  lemma {:induction false} SurvivorsFrom(list: seq<Info>, put: Option<Info>, now: int)
    ensures var kept, from := Survivors(list, put, now), Origins(list, put, now);
            && |kept| == |from| <= |list|
            && (forall k :: 0 <= k < |from| ==> k <= from[k] < |list| && Fate(list[from[k]], put, now) == Some(kept[k]))
            && (forall k, l :: 0 <= k < l < |from| ==> from[k] < from[l])
            && (forall i :: 0 <= i < |list| && Fate(list[i], put, now).Some? ==> i in from)
  {
    if list != [] {
      var n := |list| - 1;
      SurvivorsFrom(list[..n], put, now);
    }
  }

  lemma {:induction false} SurvivorsKeepOthers(list: seq<Info>, put: Option<Info>, now: int)
    ensures forall k :: 0 <= k < |Survivors(list, put, now)| ==> Holds(list, Survivors(list, put, now)[k].agent)
  {
    SurvivorsFrom(list, put, now);
    var kept, from := Survivors(list, put, now), Origins(list, put, now);
    forall k | 0 <= k < |kept|
      ensures Holds(list, kept[k].agent)
    {
      assert list[from[k]].agent == kept[k].agent;
    }
  }

  lemma SurvivorsClean(list: seq<Info>, put: Option<Info>, now: int)
    requires Clean(list)
    ensures Clean(Survivors(list, put, now))
  {
    var kept, from := Survivors(list, put, now), Origins(list, put, now);
    SurvivorsFrom(list, put, now);
    forall k, l | 0 <= k < l < |kept|
      ensures kept[k].agent != kept[l].agent
    {
      assert list[from[k]].agent != list[from[l]].agent;
    }
    forall k | 0 <= k < |kept|
      ensures !kept[k].tombstone
    {
      assert !list[from[k]].tombstone;
    }
  }

  lemma RoomIsMade(kept: seq<Info>, maxEntries: nat, info: Info)
    requires maxEntries >= 1 && WellKept(kept, maxEntries) && !info.tombstone && !Holds(kept, info.agent)
    ensures WellKept(MakeRoom(kept, maxEntries) + [info], maxEntries)
  {
    var room := MakeRoom(kept, maxEntries);
    forall k | 0 <= k < |room|
      ensures room[k].agent != info.agent
    {
      assert room[k] in kept;
    }
  }

  /** An update keeps the list well kept. */
  lemma UpdateKeeps(list: seq<Info>, put: Option<Info>, maxEntries: nat, now: int)
    requires maxEntries >= 1 && WellKept(list, maxEntries)
    ensures WellKept(Updated(list, put, maxEntries, now), maxEntries)
  {
    SurvivorsFrom(list, put, now);
    SurvivorsClean(list, put, now);
    SurvivorsKeepOthers(list, put, now);
    if put.Some? && !put.value.tombstone && !Holds(list, put.value.agent) {
      RoomIsMade(Survivors(list, put, now), maxEntries, put.value);
    }
  }

  /** The list after an update, position by position: `from` says where each info but the new one was. */
  predicate Traced(list: seq<Info>, put: Option<Info>, now: int, from: seq<nat>, after: seq<Info>) {
    && |from| <= |after|
    && (forall k, l :: 0 <= k < l < |from| ==> from[k] < from[l])
    && (forall k :: 0 <= k < |from| ==> from[k] < |list| && Fate(list[from[k]], put, now) == Some(after[k]))
  }

  lemma TracedWithout(list: seq<Info>, put: Option<Info>, now: int, from: seq<nat>, after: seq<Info>, h: nat)
    requires Traced(list, put, now, from, after) && h < |from| == |after|
    ensures Traced(list, put, now, Without(from, h), Without(after, h))
    ensures forall k :: 0 <= k < |from| && from[k] != from[h] ==> from[k] in Without(from, h)
  {
    var rest := Without(from, h);
    forall k | 0 <= k < |from| && from[k] != from[h]
      ensures from[k] in rest
    {
      assert rest[if k < h then k else k - 1] == from[k];
    }
  }

  lemma TracedPush(list: seq<Info>, put: Option<Info>, now: int, from: seq<nat>, after: seq<Info>, e: Info)
    requires Traced(list, put, now, from, after)
    ensures Traced(list, put, now, from, after + [e])
  {
  }

  /** What an update leaves in place: the list after it is the survivors in their order, less at most the
      one that made room, and then at most the new info. No one in the first half of the limit makes room. */
  lemma UpdatePreserves(list: seq<Info>, put: Option<Info>, maxEntries: nat, now: int) returns (from: seq<nat>)
    requires maxEntries >= 1 && WellKept(list, maxEntries)
    ensures var after := Updated(list, put, maxEntries, now);
            && Traced(list, put, now, from, after) && |after| <= |from| + 1
            && (|after| == |from| + 1 ==> put == Some(after[|from|]) && !Holds(list, after[|from|].agent))
    ensures forall i :: 0 <= i < |list| && i < maxEntries / 2 && Fate(list[i], put, now).Some? ==> i in from
  {
    var kept := Survivors(list, put, now);
    from := Origins(list, put, now);
    SurvivorsFrom(list, put, now);
    if put.Some? && !put.value.tombstone && !Holds(list, put.value.agent) {
      if |kept| >= maxEntries {
        from := RoomTraced(list, put, now, from, kept, maxEntries / 2);
      }
      TracedPush(list, put, now, from, MakeRoom(kept, maxEntries), put.value);
    }
  }

  lemma RoomTraced(list: seq<Info>, put: Option<Info>, now: int, from: seq<nat>, kept: seq<Info>, half: nat)
      returns (rest: seq<nat>)
    requires Traced(list, put, now, from, kept) && half < |from| == |kept| && half <= from[half]
    ensures |rest| == |from| - 1 && Traced(list, put, now, rest, Without(kept, half))
    ensures forall i: nat :: i in from && i < half ==> i in rest
  {
    TracedWithout(list, put, now, from, kept, half);
    rest := Without(from, half);
    forall i: nat | i in from && i < half
      ensures i in rest
    {
      var k :| 0 <= k < |from| && from[k] == i;
      assert from[k] != from[half];
    }
  }

  /** While an agent is held, the time its info was created never goes back; and a newer put of a held
      agent, unless it is a tombstone or expired, takes its place. */
  lemma CreatedNeverDecreases(list: seq<Info>, put: Option<Info>, maxEntries: nat, now: int, i: nat, k: nat)
    requires maxEntries >= 1 && WellKept(list, maxEntries) && i < |list|
    requires k < |Updated(list, put, maxEntries, now)| && Updated(list, put, maxEntries, now)[k].agent == list[i].agent
    ensures Updated(list, put, maxEntries, now)[k].createdAt >= list[i].createdAt
    ensures put.Some? && put.value.agent == list[i].agent && put.value.createdAt > list[i].createdAt ==>
              Updated(list, put, maxEntries, now)[k] == put.value
  {
    var from := UpdatePreserves(list, put, maxEntries, now);
    var after := Updated(list, put, maxEntries, now);
    assert k < |from|;
    assert Fate(list[from[k]], put, now) == Some(after[k]);
    assert list[from[k]].agent == after[k].agent;
    assert from[k] == i;
  }

  // ---------------------------------------------------------------- what an update does to each info

  /** A newer info of the same agent is put. */
  predicate Superseded(e: Info, put: Option<Info>) {
    put.Some? && put.value.agent == e.agent && put.value.createdAt > e.createdAt
  }

  /** An info of an agent that is not held is put, and it is no tombstone. */
  predicate Pushes(list: seq<Info>, put: Option<Info>) {
    put.Some? && !put.value.tombstone && !Holds(list, put.value.agent)
  }

  /** The info at a position makes room: one is pushed, the list is full of infos that have not expired, and the
      position is half the limit. */
  predicate MakesRoom(list: seq<Info>, put: Option<Info>, maxEntries: nat, now: int, i: nat) {
    && Pushes(list, put) && |list| == maxEntries && i == maxEntries / 2
    && forall j :: 0 <= j < |list| ==> list[j].expiresAt > now
  }

  lemma {:induction false} AllSurvive(list: seq<Info>, put: Option<Info>, now: int)
    ensures |Survivors(list, put, now)| == |list| ==>
              forall j :: 0 <= j < |list| ==> Fate(list[j], put, now) == Some(Survivors(list, put, now)[j])
    ensures (forall j :: 0 <= j < |list| ==> Fate(list[j], put, now).Some?) ==> |Survivors(list, put, now)| == |list|
  {
    SurvivorsFrom(list, put, now);
    var kept, from := Survivors(list, put, now), Origins(list, put, now);
    if |kept| == |list| {
      forall j: nat | j < |list|
        ensures Fate(list[j], put, now) == Some(kept[j])
      {
        FullIncrease(from, |list|, j);
      }
    }
    if list != [] && forall j :: 0 <= j < |list| ==> Fate(list[j], put, now).Some? {
      AllSurvive(list[..|list| - 1], put, now);
    }
  }

  /** As many increasing numbers as there are below a bound are all of them. */
  lemma {:induction false} FullIncrease(from: seq<nat>, n: nat, j: nat)
    requires |from| == n && j < n && (forall k :: 0 <= k < n ==> from[k] < n)
    requires forall k, l :: 0 <= k < l < n ==> from[k] < from[l]
    ensures from[j] == j
  {
    PositionsShrink(from, j);
    PositionsBounded(from, n, j);
  }

  lemma {:induction false} PositionsBounded(from: seq<nat>, n: nat, j: nat)
    requires |from| == n && j < n && (forall k :: 0 <= k < n ==> from[k] < n)
    requires forall k, l :: 0 <= k < l < n ==> from[k] < from[l]
    ensures from[j] <= j
    decreases n - j
  {
    if j + 1 < n {
      PositionsBounded(from, n, j + 1);
    }
  }

  lemma {:induction false} PositionsShrink(from: seq<nat>, k: nat)
    requires k < |from| && forall i, j :: 0 <= i < j < |from| ==> from[i] < from[j]
    ensures k <= from[k]
  {
    if k > 0 {
      PositionsShrink(from, k - 1);
    }
  }

  lemma Survives(list: seq<Info>, put: Option<Info>, now: int, i: nat)
    requires i < |list|
    ensures Fate(list[i], put, now).Some? ==> Fate(list[i], put, now).value in Survivors(list, put, now)
  {
    SurvivorsFrom(list, put, now);
    if Fate(list[i], put, now).Some? {
      var from := Origins(list, put, now);
      var k :| 0 <= k < |from| && from[k] == i;
      assert Survivors(list, put, now)[k] == Fate(list[i], put, now).value;
    }
  }

  /** After an update every info expires later than now, but for one that has just been pushed. */
  lemma UpdateExpires(list: seq<Info>, put: Option<Info>, maxEntries: nat, now: int, k: nat)
    requires maxEntries >= 1 && WellKept(list, maxEntries) && k < |Updated(list, put, maxEntries, now)|
    ensures var after := Updated(list, put, maxEntries, now);
            after[k].expiresAt > now || (Pushes(list, put) && k == |after| - 1)
    ensures Pushes(list, put) ==>
              var after := Updated(list, put, maxEntries, now);
              after[|after| - 1] == put.value
  {
    var from := UpdatePreserves(list, put, maxEntries, now);
    UpdateKeeps(list, put, maxEntries, now);
    if k < |from| {
      assert Fate(list[from[k]], put, now) == Some(Updated(list, put, maxEntries, now)[k]);
    }
  }

  /** An info that is not superseded is still there, unchanged, if and only if it has not expired and does not make
      room; one that is superseded gives way to the newer one, or to nothing if that is a tombstone or expired. */
  lemma UpdateIs(list: seq<Info>, put: Option<Info>, maxEntries: nat, now: int, i: nat)
    requires maxEntries >= 1 && WellKept(list, maxEntries) && i < |list|
    ensures !Superseded(list[i], put) ==>
              (list[i] in Updated(list, put, maxEntries, now) <==>
               list[i].expiresAt > now && !MakesRoom(list, put, maxEntries, now, i))
    ensures !Superseded(list[i], put) && list[i].expiresAt <= now ==>
              !Holds(Updated(list, put, maxEntries, now), list[i].agent)
    ensures Superseded(list[i], put) ==>
              (Holds(Updated(list, put, maxEntries, now), list[i].agent) <==>
               !put.value.tombstone && put.value.expiresAt > now)
    ensures Superseded(list[i], put) && !put.value.tombstone && put.value.expiresAt > now ==>
              put.value in Updated(list, put, maxEntries, now)
  {
    var kept, after := Survivors(list, put, now), Updated(list, put, maxEntries, now);
    Survives(list, put, now, i);
    if Fate(list[i], put, now).None? {
      FatelessGone(list, put, maxEntries, now, i);
    } else if Pushes(list, put) {
      RoomMade(list, put, maxEntries, now, i);
    } else {
      assert after == kept;
      if Superseded(list[i], put) {
        var k :| 0 <= k < |kept| && kept[k] == put.value;
        assert after[k].agent == list[i].agent;
      }
    }
  }

  lemma FatelessGone(list: seq<Info>, put: Option<Info>, maxEntries: nat, now: int, i: nat)
    requires maxEntries >= 1 && WellKept(list, maxEntries) && i < |list| && Fate(list[i], put, now).None?
    ensures !Holds(Updated(list, put, maxEntries, now), list[i].agent)
    ensures list[i] !in Updated(list, put, maxEntries, now)
  {
    var after := Updated(list, put, maxEntries, now);
    var from := UpdatePreserves(list, put, maxEntries, now);
    forall k | 0 <= k < |after|
      ensures after[k].agent != list[i].agent
    {
      if k < |from| {
        assert Fate(list[from[k]], put, now) == Some(after[k]);
        assert list[from[k]].agent == after[k].agent && from[k] != i;
      }
    }
  }

  /** When an info is pushed, exactly the one at half the limit gives way, and only if the list is full. */
  lemma RoomMade(list: seq<Info>, put: Option<Info>, maxEntries: nat, now: int, i: nat)
    requires maxEntries >= 1 && WellKept(list, maxEntries) && i < |list| && Pushes(list, put)
    requires Fate(list[i], put, now).Some?
    ensures list[i] in Updated(list, put, maxEntries, now) <==> !MakesRoom(list, put, maxEntries, now, i)
  {
    var kept := Survivors(list, put, now);
    SurvivorsFrom(list, put, now);
    if |kept| == maxEntries {
      AllUnexpired(list, put, now);
      RoomInFull(list, maxEntries, put.value, i);
    } else {
      SomeExpired(list, put, maxEntries, now);
      FateOfOther(list, put, now, i);
      Survives(list, put, now, i);
    }
  }

  /** The fate of an info of another agent than the one put. */
  lemma FateOfOther(list: seq<Info>, put: Option<Info>, now: int, j: nat)
    requires j < |list| && Pushes(list, put)
    ensures Fate(list[j], put, now) == if list[j].expiresAt > now then Some(list[j]) else None
  {
    HeldAt(list, j);
  }

  lemma HeldAt(list: seq<Info>, j: nat)
    requires j < |list|
    ensures Holds(list, list[j].agent)
  {
  }

  lemma AllUnexpired(list: seq<Info>, put: Option<Info>, now: int)
    requires Pushes(list, put) && |Survivors(list, put, now)| == |list|
    ensures Survivors(list, put, now) == list && forall j :: 0 <= j < |list| ==> list[j].expiresAt > now
  {
    AllSurvive(list, put, now);
    forall j | 0 <= j < |list|
      ensures Survivors(list, put, now)[j] == list[j] && list[j].expiresAt > now
    {
      FateOfOther(list, put, now, j);
    }
  }

  lemma SomeExpired(list: seq<Info>, put: Option<Info>, maxEntries: nat, now: int)
    requires Pushes(list, put) && |Survivors(list, put, now)| != maxEntries
    ensures forall i: nat :: !MakesRoom(list, put, maxEntries, now, i)
  {
    AllSurvive(list, put, now);
    forall j: nat | j < |list|
      ensures list[j].expiresAt > now ==> Fate(list[j], put, now).Some?
    {
      FateOfOther(list, put, now, j);
    }
  }

  lemma RoomInFull(list: seq<Info>, maxEntries: nat, info: Info, i: nat)
    requires maxEntries >= 1 && WellKept(list, maxEntries) && i < |list| == maxEntries && !Holds(list, info.agent)
    ensures list[i] in MakeRoom(list, maxEntries) + [info] <==> i != maxEntries / 2
  {
    var half := maxEntries / 2;
    var room := Without(list, half);
    if i != half {
      assert room[if i < half then i else i - 1] == list[i];
    } else {
      forall k | 0 <= k < |room|
        ensures room[k] != list[i]
      {
        assert room[k].agent != list[i].agent;
      }
      assert list[i] != info;
    }
  }

  // ---------------------------------------------------------------- runs

  /** A put of an info, or a periodic clean-up, at some time. */
  datatype Call = Call(put: Option<Info>, now: int)

  function After(list: seq<Info>, calls: seq<Call>, maxEntries: nat): seq<Info>
    requires maxEntries >= 1
  {
    if calls == [] then list
    else
      var n := |calls| - 1;
      Updated(After(list, calls[..n], maxEntries), calls[n].put, maxEntries, calls[n].now)
  }

  /** However puts and clean-ups follow each other, the list stays well kept. */
  lemma {:induction false} RunKeeps(list: seq<Info>, calls: seq<Call>, maxEntries: nat)
    requires maxEntries >= 1 && WellKept(list, maxEntries)
    ensures WellKept(After(list, calls, maxEntries), maxEntries)
  {
    if calls != [] {
      var n := |calls| - 1;
      RunKeeps(list, calls[..n], maxEntries);
      UpdateKeeps(After(list, calls[..n], maxEntries), calls[n].put, maxEntries, calls[n].now);
    }
  }

  /** The agent is held in the first half of the limit. */
  predicate Settled(list: seq<Info>, maxEntries: nat, agent: nat) {
    exists i :: 0 <= i < |list| && i < maxEntries / 2 && list[i].agent == agent
  }

  /** In no call of a run does the info of an agent expire or meet a newer tombstone. */
  ghost predicate NeverEnds(list: seq<Info>, calls: seq<Call>, maxEntries: nat, agent: nat)
    requires maxEntries >= 1
  {
    calls != [] ==>
      var n := |calls| - 1;
      var before := After(list, calls[..n], maxEntries);
      && NeverEnds(list, calls[..n], maxEntries, agent)
      && forall i :: 0 <= i < |before| && before[i].agent == agent ==> Fate(before[i], calls[n].put, calls[n].now).Some?
  }

  /** Half the space is for long-running nodes: an agent in the first half of the limit stays there, no
      matter how many others are put, for as long as it keeps its info alive. */
  lemma {:induction false} LongRunningStay(list: seq<Info>, calls: seq<Call>, maxEntries: nat, agent: nat)
    requires maxEntries >= 1 && WellKept(list, maxEntries)
    requires Settled(list, maxEntries, agent) && NeverEnds(list, calls, maxEntries, agent)
    ensures Settled(After(list, calls, maxEntries), maxEntries, agent)
  {
    if calls != [] {
      var n := |calls| - 1;
      var before := After(list, calls[..n], maxEntries);
      LongRunningStay(list, calls[..n], maxEntries, agent);
      RunKeeps(list, calls[..n], maxEntries);
      var i :| 0 <= i < |before| && i < maxEntries / 2 && before[i].agent == agent;
      var from := UpdatePreserves(before, calls[n].put, maxEntries, calls[n].now);
      var k :| 0 <= k < |from| && from[k] == i;
      PositionsShrink(from, k);
      assert After(list, calls, maxEntries)[k].agent == agent;
    }
  }
}
