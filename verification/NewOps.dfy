/** The "new ops" protocol: paging a peer's op store by a bookmark (crates/gossip/src/respond.rs,
    crates/core/src/factories/mem_op_store.rs). */
module NewOps {
  import opened Wrappers
  import opened Arcs
  import opened TimeLayout
  import opened LayoutLaws

  /** A stored op: its id, its location, when the peer stored it and the size of its data. */
  datatype Record = Record(id: nat, loc: U32, storedAt: nat, size: nat)

  ghost predicate InArcs(r: Record, arcs: seq<DhtArc>) {
    exists k :: 0 <= k < |arcs| && Contains(arcs[k], r.loc)
  }

  // ---------------------------------------------------------------- sizes

  /** The total size of the data of a set of ops. */
  ghost function DataSize(s: set<Record>): nat {
    if s == {} then 0
    else
      var r :| r in s;
      DataSize(s - {r}) + r.size
  }

  lemma {:induction false} DataSizeRemove(s: set<Record>, r: Record)
    requires r in s
    ensures DataSize(s) == DataSize(s - {r}) + r.size
    decreases |s|
  {
    var p :| p in s && DataSize(s) == DataSize(s - {p}) + p.size;
    if p != r {
      DataSizeRemove(s - {p}, r);
      DataSizeRemove(s - {r}, p);
      assert s - {p} - {r} == s - {r} - {p};
    }
  }

  lemma DataSizeAdd(s: set<Record>, r: Record)
    requires r !in s
    ensures DataSize(s + {r}) == DataSize(s) + r.size
  {
    DataSizeRemove(s + {r}, r);
    assert s + {r} - {r} == s;
  }

  lemma {:induction false} DataSizeUnion(a: set<Record>, b: set<Record>)
    ensures DataSize(a + b) <= DataSize(a) + DataSize(b)
    ensures a !! b ==> DataSize(a + b) == DataSize(a) + DataSize(b)
    decreases |b|
  {
    if b == {} {
      assert a + b == a;
    } else {
      var r :| r in b;
      DataSizeUnion(a, b - {r});
      DataSizeRemove(b, r);
      if r in a {
        assert a + b == a + (b - {r});
      } else {
        DataSizeAdd(a + (b - {r}), r);
        assert a + b == a + (b - {r}) + {r};
      }
    }
  }

  lemma DataSizeMonotone(a: set<Record>, b: set<Record>)
    requires a <= b
    ensures DataSize(a) <= DataSize(b)
  {
    DataSizeUnion(a, b - a);
    assert a + (b - a) == b;
  }

  lemma MemberSize(s: set<Record>, r: Record)
    requires r in s
    ensures r.size <= DataSize(s)
  {
    DataSizeRemove(s, r);
  }

  // ---------------------------------------------------------------- one page

  /** Finds a record that was stored earliest; among equals, any. */
  method Earliest(records: set<Record>) returns (r: Record)
    requires records != {}
    ensures r in records && forall x :: x in records ==> r.storedAt <= x.storedAt
  {
    r :| r in records;
    var rest := records - {r};
    while rest != {}
      invariant rest <= records && r in records
      invariant forall x :: x in records ==> x in rest || r.storedAt <= x.storedAt
      decreases |rest|
    {
      var x :| x in rest;
      if x.storedAt < r.storedAt {
        r := x;
      }
      rest := rest - {x};
    }
  }

  ghost predicate Candidate(r: Record, log: set<Record>, arc: DhtArc, start: nat) {
    r in log && Contains(arc, r.loc) && r.storedAt >= start
  }

  /** Nothing is left for another page. */
  ghost predicate Complete(log: set<Record>, arc: DhtArc, start: nat, now: nat, found: set<Record>, bookmark: nat) {
    bookmark == now && forall r :: Candidate(r, log, arc, start) ==> r in found
  }

  /** The page stops at an op that would not have fitted; nothing on it was stored later than that op. */
  ghost predicate CutAt(r: Record, log: set<Record>, arc: DhtArc, start: nat, limit: nat,
                        found: set<Record>, bookmark: nat)
  {
    && Candidate(r, log, arc, start) && r !in found && r.storedAt == bookmark
    && DataSize(found) + r.size > limit
    && (forall x :: x in found ==> x.storedAt <= bookmark)
    && (forall x :: Candidate(x, log, arc, start) && x.storedAt < bookmark ==> x in found)
  }

  /** A page of the ops of an arc, within the limit: all of them, or the first by the time they were stored. */
  ghost predicate Page(log: set<Record>, arc: DhtArc, start: nat, limit: nat, now: nat,
                       found: set<Record>, bookmark: nat)
  {
    && (forall r :: r in found ==> Candidate(r, log, arc, start))
    && DataSize(found) <= limit
    && (|| Complete(log, arc, start, now, found, bookmark)
        || exists r :: CutAt(r, log, arc, start, limit, found, bookmark))
  }

  /** `retrieve_op_ids_bounded`: as many ops of an arc as fit, in the order they were stored. The new
      bookmark is the time of the first op that did not fit, or the current time. */
  method RetrieveOpIdsBounded(log: set<Record>, arc: DhtArc, start: nat, limit: nat, now: nat)
      returns (found: set<Record>, used: nat, bookmark: nat)
    ensures Page(log, arc, start, limit, now, found, bookmark)
    ensures used == DataSize(found)
  {
    found, used := {}, 0;
    var rest := set r | r in log && Contains(arc, r.loc) && r.storedAt >= start;
    while rest != {}
      invariant forall r :: r in rest || r in found ==> Candidate(r, log, arc, start)
      invariant forall r :: Candidate(r, log, arc, start) ==> r in found || r in rest
      invariant forall x, y :: x in found && y in rest ==> x.storedAt <= y.storedAt
      invariant found !! rest && used == DataSize(found) <= limit
      decreases |rest|
    {
      var r := Earliest(rest);
      if used + r.size > limit {
        assert CutAt(r, log, arc, start, limit, found, r.storedAt);
        return found, used, r.storedAt;
      }
      DataSizeAdd(found, r);
      used := used + r.size;
      found := found + {r};
      rest := rest - {r};
    }
    bookmark := now;
  }

  /** What a page promises about its bookmark: everything stored before it is on the page. */
  lemma PageReaches(log: set<Record>, arc: DhtArc, start: nat, limit: nat, now: nat, found: set<Record>, bookmark: nat)
    requires Page(log, arc, start, limit, now, found, bookmark)
    ensures forall r :: Candidate(r, log, arc, start) && r.storedAt < bookmark ==> r in found
    ensures bookmark == now || bookmark >= start
  {
  }

  /** The ops of an arc stored at exactly one time. */
  ghost function StoredAt(log: set<Record>, arc: DhtArc, t: nat): set<Record> {
    set r | r in log && Contains(arc, r.loc) && r.storedAt == t
  }

  /** Paging one arc gets on, past the time it starts from, if and only if all ops stored at that very
      time fit on one page together. */
  lemma PageMovesIff(log: set<Record>, arc: DhtArc, start: nat, limit: nat, now: nat, found: set<Record>, bookmark: nat)
    requires Page(log, arc, start, limit, now, found, bookmark) && start < now
    ensures bookmark > start <==> DataSize(StoredAt(log, arc, start)) <= limit
  {
    var first := StoredAt(log, arc, start);
    if bookmark > start {
      PageReaches(log, arc, start, limit, now, found, bookmark);
      assert forall r :: r in first ==> Candidate(r, log, arc, start);
      DataSizeMonotone(first, found);
    } else {
      var r :| CutAt(r, log, arc, start, limit, found, bookmark);
      DataSizeAdd(found, r);
      DataSizeMonotone(found + {r}, first);
    }
  }

  /** The ops of a log stored after a time. */
  function Later(log: set<Record>, t: nat): set<Record> {
    set r | r in log && r.storedAt > t
  }

  /** Every time group of an arc in an interval fits on a page. */
  ghost predicate GroupsFit(log: set<Record>, arc: DhtArc, lo: nat, hi: nat, limit: nat) {
    forall t: nat :: lo <= t < hi ==> DataSize(StoredAt(log, arc, t)) <= limit
  }

  lemma PageGroupsFit(log: set<Record>, arc: DhtArc, start: nat, limit: nat, now: nat,
                      found: set<Record>, bookmark: nat)
    requires Page(log, arc, start, limit, now, found, bookmark)
    ensures GroupsFit(log, arc, start, bookmark, limit)
  {
    PageReaches(log, arc, start, limit, now, found, bookmark);
    forall t: nat | start <= t < bookmark
      ensures DataSize(StoredAt(log, arc, t)) <= limit
    {
      assert forall r :: r in StoredAt(log, arc, t) ==> Candidate(r, log, arc, start);
      DataSizeMonotone(StoredAt(log, arc, t), found);
    }
  }

  lemma FewerLater(log: set<Record>, t: nat, r: Record)
    requires r in log && r.storedAt > t
    ensures |Later(log, r.storedAt)| < |Later(log, t)|
  {
    var less := Later(log, t) - {r};
    assert |less| == |Later(log, t)| - 1;
    SubsetSize(Later(log, r.storedAt), less);
  }

  lemma {:induction false} SubsetSize(a: set<Record>, b: set<Record>)
    requires a <= b
    ensures |a| <= |b|
    decreases |a|
  {
    if a != {} {
      var r :| r in a;
      SubsetSize(a - {r}, b - {r});
    }
  }

  /** Paging one arc from bookmark to bookmark: it takes at most one page more than there are ops, and gets to the
      current time, with everything on the way fetched, if and only if the ops of each time fit on a page together;
      otherwise it stalls at the first time whose ops do not. */
  method PageThrough(log: set<Record>, arc: DhtArc, start: nat, limit: nat, now: nat)
      returns (fetched: set<Record>, pages: nat, end: nat)
    requires start <= now && forall r :: r in log ==> r.storedAt <= now
    ensures start <= end <= now && pages <= |log| + 1
    ensures forall r :: Candidate(r, log, arc, start) && r.storedAt < end ==> r in fetched
    ensures end == now <==> GroupsFit(log, arc, start, now, limit)
    ensures GroupsFit(log, arc, start, end, limit)
    ensures end < now ==> DataSize(StoredAt(log, arc, end)) > limit
  {
    fetched, pages, end := {}, 0, start;
    SubsetSize(Later(log, start), log);
    while end < now
      invariant start <= end <= now && GroupsFit(log, arc, start, end, limit)
      invariant forall r :: Candidate(r, log, arc, start) && r.storedAt < end ==> r in fetched
      invariant pages + |Later(log, end)| <= |log| + if end == now then 1 else 0
      decreases now - end
    {
      var found, _, mark := RetrieveOpIdsBounded(log, arc, end, limit, now);
      PageMovesIff(log, arc, end, limit, now, found, mark);
      PageReaches(log, arc, end, limit, now, found, mark);
      PageGroupsFit(log, arc, end, limit, now, found, mark);
      fetched, pages := fetched + found, pages + 1;
      if mark <= end {
        return;
      }
      assert forall r :: Candidate(r, log, arc, start) && end <= r.storedAt ==> Candidate(r, log, arc, end);
      LaterShrinks(log, arc, end, limit, now, found, mark);
      end := mark;
    }
  }

  lemma LaterShrinks(log: set<Record>, arc: DhtArc, start: nat, limit: nat, now: nat, found: set<Record>, bookmark: nat)
    requires Page(log, arc, start, limit, now, found, bookmark) && start < bookmark
    requires forall r :: r in log ==> r.storedAt <= now
    ensures bookmark <= now && |Later(log, bookmark)| <= |Later(log, start)|
    ensures bookmark < now ==> |Later(log, bookmark)| < |Later(log, start)|
  {
    SubsetSize(Later(log, bookmark), Later(log, start));
    if !Complete(log, arc, start, now, found, bookmark) {
      var r :| CutAt(r, log, arc, start, limit, found, bookmark);
      FewerLater(log, start, r);
    }
  }

  /** No two ops of an arc were stored at one time. */
  ghost predicate OneAtATime(log: set<Record>, arc: DhtArc, start: nat) {
    forall x, y :: Candidate(x, log, arc, start) && Candidate(y, log, arc, start) && x.storedAt == y.storedAt ==> x == y
  }

  lemma CutPageIncluded(log: set<Record>, arc: DhtArc, start: nat, limit: nat, now: nat,
                        found: set<Record>, bookmark: nat, found': set<Record>, bookmark': nat)
    requires Page(log, arc, start, limit, now, found, bookmark) && Page(log, arc, start, limit, now, found', bookmark')
    requires OneAtATime(log, arc, start)
    ensures found' <= found
  {
    forall x | x in found'
      ensures x in found
    {
      if x !in found {
        var r :| CutAt(r, log, arc, start, limit, found, bookmark);
        assert r.storedAt <= x.storedAt;
        assert r in found';
        assert forall y :: y in found ==> y.storedAt < r.storedAt;
        assert found <= found';
        DataSizeAdd(found, r);
        DataSizeMonotone(found + {r}, found');
      }
    }
  }

  /** Then the page is a function of the log, the start and the limit. */
  lemma PageIsUnique(log: set<Record>, arc: DhtArc, start: nat, limit: nat, now: nat,
                     found: set<Record>, bookmark: nat, found': set<Record>, bookmark': nat)
    requires Page(log, arc, start, limit, now, found, bookmark) && Page(log, arc, start, limit, now, found', bookmark')
    requires OneAtATime(log, arc, start)
    ensures found == found' && bookmark == bookmark'
  {
    CutPageIncluded(log, arc, start, limit, now, found, bookmark, found', bookmark');
    CutPageIncluded(log, arc, start, limit, now, found', bookmark', found, bookmark);
  }

  // ---------------------------------------------------------------- several arcs

  /** The data on a list of pages. */
  ghost function TotalData(pages: seq<set<Record>>): nat {
    if pages == [] then 0 else TotalData(pages[..|pages| - 1]) + DataSize(pages[|pages| - 1])
  }

  ghost function OnPages(pages: seq<set<Record>>): set<Record> {
    if pages == [] then {} else OnPages(pages[..|pages| - 1]) + pages[|pages| - 1]
  }

  /** The least of the bookmarks and the current time. */
  ghost function Least(now: nat, marks: seq<nat>): nat {
    if marks == [] then now else Min(Least(now, marks[..|marks| - 1]), marks[|marks| - 1])
  }

  /** Page by page: each arc gets what the arcs before it left of the budget. */
  ghost predicate PageOf(log: set<Record>, arcs: seq<DhtArc>, since: nat, budget: nat, now: nat,
                         pages: seq<set<Record>>, marks: seq<nat>, n: nat)
    requires n < |pages| == |marks| <= |arcs|
  {
    TotalData(pages[..n]) <= budget &&
    Page(log, arcs[n], since, budget - TotalData(pages[..n]), now, pages[n], marks[n])
  }

  ghost predicate Paged(log: set<Record>, arcs: seq<DhtArc>, since: nat, budget: nat, now: nat,
                        pages: seq<set<Record>>, marks: seq<nat>)
  {
    && |pages| == |marks| <= |arcs|
    && TotalData(pages) <= budget
    && forall n: nat :: n < |pages| ==> PageOf(log, arcs, since, budget, now, pages, marks, n)
  }

  /** `retrieve_new_op_ids`: the budget left for each arc never underflows, and the bookmark is the least of
      those of the arcs. */
  method RetrieveNewOpIds(log: set<Record>, arcs: seq<DhtArc>, since: nat, budget: nat, now: nat)
      returns (ops: set<Record>, used: nat, bookmark: nat, ghost pages: seq<set<Record>>, ghost marks: seq<nat>)
    ensures |pages| == |arcs| && Paged(log, arcs, since, budget, now, pages, marks)
    ensures ops == OnPages(pages) && used == TotalData(pages) <= budget && bookmark == Least(now, marks)
    ensures Answers(log, arcs, since, budget, now, ops, bookmark)
    ensures DataSize(ops) <= used && (Disjoint(arcs) ==> used == DataSize(ops))
    ensures bookmark == now || bookmark >= since
  {
    ops, used, bookmark, pages, marks := {}, 0, now, [], [];
    for n := 0 to |arcs|
      invariant |pages| == n && Paged(log, arcs, since, budget, now, pages, marks)
      invariant ops == OnPages(pages) && used == TotalData(pages) && bookmark == Least(now, marks)
    {
      var left: nat := budget - used;
      var found, size, mark := RetrieveOpIdsBounded(log, arcs[n], since, left, now);
      PagedPush(log, arcs, since, budget, now, pages, marks, found, mark);
      ops := ops + found;
      used := used + size;
      if mark < bookmark {
        bookmark := mark;
      }
      pages, marks := pages + [found], marks + [mark];
    }
    PagesAnswer(log, arcs, since, budget, now, pages, marks);
    OnPagesIs(pages);
    if Disjoint(arcs) {
      DisjointPages(log, arcs, since, budget, now, pages, marks, |pages|);
      assert pages[..|pages|] == pages;
    }
    NotBefore(log, arcs, since, budget, now, pages, marks);
  }

  lemma PagedPush(log: set<Record>, arcs: seq<DhtArc>, since: nat, budget: nat, now: nat,
                  pages: seq<set<Record>>, marks: seq<nat>, found: set<Record>, mark: nat)
    requires Paged(log, arcs, since, budget, now, pages, marks) && |pages| < |arcs|
    requires Page(log, arcs[|pages|], since, budget - TotalData(pages), now, found, mark)
    ensures Paged(log, arcs, since, budget, now, pages + [found], marks + [mark])
    ensures OnPages(pages + [found]) == OnPages(pages) + found
    ensures TotalData(pages + [found]) == TotalData(pages) + DataSize(found)
    ensures Least(now, marks + [mark]) == Min(Least(now, marks), mark)
  {
    var pages', marks' := pages + [found], marks + [mark];
    assert pages'[..|pages|] == pages && marks'[..|marks|] == marks;
    forall n: nat | n < |pages'|
      ensures PageOf(log, arcs, since, budget, now, pages', marks', n)
    {
      if n < |pages| {
        assert PageOf(log, arcs, since, budget, now, pages, marks, n);
        assert pages'[..n] == pages[..n];
      }
    }
  }

  lemma {:induction false} LeastIs(now: nat, marks: seq<nat>)
    ensures Least(now, marks) <= now && (Least(now, marks) == now || Least(now, marks) in marks)
    ensures forall n :: 0 <= n < |marks| ==> Least(now, marks) <= marks[n]
  {
    if marks != [] {
      var init := marks[..|marks| - 1];
      LeastIs(now, init);
      assert forall n :: 0 <= n < |init| ==> init[n] == marks[n];
    }
  }

  lemma {:induction false} OnPagesIs(pages: seq<set<Record>>)
    ensures forall r :: r in OnPages(pages) <==> exists n :: 0 <= n < |pages| && r in pages[n]
    ensures DataSize(OnPages(pages)) <= TotalData(pages)
  {
    if pages != [] {
      var last := |pages| - 1;
      OnPagesIs(pages[..last]);
      DataSizeUnion(OnPages(pages[..last]), pages[last]);
      forall r
        ensures r in OnPages(pages) <==> exists n :: 0 <= n < |pages| && r in pages[n]
      {
        if r in OnPages(pages[..last]) {
          var n :| 0 <= n < last && r in pages[..last][n];
          assert r in pages[n];
        }
        if n :| 0 <= n < |pages| && r in pages[n] {
          assert n < last ==> r in pages[..last][n];
        }
      }
    }
  }

  /** No location lies in two of the arcs. */
  ghost predicate Disjoint(arcs: seq<DhtArc>) {
    forall i, j, loc: U32 :: 0 <= i < j < |arcs| ==> !(Contains(arcs[i], loc) && Contains(arcs[j], loc))
  }

  /** With disjoint arcs no op is on two pages. */
  lemma {:induction false} DisjointPages(log: set<Record>, arcs: seq<DhtArc>, since: nat, budget: nat, now: nat,
                                         pages: seq<set<Record>>, marks: seq<nat>, n: nat)
    requires Paged(log, arcs, since, budget, now, pages, marks) && Disjoint(arcs) && n <= |pages|
    ensures DataSize(OnPages(pages[..n])) == TotalData(pages[..n])
  {
    if n > 0 {
      var init := pages[..n - 1];
      assert pages[..n][..n - 1] == init;
      DisjointPages(log, arcs, since, budget, now, pages, marks, n - 1);
      OnPagesIs(init);
      forall r | r in OnPages(init)
        ensures r !in pages[n - 1]
      {
        var k: nat :| k < |init| && r in init[k];
        assert PageOf(log, arcs, since, budget, now, pages, marks, k);
        assert PageOf(log, arcs, since, budget, now, pages, marks, n - 1);
        assert Contains(arcs[k], r.loc);
      }
      DataSizeUnion(OnPages(init), pages[n - 1]);
    }
  }

  /** What an answer promises: every op in the arcs that was stored from `since` until before the
      bookmark is in it, and it holds no op from elsewhere and no more data than the budget. */
  ghost predicate Answers(log: set<Record>, arcs: seq<DhtArc>, since: nat, budget: nat, now: nat,
                          ops: set<Record>, bookmark: nat)
  {
    && (forall r :: r in log && InArcs(r, arcs) && since <= r.storedAt < bookmark ==> r in ops)
    && (forall r :: r in ops ==> r in log && InArcs(r, arcs) && since <= r.storedAt)
    && DataSize(ops) <= budget && bookmark <= now
  }

  /** The least bookmark answers for all arcs. */
  lemma PagesAnswer(log: set<Record>, arcs: seq<DhtArc>, since: nat, budget: nat, now: nat,
                    pages: seq<set<Record>>, marks: seq<nat>)
    requires |pages| == |arcs| && Paged(log, arcs, since, budget, now, pages, marks)
    ensures Answers(log, arcs, since, budget, now, OnPages(pages), Least(now, marks))
  {
    OnPagesIs(pages);
    LeastIs(now, marks);
    forall r | r in log && InArcs(r, arcs) && since <= r.storedAt < Least(now, marks)
      ensures r in OnPages(pages)
    {
      var n: nat :| n < |arcs| && Contains(arcs[n], r.loc);
      assert PageOf(log, arcs, since, budget, now, pages, marks, n);
      assert Candidate(r, log, arcs[n], since) && r.storedAt < marks[n];
      assert r in pages[n];
    }
    forall r | r in OnPages(pages)
      ensures r in log && InArcs(r, arcs) && since <= r.storedAt
    {
      var n: nat :| n < |pages| && r in pages[n];
      assert PageOf(log, arcs, since, budget, now, pages, marks, n);
      assert Candidate(r, log, arcs[n], since);
    }
  }

  /** An answer as `retrieve_new_op_ids` gives it. */
  ghost predicate AnswersByPages(log: set<Record>, arcs: seq<DhtArc>, since: nat, budget: nat, now: nat,
                                 ops: set<Record>, bookmark: nat)
  {
    exists pages, marks ::
      && |pages| == |arcs| && Paged(log, arcs, since, budget, now, pages, marks)
      && ops == OnPages(pages) && bookmark == Least(now, marks)
  }

  lemma AnswersPromised(log: set<Record>, arcs: seq<DhtArc>, since: nat, budget: nat, now: nat,
                        ops: set<Record>, bookmark: nat)
    requires AnswersByPages(log, arcs, since, budget, now, ops, bookmark)
    ensures Answers(log, arcs, since, budget, now, ops, bookmark)
  {
    var pages, marks :|
      && |pages| == |arcs| && Paged(log, arcs, since, budget, now, pages, marks)
      && ops == OnPages(pages) && bookmark == Least(now, marks);
    PagesAnswer(log, arcs, since, budget, now, pages, marks);
  }

  function Blank(n: nat): seq<set<Record>> {
    seq(n, _ => {})
  }

  lemma {:induction false} BlankIs(n: nat)
    ensures TotalData(Blank(n)) == 0 && OnPages(Blank(n)) == {}
  {
    if n > 0 {
      BlankIs(n - 1);
      assert Blank(n)[..n - 1] == Blank(n - 1);
    }
  }

  /** If no arc has anything to list, or none of the ops fits, the answer is empty and its bookmark is that of
      the first op left out, or the current time. */
  lemma BlankAnswer(log: set<Record>, arcs: seq<DhtArc>, since: nat, budget: nat, now: nat, marks: seq<nat>)
    requires |marks| == |arcs| && forall n :: 0 <= n < |arcs| ==> Page(log, arcs[n], since, budget, now, {}, marks[n])
    ensures AnswersByPages(log, arcs, since, budget, now, {}, Least(now, marks))
  {
    var pages := Blank(|arcs|);
    BlankIs(|arcs|);
    forall n: nat | n < |pages|
      ensures PageOf(log, arcs, since, budget, now, pages, marks, n)
    {
      assert pages[..n] == Blank(n);
      BlankIs(n);
    }
    assert Paged(log, arcs, since, budget, now, pages, marks);
  }

  /** One op, in some of the arcs, and no room for it. */
  lemma NothingFits(r: Record, arcs: seq<DhtArc>, since: nat, now: nat)
    requires InArcs(r, arcs) && since <= r.storedAt <= now && r.size > 0
    ensures AnswersByPages({r}, arcs, since, 0, now, {}, r.storedAt)
  {
    var marks := seq(|arcs|, n requires 0 <= n < |arcs| => if Contains(arcs[n], r.loc) then r.storedAt else now);
    forall n | 0 <= n < |arcs|
      ensures Page({r}, arcs[n], since, 0, now, {}, marks[n])
    {
      if Contains(arcs[n], r.loc) {
        assert CutAt(r, {r}, arcs[n], since, 0, {}, r.storedAt);
      } else {
        assert Complete({r}, arcs[n], since, now, {}, now);
      }
    }
    BlankAnswer({r}, arcs, since, 0, now, marks);
    LeastIs(now, marks);
    var k :| 0 <= k < |arcs| && Contains(arcs[k], r.loc);
    assert marks[k] == r.storedAt;
  }

  /** No op in the log since a time. */
  lemma NothingThere(log: set<Record>, arcs: seq<DhtArc>, since: nat, budget: nat, now: nat)
    requires forall r :: r in log ==> r.storedAt < since
    ensures AnswersByPages(log, arcs, since, budget, now, {}, now)
  {
    var marks := seq(|arcs|, _ => now);
    forall n | 0 <= n < |arcs|
      ensures Page(log, arcs[n], since, budget, now, {}, marks[n])
    {
      assert Complete(log, arcs[n], since, now, {}, now);
    }
    BlankAnswer(log, arcs, since, budget, now, marks);
    LeastIs(now, marks);
  }

  /** There is room on the page of an arc for all its ops stored at one time. */
  ghost predicate RoomAt(log: set<Record>, arc: DhtArc, t: nat, budget: nat, before: seq<set<Record>>) {
    TotalData(before) + DataSize(StoredAt(log, arc, t)) <= budget
  }

  /** Paging several arcs gets on if and only if each arc, after what the arcs before it took, has room for
      all its ops stored at the time it starts from. What they took depends on the order in which the store
      lists ops of one stamp; without such ops it is a function of the inputs (`PagesAreUnique`). */
  lemma MovesIff(log: set<Record>, arcs: seq<DhtArc>, since: nat, budget: nat, now: nat,
                 pages: seq<set<Record>>, marks: seq<nat>)
    requires |pages| == |arcs| && Paged(log, arcs, since, budget, now, pages, marks) && since < now
    ensures Least(now, marks) > since <==>
            forall n :: 0 <= n < |arcs| ==> RoomAt(log, arcs[n], since, budget, pages[..n])
  {
    LeastIs(now, marks);
    forall n: nat | n < |arcs|
      ensures marks[n] > since <==> RoomAt(log, arcs[n], since, budget, pages[..n])
    {
      assert PageOf(log, arcs, since, budget, now, pages, marks, n);
      PageMovesIff(log, arcs[n], since, budget - TotalData(pages[..n]), now, pages[n], marks[n]);
    }
    if Least(now, marks) <= since {
      var n: nat :| n < |marks| && marks[n] == Least(now, marks);
      assert !RoomAt(log, arcs[n], since, budget, pages[..n]);
    }
  }

  /** If no two ops of an arc were stored at one time, the pages, and with them whether paging gets on, are a
      function of the log, the arcs, the start and the budget. */
  lemma {:induction false} PagesAreUnique(log: set<Record>, arcs: seq<DhtArc>, since: nat, budget: nat, now: nat,
                                          pages: seq<set<Record>>, marks: seq<nat>,
                                          pages': seq<set<Record>>, marks': seq<nat>, n: nat)
    requires n <= |pages| == |pages'| == |arcs| && forall k :: 0 <= k < |arcs| ==> OneAtATime(log, arcs[k], since)
    requires Paged(log, arcs, since, budget, now, pages, marks) && Paged(log, arcs, since, budget, now, pages', marks')
    ensures pages[..n] == pages'[..n] && marks[..n] == marks'[..n]
  {
    if n > 0 {
      var m := n - 1;
      PagesAreUnique(log, arcs, since, budget, now, pages, marks, pages', marks', m);
      assert PageOf(log, arcs, since, budget, now, pages, marks, m);
      assert PageOf(log, arcs, since, budget, now, pages', marks', m);
      PageIsUnique(log, arcs[m], since, budget - TotalData(pages[..m]), now, pages[m], marks[m], pages'[m], marks'[m]);
      assert pages[..n] == pages[..m] + [pages[m]] && pages'[..n] == pages'[..m] + [pages'[m]];
      assert marks[..n] == marks[..m] + [marks[m]] && marks'[..n] == marks'[..m] + [marks'[m]];
    }
  }

  /** Two ops stored at one time that do not fit on a page together, each of which would alone: whatever the
      store answers, the bookmark stays. */
  lemma SameTimeStalls(a: Record, b: Record, arc: DhtArc, start: nat, limit: nat, now: nat, found: set<Record>,
                       bookmark: nat)
    requires a != b && a.storedAt == b.storedAt == start < now && Contains(arc, a.loc) && Contains(arc, b.loc)
    requires a.size <= limit && b.size <= limit < a.size + b.size
    requires Page({a, b}, arc, start, limit, now, found, bookmark)
    ensures bookmark == start
  {
    assert StoredAt({a, b}, arc, start) == {a} + {b} && {} + {a} == {a};
    DataSizeAdd({}, a);
    DataSizeAdd({a}, b);
    PageMovesIff({a, b}, arc, start, limit, now, found, bookmark);
    PageReaches({a, b}, arc, start, limit, now, found, bookmark);
  }

  /** A later op in an earlier arc takes the budget from an earlier op in a later arc: all ops stored at the
      bookmark would fit, and yet it stays, whatever the store answers. */
  lemma EarlierArcStarvesLater(arcs: seq<DhtArc>, late: Record, early: Record, budget: nat, now: nat,
                               pages: seq<set<Record>>, marks: seq<nat>)
    requires |arcs| == 2 && Contains(arcs[0], late.loc) && !Contains(arcs[0], early.loc) && Contains(arcs[1], early.loc)
    requires early.storedAt < late.storedAt && early.storedAt < now && late.size <= budget < late.size + early.size
    requires early.size <= budget
    requires |pages| == 2 && Paged({late, early}, arcs, early.storedAt, budget, now, pages, marks)
    ensures DataSize(GroupAt({late, early}, arcs, early.storedAt)) <= budget
    ensures Least(now, marks) == early.storedAt
  {
    var log, since := {late, early}, early.storedAt;
    DataSizeAdd({}, early);
    assert {} + {early} == {early};
    assert Contains(arcs[1], early.loc);
    assert GroupAt(log, arcs, since) == {early} && StoredAt(log, arcs[1], since) == {early};
    assert PageOf(log, arcs, since, budget, now, pages, marks, 0);
    OnlyOpTaken(log, arcs[0], late, since, budget, now, pages[0], marks[0]);
    assert pages[..0] == [] && pages[..1] == [pages[0]] && pages[..1][..0] == [];
    assert !RoomAt(log, arcs[1], since, budget, pages[..1]);
    MovesIff(log, arcs, since, budget, now, pages, marks);
    NotBefore(log, arcs, since, budget, now, pages, marks);
  }

  /** For example, with one byte of budget, two arcs and an op of one byte in each. */
  method StarvedExample() returns (bookmark: nat)
    ensures bookmark == 5
  {
    var late, early := Record(0, 0, 50, 1), Record(1, 9, 5, 1);
    var arcs := [Arc(0, 0), Arc(9, 9)];
    var _, _, mark, pages, marks := RetrieveNewOpIds({late, early}, arcs, 5, 1, 100);
    EarlierArcStarvesLater(arcs, late, early, 1, 100, pages, marks);
    bookmark := mark;
  }

  lemma OnlyOpTaken(log: set<Record>, arc: DhtArc, r: Record, start: nat, limit: nat, now: nat,
                    page: set<Record>, mark: nat)
    requires Candidate(r, log, arc, start) && r.size <= limit
    requires forall x :: x in log && Contains(arc, x.loc) ==> x == r
    requires Page(log, arc, start, limit, now, page, mark)
    ensures DataSize(page) == r.size
  {
    DataSizeAdd({}, r);
    assert {} + {r} == {r};
    assert page == {} || page == {r};
  }

  lemma NotBefore(log: set<Record>, arcs: seq<DhtArc>, since: nat, budget: nat, now: nat,
                  pages: seq<set<Record>>, marks: seq<nat>)
    requires |pages| == |arcs| && Paged(log, arcs, since, budget, now, pages, marks)
    ensures Least(now, marks) == now || Least(now, marks) >= since
  {
    LeastIs(now, marks);
    forall n: nat | n < |marks|
      ensures marks[n] == now || marks[n] >= since
    {
      assert PageOf(log, arcs, since, budget, now, pages, marks, n);
      PageReaches(log, arcs[n], since, budget - TotalData(pages[..n]), now, pages[n], marks[n]);
    }
  }

  // ---------------------------------------------------------------- the receiving side

  /** `update_new_ops_bookmark`: a bookmark never goes back. */
  function UpdatedBookmark(previous: Option<nat>, updated: nat): Option<nat> {
    if previous.Some? && previous.value > updated then previous else Some(updated)
  }

  /** `get_request_new_since`: without a bookmark, two units back from now if there is that much time. */
  function RequestSince(bookmark: Option<nat>, now: nat): nat {
    match bookmark
    case Some(b) => b
    case None => if now < 2 * UNIT then now else now - 2 * UNIT
  }

  /** The bookmark after any number of replies is the latest there has been. */
  lemma BookmarkIsLatest(previous: Option<nat>, updated: nat)
    ensures var b := UpdatedBookmark(previous, updated);
            && b.Some? && b.value >= updated && (previous.Some? ==> b.value >= previous.value)
            && (b.value == updated || b == previous)
  {
  }

  /** Without a bookmark the first request goes back half an hour. It asks for everything that is too recent for the
      slices of the DHT if and only if there has been that much time. */
  lemma FirstRequestMeetsSlices(factor: nat, count: nat, now: nat)
    requires CaughtUp(factor, count, now) && FullEnd(factor, count) < now
    ensures now >= 1_800_000_000 ==> RequestSince(None, now) + 1_800_000_000 == now
    ensures RequestSince(None, now) <= CoveredEnd(factor, count, now) <==> now >= 1_800_000_000
  {
    CoveredEndBounds(factor, count, now);
  }

  // ---------------------------------------------------------------- the protocol

  datatype Reply = Reply(since: nat, ops: set<Record>, bookmark: nat)

  /** The peer's clock, the ops it has stamped but not yet entered in its log, its log, all requests and
      replies ever sent (either may be lost, repeated or overtaken), the receiver's bookmark and what it has
      handed to fetch. */
  datatype State = State(clock: nat, pending: set<Record>, log: set<Record>, requests: set<nat>, replies: set<Reply>,
                         bookmark: Option<nat>, fetched: set<Record>)

  datatype Event =
    | Stamp(record: Record)
    | Insert(record: Record)
    | Wait(time: nat)
    | Request
    | Answer(since: nat, budget: nat, ops: set<Record>, mark: nat)
    | Receive(reply: Reply)

  /** One step of the protocol between two nodes with a fixed common arc set. An op is stamped before the log
      is locked for writing, so other steps may come between. */
  ghost predicate Next(s: State, e: Event, s': State, arcs: seq<DhtArc>) {
    match e
    case Stamp(r) => r.storedAt == s.clock && r !in s.log && s' == s.(pending := s.pending + {r})
    case Insert(r) => r in s.pending && s' == s.(pending := s.pending - {r}, log := s.log + {r})
    case Wait(t) => t >= s.clock && s' == s.(clock := t)
    case Request => s' == s.(requests := s.requests + {RequestSince(s.bookmark, s.clock)})
    case Answer(since, budget, ops, mark) =>
      && since in s.requests && AnswersByPages(s.log, arcs, since, budget, s.clock, ops, mark)
      && s' == s.(replies := s.replies + {Reply(since, ops, mark)})
    case Receive(reply) => reply in s.replies && s' == Received(s, reply)
  }

  function Received(s: State, reply: Reply): State {
    s.(bookmark := UpdatedBookmark(s.bookmark, reply.bookmark), fetched := s.fetched + reply.ops)
  }

  /** Everything in the arcs stored from `lo` until before the bookmark has been handed to fetch. */
  ghost predicate Covered(s: State, lo: nat, arcs: seq<DhtArc>) {
    s.bookmark.Some? &&
    forall r :: r in s.log && InArcs(r, arcs) && lo <= r.storedAt < s.bookmark.value ==> r in s.fetched
  }

  /** A reply holds everything in the log for its interval. */
  ghost predicate Truthful(reply: Reply, log: set<Record>, arcs: seq<DhtArc>) {
    forall r :: r in log && InArcs(r, arcs) && reply.since <= r.storedAt < reply.bookmark ==> r in reply.ops
  }

  /** The bookkeeping that every step keeps, whatever is skipped. */
  ghost predicate Ordered(s: State, lo: nat) {
    && s.bookmark.Some? && lo <= s.bookmark.value <= s.clock
    && s.pending !! s.log && s.fetched <= s.log
    && (forall r :: r in s.log || r in s.pending ==> r.storedAt <= s.clock)
    && (forall since :: since in s.requests ==> lo <= since <= s.bookmark.value)
    && (forall reply :: reply in s.replies ==>
          lo <= reply.since <= s.bookmark.value && reply.bookmark <= s.clock && reply.ops <= s.log)
  }

  /** What every step keeps, for a receiver that started with bookmark `lo`. */
  ghost predicate Invariant(s: State, lo: nat, arcs: seq<DhtArc>) {
    && Ordered(s, lo) && Covered(s, lo, arcs)
    && forall reply :: reply in s.replies ==> Truthful(reply, s.log, arcs)
  }

  /** An op is entered in time: it lies outside the arcs, or neither the bookmark nor any reply has gone past
      the time it was stamped with. */
  ghost predicate Timely(s: State, r: Record, lo: nat, arcs: seq<DhtArc>) {
    InArcs(r, arcs) ==>
      && !(s.bookmark.Some? && lo <= r.storedAt < s.bookmark.value)
      && forall reply :: reply in s.replies ==> !(reply.since <= r.storedAt < reply.bookmark)
  }

  lemma StepKeeps(s: State, e: Event, s': State, lo: nat, arcs: seq<DhtArc>)
    requires Invariant(s, lo, arcs) && Next(s, e, s', arcs)
    requires e.Insert? ==> Timely(s, e.record, lo, arcs)
    ensures Invariant(s', lo, arcs) && s.fetched <= s'.fetched && s.bookmark.value <= s'.bookmark.value
  {
    if e.Answer? {
      AnswersPromised(s.log, arcs, e.since, e.budget, s.clock, e.ops, e.mark);
    }
    if e.Receive? {
      assert Truthful(e.reply, s.log, arcs);
      forall r | r in s'.log && InArcs(r, arcs) && lo <= r.storedAt < s'.bookmark.value
        ensures r in s'.fetched
      {
        assert r.storedAt >= s.bookmark.value ==> e.reply.since <= r.storedAt;
      }
    } else {
      forall reply | reply in s'.replies
        ensures Truthful(reply, s'.log, arcs)
      {
        assert reply in s.replies ==> Truthful(reply, s.log, arcs);
      }
    }
  }

  /** Entering an op late breaks the guarantee and entering it in time does not: the invariant survives, and
      everything stays covered whichever reply comes next, if and only if the op is entered in time. */
  lemma InsertKeepsIff(s: State, r: Record, s': State, lo: nat, arcs: seq<DhtArc>)
    requires Invariant(s, lo, arcs) && Next(s, Insert(r), s', arcs)
    ensures Timely(s, r, lo, arcs) <==> Invariant(s', lo, arcs)
    ensures Timely(s, r, lo, arcs) <==>
            Covered(s', lo, arcs) && forall reply :: reply in s'.replies ==> Covered(Received(s', reply), lo, arcs)
  {
    if Timely(s, r, lo, arcs) {
      StepKeeps(s, Insert(r), s', lo, arcs);
      forall reply | reply in s'.replies
        ensures Covered(Received(s', reply), lo, arcs)
      {
        StepKeeps(s', Receive(reply), Received(s', reply), lo, arcs);
      }
    } else if !(lo <= r.storedAt < s.bookmark.value) {
      var reply :| reply in s.replies && reply.since <= r.storedAt < reply.bookmark;
      assert r !in reply.ops;
      assert !Truthful(reply, s'.log, arcs);
      assert r in Received(s', reply).log && r !in Received(s', reply).fetched;
      assert !Covered(Received(s', reply), lo, arcs);
    } else {
      assert r in s'.log && r !in s'.fetched;
      assert !Covered(s', lo, arcs);
    }
  }

  /** A run: states joined by events. */
  ghost predicate IsRun(states: seq<State>, events: seq<Event>, arcs: seq<DhtArc>) {
    && |states| == |events| + 1
    && forall i :: 0 <= i < |events| ==> Next(states[i], events[i], states[i + 1], arcs)
  }

  /** Before anything is sent, with a bookmark that is not in the future. */
  ghost predicate Start(s: State, lo: nat) {
    && s.bookmark == Some(lo) && lo <= s.clock && s.requests == {} && s.replies == {} && s.fetched == {}
    && s.pending !! s.log && forall r :: r in s.log || r in s.pending ==> r.storedAt <= s.clock
  }

  ghost predicate AllTimely(states: seq<State>, events: seq<Event>, lo: nat, arcs: seq<DhtArc>)
    requires |events| <= |states|
  {
    forall i :: 0 <= i < |events| && events[i].Insert? ==> Timely(states[i], events[i].record, lo, arcs)
  }

  /** Whatever is lost, repeated or reordered, at any time of any run whose ops are entered in time, every op
      that the peer stored between the initial and the current bookmark has been handed to fetch. */
  lemma {:induction false} NothingSkipped(states: seq<State>, events: seq<Event>, arcs: seq<DhtArc>, lo: nat)
    requires IsRun(states, events, arcs) && Start(states[0], lo) && AllTimely(states, events, lo, arcs)
    ensures Invariant(states[|events|], lo, arcs)
    decreases |events|
  {
    if events != [] {
      var n := |events| - 1;
      NothingSkipped(states[..n + 1], events[..n], arcs, lo);
      assert Next(states[n], events[n], states[n + 1], arcs);
      StepKeeps(states[n], events[n], states[n + 1], lo, arcs);
    }
  }

  // ---------------------------------------------------------------- where the guarantee ends

  /** The receiver is covered up to bookmark `b`, and a reply answers truthfully for its interval. */
  ghost predicate MayReceive(s: State, lo: nat, b: nat, reply: Reply, arcs: seq<DhtArc>) {
    Covered(s, lo, arcs) && s.bookmark == Some(b) && Truthful(reply, s.log, arcs)
  }

  /** Taking in truthful replies for an interval keeps everything covered, whatever the peer holds, if
      and only if the interval starts no later than the bookmark or does not move it. */
  lemma CoverageKeptIff(lo: nat, b: nat, since: nat, mark: nat, arcs: seq<DhtArc>, loc: U32)
    requires lo <= b && InArcs(Record(0, loc, b, 1), arcs)
    ensures (forall s: State, ops: set<Record> ::
               MayReceive(s, lo, b, Reply(since, ops, mark), arcs) ==>
                 Covered(Received(s, Reply(since, ops, mark)), lo, arcs)) <==>
            since <= b || mark <= b
  {
    if since > b && mark > b {
      var r := Record(0, loc, b, 1);
      var s, reply := State(b, {}, {r}, {}, {}, Some(b), {}), Reply(since, {}, mark);
      assert MayReceive(s, lo, b, reply, arcs);
      assert !Covered(Received(s, reply), lo, arcs) by {
        assert r in Received(s, reply).log && InArcs(r, arcs) && r !in Received(s, reply).fetched;
      }
    }
  }

  /** Without an initial bookmark every request asks from two units back, so a later request may be
      answered past ops that an earlier, cut-off answer left for next time: an op is skipped for good. */
  lemma FirstContactMaySkip(arcs: seq<DhtArc>, loc: U32) returns (states: seq<State>, events: seq<Event>, r: Record)
    requires InArcs(Record(0, loc, 1, 1), arcs)
    ensures IsRun(states, events, arcs) && states[0] == State(1, {}, {}, {}, {}, None, {})
    ensures var last := states[|events|];
            && r in last.log && InArcs(r, arcs) && r !in last.fetched && last.bookmark.Some?
            && exists reply :: reply in last.replies && reply.since <= r.storedAt < last.bookmark.value
  {
    r := Record(0, loc, 1, 1);
    var c := 2 * UNIT;
    var s0 := State(1, {}, {}, {}, {}, None, {});
    var s0' := s0.(pending := {r});
    var s1 := s0.(log := {r});
    var s2 := s1.(clock := c);
    var s3 := s2.(requests := {0});
    var s4 := s3.(clock := c + 10);
    var s5 := s4.(requests := {0, 10});
    var cut, full := Reply(0, {}, 1), Reply(10, {}, c + 10);
    var s6 := s5.(replies := {cut});
    var s7 := s6.(replies := {cut, full});
    var s8 := s7.(bookmark := Some(1));
    var s9 := s8.(bookmark := Some(c + 10));
    states := [s0, s0', s1, s2, s3, s4, s5, s6, s7, s8, s9];
    events := [Stamp(r), Insert(r), Wait(c), Request, Wait(c + 10), Request, Answer(0, 0, {}, 1),
               Answer(10, 0, {}, c + 10), Receive(cut), Receive(full)];
    assert Next(s0, events[0], s0', arcs);
    assert Next(s0', events[1], s1, arcs);
    assert Next(s2, events[3], s3, arcs);
    assert Next(s4, events[5], s5, arcs);
    NothingFits(r, arcs, 0, c + 10);
    NothingThere({r}, arcs, 10, 0, c + 10);
    assert Next(s5, events[6], s6, arcs);
    assert Next(s6, events[7], s7, arcs);
    assert Next(s7, events[8], s8, arcs);
    assert Next(s8, events[9], s9, arcs);
    assert cut in s9.replies && cut.since <= r.storedAt < c + 10;
  }

  /** Late entry does happen: an answer between stamping and entering goes past the op, which is skipped. */
  lemma LateEntryIsSkipped(arcs: seq<DhtArc>, loc: U32) returns (states: seq<State>, events: seq<Event>, r: Record)
    requires InArcs(Record(0, loc, 1, 1), arcs)
    ensures IsRun(states, events, arcs) && Start(states[0], 0) && !AllTimely(states, events, 0, arcs)
    ensures var last := states[|events|];
            && r in last.log && InArcs(r, arcs) && r !in last.fetched
            && last.bookmark.Some? && r.storedAt < last.bookmark.value
  {
    r := Record(0, loc, 1, 1);
    var s0 := State(1, {}, {}, {}, {}, Some(0), {});
    var s1 := s0.(pending := {r});
    var s2 := s1.(clock := 5);
    var s3 := s2.(requests := {0});
    var reply := Reply(0, {}, 5);
    var s4 := s3.(replies := {reply});
    var s5 := s4.(bookmark := Some(5));
    var s6 := s5.(pending := {}, log := {r});
    states := [s0, s1, s2, s3, s4, s5, s6];
    events := [Stamp(r), Wait(5), Request, Answer(0, 0, {}, 5), Receive(reply), Insert(r)];
    assert Next(s0, events[0], s1, arcs);
    assert Next(s2, events[2], s3, arcs);
    NothingThere({}, arcs, 0, 0, 5);
    assert Next(s3, events[3], s4, arcs);
    assert Next(s4, events[4], s5, arcs);
    assert Next(s5, events[5], s6, arcs);
    assert !Timely(states[5], events[5].record, 0, arcs);
  }

  /** The ops in the arcs stored at exactly one time. */
  ghost function GroupAt(log: set<Record>, arcs: seq<DhtArc>, t: nat): set<Record> {
    set r | r in log && InArcs(r, arcs) && r.storedAt == t
  }

  /** What an answer promises allows it to take the bookmark past a time if and only if that time has passed and
      its budget has room for all ops in the arcs stored at that time. That is about the promise: whether the
      answer that is given does so is what `MovesIff` says. */
  lemma PassableIff(log: set<Record>, arcs: seq<DhtArc>, t: nat, budget: nat, now: nat)
    ensures (exists ops, mark :: mark > t && Answers(log, arcs, t, budget, now, ops, mark)) <==>
            t < now && DataSize(GroupAt(log, arcs, t)) <= budget
  {
    var group := GroupAt(log, arcs, t);
    if ops, mark :| mark > t && Answers(log, arcs, t, budget, now, ops, mark) {
      DataSizeMonotone(group, ops);
    }
    if t < now && DataSize(group) <= budget {
      assert t + 1 > t && Answers(log, arcs, t, budget, now, group, t + 1);
    }
  }

  /** Nothing has gone past a time. */
  ghost predicate HeldAt(s: State, t: nat) {
    && s.bookmark.Some? && s.bookmark.value <= t
    && (forall since :: since in s.requests ==> since <= t)
    && (forall reply :: reply in s.replies ==> reply.bookmark <= t)
  }

  /** If the ops in the arcs stored at one time are together larger than the budget of every answer, the
      bookmark never gets past that time, in any run. */
  lemma {:induction false} GroupBlocks(states: seq<State>, events: seq<Event>, arcs: seq<DhtArc>, lo: nat, t: nat)
    requires IsRun(states, events, arcs) && Start(states[0], lo) && lo <= t
    requires forall i :: 0 <= i < |events| && events[i].Answer? ==>
               events[i].budget < DataSize(GroupAt(states[0].log, arcs, t))
    ensures HeldAt(states[|events|], t) && states[0].log <= states[|events|].log
    decreases |events|
  {
    if events != [] {
      var n := |events| - 1;
      var s, e := states[n], events[n];
      GroupBlocks(states[..n + 1], events[..n], arcs, lo, t);
      assert Next(s, e, states[n + 1], arcs);
      if e.Answer? {
        AnswersPromised(s.log, arcs, e.since, e.budget, s.clock, e.ops, e.mark);
      }
      if e.Answer? && e.mark > t {
        DataSizeMonotone(GroupAt(states[0].log, arcs, t), e.ops);
      }
    }
  }

  /** An op that alone is larger than the budget of every answer is moreover never handed to fetch. */
  lemma {:induction false} OversizedOpBlocks(states: seq<State>, events: seq<Event>, arcs: seq<DhtArc>, lo: nat,
                                             big: Record)
    requires IsRun(states, events, arcs) && Start(states[0], lo)
    requires big in states[0].log && InArcs(big, arcs) && lo <= big.storedAt
    requires forall i :: 0 <= i < |events| && events[i].Answer? ==> events[i].budget < big.size
    ensures HeldAt(states[|events|], big.storedAt) && NeverSent(states[|events|], big)
    decreases |events|
  {
    MemberSize(GroupAt(states[0].log, arcs, big.storedAt), big);
    GroupBlocks(states, events, arcs, lo, big.storedAt);
    if events != [] {
      var n := |events| - 1;
      OversizedOpBlocks(states[..n + 1], events[..n], arcs, lo, big);
      assert Next(states[n], events[n], states[n + 1], arcs);
      if events[n].Answer? && big in events[n].ops {
        var e := events[n];
        AnswersPromised(states[n].log, arcs, e.since, e.budget, states[n].clock, e.ops, e.mark);
        MemberSize(e.ops, big);
      }
    }
  }

  ghost predicate NeverSent(s: State, r: Record) {
    r !in s.fetched && forall reply :: reply in s.replies ==> r !in reply.ops
  }
}
