/** How many gossip rounds a peer may initiate: a sliding window of accepts per peer, with a clean-up that
    may run at any time (crates/gossip/src/burst.rs). Times are microseconds since the unix epoch. */
module AcceptBurst {
  type Url = string

  datatype Config = Config(intervalMs: nat, burstFactor: nat, windowCount: nat)

  function MaxBurst(c: Config): nat { c.burstFactor * c.windowCount }

  function Window(c: Config): nat { c.intervalMs * c.windowCount * 1000 }

  /** Accepts up to this time are forgotten. Close to the epoch it is the epoch itself. */
  function Threshold(c: Config, now: nat): nat {
    if now < Window(c) then 0 else now - Window(c)
  }

  /** The times in `(after, upTo]`, in order. */
  function Between(times: seq<nat>, after: int, upTo: int): seq<nat> {
    if times == [] then []
    else
      var n := |times| - 1;
      Between(times[..n], after, upTo) + if after < times[n] <= upTo then [times[n]] else []
  }

  /** The times after `threshold`, in order. */
  function Retain(times: seq<nat>, threshold: nat): (r: seq<nat>)
    ensures forall k :: 0 <= k < |r| ==> r[k] > threshold
  {
    if times == [] then []
    else
      var n := |times| - 1;
      Retain(times[..n], threshold) + if times[n] > threshold then [times[n]] else []
  }

  function At(state: map<Url, seq<nat>>, peer: Url): seq<nat> {
    if peer in state then state[peer] else []
  }

  class Tracker {
    const config: Config
    var state: map<Url, seq<nat>>

    constructor (config: Config)
      ensures this.config == config && state == map[]
    {
      this.config := config;
      state := map[];
    }

    /** `check_accept`: whether a peer may start a round; if so, the round is recorded under `timestamp`. */
    method CheckAccept(peer: Url, timestamp: nat, now: nat) returns (accepted: bool)
      modifies this
      ensures var length := config.intervalMs * config.windowCount * 1000;
              var recent := Retain(At(old(state), peer), if now < length then 0 else now - length);
              && (accepted <==> |recent| < config.burstFactor * config.windowCount)
              && state == old(state)[peer := if accepted then recent + [timestamp] else recent]
      ensures accepted <==> |Retain(At(old(state), peer), Threshold(config, now))| < MaxBurst(config)
      ensures var recent := Retain(At(old(state), peer), Threshold(config, now));
              state == old(state)[peer := if accepted then recent + [timestamp] else recent]
    {
      var entry := Retain(At(state, peer), Threshold(config, now));
      accepted := |entry| < MaxBurst(config);
      if accepted {
        entry := entry + [timestamp];
      }
      state := state[peer := entry];
    }

    /** `cleanup`: forgets old accepts, and peers without recent ones. Every list that stays is recent. */
    method Cleanup(now: nat)
      modifies this
      ensures forall p :: At(state, p) == Retain(At(old(state), p), Threshold(config, now))
      ensures forall p :: p in state ==> state[p] != []
    {
      var threshold := Threshold(config, now);
      state := map p | p in state && Retain(state[p], threshold) != [] :: Retain(state[p], threshold);
    }
  }

  // ---------------------------------------------------------------- the full history

  datatype Event = Check(peer: Url, timestamp: nat, now: nat) | CleanUp(now: nat)

  predicate Monotone(events: seq<Event>) {
    forall i, j :: 0 <= i < j < |events| ==> events[i].now <= events[j].now
  }

  /** Every accept is stamped with the current time. */
  predicate Stamped(events: seq<Event>) {
    forall i :: 0 <= i < |events| ==> events[i].CleanUp? || events[i].timestamp == events[i].now
  }

  /** The rule, on the times of all accepts there ever were. */
  predicate MayAccept(c: Config, history: seq<nat>, now: nat) {
    |Retain(history, Threshold(c, now))| < MaxBurst(c)
  }

  /** When a peer was accepted, if nothing is ever forgotten. Clean-ups do nothing. */
  function Accepted(c: Config, events: seq<Event>, peer: Url): seq<nat> {
    if events == [] then []
    else
      var n := |events| - 1;
      var history, e := Accepted(c, events[..n], peer), events[n];
      if e.Check? && e.peer == peer && MayAccept(c, history, e.now) then history + [e.timestamp] else history
  }

  /** The answers that the full history gives. */
  function Answers(c: Config, events: seq<Event>): seq<bool> {
    if events == [] then []
    else
      var n := |events| - 1;
      Answers(c, events[..n]) +
      if events[n].Check? then [MayAccept(c, Accepted(c, events[..n], events[n].peer), events[n].now)] else []
  }

  // ---------------------------------------------------------------- forgetting changes no answer

  lemma {:induction false} RetainTwice(times: seq<nat>, a: nat, b: nat)
    requires a <= b
    ensures Retain(Retain(times, a), b) == Retain(times, b)
  {
    if times != [] {
      var n := |times| - 1;
      RetainTwice(times[..n], a, b);
      var kept := Retain(times[..n], a);
      if times[n] > a {
        assert Retain(times, a) == kept + [times[n]];
        RetainPush(kept, times[n], b);
      } else {
        assert Retain(times, a) == kept;
      }
    }
  }

  lemma RetainPush(times: seq<nat>, t: nat, threshold: nat)
    ensures Retain(times + [t], threshold) == Retain(times, threshold) + if t > threshold then [t] else []
  {
    assert (times + [t])[..|times|] == times;
  }

  lemma BetweenPush(times: seq<nat>, t: nat, after: int, upTo: int)
    ensures Between(times + [t], after, upTo)
         == Between(times, after, upTo) + if after < t <= upTo then [t] else []
  {
    assert (times + [t])[..|times|] == times;
  }

  /** What is kept and what there ever was agree after the threshold. */
  predicate Agree(kept: seq<nat>, history: seq<nat>, threshold: nat) {
    Retain(kept, threshold) == Retain(history, threshold)
  }

  lemma AgreeLater(kept: seq<nat>, history: seq<nat>, a: nat, b: nat)
    requires a <= b && Agree(kept, history, a)
    ensures Agree(kept, history, b) && Agree(Retain(kept, b), history, b)
  {
    RetainTwice(kept, a, b);
    RetainTwice(history, a, b);
    RetainTwice(kept, b, b);
  }

  lemma AgreePush(kept: seq<nat>, history: seq<nat>, t: nat, threshold: nat)
    requires Agree(kept, history, threshold)
    ensures Agree(kept + [t], history + [t], threshold)
  {
    RetainPush(kept, t, threshold);
    RetainPush(history, t, threshold);
  }

  function LastThreshold(c: Config, events: seq<Event>): nat {
    if events == [] then 0 else Threshold(c, events[|events| - 1].now)
  }

  /** What a tracker holds after some events. */
  ghost predicate Mirrors(state: map<Url, seq<nat>>, c: Config, events: seq<Event>) {
    forall p :: Agree(At(state, p), Accepted(c, events, p), LastThreshold(c, events))
  }

  /** One event for one peer: old accepts are forgotten or not, and a permitted check is recorded. */
  predicate Follows(before: seq<nat>, after: seq<nat>, c: Config, e: Event, peer: Url) {
    var recent := Retain(before, Threshold(c, e.now));
    if e.Check? && e.peer == peer then
      after == if |recent| < MaxBurst(c) then recent + [e.timestamp] else recent
    else
      after == recent || after == before
  }

  lemma AcceptedPush(c: Config, events: seq<Event>, e: Event, peer: Url)
    ensures var history := Accepted(c, events, peer);
      Accepted(c, events + [e], peer) ==
      if e.Check? && e.peer == peer && MayAccept(c, history, e.now) then history + [e.timestamp] else history
  {
    assert (events + [e])[..|events|] == events;
  }

  lemma FollowsAgrees(before: seq<nat>, after: seq<nat>, c: Config, events: seq<Event>, e: Event, peer: Url)
    requires Agree(before, Accepted(c, events, peer), LastThreshold(c, events))
    requires LastThreshold(c, events) <= Threshold(c, e.now)
    requires Follows(before, after, c, e, peer)
    ensures Agree(after, Accepted(c, events + [e], peer), LastThreshold(c, events + [e]))
    ensures |Retain(before, Threshold(c, e.now))| < MaxBurst(c)
       <==> MayAccept(c, Accepted(c, events, peer), e.now)
  {
    var history, b := Accepted(c, events, peer), Threshold(c, e.now);
    AcceptedPush(c, events, e, peer);
    AgreeLater(before, history, LastThreshold(c, events), b);
    if e.Check? {
      AgreePush(Retain(before, b), history, e.timestamp, b);
    }
  }

  ghost predicate StateFollows(before: map<Url, seq<nat>>, after: map<Url, seq<nat>>, c: Config, e: Event) {
    forall p :: Follows(At(before, p), At(after, p), c, e, p)
  }

  lemma CheckFollows(before: map<Url, seq<nat>>, after: map<Url, seq<nat>>, c: Config, e: Event)
    requires e.Check?
    requires var recent := Retain(At(before, e.peer), Threshold(c, e.now));
      after == before[e.peer := if |recent| < MaxBurst(c) then recent + [e.timestamp] else recent]
    ensures StateFollows(before, after, c, e)
  {
    forall p
      ensures Follows(At(before, p), At(after, p), c, e, p)
    {
      if p != e.peer {
        assert At(after, p) == At(before, p);
      }
    }
  }

  lemma FollowsMirrors(before: map<Url, seq<nat>>, after: map<Url, seq<nat>>, c: Config,
                       events: seq<Event>, e: Event)
    requires Mirrors(before, c, events) && StateFollows(before, after, c, e)
    requires LastThreshold(c, events) <= Threshold(c, e.now)
    ensures Mirrors(after, c, events + [e])
  {
    forall p
      ensures Agree(At(after, p), Accepted(c, events + [e], p), LastThreshold(c, events + [e]))
    {
      FollowsAgrees(At(before, p), At(after, p), c, events, e, p);
    }
  }

  lemma AnswersPush(c: Config, events: seq<Event>, e: Event)
    ensures Answers(c, events + [e]) ==
      Answers(c, events) + if e.Check? then [MayAccept(c, Accepted(c, events, e.peer), e.now)] else []
  {
    assert (events + [e])[..|events|] == events;
  }

  /** A tracker that mirrors some events takes the next one, and answers a check as the full history does. */
  method Take(tracker: Tracker, ghost events: seq<Event>, e: Event) returns (answer: seq<bool>)
    requires Mirrors(tracker.state, tracker.config, events)
    requires LastThreshold(tracker.config, events) <= Threshold(tracker.config, e.now)
    modifies tracker
    ensures Mirrors(tracker.state, tracker.config, events + [e])
    ensures Answers(tracker.config, events) + answer == Answers(tracker.config, events + [e])
  {
    ghost var c, before := tracker.config, tracker.state;
    AnswersPush(c, events, e);
    match e {
      case Check(peer, timestamp, now) =>
        var accepted := tracker.CheckAccept(peer, timestamp, now);
        answer := [accepted];
        CheckFollows(before, tracker.state, c, e);
        FollowsAgrees(At(before, peer), At(tracker.state, peer), c, events, e, peer);
      case CleanUp(now) =>
        tracker.Cleanup(now);
        answer := [];
        assert StateFollows(before, tracker.state, c, e);
    }
    FollowsMirrors(before, tracker.state, c, events, e);
  }

  lemma ThresholdAdvances(c: Config, events: seq<Event>, i: nat)
    requires Monotone(events) && i < |events|
    ensures LastThreshold(c, events[..i]) <= Threshold(c, events[i].now)
  {
    if i > 0 {
      assert events[i - 1].now <= events[i].now;
    }
  }

  /** Under a clock that never goes back, a tracker answers as if it kept the full history, wherever
      clean-ups run and whatever the accepts are stamped with. */
  method Run(c: Config, events: seq<Event>) returns (answers: seq<bool>)
    requires Monotone(events)
    ensures answers == Answers(c, events)
  {
    var tracker := new Tracker(c);
    answers := [];
    for i := 0 to |events|
      invariant tracker.config == c && fresh(tracker)
      invariant Mirrors(tracker.state, c, events[..i])
      invariant answers == Answers(c, events[..i])
    {
      ghost var done := events[..i];
      assert events[..i + 1] == done + [events[i]];
      ThresholdAdvances(c, events, i);
      var answer := Take(tracker, done, events[i]);
      answers := answers + answer;
    }
    assert events[..|events|] == events;
  }

  function Checks(events: seq<Event>): seq<Event> {
    if events == [] then []
    else
      var n := |events| - 1;
      Checks(events[..n]) + if events[n].Check? then [events[n]] else []
  }

  /** Clean-ups can be left out of a run: the remaining events get the same answers. */
  lemma {:induction false} CleanupsChangeNothing(c: Config, events: seq<Event>)
    ensures Answers(c, events) == Answers(c, Checks(events))
    ensures forall p :: Accepted(c, events, p) == Accepted(c, Checks(events), p)
  {
    if events != [] {
      var n := |events| - 1;
      CleanupsChangeNothing(c, events[..n]);
      var checks := Checks(events[..n]);
      if events[n].Check? {
        assert Checks(events) == checks + [events[n]];
        AnswersPush(c, checks, events[n]);
        forall p
          ensures Accepted(c, events, p) == Accepted(c, Checks(events), p)
        {
          AcceptedPush(c, checks, events[n], p);
        }
      } else {
        assert Checks(events) == checks;
      }
    }
  }

  // ---------------------------------------------------------------- the limit

  /** A peer gets no more than the limit in the window of the configured length after `a`: as many times the
      factor, and as many intervals, as the window has initiations. */
  ghost predicate Limited(c: Config, events: seq<Event>, peer: Url, a: int) {
    |Between(Accepted(c, events, peer), a, a + c.intervalMs * c.windowCount * 1000)| <= c.burstFactor * c.windowCount
  }

  lemma {:induction false} BetweenIsRetained(times: seq<nat>, after: int, upTo: int, threshold: nat)
    requires threshold <= after
    ensures |Between(times, after, upTo)| <= |Retain(times, threshold)|
  {
    if times != [] {
      BetweenIsRetained(times[..|times| - 1], after, upTo, threshold);
    }
  }

  lemma {:induction false} AtMostMaxBurst(c: Config, events: seq<Event>, peer: Url, a: nat)
    requires Stamped(events)
    ensures Limited(c, events, peer, a)
  {
    if events != [] {
      var n := |events| - 1;
      var history, e := Accepted(c, events[..n], peer), events[n];
      AtMostMaxBurst(c, events[..n], peer, a);
      if e.Check? && e.peer == peer && MayAccept(c, history, e.now) {
        BetweenPush(history, e.now, a, a + Window(c));
        if a < e.now <= a + Window(c) {
          BetweenIsRetained(history, a, a + Window(c), Threshold(c, e.now));
        }
      }
    }
  }

  lemma {:induction false} NoneBeforeEpoch(times: seq<nat>, after: int, upTo: int)
    requires upTo < 0
    ensures Between(times, after, upTo) == []
  {
    if times != [] {
      NoneBeforeEpoch(times[..|times| - 1], after, upTo);
    }
  }

  /** A peer that only asks at the epoch itself, `n` times. */
  function AtEpoch(peer: Url, n: nat): seq<Event> { seq(n, i => Check(peer, 0, 0)) }

  /** At the epoch nothing is remembered, so every request is accepted. */
  lemma {:induction false} EpochUnlimited(c: Config, peer: Url, n: nat, a: int, upTo: int)
    requires MaxBurst(c) > 0 && a < 0 <= upTo
    ensures Retain(Accepted(c, AtEpoch(peer, n), peer), 0) == []
    ensures |Between(Accepted(c, AtEpoch(peer, n), peer), a, upTo)| == n
  {
    if n > 0 {
      EpochUnlimited(c, peer, n - 1, a, upTo);
      assert AtEpoch(peer, n)[..n - 1] == AtEpoch(peer, n - 1);
      var history := Accepted(c, AtEpoch(peer, n - 1), peer);
      assert Accepted(c, AtEpoch(peer, n), peer) == history + [0];
      RetainPush(history, 0, 0);
      BetweenPush(history, 0, a, upTo);
    }
  }

  /** The limit holds in a window for every run and peer exactly when the window does not hold the epoch
      itself, or nothing is ever accepted. */
  lemma LimitedIff(c: Config, a: int)
    ensures (forall events, p :: Stamped(events) && Monotone(events) ==> Limited(c, events, p, a))
       <==> a >= 0 || a + c.intervalMs * c.windowCount * 1000 < 0 || c.burstFactor * c.windowCount == 0
  {
    if a >= 0 {
      forall events, p | Stamped(events) && Monotone(events)
        ensures Limited(c, events, p, a)
      {
        AtMostMaxBurst(c, events, p, a);
      }
    } else if a + Window(c) < 0 {
      forall events, p | Stamped(events) && Monotone(events)
        ensures Limited(c, events, p, a)
      {
        NoneBeforeEpoch(Accepted(c, events, p), a, a + Window(c));
      }
    } else if MaxBurst(c) == 0 {
      forall events, p
        ensures Limited(c, events, p, a)
      {
        NothingAccepted(c, events, p);
      }
    } else {
      var n := MaxBurst(c) + 1;
      EpochUnlimited(c, "peer", n, a, a + Window(c));
      var events := AtEpoch("peer", n);
      assert Stamped(events) && Monotone(events) && !Limited(c, events, "peer", a);
    }
  }

  lemma {:induction false} NothingAccepted(c: Config, events: seq<Event>, peer: Url)
    requires MaxBurst(c) == 0
    ensures Accepted(c, events, peer) == []
  {
    if events != [] {
      NothingAccepted(c, events[..|events| - 1], peer);
    }
  }

  lemma {:induction false} NotFromTheFuture(c: Config, events: seq<Event>, peer: Url, now: nat)
    requires Stamped(events) && forall i :: 0 <= i < |events| ==> events[i].now <= now
    ensures forall k :: 0 <= k < |Accepted(c, events, peer)| ==> Accepted(c, events, peer)[k] <= now
  {
    if events != [] {
      NotFromTheFuture(c, events[..|events| - 1], peer, now);
    }
  }

  lemma {:induction false} RetainedIsBetween(times: seq<nat>, threshold: nat, now: nat)
    requires forall k :: 0 <= k < |times| ==> times[k] <= now
    ensures Retain(times, threshold) == Between(times, threshold, now)
  {
    if times != [] {
      RetainedIsBetween(times[..|times| - 1], threshold, now);
    }
  }

  /** With the default config: at most 15 accepts in ten minutes. */
  lemma DefaultLimit(events: seq<Event>, peer: Url, a: nat)
    requires Stamped(events)
    ensures |Between(Accepted(Config(120_000, 3, 5), events, peer), a, a + 600_000_000)| <= 15
  {
    AtMostMaxBurst(Config(120_000, 3, 5), events, peer, a);
  }

  /** Nobody is turned away early: a request is refused exactly when the window that ends now already
      holds the whole limit. */
  lemma RefusedIffFull(c: Config, events: seq<Event>, peer: Url, now: nat)
    requires Stamped(events) && now >= c.intervalMs * c.windowCount * 1000
    requires forall i :: 0 <= i < |events| ==> events[i].now <= now
    ensures var history := Accepted(c, events, peer);
            MayAccept(c, history, now) <==>
            |Between(history, now - c.intervalMs * c.windowCount * 1000, now)| != c.burstFactor * c.windowCount
  {
    var history := Accepted(c, events, peer);
    NotFromTheFuture(c, events, peer, now);
    RetainedIsBetween(history, Threshold(c, now), now);
    AtMostMaxBurst(c, events, peer, now - Window(c));
  }
}
