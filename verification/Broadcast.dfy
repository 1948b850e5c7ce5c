/** Admission to the broadcast feed: coalescing, then a per-agent window. */
module Broadcast {
  import opened Collections

  const RATE_LIMIT_EVENTS: nat := 60
  const RATE_LIMIT_WINDOW := 60.0
  const COALESCE_WINDOW := 10.0
  const PRUNE_THRESHOLD: nat := 4096

  type Agent = string

  /** What makes two announcements "the same event happening again". */
  datatype Key = Key(agent: Agent, eventType: string, identity: string)

  datatype Decision = Admitted | Coalesced | RateLimited

  datatype Limiter = Limiter(
    windowStart: map<Agent, real>,
    windowCount: map<Agent, nat>,
    seen: map<Key, real>,
    dropped: map<Agent, nat>)

  datatype Outcome = Outcome(limiter: Limiter, decision: Decision)

  function Tally(m: map<Agent, nat>, agent: Agent): nat {
    if agent in m then m[agent] else 0
  }

  function Drop(l: Limiter, agent: Agent): Limiter {
    l.(dropped := l.dropped[agent := Tally(l.dropped, agent) + 1])
  }

  function OpenWindow(l: Limiter, agent: Agent, now: real): Limiter {
    if agent !in l.windowStart || now - l.windowStart[agent] >= RATE_LIMIT_WINDOW
    then l.(windowStart := l.windowStart[agent := now], windowCount := l.windowCount[agent := 0])
    else l
  }

  /** The dedupe map without what no later announcement can coalesce with. */
  function Pruned(seen: map<Key, real>, now: real): map<Key, real> {
    if |seen| < PRUNE_THRESHOLD then seen
    else map k | k in seen && !(seen[k] < now - COALESCE_WINDOW) :: seen[k]
  }

  /** One announcement; without `forgetting` the dedupe map is never pruned. */
  function Admit(l: Limiter, key: Key, now: real, forgetting: bool): Outcome {
    if key in l.seen && now - l.seen[key] < COALESCE_WINDOW then Outcome(Drop(l, key.agent), Coalesced)
    else
      var w := OpenWindow(l, key.agent, now);
      if Tally(w.windowCount, key.agent) >= RATE_LIMIT_EVENTS then Outcome(Drop(w, key.agent), RateLimited)
      else
        Outcome(Booked(w, key, now, forgetting), Admitted)
  }

  /** The announcement counted and remembered. */
  function Booked(w: Limiter, key: Key, now: real, forgetting: bool): Limiter {
    var seen := w.seen[key := now];
    w.(windowCount := w.windowCount[key.agent := Tally(w.windowCount, key.agent) + 1],
       seen := if forgetting then Pruned(seen, now) else seen)
  }

  class BroadcastService {
    var windowStart: map<Agent, real>
    var windowCount: map<Agent, nat>
    var coalesceSeen: map<Key, real>
    var dropped: map<Agent, nat>
    /** Every announcement this service has been asked about. */
    ghost var calls: seq<Call>

    /** The fields are what the announcements so far have left. */
    ghost predicate Valid()
      reads this
    {
      State() == After(calls, true)
    }

    function State(): Limiter
      reads this
    {
      Limiter(windowStart, windowCount, coalesceSeen, dropped)
    }

    constructor ()
      ensures Valid() && calls == []
    {
      windowStart, windowCount, coalesceSeen, dropped := map[], map[], map[], map[];
      calls := [];
    }

    /** One announcement, booked. */
    method TryAdmit(key: Key, now: real) returns (accepted: bool, reason: string)
      requires Valid()
      modifies this
      ensures Valid() && calls == old(calls) + [Call(key, now)]
      ensures var o := Admit(old(State()), key, now, true);
        && State() == o.limiter
        && (accepted <==> o.decision.Admitted?)
        && (accepted ==> reason == "")
        && (o.decision.Coalesced? ==> reason == "coalesced")
        && (o.decision.RateLimited? ==> reason == "rate_limited")
    {
      hide Admit, After;
      accepted, reason := Decide(key, now);
      AfterSnoc(calls, Call(key, now));
      calls := calls + [Call(key, now)];
    }

    /** The decision, and what it leaves in the fields. */
    method Decide(key: Key, now: real) returns (accepted: bool, reason: string)
      modifies this`windowStart, this`windowCount, this`coalesceSeen, this`dropped
      ensures var o := Admit(old(State()), key, now, true);
        && State() == o.limiter
        && (accepted <==> o.decision.Admitted?)
        && (accepted ==> reason == "")
        && (o.decision.Coalesced? ==> reason == "coalesced")
        && (o.decision.RateLimited? ==> reason == "rate_limited")
    {
      hide Pruned;
      var agent := key.agent;
      if key in coalesceSeen && now - coalesceSeen[key] < COALESCE_WINDOW {
        dropped := dropped[agent := Tally(dropped, agent) + 1];
        return false, "coalesced";
      }
      if agent !in windowStart || now - windowStart[agent] >= RATE_LIMIT_WINDOW {
        windowStart := windowStart[agent := now];
        windowCount := windowCount[agent := 0];
      }
      if Tally(windowCount, agent) >= RATE_LIMIT_EVENTS {
        dropped := dropped[agent := Tally(dropped, agent) + 1];
        return false, "rate_limited";
      }
      windowCount := windowCount[agent := Tally(windowCount, agent) + 1];
      coalesceSeen := coalesceSeen[key := now];
      PruneCoalesceState(now);
      return true, "";
    }

    method PruneCoalesceState(now: real)
      modifies this`coalesceSeen
      ensures coalesceSeen == Pruned(old(coalesceSeen), now)
    {
      if |coalesceSeen| < PRUNE_THRESHOLD {
        return;
      }
      var cutoff := now - COALESCE_WINDOW;
      var stale := set k | k in coalesceSeen && coalesceSeen[k] < cutoff;
      while stale != {}
        invariant stale == set k | k in coalesceSeen && coalesceSeen[k] < cutoff
        invariant Survivors(coalesceSeen, cutoff) == Survivors(old(coalesceSeen), cutoff)
        decreases stale
      {
        var key :| key in stale;
        coalesceSeen := coalesceSeen - {key};
        stale := stale - {key};
      }
      assert forall k :: k in coalesceSeen ==> k !in stale;
      assert coalesceSeen == Survivors(coalesceSeen, cutoff);
    }

    /** The number of the agent's announcements that were refused, each time it asked. */
    method SuppressedCount(agent: Agent) returns (n: nat)
      requires Valid()
      ensures n == Refusals(calls, agent)
      ensures n + AdmittedCount(Log(calls), agent) == Attempts(calls, agent)
    {
      DroppedAreRefusals(calls, agent);
      Conservation(calls, agent);
      n := Tally(dropped, agent);
    }
  }

  lemma {:induction false} AdmitUnfolds(l: Limiter, key: Key, now: real, forgetting: bool)
    ensures key in l.seen && now - l.seen[key] < COALESCE_WINDOW ==>
      Admit(l, key, now, forgetting) == Outcome(Drop(l, key.agent), Coalesced)
    ensures !(key in l.seen && now - l.seen[key] < COALESCE_WINDOW) ==>
      var w := OpenWindow(l, key.agent, now);
      && (Tally(w.windowCount, key.agent) >= RATE_LIMIT_EVENTS ==>
          Admit(l, key, now, forgetting) == Outcome(Drop(w, key.agent), RateLimited))
      && (Tally(w.windowCount, key.agent) < RATE_LIMIT_EVENTS ==>
          Admit(l, key, now, forgetting) == Outcome(Booked(w, key, now, forgetting), Admitted))
  {
    hide Pruned, OpenWindow, Drop;
  }

  lemma {:induction false} AfterSnoc(calls: seq<Call>, call: Call)
    ensures After(calls + [call], true) == Admit(After(calls, true), call.key, call.now, true).limiter
  {
    hide Admit;
    assert (calls + [call])[..|calls|] == calls;
  }

  function Survivors(seen: map<Key, real>, cutoff: real): map<Key, real> {
    map k | k in seen && !(seen[k] < cutoff) :: seen[k]
  }

  // ----- runs -----

  datatype Call = Call(key: Key, now: real)

  /** The clock is monotonic, but it is read before the lock is taken: a stamp
      may be behind that of a call already booked, here by `lag` at most. */
  predicate Lagging(calls: seq<Call>, lag: real) {
    forall i, j :: 0 <= i < j < |calls| ==> calls[i].now - lag <= calls[j].now
  }

  /** Calls take the lock in the order in which they read the clock. */
  predicate Ordered(calls: seq<Call>) {
    Lagging(calls, 0.0)
  }

  function After(calls: seq<Call>, forgetting: bool): Limiter
    decreases |calls|, 1
  {
    if calls == [] then Limiter(map[], map[], map[], map[])
    else Last(calls, forgetting).limiter
  }

  /** What the last call of a run got. */
  function Last(calls: seq<Call>, forgetting: bool): Outcome
    requires calls != []
    decreases |calls|, 0
  {
    var n := |calls| - 1;
    Admit(After(calls[..n], forgetting), calls[n].key, calls[n].now, forgetting)
  }

  /** An admitted announcement and the window it was counted in. */
  datatype Admission = Admission(key: Key, time: real, window: real)

  function Entry(o: Outcome, key: Key, now: real): seq<Admission> {
    if o.decision.Admitted? && key.agent in o.limiter.windowStart
    then [Admission(key, now, o.limiter.windowStart[key.agent])] else []
  }

  function Log(calls: seq<Call>): seq<Admission> {
    if calls == [] then []
    else
      var n := |calls| - 1;
      Log(calls[..n]) + Entry(Last(calls, true), calls[n].key, calls[n].now)
  }

  predicate Falls(e: Admission, agent: Agent, from: real, to: real) {
    e.key.agent == agent && from <= e.time < to
  }

  function InWindow(log: seq<Admission>, agent: Agent, window: real): nat {
    if log == [] then 0
    else
      var n := |log| - 1;
      InWindow(log[..n], agent, window) + if log[n].key.agent == agent && log[n].window == window then 1 else 0
  }

  /** How many announcements of the agent were admitted in [from, to). */
  function Between(log: seq<Admission>, agent: Agent, from: real, to: real): nat {
    if log == [] then 0
    else
      var n := |log| - 1;
      Between(log[..n], agent, from, to) + if Falls(log[n], agent, from, to) then 1 else 0
  }

  predicate Apart(v: real, w: real) {
    v == w || v - w >= RATE_LIMIT_WINDOW || w - v >= RATE_LIMIT_WINDOW
  }

  ghost predicate WindowsApart(log: seq<Admission>) {
    forall i, j :: 0 <= i < |log| && 0 <= j < |log| && log[i].key.agent == log[j].key.agent ==>
      Apart(log[i].window, log[j].window)
  }

  /** An admission lies before the end of its window, and its window is the
      agent's current one or an earlier one. */
  predicate Dated(l: Limiter, e: Admission) {
    && e.time < e.window + RATE_LIMIT_WINDOW
    && e.key.agent in l.windowStart
    && var current := l.windowStart[e.key.agent];
    e.window <= current && Apart(e.window, current)
  }

  ghost predicate Windowed(l: Limiter, log: seq<Admission>) {
    && (forall i :: 0 <= i < |log| ==> Dated(l, log[i]))
    && (forall a :: a in l.windowStart ==> InWindow(log, a, l.windowStart[a]) == Tally(l.windowCount, a))
    && (forall a, w :: InWindow(log, a, w) <= RATE_LIMIT_EVENTS)
    && WindowsApart(log)
  }

  lemma {:induction false} NoneInWindow(log: seq<Admission>, agent: Agent, window: real)
    requires forall i :: 0 <= i < |log| && log[i].key.agent == agent ==> log[i].window != window
    ensures InWindow(log, agent, window) == 0
  {
    if log != [] {
      NoneInWindow(log[..|log| - 1], agent, window);
    }
  }

  lemma {:induction false} OpeningKeepsWindows(l: Limiter, log: seq<Admission>, agent: Agent, now: real)
    requires Windowed(l, log)
    ensures var w := OpenWindow(l, agent, now);
      Windowed(w, log) && agent in w.windowStart && now < w.windowStart[agent] + RATE_LIMIT_WINDOW
  {
    hide InWindow;
    var w := OpenWindow(l, agent, now);
    if w != l {
      assert forall i :: 0 <= i < |log| ==> Dated(l, log[i]);
      NoneInWindow(log, agent, now);
    }
  }

  lemma {:induction false} AdmittingKeepsWindows(l: Limiter, log: seq<Admission>, l': Limiter, e: Admission)
    requires Windowed(l, log)
    requires e.key.agent in l.windowStart && e.window == l.windowStart[e.key.agent]
    requires e.time < e.window + RATE_LIMIT_WINDOW
    requires Tally(l.windowCount, e.key.agent) < RATE_LIMIT_EVENTS
    requires l'.windowStart == l.windowStart
    requires l'.windowCount == l.windowCount[e.key.agent := Tally(l.windowCount, e.key.agent) + 1]
    ensures Windowed(l', log + [e])
  {
    hide InWindow;
    var log' := log + [e];
    forall a, w
      ensures InWindow(log', a, w) == InWindow(log, a, w) + if e.key.agent == a && e.window == w then 1 else 0
    {
      Counted(log, e, a, w);
    }
    forall i | 0 <= i < |log'|
      ensures Dated(l', log'[i])
    {
      assert i < |log| ==> Dated(l, log[i]);
    }
  }

  lemma {:induction false} Counted(log: seq<Admission>, e: Admission, a: Agent, w: real)
    ensures InWindow(log + [e], a, w) == InWindow(log, a, w) + if e.key.agent == a && e.window == w then 1 else 0
  {
    assert (log + [e])[..|log|] == log;
  }

  lemma {:induction false} CallKeepsWindows(l: Limiter, log: seq<Admission>, key: Key, now: real)
    requires Windowed(l, log)
    ensures var o := Admit(l, key, now, true); Windowed(o.limiter, log + Entry(o, key, now))
  {
    hide Pruned, Windowed, InWindow;
    var w := OpenWindow(l, key.agent, now);
    OpeningKeepsWindows(l, log, key.agent, now);
    var o := Admit(l, key, now, true);
    if o.decision.Admitted? {
      AdmittingKeepsWindows(w, log, o.limiter, Admission(key, now, w.windowStart[key.agent]));
    } else {
      assert log + Entry(o, key, now) == log;
      DroppingKeepsWindows(l, log, key.agent);
      DroppingKeepsWindows(w, log, key.agent);
    }
  }

  lemma {:induction false} DroppingKeepsWindows(l: Limiter, log: seq<Admission>, agent: Agent)
    requires Windowed(l, log)
    ensures Windowed(Drop(l, agent), log)
  {
  }

  lemma {:induction false} RunIsWindowed(calls: seq<Call>)
    ensures Windowed(After(calls, true), Log(calls))
  {
    hide Admit, Windowed;
    hide InWindow;
    if calls == [] {
      EmptyIsWindowed();
    } else {
      var n := |calls| - 1;
      RunIsWindowed(calls[..n]);
      CallKeepsWindows(After(calls[..n], true), Log(calls[..n]), calls[n].key, calls[n].now);
    }
  }

  lemma {:induction false} EmptyIsWindowed()
    ensures Windowed(Limiter(map[], map[], map[], map[]), [])
  {
  }

  /** At most 60 announcements of one agent are admitted in each window, in
      whatever order their stamps come. */
  lemma {:induction false} FixedWindowBound(calls: seq<Call>, agent: Agent, window: real)
    ensures InWindow(Log(calls), agent, window) <= RATE_LIMIT_EVENTS
  {
    hide After, Log;
    RunIsWindowed(calls);
  }

  // ----- the first announcement of a window -----

  ghost predicate Opened(log: seq<Admission>, agent: Agent, window: real) {
    exists i :: 0 <= i < |log| && log[i].key.agent == agent && log[i].window == window && log[i].time == window
  }

  /** Each window was opened by an announcement that was admitted. */
  ghost predicate Openers(l: Limiter, log: seq<Admission>) {
    && (forall a :: a in l.windowStart ==> Opened(log, a, l.windowStart[a]))
    && (forall i :: 0 <= i < |log| ==> Opened(log, log[i].key.agent, log[i].window))
  }

  lemma {:induction false} StillOpened(log: seq<Admission>, more: seq<Admission>, agent: Agent, window: real)
    requires Opened(log, agent, window)
    ensures Opened(log + more, agent, window)
  {
    var i :| 0 <= i < |log| && log[i].key.agent == agent && log[i].window == window && log[i].time == window;
    assert (log + more)[i] == log[i];
  }

  lemma {:induction false} CallKeepsOpeners(l: Limiter, log: seq<Admission>, key: Key, now: real)
    requires Openers(l, log)
    ensures var o := Admit(l, key, now, true); Openers(o.limiter, log + Entry(o, key, now))
  {
    hide Pruned, Opened;
    var o := Admit(l, key, now, true);
    var more := Entry(o, key, now);
    if o.decision.Admitted? && o.limiter.windowStart != l.windowStart {
      OpenedNow(log, more[0]);
    }
    forall a | a in o.limiter.windowStart
      ensures Opened(log + more, a, o.limiter.windowStart[a])
    {
      if a in l.windowStart && o.limiter.windowStart[a] == l.windowStart[a] {
        StillOpened(log, more, a, l.windowStart[a]);
      }
    }
    forall i | 0 <= i < |log + more|
      ensures Opened(log + more, (log + more)[i].key.agent, (log + more)[i].window)
    {
      if i < |log| {
        StillOpened(log, more, log[i].key.agent, log[i].window);
      }
    }
  }

  lemma {:induction false} OpenedNow(log: seq<Admission>, e: Admission)
    requires e.time == e.window
    ensures Opened(log + [e], e.key.agent, e.window)
  {
    assert (log + [e])[|log|] == e;
  }

  lemma {:induction false} RunHasOpeners(calls: seq<Call>)
    ensures Openers(After(calls, true), Log(calls))
  {
    hide Admit, Opened;
    if calls != [] {
      var n := |calls| - 1;
      RunHasOpeners(calls[..n]);
      CallKeepsOpeners(After(calls[..n], true), Log(calls[..n]), calls[n].key, calls[n].now);
    }
  }

  ghost predicate Stamped(calls: seq<Call>, now: real) {
    exists i :: 0 <= i < |calls| && calls[i].now == now
  }

  lemma {:induction false} WindowsAreStamps(calls: seq<Call>, agent: Agent)
    requires agent in After(calls, true).windowStart
    ensures Stamped(calls, After(calls, true).windowStart[agent])
  {
    var n := |calls| - 1;
    var before := After(calls[..n], true);
    var start := After(calls, true).windowStart[agent];
    assert calls[n].now == start || (agent in before.windowStart && before.windowStart[agent] == start);
    if calls[n].now != start {
      WindowsAreStamps(calls[..n], agent);
      var i :| 0 <= i < n && calls[..n][i].now == start;
      assert calls[i].now == start;
    }
  }

  lemma {:induction false} AdmissionsLag(calls: seq<Call>, lag: real)
    requires Lagging(calls, lag) && lag >= 0.0
    ensures forall i :: 0 <= i < |Log(calls)| ==> Log(calls)[i].window - lag <= Log(calls)[i].time
  {
    hide Admit;
    if calls != [] {
      var n := |calls| - 1;
      AdmissionsLag(calls[..n], lag);
      var agent := calls[n].key.agent;
      if agent in After(calls, true).windowStart {
        WindowsAreStamps(calls, agent);
        assert After(calls, true).windowStart[agent] - lag <= calls[n].now;
      }
    }
  }

  // ----- any minute -----

  /** How many of the agent's announcements admitted in the minute that begins
      at `from` were counted in windows that began after `low` and by `high`. */
  function Within(log: seq<Admission>, agent: Agent, from: real, low: real, high: real): nat {
    if log == [] then 0
    else
      var n := |log| - 1;
      Within(log[..n], agent, from, low, high) +
      if Falls(log[n], agent, from, from + RATE_LIMIT_WINDOW) && low < log[n].window <= high then 1 else 0
  }

  lemma {:induction false} WithinSplits(
    log: seq<Admission>, agent: Agent, from: real, low: real, mid: real, high: real)
    requires low <= mid <= high
    ensures Within(log, agent, from, low, high) ==
      Within(log, agent, from, low, mid) + Within(log, agent, from, mid, high)
  {
    if log != [] {
      WithinSplits(log[..|log| - 1], agent, from, low, mid, high);
    }
  }

  lemma {:induction false} BetweenIsWithin(log: seq<Admission>, agent: Agent, from: real, low: real, high: real)
    requires forall i :: 0 <= i < |log| && Falls(log[i], agent, from, from + RATE_LIMIT_WINDOW) ==>
      low < log[i].window <= high
    ensures Between(log, agent, from, from + RATE_LIMIT_WINDOW) == Within(log, agent, from, low, high)
  {
    if log != [] {
      var n := |log| - 1;
      assert forall i :: 0 <= i < n ==> log[..n][i] == log[i];
      BetweenIsWithin(log[..n], agent, from, low, high);
    }
  }

  lemma {:induction false} NoneWithin(log: seq<Admission>, agent: Agent, from: real, low: real, high: real)
    requires forall i :: 0 <= i < |log| && Falls(log[i], agent, from, from + RATE_LIMIT_WINDOW) ==>
      !(low < log[i].window <= high)
    ensures Within(log, agent, from, low, high) == 0
  {
    if log != [] {
      NoneWithin(log[..|log| - 1], agent, from, low, high);
    }
  }

  /** If one window is all there is, its count bounds the admissions; one that
      lies outside the minute (at `out`, if not negative) makes a difference. */
  lemma {:induction false} WithinOne(
    log: seq<Admission>, agent: Agent, from: real, low: real, high: real, window: real, out: int)
    requires forall i :: 0 <= i < |log| && Falls(log[i], agent, from, from + RATE_LIMIT_WINDOW) ==>
      low < log[i].window <= high ==> log[i].window == window
    requires 0 <= out ==>
      && out < |log| && log[out].key.agent == agent && log[out].window == window
      && !Falls(log[out], agent, from, from + RATE_LIMIT_WINDOW)
    ensures Within(log, agent, from, low, high) + (if 0 <= out then 1 else 0) <= InWindow(log, agent, window)
  {
    if log != [] {
      var n := |log| - 1;
      WithinOne(log[..n], agent, from, low, high, window, if out == n then -1 else out);
    }
  }

  /** What the sliding bound needs of a log. */
  ghost predicate Kept(log: seq<Admission>) {
    && WindowsApart(log)
    && (forall a, w :: InWindow(log, a, w) <= RATE_LIMIT_EVENTS)
    && (forall i :: 0 <= i < |log| ==> Opened(log, log[i].key.agent, log[i].window))
  }

  ghost predicate Used(log: seq<Admission>, agent: Agent, window: real) {
    exists i :: 0 <= i < |log| && log[i].key.agent == agent && log[i].window == window
  }

  /** Of the windows beginning in one minute there is one at most; and if its
      first announcement is outside the minute looked at, 59 are left. */
  lemma {:induction false} OneBucket(log: seq<Admission>, agent: Agent, from: real, low: real)
    returns (window: real)
    requires Kept(log)
    ensures var n := Within(log, agent, from, low, low + RATE_LIMIT_WINDOW);
      n == 0 || (
        && Used(log, agent, window) && low < window <= low + RATE_LIMIT_WINDOW
        && n <= if from <= window < from + RATE_LIMIT_WINDOW then RATE_LIMIT_EVENTS else RATE_LIMIT_EVENTS - 1)
  {
    hide InWindow, Within;
    var high := low + RATE_LIMIT_WINDOW;
    window := 0.0;
    if i :| 0 <= i < |log| && Falls(log[i], agent, from, from + RATE_LIMIT_WINDOW) && low < log[i].window <= high {
      window := log[i].window;
      var out: int := -1;
      if !(from <= window < from + RATE_LIMIT_WINDOW) {
        assert Opened(log, agent, window);
        out :| 0 <= out < |log| && log[out].key.agent == agent && log[out].window == window && log[out].time == window;
      }
      WithinOne(log, agent, from, low, high, window, out);
    } else {
      NoneWithin(log, agent, from, low, high);
    }
  }

  /** The windows beginning in the minute before and in the minute itself. */
  lemma {:induction false} TwoBuckets(log: seq<Admission>, agent: Agent, from: real)
    requires Kept(log)
    ensures Within(log, agent, from, from - RATE_LIMIT_WINDOW, from + RATE_LIMIT_WINDOW) <= 2 * RATE_LIMIT_EVENTS - 1
  {
    hide InWindow, Within;
    var v := OneBucket(log, agent, from, from - RATE_LIMIT_WINDOW);
    var w := OneBucket(log, agent, from, from);
    WithinSplits(log, agent, from, from - RATE_LIMIT_WINDOW, from, from + RATE_LIMIT_WINDOW);
    if Used(log, agent, v) && Used(log, agent, w) {
      assert Apart(v, w);
    }
  }

  lemma {:induction false} ManyBuckets(log: seq<Admission>, agent: Agent, from: real, k: nat)
    requires Kept(log)
    ensures Within(log, agent, from, from - RATE_LIMIT_WINDOW, from + RATE_LIMIT_WINDOW + Minutes(k)) <=
      SlidingLimit(k)
  {
    hide InWindow, Within, Kept;
    if k == 0 {
      TwoBuckets(log, agent, from);
    } else {
      ManyBuckets(log, agent, from, k - 1);
      var low := from + RATE_LIMIT_WINDOW + Minutes(k - 1);
      var w := OneBucket(log, agent, from, low);
      WithinSplits(log, agent, from, from - RATE_LIMIT_WINDOW, low, low + RATE_LIMIT_WINDOW);
    }
  }

  function Minutes(k: nat): real {
    RATE_LIMIT_WINDOW * k as real
  }

  function SlidingLimit(k: nat): nat {
    2 * RATE_LIMIT_EVENTS - 1 + k * (RATE_LIMIT_EVENTS - 1)
  }

  /** In any half-open minute, wherever it begins, at most 119 announcements of
      one agent are admitted, and 59 more for each minute of lag. */
  lemma {:induction false} SlidingWindowBound(calls: seq<Call>, lag: real, k: nat, agent: Agent, from: real)
    requires Lagging(calls, lag) && 0.0 <= lag <= Minutes(k)
    ensures Between(Log(calls), agent, from, from + RATE_LIMIT_WINDOW) <= SlidingLimit(k)
  {
    hide After, Log, InWindow, Within, Opened;
    var log := Log(calls);
    RunIsWindowed(calls);
    RunHasOpeners(calls);
    AdmissionsLag(calls, lag);
    assert forall i :: 0 <= i < |log| ==> Dated(After(calls, true), log[i]);
    BetweenIsWithin(log, agent, from, from - RATE_LIMIT_WINDOW, from + RATE_LIMIT_WINDOW + Minutes(k));
    ManyBuckets(log, agent, from, k);
  }

  // ----- a run that reaches the bound -----

  function Repeated(n: nat): (s: string)
    ensures |s| == n
  {
    seq(n, _ => 'x')
  }

  /** The first announcement of each window is stamped as it begins; the others
      of the first window at 30.0, and those of the third and later at 89.0. */
  function BurstCall(i: nat): Call {
    var window, place := i / RATE_LIMIT_EVENTS, i % RATE_LIMIT_EVENTS;
    Call(Key("a", "e", Repeated(i)),
         if place == 0 then Minutes(window) else if window == 0 then 30.0 else if window == 1 then 60.0 else 89.0)
  }

  function Burst(n: nat): (s: seq<Call>)
    ensures |s| == n && forall i :: 0 <= i < n ==> s[i] == BurstCall(i)
  {
    seq(n, i requires 0 <= i => BurstCall(i))
  }

  ghost predicate Bursting(l: Limiter, n: nat) {
    && (forall k :: k in l.seen ==> |k.identity| < n)
    && (n > 0 ==>
      && "a" in l.windowStart && l.windowStart["a"] == Minutes((n - 1) / RATE_LIMIT_EVENTS)
      && Tally(l.windowCount, "a") == (n - 1) % RATE_LIMIT_EVENTS + 1)
  }

  lemma {:induction false} BurstStep(l: Limiter, n: nat)
    requires n == 0 ==> l == Limiter(map[], map[], map[], map[])
    requires Bursting(l, n)
    ensures var c := BurstCall(n); var o := Admit(l, c.key, c.now, true);
      o.decision.Admitted? && Bursting(o.limiter, n + 1)
  {
    hide Pruned, Repeated;
    var c := BurstCall(n);
    var w := OpenWindow(l, "a", c.now);
    assert c.key !in l.seen;
    BurstOpens(l, n);
    AdmitUnfolds(l, c.key, c.now, true);
    var seen := w.seen[c.key := c.now];
    PrunedForgetsOld(seen, c.now);
  }

  lemma {:induction false} BurstOpens(l: Limiter, n: nat)
    requires n == 0 ==> l == Limiter(map[], map[], map[], map[])
    requires Bursting(l, n)
    ensures var w := OpenWindow(l, "a", BurstCall(n).now);
      && w.seen == l.seen
      && "a" in w.windowStart && w.windowStart["a"] == Minutes(n / RATE_LIMIT_EVENTS)
      && Tally(w.windowCount, "a") == n % RATE_LIMIT_EVENTS
  {
    hide Repeated;
    if n > 0 && n % RATE_LIMIT_EVENTS == 0 {
      assert n / RATE_LIMIT_EVENTS == (n - 1) / RATE_LIMIT_EVENTS + 1;
    } else if n > 0 {
      assert n / RATE_LIMIT_EVENTS == (n - 1) / RATE_LIMIT_EVENTS;
      assert n % RATE_LIMIT_EVENTS == (n - 1) % RATE_LIMIT_EVENTS + 1;
    }
  }

  /** All but the first announcement of each window other than the second. */
  function BurstReach(n: nat): int {
    n - (n + RATE_LIMIT_EVENTS - 1) / RATE_LIMIT_EVENTS + if n > RATE_LIMIT_EVENTS then 1 else 0
  }

  lemma {:induction false} BurstFalls(n: nat)
    ensures BurstReach(n + 1) ==
      BurstReach(n) + if 30.0 <= BurstCall(n).now < 30.0 + RATE_LIMIT_WINDOW then 1 else 0
  {
    hide Repeated;
    var window, place := n / RATE_LIMIT_EVENTS, n % RATE_LIMIT_EVENTS;
    assert n == window * 60 + place;
  }

  lemma {:induction false} LogSnoc(calls: seq<Call>, call: Call)
    ensures Log(calls + [call]) ==
      Log(calls) + Entry(Admit(After(calls, true), call.key, call.now, true), call.key, call.now)
  {
    hide Admit;
    assert (calls + [call])[..|calls|] == calls;
  }

  lemma {:induction false} BurstState(n: nat)
    ensures Bursting(After(Burst(n), true), n)
    ensures n == 0 ==> After(Burst(n), true) == Limiter(map[], map[], map[], map[])
  {
    hide Admit, BurstCall;
    if n > 0 {
      BurstState(n - 1);
      assert Burst(n) == Burst(n - 1) + [BurstCall(n - 1)];
      AfterSnoc(Burst(n - 1), BurstCall(n - 1));
      BurstStep(After(Burst(n - 1), true), n - 1);
    }
  }

  lemma {:induction false} BurstEntry(l: Limiter, n: nat)
    requires n == 0 ==> l == Limiter(map[], map[], map[], map[])
    requires Bursting(l, n)
    ensures var c := BurstCall(n); var more := Entry(Admit(l, c.key, c.now, true), c.key, c.now);
      |more| == 1 && more[0].key == c.key && more[0].time == c.now && c.key.agent == "a"
  {
    hide Admit;
    BurstStep(l, n);
  }

  lemma {:induction false} BurstRun(n: nat)
    ensures Between(Log(Burst(n)), "a", 30.0, 30.0 + RATE_LIMIT_WINDOW) == BurstReach(n)
  {
    hide Admit, BurstCall, Bursting, After, Entry, Log, BurstReach;
    if n == 0 {
      BurstStarts();
    } else {
      BurstRun(n - 1);
      var c, before, log := BurstCall(n - 1), After(Burst(n - 1), true), Log(Burst(n - 1));
      assert Burst(n) == Burst(n - 1) + [c];
      BurstState(n - 1);
      LogSnoc(Burst(n - 1), c);
      BurstEntry(before, n - 1);
      BurstFalls(n - 1);
      assert Log(Burst(n))[..|log|] == log;
    }
  }

  lemma {:induction false} BurstStarts()
    ensures Log(Burst(0)) == [] && BurstReach(0) == 0
  {
  }

  lemma {:induction false} BurstLags(k: nat)
    ensures Lagging(Burst(RATE_LIMIT_EVENTS * (k + 2)), Minutes(k))
  {
    hide Repeated;
    forall i, j | 0 <= i < j < RATE_LIMIT_EVENTS * (k + 2)
      ensures BurstCall(i).now - Minutes(k) <= BurstCall(j).now
    {
      assert i / RATE_LIMIT_EVENTS <= j / RATE_LIMIT_EVENTS <= k + 1;
    }
  }

  /** The bound is exact, with and without lag. */
  lemma {:induction false} SlidingWindowReached(k: nat)
    ensures var calls := Burst(RATE_LIMIT_EVENTS * (k + 2));
      && Lagging(calls, Minutes(k))
      && Between(Log(calls), "a", 30.0, 30.0 + RATE_LIMIT_WINDOW) == SlidingLimit(k)
  {
    hide Log;
    BurstLags(k);
    BurstRun(RATE_LIMIT_EVENTS * (k + 2));
  }

  function Attempts(calls: seq<Call>, agent: Agent): nat {
    if calls == [] then 0
    else
      var n := |calls| - 1;
      Attempts(calls[..n], agent) + if calls[n].key.agent == agent then 1 else 0
  }

  function AdmittedCount(log: seq<Admission>, agent: Agent): nat {
    if log == [] then 0
    else
      var n := |log| - 1;
      AdmittedCount(log[..n], agent) + if log[n].key.agent == agent then 1 else 0
  }

  /** Nothing is lost from the books: admitted and suppressed announcements of
      an agent add up to what it attempted. */
  lemma {:induction false} Conservation(calls: seq<Call>, agent: Agent)
    ensures AdmittedCount(Log(calls), agent) + Tally(After(calls, true).dropped, agent) == Attempts(calls, agent)
  {
    hide Admit, AdmittedCount;
    if calls != [] {
      var n := |calls| - 1;
      Conservation(calls[..n], agent);
      OneCallBooked(After(calls[..n], true), Log(calls[..n]), calls[n].key, calls[n].now, agent);
    } else {
      NothingBooked(agent);
    }
  }

  /** How many of the agent's announcements were not admitted. */
  function Refusals(calls: seq<Call>, agent: Agent): nat {
    if calls == [] then 0
    else
      var n := |calls| - 1;
      Refusals(calls[..n], agent) +
      (if calls[n].key.agent == agent && Last(calls, true).decision != Admitted then 1 else 0)
  }

  /** The counter of dropped announcements counts exactly the refused ones. */
  lemma {:induction false} DroppedAreRefusals(calls: seq<Call>, agent: Agent)
    ensures Tally(After(calls, true).dropped, agent) == Refusals(calls, agent)
    decreases |calls|
  {
    hide Admit;
    if calls != [] {
      var n := |calls| - 1;
      DroppedAreRefusals(calls[..n], agent);
      AdmitUnfolds(After(calls[..n], true), calls[n].key, calls[n].now, true);
    }
  }

  lemma {:induction false} NothingBooked(agent: Agent)
    ensures AdmittedCount([], agent) == 0
  {
  }

  lemma {:induction false} OneCallBooked(l: Limiter, log: seq<Admission>, key: Key, now: real, agent: Agent)
    ensures var o := Admit(l, key, now, true);
      AdmittedCount(log + Entry(o, key, now), agent) + Tally(o.limiter.dropped, agent) ==
      AdmittedCount(log, agent) + Tally(l.dropped, agent) + if key.agent == agent then 1 else 0
  {
    hide Pruned;
    var o := Admit(l, key, now, true);
    var log' := log + Entry(o, key, now);
    if o.decision.Admitted? {
      assert log'[..|log|] == log;
    } else {
      assert log' == log;
    }
  }

  // ----- forgetting -----

  /** The pruned limiter `p` has forgotten only what is too old to matter. */
  ghost predicate Remembers(p: Limiter, f: Limiter, now: real) {
    && p.windowStart == f.windowStart && p.windowCount == f.windowCount && p.dropped == f.dropped
    && (forall k :: k in p.seen ==> k in f.seen && f.seen[k] == p.seen[k])
    && (forall k :: k in f.seen && k !in p.seen ==> f.seen[k] < now - COALESCE_WINDOW)
  }

  lemma {:induction false} PrunedForgetsOld(seen: map<Key, real>, now: real)
    ensures forall k :: k in Pruned(seen, now) ==> k in seen && Pruned(seen, now)[k] == seen[k]
    ensures forall k :: k in seen && k !in Pruned(seen, now) ==> seen[k] < now - COALESCE_WINDOW
  {
  }

  lemma {:induction false} CallAgrees(p: Limiter, f: Limiter, last: real, key: Key, now: real)
    requires Remembers(p, f, last) && last <= now
    ensures var a, b := Admit(p, key, now, true), Admit(f, key, now, false);
      a.decision == b.decision && Remembers(a.limiter, b.limiter, now)
  {
    hide Admit, Remembers, OpenWindow, Drop, Booked;
    AdmitUnfolds(p, key, now, true);
    AdmitUnfolds(f, key, now, false);
    RepeatsAgree(p, f, last, key, now);
    WindowsAgree(p, f, last, key, now);
    var v, w := OpenWindow(p, key.agent, now), OpenWindow(f, key.agent, now);
    DropsAgree(p, f, last, key, now);
    DropsAgree(v, w, last, key, now);
    BooksAgree(v, w, last, key, now);
  }

  lemma {:induction false} RepeatsAgree(p: Limiter, f: Limiter, last: real, key: Key, now: real)
    requires Remembers(p, f, last) && last <= now
    ensures key in f.seen && now - f.seen[key] < COALESCE_WINDOW <==>
      key in p.seen && now - p.seen[key] < COALESCE_WINDOW
  {
  }

  lemma {:induction false} WindowsAgree(p: Limiter, f: Limiter, last: real, key: Key, now: real)
    requires Remembers(p, f, last)
    ensures var v, w := OpenWindow(p, key.agent, now), OpenWindow(f, key.agent, now);
      Remembers(v, w, last) && Tally(v.windowCount, key.agent) == Tally(w.windowCount, key.agent)
  {
    assert OpenWindow(p, key.agent, now).seen == p.seen && OpenWindow(f, key.agent, now).seen == f.seen;
  }

  lemma {:induction false} DropsAgree(p: Limiter, f: Limiter, last: real, key: Key, now: real)
    requires Remembers(p, f, last) && last <= now
    ensures Remembers(Drop(p, key.agent), Drop(f, key.agent), now)
  {
  }

  lemma {:induction false} BooksAgree(p: Limiter, f: Limiter, last: real, key: Key, now: real)
    requires Remembers(p, f, last) && last <= now
    ensures Remembers(Booked(p, key, now, true), Booked(f, key, now, false), now)
  {
    hide Pruned;
    PrunedForgetsOld(p.seen[key := now], now);
  }

  /** On every run the pruned dedupe map decides as one that never forgets. */
  lemma {:induction false} PruningIsInvisible(calls: seq<Call>)
    requires Ordered(calls)
    ensures calls != [] ==> Last(calls, true).decision == Last(calls, false).decision
    ensures Remembers(After(calls, true), After(calls, false), if calls == [] then 0.0 else calls[|calls| - 1].now)
  {
    hide Admit;
    if calls != [] {
      var n := |calls| - 1;
      PruningIsInvisible(calls[..n]);
      var p, f := After(calls[..n], true), After(calls[..n], false);
      var last := if n == 0 then calls[n].now else calls[n - 1].now;
      if n == 0 {
        assert p == f;
      }
      CallAgrees(p, f, last, calls[n].key, calls[n].now);
    }
  }

  // ----- repeats -----

  /** Every admission is remembered by its key, or ten seconds behind a stamp. */
  ghost predicate Spaced(l: Limiter, log: seq<Admission>, latest: real, lag: real) {
    && (forall i :: 0 <= i < |log| ==> Remembered(l, log[i], latest))
    && (forall i, j :: 0 <= i < j < |log| && log[i].key == log[j].key ==>
          log[j].time - log[i].time >= COALESCE_WINDOW - lag)
  }

  predicate Remembered(l: Limiter, e: Admission, latest: real) {
    (e.key in l.seen && e.time <= l.seen[e.key]) || e.time < latest - COALESCE_WINDOW
  }

  lemma {:induction false} CallRemembers(l: Limiter, e: Admission, latest: real, key: Key, now: real, next: real)
    requires Remembered(l, e, latest) && latest <= next && now <= next
    ensures Remembered(Admit(l, key, now, true).limiter, e, next)
    ensures Admit(l, key, now, true).decision.Admitted? && e.key == key ==>
      now - e.time >= COALESCE_WINDOW || e.time < latest - COALESCE_WINDOW
  {
    hide Pruned;
    var w := OpenWindow(l, key.agent, now);
    assert w.seen == l.seen;
    PrunedForgetsOld(w.seen[key := now], now);
  }

  lemma {:induction false} CallIsRemembered(l: Limiter, key: Key, now: real, next: real)
    requires now <= next
    ensures var o := Admit(l, key, now, true);
      forall e :: e in Entry(o, key, now) ==> Remembered(o.limiter, e, next)
  {
    hide Pruned;
    var w := OpenWindow(l, key.agent, now);
    PrunedForgetsOld(w.seen[key := now], now);
  }

  lemma {:induction false} CallKeepsSpacing(
    l: Limiter, log: seq<Admission>, latest: real, lag: real, key: Key, now: real, next: real)
    requires Spaced(l, log, latest, lag) && lag >= 0.0
    requires latest <= next && latest - lag <= now <= next
    ensures var o := Admit(l, key, now, true); Spaced(o.limiter, log + Entry(o, key, now), next, lag)
  {
    hide Admit, Remembered;
    var o := Admit(l, key, now, true);
    var log' := log + Entry(o, key, now);
    CallIsRemembered(l, key, now, next);
    forall i | 0 <= i < |log'|
      ensures Remembered(o.limiter, log'[i], next)
      ensures i < |log| && o.decision.Admitted? && log[i].key == key ==> now - log[i].time >= COALESCE_WINDOW - lag
    {
      if i < |log| {
        CallRemembers(l, log[i], latest, key, now, next);
      } else {
        assert log'[i] in Entry(o, key, now);
      }
    }
  }

  /** The latest stamp of a run. */
  function Latest(calls: seq<Call>): (r: real)
    requires calls != []
    ensures Stamped(calls, r) && forall i :: 0 <= i < |calls| ==> calls[i].now <= r
  {
    var n := |calls| - 1;
    if n == 0 then assert calls[0].now == calls[n].now; calls[n].now
    else
      var r := Latest(calls[..n]);
      assert forall i :: 0 <= i < n ==> calls[..n][i] == calls[i];
      if r <= calls[n].now then calls[n].now else r
  }

  lemma {:induction false} RunIsSpaced(calls: seq<Call>, lag: real)
    requires Lagging(calls, lag) && lag >= 0.0 && calls != []
    ensures Spaced(After(calls, true), Log(calls), Latest(calls), lag)
  {
    hide Admit, Spaced;
    var n := |calls| - 1;
    var latest := if n == 0 then calls[n].now else Latest(calls[..n]);
    if n == 0 {
      EmptyIsSpaced(latest, lag);
    } else {
      RunIsSpaced(calls[..n], lag);
    }
    CallKeepsSpacing(
      After(calls[..n], true), Log(calls[..n]), latest, lag, calls[n].key, calls[n].now, Latest(calls));
  }

  lemma {:induction false} EmptyIsSpaced(latest: real, lag: real)
    ensures Spaced(Limiter(map[], map[], map[], map[]), [], latest, lag)
  {
  }

  /** Two admissions of one key are at least ten seconds apart, less the lag. */
  lemma {:induction false} RepeatsAreSpaced(calls: seq<Call>, lag: real, i: nat, j: nat)
    requires Lagging(calls, lag) && lag >= 0.0
    requires i < j < |Log(calls)| && Log(calls)[i].key == Log(calls)[j].key
    ensures Log(calls)[j].time - Log(calls)[i].time >= COALESCE_WINDOW - lag
  {
    hide After, Latest;
    RunIsSpaced(calls, lag);
  }

  // ----- each decision, told from the admissions before it -----

  /** The key was admitted less than ten seconds before. */
  ghost predicate IsRepeat(log: seq<Admission>, key: Key, now: real) {
    exists i :: 0 <= i < |log| && log[i].key == key && now - log[i].time < 10.0
  }

  /** A window of the agent that has not ended has its sixty admissions. */
  ghost predicate IsFull(log: seq<Admission>, agent: Agent, now: real) {
    exists w :: InWindow(log, agent, w) >= 60 && now - w < 60.0
  }

  /** The window has not ended, and the agent was admitted in it. */
  ghost predicate IsOpen(log: seq<Admission>, agent: Agent, now: real, window: real) {
    now - window < 60.0 && exists i :: 0 <= i < |log| && log[i].key.agent == agent && log[i].window == window
  }

  lemma {:induction false} RepeatExactly(calls: seq<Call>, key: Key, now: real)
    requires Ordered(calls) && forall i :: 0 <= i < |calls| ==> calls[i].now <= now
    ensures var l := After(calls, true);
      IsRepeat(Log(calls), key, now) <==> key in l.seen && now - l.seen[key] < COALESCE_WINDOW
  {
    hide Log, After, Latest;
    var l, log := After(calls, true), Log(calls);
    if key in l.seen {
      SeenIsLogged(calls, key);
    }
    if IsRepeat(log, key, now) {
      var i :| 0 <= i < |log| && log[i].key == key && now - log[i].time < 10.0;
      if calls == [] {
        NothingLogged();
      } else {
        RunIsSpaced(calls, 0.0);
        assert Remembered(l, log[i], Latest(calls));
      }
    }
  }

  lemma {:induction false} NothingLogged()
    ensures Log([]) == []
  {
  }

  lemma {:induction false} CurrentIsPast(calls: seq<Call>, agent: Agent, now: real)
    requires forall i :: 0 <= i < |calls| ==> calls[i].now <= now
    requires agent in After(calls, true).windowStart
    ensures After(calls, true).windowStart[agent] <= now
  {
    hide After;
    WindowsAreStamps(calls, agent);
  }

  lemma {:induction false} FullExactly(calls: seq<Call>, agent: Agent, now: real)
    requires forall i :: 0 <= i < |calls| ==> calls[i].now <= now
    ensures IsFull(Log(calls), agent, now) <==>
      Tally(OpenWindow(After(calls, true), agent, now).windowCount, agent) >= RATE_LIMIT_EVENTS
  {
    hide Log, After, InWindow, Opened;
    var l, log := After(calls, true), Log(calls);
    RunIsWindowed(calls);
    if agent in l.windowStart && now - l.windowStart[agent] < RATE_LIMIT_WINDOW {
      assert InWindow(log, agent, l.windowStart[agent]) == Tally(l.windowCount, agent);
    }
    if IsFull(log, agent, now) {
      var w :| InWindow(log, agent, w) >= 60 && now - w < 60.0;
      var i := InWindowSomewhere(log, agent, w);
      assert Dated(l, log[i]);
      CurrentIsPast(calls, agent, now);
    }
  }

  lemma {:induction false} InWindowSomewhere(log: seq<Admission>, agent: Agent, window: real) returns (i: nat)
    requires InWindow(log, agent, window) > 0
    ensures i < |log| && log[i].key.agent == agent && log[i].window == window
  {
    hide InWindow;
    if i' :| 0 <= i' < |log| && log[i'].key.agent == agent && log[i'].window == window {
      i := i';
    } else {
      NoneInWindow(log, agent, window);
    }
  }

  /** The last call of a run is refused as a repeat exactly when its key was
      admitted in the ten seconds before, else as too many exactly when an open
      window of its agent is full, and is admitted otherwise. */
  lemma {:induction false} DecisionExactly(calls: seq<Call>)
    requires Ordered(calls) && calls != []
    ensures var n := |calls| - 1;
      var log, c := Log(calls[..n]), calls[n];
      Last(calls, true).decision ==
        if IsRepeat(log, c.key, c.now) then Coalesced
        else if IsFull(log, c.key.agent, c.now) then RateLimited
        else Admitted
  {
    hide Admit, Log, After, OpenWindow, IsRepeat, IsFull;
    var n := |calls| - 1;
    var before, c := calls[..n], calls[n];
    assert forall i :: 0 <= i < n ==> before[i] == calls[i];
    RepeatExactly(before, c.key, c.now);
    FullExactly(before, c.key.agent, c.now);
    AdmitUnfolds(After(before, true), c.key, c.now, true);
  }

  /** An admission is counted in a window of its agent that is open, or begins
      one if there is none. */
  lemma {:induction false} WindowExactly(calls: seq<Call>)
    requires Ordered(calls) && calls != []
    ensures var n := |calls| - 1;
      var log, c := Log(calls[..n]), calls[n];
      if Last(calls, true).decision.Admitted? then
        exists w :: Log(calls) == log + [Admission(c.key, c.now, w)] &&
          if exists v :: IsOpen(log, c.key.agent, c.now, v) then IsOpen(log, c.key.agent, c.now, w) else w == c.now
      else Log(calls) == log
  {
    hide Admit, Log, After, IsOpen;
    var n := |calls| - 1;
    var before, c := calls[..n], calls[n];
    assert before + [c] == calls;
    LogSnoc(before, c);
    if Last(calls, true).decision.Admitted? {
      AdmitUnfolds(After(before, true), c.key, c.now, true);
      OpenExactly(before, c.key.agent, c.now);
      var w := OpenWindow(After(before, true), c.key.agent, c.now).windowStart[c.key.agent];
      assert Log(calls) == Log(before) + [Admission(c.key, c.now, w)];
    } else {
      assert Log(before) + [] == Log(before);
    }
  }

  lemma {:induction false} OpenExactly(calls: seq<Call>, agent: Agent, now: real)
    requires forall i :: 0 <= i < |calls| ==> calls[i].now <= now
    ensures var w := OpenWindow(After(calls, true), agent, now);
      && agent in w.windowStart
      && (if exists v :: IsOpen(Log(calls), agent, now, v)
          then IsOpen(Log(calls), agent, now, w.windowStart[agent]) else w.windowStart[agent] == now)
  {
    hide Log, After, InWindow;
    var l, log := After(calls, true), Log(calls);
    RunIsWindowed(calls);
    RunHasOpeners(calls);
    if v :| IsOpen(log, agent, now, v) {
      var i :| 0 <= i < |log| && log[i].key.agent == agent && log[i].window == v;
      assert Dated(l, log[i]);
      CurrentIsPast(calls, agent, now);
    }
    if agent in l.windowStart && now - l.windowStart[agent] < RATE_LIMIT_WINDOW {
      assert Opened(log, agent, l.windowStart[agent]);
      assert IsOpen(log, agent, now, l.windowStart[agent]);
    }
  }

  /** Below 4096 keys nothing is forgotten; from then on exactly what was seen
      more than ten seconds ago. */
  lemma {:induction false} PrunedExactly(seen: map<Key, real>, now: real)
    ensures forall k :: k in Pruned(seen, now) <==> k in seen && (|seen| < 4096 || now - seen[k] <= 10.0)
    ensures forall k :: k in Pruned(seen, now) ==> Pruned(seen, now)[k] == seen[k]
  {
  }

  // ----- the size of the dedupe map -----

  ghost predicate Logged(log: seq<Admission>, k: Key, time: real) {
    exists i :: 0 <= i < |log| && log[i].key == k && log[i].time == time
  }

  lemma {:induction false} SeenIsLogged(calls: seq<Call>, k: Key)
    requires k in After(calls, true).seen
    ensures Logged(Log(calls), k, After(calls, true).seen[k])
  {
    var n := |calls| - 1;
    var before, o := After(calls[..n], true), Last(calls, true);
    var key, now := calls[n].key, calls[n].now;
    assert OpenWindow(before, key.agent, now).seen == before.seen;
    if o.decision.Admitted? && k == key {
      assert Log(calls)[|Log(calls)| - 1] == Admission(key, now, o.limiter.windowStart[key.agent]);
    } else {
      assert k in before.seen && before.seen[k] == o.limiter.seen[k];
      SeenIsLogged(calls[..n], k);
      var i :| 0 <= i < |Log(calls[..n])| && Log(calls[..n])[i].key == k && Log(calls[..n])[i].time == before.seen[k];
      assert Log(calls)[i] == Log(calls[..n])[i];
    }
  }

  ghost predicate FallsOnce(log: seq<Admission>, k: Key, agent: Agent, from: real, to: real) {
    exists i :: 0 <= i < |log| && log[i].key == k && Falls(log[i], agent, from, to)
  }

  /** Distinct keys admitted in an interval are no more than the admissions. */
  lemma {:induction false} KeysWithin(log: seq<Admission>, agent: Agent, from: real, to: real, keys: set<Key>)
    requires forall k :: k in keys ==> FallsOnce(log, k, agent, from, to)
    ensures |keys| <= Between(log, agent, from, to)
  {
    if log == [] {
      if k :| k in keys {
        assert false;
      }
    } else {
      var n := |log| - 1;
      var e := log[n];
      var rest := if Falls(e, agent, from, to) then keys - {e.key} else keys;
      forall k | k in rest
        ensures FallsOnce(log[..n], k, agent, from, to)
      {
        var i :| 0 <= i < |log| && log[i].key == k && Falls(log[i], agent, from, to);
        assert log[..n][i] == log[i];
      }
      KeysWithin(log[..n], agent, from, to, rest);
    }
  }

  function OfAgent(keys: set<Key>, agent: Agent): set<Key> {
    set k | k in keys && k.agent == agent
  }

  lemma {:induction false} KeysByAgent(keys: set<Key>, agents: set<Agent>, bound: nat)
    requires forall k :: k in keys ==> k.agent in agents
    requires forall a :: a in agents ==> |OfAgent(keys, a)| <= bound
    ensures |keys| <= bound * |agents|
    decreases |agents|
  {
    if agents == {} {
      if k :| k in keys {
        assert false;
      }
    } else {
      var a :| a in agents;
      var own := OfAgent(keys, a);
      var rest := keys - own;
      forall b | b in agents - {a}
        ensures |OfAgent(rest, b)| <= bound
      {
        assert OfAgent(rest, b) == OfAgent(keys, b);
      }
      KeysByAgent(rest, agents - {a}, bound);
      assert keys == own + rest;
      OneMore(bound, |agents - {a}|);
    }
  }

  lemma {:induction false} OneMore(bound: nat, n: nat)
    ensures bound * (n + 1) == bound * n + bound
  {
  }

  function Agents(calls: seq<Call>): set<Agent> {
    set c | c in calls :: c.key.agent
  }

  lemma {:induction false} SeenAgents(calls: seq<Call>, k: Key)
    requires k in After(calls, true).seen
    ensures k.agent in Agents(calls)
  {
    var n := |calls| - 1;
    var before := After(calls[..n], true);
    assert OpenWindow(before, calls[n].key.agent, calls[n].now).seen == before.seen;
    assert calls[n] in calls;
    if k != calls[n].key {
      SeenAgents(calls[..n], k);
      var c :| c in calls[..n] && c.key.agent == k.agent;
      assert c in calls;
    }
  }

  /** What a prune leaves: only keys admitted in the last ten seconds. */
  lemma {:induction false} PrunedIsSmall(calls: seq<Call>, lag: real, k: nat, from: real)
    requires Lagging(calls, lag) && 0.0 <= lag <= Minutes(k)
    requires forall k :: k in After(calls, true).seen ==>
      from <= After(calls, true).seen[k] < from + RATE_LIMIT_WINDOW
    ensures |After(calls, true).seen| <= SlidingLimit(k) * |Agents(calls)|
  {
    hide After, Log, Between, Agents, SlidingLimit;
    var seen := After(calls, true).seen;
    forall a | a in Agents(calls)
      ensures |OfAgent(seen.Keys, a)| <= SlidingLimit(k)
    {
      forall k | k in OfAgent(seen.Keys, a)
        ensures FallsOnce(Log(calls), k, a, from, from + RATE_LIMIT_WINDOW)
      {
        SeenIsLogged(calls, k);
      }
      KeysWithin(Log(calls), a, from, from + RATE_LIMIT_WINDOW, OfAgent(seen.Keys, a));
      SlidingWindowBound(calls, lag, k, a, from);
    }
    forall k | k in seen
      ensures k.agent in Agents(calls)
    {
      SeenAgents(calls, k);
    }
    KeysByAgent(seen.Keys, Agents(calls), SlidingLimit(k));
    assert |seen.Keys| == |seen|;
  }

  /** The dedupe map never outgrows its threshold, or 119 keys per agent (178
      if stamps lag, by less than 50 seconds). */
  lemma {:induction false} MapStaysSmall(calls: seq<Call>, lag: real, k: nat)
    requires Lagging(calls, lag) && 0.0 <= lag <= Minutes(k) && lag < RATE_LIMIT_WINDOW - COALESCE_WINDOW
    ensures |After(calls, true).seen| < 4096
      || |After(calls, true).seen| <= SlidingLimit(k) * |Agents(calls)|
  {
    hide SlidingLimit, Minutes;
    if calls != [] {
      var n := |calls| - 1;
      var before, now := After(calls[..n], true), calls[n].now;
      var w := OpenWindow(before, calls[n].key.agent, now);
      MapStaysSmall(calls[..n], lag, k);
      assert Agents(calls[..n]) <= Agents(calls);
      if Last(calls, true).decision.Admitted? {
        var seen := w.seen[calls[n].key := now];
        if |seen| >= PRUNE_THRESHOLD {
          SeenIsPast(calls, now + lag);
          PrunedIsSmall(calls, lag, k, now - COALESCE_WINDOW);
        }
      } else {
        Fewer(Agents(calls[..n]), Agents(calls));
        MoreIsMore(SlidingLimit(k), |Agents(calls[..n])|, |Agents(calls)|);
      }
    }
  }

  lemma {:induction false} MoreIsMore(bound: nat, fewer: nat, more: nat)
    requires fewer <= more
    ensures bound * fewer <= bound * more
  {
  }

  lemma {:induction false} SeenIsPast(calls: seq<Call>, latest: real)
    requires forall i :: 0 <= i < |calls| ==> calls[i].now <= latest
    ensures forall k :: k in After(calls, true).seen ==> After(calls, true).seen[k] <= latest
  {
    if calls != [] {
      var n := |calls| - 1;
      var before := After(calls[..n], true);
      assert OpenWindow(before, calls[n].key.agent, calls[n].now).seen == before.seen;
      SeenIsPast(calls[..n], latest);
    }
  }
}
