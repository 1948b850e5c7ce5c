/** What an observer does to the spool when nothing disturbs it, from its first step to its last. */
module SpoolMeaning {
  import opened Collections
  import opened Outcomes
  import opened CrashSpool

  /** The state after the steps, if each of them can be taken in turn. */
  ghost function After(s: State, steps: seq<Action>): Option<State>
    decreases |steps|
  {
    if steps == [] then Some(s)
    else if Enabled(s, steps[0]) then After(Apply(s, steps[0]), steps[1..])
    else None
  }

  lemma {:induction false} AfterNothing(s: State)
    ensures After(s, []) == Some(s)
  {
  }

  lemma {:induction false} AfterStep(s: State, a: Action, steps: seq<Action>)
    requires Enabled(s, a)
    ensures After(s, [a] + steps) == After(Apply(s, a), steps)
  {
    assert ([a] + steps)[1..] == steps;
  }

  // ----- one report -----

  /** The oldest files of a spool, as many as it has over 512. */
  ghost predicate IsOldest(spool: Spool, stale: seq<Id>) {
    && (forall i, j :: 0 <= i < j < |stale| ==> stale[i] != stale[j])
    && (forall id :: id in stale ==> id in spool)
    && (|spool| <= 512 ==> stale == []) && (|spool| > 512 ==> |spool| == 512 + |stale|)
    && forall id, k :: id in stale && k in spool && k !in stale ==> spool[id].mtime <= spool[k].mtime
  }

  lemma {:induction false} OldestAreStale(spool: Spool, stale: seq<Id>)
    ensures IsStale(spool, stale) <==> IsOldest(spool, stale)
  {
  }

  function Evictions(o: nat, n: nat, rest: seq<Action>): seq<Action> {
    if n == 0 then rest else [Evict(o)] + Evictions(o, n - 1, rest)
  }

  function Report(o: nat, id: Id, report: string, started: int, written: int, stale: seq<Id>, rest: seq<Action>)
    : seq<Action>
  {
    [StartReport(o, id, report, started)] + ([FinishWrite(o, written)] + ([Publish(o)] + ([List(o, stale)] +
    Evictions(o, |stale|, [EndTrim(o)] + rest))))
  }

  /** The spool after a report is put there and the spool is trimmed. */
  function Spooled(spool: Spool, id: Id, report: string, written: int, stale: seq<Id>): Spool {
    spool[id := File(Some(report), written)] - Elements(stale)
  }

  lemma {:induction false} Evicted(s: State, o: nat, id: Id, stale: seq<Id>, rest: seq<Action>)
    requires o in s.observers && s.observers[o] == Trimming(id, stale)
    ensures After(s, Evictions(o, |stale|, [EndTrim(o)] + rest)) ==
      After(s.(spool := s.spool - Elements(stale), observers := s.observers[o := Trimmed(id)]), rest)
    decreases |stale|
  {
    hide After;
    if stale == [] {
      AfterStep(s, EndTrim(o), rest);
      assert s.spool - Elements(stale) == s.spool;
    } else {
      var t := Apply(s, Evict(o));
      AfterStep(s, Evict(o), Evictions(o, |stale| - 1, [EndTrim(o)] + rest));
      Evicted(t, o, id, stale[1..], rest);
      assert Elements(stale) == {stale[0]} + Elements(stale[1..]);
      assert t.spool - Elements(stale[1..]) == s.spool - Elements(stale);
      assert t.observers[o := Trimmed(id)] == s.observers[o := Trimmed(id)];
    }
  }

  /** A report whose post is acknowledged reaches the hub and leaves the spool;
      one whose post is not stays there. Of the other files exactly the oldest
      over the limit go. */
  lemma {:induction false} ReportGoesOut(
    s: State, o: nat, id: Id, report: string, started: int, written: int, stale: seq<Id>, received: bool,
    acknowledged: bool)
    requires o in s.observers && s.observers[o] == Watching && id !in s.made && id !in s.spool && id !in s.temps
    requires IsOldest(s.spool[id := File(Some(report), written)], stale) && (acknowledged ==> received)
    ensures var kept := Spooled(s.spool, id, report, written, stale);
      After(s, Report(o, id, report, started, written, stale,
        [PostOwn(o, received, acknowledged)] + if acknowledged then [UnlinkOwn(o)] else [])) ==
      Some(State(
        if acknowledged then kept - {id} else kept, s.temps, s.observers[o := Stopped], s.made[id := report],
        s.published + {id}, if received then s.delivered + {(id, report)} else s.delivered))
  {
    hide After, Apply, Enabled, IsStale, IsOldest, Evictions, Spooled;
    var rest := [PostOwn(o, received, acknowledged)] + if acknowledged then [UnlinkOwn(o)] else [];
    var trimmed := Published(s, o, id, report, started, written, stale, rest);
    Posted(trimmed, o, id, report, received, acknowledged);
    assert trimmed.observers[o := Stopped] == s.observers[o := Stopped];
  }

  lemma {:induction false} Posted(s: State, o: nat, id: Id, report: string, received: bool, acknowledged: bool)
    requires o in s.observers && s.observers[o] == Trimmed(id) && (acknowledged ==> received)
    requires id in s.made && s.made[id] == report
    ensures After(s, [PostOwn(o, received, acknowledged)] + if acknowledged then [UnlinkOwn(o)] else []) == Some(s.(
      spool := if acknowledged then s.spool - {id} else s.spool, observers := s.observers[o := Stopped],
      delivered := if received then s.delivered + {(id, report)} else s.delivered))
  {
    hide After;
    var last := if acknowledged then [UnlinkOwn(o)] else [];
    AfterStep(s, PostOwn(o, received, acknowledged), last);
    var posted := Apply(s, PostOwn(o, received, acknowledged));
    if acknowledged {
      assert last == [UnlinkOwn(o)] + [];
      AfterStep(posted, UnlinkOwn(o), []);
      AfterNothing(Apply(posted, UnlinkOwn(o)));
      assert posted.observers[o := Stopped] == s.observers[o := Stopped];
    } else {
      AfterNothing(posted);
    }
  }

  lemma {:induction false} Written(
    s: State, o: nat, id: Id, report: string, started: int, written: int, rest: seq<Action>)
    returns (t: State)
    requires o in s.observers && s.observers[o] == Watching && id !in s.made && id !in s.spool && id !in s.temps
    ensures t == State(s.spool[id := File(Some(report), written)], s.temps, s.observers[o := Phase.Published(id)],
      s.made[id := report], s.published + {id}, s.delivered)
    ensures After(s, [StartReport(o, id, report, started)] + ([FinishWrite(o, written)] + ([Publish(o)] + rest)))
      == After(t, rest)
  {
    hide After;
    var publishing := [Publish(o)] + rest;
    AfterStep(s, StartReport(o, id, report, started), [FinishWrite(o, written)] + publishing);
    var s1 := Apply(s, StartReport(o, id, report, started));
    AfterStep(s1, FinishWrite(o, written), publishing);
    var s2 := Apply(s1, FinishWrite(o, written));
    AfterStep(s2, Publish(o), rest);
    t := Apply(s2, Publish(o));
    assert t.temps == s.temps;
    assert t.observers == s.observers[o := Phase.Published(id)];
  }

  lemma {:induction false} Listed(s: State, o: nat, id: Id, stale: seq<Id>, rest: seq<Action>) returns (t: State)
    requires o in s.observers && s.observers[o] == Phase.Published(id) && IsOldest(s.spool, stale)
    ensures t == s.(observers := s.observers[o := Trimming(id, stale)])
    ensures After(s, [List(o, stale)] + rest) == After(t, rest)
  {
    hide After, IsStale, IsOldest;
    OldestAreStale(s.spool, stale);
    AfterStep(s, List(o, stale), rest);
    t := Apply(s, List(o, stale));
  }

  lemma {:induction false} Published(
    s: State, o: nat, id: Id, report: string, started: int, written: int, stale: seq<Id>, rest: seq<Action>)
    returns (t: State)
    requires o in s.observers && s.observers[o] == Watching && id !in s.made && id !in s.spool && id !in s.temps
    requires IsOldest(s.spool[id := File(Some(report), written)], stale)
    ensures t == State(Spooled(s.spool, id, report, written, stale), s.temps, s.observers[o := Trimmed(id)],
      s.made[id := report], s.published + {id}, s.delivered)
    ensures After(s, Report(o, id, report, started, written, stale, rest)) == After(t, rest)
  {
    hide After, Apply, Enabled, IsStale, Evictions, IsOldest;
    var evictions := Evictions(o, |stale|, [EndTrim(o)] + rest);
    var s3 := Written(s, o, id, report, started, written, [List(o, stale)] + evictions);
    var s4 := Listed(s3, o, id, stale, evictions);
    Evicted(s4, o, id, stale, rest);
    t := s4.(spool := s4.spool - Elements(stale), observers := s4.observers[o := Trimmed(id)]);
    assert t.observers == s.observers[o := Trimmed(id)];
  }

  // ----- one flush -----

  /** What comes of a post: does the hub get it, and does the observer learn so. */
  datatype Answer = Answer(received: bool, acknowledged: bool)

  function Tries(spool: Spool, o: nat, listing: seq<Id>, answers: seq<Answer>): seq<Action>
    requires |answers| == |listing|
  {
    if listing == [] then [EndFlush(o)]
    else
      [TryNext(o, answers[0].received, answers[0].acknowledged)]
      + ((if IsTaken(spool, listing, answers, 0) then [UnlinkSent(o)] else [])
         + Tries(spool, o, listing[1..], answers[1..]))
  }

  /** The file there can be read and its post is acknowledged. */
  predicate IsTaken(spool: Spool, listing: seq<Id>, answers: seq<Answer>, i: nat)
    requires i < |answers| == |listing|
  {
    listing[i] in spool && spool[listing[i]].report.Some? && answers[i].acknowledged
  }

  predicate IsHeard(spool: Spool, listing: seq<Id>, answers: seq<Answer>, i: nat)
    requires i < |answers| == |listing|
  {
    listing[i] in spool && spool[listing[i]].report.Some? && answers[i].received
  }

  function Taken(spool: Spool, listing: seq<Id>, answers: seq<Answer>): set<Id>
    requires |answers| == |listing|
  {
    set i: nat | i < |listing| && IsTaken(spool, listing, answers, i) :: listing[i]
  }

  function Heard(spool: Spool, listing: seq<Id>, answers: seq<Answer>): set<(Id, string)>
    requires |answers| == |listing|
  {
    set i: nat | i < |listing| && IsHeard(spool, listing, answers, i) :: (listing[i], spool[listing[i]].report.value)
  }

  lemma {:induction false} TriedNone(s: State, o: nat)
    requires o in s.observers && s.observers[o] == Flushing([])
    ensures After(s, Tries(s.spool, o, [], [])) == Some(s.(
      spool := s.spool - Taken(s.spool, [], []), delivered := s.delivered + Heard(s.spool, [], []),
      observers := s.observers[o := Watching]))
  {
    assert [EndFlush(o)] == [EndFlush(o)] + [];
    AfterStep(s, EndFlush(o), []);
    AfterNothing(Apply(s, EndFlush(o)));
    assert Taken(s.spool, [], []) == {} && Heard(s.spool, [], []) == {};
    assert s.spool - {} == s.spool && s.delivered + {} == s.delivered;
  }

  lemma {:induction false} Tried(s: State, o: nat, listing: seq<Id>, answers: seq<Answer>)
    requires o in s.observers && s.observers[o] == Flushing(listing) && Distinct(listing) && |answers| == |listing|
    requires forall a :: a in answers && a.acknowledged ==> a.received
    ensures After(s, Tries(s.spool, o, listing, answers)) == Some(s.(
      spool := s.spool - Taken(s.spool, listing, answers), delivered := s.delivered + Heard(s.spool, listing, answers),
      observers := s.observers[o := Watching]))
    decreases |listing|
  {
    hide After, Apply, Enabled, Tries, Taken, Heard, IsTaken, IsHeard;
    if listing == [] {
      TriedNone(s, o);
    } else {
      assert answers[0] in answers;
      var left := OneTry(s, o, listing, answers);
      Tried(left, o, listing[1..], answers[1..]);
      assert forall id :: id in listing[1..] ==> id != listing[0];
      TriesAgree(s.spool, left.spool, o, listing[1..], answers[1..]);
      FirstApart(s.spool, listing, answers);
      assert left.observers[o := Watching] == s.observers[o := Watching];
      assert left.delivered + Heard(s.spool, listing[1..], answers[1..]) ==
        s.delivered + Heard(s.spool, listing, answers);
      assert left.spool - Taken(s.spool, listing[1..], answers[1..]) == s.spool - Taken(s.spool, listing, answers);
    }
  }

  /** Files that are not in the listing make no difference. */
  lemma {:induction false} TriesAgree(
    spool: Spool, other: Spool, o: nat, listing: seq<Id>, answers: seq<Answer>)
    requires |answers| == |listing|
    requires forall id :: id in listing ==> Readable(spool, id) == Readable(other, id)
    ensures Tries(spool, o, listing, answers) == Tries(other, o, listing, answers)
    ensures Taken(spool, listing, answers) == Taken(other, listing, answers)
    ensures Heard(spool, listing, answers) == Heard(other, listing, answers)
    decreases |listing|
  {
    forall i: nat | i < |listing|
      ensures IsTaken(spool, listing, answers, i) == IsTaken(other, listing, answers, i)
      ensures IsHeard(spool, listing, answers, i) == IsHeard(other, listing, answers, i)
      ensures IsHeard(spool, listing, answers, i) ==> spool[listing[i]].report.value == other[listing[i]].report.value
    {
      assert listing[i] in listing;
      assert Readable(spool, listing[i]) == Readable(other, listing[i]);
    }
    if listing != [] {
      TriesAgree(spool, other, o, listing[1..], answers[1..]);
    }
  }

  /** The first file's part in what a flush takes and what the hub hears. */
  lemma {:induction false} FirstApart(spool: Spool, listing: seq<Id>, answers: seq<Answer>)
    requires |answers| == |listing| > 0
    ensures Taken(spool, listing, answers) ==
      Taken(spool, listing[1..], answers[1..]) + if IsTaken(spool, listing, answers, 0) then {listing[0]} else {}
    ensures Heard(spool, listing, answers) == Heard(spool, listing[1..], answers[1..]) +
      if IsHeard(spool, listing, answers, 0) then {(listing[0], spool[listing[0]].report.value)} else {}
  {
    var later, replies := listing[1..], answers[1..];
    forall i: nat | i < |later|
      ensures IsTaken(spool, later, replies, i) == IsTaken(spool, listing, answers, i + 1)
      ensures IsHeard(spool, later, replies, i) == IsHeard(spool, listing, answers, i + 1)
    {
    }
    forall id | id in Taken(spool, listing, answers)
      ensures id in Taken(spool, later, replies) || (IsTaken(spool, listing, answers, 0) && id == listing[0])
    {
      var i: nat :| i < |listing| && IsTaken(spool, listing, answers, i) && listing[i] == id;
      assert i > 0 ==> later[i - 1] == id && IsTaken(spool, later, replies, i - 1);
    }
    forall id | id in Taken(spool, later, replies)
      ensures id in Taken(spool, listing, answers)
    {
      var i: nat :| i < |later| && IsTaken(spool, later, replies, i) && later[i] == id;
      assert listing[i + 1] == id && IsTaken(spool, listing, answers, i + 1);
    }
    forall pair | pair in Heard(spool, listing, answers)
      ensures pair in Heard(spool, later, replies)
        || (IsHeard(spool, listing, answers, 0) && pair == (listing[0], spool[listing[0]].report.value))
    {
      var i: nat :|
        i < |listing| && IsHeard(spool, listing, answers, i) && (listing[i], spool[listing[i]].report.value) == pair;
      assert i > 0 ==> later[i - 1] == listing[i] && IsHeard(spool, later, replies, i - 1);
    }
    forall pair | pair in Heard(spool, later, replies)
      ensures pair in Heard(spool, listing, answers)
    {
      var i: nat :|
        i < |later| && IsHeard(spool, later, replies, i) && (later[i], spool[later[i]].report.value) == pair;
      assert listing[i + 1] == later[i] && IsHeard(spool, listing, answers, i + 1);
    }
  }

  /** One try, and the removal if it was taken. */
  lemma {:induction false} OneTry(s: State, o: nat, listing: seq<Id>, answers: seq<Answer>) returns (left: State)
    requires o in s.observers && s.observers[o] == Flushing(listing) && |answers| == |listing| > 0
    requires answers[0].acknowledged ==> answers[0].received
    ensures left == s.(
      spool := if IsTaken(s.spool, listing, answers, 0) then s.spool - {listing[0]} else s.spool,
      delivered := s.delivered +
        if IsHeard(s.spool, listing, answers, 0) then {(listing[0], s.spool[listing[0]].report.value)} else {},
      observers := s.observers[o := Flushing(listing[1..])])
    ensures After(s, Tries(s.spool, o, listing, answers)) == After(left, Tries(s.spool, o, listing[1..], answers[1..]))
  {
    hide After, Tries;
    var rest := Tries(s.spool, o, listing[1..], answers[1..]);
    var attempt := TryNext(o, answers[0].received, answers[0].acknowledged);
    var tried := Apply(s, attempt);
    TriesUnfold(s.spool, o, listing, answers);
    if IsTaken(s.spool, listing, answers, 0) {
      AfterStep(s, attempt, [UnlinkSent(o)] + rest);
      AfterStep(tried, UnlinkSent(o), rest);
      left := Apply(tried, UnlinkSent(o));
      assert left.observers == s.observers[o := Flushing(listing[1..])];
    } else {
      AfterStep(s, attempt, rest);
      assert [] + rest == rest;
      left := tried;
    }
  }

  lemma {:induction false} TriesUnfold(spool: Spool, o: nat, listing: seq<Id>, answers: seq<Answer>)
    requires |answers| == |listing| > 0
    ensures Tries(spool, o, listing, answers) ==
      [TryNext(o, answers[0].received, answers[0].acknowledged)]
      + ((if IsTaken(spool, listing, answers, 0) then [UnlinkSent(o)] else [])
         + Tries(spool, o, listing[1..], answers[1..]))
  {
  }

  /** A flush tries each file it has listed once. What can be read goes out, and
      goes from the spool if that is acknowledged; every other file stays. */
  lemma {:induction false} FlushGoesOn(s: State, o: nat, listing: seq<Id>, answers: seq<Answer>)
    requires o in s.observers && s.observers[o] == Stopped && |answers| == |listing|
    requires forall i, j :: 0 <= i < j < |listing| ==> listing[i] != listing[j]
    requires forall id :: id in listing ==> id in s.spool
    requires |listing| == if |s.spool| < 100 then |s.spool| else 100
    requires forall a :: a in answers && a.acknowledged ==> a.received
    ensures After(s, [StartFlush(o, listing)] + Tries(s.spool, o, listing, answers)) == Some(s.(
      spool := s.spool - Taken(s.spool, listing, answers), delivered := s.delivered + Heard(s.spool, listing, answers),
      observers := s.observers[o := Watching]))
  {
    hide After, Tries, Taken, Heard;
    AfterStep(s, StartFlush(o, listing), Tries(s.spool, o, listing, answers));
    var started := Apply(s, StartFlush(o, listing));
    Tried(started, o, listing, answers);
    assert started.observers[o := Watching] == s.observers[o := Watching];
  }

  /** An observer may die before any of its steps; no file changes with it. */
  lemma {:induction false} DyingLeavesFiles(s: State, o: nat)
    requires o in s.observers
    ensures After(s, [Crash(o)]) == Some(s.(observers := s.observers[o := Stopped]))
  {
    assert [Crash(o)] == [Crash(o)] + [];
    AfterStep(s, Crash(o), []);
  }

  // ----- nothing else -----

  /** In each phase an observer has one step to take, unless it dies. */
  lemma {:induction false} OneWayOn(s: State, a: Action)
    requires Enabled(s, a) && !a.Crash?
    ensures a.o in s.observers
    ensures match s.observers[a.o]
      case Stopped =>
        && a.StartFlush? && |a.listing| == (if |s.spool| < 100 then |s.spool| else 100)
        && (forall i, j :: 0 <= i < j < |a.listing| ==> a.listing[i] != a.listing[j])
        && forall id :: id in a.listing ==> id in s.spool
      case Flushing(left) => if left == [] then a.EndFlush? else a.TryNext? && (a.acknowledged ==> a.received)
      case FlushSent(_, _) => a.UnlinkSent?
      case Watching => a.StartReport? && a.id !in s.made && a.id !in s.spool && a.id !in s.temps
      case Writing(_) => a.FinishWrite?
      case Written(id) => a.Publish? && id in s.temps
      case Published(_) => a.List? && IsOldest(s.spool, a.stale)
      case Trimming(_, stale) => if stale == [] then a.EndTrim? else a.Evict?
      case Trimmed(_) => a.PostOwn? && (a.acknowledged ==> a.received)
      case Sent(_) => a.UnlinkOwn?
  {
  }
}
