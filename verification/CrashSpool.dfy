/** The spool of crash reports: observers that flush, spool, trim and post, and may die at any step. */
module CrashSpool {
  import opened Collections
  import opened Outcomes

  const MAX_SPOOL_FILES: nat := 512
  const FLUSH_LIMIT: nat := 100

  /** An event id, which is a fresh unique name. */
  type Id = nat

  /** A file's report, if it can be read back, and its modification time. */
  datatype File = File(report: Option<string>, mtime: int)

  type Spool = map<Id, File>

  /** How far an observer process has come. */
  datatype Phase =
    | Stopped
    | Flushing(left: seq<Id>)
    | FlushSent(id: Id, left: seq<Id>)
    | Watching
    | Writing(id: Id)
    | Written(id: Id)
    | Published(id: Id)
    | Trimming(id: Id, stale: seq<Id>)
    | Trimmed(id: Id)
    | Sent(id: Id)

  /** The spool directory and the observers at work on it. `made` and
      `published` remember the reports, `delivered` what the hub received. */
  datatype State = State(
    spool: Spool, temps: map<Id, File>, observers: map<nat, Phase>,
    made: map<Id, string>, published: set<Id>, delivered: set<(Id, string)>)

  datatype Action =
    | StartFlush(o: nat, listing: seq<Id>)
    | TryNext(o: nat, received: bool, acknowledged: bool)
    | UnlinkSent(o: nat)
    | EndFlush(o: nat)
    | StartReport(o: nat, id: Id, report: string, mtime: int)
    | FinishWrite(o: nat, mtime: int)
    | Publish(o: nat)
    | List(o: nat, stale: seq<Id>)
    | Evict(o: nat)
    | EndTrim(o: nat)
    | PostOwn(o: nat, received: bool, acknowledged: bool)
    | UnlinkOwn(o: nat)
    | Crash(o: nat)

  ghost predicate Distinct(s: seq<Id>) {
    forall i, j :: 0 <= i < j < |s| ==> s[i] != s[j]
  }

  /** The files a listing sorted by age puts behind the first 512. */
  ghost predicate IsStale(spool: Spool, stale: seq<Id>) {
    && Distinct(stale)
    && (forall id :: id in stale ==> id in spool)
    && |stale| == (if |spool| > MAX_SPOOL_FILES then |spool| - MAX_SPOOL_FILES else 0)
    && forall id, k :: id in stale && k in spool && k !in stale ==> spool[id].mtime <= spool[k].mtime
  }

  function Newer(spool: Spool, id: Id): set<Id>
    requires id in spool
  {
    set k | k in spool && k != id && spool[k].mtime >= spool[id].mtime
  }

  /** At least 512 other files are at least as new. */
  predicate Outranked(spool: Spool, id: Id) {
    id in spool && |Newer(spool, id)| >= MAX_SPOOL_FILES
  }

  ghost predicate Enabled(s: State, a: Action) {
    && a.o in s.observers
    && var phase := s.observers[a.o];
    match a
    case StartFlush(_, listing) =>
      && phase == Stopped && Distinct(listing) && |listing| == Min(FLUSH_LIMIT, |s.spool|)
      && forall id :: id in listing ==> id in s.spool
    case TryNext(_, received, acknowledged) => phase.Flushing? && phase.left != [] && (acknowledged ==> received)
    case UnlinkSent(_) => phase.FlushSent?
    case EndFlush(_) => phase == Flushing([])
    case StartReport(_, id, _, _) => phase == Watching && id !in s.made && id !in s.spool && id !in s.temps
    case FinishWrite(_, _) => phase.Writing?
    case Publish(_) => phase.Written? && phase.id in s.temps
    case List(_, stale) => phase.Published? && IsStale(s.spool, stale)
    case Evict(_) => phase.Trimming? && phase.stale != []
    case EndTrim(_) => phase.Trimming? && phase.stale == []
    case PostOwn(_, received, acknowledged) => phase.Trimmed? && (acknowledged ==> received)
    case UnlinkOwn(_) => phase.Sent?
    case Crash(_) => true
  }

  function Readable(spool: Spool, id: Id): Option<string> {
    if id in spool then spool[id].report else None
  }

  /** The report an observer holds for an event id. */
  function Made(s: State, id: Id): string {
    if id in s.made then s.made[id] else ""
  }

  ghost function Apply(s: State, a: Action): State
    requires Enabled(s, a)
  {
    var phase := s.observers[a.o];
    match a
    case StartFlush(_, listing) => Moved(s, a.o, Flushing(listing))
    case TryNext(_, received, acknowledged) =>
      var id, rest := phase.left[0], phase.left[1..];
      (match Readable(s.spool, id)
       case None => Moved(s, a.o, Flushing(rest))
       case Some(report) =>
         var heard := if received then s.(delivered := s.delivered + {(id, report)}) else s;
         Moved(heard, a.o, if acknowledged then FlushSent(id, rest) else Flushing(rest)))
    case UnlinkSent(_) => Moved(s.(spool := s.spool - {phase.id}), a.o, Flushing(phase.left))
    case EndFlush(_) => Moved(s, a.o, Watching)
    case StartReport(_, id, report, mtime) =>
      Moved(s.(made := s.made[id := report], temps := s.temps[id := File(None, mtime)]), a.o, Writing(id))
    case FinishWrite(_, mtime) =>
      Moved(s.(temps := s.temps[phase.id := File(Some(Made(s, phase.id)), mtime)]), a.o, Written(phase.id))
    case Publish(_) =>
      Moved(s.(spool := s.spool[phase.id := s.temps[phase.id]], temps := s.temps - {phase.id},
               published := s.published + {phase.id}), a.o, Published(phase.id))
    case List(_, stale) => Moved(s, a.o, Trimming(phase.id, stale))
    case Evict(_) => Moved(s.(spool := s.spool - {phase.stale[0]}), a.o, Trimming(phase.id, phase.stale[1..]))
    case EndTrim(_) => Moved(s, a.o, Trimmed(phase.id))
    case PostOwn(_, received, acknowledged) =>
      var heard := if received then s.(delivered := s.delivered + {(phase.id, Made(s, phase.id))}) else s;
      Moved(heard, a.o, if acknowledged then Sent(phase.id) else Stopped)
    case UnlinkOwn(_) => Moved(s.(spool := s.spool - {phase.id}), a.o, Stopped)
    case Crash(_) => Moved(s, a.o, Stopped)
  }

  function Moved(s: State, o: nat, phase: Phase): State {
    s.(observers := s.observers[o := phase])
  }

  /** The event an observer is busy with, before it is in the spool. */
  predicate Unpublished(p: Phase, id: Id) {
    p == Writing(id) || p == Written(id)
  }

  /** What a phase says about the rest of the state. */
  ghost predicate PhaseHolds(s: State, p: Phase) {
    match p
    case FlushSent(id, _) => (id, Made(s, id)) in s.delivered
    case Writing(id) => id in s.made && id !in s.published && id in s.temps
    case Written(id) => id in s.made && id !in s.published && id in s.temps && s.temps[id].report == Some(s.made[id])
    case Published(id) => id in s.published
    case Trimming(id, _) => id in s.published
    case Trimmed(id) => id in s.published
    case Sent(id) => (id, Made(s, id)) in s.delivered
    case _ => true
  }

  /** A readable file in the spool is a published report, whole. */
  ghost predicate WholeOrUnreadable(s: State, id: Id) {
    Readable(s.spool, id) == None || (id in s.published && Readable(s.spool, id) == Some(Made(s, id)))
  }

  /** What the hub received is a report as it was made. */
  ghost predicate Genuine(s: State, pair: (Id, string)) {
    pair.0 in s.published && Made(s, pair.0) == pair.1
  }

  ghost predicate Apart(s: State, o: nat, p: nat) {
    o in s.observers && p in s.observers && o != p ==>
      forall id :: Unpublished(s.observers[o], id) ==> !Unpublished(s.observers[p], id)
  }

  ghost predicate Invariant(s: State) {
    && s.published <= s.made.Keys
    && (forall id :: id in s.spool ==> WholeOrUnreadable(s, id))
    && (forall pair :: pair in s.delivered ==> Genuine(s, pair))
    && (forall o :: o in s.observers ==> PhaseHolds(s, s.observers[o]))
    && (forall o, p :: Apart(s, o, p))
  }

  /** Before any observer runs, with whatever earlier observers left behind. */
  ghost predicate Init(s: State) {
    && s.delivered == {}
    && (forall o :: o in s.observers ==> s.observers[o] == Stopped)
    && s.published == s.made.Keys
    && (forall id :: id in s.spool ==> WholeOrUnreadable(s, id))
    && (forall id :: id in s.made ==> Readable(s.spool, id) == Some(s.made[id]))
  }

  lemma {:induction false} InitHolds(s: State)
    requires Init(s)
    ensures Invariant(s)
  {
  }

  // ----- every step -----

  /** The state changed only as these steps may: files go, posts are
      added, and one observer moves on. */
  ghost predicate Advances(s: State, t: State, o: nat, phase: Phase) {
    && o in s.observers && t.observers == s.observers[o := phase]
    && t.made == s.made && t.temps == s.temps && t.published == s.published
    && t.spool.Keys <= s.spool.Keys && (forall id :: id in t.spool ==> t.spool[id] == s.spool[id])
    && s.delivered <= t.delivered
  }

  lemma {:induction false} PhasesAdvance(s: State, t: State, o: nat, phase: Phase)
    requires Invariant(s) && Advances(s, t, o, phase) && PhaseHolds(t, phase)
    ensures forall p :: p in t.observers ==> PhaseHolds(t, t.observers[p])
  {
    forall p | p in t.observers && p != o
      ensures PhaseHolds(t, t.observers[p])
    {
      assert PhaseHolds(s, s.observers[p]);
    }
  }

  lemma {:induction false} Advance(s: State, t: State, o: nat, phase: Phase)
    requires Invariant(s) && Advances(s, t, o, phase) && PhaseHolds(t, phase)
    requires forall id :: !Unpublished(phase, id)
    requires forall pair :: pair in t.delivered && pair !in s.delivered ==> Genuine(t, pair)
    ensures Invariant(t)
  {
    PhasesAdvance(s, t, o, phase);
    hide PhaseHolds, Unpublished;
    assert forall id :: Made(s, id) == Made(t, id);
    forall id | id in t.spool
      ensures WholeOrUnreadable(t, id)
    {
      assert WholeOrUnreadable(s, id);
    }
    assert forall pair :: pair in s.delivered ==> (Genuine(s, pair) ==> Genuine(t, pair));
    forall p, q
      ensures Apart(t, p, q)
    {
      assert Apart(s, p, q);
    }
  }

  lemma {:induction false} MoveKeeps(s: State, a: Action)
    requires Invariant(s) && Enabled(s, a)
    requires a.StartFlush? || a.EndFlush? || a.List? || a.EndTrim? || a.Crash?
    ensures Invariant(Apply(s, a))
  {
    HoldsNow(s, a.o);
    hide Invariant;
    var t := Apply(s, a);
    Advance(s, t, a.o, t.observers[a.o]);
  }

  lemma {:induction false} HoldsNow(s: State, o: nat)
    requires Invariant(s) && o in s.observers
    ensures PhaseHolds(s, s.observers[o])
  {
  }

  lemma {:induction false} ReadsWhole(s: State, id: Id)
    requires Invariant(s) && Readable(s.spool, id).Some?
    ensures id in s.published && Readable(s.spool, id).value == Made(s, id)
  {
    assert WholeOrUnreadable(s, id);
  }

  lemma {:induction false} PostKeeps(s: State, a: Action)
    requires Invariant(s) && Enabled(s, a) && (a.TryNext? || a.PostOwn?)
    ensures Invariant(Apply(s, a))
  {
    HoldsNow(s, a.o);
    hide Invariant;
    var t := Apply(s, a);
    var phase := s.observers[a.o];
    if a.TryNext? && Readable(s.spool, phase.left[0]).Some? {
      ReadsWhole(s, phase.left[0]);
    }
    Advance(s, t, a.o, t.observers[a.o]);
  }

  lemma {:induction false} UnlinkKeeps(s: State, a: Action)
    requires Invariant(s) && Enabled(s, a) && (a.UnlinkSent? || a.Evict? || a.UnlinkOwn?)
    ensures Invariant(Apply(s, a))
  {
    HoldsNow(s, a.o);
    hide Invariant;
    var t := Apply(s, a);
    Advance(s, t, a.o, t.observers[a.o]);
  }

  lemma {:induction false} WriteKeeps(s: State, a: Action)
    requires Invariant(s) && Enabled(s, a) && (a.StartReport? || a.FinishWrite?)
    ensures Invariant(Apply(s, a))
  {
    var t := Apply(s, a);
    var phase := s.observers[a.o];
    assert PhaseHolds(s, phase);
    assert forall id :: id in s.made ==> Made(s, id) == Made(t, id);
    assert forall id :: id in s.spool ==> (WholeOrUnreadable(s, id) ==> WholeOrUnreadable(t, id));
    assert forall pair :: pair in s.delivered ==> (Genuine(s, pair) ==> Genuine(t, pair));
    forall o | o in t.observers
      ensures PhaseHolds(t, t.observers[o])
    {
      if o != a.o {
        assert PhaseHolds(s, s.observers[o]) && Apart(s, a.o, o);
      }
    }
    WritersApart(s, a);
  }

  lemma {:induction false} WritersApart(s: State, a: Action)
    requires Invariant(s) && Enabled(s, a) && (a.StartReport? || a.FinishWrite?)
    ensures forall o, p :: Apart(Apply(s, a), o, p)
  {
    forall o, p
      ensures Apart(Apply(s, a), o, p)
    {
      assert Apart(s, o, p);
      assert o in s.observers ==> PhaseHolds(s, s.observers[o]);
      assert p in s.observers ==> PhaseHolds(s, s.observers[p]);
    }
  }

  lemma {:induction false} PublishKeeps(s: State, a: Action)
    requires Invariant(s) && Enabled(s, a) && a.Publish?
    ensures Invariant(Apply(s, a))
  {
    var t := Apply(s, a);
    var phase := s.observers[a.o];
    assert PhaseHolds(s, phase);
    assert forall id :: Made(s, id) == Made(t, id);
    assert forall id :: id != phase.id && WholeOrUnreadable(s, id) ==> WholeOrUnreadable(t, id);
    assert forall pair :: Genuine(s, pair) ==> Genuine(t, pair);
    forall o | o in t.observers
      ensures PhaseHolds(t, t.observers[o])
    {
      if o != a.o {
        assert PhaseHolds(s, s.observers[o]) && Apart(s, a.o, o);
        assert Unpublished(phase, phase.id);
      }
    }
    assert forall o, p :: Apart(s, o, p) ==> Apart(t, o, p);
  }

  /** A file beyond the first 512 of the listing has 512 at least as new before it. */
  lemma {:induction false} StaleIsOutranked(spool: Spool, stale: seq<Id>, id: Id)
    requires IsStale(spool, stale) && id in stale
    ensures Outranked(spool, id)
  {
    var gone := Elements(stale);
    DistinctSize(stale);
    var kept := spool.Keys - gone;
    assert spool.Keys == kept + gone && kept !! gone;
    assert |spool| == |spool.Keys| == |kept| + |gone|;
    assert |stale| > 0;
    forall k | k in kept
      ensures k in Newer(spool, id)
    {
      assert k !in stale;
    }
    Fewer(kept, Newer(spool, id));
  }

  lemma {:induction false} DistinctSize(s: seq<Id>)
    requires Distinct(s)
    ensures |Elements(s)| == |s|
  {
    if s != [] {
      var n := |s| - 1;
      DistinctSize(s[..n]);
      assert s == s[..n] + [s[n]];
      assert Elements(s) == Elements(s[..n]) + {s[n]};
      assert s[n] !in Elements(s[..n]);
    }
  }

  lemma {:induction false} StepKeeps(s: State, a: Action)
    requires Invariant(s) && Enabled(s, a)
    ensures Invariant(Apply(s, a))
  {
    hide Invariant, Enabled, Apply;
    match a
    case StartFlush(_, _) => MoveKeeps(s, a);
    case EndFlush(_) => MoveKeeps(s, a);
    case EndTrim(_) => MoveKeeps(s, a);
    case Crash(_) => MoveKeeps(s, a);
    case TryNext(_, _, _) => PostKeeps(s, a);
    case PostOwn(_, _, _) => PostKeeps(s, a);
    case UnlinkSent(_) => UnlinkKeeps(s, a);
    case Evict(_) => UnlinkKeeps(s, a);
    case UnlinkOwn(_) => UnlinkKeeps(s, a);
    case StartReport(_, _, _, _) => WriteKeeps(s, a);
    case FinishWrite(_, _) => WriteKeeps(s, a);
    case Publish(_) => PublishKeeps(s, a);
    case List(_, _) => MoveKeeps(s, a);
  }

  // ----- every run -----

  ghost predicate Behaviour(run: seq<State>, actions: seq<Action>) {
    && |run| == |actions| + 1
    && Init(run[0])
    && forall i :: 0 <= i < |actions| ==> Enabled(run[i], actions[i]) && run[i + 1] == Apply(run[i], actions[i])
  }

  lemma {:induction false} EveryRun(run: seq<State>, actions: seq<Action>, k: nat)
    requires Behaviour(run, actions) && k < |run|
    ensures Invariant(run[k])
  {
    hide Invariant, Enabled, Apply, Init;
    if k == 0 {
      InitHolds(run[0]);
    } else {
      EveryRun(run, actions, k - 1);
      StepKeeps(run[k - 1], actions[k - 1]);
      assert run[k - 1 + 1] == Apply(run[k - 1], actions[k - 1]);
    }
  }

  /** How a file leaves the spool in one step: the hub has its report, or an
      observer takes it from the front of its own list of stale files. */
  lemma {:induction false} TwoWaysOut(s: State, a: Action, id: Id)
    requires Invariant(s) && Enabled(s, a) && id in s.spool && id !in Apply(s, a).spool
    ensures || (id, Made(s, id)) in s.delivered
            || (a.Evict? && s.observers[a.o].stale[0] == id)
  {
    HoldsNow(s, a.o);
    hide Invariant, IsStale;
  }

  /** The step removes the file as stale, after a listing by the same observer
      that put it behind 512 files at least as new, since which that observer
      has done nothing but remove stale files. */
  ghost predicate EvictedAsStale(run: seq<State>, actions: seq<Action>, i: nat, id: Id)
    requires |run| == |actions| + 1
  {
    && i < |actions| && actions[i].Evict?
    && exists j :: 0 <= j < i && ListedStale(run, actions, j, i, actions[i].o, id)
  }

  ghost predicate ListedStale(run: seq<State>, actions: seq<Action>, j: nat, i: nat, o: nat, id: Id)
    requires |run| == |actions| + 1
  {
    && j < i <= |actions| && actions[j].List? && actions[j].o == o && id in actions[j].stale
    && Outranked(run[j].spool, id)
    && forall l :: j < l < i && actions[l].o == o ==> actions[l].Evict?
  }

  /** What an observer still has to remove comes from its last listing. */
  lemma {:induction false} StaleWasListed(run: seq<State>, actions: seq<Action>, k: nat, o: nat, id: Id)
    requires Behaviour(run, actions) && k < |run| && o in run[k].observers
    requires run[k].observers[o].Trimming? && id in run[k].observers[o].stale
    ensures exists j :: 0 <= j < k && ListedStale(run, actions, j, k, o, id)
    decreases k
  {
    hide Outranked, IsStale, Apply, Enabled;
    if k > 0 {
      var a := actions[k - 1];
      assert Enabled(run[k - 1], a) && run[k - 1 + 1] == Apply(run[k - 1], a);
      TrimmingStep(run[k - 1], a, o, id);
      if a.o == o && a.List? {
        StaleIsOutranked(run[k - 1].spool, a.stale, id);
        assert ListedStale(run, actions, k - 1, k, o, id);
      } else {
        StaleWasListed(run, actions, k - 1, o, id);
        var j :| 0 <= j < k - 1 && ListedStale(run, actions, j, k - 1, o, id);
        assert ListedStale(run, actions, j, k, o, id);
      }
    }
  }

  lemma {:induction false} TrimmingStep(s: State, a: Action, o: nat, id: Id)
    requires Enabled(s, a) && o in Apply(s, a).observers
    requires Apply(s, a).observers[o].Trimming? && id in Apply(s, a).observers[o].stale
    ensures a.o == o && a.List? ==> id in a.stale && IsStale(s.spool, a.stale)
    ensures !(a.o == o && a.List?) ==>
      && o in s.observers && s.observers[o].Trimming? && id in s.observers[o].stale
      && (a.o == o ==> a.Evict?)
  {
    hide IsStale, Readable, Distinct;
  }

  /** On every run a file leaves the spool in two ways only. */
  lemma {:induction false} LeavesOnlySo(run: seq<State>, actions: seq<Action>, i: nat, id: Id)
    requires Behaviour(run, actions) && i < |actions| && id in run[i].spool && id !in run[i + 1].spool
    ensures (id, Made(run[i], id)) in run[i].delivered || EvictedAsStale(run, actions, i, id)
  {
    hide Outranked, Invariant, IsStale, ListedStale, Init, Apply;
    EveryRun(run, actions, i);
    TwoWaysOut(run[i], actions[i], id);
    if (id, Made(run[i], id)) !in run[i].delivered {
      var phase := run[i].observers[actions[i].o];
      assert id == phase.stale[0];
      StaleWasListed(run, actions, i, actions[i].o, id);
    }
  }

  /** A published report and how it fares in one step. */
  lemma {:induction false} PublishedStep(s: State, a: Action, id: Id)
    requires Enabled(s, a) && Invariant(s)
    ensures id in s.published ==>
      && id in Apply(s, a).published && Made(Apply(s, a), id) == Made(s, id)
      && (id in s.spool && id in Apply(s, a).spool ==> Apply(s, a).spool[id] == s.spool[id])
    ensures id !in s.published && id in Apply(s, a).published ==>
      Readable(Apply(s, a).spool, id) == Some(Made(Apply(s, a), id))
    ensures s.delivered <= Apply(s, a).delivered
  {
    HoldsNow(s, a.o);
    hide IsStale;
  }

  /** At least once: however observers interleave and die, a report that reached
      the spool is still there, whole, or at the hub, or an observer has removed
      it as stale, after listing it behind 512 files at least as new. */
  lemma {:induction false} NoReportIsLost(run: seq<State>, actions: seq<Action>, k: nat, id: Id)
    requires Behaviour(run, actions) && k < |run| && id in run[k].published
    ensures || Readable(run[k].spool, id) == Some(Made(run[k], id))
            || (id, Made(run[k], id)) in run[k].delivered
            || exists i :: 0 <= i < k && EvictedAsStale(run, actions, i, id)
    decreases k
  {
    hide Outranked, Invariant, IsStale, EvictedAsStale, Apply, Enabled;
    if k > 0 {
      var s, a := run[k - 1], actions[k - 1];
      assert Enabled(s, a) && run[k - 1 + 1] == Apply(s, a);
      EveryRun(run, actions, k - 1);
      PublishedStep(s, a, id);
      if id in s.published {
        NoReportIsLost(run, actions, k - 1, id);
        if Readable(s.spool, id) == Some(Made(s, id)) && id !in run[k].spool {
          LeavesOnlySo(run, actions, k - 1, id);
        }
      }
    }
  }

  /** Once published, always published, as the same report. */
  lemma {:induction false} PublishedStays(run: seq<State>, actions: seq<Action>, i: nat, k: nat, id: Id)
    requires Behaviour(run, actions) && i <= k < |run| && id in run[i].published
    ensures id in run[k].published && Made(run[k], id) == Made(run[i], id)
    decreases k - i
  {
    hide Outranked, Invariant, Enabled, Apply, Init, Made;
    if i < k {
      PublishedStays(run, actions, i, k - 1, id);
      EveryRun(run, actions, k - 1);
      PublishedStep(run[k - 1], actions[k - 1], id);
      assert run[k - 1 + 1] == Apply(run[k - 1], actions[k - 1]);
    }
  }

  /** Nothing the hub receives, and nothing readable in the spool, is anything
      but a whole report as its observer made it. */
  lemma {:induction false} NothingFabricated(run: seq<State>, actions: seq<Action>, k: nat, id: Id)
    requires Behaviour(run, actions) && k < |run|
    ensures forall report :: (id, report) in run[k].delivered ==> id in run[k].made && run[k].made[id] == report
    ensures Readable(run[k].spool, id).Some? ==>
      id in run[k].made && run[k].made[id] == Readable(run[k].spool, id).value
  {
    hide Behaviour, Enabled, Apply, Init, Outranked;
    EveryRun(run, actions, k);
    forall report | (id, report) in run[k].delivered
      ensures id in run[k].made && run[k].made[id] == report
    {
      assert Genuine(run[k], (id, report));
    }
    if id in run[k].spool {
      assert WholeOrUnreadable(run[k], id);
    }
  }

  // ----- draining -----

  /** A spooled file in name order: can it be read, and does the hub take it. */
  datatype Waiting = Waiting(id: Id, readable: bool, accepted: bool)

  predicate Blocked(w: Waiting) {
    !w.readable || !w.accepted
  }

  function Stay(files: seq<Waiting>): seq<Waiting> {
    if files == [] then []
    else Stay(files[..|files| - 1]) + (if Blocked(files[|files| - 1]) then [files[|files| - 1]] else [])
  }

  /** One flush tries the first hundred names and leaves what it cannot send. */
  function Flushed(files: seq<Waiting>): seq<Waiting> {
    var n := Min(FLUSH_LIMIT, |files|);
    Stay(files[..n]) + files[n..]
  }

  function FlushedTimes(files: seq<Waiting>, times: nat): seq<Waiting>
    decreases times
  {
    if times == 0 then files else FlushedTimes(Flushed(files), times - 1)
  }

  method FlushSpool(files: seq<Waiting>) returns (left: seq<Waiting>, sent: nat)
    ensures left == Flushed(files) && |left| + sent == |files|
  {
    hide Stay;
    var n := Min(FLUSH_LIMIT, |files|);
    left := [];
    sent := 0;
    StayNothing();
    for i := 0 to n
      invariant left == Stay(files[..i]) && |left| + sent == i
    {
      StaySnoc(files, i);
      if !files[i].readable {
        left := left + [files[i]];
        continue;
      }
      if files[i].accepted {
        sent := sent + 1;
      } else {
        left := left + [files[i]];
      }
    }
    left := left + files[n..];
  }

  /** The files are in the order of their names, whatever that order is. */
  ghost predicate Ranked(files: seq<Waiting>, rank: Id -> int) {
    forall i, j :: 0 <= i < j < |files| ==> rank(files[i].id) < rank(files[j].id)
  }

  /** A flush takes away exactly those of the first hundred files that can be
      read and are accepted; the others keep their order. */
  lemma {:induction false} FlushExactly(files: seq<Waiting>, rank: Id -> int)
    requires Ranked(files, rank)
    ensures forall p :: 0 <= p < |files| ==>
      (files[p] in Flushed(files) <==> p >= 100 || !files[p].readable || !files[p].accepted)
    ensures forall w :: w in Flushed(files) ==> w in files
    ensures Ranked(Flushed(files), rank)
  {
    hide Stay, Ranked;
    var n := Min(FLUSH_LIMIT, |files|);
    var first, rest := files[..n], files[n..];
    StayStays(first);
    Halves(files, n, rank);
    StayKeepsRanks(first, rank);
    assert files == first + rest;
    forall p | 0 <= p < |files|
      ensures files[p] in first <==> p < n
      ensures files[p] in rest <==> p >= n
    {
      WhichHalf(files, n, p, rank);
    }
    RanksJoin(Stay(first), rest, first, rank);
  }

  lemma {:induction false} Halves(files: seq<Waiting>, n: nat, rank: Id -> int)
    requires n <= |files| && Ranked(files, rank)
    ensures Ranked(files[..n], rank) && Ranked(files[n..], rank)
    ensures forall w, v :: w in files[..n] && v in files[n..] ==> rank(w.id) < rank(v.id)
  {
    forall w, v | w in files[..n] && v in files[n..]
      ensures rank(w.id) < rank(v.id)
    {
      var i :| 0 <= i < n && files[..n][i] == w;
      var j :| 0 <= j < |files| - n && files[n..][j] == v;
      assert files[i] == w && files[n + j] == v;
    }
  }

  lemma {:induction false} WhichHalf(files: seq<Waiting>, n: nat, p: nat, rank: Id -> int)
    requires n <= |files| && p < |files| && Ranked(files, rank)
    ensures files[p] in files[..n] <==> p < n
    ensures files[p] in files[n..] <==> p >= n
  {
    hide Ranked;
    Halves(files, n, rank);
    if p < n {
      assert files[..n][p] == files[p];
    } else {
      assert files[n..][p - n] == files[p];
    }
  }

  lemma {:induction false} StayKeepsRanks(files: seq<Waiting>, rank: Id -> int)
    requires Ranked(files, rank)
    ensures Ranked(Stay(files), rank)
  {
    hide Stay, Blocked, Ranked;
    StayNothing();
    if files != [] {
      var n := |files| - 1;
      Halves(files, n, rank);
      StayKeepsRanks(files[..n], rank);
      StaySnoc(files, n);
      assert files[..n + 1] == files && files[n..] == [files[n]];
      StayStays(files[..n]);
      RanksJoin(Stay(files[..n]), [files[n]], files[..n], rank);
      assert Stay(files[..n]) + [] == Stay(files[..n]);
    } else {
      assert Stay(files) == files;
    }
  }

  lemma {:induction false} RanksJoin(a: seq<Waiting>, b: seq<Waiting>, from: seq<Waiting>, rank: Id -> int)
    requires Ranked(a, rank) && Ranked(b, rank)
    requires forall w, v :: w in from && v in b ==> rank(w.id) < rank(v.id)
    requires forall w :: w in a ==> w in from
    ensures Ranked(a + b, rank)
  {
    assert forall i :: 0 <= i < |a| ==> a[i] in from;
    assert forall i :: 0 <= i < |b| ==> b[i] in b;
  }

  lemma {:induction false} StayNothing()
    ensures Stay([]) == []
  {
  }

  lemma {:induction false} StaySnoc(files: seq<Waiting>, i: nat)
    requires i < |files|
    ensures Stay(files[..i + 1]) == Stay(files[..i]) + (if Blocked(files[i]) then [files[i]] else [])
  {
    assert files[..i + 1][..i] == files[..i];
  }

  /** How many files before that place can never be sent. */
  function BlockedBefore(files: seq<Waiting>, p: nat): nat
    requires p <= |files|
  {
    |Stay(files[..p])|
  }

  lemma {:induction false} StayConcat(a: seq<Waiting>, b: seq<Waiting>)
    ensures Stay(a + b) == Stay(a) + Stay(b)
    decreases |b|
  {
    hide Blocked;
    if b == [] {
      assert a + b == a;
    } else {
      var n := |b| - 1;
      StayConcat(a, b[..n]);
      assert (a + b)[..|a + b| - 1] == a + b[..n] && (a + b)[|a + b| - 1] == b[n];
    }
  }

  lemma {:induction false} StayStays(files: seq<Waiting>)
    ensures Stay(Stay(files)) == Stay(files) && |Stay(files)| <= |files|
    ensures forall w :: w in Stay(files) <==> w in files && Blocked(w)
    decreases |files|
  {
    hide Stay, Blocked;
    StayNothing();
    if files != [] {
      var n := |files| - 1;
      StayStays(files[..n]);
      StayConcat(Stay(files[..n]), [files[n]]);
      StayOne(files[n]);
      StaySnoc(files, n);
      assert files == files[..n] + [files[n]];
      assert files[..n + 1] == files;
      var before := Stay(files[..n]);
      assert before + [] == before && Stay(before) + [] == before;
      assert Stay(files) == before || Stay(files) == before + [files[n]];
      assert forall w :: w in files <==> w in files[..n] || w == files[n];
      assert forall w :: w in Stay(files) <==> w in Stay(files[..n]) || (w == files[n] && Blocked(w));
    }
  }

  lemma {:induction false} StayOne(w: Waiting)
    ensures Stay([w]) == if Blocked(w) then [w] else []
  {
    assert [w][..0] == [];
  }

  /** A file that is sent once tried has gone exactly when fewer than a hundred
      unsendable ones precede it. */
  lemma {:induction false} StarvedExactly(files: seq<Waiting>, p: nat, times: nat)
    requires p < |files| && !Blocked(files[p])
    requires forall i, j :: 0 <= i < j < |files| ==> files[i].id != files[j].id
    ensures BlockedBefore(files, p) >= FLUSH_LIMIT ==> files[p] in FlushedTimes(files, times)
    ensures BlockedBefore(files, p) < FLUSH_LIMIT && times > p ==> files[p] !in FlushedTimes(files, times)
    decreases times
  {
    hide Stay, Blocked, Flushed;
    if times > 0 {
      var next := Flushed(files);
      FlushKeepsNames(files);
      if p < FLUSH_LIMIT {
        GoneNow(files, p);
        StayShort(files, p);
        FlushedTimesWithin(next, times - 1, files[p]);
      } else {
        var q := MovesUp(files, p);
        StarvedExactly(next, q, times - 1);
      }
    }
  }

  lemma {:induction false} StayShort(files: seq<Waiting>, p: nat)
    requires p <= |files|
    ensures BlockedBefore(files, p) <= p
  {
    StayStays(files[..p]);
  }

  lemma {:induction false} FlushKeepsNames(files: seq<Waiting>)
    requires forall i, j :: 0 <= i < j < |files| ==> files[i].id != files[j].id
    ensures forall i, j :: 0 <= i < j < |Flushed(files)| ==> Flushed(files)[i].id != Flushed(files)[j].id
  {
    hide Stay, Blocked;
    var n := Min(FLUSH_LIMIT, |files|);
    StayKeepsNames(files[..n]);
    StayStays(files[..n]);
    var kept, rest := Stay(files[..n]), files[n..];
    forall i, j | 0 <= i < |kept| && 0 <= j < |rest|
      ensures kept[i].id != rest[j].id
    {
      assert kept[i] in files[..n];
      assert rest[j] == files[n + j];
    }
  }

  lemma {:induction false} StayKeepsNames(files: seq<Waiting>)
    requires forall i, j :: 0 <= i < j < |files| ==> files[i].id != files[j].id
    ensures forall i, j :: 0 <= i < j < |Stay(files)| ==> Stay(files)[i].id != Stay(files)[j].id
    decreases |files|
  {
    hide Blocked, Stay;
    StayNothing();
    if files != [] {
      var n := |files| - 1;
      StayKeepsNames(files[..n]);
      StayStays(files[..n]);
      StaySnoc(files, n);
      assert files[..n + 1] == files;
      var kept := Stay(files[..n]);
      forall i | 0 <= i < |kept|
        ensures kept[i].id != files[n].id
      {
        assert kept[i] in files[..n];
      }
    }
  }

  lemma {:induction false} FlushedTimesWithin(files: seq<Waiting>, times: nat, w: Waiting)
    ensures w in FlushedTimes(files, times) ==> w in files
    decreases times
  {
    hide Stay;
    if times > 0 {
      FlushedTimesWithin(Flushed(files), times - 1, w);
      StayStays(files[..Min(FLUSH_LIMIT, |files|)]);
    }
  }

  lemma {:induction false} GoneNow(files: seq<Waiting>, p: nat)
    requires p < |files| && p < FLUSH_LIMIT && !Blocked(files[p])
    requires forall i, j :: 0 <= i < j < |files| ==> files[i].id != files[j].id
    ensures files[p] !in Flushed(files)
  {
    hide Stay, Blocked;
    var n := Min(FLUSH_LIMIT, |files|);
    StayStays(files[..n]);
    forall j | n <= j < |files|
      ensures files[j] != files[p]
    {
      assert files[p].id != files[j].id;
    }
  }

  /** A file behind the first hundred moves up, past everything sent before it,
      with the same unsendable files still before it. */
  lemma {:induction false} MovesUp(files: seq<Waiting>, p: nat) returns (q: nat)
    requires FLUSH_LIMIT <= p < |files| && !Blocked(files[p])
    ensures q < |Flushed(files)| && Flushed(files)[q] == files[p] && q <= p
    ensures BlockedBefore(Flushed(files), q) == BlockedBefore(files, p)
    ensures BlockedBefore(files, p) < FLUSH_LIMIT ==> q < p
  {
    hide Stay, Blocked;
    var n := FLUSH_LIMIT;
    var first, middle := files[..n], files[n..p];
    StayStays(first);
    q := |Stay(first)| + (p - n);
    assert Flushed(files)[..q] == Stay(first) + middle;
    assert files[..p] == first + middle;
    StayConcat(first, middle);
    StayConcat(Stay(first), middle);
  }

  /** A hundred files that cannot be read, and a good one behind them by name. */
  function Jam(): (files: seq<Waiting>)
    ensures |files| == FLUSH_LIMIT + 1
    ensures forall i :: 0 <= i < |files| ==> files[i] == Waiting(i, i == FLUSH_LIMIT, true)
  {
    seq(FLUSH_LIMIT + 1, i requires 0 <= i => Waiting(i, i == FLUSH_LIMIT, true))
  }

  lemma {:induction false} AllStay(files: seq<Waiting>)
    requires forall i :: 0 <= i < |files| ==> Blocked(files[i])
    ensures Stay(files) == files
    decreases |files|
  {
    if files != [] {
      var n := |files| - 1;
      AllStay(files[..n]);
      assert files == files[..n] + [files[n]];
    }
  }

  /** The good file is never sent, however often the spool is flushed. */
  lemma {:induction false} JammedForEver(times: nat)
    ensures var good := Jam()[FLUSH_LIMIT];
      !Blocked(good) && good in FlushedTimes(Jam(), times)
  {
    hide Stay, Jam;
    var files := Jam();
    AllStay(files[..FLUSH_LIMIT]);
    StarvedExactly(files, FLUSH_LIMIT, times);
  }
}
