/**
 Concurrent writers that replace one file, on a file system that may lose
 whatever has not been synced.  The steps of all writers interleave freely,
 and a crash may come between any two of them.
 */
module AtomicFile {
  import opened Outcomes

  type Content = seq<int>
  type Name = string

  /** Only the content of a synced inode survives a crash. */
  datatype Inode = Inode(content: Content, synced: bool)

  datatype Phase =
    | Writing     // the body of the with-statement is running
    | Synced      // flushed and fsynced
    | Ready       // mode set
    | Renamed     // in place; the directory sync is still to come
    | Finished
    | Raising     // an exception is on its way out
    | Failed      // the temporary has been removed

  datatype Writer = Writer(temp: Name, inode: nat, data: Content, written: nat, phase: Phase)

  /** `log` holds what the target's name has meant, oldest first; after a crash
      it means one of the entries from `durable` on.  `offered` remembers what
      the creator of each inode means to write. */
  datatype State = State(
    target: Name,
    directory: map<Name, nat>,
    inodes: map<nat, Inode>,
    writers: map<nat, Writer>,
    log: seq<Option<nat>>,
    durable: nat,
    offered: map<nat, Content>)

  datatype Action =
    | Begin(id: nat, temp: Name, inode: nat, data: Content)
    | Write(id: nat, size: nat)
    | Sync(id: nat)
    | SetMode(id: nat)
    | Replace(id: nat)
    | SyncDirectory(id: nat)
    | SkipDirectory(id: nat)    // the platform refuses to sync a directory
    | Raise(id: nat)
    | Unlink(id: nat)
    | Crash(survivor: nat, directory: map<Name, nat>, garbage: map<nat, Content>)

  /** Writing `chunk` at position `at` of a file. */
  function Overlay(content: Content, at: nat, chunk: Content): Content {
    if at > |content| then content + seq(at - |content|, _ => 0) + chunk
    else content[..at] + chunk + if at + |chunk| <= |content| then content[at + |chunk|..] else []
  }

  predicate Unfinished(w: Writer) {
    w.phase.Writing? || w.phase.Synced? || w.phase.Ready? || w.phase.Raising?
  }

  predicate InPhase(s: State, id: nat, phase: Phase) {
    id in s.writers && s.writers[id].phase == phase
  }

  function Binding(s: State): Option<nat> {
    if s.target in s.directory then Some(s.directory[s.target]) else None
  }

  predicate Enabled(s: State, a: Action) {
    match a
    case Begin(id, temp, inode, _) =>
      id !in s.writers && temp != s.target && temp !in s.directory && inode !in s.inodes && inode !in s.offered
    case Write(id, size) =>
      InPhase(s, id, Writing) && s.writers[id].inode in s.inodes && s.writers[id].written + size <= |s.writers[id].data|
    case Sync(id) =>
      InPhase(s, id, Writing) && s.writers[id].inode in s.inodes && s.writers[id].written == |s.writers[id].data|
    case SetMode(id) => InPhase(s, id, Synced)
    case Replace(id) => InPhase(s, id, Ready) && s.writers[id].temp in s.directory
    case SyncDirectory(id) => InPhase(s, id, Renamed) && s.log != []
    case SkipDirectory(id) => InPhase(s, id, Renamed)
    case Raise(id) => InPhase(s, id, Writing) || InPhase(s, id, Synced) || InPhase(s, id, Ready)
    case Unlink(id) => InPhase(s, id, Raising)
    case Crash(survivor, directory, garbage) =>
      && s.durable <= survivor < |s.log|
      && directory.Values <= s.inodes.Keys && s.inodes.Keys <= garbage.Keys
      && (if s.target in directory then Some(directory[s.target]) else None) == s.log[survivor]
  }

  function Become(s: State, id: nat, phase: Phase): State
    requires id in s.writers
  {
    s.(writers := s.writers[id := s.writers[id].(phase := phase)])
  }

  function AfterCrash(inode: Inode, garbage: Content): Inode {
    if inode.synced then inode else Inode(garbage, true)
  }

  function Apply(s: State, a: Action): State
    requires Enabled(s, a)
  {
    match a
    case Begin(id, temp, inode, data) =>
      s.(directory := s.directory[temp := inode],
         inodes := s.inodes[inode := Inode([], false)],
         writers := s.writers[id := Writer(temp, inode, data, 0, Writing)],
         offered := s.offered[inode := data])
    case Write(id, size) =>
      var w := s.writers[id];
      var content := Overlay(s.inodes[w.inode].content, w.written, w.data[w.written..w.written + size]);
      s.(inodes := s.inodes[w.inode := Inode(content, false)],
         writers := s.writers[id := w.(written := w.written + size)])
    case Sync(id) =>
      var i := s.writers[id].inode;
      Become(s, id, Synced).(inodes := s.inodes[i := s.inodes[i].(synced := true)])
    case SetMode(id) => Become(s, id, Ready)
    case Replace(id) =>
      var temp := s.writers[id].temp;
      Become(s, id, Renamed).(
        directory := (s.directory - {temp})[s.target := s.directory[temp]],
        log := s.log + [Some(s.directory[temp])])
    case SyncDirectory(id) => Become(s, id, Finished).(durable := |s.log| - 1)
    case SkipDirectory(id) => Become(s, id, Finished)
    case Raise(id) => Become(s, id, Raising)
    case Unlink(id) => Become(s, id, Failed).(directory := s.directory - {s.writers[id].temp})
    case Crash(survivor, directory, garbage) =>
      s.(directory := directory,
         inodes := map i | i in s.inodes :: AfterCrash(s.inodes[i], garbage[i]),
         writers := map[],
         log := s.log[..survivor + 1],
         durable := survivor)
  }

  // ----- what every run keeps -----

  /** The file at rest: one synced inode, or no file at all. */
  ghost predicate Initial(s: State) {
    && s.writers == map[] && s.durable == 0 && s.log == [Binding(s)]
    && s.directory.Values <= s.inodes.Keys == s.offered.Keys
    && forall i :: i in s.inodes ==> s.inodes[i] == Inode(s.offered[i], true)
  }

  /** What the target's name stands for holds, safely, what was offered. */
  predicate Whole(s: State, binding: Option<nat>) {
    binding.Some? ==>
      var i := binding.value;
      i in s.inodes && i in s.offered && s.inodes[i] == Inode(s.offered[i], true)
  }

  ghost predicate Tidy(s: State, w: Writer) {
    && w.inode in s.inodes && w.inode in s.offered && s.offered[w.inode] == w.data
    && w.temp != s.target && w.temp in s.directory && s.directory[w.temp] == w.inode
    && w.written <= |w.data|
    && (w.phase.Writing? ==> s.inodes[w.inode] == Inode(w.data[..w.written], false))
    && (w.phase.Synced? || w.phase.Ready? ==> s.inodes[w.inode] == Inode(w.data, true))
    && Some(w.inode) !in s.log
  }

  /** Two unfinished writers share neither a name nor an inode. */
  ghost predicate Separate(s: State, a: nat, b: nat)
    requires a in s.writers && b in s.writers
  {
    a != b && Unfinished(s.writers[a]) && Unfinished(s.writers[b]) ==>
      s.writers[a].temp != s.writers[b].temp && s.writers[a].inode != s.writers[b].inode
  }

  ghost predicate Invariant(s: State) {
    && s.durable < |s.log| && Binding(s) == s.log[|s.log| - 1]
    && s.inodes.Keys == s.offered.Keys && s.directory.Values <= s.inodes.Keys
    && (forall b :: b in s.log ==> Whole(s, b))
    && (forall id :: id in s.writers && Unfinished(s.writers[id]) ==> Tidy(s, s.writers[id]))
    && (forall a, b :: a in s.writers && b in s.writers ==> Separate(s, a, b))
  }

  lemma {:induction false} InitialKeeps(s: State)
    requires Initial(s)
    ensures Invariant(s)
  {
    if s.target in s.directory {
      assert s.directory[s.target] in s.directory.Values;
    }
  }

  lemma {:induction false} BeginKeeps(s: State, a: Action)
    requires Invariant(s) && a.Begin? && Enabled(s, a)
    ensures Invariant(Apply(s, a))
  {
    var s' := Apply(s, a);
    forall v | v in s'.directory.Values
      ensures v in s'.inodes.Keys
    {
      var n :| n in s'.directory && s'.directory[n] == v;
      assert n != a.temp ==> s.directory[n] in s.directory.Values;
    }
    forall id | id in s.writers && Unfinished(s.writers[id])
      ensures s.writers[id].inode != a.inode && s.writers[id].temp != a.temp
    {
      assert Tidy(s, s.writers[id]);
    }
    assert Some(a.inode) !in s.log;
  }

  /** What a write leaves in the file: the data up to where it has come. */
  lemma {:induction false} OverlayExtends(data: Content, written: nat, size: nat)
    requires written + size <= |data|
    ensures Overlay(data[..written], written, data[written..written + size]) == data[..written + size]
  {
    assert data[..written] + data[written..written + size] == data[..written + size];
  }

  lemma {:induction false} WriteKeeps(s: State, a: Action)
    requires Invariant(s) && (a.Write? || a.Sync?) && Enabled(s, a)
    ensures Invariant(Apply(s, a))
  {
    hide Overlay;
    var w := s.writers[a.id];
    assert Tidy(s, w);
    if a.Write? {
      OverlayExtends(w.data, w.written, a.size);
    } else {
      assert w.data[..w.written] == w.data;
    }
    var s' := Apply(s, a);
    forall id | id in s'.writers && Unfinished(s'.writers[id])
      ensures Tidy(s', s'.writers[id])
    {
      assert Tidy(s, s.writers[id]);
      assert id != a.id ==> Separate(s, id, a.id);
    }
    forall b, c | b in s'.writers && c in s'.writers
      ensures Separate(s', b, c)
    {
      assert Separate(s, b, c);
    }
  }

  lemma {:induction false} PhaseKeeps(s: State, a: Action)
    requires Invariant(s) && Enabled(s, a)
    requires a.SetMode? || a.SyncDirectory? || a.SkipDirectory? || a.Raise?
    ensures Invariant(Apply(s, a))
  {
    var s' := Apply(s, a);
    forall id | id in s'.writers && Unfinished(s'.writers[id])
      ensures Tidy(s', s'.writers[id])
    {
      assert Tidy(s, s.writers[id]);
    }
    forall b, c | b in s'.writers && c in s'.writers
      ensures Separate(s', b, c)
    {
      assert Separate(s, b, c);
    }
  }

  lemma {:induction false} NameKeeps(s: State, a: Action)
    requires Invariant(s) && (a.Replace? || a.Unlink?) && Enabled(s, a)
    ensures Invariant(Apply(s, a))
  {
    var w := s.writers[a.id];
    assert Tidy(s, w);
    var s' := Apply(s, a);
    forall v | v in s'.directory.Values
      ensures v in s'.inodes.Keys
    {
      var n :| n in s'.directory && s'.directory[n] == v;
      assert s.directory[w.temp] in s.directory.Values;
      assert n != s.target ==> s.directory[n] in s.directory.Values;
      assert a.Unlink? ==> s.directory[n] in s.directory.Values;
    }
    forall id | id in s'.writers && Unfinished(s'.writers[id])
      ensures Tidy(s', s'.writers[id])
    {
      assert Tidy(s, s.writers[id]);
      assert Separate(s, id, a.id);
    }
    forall b, c | b in s'.writers && c in s'.writers
      ensures Separate(s', b, c)
    {
      assert Separate(s, b, c);
    }
  }

  lemma {:induction false} StepKeeps(s: State, a: Action)
    requires Invariant(s) && Enabled(s, a)
    ensures Invariant(Apply(s, a))
  {
    hide Invariant, Apply, Enabled;
    match a
    case Begin(_, _, _, _) => BeginKeeps(s, a);
    case Write(_, _) => WriteKeeps(s, a);
    case Sync(_) => WriteKeeps(s, a);
    case Replace(_) => NameKeeps(s, a);
    case Unlink(_) => NameKeeps(s, a);
    case Crash(_, _, _) => CrashKeeps(s, a);
    case _ => PhaseKeeps(s, a);
  }

  lemma {:induction false} CrashKeeps(s: State, a: Action)
    requires Invariant(s) && a.Crash? && Enabled(s, a)
    ensures Invariant(Apply(s, a))
  {
    var s' := Apply(s, a);
    forall b | b in s'.log
      ensures Whole(s', b)
    {
      assert b in s.log;
      assert Whole(s, b);
    }
  }

  /** What reading the target gives. */
  function Reading(s: State): Option<Content> {
    match Binding(s)
    case None => None
    case Some(i) => if i in s.inodes then Some(s.inodes[i].content) else None
  }

  ghost predicate Behaviour(run: seq<State>, actions: seq<Action>) {
    && |run| == |actions| + 1
    && Initial(run[0])
    && forall i :: 0 <= i < |actions| ==> Enabled(run[i], actions[i]) && run[i + 1] == Apply(run[i], actions[i])
  }

  lemma {:induction false} EveryRun(run: seq<State>, actions: seq<Action>, k: nat)
    requires Behaviour(run, actions) && k < |run|
    ensures Invariant(run[k])
    decreases k
  {
    hide Invariant, Apply, Enabled, Initial;
    if k == 0 {
      InitialKeeps(run[0]);
    } else {
      EveryRun(run, actions, k - 1);
      StepKeeps(run[k - 1], actions[k - 1]);
    }
  }

  /** What was ever offered: the content at rest, and what a writer began with. */
  ghost predicate Offered(run: seq<State>, actions: seq<Action>, k: nat, c: Option<Content>)
    requires |run| > 0 && k <= |actions|
  {
    c == Reading(run[0]) || exists j :: 0 <= j < k && actions[j].Begin? && c == Some(actions[j].data)
  }

  /** Wherever a run is looked at, and so also after any of its crashes, the
      target reads as it did at first or as the complete data of one writer. */
  lemma {:induction false} NeverTorn(run: seq<State>, actions: seq<Action>, k: nat)
    requires Behaviour(run, actions) && k < |run|
    ensures Offered(run, actions, k, Reading(run[k]))
  {
    hide Apply, Enabled;
    EveryRun(run, actions, k);
    var b := Binding(run[k]);
    assert b in run[k].log;
    LogOffered(run, actions, k, b);
    assert Whole(run[k], b);
  }

  /** Every writer was begun, with the data it has. */
  lemma {:induction false} WriterOffered(run: seq<State>, actions: seq<Action>, k: nat, id: nat)
    requires Behaviour(run, actions) && k < |run| && id in run[k].writers
    ensures exists j :: 0 <= j < k && actions[j].Begin? && actions[j].data == run[k].writers[id].data
    decreases k
  {
    assert k > 0;
    var a := actions[k - 1];
    assert Enabled(run[k - 1], a) && run[k] == Apply(run[k - 1], a);
    if a.Begin? && a.id == id {
      assert a.data == run[k].writers[id].data;
    } else {
      assert id in run[k - 1].writers && run[k - 1].writers[id].data == run[k].writers[id].data;
      WriterOffered(run, actions, k - 1, id);
    }
  }

  function OfferedAs(s: State, b: Option<nat>): Option<Content> {
    if b.Some? && b.value in s.offered then Some(s.offered[b.value]) else None
  }

  /** Each entry of the log stands for the first content or a writer's data. */
  lemma {:induction false} LogOffered(run: seq<State>, actions: seq<Action>, k: nat, b: Option<nat>)
    requires Behaviour(run, actions) && k < |run| && b in run[k].log
    ensures Offered(run, actions, k, OfferedAs(run[k], b))
    decreases k
  {
    hide Enabled, Apply, Invariant;
    if k > 0 {
      var s, a := run[k - 1], actions[k - 1];
      assert Enabled(s, a) && run[k] == Apply(s, a);
      EveryRun(run, actions, k - 1);
      LogStep(s, a, b);
      if b in s.log {
        LogOffered(run, actions, k - 1, b);
      } else {
        WriterOffered(run, actions, k - 1, a.id);
      }
    }
  }

  /** Only a rename adds to the log, and what it adds is its writer's data. */
  lemma {:induction false} LogStep(s: State, a: Action, b: Option<nat>)
    requires Invariant(s) && Enabled(s, a) && b in Apply(s, a).log
    ensures b in s.log ==> OfferedAs(Apply(s, a), b) == OfferedAs(s, b)
    ensures b !in s.log ==>
      a.Replace? && a.id in s.writers && OfferedAs(Apply(s, a), b) == Some(s.writers[a.id].data)
  {
    if b in s.log {
      assert Whole(s, b);
    } else {
      assert Tidy(s, s.writers[a.id]);
    }
  }

  // ----- what single steps do -----

  /** A writer that raises leaves the target alone and takes only its own
      temporary with it. */
  lemma {:induction false} RaisingIsHarmless(s: State, a: Action)
    requires Invariant(s) && Enabled(s, a) && (a.Raise? || a.Unlink?)
    ensures var s' := Apply(s, a);
      && Binding(s') == Binding(s) && Reading(s') == Reading(s) && s'.log == s.log && s'.inodes == s.inodes
      && (a.Raise? ==> s'.directory == s.directory)
      && (a.Unlink? ==>
          var w := s.writers[a.id];
          && w.temp in s.directory && s.directory[w.temp] == w.inode
          && s'.directory == s.directory - {w.temp}
          && forall id :: id in s.writers && id != a.id && Unfinished(s.writers[id]) ==>
               s.writers[id].temp in s'.directory)
  {
    var w := s.writers[a.id];
    assert Tidy(s, w);
    if a.Unlink? {
      forall id | id in s.writers && id != a.id && Unfinished(s.writers[id])
        ensures s.writers[id].temp in s.directory && s.writers[id].temp != w.temp
      {
        assert Tidy(s, s.writers[id]);
        assert Separate(s, id, a.id);
      }
    }
  }

  /** A writer about to rename succeeds, and its complete data is what the
      target then reads; its temporary name is gone, and no other name and no
      file has changed. */
  lemma {:induction false} ReplacingPublishes(s: State, id: nat)
    requires Invariant(s) && InPhase(s, id, Ready)
    ensures Enabled(s, Replace(id)) && Reading(Apply(s, Replace(id))) == Some(s.writers[id].data)
    ensures var w, s' := s.writers[id], Apply(s, Replace(id));
      && w.temp !in s'.directory && s'.inodes == s.inodes && s'.durable == s.durable
      && (forall n :: n != w.temp && n != s.target ==>
            (n in s'.directory <==> n in s.directory) && (n in s.directory ==> s'.directory[n] == s.directory[n]))
  {
    assert Tidy(s, s.writers[id]);
  }

  /** A written position has the chunk's content, an earlier gap zeros, and all
      else is as it was. */
  lemma {:induction false} OverlayExactly(content: Content, at: nat, chunk: Content)
    ensures var out, end := Overlay(content, at, chunk), at + |chunk|;
      && |out| == (if end < |content| then |content| else end)
      && forall i :: 0 <= i < |out| ==>
           out[i] == if at <= i < end then chunk[i - at] else if i < |content| then content[i] else 0
  {
  }

  /** Before the rename an exception may come at any time; it can then be dealt
      with, and leaves the target as it was and no temporary behind. */
  lemma {:induction false} ExceptionCleansUp(s: State, id: nat)
    requires Invariant(s) && id in s.writers
    requires s.writers[id].phase.Writing? || s.writers[id].phase.Synced? || s.writers[id].phase.Ready?
    ensures Enabled(s, Raise(id)) && Enabled(Apply(s, Raise(id)), Unlink(id))
    ensures var s' := Apply(Apply(s, Raise(id)), Unlink(id));
      Reading(s') == Reading(s) && s.writers[id].temp !in s'.directory && InPhase(s', id, Failed)
  {
    assert Tidy(s, s.writers[id]);
  }

  lemma {:induction false} WriterReadies(s: State, id: nat) returns (s3: State)
    requires Invariant(s) && InPhase(s, id, Writing)
    ensures var rest := |s.writers[id].data| - s.writers[id].written;
      && rest >= 0 && Enabled(s, Write(id, rest)) && Enabled(Apply(s, Write(id, rest)), Sync(id))
      && var s2 := Apply(Apply(s, Write(id, rest)), Sync(id));
      && Enabled(s2, SetMode(id)) && s3 == Apply(s2, SetMode(id))
    ensures Invariant(s3) && InPhase(s3, id, Ready) && s3.writers[id].data == s.writers[id].data
  {
    hide Overlay;
    var w := s.writers[id];
    assert Tidy(s, w);
    var rest := |w.data| - w.written;
    StepKeeps(s, Write(id, rest));
    var s1 := Apply(s, Write(id, rest));
    StepKeeps(s1, Sync(id));
    var s2 := Apply(s1, Sync(id));
    StepKeeps(s2, SetMode(id));
    s3 := Apply(s2, SetMode(id));
  }

  /** A writer that nothing disturbs writes, syncs, renames and syncs the
      directory; then its data is what the target reads, and durably so. */
  lemma {:induction false} WriterCompletes(s: State, id: nat) returns (s': State)
    requires Invariant(s) && InPhase(s, id, Writing)
    ensures var rest := |s.writers[id].data| - s.writers[id].written;
      && rest >= 0 && Enabled(s, Write(id, rest)) && Enabled(Apply(s, Write(id, rest)), Sync(id))
      && var s2 := Apply(Apply(s, Write(id, rest)), Sync(id));
      && Enabled(s2, SetMode(id)) && Enabled(Apply(s2, SetMode(id)), Replace(id))
      && var s4 := Apply(Apply(s2, SetMode(id)), Replace(id));
      && Enabled(s4, SyncDirectory(id)) && s' == Apply(s4, SyncDirectory(id))
    ensures Reading(s') == Some(s.writers[id].data) && s'.durable == |s'.log| - 1 && InPhase(s', id, Finished)
  {
    hide Invariant, Overlay;
    var s3 := WriterReadies(s, id);
    ReplacingPublishes(s3, id);
    StepKeeps(s3, Replace(id));
    s' := Apply(Apply(s3, Replace(id)), SyncDirectory(id));
  }

  /** A writer may begin under any number, name and inode not in use. Its file
      is new and empty, and nothing that was there before changes. */
  lemma {:induction false} BeginningIsExclusive(s: State, id: nat, temp: Name, inode: nat, data: Content)
    ensures id !in s.writers && temp != s.target && temp !in s.directory && inode !in s.inodes && inode !in s.offered
      ==> Enabled(s, Begin(id, temp, inode, data))
    ensures Enabled(s, Begin(id, temp, inode, data)) ==>
      var t := Apply(s, Begin(id, temp, inode, data));
      && temp !in s.directory && temp != s.target && InPhase(t, id, Writing) && t.writers[id].temp == temp
      && temp in t.directory && t.directory[temp] in t.inodes && t.inodes[t.directory[temp]].content == []
      && t.directory - {temp} == s.directory && t.inodes - {t.directory[temp]} == s.inodes
      && t.writers - {id} == s.writers && t.offered - {t.directory[temp]} == s.offered
      && t.log == s.log && t.durable == s.durable
  {
  }

  // ----- what a crash can do -----

  /** A crash may bring back any name the target had since the last sync of the
      directory, and nothing older. */
  lemma {:induction false} CrashBringsBack(s: State, k: int)
    requires Invariant(s)
    ensures s.durable <= k < |s.log| <==>
      exists directory, garbage :: k >= 0 && Enabled(s, Crash(k, directory, garbage))
  {
    if s.durable <= k < |s.log| {
      var directory := if s.log[k].Some? then map[s.target := s.log[k].value] else map[];
      var garbage: map<nat, Content> := map i | i in s.inodes :: [];
      assert s.log[k] in s.log && Whole(s, s.log[k]);
      assert Enabled(s, Crash(k, directory, garbage));
    }
  }

  /** And it may leave anything in a file exactly if that is not synced. */
  lemma {:induction false} CrashTearsExactly(s: State, i: nat, torn: Content)
    requires Invariant(s) && i in s.inodes && s.inodes[i].content != torn
    ensures !s.inodes[i].synced <==> exists directory, garbage ::
      Enabled(s, Crash(s.durable, directory, garbage)) &&
      Apply(s, Crash(s.durable, directory, garbage)).inodes[i].content == torn
  {
    if !s.inodes[i].synced {
      var k := s.durable;
      var directory := if s.log[k].Some? then map[s.target := s.log[k].value] else map[];
      var garbage: map<nat, Content> := map j | j in s.inodes :: torn;
      assert s.log[k] in s.log && Whole(s, s.log[k]);
      assert Enabled(s, Crash(k, directory, garbage));
    }
  }

  /** What a crash leaves is settled: a second one cannot change its files. */
  lemma {:induction false} CrashSettles(s: State, a: Action, i: nat)
    requires a.Crash? && Enabled(s, a) && i in s.inodes
    ensures i in Apply(s, a).inodes && Apply(s, a).inodes[i].synced && Apply(s, a).writers == map[]
  {
  }

  /** A writer's file is at that risk until it is synced. */
  lemma {:induction false} UnsyncedIsAtRisk(s: State, id: nat)
    requires Invariant(s) && InPhase(s, id, Writing)
    ensures s.writers[id].inode in s.inodes && !s.inodes[s.writers[id].inode].synced
  {
    assert Tidy(s, s.writers[id]);
  }

  /** Once the directory is synced, no later step, crashes included, brings
      back anything the target meant before. */
  lemma {:induction false} DurableForever(run: seq<State>, actions: seq<Action>, i: nat, k: nat)
    requires Behaviour(run, actions) && i <= k < |run|
    ensures run[i].durable <= run[k].durable < |run[k].log|
    ensures run[i].durable < |run[i].log|
    ensures run[k].log[..run[i].durable + 1] == run[i].log[..run[i].durable + 1]
    decreases k
  {
    hide Enabled, Apply;
    EveryRun(run, actions, k);
    EveryRun(run, actions, i);
    if i < k {
      EveryRun(run, actions, k - 1);
      DurableForever(run, actions, i, k - 1);
      var s, a, d := run[k - 1], actions[k - 1], run[i].durable;
      assert Enabled(s, a) && run[k] == Apply(s, a);
      DurableStep(s, a);
      assert run[k].log[..d + 1] == run[k].log[..s.durable + 1][..d + 1];
      assert s.log[..d + 1] == s.log[..s.durable + 1][..d + 1];
    }
  }

  lemma {:induction false} DurableStep(s: State, a: Action)
    requires Invariant(s) && Enabled(s, a)
    ensures var s' := Apply(s, a);
      s.durable <= s'.durable && s.durable < |s'.log| && s'.log[..s.durable + 1] == s.log[..s.durable + 1]
  {
  }

  // ----- durability, as a reader sees it -----

  ghost predicate NoCrash(actions: seq<Action>, from: nat, to: nat) {
    forall l :: from < l < to <= |actions| ==> !actions[l].Crash?
  }

  /** A writer that is about to sync the directory has renamed its file before. */
  lemma {:induction false} HasRenamed(run: seq<State>, actions: seq<Action>, i: nat, id: nat) returns (r: nat)
    requires Behaviour(run, actions) && i < |run| && InPhase(run[i], id, Renamed)
    ensures r < i && actions[r] == Replace(id) && NoCrash(actions, r, i)
    decreases i
  {
    assert i > 0;
    var s, a := run[i - 1], actions[i - 1];
    assert Enabled(s, a) && run[i] == Apply(s, a);
    if a == Replace(id) {
      r := i - 1;
    } else {
      assert InPhase(s, id, Renamed) && !a.Crash?;
      r := HasRenamed(run, actions, i - 1, id);
    }
  }

  /** The entry stands for the data of a writer that renamed in these steps. */
  ghost predicate NamedSince(run: seq<State>, actions: seq<Action>, r: nat, k: nat, b: Option<nat>)
    requires |run| == |actions| + 1 && k < |run|
  {
    exists j :: r <= j < k && actions[j].Replace? && actions[j].id in run[j].writers &&
                OfferedAs(run[k], b) == Some(run[j].writers[actions[j].id].data)
  }

  /** What the log gains from a rename on: entries of that rename and later
      ones; and from the directory sync on none before them can come back. */
  lemma {:induction false} EntriesSince(run: seq<State>, actions: seq<Action>, r: nat, i: nat, k: nat)
    requires Behaviour(run, actions) && r < i < |actions| && r < k < |run|
    requires actions[r].Replace? && actions[i].SyncDirectory? && NoCrash(actions, r, i)
    ensures |run[r].log| < |run[k].log|
    ensures k > i ==> |run[r].log| <= run[k].durable
    ensures forall n :: |run[r].log| <= n < |run[k].log| ==> NamedSince(run, actions, r, k, run[k].log[n])
    decreases k
  {
    hide Apply, Enabled, Invariant, OfferedAs;
    var s, a, from := run[k - 1], actions[k - 1], |run[r].log|;
    assert Enabled(s, a) && run[k] == Apply(s, a);
    EveryRun(run, actions, k - 1);
    LogGrows(s, a);
    if k > r + 1 {
      EntriesSince(run, actions, r, i, k - 1);
    }
    forall n | from <= n < |run[k].log|
      ensures NamedSince(run, actions, r, k, run[k].log[n])
    {
      var b := run[k].log[n];
      LogStep(s, a, b);
      if n < |s.log| {
        assert b == s.log[n] && NamedSince(run, actions, r, k - 1, b);
        var j :| r <= j < k - 1 && actions[j].Replace? && actions[j].id in run[j].writers
          && OfferedAs(s, b) == Some(run[j].writers[actions[j].id].data);
        assert OfferedAs(run[k], b) == Some(run[j].writers[actions[j].id].data);
      } else {
        assert actions[k - 1].Replace?;
      }
    }
  }

  /** How one step changes the log: a rename adds to it, a crash cuts it behind
      what is durable, and a directory sync makes all of it durable. */
  lemma {:induction false} LogGrows(s: State, a: Action)
    requires Invariant(s) && Enabled(s, a)
    ensures var s' := Apply(s, a);
      && s.durable <= s'.durable < |s'.log|
      && (!a.Crash? ==> s.log <= s'.log)
      && (!a.Replace? ==> s'.log <= s.log)
      && (a.Replace? ==> a.id in s.writers && |s'.log| == |s.log| + 1 && s'.log[|s.log|] !in s.log)
      && (a.SyncDirectory? ==> s'.durable == |s.log| - 1)
  {
    if a.Replace? {
      assert Tidy(s, s.writers[a.id]);
    }
  }

  /** The step renames the file whose complete data is read later on. */
  ghost predicate RenamesWhatIsRead(run: seq<State>, actions: seq<Action>, j: nat, k: nat)
    requires j < |actions| && j < |run| && k < |run|
  {
    && actions[j].Replace? && actions[j].id in run[j].writers
    && Reading(run[k]) == Some(run[j].writers[actions[j].id].data)
  }

  /** Once a writer's directory sync has succeeded, whatever is read at any
      later time, crashes included, is that writer's complete data or that of
      one that renamed after it. */
  lemma {:induction false} DurableIsRead(run: seq<State>, actions: seq<Action>, i: nat, k: nat) returns (r: nat)
    requires Behaviour(run, actions) && i < k < |run| && actions[i].SyncDirectory?
    ensures r < i && actions[r] == Replace(actions[i].id)
    ensures exists j :: r <= j < k && RenamesWhatIsRead(run, actions, j, k)
  {
    hide Apply;
    assert Enabled(run[i], actions[i]);
    r := HasRenamed(run, actions, i, actions[i].id);
    EntriesSince(run, actions, r, i, k);
    EveryRun(run, actions, k);
    var b := Binding(run[k]);
    assert b == run[k].log[|run[k].log| - 1];
    assert NamedSince(run, actions, r, k, b) && Whole(run[k], b);
    var j :| r <= j < k && actions[j].Replace? && actions[j].id in run[j].writers &&
             OfferedAs(run[k], b) == Some(run[j].writers[actions[j].id].data);
    assert RenamesWhatIsRead(run, actions, j, k);
  }
}
