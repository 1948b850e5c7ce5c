/**
 The backup-first migration as steps that may be cut off anywhere: what has
 reached the disk stays, what the helper held in memory is lost.
 */
module MigrationProtocol {
  import opened Collections
  import opened Outcomes
  import opened Varint
  import SandboxRewrite
  import WireFields
  import opened StorageInventory
  import opened GatewayDatabase

  type Table = seq<Object>

  datatype Receipt = Receipt(backup: Table, migratedCount: nat, recovered: bool)

  /** The starts when the run that wrote the receipt began, and the start whose
      inventory it had proved. */
  datatype Evidence = Evidence(began: nat, start: nat)

  /** The helper's next step, with what it holds in memory. */
  datatype Phase =
    | Idle
    | Required                                              // legacy rows were found; stop the gateway next
    | Quiesced                                              // stopped; back up next
    | BackedUp(backup: Table)                               // rewrite next
    | Rewritten(backup: Table, count: nat)                  // restart next
    | Unwinding                                             // an error is on its way; restart next
    | Resume(backup: Table, count: nat)                     // an earlier rewrite lacks its proof; stop next
    | ResumeStopped(backup: Table, count: nat)              // start next
    | Restarted(backup: Table, count: nat, recovered: bool) // prove the inventory next
    | Proven(backup: Table, count: nat, recovered: bool)    // write the receipt next

  /** The last rewrite: over how many sandboxes, and the starts until then. */
  datatype Mark = Mark(sandboxCount: nat, starts: nat)

  /** `active` is the gateway, `starts` counts how often it was started.  The
      last four fields only record what happened: the starts when the current
      run began, the starts whose inventory was proved, both for the run that
      wrote the receipt, and a mark of the last rewrite. */
  datatype State = State(
    table: Table,
    active: bool,
    starts: nat,
    backups: seq<Table>,
    receipt: Option<Receipt>,
    phase: Phase,
    began: nat,
    proved: set<nat>,
    evidence: Option<Evidence>,
    rewrittenAt: Option<Mark>)

  datatype Action =
    | Begin | Stop | Backup | Rewrite | Restart | Prove | Record
    | Fail                        // the current step raises
    | Crash                       // the helper dies
    | GatewayWrites(table: Table) // a running gateway changes its table
    | GatewayDies
    | OperatorStarts              // only between runs

  datatype Verdict = Ready | MigrationRequired | ProofRequired(backup: Table, count: nat)

  function Inventoried(table: Table): Result<Inventory, Fault> {
    Inspect(SandboxRows(table))
  }

  /** The backup would be taken up by a run over this many sandboxes. */
  predicate Pending(backup: Table, sandboxCount: nat) {
    && Inventoried(backup).Ok?
    && |Inventoried(backup).value.legacy| > 0
    && Inventoried(backup).value.sandboxCount == sandboxCount
  }

  /** The newest backup that still has legacy rows and as many sandboxes. */
  function PendingBackup(backups: seq<Table>, sandboxCount: nat): (r: Result<Option<Table>, Fault>)
    ensures r.Ok? && r.value.Some? ==> r.value.value in backups && Pending(r.value.value, sandboxCount)
  {
    if backups == [] then Ok(None)
    else
      var newest := backups[|backups| - 1];
      var before :- Inventoried(newest);
      if |before.legacy| > 0 && before.sandboxCount == sandboxCount then Ok(Some(newest))
      else PendingBackup(backups[..|backups| - 1], sandboxCount)
  }

  function Preflight(s: State): Result<Verdict, Fault> {
    var inspected :- Inventoried(s.table);
    if |inspected.legacy| > 0 then Ok(MigrationRequired)
    else if s.receipt.Some? then Ok(Ready)
    else
      var pending :- PendingBackup(s.backups, inspected.sandboxCount);
      match pending
      case None => Ok(Ready)
      case Some(found) => Ok(ProofRequired(found, |Inventoried(found).value.legacy|))
  }

  predicate Enabled(s: State, a: Action) {
    match a
    case Begin => s.phase.Idle?
    case Stop => s.phase.Required? || s.phase.Resume?
    case Backup => s.phase.Quiesced?
    case Rewrite => s.phase.BackedUp?
    case Restart => s.phase.Rewritten? || s.phase.Unwinding? || s.phase.ResumeStopped?
    case Prove => s.phase.Restarted? && s.active
    case Record => s.phase.Proven?
    case Fail => !s.phase.Idle?
    case Crash => true
    case GatewayWrites(_) => s.active
    case GatewayDies => s.active
    case OperatorStarts => s.phase.Idle? && !s.active
  }

  function Started(s: State): State {
    if s.active then s else s.(active := true, starts := s.starts + 1)
  }

  function Apply(s: State, a: Action): State
    requires Enabled(s, a)
  {
    match a
    case Begin =>
      var verdict := Preflight(s);
      if verdict.Err? || verdict.value.Ready? || !s.active then s
      else if verdict.value.MigrationRequired? then s.(phase := Required, began := s.starts)
      else s.(phase := Resume(verdict.value.backup, verdict.value.count), began := s.starts)
    case Stop =>
      s.(active := false, phase := if s.phase.Required? then Quiesced else ResumeStopped(s.phase.backup, s.phase.count))
    case Backup =>
      s.(backups := s.backups + [s.table], phase := BackedUp(s.table))
    case Rewrite =>
      var before := Inventoried(s.table);
      if before.Err? || !Addressable(s.table) then s.(phase := Unwinding)
      else
        s.(table := RewriteObjects(s.table),
           phase := Rewritten(s.phase.backup, |before.value.legacy|),
           rewrittenAt := if |before.value.legacy| > 0
                          then Some(Mark(before.value.sandboxCount, s.starts))
                          else s.rewrittenAt)
    case Restart =>
      Started(s).(phase :=
        match s.phase
        case Rewritten(backup, count) => Restarted(backup, count, false)
        case ResumeStopped(backup, count) => Restarted(backup, count, true)
        case _ => Idle)
    case Prove =>
      s.(phase := Proven(s.phase.backup, s.phase.count, s.phase.recovered), proved := s.proved + {s.starts})
    case Record =>
      s.(phase := Idle,
         receipt := Some(Receipt(s.phase.backup, s.phase.count, s.phase.recovered)),
         evidence := Some(Evidence(s.began, s.starts)))
    case Fail =>
      s.(phase :=
        if s.phase.Required? || s.phase.Quiesced? || s.phase.BackedUp? || s.phase.Rewritten?
        then Unwinding else Idle)
    case Crash => s.(phase := Idle)
    case GatewayWrites(table) => s.(table := table)
    case GatewayDies => s.(active := false)
    case OperatorStarts => Started(s)
  }

  // ----- what every run keeps -----

  ghost predicate Initial(s: State) {
    s.phase.Idle? && s.receipt.None? && s.evidence.None? && s.rewrittenAt.None?
  }

  predicate Accounted(s: State, backup: Table, count: nat) {
    backup in s.backups && Inventoried(backup).Ok? && count == |Inventoried(backup).value.legacy|
  }

  ghost predicate Invariant(s: State) {
    && (s.phase.Quiesced? || s.phase.BackedUp? || s.phase.Rewritten? || s.phase.ResumeStopped? ==> !s.active)
    && (!s.phase.Idle? ==> s.began <= s.starts)
    && (s.phase.BackedUp? ==> s.phase.backup == s.table && s.backups != [] && s.backups[|s.backups| - 1] == s.table)
    && (s.phase.Rewritten? || s.phase.Resume? || s.phase.ResumeStopped? || s.phase.Restarted? || s.phase.Proven? ==>
        Accounted(s, s.phase.backup, s.phase.count))
    && (s.phase.Restarted? || s.phase.Proven? ==> s.began < s.starts)
    && (s.phase.Proven? ==> s.starts in s.proved)
    && (s.receipt.Some? <==> s.evidence.Some?)
    && (s.receipt.Some? ==>
        && Accounted(s, s.receipt.value.backup, s.receipt.value.migratedCount)
        && s.evidence.value.began < s.evidence.value.start <= s.starts && s.evidence.value.start in s.proved)
    && (s.rewrittenAt.Some? ==>
        && s.rewrittenAt.value.starts <= s.starts
        && exists b :: b in s.backups && Pending(b, s.rewrittenAt.value.sandboxCount))
  }

  /** All backups behind this one can be read. */
  predicate ReadableBehind(backups: seq<Table>, i: int)
    requires -1 <= i < |backups|
  {
    forall j :: i < j < |backups| ==> Inventoried(backups[j]).Ok?
  }

  predicate NonePendingBehind(backups: seq<Table>, sandboxCount: nat, i: int)
    requires -1 <= i < |backups|
  {
    forall j :: i < j < |backups| ==> !Pending(backups[j], sandboxCount)
  }

  /** Which backup the search stops at, from the newest: a pending one is found,
      an unreadable one is an error, and older ones are not looked at. */
  lemma {:induction false} PendingFound(backups: seq<Table>, sandboxCount: nat) returns (i: int)
    ensures -1 <= i < |backups|
    ensures ReadableBehind(backups, i) && NonePendingBehind(backups, sandboxCount, i)
    ensures match PendingBackup(backups, sandboxCount)
      case Ok(None) => i == -1
      case Ok(Some(b)) => i >= 0 && b == backups[i] && Pending(b, sandboxCount)
      case Err(fault) => i >= 0 && Inventoried(backups[i]) == Err(fault)
  {
    hide Inventoried;
    i := |backups| - 1;
    if backups != [] && Inventoried(backups[i]).Ok? && !Pending(backups[i], sandboxCount) {
      i := PendingFound(backups[..i], sandboxCount);
    }
  }

  /** There is a pending backup, and every newer one can be read. */
  ghost predicate Resumable(backups: seq<Table>, sandboxCount: nat) {
    exists i :: 0 <= i < |backups| && Pending(backups[i], sandboxCount) && ReadableBehind(backups, i)
  }

  /** An unreadable backup stands before every pending one. */
  ghost predicate Blocked(backups: seq<Table>, sandboxCount: nat) {
    exists i :: 0 <= i < |backups| && Inventoried(backups[i]).Err? && NonePendingBehind(backups, sandboxCount, i)
  }

  /** A backup is found exactly when one can be resumed from, and the search
      fails exactly when an unreadable backup is in the way. */
  lemma {:induction false} PendingExactly(backups: seq<Table>, sandboxCount: nat)
    ensures var r := PendingBackup(backups, sandboxCount);
      && (r.Ok? && r.value.Some? <==> Resumable(backups, sandboxCount))
      && (r.Err? <==> Blocked(backups, sandboxCount))
    ensures (exists b :: b in backups && Pending(b, sandboxCount)) ==>
      (Resumable(backups, sandboxCount) <==> !Blocked(backups, sandboxCount))
  {
    hide Inventoried, PendingBackup;
    var i := PendingFound(backups, sandboxCount);
    if k :| 0 <= k < |backups| && Pending(backups[k], sandboxCount) && ReadableBehind(backups, k) {
      assert k <= i;
      assert i > k ==> Inventoried(backups[i]).Ok?;
    }
    if k :| 0 <= k < |backups| && Inventoried(backups[k]).Err? && NonePendingBehind(backups, sandboxCount, k) {
      assert k <= i;
      assert i > k ==> !Pending(backups[i], sandboxCount);
    }
    if b :| b in backups && Pending(b, sandboxCount) {
      var k :| 0 <= k < |backups| && backups[k] == b;
      assert k <= i;
    }
  }

  lemma {:induction false} StepKeeps(s: State, a: Action)
    requires Invariant(s) && Enabled(s, a)
    ensures Invariant(Apply(s, a))
  {
    if a.Backup? || a.Rewrite? {
      BackupKeeps(s, a);
    } else {
      OtherKeeps(s, a);
    }
  }

  lemma {:induction false} BackupKeeps(s: State, a: Action)
    requires Invariant(s) && Enabled(s, a) && (a.Backup? || a.Rewrite?)
    ensures Invariant(Apply(s, a))
  {
    hide Inventoried, RewriteObjects, Addressable, PendingBackup;
    var s' := Apply(s, a);
    if a.Backup? {
      assert s'.backups[|s.backups|] == s.table;
      assert forall b :: b in s.backups ==> b in s'.backups;
    }
    if s.rewrittenAt.Some? {
      var b :| b in s.backups && Pending(b, s.rewrittenAt.value.sandboxCount);
      assert b in s'.backups;
    }
    if a.Rewrite? {
      assert s.table in s'.backups;
    }
  }

  lemma {:induction false} OtherKeeps(s: State, a: Action)
    requires Invariant(s) && Enabled(s, a) && !a.Backup? && !a.Rewrite?
    ensures Invariant(Apply(s, a))
  {
    hide Inventoried, RewriteObjects, Addressable, PendingBackup, Pending;
    var s' := Apply(s, a);
    assert s'.backups == s.backups && s'.rewrittenAt == s.rewrittenAt;
    if a.Begin? && Inventoried(s.table).Ok? {
      FoundIsPending(s.backups, Inventoried(s.table).value.sandboxCount);
    }
  }

  lemma {:induction false} FoundIsPending(backups: seq<Table>, sandboxCount: nat)
    ensures var r := PendingBackup(backups, sandboxCount);
      r.Ok? && r.value.Some? ==> r.value.value in backups && Inventoried(r.value.value).Ok?
  {
    hide Inventoried;
  }

  /** The helper rewrites rows only while the gateway is stopped and the newest
      backup is the table as it stands, and then exactly as inspection said;
      it writes a receipt only after this very run has started a gateway and
      that gateway has passed the inventory proof; it never drops a backup. */
  lemma {:induction false} StepIsGuarded(s: State, a: Action)
    requires Invariant(s) && Enabled(s, a)
    ensures var s' := Apply(s, a);
      && (s'.table != s.table && !a.GatewayWrites? ==>
          && !s.active && s.backups != [] && s.backups[|s.backups| - 1] == s.table
          && Inventoried(s.table).Ok? && s'.table == RewriteObjects(s.table))
      && (s'.receipt != s.receipt ==>
          && s'.receipt.Some? && s.began < s.starts && s.starts in s.proved
          && Accounted(s, s'.receipt.value.backup, s'.receipt.value.migratedCount))
      && (s'.proved != s.proved ==> s.active && s'.proved == s.proved + {s.starts} && s.phase.Restarted?)
      && s.backups <= s'.backups
  {
    hide Inventoried, RewriteObjects, Addressable, PendingBackup;
  }

  ghost predicate Steps(run: seq<State>, actions: seq<Action>) {
    && |run| == |actions| + 1
    && forall i :: 0 <= i < |actions| ==> Enabled(run[i], actions[i]) && run[i + 1] == Apply(run[i], actions[i])
  }

  ghost predicate Behaviour(run: seq<State>, actions: seq<Action>) {
    Steps(run, actions) && Initial(run[0])
  }

  /** Every state of every run, with crashes, failures and gateway writes
      anywhere, satisfies the invariant, so every step of it is guarded. */
  lemma {:induction false} EveryRun(run: seq<State>, actions: seq<Action>, k: nat)
    requires Behaviour(run, actions) && k < |run|
    ensures Invariant(run[k])
    decreases k
  {
    hide Apply, Invariant, Enabled;
    if k == 0 {
      InitialKeeps(run[0]);
    } else {
      EveryRun(run, actions, k - 1);
      StepKeeps(run[k - 1], actions[k - 1]);
    }
  }

  lemma {:induction false} InitialKeeps(s: State)
    requires Initial(s)
    ensures Invariant(s)
  {
  }

  // ----- running again after a crash -----

  /** What the helper does next when nothing goes wrong. */
  function NextAction(phase: Phase): Action {
    match phase
    case Idle => Begin
    case Required => Stop
    case Quiesced => Backup
    case BackedUp(_) => Rewrite
    case Rewritten(_, _) => Restart
    case Unwinding => Restart
    case Resume(_, _) => Stop
    case ResumeStopped(_, _) => Restart
    case Restarted(_, _, _) => Prove
    case Proven(_, _, _) => Record
  }

  function Advance(s: State): State {
    if Enabled(s, NextAction(s.phase)) then Apply(s, NextAction(s.phase)) else s
  }

  function Undisturbed(s: State, steps: nat): State {
    if steps == 0 then s else Advance(Undisturbed(s, steps - 1))
  }

  /** A migration that fails between its first step and the end of the rewrite
      starts the gateway again, and has no receipt to show for it. */
  lemma {:induction false} FailureRestarts(s: State)
    requires s.phase.Required? || s.phase.Quiesced? || s.phase.BackedUp? || s.phase.Rewritten?
    ensures var failed := Apply(s, Fail);
      var s' := Undisturbed(failed, 1);
      && !failed.phase.Idle?
      && s'.phase.Idle? && s'.active && s'.table == s.table && s'.backups == s.backups
      && s'.receipt == s.receipt && s'.evidence == s.evidence && s'.proved == s.proved
      && s'.starts == if s.active then s.starts else s.starts + 1
  {
    hide Inventoried, RewriteObjects, Addressable;
    assert Undisturbed(Apply(s, Fail), 0) == Apply(s, Fail);
  }

  /** What can leave the gateway stopped when a run is over: the helper or the
      gateway dies, or the start that is to end the run fails itself. */
  predicate MayStayStopped(s: State, a: Action) {
    a.Crash? || a.GatewayDies? || (a.Fail? && (s.phase.Unwinding? || s.phase.ResumeStopped?))
  }

  predicate StoppedOnTheWay(s: State) {
    !s.active ==>
      s.phase.Quiesced? || s.phase.BackedUp? || s.phase.Rewritten? || s.phase.Unwinding? || s.phase.ResumeStopped?
  }

  lemma {:induction false} StepKeepsRunning(s: State, a: Action)
    requires Enabled(s, a) && StoppedOnTheWay(s) && !MayStayStopped(s, a)
    ensures StoppedOnTheWay(Apply(s, a))
  {
    hide Inventoried, RewriteObjects, Addressable, Preflight;
  }

  /** Without such an event a gateway that was active at first is active whenever
      no run is under way, whatever fails in between. */
  lemma {:induction false} GatewayIsLeftRunning(run: seq<State>, actions: seq<Action>, k: nat)
    requires Behaviour(run, actions) && k < |run| && run[0].active
    requires forall i :: 0 <= i < k ==> !MayStayStopped(run[i], actions[i])
    ensures run[k].phase.Idle? ==> run[k].active
    ensures StoppedOnTheWay(run[k])
  {
    hide Apply, Enabled;
    if k > 0 {
      GatewayIsLeftRunning(run, actions, k - 1);
      StepKeepsRunning(run[k - 1], actions[k - 1]);
    }
  }

  /** Each of these events does leave it stopped: for a crash and a failed
      start, if it was stopped at that moment. */
  lemma {:induction false} StaysStopped(s: State, a: Action)
    requires Enabled(s, a) && MayStayStopped(s, a) && (s.active ==> a.GatewayDies?)
    ensures !Apply(s, a).active && (!a.GatewayDies? ==> Apply(s, a).phase.Idle?)
    ensures Apply(s, a).phase.Idle? ==> forall n: nat :: Undisturbed(Apply(s, a), n) == Apply(s, a)
  {
    hide Inventoried, RewriteObjects, Addressable, Preflight;
    var t := Apply(s, a);
    if t.phase.Idle? {
      forall n: nat
        ensures Undisturbed(t, n) == t
      {
        StaysDown(t, n);
      }
    }
  }

  lemma {:induction false} StaysDown(s: State, n: nat)
    requires s.phase.Idle? && !s.active
    ensures Undisturbed(s, n) == s
  {
    hide Inventoried, RewriteObjects, Addressable, Preflight;
    if n > 0 {
      StaysDown(s, n - 1);
    }
  }

  /** Between runs, whatever receipt there is; its proof is not of a later start. */
  ghost predicate Resting(s: State) {
    && s.phase.Idle? && Bounded(SandboxRows(s.table))
    && (s.evidence.Some? ==> s.evidence.value.start <= s.starts)
  }

  /** What a run needs: an active gateway over a readable table, and then rows
      that can be addressed or, if none is legacy, no receipt and a backup to
      resume from. */
  ghost predicate CanProve(s: State) {
    && s.active && Inventoried(s.table).Ok?
    && if Inventoried(s.table).value.legacy != [] then Addressable(s.table)
       else s.receipt.None? && Resumable(s.backups, Inventoried(s.table).value.sandboxCount)
  }

  /** Between runs again, without legacy rows, and with a new receipt: of a
      gateway started since. */
  ghost predicate Proves(s: State, s': State) {
    && s'.phase.Idle? && s'.active && Inventoried(s.table).Ok?
    && Inventoried(s'.table) == Ok(Inventoried(s.table).value.(legacy := []))
    && s'.receipt.Some? && s'.evidence.Some? && s'.evidence.value.start > s.starts
  }

  /** The receipt of a rewrite names the table as it was, which is backed up,
      and how many rows were legacy. */
  ghost predicate TellsOfRewrite(s: State, s': State) {
    && s'.backups == s.backups + [s.table] && Inventoried(s.table).Ok? && s'.table == RewriteObjects(s.table)
    && s'.receipt == Some(Receipt(s.table, |Inventoried(s.table).value.legacy|, false))
  }

  /** The receipt of a recovery names a backup that was pending, and how many
      rows were legacy in it. */
  ghost predicate TellsOfRecovery(s: State, s': State) {
    && s'.backups == s.backups && s'.table == s.table && Inventoried(s.table).Ok? && s'.receipt.Some?
    && var r := s'.receipt.value;
    && r.recovered && r.backup in s.backups && Pending(r.backup, Inventoried(s.table).value.sandboxCount)
    && r.migratedCount == |Inventoried(r.backup).value.legacy|
  }

  /** From the end of a rewrite, or a resumed one, to a new receipt. */
  lemma {:induction false} Finishes(s: State)
    requires !s.active && (s.phase.Rewritten? || s.phase.ResumeStopped?)
    ensures var s' := Advance(Advance(Advance(s)));
      && s'.phase.Idle? && s'.active && s'.table == s.table && s'.rewrittenAt == s.rewrittenAt
      && s'.evidence == Some(Evidence(s.began, s.starts + 1))
      && s'.receipt == Some(Receipt(s.phase.backup, s.phase.count, s.phase.ResumeStopped?))
  {
    hide Inventoried, RewriteObjects, Addressable, PendingBackup;
  }

  lemma {:induction false} RunsThrough(s: State) returns (n: nat)
    requires Resting(s) && CanProve(s) && |Inventoried(s.table).value.legacy| > 0
    ensures Proves(s, Undisturbed(s, n)) && TellsOfRewrite(s, Undisturbed(s, n))
  {
    hide Inventoried, RewriteObjects, Addressable, PendingBackup, Bounded, Resumable, Undisturbed;
    n := 7;
    var s1 := Advance(s);
    var s2 := Advance(s1);
    var s3 := Advance(s2);
    var s4 := Advance(s3);
    assert s4.table == RewriteObjects(s.table) && s4.phase.Rewritten? && !s4.active && s4.starts == s.starts;
    Finishes(s4);
    Seven(s, s1, s2, s3, s4, Advance(s4), Advance(Advance(s4)), Advance(Advance(Advance(s4))));
    TableConverges(s.table);
  }

  lemma {:induction false} TableConverges(table: Table)
    requires Inventoried(table).Ok? && Bounded(SandboxRows(table))
    ensures Inventoried(RewriteObjects(table)) == Ok(Inventoried(table).value.(legacy := []))
  {
    RewrittenRows(table);
    Converges(SandboxRows(table));
  }

  lemma {:induction false} Five(s: State, s1: State, s2: State, s3: State, s4: State, s5: State)
    requires s1 == Advance(s) && s2 == Advance(s1) && s3 == Advance(s2) && s4 == Advance(s3) && s5 == Advance(s4)
    ensures Undisturbed(s, 5) == s5
  {
    hide Advance;
    assert Undisturbed(s, 1) == s1;
    assert Undisturbed(s, 2) == s2;
    assert Undisturbed(s, 3) == s3;
    assert Undisturbed(s, 4) == s4;
  }

  lemma {:induction false} Seven(s: State, s1: State, s2: State, s3: State, s4: State, s5: State, s6: State, s7: State)
    requires s1 == Advance(s) && s2 == Advance(s1) && s3 == Advance(s2) && s4 == Advance(s3) && s5 == Advance(s4)
    requires s6 == Advance(s5) && s7 == Advance(s6)
    ensures Undisturbed(s, 7) == s7
  {
    hide Advance;
    Five(s, s1, s2, s3, s4, s5);
    assert Undisturbed(s, 6) == s6;
  }

  lemma {:induction false} ResumesThrough(s: State) returns (n: nat)
    ensures Resting(s) && CanProve(s) && Inventoried(s.table).value.legacy == [] ==>
      Proves(s, Undisturbed(s, n)) && TellsOfRecovery(s, Undisturbed(s, n))
  {
    hide Inventoried, RewriteObjects, Addressable, PendingBackup, Bounded, Pending, Resumable, Undisturbed;
    n := 5;
    if !(Resting(s) && CanProve(s) && Inventoried(s.table).value.legacy == []) {
      return;
    }
    PendingExactly(s.backups, Inventoried(s.table).value.sandboxCount);
    var s1 := Advance(s);
    assert s1.phase.Resume?;
    var s2 := Advance(s1);
    assert s2.table == s.table && s2.phase.ResumeStopped? && !s2.active && s2.starts == s.starts;
    Finishes(s2);
    Five(s, s1, s2, Advance(s2), Advance(Advance(s2)), Advance(Advance(Advance(s2))));
  }

  /** Without legacy rows, a run that cannot resume ends where it began. */
  lemma {:induction false} StaysAsItIs(s: State, steps: nat)
    requires s.phase.Idle? && !CanProve(s)
    requires s.active && Inventoried(s.table).Ok? ==> Inventoried(s.table).value.legacy == []
    ensures Undisturbed(s, steps) == s
  {
    hide Inventoried, RewriteObjects, Addressable, PendingBackup, Pending, Resumable;
    if steps > 0 {
      StaysAsItIs(s, steps - 1);
      if s.active && Inventoried(s.table).Ok? {
        PendingExactly(s.backups, Inventoried(s.table).value.sandboxCount);
      }
    }
  }

  /** A readable table with legacy rows that cannot be told apart. */
  predicate Unaddressable(table: Table) {
    Inventoried(table).Ok? && Inventoried(table).value.legacy != [] && !Addressable(table)
  }

  /** A run over such rows goes round without a new receipt. */
  ghost predicate GoesRound(s: State, s': State) {
    && s'.table == s.table && s'.receipt == s.receipt && s'.evidence == s.evidence
    && (s'.phase.Idle? || s'.phase.Required? || s'.phase.Quiesced? || s'.phase.BackedUp? || s'.phase.Unwinding?)
  }

  lemma {:induction false} KeepsGoingRound(s: State, steps: nat)
    ensures s.phase.Idle? && Unaddressable(s.table) ==> GoesRound(s, Undisturbed(s, steps))
  {
    hide Inventoried, RewriteObjects, Addressable, PendingBackup;
    if steps > 0 {
      KeepsGoingRound(s, steps - 1);
    }
  }

  /** An undisturbed run ends with a new receipt and without legacy rows exactly
      when the gateway is active over a readable table and either its legacy
      rows can be addressed or, without any, there is no receipt yet and there
      is a pending backup with every newer backup readable. */
  lemma {:induction false} RunCompletes(s: State)
    requires Resting(s)
    ensures (exists n :: Proves(s, Undisturbed(s, n))) <==> CanProve(s)
  {
    hide Inventoried, RewriteObjects, Addressable, PendingBackup, Bounded, Pending, Undisturbed, Advance, Resumable;
    if CanProve(s) {
      if |Inventoried(s.table).value.legacy| > 0 {
        var n := RunsThrough(s);
      } else {
        var n := ResumesThrough(s);
      }
    } else {
      forall n: nat
        ensures !Proves(s, Undisturbed(s, n))
      {
        if s.active && Inventoried(s.table).Ok? && Inventoried(s.table).value.legacy != [] {
          KeepsGoingRound(s, n);
        } else {
          StaysAsItIs(s, n);
        }
      }
    }
  }

  /** What the receipt of an undisturbed run tells. */
  lemma {:induction false} ReceiptTells(s: State) returns (n: nat)
    requires Resting(s) && CanProve(s)
    ensures Proves(s, Undisturbed(s, n))
    ensures if Inventoried(s.table).value.legacy != [] then TellsOfRewrite(s, Undisturbed(s, n))
            else TellsOfRecovery(s, Undisturbed(s, n))
  {
    hide Inventoried, RewriteObjects, Addressable, Bounded, Pending, Undisturbed, Resumable;
    if |Inventoried(s.table).value.legacy| > 0 {
      n := RunsThrough(s);
    } else {
      n := ResumesThrough(s);
    }
  }

  lemma {:induction false} RestsBetweenRuns(run: seq<State>, actions: seq<Action>, k: nat)
    requires Behaviour(run, actions) && k < |run| && run[k].phase.Idle? && Bounded(SandboxRows(run[k].table))
    ensures Resting(run[k])
    ensures run[k].rewrittenAt.Some? ==>
      exists b :: b in run[k].backups && Pending(b, run[k].rewrittenAt.value.sandboxCount)
  {
    hide Behaviour, Bounded, Pending, Inventoried;
    EveryRun(run, actions, k);
  }

  /** However far an earlier run came before it was cut off, running again over
      as many sandboxes as it rewrote proves the table: always if legacy rows are
      left that can be addressed; and for rows that are all rewritten exactly
      when there is no receipt yet and no unreadable backup blocks the way. */
  lemma {:induction false} RerunCompletes(run: seq<State>, actions: seq<Action>, k: nat)
    requires Behaviour(run, actions) && k < |run| && run[k].phase.Idle? && Bounded(SandboxRows(run[k].table))
    requires run[k].active && Inventoried(run[k].table).Ok?
    requires run[k].rewrittenAt.Some?
    requires run[k].rewrittenAt.value.sandboxCount == Inventoried(run[k].table).value.sandboxCount
    ensures var s := run[k];
      (exists n :: Proves(s, Undisturbed(s, n))) <==>
      if Inventoried(s.table).value.legacy != [] then Addressable(s.table)
      else s.receipt.None? && !Blocked(s.backups, Inventoried(s.table).value.sandboxCount)
  {
    hide Inventoried, Pending, Undisturbed, Behaviour, Proves, Bounded, Resumable, Blocked, Addressable, Resting;
    RestsBetweenRuns(run, actions, k);
    RunCompletes(run[k]);
    PendingExactly(run[k].backups, Inventoried(run[k].table).value.sandboxCount);
  }

  // ----- a receipt that is older than the rewrite -----

  /** No gateway started since the last rewrite has been proved and put on record. */
  predicate Unproved(s: State) {
    s.rewrittenAt.Some? && (s.evidence.Some? ==> s.evidence.value.start <= s.rewrittenAt.value.starts)
  }

  /** A rewrite that lacks its proof, over as many sandboxes, is proved by a
      rerun exactly when no receipt predates it and no backup blocks the way;
      with such a receipt every later run answers "ready" and changes nothing. */
  lemma {:induction false} RewriteIsProvedExactly(run: seq<State>, actions: seq<Action>, k: nat)
    requires Behaviour(run, actions) && k < |run| && run[k].phase.Idle? && Bounded(SandboxRows(run[k].table))
    requires run[k].active && Inventoried(run[k].table).Ok? && Inventoried(run[k].table).value.legacy == []
    requires Unproved(run[k])
    requires run[k].rewrittenAt.value.sandboxCount == Inventoried(run[k].table).value.sandboxCount
    ensures var s := run[k];
      && ((exists n :: !Unproved(Undisturbed(s, n))) <==>
          s.receipt.None? && !Blocked(s.backups, Inventoried(s.table).value.sandboxCount))
      && (s.receipt.Some? ==>
          && s.evidence.Some? && s.evidence.value.start <= s.rewrittenAt.value.starts
          && Preflight(s) == Ok(Ready) && forall n: nat :: Undisturbed(s, n) == s)
  {
    hide Inventoried, Pending, Undisturbed, Behaviour, Bounded, Resumable, Blocked, Addressable, PendingBackup;
    var s := run[k];
    RestsBetweenRuns(run, actions, k);
    EveryRun(run, actions, k);
    PendingExactly(s.backups, Inventoried(s.table).value.sandboxCount);
    if CanProve(s) {
      var n := ResumesThrough(s);
      SameMark(s, n);
      assert !Unproved(Undisturbed(s, n));
    } else {
      forall n: nat
        ensures Undisturbed(s, n) == s
      {
        StaysAsItIs(s, n);
      }
    }
  }

  /** A run over rewritten rows rewrites nothing. */
  predicate LeavesMark(s: State, s': State) {
    && s'.table == s.table && s'.rewrittenAt == s.rewrittenAt
    && !s'.phase.Required? && !s'.phase.Quiesced? && !s'.phase.BackedUp? && !s'.phase.Rewritten?
  }

  lemma {:induction false} NextLeavesMark(s: State)
    requires Inventoried(s.table).Ok? && Inventoried(s.table).value.legacy == [] && LeavesMark(s, s)
    ensures LeavesMark(s, Advance(s))
  {
    hide Inventoried, RewriteObjects, Addressable, PendingBackup, Pending;
  }

  lemma {:induction false} SameMark(s: State, steps: nat)
    requires s.phase.Idle? && Inventoried(s.table).Ok? && Inventoried(s.table).value.legacy == []
    ensures LeavesMark(s, Undisturbed(s, steps))
  {
    hide Inventoried, Advance;
    if steps > 0 {
      SameMark(s, steps - 1);
      NextLeavesMark(Undisturbed(s, steps - 1));
    }
  }

  // ----- a blocked rerun -----

  /** A table with a sandbox whose payload breaks off inside a varint. */
  const BROKEN: Table := [Object("1", "box", SANDBOX, [128])]

  lemma {:induction false} OneSandbox(objects: seq<Object>, o: Object)
    requires objects == [o] && o.objectType == SANDBOX
    ensures SandboxRows(objects) == [RowOf(o)]
  {
    assert objects[1..] == [];
  }

  lemma {:induction false} BrokenIsUnreadable()
    ensures Inventoried(BROKEN).Err? && Inventoried([]) == Ok(Inspect([]).value)
    ensures Inspect([]).Ok? && Inspect([]).value.legacy == []
  {
    var raw: bytes := [128];
    assert Decode(raw, 1, 10) == Err(TruncatedVarint);
    assert ReadAt(raw, 0) == Err(TruncatedVarint);
    WireFields.FieldsUnfold(raw, 0);
    var rows := SandboxRows(BROKEN);
    OneSandbox(BROKEN, BROKEN[0]);
    InventoryCounts(rows);
    assert SandboxRewrite.RewritePayload(rows[0].payload).Err?;
  }

  /** One unreadable backup over a table with nothing to rewrite: every run from
      here ends where it began, for ever. */
  lemma {:induction false} OneBrokenBackupBlocks(steps: nat)
    ensures var s := State([], true, 0, [BROKEN], None, Idle, 0, {}, None, None);
      && Resting(s) && s.active && Inventoried(s.table).Ok? && Inventoried(s.table).value.legacy == []
      && !CanProve(s) && Undisturbed(s, steps) == s
  {
    hide Inspect, PendingBackup;
    BrokenIsUnreadable();
    var s := State([], true, 0, [BROKEN], None, Idle, 0, {}, None, None);
    assert SandboxRows([]) == [];
    assert !Resumable(s.backups, Inventoried(s.table).value.sandboxCount);
    StaysAsItIs(s, steps);
  }

  /** A table the helper can read and rewrite, with something to rewrite. */
  ghost predicate Rewritable(table: Table) {
    && Inventoried(table).Ok? && Inventoried(table).value.legacy != []
    && Addressable(table) && Bounded(SandboxRows(table))
  }

  /** A table with one sandbox, whose spec has the boolean. */
  const LEGACY: Table := [Object("1", "box", SANDBOX, SandboxRewrite.LEGACY_PAYLOAD)]

  lemma {:induction false} LegacyIsRewritable()
    ensures Rewritable(LEGACY)
  {
    hide SandboxRewrite.RewritePayload, Inspect;
    SandboxRewrite.LegacyPayloadIsLegacy();
    var rows := SandboxRows(LEGACY);
    OneSandbox(LEGACY, LEGACY[0]);
    InventoryCounts(rows);
    InspectedLegacy(rows);
    assert rows[1..] == [];
  }

  lemma {:induction false} StepsJoin(first: seq<State>, a: seq<Action>, second: seq<State>, b: seq<Action>)
    requires Steps(first, a) && Steps(second, b) && first[|a|] == second[0]
    ensures Steps(first + second[1..], a + b)
    ensures (first + second[1..])[|a| + |b|] == second[|b|]
  {
    hide Enabled, Apply;
    var run, actions := first + second[1..], a + b;
    forall i | 0 <= i < |actions|
      ensures Enabled(run[i], actions[i]) && run[i + 1] == Apply(run[i], actions[i])
    {
      if i < |a| {
        assert run[i] == first[i] && run[i + 1] == first[i + 1] && actions[i] == a[i];
      } else {
        assert run[i] == second[i - |a|] && run[i + 1] == second[i - |a| + 1] && actions[i] == b[i - |a|];
      }
    }
  }

  /** A migration up to its rewrite. */
  lemma {:induction false} RewriteRun(s: State) returns (run: seq<State>, actions: seq<Action>)
    requires s.phase.Idle? && s.active && Rewritable(s.table)
    ensures Steps(run, actions) && |actions| == 4 && run[0] == s
    ensures run[4] == JustRewritten(s)
  {
    hide Inventoried, RewriteObjects, Addressable, PendingBackup, Bounded;
    actions := [Begin, Stop, Backup, Rewrite];
    var s1 := s.(phase := Required, began := s.starts);
    var s2 := s1.(active := false, phase := Quiesced);
    var s3 := s2.(backups := s.backups + [s.table], phase := BackedUp(s.table));
    run := [s, s1, s2, s3, JustRewritten(s)];
  }

  function JustRewritten(s: State): State
    requires Inventoried(s.table).Ok?
  {
    var before := Inventoried(s.table).value;
    s.(table := RewriteObjects(s.table), active := false, backups := s.backups + [s.table], began := s.starts,
       phase := Rewritten(s.table, |before.legacy|), rewrittenAt := Some(Mark(before.sandboxCount, s.starts)))
  }

  /** A migration that is cut off between its rewrite and its proof; an operator
      starts the gateway again, which may write. */
  lemma {:induction false} CutOffRun(s: State, table: Table) returns (run: seq<State>, actions: seq<Action>)
    requires s.phase.Idle? && s.active && Rewritable(s.table)
    ensures Steps(run, actions) && |actions| == 7 && run[0] == s
    ensures run[7] == JustRewritten(s).(table := table, phase := Idle, active := true, starts := s.starts + 1)
  {
    hide Inventoried, RewriteObjects, Addressable, PendingBackup, Bounded, JustRewritten, Preflight;
    var first, a := RewriteRun(s);
    JustRewrittenIs(s);
    var s5 := first[4].(phase := Idle);
    var s6 := s5.(active := true, starts := s5.starts + 1);
    var second, b := [first[4], s5, s6, s6.(table := table)], [Crash, OperatorStarts, GatewayWrites(table)];
    StepsJoin(first, a, second, b);
    run, actions := first + second[1..], a + b;
  }

  lemma {:induction false} JustRewrittenIs(s: State)
    requires Inventoried(s.table).Ok?
    ensures var s' := JustRewritten(s);
      && s'.phase == Rewritten(s.table, |Inventoried(s.table).value.legacy|) && !s'.active && s'.starts == s.starts
      && s'.began == s.starts && s'.proved == s.proved && s'.receipt == s.receipt && s'.evidence == s.evidence
      && s'.backups == s.backups + [s.table] && s'.table == RewriteObjects(s.table)
      && s'.rewrittenAt == Some(Mark(Inventoried(s.table).value.sandboxCount, s.starts))
  {
    hide Inventoried, RewriteObjects;
  }

  /** A migration that completes, and a gateway that writes legacy rows again. */
  lemma {:induction false} CompleteRun(s: State, table: Table) returns (run: seq<State>, actions: seq<Action>)
    requires s.phase.Idle? && s.active && Rewritable(s.table)
    ensures Steps(run, actions) && |actions| == 8 && run[0] == s
    ensures run[8].phase.Idle? && run[8].active && run[8].receipt.Some? && run[8].table == table
    ensures run[8].evidence == Some(Evidence(s.starts, s.starts + 1)) && run[8].starts == s.starts + 1
  {
    hide Inventoried, RewriteObjects, Addressable, PendingBackup, Bounded, JustRewritten, Preflight;
    var first, a := RewriteRun(s);
    JustRewrittenIs(s);
    var count := first[4].phase.count;
    var s5 := first[4].(active := true, starts := s.starts + 1, phase := Restarted(s.table, count, false));
    var s6 := s5.(phase := Proven(s.table, count, false), proved := s5.proved + {s5.starts});
    var s7 := s6.(phase := Idle, receipt := Some(Receipt(s.table, count, false)),
                  evidence := Some(Evidence(s.starts, s5.starts)));
    var second, b := [first[4], s5, s6, s7, s7.(table := table)], [Restart, Prove, Record, GatewayWrites(table)];
    StepsJoin(first, a, second, b);
    run, actions := first + second[1..], a + b;
  }

  /** A second run over the legacy rows: the gateway damages the table between
      the check and the stop, so the damage is what gets backed up. */
  lemma {:induction false} DamagedRun(s: State, clean: Table) returns (run: seq<State>, actions: seq<Action>)
    requires s.phase.Idle? && s.active && s.receipt.None? && Inventoried(s.table).Ok? &&
      Inventoried(s.table).value.legacy != []
    ensures Steps(run, actions) && |actions| == 7 && run[0] == s
    ensures run[7].phase.Idle? && run[7].active && run[7].receipt.None? && run[7].table == clean
    ensures run[7].backups == s.backups + [BROKEN] && run[7].rewrittenAt == s.rewrittenAt
    ensures run[7].evidence == s.evidence
  {
    hide Inventoried, RewriteObjects, Addressable, PendingBackup;
    BrokenIsUnreadable();
    actions := [Begin, GatewayWrites(BROKEN), Stop, Backup, Rewrite, Restart, GatewayWrites(clean)];
    var s1 := s.(phase := Required, began := s.starts);
    var s2 := s1.(table := BROKEN);
    var s3 := s2.(active := false, phase := Quiesced);
    var s4 := s3.(backups := s.backups + [BROKEN], phase := BackedUp(BROKEN));
    var s5 := s4.(phase := Unwinding);
    var s6 := s5.(active := true, starts := s5.starts + 1, phase := Idle);
    run := [s, s1, s2, s3, s4, s5, s6, s6.(table := clean)];
  }

  /** So the protocol can bring the blockage about by itself. */
  lemma {:induction false} ProtocolBlocksItself(legacy: Table) returns (run: seq<State>, actions: seq<Action>)
    requires Rewritable(legacy)
    ensures Behaviour(run, actions)
    ensures var s := run[|actions|];
      && s.phase.Idle? && s.active && s.receipt.None?
      && Inventoried(s.table) == Ok(Inventoried(legacy).value.(legacy := []))
      && Unproved(s) && s.rewrittenAt.value.sandboxCount == Inventoried(s.table).value.sandboxCount
      && Blocked(s.backups, Inventoried(s.table).value.sandboxCount) && !CanProve(s)
  {
    hide Inventoried, RewriteObjects, Addressable, PendingBackup, Bounded, Pending, Resumable, Blocked, Enabled, Apply,
      JustRewritten;
    TableConverges(legacy);
    var s := State(legacy, true, 0, [], None, Idle, 0, {}, None, None);
    JustRewrittenIs(s);
    var first, a := CutOffRun(s, legacy);
    var second, b := DamagedRun(first[7], RewriteObjects(legacy));
    StepsJoin(first, a, second, b);
    run, actions := first + second[1..], a + b;
    BehindABrokenOne(legacy, Inventoried(legacy).value.sandboxCount);
    assert first[7].backups == [] + [legacy] == [legacy];
    assert run[|actions|].backups == [legacy] + [BROKEN] == [legacy, BROKEN];
  }

  lemma {:induction false} BehindABrokenOne(older: Table, sandboxCount: nat)
    ensures Blocked([older, BROKEN], sandboxCount) && !Resumable([older, BROKEN], sandboxCount)
  {
    hide Inventoried, PendingBackup;
    BrokenIsUnreadable();
    var backups := [older, BROKEN];
    assert NonePendingBehind(backups, sandboxCount, 1);
    assert Inventoried(backups[1]).Err?;
    PendingExactly(backups, sandboxCount);
  }

  /** The receipt of an earlier migration hides that a later one was cut off:
      the rewritten table is never proved, however often the helper runs. */
  lemma {:induction false} ReceiptHidesRewrite(legacy: Table) returns (run: seq<State>, actions: seq<Action>)
    requires Rewritable(legacy)
    ensures Behaviour(run, actions)
    ensures var s := run[|actions|];
      && s.phase.Idle? && s.active && s.receipt.Some? && Unproved(s)
      && Inventoried(s.table) == Ok(Inventoried(legacy).value.(legacy := []))
      && s.rewrittenAt.value.sandboxCount == Inventoried(s.table).value.sandboxCount
      && forall n: nat :: Undisturbed(s, n) == s
  {
    hide Inventoried, RewriteObjects, Addressable, PendingBackup, Bounded, Resumable, Enabled, Apply, Undisturbed,
      JustRewritten;
    TableConverges(legacy);
    var first, a := CompleteRun(State(legacy, true, 0, [], None, Idle, 0, {}, None, None), legacy);
    JustRewrittenIs(first[8]);
    var second, b := CutOffRun(first[8], RewriteObjects(legacy));
    StepsJoin(first, a, second, b);
    run, actions := first + second[1..], a + b;
    forall n: nat
      ensures Undisturbed(second[7], n) == second[7]
    {
      StaysAsItIs(second[7], n);
    }
  }
}
