/** Why the fast selection is safe: it never loses a test the coverage relation would pick. */
module ImpactSafety {
  import opened Outcomes
  import opened ImpactMap
  import opened ImpactResolver
  import S = Scopes

  // ----- built maps -----

  /** A line's tests and a scope's tests are among their file's. */
  ghost predicate WithinFiles(m: ImpactMap) {
    && (forall path, line :: LineAt(m.lineTests, path, line) <= FileAt(m.fileTests, path))
    && (forall path, name :: ScopeAt(m.scopeTests, path, name) <= FileAt(m.fileTests, path))
  }

  lemma {:induction false} BuiltIsWellIndexed(run: Run, cap: int, raw: map<Path, Lines>, m: ImpactMap)
    requires Built(run, cap, raw, m)
    ensures WellIndexed(m) && WithinFiles(m)
  {
    hide Covers, CoversFile, CoversScope, InSource, FileOf;
    forall path, i | i in FileAt(m.fileTests, path)
      ensures i < |m.nodeids|
    {
      assert FileReflects(run.contexts, m.nodeids, m.fileTests, path, i);
    }
    forall path, line, i | i in LineAt(m.lineTests, path, line)
      ensures i < |m.nodeids| && i in FileAt(m.fileTests, path)
    {
      CappedAt(raw, cap, path, line);
      assert LineReflects(run.contexts, m.nodeids, raw, path, line, i);
      LineInFile(run.contexts, m.nodeids[i], path, line);
      assert FileReflects(run.contexts, m.nodeids, m.fileTests, path, i);
    }
    forall path, name, i | i in ScopeAt(m.scopeTests, path, name)
      ensures i < |m.nodeids| && i in FileAt(m.fileTests, path)
    {
      var scopes := ScopesFor(run.sources, path);
      assert ScopeReflects(run.contexts, m.nodeids, scopes, m.scopeTests, path, name, i);
      ScopeInFile(run.contexts, m.nodeids[i], path, scopes, name);
      assert FileReflects(run.contexts, m.nodeids, m.fileTests, path, i);
    }
  }

  lemma {:induction false} LineInFile(contexts: seq<Context>, t: NodeId, path: Path, line: int)
    ensures Covers(contexts, t, path, line) ==> CoversFile(contexts, t, path)
  {
  }

  lemma {:induction false} ScopeInFile(contexts: seq<Context>, t: NodeId, path: Path, scopes: S.Table, name: string)
    ensures CoversScope(contexts, t, path, scopes, name) ==> CoversFile(contexts, t, path)
  {
  }

  /** A line is either as it was or gone, and only for having too many tests. */
  lemma {:induction false} CappedAt(raw: map<Path, Lines>, cap: int, path: Path, line: int)
    ensures line in LinesOf(Capped(raw, cap), path) ==>
      line in LinesOf(raw, path) && LineAt(Capped(raw, cap), path, line) == LineAt(raw, path, line)
    ensures line !in LinesOf(Capped(raw, cap), path) ==> LineAt(Capped(raw, cap), path, line) == {}
    ensures line in LinesOf(raw, path) ==>
      (line in LinesOf(Capped(raw, cap), path) <==> Keeps(cap, LineAt(raw, path, line)))
  {
  }

  // ----- a covering test is charged -----

  /** The selection base has the file as the build saw it, and the line as code. */
  ghost predicate BaseAsMapped(run: Run, w: World, path: Path, line: int) {
    path in w.views && w.views[path].base.Some? ==>
      var base := w.views[path].base.value;
      S.ScopesOf(base.tree) == ScopesFor(run.sources, path) && IsExecutable(base, line)
  }

  /** Whichever route answers for the file, by scope, by line or by file, it
      charges every test whose coverage has the changed line. */
  lemma {:induction false} CoveringTestIsCharged(
    run: Run, cap: int, raw: map<Path, Lines>, m: ImpactMap, w: World, req: Request, path: Path, line: int, t: NodeId)
    requires Built(run, cap, raw, m) && BaseAsMapped(run, w, path, line)
    requires InSource(path) && Covers(run.contexts, t, path, line) && line in LinesAt(req.baseLines, path)
    ensures path in m.fileTests
    ensures Charge(w, req, m, path).Some? ==> t in Charge(w, req, m, path).value
  {
    hide Built, Covers, BaseAsMapped, InSource, Named, LineAt, FileAt, ScopeAt, LinesOf, ScopesAt, TouchedNames;
    var i := CoveringIndex(run, cap, raw, m, path, line, t);
    FileCharges(run, cap, raw, m, path, line, i);
    var names := TouchedNames(w, req, m, path);
    if names.Some? {
      ScopeCharges(run, cap, raw, m, w, req, path, line, i);
    }
    if line in LinesOf(m.lineTests, path) {
      LineCharges(run, cap, raw, m, path, line, i);
    }
  }

  lemma {:induction false} CoveringIndex(
    run: Run, cap: int, raw: map<Path, Lines>, m: ImpactMap, path: Path, line: int, t: NodeId) returns (i: nat)
    requires Built(run, cap, raw, m) && InSource(path) && Covers(run.contexts, t, path, line)
    ensures i < |m.nodeids| && m.nodeids[i] == t
  {
    hide FilesReflect, LinesReflect, ScopesReflect, FileOf, Capped, InSource;
    var c :| c in run.contexts && c.nodeid == t && Entry(path, line) in c.entries;
    assert t in m.nodeids;
    i :| 0 <= i < |m.nodeids| && m.nodeids[i] == t;
  }

  lemma {:induction false} FileCharges(
    run: Run, cap: int, raw: map<Path, Lines>, m: ImpactMap, path: Path, line: int, i: nat)
    requires Built(run, cap, raw, m) && InSource(path) && i < |m.nodeids| &&
      Covers(run.contexts, m.nodeids[i], path, line)
    ensures path in m.fileTests && m.nodeids[i] in FileHits(m, path)
  {
    hide LinesReflect, ScopesReflect, FileOf, Capped, InSource, Covers;
    LineInFile(run.contexts, m.nodeids[i], path, line);
    assert FileReflects(run.contexts, m.nodeids, m.fileTests, path, i);
  }

  lemma {:induction false} LineCharges(
    run: Run, cap: int, raw: map<Path, Lines>, m: ImpactMap, path: Path, line: int, i: nat)
    requires Built(run, cap, raw, m) && InSource(path) && i < |m.nodeids| &&
      Covers(run.contexts, m.nodeids[i], path, line)
    requires line in LinesOf(m.lineTests, path)
    ensures forall lines: set<int> :: line in lines ==> m.nodeids[i] in LineHits(m, path, lines)
  {
    hide FilesReflect, ScopesReflect, FileOf, Capped, InSource, Covers;
    assert LineReflects(run.contexts, m.nodeids, raw, path, line, i);
    CappedAt(raw, cap, path, line);
    assert m.nodeids[i] in Named(m.nodeids, LineAt(m.lineTests, path, line));
  }

  lemma {:induction false} ScopeCharges(
    run: Run, cap: int, raw: map<Path, Lines>, m: ImpactMap, w: World, req: Request, path: Path, line: int, i: nat)
    requires Built(run, cap, raw, m) && BaseAsMapped(run, w, path, line)
    requires InSource(path) && i < |m.nodeids| && Covers(run.contexts, m.nodeids[i], path, line)
    requires line in LinesAt(req.baseLines, path) && TouchedNames(w, req, m, path).Some?
    ensures m.nodeids[i] in ScopeHits(m, path, TouchedNames(w, req, m, path).value)
  {
    hide FilesReflect, LinesReflect, FileOf, Capped, InSource, Covers, S.Innermost, S.ScopesOf;
    var scopes := ScopesFor(run.sources, path);
    var base := w.views[path].base.value;
    assert scopes == S.ScopesOf(base.tree);
    assert S.Innermost(scopes, line).Some?;
    var name := S.Innermost(scopes, line).value;
    assert name in NamesTouched(base, scopes, LinesAt(req.baseLines, path));
    assert CoversScope(run.contexts, m.nodeids[i], path, scopes, name);
    assert ScopeReflects(run.contexts, m.nodeids, scopes, m.scopeTests, path, name, i);
    assert m.nodeids[i] in Named(m.nodeids, ScopeAt(m.scopeTests, path, name));
    assert name in TouchedNames(w, req, m, path).value;
  }

  // ----- a file answered by scope -----

  /** Answered by scope, drifted or not, a file is charged exactly the tests
      that executed, at the map's base, a line innermost in a touched scope: a
      scope that had another name there brings in none of its tests. */
  lemma {:induction false} ScopeChargeExactly(
    run: Run, cap: int, raw: map<Path, Lines>, m: ImpactMap, w: World, req: Request, path: Path)
    requires Built(run, cap, raw, m) && InSource(path) && path in m.fileTests
    requires TouchedNames(w, req, m, path).Some? && ScopesAt(m.scopeTests, path) != map[]
    ensures Charge(w, req, m, path).Some?
    ensures forall t :: t in Charge(w, req, m, path).value <==>
      CoversTouched(run, t, path, TouchedNames(w, req, m, path).value)
  {
    hide FilesReflect, LinesReflect, FileOf, Capped, InSource, CoversScope, TouchedNames, ScopesAt, InternedTests,
      ScopesFor;
    var names, scopes := TouchedNames(w, req, m, path).value, ScopesFor(run.sources, path);
    forall t
      ensures t in ScopeHits(m, path, names) <==> CoversTouched(run, t, path, names)
    {
      if t in ScopeHits(m, path, names) {
        var name :| name in names && t in Named(m.nodeids, ScopeAt(m.scopeTests, path, name));
        var i :| i in ScopeAt(m.scopeTests, path, name) && i < |m.nodeids| && m.nodeids[i] == t;
        assert ScopeReflects(run.contexts, m.nodeids, scopes, m.scopeTests, path, name, i);
      }
      if CoversTouched(run, t, path, names) {
        var name :| name in names && CoversScope(run.contexts, t, path, scopes, name);
        var i := ScopedIndex(run.contexts, m.nodeids, t, path, scopes, name);
        assert ScopeReflects(run.contexts, m.nodeids, scopes, m.scopeTests, path, name, i);
        assert t in Named(m.nodeids, ScopeAt(m.scopeTests, path, name));
      }
    }
  }

  ghost predicate CoversTouched(run: Run, t: NodeId, path: Path, names: set<string>) {
    exists name :: name in names && CoversScope(run.contexts, t, path, ScopesFor(run.sources, path), name)
  }

  lemma {:induction false} ScopedIndex(
    contexts: seq<Context>, nodeids: seq<NodeId>, t: NodeId, path: Path, scopes: S.Table, name: string) returns (i: nat)
    requires InternedTests(contexts, nodeids) && CoversScope(contexts, t, path, scopes, name)
    ensures i < |nodeids| && nodeids[i] == t
  {
    var line :| S.Innermost(scopes, line) == Some(name) && Covers(contexts, t, path, line);
    assert t in nodeids;
    i :| 0 <= i < |nodeids| && nodeids[i] == t;
  }

  // ----- selection is safe -----

  lemma {:induction false} ChargedIsPicked(w: World, req: Request, m: ImpactMap, path: Path, t: string)
    requires path in SourceChanges(w, req) && Resolved(w, req, m).Focused?
    ensures Charge(w, req, m, path).Some?
    ensures t in Charge(w, req, m, path).value ==> t in Picked(Resolved(w, req, m))
  {
    hide Charge, Forced, Resolvable, ContractTests, AlwaysSelected, TestChanges;
    assert path !in Unresolved(w, req, m, SourceChanges(w, req));
    PickedIsSelected(w, req, m);
    assert t in Charge(w, req, m, path).value ==> t in Charged(w, req, m, SourceChanges(w, req));
  }

  lemma {:induction false} PickedIsSelected(w: World, req: Request, m: ImpactMap)
    requires Resolved(w, req, m).Focused?
    ensures Picked(Resolved(w, req, m)) == Selected(w, req, m)
  {
    hide Charge, Forced, Resolvable, Selected, Unresolved;
  }

  /** A changed line of code brings in every test that executed it, or the whole suite. */
  lemma {:induction false} SelectionIsSafe(
    run: Run, cap: int, raw: map<Path, Lines>, m: ImpactMap, w: World, req: Request, path: Path, line: int, t: NodeId)
    requires Built(run, cap, raw, m) && BaseAsMapped(run, w, path, line)
    requires path in SourceChanges(w, req) && line in LinesAt(req.baseLines, path)
    requires InSource(path) && Covers(run.contexts, t, path, line)
    ensures Resolved(w, req, m).Full? || t in Picked(Resolved(w, req, m))
  {
    hide Built, Resolved, Charge, Covers, BaseAsMapped, SourceChanges, InSource;
    CoveringTestIsCharged(run, cap, raw, m, w, req, path, line, t);
    if Resolved(w, req, m).Focused? {
      ChargedIsPicked(w, req, m, path, t);
    }
  }

  /** In a drifted file a touched scope that still has its name brings in every
      test that executed it. */
  lemma {:induction false} DriftedScopeIsSafe(
    run: Run, cap: int, raw: map<Path, Lines>, m: ImpactMap, w: World, req: Request, path: Path, name: string,
    t: NodeId)
    requires Built(run, cap, raw, m) && InSource(path) && path in SourceChanges(w, req)
    requires TouchedNames(w, req, m, path).Some? && name in TouchedNames(w, req, m, path).value
    requires CoversScope(run.contexts, t, path, ScopesFor(run.sources, path), name)
    ensures Resolved(w, req, m).Full? || t in Picked(Resolved(w, req, m))
  {
    hide Built, Resolved, Charge, TouchedNames, SourceChanges, InSource, ScopesFor, CoversScope;
    ScopedFileIsMapped(run, cap, raw, m, path, name, t);
    ScopeChargeExactly(run, cap, raw, m, w, req, path);
    if Resolved(w, req, m).Focused? {
      ChargedIsPicked(w, req, m, path, t);
    }
  }

  lemma {:induction false} ScopedFileIsMapped(
    run: Run, cap: int, raw: map<Path, Lines>, m: ImpactMap, path: Path, name: string, t: NodeId)
    requires Built(run, cap, raw, m) && InSource(path)
    requires CoversScope(run.contexts, t, path, ScopesFor(run.sources, path), name)
    ensures path in m.fileTests && ScopesAt(m.scopeTests, path) != map[]
  {
    hide LinesReflect, FileOf, Capped, InSource, CoversScope, CoversFile, InternedTests, ScopesFor;
    var scopes := ScopesFor(run.sources, path);
    var i := ScopedIndex(run.contexts, m.nodeids, t, path, scopes, name);
    ScopeInFile(run.contexts, t, path, scopes, name);
    assert FileReflects(run.contexts, m.nodeids, m.fileTests, path, i);
    assert ScopeReflects(run.contexts, m.nodeids, scopes, m.scopeTests, path, name, i);
    assert i in ScopeAt(m.scopeTests, path, name);
    assert name in ScopesAt(m.scopeTests, path);
  }

  /** A test the coverage run could not attribute runs on every source change,
      as long as its file is there. */
  lemma {:induction false} UnattributedTestsRun(
    run: Run, cap: int, raw: map<Path, Lines>, m: ImpactMap, w: World, req: Request, t: NodeId)
    requires Built(run, cap, raw, m) && SourceChanges(w, req) != {}
    requires t in run.timings && t !in Attributed(run) && FileOf(t) in w.existing
    ensures Resolved(w, req, m).Full? || FileOf(t) in Picked(Resolved(w, req, m))
  {
    hide Resolved, FilesReflect, LinesReflect, ScopesReflect, FileOf, InternedTests, Attributed, Capped, SourceChanges;
    if Resolved(w, req, m).Focused? {
      PickedIsSelected(w, req, m);
      assert FileOf(t) in m.alwaysRun;
    }
  }

  /** A changed path that a focused selection has an answer for. */
  ghost predicate Accounted(w: World, req: Request, m: ImpactMap, picked: set<string>, path: Path) {
    && path !in w.policy.globalFull
    && (path in w.contracts || w.isTest(path) || w.isSource(path) || w.isDocumentation(path))
    && (path in w.contracts ==> w.contracts[path] <= picked)
    && (w.isTest(path) && path in w.existing ==> path in picked)
    && (w.isSource(path) ==> Charge(w, req, m, path).Some? && Charge(w, req, m, path).value <= picked)
    && (w.isSource(path) || path in w.contracts ==> w.policy.alwaysRun * w.existing <= picked)
  }

  /** A focused selection accounts for every changed path, and what it runs is
      what of its pick can still be collected. */
  lemma {:induction false} FocusedIsAccounted(w: World, req: Request, m: ImpactMap)
    requires Resolved(w, req, m).Focused?
    ensures forall path :: path in Changed(req) ==> Accounted(w, req, m, Picked(Resolved(w, req, m)), path)
    ensures forall t :: t in Picked(Resolved(w, req, m)) ==>
      (t in Resolved(w, req, m).tests <==> Resolvable(w, t))
    ensures Resolved(w, req, m).tests == {} ==> Picked(Resolved(w, req, m)) == {}
  {
    hide Charge, Resolvable;
    PickedIsSelected(w, req, m);
    forall path | path in Changed(req)
      ensures Accounted(w, req, m, Picked(Resolved(w, req, m)), path)
    {
      PathIsAccounted(w, req, m, path);
    }
  }

  lemma {:induction false} PathIsAccounted(w: World, req: Request, m: ImpactMap, path: Path)
    requires Resolved(w, req, m).Focused? && path in Changed(req)
    ensures Accounted(w, req, m, Picked(Resolved(w, req, m)), path)
  {
    hide Charge, Finish;
    PickedIsSelected(w, req, m);
    assert Forced(w, req) == None;
    assert path !in w.policy.globalFull by {
      assert path !in Changed(req) * w.policy.globalFull;
    }
    assert !Opaque(w, path) && ContractHolds(w, path);
    assert w.isTest(path) && path in w.existing ==> path in TestChanges(w, req);
    if path in w.contracts || w.isSource(path) {
      assert path in Changed(req) * w.contracts.Keys || path in SourceChanges(w, req);
      assert w.policy.alwaysRun * w.existing <= AlwaysSelected(w, req, m);
    }
    if path in w.contracts {
      assert forall t :: t in w.contracts[path] ==> t in ContractTests(w, Changed(req));
    }
    if w.isSource(path) {
      assert path in SourceChanges(w, req);
      forall t | Charge(w, req, m, path).Some? && t in Charge(w, req, m, path).value
        ensures t in Picked(Resolved(w, req, m))
      {
        ChargedIsPicked(w, req, m, path, t);
      }
      ChargedIsPicked(w, req, m, path, "");
    }
  }

  // ----- which files are fresh -----

  /** The revisions of the repository: what each holds, and how they descend. */
  datatype History = History(files: map<(string, Path), Revision>, descends: set<(string, string)>, diffable: bool)

  function Content(h: History, sha: string, path: Path): Option<Revision> {
    if (sha, path) in h.files then Some(h.files[(sha, path)]) else None
  }

  /** Files whose content differs between two revisions, or nothing when git fails. */
  function ChangedBetween(h: History, older: string, newer: string): Option<set<Path>> {
    if h.diffable then
      Some(set key | key in h.files && Content(h, older, key.1) != Content(h, newer, key.1) :: key.1)
    else None
  }

  function FreshMapFiles(m: ImpactMap, base: Option<string>, h: History): set<Path> {
    if base == None || m.baseSha == "" || m.fileTests == map[] then {}
    else if m.baseSha == base.value then m.fileTests.Keys
    else if (m.baseSha, base.value) !in h.descends then {}
    else
      match ChangedBetween(h, m.baseSha, base.value)
      case None => {}
      case Some(changed) => m.fileTests.Keys - changed
  }

  /** What git shows of a file: its content at the selection base and at the map's base. */
  ghost predicate ShowsHistory(h: History, w: World, m: ImpactMap, base: string, path: Path) {
    path in w.views ==>
      w.views[path].base == Content(h, base, path) && w.views[path].mapped == Content(h, m.baseSha, path)
  }

  /** The map was built from the files at its base revision. */
  ghost predicate BuiltAtBase(h: History, run: Run) {
    forall path :: ScopesFor(run.sources, path) ==
      match Content(h, run.head, path) case Some(rev) => S.ScopesOf(rev.tree) case None => []
  }

  /** A fresh file is at the selection base exactly as the map's base had it. */
  lemma {:induction false} FreshIsUnchanged(m: ImpactMap, base: string, h: History, path: Path)
    requires path in FreshMapFiles(m, Some(base), h)
    ensures path in m.fileTests && Content(h, base, path) == Content(h, m.baseSha, path)
  {
    if h.diffable {
      ChangedExactly(h, m.baseSha, base, path);
    }
  }

  lemma {:induction false} ChangedExactly(h: History, older: string, newer: string, path: Path)
    requires h.diffable
    ensures path in ChangedBetween(h, older, newer).value <==> Content(h, older, path) != Content(h, newer, path)
  {
    var changed := ChangedBetween(h, older, newer).value;
    assert (older, path) in h.files && Content(h, older, path) != Content(h, newer, path) ==>
      (older, path).1 in changed;
    assert (newer, path) in h.files && Content(h, older, path) != Content(h, newer, path) ==>
      (newer, path).1 in changed;
  }

  /** For a fresh file the selection is safe at any selection base, however far
      the map's base lies behind it. */
  lemma {:induction false} FreshSelectionIsSafe(
    run: Run, cap: int, raw: map<Path, Lines>, m: ImpactMap, h: History, base: string,
    w: World, req: Request, path: Path, line: int, t: NodeId)
    requires Built(run, cap, raw, m) && BuiltAtBase(h, run) && ShowsHistory(h, w, m, base, path)
    requires req.freshFiles == FreshMapFiles(m, Some(base), h) && path in req.freshFiles
    requires path in SourceChanges(w, req) && line in LinesAt(req.baseLines, path)
    requires Content(h, base, path).Some? ==> IsExecutable(Content(h, base, path).value, line)
    requires InSource(path) && Covers(run.contexts, t, path, line)
    ensures Resolved(w, req, m).Full? || t in Picked(Resolved(w, req, m))
  {
    hide Resolved, Covers, SourceChanges, FreshMapFiles, S.ScopesOf, ScopesFor, InSource,
      FilesReflect, LinesReflect, ScopesReflect, InternedTests, FileOf, Capped, IsExecutable;
    FreshIsUnchanged(m, base, h, path);
    assert m.baseSha == run.head;
    SelectionIsSafe(run, cap, raw, m, w, req, path, line, t);
  }

  // ----- the fanout cap -----

  /** Whatever the cap, each file is answered for by the same route or a wider
      one: a line that was pruned is charged to its file. */
  lemma {:induction false} CapChargesMore(w: World, req: Request, m: ImpactMap, cap: int, path: Path)
    requires WithinFiles(m)
    ensures var capped := m.(lineTests := Capped(m.lineTests, cap));
      && Charge(w, req, capped, path).Some? == Charge(w, req, m, path).Some?
      && (Charge(w, req, m, path).Some? ==> Charge(w, req, m, path).value <= Charge(w, req, capped, path).value)
  {
    hide Capped, Named, TouchedNames, LineAt, FileAt, LinesOf;
    var capped := m.(lineTests := Capped(m.lineTests, cap));
    SameNames(w, req, m, capped, path);
    var lines := LinesAt(req.baseLines, path);
    forall line | line in lines
      ensures Named(m.nodeids, LineAt(m.lineTests, path, line)) <= FileHits(m, path)
      ensures line in LinesOf(capped.lineTests, path) ==>
        line in LinesOf(m.lineTests, path) && LineAt(capped.lineTests, path, line) == LineAt(m.lineTests, path, line)
    {
      CappedAt(m.lineTests, cap, path, line);
      NamedMonotone(m.nodeids, LineAt(m.lineTests, path, line), FileAt(m.fileTests, path));
    }
  }

  lemma {:induction false} NamedMonotone(nodeids: seq<NodeId>, few: set<nat>, many: set<nat>)
    requires few <= many
    ensures Named(nodeids, few) <= Named(nodeids, many)
  {
  }

  lemma {:induction false} LinesInFile(m: ImpactMap, path: Path, lines: set<int>)
    requires WithinFiles(m)
    ensures LineHits(m, path, lines) <= FileHits(m, path)
  {
    hide Named;
    forall line
      ensures Named(m.nodeids, LineAt(m.lineTests, path, line)) <= FileHits(m, path)
    {
      NamedMonotone(m.nodeids, LineAt(m.lineTests, path, line), FileAt(m.fileTests, path));
    }
  }

  /** The scopes a change touches depend on the map only through its revision. */
  lemma {:induction false} SameNames(w: World, req: Request, m: ImpactMap, m': ImpactMap, path: Path)
    requires m.baseSha == m'.baseSha
    ensures TouchedNames(w, req, m, path) == TouchedNames(w, req, m', path)
  {
    hide Touched, S.ScopesOf;
  }

  /** For every cap, the capped map selects at least what the uncapped map
      selects, or everything; and it is never less cautious. */
  lemma {:induction false} CappingNeverLoses(w: World, req: Request, m: ImpactMap, cap: int)
    requires WithinFiles(m)
    ensures var full, capped := Resolved(w, req, m), Resolved(w, req, m.(lineTests := Capped(m.lineTests, cap)));
      && (full.Focused? ==> capped.Full? || (Picked(full) <= Picked(capped) && full.tests <= capped.tests))
      && (full.Focused? && full.tests != {} ==> capped.Focused?)
      && (full.Full? && full.reason != AllStale ==> capped == full)
      && (full == Full(AllStale) ==>
          if WidensToRunnable(w, req, m, cap) then capped.Focused? && capped.tests != {} &&
            Selected(w, req, m) <= Picked(capped)
          else capped == full)
  {
    hide Charge, Capped, Forced, SourceChanges, AlwaysSelected, ContractTests, TestChanges, Finish, WidensToRunnable,
      Resolvable;
    var capped := m.(lineTests := Capped(m.lineTests, cap));
    forall path
      ensures Charge(w, req, capped, path).Some? == Charge(w, req, m, path).Some?
      ensures Charge(w, req, m, path).Some? ==> Charge(w, req, m, path).value <= Charge(w, req, capped, path).value
    {
      CapChargesMore(w, req, m, cap, path);
    }
    CappedStaleExactly(w, req, m, cap);
    ForcedIsNeverStale(w, req);
    var sources := SourceChanges(w, req);
    assert Unresolved(w, req, m, sources) == Unresolved(w, req, capped, sources);
    assert Charged(w, req, m, sources) <= Charged(w, req, capped, sources);
    SameAlways(w, req, m, capped);
    if Forced(w, req) == None && Unresolved(w, req, m, sources) == {} {
      FinishMore(w, Selected(w, req, m), Selected(w, req, capped));
      FinishFull(w, Selected(w, req, m));
      FinishFull(w, Selected(w, req, capped));
      FinishPicks(w, Selected(w, req, capped));
    }
  }

  /** The cap sends the file from its lines to all its tests. */
  predicate Widened(w: World, req: Request, m: ImpactMap, cap: int, path: Path) {
    var lines := LinesAt(req.baseLines, path);
    && path in m.fileTests && path in req.freshFiles
    && !(TouchedNames(w, req, m, path).Some? && ScopesAt(m.scopeTests, path) != map[])
    && lines != {} && LinesKnown(m, path, lines)
    && exists line :: line in lines && !Keeps(cap, LineAt(m.lineTests, path, line))
  }

  /** Some changed file is widened so far that a test comes in which can be run. */
  ghost predicate WidensToRunnable(w: World, req: Request, m: ImpactMap, cap: int) {
    exists path, t ::
      path in SourceChanges(w, req) && Widened(w, req, m, cap, path) && t in FileHits(m, path) && Resolvable(w, t)
  }

  lemma {:induction false} WidenedExactly(w: World, req: Request, m: ImpactMap, cap: int, path: Path)
    requires WithinFiles(m)
    ensures Charge(w, req, m.(lineTests := Capped(m.lineTests, cap)), path) ==
      if Widened(w, req, m, cap, path) then Some(FileHits(m, path)) else Charge(w, req, m, path)
  {
    hide Capped, Named, TouchedNames, LineAt, FileAt, LinesOf, Keeps;
    var capped := m.(lineTests := Capped(m.lineTests, cap));
    SameNames(w, req, m, capped, path);
    var lines := LinesAt(req.baseLines, path);
    forall line | line in lines
      ensures Named(m.nodeids, LineAt(m.lineTests, path, line)) <= FileHits(m, path)
      ensures line in LinesOf(capped.lineTests, path) <==>
        line in LinesOf(m.lineTests, path) && Keeps(cap, LineAt(m.lineTests, path, line))
      ensures line in LinesOf(capped.lineTests, path) ==>
        LineAt(capped.lineTests, path, line) == LineAt(m.lineTests, path, line)
      ensures line !in LinesOf(capped.lineTests, path) ==> Named(m.nodeids, LineAt(capped.lineTests, path, line)) == {}
    {
      CappedAt(m.lineTests, cap, path, line);
      NamedMonotone(m.nodeids, LineAt(m.lineTests, path, line), FileAt(m.fileTests, path));
      NothingNamed(m.nodeids);
    }
    assert LineHits(capped, path, lines) <= FileHits(m, path);
    assert LineHits(m, path, lines) <= FileHits(m, path);
    assert LineHits(m, path, lines) + FileHits(m, path) == FileHits(m, path);
    assert LineHits(capped, path, lines) + FileHits(m, path) == FileHits(m, path);
    if LinesKnown(capped, path, lines) {
      assert LineHits(capped, path, lines) == LineHits(m, path, lines);
    } else {
      var line :| line in lines && line !in LinesOf(capped.lineTests, path);
      assert LinesKnown(m, path, lines) ==> !Keeps(cap, LineAt(m.lineTests, path, line));
    }
  }

  lemma {:induction false} NothingNamed(nodeids: seq<NodeId>)
    ensures Named(nodeids, {}) == {}
  {
  }

  /** When nothing picked can be run, the capped selection falls back too,
      exactly unless it widens to something that can. */
  lemma {:induction false} CappedStaleExactly(w: World, req: Request, m: ImpactMap, cap: int)
    requires WithinFiles(m)
    ensures Resolved(w, req, m) == Full(AllStale) ==>
      ((exists t :: t in Selected(w, req, m.(lineTests := Capped(m.lineTests, cap))) && Resolvable(w, t)) <==>
       WidensToRunnable(w, req, m, cap))
  {
    hide Charge, Capped, SourceChanges, AlwaysSelected, ContractTests, TestChanges, Widened, Resolvable, FileHits;
    if Resolved(w, req, m) == Full(AllStale) {
      var capped := m.(lineTests := Capped(m.lineTests, cap));
      var sources := SourceChanges(w, req);
      SameAlways(w, req, m, capped);
      assert Finish(w, Selected(w, req, m)) == Full(AllStale) by { ForcedIsNeverStale(w, req); }
      FinishFull(w, Selected(w, req, m));
      assert Unresolved(w, req, m, sources) == {} by { ForcedIsNeverStale(w, req); }
      assert forall path :: path in sources ==> path !in Unresolved(w, req, m, sources);
      forall path
        ensures Charge(w, req, capped, path) ==
          if Widened(w, req, m, cap, path) then Some(FileHits(m, path)) else Charge(w, req, m, path)
      {
        WidenedExactly(w, req, m, cap, path);
      }
      if t :| t in Selected(w, req, capped) && Resolvable(w, t) {
        assert t !in Selected(w, req, m);
        assert t in Charged(w, req, capped, sources);
        var path :| path in sources && Charge(w, req, capped, path).Some? && t in Charge(w, req, capped, path).value;
        assert t !in Charged(w, req, m, sources);
        assert Widened(w, req, m, cap, path);
      }
      if path, t :| path in sources && Widened(w, req, m, cap, path) && t in FileHits(m, path) && Resolvable(w, t) {
        assert t in Charged(w, req, capped, sources);
      }
    }
  }

  lemma {:induction false} FinishFull(w: World, selected: set<string>)
    ensures Finish(w, selected).Full? <==> selected != {} && forall t :: t in selected ==> !Resolvable(w, t)
    ensures Finish(w, selected).Full? ==> Finish(w, selected).reason == AllStale
  {
    hide Resolvable;
    var tests := set t | t in selected && Resolvable(w, t);
    assert tests == {} <==> forall t :: t in selected ==> !Resolvable(w, t) by {
      assert forall t :: t in selected && Resolvable(w, t) ==> t in tests;
    }
  }

  lemma {:induction false} FinishPicks(w: World, selected: set<string>)
    ensures Finish(w, selected).Focused? ==> Picked(Finish(w, selected)) == selected
    ensures Finish(w, selected).Focused? && selected != {} ==> Finish(w, selected).tests != {}
  {
    hide Resolvable;
  }

  lemma {:induction false} ForcedIsNeverStale(w: World, req: Request)
    ensures Forced(w, req) != Some(AllStale)
  {
  }

  /** So the cap given to a build never costs a selection any test. */
  lemma {:induction false} BuildCapNeverLoses(
    run: Run, cap: int, raw: map<Path, Lines>, m: ImpactMap, w: World, req: Request)
    requires Built(run, cap, raw, m)
    ensures var full, capped := Resolved(w, req, m.(lineTests := raw)), Resolved(w, req, m);
      && (full.Focused? ==> capped.Full? || (Picked(full) <= Picked(capped) && full.tests <= capped.tests))
      && (full.Full? && full.reason != AllStale ==> capped == full)
      && (full == Full(AllStale) ==>
          if WidensToRunnable(w, req, m.(lineTests := raw), cap) then
            capped.Focused? && capped.tests != {} && Selected(w, req, m.(lineTests := raw)) <= Picked(capped)
          else capped == full)
  {
    hide Resolved, Covers, CoversFile, FileAt, LineAt, ScopeAt, InSource, FileOf, Capped, Named, Selected,
      WidensToRunnable;
    var uncapped := m.(lineTests := raw);
    BuiltIsWellIndexed(run, cap, raw, m);
    forall path, line, i | i in LineAt(raw, path, line)
      ensures i in FileAt(m.fileTests, path)
    {
      assert LineReflects(run.contexts, m.nodeids, raw, path, line, i);
      LineInFile(run.contexts, m.nodeids[i], path, line);
      assert FileReflects(run.contexts, m.nodeids, m.fileTests, path, i);
    }
    assert uncapped.(lineTests := Capped(raw, cap)) == m;
    CappingNeverLoses(w, req, uncapped, cap);
  }

  lemma {:induction false} SameAlways(w: World, req: Request, m: ImpactMap, m': ImpactMap)
    requires m.alwaysRun == m'.alwaysRun
    ensures AlwaysSelected(w, req, m) == AlwaysSelected(w, req, m')
  {
    hide SourceChanges, TestChanges;
  }

  lemma {:induction false} FinishMore(w: World, few: set<string>, many: set<string>)
    requires few <= many
    ensures var a, b := Finish(w, few), Finish(w, many);
      && (a.Focused? ==> b.Full? || (Picked(a) <= Picked(b) && a.tests <= b.tests))
      && (a.Focused? && a.tests != {} ==> b.Focused?)
      && (a.Full? ==> a.reason == AllStale)
  {
    hide Resolvable;
    assert forall t :: t in few && Resolvable(w, t) ==> t in many && Resolvable(w, t);
  }
}
