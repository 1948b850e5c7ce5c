/** What a selection holds, told from the change, the files and the coverage run. */
module SelectionMeaning {
  import opened Outcomes
  import opened ImpactMap
  import opened ImpactResolver
  import opened ImpactSafety
  import S = Scopes

  // ----- the lines of a change -----

  ghost predicate Added(req: Request, path: Path, line: int) {
    path in req.additions && line in req.additions[path]
  }

  ghost predicate Removed(req: Request, path: Path, line: int) {
    path in req.baseLines && line in req.baseLines[path]
  }

  /** The line of the revision is neither blank nor a comment. */
  ghost predicate IsCode(rev: Revision, line: int) {
    1 <= line <= |rev.ignorable| ==> !rev.ignorable[line - 1]
  }

  /** Code of the revision, innermost in the scope of that name. */
  ghost predicate CodeIn(rev: Revision, line: int, name: string) {
    IsCode(rev, line) && S.Innermost(S.ScopesOf(rev.tree), line) == Some(name)
  }

  /** Code of the revision at module level. */
  ghost predicate CodeOutside(rev: Revision, line: int) {
    IsCode(rev, line) && S.Innermost(S.ScopesOf(rev.tree), line) == None
  }

  /** The file can be shown at all three revisions, and has scopes. */
  ghost predicate Shown(w: World, m: ImpactMap, path: Path) {
    && path in w.views && m.baseSha != ""
    && w.views[path].current.Some? && w.views[path].base.Some? && w.views[path].mapped.Some?
    && (S.ScopesOf(w.views[path].current.value.tree) != [] || S.ScopesOf(w.views[path].base.value.tree) != [])
  }

  /** No code was added or removed at module level. */
  ghost predicate InScopes(w: World, req: Request, path: Path)
    requires path in w.views && w.views[path].current.Some? && w.views[path].base.Some?
  {
    && (forall line :: Added(req, path, line) ==> !CodeOutside(w.views[path].current.value, line))
    && (forall line :: Removed(req, path, line) ==> !CodeOutside(w.views[path].base.value, line))
  }

  /** Code was added in the scope of that name, or removed from it. */
  ghost predicate Touches(w: World, req: Request, path: Path, name: string)
    requires path in w.views && w.views[path].current.Some? && w.views[path].base.Some?
  {
    || (exists line :: Added(req, path, line) && CodeIn(w.views[path].current.value, line, name))
    || (exists line :: Removed(req, path, line) && CodeIn(w.views[path].base.value, line, name))
  }

  lemma {:induction false} TouchedExactly(rev: Revision, lines: set<int>)
    ensures Touched(rev, lines).Some? <==> forall line :: line in lines ==> !CodeOutside(rev, line)
    ensures Touched(rev, lines).Some? ==> forall name ::
      name in Touched(rev, lines).value <==> exists line :: line in lines && CodeIn(rev, line, name)
  {
    hide S.Innermost, S.ScopesOf;
    var scopes := S.ScopesOf(rev.tree);
    if line :| line in lines && CodeOutside(rev, line) {
      assert IsExecutable(rev, line);
    }
    forall name
      ensures name in NamesTouched(rev, scopes, lines) <==> exists line :: line in lines && CodeIn(rev, line, name)
    {
      if line :| line in lines && CodeIn(rev, line, name) {
        assert IsExecutable(rev, line);
      }
      if name in NamesTouched(rev, scopes, lines) {
        var line :| line in lines && IsExecutable(rev, line) && S.Innermost(scopes, line).Some? &&
                    S.Innermost(scopes, line).value == name;
        assert CodeIn(rev, line, name);
      }
    }
  }

  /** A file is asked by scope exactly when it is shown and no code at module
      level changed; and then exactly the names of the changed code count, the
      added code by the head's scopes and the removed by the base's. */
  lemma {:induction false} TouchedNamesExactly(w: World, req: Request, m: ImpactMap, path: Path)
    ensures TouchedNames(w, req, m, path).Some? <==> Shown(w, m, path) && InScopes(w, req, path)
    ensures TouchedNames(w, req, m, path).Some? ==>
      forall name :: name in TouchedNames(w, req, m, path).value <==> Touches(w, req, path, name)
  {
    hide S.Innermost, S.ScopesOf, Touched, CodeIn, CodeOutside;
    if Shown(w, m, path) {
      var v := w.views[path];
      LinesAtExactly(req, path);
      TouchedExactly(v.current.value, LinesAt(req.additions, path));
      TouchedExactly(v.base.value, LinesAt(req.baseLines, path));
    }
  }

  lemma {:induction false} LinesAtExactly(req: Request, path: Path)
    ensures forall line :: line in LinesAt(req.additions, path) <==> Added(req, path, line)
    ensures forall line :: line in LinesAt(req.baseLines, path) <==> Removed(req, path, line)
  {
  }

  // ----- a file's tests, in terms of coverage -----

  /** The test executed, at the map's base, code innermost in a scope the change touches. */
  ghost predicate ExecutedTouched(run: Run, w: World, req: Request, path: Path, t: NodeId)
    requires path in w.views && w.views[path].current.Some? && w.views[path].base.Some?
  {
    exists name :: Touches(w, req, path, name) &&
      CoversScope(run.contexts, t, path, ScopesFor(run.sources, path), name)
  }

  /** Some lines were removed, and the index knows each of them. */
  ghost predicate AllKnown(req: Request, m: ImpactMap, path: Path) {
    && (exists line :: Removed(req, path, line))
    && (forall line :: Removed(req, path, line) ==> path in m.lineTests && line in m.lineTests[path])
  }

  /** The test executed one of the removed lines. */
  ghost predicate ExecutedRemoved(run: Run, req: Request, path: Path, t: NodeId) {
    exists line :: Removed(req, path, line) && Covers(run.contexts, t, path, line)
  }

  /** How a mapped file is answered, and by which tests: by scope, those that
      executed a touched one; else, if it is fresh, by line those that executed
      a removed line, or by file all that executed it; else not at all. */
  lemma {:induction false} AnswerExactly(
    run: Run, cap: int, raw: map<Path, Lines>, m: ImpactMap, w: World, req: Request, path: Path)
    requires Built(run, cap, raw, m) && InSource(path) && path in m.fileTests
    ensures var r := Charge(w, req, m, path);
      if Shown(w, m, path) && InScopes(w, req, path) && path in m.scopeTests && m.scopeTests[path] != map[] then
        r.Some? && forall t :: t in r.value <==> ExecutedTouched(run, w, req, path, t)
      else if path !in req.freshFiles then r == None
      else if AllKnown(req, m, path) then
        r.Some? && forall t :: t in r.value <==> ExecutedRemoved(run, req, path, t)
      else
        r.Some? && forall t :: t in r.value <==> CoversFile(run.contexts, t, path)
  {
    hide Built, S.Innermost, S.ScopesOf, TouchedNames, Named, InScopes, Touches, Covers, CoversFile, InSource, FileHits,
      LineHits, ScopeHits, CoversScope, CoversTouched, ExecutedRemoved, ExecutedTouched;
    TouchedNamesExactly(w, req, m, path);
    if TouchedNames(w, req, m, path).Some? && ScopesAt(m.scopeTests, path) != map[] {
      ScopeChargeExactly(run, cap, raw, m, w, req, path);
      forall t
        ensures CoversTouched(run, t, path, TouchedNames(w, req, m, path).value) <==>
          ExecutedTouched(run, w, req, path, t)
      {
        TouchedIsExecuted(run, w, req, m, path, t);
      }
    } else if path in req.freshFiles {
      LinesAtExactly(req, path);
      if AllKnown(req, m, path) {
        LineChargeExactly(run, cap, raw, m, req, path);
      }
      FileChargeExactly(run, cap, raw, m, path);
      KnownExactly(req, m, path);
    }
  }

  lemma {:induction false} TouchedIsExecuted(
    run: Run, w: World, req: Request, m: ImpactMap, path: Path, t: NodeId)
    requires TouchedNames(w, req, m, path).Some? && Shown(w, m, path)
    ensures CoversTouched(run, t, path, TouchedNames(w, req, m, path).value) <==>
      ExecutedTouched(run, w, req, path, t)
  {
    hide TouchedNames, Touches, CoversScope, ScopesFor, Shown, S.ScopesOf;
    TouchedNamesExactly(w, req, m, path);
  }

  lemma {:induction false} KnownExactly(req: Request, m: ImpactMap, path: Path)
    ensures AllKnown(req, m, path) <==>
      LinesAt(req.baseLines, path) != {} && LinesKnown(m, path, LinesAt(req.baseLines, path))
  {
    LinesAtExactly(req, path);
    var lines := LinesAt(req.baseLines, path);
    if lines != {} {
      LineLeft(lines);
      var line :| line in lines;
      assert Removed(req, path, line);
    }
    if AllKnown(req, m, path) {
      var line :| Removed(req, path, line);
      assert line in lines;
      forall known | known in lines
        ensures known in LinesOf(m.lineTests, path)
      {
        assert Removed(req, path, known);
      }
    }
    if LinesKnown(m, path, lines) {
      forall line | Removed(req, path, line)
        ensures path in m.lineTests && line in m.lineTests[path]
      {
        assert line in lines && line in LinesOf(m.lineTests, path);
      }
    }
  }

  lemma {:induction false} FileChargeExactly(
    run: Run, cap: int, raw: map<Path, Lines>, m: ImpactMap, path: Path)
    requires Built(run, cap, raw, m) && InSource(path)
    ensures forall t :: t in FileHits(m, path) <==> CoversFile(run.contexts, t, path)
    ensures forall lines: set<int> :: LineHits(m, path, lines) <= FileHits(m, path)
  {
    hide LinesReflect, ScopesReflect, Capped, FileOf, Covers, InSource, LineAt;
    BuiltIsWellIndexed(run, cap, raw, m);
    forall t
      ensures t in FileHits(m, path) <==> CoversFile(run.contexts, t, path)
    {
      if t in FileHits(m, path) {
        var i :| i in FileAt(m.fileTests, path) && i < |m.nodeids| && m.nodeids[i] == t;
        assert FileReflects(run.contexts, m.nodeids, m.fileTests, path, i);
      }
      if CoversFile(run.contexts, t, path) {
        var line :| Covers(run.contexts, t, path, line);
        var i := CoveringIndex(run, cap, raw, m, path, line, t);
        FileCharges(run, cap, raw, m, path, line, i);
      }
    }
    forall lines: set<int>
      ensures LineHits(m, path, lines) <= FileHits(m, path)
    {
      LinesInFile(m, path, lines);
    }
  }

  lemma {:induction false} LineChargeExactly(
    run: Run, cap: int, raw: map<Path, Lines>, m: ImpactMap, req: Request, path: Path)
    requires Built(run, cap, raw, m) && InSource(path) && AllKnown(req, m, path)
    ensures forall t :: t in LineHits(m, path, LinesAt(req.baseLines, path)) <==> ExecutedRemoved(run, req, path, t)
  {
    hide Built, Covers, InSource, AllKnown, Named, LineAt;
    LinesAtExactly(req, path);
    var lines := LinesAt(req.baseLines, path);
    forall t
      ensures t in LineHits(m, path, lines) <==> ExecutedRemoved(run, req, path, t)
    {
      if t in LineHits(m, path, lines) {
        var line :| line in lines && t in Named(m.nodeids, LineAt(m.lineTests, path, line));
        KnownLineExactly(run, cap, raw, m, req, path, line, t);
        assert Removed(req, path, line);
      }
      if ExecutedRemoved(run, req, path, t) {
        var line :| Removed(req, path, line) && Covers(run.contexts, t, path, line);
        KnownLineExactly(run, cap, raw, m, req, path, line, t);
        assert line in lines && t in Named(m.nodeids, LineAt(m.lineTests, path, line));
      }
    }
  }

  lemma {:induction false} KnownLineExactly(
    run: Run, cap: int, raw: map<Path, Lines>, m: ImpactMap, req: Request, path: Path, line: int, t: NodeId)
    requires Built(run, cap, raw, m) && InSource(path) && AllKnown(req, m, path) && Removed(req, path, line)
    ensures t in Named(m.nodeids, LineAt(m.lineTests, path, line)) <==> Covers(run.contexts, t, path, line)
  {
    hide ScopesReflect, FilesReflect, Capped, FileOf, Covers, InSource;
    CappedAt(raw, cap, path, line);
    if t in Named(m.nodeids, LineAt(m.lineTests, path, line)) {
      var i :| i in LineAt(m.lineTests, path, line) && i < |m.nodeids| && m.nodeids[i] == t;
      assert LineReflects(run.contexts, m.nodeids, raw, path, line, i);
    }
    if Covers(run.contexts, t, path, line) {
      var i := CoveringIndex(run, cap, raw, m, path, line, t);
      assert LineReflects(run.contexts, m.nodeids, raw, path, line, i);
    }
  }

  // ----- what this means for a selection -----

  /** A line of code that was added innermost in a scope brings in every test
      that executed, at the map's base, a line innermost in the scope of that
      name, or everything runs, unless code at module level changed as well. */
  lemma {:induction false} AddedLineIsSafe(
    run: Run, cap: int, raw: map<Path, Lines>, m: ImpactMap, w: World, req: Request, path: Path, line: int,
    name: string, t: NodeId)
    requires Built(run, cap, raw, m) && InSource(path) && path in SourceChanges(w, req)
    requires Shown(w, m, path) && InScopes(w, req, path)
    requires Added(req, path, line) && CodeIn(w.views[path].current.value, line, name)
    requires CoversScope(run.contexts, t, path, ScopesFor(run.sources, path), name)
    ensures Resolved(w, req, m).Full? || t in Picked(Resolved(w, req, m))
  {
    hide Built, Resolved, Charge, SourceChanges, InSource, ScopesFor, CoversScope, InScopes, CodeIn, S.ScopesOf;
    ScopedFileIsMapped(run, cap, raw, m, path, name, t);
    AnswerExactly(run, cap, raw, m, w, req, path);
    assert Touches(w, req, path, name);
    assert ExecutedTouched(run, w, req, path, t);
    if Resolved(w, req, m).Focused? {
      ChargedIsPicked(w, req, m, path, t);
    }
  }

  /** Code added at module level: the file is not answered by scope.  It is
      answered as if it had no scopes, or everything runs. */
  lemma {:induction false} LooseLineIsNotScoped(
    run: Run, cap: int, raw: map<Path, Lines>, m: ImpactMap, w: World, req: Request, path: Path, line: int, t: NodeId)
    requires Built(run, cap, raw, m) && InSource(path) && path in SourceChanges(w, req) && path in m.fileTests
    requires path in w.views && w.views[path].current.Some?
    requires Added(req, path, line) && CodeOutside(w.views[path].current.value, line)
    ensures path !in req.freshFiles ==> Resolved(w, req, m).Full?
    ensures !AllKnown(req, m, path) && CoversFile(run.contexts, t, path) ==>
      Resolved(w, req, m).Full? || t in Picked(Resolved(w, req, m))
    ensures Charge(w, req, m, path) == Charge(w, req, m.(scopeTests := m.scopeTests - {path}), path)
  {
    hide Built, Resolved, Charge, SourceChanges, InSource, CoversFile, CodeOutside, AllKnown;
    AnswerExactly(run, cap, raw, m, w, req, path);
    if Resolved(w, req, m).Focused? {
      ChargedIsPicked(w, req, m, path, t);
    }
    WithoutScopes(w, req, m, path);
    TouchedNamesExactly(w, req, m, path);
  }

  lemma {:induction false} WithoutScopes(w: World, req: Request, m: ImpactMap, path: Path)
    ensures TouchedNames(w, req, m, path) == None ==>
      Charge(w, req, m, path) == Charge(w, req, m.(scopeTests := m.scopeTests - {path}), path)
  {
    hide Touched, Named, S.ScopesOf;
  }

  // ----- the whole selection -----

  ghost predicate IsChanged(req: Request, path: Path) {
    path in req.changedFiles && path != ""
  }

  /** Something that calls for the guards has changed. */
  ghost predicate CallsGuards(w: World, req: Request) {
    exists path :: IsChanged(req, path) &&
      (w.isSource(path) || path in w.contracts || (w.isTest(path) && path in w.existing))
  }

  ghost predicate ByContract(w: World, req: Request, t: string) {
    exists path :: IsChanged(req, path) && path in w.contracts && t in w.contracts[path]
  }

  ghost predicate ByCharge(w: World, req: Request, m: ImpactMap, t: string) {
    exists path :: IsChanged(req, path) && w.isSource(path) && ChargedWith(w, req, m, path, t)
  }

  ghost predicate ChargedWith(w: World, req: Request, m: ImpactMap, path: Path, t: string) {
    Charge(w, req, m, path).Some? && t in Charge(w, req, m, path).value
  }

  /** A changed test, a contract test or a guard, if it exists, or a test that a
      changed source file is charged with. */
  ghost predicate IsWanted(w: World, req: Request, m: ImpactMap, t: string) {
    || (t in w.existing && IsChanged(req, t) && w.isTest(t))
    || (t in w.existing && ByContract(w, req, t))
    || (t in w.existing && (t in w.policy.alwaysRun || t in m.alwaysRun) && CallsGuards(w, req))
    || ByCharge(w, req, m, t)
  }

  /** Some contract of a changed path names a test that is missing. */
  ghost predicate ContractBroken(w: World, req: Request) {
    exists t :: t !in w.existing && ByContract(w, req, t)
  }

  /** A changed path of no kind the resolver knows. */
  ghost predicate IsOpaque(w: World, req: Request, path: Path) {
    IsChanged(req, path) && path !in w.contracts && !w.isTest(path) && !w.isSource(path) && !w.isDocumentation(path)
  }

  /** A plain path, or a node id that is still defined. */
  ghost predicate CanRun(w: World, t: string) {
    (forall i :: 0 <= i < |t| - 1 ==> !(t[i] == ':' && t[i + 1] == ':')) || t in w.defined
  }

  /** The part of a node id in front of `::`, which is all of a plain path. */
  lemma {:induction false} FileOfExactly(t: string)
    ensures FileOf(t) <= t && (FileOf(t) == t || "::" <= t[|FileOf(t)|..])
    ensures forall i :: 0 <= i < |FileOf(t)| && i < |t| - 1 ==> !(t[i] == ':' && t[i + 1] == ':')
  {
    if t != "" && !("::" <= t) {
      FileOfExactly(t[1..]);
      var rest := FileOf(t[1..]);
      assert forall i :: 0 < i < |t| ==> t[i] == t[1..][i - 1];
      assert t[|FileOf(t)|..] == t[1..][|rest|..];
      assert |t| > 1 ==> [t[0], t[1]] <= t;
    }
  }

  lemma {:induction false} RunsExactly(w: World, t: string)
    ensures CanRun(w, t) <==> Resolvable(w, t)
  {
    FileOfExactly(t);
    if FileOf(t) != t {
      var n := |FileOf(t)|;
      assert t[n..][0] == t[n] && t[n..][1] == t[n + 1];
    }
  }

  /** A focused selection picks exactly what is wanted, and runs of it exactly
      the plain paths and the tests that are still defined. */
  lemma {:induction false} PickedExactly(w: World, req: Request, m: ImpactMap)
    requires Resolved(w, req, m).Focused?
    ensures forall t :: t in Picked(Resolved(w, req, m)) <==> IsWanted(w, req, m, t)
    ensures forall t :: t in Resolved(w, req, m).tests <==>
      IsWanted(w, req, m, t) && CanRun(w, t)
    ensures Resolved(w, req, m).tests !! Resolved(w, req, m).stale
  {
    hide Charge, Forced, FileOf, Selected, IsWanted, Unresolved, CanRun, Resolvable;
    PickedIsSelected(w, req, m);
    forall t
      ensures t in Selected(w, req, m) <==> IsWanted(w, req, m, t)
      ensures CanRun(w, t) <==> Resolvable(w, t)
    {
      SelectedExactly(w, req, m, t);
      RunsExactly(w, t);
    }
  }

  lemma {:induction false} SelectedExactly(w: World, req: Request, m: ImpactMap, t: string)
    ensures t in Selected(w, req, m) <==> IsWanted(w, req, m, t)
  {
    hide Charge;
    GuardsExactly(w, req, m);
    ContractsExactly(w, req, t);
    if ByCharge(w, req, m, t) {
      var path :| IsChanged(req, path) && w.isSource(path) && ChargedWith(w, req, m, path, t);
      assert path in SourceChanges(w, req);
    }
    if t in Charged(w, req, m, SourceChanges(w, req)) {
      var path :| path in SourceChanges(w, req) && Charge(w, req, m, path).Some? && t in Charge(w, req, m, path).value;
      assert ChargedWith(w, req, m, path, t) && IsChanged(req, path);
    }
  }

  lemma {:induction false} ContractsExactly(w: World, req: Request, t: string)
    ensures t in ContractTests(w, Changed(req)) <==> t in w.existing && ByContract(w, req, t)
  {
    if ByContract(w, req, t) {
      var path :| IsChanged(req, path) && path in w.contracts && t in w.contracts[path];
      assert path in Changed(req);
    }
    if t in ContractTests(w, Changed(req)) {
      var path :| path in Changed(req) && path in w.contracts && t in w.contracts[path];
      assert IsChanged(req, path);
    }
  }

  lemma {:induction false} GuardsExactly(w: World, req: Request, m: ImpactMap)
    ensures forall t :: t in AlwaysSelected(w, req, m) <==>
      t in w.existing && (t in w.policy.alwaysRun || t in m.alwaysRun) && CallsGuards(w, req)
  {
    if CallsGuards(w, req) {
      var path :| IsChanged(req, path) &&
                  (w.isSource(path) || path in w.contracts || (w.isTest(path) && path in w.existing));
      assert path in Changed(req);
      assert path in SourceChanges(w, req) || path in TestChanges(w, req) || path in Changed(req) * w.contracts.Keys;
    } else {
      assert forall path :: path in Changed(req) ==> IsChanged(req, path);
      assert SourceChanges(w, req) == {} && TestChanges(w, req) == {} && Changed(req) * w.contracts.Keys == {};
    }
  }

  /** Everything runs exactly for the first of these reasons that holds. */
  lemma {:induction false} FullExactly(w: World, req: Request, m: ImpactMap)
    ensures var r := Resolved(w, req, m);
      if forall path :: !IsChanged(req, path) then r == Full(NoChangedFiles)
      else if exists path :: IsChanged(req, path) && path in w.policy.globalFull then r == Full(GlobalInfrastructure)
      else if ContractBroken(w, req) then r == Full(ContractTestMissing)
      else if exists path :: IsOpaque(w, req, path) then r == Full(UnmappableChange)
      else if exists path :: IsChanged(req, path) && w.isSource(path) && Charge(w, req, m, path) == None then
        r == Full(UnresolvedSource)
      else if (exists t :: IsWanted(w, req, m, t)) && (forall t :: IsWanted(w, req, m, t) ==> !CanRun(w, t)) then
        r == Full(AllStale)
      else r.Focused?
  {
    hide Charge, Selected, IsWanted, Finish, IsOpaque, ContractBroken, Unresolved, CanRun;
    ForcedExactly(w, req);
    UnresolvedExactly(w, req, m);
    forall t
      ensures t in Selected(w, req, m) <==> IsWanted(w, req, m, t)
    {
      SelectedExactly(w, req, m, t);
    }
    StaleExactly(w, Selected(w, req, m));
  }

  lemma {:induction false} StaleExactly(w: World, selected: set<string>)
    ensures var r := Finish(w, selected);
      if (exists t :: t in selected) && (forall t :: t in selected ==> !CanRun(w, t))
      then r == Full(AllStale) else r.Focused?
  {
    hide CanRun, Resolvable;
    forall t
      ensures CanRun(w, t) <==> Resolvable(w, t)
    {
      RunsExactly(w, t);
    }
    var tests := set t | t in selected && Resolvable(w, t);
    if t :| t in selected && CanRun(w, t) {
      assert t in tests;
    } else {
      assert tests == {};
    }
  }

  lemma {:induction false} UnresolvedExactly(w: World, req: Request, m: ImpactMap)
    ensures Unresolved(w, req, m, SourceChanges(w, req)) != {} <==>
      exists path :: IsChanged(req, path) && w.isSource(path) && Charge(w, req, m, path) == None
  {
    hide Charge;
    if path :| IsChanged(req, path) && w.isSource(path) && Charge(w, req, m, path) == None {
      assert path in Unresolved(w, req, m, SourceChanges(w, req));
    }
    if path :| path in Unresolved(w, req, m, SourceChanges(w, req)) {
      assert IsChanged(req, path);
    }
  }

  lemma {:induction false} ForcedExactly(w: World, req: Request)
    ensures Forced(w, req) ==
      if forall path :: !IsChanged(req, path) then Some(NoChangedFiles)
      else if exists path :: IsChanged(req, path) && path in w.policy.globalFull then Some(GlobalInfrastructure)
      else if ContractBroken(w, req) then Some(ContractTestMissing)
      else if exists path :: IsOpaque(w, req, path) then Some(UnmappableChange)
      else None
  {
    ChangedExactly(req);
    BrokenExactly(w, req);
    if path :| IsChanged(req, path) {
      assert path in Changed(req);
    }
    if path :| IsChanged(req, path) && path in w.policy.globalFull {
      assert path in Changed(req) * w.policy.globalFull;
    }
    if path :| IsOpaque(w, req, path) {
      assert path in Changed(req) && Opaque(w, path);
    }
    if path :| path in Changed(req) && Opaque(w, path) {
      assert IsOpaque(w, req, path);
    }
  }

  lemma {:induction false} ChangedExactly(req: Request)
    ensures forall path :: path in Changed(req) <==> IsChanged(req, path)
  {
  }

  lemma {:induction false} BrokenExactly(w: World, req: Request)
    ensures ContractBroken(w, req) <==> !ContractsHold(w, Changed(req))
  {
    ChangedExactly(req);
    if ContractBroken(w, req) {
      var t :| t !in w.existing && ByContract(w, req, t);
      var path :| IsChanged(req, path) && path in w.contracts && t in w.contracts[path];
      assert path in Changed(req) && !ContractHolds(w, path);
    }
    if path :| path in Changed(req) && !ContractHolds(w, path) {
      var t :| t in w.contracts[path] && t !in w.existing;
      assert IsChanged(req, path);
      assert ByContract(w, req, t);
    }
  }
}
