/** What a built impact map holds, told from the coverage run alone. */
module MapMeaning {
  import opened Outcomes
  import opened ImpactMap
  import opened ImpactSafety
  import S = Scopes

  ghost predicate FileNames(m: ImpactMap, path: Path, t: NodeId) {
    path in m.fileTests && exists i :: i in m.fileTests[path] && i < |m.nodeids| && m.nodeids[i] == t
  }

  ghost predicate LineNames(m: ImpactMap, path: Path, line: int, t: NodeId) {
    && path in m.lineTests && line in m.lineTests[path]
    && exists i :: i in m.lineTests[path][line] && i < |m.nodeids| && m.nodeids[i] == t
  }

  ghost predicate ScopeNames(m: ImpactMap, path: Path, name: string, t: NodeId) {
    && path in m.scopeTests && name in m.scopeTests[path]
    && exists i :: i in m.scopeTests[path][name] && i < |m.nodeids| && m.nodeids[i] == t
  }

  ghost predicate InTree(path: Path) {
    |path| >= 4 && path[..4] == "src/"
  }

  /** The tests that executed the line. */
  function TestsOf(run: Run, path: Path, line: int): set<NodeId> {
    set c | c in run.contexts && Entry(path, line) in c.entries :: c.nodeid
  }

  /** The cap leaves a line that so many tests executed. */
  ghost predicate Allows(cap: int, tests: set<NodeId>) {
    cap <= 0 || |tests| <= cap
  }

  /** The test executed a line that the file's own tree puts innermost in the scope. */
  ghost predicate ExecutedIn(run: Run, path: Path, name: string, t: NodeId) {
    path in run.sources &&
    exists line :: S.Innermost(S.ScopesOf(run.sources[path]), line) == Some(name) && t in TestsOf(run, path, line)
  }

  /** The test ran, but no context and no arc is its own. */
  ghost predicate LeftNoTrace(run: Run, t: NodeId) {
    t in run.timings && t !in run.arcOwners && forall c :: c in run.contexts ==> c.nodeid != t
  }

  lemma {:induction false} CoversExactly(run: Run, path: Path, line: int, t: NodeId)
    ensures Covers(run.contexts, t, path, line) <==> t in TestsOf(run, path, line)
  {
  }

  lemma {:induction false} TreeExactly(path: Path)
    ensures InSource(path) <==> InTree(path)
  {
  }

  lemma {:induction false} IndexOf(run: Run, nodeids: seq<NodeId>, path: Path, line: int, t: NodeId) returns (i: nat)
    requires InternedTests(run.contexts, nodeids) && Covers(run.contexts, t, path, line)
    ensures i < |nodeids| && nodeids[i] == t
  {
    assert t in nodeids;
    i :| 0 <= i < |nodeids| && nodeids[i] == t;
  }

  /** The file index. */
  lemma {:induction false} FilesExactly(run: Run, cap: int, raw: map<Path, Lines>, m: ImpactMap)
    requires Built(run, cap, raw, m)
    ensures forall path, t :: FileNames(m, path, t) <==>
      InTree(path) && exists line :: t in TestsOf(run, path, line)
    ensures forall path :: path in m.fileTests ==> m.fileTests[path] != {}
  {
    hide LinesReflect, ScopesReflect, FileOf, Capped, Covers, InSource, InTree, TestsOf;
    forall path, t
      ensures FileNames(m, path, t) <==> InTree(path) && exists line :: t in TestsOf(run, path, line)
    {
      TreeExactly(path);
      if FileNames(m, path, t) {
        var i :| i in m.fileTests[path] && i < |m.nodeids| && m.nodeids[i] == t;
        assert FileReflects(run.contexts, m.nodeids, m.fileTests, path, i);
        var line :| Covers(run.contexts, t, path, line);
        CoversExactly(run, path, line, t);
      }
      if line :| t in TestsOf(run, path, line) {
        CoversExactly(run, path, line, t);
        var i := IndexOf(run, m.nodeids, path, line, t);
        assert CoversFile(run.contexts, t, path);
        assert FileReflects(run.contexts, m.nodeids, m.fileTests, path, i);
      }
    }
  }

  // ----- lines and the cap -----

  /** Distinct indices into a table of distinct ids name as many ids. */
  lemma {:induction false} AsManyNames(ids: seq<NodeId>, indices: set<nat>)
    requires Distinct(ids) && forall i :: i in indices ==> i < |ids|
    ensures |Named(ids, indices)| == |indices|
    decreases |ids|
  {
    if ids == [] {
      assert indices == {};
    } else {
      var n := |ids| - 1;
      var rest := indices - {n};
      AsManyNames(ids[..n], rest);
      assert Named(ids[..n], rest) == Named(ids, rest);
      if n in indices {
        assert Named(ids, indices) == Named(ids, rest) + {ids[n]};
        assert ids[n] !in Named(ids, rest);
        assert |rest| == |indices| - 1;
      } else {
        assert rest == indices;
      }
    }
  }

  lemma {:induction false} RawLine(run: Run, cap: int, raw: map<Path, Lines>, m: ImpactMap, path: Path, line: int)
    requires Built(run, cap, raw, m) && InTree(path)
    ensures Named(m.nodeids, LineAt(raw, path, line)) == TestsOf(run, path, line)
    ensures |LineAt(raw, path, line)| == |TestsOf(run, path, line)|
  {
    hide FilesReflect, ScopesReflect, FileOf, Capped, Covers, InSource, InTree, TestsOf;
    TreeExactly(path);
    var indices := LineAt(raw, path, line);
    forall i | i in indices
      ensures i < |m.nodeids| && m.nodeids[i] in TestsOf(run, path, line)
    {
      assert LineReflects(run.contexts, m.nodeids, raw, path, line, i);
      CoversExactly(run, path, line, m.nodeids[i]);
    }
    forall t | t in TestsOf(run, path, line)
      ensures t in Named(m.nodeids, indices)
    {
      CoversExactly(run, path, line, t);
      var i := IndexOf(run, m.nodeids, path, line, t);
      assert LineReflects(run.contexts, m.nodeids, raw, path, line, i);
    }
    AsManyNames(m.nodeids, indices);
  }

  /** The line index: no line over the cap, and no empty entry. */
  lemma {:induction false} LinesExactly(run: Run, cap: int, raw: map<Path, Lines>, m: ImpactMap)
    requires Built(run, cap, raw, m)
    ensures forall path, line, t :: LineNames(m, path, line, t) <==>
      InTree(path) && t in TestsOf(run, path, line) && Allows(cap, TestsOf(run, path, line))
    ensures forall path :: path in m.lineTests ==> m.lineTests[path] != map[]
    ensures forall path, line :: path in m.lineTests && line in m.lineTests[path] ==> m.lineTests[path][line] != {}
  {
    hide FilesReflect, ScopesReflect, FileOf, InSource, InTree, TestsOf, LineNames, Allows;
    forall path, line, t
      ensures LineNames(m, path, line, t) <==>
        InTree(path) && t in TestsOf(run, path, line) && Allows(cap, TestsOf(run, path, line))
    {
      LineExactly(run, cap, raw, m, path, line, t);
    }
  }

  lemma {:induction false} NoLineOutside(run: Run, cap: int, raw: map<Path, Lines>, m: ImpactMap, path: Path, line: int)
    requires Built(run, cap, raw, m) && !InTree(path)
    ensures LineAt(raw, path, line) == {}
  {
    hide FilesReflect, ScopesReflect, FileOf, Capped, Covers, InSource, InTree, TestsOf;
    TreeExactly(path);
    forall i: nat
      ensures i !in LineAt(raw, path, line)
    {
      assert LineReflects(run.contexts, m.nodeids, raw, path, line, i);
    }
  }

  lemma {:induction false} LineExactly(
    run: Run, cap: int, raw: map<Path, Lines>, m: ImpactMap, path: Path, line: int, t: NodeId)
    requires Built(run, cap, raw, m)
    ensures LineNames(m, path, line, t) <==>
      InTree(path) && t in TestsOf(run, path, line) && Allows(cap, TestsOf(run, path, line))
  {
    hide FilesReflect, ScopesReflect, FileOf, Capped, InSource, InTree, TestsOf;
    TreeExactly(path);
    CappedAt(raw, cap, path, line);
    if InTree(path) {
      RawLine(run, cap, raw, m, path, line);
      if t in TestsOf(run, path, line) {
        var i :| i in LineAt(raw, path, line) && i < |m.nodeids| && m.nodeids[i] == t;
      }
      if LineNames(m, path, line, t) {
        assert t in Named(m.nodeids, LineAt(raw, path, line));
      }
    } else {
      NoLineOutside(run, cap, raw, m, path, line);
    }
  }

  // ----- scopes and the rest -----

  lemma {:induction false} ScopesExactly(run: Run, cap: int, raw: map<Path, Lines>, m: ImpactMap)
    requires Built(run, cap, raw, m)
    ensures forall path, name, t :: ScopeNames(m, path, name, t) <==> InTree(path) && ExecutedIn(run, path, name, t)
    ensures forall path :: path in m.scopeTests ==> m.scopeTests[path] != map[]
  {
    hide FilesReflect, LinesReflect, FileOf, Capped, InSource, InTree, TestsOf, Covers, S.Innermost, S.ScopesOf,
      ExecutedIn;
    forall path, name, t
      ensures ScopeNames(m, path, name, t) <==> InTree(path) && ExecutedIn(run, path, name, t)
    {
      TreeExactly(path);
      ScopeExactly(run, path, name, t);
      var scopes := ScopesFor(run.sources, path);
      if ScopeNames(m, path, name, t) {
        var i :| i in m.scopeTests[path][name] && i < |m.nodeids| && m.nodeids[i] == t;
        assert ScopeReflects(run.contexts, m.nodeids, scopes, m.scopeTests, path, name, i);
      }
      if InTree(path) && ExecutedIn(run, path, name, t) {
        var i := ScopedIndex(run.contexts, m.nodeids, t, path, scopes, name);
        assert ScopeReflects(run.contexts, m.nodeids, scopes, m.scopeTests, path, name, i);
      }
    }
  }

  lemma {:induction false} ScopeExactly(run: Run, path: Path, name: string, t: NodeId)
    ensures CoversScope(run.contexts, t, path, ScopesFor(run.sources, path), name) <==> ExecutedIn(run, path, name, t)
  {
    hide S.ScopesOf, Covers, TestsOf;
    if path in run.sources {
      forall line
        ensures Covers(run.contexts, t, path, line) <==> t in TestsOf(run, path, line)
      {
        CoversExactly(run, path, line, t);
      }
    }
  }

  /** The guards are the files of the tests that left no trace; the digests are
      those of the indexed files; and the base is the revision of the run. */
  lemma {:induction false} RestExactly(run: Run, cap: int, raw: map<Path, Lines>, m: ImpactMap)
    requires Built(run, cap, raw, m)
    ensures forall file :: file in m.alwaysRun <==> exists t :: LeftNoTrace(run, t) && FileOf(t) == file
    ensures forall path :: path in m.fileHashes <==> path in m.fileTests && path in run.digests
    ensures forall path :: path in m.fileHashes ==> m.fileHashes[path] == run.digests[path]
    ensures forall t :: t in m.nodeids <==> exists c :: c in run.contexts && c.nodeid == t
    ensures m.baseSha == run.head
  {
    hide FilesReflect, LinesReflect, ScopesReflect, FileOf, Capped;
    forall t
      ensures t in run.timings - Attributed(run) <==> LeftNoTrace(run, t)
    {
      if c :| c in run.contexts && c.nodeid == t {
        assert t in Attributed(run);
      }
    }
  }
}
