/** The test-impact map: which tests a coverage run saw in which file, line and scope. */
module ImpactMap {
  import opened Outcomes
  import S = Scopes

  type Path = string
  type NodeId = string
  type Lines = map<int, set<nat>>
  type ByName = map<string, set<nat>>

  /** A line some test executed. */
  datatype Entry = Entry(path: Path, line: int)

  /** One test's coverage context. */
  datatype Context = Context(nodeid: NodeId, entries: seq<Entry>)

  /** The document: interned node ids, and three indices into them. */
  datatype ImpactMap = ImpactMap(
    baseSha: string, nodeids: seq<NodeId>,
    fileTests: map<Path, set<nat>>, lineTests: map<Path, Lines>, scopeTests: map<Path, ByName>,
    fileHashes: map<Path, string>, alwaysRun: set<Path>)

  const SOURCE_PREFIX := "src/"

  predicate InSource(path: Path) {
    SOURCE_PREFIX <= path
  }

  /** The part of a node id before `::`. */
  function FileOf(nodeid: NodeId): Path {
    if nodeid == "" || "::" <= nodeid then "" else [nodeid[0]] + FileOf(nodeid[1..])
  }

  // ----- looking things up -----

  function FileAt(files: map<Path, set<nat>>, path: Path): set<nat> {
    if path in files then files[path] else {}
  }

  function LinesOf(table: map<Path, Lines>, path: Path): Lines {
    if path in table then table[path] else map[]
  }

  function LineAt(table: map<Path, Lines>, path: Path, line: int): set<nat> {
    if line in LinesOf(table, path) then LinesOf(table, path)[line] else {}
  }

  function ScopesAt(table: map<Path, ByName>, path: Path): ByName {
    if path in table then table[path] else map[]
  }

  function ScopeAt(table: map<Path, ByName>, path: Path, name: string): set<nat> {
    if name in ScopesAt(table, path) then ScopesAt(table, path)[name] else {}
  }

  function Named(nodeids: seq<NodeId>, indices: set<nat>): set<NodeId> {
    set i | i in indices && i < |nodeids| :: nodeids[i]
  }

  ghost predicate Distinct(s: seq<NodeId>) {
    forall i, j :: 0 <= i < j < |s| ==> s[i] != s[j]
  }

  // ----- the coverage relation -----

  ghost predicate Covers(contexts: seq<Context>, t: NodeId, path: Path, line: int) {
    exists c :: c in contexts && c.nodeid == t && Entry(path, line) in c.entries
  }

  ghost predicate CoversFile(contexts: seq<Context>, t: NodeId, path: Path) {
    exists line :: Covers(contexts, t, path, line)
  }

  ghost predicate CoversScope(contexts: seq<Context>, t: NodeId, path: Path, scopes: S.Table, name: string) {
    exists line :: S.Innermost(scopes, line) == Some(name) && Covers(contexts, t, path, line)
  }

  /** The interned ids are the contexts' tests, each once. */
  ghost predicate InternedTests(contexts: seq<Context>, nodeids: seq<NodeId>) {
    && Distinct(nodeids)
    && forall t :: t in nodeids <==> exists c :: c in contexts && c.nodeid == t
  }

  /** An index into the file table stands for a test that executed that file of the source tree. */
  ghost predicate FileReflects(
    contexts: seq<Context>, nodeids: seq<NodeId>, files: map<Path, set<nat>>, path: Path, i: nat) {
    i in FileAt(files, path) <==> InSource(path) && i < |nodeids| && CoversFile(contexts, nodeids[i], path)
  }

  ghost predicate LineReflects(
    contexts: seq<Context>, nodeids: seq<NodeId>, table: map<Path, Lines>, path: Path, line: int, i: nat) {
    i in LineAt(table, path, line) <==> InSource(path) && i < |nodeids| && Covers(contexts, nodeids[i], path, line)
  }

  /** The file index is the coverage relation, by file of the source tree. */
  ghost predicate FilesReflect(contexts: seq<Context>, nodeids: seq<NodeId>, files: map<Path, set<nat>>) {
    && (forall path :: path in files ==> files[path] != {})
    && forall path, i: nat :: FileReflects(contexts, nodeids, files, path, i)
  }

  ghost predicate LinesReflect(contexts: seq<Context>, nodeids: seq<NodeId>, table: map<Path, Lines>) {
    && (forall path, line :: path in table && line in table[path] ==> table[path][line] != {})
    && forall path, line, i: nat :: LineReflects(contexts, nodeids, table, path, line, i)
  }

  type Sources = map<Path, seq<S.Node>>

  /** A file that is missing or does not parse has no scopes. */
  function ScopesFor(sources: Sources, path: Path): S.Table {
    if path in sources then S.ScopesOf(sources[path]) else []
  }

  ghost predicate ScopeReflects(
    contexts: seq<Context>, nodeids: seq<NodeId>, scopes: S.Table, table: map<Path, ByName>, path: Path, name: string,
    i: nat) {
    i in ScopeAt(table, path, name) <==>
    InSource(path) && i < |nodeids| && CoversScope(contexts, nodeids[i], path, scopes, name)
  }

  ghost predicate ScopesReflect(
    contexts: seq<Context>, nodeids: seq<NodeId>, sources: Sources, table: map<Path, ByName>) {
    && (forall path :: path in table ==> table[path] != map[])
    && forall path, name, i: nat :: ScopeReflects(contexts, nodeids, ScopesFor(sources, path), table, path, name, i)
  }

  // ----- interning and aggregation -----

  method Intern(nodeids: seq<NodeId>, index: map<NodeId, nat>, nodeid: NodeId)
    returns (ids: seq<NodeId>, newIndex: map<NodeId, nat>, idx: nat)
    requires Indexed(nodeids, index)
    ensures Indexed(ids, newIndex) && idx < |ids| && ids[idx] == nodeid
    ensures ids == if nodeid in nodeids then nodeids else nodeids + [nodeid]
  {
    ids, newIndex := nodeids, index;
    if nodeid !in index {
      ids, newIndex := nodeids + [nodeid], index[nodeid := |index|];
      IndexSize(nodeids, index);
    }
    idx := newIndex[nodeid];
  }

  /** The dictionary numbers the ids in the order they were first seen. */
  ghost predicate Indexed(nodeids: seq<NodeId>, index: map<NodeId, nat>) {
    && (forall t :: t in index <==> t in nodeids)
    && (forall i :: 0 <= i < |nodeids| ==> nodeids[i] in index && index[nodeids[i]] == i)
  }

  lemma {:induction false} IndexSize(nodeids: seq<NodeId>, index: map<NodeId, nat>)
    requires Indexed(nodeids, index)
    ensures |index| == |nodeids|
    decreases |nodeids|
  {
    if nodeids == [] {
      assert index == map[];
    } else {
      var n := |nodeids| - 1;
      var rest := map t | t in index && t != nodeids[n] :: index[t];
      assert forall t :: t in nodeids <==> t in nodeids[..n] || t == nodeids[n];
      forall i | 0 <= i < n
        ensures nodeids[..n][i] in rest && rest[nodeids[..n][i]] == i
      {
        assert index[nodeids[i]] == i && index[nodeids[n]] == n;
      }
      forall t | t in nodeids[..n]
        ensures t in rest
      {
      }
      IndexSize(nodeids[..n], rest);
      assert index.Keys == rest.Keys + {nodeids[n]};
      assert |index| == |index.Keys| && |rest| == |rest.Keys|;
    }
  }

  method AddEntry(files: map<Path, set<nat>>, table: map<Path, Lines>, idx: nat, e: Entry)
    returns (files': map<Path, set<nat>>, table': map<Path, Lines>)
    requires forall path :: path in files ==> files[path] != {}
    requires forall path, line :: path in table && line in table[path] ==> table[path][line] != {}
    ensures forall path :: path in files' ==> files'[path] != {}
    ensures forall path, line :: path in table' && line in table'[path] ==> table'[path][line] != {}
    ensures forall path :: FileAt(files', path) == FileAt(files, path) + (if path == e.path then {idx} else {})
    ensures forall path, line ::
      LineAt(table', path, line) == LineAt(table, path, line) + (if Entry(path, line) == e then {idx} else {})
  {
    files' := files[e.path := FileAt(files, e.path) + {idx}];
    table' := table[e.path := LinesOf(table, e.path)[e.line := LineAt(table, e.path, e.line) + {idx}]];
  }

  method Aggregate(contexts: seq<Context>)
    returns (nodeids: seq<NodeId>, files: map<Path, set<nat>>, table: map<Path, Lines>)
    ensures InternedTests(contexts, nodeids)
    ensures FilesReflect(contexts, nodeids, files) && LinesReflect(contexts, nodeids, table)
  {
    hide FilesReflect, LinesReflect, InternedTests, Indexed, Distinct;
    nodeids, files, table := [], map[], map[];
    var index := map[];
    NothingCovered();
    NothingIndexed();
    assert contexts[..0] == [];
    for i := 0 to |contexts|
      invariant Indexed(nodeids, index) && InternedTests(contexts[..i], nodeids)
      invariant FilesReflect(contexts[..i], nodeids, files) && LinesReflect(contexts[..i], nodeids, table)
    {
      var c := contexts[i];
      assert contexts[..i + 1] == contexts[..i] + [c];
      ghost var before := nodeids;
      var idx: nat;
      nodeids, index, idx := Intern(nodeids, index, c.nodeid);
      InternedOneMore(contexts[..i], before, nodeids, c);
      NewContext(contexts[..i], before, nodeids, c.nodeid, files, table);
      files, table := AddContext(contexts[..i], nodeids, files, table, idx, c);
    }
    assert contexts[..|contexts|] == contexts;
  }

  /** One context's lines, all for the same interned test. */
  method AddContext(
    ghost done: seq<Context>, ghost nodeids: seq<NodeId>, files: map<Path, set<nat>>, table: map<Path, Lines>,
    idx: nat, c: Context)
    returns (files': map<Path, set<nat>>, table': map<Path, Lines>)
    requires Distinct(nodeids) && idx < |nodeids| && nodeids[idx] == c.nodeid
    requires FilesReflect(done + [Context(c.nodeid, [])], nodeids, files)
    requires LinesReflect(done + [Context(c.nodeid, [])], nodeids, table)
    ensures FilesReflect(done + [c], nodeids, files') && LinesReflect(done + [c], nodeids, table')
  {
    hide InSource, FileAt, LineAt, Covers, CoversFile, FilesReflect, LinesReflect;
    files', table' := files, table;
    for j := 0 to |c.entries|
      invariant FilesReflect(done + [Context(c.nodeid, c.entries[..j])], nodeids, files')
      invariant LinesReflect(done + [Context(c.nodeid, c.entries[..j])], nodeids, table')
    {
      var e := c.entries[j];
      ghost var before := done + [Context(c.nodeid, c.entries[..j])];
      ghost var after := done + [Context(c.nodeid, c.entries[..j + 1])];
      CoversSnoc(done, c, j);
      if !InSource(e.path) {
        SkippedEntry(before, after, nodeids, files', table', c.nodeid, e);
        continue;
      }
      ghost var oldFiles, oldTable := files', table';
      NeverEmpty(before, nodeids, files', table');
      files', table' := AddEntry(files', table', idx, e);
      AddedEntry(before, after, nodeids, oldFiles, oldTable, files', table', idx, e);
    }
    assert c.entries[..|c.entries|] == c.entries;
  }

  lemma {:induction false} NeverEmpty(
    contexts: seq<Context>, nodeids: seq<NodeId>, files: map<Path, set<nat>>, table: map<Path, Lines>)
    requires FilesReflect(contexts, nodeids, files) && LinesReflect(contexts, nodeids, table)
    ensures forall path :: path in files ==> files[path] != {}
    ensures forall path, line :: path in table && line in table[path] ==> table[path][line] != {}
  {
    hide Covers, CoversFile;
  }

  /** The coverage relation with one more executed line. */
  ghost predicate Extends(before: seq<Context>, after: seq<Context>, t: NodeId, e: Entry) {
    forall u, path, line :: Covers(after, u, path, line) <==>
      Covers(before, u, path, line) || (u == t && Entry(path, line) == e)
  }

  lemma {:induction false} CoversSnoc(done: seq<Context>, c: Context, j: nat)
    requires j < |c.entries|
    ensures Extends(
      done + [Context(c.nodeid, c.entries[..j])], done + [Context(c.nodeid, c.entries[..j + 1])],
      c.nodeid, c.entries[j])
  {
    var was, now := Context(c.nodeid, c.entries[..j]), Context(c.nodeid, c.entries[..j + 1]);
    assert now.entries == was.entries + [c.entries[j]];
    forall u, path, line
      ensures Covers(done + [now], u, path, line) <==>
        Covers(done, u, path, line) || (u == c.nodeid && Entry(path, line) in now.entries)
      ensures Covers(done + [was], u, path, line) <==>
        Covers(done, u, path, line) || (u == c.nodeid && Entry(path, line) in was.entries)
    {
      CoversLast(done, now, u, path, line);
      CoversLast(done, was, u, path, line);
    }
  }

  lemma {:induction false} CoversLast(done: seq<Context>, c: Context, u: NodeId, path: Path, line: int)
    ensures Covers(done + [c], u, path, line) <==>
      Covers(done, u, path, line) || (u == c.nodeid && Entry(path, line) in c.entries)
  {
    if u == c.nodeid && Entry(path, line) in c.entries {
      assert c in done + [c];
    }
    if d :| d in done && d.nodeid == u && Entry(path, line) in d.entries {
      assert d in done + [c];
    }
  }

  lemma {:induction false} ExtendsFile(
    before: seq<Context>, after: seq<Context>, t: NodeId, e: Entry, u: NodeId, path: Path)
    requires Extends(before, after, t, e)
    ensures CoversFile(after, u, path) <==> CoversFile(before, u, path) || (u == t && path == e.path)
  {
    hide Covers;
    if CoversFile(before, u, path) {
      var line :| Covers(before, u, path, line);
      assert Covers(after, u, path, line);
    }
    if u == t && path == e.path {
      assert Covers(after, u, path, e.line);
    }
  }

  lemma {:induction false} SkippedEntry(
    before: seq<Context>, after: seq<Context>, nodeids: seq<NodeId>,
    files: map<Path, set<nat>>, table: map<Path, Lines>, t: NodeId, e: Entry)
    requires Extends(before, after, t, e) && !InSource(e.path)
    requires FilesReflect(before, nodeids, files) && LinesReflect(before, nodeids, table)
    ensures FilesReflect(after, nodeids, files) && LinesReflect(after, nodeids, table)
  {
    hide Covers, CoversFile, InSource, FileAt, LineAt;
    forall path, i: nat
      ensures FileReflects(after, nodeids, files, path, i)
    {
      assert FileReflects(before, nodeids, files, path, i);
      if i < |nodeids| {
        ExtendsFile(before, after, t, e, nodeids[i], path);
      }
    }
    forall path, line, i: nat
      ensures LineReflects(after, nodeids, table, path, line, i)
    {
      assert LineReflects(before, nodeids, table, path, line, i);
    }
  }

  lemma {:induction false} AddedEntry(
    before: seq<Context>, after: seq<Context>, nodeids: seq<NodeId>, files: map<Path, set<nat>>, table: map<Path,
    Lines>,
    files': map<Path, set<nat>>, table': map<Path, Lines>, idx: nat, e: Entry)
    requires Distinct(nodeids) && idx < |nodeids| && Extends(before, after, nodeids[idx], e) && InSource(e.path)
    requires FilesReflect(before, nodeids, files) && LinesReflect(before, nodeids, table)
    requires forall path :: path in files' ==> files'[path] != {}
    requires forall path, line :: path in table' && line in table'[path] ==> table'[path][line] != {}
    requires forall path :: FileAt(files', path) == FileAt(files, path) + (if path == e.path then {idx} else {})
    requires forall path, line ::
      LineAt(table', path, line) == LineAt(table, path, line) + (if Entry(path, line) == e then {idx} else {})
    ensures FilesReflect(after, nodeids, files') && LinesReflect(after, nodeids, table')
  {
    hide Covers, CoversFile, InSource, FileAt, LineAt;
    forall path, i: nat
      ensures FileReflects(after, nodeids, files', path, i)
    {
      assert FileReflects(before, nodeids, files, path, i);
      if i < |nodeids| {
        ExtendsFile(before, after, nodeids[idx], e, nodeids[i], path);
        assert nodeids[i] == nodeids[idx] <==> i == idx;
      }
    }
    forall path, line, i: nat
      ensures LineReflects(after, nodeids, table', path, line, i)
    {
      assert LineReflects(before, nodeids, table, path, line, i);
      if i < |nodeids| {
        assert nodeids[i] == nodeids[idx] <==> i == idx;
      }
    }
  }

  /** Interning a test before any of its lines changes nothing. */
  lemma {:induction false} NewContext(
    done: seq<Context>, before: seq<NodeId>, nodeids: seq<NodeId>, t: NodeId, files: map<Path, set<nat>>,
    table: map<Path, Lines>)
    requires InternedTests(done, before) && nodeids == if t in before then before else before + [t]
    requires FilesReflect(done, before, files) && LinesReflect(done, before, table)
    ensures FilesReflect(done + [Context(t, [])], nodeids, files) &&
      LinesReflect(done + [Context(t, [])], nodeids, table)
  {
    hide InSource, FileAt, LineAt, Covers, CoversFile;
    var now := done + [Context(t, [])];
    forall path, i: nat
      ensures FileReflects(now, nodeids, files, path, i)
    {
      assert FileReflects(done, before, files, path, i);
      if i < |nodeids| {
        EmptyContext(done, before, t, nodeids[i], path);
      }
    }
    forall path, line, i: nat
      ensures LineReflects(now, nodeids, table, path, line, i)
    {
      assert LineReflects(done, before, table, path, line, i);
      if i < |nodeids| {
        EmptyContext(done, before, t, nodeids[i], path);
      }
    }
  }

  lemma {:induction false} InternedOneMore(done: seq<Context>, before: seq<NodeId>, nodeids: seq<NodeId>, c: Context)
    requires InternedTests(done, before) && nodeids == if c.nodeid in before then before else before + [c.nodeid]
    ensures Distinct(nodeids) && InternedTests(done + [c], nodeids)
  {
    forall t
      ensures t in nodeids <==> exists d :: d in done + [c] && d.nodeid == t
    {
      if t == c.nodeid {
        assert c in done + [c];
      }
      if d :| d in done && d.nodeid == t {
        assert d in done + [c];
      }
    }
  }

  lemma {:induction false} NothingIndexed()
    ensures Indexed([], map[])
  {
  }

  lemma {:induction false} EmptyContext(done: seq<Context>, before: seq<NodeId>, t: NodeId, u: NodeId, path: Path)
    requires InternedTests(done, before)
    ensures forall line :: Covers(done + [Context(t, [])], u, path, line) <==> Covers(done, u, path, line)
    ensures CoversFile(done + [Context(t, [])], u, path) <==> CoversFile(done, u, path)
    ensures u !in before ==> !CoversFile(done, u, path) && forall line :: !Covers(done, u, path, line)
  {
    var now := done + [Context(t, [])];
    forall line
      ensures Covers(now, u, path, line) <==> Covers(done, u, path, line)
      ensures u !in before ==> !Covers(done, u, path, line)
    {
      CoversLast(done, Context(t, []), u, path, line);
      if c :| c in done && c.nodeid == u && Entry(path, line) in c.entries {
        assert u in before;
      }
    }
    assert CoversFile(now, u, path) <==> CoversFile(done, u, path);
  }

  lemma {:induction false} NothingCovered()
    ensures InternedTests([], []) && FilesReflect([], [], map[]) && LinesReflect([], [], map[])
  {
    assert forall path, i: nat :: FileReflects([], [], map[], path, i);
    assert forall path, line, i: nat :: LineReflects([], [], map[], path, line, i);
  }

  // ----- scopes, before anything is pruned -----

  function NameAt(table: ByName, name: string): set<nat> {
    if name in table then table[name] else {}
  }

  /** Some of these lines is innermost in the scope and has the test. */
  ghost predicate InScope(lines: Lines, among: set<int>, scopes: S.Table, name: string, i: nat) {
    exists line :: line in among && line in lines && i in lines[line] && S.Innermost(scopes, line) == Some(name)
  }

  ghost predicate ScopeGathers(lines: Lines, among: set<int>, scopes: S.Table, perFile: ByName) {
    forall name, i: nat :: i in NameAt(perFile, name) <==> InScope(lines, among, scopes, name, i)
  }

  method AggregateFile(lines: Lines, scopes: S.Table) returns (perFile: ByName)
    ensures ScopeGathers(lines, lines.Keys, scopes, perFile)
  {
    perFile := map[];
    var left: set<int> := lines.Keys;
    while left != {}
      invariant left <= lines.Keys
      invariant ScopeGathers(lines, lines.Keys - left, scopes, perFile)
      decreases |left|
    {
      LineLeft(left);
      var line :| line in left;
      var name := S.FindInnermost(scopes, line);
      ghost var before := perFile;
      if name.Some? {
        perFile := perFile[name.value := NameAt(perFile, name.value) + lines[line]];
      }
      OneMoreLine(lines, lines.Keys - left, scopes, line, before, perFile);
      left := left - {line};
      assert lines.Keys - left == (lines.Keys - (left + {line})) + {line};
    }
    assert lines.Keys - {} == lines.Keys;
  }

  lemma {:induction false} OneMoreLine(
    lines: Lines, among: set<int>, scopes: S.Table, line: int, before: ByName, after: ByName)
    requires line in lines && ScopeGathers(lines, among, scopes, before)
    requires match S.Innermost(scopes, line)
      case None => after == before
      case Some(name) => after == before[name := NameAt(before, name) + lines[line]]
    ensures ScopeGathers(lines, among + {line}, scopes, after)
  {
    forall name, i: nat
      ensures i in NameAt(after, name) <==> InScope(lines, among + {line}, scopes, name, i)
    {
      assert i in NameAt(before, name) <==> InScope(lines, among, scopes, name, i);
      if i in lines[line] && S.Innermost(scopes, line) == Some(name) {
        assert InScope(lines, among + {line}, scopes, name, i);
      }
      if InScope(lines, among, scopes, name, i) {
        var l :| l in among && l in lines && i in lines[l] && S.Innermost(scopes, l) == Some(name);
        assert l in among + {line};
      }
    }
  }

  ghost predicate PathGathers(table: map<Path, Lines>, sources: Sources, scopeTests: map<Path, ByName>, path: Path) {
    ScopeGathers(LinesOf(table, path), LinesOf(table, path).Keys, ScopesFor(sources, path), ScopesAt(scopeTests, path))
  }

  method AggregateScopes(table: map<Path, Lines>, sources: Sources) returns (scopeTests: map<Path, ByName>)
    ensures forall path :: path in scopeTests ==> scopeTests[path] != map[]
    ensures forall path :: PathGathers(table, sources, scopeTests, path)
  {
    hide ScopeGathers, S.ScopesOf;
    scopeTests := map[];
    var left := table.Keys;
    while left != {}
      invariant left <= table.Keys && scopeTests.Keys <= table.Keys - left
      invariant forall path :: path in scopeTests ==> scopeTests[path] != map[]
      invariant forall path :: path in table.Keys - left ==> PathGathers(table, sources, scopeTests, path)
      decreases |left|
    {
      var path :| path in left;
      left := left - {path};
      var scopes := [];
      if path in sources {
        scopes := S.FileScopes(sources[path]);
      }
      assert scopes == ScopesFor(sources, path);
      if scopes == [] {
        NoScopes(LinesOf(table, path));
        assert PathGathers(table, sources, scopeTests, path);
        continue;
      }
      var perFile := AggregateFile(table[path], scopes);
      ghost var before := scopeTests;
      if perFile != map[] {
        scopeTests := scopeTests[path := perFile];
      }
      assert ScopesAt(scopeTests, path) == perFile;
      assert PathGathers(table, sources, scopeTests, path);
      assert forall q :: q != path ==> ScopesAt(scopeTests, q) == ScopesAt(before, q);
      assert forall q :: q != path && PathGathers(table, sources, before, q) ==>
        PathGathers(table, sources, scopeTests, q);
    }
    forall path | path !in table
      ensures PathGathers(table, sources, scopeTests, path)
    {
      NoLines(ScopesFor(sources, path));
      assert LinesOf(table, path).Keys == {};
    }
  }

  lemma {:induction false} NoScopes(lines: Lines)
    ensures ScopeGathers(lines, lines.Keys, [], map[])
  {
  }

  lemma {:induction false} NoLines(scopes: S.Table)
    ensures ScopeGathers(map[], {}, scopes, map[])
  {
  }

  lemma {:induction false} ScopesAreCoverage(
    contexts: seq<Context>, nodeids: seq<NodeId>, table: map<Path, Lines>, sources: Sources, scopeTests: map<Path,
    ByName>)
    requires LinesReflect(contexts, nodeids, table)
    requires forall path :: path in scopeTests ==> scopeTests[path] != map[]
    requires forall path :: PathGathers(table, sources, scopeTests, path)
    ensures ScopesReflect(contexts, nodeids, sources, scopeTests)
  {
    hide Covers, InSource, ScopesFor;
    forall path, name, i: nat
      ensures ScopeReflects(contexts, nodeids, ScopesFor(sources, path), scopeTests, path, name, i)
    {
      var scopes, lines := ScopesFor(sources, path), LinesOf(table, path);
      assert PathGathers(table, sources, scopeTests, path);
      assert ScopeAt(scopeTests, path, name) == NameAt(ScopesAt(scopeTests, path), name);
      assert i in NameAt(ScopesAt(scopeTests, path), name) <==> InScope(lines, lines.Keys, scopes, name, i);
      if InScope(lines, lines.Keys, scopes, name, i) {
        var line :| line in lines && i in lines[line] && S.Innermost(scopes, line) == Some(name);
        assert LineReflects(contexts, nodeids, table, path, line, i);
      }
      if InSource(path) && i < |nodeids| && CoversScope(contexts, nodeids[i], path, scopes, name) {
        var line :| S.Innermost(scopes, line) == Some(name) && Covers(contexts, nodeids[i], path, line);
        assert LineReflects(contexts, nodeids, table, path, line, i);
      }
    }
  }

  lemma {:induction false} LineLeft(lines: set<int>)
    requires lines != {}
    ensures exists line :: line in lines
  {
    assert lines == (set line | line in lines && line >= 0) + (set line | line in lines && line < 0);
  }

  // ----- pruning by fanout -----

  /** A line with that many tests is selective enough for the cap; a cap of zero or less keeps all. */
  predicate Keeps(cap: int, tests: set<nat>) {
    !(0 < cap < |tests|)
  }

  function CappedLines(lines: Lines, cap: int): Lines {
    map line | line in lines && Keeps(cap, lines[line]) :: lines[line]
  }

  function Capped(table: map<Path, Lines>, cap: int): map<Path, Lines> {
    map path | path in table && CappedLines(table[path], cap) != map[] :: CappedLines(table[path], cap)
  }

  method PruneLines(table: map<Path, Lines>, cap: int) returns (index: map<Path, Lines>)
    ensures index == Capped(table, cap)
  {
    index := map[];
    var left := table.Keys;
    while left != {}
      invariant left <= table.Keys
      invariant index == map path | path in table && path !in left && CappedLines(table[path], cap) != map[] ::
        CappedLines(table[path], cap)
      decreases |left|
    {
      var path :| path in left;
      left := left - {path};
      var kept := PruneFile(table[path], cap);
      if kept != map[] {
        index := index[path := kept];
      }
    }
  }

  method PruneFile(lines: Lines, cap: int) returns (kept: Lines)
    ensures kept == CappedLines(lines, cap)
  {
    kept := map[];
    var left: set<int> := lines.Keys;
    while left != {}
      invariant left <= lines.Keys
      invariant kept == map line | line in lines && line !in left && Keeps(cap, lines[line]) :: lines[line]
      decreases |left|
    {
      LineLeft(left);
      var line :| line in left;
      left := left - {line};
      if 0 < cap < |lines[line]| {
        continue;
      }
      kept := kept[line := lines[line]];
    }
  }

  // ----- the whole build -----

  /** What a build reads: the coverage contexts, tests that own arcs only, tests that ran,
      the sources and their digests, and the revision. */
  datatype Run = Run(
    contexts: seq<Context>, arcOwners: set<NodeId>, timings: set<NodeId>,
    sources: Sources, digests: map<Path, string>, head: string)

  function Attributed(run: Run): set<NodeId> {
    run.arcOwners + set c | c in run.contexts :: c.nodeid
  }

  /** The map a build makes, with the line index it had before the fanout cap. */
  ghost predicate Built(run: Run, cap: int, raw: map<Path, Lines>, m: ImpactMap) {
    && InternedTests(run.contexts, m.nodeids)
    && FilesReflect(run.contexts, m.nodeids, m.fileTests)
    && LinesReflect(run.contexts, m.nodeids, raw) && m.lineTests == Capped(raw, cap)
    && ScopesReflect(run.contexts, m.nodeids, run.sources, m.scopeTests)
    && m.fileHashes == (map path | path in m.fileTests && path in run.digests :: run.digests[path])
    && m.alwaysRun == (set t | t in run.timings - Attributed(run) :: FileOf(t))
    && m.baseSha == run.head
  }

  /** The map with the coverage relation in its tables, whatever the line index was before the cap. */
  method BuildMap(run: Run, cap: int) returns (m: ImpactMap)
    ensures exists raw :: Built(run, cap, raw, m)
  {
    hide FilesReflect, LinesReflect, ScopesReflect, InternedTests, FileOf, Capped;
    var nodeids, files, table := Aggregate(run.contexts);
    var scopes := AggregateScopes(table, run.sources);
    ScopesAreCoverage(run.contexts, nodeids, table, run.sources, scopes);
    var lines := PruneLines(table, cap);
    var attributed := run.arcOwners + set c | c in run.contexts :: c.nodeid;
    m := ImpactMap(run.head, nodeids, files, lines, scopes,
                   map path | path in files && path in run.digests :: run.digests[path],
                   set t | t in run.timings - attributed :: FileOf(t));
    assert Built(run, cap, table, m);
  }
}
