/** Choosing the tests a change has to run, from an impact map. */
module ImpactResolver {
  import opened Outcomes
  import opened ImpactMap
  import S = Scopes

  /** One revision of a file: its syntax tree (empty when it does not parse) and which
      lines are blank or comments. */
  datatype Revision = Revision(tree: seq<S.Node>, ignorable: seq<bool>)

  /** The file at the head, at the selection base and at the map's base, where it can be shown. */
  datatype Views = Views(current: Option<Revision>, base: Option<Revision>, mapped: Option<Revision>)

  datatype Policy = Policy(globalFull: set<Path>, alwaysRun: set<Path>)

  /** What the resolver looks up besides the change and the map. */
  datatype World = World(
    policy: Policy, contracts: map<Path, set<Path>>,
    isTest: Path -> bool, isSource: Path -> bool, isDocumentation: Path -> bool,
    existing: set<Path>, defined: set<NodeId>, views: map<Path, Views>)

  datatype Request = Request(
    changedFiles: seq<Path>, baseLines: map<Path, set<int>>, additions: map<Path, set<int>>, freshFiles: set<Path>)

  datatype Reason =
    | NoChangedFiles | GlobalInfrastructure | ContractTestMissing | UnmappableChange | UnresolvedSource | AllStale

  /** Everything, or some tests; the ones that can no longer be collected are set aside. */
  datatype Selection = Full(reason: Reason) | Focused(tests: set<string>, stale: set<string>)

  /** What a focused selection picked, before stale ids were set aside. */
  function Picked(s: Selection): set<string>
    requires s.Focused?
  {
    s.tests + s.stale
  }

  // ----- classifying the change -----

  function Changed(req: Request): set<Path> {
    set path | path in req.changedFiles && path != ""
  }

  function SourceChanges(w: World, req: Request): set<Path> {
    set path | path in Changed(req) && w.isSource(path)
  }

  function TestChanges(w: World, req: Request): set<Path> {
    set path | path in Changed(req) && w.isTest(path) && path in w.existing
  }

  function ContractTests(w: World, paths: set<Path>): set<Path> {
    set path, t | path in paths && path in w.contracts && t in w.contracts[path] && t in w.existing :: t
  }

  predicate ContractsHold(w: World, paths: set<Path>) {
    forall path :: path in paths ==> ContractHolds(w, path)
  }

  predicate ContractHolds(w: World, path: Path) {
    path in w.contracts ==> w.contracts[path] <= w.existing
  }

  predicate Opaque(w: World, path: Path) {
    path !in w.contracts && !w.isTest(path) && !w.isSource(path) && !w.isDocumentation(path)
  }

  function LinesAt(lines: map<Path, set<int>>, path: Path): set<int> {
    if path in lines then lines[path] else {}
  }

  // ----- the scopes a change touches -----

  predicate IsExecutable(rev: Revision, line: int) {
    !(1 <= line <= |rev.ignorable| && rev.ignorable[line - 1])
  }

  /** The innermost scopes around these lines; none at all when an executable
      one stands at module level. */
  function Touched(rev: Revision, lines: set<int>): Option<set<string>> {
    var scopes := S.ScopesOf(rev.tree);
    if exists line :: line in lines && IsExecutable(rev, line) && S.Innermost(scopes, line) == None then None
    else Some(NamesTouched(rev, scopes, lines))
  }

  function NamesTouched(rev: Revision, scopes: S.Table, lines: set<int>): set<string> {
    set line | line in lines && IsExecutable(rev, line) && S.Innermost(scopes, line).Some? ::
      S.Innermost(scopes, line).value
  }

  function TouchedNames(w: World, req: Request, m: ImpactMap, path: Path): Option<set<string>> {
    if path !in w.views then None
    else
      var v := w.views[path];
      if v.current == None || v.base == None || m.baseSha == "" || v.mapped == None then None
      else if S.ScopesOf(v.current.value.tree) == [] && S.ScopesOf(v.base.value.tree) == [] then None
      else
        var added := Touched(v.current.value, LinesAt(req.additions, path));
        var removed := Touched(v.base.value, LinesAt(req.baseLines, path));
        if added == None || removed == None then None else Some(added.value + removed.value)
  }

  // ----- charging a file -----

  function FileHits(m: ImpactMap, path: Path): set<NodeId> {
    Named(m.nodeids, FileAt(m.fileTests, path))
  }

  function LineHits(m: ImpactMap, path: Path, lines: set<int>): set<NodeId> {
    set line, t | line in lines && t in Named(m.nodeids, LineAt(m.lineTests, path, line)) :: t
  }

  predicate LinesKnown(m: ImpactMap, path: Path, lines: set<int>) {
    forall line :: line in lines ==> line in LinesOf(m.lineTests, path)
  }

  function ScopeHits(m: ImpactMap, path: Path, names: set<string>): set<NodeId> {
    set name, t | name in names && t in Named(m.nodeids, ScopeAt(m.scopeTests, path, name)) :: t
  }

  /** The tests a changed source file is charged with, if it can be answered for. */
  function Charge(w: World, req: Request, m: ImpactMap, path: Path): Option<set<NodeId>> {
    if path !in m.fileTests then
      if path in w.contracts then Some({}) else None
    else
      var names := TouchedNames(w, req, m, path);
      if names.Some? && ScopesAt(m.scopeTests, path) != map[] then Some(ScopeHits(m, path, names.value))
      else if path in req.freshFiles then
        var lines := LinesAt(req.baseLines, path);
        if lines != {} && LinesKnown(m, path, lines) then Some(LineHits(m, path, lines))
        else Some(LineHits(m, path, lines) + FileHits(m, path))
      else None
  }

  function Unresolved(w: World, req: Request, m: ImpactMap, paths: set<Path>): set<Path> {
    set path | path in paths && Charge(w, req, m, path) == None
  }

  function Charged(w: World, req: Request, m: ImpactMap, paths: set<Path>): set<NodeId> {
    set path, t | path in paths && Charge(w, req, m, path).Some? && t in Charge(w, req, m, path).value :: t
  }

  function AlwaysSelected(w: World, req: Request, m: ImpactMap): set<Path> {
    if SourceChanges(w, req) != {} || TestChanges(w, req) != {} || Changed(req) * w.contracts.Keys != {} then
      (w.policy.alwaysRun + m.alwaysRun) * w.existing
    else {}
  }

  function Selected(w: World, req: Request, m: ImpactMap): set<string> {
    TestChanges(w, req) + ContractTests(w, Changed(req)) + Charged(w, req, m, SourceChanges(w, req)) +
    AlwaysSelected(w, req, m)
  }

  /** A plain path can always be run; a node id needs its test to be defined still. */
  predicate Resolvable(w: World, t: string) {
    FileOf(t) == t || t in w.defined
  }

  function Finish(w: World, selected: set<string>): Selection {
    var tests := set t | t in selected && Resolvable(w, t);
    if selected != {} && tests == {} then Full(AllStale) else Focused(tests, selected - tests)
  }

  /** What forces a full run before the map is looked at. */
  function Forced(w: World, req: Request): Option<Reason> {
    if Changed(req) == {} then Some(NoChangedFiles)
    else if Changed(req) * w.policy.globalFull != {} then Some(GlobalInfrastructure)
    else if !ContractsHold(w, Changed(req)) then Some(ContractTestMissing)
    else if exists path :: path in Changed(req) && Opaque(w, path) then Some(UnmappableChange)
    else None
  }

  function Resolved(w: World, req: Request, m: ImpactMap): Selection {
    match Forced(w, req)
    case Some(reason) => Full(reason)
    case None =>
      if Unresolved(w, req, m, SourceChanges(w, req)) != {} then Full(UnresolvedSource)
      else Finish(w, Selected(w, req, m))
  }

  /** Every index of the map points into its table of node ids. */
  ghost predicate WellIndexed(m: ImpactMap) {
    && (forall path, i :: i in FileAt(m.fileTests, path) ==> i < |m.nodeids|)
    && (forall path, line, i :: i in LineAt(m.lineTests, path, line) ==> i < |m.nodeids|)
    && (forall path, name, i :: i in ScopeAt(m.scopeTests, path, name) ==> i < |m.nodeids|)
  }

  // ----- the resolver at work -----

  method TouchedScopes(rev: Revision, lines: set<int>) returns (names: Option<set<string>>)
    ensures names == Touched(rev, lines)
  {
    hide S.Innermost, S.ScopesOf, NamesTouched;
    assert NamesTouched(rev, S.ScopesOf(rev.tree), {}) == {} by { NoNames(rev, S.ScopesOf(rev.tree)); }
    var scopes := S.FileScopes(rev.tree);
    var found: set<string> := {};
    var left := lines;
    assert lines - left == {};
    while left != {}
      invariant left <= lines
      invariant forall line :: line in lines - left && IsExecutable(rev, line) ==> S.Innermost(scopes, line).Some?
      invariant found == NamesTouched(rev, scopes, lines - left)
      decreases |left|
    {
      LineLeft(left);
      var line :| line in left;
      ghost var done := lines - left;
      left := left - {line};
      assert lines - left == done + {line};
      OneMoreName(rev, scopes, done, line);
      if !IsExecutable(rev, line) {
        continue;
      }
      var name := S.FindInnermost(scopes, line);
      if name == None {
        return None;
      }
      found := found + {name.value};
    }
    assert lines - {} == lines;
    return Some(found);
  }

  lemma {:induction false} NoNames(rev: Revision, scopes: S.Table)
    ensures NamesTouched(rev, scopes, {}) == {}
  {
  }

  lemma {:induction false} OneMoreName(rev: Revision, scopes: S.Table, done: set<int>, line: int)
    ensures NamesTouched(rev, scopes, done + {line}) ==
      NamesTouched(rev, scopes, done) +
      (if IsExecutable(rev, line) && S.Innermost(scopes, line).Some? then {S.Innermost(scopes, line).value} else {})
  {
    hide S.Innermost;
  }

  method TouchedScopeNames(w: World, req: Request, m: ImpactMap, path: Path) returns (names: Option<set<string>>)
    ensures names == TouchedNames(w, req, m, path)
  {
    hide Touched, S.ScopesOf;
    if path !in w.views {
      return None;
    }
    var v := w.views[path];
    if v.current == None || v.base == None || m.baseSha == "" || v.mapped == None {
      return None;
    }
    var newScopes := S.FileScopes(v.current.value.tree);
    var oldScopes := S.FileScopes(v.base.value.tree);
    if newScopes == [] && oldScopes == [] {
      return None;
    }
    var added := TouchedScopes(v.current.value, LinesAt(req.additions, path));
    if added == None {
      return None;
    }
    var removed := TouchedScopes(v.base.value, LinesAt(req.baseLines, path));
    if removed == None {
      return None;
    }
    return Some(added.value + removed.value);
  }

  method AddTests(m: ImpactMap, indices: set<nat>, before: set<string>) returns (selected: set<string>)
    requires forall i :: i in indices ==> i < |m.nodeids|
    ensures selected == before + Named(m.nodeids, indices)
  {
    selected := before;
    var left := indices;
    while left != {}
      invariant left <= indices && selected == before + Named(m.nodeids, indices - left)
      decreases |left|
    {
      var i :| i in left;
      left := left - {i};
      selected := selected + {m.nodeids[i]};
    }
    assert indices - {} == indices;
  }

  /** Charge by line, telling whether every line was known. */
  method ChargeLines(
    m: ImpactMap, lines: set<int>, path: Path, before: set<string>) returns (selected: set<string>, complete: bool)
    requires WellIndexed(m)
    ensures selected == before + LineHits(m, path, lines) && complete == LinesKnown(m, path, lines)
  {
    hide Named, LineHits, LinesKnown, LinesOf;
    selected, complete := before, true;
    var left := lines;
    assert lines - left == {};
    NoHits(m, path);
    while left != {}
      invariant left <= lines && selected == before + LineHits(m, path, lines - left)
      invariant complete <==> LinesKnown(m, path, lines - left)
      decreases |left|
    {
      LineLeft(left);
      var line :| line in left;
      ghost var done := lines - left;
      left := left - {line};
      assert lines - left == done + {line};
      OneMoreHit(m, path, done, line);
      if line !in LinesOf(m.lineTests, path) {
        complete := false;
        continue;
      }
      selected := AddTests(m, LineAt(m.lineTests, path, line), selected);
    }
    assert lines - {} == lines;
  }

  lemma {:induction false} NoHits(m: ImpactMap, path: Path)
    ensures LineHits(m, path, {}) == {} && LinesKnown(m, path, {})
  {
  }

  lemma {:induction false} OneMoreHit(m: ImpactMap, path: Path, done: set<int>, line: int)
    ensures LineHits(m, path, done + {line}) ==
      LineHits(m, path, done) + Named(m.nodeids, LineAt(m.lineTests, path, line))
    ensures LinesKnown(m, path, done + {line}) <==> LinesKnown(m, path, done) && line in LinesOf(m.lineTests, path)
    ensures line !in LinesOf(m.lineTests, path) ==> Named(m.nodeids, LineAt(m.lineTests, path, line)) == {}
  {
  }

  method ChargeScopes(m: ImpactMap, names: set<string>, path: Path, before: set<string>) returns (selected: set<string>)
    requires WellIndexed(m)
    ensures selected == before + ScopeHits(m, path, names)
  {
    hide Named;
    selected := before;
    var left := names;
    while left != {}
      invariant left <= names && selected == before + ScopeHits(m, path, names - left)
      decreases |left|
    {
      var name :| name in left;
      ghost var done := names - left;
      left := left - {name};
      assert names - left == done + {name};
      OneMoreScope(m, path, done, name);
      selected := AddTests(m, ScopeAt(m.scopeTests, path, name), selected);
    }
    assert names - {} == names;
  }

  lemma {:induction false} OneMoreScope(m: ImpactMap, path: Path, done: set<string>, name: string)
    ensures ScopeHits(m, path, done + {name}) ==
      ScopeHits(m, path, done) + Named(m.nodeids, ScopeAt(m.scopeTests, path, name))
  {
  }

  /** One changed source file: scopes if they answer, else lines, else the file. */
  method ChargeSource(w: World, req: Request, m: ImpactMap, path: Path, before: set<string>)
    returns (selected: set<string>, resolved: bool)
    requires WellIndexed(m)
    ensures resolved <==> Charge(w, req, m, path).Some?
    ensures selected == before + (if resolved then Charge(w, req, m, path).value else {})
  {
    hide TouchedNames, WellIndexed;
    if path !in m.fileTests {
      return before, path in w.contracts;
    }
    var names := TouchedScopeNames(w, req, m, path);
    if names.Some? && ScopesAt(m.scopeTests, path) != map[] {
      selected := ChargeScopes(m, names.value, path, before);
      return selected, true;
    }
    if path in req.freshFiles {
      var complete: bool;
      var lines := LinesAt(req.baseLines, path);
      selected := before;
      if lines != {} {
        selected, complete := ChargeLines(m, lines, path, selected);
        if complete {
          return selected, true;
        }
      }
      selected := ChargeFile(m, path, selected);
      return selected, true;
    }
    return before, false;
  }

  method ChargeFile(m: ImpactMap, path: Path, before: set<string>) returns (selected: set<string>)
    requires WellIndexed(m)
    ensures selected == before + FileHits(m, path)
  {
    selected := AddTests(m, FileAt(m.fileTests, path), before);
  }

  method ChargeSources(w: World, req: Request, m: ImpactMap, paths: set<Path>, before: set<string>)
    returns (selected: set<string>, unresolved: set<Path>)
    requires WellIndexed(m)
    ensures selected == before + Charged(w, req, m, paths) && unresolved == Unresolved(w, req, m, paths)
  {
    hide Charge, WellIndexed, Charged, Unresolved;
    selected, unresolved := before, {};
    NoSources(w, req, m);
    var left := paths;
    ghost var done: set<Path> := {};
    while left != {}
      invariant done + left == paths
      invariant selected == before + Charged(w, req, m, done)
      invariant unresolved == Unresolved(w, req, m, done)
      decreases |left|
    {
      var path :| path in left;
      left := left - {path};
      selected, unresolved := ChargeNext(w, req, m, path, done, before, selected, unresolved);
      done := done + {path};
    }
  }

  method ChargeNext(w: World, req: Request, m: ImpactMap, path: Path, ghost done: set<Path>, ghost before: set<string>,
      charged: set<string>, unanswered: set<Path>)
    returns (selected: set<string>, unresolved: set<Path>)
    requires WellIndexed(m)
    requires charged == before + Charged(w, req, m, done) && unanswered == Unresolved(w, req, m, done)
    ensures selected == before + Charged(w, req, m, done + {path})
    ensures unresolved == Unresolved(w, req, m, done + {path})
  {
    hide Charge, WellIndexed, Charged, Unresolved;
    OneMoreSource(w, req, m, done, path);
    var resolved: bool;
    selected, resolved := ChargeSource(w, req, m, path, charged);
    unresolved := if resolved then unanswered else unanswered + {path};
  }

  lemma {:induction false} NoSources(w: World, req: Request, m: ImpactMap)
    ensures Charged(w, req, m, {}) == {} && Unresolved(w, req, m, {}) == {}
  {
  }

  lemma {:induction false} OneMoreSource(w: World, req: Request, m: ImpactMap, done: set<Path>, path: Path)
    ensures Charged(w, req, m, done + {path}) ==
      Charged(w, req, m, done) + (if Charge(w, req, m, path).Some? then Charge(w, req, m, path).value else {})
    ensures Unresolved(w, req, m, done + {path}) ==
      Unresolved(w, req, m, done) + (if Charge(w, req, m, path).Some? then {} else {path})
  {
    hide Charge;
  }

  /** The tests the changed paths' contracts name, or word that one is missing. */
  method ChargeContracts(w: World, changed: set<Path>) returns (tests: set<Path>, missing: bool)
    ensures missing <==> !ContractsHold(w, changed)
    ensures tests == ContractTests(w, changed)
  {
    hide ContractHolds, ContractsHold, ContractTests;
    tests, missing := {}, false;
    var left := changed;
    assert changed - left == {};
    NoContracts(w);
    while left != {}
      invariant left <= changed
      invariant missing <==> !ContractsHold(w, changed - left)
      invariant tests == ContractTests(w, changed - left)
      decreases |left|
    {
      var path :| path in left;
      ghost var done := changed - left;
      left := left - {path};
      assert changed - left == done + {path};
      OneMoreContract(w, done, path);
      if path !in w.contracts {
        continue;
      }
      var expected := w.contracts[path];
      tests := tests + expected * w.existing;
      if !(expected <= w.existing) {
        missing := true;
      }
    }
    assert changed - {} == changed;
  }

  lemma {:induction false} NoContracts(w: World)
    ensures ContractTests(w, {}) == {} && ContractsHold(w, {})
  {
  }

  lemma {:induction false} OneMoreContract(w: World, done: set<Path>, path: Path)
    ensures ContractTests(w, done + {path}) ==
      ContractTests(w, done) + (if path in w.contracts then w.contracts[path] * w.existing else {})
    ensures ContractsHold(w, done + {path}) <==>
      ContractsHold(w, done) && (path in w.contracts ==> w.contracts[path] <= w.existing)
  {
    assert ContractsHold(w, done + {path}) <==> ContractsHold(w, done) && ContractHolds(w, path);
  }

  method Resolve(w: World, req: Request, m: ImpactMap) returns (r: Selection)
    requires WellIndexed(m)
    ensures r == Resolved(w, req, m)
  {
    hide Charge, WellIndexed, Charged, ContractsHold, ContractTests, Opaque, FileOf, Unresolved;
    var changed := Changed(req);
    if changed == {} {
      return Full(NoChangedFiles);
    }
    if changed * w.policy.globalFull != {} {
      return Full(GlobalInfrastructure);
    }
    var contracted, missing := ChargeContracts(w, changed);
    if missing {
      return Full(ContractTestMissing);
    }
    if exists path :: path in changed && Opaque(w, path) {
      return Full(UnmappableChange);
    }
    var selected, unresolved := ChargeSources(w, req, m, SourceChanges(w, req), TestChanges(w, req) + contracted);
    if unresolved != {} {
      return Full(UnresolvedSource);
    }
    selected := selected + AlwaysSelected(w, req, m);
    assert selected == Selected(w, req, m);
    assert Forced(w, req) == None;
    assert Resolved(w, req, m) == Finish(w, selected);
    var resolvable := set t | t in selected && Resolvable(w, t);
    if selected == {} {
      assert resolvable == {};
      return Focused({}, {});
    }
    if resolvable == {} {
      return Full(AllStale);
    }
    return Focused(resolvable, selected - resolvable);
  }
}
