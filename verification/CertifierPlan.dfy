/** The certifier's plan: which frozen tests, or which whole suite, certify a candidate. */
module CertifierPlan {
  import opened Outcomes
  import opened ImpactMap
  import opened ImpactPrune

  const MAX_CHANGED_FILES: nat := 4096

  const FULL_TARGETS: set<Path> := {"tests", "plugin/test_tools.py"}

  const INVARIANT_TESTS: set<Path> :=
    {"tests/test_publication_lane.py", "tests/test_repository_contract_certification.py",
     "tests/test_openshell_certifier.py"}

  datatype SelectionError =
    | BadBase | BadCandidate | BadRevision | UnsafePath | NoChanges | TooManyChanges | InvariantsMissing

  datatype Mode = Full | Focused | Skipped | Rejected

  datatype Phase = Phase(mode: Mode, tests: set<Path>)

  datatype SelectionMode =
    | MixedUnmappedRejected | AuthoritativeFull | SupplementalFull
    | SourceFocused | CandidateTestFocused | DocumentationFastLane

  datatype Plan = Plan(authoritative: Phase, supplemental: Phase, selection: SelectionMode)

  /** The trusted image: its regular files, their digests, the frozen tests whose
      name matches a module, and which paths are safe or documentation. */
  datatype Image = Image(
    regular: set<Path>, digests: map<Path, string>, nameMatches: map<Path, set<Path>>,
    safe: Path -> bool, isDocumentation: Path -> bool)

  datatype Request = Request(changedFiles: seq<Path>, base: string, candidate: string, revision: string)

  // ----- classifying paths -----

  predicate IsSha(s: string) {
    |s| == 40 && forall c :: c in s ==> '0' <= c <= '9' || 'a' <= c <= 'f'
  }

  /** The last component of a path. */
  function NameOf(path: Path): string {
    if '/' in path then NameOf(path[1..]) else path
  }

  predicate EndsWith(s: string, end: string) {
    |end| <= |s| && s[|s| - |end|..] == end
  }

  predicate IsSource(path: Path) {
    "src/" <= path
  }

  predicate IsCandidateTest(path: Path) {
    || "tests/" <= path
    || ("plugin/" <= path && ("test_" <= NameOf(path) || "conftest" <= NameOf(path)))
  }

  predicate IsFrozenTest(img: Image, path: Path) {
    && ("tests/" <= path || "plugin/" <= path)
    && "test_" <= NameOf(path) && EndsWith(NameOf(path), ".py")
    && path in img.regular
  }

  /** Neither source, nor a test, nor documentation. */
  predicate RootVisible(img: Image, path: Path) {
    !IsSource(path) && !IsCandidateTest(path) && !img.isDocumentation(path)
  }

  function Changed(req: Request): set<Path> {
    set path | path in req.changedFiles
  }

  function SourceChanges(req: Request): set<Path> {
    set path | path in Changed(req) && IsSource(path)
  }

  function FrozenChanges(img: Image, req: Request): set<Path> {
    set path | path in Changed(req) && IsFrozenTest(img, path)
  }

  /** Frozen tests whose name says they test the module. */
  function ModuleTests(img: Image, path: Path): set<Path> {
    if path in img.nameMatches then img.nameMatches[path] * img.regular else {}
  }

  // ----- what the map adds -----

  predicate IsFresh(m: Option<ImpactMap>, base: string) {
    m.Some? && m.value.baseSha == base
  }

  /** The image's own copy of the file is the one the map was built from. */
  predicate Trusted(img: Image, m: ImpactMap, path: Path) {
    && path in m.fileHashes && m.fileHashes[path] != ""
    && path in img.digests && img.digests[path] == m.fileHashes[path]
  }

  predicate InRange(m: ImpactMap, path: Path) {
    forall i :: i in FileAt(m.fileTests, path) ==> i < |m.nodeids|
  }

  function FilesOf(img: Image, m: ImpactMap, indices: set<nat>): set<Path> {
    set i | i in indices && i < |m.nodeids| && FileOf(m.nodeids[i]) in img.regular :: FileOf(m.nodeids[i])
  }

  /** The frozen test files the map attributes to a source file; none in any doubt. */
  function MapTests(img: Image, m: Option<ImpactMap>, base: string, path: Path): set<Path> {
    if IsFresh(m, base) && Trusted(img, m.value, path) && InRange(m.value, path)
    then FilesOf(img, m.value, FileAt(m.value.fileTests, path))
    else {}
  }

  /** The tests that answer for one changed source file, a name match first. */
  function TestsFor(img: Image, m: Option<ImpactMap>, base: string, path: Path): set<Path> {
    if ModuleTests(img, path) != {} then ModuleTests(img, path) else MapTests(img, m, base, path)
  }

  function Mapped(img: Image, m: Option<ImpactMap>, base: string, paths: set<Path>): set<Path> {
    set path, t | path in paths && t in TestsFor(img, m, base, path) :: t
  }

  function Unmapped(img: Image, m: Option<ImpactMap>, base: string, paths: set<Path>): set<Path> {
    set path | path in paths && TestsFor(img, m, base, path) == {}
  }

  function AlwaysTests(img: Image, req: Request, m: Option<ImpactMap>): set<Path> {
    if SourceChanges(req) != {} && IsFresh(m, req.base) then m.value.alwaysRun * img.regular else {}
  }

  function FocusedTests(img: Image, req: Request, m: Option<ImpactMap>): set<Path> {
    INVARIANT_TESTS + FrozenChanges(img, req) + Mapped(img, m, req.base, SourceChanges(req)) + AlwaysTests(img, req, m)
  }

  function Refused(img: Image, req: Request): Option<SelectionError> {
    if !IsSha(req.base) then Some(BadBase)
    else if !IsSha(req.candidate) then Some(BadCandidate)
    else if !IsSha(req.revision) then Some(BadRevision)
    else if exists path :: path in Changed(req) && !img.safe(path) then Some(UnsafePath)
    else if Changed(req) == {} then Some(NoChanges)
    else if |Changed(req)| > MAX_CHANGED_FILES then Some(TooManyChanges)
    else if !(INVARIANT_TESTS <= img.regular) then Some(InvariantsMissing)
    else None
  }

  /** The plan, given whether some source is unmapped and what a focused phase would run. */
  function Decided(img: Image, req: Request, unmapped: bool, focused: set<Path>): Plan {
    var rootVisible := exists path :: path in Changed(req) && RootVisible(img, path);
    if unmapped && rootVisible then Plan(Phase(Rejected, {}), Phase(Skipped, {}), MixedUnmappedRejected)
    else if unmapped then Plan(Phase(Full, FULL_TARGETS), Phase(Skipped, {}), AuthoritativeFull)
    else if rootVisible then Plan(Phase(Focused, focused), Phase(Full, FULL_TARGETS), SupplementalFull)
    else
      Plan(Phase(Focused, focused), Phase(Skipped, {}),
           if SourceChanges(req) != {} then SourceFocused
           else if exists path :: path in Changed(req) && IsCandidateTest(path) then CandidateTestFocused
           else DocumentationFastLane)
  }

  function Planned(img: Image, req: Request, m: Option<ImpactMap>): Result<Plan, SelectionError> {
    match Refused(img, req)
    case Some(error) => Err(error)
    case None =>
      Ok(Decided(img, req, Unmapped(img, m, req.base, SourceChanges(req)) != {}, FocusedTests(img, req, m)))
  }

  // ----- planning -----

  method ImpactMapTests(img: Image, m: Option<ImpactMap>, base: string, path: Path) returns (tests: set<Path>)
    ensures tests == MapTests(img, m, base, path)
  {
    hide FileOf;
    tests := {};
    if !IsFresh(m, base) || path !in m.value.fileTests || !Trusted(img, m.value, path) {
      return;
    }
    var indices := m.value.fileTests[path];
    var left := indices;
    while left != {}
      invariant left <= indices
      invariant forall i :: i in indices - left ==> i < |m.value.nodeids|
      invariant tests == FilesOf(img, m.value, indices - left)
      decreases |left|
    {
      var i :| i in left;
      ghost var done := indices - left;
      left := left - {i};
      assert indices - left == done + {i};
      if i >= |m.value.nodeids| {
        return {};
      }
      var file := FileOf(m.value.nodeids[i]);
      if file in img.regular {
        tests := tests + {file};
      }
    }
    assert indices - {} == indices;
  }

  method MapSources(img: Image, m: Option<ImpactMap>, base: string, sources: set<Path>)
    returns (mapped: set<Path>, unmapped: set<Path>)
    ensures mapped == Mapped(img, m, base, sources) && unmapped == Unmapped(img, m, base, sources)
  {
    hide TestsFor, Mapped, Unmapped;
    mapped, unmapped := {}, {};
    NoSources(img, m, base);
    var left := sources;
    ghost var done: set<Path> := {};
    while left != {}
      invariant done + left == sources
      invariant mapped == Mapped(img, m, base, done) && unmapped == Unmapped(img, m, base, done)
      decreases |left|
    {
      var path :| path in left;
      left := left - {path};
      OneMoreSource(img, m, base, done, path);
      done := done + {path};
      var tests := AnswerFor(img, m, base, path);
      if tests != {} {
        mapped := mapped + tests;
      } else {
        unmapped := unmapped + {path};
      }
    }
  }

  method AnswerFor(img: Image, m: Option<ImpactMap>, base: string, path: Path) returns (tests: set<Path>)
    ensures tests == TestsFor(img, m, base, path)
  {
    tests := ModuleTests(img, path);
    if tests == {} {
      tests := ImpactMapTests(img, m, base, path);
    }
  }

  lemma {:induction false} NoSources(img: Image, m: Option<ImpactMap>, base: string)
    ensures Mapped(img, m, base, {}) == {} && Unmapped(img, m, base, {}) == {}
  {
  }

  lemma {:induction false} OneMoreSource(img: Image, m: Option<ImpactMap>, base: string, done: set<Path>, path: Path)
    ensures Mapped(img, m, base, done + {path}) == Mapped(img, m, base, done) + TestsFor(img, m, base, path)
    ensures Unmapped(img, m, base, done + {path}) ==
      Unmapped(img, m, base, done) + (if TestsFor(img, m, base, path) == {} then {path} else {})
  {
    hide TestsFor;
  }

  method PlanSelection(img: Image, req: Request, m: Option<ImpactMap>) returns (r: Result<Plan, SelectionError>)
    ensures r == Planned(img, req, m)
  {
    hide Mapped, Unmapped, FrozenChanges, RootVisible, IsCandidateTest, IsSha, INVARIANT_TESTS;
    if !IsSha(req.base) { return Err(BadBase); }
    if !IsSha(req.candidate) { return Err(BadCandidate); }
    if !IsSha(req.revision) { return Err(BadRevision); }
    var changed := Changed(req);
    if exists path :: path in changed && !img.safe(path) { return Err(UnsafePath); }
    if changed == {} { return Err(NoChanges); }
    if |changed| > MAX_CHANGED_FILES { return Err(TooManyChanges); }
    if !(INVARIANT_TESTS <= img.regular) { return Err(InvariantsMissing); }

    var sources := SourceChanges(req);
    var mapped, unmapped := MapSources(img, m, req.base, sources);
    var focused := INVARIANT_TESTS + FrozenChanges(img, req) + mapped;
    if sources != {} && IsFresh(m, req.base) {
      focused := focused + m.value.alwaysRun * img.regular;
    }
    assert focused == FocusedTests(img, req, m);
    return Ok(Decided(img, req, unmapped != {}, focused));
  }

  // ----- what a plan guarantees -----

  /** At most one phase is ever the full suite, and what is rejected runs nothing. */
  lemma {:induction false} AtMostOneFull(img: Image, req: Request, m: Option<ImpactMap>)
    ensures Planned(img, req, m).Ok? ==>
      var p := Planned(img, req, m).value;
      && !(p.authoritative.mode == Full && p.supplemental.mode == Full)
      && (p.authoritative.mode == Rejected ==> p.supplemental.mode == Skipped && p.authoritative.tests == {})
      && (p.authoritative.mode == Focused ==> INVARIANT_TESTS + FrozenChanges(img, req) <= p.authoritative.tests)
  {
    hide Refused, Unmapped, Mapped, FrozenChanges, RootVisible, IsCandidateTest;
  }

  predicate Answered(img: Image, req: Request, m: Option<ImpactMap>) {
    forall path :: path in SourceChanges(req) ==> TestsFor(img, m, req.base, path) != {}
  }

  predicate NothingRootVisible(img: Image, req: Request) {
    forall path :: path in Changed(req) ==> !RootVisible(img, path)
  }

  /** A full suite runs exactly when one, but not both, of two things holds: a
      changed source without tests, and a change visible to the whole tree. With
      both the plan is rejected, and with neither it is focused. */
  lemma {:induction false} FullExactlyWhen(img: Image, req: Request, m: Option<ImpactMap>)
    ensures Planned(img, req, m).Ok? ==>
      var p := Planned(img, req, m).value;
      && (p.authoritative.mode == Full || p.supplemental.mode == Full <==>
          Answered(img, req, m) != NothingRootVisible(img, req))
      && (p.authoritative.mode == Rejected <==> !Answered(img, req, m) && !NothingRootVisible(img, req))
      && (p.authoritative.mode == Focused <==> Answered(img, req, m))
  {
    hide Refused, Mapped, FrozenChanges, RootVisible, IsCandidateTest, TestsFor, SourceChanges, INVARIANT_TESTS,
      FULL_TARGETS;
    var unmapped := Unmapped(img, m, req.base, SourceChanges(req));
    if path :| path in SourceChanges(req) && TestsFor(img, m, req.base, path) == {} {
      assert path in unmapped;
    }
  }

  /** Fail closed: a changed source file without a name match makes the plan full
      or rejected, or has every frozen test file that covered it run.  The map
      the image carries is as built, or pruned to tests of which this is one. */
  lemma {:induction false} CoveringFileIsPlanned(
    run: Run, cap: int, raw: map<Path, Lines>, m: ImpactMap, collectable: set<NodeId>, present: Option<set<Path>>,
    carried: ImpactMap, img: Image, req: Request, path: Path, line: int, t: NodeId)
    requires Built(run, cap, raw, m)
    requires carried == m || (carried == Pruned(m, collectable, present) && t in collectable)
    requires path in SourceChanges(req) && ModuleTests(img, path) == {}
    requires Covers(run.contexts, t, path, line) && FileOf(t) in img.regular
    ensures Planned(img, req, Some(carried)).Ok? ==>
      var authoritative := Planned(img, req, Some(carried)).value.authoritative;
      authoritative.mode == Full || authoritative.mode == Rejected || FileOf(t) in authoritative.tests
  {
    hide Built, Covers, Planned, FileOf, FileAt, Named, Pruned, ModuleTests, SourceChanges;
    assert IsSource(path) by {
      SourceIsInTree(req, path);
    }
    CoveringTestIsNamed(run, cap, raw, m, path, line, t);
    if carried != m {
      if Present(present, path) {
        PruneMeaning(m, collectable, present, path);
      } else {
        AbsentFilesGo(m, collectable, present, path);
        NoFileNoTests(img, carried, req.base, path);
      }
    }
    NamedFileIsPlanned(img, req, carried, path, t);
  }

  lemma {:induction false} SourceIsInTree(req: Request, path: Path)
    requires path in SourceChanges(req)
    ensures IsSource(path)
  {
  }

  lemma {:induction false} NoFileNoTests(img: Image, m: ImpactMap, base: string, path: Path)
    requires path !in m.fileTests
    ensures MapTests(img, Some(m), base, path) == {}
  {
    hide FileOf;
  }

  /** What the map names for the file is in the plan, unless the whole suite is. */
  lemma {:induction false} NamedFileIsPlanned(img: Image, req: Request, m: ImpactMap, path: Path, t: NodeId)
    requires path in SourceChanges(req) && ModuleTests(img, path) == {} && FileOf(t) in img.regular
    requires MapTests(img, Some(m), req.base, path) == {} || t in Named(m.nodeids, FileAt(m.fileTests, path))
    ensures Planned(img, req, Some(m)).Ok? ==>
      var authoritative := Planned(img, req, Some(m)).value.authoritative;
      authoritative.mode == Full || authoritative.mode == Rejected || FileOf(t) in authoritative.tests
  {
    hide Refused, RootVisible, IsCandidateTest, FrozenChanges, ModuleTests, MapTests, FileOf, SourceChanges, Named;
    var sources := SourceChanges(req);
    if Unmapped(img, Some(m), req.base, sources) == {} {
      assert path !in Unmapped(img, Some(m), req.base, sources);
      assert TestsFor(img, Some(m), req.base, path) == MapTests(img, Some(m), req.base, path) != {};
      NamedFileIsMapped(img, m, req.base, path, t);
      assert FileOf(t) in Mapped(img, Some(m), req.base, sources);
    }
  }

  lemma {:induction false} NamedFileIsMapped(img: Image, m: ImpactMap, base: string, path: Path, t: NodeId)
    requires FileOf(t) in img.regular && MapTests(img, Some(m), base, path) != {}
    requires t in Named(m.nodeids, FileAt(m.fileTests, path))
    ensures FileOf(t) in MapTests(img, Some(m), base, path)
  {
    hide FileOf, Trusted, InRange;
  }

  lemma {:induction false} CoveringTestIsNamed(
    run: Run, cap: int, raw: map<Path, Lines>, m: ImpactMap, path: Path, line: int, t: NodeId)
    requires Built(run, cap, raw, m) && IsSource(path) && Covers(run.contexts, t, path, line)
    ensures t in Named(m.nodeids, FileAt(m.fileTests, path))
  {
    hide FileOf, LinesReflect, ScopesReflect, Capped, Covers;
    assert t in m.nodeids by {
      Interned(run.contexts, m.nodeids, path, line, t);
    }
    var i :| 0 <= i < |m.nodeids| && m.nodeids[i] == t;
    assert FileReflects(run.contexts, m.nodeids, m.fileTests, path, i);
    assert CoversFile(run.contexts, t, path);
  }

  lemma {:induction false} Interned(contexts: seq<Context>, nodeids: seq<NodeId>, path: Path, line: int, t: NodeId)
    requires InternedTests(contexts, nodeids) && Covers(contexts, t, path, line)
    ensures t in nodeids
  {
  }

  /** Supplying a map to a plan that was already focused changes nothing but to
      add tests; otherwise it can only turn a full or rejected plan into a focused one. */
  lemma {:induction false} MapOnlyAdds(img: Image, req: Request, m: ImpactMap)
    ensures Planned(img, req, None).Ok? == Planned(img, req, Some(m)).Ok?
    ensures Planned(img, req, None).Ok? ==>
      var without, supplied := Planned(img, req, None).value, Planned(img, req, Some(m)).value;
      && (without.authoritative.mode == Focused ==>
          && supplied.authoritative.mode == Focused && without.authoritative.tests <= supplied.authoritative.tests
          && supplied.supplemental == without.supplemental && supplied.selection == without.selection)
      && (supplied.authoritative.mode != Focused ==> supplied == without)
  {
    hide Refused, RootVisible, IsCandidateTest, FrozenChanges, ModuleTests;
    var sources := SourceChanges(req);
    assert forall path :: TestsFor(img, None, req.base, path) <= TestsFor(img, Some(m), req.base, path);
    assert forall path :: path in Unmapped(img, Some(m), req.base, sources) ==>
      path in Unmapped(img, None, req.base, sources);
    assert Mapped(img, None, req.base, sources) <= Mapped(img, Some(m), req.base, sources);
  }

  /** A stale map, or one for a change without source files, is no map at all. */
  lemma {:induction false} StaleMapIsNoMap(img: Image, req: Request, m: ImpactMap)
    requires m.baseSha != req.base || SourceChanges(req) == {}
    ensures Planned(img, req, Some(m)) == Planned(img, req, None)
  {
    hide Refused, RootVisible, IsCandidateTest, FrozenChanges, ModuleTests, Decided;
    var sources := SourceChanges(req);
    assert forall path :: path in sources ==>
      TestsFor(img, None, req.base, path) == TestsFor(img, Some(m), req.base, path);
    assert Unmapped(img, Some(m), req.base, sources) == Unmapped(img, None, req.base, sources);
    assert Mapped(img, Some(m), req.base, sources) == Mapped(img, None, req.base, sources);
  }
}
