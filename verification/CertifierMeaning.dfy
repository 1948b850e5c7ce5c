/** What the certifier's plan holds, told from the request, the image and the map. */
module CertifierMeaning {
  import opened Outcomes
  import opened ImpactMap
  import opened CertifierPlan

  // ----- names of paths -----

  /** What follows the last slash of the path, or all of it. */
  lemma {:induction false} NameIsLast(path: Path)
    ensures '/' !in NameOf(path) && |NameOf(path)| <= |path|
    ensures path[|path| - |NameOf(path)|..] == NameOf(path)
    ensures NameOf(path) == path || path[|path| - |NameOf(path)| - 1] == '/'
  {
    if '/' in path {
      NameIsLast(path[1..]);
      var n := |NameOf(path)|;
      assert path[|path| - n..] == path[1..][|path| - 1 - n..];
      if NameOf(path[1..]) == path[1..] {
        assert path == [path[0]] + path[1..];
      }
    }
  }

  /** The path's last part is `name`. */
  ghost predicate IsNamed(path: Path, name: string) {
    '/' !in name && exists n :: 0 <= n <= |path| && path[n..] == name && (n == 0 || path[n - 1] == '/')
  }

  lemma {:induction false} NoSlashInside(path: Path, n: int, name: string, k: int)
    requires 0 <= n < k <= |path| && path[n..] == name && '/' !in name
    ensures path[k - 1] != '/'
  {
    assert path[n..][k - 1 - n] == path[k - 1];
  }

  lemma {:induction false} NamedExactly(path: Path, name: string)
    ensures IsNamed(path, name) <==> NameOf(path) == name
  {
    hide NameOf;
    NameIsLast(path);
    var own := NameOf(path);
    var k := |path| - |own|;
    assert own == path ==> k == 0;
    if IsNamed(path, name) {
      var n :| 0 <= n <= |path| && path[n..] == name && (n == 0 || path[n - 1] == '/');
      if n < k {
        NoSlashInside(path, n, name, k);
      } else if k < n {
        NoSlashInside(path, k, own, n);
      }
    }
  }

  ghost predicate BeginsWith(s: string, start: string) {
    |start| <= |s| && s[..|start|] == start
  }

  /** A test module: under tests or plugin, and with a name like `test_*.py`. */
  ghost predicate IsTestModule(path: Path) {
    && (BeginsWith(path, "tests/") || BeginsWith(path, "plugin/"))
    && exists name :: IsNamed(path, name) && BeginsWith(name, "test_") && name[|name| - 3..] == ".py"
  }

  /** A test the candidate brings along. */
  ghost predicate IsBrought(path: Path) {
    || BeginsWith(path, "tests/")
    || (BeginsWith(path, "plugin/") &&
        exists name :: IsNamed(path, name) && (BeginsWith(name, "test_") || BeginsWith(name, "conftest")))
  }

  lemma {:induction false} Begins(s: string, start: string)
    ensures BeginsWith(s, start) <==> start <= s
  {
  }

  lemma {:induction false} FrozenExactly(img: Image, path: Path)
    ensures IsFrozenTest(img, path) <==> IsTestModule(path) && path in img.regular
  {
    hide NameOf, IsNamed, BeginsWith;
    var name := NameOf(path);
    NamedExactly(path, name);
    Begins(path, "tests/");
    Begins(path, "plugin/");
    Begins(name, "test_");
    forall other | IsNamed(path, other)
      ensures other == name
    {
      NamedExactly(path, other);
    }
  }

  lemma {:induction false} BroughtExactly(path: Path)
    ensures IsCandidateTest(path) <==> IsBrought(path)
  {
    hide NameOf, IsNamed, BeginsWith;
    var name := NameOf(path);
    NamedExactly(path, name);
    Begins(path, "tests/");
    Begins(path, "plugin/");
    Begins(name, "test_");
    Begins(name, "conftest");
    forall other | IsNamed(path, other)
      ensures other == name
    {
      NamedExactly(path, other);
    }
  }

  // ----- requests -----

  ghost predicate IsGitSha(s: string) {
    |s| == 40 && forall i :: 0 <= i < |s| ==> s[i] in "0123456789abcdef"
  }

  lemma {:induction false} ShaExactly(s: string)
    ensures IsSha(s) <==> IsGitSha(s)
  {
    var hex := "0123456789abcdef";
    forall c: char
      ensures c in hex <==> ('0' <= c <= '9' || 'a' <= c <= 'f')
    {
      assert '0' <= c <= '9' ==> hex[(c - '0') as int] == c;
      assert 'a' <= c <= 'f' ==> hex[(c - 'a') as int + 10] == c;
    }
    if !IsSha(s) && |s| == 40 {
      var c :| c in s && !('0' <= c <= '9' || 'a' <= c <= 'f');
      var i :| 0 <= i < |s| && s[i] == c;
      assert s[i] !in hex;
    }
    if IsSha(s) {
      forall i | 0 <= i < |s|
        ensures s[i] in hex
      {
        assert s[i] in s;
      }
    }
  }

  /** A request is refused for the first of these reasons that holds. */
  lemma {:induction false} RefusedExactly(img: Image, req: Request, m: Option<ImpactMap>)
    ensures var r := Planned(img, req, m);
      if !IsGitSha(req.base) then r == Err(BadBase)
      else if !IsGitSha(req.candidate) then r == Err(BadCandidate)
      else if !IsGitSha(req.revision) then r == Err(BadRevision)
      else if exists path :: path in req.changedFiles && !img.safe(path) then r == Err(UnsafePath)
      else if req.changedFiles == [] then r == Err(NoChanges)
      else if |set path | path in req.changedFiles| > 4096 then r == Err(TooManyChanges)
      else if exists t :: t in INVARIANT_TESTS && t !in img.regular then r == Err(InvariantsMissing)
      else r.Ok?
  {
    hide IsSha, IsGitSha, Decided, Unmapped, FocusedTests, INVARIANT_TESTS;
    ShaExactly(req.base);
    ShaExactly(req.candidate);
    ShaExactly(req.revision);
    if req.changedFiles != [] {
      assert req.changedFiles[0] in Changed(req);
    }
  }

  // ----- what answers for a source file -----

  ghost predicate NameMatches(img: Image, path: Path, t: Path) {
    path in img.nameMatches && t in img.nameMatches[path] && t in img.regular
  }

  /** No map, a map of another base, no digest on one of the sides, another
      digest, or an index that points outside the map's own table. */
  ghost predicate InDoubt(img: Image, m: Option<ImpactMap>, base: string, path: Path) {
    || m.None? || m.value.baseSha != base
    || path !in m.value.fileHashes || m.value.fileHashes[path] == ""
    || path !in img.digests || img.digests[path] != m.value.fileHashes[path]
    || (path in m.value.fileTests && exists i :: i in m.value.fileTests[path] && i >= |m.value.nodeids|)
  }

  ghost predicate MapAttributes(m: ImpactMap, path: Path, t: Path) {
    path in m.fileTests && exists i :: i in m.fileTests[path] && i < |m.nodeids| && FileOf(m.nodeids[i]) == t
  }

  /** The test answers for the file: by its name, or if no name does, by a map
      that leaves no doubt. */
  ghost predicate Answers(img: Image, m: Option<ImpactMap>, base: string, path: Path, t: Path) {
    if exists other :: NameMatches(img, path, other) then NameMatches(img, path, t)
    else !InDoubt(img, m, base, path) && MapAttributes(m.value, path, t) && t in img.regular
  }

  lemma {:induction false} MapTestsExactly(img: Image, m: Option<ImpactMap>, base: string, path: Path)
    ensures forall t :: t in MapTests(img, m, base, path) <==>
      !InDoubt(img, m, base, path) && MapAttributes(m.value, path, t) && t in img.regular
  {
    hide FileOf;
    if IsFresh(m, base) && Trusted(img, m.value, path) && path in m.value.fileTests {
      assert FileAt(m.value.fileTests, path) == m.value.fileTests[path];
      if !InDoubt(img, m, base, path) {
        assert InRange(m.value, path);
      } else {
        assert !InRange(m.value, path);
      }
    }
  }

  lemma {:induction false} AnswersExactly(img: Image, m: Option<ImpactMap>, base: string, path: Path)
    ensures forall t :: t in TestsFor(img, m, base, path) <==> Answers(img, m, base, path, t)
  {
    hide MapTests, InDoubt, MapAttributes;
    MapTestsExactly(img, m, base, path);
    assert forall t :: t in ModuleTests(img, path) <==> NameMatches(img, path, t);
  }

  // ----- plans -----

  ghost predicate IsChangedSource(req: Request, path: Path) {
    path in req.changedFiles && BeginsWith(path, "src/")
  }

  /** A changed source file for which no test answers. */
  ghost predicate Unanswered(img: Image, m: Option<ImpactMap>, req: Request) {
    exists path :: IsChangedSource(req, path) && forall t :: !Answers(img, m, req.base, path, t)
  }

  ghost predicate IsRootVisible(img: Image, path: Path) {
    !BeginsWith(path, "src/") && !IsBrought(path) && !img.isDocumentation(path)
  }

  /** A change that is neither source, nor a test, nor documentation. */
  ghost predicate RootChanged(img: Image, req: Request) {
    exists path :: path in req.changedFiles && IsRootVisible(img, path)
  }

  /** What a focused phase runs: the invariants, the changed test modules, what
      answers for a changed source file, and a fresh map's guards if there is one. */
  ghost predicate IsFocusedOn(img: Image, m: Option<ImpactMap>, req: Request, t: Path) {
    || t in INVARIANT_TESTS
    || (t in img.regular && t in req.changedFiles && IsTestModule(t))
    || (exists path :: IsChangedSource(req, path) && Answers(img, m, req.base, path, t))
    || (t in img.regular && m.Some? && m.value.baseSha == req.base && t in m.value.alwaysRun &&
        exists path :: IsChangedSource(req, path))
  }

  lemma {:induction false} SourceExactly(req: Request, path: Path)
    ensures path in SourceChanges(req) <==> IsChangedSource(req, path)
  {
    Begins(path, "src/");
  }

  lemma {:induction false} UnansweredExactly(img: Image, m: Option<ImpactMap>, req: Request)
    ensures Unmapped(img, m, req.base, SourceChanges(req)) != {} <==> Unanswered(img, m, req)
  {
    hide TestsFor, Answers, SourceChanges, IsChangedSource;
    var sources := SourceChanges(req);
    if path :| path in Unmapped(img, m, req.base, sources) {
      SourceExactly(req, path);
      AnswersExactly(img, m, req.base, path);
    }
    if Unanswered(img, m, req) {
      var path :| IsChangedSource(req, path) && forall t :: !Answers(img, m, req.base, path, t);
      SourceExactly(req, path);
      AnswersExactly(img, m, req.base, path);
      assert forall t :: t !in TestsFor(img, m, req.base, path);
      assert TestsFor(img, m, req.base, path) == {};
      assert path in Unmapped(img, m, req.base, sources);
    }
  }

  lemma {:induction false} RootExactly(img: Image, req: Request)
    ensures (exists path :: path in Changed(req) && RootVisible(img, path)) <==> RootChanged(img, req)
  {
    hide IsBrought, IsCandidateTest, BeginsWith;
    forall path
      ensures RootVisible(img, path) <==> IsRootVisible(img, path)
    {
      BroughtExactly(path);
      Begins(path, "src/");
    }
    if RootChanged(img, req) {
      var path :| path in req.changedFiles && IsRootVisible(img, path);
      assert path in Changed(req) && RootVisible(img, path);
    }
  }

  lemma {:induction false} FocusExactly(img: Image, req: Request, m: Option<ImpactMap>, t: Path)
    ensures t in FocusedTests(img, req, m) <==> IsFocusedOn(img, m, req, t)
  {
    hide TestsFor, Answers, SourceChanges, IsChangedSource, IsFrozenTest, IsTestModule, INVARIANT_TESTS;
    FrozenExactly(img, t);
    forall path
      ensures path in SourceChanges(req) <==> IsChangedSource(req, path)
      ensures t in TestsFor(img, m, req.base, path) <==> Answers(img, m, req.base, path, t)
    {
      SourceExactly(req, path);
      AnswersExactly(img, m, req.base, path);
    }
    if path :| IsChangedSource(req, path) && Answers(img, m, req.base, path, t) {
      assert t in Mapped(img, m, req.base, SourceChanges(req));
    }
    if SourceChanges(req) != {} {
      var path :| path in SourceChanges(req);
      assert IsChangedSource(req, path);
    }
  }

  /** The plan of an accepted request: what its two phases are, by whether a
      changed source is unanswered and whether the change is visible to the
      whole tree, what a focused phase runs, and how the plan is labelled. */
  lemma {:induction false} PlanExactly(img: Image, req: Request, m: Option<ImpactMap>)
    requires Planned(img, req, m).Ok?
    ensures var p := Planned(img, req, m).value;
      && (Unanswered(img, m, req) && RootChanged(img, req) ==>
          p == Plan(Phase(Rejected, {}), Phase(Skipped, {}), MixedUnmappedRejected))
      && (Unanswered(img, m, req) && !RootChanged(img, req) ==>
          p == Plan(Phase(Full, {"tests", "plugin/test_tools.py"}), Phase(Skipped, {}), AuthoritativeFull))
      && (!Unanswered(img, m, req) ==>
          && p.authoritative.mode == Focused
          && (forall t :: t in p.authoritative.tests <==> IsFocusedOn(img, m, req, t))
          && p.supplemental ==
             (if RootChanged(img, req) then Phase(Full, {"tests", "plugin/test_tools.py"}) else Phase(Skipped, {}))
          && p.selection ==
             (if RootChanged(img, req) then SupplementalFull
              else if exists path :: IsChangedSource(req, path) then SourceFocused
              else if exists path :: path in req.changedFiles && IsBrought(path) then CandidateTestFocused
              else DocumentationFastLane))
  {
    hide Refused, Unmapped, FocusedTests, RootVisible, IsCandidateTest, Unanswered, RootChanged, IsFocusedOn, IsBrought,
      SourceChanges, IsChangedSource;
    UnansweredExactly(img, m, req);
    RootExactly(img, req);
    forall t
      ensures t in FocusedTests(img, req, m) <==> IsFocusedOn(img, m, req, t)
    {
      FocusExactly(img, req, m, t);
    }
    forall path
      ensures path in SourceChanges(req) <==> IsChangedSource(req, path)
      ensures IsCandidateTest(path) <==> IsBrought(path)
    {
      SourceExactly(req, path);
      BroughtExactly(path);
    }
    if SourceChanges(req) != {} {
      var path :| path in SourceChanges(req);
      assert IsChangedSource(req, path);
    }
    if path :| path in req.changedFiles && IsBrought(path) {
      assert path in Changed(req);
    }
  }

  /** Any doubt about a changed source without a name match closes the plan. */
  lemma {:induction false} DoubtClosesPlan(img: Image, req: Request, m: Option<ImpactMap>, path: Path)
    requires IsChangedSource(req, path) && InDoubt(img, m, req.base, path)
    requires forall t :: !NameMatches(img, path, t)
    ensures Planned(img, req, m).Ok? ==>
      var p := Planned(img, req, m).value;
      p.authoritative == Phase(Rejected, {}) || p.authoritative == Phase(Full, {"tests", "plugin/test_tools.py"})
  {
    hide InDoubt, NameMatches, IsChangedSource, RootChanged, Planned;
    assert Unanswered(img, m, req) by {
      assert forall t :: !Answers(img, m, req.base, path, t);
    }
    if Planned(img, req, m).Ok? {
      PlanExactly(img, req, m);
    }
  }
}
