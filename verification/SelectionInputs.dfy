/** Inputs at which a selection runs less than one might expect. */
module SelectionInputs {
  import opened Outcomes
  import opened ImpactMap
  import opened ImpactPrune
  import opened ImpactResolver
  import opened ImpactSafety
  import opened PruneSafety
  import S = Scopes

  const FILE: Path := "f"

  /** A repository with one source file changed, and nothing else to run. */
  function Bare(
    contracts: map<Path, set<Path>>, existing: set<Path>, defined: set<NodeId>, views: map<Path, Views>): World {
    World(Policy({}, {}), contracts, p => false, p => p == FILE, p => false, existing, defined, views)
  }

  /** One test of the file, in a map too old to answer for it. */
  const DRIFTED: ImpactMap := ImpactMap("base", ["a::"], map[FILE := {0}], map[], map[], map[], {})

  const EDITED: Request := Request([FILE], map[FILE := {1}], map[], {})

  /** Under a contract the file runs everything before the prune, and only its
      contract test after it: its test can no longer be collected, or the file
      itself is gone, its test being there still. */
  lemma {:induction false} ContractTakesOver(l: Survey)
    requires l == Survey({}, None) || l == Survey({"a::"}, Some({}))
    ensures var w := Bare(map[FILE := {"c"}], {"c"}, {"a::"}, map[]);
      && WithinFiles(DRIFTED) && Resolved(w, EDITED, DRIFTED) == Full(UnresolvedSource)
      && LosesItsEntry(w, DRIFTED, l, FILE)
      && Resolved(w, EDITED, Pruned(DRIFTED, l.collectable, l.present)) == Focused({"c"}, {})
  {
    hide Pruned;
    var w := Bare(map[FILE := {"c"}], {"c"}, {"a::"}, map[]);
    OneFile(w, EDITED);
    assert Charge(w, EDITED, DRIFTED, FILE) == None;
    assert FILE in Unresolved(w, EDITED, DRIFTED, SourceChanges(w, EDITED));
    assert ChargeLeft(w, EDITED, DRIFTED, l, FILE) == Some({});
    PruneSelectsExactly(w, EDITED, DRIFTED, l);
    assert ContractTests(w, {FILE}) == {"c"};
    assert SelectedLeft(w, EDITED, DRIFTED, l) == {"c"};
    PlainPath("c");
  }

  /** One test of the file's one line, in a map that is fresh for it. */
  const FRESH: ImpactMap :=
    ImpactMap("base", ["a::"], map[FILE := {0}], map[FILE := map[1 := {0}]], map[], map[], {})

  const DELETED: Request := Request([FILE], map[FILE := {1}], map[], {FILE})

  /** A contracted source file is deleted. Before the prune its line brings in
      the test that executed it; the prune drops the file's entries, and the
      test, which can be collected, is not picked. */
  lemma {:induction false} DeletedFileLosesItsTest()
    ensures var w, l := Bare(map[FILE := {"c"}], {"c"}, {"a::"}, map[]), Survey({"a::"}, Some({}));
      && WithinFiles(FRESH) && Resolved(w, DELETED, FRESH) == Focused({"a::", "c"}, {})
      && Resolved(w, DELETED, Pruned(FRESH, l.collectable, l.present)) == Focused({"c"}, {})
      && OnlyFromWhatIsGone(w, DELETED, FRESH, l, "a::")
  {
    hide Pruned, Resolved, OnlyFromWhatIsGone, Bare, WithinFiles;
    var w, l := Bare(map[FILE := {"c"}], {"c"}, {"a::"}, map[]), Survey({"a::"}, Some({}));
    FreshHits();
    DeletedBefore(w);
    DeletedAfter(w, l);
    DeletedTakesIt(w, l);
  }

  lemma {:induction false} DeletedBefore(w: World)
    requires w == Bare(map[FILE := {"c"}], {"c"}, {"a::"}, map[])
    ensures Charge(w, DELETED, FRESH, FILE) == Some({"a::"})
    ensures Resolved(w, DELETED, FRESH) == Focused({"a::", "c"}, {})
  {
    hide FileOf, FileHits, LineHits, LinesKnown, ScopesAt;
    OneFile(w, DELETED);
    FreshHits();
    assert TouchedNames(w, DELETED, FRESH, FILE) == None;
    assert Charge(w, DELETED, FRESH, FILE) == Some({"a::"});
    assert ContractTests(w, {FILE}) == {"c"};
    assert Charged(w, DELETED, FRESH, {FILE}) == {"a::"} && Unresolved(w, DELETED, FRESH, {FILE}) == {};
    assert Selected(w, DELETED, FRESH) == {"a::", "c"};
    PlainPath("c");
    assert Resolvable(w, "a::") && Resolvable(w, "c");
    AllRun(w, {"a::", "c"});
  }

  lemma {:induction false} AllRun(w: World, selected: set<string>)
    requires forall t :: t in selected ==> Resolvable(w, t)
    ensures Finish(w, selected) == Focused(selected, {})
  {
    hide Resolvable;
    assert (set t | t in selected && Resolvable(w, t)) == selected;
  }

  lemma {:induction false} DeletedAfter(w: World, l: Survey)
    requires w == Bare(map[FILE := {"c"}], {"c"}, {"a::"}, map[]) && l == Survey({"a::"}, Some({}))
    ensures SelectedLeft(w, DELETED, FRESH, l) == {"c"}
    ensures Resolved(w, DELETED, Pruned(FRESH, l.collectable, l.present)) == Focused({"c"}, {})
  {
    hide FileOf, FileHits, Pruned;
    OneFile(w, DELETED);
    assert ContractTests(w, {FILE}) == {"c"};
    assert ChargeLeft(w, DELETED, FRESH, l, FILE) == Some({});
    PruneSelectsExactly(w, DELETED, FRESH, l);
    assert SelectedLeft(w, DELETED, FRESH, l) == {"c"};
    PlainPath("c");
    AllRun(w, {"c"});
  }

  lemma {:induction false} DeletedTakesIt(w: World, l: Survey)
    requires w == Bare(map[FILE := {"c"}], {"c"}, {"a::"}, map[]) && l == Survey({"a::"}, Some({}))
    ensures OnlyFromWhatIsGone(w, DELETED, FRESH, l, "a::")
  {
    hide Charge, SelectedLeft, BroughtIn, Resolved, Pruned;
    DeletedBefore(w);
    DeletedAfter(w, l);
    OneFile(w, DELETED);
    LeftIsBroughtIn(w, DELETED, FRESH, l);
    assert "a::"[0] == 'a' && "c"[0] == 'c';
    assert ChargedGone(w, DELETED, FRESH, l, FILE, "a::");
  }

  lemma {:induction false} FreshHits()
    ensures FileHits(FRESH, FILE) == {"a::"} && LineHits(FRESH, FILE, {1}) == {"a::"} && LinesKnown(FRESH, FILE, {1})
    ensures ScopesAt(FRESH.scopeTests, FILE) == map[] && WithinFiles(FRESH)
  {
    assert Named(FRESH.nodeids, {0}) == {"a::"};
    assert LineAt(FRESH.lineTests, FILE, 1) == {0} && FileAt(FRESH.fileTests, FILE) == {0};
    assert "a::" in Named(FRESH.nodeids, LineAt(FRESH.lineTests, FILE, 1));
  }

  lemma {:induction false} OneFile(w: World, req: Request)
    requires req.changedFiles == [FILE] && w.isSource(FILE) && !w.isTest(FILE) && w.policy.globalFull == {}
    requires ContractHolds(w, FILE)
    ensures Changed(req) == {FILE} && SourceChanges(w, req) == {FILE} && TestChanges(w, req) == {} &&
      Forced(w, req) == None
  {
    assert FILE[0] == 'f';
    assert Changed(req) == {FILE};
    assert ContractsHold(w, {FILE});
  }

  lemma {:induction false} PlainPath(p: Path)
    requires |p| == 1
    ensures FileOf(p) == p
  {
    assert p[1..] == "";
  }

  /** Two functions of a line each, each with a test; the map knows the scopes. */
  const TREE: seq<S.Node> := [S.Def("a", 1, Some(1), []), S.Def("b", 2, Some(2), [])]
  const SHOWN: Views := Views(Some(Revision(TREE, [])), Some(Revision(TREE, [])), Some(Revision(TREE, [])))
  const SCOPED: ImpactMap :=
    ImpactMap("base", ["a::", "b::"], map[FILE := {0, 1}], map[], map[FILE := map["a" := {0}, "b" := {1}]], map[], {})

  /** A change to the first function, whose test is gone: everything runs before
      the prune, because nothing picked can be run, and nothing runs after it. */
  lemma {:induction false} StaleTakesAll()
    ensures var w := Bare(map[], {}, {"b::"}, map[FILE := SHOWN]);
      && WithinFiles(SCOPED) && Resolved(w, EDITED, SCOPED) == Full(AllStale)
      && (forall path :: !LosesItsEntry(w, SCOPED, Survey({"b::"}, None), path))
      && Resolved(w, EDITED, Pruned(SCOPED, {"b::"}, None)) == Focused({}, {})
  {
    hide Pruned, Resolved, LosesItsEntry;
    var w := Bare(map[], {}, {"b::"}, map[FILE := SHOWN]);
    StaleBefore(w);
    StaleAfter(w);
    ScopedWithin();
    NothingContracted(w);
  }

  lemma {:induction false} NothingContracted(w: World)
    requires w.contracts == map[]
    ensures forall m, l, path :: !LosesItsEntry(w, m, l, path)
  {
    hide Pruned;
  }

  lemma {:induction false} ScopedWithin()
    ensures WithinFiles(SCOPED)
  {
    assert "a"[0] == 'a' && "b"[0] == 'b';
  }

  lemma {:induction false} StaleBefore(w: World)
    requires w == Bare(map[], {}, {"b::"}, map[FILE := SHOWN])
    ensures Resolved(w, EDITED, SCOPED) == Full(AllStale)
  {
    hide S.Innermost, S.ScopesOf, TouchedNames, ScopeHits, Finish, Named;
    OneFile(w, EDITED);
    TouchesFirst(w, EDITED, SCOPED);
    ScopedHits();
    assert ScopesAt(SCOPED.scopeTests, FILE) != map[] by {
      assert "a" in ScopesAt(SCOPED.scopeTests, FILE);
    }
    assert Charge(w, EDITED, SCOPED, FILE) == Some({"a::"});
    assert Charged(w, EDITED, SCOPED, {FILE}) == {"a::"};
    assert Unresolved(w, EDITED, SCOPED, {FILE}) == {};
    assert Selected(w, EDITED, SCOPED) == {"a::"};
    NodeIdPath("a::");
    FinishFull(w, {"a::"});
  }

  lemma {:induction false} StaleAfter(w: World)
    requires w == Bare(map[], {}, {"b::"}, map[FILE := SHOWN])
    ensures Resolved(w, EDITED, Pruned(SCOPED, {"b::"}, None)) == Focused({}, {})
  {
    hide S.Innermost, S.ScopesOf, TouchedNames, ScopeHits, FileHits, ScopesLeft, Named, Pruned;
    OneFile(w, EDITED);
    TouchesFirst(w, EDITED, SCOPED);
    ScopedHits();
    var l := Survey({"b::"}, None);
    assert "b::" in FileHits(SCOPED, FILE) * {"b::"};
    assert {"a::"} * {"b::"} == {};
    assert ChargeLeft(w, EDITED, SCOPED, l, FILE) == Some({});
    PruneSelectsExactly(w, EDITED, SCOPED, l);
    assert SelectedLeft(w, EDITED, SCOPED, l) == {};
  }

  lemma {:induction false} NodeIdPath(p: NodeId)
    requires |p| == 3 && p[1..] == "::"
    ensures FileOf(p) != p
  {
  }

  lemma {:induction false} ScopedHits()
    ensures ScopeHits(SCOPED, FILE, {"a"}) == {"a::"}
    ensures ScopesLeft(SCOPED, {"b::"}, FILE)
    ensures "b::" in FileHits(SCOPED, FILE)
    ensures "a::" != "b::"
  {
    assert "a::"[0] == 'a' && "b::"[0] == 'b' && "a"[0] == 'a' && "b"[0] == 'b';
    assert Named(SCOPED.nodeids, {0}) == {"a::"};
    assert ScopeAt(SCOPED.scopeTests, FILE, "a") == {0} && ScopeAt(SCOPED.scopeTests, FILE, "b") == {1};
    assert SCOPED.nodeids[1] in Named(SCOPED.nodeids, ScopeAt(SCOPED.scopeTests, FILE, "b")) * {"b::"};
    assert "b" in ScopesAt(SCOPED.scopeTests, FILE);
    assert FileAt(SCOPED.fileTests, FILE) == {0, 1};
    assert SCOPED.nodeids[1] in Named(SCOPED.nodeids, {0, 1});
  }

  lemma {:induction false} TreeScopes()
    ensures S.ScopesOf(TREE) == [S.Scope("a", 1, 1), S.Scope("b", 2, 2)]
    ensures S.Innermost(S.ScopesOf(TREE), 1) == Some("a")
  {
    hide S.Defs, S.AssignAll, S.ScopesOf, S.Innermost, S.Narrowest;
    TreeDefs();
    TreeTable();
    FirstOfTwo(S.Scope("a", 1, 1), S.Scope("b", 2, 2));
  }

  lemma {:induction false} TreeDefs()
    ensures S.Defs(TREE, "") == [S.Scope("a", 1, 1), S.Scope("b", 2, 2)]
  {
    hide S.Defs;
    var a, b := S.Scope("a", 1, 1), S.Scope("b", 2, 2);
    assert "a"[0] == 'a' && "b"[0] == 'b';
    assert TREE[1..] == [TREE[1]] && TREE[1..][1..] == [];
    S.DefsUnfolds(TREE, "");
    S.DefsUnfolds(TREE[1..], "");
    S.DefsNothing("");
    S.DefsNothing("" + "a" + ".");
    S.DefsNothing("" + "b" + ".");
    assert "" + "a" == "a" && "" + "b" == "b";
    assert S.DefsOf(TREE[0], "") == [a] && S.DefsOf(TREE[1], "") == [b];
  }

  lemma {:induction false} TreeTable()
    requires S.Defs(TREE, "") == [S.Scope("a", 1, 1), S.Scope("b", 2, 2)]
    ensures S.ScopesOf(TREE) == [S.Scope("a", 1, 1), S.Scope("b", 2, 2)]
  {
    hide S.Defs, S.AssignAll;
    var a, b := S.Scope("a", 1, 1), S.Scope("b", 2, 2);
    assert "a"[0] == 'a' && "b"[0] == 'b';
    S.AssignNothing([]);
    S.AssignSnoc([], [], a);
    S.AssignSnoc([], [a], b);
    assert [] + [a] == [a] && [a] + [b] == [a, b];
  }

  /** The first of two scopes is innermost where only it is around the line. */
  lemma {:induction false} FirstOfTwo(a: S.Scope, b: S.Scope)
    requires S.Around(a, 1) && !S.Around(b, 1)
    ensures S.Innermost([a, b], 1) == Some(a.name)
  {
    var scopes := [a, b];
    assert scopes[..1] == [a] && scopes[..1][..0] == [];
    assert S.Narrowest(scopes[..1], 1) == Some(a);
  }

  // ----- a renamed function -----

  /** The first function under the name it has by now. */
  const RENAMED: seq<S.Node> := [S.Def("z", 1, Some(1), [])]
  const SHOWN_RENAMED: Views :=
    Views(Some(Revision(RENAMED, [])), Some(Revision(RENAMED, [])), Some(Revision(TREE, [])))

  /** The file has drifted: its first function has another name than the map's
      base gives it. The change is answered by scope, and the function's test,
      which could be run, is not picked. */
  lemma {:induction false} RenamedRunsNothing()
    ensures var w := Bare(map[], {}, {"a::", "b::"}, map[FILE := SHOWN_RENAMED]);
      && FILE !in EDITED.freshFiles && Charge(w, EDITED, SCOPED, FILE) == Some({})
      && Resolved(w, EDITED, SCOPED) == Focused({}, {})
  {
    hide S.Innermost, S.ScopesOf, TouchedNames, ScopeHits, Named;
    var w := Bare(map[], {}, {"a::", "b::"}, map[FILE := SHOWN_RENAMED]);
    OneFile(w, EDITED);
    TouchesRenamed(w, EDITED, SCOPED);
    NoRenamedHits();
    assert "a" in ScopesAt(SCOPED.scopeTests, FILE);
    assert Charge(w, EDITED, SCOPED, FILE) == Some({});
    assert Unresolved(w, EDITED, SCOPED, {FILE}) == {} && Charged(w, EDITED, SCOPED, {FILE}) == {};
    assert Selected(w, EDITED, SCOPED) == {};
  }

  lemma {:induction false} NoRenamedHits()
    ensures ScopeHits(SCOPED, FILE, {"z"}) == {}
  {
    assert "a"[0] == 'a' && "b"[0] == 'b' && "z"[0] == 'z';
    assert ScopeAt(SCOPED.scopeTests, FILE, "z") == {};
    NothingNamed(SCOPED.nodeids);
  }

  lemma {:induction false} RenamedScopes()
    ensures S.ScopesOf(RENAMED) == [S.Scope("z", 1, 1)]
    ensures S.Innermost(S.ScopesOf(RENAMED), 1) == Some("z")
  {
    var z := S.Scope("z", 1, 1);
    assert RENAMED[1..] == [];
    S.DefsUnfolds(RENAMED, "");
    S.DefsNothing("");
    S.DefsNothing("z.");
    assert "" + "z" == "z";
    assert S.Defs(RENAMED, "") == [] + [z];
    S.AssignNothing([]);
    S.AssignSnoc([], [], z);
    var scopes := S.ScopesOf(RENAMED);
    assert scopes == [z] && scopes[..0] == [];
    assert S.Narrowest(scopes, 1) == Some(z);
  }

  lemma {:induction false} TouchesRenamed(w: World, req: Request, m: ImpactMap)
    requires FILE in w.views && w.views[FILE] == SHOWN_RENAMED && m.baseSha != ""
    requires req.baseLines == map[FILE := {1}] && req.additions == map[]
    ensures TouchedNames(w, req, m, FILE) == Some({"z"})
  {
    hide S.Innermost, S.ScopesOf;
    RenamedScopes();
    var rev, none, first := Revision(RENAMED, []), LinesAt(req.additions, FILE), LinesAt(req.baseLines, FILE);
    assert none == {} && first == {1} && IsExecutable(rev, 1);
    assert NamesTouched(rev, S.ScopesOf(RENAMED), first) == {"z"};
    assert NamesTouched(rev, S.ScopesOf(RENAMED), none) == {};
    assert Touched(rev, none) == Some({}) && Touched(rev, first) == Some({"z"});
    assert {} + {"z"} == {"z"};
  }

  lemma {:induction false} TouchesFirst(w: World, req: Request, m: ImpactMap)
    requires FILE in w.views && w.views[FILE] == SHOWN && m.baseSha != ""
    requires req.baseLines == map[FILE := {1}] && req.additions == map[]
    ensures TouchedNames(w, req, m, FILE) == Some({"a"})
  {
    hide S.Innermost, S.ScopesOf;
    TreeScopes();
    var rev, none, first := Revision(TREE, []), LinesAt(req.additions, FILE), LinesAt(req.baseLines, FILE);
    assert none == {} && first == {1} && IsExecutable(rev, 1);
    assert NamesTouched(rev, S.ScopesOf(TREE), first) == {"a"};
    assert NamesTouched(rev, S.ScopesOf(TREE), none) == {};
    assert Touched(rev, none) == Some({}) && Touched(rev, first) == Some({"a"});
    assert {} + {"a"} == {"a"};
  }
}
