/** What pruning an impact map does to the selections made from it. */
module PruneSafety {
  import opened Outcomes
  import opened ImpactMap
  import opened ImpactPrune
  import opened ImpactResolver
  import opened ImpactSafety

  /** What a prune finds: the tests that can be collected and, where it looks at
      a repository, the files that are there. */
  datatype Survey = Survey(collectable: set<NodeId>, present: Option<set<Path>>)

  lemma {:induction false} NoFileNoTests(m: ImpactMap, path: Path)
    ensures path !in m.fileTests ==> FileHits(m, path) == {}
  {
  }

  /** The pruned line index names the collectable part. */
  lemma {:induction false} LinesMeet(m: ImpactMap, r: ImpactMap, collectable: set<NodeId>, path: Path, lines: set<int>)
    requires forall line :: LineMeaning(m, r, collectable, path, line)
    ensures LineHits(r, path, lines) == LineHits(m, path, lines) * collectable
  {
    hide Named, LineAt, LinesOf, FileAt;
    forall line
      ensures Named(r.nodeids, LineAt(r.lineTests, path, line)) ==
        Named(m.nodeids, LineAt(m.lineTests, path, line)) * collectable
    {
      assert LineMeaning(m, r, collectable, path, line);
    }
    forall t | t in LineHits(m, path, lines) * collectable
      ensures t in LineHits(r, path, lines)
    {
      var line :| line in lines && t in Named(m.nodeids, LineAt(m.lineTests, path, line));
      assert t in Named(r.nodeids, LineAt(r.lineTests, path, line));
    }
  }

  lemma {:induction false} ScopesMeet(
    m: ImpactMap, r: ImpactMap, collectable: set<NodeId>, path: Path, names: set<string>)
    requires forall name :: ScopeMeaning(m, r, collectable, path, name)
    ensures ScopeHits(r, path, names) == ScopeHits(m, path, names) * collectable
  {
    hide Named, ScopeAt, ScopesAt;
    forall t | t in ScopeHits(m, path, names) * collectable
      ensures t in ScopeHits(r, path, names)
    {
      var name :| name in names && t in Named(m.nodeids, ScopeAt(m.scopeTests, path, name));
      assert ScopeMeaning(m, r, collectable, path, name);
      assert t in Named(r.nodeids, ScopeAt(r.scopeTests, path, name));
    }
    forall t | t in ScopeHits(r, path, names)
      ensures t in ScopeHits(m, path, names) * collectable
    {
      var name :| name in names && t in Named(r.nodeids, ScopeAt(r.scopeTests, path, name));
      assert ScopeMeaning(m, r, collectable, path, name);
      assert t in Named(m.nodeids, ScopeAt(m.scopeTests, path, name));
    }
  }

  lemma {:induction false} ScopesInFile(m: ImpactMap, path: Path, names: set<string>)
    requires WithinFiles(m)
    ensures ScopeHits(m, path, names) <= FileHits(m, path)
  {
    forall name
      ensures Named(m.nodeids, ScopeAt(m.scopeTests, path, name)) <= FileHits(m, path)
    {
      NamedMonotone(m.nodeids, ScopeAt(m.scopeTests, path, name), FileAt(m.fileTests, path));
    }
  }

  lemma {:induction false} NoLineNoTests(m: ImpactMap, path: Path, line: int)
    ensures line !in LinesOf(m.lineTests, path) ==> Named(m.nodeids, LineAt(m.lineTests, path, line)) == {}
  {
  }

  lemma {:induction false} PrunedBase(m: ImpactMap, l: Survey)
    ensures var r := Pruned(m, l.collectable, l.present);
      r.baseSha == m.baseSha && r.alwaysRun == set path | path in m.alwaysRun && Present(l.present, path)
  {
    hide Remapped, RemappedNested, Renumbering, Kept;
  }

  lemma {:induction false} ChargedIsInterned(w: World, req: Request, m: ImpactMap, path: Path)
    requires Charge(w, req, m, path).Some?
    ensures forall t :: t in Charge(w, req, m, path).value ==> t in m.nodeids
  {
    hide TouchedNames, LineAt, FileAt, ScopeAt, LinesKnown, ScopesAt;
  }

  // ----- the pruned selection, told from the old map -----

  /** Some scope of the file still has a collectable test. */
  predicate ScopesLeft(m: ImpactMap, collectable: set<NodeId>, path: Path) {
    exists name :: name in ScopesAt(m.scopeTests, path) &&
      Named(m.nodeids, ScopeAt(m.scopeTests, path, name)) * collectable != {}
  }

  /** Each of these lines still has a collectable test. */
  predicate LinesLeft(m: ImpactMap, collectable: set<NodeId>, path: Path, lines: set<int>) {
    forall line :: line in lines ==> Named(m.nodeids, LineAt(m.lineTests, path, line)) * collectable != {}
  }

  /** The pruned map still has an entry for the file. */
  predicate KeepsEntry(m: ImpactMap, l: Survey, path: Path) {
    Present(l.present, path) && FileHits(m, path) * l.collectable != {}
  }

  /** What a file is charged with what the prune has left. */
  function ChargeLeft(w: World, req: Request, m: ImpactMap, l: Survey, path: Path): Option<set<NodeId>> {
    if !KeepsEntry(m, l, path) then
      if path in w.contracts then Some({}) else None
    else
      var names := TouchedNames(w, req, m, path);
      if names.Some? && ScopesLeft(m, l.collectable, path) then Some(ScopeHits(m, path, names.value) * l.collectable)
      else if path in req.freshFiles then
        var lines := LinesAt(req.baseLines, path);
        if lines != {} && LinesLeft(m, l.collectable, path, lines) then Some(LineHits(m, path, lines) * l.collectable)
        else Some((LineHits(m, path, lines) + FileHits(m, path)) * l.collectable)
      else None
  }

  function SelectedLeft(w: World, req: Request, m: ImpactMap, l: Survey): set<string> {
    TestChanges(w, req) + ContractTests(w, Changed(req)) +
    (set path, t | path in SourceChanges(w, req) && ChargeLeft(w, req, m, l, path).Some? &&
       t in ChargeLeft(w, req, m, l, path).value :: t) +
    AlwaysLeft(w, req, m, l)
  }

  /** The guards that are left: a map's own guards only as far as their files were there. */
  function AlwaysLeft(w: World, req: Request, m: ImpactMap, l: Survey): set<Path> {
    AlwaysSelected(w, req, m.(alwaysRun := set path | path in m.alwaysRun && Present(l.present, path)))
  }

  /** Every changed source file is still answered for. */
  ghost predicate AllAnsweredLeft(w: World, req: Request, m: ImpactMap, l: Survey) {
    forall path :: path in SourceChanges(w, req) ==> ChargeLeft(w, req, m, l, path).Some?
  }

  lemma {:induction false} LinesKnownLeft(
    m: ImpactMap, r: ImpactMap, collectable: set<NodeId>, path: Path, lines: set<int>)
    requires forall line :: LineMeaning(m, r, collectable, path, line)
    ensures LinesKnown(r, path, lines) <==> LinesLeft(m, collectable, path, lines)
  {
    hide Named, LineAt, LinesOf;
    forall line
      ensures line in LinesOf(r.lineTests, path) <==>
        Named(m.nodeids, LineAt(m.lineTests, path, line)) * collectable != {}
    {
      assert LineMeaning(m, r, collectable, path, line);
    }
  }

  lemma {:induction false} ScopesKnownLeft(m: ImpactMap, r: ImpactMap, collectable: set<NodeId>, path: Path)
    requires forall name :: ScopeMeaning(m, r, collectable, path, name)
    ensures ScopesAt(r.scopeTests, path) != map[] <==> ScopesLeft(m, collectable, path)
  {
    hide Named;
    if name :| name in ScopesAt(r.scopeTests, path) {
      assert ScopeMeaning(m, r, collectable, path, name);
      NoScopeNoTests(m, path, name);
    }
    if ScopesLeft(m, collectable, path) {
      var name :| name in ScopesAt(m.scopeTests, path) &&
                  Named(m.nodeids, ScopeAt(m.scopeTests, path, name)) * collectable != {};
      assert ScopeMeaning(m, r, collectable, path, name);
    }
  }

  lemma {:induction false} NoScopeNoTests(m: ImpactMap, path: Path, name: string)
    ensures name !in ScopesAt(m.scopeTests, path) ==> Named(m.nodeids, ScopeAt(m.scopeTests, path, name)) == {}
  {
  }

  /** The charge on the pruned map, exactly. */
  lemma {:induction false} PruneChargesExactly(
    w: World, req: Request, m: ImpactMap, l: Survey, path: Path)
    ensures Charge(w, req, Pruned(m, l.collectable, l.present), path) == ChargeLeft(w, req, m, l, path)
  {
    hide Pruned, Named, TouchedNames, LineAt, FileAt, LinesOf, ScopesAt, ScopeAt, ScopesLeft, LinesLeft, LinesKnown,
      LineHits, ScopeHits;
    var r := Pruned(m, l.collectable, l.present);
    if !Present(l.present, path) {
      AbsentFilesGo(m, l.collectable, l.present, path);
      return;
    }
    PruneMeaning(m, l.collectable, l.present, path);
    PrunedBase(m, l);
    SameNames(w, req, m, r, path);
    var lines := LinesAt(req.baseLines, path);
    LinesMeet(m, r, l.collectable, path, lines);
    LinesKnownLeft(m, r, l.collectable, path, lines);
    ScopesKnownLeft(m, r, l.collectable, path);
    var names := TouchedNames(w, req, m, path);
    if names.Some? {
      ScopesMeet(m, r, l.collectable, path, names.value);
    }
    assert FileHits(r, path) == FileHits(m, path) * l.collectable;
    assert LineHits(r, path, lines) + FileHits(r, path) ==
      (LineHits(m, path, lines) + FileHits(m, path)) * l.collectable;
  }

  /** Where both maps answer for a file that is there, the pruned one charges at
      least the collectable part, and for one that is gone nothing; where only
      the pruned map answers, a contracted file lost its entry. */
  lemma {:induction false} PruneChargesCollectable(
    w: World, req: Request, m: ImpactMap, l: Survey, path: Path)
    requires WithinFiles(m)
    ensures var r := Pruned(m, l.collectable, l.present);
      && (Charge(w, req, m, path).Some? && Charge(w, req, r, path).Some? ==>
          if Present(l.present, path)
          then Charge(w, req, m, path).value * l.collectable <= Charge(w, req, r, path).value
          else path in w.contracts && Charge(w, req, r, path).value == {})
      && (Charge(w, req, m, path) == None && Charge(w, req, r, path).Some? ==> LosesItsEntry(w, m, l, path))
  {
    hide Pruned, Named, TouchedNames, LineAt, FileAt, LinesOf, ScopesAt, ScopeAt, LineHits, ScopeHits, ScopesLeft,
      LinesLeft, WithinFiles;
    PruneChargesExactly(w, req, m, l, path);
    NoFileNoTests(m, path);
    var lines := LinesAt(req.baseLines, path);
    LinesInFile(m, path, lines);
    LinesLeftKnown(m, l.collectable, path, lines);
    NoScopesLeft(m, l.collectable, path);
    var names := TouchedNames(w, req, m, path);
    if names.Some? {
      ScopesInFile(m, path, names.value);
      NothingInScopes(m, l.collectable, path, names.value);
    }
  }

  lemma {:induction false} LinesLeftKnown(m: ImpactMap, collectable: set<NodeId>, path: Path, lines: set<int>)
    ensures LinesLeft(m, collectable, path, lines) ==> LinesKnown(m, path, lines)
  {
    hide Named, LinesOf, LineAt;
    forall line
      ensures Named(m.nodeids, LineAt(m.lineTests, path, line)) * collectable != {} ==>
        line in LinesOf(m.lineTests, path)
    {
      NoLineNoTests(m, path, line);
    }
  }

  lemma {:induction false} NoScopesLeft(m: ImpactMap, collectable: set<NodeId>, path: Path)
    ensures ScopesLeft(m, collectable, path) ==> ScopesAt(m.scopeTests, path) != map[]
  {
  }

  lemma {:induction false} NothingInScopes(m: ImpactMap, collectable: set<NodeId>, path: Path, names: set<string>)
    ensures !ScopesLeft(m, collectable, path) ==> ScopeHits(m, path, names) * collectable == {}
  {
    hide Named, ScopeAt, ScopesAt;
    if t :| t in ScopeHits(m, path, names) * collectable {
      var name :| name in names && t in Named(m.nodeids, ScopeAt(m.scopeTests, path, name));
      NoScopeNoTests(m, path, name);
      assert t in Named(m.nodeids, ScopeAt(m.scopeTests, path, name)) * collectable;
    }
  }

  /** So is the whole selection on it: forced, unanswered, or what is left. */
  lemma {:induction false} PruneSelectsExactly(w: World, req: Request, m: ImpactMap, l: Survey)
    ensures Resolved(w, req, Pruned(m, l.collectable, l.present)) ==
      match Forced(w, req)
      case Some(reason) => Full(reason)
      case None =>
        if !AllAnsweredLeft(w, req, m, l) then Full(UnresolvedSource)
        else Finish(w, SelectedLeft(w, req, m, l))
  {
    hide Charge, ChargeLeft, Pruned, SourceChanges, AlwaysSelected, ContractTests, TestChanges, Forced, Finish;
    var r := Pruned(m, l.collectable, l.present);
    forall path
      ensures Charge(w, req, r, path) == ChargeLeft(w, req, m, l, path)
    {
      PruneChargesExactly(w, req, m, l, path);
    }
    PrunedBase(m, l);
    SameAlways(w, req, m.(alwaysRun := r.alwaysRun), r);
    var sources := SourceChanges(w, req);
    assert Unresolved(w, req, r, sources) == {} <==> AllAnsweredLeft(w, req, m, l) by {
      if !AllAnsweredLeft(w, req, m, l) {
        var path :| path in sources && ChargeLeft(w, req, m, l, path) == None;
        assert path in Unresolved(w, req, r, sources);
      }
    }
    assert Selected(w, req, r) == SelectedLeft(w, req, m, l);
  }

  // ----- what pruning can lose -----

  /** The test is picked, or charged to a changed file that is there. */
  ghost predicate BroughtIn(w: World, req: Request, m: ImpactMap, l: Survey, t: string) {
    || t in TestChanges(w, req) + ContractTests(w, Changed(req)) + AlwaysLeft(w, req, m, l)
    || exists path :: path in SourceChanges(w, req) && ChargedThere(w, req, m, l, path, t)
  }

  predicate ChargedThere(w: World, req: Request, m: ImpactMap, l: Survey, path: Path, t: string) {
    && Present(l.present, path)
    && ChargeLeft(w, req, m, l, path).Some? && t in ChargeLeft(w, req, m, l, path).value
  }

  /** The test was charged to a contracted file that is gone. */
  predicate ChargedGone(w: World, req: Request, m: ImpactMap, l: Survey, path: Path, t: string) {
    && !Present(l.present, path) && path in w.contracts
    && Charge(w, req, m, path).Some? && t in Charge(w, req, m, path).value
  }

  /** All that brought the test in is gone: its guard file, or the contracted
      source files it was charged to. */
  ghost predicate OnlyFromWhatIsGone(w: World, req: Request, m: ImpactMap, l: Survey, t: string) {
    && !BroughtIn(w, req, m, l, t)
    && (|| (t in m.alwaysRun && !Present(l.present, t))
        || exists path :: path in SourceChanges(w, req) && ChargedGone(w, req, m, l, path, t))
  }

  lemma {:induction false} LeftIsBroughtIn(w: World, req: Request, m: ImpactMap, l: Survey)
    ensures forall t :: t in SelectedLeft(w, req, m, l) <==> BroughtIn(w, req, m, l, t)
  {
    hide SourceChanges, AlwaysLeft, ContractTests, TestChanges, TouchedNames, LinesLeft, ScopesLeft, LineHits,
      ScopeHits, FileHits;
    forall t | t in SelectedLeft(w, req, m, l)
      ensures BroughtIn(w, req, m, l, t)
    {
      if path :| path in SourceChanges(w, req) && ChargeLeft(w, req, m, l, path).Some? &&
                 t in ChargeLeft(w, req, m, l, path).value {
        assert ChargedThere(w, req, m, l, path, t);
      }
    }
    forall t | BroughtIn(w, req, m, l, t)
      ensures t in SelectedLeft(w, req, m, l)
    {
      if path :| path in SourceChanges(w, req) && ChargedThere(w, req, m, l, path, t) {
        assert t in ChargeLeft(w, req, m, l, path).value;
      }
    }
  }

  /** A selected test that can still be collected is selected no more exactly
      when all that brought it in is gone. */
  lemma {:induction false} CollectableLeavesExactly(w: World, req: Request, m: ImpactMap, l: Survey, t: string)
    requires WithinFiles(m) && AllAnsweredLeft(w, req, m, l)
    requires t in Selected(w, req, m) && (t in m.nodeids ==> t in l.collectable)
    ensures t !in SelectedLeft(w, req, m, l) <==> OnlyFromWhatIsGone(w, req, m, l, t)
  {
    hide Charge, ChargeLeft, SourceChanges, ContractTests, TestChanges, WithinFiles, Pruned, SelectedLeft, BroughtIn;
    LeftIsBroughtIn(w, req, m, l);
    if t in AlwaysSelected(w, req, m) && !(t in m.alwaysRun && !Present(l.present, t)) {
      GuardStays(w, req, m, l, t);
    } else if t in Charged(w, req, m, SourceChanges(w, req)) {
      var path :| path in SourceChanges(w, req) && Charge(w, req, m, path).Some? && t in Charge(w, req, m, path).value;
      ChargeStays(w, req, m, l, path, t);
    } else {
      PickStays(w, req, m, l, t);
    }
  }

  lemma {:induction false} GuardStays(w: World, req: Request, m: ImpactMap, l: Survey, t: string)
    requires t in AlwaysSelected(w, req, m) && !(t in m.alwaysRun && !Present(l.present, t))
    ensures BroughtIn(w, req, m, l, t)
  {
    hide SourceChanges, TestChanges, ContractTests, ChargedThere;
    assert t in AlwaysLeft(w, req, m, l);
  }

  lemma {:induction false} PickStays(w: World, req: Request, m: ImpactMap, l: Survey, t: string)
    ensures t in TestChanges(w, req) + ContractTests(w, Changed(req)) ==> BroughtIn(w, req, m, l, t)
    ensures t in AlwaysSelected(w, req, m) ==> t in w.policy.alwaysRun || t in m.alwaysRun
  {
    hide SourceChanges, TestChanges, ContractTests, ChargedThere;
  }

  lemma {:induction false} ChargeStays(w: World, req: Request, m: ImpactMap, l: Survey, path: Path, t: string)
    requires WithinFiles(m) && AllAnsweredLeft(w, req, m, l) && path in SourceChanges(w, req)
    requires Charge(w, req, m, path).Some? && t in Charge(w, req, m, path).value
    requires t in m.nodeids ==> t in l.collectable
    ensures if Present(l.present, path) then BroughtIn(w, req, m, l, t) else ChargedGone(w, req, m, l, path, t)
  {
    hide Charge, ChargeLeft, SourceChanges, ContractTests, TestChanges, WithinFiles, Pruned, AlwaysLeft;
    ChargedIsInterned(w, req, m, path);
    PruneChargesCollectable(w, req, m, l, path);
    PruneChargesExactly(w, req, m, l, path);
    assert ChargeLeft(w, req, m, l, path).Some?;
    assert t in Charge(w, req, m, path).value * l.collectable;
    if Present(l.present, path) {
      assert ChargedThere(w, req, m, l, path, t);
    }
  }

  /** A focused selection that stays focused loses a collectable test exactly
      when all that brought the test in is gone. */
  lemma {:induction false} PruningLosesExactly(w: World, req: Request, m: ImpactMap, l: Survey, t: string)
    requires WithinFiles(m)
    ensures var before, after := Resolved(w, req, m), Resolved(w, req, Pruned(m, l.collectable, l.present));
      before.Focused? && after.Focused? && t in Picked(before) && (t in m.nodeids ==> t in l.collectable) ==>
        (t !in Picked(after) <==> OnlyFromWhatIsGone(w, req, m, l, t))
  {
    hide Charge, ChargeLeft, Pruned, WithinFiles, Selected, SelectedLeft, Forced, Unresolved, Finish,
      OnlyFromWhatIsGone;
    PruneSelectsExactly(w, req, m, l);
    var before, after := Resolved(w, req, m), Resolved(w, req, Pruned(m, l.collectable, l.present));
    if before.Focused? && after.Focused? && t in Picked(before) && (t in m.nodeids ==> t in l.collectable) {
      PickedIsSelected(w, req, m);
      FinishPicks(w, SelectedLeft(w, req, m, l));
      CollectableLeavesExactly(w, req, m, l, t);
    }
  }

  /** The files whose absence can cost a test: changed contracted sources, and
      the map's own guards as far as they are to be run. */
  ghost predicate NothingNeededIsGone(w: World, req: Request, m: ImpactMap, l: Survey) {
    && (forall path :: path in SourceChanges(w, req) && path in w.contracts ==> Present(l.present, path))
    && (forall path :: path in m.alwaysRun && path in w.existing ==> Present(l.present, path))
  }

  /** As long as those files are there, only tests that can no longer be
      collected are lost. */
  lemma {:induction false} PruningNeverLoses(w: World, req: Request, m: ImpactMap, l: Survey)
    requires WithinFiles(m) && NothingNeededIsGone(w, req, m, l)
    ensures var before, after := Resolved(w, req, m), Resolved(w, req, Pruned(m, l.collectable, l.present));
      before.Focused? && after.Focused? ==>
        forall t :: t in Picked(before) && (t in m.nodeids ==> t in l.collectable) ==> t in Picked(after)
  {
    hide Charge, ChargeLeft, Pruned, WithinFiles, SelectedLeft, Forced, Unresolved, Finish, BroughtIn, SourceChanges;
    PruneSelectsExactly(w, req, m, l);
    if Resolved(w, req, m).Focused? && Resolved(w, req, Pruned(m, l.collectable, l.present)).Focused? {
      PickedIsSelected(w, req, m);
      FinishPicks(w, SelectedLeft(w, req, m, l));
      forall t | t in Selected(w, req, m) && (t in m.nodeids ==> t in l.collectable)
        ensures t in SelectedLeft(w, req, m, l)
      {
        NothingGoneStays(w, req, m, l, t);
      }
    }
  }

  lemma {:induction false} NothingGoneStays(w: World, req: Request, m: ImpactMap, l: Survey, t: string)
    requires WithinFiles(m) && AllAnsweredLeft(w, req, m, l) && NothingNeededIsGone(w, req, m, l)
    requires t in Selected(w, req, m) && (t in m.nodeids ==> t in l.collectable)
    ensures t in SelectedLeft(w, req, m, l)
  {
    hide Charge, ChargeLeft, WithinFiles, SelectedLeft, BroughtIn, SourceChanges, TestChanges, ContractTests,
      AllAnsweredLeft;
    LeftIsBroughtIn(w, req, m, l);
    if t in AlwaysSelected(w, req, m) {
      assert t in w.existing;
      GuardStays(w, req, m, l, t);
    } else if t in Charged(w, req, m, SourceChanges(w, req)) {
      var path :| path in SourceChanges(w, req) && Charge(w, req, m, path).Some? && t in Charge(w, req, m, path).value;
      ChargeStays(w, req, m, l, path, t);
    } else {
      PickStays(w, req, m, l, t);
    }
  }

  /** Some changed source had no answer, each such file loses its entry to its
      contract, and each other one is still answered for. */
  ghost predicate NarrowsByLosing(w: World, req: Request, m: ImpactMap, l: Survey) {
    && Unresolved(w, req, m, SourceChanges(w, req)) != {}
    && forall path :: path in SourceChanges(w, req) ==>
         if Charge(w, req, m, path) == None then LosesItsEntry(w, m, l, path)
         else ChargeLeft(w, req, m, l, path).Some?
  }

  /** Everything had an answer, nothing picked could be run, and everything still has an answer. */
  ghost predicate NarrowsByStaleness(w: World, req: Request, m: ImpactMap, l: Survey) {
    && Unresolved(w, req, m, SourceChanges(w, req)) == {}
    && Selected(w, req, m) != {} && (forall t :: t in Selected(w, req, m) ==> !Resolvable(w, t))
    && AllAnsweredLeft(w, req, m, l)
  }

  /** A full selection becomes a focused one exactly in these two ways, and then
      only if the resolver does not fall back again: what is left to pick is
      nothing, or can in part be run. */
  lemma {:induction false} FullBecomesFocusedExactly(w: World, req: Request, m: ImpactMap, l: Survey)
    ensures var before, after := Resolved(w, req, m), Resolved(w, req, Pruned(m, l.collectable, l.present));
      before.Full? && after.Focused? <==>
      && Forced(w, req) == None
      && (NarrowsByLosing(w, req, m, l) || NarrowsByStaleness(w, req, m, l))
      && (var left := SelectedLeft(w, req, m, l); left == {} || exists t :: t in left && Resolvable(w, t))
  {
    hide Charge, ChargeLeft, Pruned, SourceChanges, Selected, SelectedLeft, Forced, LosesItsEntry, Resolvable;
    PruneSelectsExactly(w, req, m, l);
    FinishFull(w, Selected(w, req, m));
    FinishFull(w, SelectedLeft(w, req, m, l));
    forall path
      ensures Charge(w, req, m, path) == None ==>
        (ChargeLeft(w, req, m, l, path).Some? <==> LosesItsEntry(w, m, l, path))
    {
      PruneChargesExactly(w, req, m, l, path);
      if Charge(w, req, m, path) == None {
        LosingExactly(w, req, m, l, path);
      }
    }
    assert Unresolved(w, req, m, SourceChanges(w, req)) == {} <==>
      forall path :: path in SourceChanges(w, req) ==> Charge(w, req, m, path).Some? by {
      if path :| path in SourceChanges(w, req) && Charge(w, req, m, path) == None {
        assert path in Unresolved(w, req, m, SourceChanges(w, req));
      }
    }
  }

  /** When a stale selection narrows to nothing, all that was picked were tests
      that can no longer be collected, or came only from what is gone. */
  lemma {:induction false} NarrowsToNothing(w: World, req: Request, m: ImpactMap, l: Survey)
    requires WithinFiles(m) && NarrowsByStaleness(w, req, m, l) && SelectedLeft(w, req, m, l) == {}
    ensures forall t :: t in Selected(w, req, m) ==>
      (t in m.nodeids && t !in l.collectable) || OnlyFromWhatIsGone(w, req, m, l, t)
  {
    hide Selected, SelectedLeft, WithinFiles, AllAnsweredLeft, Resolvable, OnlyFromWhatIsGone;
    forall t | t in Selected(w, req, m) && (t in m.nodeids ==> t in l.collectable)
      ensures OnlyFromWhatIsGone(w, req, m, l, t)
    {
      CollectableLeavesExactly(w, req, m, l, t);
    }
  }

  /** A guard that is there and can be run, for a change of source, rules the
      second way out: no selection is ever all stale, pruned or not. */
  lemma {:induction false} GuardRulesOutStaleness(w: World, req: Request, m: ImpactMap, guard: Path)
    requires guard in w.policy.alwaysRun && guard in w.existing && FileOf(guard) == guard
    requires SourceChanges(w, req) != {}
    ensures Resolved(w, req, m) != Full(AllStale)
    ensures forall l :: !NarrowsByStaleness(w, req, m, l)
  {
    hide Charge, Unresolved, SourceChanges, TestChanges, ContractTests, Charged, FileOf;
    assert guard in AlwaysSelected(w, req, m);
    assert guard in Selected(w, req, m) && Resolvable(w, guard);
    FinishFull(w, Selected(w, req, m));
    ForcedIsNeverStale(w, req);
  }

  /** An unanswered file becomes answered exactly when its contract takes over. */
  lemma {:induction false} LosingExactly(w: World, req: Request, m: ImpactMap, l: Survey, path: Path)
    requires Charge(w, req, m, path) == None
    ensures Charge(w, req, Pruned(m, l.collectable, l.present), path).Some? <==> LosesItsEntry(w, m, l, path)
  {
    hide Pruned, Named, TouchedNames, LineAt, FileAt, ScopesAt, LineHits, ScopeHits, ScopesLeft, LinesLeft;
    PruneChargesExactly(w, req, m, l, path);
    NoFileNoTests(m, path);
    NoScopesLeft(m, l.collectable, path);
  }

  /** A contracted source file that is gone, or none of whose tests can be collected any more. */
  predicate LosesItsEntry(w: World, m: ImpactMap, l: Survey, path: Path) {
    path in w.contracts && path in m.fileTests && !KeepsEntry(m, l, path)
  }

  /** After build and prune, a collectable test that executed a changed line is
      picked, or everything is, unless the file is contracted and gone; and then
      it is picked exactly when something else brings it in. */
  lemma {:induction false} SafeAfterPruning(
    run: Run, cap: int, raw: map<Path, Lines>, m: ImpactMap, l: Survey,
    w: World, req: Request, path: Path, line: int, t: NodeId)
    requires Built(run, cap, raw, m) && BaseAsMapped(run, w, path, line)
    requires path in SourceChanges(w, req) && line in LinesAt(req.baseLines, path)
    requires InSource(path) && Covers(run.contexts, t, path, line) && t in l.collectable
    ensures var after := Resolved(w, req, Pruned(m, l.collectable, l.present));
      && (Present(l.present, path) || path !in w.contracts ==> after.Full? || t in Picked(after))
      && (after.Focused? ==> (t in Picked(after) <==> BroughtIn(w, req, m, l, t)))
  {
    hide Built, Resolved, Charge, Covers, BaseAsMapped, SourceChanges, InSource, WithinFiles, Pruned, BroughtIn;
    var r := Pruned(m, l.collectable, l.present);
    if Resolved(w, req, r).Focused? {
      PicksWhatIsBroughtIn(w, req, m, l);
      BuiltIsWellIndexed(run, cap, raw, m);
      CoveringTestIsCharged(run, cap, raw, m, w, req, path, line, t);
      PruneChargesCollectable(w, req, m, l, path);
      ChargedIsPicked(w, req, r, path, t);
      StillMapped(run, cap, raw, m, l, path, line, t);
    }
  }

  lemma {:induction false} PicksWhatIsBroughtIn(w: World, req: Request, m: ImpactMap, l: Survey)
    requires Resolved(w, req, Pruned(m, l.collectable, l.present)).Focused?
    ensures forall t ::
      t in Picked(Resolved(w, req, Pruned(m, l.collectable, l.present))) <==> BroughtIn(w, req, m, l, t)
  {
    hide Resolved, Pruned, SelectedLeft, BroughtIn, Forced, AllAnsweredLeft, Finish;
    PruneSelectsExactly(w, req, m, l);
    FinishPicks(w, SelectedLeft(w, req, m, l));
    LeftIsBroughtIn(w, req, m, l);
  }

  lemma {:induction false} StillMapped(
    run: Run, cap: int, raw: map<Path, Lines>, m: ImpactMap, l: Survey, path: Path, line: int, t: NodeId)
    requires Built(run, cap, raw, m) && InSource(path) && Covers(run.contexts, t, path, line) && t in l.collectable
    ensures Present(l.present, path) ==> KeepsEntry(m, l, path)
  {
    hide Built, Covers, InSource;
    var i := CoveringIndex(run, cap, raw, m, path, line, t);
    FileCharges(run, cap, raw, m, path, line, i);
    assert t in FileHits(m, path) * l.collectable;
  }
}
