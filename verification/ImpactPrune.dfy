/** Dropping uncollectable tests from an impact map and renumbering what is left. */
module ImpactPrune {
  import opened Outcomes
  import opened ImpactMap

  /** The ids that can still be collected, in their old order. */
  function Kept(ids: seq<NodeId>, collectable: set<NodeId>): seq<NodeId> {
    if ids == [] then []
    else
      var n := |ids| - 1;
      Kept(ids[..n], collectable) + (if ids[n] in collectable then [ids[n]] else [])
  }

  /** Where a surviving index goes: past the survivors before it. */
  function Renumbering(ids: seq<NodeId>, collectable: set<NodeId>): map<nat, nat> {
    map i: nat | i < |ids| && ids[i] in collectable :: |Kept(ids[..i], collectable)|
  }

  function Remap(remap: map<nat, nat>, indices: set<nat>): set<nat> {
    set i | i in indices && i in remap :: remap[i]
  }

  /** A table with its indices renumbered and its emptied keys gone. */
  function Remapped<K>(table: map<K, set<nat>>, remap: map<nat, nat>): map<K, set<nat>> {
    map k | k in table && Remap(remap, table[k]) != {} :: Remap(remap, table[k])
  }

  /** Without a repository to look at, every file counts as present. */
  predicate Present(present: Option<set<Path>>, path: Path) {
    present.Some? ==> path in present.value
  }

  function Files<T>(table: map<Path, T>, present: Option<set<Path>>): map<Path, T> {
    map path | path in table && Present(present, path) :: table[path]
  }

  function RemappedNested<K>(table: map<Path, map<K, set<nat>>>, remap: map<nat, nat>): map<Path, map<K, set<nat>>> {
    map path | path in table && Remapped(table[path], remap) != map[] :: Remapped(table[path], remap)
  }

  function Pruned(m: ImpactMap, collectable: set<NodeId>, present: Option<set<Path>>): ImpactMap {
    var remap := Renumbering(m.nodeids, collectable);
    var files := Remapped(Files(m.fileTests, present), remap);
    m.(nodeids := Kept(m.nodeids, collectable),
       fileTests := files,
       lineTests := RemappedNested(Files(m.lineTests, present), remap),
       scopeTests := RemappedNested(Files(m.scopeTests, present), remap),
       fileHashes := map path | path in m.fileHashes && path in files :: m.fileHashes[path],
       alwaysRun := set path | path in m.alwaysRun && Present(present, path))
  }

  method Renumber(ids: seq<NodeId>, collectable: set<NodeId>) returns (newIds: seq<NodeId>, remap: map<nat, nat>)
    ensures newIds == Kept(ids, collectable) && remap == Renumbering(ids, collectable)
  {
    newIds, remap := [], map[];
    for i := 0 to |ids|
      invariant newIds == Kept(ids[..i], collectable)
      invariant remap == map k: nat | k < i && ids[k] in collectable :: |Kept(ids[..k], collectable)|
    {
      assert ids[..i + 1][..i] == ids[..i];
      if ids[i] in collectable {
        remap := remap[i := |newIds|];
        newIds := newIds + [ids[i]];
      }
    }
    assert ids[..|ids|] == ids;
  }

  method RemapTable<K(==)>(table: map<K, set<nat>>, remap: map<nat, nat>) returns (out: map<K, set<nat>>)
    ensures out == Remapped(table, remap)
  {
    out := map[];
    var left := table.Items;
    while left != {}
      invariant left <= table.Items
      invariant forall k :: k in out <==> k in table && (k, table[k]) !in left && Remap(remap, table[k]) != {}
      invariant forall k :: k in out ==> out[k] == Remap(remap, table[k])
      decreases |left|
    {
      var item :| item in left;
      var kept := Remap(remap, item.1);
      if kept != {} {
        out := out[item.0 := kept];
      }
      left := left - {item};
    }
  }

  method RemapNested<K(==)>(table: map<Path, map<K, set<nat>>>, remap: map<nat, nat>, present: Option<set<Path>>)
    returns (out: map<Path, map<K, set<nat>>>)
    ensures out == RemappedNested(Files(table, present), remap)
  {
    hide Remapped, Present;
    out := map[];
    var left := table.Keys;
    while left != {}
      invariant left <= table.Keys
      invariant forall path :: path in out <==>
        path in table && path !in left && Present(present, path) && Remapped(table[path], remap) != map[]
      invariant forall path :: path in out ==> out[path] == Remapped(table[path], remap)
      decreases |left|
    {
      var path :| path in left;
      left := left - {path};
      if !Present(present, path) {
        continue;
      }
      var kept := RemapTable(table[path], remap);
      if kept != map[] {
        out := out[path := kept];
      }
    }
  }

  method PruneUncollectable(m: ImpactMap, collectable: set<NodeId>, present: Option<set<Path>>) returns (r: ImpactMap)
    ensures r == Pruned(m, collectable, present)
  {
    hide Remapped, RemappedNested, Renumbering, Kept;
    var newIds, remap := Renumber(m.nodeids, collectable);
    var files := RemapTable(Files(m.fileTests, present), remap);
    var lines := RemapNested(m.lineTests, remap, present);
    var scopes := RemapNested(m.scopeTests, remap, present);
    r := m.(nodeids := newIds, fileTests := files, lineTests := lines, scopeTests := scopes,
            fileHashes := map path | path in m.fileHashes && path in files :: m.fileHashes[path],
            alwaysRun := set path | path in m.alwaysRun && Present(present, path));
  }

  // ----- the renumbering -----

  lemma {:induction false} KeptSplit(ids: seq<NodeId>, collectable: set<NodeId>, i: nat)
    requires i < |ids|
    ensures var before, all := Kept(ids[..i], collectable), Kept(ids, collectable);
      && before <= all
      && (ids[i] in collectable ==> |before| < |all| && all[|before|] == ids[i])
    decreases |ids|
  {
    var n := |ids| - 1;
    if i < n {
      KeptSplit(ids[..n], collectable, i);
      assert ids[..n][..i] == ids[..i];
    }
  }

  lemma {:induction false} KeptIn(ids: seq<NodeId>, collectable: set<NodeId>)
    ensures forall t :: t in Kept(ids, collectable) <==> t in ids && t in collectable
    decreases |ids|
  {
    if ids != [] {
      var n := |ids| - 1;
      KeptIn(ids[..n], collectable);
      assert forall t :: t in ids <==> t in ids[..n] || t == ids[n];
    }
  }

  /** Every surviving index moves to where its id now stands, in the old order,
      and every new index comes from one. */
  lemma {:induction false} RenumberingIsIncreasing(ids: seq<NodeId>, collectable: set<NodeId>)
    ensures var remap, newIds := Renumbering(ids, collectable), Kept(ids, collectable);
      && (forall i :: i in remap ==> i < |ids| && remap[i] < |newIds| && newIds[remap[i]] == ids[i])
      && (forall i, j :: i in remap && j in remap && i < j ==> remap[i] < remap[j])
      && (forall k: nat :: k < |newIds| ==> k in remap.Values)
  {
    hide Kept;
    var remap, newIds := Renumbering(ids, collectable), Kept(ids, collectable);
    forall i | i in remap
      ensures remap[i] < |newIds| && newIds[remap[i]] == ids[i]
    {
      KeptSplit(ids, collectable, i);
    }
    forall i, j | i in remap && j in remap && i < j
      ensures remap[i] < remap[j]
    {
      assert ids[..j][..i] == ids[..i];
      KeptSplit(ids[..j], collectable, i);
    }
    forall k: nat | k < |newIds|
      ensures k in remap.Values
    {
      var i := Origin(ids, collectable, k);
      assert i in remap && remap[i] == k;
    }
  }

  lemma {:induction false} Origin(ids: seq<NodeId>, collectable: set<NodeId>, k: nat) returns (i: nat)
    requires k < |Kept(ids, collectable)|
    ensures i < |ids| && ids[i] in collectable && |Kept(ids[..i], collectable)| == k
    decreases |ids|
  {
    var n := |ids| - 1;
    if k < |Kept(ids[..n], collectable)| {
      i := Origin(ids[..n], collectable, k);
      assert ids[..n][..i] == ids[..i];
    } else {
      i := n;
    }
  }

  /** Renumbered indices name exactly the collectable tests the old ones named. */
  lemma {:induction false} RemapMeaning(ids: seq<NodeId>, collectable: set<NodeId>, indices: set<nat>)
    ensures Named(Kept(ids, collectable), Remap(Renumbering(ids, collectable), indices)) ==
      Named(ids, indices) * collectable
    ensures Remap(Renumbering(ids, collectable), indices) == {} <==> Named(ids, indices) * collectable == {}
  {
    hide Kept, Renumbering;
    var remap, newIds := Renumbering(ids, collectable), Kept(ids, collectable);
    RenumberingIsIncreasing(ids, collectable);
    RenumberingKeys(ids, collectable);
    forall t | t in Named(ids, indices) * collectable
      ensures t in Named(newIds, Remap(remap, indices)) && Remap(remap, indices) != {}
    {
      var i :| i in indices && i < |ids| && ids[i] == t;
      assert i in remap;
      assert remap[i] in Remap(remap, indices);
    }
    forall k | k in Remap(remap, indices)
      ensures k < |newIds| && newIds[k] in Named(ids, indices) * collectable
    {
      var i :| i in indices && i in remap && remap[i] == k;
      assert ids[i] in Named(ids, indices);
    }
  }

  lemma {:induction false} RenumberingKeys(ids: seq<NodeId>, collectable: set<NodeId>)
    ensures forall i: nat :: i in Renumbering(ids, collectable) <==> i < |ids| && ids[i] in collectable
  {
  }

  // ----- what pruning means -----

  /** Each key of each index now names the collectable part of what it named,
      and is gone exactly when that part is empty. */
  lemma {:induction false} PruneMeaning(m: ImpactMap, collectable: set<NodeId>, present: Option<set<Path>>, path: Path)
    requires Present(present, path)
    ensures var r := Pruned(m, collectable, present);
      && Named(r.nodeids, FileAt(r.fileTests, path)) == Named(m.nodeids, FileAt(m.fileTests, path)) * collectable
      && (path in r.fileTests <==> Named(m.nodeids, FileAt(m.fileTests, path)) * collectable != {})
      && (forall line :: LineMeaning(m, r, collectable, path, line))
      && (forall name :: ScopeMeaning(m, r, collectable, path, name))
  {
    hide Remap, Renumbering, Kept, Pruned, Named, FileAt, LineAt, ScopeAt;
    var r := Pruned(m, collectable, present);
    PrunedIds(m, collectable, present);
    FileAfter(m, collectable, present, path);
    RemapMeaning(m.nodeids, collectable, FileAt(m.fileTests, path));
    forall line
      ensures LineMeaning(m, r, collectable, path, line)
    {
      LineAfter(m, collectable, present, path, line);
      RemapMeaning(m.nodeids, collectable, LineAt(m.lineTests, path, line));
    }
    forall name
      ensures ScopeMeaning(m, r, collectable, path, name)
    {
      ScopeAfter(m, collectable, present, path, name);
      RemapMeaning(m.nodeids, collectable, ScopeAt(m.scopeTests, path, name));
    }
  }

  lemma {:induction false} PrunedIds(m: ImpactMap, collectable: set<NodeId>, present: Option<set<Path>>)
    ensures Pruned(m, collectable, present).nodeids == Kept(m.nodeids, collectable)
  {
    hide Kept, Renumbering, Remapped, RemappedNested;
  }

  lemma {:induction false} FileAfter(m: ImpactMap, collectable: set<NodeId>, present: Option<set<Path>>, path: Path)
    requires Present(present, path)
    ensures var r, remap := Pruned(m, collectable, present), Renumbering(m.nodeids, collectable);
      && FileAt(r.fileTests, path) == Remap(remap, FileAt(m.fileTests, path))
      && (path in r.fileTests <==> FileAt(r.fileTests, path) != {})
  {
    hide Kept, Renumbering, RemappedNested;
  }

  lemma {:induction false} LineAfter(
    m: ImpactMap, collectable: set<NodeId>, present: Option<set<Path>>, path: Path, line: int)
    requires Present(present, path)
    ensures var r, remap := Pruned(m, collectable, present), Renumbering(m.nodeids, collectable);
      && LineAt(r.lineTests, path, line) == Remap(remap, LineAt(m.lineTests, path, line))
      && (line in LinesOf(r.lineTests, path) <==> LineAt(r.lineTests, path, line) != {})
  {
    hide Kept, Renumbering;
  }

  lemma {:induction false} ScopeAfter(
    m: ImpactMap, collectable: set<NodeId>, present: Option<set<Path>>, path: Path, name: string)
    requires Present(present, path)
    ensures var r, remap := Pruned(m, collectable, present), Renumbering(m.nodeids, collectable);
      && ScopeAt(r.scopeTests, path, name) == Remap(remap, ScopeAt(m.scopeTests, path, name))
      && (name in ScopesAt(r.scopeTests, path) <==> ScopeAt(r.scopeTests, path, name) != {})
  {
    hide Kept, Renumbering;
  }

  ghost predicate LineMeaning(m: ImpactMap, r: ImpactMap, collectable: set<NodeId>, path: Path, line: int) {
    && Named(r.nodeids, LineAt(r.lineTests, path, line)) ==
      Named(m.nodeids, LineAt(m.lineTests, path, line)) * collectable
    && (line in LinesOf(r.lineTests, path) <==> Named(m.nodeids, LineAt(m.lineTests, path, line)) * collectable != {})
  }

  ghost predicate ScopeMeaning(m: ImpactMap, r: ImpactMap, collectable: set<NodeId>, path: Path, name: string) {
    && Named(r.nodeids, ScopeAt(r.scopeTests, path, name)) ==
      Named(m.nodeids, ScopeAt(m.scopeTests, path, name)) * collectable
    && (name in ScopesAt(r.scopeTests, path) <==>
        Named(m.nodeids, ScopeAt(m.scopeTests, path, name)) * collectable != {})
  }

  /** Files that are gone lose their entries altogether. */
  lemma {:induction false} AbsentFilesGo(m: ImpactMap, collectable: set<NodeId>, present: Option<set<Path>>, path: Path)
    requires !Present(present, path)
    ensures var r := Pruned(m, collectable, present);
      path !in r.fileTests && path !in r.lineTests && path !in r.scopeTests && path !in r.fileHashes &&
        path !in r.alwaysRun
  {
  }

  /** What else a pruned map holds: the collectable ids, the guards whose files
      are there, the digests of the files that keep an entry, and the old base. */
  lemma {:induction false} PruneKeepsRest(m: ImpactMap, collectable: set<NodeId>, present: Option<set<Path>>)
    ensures var r := Pruned(m, collectable, present);
      && r.baseSha == m.baseSha
      && (forall t :: t in r.nodeids <==> t in m.nodeids && t in collectable)
      && (forall path :: path in r.alwaysRun <==>
            path in m.alwaysRun && (present == None || path in present.value))
      && (forall path :: path in r.fileHashes <==> path in m.fileHashes && path in r.fileTests)
      && (forall path :: path in r.fileHashes ==> r.fileHashes[path] == m.fileHashes[path])
      && (forall path :: path in r.lineTests ==> path in m.lineTests && r.lineTests[path] != map[])
      && (forall path :: path in r.scopeTests ==> path in m.scopeTests && r.scopeTests[path] != map[])
  {
    hide Remapped, Renumbering, Kept;
    KeptIn(m.nodeids, collectable);
  }

  /** Pruning twice is pruning once. */
  lemma {:induction false} PruneIsIdempotent(m: ImpactMap, collectable: set<NodeId>, present: Option<set<Path>>)
    ensures var once := Pruned(m, collectable, present);
      Pruned(once, collectable, present) == once
  {
    hide Kept, Renumbering, Remapped, RemappedNested, Remap;
    var once := Pruned(m, collectable, present);
    KeptAgain(m.nodeids, collectable);
    var remap, again := Renumbering(m.nodeids, collectable), Renumbering(once.nodeids, collectable);
    RemappedAgain(Files(m.fileTests, present), m.nodeids, collectable);
    NestedAgain(Files(m.lineTests, present), m.nodeids, collectable);
    NestedAgain(Files(m.scopeTests, present), m.nodeids, collectable);
    FilesAgain(once.fileTests, present, Files(m.fileTests, present).Keys);
    FilesAgain(once.lineTests, present, Files(m.lineTests, present).Keys);
    FilesAgain(once.scopeTests, present, Files(m.scopeTests, present).Keys);
  }

  lemma {:induction false} FilesAgain<T>(table: map<Path, T>, present: Option<set<Path>>, known: set<Path>)
    requires table.Keys <= known && forall path :: path in known ==> Present(present, path)
    ensures Files(table, present) == table
  {
  }

  lemma {:induction false} KeptAgain(ids: seq<NodeId>, collectable: set<NodeId>)
    ensures Kept(Kept(ids, collectable), collectable) == Kept(ids, collectable)
  {
    KeptIn(ids, collectable);
    AllKept(Kept(ids, collectable), collectable);
  }

  lemma {:induction false} AllKept(ids: seq<NodeId>, collectable: set<NodeId>)
    requires forall t :: t in ids ==> t in collectable
    ensures Kept(ids, collectable) == ids
    decreases |ids|
  {
    if ids != [] {
      var n := |ids| - 1;
      AllKept(ids[..n], collectable);
      assert ids == ids[..n] + [ids[n]];
    }
  }

  /** The second renumbering moves nothing. */
  lemma {:induction false} StaysPut(ids: seq<NodeId>, collectable: set<NodeId>, indices: set<nat>)
    ensures var newIds := Kept(ids, collectable);
      var moved := Remap(Renumbering(ids, collectable), indices);
      Remap(Renumbering(newIds, collectable), moved) == moved
  {
    hide Kept, Renumbering;
    var newIds := Kept(ids, collectable);
    var moved := Remap(Renumbering(ids, collectable), indices);
    RenumberingIsIncreasing(ids, collectable);
    KeptIn(ids, collectable);
    forall k | k in moved
      ensures k in Renumbering(newIds, collectable) && Renumbering(newIds, collectable)[k] == k
    {
      PutAt(newIds, collectable, k);
    }
  }

  lemma {:induction false} PutAt(ids: seq<NodeId>, collectable: set<NodeId>, k: nat)
    requires k < |ids| && forall t :: t in ids ==> t in collectable
    ensures k in Renumbering(ids, collectable) && Renumbering(ids, collectable)[k] == k
  {
    assert forall t :: t in ids[..k] ==> t in ids;
    AllKept(ids[..k], collectable);
  }

  lemma {:induction false} RemappedAgain<K>(table: map<K, set<nat>>, ids: seq<NodeId>, collectable: set<NodeId>)
    ensures var once := Remapped(table, Renumbering(ids, collectable));
      Remapped(once, Renumbering(Kept(ids, collectable), collectable)) == once
    ensures Remapped(table, Renumbering(ids, collectable)).Keys <= table.Keys
  {
    hide Kept, Renumbering, Remap;
    var once := Remapped(table, Renumbering(ids, collectable));
    forall k | k in once
      ensures Remap(Renumbering(Kept(ids, collectable), collectable), once[k]) == once[k]
    {
      StaysPut(ids, collectable, table[k]);
    }
  }

  lemma {:induction false} NestedAgain<K>(
    table: map<Path, map<K, set<nat>>>, ids: seq<NodeId>, collectable: set<NodeId>)
    ensures var once := RemappedNested(table, Renumbering(ids, collectable));
      RemappedNested(once, Renumbering(Kept(ids, collectable), collectable)) == once
    ensures RemappedNested(table, Renumbering(ids, collectable)).Keys <= table.Keys
  {
    hide Kept, Renumbering, Remapped;
    var once := RemappedNested(table, Renumbering(ids, collectable));
    forall path | path in once
      ensures Remapped(once[path], Renumbering(Kept(ids, collectable), collectable)) == once[path]
    {
      RemappedAgain(table[path], ids, collectable);
    }
  }
}
