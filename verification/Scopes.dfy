/** The named scopes of a source file, and the narrowest one around a line. */
module Scopes {
  import opened Outcomes

  /** A syntax tree as far as scopes go: definitions, which may lack an end, and anything else. */
  datatype Node =
    | Def(name: string, first: int, last: Option<int>, children: seq<Node>)
    | Other(children: seq<Node>)

  datatype Scope = Scope(name: string, first: int, last: int)

  /** A dictionary from names to spans, in the order the names were first assigned. */
  type Table = seq<Scope>

  ghost predicate NamesDiffer(table: Table) {
    forall i, j :: 0 <= i < j < |table| ==> table[i].name != table[j].name
  }

  function Assign(table: Table, s: Scope): Table {
    if table == [] then [s]
    else if table[0].name == s.name then [s] + table[1..]
    else [table[0]] + Assign(table[1..], s)
  }

  function AssignAll(table: Table, defs: seq<Scope>): Table {
    if defs == [] then table else Assign(AssignAll(table, defs[..|defs| - 1]), defs[|defs| - 1])
  }

  /** Every definition that has an end, outer before inner, in source order. */
  function Defs(nodes: seq<Node>, prefix: string): seq<Scope>
    decreases nodes
  {
    if nodes == [] then [] else DefsOf(nodes[0], prefix) + Defs(nodes[1..], prefix)
  }

  function DefsOf(node: Node, prefix: string): seq<Scope>
    decreases node
  {
    match node
    case Def(name, first, last, children) =>
      (match last case Some(end) => [Scope(prefix + name, first, end)] case None => []) +
      Defs(children, prefix + name + ".")
    case Other(children) => Defs(children, prefix)
  }

  function ScopesOf(tree: seq<Node>): Table {
    AssignAll([], Defs(tree, ""))
  }

  /** Walk the tree and assign every definition's span to its qualified name. */
  method FileScopes(tree: seq<Node>) returns (scopes: Table)
    ensures scopes == ScopesOf(tree)
  {
    scopes := Walk(tree, "", []);
  }

  method Walk(nodes: seq<Node>, prefix: string, before: Table) returns (scopes: Table)
    ensures scopes == AssignAll(before, Defs(nodes, prefix))
    decreases nodes
  {
    hide Assign, AssignAll, Defs;
    scopes := before;
    DefsNothing(prefix);
    AssignNothing(before);
    for i := 0 to |nodes|
      invariant scopes == AssignAll(before, Defs(nodes[..i], prefix))
    {
      var node := nodes[i];
      DefsSnoc(nodes, i, prefix);
      ghost var done := Defs(nodes[..i], prefix);
      match node {
        case Def(name, first, last, children) =>
          var qualified := prefix + name;
          if last.Some? {
            AssignSnoc(before, done, Scope(qualified, first, last.value));
            scopes := AssignOne(scopes, Scope(qualified, first, last.value));
            done := done + [Scope(qualified, first, last.value)];
          }
          scopes := Walk(children, qualified + ".", scopes);
          AssignConcat(before, done, Defs(children, qualified + "."));
          assert Defs(nodes[..i + 1], prefix) == done + Defs(children, qualified + ".");
        case Other(children) =>
          scopes := Walk(children, prefix, scopes);
          AssignConcat(before, done, Defs(children, prefix));
      }
    }
    assert nodes[..|nodes|] == nodes;
  }

  /** A dictionary assignment: the value changes in place, a new name goes last. */
  method AssignOne(table: Table, s: Scope) returns (out: Table)
    ensures out == Assign(table, s)
  {
    hide Assign;
    assert table[0..] == table;
    for i := 0 to |table|
      invariant Assign(table, s) == table[..i] + Assign(table[i..], s)
    {
      AssignUnfolds(table[i..], s);
      assert table[i..][1..] == table[i + 1..];
      if table[i].name == s.name {
        return table[i := s];
      }
    }
    AssignUnfolds(table[|table|..], s);
    return table + [s];
  }

  lemma {:induction false} AssignUnfolds(table: Table, s: Scope)
    ensures table == [] ==> Assign(table, s) == [s]
    ensures table != [] && table[0].name == s.name ==> Assign(table, s) == [s] + table[1..]
    ensures table != [] && table[0].name != s.name ==> Assign(table, s) == [table[0]] + Assign(table[1..], s)
  {
  }

  lemma {:induction false} AssignNothing(table: Table)
    ensures AssignAll(table, []) == table
  {
  }

  lemma {:induction false} AssignSnoc(table: Table, defs: seq<Scope>, s: Scope)
    ensures AssignAll(table, defs + [s]) == Assign(AssignAll(table, defs), s)
  {
    assert (defs + [s])[..|defs|] == defs;
  }

  lemma {:induction false} AssignConcat(table: Table, a: seq<Scope>, b: seq<Scope>)
    ensures AssignAll(table, a + b) == AssignAll(AssignAll(table, a), b)
    decreases |b|
  {
    hide Assign;
    if b == [] {
      assert a + b == a;
    } else {
      var n := |b| - 1;
      AssignConcat(table, a, b[..n]);
      assert a + b == (a + b[..n]) + [b[n]];
      AssignSnoc(table, a + b[..n], b[n]);
    }
  }

  lemma {:induction false} DefsNothing(prefix: string)
    ensures Defs([], prefix) == []
  {
  }

  lemma {:induction false} DefsUnfolds(nodes: seq<Node>, prefix: string)
    requires nodes != []
    ensures Defs(nodes, prefix) == DefsOf(nodes[0], prefix) + Defs(nodes[1..], prefix)
  {
  }

  lemma {:induction false} DefsSnoc(nodes: seq<Node>, i: nat, prefix: string)
    requires i < |nodes|
    ensures Defs(nodes[..i + 1], prefix) == Defs(nodes[..i], prefix) + DefsOf(nodes[i], prefix)
    decreases i
  {
    hide Defs, DefsOf;
    DefsUnfolds(nodes[..i + 1], prefix);
    if i == 0 {
      DefsNothing(prefix);
      assert nodes[..1][1..] == [];
      assert nodes[..0] == [];
    } else {
      DefsSnoc(nodes[1..], i - 1, prefix);
      DefsUnfolds(nodes[..i], prefix);
      assert nodes[..i + 1][1..] == nodes[1..][..i];
      assert nodes[..i][1..] == nodes[1..][..i - 1];
    }
  }

  // ----- qualified names -----

  /** A way down the tree, from one of the nodes to one below it. */
  ghost predicate IsTrail(nodes: seq<Node>, trail: seq<Node>) {
    && trail != [] && trail[0] in nodes
    && forall i :: 0 <= i < |trail| - 1 ==> trail[i + 1] in trail[i].children
  }

  /** The names of the definitions on the way. */
  function Names(trail: seq<Node>): seq<string> {
    if trail == [] then [] else (if trail[0].Def? then [trail[0].name] else []) + Names(trail[1..])
  }

  function Dotted(names: seq<string>): string {
    if names == [] then ""
    else if |names| == 1 then names[0]
    else names[0] + "." + Dotted(names[1..])
  }

  /** The trail leads to a definition with that span. */
  ghost predicate LeadsTo(trail: seq<Node>, s: Scope)
    requires trail != []
  {
    var node := trail[|trail| - 1];
    node.Def? && node.first == s.first && node.last == Some(s.last)
  }

  ghost predicate IsReached(nodes: seq<Node>, prefix: string, s: Scope) {
    exists trail :: IsTrail(nodes, trail) && LeadsTo(trail, s) && s.name == prefix + Dotted(Names(trail))
  }

  /** The definitions are those some way down the tree leads to, each under the
      names of the definitions it passes, joined by dots. */
  lemma {:induction false} DefsExactly(nodes: seq<Node>, prefix: string, s: Scope)
    ensures s in Defs(nodes, prefix) <==> IsReached(nodes, prefix, s)
    decreases nodes
  {
    hide Defs, IsReached, Dotted, Names;
    if nodes == [] {
      DefsNothing(prefix);
      NothingReached(prefix, s);
    } else {
      DefsUnfolds(nodes, prefix);
      DefsExactly(nodes[1..], prefix, s);
      var node := nodes[0];
      match node {
        case Def(name, first, last, children) =>
          DefsExactly(children, prefix + name + ".", s);
        case Other(children) =>
          DefsExactly(children, prefix, s);
      }
      NodeReached(node, prefix, s);
      ReachedOnce(nodes, prefix, s);
    }
  }

  lemma {:induction false} NothingReached(prefix: string, s: Scope)
    ensures !IsReached([], prefix, s)
  {
  }

  lemma {:induction false} ReachedOnce(nodes: seq<Node>, prefix: string, s: Scope)
    requires nodes != []
    ensures IsReached(nodes, prefix, s) <==> IsReached([nodes[0]], prefix, s) || IsReached(nodes[1..], prefix, s)
  {
    assert nodes == [nodes[0]] + nodes[1..];
    if IsReached(nodes, prefix, s) {
      var trail :| IsTrail(nodes, trail) && LeadsTo(trail, s) && s.name == prefix + Dotted(Names(trail));
      assert IsTrail([nodes[0]], trail) || IsTrail(nodes[1..], trail);
    }
    if IsReached([nodes[0]], prefix, s) {
      var trail :| IsTrail([nodes[0]], trail) && LeadsTo(trail, s) && s.name == prefix + Dotted(Names(trail));
      assert IsTrail(nodes, trail);
    }
    if IsReached(nodes[1..], prefix, s) {
      var trail :| IsTrail(nodes[1..], trail) && LeadsTo(trail, s) && s.name == prefix + Dotted(Names(trail));
      assert IsTrail(nodes, trail);
    }
  }

  function Below(node: Node, prefix: string): string {
    if node.Def? then prefix + node.name + "." else prefix
  }

  /** A node itself, if it is a definition, and what its children lead to. */
  lemma {:induction false} NodeReached(node: Node, prefix: string, s: Scope)
    ensures IsReached([node], prefix, s) <==>
      || (node.Def? && node.last == Some(s.last) && s.first == node.first && s.name == prefix + node.name)
      || IsReached(node.children, Below(node, prefix), s)
  {
    hide Dotted, Names, Below;
    if IsReached([node], prefix, s) {
      var trail :| IsTrail([node], trail) && LeadsTo(trail, s) && s.name == prefix + Dotted(Names(trail));
      assert trail == [node] + trail[1..];
      if |trail| > 1 {
        TrailDown(node, trail[1..], prefix, s);
        assert IsTrail(node.children, trail[1..]);
        assert LeadsTo(trail[1..], s);
      } else {
        assert trail == [node];
        OneNode(node, prefix);
      }
    }
    if node.Def? && node.last == Some(s.last) && s.first == node.first && s.name == prefix + node.name {
      OneNode(node, prefix);
      assert IsTrail([node], [node]) && LeadsTo([node], s);
    }
    if IsReached(node.children, Below(node, prefix), s) {
      ReachedAbove(node, prefix, s);
    }
  }

  lemma {:induction false} OneNode(node: Node, prefix: string)
    ensures node.Def? ==> prefix + Dotted(Names([node])) == prefix + node.name
  {
    assert [node][1..] == [];
  }

  lemma {:induction false} ReachedAbove(node: Node, prefix: string, s: Scope)
    requires IsReached(node.children, Below(node, prefix), s)
    ensures IsReached([node], prefix, s)
  {
    hide Dotted, Names, Below;
    var rest :| IsTrail(node.children, rest) && LeadsTo(rest, s) &&
                s.name == Below(node, prefix) + Dotted(Names(rest));
    TrailDown(node, rest, prefix, s);
    assert IsTrail([node], [node] + rest) && LeadsTo([node] + rest, s);
  }

  lemma {:induction false} TrailDown(node: Node, rest: seq<Node>, prefix: string, s: Scope)
    requires rest != [] && LeadsTo(rest, s)
    ensures prefix + Dotted(Names([node] + rest)) == Below(node, prefix) + Dotted(Names(rest))
  {
    hide Dotted;
    var trail := [node] + rest;
    assert trail[1..] == rest;
    NamedAtTheEnd(rest, s);
    if node.Def? {
      DottedUnfolds(node.name, Names(rest));
    } else {
      assert Names(trail) == [] + Names(rest) == Names(rest);
    }
  }

  lemma {:induction false} NamedAtTheEnd(trail: seq<Node>, s: Scope)
    requires trail != [] && LeadsTo(trail, s)
    ensures Names(trail) != []
  {
    if |trail| > 1 {
      NamedAtTheEnd(trail[1..], s);
    }
  }

  lemma {:induction false} DottedUnfolds(name: string, names: seq<string>)
    requires names != []
    ensures forall prefix: string :: prefix + Dotted([name] + names) == prefix + name + "." + Dotted(names)
  {
    assert ([name] + names)[1..] == names;
  }

  // ----- what the table holds -----

  /** The last definition of a name is the one the table keeps. */
  ghost predicate LastOf(defs: seq<Scope>, s: Scope) {
    exists i :: 0 <= i < |defs| && defs[i] == s && forall j :: i < j < |defs| ==> defs[j].name != s.name
  }

  lemma {:induction false} AssignKeeps(table: Table, s: Scope)
    requires NamesDiffer(table)
    ensures NamesDiffer(Assign(table, s))
    ensures forall e :: e in Assign(table, s) <==> e == s || (e in table && e.name != s.name)
  {
    if table != [] {
      AssignKeeps(table[1..], s);
      if table[0].name == s.name {
        assert forall e :: e in table[1..] ==> e.name != s.name;
      } else {
        assert table == [table[0]] + table[1..];
        assert forall k :: 0 <= k < |Assign(table[1..], s)| ==> Assign(table[1..], s)[k] in Assign(table[1..], s);
      }
    }
  }

  /** A scope is in the table exactly when it is the last definition of its name. */
  lemma {:induction false} LastDefinitionWins(defs: seq<Scope>)
    ensures NamesDiffer(AssignAll([], defs))
    ensures forall s :: s in AssignAll([], defs) <==> LastOf(defs, s)
    decreases |defs|
  {
    hide Assign;
    if defs != [] {
      var n := |defs| - 1;
      LastDefinitionWins(defs[..n]);
      AssignKeeps(AssignAll([], defs[..n]), defs[n]);
      forall s
        ensures LastOf(defs, s) <==> s == defs[n] || (LastOf(defs[..n], s) && s.name != defs[n].name)
      {
        LastOfSnoc(defs, s);
      }
    }
  }

  lemma {:induction false} LastOfSnoc(defs: seq<Scope>, s: Scope)
    requires defs != []
    ensures var n := |defs| - 1;
      LastOf(defs, s) <==> s == defs[n] || (LastOf(defs[..n], s) && s.name != defs[n].name)
  {
    var n := |defs| - 1;
    if s == defs[n] {
      assert LastOf(defs, s);
    } else if LastOf(defs, s) {
      var i :| 0 <= i < |defs| && defs[i] == s && forall j :: i < j < |defs| ==> defs[j].name != s.name;
      assert defs[..n][i] == s;
      assert defs[n].name != s.name;
    }
    if LastOf(defs[..n], s) && s.name != defs[n].name {
      var i :| 0 <= i < n && defs[..n][i] == s && forall j :: i < j < n ==> defs[..n][j].name != s.name;
      assert forall j :: i < j < n ==> defs[j] == defs[..n][j];
      assert defs[i] == s;
    }
  }

  // ----- the narrowest scope around a line -----

  predicate Around(s: Scope, line: int) {
    s.first <= line <= s.last
  }

  function Width(s: Scope): int {
    s.last - s.first
  }

  /** The first of the narrowest scopes around the line. */
  function Narrowest(scopes: Table, line: int): Option<Scope> {
    if scopes == [] then None
    else
      var n := |scopes| - 1;
      var best := Narrowest(scopes[..n], line);
      if Around(scopes[n], line) &&
        (best == None || Width(scopes[n]) < Width(best.value)) then Some(scopes[n]) else best
  }

  function Innermost(scopes: Table, line: int): Option<string> {
    match Narrowest(scopes, line)
    case Some(s) => Some(s.name)
    case None => None
  }

  method FindInnermost(scopes: Table, line: int) returns (best: Option<string>)
    ensures best == Innermost(scopes, line)
  {
    var span := 0;
    best := None;
    for i := 0 to |scopes|
      invariant best == Innermost(scopes[..i], line)
      invariant best.Some? ==> span == Width(Narrowest(scopes[..i], line).value)
    {
      var s := scopes[i];
      assert scopes[..i + 1][..i] == scopes[..i];
      if s.first <= line <= s.last && (best == None || s.last - s.first < span) {
        best, span := Some(s.name), s.last - s.first;
      }
    }
    assert scopes[..|scopes|] == scopes;
  }

  /** No scope is around the line exactly when none is found; what is found is
      around it, none around it is narrower, and earlier ones are wider. */
  lemma {:induction false} NarrowestIsInnermost(scopes: Table, line: int)
    ensures Narrowest(scopes, line) == None <==> forall i :: 0 <= i < |scopes| ==> !Around(scopes[i], line)
    ensures Narrowest(scopes, line).Some? ==>
      exists i :: 0 <= i < |scopes| && IsInnermost(scopes, line, i) && Narrowest(scopes, line) == Some(scopes[i])
  {
    hide Narrowest, Around, IsInnermost;
    var i := InnermostAt(scopes, line);
    if i == |scopes| {
    } else {
      InnermostIsAround(scopes, line, i);
    }
  }

  lemma {:induction false} InnermostIsAround(scopes: Table, line: int, i: nat)
    requires IsInnermost(scopes, line, i)
    ensures i < |scopes| && Around(scopes[i], line)
  {
  }

  /** Where the narrowest scope stands; the table's length when there is none. */
  lemma {:induction false} InnermostAt(scopes: Table, line: int) returns (i: nat)
    ensures i == |scopes| ==>
      Narrowest(scopes, line) == None && forall j :: 0 <= j < |scopes| ==> !Around(scopes[j], line)
    ensures i != |scopes| ==> i < |scopes| && IsInnermost(scopes, line, i) && Narrowest(scopes, line) == Some(scopes[i])
    decreases |scopes|
  {
    hide Around, Width, IsInnermost;
    i := |scopes|;
    if scopes != [] {
      var n := |scopes| - 1;
      var before := scopes[..n];
      var k := InnermostAt(before, line);
      assert forall j :: 0 <= j < n ==> before[j] == scopes[j];
      if k == n {
        if Around(scopes[n], line) {
          LastIsInnermost(scopes, line);
          i := n;
        }
      } else {
        InnermostIsAround(before, line, k);
        if Around(scopes[n], line) && Width(scopes[n]) < Width(scopes[k]) {
          NarrowerIsInnermost(scopes, line, k);
          i := n;
        } else {
          StillInnermost(scopes, line, k);
          i := k;
        }
      }
    }
  }

  lemma {:induction false} LastIsInnermost(scopes: Table, line: int)
    requires scopes != [] && Around(scopes[|scopes| - 1], line)
    requires forall j :: 0 <= j < |scopes| - 1 ==> !Around(scopes[j], line)
    ensures IsInnermost(scopes, line, |scopes| - 1)
  {
    hide Around, Width;
  }

  lemma {:induction false} NarrowerIsInnermost(scopes: Table, line: int, k: nat)
    requires scopes != [] && IsInnermost(scopes[..|scopes| - 1], line, k)
    requires Around(scopes[|scopes| - 1], line) && Width(scopes[|scopes| - 1]) < Width(scopes[k])
    ensures IsInnermost(scopes, line, |scopes| - 1)
  {
    hide Around, Width;
    forall j | 0 <= j < |scopes| - 1 && Around(scopes[j], line)
      ensures Width(scopes[|scopes| - 1]) < Width(scopes[j])
    {
      assert scopes[..|scopes| - 1][j] == scopes[j];
    }
  }

  lemma {:induction false} StillInnermost(scopes: Table, line: int, k: nat)
    requires scopes != [] && IsInnermost(scopes[..|scopes| - 1], line, k)
    requires Around(scopes[|scopes| - 1], line) ==> Width(scopes[k]) <= Width(scopes[|scopes| - 1])
    ensures IsInnermost(scopes, line, k)
  {
    hide Around, Width;
    forall j | 0 <= j < |scopes| && Around(scopes[j], line)
      ensures Width(scopes[k]) <= Width(scopes[j]) && (j < k ==> Width(scopes[k]) < Width(scopes[j]))
    {
      if j < |scopes| - 1 {
        assert scopes[..|scopes| - 1][j] == scopes[j];
      }
    }
  }

  ghost predicate IsInnermost(scopes: Table, line: int, i: nat) {
    && i < |scopes| && Around(scopes[i], line)
    && (forall j :: 0 <= j < |scopes| && Around(scopes[j], line) ==> Width(scopes[i]) <= Width(scopes[j]))
    && (forall j :: 0 <= j < i && Around(scopes[j], line) ==> Width(scopes[i]) < Width(scopes[j]))
  }

  /** The innermost scope in terms of spans: none is found exactly when no span
      holds the line; the one found does, no span that does is shorter, and the
      earlier ones are longer. */
  lemma {:induction false} InnermostExactly(scopes: Table, line: int)
    ensures Innermost(scopes, line) == None <==>
      forall i :: 0 <= i < |scopes| ==> line < scopes[i].first || scopes[i].last < line
    ensures Innermost(scopes, line).Some? ==>
      exists i :: 0 <= i < |scopes| && IsShortest(scopes, line, i) && Innermost(scopes, line) == Some(scopes[i].name)
  {
    hide Narrowest;
    NarrowestIsInnermost(scopes, line);
    if Narrowest(scopes, line).Some? {
      var i :| 0 <= i < |scopes| && IsInnermost(scopes, line, i) && Narrowest(scopes, line) == Some(scopes[i]);
      assert IsShortest(scopes, line, i);
    }
  }

  ghost predicate IsShortest(scopes: Table, line: int, i: int)
    requires 0 <= i < |scopes|
  {
    && scopes[i].first <= line <= scopes[i].last
    && forall j :: 0 <= j < |scopes| && scopes[j].first <= line <= scopes[j].last ==>
         if j < i then scopes[i].last - scopes[i].first < scopes[j].last - scopes[j].first
         else scopes[i].last - scopes[i].first <= scopes[j].last - scopes[j].first
  }
}
