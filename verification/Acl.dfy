/** Access decisions over a tree of resources, with roles that may form cycles. */
module Acl {
  import opened Collections
  import opened Outcomes

  /** The segments of a canonical resource path, outermost first. */
  type Path = seq<string>

  datatype AclError = UnknownPermission | EmptyPath | EmptyIdentifier | SlashInIdentifier

  const PERMISSIONS: set<string> :=
    {"read", "append", "create", "update", "write", "stop", "start", "control", "grant"}

  // ----- one path per object -----

  /** The kinds of object that have a path, with their identifiers as given. */
  datatype Object =
    | Fleet
    | Project(project: string)
    | Task(project: string, taskId: string)
    | TaskEvidence(project: string, taskId: string)
    | Agent(agentId: string)
    | Machine(machineId: string)
    | Secret(name: string)
    | Workflow(workflowId: string)

  /** What Python's `str.strip` removes. */
  predicate Blank(c: char) {
    || c == ' ' || '\t' <= c <= '\r' || '\U{1c}' <= c <= '\U{1f}'
    || c == '\U{85}' || c == '\U{a0}' || c == '\U{1680}' || '\U{2000}' <= c <= '\U{200a}'
    || c == '\U{2028}' || c == '\U{2029}' || c == '\U{202f}' || c == '\U{205f}' || c == '\U{3000}'
  }

  function StripFront(s: string): string {
    if s != [] && Blank(s[0]) then StripFront(s[1..]) else s
  }

  function StripBack(s: string): string {
    if s != [] && Blank(s[|s| - 1]) then StripBack(s[..|s| - 1]) else s
  }

  function Strip(s: string): string {
    StripBack(StripFront(s))
  }

  function Segment(value: string): Result<string, AclError> {
    if Strip(value) == "" then Err(EmptyIdentifier)
    else if '/' in value then Err(SlashInIdentifier)
    else Ok(Strip(value))
  }

  function Under(parent: Path, kind: string, id: string): Result<Path, AclError> {
    match Segment(id)
    case Ok(segment) => Ok(parent + [kind, segment])
    case Err(error) => Err(error)
  }

  const FLEET: Path := ["fleet"]

  function TaskPath(project: string, taskId: string): Result<Path, AclError> {
    match Under(FLEET, "project", project)
    case Ok(path) => Under(path, "task", taskId)
    case Err(error) => Err(error)
  }

  function PathOf(o: Object): Result<Path, AclError> {
    match o
    case Fleet => Ok(FLEET)
    case Project(p) => Under(FLEET, "project", p)
    case Task(p, t) => TaskPath(p, t)
    case TaskEvidence(p, t) =>
      (match TaskPath(p, t)
       case Ok(task) => Ok(task + ["evidence"])
       case Err(error) => Err(error))
    case Agent(a) => Under(FLEET, "agent", a)
    case Machine(m) => Under(FLEET, "machine", m)
    case Secret(s) => Under(FLEET, "secret", s)
    case Workflow(w) => Under(FLEET, "workflow", w)
  }

  /** Two identifiers that differ only in outer blanks name the same object. */
  function Canonical(o: Object): Object {
    match o
    case Fleet => Fleet
    case Project(p) => Project(Strip(p))
    case Task(p, t) => Task(Strip(p), Strip(t))
    case TaskEvidence(p, t) => TaskEvidence(Strip(p), Strip(t))
    case Agent(a) => Agent(Strip(a))
    case Machine(m) => Machine(Strip(m))
    case Secret(s) => Secret(Strip(s))
    case Workflow(w) => Workflow(Strip(w))
  }

  /** What an object is inside of, in the terms of the program. */
  predicate Contains(outer: Object, inner: Object) {
    || outer == inner
    || outer == Fleet
    || (outer.Project? && (inner.Task? || inner.TaskEvidence?) && inner.project == outer.project)
    || (outer.Task? && inner == TaskEvidence(outer.project, outer.taskId))
  }

  /** A grant on one object reaches another by inheritance exactly when the
      first is the second, the fleet, its project, or its task. */
  lemma {:induction false} InheritanceFollowsContainment(outer: Object, inner: Object)
    requires PathOf(outer).Ok? && PathOf(inner).Ok?
    ensures PathOf(outer).value <= PathOf(inner).value <==> Contains(Canonical(outer), Canonical(inner))
  {
    hide Strip;
    CanonicalForm(outer);
    CanonicalForm(inner);
    FormsNest(Canonical(outer), Canonical(inner));
  }

  /** The path of an object whose identifiers have no outer blanks. */
  function Form(o: Object): Path {
    match o
    case Fleet => FLEET
    case Project(p) => ["fleet", "project", p]
    case Task(p, t) => ["fleet", "project", p, "task", t]
    case TaskEvidence(p, t) => ["fleet", "project", p, "task", t, "evidence"]
    case Agent(a) => ["fleet", "agent", a]
    case Machine(m) => ["fleet", "machine", m]
    case Secret(s) => ["fleet", "secret", s]
    case Workflow(w) => ["fleet", "workflow", w]
  }

  lemma {:induction false} CanonicalForm(o: Object)
    requires PathOf(o).Ok?
    ensures PathOf(o).value == Form(Canonical(o))
  {
    hide Strip;
  }

  lemma {:induction false} FormsNest(outer: Object, inner: Object)
    ensures Form(outer) <= Form(inner) <==> Contains(outer, inner)
  {
    var kinds := ["project", "agent", "machine", "secret", "workflow"];
    assert kinds[0][0] == 'p' && kinds[1][0] == 'a' && kinds[2][0] == 'm' && kinds[3][0] == 's' && kinds[4][0] == 'w';
    var a, b := Form(outer), Form(inner);
    if a <= b {
      assert |a| > 1 ==> a[1] == b[1] && a[2] == b[2];
      assert |a| > 4 ==> a[4] == b[4];
    }
    assert Contains(outer, inner) ==> a == b[..|a|];
  }

  /** Exactly one path per object: distinct objects never share one. */
  lemma {:induction false} OnePathPerObject(a: Object, b: Object)
    requires PathOf(a).Ok? && PathOf(b).Ok?
    ensures PathOf(a) == PathOf(b) <==> Canonical(a) == Canonical(b)
  {
    hide PathOf, Canonical;
    InheritanceFollowsContainment(a, b);
    InheritanceFollowsContainment(b, a);
    if PathOf(a) == PathOf(b) {
      MutualContainment(Canonical(a), Canonical(b));
    }
    if Canonical(a) == Canonical(b) {
      MutualPrefix(PathOf(a).value, PathOf(b).value);
    }
  }

  lemma {:induction false} MutualPrefix(a: Path, b: Path)
    requires a <= b && b <= a
    ensures a == b
  {
  }

  lemma {:induction false} MutualContainment(a: Object, b: Object)
    requires Contains(a, b) && Contains(b, a)
    ensures a == b
  {
  }

  /** The path and every ancestor, longest first. */
  method Ancestors(path: Path) returns (out: seq<Path>)
    ensures |out| == |path|
    ensures forall i :: 0 <= i < |out| ==> out[i] == path[..|path| - i]
  {
    out := [];
    var i := |path|;
    while i > 0
      invariant 0 <= i <= |path| && |out| == |path| - i
      invariant forall k :: 0 <= k < |out| ==> out[k] == path[..|path| - k]
    {
      out := out + [path[..i]];
      i := i - 1;
    }
  }

  // ----- roles -----

  type Roles = map<string, seq<string>>

  function RolesOf(roles: Roles, principal: string): seq<string> {
    if principal in roles then roles[principal] else []
  }

  /** A chain of memberships from one principal to another. */
  ghost predicate Chain(roles: Roles, chain: seq<string>, from: string, to: string) {
    && chain != [] && chain[0] == from && chain[|chain| - 1] == to
    && forall i :: 0 <= i < |chain| - 1 ==> chain[i + 1] in RolesOf(roles, chain[i])
  }

  /** The reflexive-transitive closure of membership. */
  ghost predicate Holds(roles: Roles, principal: string, role: string) {
    exists chain :: Chain(roles, chain, principal, role)
  }

  function Known(roles: Roles): set<string> {
    roles.Keys + set k, r | k in roles && r in roles[k] :: r
  }

  ghost function Holders(roles: Roles, principal: string): set<string> {
    set r | r in {principal} + Known(roles) && Holds(roles, principal, r)
  }

  lemma {:induction false} HoldsSelf(roles: Roles, principal: string)
    ensures principal in Holders(roles, principal)
  {
    assert Chain(roles, [principal], principal, principal);
  }

  lemma {:induction false} HoldsStep(roles: Roles, principal: string, via: string, role: string)
    requires via in Holders(roles, principal) && role in RolesOf(roles, via)
    ensures role in Holders(roles, principal)
  {
    var chain :| Chain(roles, chain, principal, via);
    assert Chain(roles, chain + [role], principal, role);
  }

  /** Whatever contains the principal and is closed under membership contains the closure. */
  lemma {:induction false} ClosedContains(roles: Roles, principal: string, closed: seq<string>, role: string)
    requires principal in closed && role in Holders(roles, principal)
    requires forall s, r :: s in closed && r in RolesOf(roles, s) ==> r in closed
    ensures role in closed
  {
    var chain :| Chain(roles, chain, principal, role);
    ChainStays(roles, principal, closed, chain, role);
  }

  lemma {:induction false} ChainStays(
    roles: Roles, principal: string, closed: seq<string>, chain: seq<string>, role: string)
    requires principal in closed && Chain(roles, chain, principal, role)
    requires forall s, r :: s in closed && r in RolesOf(roles, s) ==> r in closed
    ensures role in closed
    decreases |chain|
  {
    if |chain| > 1 {
      var n := |chain| - 1;
      assert chain[n - 1 + 1] in RolesOf(roles, chain[n - 1]);
      ChainStays(roles, principal, closed, chain[..n], chain[n - 1]);
    }
  }

  lemma {:induction false} HoldsIsKnown(roles: Roles, principal: string, role: string)
    requires Holds(roles, principal, role)
    ensures role in Holders(roles, principal)
    ensures role != principal ==> principal in roles
  {
    var chain :| Chain(roles, chain, principal, role);
    var n := |chain| - 1;
    if n > 0 {
      assert chain[n - 1 + 1] in RolesOf(roles, chain[n - 1]);
      assert chain[0 + 1] in RolesOf(roles, chain[0]);
    }
  }

  lemma {:induction false} OneFewer(universe: set<string>, seen: seq<string>, current: string)
    requires current in universe && current !in seen
    ensures |universe - Elements(seen + [current])| < |universe - Elements(seen)|
  {
    var before, after := universe - Elements(seen), universe - Elements(seen + [current]);
    assert before == after + {current};
    assert current !in after;
  }

  // ----- entries and decisions -----

  datatype Entry = Entry(principal: string, resource: Path, permission: string, allow: bool)

  datatype Reason = ExplicitDeny(at: Path) | AllowedByEntry(at: Path) | NoMatchingEntry

  datatype Grant = Grant(
    allowed: bool, permission: string, resource: Path,
    inheritedFrom: Option<Path>, viaRole: Option<string>, reason: Reason)

  predicate Matches(e: Entry, holders: set<string>, resource: Path, permission: string) {
    e.permission == permission && e.resource == resource && e.principal in holders
  }

  function Matching(entries: set<Entry>, holders: set<string>, resource: Path, permission: string): set<Entry> {
    set e | e in entries && Matches(e, holders, resource, permission)
  }

  predicate Denied(entries: set<Entry>, holders: set<string>, resource: Path, permission: string) {
    exists e :: e in Matching(entries, holders, resource, permission) && !e.allow
  }

  datatype Decision = Decision(allowed: bool, inheritedFrom: Option<Path>)

  /** Deny-overrides at the longest ancestor that has a matching entry, else refuse. */
  function Decide(entries: set<Entry>, holders: set<string>, resource: Path, permission: string): Decision {
    if resource == [] then Decision(false, None)
    else if Matching(entries, holders, resource, permission) != {} then
      Decision(!Denied(entries, holders, resource, permission), Some(resource))
    else Decide(entries, holders, resource[..|resource| - 1], permission)
  }

  /** The depth of the ancestor that decides; 0 when none does. */
  function Depth(d: Decision): nat {
    if d.inheritedFrom.Some? then |d.inheritedFrom.value| else 0
  }

  class AclEvaluator {
    const entries: seq<Entry>
    const roles: Roles

    constructor (entries: seq<Entry>, roles: Roles)
      ensures this.entries == entries && this.roles == roles
    {
      this.entries, this.roles := entries, roles;
    }

    /** The principal with all its roles, each once, however the roles cycle. */
    method PrincipalsFor(principal: string) returns (seen: seq<string>)
      ensures Elements(seen) == Holders(roles, principal)
      ensures forall i, j :: 0 <= i < j < |seen| ==> seen[i] != seen[j]
    {
      hide Holders, Holds, Known, RolesOf;
      seen := [];
      var stack := [principal];
      HoldsSelf(roles, principal);
      while stack != []
        invariant forall i, j :: 0 <= i < j < |seen| ==> seen[i] != seen[j]
        invariant forall s :: s in seen || s in stack ==> s in Holders(roles, principal)
        invariant principal in seen || principal in stack
        invariant forall s, r :: s in seen && r in RolesOf(roles, s) ==> r in seen || r in stack
        decreases |Holders(roles, principal) - Elements(seen)|, |stack|
      {
        var current := stack[|stack| - 1];
        ghost var before := stack;
        stack := stack[..|stack| - 1];
        assert forall s :: s in before ==> s in stack || s == current;
        if current in seen {
          continue;
        }
        OneFewer(Holders(roles, principal), seen, current);
        seen := seen + [current];
        forall r | r in RolesOf(roles, current)
          ensures r in Holders(roles, principal)
        {
          HoldsStep(roles, principal, current, r);
        }
        stack := stack + RolesOf(roles, current);
      }
      forall r | r in Holders(roles, principal)
        ensures r in seen
      {
        ClosedContains(roles, principal, seen, r);
      }
    }

    method Check(principal: string, resource: Path, permission: string) returns (r: Result<Grant, AclError>)
      ensures permission !in PERMISSIONS ==> r == Err(UnknownPermission)
      ensures permission in PERMISSIONS && resource == [] ==> r == Err(EmptyPath)
      ensures permission in PERMISSIONS && resource != [] ==>
        r.Ok? && Explains(r.value, principal, resource, permission)
    {
      if permission !in PERMISSIONS {
        return Err(UnknownPermission);
      }
      if resource == [] {
        return Err(EmptyPath);
      }
      var holders := PrincipalsFor(principal);
      var paths := Ancestors(resource);
      ghost var decision := Decide(Elements(entries), Elements(holders), resource, permission);
      assert resource[..|resource| - 0] == resource;
      for i := 0 to |paths|
        invariant decision == Decide(Elements(entries), Elements(holders), resource[..|resource| - i], permission)
      {
        var path := paths[i];
        var matches := MatchesAt(holders, path, permission);
        if matches == [] {
          assert path[..|path| - 1] == resource[..|resource| - (i + 1)];
          continue;
        }
        assert matches[0] in Matching(Elements(entries), Elements(holders), path, permission);
        var decided, denied := FirstDenial(matches);
        assert decided in matches;
        return Ok(Grant(decided.allow, permission, resource, Some(path),
                        if decided.principal != principal then Some(decided.principal) else None,
                        if denied then ExplicitDeny(path) else AllowedByEntry(path)));
      }
      assert resource[..|resource| - |paths|] == [];
      return Ok(Grant(false, permission, resource, None, None, NoMatchingEntry));
    }

    /** The grant carries the decision, and names an entry that bears it out. */
    ghost predicate Explains(g: Grant, principal: string, resource: Path, permission: string) {
      var holders := Holders(roles, principal);
      && g.permission == permission && g.resource == resource
      && Decision(g.allowed, g.inheritedFrom) == Decide(Elements(entries), holders, resource, permission)
      && match g.inheritedFrom
         case None => g.viaRole == None && g.reason == NoMatchingEntry
         case Some(path) =>
           && g.reason == (if g.allowed then AllowedByEntry(path) else ExplicitDeny(path))
           && (exists e :: e in entries && Matches(e, holders, path, permission) && e.allow == g.allowed &&
                           g.viaRole == (if e.principal != principal then Some(e.principal) else None))
    }

    method MatchesAt(holders: seq<string>, path: Path, permission: string) returns (matches: seq<Entry>)
      ensures Elements(matches) == Matching(Elements(entries), Elements(holders), path, permission)
    {
      matches := [];
      for i := 0 to |entries|
        invariant Elements(matches) == Matching(Elements(entries[..i]), Elements(holders), path, permission)
      {
        assert entries[..i + 1] == entries[..i] + [entries[i]];
        if Matches(entries[i], Elements(holders), path, permission) {
          matches := matches + [entries[i]];
        }
      }
      assert entries[..|entries|] == entries;
    }

    /** The first denial, or the first entry when nothing denies. */
    static method FirstDenial(matches: seq<Entry>) returns (decided: Entry, denied: bool)
      requires matches != []
      ensures decided in matches && decided.allow == !denied
      ensures denied <==> exists e :: e in matches && !e.allow
    {
      for i := 0 to |matches|
        invariant forall k :: 0 <= k < i ==> matches[k].allow
      {
        if !matches[i].allow {
          return matches[i], true;
        }
      }
      return matches[0], false;
    }

    ghost predicate Allowed(principal: string, resource: Path, permission: string) {
      Decide(Elements(entries), Holders(roles, principal), resource, permission).allowed
    }

    method Allows(principal: string, resource: Path, permission: string) returns (r: Result<bool, AclError>)
      ensures permission !in PERMISSIONS ==> r == Err(UnknownPermission)
      ensures permission in PERMISSIONS && resource == [] ==> r == Err(EmptyPath)
      ensures permission in PERMISSIONS && resource != [] ==> r == Ok(Allowed(principal, resource, permission))
    {
      hide Decide;
      var grant := Check(principal, resource, permission);
      match grant
      case Ok(g) => r := Ok(g.allowed);
      case Err(error) => r := Err(error);
    }

    /** Everyone any entry or role mentions. */
    function Candidates(): set<string> {
      (set e | e in entries :: e.principal) + Known(roles)
    }

    /** Exactly the principals that are allowed, of all there could be. */
    method WhoCanReach(resource: Path, permission: string) returns (r: Result<set<string>, AclError>)
      ensures Candidates() == {} ==> r == Ok({})
      ensures Candidates() != {} && permission !in PERMISSIONS ==> r == Err(UnknownPermission)
      ensures Candidates() != {} && permission in PERMISSIONS && resource == [] ==> r == Err(EmptyPath)
      ensures permission in PERMISSIONS && resource != [] ==>
        r.Ok? && forall p :: p in r.value <==> Allowed(p, resource, permission)
    {
      hide Allowed;
      var reached: set<string> := {};
      var left := Candidates();
      while left != {}
        invariant left <= Candidates()
        invariant permission !in PERMISSIONS || resource == [] ==> left == Candidates()
        invariant reached <= Candidates()
        invariant forall p :: p in Candidates() - left ==> (p in reached <==> Allowed(p, resource, permission))
        invariant forall p :: p in reached ==> p !in left
        decreases |left|
      {
        var p :| p in left;
        var allowed :- Allows(p, resource, permission);
        if allowed {
          reached := reached + {p};
        }
        left := left - {p};
      }
      forall p | Allowed(p, resource, permission)
        ensures p in Candidates()
      {
        NobodyElse(p, resource, permission);
      }
      return Ok(reached);
    }

    /** No allowed principal lies outside the candidates. */
    lemma {:induction false} NobodyElse(p: string, resource: Path, permission: string)
      requires Allowed(p, resource, permission)
      ensures p in Candidates()
    {
      hide Decide, Holds;
      LongestMatchDecides(Elements(entries), Holders(roles, p), resource, permission);
      var k: nat :| DecidedAt(Elements(entries), Holders(roles, p), resource, permission, k);
      var e :| e in Matching(Elements(entries), Holders(roles, p), resource[..k], permission);
      if e.principal != p {
        HoldsIsKnown(roles, p, e.principal);
      }
    }
  }

  // ----- what the decision is -----

  /** The ancestor of that length has a match and no longer one does. */
  ghost predicate DecidedAt(entries: set<Entry>, holders: set<string>, resource: Path, permission: string, k: nat) {
    && 0 < k <= |resource|
    && Matching(entries, holders, resource[..k], permission) != {}
    && forall j :: k < j <= |resource| ==> Matching(entries, holders, resource[..j], permission) == {}
  }

  ghost predicate Unmatched(entries: set<Entry>, holders: set<string>, resource: Path, permission: string) {
    forall k :: 0 < k <= |resource| ==> Matching(entries, holders, resource[..k], permission) == {}
  }

  lemma {:induction false} LongestMatchDecides(
    entries: set<Entry>, holders: set<string>, resource: Path, permission: string)
    ensures var d := Decide(entries, holders, resource, permission);
      && (d.allowed <==>
          exists k: nat :: DecidedAt(entries, holders, resource, permission, k) &&
            !Denied(entries, holders, resource[..k], permission))
      && (d.inheritedFrom == None <==>
          Unmatched(entries, holders, resource, permission))
      && (d.inheritedFrom.Some? ==>
          Depth(d) <= |resource| && d.inheritedFrom.value == resource[..Depth(d)]
          && DecidedAt(entries, holders, resource, permission, Depth(d)))
    decreases |resource|
  {
    hide Matching, Denied;
    var n := |resource|;
    if n > 0 {
      assert resource[..n] == resource;
      var parent := resource[..n - 1];
      if Matching(entries, holders, resource, permission) != {} {
        assert DecidedAt(entries, holders, resource, permission, n);
      } else {
        LongestMatchDecides(entries, holders, parent, permission);
        forall k: nat | k < n
          ensures parent[..k] == resource[..k]
          ensures DecidedAt(entries, holders, parent, permission, k) <==>
            DecidedAt(entries, holders, resource, permission, k)
        {
          DecidedBelow(entries, holders, resource, permission, k);
        }
      }
    }
  }

  lemma {:induction false} DecidedBelow(
    entries: set<Entry>, holders: set<string>, resource: Path, permission: string, k: nat)
    requires k < |resource| && Matching(entries, holders, resource, permission) == {}
    ensures var parent := resource[..|resource| - 1];
      && parent[..k] == resource[..k]
      && (DecidedAt(entries, holders, parent, permission, k) <==> DecidedAt(entries, holders, resource, permission, k))
  {
    hide Matching;
    var parent := resource[..|resource| - 1];
    assert resource[..|resource|] == resource;
    assert forall j :: 0 <= j < |resource| ==> parent[..j] == resource[..j];
  }

  /** Adding an allow entry grants exactly when it is at least as deep as every
      match and no denial stands beside it; it never revokes. */
  lemma {:induction false} AddingAllow(
    entries: set<Entry>, holders: set<string>, resource: Path, permission: string, e: Entry)
    requires e.allow
    ensures var before := Decide(entries, holders, resource, permission);
      Decide(entries + {e}, holders, resource, permission).allowed <==>
      || before.allowed
      || (&& Reaches(e, holders, resource, permission) && |e.resource| >= Depth(before)
          && !Denied(entries, holders, e.resource, permission))
    decreases |resource|
  {
    hide Denied, Matching, Reaches, Matches;
    if resource == [] {
      ReachesAt(e, holders, resource, permission);
    } else {
      MatchingWith(entries, holders, resource, permission, e);
      ReachesAt(e, holders, resource, permission);
      var parent := resource[..|resource| - 1];
      AddingAllow(entries, holders, parent, permission, e);
      LongestMatchDecides(entries, holders, parent, permission);
    }
  }

  /** Adding a deny entry revokes exactly when it is at least as deep as what
      allowed; it never grants. */
  lemma {:induction false} AddingDeny(
    entries: set<Entry>, holders: set<string>, resource: Path, permission: string, e: Entry)
    requires !e.allow
    ensures var before := Decide(entries, holders, resource, permission);
      Decide(entries + {e}, holders, resource, permission).allowed <==>
      before.allowed && !(Reaches(e, holders, resource, permission) && |e.resource| >= Depth(before))
    decreases |resource|
  {
    hide Denied, Matching, Reaches, Matches;
    if resource == [] {
      ReachesAt(e, holders, resource, permission);
    } else {
      MatchingWith(entries, holders, resource, permission, e);
      ReachesAt(e, holders, resource, permission);
      var parent := resource[..|resource| - 1];
      AddingDeny(entries, holders, parent, permission, e);
      LongestMatchDecides(entries, holders, parent, permission);
    }
  }

  /** The entry speaks about the resource: it is written at it or above it. */
  predicate Reaches(e: Entry, holders: set<string>, resource: Path, permission: string) {
    e.permission == permission && e.principal in holders && 0 < |e.resource| && e.resource <= resource
  }

  lemma {:induction false} ReachesAt(e: Entry, holders: set<string>, resource: Path, permission: string)
    ensures resource == [] ==> !Reaches(e, holders, resource, permission)
    ensures resource != [] ==>
      (Reaches(e, holders, resource, permission) <==>
       Matches(e, holders, resource, permission) || Reaches(e, holders, resource[..|resource| - 1], permission))
    ensures Matches(e, holders, resource, permission) ==> e.resource == resource
    ensures Reaches(e, holders, resource, permission) && |e.resource| >= |resource| ==>
      Matches(e, holders, resource, permission)
  {
  }

  lemma {:induction false} MatchingWith(
    entries: set<Entry>, holders: set<string>, resource: Path, permission: string, e: Entry)
    ensures Matching(entries + {e}, holders, resource, permission) ==
      Matching(entries, holders, resource, permission) + if Matches(e, holders, resource, permission) then {e} else {}
    ensures Denied(entries + {e}, holders, resource, permission) <==>
      Denied(entries, holders, resource, permission) || (Matches(e, holders, resource, permission) && !e.allow)
    ensures Matching(entries, holders, resource, permission) == {} ==> !Denied(entries, holders, resource, permission)
  {
  }

  /** Entries that do not speak about the request have no effect: other
      permissions, other principals, other branches and deeper resources. */
  lemma {:induction false} OthersHaveNoEffect(
    entries: set<Entry>, holders: set<string>, resource: Path, permission: string)
    ensures Decide(entries, holders, resource, permission) ==
      Decide((set e | e in entries && Reaches(e, holders, resource, permission)), holders, resource, permission)
  {
    var some := set e | e in entries && Reaches(e, holders, resource, permission);
    SameMatches(entries, some, holders, resource, permission);
  }

  lemma {:induction false} SameMatches(
    a: set<Entry>, b: set<Entry>, holders: set<string>, resource: Path, permission: string)
    requires forall e :: Reaches(e, holders, resource, permission) ==> (e in a <==> e in b)
    ensures Decide(a, holders, resource, permission) == Decide(b, holders, resource, permission)
    decreases |resource|
  {
    if resource != [] {
      assert forall e :: Matches(e, holders, resource, permission) ==> Reaches(e, holders, resource, permission);
      assert Matching(a, holders, resource, permission) == Matching(b, holders, resource, permission);
      var parent := resource[..|resource| - 1];
      assert forall e :: Reaches(e, holders, parent, permission) ==> Reaches(e, holders, resource, permission);
      SameMatches(a, b, holders, parent, permission);
    }
  }

  /** Whatever a role holds, everyone who holds the role holds. */
  lemma {:induction false} MembershipIsTransitive(roles: Roles, a: string, b: string)
    requires b in Holders(roles, a)
    ensures Holders(roles, b) <= Holders(roles, a)
  {
    forall r | r in Holders(roles, b)
      ensures r in Holders(roles, a)
    {
      var first :| Chain(roles, first, a, b);
      var second :| Chain(roles, second, b, r);
      var joined := first + second[1..];
      forall i | 0 <= i < |joined| - 1
        ensures joined[i + 1] in RolesOf(roles, joined[i])
      {
        if i >= |first| - 1 {
          assert second[i - |first| + 1 + 1] in RolesOf(roles, second[i - |first| + 1]);
        }
      }
      assert Chain(roles, joined, a, r);
      HoldsIsKnown(roles, a, r);
    }
  }

  // ----- the decision, told from entries and roles alone -----

  /** A chain of memberships leads from the principal to the role. */
  ghost predicate IsMember(roles: Roles, principal: string, role: string) {
    exists chain: seq<string> :: Links(roles, chain) && chain[0] == principal && chain[|chain| - 1] == role
  }

  ghost predicate Links(roles: Roles, chain: seq<string>) {
    chain != [] && forall i :: 0 <= i < |chain| - 1 ==> chain[i] in roles && chain[i + 1] in roles[chain[i]]
  }

  /** The entry is for the permission, at the path, and for the principal or a role it has. */
  ghost predicate Speaks(e: Entry, roles: Roles, principal: string, path: Path, permission: string) {
    e.permission == permission && e.resource == path && IsMember(roles, principal, e.principal)
  }

  /** Some entry speaks at the path, and none that does denies. */
  ghost predicate GrantedAt(entries: set<Entry>, roles: Roles, principal: string, path: Path, permission: string) {
    && (exists e :: e in entries && Speaks(e, roles, principal, path, permission))
    && (forall e :: e in entries && Speaks(e, roles, principal, path, permission) ==> e.allow)
  }

  ghost predicate SilentAt(entries: set<Entry>, roles: Roles, principal: string, path: Path, permission: string) {
    forall e :: e in entries ==> !Speaks(e, roles, principal, path, permission)
  }

  lemma {:induction false} HoldersExactly(roles: Roles, principal: string, role: string)
    ensures role in Holders(roles, principal) <==> IsMember(roles, principal, role)
  {
    if role in Holders(roles, principal) {
      var chain :| Chain(roles, chain, principal, role);
      forall i | 0 <= i < |chain| - 1
        ensures chain[i] in roles && chain[i + 1] in roles[chain[i]]
      {
        assert chain[i + 1] in RolesOf(roles, chain[i]);
      }
    }
    if IsMember(roles, principal, role) {
      var chain :| Links(roles, chain) && chain[0] == principal && chain[|chain| - 1] == role;
      assert Chain(roles, chain, principal, role);
      HoldsIsKnown(roles, principal, role);
    }
  }

  /** A principal is allowed exactly when at some ancestor of the resource all
      the entries that speak allow, at least one does speak, and at every longer
      ancestor all are silent. */
  lemma {:induction false} AllowedExactly(
    entries: set<Entry>, roles: Roles, principal: string, resource: Path, permission: string)
    ensures Decide(entries, Holders(roles, principal), resource, permission).allowed <==>
      exists k :: 0 < k <= |resource| && GrantedAt(entries, roles, principal, resource[..k], permission) &&
        forall j :: k < j <= |resource| ==> SilentAt(entries, roles, principal, resource[..j], permission)
  {
    hide Decide, Holders, IsMember, Matching, Denied;
    var holders := Holders(roles, principal);
    forall k | 0 < k <= |resource|
      ensures Matching(entries, holders, resource[..k], permission) == {} <==>
        SilentAt(entries, roles, principal, resource[..k], permission)
      ensures GrantedAt(entries, roles, principal, resource[..k], permission) <==>
        Matching(entries, holders, resource[..k], permission) != {} &&
        !Denied(entries, holders, resource[..k], permission)
    {
      SpeaksExactly(entries, roles, principal, resource[..k], permission);
    }
    LongestMatchDecides(entries, holders, resource, permission);
    hide SilentAt, GrantedAt;
    if k :| 0 < k <= |resource| && GrantedAt(entries, roles, principal, resource[..k], permission) &&
            forall j :: k < j <= |resource| ==> SilentAt(entries, roles, principal, resource[..j], permission) {
      var n: nat := k;
      assert DecidedAt(entries, holders, resource, permission, n);
    }
  }

  lemma {:induction false} SpeaksExactly(
    entries: set<Entry>, roles: Roles, principal: string, path: Path, permission: string)
    ensures var holders := Holders(roles, principal);
      && (Matching(entries, holders, path, permission) == {} <==>
          SilentAt(entries, roles, principal, path, permission))
      && (Matching(entries, holders, path, permission) != {} && !Denied(entries, holders, path, permission) <==>
          GrantedAt(entries, roles, principal, path, permission))
  {
    hide Holders, IsMember;
    var holders := Holders(roles, principal);
    forall e
      ensures Matches(e, holders, path, permission) <==> Speaks(e, roles, principal, path, permission)
    {
      HoldersExactly(roles, principal, e.principal);
    }
    if e :| e in entries && Speaks(e, roles, principal, path, permission) {
      assert e in Matching(entries, holders, path, permission);
    }
  }

  // ----- which objects have a path -----

  /** All of Unicode's white space, and the four separators Python adds to it. */
  const WHITE_SPACE :=
    "\t\n\U{b}\U{c}\r\U{1c}\U{1d}\U{1e}\U{1f} \U{85}\U{a0}\U{1680}\U{2000}\U{2001}\U{2002}\U{2003}\U{2004}" +
    "\U{2005}\U{2006}\U{2007}\U{2008}\U{2009}\U{200a}\U{2028}\U{2029}\U{202f}\U{205f}\U{3000}"

  ghost predicate AllBlank(s: string) {
    forall i :: 0 <= i < |s| ==> Blank(s[i])
  }

  /** Stripping takes blanks away on both sides, and leaves none there. */
  lemma {:induction false} StripExactly(s: string) returns (front: string, back: string)
    ensures s == front + Strip(s) + back && AllBlank(front) && AllBlank(back)
    ensures Strip(s) != "" ==> !Blank(Strip(s)[0]) && !Blank(Strip(s)[|Strip(s)| - 1])
  {
    hide Blank;
    front := StripsFront(s);
    back := StripsBack(StripFront(s));
    assert s == front + (Strip(s) + back) == front + Strip(s) + back;
  }

  lemma {:induction false} StripsFront(s: string) returns (front: string)
    ensures s == front + StripFront(s) && AllBlank(front)
    ensures StripFront(s) != "" ==> !Blank(StripFront(s)[0])
  {
    hide Blank;
    front := "";
    if s != "" && Blank(s[0]) {
      var rest := StripsFront(s[1..]);
      front := [s[0]] + rest;
    }
  }

  lemma {:induction false} StripsBack(s: string) returns (back: string)
    ensures s == StripBack(s) + back && AllBlank(back)
    ensures StripBack(s) != "" ==> !Blank(StripBack(s)[|StripBack(s)| - 1]) && StripBack(s)[0] == s[0]
  {
    hide Blank;
    back := "";
    if s != "" && Blank(s[|s| - 1]) {
      var rest := StripsBack(s[..|s| - 1]);
      back := rest + [s[|s| - 1]];
    }
  }

  lemma {:induction false} BlankExactly(c: char)
    ensures Blank(c) <==> c in WHITE_SPACE
  {
    var first, second := WHITE_SPACE[..18], WHITE_SPACE[18..];
    assert WHITE_SPACE == first + second;
  }

  /** The identifiers of an object, outermost first. */
  function Identifiers(o: Object): seq<string> {
    match o
    case Fleet => []
    case Project(p) => [p]
    case Task(p, t) => [p, t]
    case TaskEvidence(p, t) => [p, t]
    case Agent(a) => [a]
    case Machine(m) => [m]
    case Secret(s) => [s]
    case Workflow(w) => [w]
  }

  /** Not all blank, and without a slash. */
  ghost predicate IsIdentifier(s: string) {
    !AllBlank(s) && forall i :: 0 <= i < |s| ==> s[i] != '/'
  }

  lemma {:induction false} SegmentExactly(s: string)
    ensures Segment(s) ==
      if AllBlank(s) then Err(EmptyIdentifier) else if !IsIdentifier(s) then Err(SlashInIdentifier) else Ok(Strip(s))
  {
    hide Blank, Strip;
    var front, back := StripExactly(s);
    var own := Strip(s);
    if own != "" {
      assert s[|front|] == own[0];
    } else {
      assert s == front + back;
    }
    if '/' in s {
      var i :| 0 <= i < |s| && s[i] == '/';
    }
  }

  /** An object has a path exactly when each identifier is neither blank nor
      contains a slash; the first one that is not fit decides the refusal; and
      the path is made of the stripped identifiers under their kinds. */
  lemma {:induction false} PathsExactly(o: Object)
    ensures var ids := Identifiers(o);
      && (PathOf(o).Ok? <==> forall i :: 0 <= i < |ids| ==> IsIdentifier(ids[i]))
      && (PathOf(o).Ok? ==> PathOf(o).value == Form(Canonical(o)))
      && (forall i :: 0 <= i < |ids| && !IsIdentifier(ids[i]) && (forall j :: 0 <= j < i ==> IsIdentifier(ids[j])) ==>
            PathOf(o) == Err(if AllBlank(ids[i]) then EmptyIdentifier else SlashInIdentifier))
  {
    hide Strip, Segment, IsIdentifier, AllBlank;
    var ids := Identifiers(o);
    forall i | 0 <= i < |ids|
      ensures Segment(ids[i]) ==
        if IsIdentifier(ids[i]) then Ok(Strip(ids[i]))
        else Err(if AllBlank(ids[i]) then EmptyIdentifier else SlashInIdentifier)
    {
      SegmentExactly(ids[i]);
      IdentifierIsNotBlank(ids[i]);
    }
    if |ids| > 0 {
      assert Segment(ids[0]).Ok? <==> IsIdentifier(ids[0]);
    }
    if |ids| > 1 {
      assert Segment(ids[1]).Ok? <==> IsIdentifier(ids[1]);
    }
    if PathOf(o).Ok? {
      CanonicalForm(o);
    }
  }

  lemma {:induction false} IdentifierIsNotBlank(s: string)
    ensures IsIdentifier(s) ==> !AllBlank(s)
  {
  }
}
