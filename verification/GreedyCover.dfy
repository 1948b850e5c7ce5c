/** Which tests of a cluster have to stay: a greedy cover of the mutants the cluster kills. */
module GreedyCover {
  import opened Collections

  type Test = string
  type Line = nat

  /** What a source line offers the mutator: nothing to look at, nothing to change, or one change. */
  datatype SourceLine = Skipped | Fixed | Mutable

  /** One applied mutation, with the tests that failed under it. */
  datatype Candidate = Candidate(number: Line, failing: set<Test>)

  datatype Verdict = NoMutationsAvailable | NoEvidence | Ok

  datatype Report = Report(
    verdict: Verdict, survived: seq<Line>, kills: map<Test, seq<Line>>, mustKeep: seq<Test>,
    irreplaceable: map<Test, set<Line>>, retirable: set<Test>, discriminating: nat, strong: bool)

  // ----- choosing the mutations -----

  predicate MutableAt(source: seq<SourceLine>, number: Line) {
    1 <= number <= |source| && source[number - 1] == Mutable
  }

  function MutableLines(source: seq<SourceLine>, lines: seq<Line>): seq<Line> {
    if lines == [] then []
    else
      var n := |lines| - 1;
      MutableLines(source, lines[..n]) + (if MutableAt(source, lines[n]) then [lines[n]] else [])
  }

  ghost predicate Increasing(s: seq<Line>) {
    forall i, j :: 0 <= i < j < |s| ==> s[i] < s[j]
  }

  /** At most one mutation a line, the first `limit` of them. */
  method Mutants(source: seq<SourceLine>, lines: seq<Line>, limit: int) returns (found: seq<Line>)
    requires Increasing(lines)
    ensures Increasing(found) && found <= MutableLines(source, lines)
    ensures limit >= 1 ==>
      |found| == if |MutableLines(source, lines)| < limit then |MutableLines(source, lines)| else limit
    ensures limit < 1 ==> |found| <= 1
  {
    found := [];
    var i := 0;
    while i < |lines|
      invariant 0 <= i <= |lines|
      invariant found == MutableLines(source, lines[..i])
      invariant limit >= 1 ==> |found| < limit
      invariant limit < 1 ==> found == []
    {
      MutableLinesGrow(source, lines, i + 1);
      MutableLinesIncrease(source, lines[..i + 1]);
      assert lines[..i + 1][..i] == lines[..i];
      if 1 <= lines[i] <= |source| && source[lines[i] - 1] != Skipped {
        if source[lines[i] - 1] == Mutable {
          found := found + [lines[i]];
        }
        if |found| >= limit {
          return;
        }
      }
      i := i + 1;
    }
    assert lines[..|lines|] == lines;
    MutableLinesIncrease(source, lines);
  }

  lemma {:induction false} MutableLinesGrow(source: seq<SourceLine>, lines: seq<Line>, i: nat)
    requires i <= |lines|
    ensures MutableLines(source, lines[..i]) <= MutableLines(source, lines)
    decreases |lines|
  {
    hide MutableAt;
    var n := |lines| - 1;
    if i <= n {
      MutableLinesGrow(source, lines[..n], i);
      assert lines[..n][..i] == lines[..i];
    } else {
      assert lines[..i] == lines;
    }
  }

  lemma {:induction false} MutableLinesIncrease(source: seq<SourceLine>, lines: seq<Line>)
    requires Increasing(lines)
    ensures Increasing(MutableLines(source, lines))
    ensures forall k :: 0 <= k < |MutableLines(source, lines)| ==>
      lines != [] && MutableLines(source, lines)[k] <= lines[|lines| - 1]
    decreases |lines|
  {
    hide MutableAt;
    if lines != [] {
      var n := |lines| - 1;
      MutableLinesIncrease(source, lines[..n]);
      if n > 0 {
        assert lines[..n][n - 1] < lines[n];
      }
    }
  }

  /** The mutable lines are those of the given lines that the source has and
      that offer a change. */
  lemma {:induction false} MutableExactly(source: seq<SourceLine>, lines: seq<Line>, number: Line)
    ensures number in MutableLines(source, lines) <==>
      number in lines && number >= 1 && number <= |source| && source[number - 1].Mutable?
  {
    if lines != [] {
      MutableExactly(source, lines[..|lines| - 1], number);
    }
  }

  // ----- the evidence -----

  /** The mutated lines a test notices. */
  function Killed(candidates: seq<Candidate>, t: Test): set<Line> {
    set c | c in candidates && t in c.failing :: c.number
  }

  type Table = map<Test, set<Line>>

  function Evidence(nodeids: seq<Test>, candidates: seq<Candidate>): Table {
    map t | t in nodeids :: Killed(candidates, t)
  }

  /** Everything some test of the table kills. */
  function Union(table: Table, tests: set<Test>): set<Line>
    requires tests <= table.Keys
  {
    set t, n | t in tests && n in table[t] :: n
  }

  predicate Covers(table: Table, tests: set<Test>, lines: set<Line>) {
    tests <= table.Keys && lines <= Union(table, tests)
  }

  /** The lines nobody noticed, in the order they were mutated. */
  function Survivors(nodeids: seq<Test>, candidates: seq<Candidate>): seq<Line> {
    if candidates == [] then []
    else
      var n := |candidates| - 1;
      Survivors(nodeids, candidates[..n]) +
      (if Elements(nodeids) * candidates[n].failing == {} then [candidates[n].number] else [])
  }

  /** The survivors are the mutated lines that no test of the cluster noticed. */
  lemma {:induction false} SurvivorsExactly(nodeids: seq<Test>, candidates: seq<Candidate>, number: Line)
    ensures number in Survivors(nodeids, candidates) <==>
      exists i :: 0 <= i < |candidates| && candidates[i].number == number && Unnoticed(nodeids, candidates[i])
  {
    hide Unnoticed;
    if candidates != [] {
      var n := |candidates| - 1;
      SurvivorsExactly(nodeids, candidates[..n], number);
      NobodyNotices(nodeids, candidates[n]);
      assert forall i :: 0 <= i < n ==> candidates[..n][i] == candidates[i];
    }
  }

  /** And they are in the order of the mutations. */
  lemma {:induction false} SurvivorsInOrder(nodeids: seq<Test>, candidates: seq<Candidate>)
    requires InLineOrder(candidates)
    ensures Increasing(Survivors(nodeids, candidates))
  {
    hide Increasing, Unnoticed;
    if candidates != [] {
      var n := |candidates| - 1;
      var before := Survivors(nodeids, candidates[..n]);
      SurvivorsInOrder(nodeids, candidates[..n]);
      assert before + [] == before;
      forall number | number in before
        ensures number < candidates[n].number
      {
        SurvivorsExactly(nodeids, candidates[..n], number);
      }
      IncreasingSnoc(before, candidates[n].number);
    } else {
      IncreasingSnoc([], 0);
    }
  }

  ghost predicate Unnoticed(nodeids: seq<Test>, c: Candidate) {
    forall t :: t in nodeids ==> t !in c.failing
  }

  lemma {:induction false} NobodyNotices(nodeids: seq<Test>, c: Candidate)
    ensures Elements(nodeids) * c.failing == {} <==> Unnoticed(nodeids, c)
  {
    if t :| t in Elements(nodeids) * c.failing {
      assert t in nodeids;
    }
    if t :| t in nodeids && t in c.failing {
      assert t in Elements(nodeids) * c.failing;
    }
  }

  lemma {:induction false} IncreasingSnoc(s: seq<Line>, last: Line)
    ensures Increasing([])
    ensures Increasing(s) && (forall n :: n in s ==> n < last) ==> Increasing(s + [last])
  {
    if Increasing(s) && (forall n :: n in s ==> n < last) {
      assert forall i :: 0 <= i < |s| ==> s[i] in s;
    }
  }

  ghost predicate InLineOrder(candidates: seq<Candidate>) {
    forall i, j :: 0 <= i < j < |candidates| ==> candidates[i].number < candidates[j].number
  }

  // ----- the greedy cover -----

  function Gain(table: Table, t: Test, remaining: set<Line>): nat
    requires t in table
  {
    |table[t] * remaining|
  }

  /** The first test, in the given order, that gains the most. */
  function Best(order: seq<Test>, table: Table, remaining: set<Line>): (b: Test)
    requires order != [] && Elements(order) <= table.Keys
    ensures b in order
  {
    if |order| == 1 then order[0]
    else
      var n := |order| - 1;
      assert Elements(order[..n]) <= Elements(order);
      var b := Best(order[..n], table, remaining);
      if Gain(table, order[n], remaining) > Gain(table, b, remaining) then order[n] else b
  }

  /** What the greedy loop adds while these lines remain. */
  function Greedy(order: seq<Test>, table: Table, remaining: set<Line>): (keep: seq<Test>)
    requires Elements(order) <= table.Keys
    ensures forall t :: t in keep ==> t in order
    decreases |remaining|
  {
    if remaining == {} || order == [] then []
    else
      var best := Best(order, table, remaining);
      var gained := table[best] * remaining;
      if gained == {} then []
      else
        Shrinks(remaining, gained);
        [best] + Greedy(order, table, remaining - gained)
  }

  lemma {:induction false} Shrinks(remaining: set<Line>, gained: set<Line>)
    requires gained != {} && gained <= remaining
    ensures |remaining - gained| == |remaining| - |gained| < |remaining|
  {
    assert |gained| != 0;
    assert remaining == gained + (remaining - gained);
    assert gained !! (remaining - gained);
  }

  lemma {:induction false} BestIsBest(order: seq<Test>, table: Table, remaining: set<Line>)
    requires order != [] && Elements(order) <= table.Keys
    ensures forall t :: t in order ==>
      Gain(table, t, remaining) <= Gain(table, Best(order, table, remaining), remaining)
    decreases |order|
  {
    hide Gain;
    if |order| > 1 {
      var n := |order| - 1;
      assert Elements(order[..n]) <= Elements(order);
      BestIsBest(order[..n], table, remaining);
      assert forall t :: t in order ==> t in order[..n] || t == order[n];
    }
  }

  /** While a killed line remains some test gains: the loop never gives up. */
  lemma {:induction false} BestGains(order: seq<Test>, table: Table, remaining: set<Line>)
    requires Elements(order) <= table.Keys && remaining != {}
    requires Covers(table, Elements(order), remaining)
    ensures order != [] && table[Best(order, table, remaining)] * remaining != {}
  {
    hide Best;
    var n :| n in remaining;
    var t :| t in Elements(order) && n in table[t];
    BestIsBest(order, table, remaining);
    assert n in table[t] * remaining;
    assert |table[t] * remaining| > 0;
    assert Gain(table, t, remaining) <= Gain(table, Best(order, table, remaining), remaining);
  }

  lemma {:induction false} GreedyUnfolds(order: seq<Test>, table: Table, remaining: set<Line>)
    requires Elements(order) <= table.Keys && remaining != {}
    requires Covers(table, Elements(order), remaining)
    ensures order != []
    ensures var best := Best(order, table, remaining);
      var gained := table[best] * remaining;
      && gained != {} && |remaining - gained| == |remaining| - |gained| < |remaining|
      && Greedy(order, table, remaining) == [best] + Greedy(order, table, remaining - gained)
      && Covers(table, Elements(order), remaining - gained)
  {
    hide Best;
    BestGains(order, table, remaining);
    Shrinks(remaining, table[Best(order, table, remaining)] * remaining);
  }

  /** The kept tests kill every line the cluster kills. */
  lemma {:induction false} GreedyCovers(order: seq<Test>, table: Table, remaining: set<Line>)
    requires Covers(table, Elements(order), remaining)
    ensures Covers(table, Elements(Greedy(order, table, remaining)), remaining)
    decreases |remaining|
  {
    hide Best, Greedy;
    if remaining != {} {
      GreedyUnfolds(order, table, remaining);
      var best := Best(order, table, remaining);
      var gained := table[best] * remaining;
      GreedyCovers(order, table, remaining - gained);
      var keep := Greedy(order, table, remaining);
      assert keep[0] == best;
      forall n | n in remaining
        ensures n in Union(table, Elements(keep))
      {
        if n !in gained {
          assert n in remaining - gained;
          var t :| t in Elements(Greedy(order, table, remaining - gained)) && n in table[t];
          assert keep[1..] == Greedy(order, table, remaining - gained);
          assert t in keep;
        }
      }
    }
  }

  // ----- how far from the smallest cover -----

  /** 1 + 1/2 + ... + 1/n. */
  function Harmonic(n: nat): real {
    if n == 0 then 0.0 else Harmonic(n - 1) + 1.0 / n as real
  }

  lemma {:induction false} HarmonicGap(r: nat, g: nat)
    requires g <= r && r > 0
    ensures Harmonic(r) - Harmonic(r - g) >= g as real / r as real
    decreases g
  {
    if g > 0 && r > 1 {
      HarmonicGap(r - 1, g - 1);
      Thinner(g - 1, r);
      assert g as real / r as real == (g - 1) as real / r as real + 1.0 / r as real;
      assert (r - 1) - (g - 1) == r - g;
    } else if g > 0 {
      assert Harmonic(r - g) == 0.0;
    }
  }

  lemma {:induction false} Thinner(a: nat, r: nat)
    requires r > 1
    ensures a as real / (r - 1) as real >= a as real / r as real
  {
    var x, y, z := a as real, (r - 1) as real, r as real;
    assert (x / y) * y == x && (x / z) * z == x;
    assert (x / z) * y <= x;
    if x / y < x / z {
      assert (x / y) * y < (x / z) * y;
    }
  }

  /** If no test of a cover kills more than g of the lines, there are at most g a test. */
  lemma {:induction false} Pigeonhole(table: Table, cover: set<Test>, lines: set<Line>, g: nat)
    requires cover <= table.Keys && Covers(table, cover, lines)
    requires forall t :: t in cover ==> Gain(table, t, lines) <= g
    ensures |lines| <= |cover| * g
    decreases |cover|
  {
    hide Gain, Covers;
    if cover == {} {
      NoCover(table, lines);
    } else {
      var t :| t in cover;
      var rest := lines - table[t];
      CoversRest(table, cover, lines, t);
      forall u | u in cover - {t}
        ensures Gain(table, u, rest) <= g
      {
        GainOfRest(table, t, u, lines);
      }
      Pigeonhole(table, cover - {t}, rest, g);
      GainOfRest(table, t, t, lines);
      assert |cover - {t}| == |cover| - 1;
      assert |cover| * g == (|cover| - 1) * g + g;
    }
  }

  lemma {:induction false} NoCover(table: Table, lines: set<Line>)
    requires Covers(table, {}, lines)
    ensures lines == {}
  {
  }

  lemma {:induction false} CoversRest(table: Table, cover: set<Test>, lines: set<Line>, t: Test)
    requires Covers(table, cover, lines) && t in cover
    ensures Covers(table, cover - {t}, lines - table[t])
  {
    forall n | n in lines - table[t]
      ensures n in Union(table, cover - {t})
    {
      var u :| u in cover && n in table[u];
      assert u in cover - {t};
    }
  }

  lemma {:induction false} GainOfRest(table: Table, t: Test, u: Test, lines: set<Line>)
    requires t in table && u in table
    ensures Gain(table, u, lines - table[t]) <= Gain(table, u, lines)
    ensures |lines| == |lines - table[t]| + Gain(table, t, lines)
  {
    var rest, gained := lines - table[t], table[t] * lines;
    Fewer(table[u] * rest, table[u] * lines);
    assert lines == rest + gained && rest !! gained;
  }

  /** Each pick removes at least its share of what remains, for every cover. */
  lemma {:induction false} EachPickEarnsItsShare(order: seq<Test>, table: Table, remaining: set<Line>, cover: set<Test>)
    requires Elements(order) <= table.Keys && remaining != {}
    requires cover <= Elements(order) && Covers(table, cover, remaining)
    ensures order != [] && |remaining| <= |cover| * Gain(table, Best(order, table, remaining), remaining)
  {
    hide Best, Gain;
    assert cover != {} by {
      var n :| n in remaining;
      assert n in Union(table, cover);
    }
    assert order != [] by {
      var t :| t in cover;
      assert t in order;
    }
    BestIsBest(order, table, remaining);
    Pigeonhole(table, cover, remaining, Gain(table, Best(order, table, remaining), remaining));
  }

  /** The greedy cover is within a harmonic factor of every cover. */
  lemma {:induction false} NearOptimal(order: seq<Test>, table: Table, remaining: set<Line>, cover: set<Test>)
    requires Elements(order) <= table.Keys
    requires cover <= Elements(order) && Covers(table, cover, remaining)
    ensures |Greedy(order, table, remaining)| as real <= Harmonic(|remaining|) * |cover| as real
    decreases |remaining|
  {
    hide Best, Greedy, Harmonic;
    if remaining == {} {
      EmptyCover(order, table);
    } else {
      WiderCovers(table, cover, Elements(order), remaining);
      GreedyUnfolds(order, table, remaining);
      EachPickEarnsItsShare(order, table, remaining, cover);
      var gained := table[Best(order, table, remaining)] * remaining;
      NearOptimal(order, table, remaining - gained, cover);
      var r, g, c := |remaining|, |gained|, |cover|;
      HarmonicGap(r, g);
      ShareIsOne(r, g, c, Harmonic(r), Harmonic(r - g));
    }
  }

  lemma {:induction false} EmptyCover(order: seq<Test>, table: Table)
    requires Elements(order) <= table.Keys
    ensures Greedy(order, table, {}) == [] && Harmonic(0) == 0.0
  {
  }

  lemma {:induction false} WiderCovers(table: Table, few: set<Test>, many: set<Test>, lines: set<Line>)
    requires few <= many <= table.Keys && Covers(table, few, lines)
    ensures Covers(table, many, lines)
  {
    forall n | n in lines
      ensures n in Union(table, many)
    {
      var t :| t in few && n in table[t];
      assert t in many;
    }
  }

  lemma {:induction false} ShareIsOne(r: nat, g: nat, c: nat, all: real, rest: real)
    requires 0 < r <= c * g && all - rest >= g as real / r as real
    ensures 1.0 + rest * c as real <= all * c as real
  {
    var x, y, z := g as real, r as real, c as real;
    assert (c * g) as real == z * x;
    assert (x / y) * y == x;
    assert (z * (x / y) - 1.0) * y == z * x - y;
    SignOf(z * (x / y) - 1.0, y);
    assert (all - rest) * z >= (x / y) * z;
  }

  lemma {:induction false} SignOf(d: real, y: real)
    requires y > 0.0 && d * y >= 0.0
    ensures d >= 0.0
  {
  }

  // ----- the tests nothing can replace -----

  /** What a test kills and no other test does. */
  function Unique(table: Table, t: Test): set<Line>
    requires t in table
  {
    table[t] - Union(table, table.Keys - {t})
  }

  /** A test has a kill of its own exactly when every cover needs it. */
  lemma {:induction false} IrreplaceableExactly(table: Table, t: Test)
    requires t in table
    ensures Unique(table, t) != {} <==>
      forall cover :: Covers(table, cover, Union(table, table.Keys)) ==> t in cover
  {
    var all := Union(table, table.Keys);
    if Unique(table, t) != {} {
      var n :| n in Unique(table, t);
      forall cover | Covers(table, cover, all)
        ensures t in cover
      {
        assert n in all;
        var u :| u in cover && n in table[u];
        assert u == t || u in table.Keys - {t};
      }
    } else {
      var others := table.Keys - {t};
      forall n | n in all
        ensures n in Union(table, others)
      {
        var u :| u in table.Keys && n in table[u];
        if u == t {
          assert n !in Unique(table, t);
        } else {
          assert u in others;
        }
      }
      assert Covers(table, others, all);
    }
  }

  // ----- the analysis -----

  /** Note the mutated line against every test of the cluster that failed. */
  method Credit(kills: map<Test, seq<Line>>, nodeids: seq<Test>, c: Candidate) returns (credited: map<Test, seq<Line>>)
    requires kills.Keys == Elements(nodeids)
    ensures credited.Keys == kills.Keys
    ensures forall t :: t in kills ==> Elements(credited[t]) == Elements(kills[t]) + Noticed(c, t)
  {
    credited := kills;
    for k := 0 to |nodeids|
      invariant credited.Keys == kills.Keys
      invariant forall t :: t in kills ==>
        Elements(credited[t]) == Elements(kills[t]) + (if t in nodeids[..k] then Noticed(c, t) else {})
    {
      var t := nodeids[k];
      assert nodeids[..k + 1] == nodeids[..k] + [t];
      if t in c.failing {
        credited := credited[t := credited[t] + [c.number]];
      }
    }
    assert nodeids[..|nodeids|] == nodeids;
  }

  method Tally(nodeids: seq<Test>, candidates: seq<Candidate>)
    returns (kills: map<Test, seq<Line>>, survived: seq<Line>)
    ensures kills.Keys == Elements(nodeids)
    ensures forall t :: t in kills ==> Elements(kills[t]) == Killed(candidates, t)
    ensures survived == Survivors(nodeids, candidates)
  {
    hide Noticed;
    kills := map t | t in nodeids :: [];
    survived := [];
    assert Killed([], "") == {};
    for i := 0 to |candidates|
      invariant kills.Keys == Elements(nodeids)
      invariant forall t :: t in kills ==> Elements(kills[t]) == Killed(candidates[..i], t)
      invariant survived == Survivors(nodeids, candidates[..i])
    {
      var c := candidates[i];
      assert candidates[..i + 1][..i] == candidates[..i];
      if Elements(nodeids) * c.failing == {} {
        survived := survived + [c.number];
      }
      KilledSnoc(candidates, i);
      kills := Credit(kills, nodeids, c);
    }
    assert candidates[..|candidates|] == candidates;
  }

  function Noticed(c: Candidate, t: Test): set<Line> {
    if t in c.failing then {c.number} else {}
  }

  lemma {:induction false} KilledSnoc(candidates: seq<Candidate>, i: nat)
    requires i < |candidates|
    ensures forall t :: Killed(candidates[..i + 1], t) == Killed(candidates[..i], t) + Noticed(candidates[i], t)
  {
    assert candidates[..i + 1] == candidates[..i] + [candidates[i]];
  }

  function AsTable(kills: map<Test, seq<Line>>): Table {
    map t | t in kills :: Elements(kills[t])
  }

  /** The cluster's tests and the order ties are broken in. */
  method Analyse(nodeids: seq<Test>, order: seq<Test>, candidates: seq<Candidate>) returns (report: Report)
    requires Elements(order) == Elements(nodeids)
    ensures report.verdict == NoMutationsAvailable <==> candidates == []
    ensures candidates != [] ==> var table := Evidence(nodeids, candidates);
      var all := Union(table, table.Keys);
      && AsTable(report.kills) == table
      && report.survived == Survivors(nodeids, candidates)
      && Elements(order) <= table.Keys && report.mustKeep == Greedy(order, table, all)
      && report.retirable == Elements(nodeids) - Elements(report.mustKeep)
      && report.irreplaceable == (map t | t in table && Unique(table, t) != {} :: Unique(table, t))
      && report.discriminating == |all|
      && (report.verdict == NoEvidence <==> all == {})
      && (report.strong <==> |all| >= 5)
  {
    if candidates == [] {
      return Report(NoMutationsAvailable, [], map[], [], map[], {}, 0, false);
    }
    hide Best, Greedy, Survivors;
    var kills, survived := Tally(nodeids, candidates);
    var table := AsTable(kills);
    assert table == Evidence(nodeids, candidates);
    var all := Union(table, table.Keys);
    var keep := Cover(order, table);
    var unique := map t | t in table && Unique(table, t) != {} :: Unique(table, t);
    report := Report(
      if all == {} then NoEvidence else Ok, survived, kills, keep, unique,
      Elements(nodeids) - Elements(keep), |all|, |all| >= 5);
  }

  /** The loop that takes the best test until nothing remains. */
  method Cover(order: seq<Test>, table: Table) returns (keep: seq<Test>)
    requires Elements(order) == table.Keys
    ensures keep == Greedy(order, table, Union(table, table.Keys))
  {
    hide Best, Greedy, Union;
    var remaining := Union(table, table.Keys);
    ghost var all := remaining;
    keep := [];
    while remaining != {}
      invariant Covers(table, Elements(order), remaining)
      invariant Greedy(order, table, all) == keep + Greedy(order, table, remaining)
      decreases |remaining|
    {
      GreedyUnfolds(order, table, remaining);
      var best := PickBest(order, table, remaining);
      var gained := table[best] * remaining;
      keep := keep + [best];
      remaining := remaining - gained;
    }
    EmptyCover(order, table);
  }

  method PickBest(order: seq<Test>, table: Table, remaining: set<Line>) returns (best: Test)
    requires order != [] && Elements(order) <= table.Keys
    ensures best == Best(order, table, remaining)
  {
    best := order[0];
    var i := 1;
    while i < |order|
      invariant 1 <= i <= |order| && Elements(order[..i]) <= table.Keys
      invariant best == Best(order[..i], table, remaining)
    {
      assert order[..i + 1][..i] == order[..i];
      assert forall t :: t in order[..i + 1] ==> t in order;
      if Gain(table, order[i], remaining) > Gain(table, best, remaining) {
        best := order[i];
      }
      i := i + 1;
    }
    assert order[..|order|] == order;
  }

  // ----- what the report means -----

  ghost predicate OneMutantALine(candidates: seq<Candidate>) {
    forall i, j :: 0 <= i < j < |candidates| ==> candidates[i].number != candidates[j].number
  }

  /** Every mutation some test of the cluster notices is noticed by a kept test. */
  lemma {:induction false} NoDetectionLost(nodeids: seq<Test>, order: seq<Test>, candidates: seq<Candidate>, i: nat)
    requires OneMutantALine(candidates) && i < |candidates|
    requires Elements(order) == Elements(nodeids)
    ensures var table := Evidence(nodeids, candidates);
      var keep := Greedy(order, table, Union(table, table.Keys));
      (exists t :: t in nodeids && t in candidates[i].failing) <==>
      (exists t :: t in keep && t in candidates[i].failing)
  {
    hide Greedy;
    var table := Evidence(nodeids, candidates);
    var all := Union(table, table.Keys);
    var keep := Greedy(order, table, all);
    forall k | k in keep && k in candidates[i].failing
      ensures k in nodeids
    {
      assert k in Elements(order);
    }
    if t :| t in nodeids && t in candidates[i].failing {
      assert candidates[i].number in table[t];
      assert candidates[i].number in all;
      GreedyCovers(order, table, all);
      var k :| k in Elements(keep) && candidates[i].number in table[k];
      var c :| c in candidates && k in c.failing && c.number == candidates[i].number;
      var j :| 0 <= j < |candidates| && candidates[j] == c;
      assert i == j;
    }
  }

  /** The tests listed as irreplaceable are all kept. */
  lemma {:induction false} IrreplaceableIsKept(order: seq<Test>, table: Table, t: Test)
    requires Elements(order) == table.Keys && t in table && Unique(table, t) != {}
    ensures t in Greedy(order, table, Union(table, table.Keys))
  {
    hide Greedy;
    GreedyCovers(order, table, Union(table, table.Keys));
    IrreplaceableExactly(table, t);
  }

  /** No test is kept twice. */
  lemma {:induction false} KeptOnce(order: seq<Test>, table: Table, remaining: set<Line>)
    requires Covers(table, Elements(order), remaining)
    ensures var keep := Greedy(order, table, remaining);
      && (forall i, j :: 0 <= i < j < |keep| ==> keep[i] != keep[j])
      && (forall t :: t in keep ==> table[t] * remaining != {})
    decreases |remaining|
  {
    hide Best, Greedy;
    if remaining == {} {
      EmptyCover(order, table);
    } else {
      GreedyUnfolds(order, table, remaining);
      var best := Best(order, table, remaining);
      var gained := table[best] * remaining;
      KeptOnce(order, table, remaining - gained);
      assert table[best] * (remaining - gained) == {};
      forall t | t in Greedy(order, table, remaining - gained)
        ensures table[t] * remaining != {}
      {
        var n :| n in table[t] * (remaining - gained);
        assert n in table[t] * remaining;
      }
    }
  }

  /** With at most three killed lines the kept set is as small as any cover. */
  lemma {:induction false} SmallestUpToThree(order: seq<Test>, table: Table, remaining: set<Line>, cover: set<Test>)
    requires Elements(order) <= table.Keys && |remaining| <= 3
    requires cover <= Elements(order) && Covers(table, cover, remaining)
    ensures |Greedy(order, table, remaining)| <= |cover|
    decreases |remaining|
  {
    hide Best, Greedy;
    if remaining == {} {
      EmptyCover(order, table);
    } else {
      WiderCovers(table, cover, Elements(order), remaining);
      GreedyUnfolds(order, table, remaining);
      EachPickEarnsItsShare(order, table, remaining, cover);
      var gained := table[Best(order, table, remaining)] * remaining;
      assert |remaining - gained| == |remaining| - |gained|;
      assert |remaining| <= |cover| * |gained|;
      GreedyNoLonger(order, table, remaining - gained);
      SmallShares(|remaining|, |gained|, |cover|);
    }
  }

  /** Every pick removes a line, so there are no more picks than lines. */
  lemma {:induction false} GreedyNoLonger(order: seq<Test>, table: Table, remaining: set<Line>)
    requires Elements(order) <= table.Keys
    ensures |Greedy(order, table, remaining)| <= |remaining|
    decreases |remaining|
  {
    hide Best;
    if remaining != {} && order != [] {
      var gained := table[Best(order, table, remaining)] * remaining;
      if gained != {} {
        Shrinks(remaining, gained);
        GreedyNoLonger(order, table, remaining - gained);
      }
    }
  }

  /** Of at most three lines, one pick leaves fewer than the cover has tests, or none. */
  lemma {:induction false} SmallShares(r: nat, g: nat, c: nat)
    requires 0 < g <= r <= 3 && r <= c * g
    ensures r - g <= c - 1
  {
    if c >= 3 {
    } else if c == 2 {
      assert g * 2 >= r;
    } else {
      assert c == 1 && g >= r;
    }
  }

  const WIDE: Test := "a"
  const LEFT: Test := "b"
  const RIGHT: Test := "c"

  /** The lines from the first number to the last. */
  function Lines(first: nat, last: nat): (lines: set<Line>)
    ensures forall k :: k in lines <==> first <= k <= last
    decreases last
  {
    if last < first then {} else if last == 0 then {0} else Lines(first, last - 1) + {last}
  }

  /** A wide test across two tests that cover all n lines between them. */
  function Straddled(n: nat): Table {
    map[WIDE := {2, 3} + Lines(5, n), LEFT := {1, 2}, RIGHT := {3, 4} + Lines(5, n)]
  }

  lemma {:induction false} LinesCounted(n: nat)
    ensures |Lines(1, n)| == n
  {
    if n > 0 {
      LinesCounted(n - 1);
    }
  }

  lemma {:induction false} StraddledFacts(n: nat)
    requires n >= 4
    ensures var table := Straddled(n);
      && Elements([WIDE, LEFT, RIGHT]) == table.Keys && Union(table, table.Keys) == Lines(1, n)
      && Covers(table, {LEFT, RIGHT}, Lines(1, n))
      && Unique(table, LEFT) != {} && Unique(table, RIGHT) != {}
  {
    var table := Straddled(n);
    assert WIDE[0] == 'a' && LEFT[0] == 'b' && RIGHT[0] == 'c';
    forall k | k in Lines(1, n)
      ensures k in table[LEFT] || k in table[RIGHT]
    {
    }
    assert 1 in Unique(table, LEFT) && 4 in Unique(table, RIGHT);
  }

  lemma {:induction false} WideWins(n: nat)
    requires n >= 4
    ensures var table := Straddled(n);
      && Gain(table, WIDE, Lines(1, n)) >= Gain(table, LEFT, Lines(1, n))
      && Gain(table, WIDE, Lines(1, n)) >= Gain(table, RIGHT, Lines(1, n))
  {
    StraddledLines(n);
    AddTwo(Lines(5, n), 2, 3);
    AddTwo(Lines(5, n), 3, 4);
    AddTwo({}, 1, 2);
    assert {} + {1, 2} == {1, 2} && {2, 3} + Lines(5, n) == Lines(5, n) + {2, 3} &&
      {3, 4} + Lines(5, n) == Lines(5, n) + {3, 4};
    hide Lines, Straddled;
    var table, all := Straddled(n), Lines(1, n);
    forall t | t in table
      ensures Gain(table, t, all) == |table[t]|
    {
      assert table[t] * all == table[t];
    }
  }

  lemma {:induction false} StraddledLines(n: nat)
    requires n >= 4
    ensures var table := Straddled(n);
      && WIDE in table && table[WIDE] == {2, 3} + Lines(5, n)
      && LEFT in table && table[LEFT] == {1, 2}
      && RIGHT in table && table[RIGHT] == {3, 4} + Lines(5, n)
      && forall t :: t in table ==> table[t] <= Lines(1, n)
  {
    hide Lines;
    assert WIDE[0] == 'a' && LEFT[0] == 'b' && RIGHT[0] == 'c';
  }

  lemma {:induction false} AddTwo(lines: set<Line>, a: Line, b: Line)
    requires a !in lines && b !in lines && a != b
    ensures |lines + {a, b}| == |lines| + 2
  {
    assert lines + {a, b} == lines + {a} + {b};
  }

  /** From four killed lines on the kept set need not be the smallest: for every
      such number there is a table with three kept where two would do. */
  lemma {:induction false} NotAlwaysSmallest(n: nat)
    requires n >= 4
    ensures var order, table := [WIDE, LEFT, RIGHT], Straddled(n);
      && Elements(order) == table.Keys && |Union(table, table.Keys)| == n
      && Covers(table, {LEFT, RIGHT}, Union(table, table.Keys))
      && |Greedy(order, table, Union(table, table.Keys))| > |{LEFT, RIGHT}|
  {
    hide Greedy, Gain, Union, Unique, Straddled, Lines, Best;
    var order, table := [WIDE, LEFT, RIGHT], Straddled(n);
    StraddledFacts(n);
    LinesCounted(n);
    var all := Union(table, table.Keys);
    WideWins(n);
    FirstOfThree(order, table, all);
    KeptOnce(order, table, all);
    IrreplaceableIsKept(order, table, LEFT);
    IrreplaceableIsKept(order, table, RIGHT);
    assert all != {};
    GreedyUnfolds(order, table, all);
    var keep := Greedy(order, table, all);
    assert keep[0] == WIDE;
    var j :| 0 <= j < |keep| && keep[j] == LEFT;
    var k :| 0 <= k < |keep| && keep[k] == RIGHT;
    assert WIDE[0] == 'a' && LEFT[0] == 'b' && RIGHT[0] == 'c';
    assert |{LEFT, RIGHT}| == 2;
  }

  lemma {:induction false} FirstOfThree(order: seq<Test>, table: Table, lines: set<Line>)
    requires |order| == 3 && Elements(order) <= table.Keys
    requires Gain(table, order[0], lines) >= Gain(table, order[1], lines)
    requires Gain(table, order[0], lines) >= Gain(table, order[2], lines)
    ensures Best(order, table, lines) == order[0]
  {
    hide Gain;
    assert Elements(order[..2]) <= Elements(order) && Elements(order[..2][..1]) <= Elements(order);
    assert order[..2][..1] == order[..1] && order[..1][0] == order[0] && order[..2][1] == order[1];
    assert Best(order[..1], table, lines) == order[0];
    assert Best(order[..2], table, lines) == order[0];
  }

  /** All clusters with that many killed lines keep a smallest cover. */
  ghost predicate AlwaysSmallest(n: nat) {
    forall order: seq<Test>, table: Table, cover: set<Test> ::
      Elements(order) == table.Keys && |Union(table, table.Keys)| == n &&
        Covers(table, cover, Union(table, table.Keys)) ==>
        |Greedy(order, table, Union(table, table.Keys))| <= |cover|
  }

  /** "The smallest set that still catches everything" is what is kept exactly
      when at most three lines are killed. */
  lemma {:induction false} SmallestExactly(n: nat)
    ensures AlwaysSmallest(n) <==> n <= 3
  {
    hide Greedy, Union, Straddled, Covers;
    if n <= 3 {
      forall order: seq<Test>, table: Table, cover: set<Test> |
        Elements(order) == table.Keys && |Union(table, table.Keys)| == n &&
          Covers(table, cover, Union(table, table.Keys))
        ensures |Greedy(order, table, Union(table, table.Keys))| <= |cover|
      {
        CoverIsOfTests(table, cover, Union(table, table.Keys));
        SmallestUpToThree(order, table, Union(table, table.Keys), cover);
      }
    } else {
      NotAlwaysSmallest(n);
    }
  }

  lemma {:induction false} CoverIsOfTests(table: Table, cover: set<Test>, lines: set<Line>)
    requires Covers(table, cover, lines)
    ensures cover <= table.Keys
  {
  }
}
