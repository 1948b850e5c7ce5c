/** Inspection and in-place migration of the gateway's object table. */
module StorageInventory {
  import opened Collections
  import opened Outcomes
  import opened Varint
  import opened WireFields
  import opened SandboxRewrite

  datatype Row = Row(id: string, name: string, payload: bytes)

  /** What inspection makes of one row. */
  datatype Kind = Legacy(rewritten: bytes) | Nospec(phase: string) | Current

  datatype LegacyRow = LegacyRow(row: Row, rewritten: bytes)

  /** `nospecPhases` counts the rows without a spec, phase by phase. */
  datatype Inventory = Inventory(sandboxCount: nat, legacy: seq<LegacyRow>, nospecPhases: multiset<string>)

  function Classify(payload: bytes): Result<Kind, Fault> {
    var rewrite :- RewritePayload(payload);
    if rewrite.changed then Ok(Legacy(rewrite.payload))
    else
      var spec :- HasSpec(payload);
      if spec then Ok(Current)
      else
        var phase :- LifecyclePhase(payload);
        Ok(Nospec(phase))
  }

  function Count(inventory: Inventory, row: Row, kind: Kind): Inventory {
    match kind
    case Legacy(rewritten) =>
      inventory.(sandboxCount := inventory.sandboxCount + 1, legacy := inventory.legacy + [LegacyRow(row, rewritten)])
    case Nospec(phase) =>
      inventory.(sandboxCount := inventory.sandboxCount + 1, nospecPhases := inventory.nospecPhases + multiset{phase})
    case Current =>
      inventory.(sandboxCount := inventory.sandboxCount + 1)
  }

  /** Inspection of all rows; the first row that is refused decides. */
  function Inspect(rows: seq<Row>): Result<Inventory, Fault> {
    if rows == [] then Ok(Inventory(0, [], multiset{}))
    else
      var n := |rows| - 1;
      var before :- Inspect(rows[..n]);
      var kind :- Classify(rows[n].payload);
      Ok(Count(before, rows[n], kind))
  }

  method InspectRows(rows: seq<Row>) returns (r: Result<Inventory, Fault>)
    ensures r == Inspect(rows)
  {
    hide RewritePayload, HasSpec, LifecyclePhase;
    var count, legacy, nospecByPhase := 0, [], multiset{};
    for i := 0 to |rows|
      invariant Inspect(rows[..i]) == Ok(Inventory(count, legacy, nospecByPhase))
    {
      assert rows[..i + 1][..i] == rows[..i];
      var payload := rows[i].payload;
      count := count + 1;
      var rewrite := RewritePayload(payload);
      if rewrite.Err? {
        RefusedEarly(rows, i + 1);
        return Err(rewrite.error);
      }
      if rewrite.value.changed {
        legacy := legacy + [LegacyRow(rows[i], rewrite.value.payload)];
      } else {
        var spec := HasSpec(payload);
        if spec.Err? {
          RefusedEarly(rows, i + 1);
          return Err(spec.error);
        }
        if !spec.value {
          var phase := LifecyclePhase(payload);
          if phase.Err? {
            RefusedEarly(rows, i + 1);
            return Err(phase.error);
          }
          assert nospecByPhase[phase.value := nospecByPhase[phase.value] + 1] == nospecByPhase + multiset{phase.value};
          nospecByPhase := nospecByPhase[phase.value := nospecByPhase[phase.value] + 1];
        }
      }
    }
    assert rows[..|rows|] == rows;
    return Ok(Inventory(count, legacy, nospecByPhase));
  }

  lemma {:induction false} RefusedEarly(rows: seq<Row>, n: nat)
    requires n <= |rows| && Inspect(rows[..n]).Err?
    ensures Inspect(rows) == Inspect(rows[..n])
    decreases |rows| - n
  {
    hide Classify;
    if n < |rows| {
      assert rows[..n + 1][..n] == rows[..n];
      RefusedEarly(rows, n + 1);
    } else {
      assert rows[..n] == rows;
    }
  }

  // ----- the meaning of an inventory -----

  predicate IsLegacy(kind: Result<Kind, Fault>) {
    kind.Ok? && kind.value.Legacy?
  }

  predicate IsNospec(kind: Result<Kind, Fault>) {
    kind.Ok? && kind.value.Nospec?
  }

  function InPhase(phase: string): Result<Kind, Fault> -> bool {
    kind => kind == Ok(Nospec(phase))
  }

  /** How many of the rows are of this kind. */
  ghost function Tally(rows: seq<Row>, kind: Result<Kind, Fault> -> bool): nat {
    if rows == [] then 0
    else Tally(rows[..|rows| - 1], kind) + if kind(Classify(rows[|rows| - 1].payload)) then 1 else 0
  }

  /** Inspection accepts exactly the tables of which it accepts every row, and
      its figures are head counts: of rows, of rows the rewrite changes, and of
      rows without a spec in each phase. */
  lemma {:induction false} InventoryCounts(rows: seq<Row>)
    ensures Inspect(rows).Ok? <==> forall i :: 0 <= i < |rows| ==> RewritePayload(rows[i].payload).Ok?
    ensures Inspect(rows).Ok? ==>
      var inventory := Inspect(rows).value;
      && inventory.sandboxCount == |rows|
      && |inventory.legacy| == Tally(rows, IsLegacy)
      && |inventory.nospecPhases| == Tally(rows, IsNospec)
      && forall phase :: inventory.nospecPhases[phase] == Tally(rows, InPhase(phase))
  {
    hide Classify, RewritePayload, Inspect, Tally, Count;
    InspectUnfolds(rows);
    if rows != [] {
      var n := |rows| - 1;
      InventoryCounts(rows[..n]);
      AcceptedOnce(rows[n].payload);
      assert forall i :: 0 <= i < n ==> rows[..n][i] == rows[i];
      TallyUnfolds(rows, IsLegacy);
      TallyUnfolds(rows, IsNospec);
      forall phase
        ensures Tally(rows, InPhase(phase)) ==
          Tally(rows[..n], InPhase(phase)) + if InPhase(phase)(Classify(rows[n].payload)) then 1 else 0
      {
        TallyUnfolds(rows, InPhase(phase));
      }
      if Inspect(rows).Ok? {
        CountAdds(Inspect(rows[..n]).value, rows[n], Classify(rows[n].payload).value);
      }
    } else {
      TallyNothing(rows);
    }
  }

  lemma {:induction false} InspectUnfolds(rows: seq<Row>)
    ensures rows == [] ==> Inspect(rows) == Ok(Inventory(0, [], multiset{}))
    ensures rows != [] ==>
      var n := |rows| - 1;
      && (Inspect(rows).Ok? <==> Inspect(rows[..n]).Ok? && Classify(rows[n].payload).Ok?)
      && (Inspect(rows).Ok? ==>
          Inspect(rows).value == Count(Inspect(rows[..n]).value, rows[n], Classify(rows[n].payload).value))
  {
    hide Classify, Count;
  }

  lemma {:induction false} TallyUnfolds(rows: seq<Row>, kind: Result<Kind, Fault> -> bool)
    requires rows != []
    ensures var n := |rows| - 1;
      Tally(rows, kind) == Tally(rows[..n], kind) + if kind(Classify(rows[n].payload)) then 1 else 0
  {
    hide Classify;
  }

  lemma {:induction false} TallyNothing(rows: seq<Row>)
    requires rows == []
    ensures forall kind: Result<Kind, Fault> -> bool :: Tally(rows, kind) == 0
  {
  }

  lemma {:induction false} CountAdds(inventory: Inventory, row: Row, kind: Kind)
    ensures var r := Count(inventory, row, kind);
      && r.sandboxCount == inventory.sandboxCount + 1
      && |r.legacy| == |inventory.legacy| + (if IsLegacy(Ok(kind)) then 1 else 0)
      && |r.nospecPhases| == |inventory.nospecPhases| + (if IsNospec(Ok(kind)) then 1 else 0)
      && forall phase ::
           r.nospecPhases[phase] == inventory.nospecPhases[phase] + if InPhase(phase)(Ok(kind)) then 1 else 0
  {
  }

  /** A payload that can be rewritten can be classified. */
  lemma {:induction false} AcceptedOnce(payload: bytes)
    ensures Classify(payload).Ok? <==> RewritePayload(payload).Ok?
  {
  }

  // ----- convergence -----

  function RewriteRow(row: Row): Row {
    var r := RewritePayload(row.payload);
    if r.Ok? && r.value.changed then row.(payload := r.value.payload) else row
  }

  function RewriteRows(rows: seq<Row>): (r: seq<Row>)
    ensures |r| == |rows|
    ensures forall i :: 0 <= i < |rows| ==> r[i] == RewriteRow(rows[i])
  {
    seq(|rows|, i requires 0 <= i < |rows| => RewriteRow(rows[i]))
  }

  predicate Bounded(rows: seq<Row>) {
    forall row :: row in rows ==> |row.payload| < LIMIT
  }

  lemma {:induction false} RowConverges(row: Row)
    requires Classify(row.payload).Ok? && |row.payload| < LIMIT
    ensures var kind := Classify(row.payload).value;
      Classify(RewriteRow(row).payload) == Ok(if kind.Legacy? then Current else kind)
  {
    PayloadReadable(row.payload);
    PayloadSettled(row.payload);
    if Classify(row.payload).value.Legacy? {
      var k := PayloadSurgery(row.payload);
      HasSpecByViews(row.payload);
      LegacyHasSpec(row.payload);
    }
  }

  lemma {:induction false} LegacyHasSpec(payload: bytes)
    requires RewritePayload(payload).Ok? && RewritePayload(payload).value.changed
    ensures HasSpec(payload) == Ok(true)
  {
  }

  /** Rewriting every legacy row of an accepted table gives a table that is
      accepted again, has no legacy row left and is otherwise counted alike. */
  lemma {:induction false} Converges(rows: seq<Row>)
    requires Inspect(rows).Ok? && Bounded(rows)
    ensures Inspect(RewriteRows(rows)) == Ok(Inspect(rows).value.(legacy := []))
  {
    hide Classify, RewriteRow;
    if rows != [] {
      var n := |rows| - 1;
      Converges(rows[..n]);
      RowConverges(rows[n]);
      assert RewriteRows(rows)[..n] == RewriteRows(rows[..n]);
    }
  }
}
