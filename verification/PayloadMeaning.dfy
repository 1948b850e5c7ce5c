/** What the storage helper makes of a payload, told from the chunks it holds. */
module PayloadMeaning {
  import opened Collections
  import opened Outcomes
  import opened Varint
  import opened WireFields
  import opened SandboxRewrite
  import opened StorageInventory
  import opened GatewayDatabase

  // ----- how many chunks have a number -----

  ghost predicate NoneNumbered(cs: seq<Chunk>, n: nat) {
    forall i :: 0 <= i < |cs| ==> cs[i].number != n
  }

  /** The chunk at `k`, and no other, has the number. */
  ghost predicate OnlyAt(cs: seq<Chunk>, n: nat, k: int) {
    0 <= k < |cs| && forall i :: 0 <= i < |cs| ==> (cs[i].number == n <==> i == k)
  }

  ghost predicate SeveralNumbered(cs: seq<Chunk>, n: nat) {
    exists i, j :: 0 <= i < j < |cs| && cs[i].number == n && cs[j].number == n
  }

  lemma {:induction false} PickCounts(cs: seq<Chunk>, n: nat) returns (k: nat)
    ensures Pick(cs, n) == [] <==> NoneNumbered(cs, n)
    ensures |Pick(cs, n)| > 1 <==> SeveralNumbered(cs, n)
    ensures |Pick(cs, n)| == 1 ==> OnlyAt(cs, n, k) && Pick(cs, n) == [cs[k]]
  {
    hide Pick;
    k := 0;
    PickFirst(cs, n);
    if cs != [] {
      var rest := cs[1..];
      var below := PickCounts(rest, n);
      assert forall i :: 0 <= i < |rest| ==> rest[i] == cs[i + 1];
      k := if cs[0].number == n then 0 else below + 1;
      if cs[0].number == n && Pick(rest, n) != [] {
        var j :| 0 <= j < |rest| && rest[j].number == n;
        assert cs[j + 1].number == n;
      }
      if SeveralNumbered(rest, n) {
        var i, j :| 0 <= i < j < |rest| && rest[i].number == n && rest[j].number == n;
        assert cs[i + 1].number == n && cs[j + 1].number == n;
      }
      if SeveralNumbered(cs, n) && cs[0].number != n {
        var i, j :| 0 <= i < j < |cs| && cs[i].number == n && cs[j].number == n;
        assert rest[i - 1].number == n && rest[j - 1].number == n;
      }
    }
  }

  lemma {:induction false} OnlyIsPicked(cs: seq<Chunk>, n: nat, k: int)
    requires OnlyAt(cs, n, k)
    ensures Pick(cs, n) == [cs[k]]
  {
    hide Pick;
    var j := PickCounts(cs, n);
    assert cs[k].number == n;
  }

  /** Picking fields is picking their chunks. */
  lemma {:induction false} Picked(raw: bytes, n: nat) returns (k: nat)
    requires Fields(raw, 0).Ok?
    ensures var cs, own := AllViews(raw), WithNumber(Fields(raw, 0).value, n);
      && (own == [] <==> NoneNumbered(cs, n))
      && (|own| > 1 <==> SeveralNumbered(cs, n))
      && (|own| == 1 ==>
          && OnlyAt(cs, n, k) && cs[k] == View(raw, own[0])
          && WellPlaced(own[0], own[0].start, |raw|) && 0 <= own[0].start)
  {
    hide Fields, Pick, View;
    var own := WithNumber(Fields(raw, 0).value, n);
    PickIsWithNumber(raw, Fields(raw, 0).value, n);
    k := PickCounts(AllViews(raw), n);
    assert |own| == |Pick(AllViews(raw), n)|;
    if |own| == 1 {
      assert Views(raw, own)[0] == View(raw, own[0]);
      FieldWithin(raw, own[0]);
    }
  }

  // ----- specs -----

  /** A boolean of the old releases: field 9 as the varint 0 or 1. */
  predicate IsBoolean(c: Chunk) {
    c.wireType == 0 && (c.varint == Some(0) || c.varint == Some(1))
  }

  /** A nested message of the new releases that can be read. */
  predicate IsReadableMessage(c: Chunk) {
    c.wireType == 2 && Fields(c.value, 0).Ok?
  }

  /** A readable spec is changed exactly when its one chunk numbered 9 is a
      boolean, left alone exactly when there is none or a readable message, and
      refused exactly otherwise, several chunks as ambiguous. */
  lemma {:induction false} SpecExactly(raw: bytes) returns (k: nat)
    ensures Fields(raw, 0).Err? ==> RewriteSpec(raw) == Err(Fields(raw, 0).error)
    ensures Fields(raw, 0).Ok? ==>
      var cs, r := AllViews(raw), RewriteSpec(raw);
      && (NoneNumbered(cs, 9) || OnlyAt(cs, 9, k) || SeveralNumbered(cs, 9))
      && (NoneNumbered(cs, 9) ==> r == Ok(Rewrite(raw, false)))
      && (SeveralNumbered(cs, 9) ==> r == Err(AmbiguousField9))
      && (OnlyAt(cs, 9, k) ==>
          && (r.Ok? && r.value.changed <==> IsBoolean(cs[k]))
          && (IsReadableMessage(cs[k]) ==> r == Ok(Rewrite(raw, false)))
          && (cs[k].wireType == 2 && !IsReadableMessage(cs[k]) ==> r == Err(Fields(cs[k].value, 0).error))
          && (cs[k].wireType != 2 && !IsBoolean(cs[k]) ==> r == Err(UnsupportedLegacyValue)))
  {
    hide Fields, Spliced, Message, NoneNumbered, SeveralNumbered, Encoding;
    k := 0;
    if Fields(raw, 0).Ok? {
      k := Picked(raw, 9);
      if SeveralNumbered(AllViews(raw), 9) || NoneNumbered(AllViews(raw), 9) {
        NotOnly(AllViews(raw), 9);
      }
    }
  }

  lemma {:induction false} NotOnly(cs: seq<Chunk>, n: nat)
    requires SeveralNumbered(cs, n) || NoneNumbered(cs, n)
    ensures forall k :: !OnlyAt(cs, n, k)
  {
    forall k
      ensures !OnlyAt(cs, n, k)
    {
      if 0 <= k < |cs| && NoneNumbered(cs, n) {
        assert cs[k].number != n;
      }
      if SeveralNumbered(cs, n) {
        var i, j :| 0 <= i < j < |cs| && cs[i].number == n && cs[j].number == n;
      }
    }
  }

  // ----- payloads -----

  /** The same for a payload and its one chunk numbered 2, whose body decides. */
  lemma {:induction false} PayloadExactly(raw: bytes) returns (k: nat)
    ensures Fields(raw, 0).Err? ==> RewritePayload(raw) == Err(Fields(raw, 0).error)
    ensures Fields(raw, 0).Ok? ==>
      var cs, r := AllViews(raw), RewritePayload(raw);
      && (NoneNumbered(cs, 2) || OnlyAt(cs, 2, k) || SeveralNumbered(cs, 2))
      && (NoneNumbered(cs, 2) ==> r == Ok(Rewrite(raw, false)))
      && (SeveralNumbered(cs, 2) ==> r == Err(AmbiguousSpec))
      && (OnlyAt(cs, 2, k) && cs[k].wireType != 2 ==> r == Err(AmbiguousSpec))
      && (OnlyAt(cs, 2, k) && cs[k].wireType == 2 ==>
          var spec := RewriteSpec(cs[k].value);
          && (spec.Err? ==> r == Err(spec.error))
          && (spec.Ok? ==> r.Ok? && r.value.changed == spec.value.changed)
          && (spec.Ok? && !spec.value.changed ==> r.value.payload == raw))
  {
    hide Fields, Spliced, Message, NoneNumbered, SeveralNumbered, Encoding, RewriteSpec;
    k := 0;
    if Fields(raw, 0).Ok? {
      k := Picked(raw, 2);
      if SeveralNumbered(AllViews(raw), 2) || NoneNumbered(AllViews(raw), 2) {
        NotOnly(AllViews(raw), 2);
      }
    }
  }

  /** The payload's one spec has, as its one field 9, a boolean. */
  ghost predicate HoldsBoolean(payload: bytes) {
    && Fields(payload, 0).Ok?
    && exists k :: OnlyAt(AllViews(payload), 2, k) && HasBoolean(AllViews(payload)[k])
  }

  ghost predicate HasBoolean(spec: Chunk) {
    && IsReadableMessage(spec)
    && exists j :: OnlyAt(AllViews(spec.value), 9, j) && IsBoolean(AllViews(spec.value)[j])
  }

  /** What a payload must be like to be accepted without being changed. */
  ghost predicate HoldsNoBoolean(payload: bytes) {
    && Fields(payload, 0).Ok?
    && (|| NoneNumbered(AllViews(payload), 2)
        || exists k :: OnlyAt(AllViews(payload), 2, k) && HasNoBoolean(AllViews(payload)[k]))
  }

  ghost predicate HasNoBoolean(spec: Chunk) {
    && IsReadableMessage(spec)
    && (|| NoneNumbered(AllViews(spec.value), 9)
        || exists j :: OnlyAt(AllViews(spec.value), 9, j) && IsReadableMessage(AllViews(spec.value)[j]))
  }

  /** A row is legacy exactly when its payload holds the boolean; it is refused
      exactly when its payload is of neither kind. */
  lemma {:induction false} LegacyExactly(payload: bytes)
    ensures RewritePayload(payload).Ok? && RewritePayload(payload).value.changed <==> HoldsBoolean(payload)
    ensures RewritePayload(payload).Ok? && !RewritePayload(payload).value.changed <==> HoldsNoBoolean(payload)
  {
    hide Fields, RewriteSpec, RewritePayload, NoneNumbered, SeveralNumbered, OnlyAt, HasBoolean, HasNoBoolean;
    var k := PayloadExactly(payload);
    if Fields(payload, 0).Ok? {
      var cs := AllViews(payload);
      OnlyOne(cs, 2, k);
      if OnlyAt(cs, 2, k) {
        OnlyInside(cs, 2, k);
        SpecHasBoolean(cs[k]);
      }
    }
  }

  lemma {:induction false} SpecHasBoolean(spec: Chunk)
    ensures spec.wireType != 2 ==> !HasBoolean(spec) && !HasNoBoolean(spec)
    ensures spec.wireType == 2 ==>
      && (RewriteSpec(spec.value).Ok? && RewriteSpec(spec.value).value.changed <==> HasBoolean(spec))
      && (RewriteSpec(spec.value).Ok? && !RewriteSpec(spec.value).value.changed <==> HasNoBoolean(spec))
  {
    hide Fields, RewriteSpec, NoneNumbered, SeveralNumbered, OnlyAt;
    var j := SpecExactly(spec.value);
    if Fields(spec.value, 0).Ok? {
      OnlyOne(AllViews(spec.value), 9, j);
      if OnlyAt(AllViews(spec.value), 9, j) {
        OnlyInside(AllViews(spec.value), 9, j);
      }
    }
  }

  lemma {:induction false} OnlyInside(cs: seq<Chunk>, n: nat, k: int)
    requires OnlyAt(cs, n, k)
    ensures 0 <= k < |cs|
  {
  }

  lemma {:induction false} OnlyOne(cs: seq<Chunk>, n: nat, k: int)
    ensures OnlyAt(cs, n, k) ==> !NoneNumbered(cs, n) && !SeveralNumbered(cs, n)
    ensures forall i :: OnlyAt(cs, n, i) ==> 0 <= i < |cs| && !NoneNumbered(cs, n) && !SeveralNumbered(cs, n)
    ensures forall i :: OnlyAt(cs, n, i) && OnlyAt(cs, n, k) ==> i == k
  {
    if SeveralNumbered(cs, n) || NoneNumbered(cs, n) {
      NotOnly(cs, n);
    }
    forall i | OnlyAt(cs, n, i)
      ensures 0 <= i < |cs| && !NoneNumbered(cs, n)
    {
      assert cs[i].number == n;
    }
  }

  // ----- phases -----

  const PHASES: seq<string> :=
    ["unspecified", "provisioning", "running", "ready", "error", "terminating", "terminated"]

  /** The number a run of digits spells. */
  function Spelled(digits: string): nat {
    if digits == [] then 0
    else
      var n := |digits| - 1;
      10 * Spelled(digits[..n]) + if '0' <= digits[n] <= '9' then (digits[n] - '0') as nat else 0
  }

  /** The seven known phases by name, and every other one by its digits. */
  lemma {:induction false} LabelNames(number: nat)
    ensures number < 7 ==> LabelFor(number) == PHASES[number]
    ensures number >= 7 ==> LabelFor(number) == "phase_" + Decimal(number)
    ensures Spelled(Decimal(number)) == number && (number >= 10 ==> Decimal(number)[0] != '0')
    ensures forall c :: c in Decimal(number) ==> '0' <= c <= '9'
  {
    DecimalSpells(number);
  }

  lemma {:induction false} Digit(k: nat)
    requires k < 10
    ensures "0123456789"[k] == '0' + k as char
  {
    var digits := "0123456789";
    assert digits[0] == '0' && digits[1] == '1' && digits[2] == '2' && digits[3] == '3' && digits[4] == '4';
    assert digits[5] == '5' && digits[6] == '6' && digits[7] == '7' && digits[8] == '8' && digits[9] == '9';
  }

  lemma {:induction false} SpelledSnoc(digits: string, k: nat)
    requires k < 10
    ensures Spelled(digits + ['0' + k as char]) == 10 * Spelled(digits) + k
  {
    assert (digits + ['0' + k as char])[..|digits|] == digits;
  }

  lemma {:induction false} DecimalSpells(n: nat)
    ensures Decimal(n) != [] && Spelled(Decimal(n)) == n && (n > 0 ==> Decimal(n)[0] != '0')
    ensures forall c :: c in Decimal(n) ==> '0' <= c <= '9'
  {
    hide Spelled;
    Digit(n % 10);
    if n < 10 {
      SpelledSnoc("", n);
      assert Decimal(n) == "" + ['0' + n as char];
      NothingSpelled();
    } else {
      DecimalSpells(n / 10);
      SpelledSnoc(Decimal(n / 10), n % 10);
      assert Decimal(n) == Decimal(n / 10) + ['0' + (n % 10) as char];
    }
  }

  lemma {:induction false} NothingSpelled()
    ensures Spelled("") == 0
  {
  }

  /** A status that carries a phase: itself, or in its one chunk numbered 1. */
  ghost predicate CarriesPhase(status: Chunk, number: nat) {
    || (status.wireType == 0 && status.varint == Some(number))
    || (&& IsReadableMessage(status)
        && exists j :: OnlyAt(AllViews(status.value), 1, j) &&
             AllViews(status.value)[j].wireType == 0 && AllViews(status.value)[j].varint == Some(number))
  }

  /** A payload's phase is the one its only status carries, and else unknown. */
  lemma {:induction false} PhaseExactly(raw: bytes)
    requires Fields(raw, 0).Ok?
    ensures forall k, number: nat :: OnlyAt(AllViews(raw), 3, k) && CarriesPhase(AllViews(raw)[k], number) ==>
      LifecyclePhase(raw) == Ok(LabelFor(number))
    ensures (forall k, number: nat :: !(OnlyAt(AllViews(raw), 3, k) && CarriesPhase(AllViews(raw)[k], number))) ==>
      LifecyclePhase(raw) == Ok("unknown")
  {
    hide Fields, LabelFor, CarriesPhase, OnlyAt, NestedPhase, NoneNumbered, SeveralNumbered;
    var k := Picked(raw, 3);
    OnlyOne(AllViews(raw), 3, k);
    var own := WithNumber(Fields(raw, 0).value, 3);
    if |own| == 1 {
      StatusPhase(AllViews(raw)[k]);
      FieldVarint(own[0], raw);
    }
  }

  lemma {:induction false} FieldVarint(f: WireField, raw: bytes)
    requires WellPlaced(f, f.start, |raw|)
    ensures f.varint.Some? <==> f.wireType == 0
  {
  }

  lemma {:induction false} StatusPhase(status: Chunk)
    requires status.varint.Some? <==> status.wireType == 0
    ensures status.wireType == 0 ==>
      forall number: nat :: CarriesPhase(status, number) <==> status.varint == Some(number)
    ensures status.wireType == 2 ==>
      && (forall number: nat :: CarriesPhase(status, number) ==> NestedPhase(status.value) == LabelFor(number))
      && ((forall number: nat :: !CarriesPhase(status, number)) ==> NestedPhase(status.value) == "unknown")
    ensures status.wireType != 0 && status.wireType != 2 ==> forall number: nat :: !CarriesPhase(status, number)
  {
    hide Fields, LabelFor, OnlyAt, NoneNumbered, SeveralNumbered;
    if IsReadableMessage(status) {
      var j := Picked(status.value, 1);
      var cs := AllViews(status.value);
      OnlyOne(cs, 1, j);
      var own := WithNumber(Fields(status.value, 0).value, 1);
      if |own| == 1 && own[0].varint.Some? {
        assert OnlyAt(cs, 1, j) && cs[j].varint == own[0].varint;
        assert own[0].wireType == 0 ==> CarriesPhase(status, own[0].varint.value);
      }
    }
  }

  // ----- tables -----

  ghost function LegacyPlaces(rows: seq<Row>): set<int> {
    set i | 0 <= i < |rows| && HoldsBoolean(rows[i].payload)
  }

  /** The rows without a spec that are in the phase. */
  ghost function NospecPlaces(rows: seq<Row>, phase: string): set<int> {
    set i | 0 <= i < |rows| && HasNoSpec(rows[i].payload) && LifecyclePhase(rows[i].payload) == Ok(phase)
  }

  ghost predicate HasNoSpec(payload: bytes) {
    Fields(payload, 0).Ok? && NoneNumbered(AllViews(payload), 2)
  }

  ghost function Places(rows: seq<Row>, kind: Result<Kind, Fault> -> bool): set<int> {
    set i | 0 <= i < |rows| && kind(Classify(rows[i].payload))
  }

  lemma {:induction false} TallyCountsPlaces(rows: seq<Row>, kind: Result<Kind, Fault> -> bool)
    ensures Tally(rows, kind) == |Places(rows, kind)|
  {
    hide Classify, Tally, Places;
    if rows == [] {
      TallyNothing(rows);
      NoPlaces(kind);
    } else {
      TallyUnfolds(rows, kind);
      TallyCountsPlaces(rows[..|rows| - 1], kind);
      PlacesSnoc(rows, kind);
    }
  }

  lemma {:induction false} NoPlaces(kind: Result<Kind, Fault> -> bool)
    ensures Places([], kind) == {}
  {
  }

  lemma {:induction false} PlacesSnoc(rows: seq<Row>, kind: Result<Kind, Fault> -> bool)
    requires rows != []
    ensures var n := |rows| - 1;
      |Places(rows, kind)| == |Places(rows[..n], kind)| + if kind(Classify(rows[n].payload)) then 1 else 0
  {
    hide Classify;
    var n := |rows| - 1;
    var last := if kind(Classify(rows[n].payload)) then {n} else {};
    assert Places(rows, kind) == Places(rows[..n], kind) + last;
    assert n !in Places(rows[..n], kind);
  }

  lemma {:induction false} KindExactly(payload: bytes)
    ensures Classify(payload).Ok? <==> HoldsBoolean(payload) || HoldsNoBoolean(payload)
    ensures IsLegacy(Classify(payload)) <==> HoldsBoolean(payload)
    ensures forall phase :: Classify(payload) == Ok(Nospec(phase)) <==>
      HasNoSpec(payload) && LifecyclePhase(payload) == Ok(phase)
  {
    hide Fields, RewritePayload, HoldsBoolean, LifecyclePhase, OnlyAt, HasNoBoolean, NoneNumbered, HasSpec;
    LegacyExactly(payload);
    AcceptedOnce(payload);
    if Fields(payload, 0).Ok? {
      HasSpecByViews(payload);
      var k := PickCounts(AllViews(payload), 2);
      if HoldsBoolean(payload) {
        LegacyHasOne(payload);
      }
    } else {
      var k := PayloadExactly(payload);
    }
  }

  lemma {:induction false} LegacyHasOne(payload: bytes)
    requires Fields(payload, 0).Ok? && HoldsBoolean(payload)
    ensures !HasNoSpec(payload)
  {
    hide Fields, HasBoolean, NoneNumbered;
    var k :| OnlyAt(AllViews(payload), 2, k) && HasBoolean(AllViews(payload)[k]);
    OnlyOne(AllViews(payload), 2, k);
  }

  /** What inspection reports of a table, told from the payloads alone: it is
      accepted exactly when each row holds the boolean or can do without the
      rewrite; the legacy rows are those with the boolean; and the rows without
      a spec are counted phase by phase. */
  lemma {:induction false} InventoryExactly(rows: seq<Row>)
    ensures Inspect(rows).Ok? <==>
      forall i :: 0 <= i < |rows| ==> HoldsBoolean(rows[i].payload) || HoldsNoBoolean(rows[i].payload)
    ensures Inspect(rows).Ok? ==>
      var inventory := Inspect(rows).value;
      && inventory.sandboxCount == |rows|
      && |inventory.legacy| == |LegacyPlaces(rows)|
      && forall phase :: inventory.nospecPhases[phase] == |NospecPlaces(rows, phase)|
  {
    hide Classify, RewritePayload, Inspect, Tally, HoldsBoolean, HoldsNoBoolean, HasNoSpec, LifecyclePhase;
    InventoryCounts(rows);
    forall i | 0 <= i < |rows|
      ensures RewritePayload(rows[i].payload).Ok? <==>
        HoldsBoolean(rows[i].payload) || HoldsNoBoolean(rows[i].payload)
      ensures IsLegacy(Classify(rows[i].payload)) <==> HoldsBoolean(rows[i].payload)
    {
      KindExactly(rows[i].payload);
      AcceptedOnce(rows[i].payload);
    }
    TallyCountsPlaces(rows, IsLegacy);
    assert Places(rows, IsLegacy) == LegacyPlaces(rows);
    forall phase
      ensures Tally(rows, InPhase(phase)) == |NospecPlaces(rows, phase)|
    {
      TallyCountsPlaces(rows, InPhase(phase));
      forall i | 0 <= i < |rows|
        ensures InPhase(phase)(Classify(rows[i].payload)) <==>
          HasNoSpec(rows[i].payload) && LifecyclePhase(rows[i].payload) == Ok(phase)
      {
        KindExactly(rows[i].payload);
      }
      assert Places(rows, InPhase(phase)) == NospecPlaces(rows, phase);
    }
  }

  // ----- the whole object table -----

  ghost predicate IsLegacyObject(o: Object) {
    o.objectType == "sandbox" && HoldsBoolean(o.payload)
  }

  ghost function SandboxPlaces(objects: seq<Object>): set<int> {
    set i | 0 <= i < |objects| && objects[i].objectType == "sandbox"
  }

  ghost predicate IsRowOf(row: Row, o: Object) {
    o.objectType == "sandbox" && o.id == row.id && o.name == row.name && o.payload == row.payload
  }

  lemma {:induction false} SandboxRowsSnoc(objects: seq<Object>, o: Object)
    ensures SandboxRows(objects + [o]) == SandboxRows(objects) + SandboxRows([o])
  {
    if objects == [] {
      assert objects + [o] == [o];
    } else {
      SandboxRowsSnoc(objects[1..], o);
      assert (objects + [o])[1..] == objects[1..] + [o];
    }
  }

  lemma {:induction false} SandboxRow(o: Object)
    ensures SandboxRows([o]) == if o.objectType == "sandbox" then [Row(o.id, o.name, o.payload)] else []
    ensures forall row :: row in SandboxRows([o]) <==> IsRowOf(row, o)
  {
    assert [o][1..] == [];
  }

  /** The sandbox rows are the table's objects of that type, each with its id,
      name and payload, and as many as there are. */
  lemma {:induction false} SandboxRowsExactly(objects: seq<Object>)
    ensures forall row :: row in SandboxRows(objects) <==>
      exists i :: 0 <= i < |objects| && IsRowOf(row, objects[i])
    ensures |SandboxRows(objects)| == |SandboxPlaces(objects)|
    decreases |objects|
  {
    hide SandboxRows, IsRowOf, SandboxPlaces;
    if objects == [] {
      NoSandboxRows();
    } else {
      var n := |objects| - 1;
      var before, last := objects[..n], objects[n];
      SandboxRowsExactly(before);
      SandboxRowsSnoc(before, last);
      SandboxRow(last);
      assert before + [last] == objects;
      assert forall i :: 0 <= i < n ==> before[i] == objects[i];
      SandboxPlacesSnoc(objects);
    }
  }

  lemma {:induction false} SandboxPlacesSnoc(objects: seq<Object>)
    requires objects != []
    ensures var n := |objects| - 1;
      |SandboxPlaces(objects)| ==
        |SandboxPlaces(objects[..n])| + if objects[n].objectType == "sandbox" then 1 else 0
  {
    var n := |objects| - 1;
    var last := if objects[n].objectType == "sandbox" then {n} else {};
    assert SandboxPlaces(objects) == SandboxPlaces(objects[..n]) + last;
    assert n !in SandboxPlaces(objects[..n]);
  }

  lemma {:induction false} NoSandboxRows()
    ensures SandboxRows([]) == [] && SandboxPlaces([]) == {}
  {
  }

  /** What a migration does to the table, told from the objects alone: exactly
      the sandboxes that hold the boolean get their rewritten payload, and they
      can be addressed exactly when none of them shares its id and payload with
      another object, of whatever type. */
  lemma {:induction false} TableExactly(objects: seq<Object>)
    ensures forall i :: 0 <= i < |objects| ==>
      && (IsLegacyObject(objects[i]) ==>
          && RewritePayload(objects[i].payload).Ok?
          && RewriteObjects(objects)[i] == objects[i].(payload := RewritePayload(objects[i].payload).value.payload))
      && (!IsLegacyObject(objects[i]) ==> RewriteObjects(objects)[i] == objects[i])
    ensures Addressable(objects) <==>
      forall i, j :: 0 <= i < |objects| && 0 <= j < |objects| && i != j && IsLegacyObject(objects[i]) ==>
        objects[i].id != objects[j].id || objects[i].payload != objects[j].payload
  {
    hide RewritePayload, HoldsBoolean;
    forall i | 0 <= i < |objects|
      ensures LegacyObject(objects[i]) <==> IsLegacyObject(objects[i])
    {
      LegacyExactly(objects[i].payload);
    }
  }
}
