/** The gateway's object table and its migration inside one transaction. */
module GatewayDatabase {
  import opened Collections
  import opened Outcomes
  import opened Varint
  import opened SandboxRewrite
  import opened StorageInventory

  datatype Object = Object(id: string, name: string, objectType: string, payload: bytes)

  datatype Failure = Refused(fault: Fault) | RowChanged | NotConverged

  datatype Migration = Migration(migratedCount: nat, before: Inventory, after: Inventory)

  const SANDBOX := "sandbox"

  /** The sandbox rows, in the order of the table. */
  function SandboxRows(objects: seq<Object>): seq<Row> {
    if objects == [] then []
    else
      (if objects[0].objectType == SANDBOX then [RowOf(objects[0])] else []) + SandboxRows(objects[1..])
  }

  function RowOf(o: Object): Row {
    Row(o.id, o.name, o.payload)
  }

  predicate Matches(o: Object, id: string, payload: bytes) {
    o.id == id && o.payload == payload
  }

  /** How many objects an UPDATE with this id and this payload changes. */
  function MatchCount(objects: seq<Object>, id: string, payload: bytes): nat {
    if objects == [] then 0
    else (if Matches(objects[0], id, payload) then 1 else 0) + MatchCount(objects[1..], id, payload)
  }

  function Updated(objects: seq<Object>, id: string, payload: bytes, replacement: bytes): (r: seq<Object>)
    ensures |r| == |objects|
  {
    seq(|objects|, i requires 0 <= i < |objects| =>
      if Matches(objects[i], id, payload) then objects[i].(payload := replacement) else objects[i])
  }

  predicate LegacyObject(o: Object) {
    o.objectType == SANDBOX && RewritePayload(o.payload).Ok? && RewritePayload(o.payload).value.changed
  }

  function RewriteObject(o: Object): Object {
    if LegacyObject(o) then o.(payload := RewritePayload(o.payload).value.payload) else o
  }

  function RewriteObjects(objects: seq<Object>): (r: seq<Object>)
    ensures |r| == |objects|
    ensures forall i :: 0 <= i < |objects| ==> r[i] == RewriteObject(objects[i])
  {
    seq(|objects|, i requires 0 <= i < |objects| => RewriteObject(objects[i]))
  }

  /** The object at `i` shares its id and payload with no other object. */
  predicate Alone(objects: seq<Object>, i: nat)
    requires i < |objects|
  {
    forall j :: 0 <= j < |objects| && j != i ==> !Matches(objects[j], objects[i].id, objects[i].payload)
  }

  /** Every legacy sandbox can be told apart by its id and payload. */
  predicate Addressable(objects: seq<Object>) {
    forall i :: 0 <= i < |objects| && LegacyObject(objects[i]) ==> Alone(objects, i)
  }

  /** The rows an inspection finds legacy, from the front. */
  function LegacyRows(rows: seq<Row>): seq<LegacyRow> {
    if rows == [] then []
    else
      var r := RewritePayload(rows[0].payload);
      (if r.Ok? && r.value.changed then [LegacyRow(rows[0], r.value.payload)] else []) + LegacyRows(rows[1..])
  }

  lemma {:induction false} LegacyRowsSnoc(rows: seq<Row>, row: Row)
    ensures LegacyRows(rows + [row]) == LegacyRows(rows) + LegacyRows([row])
  {
    hide RewritePayload;
    if rows == [] {
      assert rows + [row] == [row];
    } else {
      LegacyRowsSnoc(rows[1..], row);
      assert (rows + [row])[1..] == rows[1..] + [row];
    }
  }

  lemma {:induction false} InspectedLegacy(rows: seq<Row>)
    requires Inspect(rows).Ok?
    ensures Inspect(rows).value.legacy == LegacyRows(rows)
  {
    hide RewritePayload;
    if rows != [] {
      var n := |rows| - 1;
      InspectedLegacy(rows[..n]);
      LegacyRowsSnoc(rows[..n], rows[n]);
      assert rows[..n] + [rows[n]] == rows;
    }
  }

  lemma {:induction false} FirstObject(origin: seq<Object>, done: nat)
    requires done < |origin|
    ensures LegacyRows(SandboxRows(origin[done..])) ==
      (if LegacyObject(origin[done])
       then [LegacyRow(RowOf(origin[done]), RewritePayload(origin[done].payload).value.payload)] else [])
      + LegacyRows(SandboxRows(origin[done + 1..]))
  {
    hide RewritePayload;
    var objects, rest := origin[done..], SandboxRows(origin[done + 1..]);
    assert objects[1..] == origin[done + 1..];
    if objects[0].objectType == SANDBOX {
      assert SandboxRows(objects) == [RowOf(objects[0])] + rest;
      assert SandboxRows(objects)[1..] == rest;
    } else {
      assert SandboxRows(objects) == rest;
    }
  }

  lemma {:induction false} NothingLegacy(objects: seq<Object>)
    requires objects == []
    ensures LegacyRows(SandboxRows(objects)) == []
  {
  }

  /** The legacy rows from `done` on, and the first object that gives one. */
  lemma {:induction false} NextLegacy(origin: seq<Object>, done: nat) returns (next: nat)
    requires done <= |origin| && LegacyRows(SandboxRows(origin[done..])) != []
    ensures done <= next < |origin| && LegacyObject(origin[next])
    ensures forall i :: done <= i < next ==> !LegacyObject(origin[i])
    ensures LegacyRows(SandboxRows(origin[done..])) ==
      [LegacyRow(RowOf(origin[next]), RewritePayload(origin[next].payload).value.payload)]
      + LegacyRows(SandboxRows(origin[next + 1..]))
    decreases |origin| - done
  {
    hide RewritePayload, LegacyRows, SandboxRows, LegacyObject;
    if done == |origin| {
      NothingLegacy(origin[done..]);
    }
    FirstObject(origin, done);
    if LegacyObject(origin[done]) {
      next := done;
    } else {
      next := NextLegacy(origin, done + 1);
    }
  }

  lemma {:induction false} NoMoreLegacy(origin: seq<Object>, done: nat)
    requires done <= |origin| && LegacyRows(SandboxRows(origin[done..])) == []
    ensures forall i :: done <= i < |origin| ==> !LegacyObject(origin[i])
    decreases |origin| - done
  {
    hide RewritePayload, LegacyRows, SandboxRows, LegacyObject;
    if done < |origin| {
      FirstObject(origin, done);
      NoMoreLegacy(origin, done + 1);
    }
  }

  lemma {:induction false} CountNone(objects: seq<Object>, id: string, payload: bytes)
    ensures MatchCount(objects, id, payload) == 0 <==>
      forall j :: 0 <= j < |objects| ==> !Matches(objects[j], id, payload)
  {
    if objects != [] {
      CountNone(objects[1..], id, payload);
      assert forall j :: 1 <= j < |objects| ==> objects[j] == objects[1..][j - 1];
    }
  }

  lemma {:induction false} CountOne(objects: seq<Object>, i: nat, id: string, payload: bytes)
    requires i < |objects| && Matches(objects[i], id, payload)
    ensures MatchCount(objects, id, payload) >= 1
    ensures MatchCount(objects, id, payload) == 1 <==>
      forall j :: 0 <= j < |objects| && j != i ==> !Matches(objects[j], id, payload)
  {
    assert forall j :: 1 <= j < |objects| ==> objects[j] == objects[1..][j - 1];
    if i == 0 {
      CountNone(objects[1..], id, payload);
    } else {
      CountOne(objects[1..], i - 1, id, payload);
    }
  }

  lemma {:induction false} LegacyNoMore(o: Object)
    requires LegacyObject(o)
    ensures !LegacyObject(RewriteObject(o))
  {
    var out := RewritePayload(o.payload).value.payload;
    if RewritePayload(out).Ok? {
      PayloadSettled(o.payload);
    }
  }

  /** The table when everything before `done` has been rewritten. */
  function Halfway(origin: seq<Object>, done: nat): (r: seq<Object>)
    requires done <= |origin|
    ensures |r| == |origin|
    ensures forall i :: 0 <= i < |origin| ==> r[i] == if i < done then RewriteObject(origin[i]) else origin[i]
  {
    RewriteObjects(origin[..done]) + origin[done..]
  }

  /** The UPDATE for the next legacy row hits that row, and only that row
      exactly when the original table lets it be addressed. */
  lemma {:induction false} UpdateHits(origin: seq<Object>, next: nat)
    requires next < |origin| && LegacyObject(origin[next])
    requires forall i :: 0 <= i < next && LegacyObject(origin[i]) ==> Alone(origin, i)
    ensures var o, now := origin[next], Halfway(origin, next);
      && (MatchCount(now, o.id, o.payload) == 1 <==> Alone(origin, next))
      && (Alone(origin, next) ==>
          Updated(now, o.id, o.payload, RewriteObject(o).payload) == Halfway(origin, next + 1))
  {
    hide RewritePayload;
    var o, now := origin[next], Halfway(origin, next);
    forall j | 0 <= j < |origin| && j != next
      ensures Matches(now[j], o.id, o.payload) <==> Matches(origin[j], o.id, o.payload)
    {
      if j < next && LegacyObject(origin[j]) {
        LegacyNoMore(origin[j]);
        assert Alone(origin, j);
        assert !Matches(origin[next], origin[j].id, origin[j].payload);
      }
    }
    CountOne(now, next, o.id, o.payload);
  }

  lemma {:induction false} RewrittenRows(objects: seq<Object>)
    ensures SandboxRows(RewriteObjects(objects)) == RewriteRows(SandboxRows(objects))
  {
    hide RewritePayload;
    if objects != [] {
      RewrittenRows(objects[1..]);
      assert RewriteObjects(objects)[1..] == RewriteObjects(objects[1..]);
      var rest := SandboxRows(objects[1..]);
      if objects[0].objectType == SANDBOX {
        assert RewriteRows([RowOf(objects[0])] + rest) == [RewriteRow(RowOf(objects[0]))] + RewriteRows(rest);
      }
    }
  }

  /** The places of the table an UPDATE with this id and this payload hits. */
  function MatchPlaces(objects: seq<Object>, id: string, payload: bytes): set<nat> {
    set i: nat | i < |objects| && Matches(objects[i], id, payload)
  }

  lemma {:induction false} MatchCountSnoc(objects: seq<Object>, o: Object, id: string, payload: bytes)
    ensures MatchCount(objects + [o], id, payload) ==
      MatchCount(objects, id, payload) + (if Matches(o, id, payload) then 1 else 0)
  {
    hide Matches;
    if objects == [] {
      assert [o][1..] == [] && objects + [o] == [o];
    } else {
      MatchCountSnoc(objects[1..], o, id, payload);
      assert (objects + [o])[1..] == objects[1..] + [o];
    }
  }

  lemma {:induction false} PlacesCounted(objects: seq<Object>, id: string, payload: bytes)
    ensures MatchCount(objects, id, payload) == |MatchPlaces(objects, id, payload)|
    decreases |objects|
  {
    hide Matches;
    if objects != [] {
      var n := |objects| - 1;
      PlacesCounted(objects[..n], id, payload);
      assert objects == objects[..n] + [objects[n]];
      MatchCountSnoc(objects[..n], objects[n], id, payload);
      assert MatchPlaces(objects, id, payload) ==
        MatchPlaces(objects[..n], id, payload) + (if Matches(objects[n], id, payload) then {n} else {});
    }
  }

  class Database {
    var objects: seq<Object>

    constructor (objects: seq<Object>)
      ensures this.objects == objects
    {
      this.objects := objects;
    }

    /** Exactly the matching objects get the new payload, and the count is how
        many places of the table that was; a count of one means one object. */
    method Update(id: string, payload: bytes, replacement: bytes) returns (count: nat)
      modifies this
      ensures objects == Updated(old(objects), id, payload, replacement)
      ensures count == MatchCount(old(objects), id, payload) == |MatchPlaces(old(objects), id, payload)|
      ensures forall i :: i in MatchPlaces(old(objects), id, payload) <==>
        0 <= i < |objects| && old(objects)[i].id == id && old(objects)[i].payload == payload
      ensures |objects| == |old(objects)| && forall i :: 0 <= i < |objects| ==>
        && objects[i].id == old(objects)[i].id && objects[i].name == old(objects)[i].name
        && objects[i].objectType == old(objects)[i].objectType
        && objects[i].payload ==
           (if i in MatchPlaces(old(objects), id, payload) then replacement else old(objects)[i].payload)
    {
      PlacesCounted(objects, id, payload);
      count := MatchCount(objects, id, payload);
      objects := Updated(objects, id, payload, replacement);
    }

    /** Either nothing changes, or every legacy sandbox row is rewritten and
        nothing else; which of the two is decided by the table alone. */
    method Migrate() returns (r: Result<Migration, Failure>)
      modifies this
      ensures var rows := SandboxRows(old(objects));
        match Inspect(rows)
        case Err(fault) => r == Err(Refused(fault)) && objects == old(objects)
        case Ok(before) =>
          if !Addressable(old(objects)) then r == Err(RowChanged) && objects == old(objects)
          else
            && objects == RewriteObjects(old(objects))
            && (Bounded(rows) ==> r == Ok(Migration(|before.legacy|, before, before.(legacy := []))))
    {
      hide Inspect, SandboxRows, LegacyRows, LegacyObject, RewriteObjects, MatchCount, Updated, Alone, Halfway;
      ghost var origin := objects;
      var before := InspectRows(SandboxRows(objects));
      if before.Err? {
        return Err(Refused(before.error));
      }
      var legacy := before.value.legacy;
      InspectedLegacy(SandboxRows(origin));
      assert origin[0..] == origin;
      var saved := objects;
      ghost var done := 0;
      for k := 0 to |legacy|
        invariant 0 <= done <= |origin|
        invariant objects == Halfway(origin, done)
        invariant legacy[k..] == LegacyRows(SandboxRows(origin[done..]))
        invariant forall i :: 0 <= i < done && LegacyObject(origin[i]) ==> Alone(origin, i)
      {
        ghost var next := NextLegacy(origin, done);
        assert Halfway(origin, next) == Halfway(origin, done);
        var entry := legacy[k];
        assert entry == legacy[k..][0];
        UpdateHits(origin, next);
        var count := Update(entry.row.id, entry.row.payload, entry.rewritten);
        if count != 1 {
          objects := saved;
          return Err(RowChanged);
        }
        assert legacy[k + 1..] == legacy[k..][1..];
        done := next + 1;
      }
      NoMoreLegacy(origin, done);
      assert objects == RewriteObjects(origin);
      RewrittenRows(origin);
      if Bounded(SandboxRows(origin)) {
        Converges(SandboxRows(origin));
      }
      var after := InspectRows(SandboxRows(objects));
      if after.Err? {
        return Err(Refused(after.error));
      }
      if after.value.legacy != [] || after.value.sandboxCount != before.value.sandboxCount {
        return Err(NotConverged);
      }
      return Ok(Migration(|legacy|, before.value, after.value));
    }
  }
}
