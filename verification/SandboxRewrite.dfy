/**
 The SandboxSpec field-9 rewrite: releases through v0.0.68 stored a boolean
 where v0.0.69 expects a message.
 */
module SandboxRewrite {
  import opened Collections
  import opened Outcomes
  import opened Varint
  import opened WireFields

  const SANDBOX_SPEC_FIELD: nat := 2
  const SANDBOX_STATUS_FIELD: nat := 3
  const SANDBOX_PHASE_FIELD: nat := 1
  const RESOURCE_FIELD: nat := 9
  const UNKNOWN_PHASE := "unknown"
  const PHASE_LABELS: map<nat, string> := map[
    0 := "unspecified",
    1 := "provisioning",
    2 := "running",
    3 := "ready",
    4 := "error",
    5 := "terminating",
    6 := "terminated"
  ]

  /** A payload after the attempt to rewrite it. */
  datatype Rewrite = Rewrite(payload: bytes, changed: bool)

  function WithNumber(fs: seq<WireField>, n: nat): (r: seq<WireField>)
    ensures forall f :: f in r ==> f in fs && f.number == n
  {
    if fs == [] then []
    else (if fs[0].number == n then [fs[0]] else []) + WithNumber(fs[1..], n)
  }

  /** A length-delimited field with a one-octet key. */
  function Message(n: nat, body: bytes): (m: bytes)
    ensures m != []
  {
    Encoding(n * 8 + 2) + Encoding(|body|) + body
  }

  /** ResourceRequirements { gpu: GpuResourceRequirements {} } */
  const GPU_REQUIREMENTS: bytes := [0x0a, 0x00]

  lemma {:induction false} FieldWithin(raw: bytes, f: WireField)
    requires Fields(raw, 0).Ok? && f in Fields(raw, 0).value
    ensures WellPlaced(f, f.start, |raw|) && 0 <= f.start
  {
    var fs := Fields(raw, 0).value;
    var k :| 0 <= k < |fs| && fs[k] == f;
    BoundariesOf(raw, fs, k);
  }

  function RewriteSpec(raw: bytes): (r: Result<Rewrite, Fault>)
  {
    var all :- Fields(raw, 0);
    var fields := WithNumber(all, RESOURCE_FIELD);
    if fields == [] then Ok(Rewrite(raw, false))
    else if |fields| != 1 then Err(AmbiguousField9)
    else
      var f := fields[0];
      assert WellPlaced(f, f.start, |raw|) && 0 <= f.start by { FieldWithin(raw, f); }
      if f.wireType == 2 then
        var _ :- Fields(raw[f.valueStart..f.end], 0);
        Ok(Rewrite(raw, false))
      else if f.wireType != 0 || f.varint.value !in {0, 1} then Err(UnsupportedLegacyValue)
      else
        var replacement := if f.varint.value == 1 then Message(RESOURCE_FIELD, GPU_REQUIREMENTS) else [];
        Ok(Rewrite(Spliced(raw, f, replacement), true))
  }

  function RewritePayload(raw: bytes): (r: Result<Rewrite, Fault>)
  {
    var all :- Fields(raw, 0);
    var specs := WithNumber(all, SANDBOX_SPEC_FIELD);
    if specs == [] then Ok(Rewrite(raw, false))
    else if |specs| != 1 || specs[0].wireType != 2 then Err(AmbiguousSpec)
    else
      var spec := specs[0];
      assert WellPlaced(spec, spec.start, |raw|) && 0 <= spec.start by { FieldWithin(raw, spec); }
      var rewritten :- RewriteSpec(raw[spec.valueStart..spec.end]);
      if !rewritten.changed then Ok(Rewrite(raw, false))
      else Ok(Rewrite(Spliced(raw, spec, Message(SANDBOX_SPEC_FIELD, rewritten.payload)), true))
  }

  function Decimal(n: nat): string {
    (if n < 10 then "" else Decimal(n / 10)) + ["0123456789"[n % 10]]
  }

  function LabelFor(number: nat): string {
    if number in PHASE_LABELS then PHASE_LABELS[number] else "phase_" + Decimal(number)
  }

  /** The phase a nested status message carries. */
  function NestedPhase(status: bytes): string {
    match Fields(status, 0)
    case Err(_) => UNKNOWN_PHASE
    case Ok(nested) =>
      var phases := WithNumber(nested, SANDBOX_PHASE_FIELD);
      if |phases| != 1 || phases[0].wireType != 0 || phases[0].varint.None? then UNKNOWN_PHASE
      else LabelFor(phases[0].varint.value)
  }

  function LifecyclePhase(raw: bytes): Result<string, Fault> {
    var all :- Fields(raw, 0);
    var statuses := WithNumber(all, SANDBOX_STATUS_FIELD);
    if |statuses| != 1 then Ok(UNKNOWN_PHASE)
    else
      var status := statuses[0];
      assert WellPlaced(status, status.start, |raw|) && 0 <= status.start by { FieldWithin(raw, status); }
      if status.wireType == 0 then Ok(LabelFor(if status.varint.Some? then status.varint.value else 0))
      else if status.wireType != 2 then Ok(UNKNOWN_PHASE)
      else Ok(NestedPhase(raw[status.valueStart..status.end]))
  }

  function HasSpec(raw: bytes): Result<bool, Fault> {
    var all :- Fields(raw, 0);
    Ok(exists f :: f in all && f.number == SANDBOX_SPEC_FIELD)
  }

  // ----- what a field is, apart from where it stands -----

  datatype Chunk = Chunk(number: nat, wireType: nat, varint: Option<nat>, whole: bytes, value: bytes)

  function Slice(raw: bytes, a: int, b: int): bytes {
    if 0 <= a <= b <= |raw| then raw[a..b] else []
  }

  function View(raw: bytes, f: WireField): Chunk {
    Chunk(f.number, f.wireType, f.varint, Slice(raw, f.start, f.end), Slice(raw, f.valueStart, f.end))
  }

  function Views(raw: bytes, fs: seq<WireField>): (r: seq<Chunk>)
    ensures |r| == |fs|
    ensures forall i :: 0 <= i < |fs| ==> r[i] == View(raw, fs[i])
  {
    seq(|fs|, i requires 0 <= i < |fs| => View(raw, fs[i]))
  }

  function Pick(cs: seq<Chunk>, n: nat): seq<Chunk> {
    if cs == [] then []
    else (if cs[0].number == n then [cs[0]] else []) + Pick(cs[1..], n)
  }

  lemma {:induction false} PickFirst(cs: seq<Chunk>, n: nat)
    ensures cs == [] ==> Pick(cs, n) == []
    ensures cs != [] ==> Pick(cs, n) == (if cs[0].number == n then [cs[0]] + Pick(cs[1..], n) else Pick(cs[1..], n))
  {
  }

  lemma {:induction false} PickIsWithNumber(raw: bytes, fs: seq<WireField>, n: nat)
    ensures Pick(Views(raw, fs), n) == Views(raw, WithNumber(fs, n))
  {
    hide Slice;
    if fs != [] {
      PickIsWithNumber(raw, fs[1..], n);
      PickFirst(Views(raw, fs), n);
      assert Views(raw, fs)[1..] == Views(raw, fs[1..]);
      assert WithNumber(fs, n) ==
        if fs[0].number == n then [fs[0]] + WithNumber(fs[1..], n) else WithNumber(fs[1..], n);
    }
  }

  lemma {:induction false} PickConcat(a: seq<Chunk>, b: seq<Chunk>, n: nat)
    ensures Pick(a + b, n) == Pick(a, n) + Pick(b, n)
  {
    hide Pick;
    PickFirst(a, n);
    if a == [] {
      assert a + b == b;
    } else {
      PickConcat(a[1..], b, n);
      PickFirst(a + b, n);
      assert (a + b)[1..] == a[1..] + b;
    }
  }

  lemma {:induction false} PickNothing(cs: seq<Chunk>, n: nat)
    ensures Pick(cs, n) == [] <==> forall i :: 0 <= i < |cs| ==> cs[i].number != n
  {
    if cs != [] {
      PickNothing(cs[1..], n);
      assert forall i :: 0 <= i < |cs| - 1 ==> cs[i + 1] == cs[1..][i];
    }
  }

  /** The place of the only chunk that has this number. */
  lemma {:induction false} OnlyPlace(cs: seq<Chunk>, n: nat) returns (k: nat)
    requires |Pick(cs, n)| == 1
    ensures k < |cs| && cs[k] == Pick(cs, n)[0] && cs[k].number == n
    ensures Pick(cs[..k], n) == [] && Pick(cs[k + 1..], n) == []
  {
    if cs[0].number == n {
      k := 0;
    } else {
      k := OnlyPlace(cs[1..], n);
      assert cs[..k + 1][1..] == cs[1..][..k];
      assert cs[k + 2..] == cs[1..][k + 1..];
      k := k + 1;
    }
  }

  /** Splicing replaces one chunk and leaves every other one as it was. */
  lemma {:induction false} SpliceViews(raw: bytes, fs: seq<WireField>, k: nat, insert: bytes, g: seq<WireField>)
    requires Fields(raw, 0) == Ok(fs) && k < |fs| && Fields(insert, 0) == Ok(g)
    requires 0 <= fs[k].start <= fs[k].end <= |raw|
    ensures Views(Spliced(raw, fs[k], insert), SplicedFields(fs, k, g, |insert|)) ==
      Views(raw, fs)[..k] + Views(insert, g) + Views(raw, fs)[k + 1..]
  {
    hide Fields, Spliced, View;
    var out := Spliced(raw, fs[k], insert);
    var d := |insert| - (fs[k].end - fs[k].start);
    forall i | 0 <= i < |fs|
      ensures i < k ==> View(out, fs[i]) == View(raw, fs[i])
      ensures i > k ==> View(out, Shift(fs[i], d)) == View(raw, fs[i])
    {
      OthersStay(raw, fs, k, insert, i);
    }
    forall i | 0 <= i < |g|
      ensures View(out, Shift(g[i], fs[k].start)) == View(insert, g[i])
    {
      SplicedParts(raw, fs[k], insert, out);
      BoundariesOf(insert, g, i);
      SliceMoved(insert, 0, |insert|, out, fs[k].start, g[i]);
    }
    var behind := fs[k + 1..];
    assert forall i :: 0 <= i < |behind| ==> behind[i] == fs[k + 1 + i];
  }

  lemma {:induction false} OthersStay(raw: bytes, fs: seq<WireField>, k: nat, insert: bytes, i: nat)
    requires Fields(raw, 0) == Ok(fs) && k < |fs| && i < |fs| && 0 <= fs[k].start <= fs[k].end <= |raw|
    ensures var out, d := Spliced(raw, fs[k], insert), |insert| - (fs[k].end - fs[k].start);
      && (i < k ==> View(out, fs[i]) == View(raw, fs[i]))
      && (i > k ==> View(out, Shift(fs[i], d)) == View(raw, fs[i]))
  {
    hide Fields, Spliced, View;
    var out := Spliced(raw, fs[k], insert);
    SplicedParts(raw, fs[k], insert, out);
    if i < k {
      Neighbours(raw, fs, i, k);
      SliceMoved(raw, 0, fs[k].start, out, 0, fs[i]);
      assert Shift(fs[i], 0) == fs[i];
    } else if i > k {
      Neighbours(raw, fs, k, i);
      SliceMoved(raw, fs[k].end, |raw|, out, |insert| - (fs[k].end - fs[k].start), fs[i]);
    }
  }

  /** What stands before, in and behind a splice. */
  lemma {:induction false} SplicedParts(raw: bytes, f: WireField, insert: bytes, out: bytes)
    requires 0 <= f.start <= f.end <= |raw| && out == Spliced(raw, f, insert)
    ensures var d := |insert| - (f.end - f.start);
      && |out| == |raw| + d
      && out[0..f.start] == raw[0..f.start]
      && out[f.start..f.start + |insert|] == insert[0..|insert|]
      && out[f.end + d..|raw| + d] == raw[f.end..|raw|]
  {
  }

  /** Of two fields the earlier one ends before the later one begins. */
  lemma {:induction false} Neighbours(raw: bytes, fs: seq<WireField>, i: nat, k: nat)
    requires Fields(raw, 0) == Ok(fs) && i < k < |fs|
    ensures 0 <= fs[i].start < fs[i].end <= fs[k].start < fs[k].end <= |raw|
    ensures WellPlaced(fs[i], fs[i].start, |raw|) && WellPlaced(fs[k], fs[k].start, |raw|)
  {
    hide Fields;
    FieldsTile(raw, 0);
    TilesIndexed(fs, 0, |raw|, k);
    BoundariesOf(raw, fs, i);
    BoundariesOf(raw, fs, k);
  }

  /** A window that reappears `d` bytes further on shows the same field there. */
  lemma {:induction false} SliceMoved(raw: bytes, lo: nat, hi: nat, out: bytes, d: int, f: WireField)
    requires lo <= f.start <= f.valueStart <= f.end <= hi <= |raw| && 0 <= lo + d && hi + d <= |out|
    requires out[lo + d..hi + d] == raw[lo..hi]
    ensures View(out, Shift(f, d)) == View(raw, f)
  {
    WindowWithin(raw, lo, hi, out, d, f.start, f.end);
    WindowWithin(raw, lo, hi, out, d, f.valueStart, f.end);
  }

  // ----- the one field that is rewritten -----

  /** A written message is read back as one field with its body, exactly when
      its length fits into a varint. */
  lemma {:induction false} MessageField(n: nat, body: bytes, tail: bytes)
    requires 1 <= n < 16
    ensures var m := Message(n, body);
      FieldAt(m + tail, 0) ==
        if |body| < LIMIT then Ok(WireField(n, 2, 0, 1, |m| - |body|, |m|, None)) else Err(OversizedVarint)
  {
    hide ReadAt;
    var key, length := Encoding(n * 8 + 2), Encoding(|body|);
    var raw := Message(n, body) + tail;
    assert |key| == 1;
    ReadUndoesWrite(n * 8 + 2, [], length + body + tail);
    assert [] + key + (length + body + tail) == raw;
    ReadUndoesWrite(|body|, key, body + tail);
    assert key + length + (body + tail) == raw;
  }

  lemma {:induction false} MessageFields(n: nat, body: bytes)
    requires 1 <= n < 16 && |body| < LIMIT
    ensures var m := Message(n, body);
      && Fields(m, 0) == Ok([WireField(n, 2, 0, 1, |m| - |body|, |m|, None)])
      && Views(m, Fields(m, 0).value) == [Chunk(n, 2, None, m, body)]
  {
    var m := Message(n, body);
    MessageField(n, body, []);
    assert m + [] == m;
    FieldsUnfold(m, 0);
    FieldsUnfold(m, |m|);
    Continue([WireField(n, 2, 0, 1, |m| - |body|, |m|, None)], [], Ok([]));
    assert m[0..|m|] == m && m[|m| - |body|..|m|] == body;
  }

  const GPU_CHUNK := Chunk(RESOURCE_FIELD, 2, None, [0x4a, 0x02, 0x0a, 0x00], GPU_REQUIREMENTS)

  lemma {:induction false} GpuMessage()
    ensures Message(RESOURCE_FIELD, GPU_REQUIREMENTS) == GPU_CHUNK.whole
    ensures Fields(GPU_REQUIREMENTS, 0).Ok?
  {
    assert Encoding(9 * 8 + 2) == [0x4a];
    assert Encoding(2) == [0x02];
    MessageFields(1, []);
    assert Message(1, []) == GPU_REQUIREMENTS;
  }

  /** All fields of a payload as chunks. */
  function AllViews(raw: bytes): seq<Chunk>
    requires Fields(raw, 0).Ok?
  {
    Views(raw, Fields(raw, 0).value)
  }

  /** A successful rewrite of a spec removes its single boolean field 9, or
      puts the nested gpu message in its place, and keeps everything else. */
  lemma {:induction false} SpecSurgery(raw: bytes) returns (k: nat)
    requires RewriteSpec(raw).Ok? && RewriteSpec(raw).value.changed
    ensures Fields(raw, 0).Ok? && k < |AllViews(raw)|
    ensures var cs, out := AllViews(raw), RewriteSpec(raw).value.payload;
      && cs[k].number == RESOURCE_FIELD && cs[k].wireType == 0 && cs[k].varint in {Some(0), Some(1)}
      && Pick(cs[..k], RESOURCE_FIELD) == [] && Pick(cs[k + 1..], RESOURCE_FIELD) == []
      && Fields(out, 0).Ok?
      && AllViews(out) == cs[..k] + (if cs[k].varint == Some(1) then [GPU_CHUNK] else []) + cs[k + 1..]
      && |out| <= |raw| + 2
  {
    hide Fields, Views;
    var fs := Fields(raw, 0).value;
    var f := WithNumber(fs, RESOURCE_FIELD)[0];
    k := OnlyField(raw, RESOURCE_FIELD);
    BoundariesOf(raw, fs, k);
    var insert := if f.varint.value == 1 then Message(RESOURCE_FIELD, GPU_REQUIREMENTS) else [];
    GpuMessage();
    MessageFields(RESOURCE_FIELD, GPU_REQUIREMENTS);
    FieldsUnfold([], 0);
    var g := Fields(insert, 0).value;
    ScanSplice(raw, fs, k, insert, g);
    SpliceViews(raw, fs, k, insert, g);
    NoViews(insert);
  }

  lemma {:induction false} NoViews(raw: bytes)
    ensures Views(raw, []) == []
  {
  }

  /** The place of the only field that has this number. */
  lemma {:induction false} OnlyField(raw: bytes, n: nat) returns (k: nat)
    requires Fields(raw, 0).Ok? && |WithNumber(Fields(raw, 0).value, n)| == 1
    ensures var fs := Fields(raw, 0).value;
      && k < |fs| && fs[k] == WithNumber(fs, n)[0]
      && Pick(AllViews(raw)[..k], n) == [] && Pick(AllViews(raw)[k + 1..], n) == []
  {
    hide Fields, Pick, Slice;
    var fs := Fields(raw, 0).value;
    PickIsWithNumber(raw, fs, n);
    k := OnlyPlace(AllViews(raw), n);
    NoneElsewhere(AllViews(raw), n, k);
    var f := WithNumber(fs, n)[0];
    var j :| 0 <= j < |fs| && fs[j] == f;
    assert AllViews(raw)[j].number == n;
  }

  lemma {:induction false} NoneElsewhere(cs: seq<Chunk>, n: nat, k: nat)
    requires k < |cs| && Pick(cs[..k], n) == [] && Pick(cs[k + 1..], n) == []
    ensures forall i :: 0 <= i < |cs| && cs[i].number == n ==> i == k
  {
    hide Pick;
    var before, behind := cs[..k], cs[k + 1..];
    PickNothing(before, n);
    PickNothing(behind, n);
    assert forall i :: 0 <= i < k ==> cs[i] == before[i];
    assert forall i :: k < i < |cs| ==> cs[i] == behind[i - k - 1];
  }

  /** A rewritten spec is one the helper accepts and leaves alone. */
  lemma {:induction false} SpecSettled(raw: bytes)
    requires RewriteSpec(raw).Ok?
    ensures var out := RewriteSpec(raw).value.payload; RewriteSpec(out) == Ok(Rewrite(out, false))
  {
    hide Fields, Views;
    var out := RewriteSpec(raw).value.payload;
    if RewriteSpec(raw).value.changed {
      var k := SpecSurgery(raw);
      var cs := AllViews(raw);
      var middle := if cs[k].varint == Some(1) then [GPU_CHUNK] else [];
      PickConcat(cs[..k] + middle, cs[k + 1..], RESOURCE_FIELD);
      PickConcat(cs[..k], middle, RESOURCE_FIELD);
      PickOwn(middle, RESOURCE_FIELD);
      var fs := WithNumber(Fields(out, 0).value, RESOURCE_FIELD);
      PickIsWithNumber(out, Fields(out, 0).value, RESOURCE_FIELD);
      assert Views(out, fs) == middle;
      assert |fs| == |middle|;
      if fs != [] {
        assert View(out, fs[0]) == middle[0];
        FieldWithin(out, fs[0]);
        GpuMessage();
      }
    }
  }

  lemma {:induction false} PickOwn(cs: seq<Chunk>, n: nat)
    requires |cs| <= 1 && forall c :: c in cs ==> c.number == n
    ensures Pick(cs, n) == cs
  {
  }

  /** A successful rewrite of a payload replaces the body of its only spec by
      the rewritten spec and keeps every other field; the result is a payload
      again exactly when the new length fits into a varint. */
  lemma {:induction false} PayloadSurgery(raw: bytes) returns (k: nat)
    requires RewritePayload(raw).Ok? && RewritePayload(raw).value.changed
    ensures Fields(raw, 0).Ok? && k < |AllViews(raw)|
    ensures var cs, out := AllViews(raw), RewritePayload(raw).value.payload;
      && cs[k].number == SANDBOX_SPEC_FIELD && cs[k].wireType == 2
      && Pick(cs[..k], SANDBOX_SPEC_FIELD) == [] && Pick(cs[k + 1..], SANDBOX_SPEC_FIELD) == []
      && RewriteSpec(cs[k].value).Ok? && RewriteSpec(cs[k].value).value.changed
      && var spec := RewriteSpec(cs[k].value).value.payload;
      && |spec| <= |raw|
      && (Fields(out, 0).Ok? <==> |spec| < LIMIT)
      && (|spec| < LIMIT ==>
          AllViews(out) ==
            cs[..k] + [Chunk(SANDBOX_SPEC_FIELD, 2, None, Message(SANDBOX_SPEC_FIELD, spec), spec)] + cs[k + 1..])
  {
    hide Fields, FieldAt, Views, Message, RewriteSpec;
    var fs := Fields(raw, 0).value;
    var f := WithNumber(fs, SANDBOX_SPEC_FIELD)[0];
    k := OnlyField(raw, SANDBOX_SPEC_FIELD);
    BoundariesOf(raw, fs, k);
    var spec := RewriteSpec(raw[f.valueStart..f.end]).value.payload;
    var _ := SpecSurgery(raw[f.valueStart..f.end]);
    var insert := Message(SANDBOX_SPEC_FIELD, spec);
    if |spec| < LIMIT {
      MessageFields(SANDBOX_SPEC_FIELD, spec);
      ScanSplice(raw, fs, k, insert, Fields(insert, 0).value);
      SpliceViews(raw, fs, k, insert, Fields(insert, 0).value);
    } else {
      MessageField(SANDBOX_SPEC_FIELD, spec, raw[f.end..]);
      SpliceRefused(raw, fs, k, insert);
    }
  }

  /** Splicing in what is not a field gives what is not a message. */
  lemma {:induction false} SpliceRefused(raw: bytes, fs: seq<WireField>, k: nat, insert: bytes)
    requires Fields(raw, 0) == Ok(fs) && k < |fs| && insert != []
    requires 0 <= fs[k].start <= fs[k].end <= |raw| && FieldAt(insert + raw[fs[k].end..], 0).Err?
    ensures Fields(Spliced(raw, fs[k], insert), 0).Err?
  {
    hide Fields, FieldAt;
    var head, tail := raw[..fs[k].start], raw[fs[k].end..];
    BoundariesOf(raw, fs, k);
    ScanSplit(raw, 0, fs, k, fs[k].start);
    FieldsUnfold(insert + tail, 0);
    ScanConcat(head, 0, insert + tail);
    assert head + insert + tail == head + (insert + tail);
  }

  /** What the lifecycle phase is computed from. */
  lemma {:induction false} PhaseByViews(raw: bytes, raw': bytes)
    requires Fields(raw, 0).Ok? && Fields(raw', 0).Ok?
    requires Pick(AllViews(raw), SANDBOX_STATUS_FIELD) == Pick(AllViews(raw'), SANDBOX_STATUS_FIELD)
    ensures LifecyclePhase(raw) == LifecyclePhase(raw')
  {
    hide Fields, Views, NestedPhase, LabelFor;
    var all, all' := Fields(raw, 0).value, Fields(raw', 0).value;
    PickIsWithNumber(raw, all, SANDBOX_STATUS_FIELD);
    PickIsWithNumber(raw', all', SANDBOX_STATUS_FIELD);
    var fs, fs' := WithNumber(all, SANDBOX_STATUS_FIELD), WithNumber(all', SANDBOX_STATUS_FIELD);
    assert |fs| == |Views(raw, fs)| == |Views(raw', fs')| == |fs'|;
    if |fs| == 1 {
      FieldWithin(raw, fs[0]);
      FieldWithin(raw', fs'[0]);
      assert Views(raw, fs)[0] == Views(raw', fs')[0];
      assert View(raw, fs[0]) == View(raw', fs'[0]);
    }
  }

  lemma {:induction false} HasSpecByViews(raw: bytes)
    requires Fields(raw, 0).Ok?
    ensures HasSpec(raw) == Ok(Pick(AllViews(raw), SANDBOX_SPEC_FIELD) != [])
  {
    hide Fields, Views;
    var all := Fields(raw, 0).value;
    PickNothing(AllViews(raw), SANDBOX_SPEC_FIELD);
    assert forall i :: 0 <= i < |all| ==> AllViews(raw)[i].number == all[i].number;
    if f :| f in all && f.number == SANDBOX_SPEC_FIELD {
      var i :| 0 <= i < |all| && all[i] == f;
      assert AllViews(raw)[i].number == SANDBOX_SPEC_FIELD;
    }
  }

  /** A rewritten payload is one the helper accepts and leaves alone, and the
      rewrite does not show in the phase or in the presence of a spec. */
  lemma {:induction false} PayloadSettled(raw: bytes)
    requires RewritePayload(raw).Ok? && Fields(RewritePayload(raw).value.payload, 0).Ok?
    ensures var out := RewritePayload(raw).value.payload;
      && RewritePayload(out) == Ok(Rewrite(out, false))
      && LifecyclePhase(out) == LifecyclePhase(raw)
      && HasSpec(out) == HasSpec(raw)
  {
    hide Fields, Views, RewriteSpec, HasSpec, LifecyclePhase;
    var out := RewritePayload(raw).value.payload;
    if RewritePayload(raw).value.changed {
      var k := PayloadSurgery(raw);
      var cs := AllViews(raw);
      var spec := RewriteSpec(cs[k].value).value.payload;
      var middle := [Chunk(SANDBOX_SPEC_FIELD, 2, None, Message(SANDBOX_SPEC_FIELD, spec), spec)];
      SplitPick(cs, k, middle, SANDBOX_SPEC_FIELD);
      SplitPick(cs, k, middle, SANDBOX_STATUS_FIELD);
      PhaseByViews(raw, out);
      HasSpecByViews(raw);
      HasSpecByViews(out);
      SpecSettled(cs[k].value);
      var fs := WithNumber(Fields(out, 0).value, SANDBOX_SPEC_FIELD);
      PickIsWithNumber(out, Fields(out, 0).value, SANDBOX_SPEC_FIELD);
      assert |fs| == |Views(out, fs)| == 1;
      assert View(out, fs[0]) == Views(out, fs)[0] == middle[0];
      FieldWithin(out, fs[0]);
    }
  }

  /** Only a payload of 2^70 bytes can be rewritten into something unreadable. */
  lemma {:induction false} PayloadReadable(raw: bytes)
    requires RewritePayload(raw).Ok? && |raw| < LIMIT
    ensures Fields(RewritePayload(raw).value.payload, 0).Ok?
  {
    if RewritePayload(raw).value.changed {
      var k := PayloadSurgery(raw);
    }
  }

  /** Picking from chunks of which one has been replaced by its like. */
  lemma {:induction false} SplitPick(cs: seq<Chunk>, k: nat, middle: seq<Chunk>, n: nat)
    requires k < |cs| && |middle| == 1 && middle[0].number == cs[k].number
    ensures var other := cs[..k] + middle + cs[k + 1..];
      && (n != cs[k].number ==> Pick(other, n) == Pick(cs, n))
      && (n == cs[k].number ==>
          && Pick(other, n) == Pick(cs[..k], n) + middle + Pick(cs[k + 1..], n)
          && Pick(cs, n) != [])
  {
    var before, own, behind := cs[..k], [cs[k]], cs[k + 1..];
    assert cs == before + own + behind;
    PickConcat(before + own, behind, n);
    PickConcat(before, own, n);
    PickConcat(before + middle, behind, n);
    PickConcat(before, middle, n);
    PickFirst(own, n);
    PickFirst(middle, n);
  }

  // ----- a legacy payload -----

  /** A spec whose field 9 is the boolean 1, and a payload with that spec. */
  const LEGACY_SPEC: bytes := [0x48, 0x01]
  const LEGACY_PAYLOAD: bytes := [0x12, 0x02, 0x48, 0x01]

  lemma {:induction false} ReadsOneOctet(raw: bytes, at: nat)
    requires at < |raw| && raw[at] < 128
    ensures ReadAt(raw, at) == Ok(Reading(raw[at], at + 1))
  {
  }

  lemma {:induction false} LegacySpecIsLegacy()
    ensures RewriteSpec(LEGACY_SPEC).Ok? && RewriteSpec(LEGACY_SPEC).value.changed
  {
    hide ReadAt, Encoding;
    var raw := LEGACY_SPEC;
    ReadsOneOctet(raw, 0);
    ReadsOneOctet(raw, 1);
    var f := WireField(9, 0, 0, 1, 1, 2, Some(1));
    assert FieldAt(raw, 0) == Ok(f);
    FieldsUnfold(raw, 0);
    FieldsUnfold(raw, 2);
    Continue([f], [], Ok([]));
    var fs := Fields(raw, 0).value;
    assert fs == [f] && fs[1..] == [];
    assert WithNumber(fs, RESOURCE_FIELD) == [f];
  }

  lemma {:induction false} LegacyPayloadIsLegacy()
    ensures RewritePayload(LEGACY_PAYLOAD).Ok? && RewritePayload(LEGACY_PAYLOAD).value.changed
  {
    hide ReadAt, RewriteSpec;
    LegacySpecIsLegacy();
    var raw := LEGACY_PAYLOAD;
    assert Encoding(2 * 8 + 2) == [0x12] && Encoding(2) == [0x02];
    assert Message(SANDBOX_SPEC_FIELD, LEGACY_SPEC) == raw;
    MessageFields(SANDBOX_SPEC_FIELD, LEGACY_SPEC);
    var fs := Fields(raw, 0).value;
    assert fs[1..] == [];
    assert WithNumber(fs, SANDBOX_SPEC_FIELD) == [fs[0]];
    assert raw[2..4] == LEGACY_SPEC;
  }
}
