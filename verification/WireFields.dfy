/**
 The field scanner of the storage helper
 (Protocol Buffers Encoding guide, section "Message Structure").
 */
module WireFields {
  import opened Collections
  import opened Outcomes
  import opened Varint

  /** One scanned field; `start <= offset < end` are the bytes that belong to it. */
  datatype WireField = WireField(
    number: nat,
    wireType: nat,
    start: int,
    keyEnd: int,
    valueStart: int,
    end: int,
    varint: Option<nat>)

  type Scan = Result<seq<WireField>, Fault>

  /** The field stands at `offset`, is not empty and ends by `limit`; only a
      varint field carries a number. */
  predicate WellPlaced(f: WireField, offset: int, limit: int) {
    && f.number > 0
    && f.start == offset < f.keyEnd <= f.valueStart <= f.end <= limit
    && (f.varint.Some? <==> f.wireType == 0)
    && (f.wireType == 0 ==> f.valueStart < f.end)
    && (f.wireType == 2 ==> f.keyEnd < f.valueStart)
  }

  /** The field whose key stands at `offset`. */
  function FieldAt(raw: bytes, offset: nat): (r: Result<WireField, Fault>)
    requires offset < |raw|
    ensures r.Ok? ==> WellPlaced(r.value, offset, |raw|)
  {
    var key :- ReadAt(raw, offset);
    ValueAt(raw, offset, key.next, key.value / 8, key.value % 8)
  }

  /** The rest of a field whose key has been read. */
  function ValueAt(raw: bytes, start: nat, keyEnd: nat, number: nat, wireType: nat): (r: Result<WireField, Fault>)
    requires start < keyEnd <= |raw|
    ensures r.Ok? ==> WellPlaced(r.value, start, |raw|) && r.value.keyEnd == keyEnd
  {
    if number <= 0 then Err(InvalidFieldNumber)
    else if wireType == 0 then
      var v :- ReadAt(raw, keyEnd);
      Ok(WireField(number, 0, start, keyEnd, keyEnd, v.next, Some(v.value)))
    else if wireType == 1 then
      if keyEnd + 8 > |raw| then Err(TruncatedFixed64)
      else Ok(WireField(number, 1, start, keyEnd, keyEnd, keyEnd + 8, None))
    else if wireType == 2 then
      var length :- ReadAt(raw, keyEnd);
      if length.next + length.value > |raw| then Err(TruncatedLength)
      else Ok(WireField(number, 2, start, keyEnd, length.next, length.next + length.value, None))
    else if wireType == 5 then
      if keyEnd + 4 > |raw| then Err(TruncatedFixed32)
      else Ok(WireField(number, 5, start, keyEnd, keyEnd, keyEnd + 4, None))
    else Err(UnsupportedWireType)
  }

  /** All fields from `offset` to the end of the input. */
  function Fields(raw: bytes, offset: nat): Scan
    requires offset <= |raw|
    decreases |raw| - offset
  {
    if offset == |raw| then Ok([])
    else
      var f :- FieldAt(raw, offset);
      var rest :- Fields(raw, f.end);
      Ok([f] + rest)
  }

  function After(fs: seq<WireField>, rest: Scan): Scan {
    if rest.Err? then rest else Ok(fs + rest.value)
  }

  lemma {:induction false} Continue(fs: seq<WireField>, gs: seq<WireField>, rest: Scan)
    ensures After([], rest) == rest && After(fs, Ok([])) == Ok(fs)
    ensures After(fs, After(gs, rest)) == After(fs + gs, rest)
  {
    assert fs + [] == fs;
    if rest.Ok? {
      assert [] + rest.value == rest.value;
      assert fs + (gs + rest.value) == fs + gs + rest.value;
    }
  }

  /** One turn of the scanner's loop. */
  lemma {:induction false} FieldStep(raw: bytes, offset: nat, fs: seq<WireField>)
    requires offset < |raw|
    ensures After(fs, Fields(raw, offset)) ==
      match FieldAt(raw, offset)
      case Ok(f) => After(fs + [f], Fields(raw, f.end))
      case Err(e) => Err(e)
  {
    if FieldAt(raw, offset).Ok? {
      var f := FieldAt(raw, offset).value;
      Continue(fs, [f], Fields(raw, f.end));
    }
  }

  method ParseFields(raw: bytes) returns (r: Scan)
    ensures r == Fields(raw, 0)
  {
    hide ReadAt, Fields;
    var fields: seq<WireField> := [];
    var offset := 0;
    Continue([], [], Fields(raw, 0));
    while offset < |raw|
      invariant 0 <= offset <= |raw|
      invariant Fields(raw, 0) == After(fields, Fields(raw, offset))
      decreases |raw| - offset
    {
      FieldStep(raw, offset, fields);
      var start := offset;
      var key := Varint.Read(raw, offset);
      if key.Err? {
        return Err(key.error);
      }
      var number, wireType := key.value.value / 8, key.value.value % 8;
      if number <= 0 {
        return Err(InvalidFieldNumber);
      }
      var keyEnd := key.value.next;
      var f;
      if wireType == 0 {
        var v := Varint.Read(raw, keyEnd);
        if v.Err? {
          return Err(v.error);
        }
        f := WireField(number, wireType, start, keyEnd, keyEnd, v.value.next, Some(v.value.value));
      } else if wireType == 1 {
        if keyEnd + 8 > |raw| {
          return Err(TruncatedFixed64);
        }
        f := WireField(number, wireType, start, keyEnd, keyEnd, keyEnd + 8, None);
      } else if wireType == 2 {
        var length := Varint.Read(raw, keyEnd);
        if length.Err? {
          return Err(length.error);
        }
        var end := length.value.next + length.value.value;
        if end > |raw| {
          return Err(TruncatedLength);
        }
        f := WireField(number, wireType, start, keyEnd, length.value.next, end, None);
      } else if wireType == 5 {
        if keyEnd + 4 > |raw| {
          return Err(TruncatedFixed32);
        }
        f := WireField(number, wireType, start, keyEnd, keyEnd, keyEnd + 4, None);
      } else {
        return Err(UnsupportedWireType);
      }
      assert FieldAt(raw, start) == Ok(f);
      fields, offset := fields + [f], f.end;
    }
    FieldsUnfold(raw, offset);
    Continue(fields, [], Ok([]));
    return Ok(fields);
  }

  // ----- moving fields around -----

  function Shift(f: WireField, d: int): WireField {
    f.(start := f.start + d, keyEnd := f.keyEnd + d, valueStart := f.valueStart + d, end := f.end + d)
  }

  function ShiftAll(fs: seq<WireField>, d: int): (r: seq<WireField>)
    ensures |r| == |fs|
    ensures forall i :: 0 <= i < |fs| ==> r[i] == Shift(fs[i], d)
  {
    seq(|fs|, i requires 0 <= i < |fs| => Shift(fs[i], d))
  }

  function ShiftScan(r: Scan, d: int): Scan {
    if r.Err? then r else Ok(ShiftAll(r.value, d))
  }

  /** A field is recognised by its own bytes, wherever they stand. */
  lemma {:induction false} FieldIsLocal(raw: bytes, offset: nat, raw': bytes, d: int)
    requires 0 <= offset + d && offset < |raw| && FieldAt(raw, offset).Ok?
    requires var end := FieldAt(raw, offset).value.end;
      end + d <= |raw'| && raw'[offset + d..end + d] == raw[offset..end]
    ensures FieldAt(raw', offset + d) == Ok(Shift(FieldAt(raw, offset).value, d))
  {
    var f := FieldAt(raw, offset).value;
    var key := ReadAt(raw, offset).value;
    WindowWithin(raw, offset, f.end, raw', d, offset, key.next);
    ReadIsLocal(raw, offset, raw', d);
    WindowWithin(raw, offset, f.end, raw', d, key.next, f.end);
    ValueIsLocal(raw, offset, key.next, key.value / 8, key.value % 8, raw', d);
  }

  lemma {:induction false} ValueIsLocal(
    raw: bytes, start: nat, keyEnd: nat, number: nat, wireType: nat, raw': bytes, d: int)
    requires 0 <= start + d && start < keyEnd <= |raw| && ValueAt(raw, start, keyEnd, number, wireType).Ok?
    requires var end := ValueAt(raw, start, keyEnd, number, wireType).value.end;
      end + d <= |raw'| && raw'[keyEnd + d..end + d] == raw[keyEnd..end]
    ensures ValueAt(raw', start + d, keyEnd + d, number, wireType) ==
      Ok(Shift(ValueAt(raw, start, keyEnd, number, wireType).value, d))
  {
    if wireType == 0 || wireType == 2 {
      var end := ValueAt(raw, start, keyEnd, number, wireType).value.end;
      var v := ReadAt(raw, keyEnd).value;
      WindowWithin(raw, keyEnd, end, raw', d, keyEnd, v.next);
      ReadIsLocal(raw, keyEnd, raw', d);
    }
  }

  lemma {:induction false} WindowWithin(raw: bytes, lo: nat, hi: nat, raw': bytes, d: int, a: nat, b: nat)
    requires lo <= a <= b <= hi <= |raw| && 0 <= lo + d && hi + d <= |raw'|
    requires raw'[lo + d..hi + d] == raw[lo..hi]
    ensures raw'[a + d..b + d] == raw[a..b]
  {
    forall i | 0 <= i < b - a
      ensures raw'[a + d..b + d][i] == raw[a..b][i]
    {
      assert raw'[lo + d..hi + d][a - lo + i] == raw[lo..hi][a - lo + i];
    }
  }

  function ShiftField(r: Result<WireField, Fault>, d: int): Result<WireField, Fault> {
    if r.Err? then r else Ok(Shift(r.value, d))
  }

  lemma {:induction false} FieldSeesSuffix(raw: bytes, offset: nat, raw': bytes, d: int)
    requires 0 <= offset + d && offset < |raw| && offset + d < |raw'| && raw[offset..] == raw'[offset + d..]
    ensures FieldAt(raw', offset + d) == ShiftField(FieldAt(raw, offset), d)
  {
    hide ReadAt;
    assert |raw| - offset == |raw[offset..]| == |raw'[offset + d..]| == |raw'| - offset - d;
    ReadSeesSuffix(raw, offset, raw', d);
    var key := ReadAt(raw, offset);
    if key.Ok? {
      var next := key.value.next;
      assert raw[next..] == raw[offset..][next - offset..] == raw'[next + d..];
      ReadSeesSuffix(raw, next, raw', d);
    }
  }

  /** Scanning onwards depends only on what stands at and after the offset. */
  lemma {:induction false} FieldsSeeSuffix(raw: bytes, offset: nat, raw': bytes, d: int)
    requires 0 <= offset + d && offset <= |raw| && offset + d <= |raw'| && raw[offset..] == raw'[offset + d..]
    ensures Fields(raw', offset + d) == ShiftScan(Fields(raw, offset), d)
    decreases |raw| - offset
  {
    hide Fields, FieldAt;
    assert |raw| - offset == |raw[offset..]| == |raw'[offset + d..]| == |raw'| - offset - d;
    FieldsUnfold(raw, offset);
    FieldsUnfold(raw', offset + d);
    if offset < |raw| {
      FieldSeesSuffix(raw, offset, raw', d);
      var f := FieldAt(raw, offset);
      if f.Ok? {
        var end := f.value.end;
        assert raw[end..] == raw'[end + d..] by {
          assert raw[end..] == raw[offset..][end - offset..];
          assert raw'[end + d..] == raw'[offset + d..][end - offset..];
        }
        FieldsSeeSuffix(raw, end, raw', d);
        ShiftBoth(f.value, Fields(raw, end), d);
      }
    }
  }

  lemma {:induction false} FieldsUnfold(raw: bytes, offset: nat)
    requires offset <= |raw|
    ensures offset == |raw| ==> Fields(raw, offset) == Ok([])
    ensures offset < |raw| && FieldAt(raw, offset).Ok? ==>
      var f := FieldAt(raw, offset).value;
      Fields(raw, offset) == After([f], Fields(raw, f.end))
    ensures offset < |raw| && FieldAt(raw, offset).Err? ==> Fields(raw, offset) == Err(FieldAt(raw, offset).error)
  {
    hide FieldAt;
  }

  lemma {:induction false} ShiftBoth(f: WireField, rest: Scan, d: int)
    ensures After([Shift(f, d)], ShiftScan(rest, d)) == ShiftScan(After([f], rest), d)
  {
    if rest.Ok? {
      assert ShiftAll([f] + rest.value, d) == [Shift(f, d)] + ShiftAll(rest.value, d);
    }
  }

  // ----- the scanner's laws -----

  /** Consecutive fields that cover `raw[from..to]` without gap or overlap. */
  ghost predicate Tiles(fs: seq<WireField>, from: int, to: int) {
    if fs == [] then from == to
    else WellPlaced(fs[0], from, to) && Tiles(fs[1..], fs[0].end, to)
  }

  /** Accepted fields cover the input exactly. */
  lemma {:induction false} FieldsTile(raw: bytes, offset: nat)
    requires offset <= |raw| && Fields(raw, offset).Ok?
    ensures Tiles(Fields(raw, offset).value, offset, |raw|)
    decreases |raw| - offset
  {
    if offset < |raw| {
      FieldsTile(raw, FieldAt(raw, offset).value.end);
    }
  }

  /** The indices of a tiling: every field is well placed between its neighbours. */
  lemma {:induction false} TilesIndexed(fs: seq<WireField>, from: int, to: int, k: nat)
    requires Tiles(fs, from, to) && k < |fs|
    ensures WellPlaced(fs[k], if k == 0 then from else fs[k - 1].end, to)
    ensures Tiles(fs[..k], from, fs[k].start) && Tiles(fs[k + 1..], fs[k].end, to)
    ensures from <= fs[k].start && forall i :: 0 <= i < k ==> fs[i].end <= fs[k].start
  {
    if k == 0 {
      assert fs[..0] == [];
    } else {
      TilesIndexed(fs[1..], fs[0].end, to, k - 1);
      assert fs[..k][1..] == fs[1..][..k - 1];
      assert fs[k + 1..] == fs[1..][k..];
      forall i | 0 <= i < k
        ensures fs[i].end <= fs[k].start
      {
        assert i > 0 ==> fs[i] == fs[1..][i - 1];
      }
    }
  }

  /** Scanning `a + b` is scanning `a`, then scanning `b` with its offsets
      moved behind `a`, whether or not `b` is accepted. */
  lemma {:induction false} ScanConcat(a: bytes, offset: nat, b: bytes)
    requires offset <= |a| && Fields(a, offset).Ok?
    ensures Fields(a + b, offset) == After(Fields(a, offset).value, ShiftScan(Fields(b, 0), |a|))
    decreases |a| - offset
  {
    var rest := ShiftScan(Fields(b, 0), |a|);
    if offset == |a| {
      assert (a + b)[offset..] == b == b[0..];
      FieldsSeeSuffix(b, 0, a + b, offset);
      Continue([], [], rest);
    } else {
      var f := FieldAt(a, offset).value;
      FieldKept(a, offset, a + b);
      ScanConcat(a, f.end, b);
      Continue([f], Fields(a, f.end).value, rest);
    }
  }

  /** A field stays what it is as long as the input up to its end does. */
  lemma {:induction false} FieldKept(raw: bytes, offset: nat, raw': bytes)
    requires offset < |raw| && FieldAt(raw, offset).Ok?
    requires var end := FieldAt(raw, offset).value.end; end <= |raw'| && raw'[..end] == raw[..end]
    ensures FieldAt(raw', offset) == FieldAt(raw, offset)
  {
    var f := FieldAt(raw, offset).value;
    assert raw'[offset..f.end] == raw'[..f.end][offset..] == raw[..f.end][offset..] == raw[offset..f.end];
    FieldIsLocal(raw, offset, raw', 0);
    assert Shift(f, 0) == f;
  }

  /** Where the `k`-th field begins, or the end of the input. */
  function Boundary(raw: bytes, fs: seq<WireField>, k: nat): int
    requires k <= |fs|
  {
    if k == |fs| then |raw| else fs[k].start
  }

  /** A scan may be cut at any field boundary: both halves are accepted on
      their own and give exactly their share of the fields. */
  lemma {:induction false} ScanSplit(raw: bytes, offset: nat, fs: seq<WireField>, k: nat, cut: int)
    requires offset <= |raw| && Fields(raw, offset) == Ok(fs)
    requires k <= |fs| && cut == Boundary(raw, fs, k)
    ensures offset <= cut <= |raw|
    ensures Fields(raw[..cut], offset) == Ok(fs[..k])
    ensures Fields(raw[cut..], 0) == Ok(ShiftAll(fs[k..], 0 - cut))
    decreases k
  {
    hide Fields, FieldAt;
    FieldsUnfold(raw, offset);
    if k == 0 {
      assert cut == offset;
      FieldsUnfold(raw[..cut], offset);
      assert fs[0..] == fs;
      assert raw[cut..] == raw[cut..][0..];
      FieldsSeeSuffix(raw, offset, raw[offset..], 0 - offset);
    } else {
      var f := FieldAt(raw, offset).value;
      var rest := Fields(raw, f.end).value;
      assert fs == [f] + rest && fs[k..] == rest[k - 1..];
      ScanSplit(raw, f.end, rest, k - 1, cut);
      assert raw[..cut][..f.end] == raw[..f.end];
      FieldKept(raw, offset, raw[..cut]);
      FieldsUnfold(raw[..cut], offset);
      assert fs[..k] == [f] + rest[..k - 1];
    }
  }

  /** Three accepted inputs put together. */
  lemma {:induction false} ScanConcat3(
    head: bytes, h: seq<WireField>, insert: bytes, g: seq<WireField>, tail: bytes, t: seq<WireField>,
      p: int, q: int)
    requires Fields(head, 0) == Ok(h) && Fields(insert, 0) == Ok(g) && Fields(tail, 0) == Ok(t)
    requires p == |head| && q == |head| + |insert|
    ensures Fields(head + insert + tail, 0) == Ok(h + ShiftAll(g, p) + ShiftAll(t, q))
  {
    ScanConcat(head, 0, insert);
    ScanConcat(head + insert, 0, tail);
  }

  /** The input with the bytes of one field replaced. */
  function Spliced(raw: bytes, f: WireField, insert: bytes): bytes
    requires 0 <= f.start <= f.end <= |raw|
  {
    raw[..f.start] + insert + raw[f.end..]
  }

  /** The fields with the `k`-th replaced by `g`, which takes `size` bytes. */
  function SplicedFields(fs: seq<WireField>, k: nat, g: seq<WireField>, size: nat): seq<WireField>
    requires k < |fs|
  {
    fs[..k] + ShiftAll(g, fs[k].start) + ShiftAll(fs[k + 1..], size - (fs[k].end - fs[k].start))
  }

  /** Replacing the bytes of one field by any acceptable bytes replaces that
      field and only moves the ones behind it. */
  lemma {:induction false} ScanSplice(raw: bytes, fs: seq<WireField>, k: nat, insert: bytes, g: seq<WireField>)
    requires Fields(raw, 0) == Ok(fs) && k < |fs| && Fields(insert, 0) == Ok(g)
    ensures 0 <= fs[k].start < fs[k].end <= |raw|
    ensures Fields(Spliced(raw, fs[k], insert), 0) == Ok(SplicedFields(fs, k, g, |insert|))
  {
    hide Fields;
    var start, end := fs[k].start, fs[k].end;
    BoundariesOf(raw, fs, k);
    ScanSplit(raw, 0, fs, k, start);
    ScanSplit(raw, 0, fs, k + 1, end);
    var t := ShiftAll(fs[k + 1..], 0 - end);
    ShiftTwice(fs[k + 1..], 0 - end, start + |insert|, |insert| - (end - start));
    ScanConcat3(raw[..start], fs[..k], insert, g, raw[end..], t, start, start + |insert|);
  }

  lemma {:induction false} ShiftTwice(fs: seq<WireField>, d: int, e: int, total: int)
    requires total == d + e
    ensures ShiftAll(ShiftAll(fs, d), e) == ShiftAll(fs, total)
  {
  }

  lemma {:induction false} BoundariesOf(raw: bytes, fs: seq<WireField>, k: nat)
    requires Fields(raw, 0) == Ok(fs) && k < |fs|
    ensures 0 <= fs[k].start < fs[k].end <= |raw| && WellPlaced(fs[k], fs[k].start, |raw|)
    ensures Boundary(raw, fs, k) == fs[k].start && Boundary(raw, fs, k + 1) == fs[k].end
  {
    FieldsTile(raw, 0);
    TilesIndexed(fs, 0, |raw|, k);
    if k + 1 < |fs| {
      TilesIndexed(fs, 0, |raw|, k + 1);
    }
  }

  // ----- written fields -----

  const LIMIT: nat := 0x40_0000_0000_0000_0000

  /** The key of a field that is written. */
  function Key(number: nat, wireType: nat): bytes {
    Encoding(number * 8 + wireType)
  }

  lemma {:induction false} KeyIsRead(number: nat, wireType: nat, rest: bytes)
    requires wireType < 8 && number * 8 + wireType < LIMIT
    ensures var raw, k := Key(number, wireType) + rest, |Key(number, wireType)|;
      && 0 < k <= |raw| && raw[k..] == rest
      && FieldAt(raw, 0) == ValueAt(raw, 0, k, number, wireType)
  {
    hide ReadAt, ValueAt;
    var raw := Key(number, wireType) + rest;
    ReadUndoesWrite(number * 8 + wireType, [], rest);
    assert [] + Encoding(number * 8 + wireType) + rest == raw;
  }

  /** A varint field is read back with its number, and a value that does not fit is refused. */
  lemma {:induction false} VarintFieldIsRead(number: nat, value: nat, tail: bytes)
    requires 1 <= number && number * 8 < LIMIT
    ensures var k, e := |Key(number, 0)|, |Encoding(value)|;
      FieldAt(Key(number, 0) + Encoding(value) + tail, 0) ==
        if value < LIMIT then Ok(WireField(number, 0, 0, k, k, k + e, Some(value))) else Err(OversizedVarint)
  {
    hide ReadAt, FieldAt;
    var raw := Key(number, 0) + (Encoding(value) + tail);
    KeyIsRead(number, 0, Encoding(value) + tail);
    ReadUndoesWrite(value, Key(number, 0), tail);
    assert Key(number, 0) + Encoding(value) + tail == raw;
  }

  /** A fixed field takes up exactly eight bytes, or four, and is refused if there are fewer. */
  lemma {:induction false} FixedFieldIsRead(number: nat, rest: bytes)
    requires 1 <= number && number * 8 + 5 < LIMIT
    ensures var k := |Key(number, 1)|;
      FieldAt(Key(number, 1) + rest, 0) ==
        if |rest| >= 8 then Ok(WireField(number, 1, 0, k, k, k + 8, None)) else Err(TruncatedFixed64)
    ensures var k := |Key(number, 5)|;
      FieldAt(Key(number, 5) + rest, 0) ==
        if |rest| >= 4 then Ok(WireField(number, 5, 0, k, k, k + 4, None)) else Err(TruncatedFixed32)
  {
    hide FieldAt;
    KeyIsRead(number, 1, rest);
    KeyIsRead(number, 5, rest);
  }

  /** A length-delimited field takes up its length and so many bytes, and is
      refused if there are fewer. */
  lemma {:induction false} LengthFieldIsRead(number: nat, length: nat, rest: bytes)
    requires 1 <= number && number * 8 + 2 < LIMIT
    ensures var k, e := |Key(number, 2)|, |Encoding(length)|;
      FieldAt(Key(number, 2) + Encoding(length) + rest, 0) ==
        if length >= LIMIT then Err(OversizedVarint)
        else if |rest| < length then Err(TruncatedLength)
        else Ok(WireField(number, 2, 0, k, k + e, k + e + length, None))
  {
    hide ReadAt, FieldAt;
    var raw := Key(number, 2) + (Encoding(length) + rest);
    KeyIsRead(number, 2, Encoding(length) + rest);
    ReadUndoesWrite(length, Key(number, 2), rest);
    assert Key(number, 2) + Encoding(length) + rest == raw;
  }

  /** Field number zero and the wire types without a form are refused. */
  lemma {:induction false} OtherKeysAreRefused(number: nat, wireType: nat, rest: bytes)
    requires wireType < 8 && number * 8 + wireType < LIMIT
    ensures number == 0 ==> FieldAt(Key(number, wireType) + rest, 0) == Err(InvalidFieldNumber)
    ensures number > 0 && (wireType == 3 || wireType == 4 || wireType > 5) ==>
      FieldAt(Key(number, wireType) + rest, 0) == Err(UnsupportedWireType)
  {
    hide ReadAt, FieldAt;
    KeyIsRead(number, wireType, rest);
  }
}
