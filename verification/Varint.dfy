/**
 Base-128 varints as the storage helper reads and writes them
 (Protocol Buffers Encoding guide, section "Base 128 Varints").

 An octet contributes its low seven bits.  Those bits land above everything
 accumulated so far, which is why the helper's "or" comes to an addition.
 */
module Varint {
  import opened Collections
  import opened Outcomes

  /** Every way in which the helper refuses a payload. */
  datatype Fault =
    | TruncatedVarint
    | OversizedVarint
    | NegativeVarint
    | InvalidFieldNumber
    | TruncatedFixed64
    | TruncatedLength
    | TruncatedFixed32
    | UnsupportedWireType
    | AmbiguousField9
    | UnsupportedLegacyValue
    | AmbiguousSpec

  const MAX_OCTETS := 10

  /** A decoded number and the offset just after its last octet. */
  datatype Reading = Reading(value: nat, next: nat)

  function Pow128(n: nat): (p: nat)
    ensures p >= 1
  {
    if n == 0 then 1 else 128 * Pow128(n - 1)
  }

  /** The number at `offset`, whose last octet has to stand before `stop`. */
  function Decode(raw: bytes, offset: nat, stop: nat): (r: Result<Reading, Fault>)
    requires offset <= stop
    ensures r.Ok? ==> offset < r.value.next <= |raw| && r.value.next <= stop
    decreases stop - offset
  {
    if offset == stop then Err(OversizedVarint)
    else if offset >= |raw| then Err(TruncatedVarint)
    else if raw[offset] < 128 then Ok(Reading(raw[offset], offset + 1))
    else
      var rest :- Decode(raw, offset + 1, stop);
      Ok(Reading(raw[offset] % 128 + 128 * rest.value, rest.next))
  }

  /** The number at `offset`; ten octets are the most it may take. */
  function ReadAt(raw: bytes, offset: nat): (r: Result<Reading, Fault>)
    ensures r.Ok? ==> offset < r.value.next <= |raw| && r.value.next <= offset + MAX_OCTETS
  {
    Decode(raw, offset, offset + MAX_OCTETS)
  }

  /** The shortest encoding of `value`. */
  function Encoding(value: nat): (e: bytes)
    ensures |e| >= 1
  {
    if value < 128 then [value] else [value % 128 + 128] + Encoding(value / 128)
  }

  /** What remains to be done after `value` has been collected below `scale`. */
  function Resume(value: nat, scale: nat, rest: Result<Reading, Fault>): Result<Reading, Fault> {
    if rest.Err? then rest else Ok(Reading(value + scale * rest.value.value, rest.value.next))
  }

  function Pow2(n: nat): (p: nat)
    ensures p >= 1
  {
    if n == 0 then 1 else 2 * Pow2(n - 1)
  }

  /** Bitwise "or". */
  function Or(a: nat, b: nat): nat
    decreases a + b
  {
    if a == 0 && b == 0 then 0
    else (if a % 2 == 1 || b % 2 == 1 then 1 else 0) + 2 * Or(a / 2, b / 2)
  }

  lemma {:induction false} OrZero(b: nat)
    ensures Or(0, b) == b
    decreases b
  {
    if b > 0 {
      OrZero(b / 2);
    }
  }

  /** Bits shifted past all of a value's bits are added to it by "or". */
  lemma {:induction false} OrAdds(value: nat, digit: nat, bits: nat)
    requires value < Pow2(bits)
    ensures Or(value, digit * Pow2(bits)) == value + digit * Pow2(bits)
    decreases bits
  {
    hide Or;
    if bits == 0 {
      OrZero(digit);
    } else {
      var half := digit * Pow2(bits - 1);
      assert digit * Pow2(bits) == 2 * half;
      OrAdds(value / 2, digit, bits - 1);
      OrUnfolds(value, 2 * half);
      assert 2 * half / 2 == half;
    }
  }

  lemma {:induction false} OrUnfolds(a: nat, b: nat)
    ensures Or(a, b) == (if a % 2 == 1 || b % 2 == 1 then 1 else 0) + 2 * Or(a / 2, b / 2)
  {
  }

  lemma {:induction false} SevenBits(bits: nat)
    ensures Pow2(bits + 7) == 128 * Pow2(bits)
  {
    assert Pow2(bits + 2) == 4 * Pow2(bits);
    assert Pow2(bits + 4) == 4 * Pow2(bits + 2);
    assert Pow2(bits + 6) == 4 * Pow2(bits + 4);
  }

  method Read(raw: bytes, offset: nat) returns (r: Result<Reading, Fault>)
    ensures r == ReadAt(raw, offset)
  {
    hide Or, Pow2, Decode;
    var value: nat, scale: nat, at: nat := 0, 1, offset;
    NothingRead(Decode(raw, offset, offset + MAX_OCTETS));
    for index := 0 to MAX_OCTETS
      invariant at == offset + index
      invariant value < scale == Pow2(index * 7)
      invariant ReadAt(raw, offset) == Resume(value, scale, Decode(raw, at, offset + MAX_OCTETS))
    {
      DecodeUnfolds(raw, at, offset + MAX_OCTETS);
      if at >= |raw| {
        return Err(TruncatedVarint);
      }
      OctetStep(raw, at, offset + MAX_OCTETS, value, index * 7);
      var octet: int := raw[at];
      at := at + 1;
      value := Or(value, octet % 128 * scale);
      if octet < 128 {
        return Ok(Reading(value, at));
      }
      scale := 128 * scale;
    }
    DecodeUnfolds(raw, at, offset + MAX_OCTETS);
    return Err(OversizedVarint);
  }

  lemma {:induction false} NothingRead(r: Result<Reading, Fault>)
    ensures Resume(0, 1, r) == r && Pow2(0) == 1
  {
  }

  lemma {:induction false} DecodeUnfolds(raw: bytes, at: nat, stop: nat)
    requires at <= stop
    ensures at == stop ==> Decode(raw, at, stop) == Err(OversizedVarint)
    ensures at < stop && at >= |raw| ==> Decode(raw, at, stop) == Err(TruncatedVarint)
    ensures at < stop && at < |raw| && raw[at] < 128 ==> Decode(raw, at, stop) == Ok(Reading(raw[at], at + 1))
    ensures at < stop && at < |raw| && raw[at] >= 128 ==>
      Decode(raw, at, stop) == Resume(raw[at] % 128, 128, Decode(raw, at + 1, stop))
  {
  }

  /** One turn of the reader's loop: the octet's bits lie above `value`, "or"
      adds them, and what remains to be read lies above them. */
  lemma {:induction false} OctetStep(raw: bytes, at: nat, stop: nat, value: nat, bits: nat)
    requires at < stop && at < |raw| && value < Pow2(bits)
    ensures var octet: int, now := raw[at], Or(value, raw[at] % 128 * Pow2(bits));
      && now == value + octet % 128 * Pow2(bits) < Pow2(bits + 7) == 128 * Pow2(bits)
      && Resume(value, Pow2(bits), Decode(raw, at, stop)) ==
         if octet < 128 then Ok(Reading(now, at + 1))
         else Resume(now, Pow2(bits + 7), Decode(raw, at + 1, stop))
  {
    hide Or, Pow2, Decode, Resume;
    DecodeUnfolds(raw, at, stop);
    OrAdds(value, raw[at] % 128, bits);
    SevenBits(bits);
    DigitBelow(raw[at] % 128, Pow2(bits));
    ResumeOnce(value, Pow2(bits), raw[at] % 128, at + 1);
    ResumeTwice(value, Pow2(bits), raw[at] % 128, Decode(raw, at + 1, stop));
  }

  lemma {:induction false} DigitBelow(digit: nat, scale: nat)
    requires digit < 128
    ensures digit * scale <= 127 * scale
  {
  }

  lemma {:induction false} ResumeOnce(value: nat, scale: nat, digit: nat, next: nat)
    ensures Resume(value, scale, Ok(Reading(digit, next))) == Ok(Reading(value + digit * scale, next))
  {
  }

  /** A digit resumed from and then a value is the two of them resumed from at once. */
  lemma {:induction false} ResumeTwice(value: nat, scale: nat, digit: nat, rest: Result<Reading, Fault>)
    ensures Resume(value, scale, Resume(digit, 128, rest)) == Resume(value + digit * scale, 128 * scale, rest)
  {
    if rest.Ok? {
      PlaceDigit(digit, scale, rest.value.value);
    }
  }

  lemma {:induction false} PlaceDigit(digit: nat, scale: nat, higher: nat)
    ensures scale * (digit + 128 * higher) == digit * scale + 128 * scale * higher
  {
  }

  method Write(value: int) returns (r: Result<bytes, Fault>)
    ensures r == if value < 0 then Err(NegativeVarint) else Ok(Encoding(value))
  {
    if value < 0 {
      return Err(NegativeVarint);
    }
    var output: bytes := [];
    var left: nat := value;
    while true
      invariant Encoding(value) == output + Encoding(left)
      decreases left
    {
      var octet := left % 128;
      left := left / 128;
      output := output + [if left != 0 then octet + 128 else octet];
      if left == 0 {
        return Ok(output);
      }
    }
  }

  /** Reading undoes writing, wherever the encoding stands and whatever
      follows it, exactly for the numbers that fit into the octets allowed. */
  lemma {:induction false} DecodeUndoesWrite(value: nat, raw: bytes, offset: nat, stop: nat)
    requires offset < stop && offset + |Encoding(value)| <= |raw|
    requires raw[offset..offset + |Encoding(value)|] == Encoding(value)
    ensures Decode(raw, offset, stop) ==
      if value < Pow128(stop - offset) then Ok(Reading(value, offset + |Encoding(value)|)) else Err(OversizedVarint)
    decreases stop - offset
  {
    var e := Encoding(value);
    assert raw[offset] == raw[offset..offset + |e|][0] == e[0];
    assert Pow128(stop - offset) == 128 * Pow128(stop - offset - 1);
    if value >= 128 {
      var rest := Encoding(value / 128);
      assert e[1..] == rest;
      assert raw[offset + 1..offset + 1 + |rest|] == raw[offset..offset + |e|][1..];
      if offset + 1 < stop {
        DecodeUndoesWrite(value / 128, raw, offset + 1, stop);
      }
    }
  }

  /** Reading undoes writing for every number below 2^70 and refuses what was
      written for any other. */
  lemma {:induction false} ReadUndoesWrite(value: nat, prefix: bytes, tail: bytes)
    ensures ReadAt(prefix + Encoding(value) + tail, |prefix|) ==
      if value < 0x40_0000_0000_0000_0000
      then Ok(Reading(value, |prefix| + |Encoding(value)|))
      else Err(OversizedVarint)
  {
    var raw := prefix + Encoding(value) + tail;
    assert raw[|prefix|..|prefix| + |Encoding(value)|] == Encoding(value);
    DecodeUndoesWrite(value, raw, |prefix|, |prefix| + MAX_OCTETS);
    TenOctets();
  }

  lemma {:induction false} TenOctets()
    ensures Pow128(MAX_OCTETS) == 0x40_0000_0000_0000_0000
  {
    assert Pow128(5) == 0x8_0000_0000;
  }

  /** No accepted spelling of a number is shorter than the one written, an
      equally long one is that very spelling, and the number fits the octets. */
  lemma {:induction false} WrittenFormIsShortest(raw: bytes, offset: nat, stop: nat)
    requires offset <= stop && Decode(raw, offset, stop).Ok?
    ensures var r := Decode(raw, offset, stop).value;
      && r.value < Pow128(stop - offset)
      && |Encoding(r.value)| <= r.next - offset
      && (|Encoding(r.value)| == r.next - offset ==> raw[offset..r.next] == Encoding(r.value))
    decreases stop - offset
  {
    var r := Decode(raw, offset, stop).value;
    assert Pow128(stop - offset) == 128 * Pow128(stop - offset - 1);
    if raw[offset] >= 128 {
      WrittenFormIsShortest(raw, offset + 1, stop);
      var rest := Decode(raw, offset + 1, stop).value;
      assert r.value / 128 == rest.value && r.value % 128 == raw[offset] % 128;
      assert raw[offset..r.next] == [raw[offset]] + raw[offset + 1..r.next];
    }
  }

  /** Decoding looks only at the octets it consumes. */
  lemma {:induction false} DecodeIsLocal(raw: bytes, offset: nat, stop: nat, raw': bytes, d: int)
    requires 0 <= offset + d && offset <= stop && Decode(raw, offset, stop).Ok?
    requires var next := Decode(raw, offset, stop).value.next;
      next + d <= |raw'| && raw'[offset + d..next + d] == raw[offset..next]
    ensures var r := Decode(raw, offset, stop).value;
      Decode(raw', offset + d, stop + d) == Ok(Reading(r.value, r.next + d))
    decreases stop - offset
  {
    var next := Decode(raw, offset, stop).value.next;
    assert raw'[offset + d] == raw'[offset + d..next + d][0] == raw[offset..next][0] == raw[offset];
    if raw[offset] >= 128 {
      assert raw'[offset + 1 + d..next + d] == raw'[offset + d..next + d][1..];
      assert raw[offset + 1..next] == raw[offset..next][1..];
      DecodeIsLocal(raw, offset + 1, stop, raw', d);
    }
  }

  lemma {:induction false} ReadIsLocal(raw: bytes, offset: nat, raw': bytes, d: int)
    requires 0 <= offset + d && ReadAt(raw, offset).Ok?
    requires var next := ReadAt(raw, offset).value.next;
      next + d <= |raw'| && raw'[offset + d..next + d] == raw[offset..next]
    ensures ReadAt(raw', offset + d) == ShiftReading(ReadAt(raw, offset), d)
  {
    DecodeIsLocal(raw, offset, offset + MAX_OCTETS, raw', d);
  }

  lemma {:induction false} ReadSeesSuffix(raw: bytes, offset: nat, raw': bytes, d: int)
    requires 0 <= offset + d
    requires offset <= |raw| && offset + d <= |raw'| && raw[offset..] == raw'[offset + d..]
    ensures ReadAt(raw', offset + d) == ShiftReading(ReadAt(raw, offset), d)
  {
    DecodeSeesSuffix(raw, offset, offset + MAX_OCTETS, raw', d);
  }

  /** The same outcome with its offset moved by `d`. */
  function ShiftReading(r: Result<Reading, Fault>, d: int): Result<Reading, Fault>
    requires r.Ok? ==> r.value.next + d >= 0
  {
    if r.Err? then r else Ok(Reading(r.value.value, r.value.next + d))
  }

  /** The outcome depends only on what stands at and after the offset. */
  lemma {:induction false} DecodeSeesSuffix(raw: bytes, offset: nat, stop: nat, raw': bytes, d: int)
    requires 0 <= offset + d && offset <= stop
    requires offset <= |raw| && offset + d <= |raw'| && raw[offset..] == raw'[offset + d..]
    ensures Decode(raw', offset + d, stop + d) == ShiftReading(Decode(raw, offset, stop), d)
    decreases stop - offset
  {
    assert |raw| - offset == |raw[offset..]| == |raw'[offset + d..]| == |raw'| - offset - d;
    if offset < stop && offset < |raw| {
      assert raw[offset] == raw[offset..][0] == raw'[offset + d];
      assert raw[offset + 1..] == raw[offset..][1..] == raw'[offset + 1 + d..];
      DecodeSeesSuffix(raw, offset + 1, stop, raw', d);
    }
  }

  // ----- every spelling -----

  /** The octets' low seven bits, the first ones lowest. */
  function Weighed(octets: bytes): nat {
    if octets == [] then 0 else octets[0] % 128 + 128 * Weighed(octets[1..])
  }

  /** The octet at `end` is the first from the offset on without its high bit. */
  ghost predicate EndsAt(raw: bytes, offset: nat, end: nat) {
    offset <= end < |raw| && raw[end] < 128 && forall i :: offset <= i < end ==> raw[i] >= 128
  }

  /** A number is read up to the first octet without its high bit, whether it is
      spelled as short as it could be or not; it is refused exactly when none of
      the ten octets is one, as truncated if there are not so many. */
  lemma {:induction false} ReadExactly(raw: bytes, offset: nat)
    ensures forall end: nat :: EndsAt(raw, offset, end) && end < offset + 10 ==>
      ReadAt(raw, offset) == Ok(Reading(Weighed(raw[offset..end + 1]), end + 1))
    ensures (forall end: nat :: EndsAt(raw, offset, end) ==> end >= offset + 10) ==>
      ReadAt(raw, offset) == Err(if |raw| < offset + 10 then TruncatedVarint else OversizedVarint)
  {
    hide Decode, Weighed;
    forall end: nat | EndsAt(raw, offset, end) && end < offset + 10
      ensures ReadAt(raw, offset) == Ok(Reading(Weighed(raw[offset..end + 1]), end + 1))
    {
      EndIsFound(raw, offset, offset + MAX_OCTETS, end);
    }
    if forall end: nat :: EndsAt(raw, offset, end) ==> end >= offset + 10 {
      NoEndIsFound(raw, offset, offset + MAX_OCTETS);
    }
  }

  lemma {:induction false} EndIsFound(raw: bytes, offset: nat, stop: nat, end: nat)
    requires EndsAt(raw, offset, end) && end < stop
    ensures Decode(raw, offset, stop) == Ok(Reading(Weighed(raw[offset..end + 1]), end + 1))
    decreases end - offset
  {
    hide Decode;
    DecodeUnfolds(raw, offset, stop);
    var octets := raw[offset..end + 1];
    assert octets[0] == raw[offset];
    assert octets[1..] == raw[offset + 1..end + 1];
    if offset < end {
      EndIsFound(raw, offset + 1, stop, end);
    }
  }

  lemma {:induction false} NoEndIsFound(raw: bytes, offset: nat, stop: nat)
    requires offset <= stop && (offset == stop ==> stop <= |raw|)
    requires forall end: nat :: EndsAt(raw, offset, end) ==> end >= stop
    ensures Decode(raw, offset, stop) == Err(if |raw| < stop then TruncatedVarint else OversizedVarint)
    decreases stop - offset
  {
    hide Decode;
    DecodeUnfolds(raw, offset, stop);
    if offset < stop && offset < |raw| {
      assert !EndsAt(raw, offset, offset);
      var next := offset + 1;
      forall end: nat | EndsAt(raw, next, end)
        ensures end >= stop
      {
        assert EndsAt(raw, offset, end);
      }
      NoEndIsFound(raw, next, stop);
    }
  }
}
