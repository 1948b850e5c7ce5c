/** The bounded tail of a child's standard error. */
module StderrTail {
  import opened Collections

  function Concat(chunks: seq<bytes>): bytes {
    if chunks == [] then [] else chunks[0] + Concat(chunks[1..])
  }

  /** What is left when whole chunks are dropped from the front until the rest fits. */
  function Kept(chunks: seq<bytes>, limit: nat): seq<bytes> {
    if |Concat(chunks)| > limit && chunks != [] then Kept(chunks[1..], limit) else chunks
  }

  /** What is read before the stream ends; an empty read is its end. */
  function Heard(stream: seq<bytes>): seq<bytes> {
    if stream == [] || stream[0] == [] then [] else [stream[0]] + Heard(stream[1..])
  }

  /** A slice from `-limit`, which is everything when the limit is zero. */
  function Last(s: bytes, limit: nat): bytes {
    if limit == 0 || |s| <= limit then s else s[|s| - limit..]
  }

  ghost predicate IsSuffix<T>(end: seq<T>, s: seq<T>) {
    |end| <= |s| && end == s[|s| - |end|..]
  }

  class StderrTee {
    const limit: nat
    var chunks: seq<bytes>
    var size: int

    ghost predicate Valid()
      reads this
    {
      size == |Concat(chunks)| <= limit
    }

    constructor (limit: nat)
      ensures Valid() && this.limit == limit && chunks == []
    {
      this.limit := limit;
      chunks, size := [], 0;
    }

    /** Follow the stream to its end. */
    method Run(stream: seq<bytes>)
      requires Valid()
      modifies this
      ensures Valid()
      ensures chunks == Kept(old(chunks) + Heard(stream), limit)
    {
      hide Kept, Heard, Concat;
      var i := 0;
      FitsAsItIs(chunks, limit);
      assert chunks + [] == chunks;
      HeardUnfolds(stream);
      assert stream[0..] == stream;
      ghost var heard: seq<bytes> := [];
      while i < |stream|
        invariant 0 <= i <= |stream| && Valid()
        invariant Heard(stream) == heard + Heard(stream[i..])
        invariant chunks == Kept(old(chunks) + heard, limit)
      {
        var chunk := stream[i];
        HeardUnfolds(stream[i..]);
        if chunk == [] {
          break;
        }
        assert stream[i..][1..] == stream[i + 1..];
        KeptOnTheWay(old(chunks) + heard, chunk, limit);
        assert old(chunks) + heard + [chunk] == old(chunks) + (heard + [chunk]);
        heard := heard + [chunk];
        AddChunk(chunk);
        i := i + 1;
      }
      HeardUnfolds(stream[i..]);
      assert heard + [] == heard;
    }

    /** One chunk arrives: append it, then drop from the front what no longer fits. */
    method AddChunk(chunk: bytes)
      requires Valid()
      modifies this
      ensures Valid()
      ensures chunks == Kept(old(chunks) + [chunk], limit)
    {
      hide Kept;
      ConcatSnoc(chunks, chunk);
      chunks := chunks + [chunk];
      size := size + |chunk|;
      while size > limit && chunks != []
        invariant size == |Concat(chunks)|
        invariant Kept(chunks, limit) == Kept(old(chunks) + [chunk], limit)
      {
        KeptUnfolds(chunks, limit);
        size := size - |chunks[0]|;
        chunks := chunks[1..];
      }
      KeptUnfolds(chunks, limit);
    }

    function Text(): (text: bytes)
      requires Valid()
      reads this
      ensures text == Concat(chunks) && |text| <= limit
    {
      Last(Concat(chunks), limit)
    }
  }

  lemma {:induction false} HeardUnfolds(stream: seq<bytes>)
    ensures stream == [] || stream[0] == [] ==> Heard(stream) == []
    ensures stream != [] && stream[0] != [] ==> Heard(stream) == [stream[0]] + Heard(stream[1..])
  {
  }

  lemma {:induction false} KeptUnfolds(chunks: seq<bytes>, limit: nat)
    ensures |Concat(chunks)| > limit && chunks != [] ==> Kept(chunks, limit) == Kept(chunks[1..], limit)
    ensures !(|Concat(chunks)| > limit && chunks != []) ==> Kept(chunks, limit) == chunks
  {
  }

  lemma {:induction false} FitsAsItIs(chunks: seq<bytes>, limit: nat)
    requires |Concat(chunks)| <= limit
    ensures Kept(chunks, limit) == chunks
  {
  }

  lemma {:induction false} ConcatSnoc(chunks: seq<bytes>, chunk: bytes)
    ensures Concat(chunks + [chunk]) == Concat(chunks) + chunk
  {
    if chunks == [] {
      assert [chunk][1..] == [];
      assert chunks + [chunk] == [chunk];
    } else {
      ConcatSnoc(chunks[1..], chunk);
      assert (chunks + [chunk])[1..] == chunks[1..] + [chunk];
    }
  }

  /** Trimming after every chunk keeps what trimming once at the end would. */
  lemma {:induction false} KeptOnTheWay(chunks: seq<bytes>, chunk: bytes, limit: nat)
    ensures Kept(Kept(chunks, limit) + [chunk], limit) == Kept(chunks + [chunk], limit)
    decreases |chunks|
  {
    hide Concat;
    KeptUnfolds(chunks, limit);
    if |Concat(chunks)| > limit && chunks != [] {
      ConcatSnoc(chunks, chunk);
      KeptOnTheWay(chunks[1..], chunk, limit);
      assert (chunks + [chunk])[1..] == chunks[1..] + [chunk];
    }
  }

  lemma {:induction false} ConcatDrop(chunks: seq<bytes>, k: nat)
    requires k <= |chunks|
    ensures IsSuffix(Concat(chunks[k..]), Concat(chunks))
  {
    if k > 0 {
      ConcatDrop(chunks[1..], k - 1);
      assert chunks[1..][k - 1..] == chunks[k..];
      var all, rest := Concat(chunks), Concat(chunks[1..]);
      assert all[|chunks[0]|..] == rest;
    }
  }

  /** What is kept is the longest run of whole chunks at the end that fits. */
  lemma {:induction false} KeptIsLongest(chunks: seq<bytes>, limit: nat, k: nat)
    requires k <= |chunks| && |Concat(chunks[k..])| <= limit
    ensures IsSuffix(Kept(chunks, limit), chunks) && |Concat(Kept(chunks, limit))| <= limit
    ensures |chunks| - k <= |Kept(chunks, limit)|
    decreases |chunks|
  {
    hide Concat;
    KeptUnfolds(chunks, limit);
    if chunks != [] && |Concat(chunks)| > limit {
      assert k > 0 by {
        assert chunks[0..] == chunks;
      }
      assert chunks[1..][k - 1..] == chunks[k..];
      KeptIsLongest(chunks[1..], limit, k - 1);
    } else {
      assert chunks == [] ==> Concat(chunks) == [] by { NothingToJoin(); }
    }
  }

  lemma {:induction false} NothingToJoin()
    ensures Concat([]) == []
  {
  }

  /** The tail is the end of everything read: never longer than the limit, and
      short of it by less than one chunk. */
  lemma {:induction false} TailIsLongEnough(chunks: seq<bytes>, limit: nat, largest: nat)
    requires forall k :: 0 <= k < |chunks| ==> |chunks[k]| <= largest
    ensures var text := Concat(Kept(chunks, limit));
      && IsSuffix(text, Concat(chunks)) && |text| <= limit
      && (|text| == |Concat(chunks)| || |text| > limit - largest)
    decreases |chunks|
  {
    hide Kept, Concat;
    KeptUnfolds(chunks, limit);
    NothingToJoin();
    if chunks != [] && |Concat(chunks)| > limit {
      var rest := chunks[1..];
      assert forall k :: 0 <= k < |rest| ==> rest[k] == chunks[k + 1];
      TailIsLongEnough(rest, limit, largest);
      ConcatDrop(chunks, 1);
      SuffixOfSuffix(Concat(Kept(chunks, limit)), Concat(rest), Concat(chunks));
      FirstChunk(chunks);
    }
  }

  lemma {:induction false} FirstChunk(chunks: seq<bytes>)
    requires chunks != []
    ensures |Concat(chunks)| == |chunks[0]| + |Concat(chunks[1..])|
  {
  }

  lemma {:induction false} SuffixOfSuffix(a: bytes, b: bytes, c: bytes)
    requires IsSuffix(a, b) && IsSuffix(b, c)
    ensures IsSuffix(a, c)
  {
  }

  const READ_SIZE: nat := 4096

  /** The tee in operation: reads of at most 4096 bytes. */
  lemma {:induction false} TeeKeepsTheEnd(stream: seq<bytes>, limit: nat)
    requires forall k :: 0 <= k < |stream| ==> |stream[k]| <= READ_SIZE
    ensures var all, text := Concat(Heard(stream)), Concat(Kept(Heard(stream), limit));
      && IsSuffix(text, all) && |text| <= limit
      && |text| >= if |all| <= limit - 4095 then |all| else limit - 4095
  {
    hide Concat, Kept;
    HeardWithin(stream, READ_SIZE);
    TailIsLongEnough(Heard(stream), limit, READ_SIZE);
  }

  lemma {:induction false} HeardWithin(stream: seq<bytes>, largest: nat)
    requires forall k :: 0 <= k < |stream| ==> |stream[k]| <= largest
    ensures forall k :: 0 <= k < |Heard(stream)| ==> |Heard(stream)[k]| <= largest
  {
    if stream != [] && stream[0] != [] {
      HeardWithin(stream[1..], largest);
    }
  }

  /** The tail of a stream is lost altogether exactly when its last chunk alone
      is over the limit, which reads of 4096 bytes rule out for larger limits. */
  lemma {:induction false} TailLostExactly(chunks: seq<bytes>, limit: nat)
    requires chunks != [] && forall k :: 0 <= k < |chunks| ==> chunks[k] != []
    ensures Kept(chunks, limit) == [] <==> |chunks[|chunks| - 1]| > limit
  {
    hide Concat;
    var n := |chunks| - 1;
    var last := chunks[n..];
    assert last == [chunks[n]];
    NothingToJoin();
    FirstChunk(last);
    assert last[1..] == [];
    if |chunks[n]| <= limit {
      KeptIsLongest(chunks, limit, n);
    } else {
      assert chunks[|chunks|..] == [];
      KeptIsLongest(chunks, limit, |chunks|);
      var kept := Kept(chunks, limit);
      if kept != [] {
        assert kept[|kept| - 1..] == [chunks[n]];
        ConcatDrop(kept, |kept| - 1);
      }
    }
  }

  /** Text taken while the tee is still dropping chunks is short enough too, and
      still the end of what was read. */
  lemma {:induction false} TextWhileTrimming(chunks: seq<bytes>, dropped: nat, limit: nat)
    requires dropped <= |chunks| && limit > 0
    ensures var text := Last(Concat(chunks[dropped..]), limit);
      IsSuffix(text, Concat(chunks)) && |text| <= limit
  {
    ConcatDrop(chunks, dropped);
    SuffixOfSuffix(Last(Concat(chunks[dropped..]), limit), Concat(chunks[dropped..]), Concat(chunks));
  }
}
