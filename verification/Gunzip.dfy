/** Inflating a compressed body step by step, bounded while it inflates. */
module Gunzip {
  import opened Octets
  import opened Wrappers

  const INFLATE_STEP: nat := 64 * 1024

  /** What a gzip decompressor makes of its input: one whole member and what follows it, or the
      bytes it can produce before it meets corrupt data or the end of the input. */
  datatype Stream =
    | Member(plain: Bytes, rest: Bytes)
    | Corrupt(plain: Bytes)
    | Truncated(plain: Bytes)

  /** A gzip member has a header, so decompressing one consumes input. */
  ghost predicate Consumes(zlib: Bytes -> Stream) {
    forall raw :: zlib(raw).Member? ==> |zlib(raw).rest| < |raw|
  }

  // ---- one-shot decompression -----------------------------------------------------------

  /** Whether the input is a sequence of members and nothing else. */
  predicate Whole(zlib: Bytes -> Stream, raw: Bytes)
    requires Consumes(zlib)
    decreases |raw|
  {
    raw == [] || (zlib(raw).Member? && Whole(zlib, zlib(raw).rest))
  }

  /** Everything the input decompresses to, up to the first failure. */
  function Plain(zlib: Bytes -> Stream, raw: Bytes): Bytes
    requires Consumes(zlib)
    decreases |raw|
  {
    if |raw| == 0 then []
    else zlib(raw).plain + if zlib(raw).Member? then Plain(zlib, zlib(raw).rest) else []
  }

  // ---- zlib.decompressobj ---------------------------------------------------------------

  /** The stand-in for `zlib.decompressobj`. Callers know its contract only: the plain bytes come
      out in order and at most `max` at a time, in pieces of any size, a full one whenever input
      is left unconsumed; a whole member never stalls; only corrupt data raises. */
  class Decompressor {
    const zlib: Bytes -> Stream
    var started: bool
    var stream: Stream
    var produced: nat
    var eof: bool
    var unconsumedTail: Bytes
    var unusedData: Bytes
    ghost var inflated: nat

    ghost predicate Valid()
      reads this
    {
      && (!started ==> produced == 0 && inflated == 0 && !eof)
      && (started ==> produced <= |stream.plain| && inflated == produced)
      && (eof ==> started && stream.Member? && produced == |stream.plain| && unusedData == stream.rest)
    }

    constructor (zlib: Bytes -> Stream)
      ensures Valid() && this.zlib == zlib && !started && !eof && produced == 0
    {
      this.zlib := zlib;
      started, eof, produced, inflated := false, false, 0, 0;
      stream, unconsumedTail, unusedData := Truncated([]), [], [];
    }

    /** The next piece, or `None` for a `zlib.error`. */
    method Decompress(pending: Bytes, max: nat) returns (part: Option<Bytes>)
      requires Valid() && !eof && max > 0
      requires started ==> pending == unconsumedTail
      modifies this
      ensures started && stream == if old(started) then old(stream) else zlib(pending)
      ensures inflated <= old(inflated) + max
      ensures part.None? ==> stream.Corrupt?
      ensures part.Some? ==>
        && Valid()
        && |part.value| <= max && produced == old(produced) + |part.value|
        && part.value == stream.plain[old(produced)..produced]
        && (!eof && unconsumedTail != [] ==> |part.value| == max)
        && (!eof && unconsumedTail == [] && part.value == [] ==> !stream.Member?)
    {
      if !started {
        started, stream := true, zlib(pending);
      }
      var left := |stream.plain| - produced;
      if left <= max && stream.Corrupt? {
        inflated := inflated + left;
        return None;
      }
      var n := if left <= max then left else max;
      part := Some(stream.plain[produced..produced + n]);
      produced, inflated := produced + n, inflated + n;
      if stream.Member? && n == left {
        eof, unusedData, unconsumedTail := true, stream.rest, [];
      } else {
        unconsumedTail := if n == max then pending else [];
      }
    }
  }

  // ---- the bounded inflate --------------------------------------------------------------

  lemma PieceAppended(before: Bytes, plain: Bytes, from: nat, to: nat)
    requires from <= to <= |plain|
    ensures before + plain[..from] + plain[from..to] == before + plain[..to]
    ensures before + plain[..|plain|] == before + plain
  {
    assert plain[..from] + plain[from..to] == plain[..to];
    assert plain[..|plain|] == plain;
  }

  /** Appending a member's bytes leaves the rest of the input to account for. */
  lemma MemberDone(zlib: Bytes -> Stream, raw: Bytes, before: Bytes, rest: Bytes)
    requires Consumes(zlib) && rest != [] && zlib(rest).Member?
    requires Plain(zlib, raw) == before + Plain(zlib, rest)
    ensures Plain(zlib, raw) == (before + zlib(rest).plain) + Plain(zlib, zlib(rest).rest)
    ensures Whole(zlib, rest) == Whole(zlib, zlib(rest).rest)
  {
  }

  /** What has come out so far bounds everything from below, and a broken stream ends it. */
  lemma ProducedSoFar(zlib: Bytes -> Stream, raw: Bytes, before: Bytes, rest: Bytes)
    requires Consumes(zlib) && rest != []
    requires Plain(zlib, raw) == before + Plain(zlib, rest)
    ensures |before| + |zlib(rest).plain| <= |Plain(zlib, raw)|
    ensures !zlib(rest).Member? ==> !Whole(zlib, rest)
  {
  }

  /** The body and the number of bytes inflated; `None` keeps the bytes as they came. The second
      result bounds the work: what came out of the decompressor, a failing call included. */
  method Inflate(zlib: Bytes -> Stream, raw: Bytes, limit: nat)
    returns (r: Option<(Bytes, nat)>, ghost inflated: nat)
    requires Consumes(zlib)
    ensures Whole(zlib, raw) && |Plain(zlib, raw)| <= limit ==> r == Some((Plain(zlib, raw), |Plain(zlib, raw)|))
    ensures Whole(zlib, raw) && limit < |Plain(zlib, raw)| ==> r.Some?
    ensures !Whole(zlib, raw) && |Plain(zlib, raw)| <= limit ==> r.None?
    ensures r.Some? && !(Whole(zlib, raw) && |Plain(zlib, raw)| <= limit) ==>
              r.value.0 == [] && limit < r.value.1 <= limit + 65_536 && r.value.1 <= |Plain(zlib, raw)|
    ensures inflated <= limit + 65_536
  {
    var parts: Bytes := [];
    var size := 0;
    var rest := raw;
    inflated := 0;
    while rest != []
      invariant size == |parts| <= limit && inflated == size
      invariant Plain(zlib, raw) == parts + Plain(zlib, rest)
      invariant Whole(zlib, raw) == Whole(zlib, rest)
      decreases |rest|
    {
      var stream := new Decompressor(zlib);
      var pending := rest;
      ghost var before := parts;
      ghost var here := zlib(rest);
      ProducedSoFar(zlib, raw, before, rest);
      PieceAppended(before, here.plain, 0, 0);
      assert before + here.plain[..0] == before;
      while !stream.eof
        invariant stream.Valid() && fresh(stream) && stream.zlib == zlib
        invariant stream.started ==> stream.stream == here && pending == stream.unconsumedTail
        invariant !stream.started ==> pending == rest
        invariant stream.produced <= |here.plain| && parts == before + here.plain[..stream.produced]
        invariant size == |parts| <= limit && inflated == size
        decreases !stream.eof, |here.plain| - stream.produced
      {
        ghost var mark, worked := stream.produced, stream.inflated;
        var part := stream.Decompress(pending, INFLATE_STEP);
        if part.None? {
          inflated := inflated + stream.inflated - worked;
          return None, inflated;
        }
        if part.value == [] && stream.unconsumedTail == [] && !stream.eof {
          return None, inflated;
        }
        size := size + |part.value|;
        inflated := size;
        PieceAppended(before, here.plain, mark, stream.produced);
        if size > limit {
          return Some(([], size)), inflated;
        }
        parts := parts + part.value;
        pending := stream.unconsumedTail;
      }
      PieceAppended(before, here.plain, 0, 0);
      MemberDone(zlib, raw, before, rest);
      rest := stream.unusedData;
    }
    assert parts + Plain(zlib, []) == parts;
    return Some((parts, size)), inflated;
  }

  // ---- concatenated members -------------------------------------------------------------

  /** A compressed member and the bytes it stands for. */
  datatype Gzipped = Gzipped(raw: Bytes, plain: Bytes)

  /** `zlib` decompresses this member wherever it stands and hands back what follows it. */
  ghost predicate Decompresses(zlib: Bytes -> Stream, g: Gzipped) {
    g.raw != [] && forall tail: Bytes :: zlib(g.raw + tail) == Member(g.plain, tail)
  }

  function RawOf(members: seq<Gzipped>, tail: Bytes): Bytes {
    if |members| == 0 then tail else members[0].raw + RawOf(members[1..], tail)
  }

  function PlainOf(members: seq<Gzipped>): Bytes {
    if |members| == 0 then [] else members[0].plain + PlainOf(members[1..])
  }

  /** Concatenated members decompress to the concatenation of what each holds, and whatever trails
      them decides whether the whole is gzip. */
  lemma {:induction false} MembersThenTail(zlib: Bytes -> Stream, members: seq<Gzipped>, tail: Bytes)
    requires Consumes(zlib)
    requires forall i :: 0 <= i < |members| ==> Decompresses(zlib, members[i])
    ensures Plain(zlib, RawOf(members, tail)) == PlainOf(members) + Plain(zlib, tail)
    ensures Whole(zlib, RawOf(members, tail)) <==> Whole(zlib, tail)
  {
    if members != [] {
      MembersThenTail(zlib, members[1..], tail);
      var more := RawOf(members[1..], tail);
      assert zlib(members[0].raw + more) == Member(members[0].plain, more);
    }
  }
}
