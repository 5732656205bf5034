/** Socket halves under an adversarial network: any segmentation, then end of file or a fault. */
module Streams {
  import opened Bytes

  datatype Ending = Eof | Fault

  datatype ReadOutcome = Got(n: nat) | Ended(how: Ending)

  /** What reads into a buffer of `cap` bytes return, one after the other. */
  function Chunks(segments: seq<seq<byte>>, cap: nat): seq<seq<byte>>
    requires cap > 0
    decreases |segments|, if segments == [] then 0 else |segments[0]|
  {
    if segments == [] then []
    else if segments[0] == [] then Chunks(segments[1..], cap)
    else if |segments[0]| <= cap then [segments[0]] + Chunks(segments[1..], cap)
    else [segments[0][..cap]] + Chunks([segments[0][cap..]] + segments[1..], cap)
  }

  lemma {:induction false} ChunksCarryTheStream(segments: seq<seq<byte>>, cap: nat)
    requires cap > 0
    ensures Concat(Chunks(segments, cap)) == Concat(segments)
    ensures forall i :: 0 <= i < |Chunks(segments, cap)| ==> 1 <= |Chunks(segments, cap)[i]| <= cap
    decreases |segments|, if segments == [] then 0 else |segments[0]|
  {
    if segments != [] {
      var first, others := segments[0], segments[1..];
      if |first| <= cap {
        ChunksCarryTheStream(others, cap);
        if first != [] {
          assert ([first] + Chunks(others, cap))[1..] == Chunks(others, cap);
        }
      } else {
        var cut := [first[cap..]] + others;
        ChunksCarryTheStream(cut, cap);
        assert cut[1..] == others;
        assert ([first[..cap]] + Chunks(cut, cap))[1..] == Chunks(cut, cap);
        assert first[..cap] + (first[cap..] + Concat(others)) == first + Concat(others);
      }
    }
  }

  function AfterChunk(segments: seq<seq<byte>>, n: nat): seq<seq<byte>>
    requires segments != [] && n <= |segments[0]|
  {
    if n < |segments[0]| then [segments[0][n..]] + segments[1..] else segments[1..]
  }

  lemma ChunkOffTheFront(segments: seq<seq<byte>>, cap: nat)
    requires cap > 0 && segments != [] && segments[0] != []
    ensures var n := Min(cap, |segments[0]|);
            && Chunks(segments, cap) == [segments[0][..n]] + Chunks(AfterChunk(segments, n), cap)
            && Concat(segments) == segments[0][..n] + Concat(AfterChunk(segments, n))
  {
    var first, others := segments[0], segments[1..];
    var n := Min(cap, |first|);
    if n < |first| {
      assert ([first[n..]] + others)[1..] == others;
      assert first[..n] + (first[n..] + Concat(others)) == first + Concat(others);
    } else {
      assert first[..n] == first;
    }
  }

  method CopyInto(buf: array<byte>, lo: nat, s: seq<byte>)
    requires lo + |s| <= buf.Length
    modifies buf
    ensures buf[..lo] == old(buf[..lo]) && buf[lo..lo + |s|] == s
  {
    forall i | 0 <= i < |s| {
      buf[lo + i] := s[i];
    }
  }

  class ReadHalf {
    var segments: seq<seq<byte>>
    const ending: Ending

    constructor (segments: seq<seq<byte>>, ending: Ending)
      ensures this.segments == segments && this.ending == ending
    {
      this.segments := segments;
      this.ending := ending;
    }

    /** Every byte still to come. */
    function Pending(): seq<byte>
      reads this
    {
      Concat(segments)
    }

    /** `read(&mut buf[lo..hi])` */
    method Read(buf: array<byte>, lo: nat, hi: nat) returns (r: ReadOutcome)
      requires lo < hi <= buf.Length
      modifies this, buf
      ensures r.Got? ==>
                && 1 <= r.n <= hi - lo
                && Chunks(old(segments), hi - lo) == [buf[lo..lo + r.n]] + Chunks(segments, hi - lo)
                && old(Pending()) == buf[lo..lo + r.n] + Pending()
      ensures r.Ended? ==> r.how == ending && segments == [] && Pending() == [] && Chunks(old(segments), hi - lo) == [] && old(Pending()) == []
      ensures buf[..lo] == old(buf[..lo])
    {
      SkipEmpty(hi - lo);
      if segments == [] {
        return Ended(ending);
      }
      var first := segments[0];
      var n := Min(hi - lo, |first|);
      ChunkOffTheFront(segments, hi - lo);
      segments := AfterChunk(segments, n);
      CopyInto(buf, lo, first[..n]);
      return Got(n);
    }

    method SkipEmpty(cap: nat)
      requires cap > 0
      modifies this
      ensures segments != [] ==> segments[0] != []
      ensures Chunks(segments, cap) == Chunks(old(segments), cap) && Concat(segments) == Concat(old(segments))
    {
      while segments != [] && segments[0] == []
        invariant Chunks(segments, cap) == Chunks(old(segments), cap)
        invariant Concat(segments) == Concat(old(segments))
        decreases |segments|
      {
        segments := segments[1..];
      }
    }

    /** `read_exact(&mut buf[..n])`: the segmentation does not matter. */
    method ReadExact(buf: array<byte>, n: nat) returns (ok: bool)
      requires n <= buf.Length
      modifies this, buf
      ensures ok <==> n <= |old(Pending())|
      ensures ok ==> old(Pending()) == buf[..n] + Pending()
      ensures !ok ==> Pending() == []
    {
      hide Chunks, Concat;
      var got := 0;
      while got < n
        invariant 0 <= got <= n
        invariant old(Pending()) == buf[..got] + Pending()
      {
        var r := Read(buf, got, n);
        if r.Ended? {
          return false;
        }
        Assoc(buf[..got], buf[got..got + r.n], Pending());
        assert buf[..got + r.n] == buf[..got] + buf[got..got + r.n];
        got := got + r.n;
      }
      return true;
    }
  }

  /** A peer that takes at most `limit` bytes in all, then refuses the rest of a write. */
  class WriteHalf {
    var written: seq<byte>
    const limit: Option<nat>

    constructor (limit: Option<nat>)
      ensures written == [] && this.limit == limit && Valid()
    {
      this.limit := limit;
      written := [];
    }

    ghost predicate Valid()
      reads this
    {
      limit.Some? ==> |written| <= limit.value
    }

    /** What is left of `s` after the limit. */
    function Clip(s: seq<byte>): (r: seq<byte>)
      ensures r <= s
    {
      if limit.Some? && limit.value < |s| then s[..limit.value] else s
    }

    predicate Fits(s: seq<byte>) { limit.Some? ==> |s| <= limit.value }

    method WriteAll(s: seq<byte>) returns (ok: bool)
      requires Valid()
      modifies this
      ensures Valid()
      ensures written == Clip(old(written) + s)
      ensures ok <==> Fits(old(written) + s)
    {
      ok := limit.None? || |written| + |s| <= limit.value;
      if ok {
        written := written + s;
      } else {
        written := written + s[..limit.value - |written|];
      }
    }
  }
}
