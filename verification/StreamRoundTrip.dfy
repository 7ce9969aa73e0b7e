/** A stream compressed by any calls and decompressed in any chunks. */
module StreamRoundTrip {
  import opened BitStream
  import opened ByteStrings
  import opened Compressor
  import opened StreamDecoder
  import opened StreamFormat

  /** Cuts bytes into chunks, anyhow. */
  method AnyChunks(b: seq<nat>) returns (chunks: seq<seq<nat>>)
    requires AllBytes(b)
    ensures Flat(chunks) == b && AllChunks(chunks)
  {
    chunks := [];
    var k := |b|;
    assert b[k..] == [];
    while k > 0
      invariant 0 <= k <= |b| && Flat(chunks) == b[k..] && AllChunks(chunks)
    {
      var n :| 0 < n <= k;
      assert b[k - n..k] + b[k..] == b[k - n..];
      assert ([b[k - n..k]] + chunks)[1..] == chunks;
      chunks := [b[k - n..k]] + chunks;
      k := k - n;
    }
  }

  /** What a compressor has handed out by the end of the stream, cut into any chunks, decompresses to what it has taken. */
  method ReadBack(s: EState, small: bool) returns (out: seq<int>)
    requires s.Sized() && s.WrittenOut() && s.consumed == Restored(s.finished)
    ensures out == s.consumed
  {
    hide ByteBits, Flat, AllSealed, InfosOk, StreamBits, Restored, ChunkedInput.Valid;
    ghost var n: nat :| n < 8 && ByteBits(s.out) == StreamBits(s.finished, s.blockSize100k) + Zeros(n);
    var chunks := AnyChunks(s.out);
    var input := new ChunkedInput(chunks);
    StreamBack(s.finished, s.blockSize100k, Zeros(n));
    var ret;
    ret, out := Decompress(input, small);
  }

  /** The bytes that a call took are the beginning of what it was offered. */
  lemma TakenOf(before: seq<int>, after: seq<int>, offered: seq<int>, left: seq<int>)
    requires after + left == before + offered && |left| <= |offered|
    ensures after == before + offered[..|offered| - |left|]
  {
    assert after == (after + left)[..|after|];
    assert (before + offered)[..|after|] == before + offered[..|offered| - |left|];
  }

  /**
   * Any calls, with any action, any bytes and any output space each, until one of them ends the stream: decompressing what was
   * handed out gives back the bytes that the calls took.
   */
  method RoundTrip(blockSize100k: nat, small: bool, calls: nat)
    returns (ended: bool, taken: seq<int>, back: seq<int>)
    requires 1 <= blockSize100k <= 9
    ensures ended ==> back == taken
  {
    hide Restored, EState.Accounted, EState.Filling, EState.Handing, EState.CodedFrom, EState.WrittenOut, Packing;
    var s := new EState(blockSize100k);
    ended, taken, back := false, [], [];
    var n := 0;
    while n < calls && !ended
      invariant s.Valid() && taken == s.consumed && fresh(s) && fresh(s.block) && fresh(s.inUse) && fresh(s.w)
      invariant ended ==> s.WrittenOut() && s.consumed == Restored(s.finished)
    {
      var action: Action := *;
      var nextIn: seq<int> :| Bytes(nextIn);
      var space: nat := *;
      ghost var before := s.consumed;
      var ret := s.BzCompress(action, nextIn, space);
      TakenOf(before, s.consumed, nextIn, s.input);
      taken := taken + nextIn[..|nextIn| - |s.input|];
      ended := ret == Compressor.Ret.StreamEnd;
      n := n + 1;
    }
    if ended {
      back := ReadBack(s, small);
    }
  }

  /** Feeds bytes in any pieces, with any output space. */
  method FeedAll(s: EState, data: seq<int>)
    requires s.Valid() && s.mode.Running? && s.consumed + s.input == [] && Bytes(data)
    modifies s, s.block, s.inUse, s.w
    ensures s.Valid() && s.mode.Running? && s.consumed + s.input == data && Bytes(s.input)
    ensures Grown(old(s.finished), s.finished, 100000 * s.blockSize100k - 19, false)
  {
    hide Grown, EState.Accounted, EState.Filling, EState.Handing, EState.CodedFrom, EState.WrittenOut, Packing;
    var rest := data;
    assert [] + data == data;
    ghost var full := 100000 * s.blockSize100k - 19;
    GrownNot(s.finished, full, false);
    while rest != []
      invariant s.Valid() && s.mode.Running? && s.consumed + s.input + rest == data && Bytes(s.input) && Bytes(rest)
      invariant Grown(old(s.finished), s.finished, full, false)
      decreases |rest|
    {
      var n :| 0 < n <= |rest|;
      var space: nat := *;
      ghost var offered, f := s.input + rest[..n], s.finished;
      assert s.consumed + s.input + rest == s.consumed + offered + rest[n..];
      var ret := s.BzCompress(RunAction, s.input + rest[..n], space);
      GrownMore(old(s.finished), f, s.finished, full, false);
      rest := rest[n..];
      InputBytes(s);
    }
    assert s.consumed + s.input + [] == s.consumed + s.input;
  }

  lemma InputBytes(s: EState)
    requires s.Valid()
    ensures Bytes(s.input)
  {
  }

  /** Calls for the end of the stream, with some output space each, until it is reached. */
  method FinishStream(s: EState)
    requires s.Valid() && s.mode.Running?
    modifies s, s.block, s.inUse, s.w
    ensures s.Valid() && s.WrittenOut() && s.consumed == Restored(s.finished) == old(s.consumed + s.input)
    ensures Grown(old(s.finished), s.finished, 100000 * s.blockSize100k - 19, true)
  {
    hide Grown, Restored, EState.Accounted, EState.Filling, EState.Handing, EState.CodedFrom, EState.WrittenOut,
      Packing;
    ghost var all, full := s.consumed + s.input, 100000 * s.blockSize100k - 19;
    InputBytes(s);
    var space: nat :| space > 0;
    var ret := s.BzCompress(FinishAction, s.input, space);
    while ret != Compressor.Ret.StreamEnd
      invariant s.Valid() && s.consumed + s.input == all && (ret == Compressor.Ret.StreamEnd || ret == FinishOk)
      invariant Grown(old(s.finished), s.finished, full, s.Ended())
      invariant ret == FinishOk ==> s.mode.Finishing? && s.Expected() && !s.Complete()
      invariant ret == Compressor.Ret.StreamEnd ==> s.WrittenOut() && s.input == [] && s.consumed == Restored(s.finished)
      decreases ret == FinishOk, |s.input|, s.Phase(), s.Left()
    {
      InputBytes(s);
      space :| space > 0;
      ghost var f, ended := s.finished, s.Ended();
      ret := s.BzCompress(FinishAction, s.input, space);
      if !ended {
        GrownMore(old(s.finished), f, s.finished, full, s.Ended());
      }
    }
    GrownSo(old(s.finished), s.finished, full, full, s.Ended(), true);
    assert s.consumed + [] == s.consumed;
  }

  /** The blocks of a compressor that has ended its stream are packed as tightly as can be. */
  lemma EndedTight(s: EState)
    requires s.Valid()
    ensures AllTight(s.finished)
  {
  }

  /**
   * Compressing any bytes, fed in any pieces and handed out into any space, ends. The result is the stream of blocks that stand for
   * the bytes, each packed with runs as long as they can be, and each but the last as full as a block gets. Decompressing it in any
   * chunks gives the bytes back.
   */
  method CompressAndDecompress(data: seq<int>, blockSize100k: nat, small: bool)
    returns (z: seq<nat>, back: seq<int>, ghost blocks: seq<Sealed>)
    requires 1 <= blockSize100k <= 9 && Bytes(data)
    ensures back == data
    ensures InfosOk(blocks) && AllSealed(blocks, blockSize100k) && Closed(blocks, blockSize100k, z)
    ensures Restored(blocks) == data && AllTight(blocks)
    ensures forall i :: 0 <= i < |blocks| - 1 ==> |blocks[i].block| >= 100000 * blockSize100k - 19
  {
    hide Restored, EState.Accounted, EState.Filling, EState.Handing, EState.CodedFrom, Packing, InfosOk, AllSealed, Closed, AllTight,
      AllBytes;
    var s := new EState(blockSize100k);
    assert s.consumed + s.input == [];
    FeedAll(s, data);
    FinishStream(s);
    EndedTight(s);
    z, blocks := s.out, s.finished;
    back := ReadBack(s, small);
  }
}
