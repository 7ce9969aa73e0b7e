/** Delivering a decoded block: undoing the run-length packing into whatever output space each call offers. */
module UnRunLength {
  import opened BlockCrc
  import opened Bwt
  import BwtDecoders
  import opened ByteStrings
  import opened RunLength

  /** The block that decoding a column delivers. */
  ghost function Block(column: seq<int>, orig: nat): (b: seq<int>)
    requires orig < |column|
    ensures |b| == |column|
  {
    seq(|column|, t requires 0 <= t < |column| => Decoded(column, orig, t))
  }

  lemma DecodedByte(column: seq<int>, orig: nat, t: nat)
    requires orig < |column| && Bytes(column)
    ensures 0 <= Decoded(column, orig, t) < 256
    ensures t < |column| ==> Decoded(column, orig, t) == Block(column, orig)[t]
  {
  }

  /** How far the output has come, with `len` more bytes `ch` owed and `k0` the byte looked at last. */
  ghost predicate Progress(column: seq<int>, orig: nat, used: int, k0: int, ch: int, len: nat, out: seq<int>)
    requires orig < |column|
  {
    && used >= 1 && Bytes(column) && Bytes(out) && 0 <= k0 < 256 && (len > 0 ==> 0 <= ch < 256)
    && |out| + len <= 259 * used
    && (used <= |column| ==> k0 == Decoded(column, orig, used - 1))
    && Unrolled(Block(column, orig), used, Repeat(ch, len), out)
  }

  lemma Deliver(column: seq<int>, orig: nat, used: int, k0: int, ch: int, len: nat, out: seq<int>)
    requires orig < |column| && len > 0 && Progress(column, orig, used, k0, ch, len, out)
    ensures Progress(column, orig, used, k0, ch, len - 1, out + [ch])
  {
    hide Unrolled, Block, Decoded, Repeat;
    DeliverOne(Block(column, orig), used, ch, len - 1, out);
  }

  /** A run of `n` copies starts: the byte after them differs, or the block ends there. */
  lemma Start(column: seq<int>, orig: nat, used: int, k0: int, ch: int, out: seq<int>, n: nat, k1: int)
    requires orig < |column| && Progress(column, orig, used, k0, ch, 0, out) && 1 <= n < 4 && used - 1 + n <= |column|
    requires forall t :: used - 1 <= t < used - 1 + n ==> Decoded(column, orig, t) == k0
    requires used - 1 + n == |column| || Decoded(column, orig, used - 1 + n) != k0
    requires 0 <= k1 < 256 && (used + n <= |column| ==> k1 == Decoded(column, orig, used + n - 1))
    ensures Progress(column, orig, used + n, k1, k0, n, out)
  {
    hide Unrolled, Decoded;
    var b := Block(column, orig);
    assert Repeat(ch, 0) == [];
    assert b[used - 1..used - 1 + n] == Repeat(b[used - 1], n);
    StartShort(b, used, n, out);
  }

  /** Four equal bytes, the next one taken as their count. */
  lemma StartFour(column: seq<int>, orig: nat, used: int, k0: int, ch: int, out: seq<int>, count: int, k1: int)
    requires orig < |column| && Progress(column, orig, used, k0, ch, 0, out) && used + 3 <= |column|
    requires forall t :: used - 1 <= t < used + 3 ==> Decoded(column, orig, t) == k0
    requires count == Decoded(column, orig, used + 3) && k1 == Decoded(column, orig, used + 4)
    ensures 0 <= count < 256 && Progress(column, orig, used + 5, k1, k0, count + 4, out)
  {
    hide Decoded;
    var b := Block(column, orig);
    assert Repeat(ch, 0) == [];
    DecodedByte(column, orig, used + 3);
    DecodedByte(column, orig, used + 4);
    assert b[used - 1..][0] == k0 && b[used - 1..][1] == k0 && b[used - 1..][2] == k0 && b[used - 1..][3] == k0;
    StartLong(b, used, out);
  }

  lemma Complete(column: seq<int>, orig: nat, used: int, k0: int, ch: int, out: seq<int>)
    requires orig < |column| && Progress(column, orig, used, k0, ch, 0, out)
    ensures used <= |column| + 2
    ensures used == |column| + 1 ==> WellPacked(Block(column, orig)) && out == Expand(Block(column, orig))
    ensures used > |column| + 1 ==> !WellPacked(Block(column, orig))
  {
    hide Expand, WellPacked;
    assert Repeat(ch, 0) == [];
    if used == |column| + 1 {
      AllDelivered(Block(column, orig), out);
    }
  }

  /** The fast decoder's output side. */
  class FastOutput {
    const walk: BwtDecoders.FastWalk
    const saveNblock: nat
    var k0: int
    var stateOutCh: int
    var stateOutLen: nat
    var nblockUsed: int
    var calculatedBlockCRC: Checksum
    var out: seq<int>

    ghost predicate Fetched(used: int)
      reads walk, walk.tt
    {
      walk.Valid() && walk.orig < |walk.column| == saveNblock && walk.taken == used && Bytes(walk.column)
    }

    ghost predicate Summed()
      reads this`out, this`calculatedBlockCRC
    {
      Bytes(out) && calculatedBlockCRC == Crc(out)
    }

    ghost predicate Valid()
      reads this, walk, walk.tt
    {
      && Fetched(nblockUsed) && Summed()
      && Progress(walk.column, walk.orig, nblockUsed, k0, stateOutCh, stateOutLen, out)
    }

    /** The whole block has been delivered. */
    predicate Finished()
      reads this
    {
      nblockUsed == saveNblock + 1 && stateOutLen == 0
    }

    /** Starts on a block whose decoding walk is set up, by looking at its first byte. */
    constructor (walk: BwtDecoders.FastWalk, nblock: nat)
      requires walk.Valid() && walk.taken == 0 && Bytes(walk.column) && walk.orig < |walk.column| == nblock
      modifies walk
      ensures Valid() && this.walk == walk && out == []
    {
      hide Progress, Decoded, BwtDecoders.FastWalk.Valid;
      this.walk := walk;
      saveNblock := nblock;
      stateOutLen, stateOutCh, calculatedBlockCRC, out := 0, 0, INITIAL, [];
      var corrupt, ch := walk.Get();
      k0, nblockUsed := ch, 1;
      FirstProgress(walk.column, walk.orig);
    }

    method Emit(ch: int)
      requires 0 <= ch < 256 && Summed()
      modifies this`out, this`calculatedBlockCRC
      ensures Summed() && out == old(out) + [ch]
    {
      CrcPush(out, ch);
      calculatedBlockCRC := Update(calculatedBlockCRC, ch);
      out := out + [ch];
    }

    /** Looks at the next byte of the block. */
    method Fetch(ghost used: int) returns (k1: int)
      requires Fetched(used)
      modifies walk`tPos, walk`taken
      ensures Fetched(used + 1) && k1 == Decoded(walk.column, walk.orig, used) && 0 <= k1 < 256
    {
      hide Decoded, Origin;
      var corrupt;
      DecodedByte(walk.column, walk.orig, walk.taken);
      corrupt, k1 := walk.Get();
    }

    /** Delivers into `availOut` bytes of output space; what does not fit waits for the next call. */
    method UnRle(availOut: nat) returns (corrupt: bool, left: nat)
      requires Valid()
      modifies this, walk`tPos, walk`taken
      ensures !corrupt ==> Valid() && old(out) <= out && |out| == |old(out)| + availOut - left
      ensures !corrupt ==> left == 0 || Finished()
      ensures corrupt ==> !WellPacked(Block(walk.column, walk.orig))
      ensures !corrupt && Finished() ==> WellPacked(Block(walk.column, walk.orig)) && out == Expand(Block(walk.column, walk.orig))
    {
      hide Progress, BwtDecoders.FastWalk.Valid, Summed, Decoded, Expand, WellPacked, Block;
      ghost var column, orig := walk.column, walk.orig;
      var cCh, cLen, cUsed, cK0 := stateOutCh, stateOutLen, nblockUsed, k0;
      var avail, one := availOut, false;
      while true
        invariant Fetched(cUsed) && Summed() && old(out) <= out && |out| == |old(out)| + availOut - avail
        invariant Progress(column, orig, cUsed, cK0, cCh, if one then 1 else cLen, out)
        decreases |column| + 2 - cUsed
      {
        // Finish the run at hand; its last byte is delivered separately.
        if !one && cLen > 0 {
          while cLen > 1 && avail > 0
            invariant Fetched(cUsed) && Summed() && old(out) <= out && |out| == |old(out)| + availOut - avail
            invariant cLen >= 1 && Progress(column, orig, cUsed, cK0, cCh, cLen, out)
            decreases cLen
          {
            ProgressBytes(column, orig, cUsed, cK0, cCh, cLen, out);
            Deliver(column, orig, cUsed, cK0, cCh, cLen, out);
            Emit(cCh);
            cLen, avail := cLen - 1, avail - 1;
          }
          if avail == 0 {
            k0, stateOutCh, stateOutLen, nblockUsed := cK0, cCh, cLen, cUsed;
            return false, 0;
          }
          one := true;
        }
        ProgressBytes(column, orig, cUsed, cK0, cCh, if one then 1 else cLen, out);
        if one {
          if avail == 0 {
            k0, stateOutCh, stateOutLen, nblockUsed := cK0, cCh, 1, cUsed;
            return false, 0;
          }
          Deliver(column, orig, cUsed, cK0, cCh, 1, out);
          Emit(cCh);
          avail := avail - 1;
        }
        one := false;
        Complete(column, orig, cUsed, cK0, cCh, out);
        if cUsed > saveNblock + 1 {
          return true, avail;
        }
        if cUsed == saveNblock + 1 {
          k0, stateOutCh, stateOutLen, nblockUsed := cK0, cCh, 0, cUsed;
          return false, avail;
        }
        one, cCh, cLen, cUsed, cK0 := StartRun(cCh, cLen, cUsed, cK0);
      }
    }

    /** Looks at bytes until it is clear how long the next run is: one byte, or as many as the length tells. */
    method StartRun(ch: int, stale: nat, used: int, first: int)
      returns (one: bool, cCh: int, cLen: nat, cUsed: int, cK0: int)
      requires Fetched(used) && Progress(walk.column, walk.orig, used, first, ch, 0, out) && used <= saveNblock
      modifies walk`tPos, walk`taken
      ensures Fetched(cUsed) && cUsed > used
      ensures Progress(walk.column, walk.orig, cUsed, cK0, cCh, if one then 1 else cLen, out)
    {
      hide Progress, Decoded, BwtDecoders.FastWalk.Valid;
      ghost var column, orig := walk.column, walk.orig;
      FirstByte(column, orig, used, first, ch, out);
      one, cCh, cLen, cUsed, cK0 := false, first, stale, used, first;
      var k1 := Fetch(cUsed);
      cUsed := cUsed + 1;
      if k1 != cK0 {
        cK0 := k1;
        Start(column, orig, used, first, ch, out, 1, cK0);
        return true, cCh, cLen, cUsed, cK0;
      }
      if cUsed == saveNblock + 1 {
        Start(column, orig, used, first, ch, out, 1, cK0);
        return true, cCh, cLen, cUsed, cK0;
      }
      cLen := 2;
      k1 := Fetch(cUsed);
      cUsed := cUsed + 1;
      if cUsed == saveNblock + 1 {
        Start(column, orig, used, first, ch, out, 2, cK0);
        return;
      }
      if k1 != cK0 {
        cK0 := k1;
        Start(column, orig, used, first, ch, out, 2, cK0);
        return;
      }
      cLen := 3;
      k1 := Fetch(cUsed);
      cUsed := cUsed + 1;
      if cUsed == saveNblock + 1 {
        Start(column, orig, used, first, ch, out, 3, cK0);
        return;
      }
      if k1 != cK0 {
        cK0 := k1;
        Start(column, orig, used, first, ch, out, 3, cK0);
        return;
      }
      k1 := Fetch(cUsed);
      cUsed := cUsed + 1;
      cLen := k1 + 4;
      var next := Fetch(cUsed);
      cUsed := cUsed + 1;
      cK0 := next;
      StartFour(column, orig, used, first, ch, out, k1, next);
    }
  }

  /** The memory-saving decoder's output side. */
  class SmallOutput {
    const walk: BwtDecoders.SmallWalk
    const saveNblock: nat
    var k0: int
    var stateOutCh: int
    var stateOutLen: nat
    var nblockUsed: int
    var calculatedBlockCRC: Checksum
    var out: seq<int>

    ghost predicate Fetched(used: int)
      reads walk, walk.ll16, walk.ll4, walk.cftab
    {
      walk.Valid() && walk.orig < |walk.column| == saveNblock && walk.taken == used && Bytes(walk.column)
    }

    ghost predicate Summed()
      reads this`out, this`calculatedBlockCRC
    {
      Bytes(out) && calculatedBlockCRC == Crc(out)
    }

    ghost predicate Valid()
      reads this, walk, walk.ll16, walk.ll4, walk.cftab
    {
      && Fetched(nblockUsed) && Summed()
      && Progress(walk.column, walk.orig, nblockUsed, k0, stateOutCh, stateOutLen, out)
    }

    /** The whole block has been delivered. */
    predicate Finished()
      reads this
    {
      nblockUsed == saveNblock + 1 && stateOutLen == 0
    }

    /** Starts on a block whose decoding walk is set up, by looking at its first byte. */
    constructor (walk: BwtDecoders.SmallWalk, nblock: nat)
      requires walk.Valid() && walk.taken == 0 && Bytes(walk.column) && walk.orig < |walk.column| == nblock
      modifies walk
      ensures Valid() && this.walk == walk && out == []
    {
      hide Progress, Decoded, BwtDecoders.SmallWalk.Valid;
      this.walk := walk;
      saveNblock := nblock;
      stateOutLen, stateOutCh, calculatedBlockCRC, out := 0, 0, INITIAL, [];
      var corrupt, ch := walk.Get();
      k0, nblockUsed := ch, 1;
      FirstProgress(walk.column, walk.orig);
    }

    method Emit(ch: int)
      requires 0 <= ch < 256 && Summed()
      modifies this`out, this`calculatedBlockCRC
      ensures Summed() && out == old(out) + [ch]
    {
      CrcPush(out, ch);
      calculatedBlockCRC := Update(calculatedBlockCRC, ch);
      out := out + [ch];
    }

    /** Looks at the next byte of the block. */
    method Fetch() returns (k1: int)
      requires Fetched(nblockUsed) && nblockUsed >= 0
      modifies walk`tPos, walk`taken, this`nblockUsed
      ensures nblockUsed == old(nblockUsed) + 1 && Fetched(nblockUsed)
      ensures k1 == Decoded(walk.column, walk.orig, old(nblockUsed)) && 0 <= k1 < 256
    {
      hide BwtDecoders.SmallWalk.Valid, Decoded;
      var corrupt;
      DecodedByte(walk.column, walk.orig, walk.taken);
      corrupt, k1 := walk.Get();
      nblockUsed := nblockUsed + 1;
    }

    /** Delivers into `availOut` bytes of output space; what does not fit waits for the next call. */
    method UnRle(availOut: nat) returns (corrupt: bool, left: nat)
      requires Valid()
      modifies this, walk`tPos, walk`taken
      ensures !corrupt ==> Valid() && old(out) <= out && |out| == |old(out)| + availOut - left
      ensures !corrupt ==> left == 0 || Finished()
      ensures corrupt ==> !WellPacked(Block(walk.column, walk.orig))
      ensures !corrupt && Finished() ==> WellPacked(Block(walk.column, walk.orig)) && out == Expand(Block(walk.column, walk.orig))
    {
      hide Progress, BwtDecoders.SmallWalk.Valid, Summed, Decoded, Expand, WellPacked, Block;
      ghost var column, orig := walk.column, walk.orig;
      left := availOut;
      while true
        invariant Valid() && old(out) <= out && |out| == |old(out)| + availOut - left
        decreases |column| + 2 - nblockUsed
      {
        ghost var used := nblockUsed;
        while left > 0 && stateOutLen > 0
          invariant Valid() && old(out) <= out && |out| == |old(out)| + availOut - left
          invariant nblockUsed == used
          decreases left
        {
          ProgressBytes(column, orig, nblockUsed, k0, stateOutCh, stateOutLen, out);
          Deliver(column, orig, nblockUsed, k0, stateOutCh, stateOutLen, out);
          Emit(stateOutCh);
          stateOutLen, left := stateOutLen - 1, left - 1;
        }
        if stateOutLen == 0 {
          Complete(column, orig, nblockUsed, k0, stateOutCh, out);
        }
        if left == 0 {
          return false, 0;
        }
        if nblockUsed == saveNblock + 1 {
          return false, left;
        }
        if nblockUsed > saveNblock + 1 {
          return true, left;
        }
        StartRun();
      }
    }

    /** Looks at bytes until it is clear how long the next run is. */
    method StartRun()
      requires Valid() && stateOutLen == 0 && nblockUsed <= saveNblock
      modifies this`k0, this`stateOutCh, this`stateOutLen, this`nblockUsed, walk`tPos, walk`taken
      ensures Valid() && nblockUsed > old(nblockUsed)
    {
      hide Progress, Decoded, BwtDecoders.SmallWalk.Valid, Summed;
      ghost var column, orig := walk.column, walk.orig;
      ghost var used, first, ch := nblockUsed, k0, stateOutCh;
      FirstByte(column, orig, used, first, ch, out);
      stateOutLen, stateOutCh := 1, k0;
      var k1 := Fetch();
      if nblockUsed == saveNblock + 1 {
        Start(column, orig, used, first, ch, out, 1, k0);
        return;
      }
      if k1 != k0 {
        k0 := k1;
        Start(column, orig, used, first, ch, out, 1, k0);
        return;
      }
      stateOutLen := 2;
      k1 := Fetch();
      if nblockUsed == saveNblock + 1 {
        Start(column, orig, used, first, ch, out, 2, k0);
        return;
      }
      if k1 != k0 {
        k0 := k1;
        Start(column, orig, used, first, ch, out, 2, k0);
        return;
      }
      stateOutLen := 3;
      k1 := Fetch();
      if nblockUsed == saveNblock + 1 {
        Start(column, orig, used, first, ch, out, 3, k0);
        return;
      }
      if k1 != k0 {
        k0 := k1;
        Start(column, orig, used, first, ch, out, 3, k0);
        return;
      }
      TakeCount(used, ch);
    }

    /** After four equal bytes, takes their count and looks at the byte after it. */
    method TakeCount(ghost used: nat, ghost ch: int)
      requires Fetched(nblockUsed) && Summed() && nblockUsed == used + 3 && used + 3 <= saveNblock && stateOutCh == k0
      requires Progress(walk.column, walk.orig, used, k0, ch, 0, out)
      requires forall t :: used - 1 <= t < used + 3 ==> Decoded(walk.column, walk.orig, t) == k0
      modifies this`k0, this`stateOutLen, this`nblockUsed, walk`tPos, walk`taken
      ensures Valid() && nblockUsed == used + 5
    {
      hide Progress, Decoded, BwtDecoders.SmallWalk.Valid, Summed;
      ghost var first := k0;
      var k1 := Fetch();
      stateOutLen := k1 + 4;
      var next := Fetch();
      k0 := next;
      StartFour(walk.column, walk.orig, used, first, ch, out, k1, next);
    }
  }

  lemma ProgressBytes(column: seq<int>, orig: nat, used: int, k0: int, ch: int, len: nat, out: seq<int>)
    requires orig < |column| && Progress(column, orig, used, k0, ch, len, out)
    ensures len > 0 ==> 0 <= ch < 256
  {
  }

  lemma FirstByte(column: seq<int>, orig: nat, used: int, k0: int, ch: int, out: seq<int>)
    requires orig < |column| && Progress(column, orig, used, k0, ch, 0, out) && used <= |column|
    ensures k0 == Decoded(column, orig, used - 1) && 0 <= k0 < 256
  {
  }

  lemma FirstProgress(column: seq<int>, orig: nat)
    requires orig < |column| && Bytes(column)
    ensures Progress(column, orig, 1, Decoded(column, orig, 0), 0, 0, [])
  {
    hide Expand, WellPacked, Decoded;
    var b := Block(column, orig);
    DecodedByte(column, orig, 0);
    assert b[0..] == b && Repeat(0, 0) == [];
    assert [] + [] + Expand(b) == Expand(b);
  }
}
