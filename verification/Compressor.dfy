/** The compressor's streaming side: packing input into blocks, and handing out what the blocks compress to. */
module Compressor {
  import opened BitStream
  import BlockCodec
  import opened BlockCrc
  import BlockSize
  import opened ByteStrings
  import opened RunLength
  import opened StreamFormat

  datatype Mode = Idle | Running | Flushing | Finishing
  datatype State = Output | Input
  datatype Action = RunAction | FlushAction | FinishAction | OtherAction
  datatype Ret = RunOk | FlushOk | FinishOk | StreamEnd | SequenceError | ParamError

  const NO_CHAR := 256

  /** The bits of the header and the finished blocks. */
  ghost function SoFar(finished: seq<Sealed>, blockSize100k: nat, started: bool): seq<bool>
    requires InfosOk(finished)
  {
    if started then HeaderBits(blockSize100k) + BlocksFrom(finished, 0) else []
  }

  /** The bytes are the stream, its last byte filled up with zeros. */
  ghost predicate Closed(finished: seq<Sealed>, blockSize100k: nat, bytes: seq<nat>)
    requires InfosOk(finished)
  {
    exists n: nat :: n < 8 && ByteBits(bytes) == StreamBits(finished, blockSize100k) + Zeros(n)
  }

  /** The run not yet packed. */
  ghost function Pending(ch: nat, len: nat): seq<Run> {
    if ch < NO_CHAR && len > 0 then [Run(ch, len)] else []
  }

  /** What the packing keeps: the block holds `runs` packed, and the pending run may follow them. */
  ghost predicate Packing(runs: seq<Run>, ch: nat, len: nat, block: seq<int>, sum: Checksum) {
    && ch <= NO_CHAR && (ch < NO_CHAR <==> len > 0) && len <= 255
    && Runs(runs + Pending(ch, len)) && block == Pack(runs) && Bytes(block) && Bytes(Plain(runs))
    && sum == Crc(Plain(runs))
  }

  /** Exactly the byte values that occur in the block are marked. */
  ghost predicate Marked(inUse: seq<bool>, block: seq<int>) {
    |inUse| == 256 && forall c :: 0 <= c < 256 ==> (inUse[c] <==> c in block)
  }

  /** A packed run brings in its byte and, if it has one, its count. */
  lemma MarkRun(was: seq<bool>, now: seq<bool>, block: seq<int>, ch: nat, len: nat)
    requires Marked(was, block) && ch < 256 && 1 <= len <= 255
    requires now == if len >= 4 then was[ch := true][len - 4 := true] else was[ch := true]
    ensures Marked(now, block + PackRun(Run(ch, len)))
  {
    var r := PackRun(Run(ch, len));
    forall c | 0 <= c < 256 ensures c in r <==> c == ch || (len >= 4 && c == len - 4) {
      assert r[0] == ch;
      assert len >= 4 ==> r[4] == len - 4;
    }
  }

  /** Appending the pending run to the block. */
  lemma PackPending(runs: seq<Run>, ch: nat, len: nat, block: seq<int>, sum: Checksum,
          sum': Checksum)
    requires Packing(runs, ch, len, block, sum) && ch < NO_CHAR
    requires Bytes(Plain(runs) + Repeat(ch, len)) && sum' == Crc(Plain(runs) + Repeat(ch, len))
    ensures var runs' := runs + [Run(ch, len)];
      && Packing(runs', NO_CHAR, 0, block + PackRun(Run(ch, len)), sum')
      && Plain(runs') == Plain(runs) + Repeat(ch, len)
  {
    hide Pack, Plain, Crc, Runs;
    PackPush(runs, Run(ch, len));
    assert runs + Pending(ch, len) == runs + [Run(ch, len)];
    assert runs + [Run(ch, len)] + Pending(NO_CHAR, 0) == runs + [Run(ch, len)];
  }

  /** A new pending run after the last one was packed. */
  lemma NextRun(runs: seq<Run>, block: seq<int>, sum: Checksum, ch: nat)
    requires Packing(runs, NO_CHAR, 0, block, sum) && ch < NO_CHAR
    requires runs != [] ==> runs[|runs| - 1].len == 255 || runs[|runs| - 1].ch != ch
    ensures Packing(runs, ch, 1, block, sum)
  {
    hide Pack, Plain, Crc;
    assert runs + Pending(NO_CHAR, 0) == runs;
    RunsPush(runs, Run(ch, 1));
  }

  lemma LongerRun(runs: seq<Run>, block: seq<int>, sum: Checksum, ch: nat, len: nat)
    requires Packing(runs, ch, len, block, sum) && ch < NO_CHAR && len < 255
    ensures Packing(runs, ch, len + 1, block, sum)
    ensures Plain(runs) + Repeat(ch, len) + [ch] == Plain(runs) + Repeat(ch, len + 1)
  {
    hide Pack, Plain, Crc;
    var s, t := runs + Pending(ch, len), runs + Pending(ch, len + 1);
    assert |t| == |s| == |runs| + 1 && t[|runs|] == Run(ch, len + 1) && s[|runs|] == Run(ch, len);
    assert forall i :: 0 <= i < |runs| ==> t[i] == s[i];
    forall i, j | 0 <= i && j == i + 1 && j < |t| ensures t[i].len == 255 || t[i].ch != t[j].ch {
      assert s[i].len == 255 || s[i].ch != s[j].ch;
    }
    assert Repeat(ch, len + 1) == Repeat(ch, len) + [ch];
  }

  lemma {:induction false} CrcRepeat(s: seq<int>, ch: int, n: nat)
    requires Bytes(s) && 0 <= ch < 256
    ensures Bytes(s + Repeat(ch, n)) && Bytes(s + Repeat(ch, n + 1))
    ensures Crc(s + Repeat(ch, n + 1)) == Update(Crc(s + Repeat(ch, n)), ch)
  {
    hide Crc, Update;
    CrcPush(s + Repeat(ch, n), ch);
    assert s + Repeat(ch, n + 1) == s + Repeat(ch, n) + [ch];
  }

  /** The block is the packed form of what it stands for, cut into runs as long as they can be. */
  ghost predicate Tight(s: Sealed) {
    s.block == Pack(Cut(Expand(s.block)))
  }

  ghost predicate AllTight(finished: seq<Sealed>) {
    forall i :: 0 <= i < |finished| ==> Tight(finished[i])
  }

  /** Blocks have been added that are full, but for a last one that may be short. */
  ghost predicate Grown(before: seq<Sealed>, after: seq<Sealed>, full: int, short: bool) {
    && before <= after
    && forall i :: |before| <= i < |after| ==> |after[i].block| >= full || (short && i == |after| - 1)
  }

  lemma GrownMore(a: seq<Sealed>, b: seq<Sealed>, c: seq<Sealed>, full: int, short: bool)
    requires Grown(a, b, full, false) && Grown(b, c, full, short)
    ensures Grown(a, c, full, short)
  {
  }

  lemma GrownOne(a: seq<Sealed>, s: Sealed)
    ensures Grown(a, WithBlock(a, s), |s.block|, false) && |WithBlock(a, s)| == |a| + (if s.block == [] then 0 else 1)
  {
  }

  lemma GrownLast(a: seq<Sealed>, b: seq<Sealed>, full: int)
    requires a <= b && |b| <= |a| + 1
    ensures Grown(a, b, full, true)
  {
  }

  lemma GrownSo(a: seq<Sealed>, b: seq<Sealed>, full: int, full': int, short: bool, short': bool)
    requires Grown(a, b, full, short) && full' <= full && (short ==> short')
    ensures a <= b && Grown(a, b, full', short')
  {
  }

  lemma GrownNot(a: seq<Sealed>, full: int, short: bool)
    ensures Grown(a, a, full, short)
  {
  }

  /** Less input, or a later phase with the same input, or less to hand out in the same phase. */
  ghost predicate Nearer(input: nat, phase: nat, left: int, input0: nat, phase0: nat, left0: int) {
    input < input0 || (input == input0 && (phase < phase0 || (phase == phase0 && 0 <= left < left0)))
  }

  /** The compressor's state between calls. */
  class EState {
    const blockSize100k: nat
    const nblockMAX: int
    const block: array<int>
    const inUse: array<bool>
    const w: BitWriter
    var mode: Mode
    var state: State
    var availInExpect: nat
    var input: seq<int>
    var availOut: nat
    var out: seq<nat>
    var stateInCh: nat
    var stateInLen: nat
    var nblock: nat
    var blockNo: nat
    var stateOutPos: nat
    var blockCRC: Checksum
    var combinedCRC: Checksum
    ghost var runs: seq<Run>
    ghost var finished: seq<Sealed>
    ghost var consumed: seq<int>
    ghost var produced: seq<nat>
    ghost var trailers: nat

    ghost predicate Sized() {
      1 <= blockSize100k <= 9 && nblockMAX == 100000 * blockSize100k - 19 && block.Length >= 100000 * blockSize100k && inUse.Length == 256
    }

    predicate IsEmptyRL()
      reads this`stateInCh, this`stateInLen
    {
      !(stateInCh < NO_CHAR && stateInLen > 0)
    }

    /** The bytes already packed into the block, and the pending run. */
    ghost predicate Filling()
      reads this`runs, this`stateInCh, this`stateInLen, this`nblock, this`blockCRC, block, inUse
    {
      && Sized() && nblock <= 100000 * blockSize100k - 10
      && Packing(runs, stateInCh, stateInLen, block[..nblock], blockCRC)
      && Marked(inUse[..], block[..nblock])
    }

    /** The bytes that the current block and the pending run stand for. */
    ghost function Taken(): seq<int>
      reads this`runs, this`stateInCh, this`stateInLen
    {
      Plain(runs) + Repeat(stateInCh, stateInLen)
    }

    /** Every byte consumed is in a finished block, in the current one or in the pending run. */
    ghost predicate Accounted()
      reads this`finished, this`runs, this`stateInCh, this`stateInLen, this`consumed, this`combinedCRC
    {
      && consumed == Restored(finished) + Taken()
      && AllSealed(finished, blockSize100k) && AllTight(finished) && combinedCRC == Combined(finished)
    }

    /** What is left to hand out completes what has been handed out. */
    ghost predicate Handing()
      reads this`out, w, this`stateOutPos, this`produced
    {
      stateOutPos <= |w.zbits| && out + w.zbits[stateOutPos..] == produced
    }

    /** The first block has been turned into output, if only an empty one. */
    ghost predicate Begun()
      reads this`blockNo, this`state
    {
      blockNo > 1 || state.Output?
    }

    /** The bits written are the header and the finished blocks, and the trailer once it is written. */
    ghost predicate Coded()
      reads this`produced, this`finished, this`trailers, this`blockNo, this`state, w
    {
      CodedFrom(Begun())
    }

    ghost predicate CodedFrom(started: bool)
      reads this`produced, this`finished, this`trailers, w
    {
      && InfosOk(finished) && AllBytes(produced) && AllBytes(w.zbits) && (!started ==> finished == [])
      && (trailers == 0 ==> w.Valid() && ByteBits(produced) + w.live == SoFar(finished, blockSize100k, started))
      && (trailers == 1 ==> Closed(finished, blockSize100k, produced))
    }

    /** Where in its life the stream is: one trailer, written with the last of the input. */
    ghost predicate Phased()
      reads this`mode, this`state, this`stateInCh, this`stateInLen, this`availInExpect, this`trailers
    {
      && trailers == (if state.Output? && IsEmptyRL() && (mode.Finishing? || mode.Idle?) then 1 else 0)
      && (state.Output? && IsEmptyRL() ==> !mode.Running? && availInExpect == 0)
      && (mode.Idle? ==> trailers == 1)
    }

    /** The block and, behind it, what it is compressed to fit into their area. */
    ghost predicate Fits()
      reads this`nblock, w
    {
      nblock + |w.zbits| <= BlockSize.AreaSize(blockSize100k)
    }

    ghost predicate Valid()
      reads this, block, inUse, w
    {
      && Sized() && Accounted() && Handing() && Coded() && Phased() && Bytes(input) && blockNo >= 1 && Fits()
      && (state.Input? ==> Filling() && nblock < nblockMAX && w.zbits == [] && (IsEmptyRL() ==> runs == []))
      && (state.Output? ==> runs == [] && Packing([], stateInCh, stateInLen, [], INITIAL))
    }

    /** Appends one byte to the block. */
    method Store(ch: int)
      requires nblock < block.Length
      modifies block, this`nblock
      ensures nblock == old(nblock) + 1 && block[..nblock] == old(block[..nblock]) + [ch]
    {
      block[nblock] := ch;
      nblock := nblock + 1;
    }

    /** Appends a run's packed form to the block. */
    method StoreRun(ch: int, len: nat)
      requires nblock + 5 <= block.Length && len > 0
      modifies block, this`nblock
      ensures nblock == old(nblock) + |PackRun(Run(ch, len))| <= old(nblock) + 5
      ensures block[..nblock] == old(block[..nblock]) + PackRun(Run(ch, len))
    {
      ghost var was := block[..nblock];
      Store(ch);
      if len == 1 {
        assert PackRun(Run(ch, len)) == [ch];
      } else if len == 2 {
        Store(ch);
        assert block[..nblock] == was + [ch, ch] && PackRun(Run(ch, len)) == [ch, ch];
      } else if len == 3 {
        Store(ch);
        Store(ch);
        assert block[..nblock] == was + [ch, ch, ch] && PackRun(Run(ch, len)) == [ch, ch, ch];
      } else {
        Store(ch);
        Store(ch);
        Store(ch);
        Store(len - 4);
        assert block[..nblock] == was + [ch, ch, ch, ch, len - 4] && PackRun(Run(ch, len)) == [ch, ch, ch, ch, len - 4];
      }
    }

    /** Adds a run to the checksum. */
    method SumRun(ch: int, len: nat, ghost plain: seq<int>)
      requires Bytes(plain) && 0 <= ch < 256 && blockCRC == Crc(plain)
      modifies this`blockCRC
      ensures Bytes(plain + Repeat(ch, len)) && blockCRC == Crc(plain + Repeat(ch, len))
    {
      hide Crc, Update;
      var i := 0;
      assert plain + Repeat(ch, 0) == plain;
      while i < len
        invariant 0 <= i <= len && Bytes(plain + Repeat(ch, i)) && blockCRC == Crc(plain + Repeat(ch, i))
      {
        CrcRepeat(plain, ch, i);
        blockCRC := Update(blockCRC, ch);
        i := i + 1;
      }
    }

    /** Appends the pending run to the block. */
    method AddPairToBlock()
      requires Filling() && stateInCh < NO_CHAR && nblock + 5 <= 100000 * blockSize100k - 10
      modifies block, inUse, this`nblock, this`blockCRC
      ensures nblock <= old(nblock) + 5
      ensures Marked(inUse[..], block[..nblock])
      ensures var runs' := runs + [Run(stateInCh, stateInLen)];
        Packing(runs', NO_CHAR, 0, block[..nblock], blockCRC) && Plain(runs') == Plain(runs) + Repeat(stateInCh, stateInLen)
    {
      hide Pack, Plain, Crc, Runs, Marked, PackRun;
      ghost var was := block[..nblock];
      SumRun(stateInCh, stateInLen, Plain(runs));
      inUse[stateInCh] := true;
      if stateInLen >= 4 {
        inUse[stateInLen - 4] := true;
      }
      StoreRun(stateInCh, stateInLen);
      assert block[..nblock] == was + PackRun(Run(stateInCh, stateInLen));
      PackPending(runs, stateInCh, stateInLen, was, old(blockCRC), blockCRC);
      MarkRun(old(inUse[..]), inUse[..], was, stateInCh, stateInLen);
    }

    /** Appends the pending run to the block when it is a single byte, as most are. */
    method AddSingleToBlock()
      requires Filling() && stateInLen == 1 && nblock + 5 <= 100000 * blockSize100k - 10
      modifies block, inUse, this`nblock, this`blockCRC
      ensures nblock == old(nblock) + 1
      ensures Marked(inUse[..], block[..nblock])
      ensures var runs' := runs + [Run(stateInCh, stateInLen)];
        Packing(runs', NO_CHAR, 0, block[..nblock], blockCRC) && Plain(runs') == Plain(runs) + Repeat(stateInCh, stateInLen)
    {
      hide Pack, Plain, Crc, Runs, Update;
      ghost var was := block[..nblock];
      var ch := stateInCh;
      CrcRepeat(Plain(runs), ch, 0);
      assert Plain(runs) + Repeat(ch, 0) == Plain(runs);
      blockCRC := Update(blockCRC, ch);
      inUse[ch] := true;
      Store(ch);
      assert PackRun(Run(ch, 1)) == [ch];
      PackPending(runs, ch, stateInLen, was, old(blockCRC), blockCRC);
      MarkRun(old(inUse[..]), inUse[..], was, ch, 1);
    }

    /** Takes one more byte; a run goes into the block when it ends or is 255 long. */
    method AddCharToBlock(zchh: nat)
      requires Filling() && nblock < nblockMAX && zchh < NO_CHAR && (IsEmptyRL() ==> runs == [])
      modifies block, inUse, this`nblock, this`blockCRC, this`runs, this`stateInCh, this`stateInLen
      ensures Filling() && nblock <= old(nblock) + 5 && !IsEmptyRL()
      ensures Taken() == old(Taken()) + [zchh]
    {
      hide Pack, Plain, Crc, Runs, PackRun, Pending;
      ghost var r, was := Run(stateInCh, stateInLen), block[..nblock];
      if zchh != stateInCh && stateInLen == 1 {
        AddSingleToBlock();
        runs := runs + [r];
        NextRun(runs, block[..nblock], blockCRC, zchh);
        stateInCh := zchh;
      } else if zchh != stateInCh || stateInLen == 255 {
        if stateInCh < NO_CHAR {
          AddPairToBlock();
          runs := runs + [r];
        }
        NextRun(runs, block[..nblock], blockCRC, zchh);
        stateInCh := zchh;
        stateInLen := 1;
      } else {
        LongerRun(runs, was, blockCRC, zchh, stateInLen);
        stateInLen := stateInLen + 1;
      }
    }

    /** Ends the pending run. */
    method FlushRL()
      requires Filling() && nblock + 5 <= 100000 * blockSize100k - 10
      modifies block, inUse, this`nblock, this`blockCRC, this`runs, this`stateInCh, this`stateInLen
      ensures Filling() && nblock <= old(nblock) + 5 && IsEmptyRL() && Taken() == old(Taken())
    {
      hide Pack, Plain, Crc, Runs;
      ghost var r := Run(stateInCh, stateInLen);
      if stateInCh < NO_CHAR {
        AddPairToBlock();
        runs := runs + [r];
      }
      stateInCh := NO_CHAR;
      stateInLen := 0;
    }

    constructor (blockSize100k: nat)
      requires 1 <= blockSize100k <= 9
      ensures Valid() && mode == Running && consumed == input == [] && out == [] && finished == [] && fresh(block)
      ensures fresh(inUse) && fresh(w)
      ensures this.blockSize100k == blockSize100k
    {
      this.blockSize100k := blockSize100k;
      nblockMAX := 100000 * blockSize100k - 19;
      block := new int[100000 * blockSize100k + 34];
      inUse := new bool[256](_ => false);
      mode, state, availInExpect, input, availOut, out := Running, Input, 0, [], 0, [];
      stateInCh, stateInLen, nblock, blockNo, stateOutPos := NO_CHAR, 0, 0, 1, 0;
      w := new BitWriter();
      blockCRC, combinedCRC := INITIAL, Checksum(0);
      runs, finished, consumed, produced, trailers := [], [], [], [], 0;
      new;
      hide Valid;
      Started();
    }

    lemma Started()
      requires Sized() && input == consumed == [] && out == produced == w.zbits == [] && runs == [] && finished == []
      requires stateOutPos == 0
      requires w.Valid() && w.Written() == [] && blockNo == 1
      requires mode.Running? && state.Input? && trailers == 0 && nblock == 0 && stateInCh == NO_CHAR && stateInLen == 0
      requires blockCRC == INITIAL && combinedCRC == Checksum(0) && forall c :: 0 <= c < 256 ==> !inUse[c]
      ensures Valid()
    {
      hide Packing, Restored, AllSealed, Combined, Plain, Repeat;
      EmptyPacking();
      EmptyBooks(blockSize100k);
      assert block[..nblock] == [];
      NoRepeat(NO_CHAR);
      assert Restored([]) + (Plain([]) + Repeat(NO_CHAR, 0)) == [];
    }

    /** Starts filling a new block. */
    method PrepareNewBlock()
      requires Sized() && state.Output? && runs == [] && Packing([], stateInCh, stateInLen, [], INITIAL)
      requires Handing() && stateOutPos == |w.zbits| && Coded() && trailers == 0
      modifies this`nblock, w`zbits, this`stateOutPos, this`blockCRC, this`blockNo, inUse
      ensures Filling() && nblock == 0 && Handing() && w.zbits == [] && blockNo == old(blockNo) + 1 && CodedFrom(true)
    {
      hide Packing, BitWriter.Valid, ByteBits, SoFar, Closed, InfosOk;
      nblock, stateOutPos, blockCRC := 0, 0, INITIAL;
      w.Clear();
      var i := 0;
      while i < 256
        invariant 0 <= i <= 256 && forall c :: 0 <= c < i ==> !inUse[c]
        modifies inUse
      {
        inUse[i] := false;
        i := i + 1;
      }
      blockNo := blockNo + 1;
      assert block[..0] == [] && out + w.zbits[0..] == produced;
    }

    /** Takes input until the block is full or there is no more to take. */
    method CopyInputUntilStop() returns (progress: bool)
      requires Filling() && nblock < nblockMAX && (IsEmptyRL() ==> runs == []) && Bytes(input) && Accounted()
      requires !mode.Running? ==> availInExpect == |input|
      modifies block, inUse, this`nblock, this`blockCRC, this`runs, this`stateInCh, this`stateInLen,
               this`input, this`availInExpect, this`consumed
      ensures Filling() && nblock <= nblockMAX + 4 && (IsEmptyRL() ==> runs == []) && Bytes(input) && Accounted()
      ensures !mode.Running? ==> availInExpect == |input|
      ensures nblock >= nblockMAX || input == []
      ensures consumed + input == old(consumed) + old(input) && |input| <= |old(input)|
      ensures progress <==> |input| < |old(input)|
      ensures nblock >= nblockMAX ==> progress
      ensures progress ==> !IsEmptyRL()
      ensures !progress ==> IsEmptyRL() == old(IsEmptyRL())
      ensures mode.Running? ==> availInExpect == old(availInExpect)
    {
      hide Accounted, Filling;
      progress := false;
      while nblock < nblockMAX && input != []
        invariant Filling() && nblock <= nblockMAX + 4 && (IsEmptyRL() ==> runs == []) && Bytes(input) && Accounted()
        invariant !mode.Running? ==> availInExpect == |input|
        invariant consumed + input == old(consumed) + old(input) && |input| <= |old(input)|
        invariant progress <==> |input| < |old(input)|
        invariant nblock >= nblockMAX ==> progress
        invariant progress ==> !IsEmptyRL()
        invariant !progress ==> IsEmptyRL() == old(IsEmptyRL())
        invariant mode.Running? ==> availInExpect == old(availInExpect)
        decreases |input|
      {
        progress := true;
        TakeByte();
      }
    }

    /** Takes one byte of input. */
    method TakeByte()
      requires Filling() && nblock < nblockMAX && (IsEmptyRL() ==> runs == []) && Bytes(input) && Accounted()
      requires input != []
      requires !mode.Running? ==> availInExpect == |input|
      modifies block, inUse, this`nblock, this`blockCRC, this`runs, this`stateInCh, this`stateInLen,
               this`input, this`availInExpect, this`consumed
      ensures Filling() && nblock <= old(nblock) + 5 && !IsEmptyRL() && Bytes(input) && Accounted()
      ensures |input| == |old(input)| - 1 && consumed + input == old(consumed) + old(input)
      ensures availInExpect == if mode.Running? then old(availInExpect) else |input|
    {
      hide Restored, AllSealed, Combined, Packing, Filling, Taken;
      ghost var taken := Taken();
      AddCharToBlock(input[0]);
      assert Restored(finished) + (taken + [input[0]]) == Restored(finished) + taken + [input[0]];
      consumed := consumed + [input[0]];
      assert old(input) == [old(input[0])] + input[1..];
      input := input[1..];
      if !mode.Running? {
        availInExpect := availInExpect - 1;
      }
    }

    /** Hands out compressed bytes while there is room. */
    method CopyOutputUntilStop() returns (progress: bool)
      requires Handing()
      modifies this`out, this`availOut, this`stateOutPos
      ensures Handing() && old(out) <= out && |out| + availOut == |old(out)| + old(availOut)
      ensures stateOutPos == |w.zbits| || availOut == 0
      ensures stateOutPos - old(stateOutPos) == old(availOut) - availOut
      ensures progress <==> availOut < old(availOut)
    {
      progress := false;
      while availOut > 0 && stateOutPos < |w.zbits|
        invariant Handing() && old(out) <= out && |out| + availOut == |old(out)| + old(availOut)
        invariant stateOutPos - old(stateOutPos) == old(availOut) - availOut
        invariant progress <==> availOut < old(availOut)
        decreases availOut
      {
        progress := true;
        assert out + [w.zbits[stateOutPos]] + w.zbits[stateOutPos + 1..] == out + w.zbits[stateOutPos..];
        out := out + [w.zbits[stateOutPos]];
        stateOutPos := stateOutPos + 1;
        availOut := availOut - 1;
      }
    }

    /** Writes the bits of the block. */
    method WriteBlock() returns (ghost info: BlockCodec.BlockInfo, ghost perm: seq<int>)
      requires w.Valid() && 0 < nblock <= block.Length && nblock <= 900000 && Bytes(block[..nblock])
      requires Marked(inUse[..], block[..nblock])
      modifies w
      ensures BlockCodec.InfoOk(info) && BlockCodec.Describes(info, block[..nblock], perm) && info.crc == blockCRC
      ensures w.Valid() && w.Written() == old(w.Written()) + BlockCodec.BlockBits(info)
    {
      hide BitWriter.Valid, BitWriter.Written, BlockCodec.InfoOk, BlockCodec.Describes, BlockCodec.BlockBits;
      var b := new int[nblock];
      var i := 0;
      while i < nblock
        invariant 0 <= i <= nblock && b[..i] == block[..i]
        modifies b
      {
        b[i] := block[i];
        i := i + 1;
      }
      assert b[..] == block[..nblock];
      info, perm := BlockCodec.CompressBlock(w, blockCRC, b, inUse);
    }

    /** Writes the stream header ahead of the first block. */
    method WriteHeader()
      requires w.Valid() && 1 <= blockSize100k <= 9
      modifies w
      ensures w.Valid() && w.Written() == old(w.Written()) + if blockNo == 1 then HeaderBits(blockSize100k) else []
    {
      hide BitWriter.Valid, BitWriter.Written, ByteBits;
      if blockNo == 1 {
        BlockCodec.SendBytes(w, HEADER + [HDR_0 + blockSize100k]);
      } else {
        assert w.Written() + [] == w.Written();
      }
    }

    /** Writes the stream trailer and fills up the last byte. */
    method WriteTrailer()
      requires w.Valid()
      modifies w
      ensures AllBytes(w.zbits) && w.zbits != []
      ensures exists n: nat :: n < 8 && ByteBits(w.zbits) == old(w.Written()) + TrailerBits(combinedCRC) + Zeros(n)
    {
      hide BitWriter.Valid, BitWriter.Written, ByteBits, WordBytes;
      ghost var was := w.Written();
      BlockCodec.SendBytes(w, END_MAGIC);
      BlockCodec.SendBytes(w, WordBytes(combinedCRC));
      assert w.Written() == was + TrailerBits(combinedCRC);
      w.BsFinishWrite();
      assert |ByteBits(w.zbits)| >= |ByteBits(END_MAGIC)|;
    }

    /** Writes what belongs to the block: the header if it is the first, its bits unless it is empty, the trailer if it is the last. */
    method WritePieces(isLastBlock: bool) returns (ghost info: BlockCodec.BlockInfo, ghost perm: seq<int>)
      requires w.Valid() && w.zbits == [] && 1 <= blockSize100k <= 9 && blockNo >= 1
      requires nblock <= block.Length && nblock <= 900000 && Bytes(block[..nblock])
      requires Marked(inUse[..], block[..nblock])
      modifies w
      ensures AllBytes(w.zbits) && (isLastBlock ==> w.zbits != [])
      ensures (nblock > 0 ==> BlockCodec.InfoOk(info) && BlockCodec.Describes(info, block[..nblock], perm) && info.crc == blockCRC)
      ensures var bits := old(w.live) + FirstBits(blockNo > 1, blockSize100k) + BodyBits(nblock, info);
        if isLastBlock then exists n: nat :: n < 8 && ByteBits(w.zbits) == bits + TrailerBits(combinedCRC) + Zeros(n)
        else w.Valid() && ByteBits(w.zbits) + w.live == bits
    {
      hide BitWriter.Valid, ByteBits, HeaderBits, TrailerBits, BlockCodec.InfoOk, BlockCodec.Describes,
        BlockCodec.BlockBits, Marked;
      ghost var live := w.live;
      NoneWritten(live);
      WriteHeader();
      info, perm := BlockCodec.BlockInfo(INITIAL, 0, [], [], [], []), [];
      if nblock > 0 {
        info, perm := WriteBlock();
      } else {
        assert w.Written() + [] == w.Written();
      }
      if isLastBlock {
        WriteTrailer();
      } else {
        StillBytes(w);
      }
    }

    /** Ends the block's checksum, brings it into that of the stream, and writes what belongs to the block. */
    method EmitBlock(isLastBlock: bool) returns (ghost s: Sealed)
      requires w.Valid() && w.zbits == [] && 1 <= blockSize100k <= 9 && blockNo >= 1
      requires nblock <= block.Length && nblock <= 900000 && Bytes(block[..nblock])
      requires Marked(inUse[..], block[..nblock])
      modifies w, this`blockCRC, this`combinedCRC
      ensures AllBytes(w.zbits) && s.block == block[..nblock] && (isLastBlock ==> w.zbits != [])
      ensures nblock <= 100000 * blockSize100k ==> Fits()
      ensures nblock > 0 ==> s.crc == Finalise(old(blockCRC)) && s.info.crc == s.crc
      ensures nblock > 0 ==> BlockCodec.InfoOk(s.info) && BlockCodec.Describes(s.info, s.block, s.perm)
      ensures combinedCRC == if nblock == 0 then old(combinedCRC) else Combine(old(combinedCRC), s.crc)
      ensures var bits := old(w.live) + FirstBits(blockNo > 1, blockSize100k) + BodyBits(nblock, s.info);
        if isLastBlock then exists n: nat :: n < 8 && ByteBits(w.zbits) == bits + TrailerBits(combinedCRC) + Zeros(n)
        else w.Valid() && ByteBits(w.zbits) + w.live == bits
    {
      hide BitWriter.Valid, ByteBits, Finalise, Combine, TrailerBits, BlockCodec.InfoOk, BlockCodec.Describes, Marked,
        FirstBits, BodyBits;
      if nblock > 0 {
        blockCRC := Finalise(blockCRC);
        combinedCRC := Combine(combinedCRC, blockCRC);
      }
      LiveShort(w);
      ghost var info, perm := WritePieces(isLastBlock);
      if nblock <= 100000 * blockSize100k {
        OutputFits(block[..nblock], info, perm, blockSize100k, old(w.live), blockNo > 1, combinedCRC, w.zbits, w.live, isLastBlock);
      }
      s := Sealed(block[..nblock], blockCRC, info, perm);
    }

    /**
     * Turns the block into compressed bytes, after the header if it is the first and before the trailer if it is the last. An
     * empty block leaves no bits of its own.
     */
    method CompressBlock(isLastBlock: bool)
      requires Filling() && Handing() && w.zbits == [] && Accounted() && trailers == 0 && blockNo >= 1
      requires CodedFrom(blockNo > 1)
      modifies w, this`stateOutPos, this`blockCRC, this`combinedCRC, this`finished, this`runs, this`produced, this`trailers
      ensures Handing() && Accounted() && CodedFrom(true) && runs == []
      ensures Packing([], stateInCh, stateInLen, [], INITIAL)
      ensures old(produced) <= produced && trailers == (if isLastBlock then 1 else 0)
      ensures stateOutPos == 0 && (isLastBlock ==> w.zbits != []) && Fits()
      ensures Grown(old(finished), finished, nblock, false)
      ensures |finished| == |old(finished)| + (if nblock == 0 then 0 else 1)
    {
      hide Packing, BitWriter.Valid, ByteBits, SoFar, Closed, AllSealed, Restored, Combined, Plain, Repeat, Finalise,
        Combine, TrailerBits;
      hide BlockCodec.InfoOk, BlockCodec.Describes, BlockCodec.BlockBits, Marked, WithBlock, InfosOk, FirstBits,
        BodyBits, AllBytes, Bytes, Zeros, Grown, AllTight, Fits;
      ghost var sum, live := blockCRC, w.live;
      PackedBytes(runs, stateInCh, stateInLen, block[..nblock], sum);
      ghost var s := EmitBlock(isLastBlock);
      SealLedger(finished, runs, stateInCh, stateInLen, sum, blockSize100k, Repeat(stateInCh, stateInLen), s);
      SealBits(finished, s, blockSize100k, blockNo > 1, ByteBits(produced), live);
      SealBytes(WithBlock(finished, s), blockSize100k, produced, w.zbits, w.live, live + FirstBits(blockNo > 1,
        blockSize100k) + BodyBits(nblock, s.info),
                combinedCRC, isLastBlock);
      GrownOne(finished, s);
      assert out + [] == out && w.zbits[0..] == w.zbits;
      finished, runs, stateOutPos, trailers, produced := WithBlock(finished, s), [], 0, if isLastBlock then 1 else 0, produced + w.zbits;
    }

    /** While flushing or finishing, the input expected is the input there is. */
    ghost predicate Expected()
      reads this`mode, this`availInExpect, this`input
    {
      !mode.Running? ==> availInExpect == |input|
    }

    /** What has been handed out is the whole stream of the finished blocks. */
    ghost predicate WrittenOut()
      reads this`finished, this`out
    {
      InfosOk(finished) && AllSealed(finished, blockSize100k) && AllBytes(out) && Closed(finished, blockSize100k, out)
    }

    /** A flush or the end of the stream is complete. */
    predicate Complete()
      reads this, w
    {
      availInExpect == 0 && IsEmptyRL() && stateOutPos >= |w.zbits|
    }

    /** The flush or the finish that was asked for has got to its last block. */
    ghost predicate Ended()
      reads this`mode, this`state, this`availInExpect, this`stateInCh, this`stateInLen
    {
      state.Output? && !mode.Running? && availInExpect == 0 && IsEmptyRL()
    }

    /** How far the block at hand is from being handed out: it is the last one, it is being filled, or others follow it. */
    ghost function Phase(): nat
      reads this`mode, this`state, this`availInExpect, this`stateInCh, this`stateInLen
    {
      if state.Input? then 1 else if !mode.Running? && availInExpect == 0 && IsEmptyRL() then 0 else 2
    }

    /** The bytes waiting to be handed out. */
    ghost function Left(): int
      reads w, this`stateOutPos
    {
      |w.zbits| - stateOutPos
    }

    /** Hands out output; when all is out and more is to come, starts a new block. */
    method OutputStep() returns (some: bool, stop: bool)
      requires Valid() && !mode.Idle? && state.Output?
      modifies this`out, this`availOut, this`stateOutPos, this`nblock, w, this`blockCRC, this`blockNo, this`state, inUse
      ensures Valid() && (some <==> availOut < old(availOut))
      ensures old(out) <= out && |out| + availOut == |old(out)| + old(availOut)
      ensures stop ==> (availOut == 0 && stateOutPos < |w.zbits| && state.Output?) ||
                       (!mode.Running? && Complete() && (if mode.Finishing? then state.Output? else state.Input?))
      ensures !stop ==> state.Input? && (mode.Running? || availInExpect > 0 || !IsEmptyRL())
      ensures state.Output? ==> Left() == old(Left()) - (old(availOut) - availOut)
    {
      hide Packing, Accounted, Filling, Handing, CodedFrom;
      some := CopyOutputUntilStop();
      HandingBounds();
      if stateOutPos < |w.zbits| {
        return some, true;
      }
      if mode.Finishing? && availInExpect == 0 && IsEmptyRL() {
        return some, true;
      }
      PrepareNewBlock();
      state := Input;
      return some, mode.Flushing? && availInExpect == 0 && IsEmptyRL();
    }

    lemma HandingBounds()
      requires Handing()
      ensures stateOutPos <= |w.zbits|
    {
    }

    /** Takes input; when the block is full or the input is all there is, turns the block into output. */
    method InputStep() returns (some: bool, stop: bool)
      requires Valid() && Expected() && !mode.Idle? && state.Input?
      modifies block, inUse, this`nblock, this`blockCRC, this`runs, this`stateInCh, this`stateInLen, this`input, this`availInExpect,
               this`consumed, w, this`stateOutPos, this`combinedCRC, this`finished, this`produced, this`trailers, this`state
      ensures Valid() && Expected() && (some <==> |input| < |old(input)|)
      ensures consumed + input == old(consumed) + old(input) && |input| <= |old(input)|
      ensures stop ==> mode.Running? && input == []
      ensures !stop ==> state.Output? && (|input| < |old(input)| || (!mode.Running? && availInExpect == 0 && IsEmptyRL()))
      ensures !stop && mode.Finishing? ==> |input| < |old(input)| || Left() > 0
      ensures Grown(old(finished), finished, nblockMAX, Ended()) && (stop ==> finished == old(finished))
    {
      hide Packing, Accounted, Filling, Handing, CodedFrom, Grown;
      some := CopyInputUntilStop();
      if !mode.Running? && availInExpect == 0 {
        EndBlock();
      } else if nblock >= nblockMAX {
        CompressBlock(false);
        state := Output;
        GrownSo(old(finished), finished, nblock, nblockMAX, false, Ended());
      } else {
        GrownNot(finished, nblockMAX, Ended());
        if input == [] {
          return some, true;
        }
      }
      return some, false;
    }

    /** Ends the pending run and turns the block into output. */
    method EndBlock()
      requires Filling() && nblock + 5 <= 100000 * blockSize100k - 10 && Handing() && w.zbits == [] && Accounted()
      requires trailers == 0 && blockNo >= 1 && CodedFrom(blockNo > 1)
      modifies block, inUse, this`nblock, this`blockCRC, this`runs, this`stateInCh, this`stateInLen, w, this`stateOutPos,
               this`combinedCRC, this`finished, this`produced, this`trailers, this`state
      ensures state.Output? && Handing() && Accounted() && CodedFrom(true) && runs == [] && IsEmptyRL()
      ensures Packing([], stateInCh, stateInLen, [], INITIAL)
      ensures trailers == (if mode.Finishing? then 1 else 0)
      ensures stateOutPos == 0 && (mode.Finishing? ==> w.zbits != []) && Fits()
      ensures Grown(old(finished), finished, nblockMAX, true)
    {
      hide Packing, Filling, Handing, CodedFrom, Taken, AllSealed, Restored, Combined, Grown;
      FlushRL();
      assert Accounted();
      CompressBlock(mode.Finishing?);
      GrownSo(old(finished), finished, nblock, nblock, false, false);
      GrownLast(old(finished), finished, nblockMAX);
      state := Output;
    }

    /** Takes input and hands out output until one of them runs out or the flush or the stream is complete. */
    method HandleCompress() returns (progress: bool)
      requires Valid() && Expected() && !mode.Idle?
      modifies this, block, inUse, w
      ensures Valid() && Expected() && mode == old(mode)
      ensures consumed + input == old(consumed) + old(input) && |input| <= |old(input)|
      ensures old(out) <= out && |out| + availOut == |old(out)| + old(availOut)
      ensures progress <==> |input| < |old(input)| || availOut < old(availOut)
      ensures mode.Running? ==> input == [] || availOut == 0
      ensures Grown(old(finished), finished, nblockMAX, !mode.Running? && availInExpect == 0)
      ensures mode.Finishing? ==> Grown(old(finished), finished, nblockMAX, Ended())
      ensures mode.Finishing? && old(Ended()) ==> finished == old(finished) && Ended()
      ensures mode.Flushing? ==> (Complete() && state.Input?) || (availOut == 0 && !Complete())
      ensures mode.Finishing? ==> (Complete() && state.Output?) || (availOut == 0 && !Complete())
      ensures mode.Finishing? && old(availOut) > 0 && !old(state.Output? && Complete()) ==> progress
      ensures mode.Finishing? && old(availOut) > 0 && !Complete() ==>
        Nearer(|input|, Phase(), Left(), |old(input)|, old(Phase()), old(Left()))
    {
      hide Valid, Grown;
      progress := false;
      GrownNot(finished, nblockMAX, Ended());
      ghost var begun := false;
      while true
        invariant Valid() && Expected() && mode == old(mode)
        invariant consumed + input == old(consumed) + old(input) && |input| <= |old(input)|
        invariant old(out) <= out && |out| + availOut == |old(out)| + old(availOut)
        invariant Grown(old(finished), finished, nblockMAX, Ended())
        invariant old(Ended()) ==> finished == old(finished) && Ended()
        invariant progress <==> |input| < |old(input)| || availOut < old(availOut)
        invariant if !begun then |input| == |old(input)| && Phase() == old(Phase()) && Left() == old(Left()) && availOut == old(availOut) &&
                                state == old(state) && Complete() == old(Complete())
                  else |input| < |old(input)| || (|input| == |old(input)| && Phase() < old(Phase()))
        invariant begun && mode.Finishing? && !progress ==> state.Output? && Left() > 0
        decreases |input|, Phase()
      {
        ghost var f, short := finished, Ended();
        if state.Output? {
          var some, stop := OutputStep();
          progress := progress || some;
          if stop {
            GrownSo(old(finished), f, nblockMAX, nblockMAX, short, !mode.Running? && availInExpect == 0);
            break;
          }
        }
        var some, stop := InputStep();
        progress := progress || some;
        GrownMore(old(finished), f, finished, nblockMAX, Ended());
        if stop {
          GrownSo(old(finished), f, nblockMAX, nblockMAX, false, !mode.Running? && availInExpect == 0);
          break;
        }
        begun := true;
      }
    }

    /**
     * One call: the caller offers input and output space and says what it wants. The call that ends the stream has taken
     * all input, and the blocks written stand for exactly the bytes taken since the beginning.
     */
    method BzCompress(action: Action, nextIn: seq<int>, space: nat) returns (ret: Ret)
      requires Valid() && Bytes(nextIn)
      modifies this, block, inUse, w
      ensures Valid() && consumed + input == old(consumed) + nextIn && |input| <= |nextIn|
      ensures old(out) <= out && |out| + availOut == |old(out)| + space
      ensures ret == StreamEnd ==> mode.Idle? && input == [] && trailers == 1
      ensures ret == StreamEnd ==> WrittenOut()
      ensures ret == StreamEnd || (ret == RunOk && action.FlushAction?) ==> input == [] && consumed == Restored(finished) && out == produced
      ensures ret == RunOk && action.RunAction? ==> input == [] || availOut == 0
      ensures ret == FlushOk || ret == FinishOk ==> availOut == 0
      ensures Grown(old(finished), finished, 100000 * blockSize100k - 19, !action.RunAction? && input == [])
      ensures ret == FinishOk || ret == StreamEnd ==> Grown(old(finished), finished, 100000 * blockSize100k - 19, Ended())
      ensures old(mode).Finishing? && old(Ended()) && ret != SequenceError ==> finished == old(finished) && Ended()
      ensures old(mode).Idle? ==> ret == SequenceError && input == nextIn && out == old(out)
      ensures ret == FlushOk ==> mode.Flushing? && action.FlushAction?
      ensures ret == FinishOk ==> mode.Finishing? && action.FinishAction? && Expected() && !Complete()
      ensures old(mode).Running? && action.RunAction? ==> mode.Running?
      ensures old(mode).Running? && action.RunAction? ==>
        ret == if |input| < |nextIn| || availOut < space then RunOk else ParamError
      ensures old(mode).Running? && action.OtherAction? ==> ret == ParamError && input == nextIn && out == old(out)
      ensures old(mode).Running? && action.FlushAction? ==> ret == RunOk || ret == FlushOk
      ensures old(mode).Flushing? ==>
        if action.FlushAction? && old(availInExpect) == |nextIn| then ret == RunOk || ret == FlushOk
        else ret == SequenceError && mode.Flushing? && input == nextIn && out == old(out)
      ensures old(mode).Finishing? && !(action.FinishAction? && old(availInExpect) == |nextIn|) ==>
        ret == SequenceError && mode.Finishing? && input == nextIn && out == old(out)
      ensures action.FinishAction? && (old(mode).Running? || (old(mode).Finishing? && old(availInExpect) == |nextIn|)) ==>
        (ret == SequenceError <==> |input| == |nextIn| && availOut == space)
      ensures action.FinishAction? && space > 0 && old(mode).Running? ==> ret == StreamEnd || ret == FinishOk
      ensures action.FinishAction? && space > 0 && old(mode.Finishing? && Expected() && !Complete()) && nextIn == old(input) ==>
        ret == StreamEnd || (ret == FinishOk && Nearer(|input|, Phase(), Left(), |nextIn|, old(Phase()), old(Left())))
    {
      hide Valid, Restored, WrittenOut, Grown, Complete, Left, Phase, Ended;
      GrownNot(finished, 100000 * blockSize100k - 19, !action.RunAction? && nextIn == []);
      Offer(nextIn, space);
      if mode.Idle? {
        return SequenceError;
      }
      if mode.Running? {
        match action
        case RunAction =>
          var progress := HandleCompress();
          return if progress then RunOk else ParamError;
        case FlushAction =>
          Ask(Flushing);
        case FinishAction =>
          Ask(Finishing);
        case OtherAction =>
          return ParamError;
      }
      if mode.Flushing? {
        if !action.FlushAction? || availInExpect != |input| {
          return SequenceError;
        }
        ret := GoOnFlushing();
        return;
      }
      if !action.FinishAction? || availInExpect != |input| {
        return SequenceError;
      }
      ret := GoOnFinishing();
    }

    /** A flush or a finish is asked for: the input offered is what it has to take. */
    method Ask(what: Mode)
      requires Valid() && mode.Running? && (what.Flushing? || what.Finishing?)
      modifies this`mode, this`availInExpect
      ensures Valid() && Expected() && mode == what && availInExpect == |input|
      ensures !(state.Output? && Complete())
    {
      hide Packing, Accounted, Filling, Handing, CodedFrom;
      availInExpect, mode := |input|, what;
    }

    method GoOnFlushing() returns (ret: Ret)
      requires Valid() && Expected() && mode.Flushing?
      modifies this, block, inUse, w
      ensures Valid() && consumed + input == old(consumed) + old(input) && |input| <= |old(input)|
      ensures old(out) <= out && |out| + availOut == |old(out)| + old(availOut)
      ensures ret == RunOk ==> mode.Running? && input == [] && consumed == Restored(finished) && out == produced
      ensures Grown(old(finished), finished, nblockMAX, input == [])
      ensures ret != RunOk ==> ret == FlushOk && mode.Flushing? && availOut == 0
    {
      hide Packing, Accounted, Filling, Handing, CodedFrom, Restored, WrittenOut, Grown;
      var progress := HandleCompress();
      if availInExpect > 0 || !IsEmptyRL() || stateOutPos < |w.zbits| {
        return FlushOk;
      }
      Settled();
      mode := Running;
      return RunOk;
    }

    method GoOnFinishing() returns (ret: Ret)
      requires Valid() && Expected() && mode.Finishing?
      modifies this, block, inUse, w
      ensures Valid() && consumed + input == old(consumed) + old(input) && |input| <= |old(input)|
      ensures old(out) <= out && |out| + availOut == |old(out)| + old(availOut)
      ensures ret == StreamEnd ==>
        mode.Idle? && trailers == 1 && input == [] && consumed == Restored(finished) && out == produced && WrittenOut()
      ensures ret != StreamEnd ==>
        mode.Finishing? && Expected() && (ret == SequenceError || (ret == FinishOk && availOut == 0 && !Complete()))
      ensures Grown(old(finished), finished, nblockMAX, input == [])
      ensures Grown(old(finished), finished, nblockMAX, Ended())
      ensures old(Ended()) ==> finished == old(finished) && Ended()
      ensures old(availOut) > 0 && !old(state.Output? && Complete()) ==> ret != SequenceError
      ensures ret == SequenceError <==> |input| == |old(input)| && availOut == old(availOut)
      ensures old(availOut) > 0 && ret == FinishOk ==> Nearer(|input|, Phase(), Left(), |old(input)|, old(Phase()), old(Left()))
    {
      hide Packing, Accounted, Filling, Handing, CodedFrom, Restored, WrittenOut, Grown;
      var progress := HandleCompress();
      if !progress {
        return SequenceError;
      }
      if availInExpect > 0 || !IsEmptyRL() || stateOutPos < |w.zbits| {
        return FinishOk;
      }
      Settled();
      mode := Idle;
      return StreamEnd;
    }

    method Offer(nextIn: seq<int>, space: nat)
      requires Valid() && Bytes(nextIn)
      modifies this`input, this`availOut
      ensures Valid() && input == nextIn && availOut == space && nblockMAX == 100000 * blockSize100k - 19
      ensures Complete() == old(Complete()) && Phase() == old(Phase()) && Left() == old(Left())
      ensures Ended() == old(Ended())
    {
      hide Packing, Accounted, Filling, Handing, CodedFrom;
      input, availOut := nextIn, space;
    }

    /** With nothing pending, every byte taken is in a finished block and every byte produced has been handed out. */
    lemma Settled()
      requires Valid() && Complete()
      ensures consumed == Restored(finished) && out == produced
      ensures trailers == 1 ==> WrittenOut()
    {
      hide Restored, AllSealed, Combined, InfosOk, Closed, AllBytes, BitWriter.Valid, SoFar, Runs, Pack, Crc, Marked;
      assert out + [] == out;
      assert Plain(runs) == [] && Repeat(stateInCh, stateInLen) == [];
      assert Restored(finished) + ([] + []) == Restored(finished);
    }
  }

  /** The bytes of the runs move from the current block to the finished ones. */
  lemma SealRuns(finished: seq<Sealed>, runs: seq<Run>, pending: seq<int>, s: Sealed)
    requires Expand(s.block) == Plain(runs) && (s.block == [] ==> runs == [])
    ensures Restored(finished) + (Plain(runs) + pending) == Restored(WithBlock(finished, s)) + (Plain([]) + pending)
  {
    hide Expand;
    if s.block != [] {
      assert (finished + [s])[..|finished|] == finished;
      assert Restored(finished) + (Plain(runs) + pending) == Restored(finished) + Plain(runs) + ([] + pending);
    }
  }

  /** The block can be sealed: it stands for the bytes of its runs, and its checksum is theirs. */
  lemma CloseBooks(runs: seq<Run>, ch: nat, len: nat, block: seq<int>, sum: Checksum)
    requires Packing(runs, ch, len, block, sum)
    ensures WellPacked(block) && Bytes(block) && Expand(block) == Plain(runs) && Bytes(Expand(block))
    ensures block == Pack(Cut(Expand(block))) && sum == Crc(Expand(block))
    ensures block == [] ==> runs == []
    ensures Packing([], ch, len, [], INITIAL)
  {
    hide Crc, WellPacked, Expand, Runs, Pack, Cut;
    RunsBefore(runs, ch, len);
    PackedExpands(runs);
    CutPlain(runs);
    if runs != [] {
      PackFirst(runs);
    }
    EmptyPacking();
    assert [] + Pending(ch, len) == Pending(ch, len);
  }

  /** An empty block is not one of the finished blocks. */
  ghost function WithBlock(finished: seq<Sealed>, s: Sealed): seq<Sealed> {
    if s.block == [] then finished else finished + [s]
  }

  lemma SealLedger(finished: seq<Sealed>, runs: seq<Run>, ch: nat, len: nat, sum: Checksum,
                   blockSize100k: nat, pending: seq<int>, s: Sealed)
    requires Packing(runs, ch, len, s.block, sum) && |s.block| <= 100000 * blockSize100k - 10
    requires AllSealed(finished, blockSize100k) && AllTight(finished)
    requires s.block != [] ==> s.crc == Finalise(sum) && s.info.crc == s.crc
    requires s.block != [] ==> BlockCodec.InfoOk(s.info) && BlockCodec.Describes(s.info, s.block, s.perm)
    ensures var f := WithBlock(finished, s);
      && Restored(finished) + (Plain(runs) + pending) == Restored(f) + (Plain([]) + pending)
      && AllSealed(f, blockSize100k) && AllTight(f)
      && Combined(f) == if s.block == [] then Combined(finished) else Combine(Combined(finished), s.crc)
    ensures Packing([], ch, len, [], INITIAL)
  {
    hide Packing, Restored, AllSealed, Combined, Expand, Plain, Combine, Finalise, WellPacked, Crc, Pack, Cut;
    hide BlockCodec.InfoOk, BlockCodec.Describes;
    CloseBooks(runs, ch, len, s.block, sum);
    SealRuns(finished, runs, pending, s);
    if s.block != [] {
      SealOne(finished, blockSize100k, s);
    }
  }

  /** What goes ahead of a block: the header ahead of the first one. */
  ghost function FirstBits(begun: bool, blockSize100k: nat): seq<bool> {
    if begun then [] else HeaderBits(blockSize100k)
  }

  ghost function BodyBits(nblock: nat, info: BlockCodec.BlockInfo): seq<bool>
    requires nblock > 0 ==> BlockCodec.InfoOk(info)
  {
    if nblock == 0 then [] else BlockCodec.BlockBits(info)
  }

  lemma LiveShort(w: BitWriter)
    requires w.Valid()
    ensures |w.live| <= 31
  {
  }

  /** What a block, with the header and the trailer at most, is compressed to fits behind the block. */
  lemma OutputFits(b: seq<int>, info: BlockCodec.BlockInfo, perm: seq<int>, blockSize100k: nat, live: seq<bool>,
          begun: bool,
                   combined: Checksum, z: seq<nat>, live': seq<bool>, isLastBlock: bool)
    requires |b| <= 100000 * blockSize100k && 1 <= blockSize100k && |live| <= 31
    requires b != [] ==> BlockCodec.InfoOk(info) && BlockCodec.Describes(info, b, perm)
    requires var bits := live + FirstBits(begun, blockSize100k) + BodyBits(|b|, info);
      if isLastBlock then exists n: nat :: n < 8 && ByteBits(z) == bits + TrailerBits(combined) + Zeros(n)
      else ByteBits(z) + live' == bits
    ensures |b| + |z| <= BlockSize.AreaSize(blockSize100k)
  {
    hide ByteBits, WordBytes, BlockCodec.InfoOk, BlockCodec.Describes, BlockCodec.BlockBits;
    if b != [] {
      BlockSize.BlockBitsFew(info, b, perm);
    }
    var bits := live + FirstBits(begun, blockSize100k) + BodyBits(|b|, info);
    assert |bits| <= 31 + 32 + 20 * |b| + 170000;
    if isLastBlock {
      var n: nat :| n < 8 && ByteBits(z) == bits + TrailerBits(combined) + Zeros(n);
      assert |ByteBits(z)| == |bits| + 80 + n;
    } else {
      assert |ByteBits(z)| <= |bits|;
    }
  }

  /** The bits written with the block are its own. */
  lemma SealBits(finished: seq<Sealed>, s: Sealed, blockSize100k: nat, begun: bool, head: seq<bool>, live: seq<bool>)
    requires InfosOk(finished) && head + live == SoFar(finished, blockSize100k, begun) && (!begun ==> finished == [])
    requires s.block != [] ==> BlockCodec.InfoOk(s.info)
    ensures InfosOk(WithBlock(finished, s))
    ensures head + (live + FirstBits(begun, blockSize100k) + BodyBits(|s.block|, s.info)) ==
      SoFar(WithBlock(finished, s), blockSize100k, true)
  {
    hide HeaderBits, BlockCodec.BlockBits, BlockCodec.InfoOk, BlocksFrom, InfosOk;
    NoBlocks();
    var h, first, body := HeaderBits(blockSize100k), FirstBits(begun, blockSize100k), BodyBits(|s.block|, s.info);
    assert h + [] == h;
    var so := head + live;
    assert head + (live + first + body) == so + first + body;
    if s.block == [] {
      assert so + first + [] == so + first;
    } else {
      BlocksPush(finished, s, 0);
      assert h + (BlocksFrom(finished, 0) + body) == h + BlocksFrom(finished, 0) + body;
    }
    if begun {
      assert so + [] == so;
    } else {
      assert [] + h == h;
    }
  }

  /** With the new bytes the stream is as far as the finished blocks, or closed. */
  lemma SealBytes(finished: seq<Sealed>, blockSize100k: nat, out: seq<nat>, z: seq<nat>, live: seq<bool>,
          bits: seq<bool>, combined: Checksum,
                  isLastBlock: bool)
    requires InfosOk(finished) && ByteBits(out) + bits == SoFar(finished, blockSize100k, true)
    requires combined == Combined(finished)
    requires AllBytes(out) && AllBytes(z)
    requires
      if isLastBlock then exists n: nat :: n < 8 && ByteBits(z) == bits + TrailerBits(combined) + Zeros(n)
      else ByteBits(z) + live == bits
    ensures AllBytes(out + z)
    ensures
      if isLastBlock then Closed(finished, blockSize100k, out + z)
      else ByteBits(out + z) + live == SoFar(finished, blockSize100k, true)
  {
    hide ByteBits, InfosOk, HeaderBits, BlocksFrom, TrailerBits, Combined;
    ByteBitsConcat(out, z);
    var head, tail := ByteBits(out), ByteBits(z);
    if isLastBlock {
      var n: nat :| n < 8 && tail == bits + TrailerBits(combined) + Zeros(n);
      assert head + tail == head + bits + TrailerBits(combined) + Zeros(n);
    } else {
      assert head + tail + live == head + (tail + live);
    }
  }

  lemma NoneWritten(live: seq<bool>)
    ensures ByteBits([]) + live == live
  {
  }

  lemma StillBytes(w: BitWriter)
    requires w.Valid()
    ensures AllBytes(w.zbits)
  {
  }

  lemma PackedBytes(runs: seq<Run>, ch: nat, len: nat, block: seq<int>, sum: Checksum)
    requires Packing(runs, ch, len, block, sum)
    ensures Bytes(block)
  {
    hide Pack, Plain, Crc, Runs;
  }

  lemma NoBlocks()
    ensures InfosOk([]) && BlocksFrom([], 0) == []
  {
  }

  lemma RunsBefore(runs: seq<Run>, ch: nat, len: nat)
    requires Runs(runs + Pending(ch, len))
    ensures Runs(runs) && Runs([] + Pending(ch, len))
  {
    var all := runs + Pending(ch, len);
    assert forall i :: 0 <= i < |runs| ==> runs[i] == all[i];
    assert forall i :: 0 <= i < |Pending(ch, len)| ==> Pending(ch, len)[i] == all[|runs| + i];
    forall i, j | 0 <= i && j == i + 1 && j < |runs| ensures runs[i].len == 255 || runs[i].ch != runs[j].ch {
      assert all[i].len == 255 || all[i].ch != all[j].ch;
    }
  }

  lemma NoRepeat(x: int)
    ensures Repeat(x, 0) == []
  {
  }

  lemma EmptyBooks(blockSize100k: nat)
    ensures Restored([]) == [] && Plain([]) == [] && Combined([]) == Checksum(0) && AllSealed([], blockSize100k)
    ensures AllTight([])
  {
  }

  lemma EmptyPacking()
    ensures Packing([], NO_CHAR, 0, [], INITIAL)
  {
  }
}
