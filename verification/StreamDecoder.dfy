/** Decompressing a whole stream: header, blocks and trailer, with every checksum compared. */
module StreamDecoder {
  import opened Arithmetic
  import opened BitStream
  import opened BlockCodec
  import opened BlockCrc
  import opened BlockTables
  import BwtDecoders
  import opened ByteStrings
  import opened Counting
  import opened MtfCoding
  import opened Parsing
  import opened RunLength
  import opened StreamFormat
  import opened UnRunLength

  // ---------- one block's output ----------

  /** Delivers a block through the fast decoder, whatever room each call has. */
  method DeliverFast(tt: array<int>, cftab: array<int>, nblock: nat, origPtr: nat,
          ghost column: seq<int>)
    returns (corrupt: bool, out: seq<int>, sum: Checksum)
    requires tt != cftab && cftab.Length == 257 && origPtr < nblock <= tt.Length <= 900000 && column == tt[..nblock]
    requires Bytes(column)
    requires forall c :: 0 <= c <= 256 ==> cftab[c] == Less(column, c)
    modifies tt, cftab
    ensures corrupt <==> !WellPacked(Block(column, origPtr))
    ensures !corrupt ==> Bytes(out) && out == Expand(Block(column, origPtr)) && sum == Crc(out)
  {
    hide Less, WellPacked, Expand, Block, Crc, BwtDecoders.FastWalk.Valid, Progress;
    BwtDecoders.BuildFast(tt, cftab, nblock, column);
    var walk := new BwtDecoders.FastWalk(tt, tt.Length, origPtr, column);
    var o := new FastOutput(walk, nblock);
    while true
      invariant o.Valid() && o.walk == walk
      invariant fresh(o) && fresh(walk)
      decreases 259 * (nblock + 2) - |o.out|
    {
      FastBounded(o);
      var space :| space > 0;
      var left;
      corrupt, left := o.UnRle(space);
      if corrupt {
        return true, [], INITIAL;
      }
      if o.Finished() {
        return false, o.out, o.calculatedBlockCRC;
      }
      FastBounded(o);
    }
  }

  /** No byte of a block stands for more than 259. */
  lemma FastBounded(o: FastOutput)
    requires o.Valid()
    ensures |o.out| <= 259 * (o.saveNblock + 2)
  {
    hide BwtDecoders.FastWalk.Valid, Crc, Block, WellPacked, Expand;
  }

  /** Delivers a block through the memory-saving decoder, whatever room each call has. */
  method DeliverSmall(tt: array<int>, cftab: array<int>, nblock: nat, origPtr: nat,
          ghost column: seq<int>)
    returns (corrupt: bool, out: seq<int>, sum: Checksum)
    requires tt != cftab && cftab.Length == 257 && origPtr < nblock <= tt.Length <= 900000 && column == tt[..nblock]
    requires Bytes(column)
    requires forall c :: 0 <= c <= 256 ==> cftab[c] == Less(column, c)
    ensures corrupt <==> !WellPacked(Block(column, origPtr))
    ensures !corrupt ==> Bytes(out) && out == Expand(Block(column, origPtr)) && sum == Crc(out)
  {
    hide Less, WellPacked, Expand, Block, Crc, BwtDecoders.SmallWalk.Valid, Progress, BwtDecoders.GetLL;
    var ll16 := new nat[tt.Length](_ => 0);
    var ll4 := new nat[(1 + tt.Length) / 2](_ => 0);
    var i := 0;
    while i < nblock
      invariant 0 <= i <= nblock && forall k :: 0 <= k < i ==> ll16[k] == column[k]
      invariant forall k :: 0 <= k < ll16.Length ==> 0 <= ll16[k] < 256
      modifies ll16
    {
      ll16[i] := tt[i];
      i := i + 1;
    }
    var cftabCopy := new int[257];
    BwtDecoders.BuildT(ll16, ll4, cftab, cftabCopy, nblock, column);
    BwtDecoders.ReverseCycle(ll16, ll4, origPtr, column);
    var walk := new BwtDecoders.SmallWalk(ll16, ll4, cftab, tt.Length, origPtr, column);
    var o := new SmallOutput(walk, nblock);
    while true
      invariant o.Valid() && o.walk == walk
      invariant fresh(o) && fresh(walk)
      decreases 259 * (nblock + 2) - |o.out|
    {
      SmallBounded(o);
      var space :| space > 0;
      var left;
      corrupt, left := o.UnRle(space);
      if corrupt {
        return true, [], INITIAL;
      }
      if o.Finished() {
        return false, o.out, o.calculatedBlockCRC;
      }
      SmallBounded(o);
    }
  }

  lemma SmallBounded(o: SmallOutput)
    requires o.Valid()
    ensures |o.out| <= 259 * (o.saveNblock + 2)
  {
    hide BwtDecoders.SmallWalk.Valid, Crc, Block, WellPacked, Expand;
  }

  // ---------- a stream as a function of its bits ----------

  /** What a block stands for, and its checksum. */
  datatype Unpacked = Unpacked(out: seq<int>, crc: Checksum)

  /**
   * A block, the first byte of its mark having been read: its runs have to be complete, and its checksum has to be right. Here
   * reading stops at a randomised block, once it has been read.
   */
  ghost function ParseBlock(bits: seq<bool>, blockSize100k: nat): (p: Parsed<Unpacked>)
    ensures p.Parsed? ==> |p.rest| <= |bits| && Bytes(p.value.out)
  {
    var (coded, rest) :- ParseColumn(bits, blockSize100k);
    var b := Block(coded.column, coded.head.origPtr);
    BlockBytes(coded.column, coded.head.origPtr);
    ExpandedBytes(b);
    if coded.head.randomised then Broken(Randomised)
    else if !WellPacked(b) || Finalise(Crc(Expand(b))) != coded.head.crc then Broken(DataError)
    else Parsed(Unpacked(Expand(b), coded.head.crc), rest)
  }

  lemma BlockBytes(column: seq<int>, orig: nat)
    requires orig < |column| && Bytes(column)
    ensures Bytes(Block(column, orig))
  {
    forall t | 0 <= t < |column| ensures 0 <= Block(column, orig)[t] < 256 {
      DecodedByte(column, orig, t);
    }
  }

  /** The header of a stream, with the block size it announces. */
  ghost function ParseHeader(bits: seq<bool>): (p: Parsed<nat>)
    ensures p.Parsed? ==> 1 <= p.value <= 9
  {
    var (_, afterMagic) :- ParseExact(bits, HEADER, DataErrorMagic);
    var (level, rest) :- FrontByte(afterMagic);
    if level < HDR_0 + 1 || level > HDR_0 + 9 then Broken(DataErrorMagic) else Parsed(level - HDR_0, rest)
  }

  /** The trailer of a stream, its first byte having been read: it has to hold the combined checksum. */
  ghost function ParseTrailer(bits: seq<bool>, combined: Checksum): (p: Parsed<()>)
    ensures Orderly(p, bits)
  {
    var (_, afterMagic) :- ParseExact(bits, END_MAGIC[1..], DataError);
    var (stored, rest) :- ParseWord(afterMagic, 0, Checksum(0));
    if stored == combined then Parsed((), rest) else Broken(DataError)
  }

  /** What reading a stream comes to: what is left after its end, or why it has no end, and what its whole blocks stand for. */
  datatype Delivery = Delivery(end: Parsed<()>, out: seq<int>)

  /** The blocks and the trailer, `out` and `combined` being what the blocks read so far come to. */
  ghost function ParseBlocks(bits: seq<bool>, blockSize100k: nat, out: seq<int>, combined: Checksum): Delivery
    decreases |bits|
  {
    var uc := FrontByte(bits);
    if uc.Broken? then Delivery(Broken(uc.why), out)
    else if uc.value == 0x17 then Delivery(ParseTrailer(uc.rest, combined), out)
    else if uc.value != 0x31 then Delivery(Broken(DataError), out)
    else
      match ParseBlock(uc.rest, blockSize100k)
      case Broken(why) => Delivery(Broken(why), out)
      case Parsed(block, rest) => ParseBlocks(rest, blockSize100k, out + block.out, Combine(combined, block.crc))
  }

  /** What the decompressor makes of any bits. */
  ghost function Decompressed(bits: seq<bool>): Delivery {
    match ParseHeader(bits)
    case Broken(why) => Delivery(Broken(why), [])
    case Parsed(level, rest) => ParseBlocks(rest, level, [], Checksum(0))
  }

  // ---------- reading a stream ----------

  /** Reads a block, the first byte of its mark having been read, delivers it and compares its checksum. */
  method ReadBlock(input: ChunkedInput, blockSize100k: nat, small: bool)
    returns (r: Received<Unpacked>)
    requires input.Valid() && 1 <= blockSize100k <= 9
    modifies input, input.bits
    ensures input.Valid() && Left(r, input.All()) == ParseBlock(old(input.All()), blockSize100k)
  {
    hide ChunkedInput.Valid, ChunkedInput.All, ParseColumn, Less, Count, WellPacked, Expand, Block, Crc, Finalise;
    var head, nblock, tt, unzftab := ReadColumn(input, blockSize100k);
    if head.Stopped? {
      return Stopped(head.why);
    }
    if head.value.randomised {
      return Stopped(Randomised);
    }
    ghost var column := tt[..nblock];
    var cftab := new int[257];
    var ok := BwtDecoders.BuildCftab(unzftab, cftab, nblock, column);
    var corrupt, out, sum;
    if small {
      corrupt, out, sum := DeliverSmall(tt, cftab, nblock, head.value.origPtr, column);
    } else {
      corrupt, out, sum := DeliverFast(tt, cftab, nblock, head.value.origPtr, column);
    }
    if corrupt || Finalise(sum) != head.value.crc {
      return Stopped(DataError);
    }
    return Received(Unpacked(out, head.value.crc));
  }

  /** Reads the header of a stream. */
  method ReadHeader(input: ChunkedInput) returns (r: Received<nat>)
    requires input.Valid()
    modifies input, input.bits
    ensures input.Valid() && Left(r, input.All()) == ParseHeader(old(input.All()))
  {
    hide ChunkedInput.Valid, ChunkedInput.All, ParseExact, FrontByte;
    var _ :- Expect(input, HEADER, DataErrorMagic);
    var level :- input.GetByte();
    return if level < HDR_0 + 1 || level > HDR_0 + 9 then Stopped(DataErrorMagic) else Received(level - HDR_0);
  }

  /** Reads the trailer, its first byte having been read. */
  method ReadTrailer(input: ChunkedInput, combined: Checksum) returns (r: Received<()>)
    requires input.Valid()
    modifies input, input.bits
    ensures input.Valid() && Left(r, input.All()) == ParseTrailer(old(input.All()), combined)
  {
    hide ChunkedInput.Valid, ChunkedInput.All, ParseExact, ParseWord;
    var _ :- Expect(input, END_MAGIC[1..], DataError);
    var stored :- ReceiveWord(input);
    return if stored == combined then Received(()) else Stopped(DataError);
  }

  /** Reads a stream, the input coming in any chunks, through either decoder; the result depends on the bits alone. */
  method Decompress(input: ChunkedInput, small: bool) returns (r: Received<()>, out: seq<int>)
    requires input.Valid()
    modifies input, input.bits
    ensures input.Valid() && Delivery(Left(r, input.All()), out) == Decompressed(old(input.All()))
  {
    hide ChunkedInput.Valid, ChunkedInput.All, ParseHeader, ParseBlock, ParseTrailer, FrontByte, Combine;
    out := [];
    var blockSize100k :- ReadHeader(input);
    var combined := Checksum(0);
    while true
      invariant input.Valid() && 1 <= blockSize100k <= 9
      invariant Decompressed(old(input.All())) == ParseBlocks(input.All(), blockSize100k, out, combined)
      decreases |input.All()|
    {
      var uc :- input.GetByte();
      if uc == 0x17 {
        r := ReadTrailer(input, combined);
        return;
      }
      if uc != 0x31 {
        return Stopped(DataError), out;
      }
      var block :- ReadBlock(input, blockSize100k, small);
      out, combined := out + block.out, Combine(combined, block.crc);
    }
  }

  // ---------- streams that were sent ----------

  /** A sealed block with the word `w` stored for its checksum: it is read back exactly when the word is right. */
  lemma BlockChecked(s: Sealed, w: Checksum, blockSize100k: nat, rest: seq<bool>)
    requires WellSealed(s, blockSize100k) && 1 <= blockSize100k <= 9
    ensures InfoOk(s.info.(crc := w))
    ensures ParseBlock(AfterMark(s.info.(crc := w)) + rest, blockSize100k) ==
      if w == s.crc then Parsed(Unpacked(Expand(s.block), w), rest) else Broken(DataError)
  {
    hide ParseColumn, AfterMark, WellPacked, Expand, Block, Crc, Finalise, InfoOk, Describes, Holds;
    var column := SealedColumn(s, blockSize100k);
    OtherWord(s.info, w, s.block, s.perm, column);
    ColumnBack(s.info.(crc := w), s.block, s.perm, column, blockSize100k, rest);
  }

  lemma OtherWord(i: BlockInfo, w: Checksum, b: seq<int>, f: seq<int>, column: seq<int>)
    requires Holds(i, b, f, column)
    ensures Holds(i.(crc := w), b, f, column) && InfoOk(i.(crc := w))
  {
    hide UsedBelow, MtfCoding.Symbols, Distinct, IndexColumn, LensOk, Bwt.LastColumn;
  }

  /** The column that a sealed block's bits stand for, and that it leads back to the block. */
  lemma SealedColumn(s: Sealed, blockSize100k: nat) returns (column: seq<int>)
    requires WellSealed(s, blockSize100k)
    ensures Holds(s.info, s.block, s.perm, column) && |s.block| <= 100000 * blockSize100k && s.info.crc == s.crc
    ensures s.info.origPtr < |column| && Block(column, s.info.origPtr) == s.block
    ensures WellPacked(s.block) && Bytes(Expand(s.block)) && s.crc == Finalise(Crc(Expand(s.block)))
  {
    hide WellPacked, Expand, Crc, Finalise, InfoOk;
    BlockIsBack(s.info, s.block, s.perm);
    column := ColumnOf(s.info, s.block, s.perm);
  }

  lemma HeaderBack(blockSize100k: nat, rest: seq<bool>)
    requires 1 <= blockSize100k <= 9
    ensures ParseHeader(HeaderBits(blockSize100k) + rest) == Parsed(blockSize100k, rest)
  {
    hide ByteBits, ParseExact, FrontByte, Bits;
    var level := [HDR_0 + blockSize100k];
    ByteBitsConcat(HEADER, level);
    assert HeaderBits(blockSize100k) + rest == ByteBits(HEADER) + (ByteBits(level) + rest);
    ExactBack(HEADER, DataErrorMagic, ByteBits(level) + rest);
    OneByte(level[0]);
    ByteBack(level[0], rest);
  }

  lemma OneByte(b: nat)
    ensures ByteBits([b]) == Bits(b, 8)
  {
    hide Bits;
    assert [b][..0] == [];
  }

  /** A trailer with any word in it: it is accepted exactly when the word is the combined checksum. */
  lemma TrailerChecked(w: Checksum, combined: Checksum, rest: seq<bool>)
    ensures var uc := FrontByte(TrailerBits(w) + rest);
      && uc.Parsed? && uc.value == 0x17
      && ParseTrailer(uc.rest, combined) == if w == combined then Parsed((), rest) else Broken(DataError)
  {
    hide ByteBits, ParseExact, ParseWord, FrontByte, Bits, WordBytes;
    var word, mark := ByteBits(WordBytes(w)), ByteBits(END_MAGIC[1..]);
    ByteBitsFirst(END_MAGIC);
    assert TrailerBits(w) + rest == Bits(0x17, 8) + (mark + (word + rest));
    ByteBack(0x17, mark + (word + rest));
    ExactBack(END_MAGIC[1..], DataError, word + rest);
    WordSent(w, rest);
  }

  /** The bits of a block with any word stored for its checksum begin with the byte that tells it from a trailer. */
  lemma BlockFirst(i: BlockInfo, rest: seq<bool>)
    requires InfoOk(i)
    ensures FrontByte(BlockBits(i) + rest) == Parsed(0x31, AfterMark(i) + rest)
  {
    hide FrontByte, Bits, BlockBits, AfterMark;
    MarkFirst(i);
    assert BlockBits(i) + rest == Bits(0x31, 8) + (AfterMark(i) + rest);
    ByteBack(0x31, AfterMark(i) + rest);
  }

  /** Reading from block `k` on comes past the last block with what all blocks stand for, whatever follows. */
  lemma {:induction false} BlocksThen(finished: seq<Sealed>, k: nat, blockSize100k: nat, more: seq<bool>)
    requires AllSealed(finished, blockSize100k) && InfosOk(finished) && 1 <= blockSize100k <= 9
    requires k <= |finished|
    ensures ParseBlocks(BlocksFrom(finished, k) + more, blockSize100k, Restored(finished[..k]), Combined(finished[..k])) ==
      ParseBlocks(more, blockSize100k, Restored(finished), Combined(finished))
    decreases |finished| - k
  {
    hide BlockBits, AfterMark, Expand, Combine, FrontByte, ParseBlock, ParseTrailer, InfoOk, WellSealed;
    if k == |finished| {
      assert finished[..k] == finished && BlocksFrom(finished, k) + more == more;
    } else {
      var s := finished[k];
      assert WellSealed(s, blockSize100k) && InfoOk(s.info);
      SealedWord(s, blockSize100k);
      var later := BlocksFrom(finished, k + 1) + more;
      assert BlocksFrom(finished, k) + more == BlockBits(s.info) + later;
      BlockFirst(s.info, later);
      BlockChecked(s, s.crc, blockSize100k, later);
      assert finished[..k + 1][..k] == finished[..k];
      BlocksThen(finished, k + 1, blockSize100k, more);
    }
  }

  lemma SealedWord(s: Sealed, blockSize100k: nat)
    requires WellSealed(s, blockSize100k)
    ensures s.info.(crc := s.crc) == s.info
  {
  }

  /** The header and the blocks of a stream, whatever follows them. */
  lemma StreamThen(finished: seq<Sealed>, blockSize100k: nat, more: seq<bool>)
    requires AllSealed(finished, blockSize100k) && InfosOk(finished) && 1 <= blockSize100k <= 9
    ensures Decompressed(HeaderBits(blockSize100k) + BlocksFrom(finished, 0) + more) ==
      ParseBlocks(more, blockSize100k, Restored(finished), Combined(finished))
  {
    hide HeaderBits, BlocksFrom, AllSealed, InfosOk, ParseHeader, ParseBlocks;
    var blocks := BlocksFrom(finished, 0) + more;
    assert HeaderBits(blockSize100k) + BlocksFrom(finished, 0) + more == HeaderBits(blockSize100k) + blocks;
    HeaderBack(blockSize100k, blocks);
    assert finished[..0] == [];
    BlocksThen(finished, 0, blockSize100k, more);
  }

  /** The stream of finished blocks, whatever follows it, comes to what the blocks stand for. */
  lemma StreamBack(finished: seq<Sealed>, blockSize100k: nat, rest: seq<bool>)
    requires AllSealed(finished, blockSize100k) && InfosOk(finished) && 1 <= blockSize100k <= 9
    ensures Decompressed(StreamBits(finished, blockSize100k) + rest) == Delivery(Parsed((), rest), Restored(finished))
  {
    hide HeaderBits, BlocksFrom, TrailerBits, AllSealed, InfosOk, ParseTrailer, FrontByte, Decompressed;
    var trailer := TrailerBits(Combined(finished)) + rest;
    assert StreamBits(finished, blockSize100k) + rest == HeaderBits(blockSize100k) + BlocksFrom(finished, 0) + trailer;
    StreamThen(finished, blockSize100k, trailer);
    TrailerChecked(Combined(finished), Combined(finished), rest);
  }

  // ---------- streams that lead past the ends of the selector arrays ----------

  /** What is left after `n` whole blocks and the first byte of one more block's mark. */
  ghost function NextBlock(bits: seq<bool>, blockSize100k: nat, n: nat): Parsed<()>
    decreases n
  {
    var uc := FrontByte(bits);
    if uc.Broken? then Broken(uc.why)
    else if uc.value != 0x31 then Broken(DataError)
    else if n == 0 then Parsed((), uc.rest)
    else
      match ParseBlock(uc.rest, blockSize100k)
      case Broken(why) => Broken(why)
      case Parsed(_, rest) => NextBlock(rest, blockSize100k, n - 1)
  }

  /** After `n` whole blocks there is a block whose opening is sound and whose selectors lead past the ends of the arrays. */
  ghost predicate OverrunsAfter(bits: seq<bool>, blockSize100k: nat, n: nat) {
    var p := NextBlock(bits, blockSize100k, n);
    && p.Parsed?
    && var o := ParseOpening(p.rest, blockSize100k);
    o.Parsed? && SelectorsOverrun(o.rest)
  }

  /** Reading blocks leads past the ends of the arrays exactly when some block that it comes to does. */
  lemma {:induction false} BlocksOverrunExactly(bits: seq<bool>, blockSize100k: nat, out: seq<int>,
          combined: Checksum)
    ensures ParseBlocks(bits, blockSize100k, out, combined).end == Broken(Overrun) <==>
      exists n: nat :: OverrunsAfter(bits, blockSize100k, n)
    decreases |bits|
  {
    hide FrontByte, ParseOpening, SelectorsOverrun, ParseTrailer, ParseBlock, Combine;
    var uc := FrontByte(bits);
    if uc.Parsed? && uc.value == 0x31 {
      BlockOverrunExactly(uc.rest, blockSize100k);
      match ParseBlock(uc.rest, blockSize100k)
      case Broken(why) =>
        assert why == Overrun <==> OverrunsAfter(bits, blockSize100k, 0);
      case Parsed(block, rest) =>
        BlocksOverrunExactly(rest, blockSize100k, out + block.out, Combine(combined, block.crc));
        if exists n: nat :: OverrunsAfter(bits, blockSize100k, n) {
          var n: nat :| OverrunsAfter(bits, blockSize100k, n);
          assert n > 0 && OverrunsAfter(rest, blockSize100k, n - 1);
        }
        if exists n: nat :: OverrunsAfter(rest, blockSize100k, n) {
          var n: nat :| OverrunsAfter(rest, blockSize100k, n);
          assert OverrunsAfter(bits, blockSize100k, n + 1);
        }
    }
  }

  lemma BlockOverrunExactly(bits: seq<bool>, blockSize100k: nat)
    ensures var o := ParseOpening(bits, blockSize100k);
      ParseBlock(bits, blockSize100k) == Broken(Overrun) <==> o.Parsed? && SelectorsOverrun(o.rest)
  {
    hide ParseOpening, ParseColumn, SelectorsOverrun, Block, WellPacked, Expand, Crc, Finalise;
    ColumnOverrunsExactly(bits, blockSize100k);
  }

  /** Reading a stream leads past the ends of the selector arrays exactly when some block that it comes to does. */
  lemma StreamOverrunsExactly(bits: seq<bool>)
    ensures Decompressed(bits).end == Broken(Overrun) <==>
      var header := ParseHeader(bits);
      header.Parsed? && exists n: nat :: OverrunsAfter(header.rest, header.value, n)
  {
    hide ParseBlocks, OverrunsAfter;
    var header := ParseHeader(bits);
    if header.Parsed? {
      BlocksOverrunExactly(header.rest, header.value, [], Checksum(0));
    }
  }

  /** Every block that reading comes to announces no more selectors than the arrays hold. */
  ghost predicate Guarded(bits: seq<bool>, blockSize100k: nat) {
    forall n: nat :: GuardedAfter(bits, blockSize100k, n)
  }

  ghost predicate GuardedAfter(bits: seq<bool>, blockSize100k: nat, n: nat) {
    var p := NextBlock(bits, blockSize100k, n);
    p.Parsed? ==>
      var o := ParseOpening(p.rest, blockSize100k);
      o.Parsed? ==> Announced(o.rest) <= MAX_SELECTORS
  }

  /** Checking the announced number would keep reading inside the arrays. */
  lemma GuardedStaysInside(bits: seq<bool>)
    requires var header := ParseHeader(bits); header.Parsed? ==> Guarded(header.rest, header.value)
    ensures Decompressed(bits).end != Broken(Overrun)
  {
    hide ParseBlocks, NextBlock, ParseOpening, SelectorsOverrun, Announced, Decompressed, ParseHeader;
    StreamOverrunsExactly(bits);
    var header := ParseHeader(bits);
    if header.Parsed? && exists n: nat :: OverrunsAfter(header.rest, header.value, n) {
      var n: nat :| OverrunsAfter(header.rest, header.value, n);
      assert GuardedAfter(header.rest, header.value, n);
      SelectorsOverrunExactly(ParseOpening(NextBlock(header.rest, header.value, n).rest, header.value).rest);
    }
  }

  /** The header, the mark of a block, a head of zeros, one byte in use, and selectors that lead past the ends of the arrays. */
  ghost function OverrunningStream(u: seq<bool>): seq<bool>
    requires |u| == 256
  {
    HeaderBits(9) + (Bits(0x31, 8) + (ByteBits(BLOCK_MAGIC[1..]) +
      (FieldBits(Checksum(0), 0) + (MappingBits(u) + OverrunningSelectors()))))
  }

  /** Such a stream makes the decompressor write past the ends of the arrays. */
  lemma StreamOverruns()
    ensures var u := [true] + Zeros(255);
      Decompressed(OverrunningStream(u)) == Delivery(Broken(Overrun), [])
  {
    hide HeaderBits, ByteBits, FieldBits, MappingBits, OverrunningSelectors, ParseHeader, ParseColumn, FrontByte, Bits,
      UsedBelow, Pow2;
    var u := [true] + Zeros(255);
    OneUsed(u);
    var selectors := OverrunningSelectors();
    assert selectors + [] == selectors;
    var block := ByteBits(BLOCK_MAGIC[1..]) + (FieldBits(Checksum(0), 0) + (MappingBits(u) + selectors));
    HeaderBack(9, Bits(0x31, 8) + block);
    ByteBack(0x31, block);
    ColumnOverruns(Checksum(0), 0, u, 9, []);
  }

  lemma OneUsed(u: seq<bool>)
    requires |u| == 256 && u[0]
    ensures UsedBelow(u, 256) >= 1
  {
    UsedMonotone(u, 0, 256);
  }
}
