/** What the checksums of a stream are for: which bits come to a sound end, and what changed and cut streams come to. */
module StreamIntegrity {
  import opened Arithmetic
  import opened BitStream
  import opened BlockCodec
  import opened BlockCrc
  import opened BlockTables
  import opened ByteNumbers
  import opened ByteStrings
  import opened CrcDivision
  import opened Parsing
  import opened MtfCoding
  import opened RunLength
  import opened StreamDecoder
  import opened StreamFormat
  import opened StreamSettling
  import opened UnRunLength
  import opened WordBits

  // ---------- changed words ----------

  /**
   * A stream whose block `k` has any other word stored for its checksum is refused there, whatever follows that block, with the
   * bytes of the blocks before it.
   */
  lemma WrongBlockRefused(finished: seq<Sealed>, k: nat, w: Checksum, blockSize100k: nat, rest: seq<bool>)
    requires AllSealed(finished, blockSize100k) && InfosOk(finished) && 1 <= blockSize100k <= 9
    requires k < |finished| && w != finished[k].crc
    ensures InfosOk(finished[..k]) && InfoOk(finished[k].info.(crc := w))
    ensures Decompressed(HeaderBits(blockSize100k) + BlocksFrom(finished[..k], 0) + (BlockBits(finished[k].info.(crc := w)) + rest)) ==
      Delivery(Broken(DataError), Restored(finished[..k]))
  {
    hide HeaderBits, BlocksFrom, BlockBits, AfterMark, InfoOk, WellSealed, ParseBlock, FrontByte, Decompressed, Expand;
    var before, s := finished[..k], finished[k];
    assert WellSealed(s, blockSize100k);
    BlockChecked(s, w, blockSize100k, rest);
    var wrong := s.info.(crc := w);
    StreamThen(before, blockSize100k, BlockBits(wrong) + rest);
    BlockFirst(wrong, rest);
  }

  /** A stream whose trailer holds any other word is refused, with the bytes of all its blocks. */
  lemma WrongTrailerRefused(finished: seq<Sealed>, w: Checksum, blockSize100k: nat, rest: seq<bool>)
    requires AllSealed(finished, blockSize100k) && InfosOk(finished) && 1 <= blockSize100k <= 9
    requires w != Combined(finished)
    ensures Decompressed(HeaderBits(blockSize100k) + BlocksFrom(finished, 0) + (TrailerBits(w) + rest)) ==
      Delivery(Broken(DataError), Restored(finished))
  {
    hide HeaderBits, BlocksFrom, TrailerBits, AllSealed, InfosOk, ParseTrailer, FrontByte, Decompressed;
    StreamThen(finished, blockSize100k, TrailerBits(w) + rest);
    TrailerChecked(w, Combined(finished), rest);
  }

  // ---------- more input ----------

  lemma HeaderSettled(bits: seq<bool>, more: seq<bool>)
    ensures Settled(ParseHeader(bits), ParseHeader(bits + more), bits, more)
  {
    hide ParseExact, FrontByte, Ends;
    ExactSettled(bits, HEADER, DataErrorMagic, more);
    var p := ParseExact(bits, HEADER, DataErrorMagic);
    if p.Parsed? {
      ByteSettled(p.rest, more);
      var q := FrontByte(p.rest);
      if q.Parsed? {
        EndsEnds(bits, p.rest, q.rest);
      }
    }
  }

  lemma TrailerSettled(bits: seq<bool>, combined: Checksum, more: seq<bool>)
    ensures Settled(ParseTrailer(bits, combined), ParseTrailer(bits + more, combined), bits, more)
  {
    hide ParseExact, ParseWord, Ends;
    ExactSettled(bits, END_MAGIC[1..], DataError, more);
    var p := ParseExact(bits, END_MAGIC[1..], DataError);
    if p.Parsed? {
      WordSettled(p.rest, 0, Checksum(0), more);
      var q := ParseWord(p.rest, 0, Checksum(0));
      if q.Parsed? {
        EndsEnds(bits, p.rest, q.rest);
      }
    }
  }

  lemma BlockSettled(bits: seq<bool>, blockSize100k: nat, more: seq<bool>)
    ensures Settled(ParseBlock(bits, blockSize100k), ParseBlock(bits + more, blockSize100k), bits, more)
  {
    hide ParseColumn, Ends, WellPacked, Expand, Crc, Finalise;
    ColumnSettled(bits, blockSize100k, more);
  }

  /** What has been delivered stays delivered, and an end stays the end. */
  ghost predicate DeliverySettled(d: Delivery, e: Delivery, bits: seq<bool>, more: seq<bool>) {
    && d.out <= e.out
    && Settled(d.end, e.end, bits, more)
    && (d.end == Broken(NeedInput) || e.out == d.out)
  }

  lemma {:induction false} BlocksSettled(bits: seq<bool>, blockSize100k: nat, out: seq<int>, combined: Checksum,
          more: seq<bool>)
    ensures out <= ParseBlocks(bits, blockSize100k, out, combined).out
    ensures DeliverySettled(ParseBlocks(bits, blockSize100k, out, combined), ParseBlocks(bits + more, blockSize100k, out, combined),
                            bits, more)
    decreases |bits|
  {
    hide FrontByte, ParseTrailer, ParseBlock, Combine, Ends;
    ByteSettled(bits, more);
    var uc := FrontByte(bits);
    if uc.Broken? {
      OutGrows(bits + more, blockSize100k, out, combined);
    } else if uc.value == 0x17 {
      TrailerSettled(uc.rest, combined, more);
      var p := ParseTrailer(uc.rest, combined);
      if p.Parsed? {
        EndsEnds(bits, uc.rest, p.rest);
      }
    } else if uc.value == 0x31 {
      BlockSettled(uc.rest, blockSize100k, more);
      match ParseBlock(uc.rest, blockSize100k)
      case Broken(why) =>
        if why == NeedInput {
          OutGrows(bits + more, blockSize100k, out, combined);
        }
      case Parsed(block, rest) =>
        EndsEnds(bits, uc.rest, rest);
        BlocksSettled(rest, blockSize100k, out + block.out, Combine(combined, block.crc), more);
        var d := ParseBlocks(rest, blockSize100k, out + block.out, Combine(combined, block.crc));
        if d.end.Parsed? {
          EndsEnds(bits, rest, d.end.rest);
        }
    }
  }

  lemma {:induction false} OutGrows(bits: seq<bool>, blockSize100k: nat, out: seq<int>, combined: Checksum)
    ensures out <= ParseBlocks(bits, blockSize100k, out, combined).out
    decreases |bits|
  {
    hide FrontByte, ParseTrailer, ParseBlock, Combine;
    var uc := FrontByte(bits);
    if uc.Parsed? && uc.value == 0x31 {
      match ParseBlock(uc.rest, blockSize100k)
      case Broken(_) =>
      case Parsed(block, rest) => OutGrows(rest, blockSize100k, out + block.out, Combine(combined, block.crc));
    }
  }

  /** More input takes back nothing that was delivered, and changes neither an end that was reached nor a refusal. */
  lemma StreamSettled(bits: seq<bool>, more: seq<bool>)
    ensures DeliverySettled(Decompressed(bits), Decompressed(bits + more), bits, more)
  {
    hide ParseHeader, ParseBlocks, Ends;
    HeaderSettled(bits, more);
    var p := ParseHeader(bits);
    if p.Parsed? {
      BlocksSettled(p.rest, p.value, [], Checksum(0), more);
      var d := ParseBlocks(p.rest, p.value, [], Checksum(0));
      if d.end.Parsed? {
        EndsEnds(bits, p.rest, d.end.rest);
      }
    }
  }

  /** A stream that has been cut off anywhere only asks for more, with some of its bytes and no others. */
  lemma CutStreamAsks(finished: seq<Sealed>, blockSize100k: nat, bits: seq<bool>, more: seq<bool>)
    requires AllSealed(finished, blockSize100k) && InfosOk(finished) && 1 <= blockSize100k <= 9
    requires bits + more == StreamBits(finished, blockSize100k) && more != []
    ensures Decompressed(bits).end == Broken(NeedInput) && Decompressed(bits).out <= Restored(finished)
  {
    hide StreamBits, AllSealed, InfosOk, Decompressed, Ends, Restored;
    StreamBack(finished, blockSize100k, []);
    assert StreamBits(finished, blockSize100k) + [] == bits + more;
    StreamSettled(bits, more);
  }

  /** The bytes of blocks that are there in full have been delivered, whatever follows them. */
  lemma WholeBlocksDelivered(finished: seq<Sealed>, blockSize100k: nat, more: seq<bool>)
    requires AllSealed(finished, blockSize100k) && InfosOk(finished) && 1 <= blockSize100k <= 9
    ensures Restored(finished) <= Decompressed(HeaderBits(blockSize100k) + BlocksFrom(finished, 0) + more).out
  {
    hide HeaderBits, BlocksFrom, AllSealed, InfosOk, Decompressed, ParseBlocks, Restored, Combined;
    StreamThen(finished, blockSize100k, more);
    OutGrows(more, blockSize100k, Restored(finished), Combined(finished));
  }

  // ---------- what a sound end says ----------

  /** A block as it stands in a stream: the word after its mark, the rest of its bits, and its packed bytes. */
  datatype Piece = Piece(stored: seq<bool>, body: seq<bool>, block: seq<int>)

  /**
   * The block is no longer than the header announces, has all its run counts, and its word is that of the bytes it stands for: the
   * remainder of the division of their bits from all ones, turned over.
   */
  ghost predicate Checked(p: Piece, level: nat) {
    && 0 < |p.block| <= 100000 * level && Bytes(p.block) && WellPacked(p.block) && Bytes(Expand(p.block))
    && p.stored == Flipped(Spelled(Divide(0xffff_ffff, ByteBits(Expand(p.block)))))
  }

  ghost predicate AllChecked(ps: seq<Piece>, level: nat) {
    forall i :: 0 <= i < |ps| ==> Checked(ps[i], level)
  }

  ghost function AllBits(ps: seq<Piece>): seq<bool> {
    if ps == [] then [] else Bits(0x3141_5926_5359, 48) + ps[0].stored + ps[0].body + AllBits(ps[1..])
  }

  ghost function AllOut(ps: seq<Piece>): seq<int> {
    if ps == [] then [] else Expand(ps[0].block) + AllOut(ps[1..])
  }

  /** The combined checksum: for each block the bits so far are rotated by one place and those set in its word turned over. */
  ghost function Folded(so: seq<bool>, ps: seq<Piece>): seq<bool>
    requires |so| == 32 && forall i :: 0 <= i < |ps| ==> |ps[i].stored| == 32
    decreases |ps|
  {
    if ps == [] then so
    else
      Folded(BitXor(Rotated(so), ps[0].stored), ps[1..])
  }

  /** The number that bytes spell, the first one most significant. */
  function Number(b: seq<nat>): nat {
    if b == [] then 0 else Number(b[..|b| - 1]) * 256 + b[|b| - 1]
  }

  lemma NothingSpelled()
    ensures ByteBits([]) == Bits(0, 0) && Pow2(0) == 1
  {
  }

  lemma {:induction false} BytesSpell(b: seq<nat>)
    requires AllBytes(b)
    ensures ByteBits(b) == Bits(Number(b), 8 * |b|) && Number(b) < Pow2(8 * |b|)
  {
    hide Bits, Value, Pow2;
    if b == [] {
      NothingSpelled();
    } else {
      var c, x := b[..|b| - 1], b[|b| - 1];
      BytesSpell(c);
      ByteBound();
      ValueOfBits(Number(c), 8 * |c|);
      ValueOfBits(x, 8);
      ValueConcat(ByteBits(c), Bits(x, 8));
      BitsOfValue(ByteBits(b));
      ValueBounded(ByteBits(b));
    }
  }

  lemma Marks()
    ensures ByteBits(HEADER) == Bits(0x42_5A68, 24)
    ensures ByteBits(BLOCK_MAGIC) == Bits(0x3141_5926_5359, 48)
    ensures ByteBits(END_MAGIC) == Bits(0x1772_4538_5090, 48)
  {
    hide Bits, ByteBits;
    BytesSpell(HEADER);
    BytesSpell(BLOCK_MAGIC);
    BytesSpell(END_MAGIC);
    ThreeBytes(HEADER);
    ThreeBytes(BLOCK_MAGIC[..3]);
    ThreeBytes(END_MAGIC[..3]);
    SixBytes(BLOCK_MAGIC);
    SixBytes(END_MAGIC);
  }

  lemma ThreeBytes(b: seq<nat>)
    requires |b| == 3
    ensures Number(b) == (b[0] * 256 + b[1]) * 256 + b[2]
  {
    assert b[..2][..1] == b[..1] && b[..1][..0] == [];
    assert Number(b[..1]) == b[0];
    assert Number(b[..2]) == b[0] * 256 + b[1];
  }

  lemma SixBytes(b: seq<nat>)
    requires |b| == 6
    ensures Number(b) == ((Number(b[..3]) * 256 + b[3]) * 256 + b[4]) * 256 + b[5]
  {
    assert b[..5][..4] == b[..4] && b[..4][..3] == b[..3];
    assert Number(b[..4]) == Number(b[..3]) * 256 + b[3];
    assert Number(b[..5]) == Number(b[..4]) * 256 + b[4];
  }

  lemma ByteIs(bits: seq<bool>)
    ensures var p := FrontByte(bits); p.Parsed? ==> bits == Bits(p.value, 8) + p.rest
  {
    hide Bits, Value;
    if |bits| >= 8 {
      BitsOfValue(bits[..8]);
      assert bits == bits[..8] + bits[8..];
    }
  }

  lemma {:induction false} ExactIs(bits: seq<bool>, b: seq<nat>, why: Reason)
    ensures var p := ParseExact(bits, b, why); p.Parsed? ==> bits == ByteBits(b) + p.rest
    decreases |b|
  {
    hide FrontByte, Bits, ByteBits;
    if b == [] {
      NoBytes();
    } else {
      ByteIs(bits);
      var p := FrontByte(bits);
      if p.Parsed? && p.value == b[0] {
        ExactIs(p.rest, b[1..], why);
        ByteBitsFirst(b);
      }
    }
  }

  lemma FourGlued(a: bv8, b: bv8, c: bv8, d: bv8)
    ensures var w := Glue(Glue(Glue(Glue(0, a), b), c), d); ByteA(w) == a && ByteB(w) == b && ByteC(w) == c && ByteD(w) == d
  {
  }

  lemma WordOf(a: nat, b: nat, c: nat, d: nat)
    requires a < 256 && b < 256 && c < 256 && d < 256
    ensures WordBytes(WithByte(WithByte(WithByte(WithByte(Checksum(0), a), b), c), d)) == [a, b, c, d]
  {
    hide Glue, ByteA, ByteB, ByteC, ByteD;
    FourGlued(a as bv8, b as bv8, c as bv8, d as bv8);
    OctetBack(a);
    OctetBack(b);
    OctetBack(c);
    OctetBack(d);
  }

  lemma WordIs(bits: seq<bool>)
    ensures var p := ParseWord(bits, 0, Checksum(0)); p.Parsed? ==> bits == Spelled(p.value.word) + p.rest
  {
    hide FrontByte, Bits, ByteBits, WithByte, WordBytes, Spelled;
    var p := ParseWord(bits, 0, Checksum(0));
    if p.Parsed? {
      var a := FrontByte(bits);
      var b := FrontByte(a.rest);
      var c := FrontByte(b.rest);
      var d := FrontByte(c.rest);
      var one := WithByte(Checksum(0), a.value);
      var two := WithByte(one, b.value);
      var three := WithByte(two, c.value);
      assert p == ParseWord(a.rest, 1, one) == ParseWord(b.rest, 2, two) == ParseWord(c.rest, 3, three);
      assert p == ParseWord(d.rest, 4, WithByte(three, d.value));
      ByteIs(bits);
      ByteIs(a.rest);
      ByteIs(b.rest);
      ByteIs(c.rest);
      WordOf(a.value, b.value, c.value, d.value);
      FourBytes(WordBytes(p.value));
      WordWritten(p.value);
    }
  }

  /** What follows the word of a head that is accepted ends with what follows the head. */
  lemma HeadIs(bits: seq<bool>, blockSize100k: nat)
    requires ParseHead(bits, blockSize100k).Parsed?
    ensures var head, mark := ParseHead(bits, blockSize100k), ParseExact(bits, BLOCK_MAGIC[1..], DataError);
      && mark.Parsed?
      && var word := ParseWord(mark.rest, 0, Checksum(0));
      word.Parsed? && head.value.crc == word.value && Ends(word.rest, head.rest)
  {
    hide ParseExact, ParseWord, Front, FrontBit, Ends;
    var mark := ParseExact(bits, BLOCK_MAGIC[1..], DataError);
    var word := ParseWord(mark.rest, 0, Checksum(0));
    var bit := FrontBit(word.rest);
    BitSettled(word.rest, []);
    FrontSettled(bit.rest, 24, []);
    EndsEnds(word.rest, bit.rest, Front(bit.rest, 24).rest);
  }

  /** What follows the head of a block that is accepted ends with what follows the block. */
  lemma ColumnIs(bits: seq<bool>, blockSize100k: nat)
    requires ParseColumn(bits, blockSize100k).Parsed?
    ensures var column, head := ParseColumn(bits, blockSize100k), ParseHead(bits, blockSize100k);
      head.Parsed? && column.value.head == head.value && Ends(head.rest, column.rest)
  {
    hide ParseHead, ParseMapping, ParseSelectors, ParseTables, ParseIndices, UsedBelow, Names, Renamed, Ends;
    var head := ParseHead(bits, blockSize100k);
    var a := ParseOpening(bits, blockSize100k);
    MappingSettled(head.rest, []);
    SelectorsSettled(a.rest, []);
    var b := ParseSelectors(a.rest);
    EndsEnds(head.rest, a.rest, b.rest);
    var n := UsedBelow(a.value.inUse, 256);
    TablesSettled(b.rest, b.value.nGroups, n + 2, [], []);
    var c := ParseTables(b.rest, b.value.nGroups, n + 2, []);
    EndsEnds(head.rest, b.rest, c.rest);
    IndicesSettled(c.rest, c.value, b.value.selector, n + 1, 100000 * blockSize100k, []);
    var d := ParseIndices(c.rest, c.value, b.value.selector, n + 1, 100000 * blockSize100k);
    EndsEnds(head.rest, c.rest, d.rest);
  }

  lemma BodyOf(bits: seq<bool>, rest: seq<bool>) returns (body: seq<bool>)
    requires Ends(bits, rest)
    ensures bits == body + rest
  {
    body := bits[..|bits| - |rest|];
  }

  /** A block that is accepted, its first byte having been read, as it stands in the stream. */
  lemma BlockIs(bits: seq<bool>, blockSize100k: nat) returns (p: Piece)
    requires ParseBlock(bits, blockSize100k).Parsed?
    ensures Checked(p, blockSize100k)
    ensures var b := ParseBlock(bits, blockSize100k);
      && Expand(p.block) == b.value.out && p.stored == Spelled(b.value.crc.word)
      && bits == ByteBits(BLOCK_MAGIC[1..]) + p.stored + p.body + b.rest
  {
    hide ParseColumn, ParseHead, ParseExact, ParseWord, ByteBits, Spelled, Flipped, Divide, WellPacked, Expand, Crc,
      Finalise, Ends, Block;
    ColumnIs(bits, blockSize100k);
    HeadIs(bits, blockSize100k);
    var b := ParseBlock(bits, blockSize100k);
    var head := ParseHead(bits, blockSize100k);
    var mark := ParseExact(bits, BLOCK_MAGIC[1..], DataError);
    var word := ParseWord(mark.rest, 0, Checksum(0));
    ExactIs(bits, BLOCK_MAGIC[1..], DataError);
    WordIs(mark.rest);
    CrcDivides(b.value.out);
    FinaliseBits(Crc(b.value.out));
    EndsEnds(word.rest, head.rest, b.rest);
    var body := BodyOf(word.rest, b.rest);
    var coded := ParseColumn(bits, blockSize100k).value;
    BlockBytes(coded.column, coded.head.origPtr);
    p := Piece(Spelled(word.value.word), body, Block(coded.column, coded.head.origPtr));
  }

  /** The blocks that reading comes to, as they stand in the bits, and what follows them. */
  lemma {:induction false} PiecesFrom(bits: seq<bool>, blockSize100k: nat, out: seq<int>, combined: Checksum)
    returns (ps: seq<Piece>, rest: seq<bool>)
    ensures AllChecked(ps, blockSize100k) && bits == AllBits(ps) + rest
    ensures forall i :: 0 <= i < |ps| ==> |ps[i].stored| == 32
    ensures var d := ParseBlocks(bits, blockSize100k, out, combined);
      && d.out == out + AllOut(ps)
      && (d.end.Parsed? ==> rest == Bits(0x1772_4538_5090, 48) + Folded(Spelled(combined.word), ps) + d.end.rest)
    decreases |bits|
  {
    hide FrontByte, ParseTrailer, ParseBlock, Combine, Bits, Spelled, BitXor, Rotated, Checked, Expand;
    var uc := FrontByte(bits);
    ByteIs(bits);
    Marks();
    ps, rest := [], bits;
    if uc.Parsed? && uc.value == 0x17 {
      TrailerIs(uc.rest, combined);
      ByteBitsFirst(END_MAGIC);
    } else if uc.Parsed? && uc.value == 0x31 && ParseBlock(uc.rest, blockSize100k).Parsed? {
      var b := ParseBlock(uc.rest, blockSize100k);
      var p := BlockIs(uc.rest, blockSize100k);
      ByteBitsFirst(BLOCK_MAGIC);
      var later;
      later, rest := PiecesFrom(b.rest, blockSize100k, out + b.value.out, Combine(combined, b.value.crc));
      ps := [p] + later;
      CombineBits(combined, b.value.crc);
      assert ps[1..] == later;
    }
  }

  lemma TrailerIs(bits: seq<bool>, combined: Checksum)
    ensures var p := ParseTrailer(bits, combined);
      p.Parsed? ==> bits == ByteBits(END_MAGIC[1..]) + Spelled(combined.word) + p.rest
  {
    hide ParseExact, ParseWord, ByteBits, Spelled;
    ExactIs(bits, END_MAGIC[1..], DataError);
    var p := ParseExact(bits, END_MAGIC[1..], DataError);
    if p.Parsed? {
      WordIs(p.rest);
    }
  }

  lemma HeaderIs(bits: seq<bool>)
    ensures var p := ParseHeader(bits);
      p.Parsed? ==> bits == Bits(0x42_5A68, 24) + Bits(0x30 + p.value, 8) + p.rest
  {
    hide ParseExact, FrontByte, ByteBits, Bits;
    Marks();
    ExactIs(bits, HEADER, DataErrorMagic);
    var p := ParseExact(bits, HEADER, DataErrorMagic);
    if p.Parsed? {
      ByteIs(p.rest);
    }
  }

  lemma ZeroWord()
    ensures Spelled(0) == Zeros(32)
  {
    var z: bv8 := 0;
    NthEight(z);
  }

  /**
   * Whatever bits deliver, they begin with a header and whole blocks, one for each piece of what is delivered, and the word after
   * the mark of each block is the right one for its piece. After a sound end the end mark follows, with the combined checksum of
   * just these blocks.
   */
  lemma OnlyCheckedDelivered(bits: seq<bool>) returns (level: nat, ps: seq<Piece>, rest: seq<bool>)
    requires Decompressed(bits).out != [] || Decompressed(bits).end.Parsed?
    ensures 1 <= level <= 9 && AllChecked(ps, level) && forall i :: 0 <= i < |ps| ==> |ps[i].stored| == 32
    ensures bits == Bits(0x42_5A68, 24) + Bits(0x30 + level, 8) + AllBits(ps) + rest
    ensures Decompressed(bits).out == AllOut(ps)
    ensures Decompressed(bits).end.Parsed? ==>
      rest == Bits(0x1772_4538_5090, 48) + Folded(Zeros(32), ps) + Decompressed(bits).end.rest
  {
    hide ParseHeader, ParseBlocks, Bits, AllBits, Spelled, Folded, Zeros, AllOut, Checked;
    var p := ParseHeader(bits);
    HeaderIs(bits);
    ZeroWord();
    level := p.value;
    ps, rest := PiecesFrom(p.rest, level, [], Checksum(0));
  }
}
