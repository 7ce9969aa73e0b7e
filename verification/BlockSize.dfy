/** How many bits a block can take, at most: they have to fit behind the block in the memory that it is sorted in. */
module BlockSize {
  import opened BitStream
  import opened BlockCodec
  import opened BlockTables
  import Bwt
  import opened HuffmanForest
  import opened HuffmanLengths
  import opened MtfCoding
  import opened Rotations
  import opened SymbolStream

  const MAX_TABLE_BITS := 5 + 39 * MAX_ALPHA_SIZE
  const N_OVERSHOOT := 34

  /** The bytes of the area that holds the block and, behind it, what it is compressed to. */
  function AreaSize(blockSize100k: nat): nat {
    4 * (100000 * blockSize100k + N_OVERSHOOT)
  }

  lemma {:induction false} RowsShort(u: seq<bool>, r: nat)
    requires |u| == 256 && r <= 16
    ensures |RowsFrom(u, r)| <= 16 * (16 - r)
    decreases 16 - r
  {
    hide RowUsed;
    if r < 16 {
      RowsShort(u, r + 1);
    }
  }

  /** A rank below six takes at most six bits. */
  lemma {:induction false} RanksShort(r: seq<nat>)
    requires forall i :: 0 <= i < |r| ==> r[i] < 6
    ensures |UnaryBits(r)| <= 6 * |r|
  {
    if r != [] {
      RanksShort(r[1..]);
    }
  }

  lemma {:induction false} DeltaShort(curr: int, len: int)
    ensures |DeltaBits(curr, len)| == 1 + 2 * (if curr < len then len - curr else curr - len)
    decreases if curr < len then len - curr else curr - len
  {
    if curr < len {
      DeltaShort(curr + 1, len);
    } else if curr > len {
      DeltaShort(curr - 1, len);
    }
  }

  lemma {:induction false} LensShort(curr: int, lens: seq<int>)
    requires 1 <= curr <= 20 && LengthsOk(lens)
    ensures |LensBits(curr, lens)| <= 39 * |lens|
    decreases |lens|
  {
    if lens != [] {
      DeltaShort(curr, lens[0]);
      LensShort(lens[0], lens[1..]);
    }
  }

  lemma {:induction false} TablesShort(lens: seq<seq<int>>, t: nat)
    requires t <= |lens| && TablesSendable(lens) && forall k :: 0 <= k < |lens| ==> |lens[k]| <= MAX_ALPHA_SIZE
    ensures |TablesFrom(lens, t)| <= MAX_TABLE_BITS * (|lens| - t)
    decreases |lens| - t
  {
    hide TableBits;
    if t < |lens| {
      TableShort(lens[t]);
      TablesShort(lens, t + 1);
    }
  }

  lemma TableShort(lens: seq<int>)
    requires lens != [] && LengthsOk(lens) && |lens| <= MAX_ALPHA_SIZE
    ensures |TableBits(lens)| <= MAX_TABLE_BITS
  {
    hide LensBits, Bits;
    LensShort(lens[0], lens);
  }

  lemma {:induction false} SentShort(lens: seq<seq<int>>, selector: seq<int>, mtfv: seq<nat>, k: nat)
    requires AllCoded(lens, selector, mtfv) && k <= |mtfv|
    ensures |Sent(lens, selector, mtfv, k)| <= 20 * (|mtfv| - k)
    decreases |mtfv| - k
  {
    hide Sent, Coherent, CodeBits;
    if k < |mtfv| {
      SentFirst(lens, selector, mtfv, k);
      SymbolBack(lens[selector[k / GROUP_SIZE]], mtfv[k], []);
      SentShort(lens, selector, mtfv, k + 1);
    } else {
      SentEnd(lens, selector, mtfv);
    }
  }

  /** A block has at most one symbol more than bytes. */
  lemma FewSymbols(i: BlockInfo, b: seq<int>, f: seq<int>)
    requires Describes(i, b, f)
    ensures |i.mtfv| <= |b| + 1 && forall k :: 0 <= k < |i.mtfv| ==> i.mtfv[k] >= 0
  {
    hide UsedBelow, SortedTo, IndexColumn, InfoOk, MtfCoding.Symbols, Distinct;
    InfoSmall(i);
    SymbolsEnd(IndexColumn(Bwt.LastColumn(b, f), i.inUse), Identity(UsedBelow(i.inUse, 256)), 0);
  }

  /** The bits of a block are few enough for what is left of the area, and for the header and the trailer of the stream. */
  lemma BlockBitsFew(i: BlockInfo, b: seq<int>, f: seq<int>)
    requires InfoOk(i) && Describes(i, b, f)
    ensures |BlockBits(i)| <= 20 * |b| + 170000
  {
    hide InfoOk, Describes, MappingBits, SelectorBits, TablesFrom, Sent, HeadBits, AllCoded, UsedBelow;
    InfoParts(i);
    FewSymbols(i, b, f);
    SentShort(i.lens, i.selector, i.mtfv, 0);
    assert forall k :: 0 <= k < |i.lens| ==> |i.lens[k]| <= MAX_ALPHA_SIZE by {
      InfoSmall(i);
    }
    TablesShort(i.lens, 0);
    MappingShort(i.inUse);
    SelectorsShort(i.selector, |i.lens|);
    HeadShort(i);
  }

  lemma MappingShort(u: seq<bool>)
    requires |u| == 256
    ensures |MappingBits(u)| <= 272
  {
    hide RowsFrom, RowUsed;
    RowsShort(u, 0);
  }

  lemma SelectorsShort(selector: seq<int>, nGroups: nat)
    requires RankableBy(selector, Identity(nGroups)) && nGroups <= 6 && |selector| <= MAX_SELECTORS
    ensures |SelectorBits(selector, nGroups)| <= 18 + 6 * MAX_SELECTORS
  {
    hide UnaryBits, Ranks, Bits, Distinct;
    RanksShort(Ranks(selector, Identity(nGroups)));
  }

  lemma HeadShort(i: BlockInfo)
    ensures |HeadBits(i.crc, i.origPtr)| == 105
  {
    hide ByteBits, Bits;
  }
}
