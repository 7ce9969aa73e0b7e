/** A block through both directions: from packed bytes to bits, in any chunks back, and out again. */
module BlockCodec {
  import opened Arithmetic
  import opened BitStream
  import BitTable
  import opened BlockCrc
  import opened BlockTables
  import Bwt
  import BwtDecoders
  import opened ByteStrings
  import opened Counting
  import FallbackSort
  import opened HuffmanCodes
  import opened HuffmanForest
  import opened HuffmanLengths
  import opened MtfCoding
  import opened Options
  import opened Parsing
  import opened Rotations
  import SegmentedMtf
  import opened SymbolStream
  import UnRunLength

  const BLOCK_MAGIC: seq<nat> := [0x31, 0x41, 0x59, 0x26, 0x53, 0x59]
  const MAX_CODE_BITS := 17

  /** What the bits of a block say. */
  datatype BlockInfo = BlockInfo(crc: Checksum, origPtr: nat, inUse: seq<bool>, selector: seq<int>, lens: seq<seq<int>>, mtfv: seq<int>)

  /** The alphabet: the two run symbols, one symbol for each byte in use but the first, and end-of-block. */
  function AlphaSize(inUse: seq<bool>): nat
    requires |inUse| == 256
  {
    UsedBelow(inUse, 256) + 2
  }

  ghost predicate LensOk(lens: seq<seq<int>>, alphaSize: nat) {
    2 <= |lens| <= 6 && forall t :: 0 <= t < |lens| ==> |lens[t]| == alphaSize && Coherent(lens[t])
  }

  ghost predicate InfoOk(i: BlockInfo) {
    && i.origPtr < Pow2(24) && |i.inUse| == 256 && UsedBelow(i.inUse, 256) >= 1
    && LensOk(i.lens, AlphaSize(i.inUse))
    && 1 <= |i.selector| <= MAX_SELECTORS && Selects(i.selector, |i.lens|) && AllCoded(i.lens, i.selector, i.mtfv)
    && EndsWith(i.mtfv, AlphaSize(i.inUse) - 1)
  }

  /** The bits before the tables. */
  ghost function HeadBits(crc: Checksum, origPtr: nat): seq<bool> {
    ByteBits(BLOCK_MAGIC) + FieldBits(crc, origPtr)
  }

  /** The checksum, the bit that says the block is not randomised, and the place of the unrotated block. */
  ghost function FieldBits(crc: Checksum, origPtr: nat): seq<bool> {
    ByteBits(WordBytes(crc)) + ([false] + Bits(origPtr, 24))
  }

  ghost predicate TablesSendable(lens: seq<seq<int>>) {
    forall k :: 0 <= k < |lens| ==> lens[k] != [] && LengthsOk(lens[k])
  }

  /** All tables, from table `t` on. */
  ghost function TablesFrom(lens: seq<seq<int>>, t: nat): seq<bool>
    requires t <= |lens| && TablesSendable(lens)
    decreases |lens| - t
  {
    if t == |lens| then [] else TableBits(lens[t]) + TablesFrom(lens, t + 1)
  }

  ghost function SelectorBits(selector: seq<int>, nGroups: nat): seq<bool>
    requires RankableBy(selector, Identity(nGroups))
  {
    Bits(nGroups, 3) + Bits(|selector|, 15) + UnaryBits(Ranks(selector, Identity(nGroups)))
  }

  // ---------- the head ----------

  method SendBytes(w: BitWriter, b: seq<nat>)
    requires w.Valid() && AllBytes(b)
    modifies w
    ensures w.Valid() && w.Written() == old(w.Written()) + ByteBits(b)
  {
    hide BitWriter.Valid, BitWriter.Written, ByteBits, Bits, Pow2;
    ghost var was := w.Written();
    var k := 0;
    NoBytes();
    ByteBound();
    assert was + [] == was;
    while k < |b|
      invariant 0 <= k <= |b| && w.Valid() && w.Written() == was + ByteBits(b[..k])
    {
      w.BsW(8, b[k]);
      ByteBitsNext(b, k);
      k := k + 1;
    }
    assert b[..k] == b;
  }

  lemma NoBytes()
    ensures ByteBits([]) == []
  {
  }

  lemma ByteBound()
    ensures Pow2(8) == 256
  {
    assert Pow2(4) == 16;
  }

  lemma ByteBitsNext(b: seq<nat>, k: nat)
    requires k < |b|
    ensures ByteBits(b[..k + 1]) == ByteBits(b[..k]) + Bits(b[k], 8)
  {
    assert b[..k + 1][..k] == b[..k];
  }

  method SendHead(w: BitWriter, crc: Checksum, origPtr: nat)
    requires w.Valid() && origPtr < Pow2(24)
    modifies w
    ensures w.Valid() && w.Written() == old(w.Written()) + HeadBits(crc, origPtr)
  {
    hide BitWriter.Valid, BitWriter.Written, ByteBits, Bits, Pow2, WordBytes;
    ghost var was := w.Written();
    SendBytes(w, BLOCK_MAGIC);
    SendBytes(w, WordBytes(crc));
    SendBit(w, false);
    w.BsW(24, origPtr);
    assert w.Written() == was + HeadBits(crc, origPtr);
  }

  // ---------- reading it ----------

  /** Bytes that have to be `b`, or else reading stops for the given reason. */
  ghost function ParseExact(bits: seq<bool>, b: seq<nat>, why: Reason): (p: Parsed<()>)
    ensures p.Parsed? ==> |p.rest| <= |bits|
    ensures p.Broken? ==> p.why == NeedInput || p.why == why
    decreases |b|
  {
    if b == [] then Parsed((), bits)
    else
      var (v, rest) :- FrontByte(bits);
      if v != b[0] then Broken(why) else ParseExact(rest, b[1..], why)
  }

  /** A word, `k` bytes of it having been read. */
  ghost function ParseWord(bits: seq<bool>, k: nat, got: Checksum): (p: Parsed<Checksum>)
    requires k <= 4
    ensures Orderly(p, bits)
    decreases 4 - k
  {
    if k == 4 then Parsed(got, bits)
    else
      var (v, rest) :- FrontByte(bits);
      ParseWord(rest, k + 1, WithByte(got, v))
  }

  /** The stored checksum of a block, whether it is randomised, and the place of the unrotated block among the sorted rotations. */
  datatype Head = Head(crc: Checksum, randomised: bool, origPtr: nat)

  /** The head of a block, the first byte of its mark having been read. */
  ghost function ParseHead(bits: seq<bool>, blockSize100k: nat): (p: Parsed<Head>)
    ensures Orderly(p, bits)
  {
    var (_, afterMark) :- ParseExact(bits, BLOCK_MAGIC[1..], DataError);
    var (crc, afterCrc) :- ParseWord(afterMark, 0, Checksum(0));
    var (randomised, afterBit) :- FrontBit(afterCrc);
    var (origPtr, rest) :- Front(afterBit, 24);
    if origPtr > 10 + 100000 * blockSize100k then Broken(DataError) else Parsed(Head(crc, randomised, origPtr), rest)
  }

  /** Reads bytes that have to be `b`. */
  method Expect(input: ChunkedInput, b: seq<nat>, why: Reason) returns (r: Received<()>)
    requires input.Valid()
    modifies input, input.bits
    ensures input.Valid() && Left(r, input.All()) == ParseExact(old(input.All()), b, why)
  {
    hide ChunkedInput.Valid, ChunkedInput.All, FrontByte;
    var k := 0;
    assert b[0..] == b;
    while k < |b|
      invariant 0 <= k <= |b| && input.Valid()
      invariant ParseExact(old(input.All()), b, why) == ParseExact(input.All(), b[k..], why)
    {
      var v :- input.GetByte();
      if v != b[k] {
        return Stopped(why);
      }
      assert b[k..][1..] == b[k + 1..];
      k := k + 1;
    }
    return Received(());
  }

  /** Reads a checksum. */
  method ReceiveWord(input: ChunkedInput) returns (r: Received<Checksum>)
    requires input.Valid()
    modifies input, input.bits
    ensures input.Valid() && Left(r, input.All()) == ParseWord(old(input.All()), 0, Checksum(0))
  {
    hide ChunkedInput.Valid, ChunkedInput.All, FrontByte, WithByte;
    var got, k := Checksum(0), 0;
    while k < 4
      invariant 0 <= k <= 4 && input.Valid()
      invariant ParseWord(old(input.All()), 0, Checksum(0)) == ParseWord(input.All(), k, got)
    {
      var v :- input.GetByte();
      got := WithByte(got, v);
      k := k + 1;
    }
    return Received(got);
  }

  /** Reads up to the place of the unrotated block, the first byte of the block's mark having been read. */
  method ReceiveHead(input: ChunkedInput, blockSize100k: nat) returns (r: Received<Head>)
    requires input.Valid()
    modifies input, input.bits
    ensures input.Valid() && Left(r, input.All()) == ParseHead(old(input.All()), blockSize100k)
  {
    hide ChunkedInput.Valid, ChunkedInput.All, Front, FrontBit, ParseExact, ParseWord;
    var _ :- Expect(input, BLOCK_MAGIC[1..], DataError);
    var crc :- ReceiveWord(input);
    var randomised :- input.GetBit();
    var origPtr :- input.Get(24);
    return if origPtr > 10 + 100000 * blockSize100k then Stopped(DataError) else Received(Head(crc, randomised, origPtr));
  }

  lemma {:induction false} ExactBack(b: seq<nat>, why: Reason, rest: seq<bool>)
    requires AllBytes(b)
    ensures ParseExact(ByteBits(b) + rest, b, why) == Parsed((), rest)
    decreases |b|
  {
    hide ByteBits, FrontByte, Bits;
    if b == [] {
      NoBytes();
      assert ByteBits(b) + rest == rest;
    } else {
      ByteBitsFirst(b);
      assert ByteBits(b) + rest == Bits(b[0], 8) + (ByteBits(b[1..]) + rest);
      ByteBack(b[0], ByteBits(b[1..]) + rest);
      ExactBack(b[1..], why, rest);
    }
  }

  lemma {:induction false} WordFrom(b: seq<nat>, k: nat, got: Checksum, rest: seq<bool>)
    requires k <= 4 == |b| && forall i :: 0 <= i < 4 ==> b[i] < 256
    ensures ParseWord(ByteBits(b[k..]) + rest, k, got) == Parsed(FromBytes(got, b[k..]), rest)
    decreases 4 - k
  {
    hide ByteBits, FrontByte, Bits, WithByte;
    if k == 4 {
      NoBytes();
      assert ByteBits(b[k..]) + rest == rest;
    } else {
      ByteBitsFirst(b[k..]);
      assert b[k..][1..] == b[k + 1..];
      assert ByteBits(b[k..]) + rest == Bits(b[k], 8) + (ByteBits(b[k + 1..]) + rest);
      ByteBack(b[k], ByteBits(b[k + 1..]) + rest);
      WordFrom(b, k + 1, WithByte(got, b[k]), rest);
    }
  }

  lemma WordSent(crc: Checksum, rest: seq<bool>)
    ensures ParseWord(ByteBits(WordBytes(crc)) + rest, 0, Checksum(0)) == Parsed(crc, rest)
  {
    hide ByteBits, WithByte, ParseWord;
    WordBack(crc);
    assert WordBytes(crc)[0..] == WordBytes(crc);
    WordFrom(WordBytes(crc), 0, Checksum(0), rest);
  }

  /** A head that was sent is read back, whatever follows. */
  lemma HeadBack(crc: Checksum, origPtr: nat, blockSize100k: nat, rest: seq<bool>)
    requires origPtr < Pow2(24) && origPtr <= 10 + 100000 * blockSize100k
    ensures ParseHead(ByteBits(BLOCK_MAGIC[1..]) + (FieldBits(crc, origPtr) + rest), blockSize100k) ==
      Parsed(Head(crc, false, origPtr), rest)
  {
    hide ByteBits, Bits, Pow2, WordBytes, Front, ParseExact, ParseWord;
    var afterBit := Bits(origPtr, 24) + rest;
    var afterCrc := [false] + afterBit;
    assert FieldBits(crc, origPtr) + rest == ByteBits(WordBytes(crc)) + afterCrc;
    ExactBack(BLOCK_MAGIC[1..], DataError, FieldBits(crc, origPtr) + rest);
    WordSent(crc, afterCrc);
    assert afterCrc[1..] == afterBit;
    FrontBack(origPtr, 24, rest);
  }

  // ---------- code tables ----------

  /** The least and the greatest code length. */
  method LengthRange(len: array<int>) returns (minLen: int, maxLen: int)
    requires len.Length > 0 && LengthsIn(len[..], 1, CODE_SPACE)
    ensures 1 <= minLen <= maxLen <= CODE_SPACE && LengthsIn(len[..], minLen, maxLen)
  {
    ghost var s := len[..];
    minLen, maxLen := 32, 0;
    var i := 0;
    while i < len.Length
      invariant 0 <= i <= len.Length && forall k :: 0 <= k < i ==> minLen <= len[k] <= maxLen
      invariant if i == 0 then minLen == 32 && maxLen == 0 else 1 <= minLen <= maxLen <= CODE_SPACE
    {
      assert 1 <= s[i] <= CODE_SPACE;
      if len[i] > maxLen {
        maxLen := len[i];
      }
      if len[i] < minLen {
        minLen := len[i];
      }
      i := i + 1;
    }
  }

  method ArrayOf(s: seq<int>) returns (a: array<int>)
    ensures fresh(a) && a[..] == s
  {
    a := new int[|s|];
    var i := 0;
    while i < |s|
      invariant 0 <= i <= |s| && a[..i] == s[..i]
    {
      a[i] := s[i];
      i := i + 1;
    }
  }

  /** The codes of every table. */
  method MakeCodes(lens: seq<seq<int>>) returns (codes: seq<seq<int>>)
    requires forall t :: 0 <= t < |lens| ==> lens[t] != [] && Coherent(lens[t])
    ensures CodesFor(lens, codes)
  {
    hide Code, KraftSum;
    codes := [];
    while |codes| < |lens|
      invariant |codes| <= |lens| && forall t :: 0 <= t < |codes| ==> CodesOf(lens[t], codes[t])
    {
      var len := ArrayOf(lens[|codes|]);
      var code := new int[len.Length];
      var minLen, maxLen := LengthRange(len);
      assert len[..len.Length] == len[..];
      AssignCodes(code, len, minLen, maxLen, len.Length);
      codes := codes + [code[..]];
    }
  }

  /** The decoder's tables, from the lengths. */
  method MakeTables(lens: seq<seq<int>>, alphaSize: nat) returns (tables: seq<Table>)
    requires 0 < alphaSize <= MAX_ALPHA_SIZE
    requires forall t :: 0 <= t < |lens| ==> |lens[t]| == alphaSize && LengthsOk(lens[t])
    ensures TablesOf(tables, lens)
  {
    hide TablesFor;
    tables := [];
    while |tables| < |lens|
      invariant |tables| <= |lens| && forall t :: 0 <= t < |tables| ==> TableFits(tables[t]) && tables[t].len == lens[t]
    {
      var t := MakeTable(lens[|tables|], alphaSize);
      tables := tables + [t];
    }
  }

  method MakeTable(lens: seq<int>, alphaSize: nat) returns (t: Table)
    requires |lens| == alphaSize && 0 < alphaSize <= MAX_ALPHA_SIZE && LengthsOk(lens)
    ensures TableFits(t) && t.len == lens
  {
    hide TablesFor;
    var len := ArrayOf(lens);
    var limit, base, perm := new int[MAX_ALPHA_SIZE], new int[MAX_ALPHA_SIZE], new int[MAX_ALPHA_SIZE];
    var minLen, maxLen := LengthRange(len);
    assert len[..alphaSize] == lens;
    CreateDecodeTables(limit, base, perm, len, minLen, maxLen, alphaSize);
    t := Table(lens, minLen, maxLen, limit[..], base[..], perm[..]);
  }

  method SendTables(w: BitWriter, lens: seq<seq<int>>)
    requires w.Valid() && TablesSendable(lens)
    modifies w
    ensures w.Valid() && w.Written() == old(w.Written()) + TablesFrom(lens, 0)
  {
    hide BitWriter.Valid, BitWriter.Written, TablesFrom, TableBits;
    ghost var was := w.Written();
    var t := 0;
    while t < |lens|
      invariant 0 <= t <= |lens| && w.Valid() && w.Written() + TablesFrom(lens, t) == was + TablesFrom(lens, 0)
    {
      ghost var before := w.Written();
      TablesStep(lens, t);
      SendTable(w, lens[t]);
      assert before + (TableBits(lens[t]) + TablesFrom(lens, t + 1)) == before + TableBits(lens[t]) + TablesFrom(lens, t + 1);
      t := t + 1;
    }
    TablesEnd(lens);
    assert w.Written() + [] == w.Written();
  }

  lemma TablesStep(lens: seq<seq<int>>, t: nat)
    requires t < |lens| && TablesSendable(lens)
    ensures TablesFrom(lens, t) == TableBits(lens[t]) + TablesFrom(lens, t + 1)
  {
  }

  lemma TablesEnd(lens: seq<seq<int>>)
    requires TablesSendable(lens)
    ensures TablesFrom(lens, |lens|) == []
  {
  }

  /** The lengths of `n` tables, `got` having been read. */
  ghost function ParseTables(bits: seq<bool>, n: nat, alphaSize: nat, got: seq<seq<int>>): (p: Parsed<seq<seq<int>>>)
    requires |got| <= n && AllLengthsOk(got, alphaSize)
    ensures Orderly(p, bits) && (p.Parsed? ==> |p.value| == n && AllLengthsOk(p.value, alphaSize))
    decreases n - |got|
  {
    if |got| == n then Parsed(got, bits)
    else
      var (lens, rest) :- ParseTable(bits, alphaSize);
      ParseTables(rest, n, alphaSize, got + [lens])
  }

  ghost predicate AllLengthsOk(lens: seq<seq<int>>, alphaSize: nat) {
    forall t :: 0 <= t < |lens| ==> |lens[t]| == alphaSize && LengthsOk(lens[t])
  }

  method ReceiveTables(input: ChunkedInput, n: nat, alphaSize: nat) returns (r: Received<seq<seq<int>>>)
    requires input.Valid()
    modifies input, input.bits
    ensures input.Valid() && Left(r, input.All()) == ParseTables(old(input.All()), n, alphaSize, [])
    ensures r.Received? ==> |r.value| == n && AllLengthsOk(r.value, alphaSize)
  {
    hide ChunkedInput.Valid, ChunkedInput.All, ParseTable, LengthsOk;
    var got: seq<seq<int>> := [];
    while |got| < n
      invariant |got| <= n && input.Valid() && AllLengthsOk(got, alphaSize)
      invariant ParseTables(old(input.All()), n, alphaSize, []) == ParseTables(input.All(), n, alphaSize, got)
    {
      var one :- ReceiveTable(input, alphaSize);
      got := got + [one];
    }
    return Received(got);
  }

  /** Tables that were sent are read back, whatever follows. */
  lemma {:induction false} TablesBack(lens: seq<seq<int>>, t: nat, alphaSize: nat, rest: seq<bool>)
    requires t <= |lens| && TablesSendable(lens) && AllLengthsOk(lens, alphaSize)
    ensures ParseTables(TablesFrom(lens, t) + rest, |lens|, alphaSize, lens[..t]) == Parsed(lens, rest)
    decreases |lens| - t
  {
    hide TablesFrom, TableBits, ParseTable;
    var bits := TablesFrom(lens, t) + rest;
    if t == |lens| {
      TablesEnd(lens);
      assert bits == rest && lens[..t] == lens;
    } else {
      var later := TablesFrom(lens, t + 1) + rest;
      TablesStep(lens, t);
      assert bits == TableBits(lens[t]) + later;
      TableBack(lens[t], later);
      assert lens[..t] + [lens[t]] == lens[..t + 1];
      TablesBack(lens, t + 1, alphaSize, rest);
    }
  }

  // ---------- selectors ----------

  method SendSelectors(w: BitWriter, selector: array<int>, nSelectors: nat, nGroups: nat)
    requires w.Valid() && 0 < nGroups < 8 && nSelectors <= selector.Length == MAX_SELECTORS
    requires Selects(selector[..nSelectors], nGroups)
    modifies w
    ensures RankableBy(selector[..nSelectors], Identity(nGroups))
    ensures w.Valid() && w.Written() == old(w.Written()) + SelectorBits(selector[..nSelectors], nGroups)
  {
    hide BitWriter.Valid, BitWriter.Written, UnaryBits, Ranks, Bits, Pow2;
    ghost var was := w.Written();
    var selectorMtf := new nat[MAX_SELECTORS];
    RankSelectors(selector, nSelectors, nGroups, selectorMtf);
    SmallPowers();
    w.BsW(3, nGroups);
    w.BsW(15, nSelectors);
    SendRanks(w, selectorMtf, nSelectors);
    assert w.Written() == was + SelectorBits(selector[..nSelectors], nGroups);
  }

  lemma SmallPowers()
    ensures Pow2(3) == 8 && Pow2(15) == 0x8000
  {
    assert Pow2(7) == 128;
    PowAdd(8, 7);
    ByteBound();
  }

  // ---------- reading them ----------

  /** The number of tables, and the table for each group of symbols. */
  datatype Selection = Selection(nGroups: nat, selector: seq<int>)

  ghost function ParseSelectors(bits: seq<bool>): (p: Parsed<Selection>)
    ensures p.Parsed? ==> |p.rest| <= |bits| && 2 <= p.value.nGroups <= 6 && Selects(p.value.selector, p.value.nGroups)
    ensures p.Parsed? ==> 1 <= |p.value.selector| <= MAX_SELECTORS
    ensures p.Broken? ==> p.why == Overrun || Orderly(p, bits)
  {
    var (nGroups, afterGroups) :- Front(bits, 3);
    if nGroups < 2 || nGroups > 6 then Broken(DataError)
    else
      var (nSelectors, afterCount) :- Front(afterGroups, 15);
      if nSelectors < 1 then Broken(DataError)
      else
        var (ranks, rest) :- ParseRanks(afterCount, nSelectors, nGroups, []);
        UnrankedGroups(ranks, nGroups);
        Parsed(Selection(nGroups, Unranked(ranks, Identity(nGroups))), rest)
  }

  method ReceiveSelectors(input: ChunkedInput, selectorMtf: array<nat>, selector: array<int>)
    returns (r: Received<nat>, nSelectors: nat)
    requires input.Valid() && selectorMtf.Length == selector.Length == MAX_SELECTORS
    modifies input, input.bits, selectorMtf, selector
    ensures input.Valid() && nSelectors <= MAX_SELECTORS
    ensures ParseSelectors(old(input.All())) == match r
      case Received(nGroups) => Parsed(Selection(nGroups, selector[..nSelectors]), input.All())
      case Stopped(why) => Broken(why)
  {
    hide ChunkedInput.Valid, ChunkedInput.All, Front, ParseRanks, Unranked;
    nSelectors := 0;
    var nGroups :- input.Get(3);
    if nGroups < 2 || nGroups > 6 {
      return Stopped(DataError), 0;
    }
    var n :- input.Get(15);
    if n < 1 {
      return Stopped(DataError), 0;
    }
    var _ :- ReceiveRanks(input, selectorMtf, n, nGroups);
    assert forall i :: 0 <= i < n ==> selectorMtf[i] == selectorMtf[..n][i];
    UnrankSelectors(selectorMtf, selector, n, nGroups);
    return Received(nGroups), n;
  }

  /** More selectors are announced, and more of them can be read, than the arrays hold. */
  ghost predicate SelectorsOverrun(bits: seq<bool>) {
    var nGroups := Front(bits, 3);
    && nGroups.Parsed? && 2 <= nGroups.value <= 6
    && var nSelectors := Front(nGroups.rest, 15);
    nSelectors.Parsed? && ReadableRanks(nSelectors.rest, nSelectors.value, nGroups.value) > MAX_SELECTORS
  }

  /** How many selectors are announced; none if the bits break off before that. */
  ghost function Announced(bits: seq<bool>): nat {
    var nGroups := Front(bits, 3);
    if nGroups.Broken? then 0
    else
      var nSelectors := Front(nGroups.rest, 15);
      if nSelectors.Broken? then 0 else nSelectors.value
  }

  /** Exactly then reading the selectors leads past the ends of the arrays; checking the announced number would rule it out. */
  lemma SelectorsOverrunExactly(bits: seq<bool>)
    ensures ParseSelectors(bits) == Broken(Overrun) <==> SelectorsOverrun(bits)
    ensures SelectorsOverrun(bits) ==> Announced(bits) > MAX_SELECTORS
  {
    hide ParseRanks, ReadableRanks, Front;
    var nGroups := Front(bits, 3);
    if nGroups.Parsed? && 2 <= nGroups.value <= 6 {
      var nSelectors := Front(nGroups.rest, 15);
      if nSelectors.Parsed? {
        RanksOverrunExactly(nSelectors.rest, nSelectors.value, nGroups.value);
      }
    }
  }

  /** Selectors that lead past the ends: two tables, one selector more than the arrays hold, and a zero bit for each. */
  ghost function OverrunningSelectors(): seq<bool> {
    Bits(2, 3) + (Bits(MAX_SELECTORS + 1, 15) + Zeros(MAX_SELECTORS + 1))
  }

  lemma OverrunExists(rest: seq<bool>)
    ensures SelectorsOverrun(OverrunningSelectors() + rest)
  {
    hide Bits, Pow2, Front;
    SmallPowers();
    var zeros := Zeros(MAX_SELECTORS + 1) + rest;
    assert OverrunningSelectors() + rest == Bits(2, 3) + (Bits(MAX_SELECTORS + 1, 15) + zeros);
    FrontBack(2, 3, Bits(MAX_SELECTORS + 1, 15) + zeros);
    FrontBack(MAX_SELECTORS + 1, 15, zeros);
    ZerosReadable(MAX_SELECTORS + 1, 2, rest);
  }

  /** Selectors that were sent are read back, whatever follows. */
  lemma SelectorsBack(sel: seq<int>, groups: nat, rest: seq<bool>)
    requires 2 <= groups <= 6 && 1 <= |sel| <= MAX_SELECTORS && RankableBy(sel, Identity(groups))
    ensures ParseSelectors(SelectorBits(sel, groups) + rest) == Parsed(Selection(groups, sel), rest)
  {
    hide Bits, Pow2, Front, UnaryBits, Ranks, ParseRanks, Unranked;
    SmallPowers();
    var ranks := Ranks(sel, Identity(groups));
    var afterCount := UnaryBits(ranks) + rest;
    assert SelectorBits(sel, groups) + rest == Bits(groups, 3) + (Bits(|sel|, 15) + afterCount);
    FrontBack(groups, 3, Bits(|sel|, 15) + afterCount);
    FrontBack(|sel|, 15, afterCount);
    assert ranks[0..] == ranks && ranks[..0] == [];
    BlockTables.RanksBack(ranks, 0, groups, rest);
    UnrankedRanks(sel, Identity(groups));
  }

  /** Ranks in a list of groups stand for groups. */
  lemma UnrankedGroups(r: seq<nat>, n: nat)
    requires forall i :: 0 <= i < |r| ==> r[i] < n
    ensures Selects(Unranked(r, Identity(n)), n)
  {
    UnrankedFrom(r, Identity(n), n);
  }

  lemma {:induction false} UnrankedFrom(r: seq<nat>, pos: seq<int>, n: nat)
    requires |pos| == n && (forall i :: 0 <= i < |r| ==> r[i] < n) && Selects(pos, n)
    ensures Selects(Unranked(r, pos), n)
    decreases |r|
  {
    if r != [] {
      UnrankedFrom(r[1..], SegmentedMtf.MoveToFront(pos, r[0]), n);
    }
  }

  // ---------- a whole block ----------

  lemma InfoParts(i: BlockInfo)
    requires InfoOk(i)
    ensures RankableBy(i.selector, Identity(|i.lens|)) && TablesSendable(i.lens)
    ensures forall t :: 0 <= t < |i.lens| ==> i.lens[t] != [] && Coherent(i.lens[t])
    ensures |i.inUse| == 256 && AlphaSize(i.inUse) >= 3 && AllCoded(i.lens, i.selector, i.mtfv)
    ensures EndsWith(i.mtfv, AlphaSize(i.inUse) - 1)
    ensures i.origPtr < Pow2(24) && 2 <= |i.lens| <= 6 && 1 <= |i.selector| <= MAX_SELECTORS
    ensures Selects(i.selector, |i.lens|)
    ensures AllLengthsOk(i.lens, AlphaSize(i.inUse))
  {
    hide UsedBelow, KraftSum, Pow2;
    GroupsInOrder(|i.lens|);
  }

  /** The bits after the head. */
  ghost function BodyBits(i: BlockInfo): seq<bool>
    requires InfoOk(i)
  {
    InfoParts(i);
    MappingBits(i.inUse) + (SelectorBits(i.selector, |i.lens|) + (TablesFrom(i.lens, 0) + Sent(i.lens, i.selector, i.mtfv, 0)))
  }

  ghost function BlockBits(i: BlockInfo): seq<bool>
    requires InfoOk(i)
  {
    HeadBits(i.crc, i.origPtr) + BodyBits(i)
  }

  /** Writes a block whose symbols, selectors and code lengths have been settled. */
  method SendBlock(w: BitWriter, crc: Checksum, origPtr: nat, inUse: array<bool>, selector: array<int>, nSelectors: nat,
          lens: seq<seq<int>>,
                   mtfv: array<int>, nMTF: nat) returns (ghost i: BlockInfo)
    requires w.Valid() && inUse.Length == 256 && nMTF <= mtfv.Length && nSelectors <= selector.Length == MAX_SELECTORS
    requires InfoOk(BlockInfo(crc, origPtr, inUse[..], selector[..nSelectors], lens, mtfv[..nMTF]))
    modifies w
    ensures i == BlockInfo(crc, origPtr, inUse[..], selector[..nSelectors], lens, mtfv[..nMTF]) && InfoOk(i)
    ensures w.Valid() && w.Written() == old(w.Written()) + BlockBits(i)
  {
    hide BitWriter.Valid, BitWriter.Written, MappingBits, SelectorBits, TablesFrom, Sent, HeadBits, Coherent, AllCoded,
      UsedBelow, Pow2;
    i := BlockInfo(crc, origPtr, inUse[..], selector[..nSelectors], lens, mtfv[..nMTF]);
    InfoParts(i);
    ghost var was := w.Written();
    SendHead(w, crc, origPtr);
    SendMapping(w, inUse);
    assert selector[..nSelectors] == i.selector;
    SendSelectors(w, selector, nSelectors, |lens|);
    SendTables(w, lens);
    var codes := MakeCodes(lens);
    assert mtfv[..nMTF] == i.mtfv && inUse[..] == i.inUse && selector[..nSelectors] == i.selector;
    var selCtr := SendSymbols(w, lens, codes, selector[..nSelectors], mtfv, nMTF);
    assert mtfv[..nMTF] == i.mtfv && inUse[..] == i.inUse && selector[..nSelectors] == i.selector;
    Reassociate(was, HeadBits(crc, origPtr), MappingBits(i.inUse), SelectorBits(i.selector, |lens|), TablesFrom(lens, 0),
      Sent(lens, i.selector, i.mtfv, 0));
  }

  lemma Reassociate(was: seq<bool>, a: seq<bool>, b: seq<bool>, c: seq<bool>, d: seq<bool>, e: seq<bool>)
    ensures was + a + b + c + d + e == was + (a + (b + (c + (d + e))))
  {
  }

  /** The bits of a block after the first byte of its mark. */
  ghost function AfterMark(i: BlockInfo): seq<bool>
    requires InfoOk(i)
  {
    ByteBits(BLOCK_MAGIC[1..]) + (FieldBits(i.crc, i.origPtr) + BodyBits(i))
  }

  lemma MarkFirst(i: BlockInfo)
    requires InfoOk(i)
    ensures BlockBits(i) == Bits(0x31, 8) + AfterMark(i)
  {
    hide ByteBits, FieldBits, BodyBits, Bits;
    ByteBitsFirst(BLOCK_MAGIC);
  }

  /** Fits a block of up to `100000 * blockSize100k` bytes. */
  ghost predicate InfoFits(i: BlockInfo, blockSize100k: nat) {
    InfoOk(i) && i.origPtr <= 10 + 100000 * blockSize100k
  }

  /** What comes before the selectors: the head and the bytes in use. */
  datatype Opening = Opening(head: Head, inUse: seq<bool>)

  ghost function ParseOpening(bits: seq<bool>, blockSize100k: nat): (p: Parsed<Opening>)
    ensures p.Parsed? ==> |p.value.inUse| == 256 && 1 <= UsedBelow(p.value.inUse, 256) <= 256
    ensures Orderly(p, bits)
  {
    var (head, afterHead) :- ParseHead(bits, blockSize100k);
    var (inUse, rest) :- ParseMapping(afterHead);
    UsedMonotone(inUse, 256, 256);
    if UsedBelow(inUse, 256) == 0 then Broken(DataError) else Parsed(Opening(head, inUse), rest)
  }

  /** The bytes that the indices stand for; there are no indices past the bytes in use. */
  ghost function Names(inUse: seq<bool>): (s: seq<int>)
    requires |inUse| == 256
    ensures |s| == 256 && Bytes(s)
  {
    var used := UsedBytes(inUse, 256);
    used + Repeat(0, 256 - |used|)
  }

  /** The indices that coded symbols decode to, or why there are none: symbols may be wrong before they have all come. */
  ghost function ParseIndices(bits: seq<bool>, lens: seq<seq<int>>, selector: seq<int>, eob: nat, room: nat): (p: Parsed<seq<int>>)
    requires Selects(selector, |lens|)
    ensures Orderly(p, bits) && (p.Parsed? ==> Bytes(p.value) && |p.value| <= room)
  {
    var s := SymbolsOf(bits, lens, selector, eob, []);
    var d := Decode(s.syms, Identity(256), eob, room);
    DecodedBytes(s.syms, Identity(256), eob, room);
    if d.Fail? then Broken(DataError)
    else if s.end.Broken? then Broken(s.end.why)
    else if d.Done? then Parsed(d.out, s.end.rest)
    else Broken(NeedInput)
  }

  /** What the bits of a block say: its head and its last column. */
  datatype BlockColumn = BlockColumn(head: Head, column: seq<int>)

  /** A block up to its last column, the first byte of its mark having been read. */
  ghost function ParseColumn(bits: seq<bool>, blockSize100k: nat): (p: Parsed<BlockColumn>)
    ensures p.Parsed? ==> |p.rest| <= |bits| && Bytes(p.value.column) && p.value.head.origPtr < |p.value.column| <= 100000 * blockSize100k
  {
    var (opening, afterMapping) :- ParseOpening(bits, blockSize100k);
    var (selection, afterSelectors) :- ParseSelectors(afterMapping);
    var n := UsedBelow(opening.inUse, 256);
    var (lens, afterTables) :- ParseTables(afterSelectors, selection.nGroups, n + 2, []);
    var (indices, rest) :- ParseIndices(afterTables, lens, selection.selector, n + 1, 100000 * blockSize100k);
    if opening.head.origPtr >= |indices| then Broken(DataError)
    else
      RenamedBytes(indices, Names(opening.inUse));
      Parsed(BlockColumn(opening.head, Renamed(indices, Names(opening.inUse))), rest)
  }

  lemma RenamedBytes(indices: seq<int>, names: seq<int>)
    requires |names| == 256 && Bytes(names) && Bytes(indices)
    ensures Bytes(Renamed(indices, names))
  {
  }

  /** Reading a block leads past the ends of the selector arrays exactly when its opening is sound and its selectors do. */
  lemma ColumnOverrunsExactly(bits: seq<bool>, blockSize100k: nat)
    ensures var o := ParseOpening(bits, blockSize100k);
      ParseColumn(bits, blockSize100k) == Broken(Overrun) <==> o.Parsed? && SelectorsOverrun(o.rest)
  {
    hide ParseOpening, ParseSelectors, SelectorsOverrun, ParseTables, ParseIndices, UsedBelow;
    var o := ParseOpening(bits, blockSize100k);
    if o.Parsed? {
      SelectorsOverrunExactly(o.rest);
    }
  }

  /** An opening that was sent is read back, whatever follows. */
  lemma OpeningBack(crc: Checksum, origPtr: nat, u: seq<bool>, blockSize100k: nat, rest: seq<bool>)
    requires origPtr < Pow2(24) && origPtr <= 10 + 100000 * blockSize100k && |u| == 256 && UsedBelow(u, 256) >= 1
    ensures ParseOpening(ByteBits(BLOCK_MAGIC[1..]) + (FieldBits(crc, origPtr) + (MappingBits(u) + rest)), blockSize100k) ==
      Parsed(Opening(Head(crc, false, origPtr), u), rest)
  {
    hide ByteBits, FieldBits, MappingBits, ParseHead, ParseMapping, UsedBelow, Pow2;
    HeadBack(crc, origPtr, blockSize100k, MappingBits(u) + rest);
    MappingBack(u, rest);
  }

  /** After any sound opening there are selectors that lead past the ends of the arrays. */
  lemma ColumnOverruns(crc: Checksum, origPtr: nat, u: seq<bool>, blockSize100k: nat, rest: seq<bool>)
    requires origPtr < Pow2(24) && origPtr <= 10 + 100000 * blockSize100k && |u| == 256 && UsedBelow(u, 256) >= 1
    ensures ParseColumn(ByteBits(BLOCK_MAGIC[1..]) + (FieldBits(crc, origPtr) + (MappingBits(u) + (OverrunningSelectors() + rest))),
                        blockSize100k) == Broken(Overrun)
  {
    hide ByteBits, FieldBits, MappingBits, ParseOpening, ParseSelectors, ParseTables, ParseIndices, UsedBelow, Pow2, SelectorsOverrun,
      OverrunningSelectors;
    OpeningBack(crc, origPtr, u, blockSize100k, OverrunningSelectors() + rest);
    OverrunExists(rest);
    SelectorsOverrunExactly(OverrunningSelectors() + rest);
  }

  /** Reads the head and which bytes are in use, and lists those bytes. */
  method ReceiveOpening(input: ChunkedInput, blockSize100k: nat, inUse: array<bool>, seqToUnseq: array<int>)
    returns (r: Received<Head>, nInUse: nat)
    requires input.Valid() && inUse.Length == 256 && seqToUnseq.Length == 256 && forall k :: 0 <= k < 256 ==> seqToUnseq[k] == 0
    modifies input, input.bits, inUse, seqToUnseq
    ensures input.Valid()
    ensures ParseOpening(old(input.All()), blockSize100k) == match r
      case Received(head) => Parsed(Opening(head, inUse[..]), input.All())
      case Stopped(why) => Broken(why)
    ensures r.Received? ==> nInUse == UsedBelow(inUse[..], 256) && seqToUnseq[..] == Names(inUse[..])
  {
    hide ChunkedInput.Valid, ChunkedInput.All, ParseHead, ParseMapping, UsedBelow, UsedBytes;
    nInUse := 0;
    var head :- ReceiveHead(input, blockSize100k);
    var _ :- ReceiveMapping(input, inUse);
    nInUse := MakeMapsD(inUse, seqToUnseq);
    if nInUse == 0 {
      return Stopped(DataError), nInUse;
    }
    assert seqToUnseq[nInUse..] == Repeat(0, 256 - nInUse);
    assert seqToUnseq[..] == seqToUnseq[..nInUse] + seqToUnseq[nInUse..];
    return Received(head), nInUse;
  }

  lemma BlockParts(i: BlockInfo, rest: seq<bool>)
    requires InfoOk(i) && RankableBy(i.selector, Identity(|i.lens|)) && TablesSendable(i.lens)
    ensures AfterMark(i) + rest == ByteBits(BLOCK_MAGIC[1..]) + (FieldBits(i.crc, i.origPtr) +
      (MappingBits(i.inUse) + (SelectorBits(i.selector, |i.lens|) + (TablesFrom(i.lens, 0) +
        (Sent(i.lens, i.selector, i.mtfv, 0) + rest)))))
  {
    hide MappingBits, SelectorBits, TablesFrom, Sent, FieldBits, ByteBits;
  }

  /** Reads symbols with tables made from the lengths. */
  method ReadAllSymbols(input: ChunkedInput, selector: seq<int>, lens: seq<seq<int>>, alphaSize: nat)
    returns (end: Received<()>, syms: seq<nat>)
    requires input.Valid() && 3 <= alphaSize <= MAX_ALPHA_SIZE && Selects(selector, |lens|)
    requires AllLengthsOk(lens, alphaSize)
    modifies input, input.bits
    ensures input.Valid() && forall k :: 0 <= k < |syms| ==> syms[k] < alphaSize
    ensures Symbols(syms, Left(end, input.All())) == SymbolsOf(old(input.All()), lens, selector, alphaSize - 1, [])
  {
    hide BitReader.Valid, BitReader.Pending, Flat, ByteBits, TableFits, SymbolsOf;
    var tables := MakeTables(lens, alphaSize);
    TablesUsable(tables, lens);
    var r := new SymbolReader(input.bits, tables, selector);
    end, syms := ReadSymbols(r, alphaSize - 1, input, lens);
  }

  lemma TablesUsable(tables: seq<Table>, lens: seq<seq<int>>)
    requires TablesOf(tables, lens)
    ensures |tables| == |lens| && forall t :: 0 <= t < |tables| ==> TableFits(tables[t])
  {
    hide TableFits;
  }

  // ---------- choosing tables ----------

  lemma {:induction false} KraftScale(len: seq<int>, L: nat, k: nat, n: nat)
    requires n <= |len| && forall i :: 0 <= i < n ==> 0 <= len[i] <= L
    ensures KraftSum(len, L + k, n) == KraftSum(len, L, n) * Pow2(k)
    decreases n
  {
    hide Pow2;
    if n > 0 {
      KraftScale(len, L, k, n - 1);
      PowAdd(L - len[n - 1], k);
      assert (KraftSum(len, L, n - 1) + Pow2(L - len[n - 1])) * Pow2(k) ==
        KraftSum(len, L, n - 1) * Pow2(k) + Pow2(L - len[n - 1]) * Pow2(k);
    }
  }

  lemma {:induction false} FreqSumPrefix(s: seq<int>, t: seq<int>, k: nat)
    requires k <= |s| && k <= |t| && s[..k] == t[..k]
    ensures FreqSum(s, k) == FreqSum(t, k)
  {
    if k > 0 {
      assert s[..k - 1] == s[..k][..k - 1] && t[..k - 1] == t[..k][..k - 1];
      assert s[k - 1] == s[..k][k - 1] && t[k - 1] == t[..k][k - 1];
      FreqSumPrefix(s, t, k - 1);
    }
  }

  /** Symbol frequencies as the rounds of table refinement may leave them: any numbers that a block's symbols can add up to. */
  method AnyFrequencies(alphaSize: nat) returns (freq: array<int>)
    ensures fresh(freq) && freq.Length == alphaSize && (forall i :: 0 <= i < alphaSize ==> freq[i] >= 0)
    ensures FreqSum(freq[..], alphaSize) <= 900001
  {
    freq := new int[alphaSize];
    var left, i := 900001, 0;
    while i < alphaSize
      invariant 0 <= i <= alphaSize && left >= 0 && FreqSum(freq[..], i) + left == 900001
      invariant forall k :: 0 <= k < i ==> freq[k] >= 0
    {
      var x :| 0 <= x <= left;
      ghost var was := freq[..];
      freq[i] := x;
      FreqSumPrefix(was, freq[..], i);
      left := left - x;
      i := i + 1;
    }
  }

  /** Code lengths for one table. */
  method AnyTable(alphaSize: nat) returns (len: seq<int>)
    requires 2 <= alphaSize <= MAX_ALPHA_SIZE
    ensures |len| == alphaSize && Coherent(len)
  {
    hide KraftSum, Pow2, FreqSum;
    var freq := AnyFrequencies(alphaSize);
    var a := new int[alphaSize];
    ghost var times := MakeCodeLengths(a, freq, alphaSize, MAX_CODE_BITS);
    len := a[..];
    KraftScale(len, MAX_CODE_BITS, CODE_SPACE - MAX_CODE_BITS, alphaSize);
    PowAdd(MAX_CODE_BITS, CODE_SPACE - MAX_CODE_BITS);
  }

  /** As many tables as the number of symbols calls for, and some table for every group of fifty; there is room for them all. */
  method ChooseTables(alphaSize: nat, nMTF: nat, selector: array<int>) returns (nSelectors: nat, lens: seq<seq<int>>)
    requires 2 <= alphaSize <= MAX_ALPHA_SIZE && 0 < nMTF <= 900001 && selector.Length == MAX_SELECTORS
    modifies selector
    ensures LensOk(lens, alphaSize) && nSelectors == (nMTF + GROUP_SIZE - 1) / GROUP_SIZE <= MAX_SELECTORS
    ensures Selects(selector[..nSelectors], |lens|)
  {
    hide Coherent;
    var nGroups := if nMTF < 200 then 2 else if nMTF < 600 then 3 else if nMTF < 1200 then 4 else if nMTF < 2400 then 5 else 6;
    lens := [];
    while |lens| < nGroups
      invariant |lens| <= nGroups && forall t :: 0 <= t < |lens| ==> |lens[t]| == alphaSize && Coherent(lens[t])
    {
      var len := AnyTable(alphaSize);
      lens := lens + [len];
    }
    nSelectors := 0;
    while nSelectors < (nMTF + GROUP_SIZE - 1) / GROUP_SIZE
      invariant 0 <= nSelectors <= (nMTF + GROUP_SIZE - 1) / GROUP_SIZE <= MAX_SELECTORS
      invariant Selects(selector[..nSelectors], nGroups)
    {
      var t :| 0 <= t < nGroups;
      selector[nSelectors] := t;
      nSelectors := nSelectors + 1;
    }
  }

  /** Every symbol has a table, and the last one is end-of-block. */
  lemma SymbolsCoded(mtfv: seq<nat>, alphaSize: nat, selector: seq<int>, lens: seq<seq<int>>)
    requires mtfv != [] && mtfv[|mtfv| - 1] == alphaSize - 1 && forall k :: 0 <= k < |mtfv| - 1 ==> mtfv[k] < alphaSize - 1
    requires LensOk(lens, alphaSize) && Selects(selector, |lens|)
    requires |selector| == (|mtfv| + GROUP_SIZE - 1) / GROUP_SIZE
    ensures AllCoded(lens, selector, mtfv) && EndsWith(mtfv, alphaSize - 1)
  {
    hide Coherent;
    forall k | 0 <= k < |mtfv| ensures Coded(lens, selector, mtfv, k) {
      assert k / GROUP_SIZE < |selector|;
    }
  }

  // ---------- compressing a block ----------

  /** The same memory as 32-bit entries and as pairs of halfwords. */
  method AsHalves(fmap: array<int>) returns (arr1: array<int>)
    requires forall i :: 0 <= i < fmap.Length ==> fmap[i] >= 0
    ensures fresh(arr1) && arr1.Length == 2 * fmap.Length
    ensures forall i :: 0 <= i < fmap.Length ==> Ptr(arr1[..], i) == fmap[i]
  {
    arr1 := new int[2 * fmap.Length];
    var k := 0;
    while k < fmap.Length
      invariant 0 <= k <= fmap.Length
      invariant forall i :: 0 <= i < k ==> Ptr(arr1[..], i) == fmap[i]
    {
      arr1[2 * k] := fmap[k] % 65536;
      arr1[2 * k + 1] := fmap[k] / 65536;
      k := k + 1;
    }
  }

  /** The index of each byte of a column among the bytes in use. */
  ghost function IndexColumn(column: seq<int>, u: seq<bool>): (ll: seq<int>)
    requires Bytes(column) && |u| == 256
    ensures |ll| == |column|
  {
    seq(|column|, k requires 0 <= k < |column| => UsedBelow(u, column[k]))
  }

  ghost predicate AllUsed(b: seq<int>, u: seq<bool>) {
    |u| == 256 && Bytes(b) && forall k :: 0 <= k < |b| ==> u[b[k]]
  }

  /** What the bits of a compressed block say about it. */
  ghost predicate Describes(i: BlockInfo, b: seq<int>, f: seq<int>) {
    && b != [] && InfoOk(i) && AllUsed(b, i.inUse) && SortedRotations(b, f) && i.origPtr < |b| && f[i.origPtr] == 0
    && Bytes(Bwt.LastColumn(b, f))
    && var n, ll := UsedBelow(i.inUse, 256), IndexColumn(Bwt.LastColumn(b, f), i.inUse);
    (Distinct(Identity(n)) && (forall k :: 0 <= k < |ll| ==> ll[k] in Identity(n)) && i.mtfv == MtfCoding.Symbols(ll, Identity(n), 0))
  }

  lemma ColumnBytes(b: seq<int>, f: seq<int>)
    requires IsPerm(f, |b|) && Bytes(b)
    ensures Bytes(Bwt.LastColumn(b, f))
  {
    forall k | 0 <= k < |b| ensures 0 <= Bwt.LastColumn(b, f)[k] < 256 {
      BackBounds(f[k], |b|);
    }
  }

  /** The indices that are coded are those of the last column. */
  lemma IndicesAreColumn(arr1: seq<int>, b: seq<int>, q: seq<int>, f: seq<int>, u: seq<bool>, n: nat)
    requires |arr1| == 2 * |b| && |q| == 256 && AllUsed(b, u) && IsPerm(f, |b|) && Bytes(Bwt.LastColumn(b, f))
    requires forall i :: 0 <= i < |b| ==> Ptr(arr1, i) == f[i]
    requires forall c :: 0 <= c < 256 && u[c] ==> q[c] == UsedBelow(u, c) < n
    ensures (forall i :: 0 <= i < |b| ==> 0 <= Ptr(arr1, i) < |b|)
    ensures Indices(arr1, b, q) == IndexColumn(Bwt.LastColumn(b, f), u)
  {
    hide UsedBelow, Ptr;
    forall k | 0 <= k < |b| ensures Indices(arr1, b, q)[k] == IndexColumn(Bwt.LastColumn(b, f), u)[k] {
      BackBounds(f[k], |b|);
    }
  }

  /** Sorts the block's rotations and finds the unrotated one among them. */
  method SortBlock(block: array<int>) returns (origPtr: nat, arr1: array<int>, ghost f: seq<int>)
    requires 0 < block.Length <= 900000 && Bytes(block[..])
    modifies block
    ensures block[..] == old(block[..]) && SortedRotations(block[..], f) && origPtr < block.Length && f[origPtr] == 0
    ensures fresh(arr1) && arr1.Length == 2 * block.Length && forall i :: 0 <= i < block.Length ==> Ptr(arr1[..], i) == f[i]
  {
    hide SortedTo, Ptr;
    var fmap, eclass := new int[block.Length], new int[block.Length];
    var bhtab := new BitTable.Word[(block.Length + 63) / 32 + 1](_ => BitTable.ALL_ZEROS);
    FallbackSort.Sort(fmap, eclass, block, bhtab);
    f := fmap[..];
    origPtr := Bwt.FindOrigin(fmap);
    arr1 := AsHalves(fmap);
  }

  /** What coding a column leaves behind: its symbols, and tables that can send them. */
  ghost predicate CodedAs(ll: seq<int>, n: nat, mtfv: seq<int>, selector: seq<int>, lens: seq<seq<int>>) {
    && n >= 1 && Distinct(Identity(n)) && (forall k :: 0 <= k < |ll| ==> ll[k] in Identity(n))
    && mtfv == MtfCoding.Symbols(ll, Identity(n), 0)
    && LensOk(lens, n + 2) && Selects(selector, |lens|) && AllCoded(lens, selector, mtfv) && EndsWith(mtfv, n + 1)
  }

  /** Codes the last column and settles the tables for it. */
  method CodeColumn(block: array<int>, inUse: array<bool>, arr1: array<int>, ghost f: seq<int>)
    returns (nInUse: nat, nMTF: nat, selector: array<int>, nSelectors: nat, lens: seq<seq<int>>)
    requires 0 < block.Length <= 900000 && arr1 != block && arr1.Length == 2 * block.Length
    requires AllUsed(block[..], inUse[..])
    requires SortedRotations(block[..], f) && forall i :: 0 <= i < block.Length ==> Ptr(arr1[..], i) == f[i]
    modifies arr1
    ensures nInUse == UsedBelow(inUse[..], 256) && 0 < nMTF <= 900001 && nMTF <= arr1.Length
    ensures Bytes(Bwt.LastColumn(block[..], f))
    ensures fresh(selector) && nSelectors == (nMTF + GROUP_SIZE - 1) / GROUP_SIZE <= selector.Length == MAX_SELECTORS
    ensures CodedAs(IndexColumn(Bwt.LastColumn(block[..], f), inUse[..]), nInUse, arr1[..nMTF], selector[..nSelectors], lens)
  {
    hide UsedBelow, MtfCoding.Symbols, Indices, Distinct, SortedTo, LensOk, Pow2, Ptr, EndsWith, AllCoded, Selects;
    ghost var b, s := block[..], arr1[..];
    ColumnBytes(b, f);
    var unseqToSeq := new int[256];
    PtrsInside(s, f, |b|);
    nInUse, nMTF := GenerateMtf(arr1, block, inUse, unseqToSeq);
    assert block[..] == b;
    IndicesAreColumn(s, b, unseqToSeq[..], f, inUse[..], nInUse);
    ghost var ll := IndexColumn(Bwt.LastColumn(b, f), inUse[..]);
    SymbolsEnd(ll, Identity(nInUse), 0);
    selector := new int[MAX_SELECTORS];
    nSelectors, lens := ChooseTables(nInUse + 2, nMTF, selector);
    SymbolsCoded(MtfCoding.Symbols(ll, Identity(nInUse), 0), nInUse + 2, selector[..nSelectors], lens);
  }

  lemma PtrsInside(arr1: seq<int>, f: seq<int>, n: nat)
    requires |arr1| == 2 * n && IsPerm(f, n) && forall i :: 0 <= i < n ==> Ptr(arr1, i) == f[i]
    ensures forall i :: 0 <= i < n ==> 0 <= Ptr(arr1, i) < n
  {
    hide Ptr;
  }

  /** Sorts, transforms and codes a block, and writes its bits. */
  method CompressBlock(w: BitWriter, crc: Checksum, block: array<int>, inUse: array<bool>)
    returns (ghost i: BlockInfo, ghost f: seq<int>)
    requires w.Valid() && 0 < block.Length <= 900000 && inUse.Length == 256 && AllUsed(block[..], inUse[..])
    modifies w, block
    ensures block[..] == old(block[..]) && InfoOk(i) && Describes(i, block[..], f) && i.crc == crc
    ensures w.Valid() && w.Written() == old(w.Written()) + BlockBits(i)
  {
    hide BitWriter.Valid, BitWriter.Written, InfoOk, UsedBelow, MtfCoding.Symbols, Distinct, SortedRotations, LensOk,
      Pow2, Ptr, EndsWith, AllCoded, Selects;
    var origPtr, arr1;
    origPtr, arr1, f := SortBlock(block);
    ghost var b, u := block[..], inUse[..];
    var nInUse, nMTF, selector, nSelectors, lens := CodeColumn(block, inUse, arr1, f);
    assert block[..] == b && inUse[..] == u;
    Describable(crc, origPtr, u, selector[..nSelectors], lens, arr1[..nMTF], nMTF);
    i := SendBlock(w, crc, origPtr, inUse, selector, nSelectors, lens, arr1, nMTF);
    assert block[..] == b;
  }

  lemma Describable(crc: Checksum, origPtr: int, u: seq<bool>, selector: seq<int>, lens: seq<seq<int>>, mtfv: seq<int>,
          nMTF: nat)
    requires 0 <= origPtr < 900000 && |u| == 256 && 1 <= UsedBelow(u, 256)
    requires LensOk(lens, UsedBelow(u, 256) + 2) && Selects(selector, |lens|)
    requires |selector| == (nMTF + GROUP_SIZE - 1) / GROUP_SIZE
    requires 0 < nMTF <= 900001 && AllCoded(lens, selector, mtfv) && EndsWith(mtfv, UsedBelow(u, 256) + 1)
    ensures InfoOk(BlockInfo(crc, origPtr, u, selector, lens, mtfv))
  {
    hide UsedBelow, LensOk, AllCoded, EndsWith, Selects, Pow2;
    BigPowers();
  }

  lemma BigPowers()
    ensures Pow2(15) == 0x8000 && Pow2(24) == 0x100_0000
  {
    PowersUsed();
    ByteBound();
    assert Pow2(7) == 128;
    PowAdd(8, 7);
  }

  // ---------- decompressing it ----------

  lemma RenamedColumn(column: seq<int>, u: seq<bool>, names: seq<int>)
    requires Bytes(column) && |u| == 256 && |names| == 256 && forall k :: 0 <= k < |column| ==> u[column[k]]
    requires forall c :: 0 <= c < 256 && u[c] ==> UsedBelow(u, c) < 256 && names[UsedBelow(u, c)] == c
    ensures Bytes(IndexColumn(column, u)) && Renamed(IndexColumn(column, u), names) == column
  {
    hide UsedBelow;
  }

  lemma ColumnUsed(b: seq<int>, f: seq<int>, u: seq<bool>)
    requires IsPerm(f, |b|) && AllUsed(b, u)
    ensures forall k :: 0 <= k < |b| ==> 0 <= Bwt.LastColumn(b, f)[k] < 256 && u[Bwt.LastColumn(b, f)[k]]
  {
    forall k | 0 <= k < |b| ensures 0 <= Bwt.LastColumn(b, f)[k] < 256 && u[Bwt.LastColumn(b, f)[k]] {
      BackBounds(f[k], |b|);
    }
  }

  /** The symbols of a block decode to the indices of its last column. */
  lemma SymbolsDecode(ll: seq<int>, n: nat, room: nat)
    requires 1 <= n <= 256 && Distinct(Identity(n)) && (forall k :: 0 <= k < |ll| ==> ll[k] in Identity(n))
    requires |ll| <= room <= 900000
    ensures Decode(MtfCoding.Symbols(ll, Identity(n), 0), Identity(256), n + 1, room) == Done(ll)
  {
    hide Decode, MtfCoding.Symbols, Distinct;
    assert Identity(256)[..n] == Identity(n);
    RoundTrip(ll, Identity(n), 0, Identity(256), room);
    assert Repeat(Identity(n)[0], 0) + ll == ll;
  }

  /** Reads a block's symbols and decodes them into its last column, counting its bytes. */
  method ReceiveColumn(input: ChunkedInput, selector: seq<int>, lens: seq<seq<int>>, nInUse: nat,
          seqToUnseq: array<int>, nblockMAX: nat,
                       tt: array<int>, unzftab: array<int>) returns (r: Received<nat>)
    requires input.Valid() && 1 <= nInUse <= 256 && Selects(selector, |lens|) && AllLengthsOk(lens, nInUse + 2)
    requires seqToUnseq.Length == 256 == unzftab.Length && Bytes(seqToUnseq[..]) && tt.Length == nblockMAX <= 900000
    requires tt != unzftab && tt != seqToUnseq && unzftab != seqToUnseq
    modifies input, input.bits, tt, unzftab
    ensures input.Valid() && (r.Received? ==> r.value <= nblockMAX)
    ensures var p := ParseIndices(old(input.All()), lens, selector, nInUse + 1, nblockMAX);
      match r
      case Stopped(why) => p == Broken(why)
      case Received(n) => p.Parsed? && p.rest == input.All() && tt[..n] == Renamed(p.value, old(seqToUnseq[..]))
    ensures r.Received? ==> forall c :: 0 <= c < 256 ==> unzftab[c] == Count(tt[..r.value], c)
  {
    hide ChunkedInput.Valid, ChunkedInput.All, SymbolsOf, Decode, Count, Filled;
    ghost var names := seqToUnseq[..];
    var end, syms := ReadAllSymbols(input, selector, lens, nInUse + 2);
    assert seqToUnseq[..] == names;
    r := DecodeColumn(syms, nInUse + 1, seqToUnseq, nblockMAX, tt, unzftab);
    assert seqToUnseq[..] == names;
    ghost var d := Decode(syms, Identity(256), nInUse + 1, nblockMAX);
    if d.Done? {
      FilledColumn(tt[..], unzftab[..], names, d.out);
    }
    if r != Stopped(DataError) && end.Stopped? {
      r := Stopped(end.why);
    }
  }

  lemma FilledColumn(tt: seq<int>, unz: seq<int>, names: seq<int>, out: seq<int>)
    requires Filled(tt, unz, names, out)
    ensures |out| <= |tt| && |unz| == 256 && |names| == 256 && tt[..|out|] == Renamed(out, names)
    ensures forall c :: 0 <= c < 256 ==> unz[c] == Count(tt[..|out|], c)
  {
    hide Count;
  }

  /** Reads a block up to its last column, counting the column's bytes, the first byte of the block's mark having been read. */
  method ReadColumn(input: ChunkedInput, blockSize100k: nat)
    returns (r: Received<Head>, nblock: nat, tt: array<int>, unzftab: array<int>)
    requires input.Valid() && 1 <= blockSize100k <= 9
    modifies input, input.bits
    ensures input.Valid() && fresh(tt) && fresh(unzftab) && tt != unzftab && tt.Length == 100000 * blockSize100k
    ensures unzftab.Length == 256
    ensures nblock <= tt.Length
    ensures ParseColumn(old(input.All()), blockSize100k) == match r
      case Received(head) => Parsed(BlockColumn(head, tt[..nblock]), input.All())
      case Stopped(why) => Broken(why)
    ensures r.Received? ==> forall c :: 0 <= c < 256 ==> unzftab[c] == Count(tt[..nblock], c)
  {
    hide ChunkedInput.Valid, ChunkedInput.All, ParseOpening, ParseSelectors, ParseTables, ParseIndices, UsedBelow,
      Count, Names, Selects, AllLengthsOk;
    nblock, tt, unzftab := 0, new int[100000 * blockSize100k], new int[256];
    var inUse, seqToUnseq := new bool[256], new int[256](_ => 0);
    var selectorMtf, selector := new nat[MAX_SELECTORS], new int[MAX_SELECTORS];
    var nInUse, nGroups, nSelectors;
    r, nInUse := ReceiveOpening(input, blockSize100k, inUse, seqToUnseq);
    if r.Stopped? {
      return;
    }
    ghost var names := seqToUnseq[..];
    nGroups, nSelectors := ReceiveSelectors(input, selectorMtf, selector);
    if nGroups.Stopped? {
      r := Stopped(nGroups.why);
      return;
    }
    ghost var sel := selector[..nSelectors];
    var lens :- ReceiveTables(input, nGroups.value, nInUse + 2);
    assert selector[..nSelectors] == sel && seqToUnseq[..] == names;
    nblock :- ReceiveColumn(input, selector[..nSelectors], lens, nInUse, seqToUnseq, 100000 * blockSize100k, tt, unzftab);
    if r.value.origPtr >= nblock {
      r := Stopped(DataError);
    }
  }

  /** The bits say how to get the block back, from this last column. */
  ghost predicate Holds(i: BlockInfo, b: seq<int>, f: seq<int>, column: seq<int>) {
    InfoOk(i) && b != [] && SortedRotations(b, f) && Describes(i, b, f) && column == Bwt.LastColumn(b, f)
  }

  lemma ColumnOf(i: BlockInfo, b: seq<int>, f: seq<int>) returns (column: seq<int>)
    requires Describes(i, b, f)
    ensures b != [] && IsPerm(f, |b|) && column == Bwt.LastColumn(b, f) && Holds(i, b, f, column)
    ensures i.origPtr < |column|
  {
    hide UsedBelow, MtfCoding.Symbols, Distinct, SortedTo, IndexColumn, InfoOk;
    column := Bwt.LastColumn(b, f);
  }

  lemma HoldsFits(i: BlockInfo, b: seq<int>, f: seq<int>, column: seq<int>, blockSize100k: nat)
    requires Holds(i, b, f, column) && |b| <= 100000 * blockSize100k
    ensures InfoFits(i, blockSize100k)
  {
    hide SortedRotations, InfoOk;
  }

  /** A block that was sent is read back up to its last column, whatever follows. */
  lemma ColumnBack(i: BlockInfo, b: seq<int>, f: seq<int>, column: seq<int>, blockSize100k: nat, rest: seq<bool>)
    requires Holds(i, b, f, column) && |b| <= 100000 * blockSize100k <= 900000
    ensures ParseColumn(AfterMark(i) + rest, blockSize100k) == Parsed(BlockColumn(Head(i.crc, false, i.origPtr), column), rest)
  {
    hide MappingBits, SelectorBits, TablesFrom, Sent, FieldBits, ByteBits, UsedBelow, InfoOk, SortedRotations, Selects,
      Names, IndexColumn;
    hide ParseOpening, ParseSelectors, ParseTables, ParseIndices, Bwt.LastColumn, EndsWith, AllCoded, AllLengthsOk,
      Pow2;
    InfoParts(i);
    InfoSmall(i);
    HoldsFits(i, b, f, column, blockSize100k);
    BlockParts(i, rest);
    var symbols := Sent(i.lens, i.selector, i.mtfv, 0) + rest;
    var tables := TablesFrom(i.lens, 0) + symbols;
    var selectors := SelectorBits(i.selector, |i.lens|) + tables;
    OpeningBack(i.crc, i.origPtr, i.inUse, blockSize100k, selectors);
    SelectorsBack(i.selector, |i.lens|, tables);
    assert i.lens[..0] == [];
    TablesBack(i.lens, 0, AlphaSize(i.inUse), symbols);
    IndicesBack(i, b, f, column, 100000 * blockSize100k, rest);
  }

  /** The symbols of a block that was sent are read back and decode to the indices of its last column. */
  lemma IndicesBack(i: BlockInfo, b: seq<int>, f: seq<int>, column: seq<int>, room: nat, rest: seq<bool>)
    requires Holds(i, b, f, column) && |b| <= room <= 900000
    ensures |i.inUse| == 256 && AllCoded(i.lens, i.selector, i.mtfv) && Selects(i.selector, |i.lens|)
    ensures |column| == |b| > i.origPtr
    ensures var p := ParseIndices(Sent(i.lens, i.selector, i.mtfv, 0) + rest, i.lens, i.selector, UsedBelow(i.inUse, 256) + 1, room);
      p.Parsed? && p.rest == rest && |p.value| == |column| && Renamed(p.value, Names(i.inUse)) == column
  {
    hide UsedBelow, MtfCoding.Symbols, Distinct, SortedRotations, Decode, SymbolsOf, Sent, AllCoded, EndsWith, Names,
      IndexColumn, LensOk, Pow2;
    InfoParts(i);
    InfoSmall(i);
    PermOfSorted(b, f);
    ColumnUsed(b, f, i.inUse);
    var n, ll := UsedBelow(i.inUse, 256), IndexColumn(column, i.inUse);
    EndPresent(i.mtfv, n + 1);
    assert i.mtfv[..0] == [];
    SymbolsBack(i.lens, i.selector, i.mtfv, n + 1, 0, rest);
    SymbolsDecode(ll, n, room);
    NamesInverse(i.inUse);
    RenamedColumn(column, i.inUse, Names(i.inUse));
  }

  lemma EndPresent(mtfv: seq<int>, eob: int)
    requires EndsWith(mtfv, eob)
    ensures mtfv != []
  {
  }

  lemma NamesInverse(u: seq<bool>)
    requires |u| == 256
    ensures forall c :: 0 <= c < 256 && u[c] ==> UsedBelow(u, c) < 256 && Names(u)[UsedBelow(u, c)] == c
  {
    hide UsedBelow, UsedBytes;
    forall c | 0 <= c < 256 && u[c] ensures UsedBelow(u, c) < 256 && Names(u)[UsedBelow(u, c)] == c {
      UsedByteAt(u, c, 256);
    }
  }

  lemma PermOfSorted(b: seq<int>, f: seq<int>)
    requires b != [] && SortedRotations(b, f)
    ensures IsPerm(f, |b|)
  {
  }

  lemma InfoSmall(i: BlockInfo)
    requires InfoOk(i)
    ensures 1 <= UsedBelow(i.inUse, 256) <= 256 && AlphaSize(i.inUse) == UsedBelow(i.inUse, 256) + 2
  {
    UsedMonotone(i.inUse, 256, 256);
  }

  // ---------- both ways ----------

  /** The decoded block is the block. */
  lemma BlockIsBack(i: BlockInfo, b: seq<int>, f: seq<int>)
    requires Describes(i, b, f)
    ensures UnRunLength.Block(Bwt.LastColumn(b, f), i.origPtr) == b
  {
    hide Bwt.LastColumn, Bwt.Decoded, InfoOk, SortedTo, UsedBelow, MtfCoding.Symbols, IndexColumn;
    forall t | 0 <= t < |b| ensures UnRunLength.Block(Bwt.LastColumn(b, f), i.origPtr)[t] == b[t] {
      Bwt.DecodedIsBlock(b, f, i.origPtr, t);
    }
  }
}
