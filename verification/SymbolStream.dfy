/** The coded symbols of a block: written in groups of fifty with selected codes, and read back one at a time. */
module SymbolStream {
  import opened Arithmetic
  import opened BitStream
  import opened HuffmanCodes
  import opened HuffmanForest
  import opened HuffmanLengths
  import opened Options
  import opened Parsing

  const GROUP_SIZE := 50

  /** One coding table as both sides hold it: the lengths, and the decoder's tables made from them. */
  datatype Table = Table(len: seq<int>, minLen: nat, maxLen: nat, limit: seq<int>, base: seq<int>, perm: seq<int>)

  ghost predicate TableFits(t: Table) {
    && TablesFor(t.len, t.minLen, t.maxLen, t.limit, t.base, t.perm) && 1 <= t.minLen <= t.maxLen <= 20
    && 1 <= |t.len| <= MAX_ALPHA_SIZE && |t.limit| >= MAX_CODE_LEN && |t.base| >= MAX_CODE_LEN && |t.perm| >= MAX_ALPHA_SIZE
  }

  const CODE_SPACE := 20

  /** Code lengths whose codes fit in the code space. */
  ghost predicate Coherent(len: seq<int>) {
    |len| <= MAX_ALPHA_SIZE && LengthsIn(len, 1, CODE_SPACE) && KraftSum(len, CODE_SPACE, |len|) <= Pow2(CODE_SPACE)
  }

  // ---------- writing ----------

  /** Symbol `k` has a group with a table, and that table codes it. */
  ghost predicate Coded(lens: seq<seq<int>>, selector: seq<int>, mtfv: seq<int>, k: nat) {
    && k < |mtfv| && k / GROUP_SIZE < |selector| && 0 <= selector[k / GROUP_SIZE] < |lens|
    && Coherent(lens[selector[k / GROUP_SIZE]]) && 0 <= mtfv[k] < |lens[selector[k / GROUP_SIZE]]|
  }

  ghost predicate AllCoded(lens: seq<seq<int>>, selector: seq<int>, mtfv: seq<int>) {
    forall k :: 0 <= k < |mtfv| ==> Coded(lens, selector, mtfv, k)
  }

  ghost function CodeBits(len: seq<int>, sym: nat): seq<bool>
    requires Coherent(len) && sym < |len|
  {
    Bits(Code(len, sym), len[sym])
  }

  /** The bits of the symbols from place `k` on. */
  ghost function Sent(lens: seq<seq<int>>, selector: seq<int>, mtfv: seq<int>, k: nat): seq<bool>
    requires AllCoded(lens, selector, mtfv) && k <= |mtfv|
    decreases |mtfv| - k
  {
    if k == |mtfv| then []
    else
      assert Coded(lens, selector, mtfv, k);
      CodeBits(lens[selector[k / GROUP_SIZE]], mtfv[k]) + Sent(lens, selector, mtfv, k + 1)
  }

  /** Writing one more symbol. */
  lemma SentStep(written: seq<bool>, lens: seq<seq<int>>, selector: seq<int>, mtfv: seq<int>, k: nat, all: seq<bool>)
    requires AllCoded(lens, selector, mtfv) && k < |mtfv| && written + Sent(lens, selector, mtfv, k) == all
    ensures Coded(lens, selector, mtfv, k)
    ensures written + CodeBits(lens[selector[k / GROUP_SIZE]], mtfv[k]) + Sent(lens, selector, mtfv, k + 1) == all
  {
    hide CodeBits;
    assert Coded(lens, selector, mtfv, k);
  }

  /** The writer's codes agree with the lengths. */
  ghost predicate CodesFor(lens: seq<seq<int>>, codes: seq<seq<int>>) {
    |codes| == |lens| && forall t :: 0 <= t < |lens| ==> CodesOf(lens[t], codes[t])
  }

  ghost predicate CodesOf(len: seq<int>, code: seq<int>) {
    |code| == |len| && forall i :: 0 <= i < |code| ==> len[i] >= 0 && code[i] == Code(len, i)
  }

  lemma CodeWritable(len: seq<int>, sym: nat)
    requires Coherent(len) && sym < |len|
    ensures 1 <= len[sym] <= 20 && Code(len, sym) < Pow2(len[sym])
  {
    hide Code, KraftSum, Pow2;
    CodeFits(len, CODE_SPACE, sym);
  }

  method SendSymbol(w: BitWriter, lens: seq<seq<int>>, codes: seq<seq<int>>, selector: seq<int>, mtfv: array<int>,
          nMTF: nat, i: nat,
                    selCtr: nat, ghost all: seq<bool>)
    requires w.Valid() && nMTF <= mtfv.Length && AllCoded(lens, selector, mtfv[..nMTF]) && CodesFor(lens, codes)
    requires i < nMTF && selCtr == i / GROUP_SIZE && w.Written() + Sent(lens, selector, mtfv[..nMTF], i) == all
    modifies w
    ensures w.Valid() && w.Written() + Sent(lens, selector, mtfv[..nMTF], i + 1) == all
  {
    hide Sent, Code, Coherent;
    ghost var s := mtfv[..nMTF];
    SentStep(w.Written(), lens, selector, s, i, all);
    CodeWritable(lens[selector[selCtr]], s[i]);
    assert CodesOf(lens[selector[selCtr]], codes[selector[selCtr]]);
    w.BsW(lens[selector[selCtr]][mtfv[i]], codes[selector[selCtr]][mtfv[i]]);
    assert mtfv[..nMTF] == s;
  }

  /** Writes all symbols, group by group. */
  method SendSymbols(w: BitWriter, lens: seq<seq<int>>, codes: seq<seq<int>>, selector: seq<int>, mtfv: array<int>,
          nMTF: nat)
    returns (selCtr: nat)
    requires w.Valid() && nMTF <= mtfv.Length && AllCoded(lens, selector, mtfv[..nMTF]) && CodesFor(lens, codes)
    modifies w
    ensures w.Valid() && w.Written() == old(w.Written()) + Sent(lens, selector, mtfv[..nMTF], 0)
    ensures selCtr == (nMTF + GROUP_SIZE - 1) / GROUP_SIZE
  {
    hide Sent, AllCoded, CodesFor, BitWriter.Written;
    ghost var s := mtfv[..nMTF];
    ghost var all := w.Written() + Sent(lens, selector, s, 0);
    selCtr := 0;
    var gs := 0;
    while gs < nMTF
      invariant 0 <= gs <= nMTF
      invariant (gs == GROUP_SIZE * selCtr || (gs == nMTF && GROUP_SIZE * (selCtr - 1) < gs <= GROUP_SIZE * selCtr))
      invariant w.Valid() && mtfv[..nMTF] == s && w.Written() + Sent(lens, selector, s, gs) == all
    {
      var ge := gs + GROUP_SIZE - 1;
      if ge >= nMTF {
        ge := nMTF - 1;
      }
      var i := gs;
      while i <= ge
        invariant gs <= i <= ge + 1 && w.Valid() && mtfv[..nMTF] == s && w.Written() + Sent(lens, selector, s, i) == all
      {
        SendSymbol(w, lens, codes, selector, mtfv, nMTF, i, selCtr, all);
        i := i + 1;
      }
      gs := ge + 1;
      selCtr := selCtr + 1;
    }
    SentEnd(lens, selector, s);
    assert w.Written() + [] == w.Written();
  }

  lemma SentEnd(lens: seq<seq<int>>, selector: seq<int>, mtfv: seq<int>)
    requires AllCoded(lens, selector, mtfv)
    ensures Sent(lens, selector, mtfv, |mtfv|) == []
  {
  }

  // ---------- reading ----------

  /** What the bits seen so far decide about a symbol stays decided when more bits follow. */
  lemma {:induction false} MoreBits(t: Table, bits: seq<bool>, more: seq<bool>, zn: nat)
    requires TableFits(t)
    ensures var d := DecodeFrom(t.limit, t.base, t.perm, bits, zn);
      !d.NeedMore? ==> DecodeFrom(t.limit, t.base, t.perm, bits + more, zn) == d
    ensures var d := DecodeFrom(t.limit, t.base, t.perm, bits, zn); d.Symbol? ==> d.used <= |bits|
    decreases 21 - zn
  {
    hide Value, TableFits;
    if |bits| >= zn {
      assert (bits + more)[..zn] == bits[..zn];
      if zn <= 20 {
        MoreBits(t, bits, more, zn + 1);
      }
    }
  }

  /** None of the first numbers of bits, up to `zn`, makes a code. */
  ghost predicate Past(t: Table, s: seq<bool>, zn: nat)
    requires TableFits(t)
  {
    t.minLen <= zn <= 21 && (zn == t.minLen || zn <= |s| + 1) && forall m :: t.minLen <= m < zn ==> Value(s[..m]) > t.limit[m]
  }

  lemma {:induction false} SkipPast(t: Table, s: seq<bool>, zn: nat, from: nat)
    requires TableFits(t) && t.minLen <= from <= zn && Past(t, s, zn)
    ensures DecodeFrom(t.limit, t.base, t.perm, s, from) == DecodeFrom(t.limit, t.base, t.perm, s, zn)
    decreases zn - from
  {
    hide Value, TableFits;
    if from < zn {
      SkipPast(t, s, zn, from + 1);
    }
  }

  /** What the table makes of bits, none of whose beginnings shorter than `zn` is a code. */
  lemma DecidedAt(t: Table, s: seq<bool>, zn: nat)
    requires TableFits(t) && Past(t, s, zn)
    ensures |s| < zn ==> Decide(t, s).NeedMore?
    ensures |s| >= zn > 20 ==> Decide(t, s).Bad?
    ensures |s| >= zn && zn <= 20 && Value(s[..zn]) > t.limit[zn] ==> Past(t, s, zn + 1)
    ensures |s| >= zn && zn <= 20 && Value(s[..zn]) <= t.limit[zn] ==>
      Decide(t, s) == var i := Value(s[..zn]) - t.base[zn]; if i < 0 || i >= MAX_ALPHA_SIZE then Bad else Symbol(t.perm[i], zn)
  {
    hide Value, TablesFor;
    SkipPast(t, s, zn, t.minLen);
  }

  ghost function Decide(t: Table, s: seq<bool>): Outcome
    requires TableFits(t)
  {
    DecodeFrom(t.limit, t.base, t.perm, s, t.minLen)
  }

  lemma PastLonger(t: Table, s: seq<bool>, more: seq<bool>, zn: nat)
    requires TableFits(t) && Past(t, s, zn)
    ensures Past(t, s + more, zn)
  {
    hide Value, TablesFor;
    var w := s + more;
    forall m | t.minLen <= m < zn ensures Value(w[..m]) > t.limit[m] {
      assert w[..m] == s[..m];
    }
  }

  datatype Phase = Between | FirstBits | NextBit
  datatype Step = More | Corrupt | Got(sym: int)

  /** Reads symbols one at a time, stopping anywhere within one when the input runs out and going on from there. */
  class SymbolReader {
    const bits: BitReader
    const tables: seq<Table>
    const selector: seq<int>
    var groupNo: int
    var groupPos: nat
    var phase: Phase
    var zn: nat
    var zvec: nat
    ghost var seen: seq<bool>
    ghost var count: nat

    /** There is a group left for the next symbol. */
    ghost predicate InGroup()
      reads this
    {
      count / GROUP_SIZE < |selector|
    }

    ghost predicate Usable() {
      && (forall t :: 0 <= t < |tables| ==> TableFits(tables[t]))
      && forall g :: 0 <= g < |selector| ==> 0 <= selector[g] < |tables|
    }

    /** The table for the next symbol: each serves fifty symbols. */
    ghost function Current(): (t: Table)
      requires Usable() && InGroup()
      reads this
      ensures TableFits(t)
    {
      tables[selector[count / GROUP_SIZE]]
    }

    ghost predicate Valid()
      reads this, bits
    {
      && bits.Valid() && Usable() && groupPos < GROUP_SIZE && -1 <= groupNo < |selector|
      && GROUP_SIZE * groupNo + GROUP_SIZE - groupPos == count + (if phase.Between? then 0 else 1)
      && (phase.Between? ==> seen == [])
      && (phase.FirstBits? ==> InGroup() && seen == [] && zn == Current().minLen)
      && (phase.NextBit? ==> InGroup() && |seen| + 1 == zn <= 21 && zvec == Value(seen) && Past(Current(), seen, zn))
    }

    /** All bits at hand from the beginning of the current symbol on. */
    ghost function Rest(): seq<bool>
      reads this, bits
    {
      seen + bits.Pending()
    }

    constructor (bits: BitReader, tables: seq<Table>, selector: seq<int>)
      requires bits.Valid() && forall t :: 0 <= t < |tables| ==> TableFits(tables[t])
      requires forall g :: 0 <= g < |selector| ==> 0 <= selector[g] < |tables|
      ensures Valid() && this.bits == bits && this.tables == tables && this.selector == selector
      ensures count == 0 && phase.Between? && Rest() == bits.Pending()
    {
      hide TableFits, BitReader.Valid;
      this.bits := bits;
      this.tables := tables;
      this.selector := selector;
      groupNo, groupPos, phase, zn, zvec := -1, 0, Between, 0, 0;
      seen, count := [], 0;
    }

    /** Makes the next chunk of input available. */
    method Feed(chunk: seq<nat>)
      requires Valid() && AllBytes(chunk)
      modifies bits
      ensures Valid() && Rest() == old(Rest()) + ByteBits(chunk)
    {
      hide TableFits, Value, Past, BitReader.Valid;
      bits.Feed(chunk);
    }

    /** Goes on to the next symbol's table; there may be none left. */
    method Begin() returns (ok: bool)
      requires Valid() && phase.Between?
      modifies this`groupNo, this`groupPos, this`phase, this`zn
      ensures ok <==> InGroup()
      ensures ok ==> Valid() && phase.FirstBits?
    {
      hide TableFits, Value, Past, BitReader.Valid;
      if groupPos == 0 {
        if groupNo + 1 >= |selector| {
          return false;
        }
        groupNo := groupNo + 1;
        groupPos := GROUP_SIZE;
      }
      groupPos := groupPos - 1;
      assert count / GROUP_SIZE == groupNo;
      zn := tables[selector[groupNo]].minLen;
      phase := FirstBits;
      return true;
    }

    /** Takes the bits the current phase waits for, if they are there. */
    method Take() returns (ok: bool)
      requires Valid() && !phase.Between?
      modifies this`zvec, this`seen, bits
      ensures ok <==> zn <= |old(Rest())|
      ensures Rest() == old(Rest()) && bits.Valid()
      ensures ok ==> |seen| == zn && zvec == Value(seen)
      ensures !ok ==> Valid() && bits.input == []
    {
      hide TablesFor, Past, Value, BitReader.Valid, BitReader.Pending;
      ghost var all, s := Rest(), seen;
      var n := if phase.FirstBits? then zn else 1;
      ghost var pending := bits.Pending();
      assert |all| == |seen| + |pending|;
      var v := bits.GetBits(n);
      if v.None? {
        return false;
      }
      assert all[..zn] == s + pending[..n];
      AppendValue(s, pending[..n]);
      if phase.FirstBits? {
        zvec := v.value;
      } else {
        zvec := zvec * 2 + v.value;
      }
      seen := seen + pending[..n];
      assert Rest() == all;
      return true;
    }

    /** Reads the next symbol, or as much of it as there is input for. */
    method Next() returns (r: Step)
      requires Valid()
      modifies this`groupNo, this`groupPos, this`phase, this`zn, this`zvec, this`seen, this`count, bits
      ensures bits.Valid() && |Rest()| <= |old(Rest())| && (!r.Corrupt? ==> Valid())
      ensures r.Corrupt? <==> !old(InGroup()) || old(Decide(Current(), Rest())).Bad?
      ensures r.More? ==> old(InGroup()) && old(Decide(Current(), Rest())).NeedMore?
      ensures r.More? ==> count == old(count) && Rest() == old(Rest()) && bits.input == []
      ensures r.Got? ==> old(InGroup()) && count == old(count) + 1 && phase.Between?
      ensures r.Got? ==> exists used {:trigger Symbol(r.sym, used)} :: 0 <= used <= |old(Rest())| && Rest() == old(Rest())[used..] &&
                                                                       old(Decide(Current(), Rest())) == Symbol(r.sym, used)
    {
      hide TablesFor, Past, Value, BitReader.Valid, BitReader.Pending, Decide;
      ghost var all := Rest();
      if phase.Between? {
        var ok := Begin();
        if !ok {
          return Corrupt;
        }
      }
      ghost var t := Current();
      FreshPast(t, seen);
      while true
        invariant Valid() && !phase.Between? && Rest() == all && count == old(count) && Past(t, seen, zn) && zn <= 21
        decreases 21 - zn
      {
        PastLonger(t, seen, bits.Pending(), zn);
        DecidedAt(t, all, zn);
        var ok := Take();
        if !ok {
          return More;
        }
        assert seen == all[..zn];
        if zn > 20 {
          return Corrupt;
        }
        if zvec <= tables[selector[groupNo]].limit[zn] {
          break;
        }
        PastShorter(t, seen, bits.Pending(), zn + 1);
        zn := zn + 1;
        phase := NextBit;
      }
      r := Finish();
    }

    /** Looks up the symbol whose code has been taken in full. */
    method Finish() returns (r: Step)
      requires bits.Valid() && Usable() && 0 <= groupPos < GROUP_SIZE && 0 <= groupNo < |selector|
      requires GROUP_SIZE * groupNo + GROUP_SIZE - groupPos == count + 1
      requires |seen| == zn <= 20
      modifies this`phase, this`seen, this`count
      ensures var t, i := tables[selector[groupNo]], zvec - tables[selector[groupNo]].base[zn];
        if i < 0 || i >= MAX_ALPHA_SIZE then r == Corrupt && Rest() == old(Rest())
        else r == Got(t.perm[i]) && Valid() && phase.Between? && count == old(count) + 1 && Rest() == old(Rest())[zn..]
    {
      hide TablesFor, Past, BitReader.Valid, BitReader.Pending;
      var i := zvec - tables[selector[groupNo]].base[zn];
      if i < 0 || i >= MAX_ALPHA_SIZE {
        return Corrupt;
      }
      seen, phase, count := [], Between, count + 1;
      assert Rest() == old(Rest())[zn..];
      r := Got(tables[selector[groupNo]].perm[i]);
    }
  }

  lemma FreshPast(t: Table, s: seq<bool>)
    requires TableFits(t)
    ensures Past(t, s, t.minLen)
  {
  }

  lemma PastShorter(t: Table, s: seq<bool>, more: seq<bool>, zn: nat)
    requires TableFits(t) && Past(t, s + more, zn) && |s| + 1 >= zn
    ensures Past(t, s, zn)
  {
    hide Value, TablesFor;
    forall m | t.minLen <= m < zn ensures Value(s[..m]) > t.limit[m] {
      assert (s + more)[..m] == s[..m];
    }
  }

  lemma AppendValue(s: seq<bool>, t: seq<bool>)
    ensures s == [] ==> Value(s + t) == Value(t)
    ensures |t| == 1 ==> Value(s + t) == 2 * Value(s) + Value(t)
  {
    if s == [] {
      assert s + t == t;
    }
    if |t| == 1 {
      assert (s + t)[..|s + t| - 1] == s;
    }
  }

  // ---------- what is written is what is read ----------

  /** The reader's tables are made from the lengths. */
  ghost predicate TablesOf(tables: seq<Table>, lens: seq<seq<int>>) {
    |tables| == |lens| && forall t :: 0 <= t < |tables| ==> TableFits(tables[t]) && tables[t].len == lens[t]
  }

  /** With the code of a symbol ahead, the reader gets that symbol as soon as the whole code is at hand, and never another. */
  lemma NextSymbol(tables: seq<Table>, lens: seq<seq<int>>, selector: seq<int>, mtfv: seq<int>, k: nat, have: seq<bool>,
          future: seq<bool>,
                   tail: seq<bool>)
    requires TablesOf(tables, lens) && AllCoded(lens, selector, mtfv) && k < |mtfv|
    requires have + future == Sent(lens, selector, mtfv, k) + tail
    ensures Coded(lens, selector, mtfv, k)
    ensures var t := tables[selector[k / GROUP_SIZE]];
      var d := Decide(t, have);
      if d.NeedMore? then future != []
      else 0 <= t.len[mtfv[k]] <= |have| && d == Symbol(mtfv[k], t.len[mtfv[k]]) &&
           have[t.len[mtfv[k]]..] + future == Sent(lens, selector, mtfv, k + 1) + tail
  {
    hide Code, Sent, DecodeFrom, Bits, Value, KraftSum, TablesFor;
    SentStep([], lens, selector, mtfv, k, [] + Sent(lens, selector, mtfv, k));
    var t, sym := tables[selector[k / GROUP_SIZE]], mtfv[k];
    var later := Sent(lens, selector, mtfv, k + 1) + tail;
    CodeWritable(t.len, sym);
    assert have + future == CodeBits(t.len, sym) + later by {
      assert [] + CodeBits(t.len, sym) == CodeBits(t.len, sym);
      assert [] + Sent(lens, selector, mtfv, k) == Sent(lens, selector, mtfv, k);
      assert CodeBits(t.len, sym) + Sent(lens, selector, mtfv, k + 1) + tail == CodeBits(t.len, sym) + later;
    }
    DecodeSymbol(t.len, t.minLen, t.maxLen, t.limit, t.base, t.perm, CODE_SPACE, sym, later);
    MoreBits(t, have, future, t.minLen);
    if future == [] {
      assert have + future == have;
    }
    if !Decide(t, have).NeedMore? {
      assert (have + future)[t.len[sym]..] == have[t.len[sym]..] + future;
      assert (CodeBits(t.len, sym) + later)[t.len[sym]..] == later;
    }
  }

  /** The only end-of-block symbol is the last symbol. */
  ghost predicate EndsWith(mtfv: seq<int>, eob: int) {
    mtfv != [] && mtfv[|mtfv| - 1] == eob && forall k :: 0 <= k < |mtfv| - 1 ==> mtfv[k] != eob
  }

  /** Hands the reader the next chunk. */
  method FeedFirst(r: SymbolReader, input: ChunkedInput)
    requires r.Valid() && r.bits == input.bits && input.Valid() && input.chunks != []
    modifies r.bits, input`chunks
    ensures r.Valid() && input.Valid() && input.chunks == old(input.chunks[1..])
    ensures r.Rest() + ByteBits(Flat(input.chunks)) == old(r.Rest() + ByteBits(Flat(input.chunks)))
  {
    hide SymbolReader.Rest, SymbolReader.Valid, BitReader.Valid, ByteBits, Flat;
    ghost var have, first, later := r.Rest(), ByteBits(input.chunks[0]), ByteBits(Flat(input.chunks[1..]));
    FlatFirst(input.chunks);
    r.Feed(input.chunks[0]);
    input.chunks := input.chunks[1..];
    assert have + (first + later) == have + first + later;
    BitsStayValid(r);
  }

  lemma BetweenSymbols(r: SymbolReader)
    requires r.Valid() && r.phase.Between?
    ensures r.bits.Valid() && r.Rest() == r.bits.Pending()
  {
  }

  lemma BitsStayValid(r: SymbolReader)
    requires r.Valid()
    ensures r.bits.Valid() && r.Usable()
  {
  }

  lemma PendingWithin(r: SymbolReader)
    ensures |r.bits.Pending()| <= |r.Rest()|
  {
  }

  /** A table decodes whatever bits as its lengths say. */
  lemma DecidedByLengths(t: Table, s: seq<bool>)
    requires TableFits(t)
    ensures Decide(t, s) == DecodeBy(t.len, s, 0)
    ensures Decide(t, s).Symbol? ==> 0 <= Decide(t, s).sym < |t.len|
  {
    hide TablesFor, DecodeFrom, DecodeBy;
    LengthsInRange(t);
    SkipShort(t.len, t.minLen, t.maxLen, s, 0);
    TablesDecode(t.len, t.minLen, t.maxLen, t.limit, t.base, t.perm, s, t.minLen);
  }

  lemma LengthsInRange(t: Table)
    requires TableFits(t)
    ensures LengthsIn(t.len, t.minLen, t.maxLen)
  {
  }

  /** The symbols that bits hold, and what is left after end-of-block or why there is none. */
  datatype Symbols = Symbols(syms: seq<nat>, end: Parsed<()>)

  /** The symbols up to end-of-block, `syms` having been read; each group of fifty is coded with the lengths its selector says. */
  ghost function SymbolsOf(bits: seq<bool>, lens: seq<seq<int>>, selector: seq<int>, eob: nat, syms: seq<nat>): (s: Symbols)
    requires forall g :: 0 <= g < |selector| ==> 0 <= selector[g] < |lens|
    ensures Orderly(s.end, bits)
    decreases GROUP_SIZE * |selector| - |syms|
  {
    if |syms| / GROUP_SIZE >= |selector| then Symbols(syms, Broken(DataError))
    else
      match DecodeBy(lens[selector[|syms| / GROUP_SIZE]], bits, 0)
      case NeedMore => Symbols(syms, Broken(NeedInput))
      case Bad => Symbols(syms, Broken(DataError))
      case Symbol(sym, used) =>
        DecodedUses(lens[selector[|syms| / GROUP_SIZE]], bits, 0);
        if sym == eob then Symbols(syms + [sym], Parsed((), bits[used..]))
        else SymbolsOf(bits[used..], lens, selector, eob, syms + [sym])
  }

  lemma {:induction false} DecodedUses(len: seq<int>, bits: seq<bool>, n: nat)
    ensures var d := DecodeBy(len, bits, n); d.Symbol? ==> 0 <= d.used <= |bits| && d.sym >= 0
    decreases 21 - n
  {
    hide Value, Cnt, First, Cum;
    if n <= |bits| && n <= 20 {
      DecodedUses(len, bits, n + 1);
    }
  }

  /** The symbols that were sent are read back, and no further. */
  lemma {:induction false} SymbolsBack(lens: seq<seq<int>>, selector: seq<int>, mtfv: seq<nat>, eob: nat, k: nat,
          tail: seq<bool>)
    requires AllCoded(lens, selector, mtfv) && EndsWith(mtfv, eob) && k < |mtfv|
    requires forall g :: 0 <= g < |selector| ==> 0 <= selector[g] < |lens|
    ensures SymbolsOf(Sent(lens, selector, mtfv, k) + tail, lens, selector, eob, mtfv[..k]) == Symbols(mtfv, Parsed((), tail))
    decreases |mtfv| - k
  {
    hide Sent, DecodeBy, Coherent, CodeBits;
    assert Coded(lens, selector, mtfv, k);
    var len, sym := lens[selector[k / GROUP_SIZE]], mtfv[k];
    var later := Sent(lens, selector, mtfv, k + 1) + tail;
    var bits := Sent(lens, selector, mtfv, k) + tail;
    SentFirst(lens, selector, mtfv, k);
    assert bits == CodeBits(len, sym) + later;
    SymbolBack(len, sym, later);
    assert bits[len[sym]..] == later;
    assert mtfv[..k] + [sym] == mtfv[..k + 1];
    if k + 1 == |mtfv| {
      SentEnd(lens, selector, mtfv);
      assert later == tail && mtfv[..k + 1] == mtfv;
    } else {
      SymbolsBack(lens, selector, mtfv, eob, k + 1, tail);
    }
  }

  lemma SentFirst(lens: seq<seq<int>>, selector: seq<int>, mtfv: seq<int>, k: nat)
    requires AllCoded(lens, selector, mtfv) && k < |mtfv|
    ensures Coded(lens, selector, mtfv, k)
    ensures Sent(lens, selector, mtfv, k) == CodeBits(lens[selector[k / GROUP_SIZE]], mtfv[k]) + Sent(lens, selector, mtfv, k + 1)
  {
    hide CodeBits;
    assert Coded(lens, selector, mtfv, k);
  }

  /** A symbol's bits are decoded to it, whatever follows. */
  lemma SymbolBack(len: seq<int>, sym: nat, later: seq<bool>)
    requires Coherent(len) && sym < |len|
    ensures 1 <= len[sym] <= 20 && |CodeBits(len, sym)| == len[sym]
    ensures DecodeBy(len, CodeBits(len, sym) + later, 0) == Symbol(sym, len[sym])
  {
    hide DecodeBy, Code, KraftSum, Pow2, Bits;
    DecodeByCode(len, CODE_SPACE, sym, later);
  }

  /** Reads one symbol, the input coming in any chunks, unless the input runs out. */
  method ReadSymbol(r: SymbolReader, input: ChunkedInput) returns (step: Step)
    requires r.Valid() && r.phase.Between? && r.bits == input.bits && input.Valid()
    modifies r, input, input.bits
    ensures input.Valid() && |input.All()| <= |old(input.All())|
    ensures r.Usable() && (step.Corrupt? <==> !old(r.InGroup()) || old(Decide(r.Current(), input.All())).Bad?)
    ensures step.More? ==> old(r.InGroup()) && old(Decide(r.Current(), input.All())).NeedMore?
    ensures step.Got? ==> r.Valid() && r.phase.Between? && old(r.InGroup()) && r.count == old(r.count) + 1
    ensures step.Got? ==> var d := old(Decide(r.Current(), input.All()));
      && d.Symbol? && d.sym == step.sym && 0 <= d.used <= |old(input.All())|
      && input.All() == old(input.All())[d.used..]
  {
    hide TableFits, Decide, ByteBits, Flat, SymbolReader.Rest, SymbolReader.Valid, BitReader.Valid, BitReader.Pending,
      AllChunks;
    BetweenSymbols(r);
    ghost var all := input.All();
    while true
      invariant r.Valid() && input.Valid() && r.count == old(r.count) && r.Rest() + ByteBits(Flat(input.chunks)) == all
      decreases |input.chunks|
    {
      BitsStayValid(r);
      ghost var have, future := r.Rest(), ByteBits(Flat(input.chunks));
      if r.InGroup() {
        StillDecided(r.Current(), have, future);
      }
      step := r.Next();
      PendingWithin(r);
      if step.Got? {
        BetweenSymbols(r);
        ghost var used :| 0 <= used <= |have| && r.Rest() == have[used..] &&
          Decide(r.tables[r.selector[old(r.count) / GROUP_SIZE]], have) == Symbol(step.sym, used);
        assert all[used..] == have[used..] + future;
        return;
      }
      if step.Corrupt? {
        return;
      }
      if input.chunks == [] {
        NoBits();
        assert have + [] == have;
        return;
      }
      FeedFirst(r, input);
    }
  }

  lemma StillDecided(t: Table, have: seq<bool>, future: seq<bool>)
    requires TableFits(t)
    ensures !Decide(t, have).NeedMore? ==> Decide(t, have + future) == Decide(t, have)
  {
    MoreBits(t, have, future, t.minLen);
  }

  /** Reads symbols up to end-of-block, the input coming in any chunks. */
  method ReadSymbols(r: SymbolReader, eob: nat, input: ChunkedInput, ghost lens: seq<seq<int>>)
    returns (end: Received<()>, syms: seq<nat>)
    requires r.Valid() && r.count == 0 && r.phase.Between? && r.bits == input.bits && input.Valid()
    requires TablesOf(r.tables, lens)
    requires forall t :: 0 <= t < |lens| ==> |lens[t]| == eob + 1
    modifies r, input, input.bits
    ensures input.Valid() && forall k :: 0 <= k < |syms| ==> syms[k] <= eob
    ensures (forall g :: 0 <= g < |r.selector| ==> 0 <= r.selector[g] < |lens|) &&
      Symbols(syms, Left(end, input.All())) == SymbolsOf(old(input.All()), lens, r.selector, eob, [])
  {
    hide TableFits, Decide, DecodeBy, ChunkedInput.All, ChunkedInput.Valid, SymbolReader.Valid, SymbolsOf;
    BitsStayValid(r);
    ghost var all := SymbolsOf(input.All(), lens, r.selector, eob, []);
    syms := [];
    while true
      invariant r.Valid() && r.phase.Between? && input.Valid() && r.count == |syms| && forall k :: 0 <= k < |syms| ==> syms[k] < eob
      invariant all == SymbolsOf(input.All(), lens, r.selector, eob, syms)
      decreases GROUP_SIZE * |r.selector| - r.count
    {
      ghost var bits := input.All();
      SymbolsStep(bits, lens, r.selector, eob, syms);
      BitsStayValid(r);
      if r.InGroup() {
        DecidedByLengths(r.Current(), bits);
      }
      var step := ReadSymbol(r, input);
      match step
      case Corrupt => return Stopped(DataError), syms;
      case More => return Stopped(NeedInput), syms;
      case Got(sym) =>
        syms := syms + [sym];
        if sym == eob {
          return Received(()), syms;
        }
    }
  }

  lemma SymbolsStep(bits: seq<bool>, lens: seq<seq<int>>, selector: seq<int>, eob: nat, syms: seq<nat>)
    requires forall g :: 0 <= g < |selector| ==> 0 <= selector[g] < |lens|
    ensures |syms| / GROUP_SIZE >= |selector| ==> SymbolsOf(bits, lens, selector, eob, syms) == Symbols(syms, Broken(DataError))
    ensures |syms| / GROUP_SIZE < |selector| ==>
      var d := DecodeBy(lens[selector[|syms| / GROUP_SIZE]], bits, 0);
      && (d.Symbol? ==> 0 <= d.used <= |bits| && d.sym >= 0)
      && SymbolsOf(bits, lens, selector, eob, syms) ==
         match d
         case NeedMore => Symbols(syms, Broken(NeedInput))
         case Bad => Symbols(syms, Broken(DataError))
         case Symbol(sym, used) =>
           if sym == eob then Symbols(syms + [sym], Parsed((), bits[used..]))
           else SymbolsOf(bits[used..], lens, selector, eob, syms + [sym])
  {
    hide DecodeBy;
    if |syms| / GROUP_SIZE < |selector| {
      DecodedUses(lens[selector[|syms| / GROUP_SIZE]], bits, 0);
    }
  }
}
