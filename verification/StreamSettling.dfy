/** More input never changes what reading has decided: every reading function answers once and for all, or asks for more. */
module StreamSettling {
  import opened BitStream
  import opened BlockCodec
  import opened BlockCrc
  import opened BlockTables
  import opened HuffmanCodes
  import opened MtfCoding
  import opened Parsing
  import opened SegmentedMtf
  import opened SymbolStream

  // ---------- single values ----------

  lemma FrontSettled(bits: seq<bool>, n: nat, more: seq<bool>)
    ensures Settled(Front(bits, n), Front(bits + more, n), bits, more)
  {
    hide Value;
    if |bits| >= n {
      assert (bits + more)[..n] == bits[..n] && (bits + more)[n..] == bits[n..] + more;
    }
  }

  lemma ByteSettled(bits: seq<bool>, more: seq<bool>)
    ensures Settled(FrontByte(bits), FrontByte(bits + more), bits, more)
  {
    hide Front;
    FrontSettled(bits, 8, more);
  }

  lemma BitSettled(bits: seq<bool>, more: seq<bool>)
    ensures Settled(FrontBit(bits), FrontBit(bits + more), bits, more)
  {
    if bits != [] {
      assert (bits + more)[1..] == bits[1..] + more;
    }
  }

  lemma {:induction false} ExactSettled(bits: seq<bool>, b: seq<nat>, why: Reason, more: seq<bool>)
    ensures Settled(ParseExact(bits, b, why), ParseExact(bits + more, b, why), bits, more)
    decreases |b|
  {
    hide FrontByte, Ends;
    if b == [] {
      EndsWhole(bits);
    } else {
      ByteSettled(bits, more);
      var p := FrontByte(bits);
      if p.Parsed? && p.value == b[0] {
        ExactSettled(p.rest, b[1..], why, more);
        var q := ParseExact(p.rest, b[1..], why);
        if q.Parsed? {
          EndsEnds(bits, p.rest, q.rest);
        }
      }
    }
  }

  lemma {:induction false} WordSettled(bits: seq<bool>, k: nat, got: Checksum, more: seq<bool>)
    requires k <= 4
    ensures Settled(ParseWord(bits, k, got), ParseWord(bits + more, k, got), bits, more)
    decreases 4 - k
  {
    hide FrontByte, Ends, WithByte;
    if k == 4 {
      EndsWhole(bits);
    } else {
      ByteSettled(bits, more);
      var p := FrontByte(bits);
      if p.Parsed? {
        WordSettled(p.rest, k + 1, WithByte(got, p.value), more);
        var q := ParseWord(p.rest, k + 1, WithByte(got, p.value));
        if q.Parsed? {
          EndsEnds(bits, p.rest, q.rest);
        }
      }
    }
  }

  lemma HeadSettled(bits: seq<bool>, blockSize100k: nat, more: seq<bool>)
    ensures Settled(ParseHead(bits, blockSize100k), ParseHead(bits + more, blockSize100k), bits, more)
  {
    hide ParseExact, ParseWord, FrontBit, Front, Ends;
    ExactSettled(bits, BLOCK_MAGIC[1..], DataError, more);
    var a := ParseExact(bits, BLOCK_MAGIC[1..], DataError);
    if a.Parsed? {
      WordSettled(a.rest, 0, Checksum(0), more);
      var b := ParseWord(a.rest, 0, Checksum(0));
      if b.Parsed? {
        EndsEnds(bits, a.rest, b.rest);
        BitSettled(b.rest, more);
        var c := FrontBit(b.rest);
        if c.Parsed? {
          EndsEnds(bits, b.rest, c.rest);
          FrontSettled(c.rest, 24, more);
          var d := Front(c.rest, 24);
          if d.Parsed? {
            EndsEnds(bits, c.rest, d.rest);
          }
        }
      }
    }
  }

  // ---------- the bytes in use ----------

  lemma FlagsSettled(bits: seq<bool>, n: nat, more: seq<bool>)
    ensures Settled(ParseFlags(bits, n), ParseFlags(bits + more, n), bits, more)
  {
    if |bits| >= n {
      assert (bits + more)[..n] == bits[..n] && (bits + more)[n..] == bits[n..] + more;
    }
  }

  lemma {:induction false} RowsSettled(bits: seq<bool>, flags: seq<bool>, i: nat, u: seq<bool>, more: seq<bool>)
    requires i <= |flags|
    ensures Settled(ParseRows(bits, flags, i, u), ParseRows(bits + more, flags, i, u), bits, more)
    decreases |flags| - i
  {
    hide ParseFlags, Ends;
    if i == |flags| {
      EndsWhole(bits);
    } else if !flags[i] {
      RowsSettled(bits, flags, i + 1, u + Zeros(16), more);
    } else {
      FlagsSettled(bits, 16, more);
      var p := ParseFlags(bits, 16);
      if p.Parsed? {
        RowsSettled(p.rest, flags, i + 1, u + p.value, more);
        var q := ParseRows(p.rest, flags, i + 1, u + p.value);
        if q.Parsed? {
          EndsEnds(bits, p.rest, q.rest);
        }
      }
    }
  }

  lemma MappingSettled(bits: seq<bool>, more: seq<bool>)
    ensures Settled(ParseMapping(bits), ParseMapping(bits + more), bits, more)
  {
    hide ParseFlags, ParseRows, Ends;
    FlagsSettled(bits, 16, more);
    var p := ParseFlags(bits, 16);
    if p.Parsed? {
      RowsSettled(p.rest, p.value, 0, [], more);
      var q := ParseRows(p.rest, p.value, 0, []);
      if q.Parsed? {
        EndsEnds(bits, p.rest, q.rest);
      }
    }
  }

  lemma OpeningSettled(bits: seq<bool>, blockSize100k: nat, more: seq<bool>)
    ensures Settled(ParseOpening(bits, blockSize100k), ParseOpening(bits + more, blockSize100k), bits, more)
  {
    hide ParseHead, ParseMapping, UsedBelow, Ends;
    HeadSettled(bits, blockSize100k, more);
    var p := ParseHead(bits, blockSize100k);
    if p.Parsed? {
      MappingSettled(p.rest, more);
      var q := ParseMapping(p.rest);
      if q.Parsed? {
        EndsEnds(bits, p.rest, q.rest);
      }
    }
  }

  // ---------- selectors ----------

  lemma {:induction false} RankSettled(bits: seq<bool>, nGroups: nat, j: nat, more: seq<bool>)
    requires j < nGroups
    ensures Settled(ParseRank(bits, nGroups, j), ParseRank(bits + more, nGroups, j), bits, more)
    decreases nGroups - j
  {
    hide FrontBit, Ends;
    BitSettled(bits, more);
    var p := FrontBit(bits);
    if p.Parsed? && p.value && j + 1 < nGroups {
      RankSettled(p.rest, nGroups, j + 1, more);
      var q := ParseRank(p.rest, nGroups, j + 1);
      if q.Parsed? {
        EndsEnds(bits, p.rest, q.rest);
      }
    }
  }

  lemma {:induction false} RanksSettled(bits: seq<bool>, n: nat, nGroups: nat, got: seq<nat>, more: seq<bool>)
    requires nGroups > 0 && |got| <= n && |got| <= MAX_SELECTORS && forall i :: 0 <= i < |got| ==> got[i] < nGroups
    ensures Settled(ParseRanks(bits, n, nGroups, got), ParseRanks(bits + more, n, nGroups, got), bits, more)
    decreases n - |got|
  {
    hide ParseRank, Ends;
    if |got| == n {
      EndsWhole(bits);
    } else {
      RankSettled(bits, nGroups, 0, more);
      var p := ParseRank(bits, nGroups, 0);
      if p.Parsed? && |got| < MAX_SELECTORS {
        RanksSettled(p.rest, n, nGroups, got + [p.value], more);
        var q := ParseRanks(p.rest, n, nGroups, got + [p.value]);
        if q.Parsed? {
          EndsEnds(bits, p.rest, q.rest);
        }
      }
    }
  }

  lemma SelectorsSettled(bits: seq<bool>, more: seq<bool>)
    ensures Settled(ParseSelectors(bits), ParseSelectors(bits + more), bits, more)
  {
    hide Front, ParseRanks, Unranked, Ends;
    FrontSettled(bits, 3, more);
    var a := Front(bits, 3);
    if a.Parsed? && 2 <= a.value <= 6 {
      FrontSettled(a.rest, 15, more);
      var b := Front(a.rest, 15);
      if b.Parsed? && b.value >= 1 {
        EndsEnds(bits, a.rest, b.rest);
        RanksSettled(b.rest, b.value, a.value, [], more);
        var c := ParseRanks(b.rest, b.value, a.value, []);
        if c.Parsed? {
          EndsEnds(bits, b.rest, c.rest);
        }
      }
    }
  }

  // ---------- tables ----------

  lemma {:induction false} DeltaSettled(bits: seq<bool>, curr: int, more: seq<bool>)
    ensures Settled(ParseDelta(bits, curr), ParseDelta(bits + more, curr), bits, more)
    decreases |bits|
  {
    hide FrontBit, Ends;
    if 1 <= curr <= 20 {
      BitSettled(bits, more);
      var p := FrontBit(bits);
      if p.Parsed? && p.value {
        BitSettled(p.rest, more);
        var q := FrontBit(p.rest);
        if q.Parsed? {
          EndsEnds(bits, p.rest, q.rest);
          var next := if q.value then curr - 1 else curr + 1;
          DeltaSettled(q.rest, next, more);
          var r := ParseDelta(q.rest, next);
          if r.Parsed? {
            EndsEnds(bits, q.rest, r.rest);
          }
        }
      }
    }
  }

  lemma {:induction false} LensSettled(bits: seq<bool>, alphaSize: nat, curr: int, got: seq<int>, more: seq<bool>)
    requires |got| <= alphaSize && LengthsOk(got)
    ensures Settled(ParseLens(bits, alphaSize, curr, got), ParseLens(bits + more, alphaSize, curr, got), bits, more)
    decreases alphaSize - |got|
  {
    hide ParseDelta, Ends;
    if |got| == alphaSize {
      EndsWhole(bits);
    } else {
      DeltaSettled(bits, curr, more);
      var p := ParseDelta(bits, curr);
      if p.Parsed? {
        LensSettled(p.rest, alphaSize, p.value, got + [p.value], more);
        var q := ParseLens(p.rest, alphaSize, p.value, got + [p.value]);
        if q.Parsed? {
          EndsEnds(bits, p.rest, q.rest);
        }
      }
    }
  }

  lemma TableSettled(bits: seq<bool>, alphaSize: nat, more: seq<bool>)
    ensures Settled(ParseTable(bits, alphaSize), ParseTable(bits + more, alphaSize), bits, more)
  {
    hide Front, ParseLens, Ends;
    FrontSettled(bits, 5, more);
    var p := Front(bits, 5);
    if p.Parsed? {
      LensSettled(p.rest, alphaSize, p.value, [], more);
      var q := ParseLens(p.rest, alphaSize, p.value, []);
      if q.Parsed? {
        EndsEnds(bits, p.rest, q.rest);
      }
    }
  }

  lemma {:induction false} TablesSettled(bits: seq<bool>, n: nat, alphaSize: nat, got: seq<seq<int>>, more: seq<bool>)
    requires |got| <= n && AllLengthsOk(got, alphaSize)
    ensures Settled(ParseTables(bits, n, alphaSize, got), ParseTables(bits + more, n, alphaSize, got), bits, more)
    decreases n - |got|
  {
    hide ParseTable, Ends, LengthsOk;
    if |got| == n {
      EndsWhole(bits);
    } else {
      TableSettled(bits, alphaSize, more);
      var p := ParseTable(bits, alphaSize);
      if p.Parsed? {
        TablesSettled(p.rest, n, alphaSize, got + [p.value], more);
        var q := ParseTables(p.rest, n, alphaSize, got + [p.value]);
        if q.Parsed? {
          EndsEnds(bits, p.rest, q.rest);
        }
      }
    }
  }

  // ---------- symbols ----------

  lemma {:induction false} DecodeSettled(len: seq<int>, bits: seq<bool>, n: nat, more: seq<bool>)
    ensures DecodeBy(len, bits, n).NeedMore? || DecodeBy(len, bits + more, n) == DecodeBy(len, bits, n)
    decreases 21 - n
  {
    hide Value, First, Cnt, Cum, SymbolAt;
    if n <= |bits| && n <= 20 {
      assert (bits + more)[..n] == bits[..n];
      DecodeSettled(len, bits, n + 1, more);
    }
  }

  /** The symbols that have been read stay, and so does a reason why there are no more of them. */
  lemma {:induction false} SymbolsSettled(bits: seq<bool>, lens: seq<seq<int>>, selector: seq<int>, eob: nat,
          syms: seq<nat>,
          more: seq<bool>)
    requires forall g :: 0 <= g < |selector| ==> 0 <= selector[g] < |lens|
    ensures var s, t := SymbolsOf(bits, lens, selector, eob, syms), SymbolsOf(bits + more, lens, selector, eob, syms);
      && syms <= s.syms <= t.syms
      && Settled(s.end, t.end, bits, more)
      && (s.end == Broken(NeedInput) || t.syms == s.syms)
    decreases GROUP_SIZE * |selector| - |syms|
  {
    hide DecodeBy, Ends;
    if |syms| / GROUP_SIZE < |selector| {
      var len := lens[selector[|syms| / GROUP_SIZE]];
      DecodeSettled(len, bits, 0, more);
      var d := DecodeBy(len, bits, 0);
      if d.Symbol? {
        DecodedUses(len, bits, 0);
        assert (bits + more)[d.used..] == bits[d.used..] + more;
        assert Ends(bits, bits[d.used..]) by {
          assert bits == bits[..d.used] + bits[d.used..];
          EndsAfter(bits[..d.used], bits[d.used..]);
        }
        if d.sym != eob {
          SymbolsSettled(bits[d.used..], lens, selector, eob, syms + [d.sym], more);
          var s := SymbolsOf(bits[d.used..], lens, selector, eob, syms + [d.sym]);
          if s.end.Parsed? {
            EndsEnds(bits, bits[d.used..], s.end.rest);
          }
        }
      } else {
        SymbolsGrow(bits + more, lens, selector, eob, syms);
      }
    }
  }

  lemma {:induction false} SymbolsGrow(bits: seq<bool>, lens: seq<seq<int>>, selector: seq<int>, eob: nat,
          syms: seq<nat>)
    requires forall g :: 0 <= g < |selector| ==> 0 <= selector[g] < |lens|
    ensures syms <= SymbolsOf(bits, lens, selector, eob, syms).syms
    decreases GROUP_SIZE * |selector| - |syms|
  {
    hide DecodeBy;
    if |syms| / GROUP_SIZE < |selector| {
      var d := DecodeBy(lens[selector[|syms| / GROUP_SIZE]], bits, 0);
      if d.Symbol? {
        DecodedUses(lens[selector[|syms| / GROUP_SIZE]], bits, 0);
        if d.sym != eob {
          SymbolsGrow(bits[d.used..], lens, selector, eob, syms + [d.sym]);
        }
      }
    }
  }

  lemma {:induction false} RunSettled(syms: seq<nat>, weight: nat, more: seq<nat>)
    ensures var r, t := ReadRun(syms, weight), ReadRun(syms + more, weight);
      match r
      case BadRun => t == r
      case ShortRun => true
      case Run(n, rest) => t == Run(n, rest + more)
    decreases |syms|
  {
    if syms != [] {
      assert (syms + more)[1..] == syms[1..] + more;
      RunSettled(syms[1..], 2 * weight, more);
    }
  }

  /** Symbols that fail fail whatever follows them, and nothing that follows end-of-block matters. */
  lemma {:induction false} ColumnDecodeSettled(syms: seq<nat>, yy: seq<int>, eob: nat, room: nat, more: seq<nat>)
    ensures Decode(syms, yy, eob, room).Short? || Decode(syms + more, yy, eob, room) == Decode(syms, yy, eob, room)
    decreases |syms|
  {
    hide MoveToFront, ReadRun;
    if syms != [] && syms[0] != eob {
      if syms[0] <= RUNB {
        RunShortens(syms, 1);
        RunSettled(syms, 1, more);
        var r := ReadRun(syms, 1);
        if r.Run? && r.len <= room && yy != [] {
          ColumnDecodeSettled(r.rest, yy, eob, room - r.len, more);
        }
      } else if room > 0 && syms[0] - 1 < |yy| {
        assert (syms + more)[1..] == syms[1..] + more;
        ColumnDecodeSettled(syms[1..], MoveToFront(yy, syms[0] - 1), eob, room - 1, more);
      }
    }
  }

  lemma IndicesSettled(bits: seq<bool>, lens: seq<seq<int>>, selector: seq<int>, eob: nat, room: nat, more: seq<bool>)
    requires Selects(selector, |lens|)
    ensures Settled(ParseIndices(bits, lens, selector, eob, room), ParseIndices(bits + more, lens, selector, eob, room), bits, more)
  {
    hide SymbolsOf, Decode, Ends;
    SymbolsSettled(bits, lens, selector, eob, [], more);
    var s, t := SymbolsOf(bits, lens, selector, eob, []), SymbolsOf(bits + more, lens, selector, eob, []);
    ColumnDecodeSettled(s.syms, Identity(256), eob, room, t.syms[|s.syms|..]);
    assert t.syms == s.syms + t.syms[|s.syms|..];
  }

  // ---------- a block ----------

  lemma ColumnSettled(bits: seq<bool>, blockSize100k: nat, more: seq<bool>)
    ensures Settled(ParseColumn(bits, blockSize100k), ParseColumn(bits + more, blockSize100k), bits, more)
  {
    hide ParseOpening, ParseSelectors, ParseTables, ParseIndices, UsedBelow, Names, Renamed, Ends;
    OpeningSettled(bits, blockSize100k, more);
    var a := ParseOpening(bits, blockSize100k);
    if a.Parsed? {
      SelectorsSettled(a.rest, more);
      var b := ParseSelectors(a.rest);
      if b.Parsed? {
        EndsEnds(bits, a.rest, b.rest);
        var n := UsedBelow(a.value.inUse, 256);
        TablesSettled(b.rest, b.value.nGroups, n + 2, [], more);
        var c := ParseTables(b.rest, b.value.nGroups, n + 2, []);
        if c.Parsed? {
          EndsEnds(bits, b.rest, c.rest);
          IndicesSettled(c.rest, c.value, b.value.selector, n + 1, 100000 * blockSize100k, more);
          var d := ParseIndices(c.rest, c.value, b.value.selector, n + 1, 100000 * blockSize100k);
          if d.Parsed? {
            EndsEnds(bits, c.rest, d.rest);
          }
        }
      }
    }
  }
}
