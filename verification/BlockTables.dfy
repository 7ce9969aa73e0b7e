/** What precedes a block's symbols in the bit stream: the bytes in use, the selectors and the code lengths. */
module BlockTables {
  import opened Arithmetic
  import opened BitStream
  import opened MtfCoding
  import opened Options
  import opened Parsing
  import opened SegmentedMtf

  // ---------- the bytes in use ----------

  function RowUsed(u: seq<bool>, r: nat): bool
    requires |u| == 256 && r < 16
  {
    true in u[16 * r..16 * r + 16]
  }

  function RowBits(u: seq<bool>, r: nat): seq<bool>
    requires |u| == 256 && r < 16
  {
    if RowUsed(u, r) then u[16 * r..16 * r + 16] else []
  }

  /** The rows of sixteen that have bytes in use, from row `r` on. */
  function RowsFrom(u: seq<bool>, r: nat): seq<bool>
    requires |u| == 256 && r <= 16
    decreases 16 - r
  {
    if r == 16 then [] else RowBits(u, r) + RowsFrom(u, r + 1)
  }

  function RowFlags(u: seq<bool>): seq<bool>
    requires |u| == 256
  {
    seq(16, r requires 0 <= r < 16 => RowUsed(u, r))
  }

  /** The mapping table: which rows are used, and the used ones. */
  function MappingBits(u: seq<bool>): seq<bool>
    requires |u| == 256
  {
    RowFlags(u) + RowsFrom(u, 0)
  }

  method SendMapping(w: BitWriter, inUse: array<bool>)
    requires w.Valid() && inUse.Length == 256
    modifies w
    ensures w.Valid() && w.Written() == old(w.Written()) + MappingBits(inUse[..])
  {
    hide BitWriter.Valid, BitWriter.Written, RowsFrom;
    ghost var u, was := inUse[..], w.Written();
    var inUse16 := new bool[16];
    var i := 0;
    while i < 16
      invariant 0 <= i <= 16 && forall r :: 0 <= r < i ==> inUse16[r] == RowUsed(u, r)
      modifies inUse16
    {
      inUse16[i] := false;
      var j := 0;
      while j < 16
        invariant 0 <= j <= 16 && inUse16[i] == (true in u[16 * i..16 * i + j])
        invariant forall r :: 0 <= r < i ==> inUse16[r] == RowUsed(u, r)
        modifies inUse16
      {
        assert u[16 * i..16 * i + j + 1] == u[16 * i..16 * i + j] + [u[16 * i + j]];
        if inUse[i * 16 + j] {
          inUse16[i] := true;
        }
        j := j + 1;
      }
      i := i + 1;
    }
    i := 0;
    while i < 16
      invariant 0 <= i <= 16 && w.Valid() && w.Written() == was + RowFlags(u)[..i]
      modifies w
    {
      SendBit(w, inUse16[i]);
      i := i + 1;
    }
    i := 0;
    assert w.Written() + RowsFrom(u, 0) == was + MappingBits(u);
    while i < 16
      invariant 0 <= i <= 16 && w.Valid() && w.Written() + RowsFrom(u, i) == was + MappingBits(u)
      modifies w
    {
      RowsStep(u, i);
      if inUse16[i] {
        SendRow(w, inUse, i);
      }
      i := i + 1;
    }
    RowsStep(u, 0);
    assert w.Written() + [] == w.Written();
  }

  lemma RowsStep(u: seq<bool>, r: nat)
    requires |u| == 256 && r < 16
    ensures RowsFrom(u, r) == RowBits(u, r) + RowsFrom(u, r + 1)
    ensures RowsFrom(u, 16) == []
  {
  }

  method SendRow(w: BitWriter, inUse: array<bool>, r: nat)
    requires w.Valid() && inUse.Length == 256 && r < 16
    modifies w
    ensures w.Valid() && w.Written() == old(w.Written()) + inUse[16 * r..16 * r + 16]
  {
    hide BitWriter.Valid, BitWriter.Written;
    var j := 0;
    while j < 16
      invariant 0 <= j <= 16 && w.Valid() && w.Written() == old(w.Written()) + inUse[16 * r..16 * r + j]
    {
      SendBit(w, inUse[r * 16 + j]);
      j := j + 1;
    }
  }

  // ---------- reading them ----------

  ghost function ParseFlags(bits: seq<bool>, n: nat): (p: Parsed<seq<bool>>)
    ensures Orderly(p, bits) && (p.Parsed? ==> |p.value| == n)
  {
    if |bits| < n then Broken(NeedInput) else Parsed(bits[..n], bits[n..])
  }

  /** The bytes in use in all rows, `u` being those of the rows before row `i`; only the rows that are flagged are sent. */
  ghost function ParseRows(bits: seq<bool>, flags: seq<bool>, i: nat, u: seq<bool>): (p: Parsed<seq<bool>>)
    requires i <= |flags|
    ensures Orderly(p, bits) && (p.Parsed? ==> |p.value| == |u| + 16 * (|flags| - i))
    decreases |flags| - i
  {
    if i == |flags| then Parsed(u, bits)
    else if !flags[i] then ParseRows(bits, flags, i + 1, u + Zeros(16))
    else
      var (row, rest) :- ParseFlags(bits, 16);
      ParseRows(rest, flags, i + 1, u + row)
  }

  ghost function ParseMapping(bits: seq<bool>): (p: Parsed<seq<bool>>)
    ensures Orderly(p, bits) && (p.Parsed? ==> |p.value| == 256)
  {
    var (flags, rest) :- ParseFlags(bits, 16);
    ParseRows(rest, flags, 0, [])
  }

  /** Reads `n` bits into an array. */
  method ReceiveBits(input: ChunkedInput, a: array<bool>, at: nat, n: nat) returns (r: Received<()>)
    requires input.Valid() && at + n <= a.Length
    modifies input, input.bits, a
    ensures input.Valid() && LeftWith(r, a[at..at + n], input.All()) == ParseFlags(old(input.All()), n)
    ensures forall k :: 0 <= k < a.Length && !(at <= k < at + n) ==> a[k] == old(a[k])
  {
    hide ChunkedInput.Valid, ChunkedInput.All;
    ghost var all := input.All();
    var i := 0;
    while i < n
      invariant 0 <= i <= n && i <= |all| && input.Valid() && input.All() == all[i..] && a[at..at + i] == all[..i]
      invariant forall k :: 0 <= k < a.Length && !(at <= k < at + n) ==> a[k] == old(a[k])
    {
      var b :- input.GetBit();
      a[at + i] := b;
      i := i + 1;
    }
    return Received(());
  }

  /** Reads the flags of row `i` if it is sent; otherwise its bytes stay out of use. */
  method ReceiveRow(input: ChunkedInput, inUse: array<bool>, i: nat, given: bool) returns (r: Received<()>)
    requires input.Valid() && inUse.Length == 256 && i < 16 && forall k :: 16 * i <= k < 256 ==> !inUse[k]
    modifies input, input.bits, inUse
    ensures input.Valid() && LeftWith(r, inUse[16 * i..16 * i + 16], input.All()) ==
      if given then ParseFlags(old(input.All()), 16) else Parsed(Zeros(16), old(input.All()))
    ensures inUse[..16 * i] == old(inUse[..16 * i]) && forall k :: 16 * i + 16 <= k < 256 ==> !inUse[k]
  {
    hide ChunkedInput.Valid, ChunkedInput.All, ParseFlags;
    r := Received(());
    if given {
      r := ReceiveBits(input, inUse, 16 * i, 16);
    } else {
      assert inUse[16 * i..16 * i + 16] == Zeros(16);
    }
  }

  /** Reads which bytes are in use. */
  method ReceiveMapping(input: ChunkedInput, inUse: array<bool>) returns (r: Received<()>)
    requires input.Valid() && inUse.Length == 256
    modifies input, input.bits, inUse
    ensures input.Valid() && LeftWith(r, inUse[..], input.All()) == ParseMapping(old(input.All()))
  {
    hide ChunkedInput.Valid, ChunkedInput.All, ParseFlags, ParseRows;
    var inUse16 := new bool[16];
    var _ :- ReceiveBits(input, inUse16, 0, 16);
    assert inUse16[0..16] == inUse16[..];
    ghost var flags, all := inUse16[..], ParseMapping(old(input.All()));
    ClearAll(inUse);
    var i := 0;
    assert inUse[..0] == [];
    while i < 16
      invariant 0 <= i <= 16 && input.Valid() && inUse16[..] == flags && forall k :: 16 * i <= k < 256 ==> !inUse[k]
      invariant all == ParseRows(input.All(), flags, i, inUse[..16 * i])
      modifies input, input.bits, inUse
    {
      ghost var was, bits := inUse[..16 * i], input.All();
      RowsParsed(bits, flags, i, was);
      assert inUse16[i] == flags[i];
      var _ :- ReceiveRow(input, inUse, i, inUse16[i]);
      assert inUse[..16 * (i + 1)] == was + inUse[16 * i..16 * i + 16];
      i := i + 1;
    }
    RowsDone(input.All(), flags, inUse[..256]);
    assert inUse[..256] == inUse[..];
    return Received(());
  }

  lemma RowsParsed(bits: seq<bool>, flags: seq<bool>, i: nat, u: seq<bool>)
    requires i < |flags|
    ensures ParseRows(bits, flags, i, u) ==
      if !flags[i] then ParseRows(bits, flags, i + 1, u + Zeros(16))
      else
        var p := ParseFlags(bits, 16);
        if p.Broken? then p else ParseRows(p.rest, flags, i + 1, u + p.value)
  {
  }

  lemma RowsDone(bits: seq<bool>, flags: seq<bool>, u: seq<bool>)
    ensures ParseRows(bits, flags, |flags|, u) == Parsed(u, bits)
  {
  }

  method ClearAll(a: array<bool>)
    modifies a
    ensures forall k :: 0 <= k < a.Length ==> !a[k]
  {
    var i := 0;
    while i < a.Length
      invariant 0 <= i <= a.Length && forall k :: 0 <= k < i ==> !a[k]
    {
      a[i] := false;
      i := i + 1;
    }
  }

  /** What was sent is read back, whatever follows. */
  lemma MappingBack(u: seq<bool>, rest: seq<bool>)
    requires |u| == 256
    ensures ParseMapping(MappingBits(u) + rest) == Parsed(u, rest)
  {
    hide RowsFrom, RowUsed, ParseRows;
    var bits := MappingBits(u) + rest;
    assert bits[..16] == RowFlags(u) && bits[16..] == RowsFrom(u, 0) + rest;
    assert u[..16 * 0] == [];
    RowsBack(u, 0, rest);
  }

  lemma {:induction false} RowsBack(u: seq<bool>, r: nat, rest: seq<bool>)
    requires |u| == 256 && r <= 16
    ensures ParseRows(RowsFrom(u, r) + rest, RowFlags(u), r, u[..16 * r]) == Parsed(u, rest)
    decreases 16 - r
  {
    hide RowsFrom, RowUsed, ParseRows;
    var bits := RowsFrom(u, r) + rest;
    if r == 16 {
      RowsStep(u, 0);
      assert bits == rest && u[..256] == u;
      RowsDone(bits, RowFlags(u), u);
    } else {
      var later := RowsFrom(u, r + 1) + rest;
      RowsStep(u, r);
      RowsParsed(bits, RowFlags(u), r, u[..16 * r]);
      RowSent(u, r);
      RowsBack(u, r + 1, rest);
      if RowUsed(u, r) {
        assert bits == RowBits(u, r) + later;
        assert bits[..16] == RowBits(u, r) && bits[16..] == later;
      } else {
        assert bits == later;
      }
    }
  }

  /** A row that is not sent has no byte in use. */
  lemma RowSent(u: seq<bool>, r: nat)
    requires |u| == 256 && r < 16
    ensures u[..16 * (r + 1)] == u[..16 * r] + (if RowUsed(u, r) then RowBits(u, r) else Zeros(16))
  {
    var row := u[16 * r..16 * r + 16];
    if !RowUsed(u, r) {
      forall k | 0 <= k < 16 ensures !row[k] {
        assert row[k] in row;
      }
      assert row == Zeros(16);
    }
    assert u[..16 * (r + 1)] == u[..16 * r] + row;
  }

  // ---------- selectors ----------

  /** Each selector as its place in the list of groups, which moves it to the front. */
  ghost function Ranks(sel: seq<int>, pos: seq<int>): (r: seq<nat>)
    requires Distinct(pos) && forall i :: 0 <= i < |sel| ==> sel[i] in pos
    ensures |r| == |sel|
    ensures forall i :: 0 <= i < |r| ==> r[i] < |pos|
    decreases |sel|
  {
    if sel == [] then []
    else
      var j := IndexOf(pos, sel[0]);
      MoveKeeps(pos, j);
      [j] + Ranks(sel[1..], MoveToFront(pos, j))
  }

  /** The groups that ranks stand for. */
  function Unranked(r: seq<nat>, pos: seq<int>): (sel: seq<int>)
    requires forall i :: 0 <= i < |r| ==> r[i] < |pos|
    ensures |sel| == |r|
    decreases |r|
  {
    if r == [] then [] else [pos[r[0]]] + Unranked(r[1..], MoveToFront(pos, r[0]))
  }

  lemma {:induction false} UnrankedRanks(sel: seq<int>, pos: seq<int>)
    requires Distinct(pos) && forall i :: 0 <= i < |sel| ==> sel[i] in pos
    ensures Unranked(Ranks(sel, pos), pos) == sel
    decreases |sel|
  {
    hide MoveToFront;
    if sel != [] {
      var j := IndexOf(pos, sel[0]);
      MoveKeeps(pos, j);
      UnrankedRanks(sel[1..], MoveToFront(pos, j));
      assert Ranks(sel, pos)[1..] == Ranks(sel[1..], MoveToFront(pos, j));
    }
  }

  /** Moves the entry `x` to the front of the list and tells where it was. */
  method RankOf(pos: array<int>, x: int) returns (j: nat)
    requires pos.Length > 0 && x in pos[..]
    modifies pos
    ensures j < pos.Length && old(pos[..])[j] == x && pos[..] == MoveToFront(old(pos[..]), j)
  {
    hide MoveToFront;
    ghost var s := pos[..];
    j := 0;
    var tmp := pos[0];
    while x != tmp
      invariant 0 <= j < pos.Length && tmp == s[j] && x in s[j..]
      invariant forall k :: 1 <= k <= j ==> pos[k] == s[k - 1]
      invariant forall k :: j < k < pos.Length ==> pos[k] == s[k]
      decreases pos.Length - j
    {
      j := j + 1;
      var tmp2 := tmp;
      tmp := pos[j];
      pos[j] := tmp2;
    }
    pos[0] := tmp;
    forall k | 0 <= k < pos.Length ensures pos[k] == MoveToFront(s, j)[k] {
      MovedUp(s, j, k);
    }
  }

  /** Moves entry `v` of the list to the front. */
  method AtRank(pos: array<int>, rank: nat) returns (x: int)
    requires rank < pos.Length
    modifies pos
    ensures x == old(pos[..])[rank] && pos[..] == MoveToFront(old(pos[..]), rank)
  {
    hide MoveToFront;
    ghost var s := pos[..];
    var v := rank;
    x := pos[v];
    while v > 0
      invariant 0 <= v <= rank
      invariant forall k :: v < k <= rank ==> pos[k] == s[k - 1]
      invariant forall k :: 0 <= k <= v || rank < k < pos.Length ==> pos[k] == s[k]
    {
      pos[v] := pos[v - 1];
      v := v - 1;
    }
    pos[0] := x;
    forall k | 0 <= k < pos.Length ensures pos[k] == MoveToFront(s, rank)[k] {
      MovedUp(s, rank, k);
    }
  }

  lemma GroupsInOrder(n: nat)
    ensures Distinct(Identity(n)) && forall x :: 0 <= x < n ==> x in Identity(n)
  {
    forall x | 0 <= x < n ensures x in Identity(n) {
      assert Identity(n)[x] == x;
    }
  }

  ghost predicate Selects(sel: seq<int>, nGroups: nat) {
    forall i :: 0 <= i < |sel| ==> 0 <= sel[i] < nGroups
  }

  ghost predicate RankableBy(sel: seq<int>, pos: seq<int>) {
    Distinct(pos) && forall i :: 0 <= i < |sel| ==> sel[i] in pos
  }

  /** How many selectors there is room for: one for every fifty of the symbols that a block can have. */
  const MAX_SELECTORS := 2 + 900000 / 50

  method RankSelectors(selector: array<int>, nSelectors: nat, nGroups: nat, selectorMtf: array<nat>)
    requires nGroups > 0 && nSelectors <= selector.Length && nSelectors <= selectorMtf.Length
    requires Selects(selector[..nSelectors], nGroups)
    modifies selectorMtf
    ensures RankableBy(selector[..nSelectors], Identity(nGroups))
    ensures selectorMtf[..nSelectors] == Ranks(selector[..nSelectors], Identity(nGroups))
  {
    hide Ranks, MoveToFront, Distinct;
    GroupsInOrder(nGroups);
    var pos := new int[nGroups];
    InitList(pos, nGroups);
    assert pos[..] == Identity(nGroups);
    ghost var sel := selector[..nSelectors];
    ghost var all := Ranks(sel, Identity(nGroups));
    var i := 0;
    assert sel[0..] == sel;
    while i < nSelectors
      invariant 0 <= i <= nSelectors && RankableBy(sel[i..], pos[..])
      invariant selectorMtf[..i] + Ranks(sel[i..], pos[..]) == all
    {
      ghost var p, was := pos[..], selectorMtf[..i];
      RanksStep(sel, i, p);
      assert sel[i..][0] in p;
      var j := RankOf(pos, selector[i]);
      SamePosition(p, IndexOf(p, sel[i]), j);
      selectorMtf[i] := j;
      assert selectorMtf[..i + 1] == was + [j];
      i := i + 1;
    }
    RanksEnd(sel, pos[..]);
  }

  lemma SamePosition(p: seq<int>, i: nat, j: nat)
    requires Distinct(p) && i < |p| && j < |p| && p[i] == p[j]
    ensures i == j
  {
  }

  lemma RanksStep(sel: seq<int>, i: nat, pos: seq<int>)
    requires i < |sel| && RankableBy(sel[i..], pos)
    ensures sel[i] in pos
    ensures var p := MoveToFront(pos, IndexOf(pos, sel[i]));
      RankableBy(sel[i + 1..], p) && Ranks(sel[i..], pos) == [IndexOf(pos, sel[i])] + Ranks(sel[i + 1..], p)
  {
    hide MoveToFront;
    assert sel[i..][0] == sel[i] && sel[i..][1..] == sel[i + 1..];
    MoveKeeps(pos, IndexOf(pos, sel[i]));
  }

  lemma RanksEnd(sel: seq<int>, pos: seq<int>)
    requires RankableBy(sel[|sel|..], pos)
    ensures Ranks(sel[|sel|..], pos) == []
  {
  }

  /** Turns ranks back into groups. */
  method UnrankSelectors(selectorMtf: array<nat>, selector: array<int>, nSelectors: nat, nGroups: nat)
    requires nGroups > 0 && nSelectors <= selectorMtf.Length && nSelectors <= selector.Length
    requires forall i :: 0 <= i < nSelectors ==> selectorMtf[i] < nGroups
    modifies selector
    ensures selector[..nSelectors] == Unranked(selectorMtf[..nSelectors], Identity(nGroups))
  {
    hide Unranked, MoveToFront;
    var pos := new int[nGroups];
    InitList(pos, nGroups);
    assert pos[..] == Identity(nGroups);
    ghost var ranks := selectorMtf[..nSelectors];
    var i := 0;
    assert ranks[0..] == ranks;
    while i < nSelectors
      invariant 0 <= i <= nSelectors
      invariant selector[..i] + Unranked(ranks[i..], pos[..]) == Unranked(ranks, Identity(nGroups))
    {
      ghost var was := selector[..i];
      UnrankedStep(ranks, i, pos[..]);
      var x := AtRank(pos, selectorMtf[i]);
      selector[i] := x;
      assert selector[..i + 1] == was + [x];
      i := i + 1;
    }
    UnrankedEnd(ranks, pos[..]);
  }

  lemma UnrankedStep(r: seq<nat>, i: nat, pos: seq<int>)
    requires i < |r| && forall i :: 0 <= i < |r| ==> r[i] < |pos|
    ensures Unranked(r[i..], pos) == [pos[r[i]]] + Unranked(r[i + 1..], MoveToFront(pos, r[i]))
  {
    assert r[i..][0] == r[i] && r[i..][1..] == r[i + 1..];
  }

  lemma UnrankedEnd(r: seq<nat>, pos: seq<int>)
    ensures r[|r|..] == [] && Unranked([], pos) == []
  {
  }

  /** Ranks in unary: that many ones and a zero. */
  function UnaryBits(r: seq<nat>): seq<bool> {
    if r == [] then [] else seq(r[0], _ => true) + [false] + UnaryBits(r[1..])
  }

  lemma UnaryStep(r: seq<nat>, i: nat)
    requires i < |r|
    ensures UnaryBits(r[i..]) == seq(r[i], _ => true) + [false] + UnaryBits(r[i + 1..])
    ensures UnaryBits(r[|r|..]) == []
  {
    assert r[i..][0] == r[i] && r[i..][1..] == r[i + 1..];
  }

  method SendRanks(w: BitWriter, selectorMtf: array<nat>, nSelectors: nat)
    requires w.Valid() && nSelectors <= selectorMtf.Length
    modifies w
    ensures w.Valid() && w.Written() == old(w.Written()) + UnaryBits(selectorMtf[..nSelectors])
  {
    hide BitWriter.Valid, BitWriter.Written, UnaryBits;
    ghost var was, r := w.Written(), selectorMtf[..nSelectors];
    var i := 0;
    assert r[0..] == r;
    while i < nSelectors
      invariant 0 <= i <= nSelectors && w.Valid() && w.Written() + UnaryBits(r[i..]) == was + UnaryBits(r)
    {
      ghost var before := w.Written();
      UnaryStep(r, i);
      var j := 0;
      while j < selectorMtf[i]
        invariant 0 <= j <= r[i] && w.Valid() && w.Written() == before + seq(j, _ => true)
      {
        SendBit(w, true);
        j := j + 1;
      }
      SendBit(w, false);
      assert w.Written() == before + (seq(r[i], _ => true) + [false]);
      i := i + 1;
    }
    NoRanks(r);
    assert w.Written() + [] == w.Written();
  }

  lemma NoRanks(r: seq<nat>)
    ensures UnaryBits(r[|r|..]) == []
  {
  }

  // ---------- reading them ----------

  /** A rank below the number of groups, `j` ones of it having been read. */
  ghost function ParseRank(bits: seq<bool>, nGroups: nat, j: nat): (p: Parsed<nat>)
    requires j < nGroups
    ensures Orderly(p, bits) && (p.Parsed? ==> p.value < nGroups)
    decreases nGroups - j
  {
    var (more, rest) :- FrontBit(bits);
    if !more then Parsed(j, rest)
    else if j + 1 >= nGroups then Broken(DataError)
    else ParseRank(rest, nGroups, j + 1)
  }

  /** The `n` ranks that are announced, `got` having been read: there is no place for one past the end of the array. */
  ghost function ParseRanks(bits: seq<bool>, n: nat, nGroups: nat, got: seq<nat>): (p: Parsed<seq<nat>>)
    requires nGroups > 0 && |got| <= n && |got| <= MAX_SELECTORS && forall i :: 0 <= i < |got| ==> got[i] < nGroups
    ensures p.Parsed? ==> |p.rest| <= |bits| && |p.value| == n <= MAX_SELECTORS && forall i :: 0 <= i < n ==> p.value[i] < nGroups
    ensures p.Broken? ==> p.why == Overrun || Orderly(p, bits)
    decreases n - |got|
  {
    if |got| == n then Parsed(got, bits)
    else
      var (j, rest) :- ParseRank(bits, nGroups, 0);
      if |got| == MAX_SELECTORS then Broken(Overrun) else ParseRanks(rest, n, nGroups, got + [j])
  }

  /** How many ranks can be read one after the other, up to `n`. */
  ghost function ReadableRanks(bits: seq<bool>, n: nat, nGroups: nat): (k: nat)
    requires nGroups > 0
    ensures k <= n
    decreases n
  {
    if n == 0 then 0
    else
      match ParseRank(bits, nGroups, 0)
      case Broken(_) => 0
      case Parsed(_, rest) => 1 + ReadableRanks(rest, n - 1, nGroups)
  }

  /** Reading the ranks leads past the end of the array exactly when more of them are announced and readable than it holds. */
  lemma RanksOverrunExactly(bits: seq<bool>, n: nat, nGroups: nat)
    requires nGroups > 0
    ensures ParseRanks(bits, n, nGroups, []) == Broken(Overrun) <==> ReadableRanks(bits, n, nGroups) > MAX_SELECTORS
    ensures n <= MAX_SELECTORS ==> ParseRanks(bits, n, nGroups, []) != Broken(Overrun)
  {
    RanksOverrunFrom(bits, n, nGroups, []);
  }

  lemma {:induction false} RanksOverrunFrom(bits: seq<bool>, n: nat, nGroups: nat, got: seq<nat>)
    requires nGroups > 0 && |got| <= n && |got| <= MAX_SELECTORS && forall i :: 0 <= i < |got| ==> got[i] < nGroups
    ensures ParseRanks(bits, n, nGroups, got) == Broken(Overrun) <==> |got| + ReadableRanks(bits, n - |got|, nGroups) > MAX_SELECTORS
    decreases n - |got|
  {
    hide ParseRank;
    if |got| < n && |got| < MAX_SELECTORS {
      var p := ParseRank(bits, nGroups, 0);
      if p.Parsed? {
        RanksOverrunFrom(p.rest, n, nGroups, got + [p.value]);
      }
    }
  }

  /** A zero bit is a rank, so that many zeros are that many ranks. */
  lemma {:induction false} ZerosReadable(n: nat, nGroups: nat, rest: seq<bool>)
    requires nGroups > 0
    ensures ReadableRanks(Zeros(n) + rest, n, nGroups) == n
  {
    if n > 0 {
      ZerosReadable(n - 1, nGroups, rest);
      assert (Zeros(n) + rest)[1..] == Zeros(n - 1) + rest;
    }
  }

  lemma RanksParsed(bits: seq<bool>, n: nat, nGroups: nat, got: seq<nat>)
    requires nGroups > 0 && |got| <= n && |got| <= MAX_SELECTORS && forall i :: 0 <= i < |got| ==> got[i] < nGroups
    ensures |got| == n ==> ParseRanks(bits, n, nGroups, got) == Parsed(got, bits)
    ensures |got| < n ==>
      var p := ParseRank(bits, nGroups, 0);
      ParseRanks(bits, n, nGroups, got) ==
        if p.Broken? then Broken(p.why)
        else if |got| == MAX_SELECTORS then Broken(Overrun)
        else ParseRanks(p.rest, n, nGroups, got + [p.value])
  {
  }

  /** Reads ranks below the number of groups into an array, stopping where the array ends. */
  method ReceiveRanks(input: ChunkedInput, selectorMtf: array<nat>, n: nat, nGroups: nat) returns (r: Received<()>)
    requires input.Valid() && nGroups > 0 && selectorMtf.Length == MAX_SELECTORS
    modifies input, input.bits, selectorMtf
    ensures input.Valid() && (r.Received? ==> n <= MAX_SELECTORS)
    ensures LeftWith(r, if n <= MAX_SELECTORS then selectorMtf[..n] else [], input.All()) == ParseRanks(old(input.All()), n, nGroups, [])
  {
    hide ChunkedInput.Valid, ChunkedInput.All, ParseRank, ParseRanks;
    var i := 0;
    assert selectorMtf[..0] == [];
    while i < n
      invariant 0 <= i <= n && i <= MAX_SELECTORS && input.Valid() && forall k :: 0 <= k < i ==> selectorMtf[k] < nGroups
      invariant ParseRanks(old(input.All()), n, nGroups, []) == ParseRanks(input.All(), n, nGroups, selectorMtf[..i])
    {
      ghost var got := selectorMtf[..i];
      RanksParsed(input.All(), n, nGroups, got);
      var j :- ReceiveRank(input, nGroups);
      if i >= selectorMtf.Length {
        return Stopped(Overrun);
      }
      selectorMtf[i] := j;
      assert selectorMtf[..i + 1] == got + [j];
      i := i + 1;
    }
    RanksParsed(input.All(), n, nGroups, selectorMtf[..n]);
    return Received(());
  }

  method ReceiveRank(input: ChunkedInput, nGroups: nat) returns (r: Received<nat>)
    requires input.Valid() && nGroups > 0
    modifies input, input.bits
    ensures input.Valid() && Left(r, input.All()) == ParseRank(old(input.All()), nGroups, 0)
    ensures r.Received? ==> r.value < nGroups
  {
    hide ChunkedInput.Valid, ChunkedInput.All;
    var j := 0;
    while true
      invariant input.Valid() && j < nGroups
      invariant ParseRank(old(input.All()), nGroups, 0) == ParseRank(input.All(), nGroups, j)
      decreases nGroups - j
    {
      var more :- input.GetBit();
      if !more {
        return Received(j);
      }
      j := j + 1;
      if j >= nGroups {
        return Stopped(DataError);
      }
    }
  }

  lemma {:induction false} RankBack(r: nat, j: nat, nGroups: nat, rest: seq<bool>)
    requires j <= r < nGroups
    ensures ParseRank(seq(r - j, _ => true) + [false] + rest, nGroups, j) == Parsed(r, rest)
    decreases r - j
  {
    var bits := seq(r - j, _ => true) + [false] + rest;
    if j < r {
      assert bits[1..] == seq(r - j - 1, _ => true) + [false] + rest;
      RankBack(r, j + 1, nGroups, rest);
    } else {
      assert bits[1..] == rest;
    }
  }

  /** Ranks that were sent are read back, if there are no more of them than the array holds. */
  lemma {:induction false} RanksBack(r: seq<nat>, i: nat, nGroups: nat, rest: seq<bool>)
    requires nGroups > 0 && i <= |r| <= MAX_SELECTORS && forall k :: 0 <= k < |r| ==> r[k] < nGroups
    ensures ParseRanks(UnaryBits(r[i..]) + rest, |r|, nGroups, r[..i]) == Parsed(r, rest)
    decreases |r| - i
  {
    hide UnaryBits, ParseRank, ParseRanks;
    var bits := UnaryBits(r[i..]) + rest;
    RanksParsed(bits, |r|, nGroups, r[..i]);
    if i == |r| {
      NoRanks(r);
      assert bits == rest && r[..i] == r;
    } else {
      var later := UnaryBits(r[i + 1..]) + rest;
      UnaryStep(r, i);
      assert bits == seq(r[i] - 0, _ => true) + [false] + later;
      RankBack(r[i], 0, nGroups, later);
      assert r[..i] + [r[i]] == r[..i + 1];
      RanksBack(r, i + 1, nGroups, rest);
    }
  }

  // ---------- code lengths ----------

  /** From one length to the next: up by one, down by one, or the end. */
  function DeltaBits(curr: int, len: int): seq<bool>
    decreases if curr < len then len - curr else curr - len
  {
    if curr < len then [true, false] + DeltaBits(curr + 1, len)
    else if curr > len then [true, true] + DeltaBits(curr - 1, len)
    else [false]
  }

  function LensBits(curr: int, lens: seq<int>): seq<bool>
    decreases |lens|
  {
    if lens == [] then [] else DeltaBits(curr, lens[0]) + LensBits(lens[0], lens[1..])
  }

  /** A table of code lengths: the first one in five bits, then the differences. */
  function TableBits(lens: seq<int>): seq<bool>
    requires lens != [] && lens[0] >= 0
  {
    Bits(lens[0], 5) + LensBits(lens[0], lens)
  }

  ghost predicate LengthsOk(lens: seq<int>) {
    forall i :: 0 <= i < |lens| ==> 1 <= lens[i] <= 20
  }

  /** The length before `lens[i]`; before the first one, the first itself. */
  function Previous(lens: seq<int>, i: nat): int
    requires i <= |lens| && lens != []
  {
    if i == 0 then lens[0] else lens[i - 1]
  }

  lemma LensStep(lens: seq<int>, i: nat)
    requires i < |lens|
    ensures LensBits(Previous(lens, i), lens[i..]) == DeltaBits(Previous(lens, i), lens[i]) + LensBits(Previous(lens, i + 1), lens[i + 1..])
  {
    assert lens[i..][0] == lens[i] && lens[i..][1..] == lens[i + 1..];
  }

  lemma LensEnd(lens: seq<int>)
    requires lens != []
    ensures LensBits(Previous(lens, |lens|), lens[|lens|..]) == []
    ensures lens[0..] == lens
  {
  }

  lemma DeltaStep(curr: int, len: int)
    ensures curr < len ==> DeltaBits(curr, len) == [true, false] + DeltaBits(curr + 1, len)
    ensures curr > len ==> DeltaBits(curr, len) == [true, true] + DeltaBits(curr - 1, len)
    ensures curr == len ==> DeltaBits(curr, len) == [false]
  {
  }

  lemma TwoBits()
    ensures Bits(2, 2) == [true, false] && Bits(3, 2) == [true, true] && Pow2(2) == 4 && Pow2(5) == 32
  {
    assert Bits(1, 1) == Bits(0, 0) + [true];
    assert Pow2(3) == 8;
  }

  method SendDelta(w: BitWriter, from: int, len: int)
    requires w.Valid()
    modifies w
    ensures w.Valid() && w.Written() == old(w.Written()) + DeltaBits(from, len)
  {
    hide BitWriter.Valid, BitWriter.Written, DeltaBits, Bits, Pow2;
    ghost var was := w.Written();
    var curr := from;
    TwoBits();
    while curr < len
      invariant w.Valid() && (curr <= len || curr == from)
      invariant w.Written() + DeltaBits(curr, len) == was + DeltaBits(from, len)
      decreases len - curr
    {
      DeltaStep(curr, len);
      assert w.Written() + ([true, false] + DeltaBits(curr + 1, len)) == w.Written() + [true, false] + DeltaBits(curr + 1, len);
      w.BsW(2, 2);
      curr := curr + 1;
    }
    while curr > len
      invariant w.Valid() && curr >= len && w.Written() + DeltaBits(curr, len) == was + DeltaBits(from, len)
      decreases curr - len
    {
      DeltaStep(curr, len);
      assert w.Written() + ([true, true] + DeltaBits(curr - 1, len)) == w.Written() + [true, true] + DeltaBits(curr - 1, len);
      w.BsW(2, 3);
      curr := curr - 1;
    }
    DeltaStep(curr, len);
    SendBit(w, false);
  }

  method SendTable(w: BitWriter, lens: seq<int>)
    requires w.Valid() && lens != [] && LengthsOk(lens)
    modifies w
    ensures w.Valid() && w.Written() == old(w.Written()) + TableBits(lens)
  {
    hide BitWriter.Valid, BitWriter.Written, DeltaBits, LensBits, Bits, Pow2;
    ghost var was := w.Written();
    TwoBits();
    LensEnd(lens);
    w.BsW(5, lens[0]);
    var i := 0;
    while i < |lens|
      invariant 0 <= i <= |lens| && w.Valid()
      invariant w.Written() + LensBits(Previous(lens, i), lens[i..]) == was + TableBits(lens)
    {
      ghost var before, later := w.Written(), LensBits(Previous(lens, i + 1), lens[i + 1..]);
      LensStep(lens, i);
      SendDelta(w, Previous(lens, i), lens[i]);
      assert before + (DeltaBits(Previous(lens, i), lens[i]) + later) == before + DeltaBits(Previous(lens, i), lens[i]) + later;
      i := i + 1;
    }
    assert w.Written() + [] == w.Written();
  }

  // ---------- reading them ----------

  /** The length that the differences lead to from `curr`; on the way it has to stay in range. */
  ghost function ParseDelta(bits: seq<bool>, curr: int): (p: Parsed<int>)
    ensures Orderly(p, bits) && (p.Parsed? ==> 1 <= p.value <= 20)
    decreases |bits|
  {
    if curr < 1 || curr > 20 then Broken(DataError)
    else
      var (more, rest) :- FrontBit(bits);
      if !more then Parsed(curr, rest)
      else
        var (down, later) :- FrontBit(rest);
        ParseDelta(later, if down then curr - 1 else curr + 1)
  }

  /** Lengths one after the other, `got` having been read. */
  ghost function ParseLens(bits: seq<bool>, alphaSize: nat, curr: int, got: seq<int>): (p: Parsed<seq<int>>)
    requires |got| <= alphaSize && LengthsOk(got)
    ensures Orderly(p, bits) && (p.Parsed? ==> |p.value| == alphaSize && LengthsOk(p.value))
    decreases alphaSize - |got|
  {
    if |got| == alphaSize then Parsed(got, bits)
    else
      var (len, rest) :- ParseDelta(bits, curr);
      ParseLens(rest, alphaSize, len, got + [len])
  }

  ghost function ParseTable(bits: seq<bool>, alphaSize: nat): (p: Parsed<seq<int>>)
    ensures Orderly(p, bits) && (p.Parsed? ==> |p.value| == alphaSize && LengthsOk(p.value))
  {
    var (first, rest) :- Front(bits, 5);
    ParseLens(rest, alphaSize, first, [])
  }

  /** Reads differences up to the end of one length. */
  method ReceiveDelta(input: ChunkedInput, from: int) returns (r: Received<int>)
    requires input.Valid()
    modifies input, input.bits
    ensures input.Valid() && Left(r, input.All()) == ParseDelta(old(input.All()), from)
    ensures r.Received? ==> 1 <= r.value <= 20
  {
    hide ChunkedInput.Valid, ChunkedInput.All;
    var curr := from;
    while true
      invariant input.Valid() && ParseDelta(old(input.All()), from) == ParseDelta(input.All(), curr)
      decreases |input.All()|
    {
      if curr < 1 || curr > 20 {
        return Stopped(DataError);
      }
      var more :- input.GetBit();
      if !more {
        return Received(curr);
      }
      var down :- input.GetBit();
      curr := if down then curr - 1 else curr + 1;
    }
  }

  method ReceiveTable(input: ChunkedInput, alphaSize: nat) returns (r: Received<seq<int>>)
    requires input.Valid()
    modifies input, input.bits
    ensures input.Valid() && Left(r, input.All()) == ParseTable(old(input.All()), alphaSize)
    ensures r.Received? ==> |r.value| == alphaSize && LengthsOk(r.value)
  {
    hide ChunkedInput.Valid, ChunkedInput.All, ParseDelta, Front;
    ghost var all := ParseTable(input.All(), alphaSize);
    var first :- input.Get(5);
    var curr: int, got := first, [];
    while |got| < alphaSize
      invariant |got| <= alphaSize && input.Valid() && LengthsOk(got)
      invariant all == ParseLens(input.All(), alphaSize, curr, got)
    {
      curr :- ReceiveDelta(input, curr);
      got := got + [curr];
    }
    return Received(got);
  }

  lemma {:induction false} DeltaBack(curr: int, len: int, rest: seq<bool>)
    requires 1 <= curr <= 20 && 1 <= len <= 20
    ensures ParseDelta(DeltaBits(curr, len) + rest, curr) == Parsed(len, rest)
    decreases if curr < len then len - curr else curr - len
  {
    hide DeltaBits;
    DeltaStep(curr, len);
    var bits := DeltaBits(curr, len) + rest;
    if curr == len {
      assert bits[1..] == rest;
    } else {
      var next := if curr < len then curr + 1 else curr - 1;
      assert bits[1..][1..] == DeltaBits(next, len) + rest;
      DeltaBack(next, len, rest);
    }
  }

  lemma {:induction false} LensBack(lens: seq<int>, i: nat, rest: seq<bool>)
    requires i <= |lens| && lens != [] && LengthsOk(lens)
    ensures ParseLens(LensBits(Previous(lens, i), lens[i..]) + rest, |lens|, Previous(lens, i), lens[..i]) == Parsed(lens, rest)
    decreases |lens| - i
  {
    hide LensBits, DeltaBits, ParseDelta;
    var bits := LensBits(Previous(lens, i), lens[i..]) + rest;
    if i == |lens| {
      LensEnd(lens);
      assert bits == rest && lens[..i] == lens;
    } else {
      var later := LensBits(Previous(lens, i + 1), lens[i + 1..]) + rest;
      LensStep(lens, i);
      assert bits == DeltaBits(Previous(lens, i), lens[i]) + later;
      DeltaBack(Previous(lens, i), lens[i], later);
      assert lens[..i] + [lens[i]] == lens[..i + 1];
      LensBack(lens, i + 1, rest);
    }
  }

  /** A table that was sent is read back, whatever follows. */
  lemma TableBack(lens: seq<int>, rest: seq<bool>)
    requires lens != [] && LengthsOk(lens)
    ensures ParseTable(TableBits(lens) + rest, |lens|) == Parsed(lens, rest)
  {
    hide LensBits, Bits, Front, Pow2;
    LensEnd(lens);
    TwoBits();
    var later := LensBits(lens[0], lens) + rest;
    assert TableBits(lens) + rest == Bits(lens[0], 5) + later;
    FrontBack(lens[0], 5, later);
    assert lens[..0] == [];
    LensBack(lens, 0, rest);
  }
}
