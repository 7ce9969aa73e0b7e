/** Canonical Huffman codes: assigning them from the lengths, and decoding them with limit/base/perm tables. */
module HuffmanCodes {
  import opened Arithmetic
  import opened BitStream
  import opened HuffmanForest
  import opened HuffmanLengths

  const MAX_CODE_LEN := 23

  // ---------- the canonical code ----------

  /** How many of the first `k` symbols have a code of `n` bits. */
  function Cnt(len: seq<int>, n: int, k: nat): nat
    requires k <= |len|
  {
    if k == 0 then 0 else Cnt(len, n, k - 1) + (if len[k - 1] == n then 1 else 0)
  }

  /** The first code of `n` bits. */
  function First(len: seq<int>, n: nat): nat {
    if n == 0 then 0 else 2 * (First(len, n - 1) + Cnt(len, n - 1, |len|))
  }

  /** The code of symbol `i`: codes of one length are consecutive, in symbol order. */
  function Code(len: seq<int>, i: nat): nat
    requires i < |len| && len[i] >= 0
  {
    First(len, len[i]) + Cnt(len, len[i], i)
  }

  /** How many symbols have a code shorter than `n` bits. */
  function Cum(len: seq<int>, n: nat): nat {
    if n == 0 then 0 else Cum(len, n - 1) + Cnt(len, n - 1, |len|)
  }

  /** The symbol's place when symbols are ordered by code length. */
  function Slot(len: seq<int>, i: nat): nat
    requires i < |len| && len[i] >= 0
  {
    Cum(len, len[i]) + Cnt(len, len[i], i)
  }

  ghost predicate LengthsIn(len: seq<int>, lo: int, hi: int) {
    forall i :: 0 <= i < |len| ==> lo <= len[i] <= hi
  }

  lemma {:induction false} CntGrows(len: seq<int>, n: int, i: nat, k: nat)
    requires i <= k <= |len|
    ensures Cnt(len, n, i) <= Cnt(len, n, k)
    ensures i < k && len[i] == n ==> Cnt(len, n, i) < Cnt(len, n, k)
    decreases k
  {
    if i < k {
      CntGrows(len, n, i, k - 1);
    }
  }

  lemma {:induction false} NoneShorter(len: seq<int>, lo: nat, hi: int, n: nat)
    requires LengthsIn(len, lo, hi) && n <= lo
    ensures First(len, n) == 0 && Cum(len, n) == 0
    decreases n
  {
    if n > 0 {
      NoneShorter(len, lo, hi, n - 1);
      NoneOf(len, n - 1, |len|);
    }
  }

  lemma {:induction false} NoneOf(len: seq<int>, n: int, k: nat)
    requires k <= |len| && forall i :: 0 <= i < k ==> len[i] != n
    ensures Cnt(len, n, k) == 0
  {
    if k > 0 {
      NoneOf(len, n, k - 1);
    }
  }

  lemma {:induction false} CumBound(len: seq<int>, n: nat, k: nat)
    requires k <= |len|
    ensures CumTo(len, n, k) <= k
    decreases k
  {
    if k > 0 {
      CumBound(len, n, k - 1);
    }
  }

  ghost function CumTo(len: seq<int>, n: nat, k: nat): nat
    requires k <= |len|
  {
    if k == 0 then 0 else CumTo(len, n, k - 1) + (if 0 <= len[k - 1] < n then 1 else 0)
  }

  lemma {:induction false} CumToStep(len: seq<int>, n: nat, k: nat)
    requires k <= |len|
    ensures CumTo(len, n + 1, k) == CumTo(len, n, k) + Cnt(len, n, k)
    ensures n == 0 ==> CumTo(len, n, k) == 0
    decreases k
  {
    if k > 0 {
      CumToStep(len, n, k - 1);
    }
  }

  lemma {:induction false} CumIsTo(len: seq<int>, n: nat)
    ensures Cum(len, n) == CumTo(len, n, |len|) <= |len|
    decreases n
  {
    CumBound(len, n, |len|);
    if n > 0 {
      CumIsTo(len, n - 1);
      CumToStep(len, n - 1, |len|);
    } else {
      CumToStep(len, 0, |len|);
    }
  }

  /** Slots stay below the alphabet size. */
  lemma SlotBound(len: seq<int>, i: nat)
    requires i < |len| && len[i] >= 0
    ensures Slot(len, i) < |len|
  {
    CumIsTo(len, len[i] + 1);
    CntGrows(len, len[i], i, |len|);
  }

  lemma {:induction false} CumMonotone(len: seq<int>, n: nat, m: nat)
    requires n <= m
    ensures Cum(len, n) <= Cum(len, m)
    decreases m
  {
    if n < m {
      CumMonotone(len, n, m - 1);
    }
  }

  lemma SlotsDistinct(len: seq<int>, i: nat, j: nat)
    requires i < |len| && j < |len| && i != j && len[i] >= 0 && len[j] >= 0
    ensures Slot(len, i) != Slot(len, j)
  {
    hide Cum, Cnt;
    if len[i] == len[j] {
      if i < j {
        CntGrows(len, len[i], i, j);
      } else {
        CntGrows(len, len[i], j, i);
      }
    } else if len[i] < len[j] {
      ShorterFirst(len, i, len[j]);
    } else {
      ShorterFirst(len, j, len[i]);
    }
  }

  lemma ShorterFirst(len: seq<int>, i: nat, n: nat)
    requires i < |len| && 0 <= len[i] < n
    ensures Slot(len, i) < Cum(len, n)
  {
    CntGrows(len, len[i], i, |len|);
    CumMonotone(len, len[i] + 1, n);
  }

  // ---------- assigning codes ----------

  method AssignCodes(code: array<int>, length: array<int>, minLen: nat, maxLen: nat, alphaSize: nat)
    requires code != length && alphaSize <= code.Length && alphaSize <= length.Length
    requires LengthsIn(length[..alphaSize], minLen, maxLen)
    modifies code
    ensures forall i :: 0 <= i < alphaSize ==> code[i] == Code(length[..alphaSize], i)
  {
    hide First, Cnt;
    ghost var len := length[..alphaSize];
    var vec, n := 0, minLen;
    NoneShorter(len, minLen, maxLen, minLen);
    while n <= maxLen
      invariant minLen <= n && (n <= maxLen + 1 || n == minLen)
      invariant vec == First(len, n)
      invariant forall i :: 0 <= i < alphaSize && len[i] < n ==> code[i] == Code(len, i)
    {
      var i := 0;
      CntStart(len, n);
      while i < alphaSize
        invariant 0 <= i <= alphaSize && vec == First(len, n) + Cnt(len, n, i)
        invariant forall k :: 0 <= k < alphaSize && len[k] < n ==> code[k] == Code(len, k)
        invariant forall k :: 0 <= k < i && len[k] == n ==> code[k] == Code(len, k)
      {
        CntStep(len, n, i);
        if length[i] == n {
          code[i] := vec;
          vec := vec + 1;
        }
        i := i + 1;
      }
      FirstStep(len, n);
      vec := vec * 2;
      n := n + 1;
    }
  }

  lemma CntStart(len: seq<int>, n: int)
    ensures Cnt(len, n, 0) == 0
  {
  }

  lemma CntStep(len: seq<int>, n: int, k: nat)
    requires k < |len|
    ensures Cnt(len, n, k + 1) == Cnt(len, n, k) + (if len[k] == n then 1 else 0)
  {
  }

  lemma FirstStep(len: seq<int>, n: nat)
    ensures First(len, n + 1) == 2 * (First(len, n) + Cnt(len, n, |len|))
    ensures Cum(len, n + 1) == Cum(len, n) + Cnt(len, n, |len|)
  {
  }

  // ---------- the decoder's tables ----------

  /** What the tables hold: the last code of each length, the offset from codes to slots, the symbol in each slot. */
  ghost predicate TablesFor(len: seq<int>, minLen: nat, maxLen: nat, limit: seq<int>, base: seq<int>, perm: seq<int>) {
    && LengthsIn(len, minLen, maxLen) && |perm| >= |len| && maxLen < |limit| && maxLen < |base|
    && (forall n :: minLen <= n <= maxLen ==> limit[n] == First(len, n) + Cnt(len, n, |len|) - 1)
    && (forall n :: minLen <= n <= maxLen ==> base[n] == First(len, n) - Cum(len, n))
    && (forall i :: 0 <= i < |len| ==> Slot(len, i) < |len| && perm[Slot(len, i)] == i)
    && (forall n :: maxLen < n < MAX_CODE_LEN && n < |limit| ==> limit[n] == 0)
    && (forall j :: 0 <= j < |len| ==> 0 <= perm[j] < |len| && Slot(len, perm[j]) == j)
  }

  method FillPerm(perm: array<int>, length: array<int>, minLen: nat, maxLen: nat, alphaSize: nat)
    requires perm != length && alphaSize <= perm.Length && alphaSize <= length.Length
    requires LengthsIn(length[..alphaSize], minLen, maxLen)
    modifies perm
    ensures forall i :: 0 <= i < alphaSize ==> Slot(length[..alphaSize], i) < alphaSize && perm[Slot(length[..alphaSize], i)] == i
    ensures forall j :: 0 <= j < alphaSize ==> 0 <= perm[j] < alphaSize && Slot(length[..alphaSize], perm[j]) == j
  {
    hide Cum, Cnt, First;
    ghost var len := length[..alphaSize];
    var pp, i := 0, minLen;
    NoneShorter(len, minLen, maxLen, minLen);
    while i <= maxLen
      invariant minLen <= i && (i <= maxLen + 1 || i == minLen) && pp == Cum(len, i)
      invariant forall k :: 0 <= k < alphaSize && len[k] < i ==> Slot(len, k) < alphaSize && perm[Slot(len, k)] == k
      invariant forall p :: 0 <= p < pp && p < alphaSize ==> 0 <= perm[p] < alphaSize && Slot(len, perm[p]) == p
    {
      var j := 0;
      CntStart(len, i);
      while j < alphaSize
        invariant 0 <= j <= alphaSize && pp == Cum(len, i) + Cnt(len, i, j)
        invariant forall k :: 0 <= k < alphaSize && (len[k] < i || (k < j && len[k] == i)) ==>
          Slot(len, k) < alphaSize && perm[Slot(len, k)] == k
        invariant forall p :: 0 <= p < pp && p < alphaSize ==> 0 <= perm[p] < alphaSize && Slot(len, perm[p]) == p
      {
        CntStep(len, i, j);
        if length[j] == i {
          SlotBound(len, j);
          forall k | 0 <= k < alphaSize && k != j ensures Slot(len, k) != Slot(len, j) {
            SlotsDistinct(len, k, j);
          }
          perm[pp] := j;
          pp := pp + 1;
        }
        j := j + 1;
      }
      FirstStep(len, i);
      i := i + 1;
    }
    AllShorter(len, minLen, maxLen, i);
  }

  /** All symbols have a code shorter than `n` bits. */
  lemma AllShorter(len: seq<int>, lo: nat, hi: int, n: nat)
    requires LengthsIn(len, lo, hi) && hi < n
    ensures Cum(len, n) == |len|
  {
    CumIsTo(len, n);
    CumToAll(len, lo, hi, n, |len|);
  }

  lemma {:induction false} CumToAll(len: seq<int>, lo: nat, hi: int, n: nat, k: nat)
    requires LengthsIn(len, lo, hi) && hi < n && k <= |len|
    ensures CumTo(len, n, k) == k
    decreases k
  {
    if k > 0 {
      CumToAll(len, lo, hi, n, k - 1);
    }
  }

  /** Counts the codes of each length and sums the counts up. */
  method FillBase(base: array<int>, length: array<int>, alphaSize: nat)
    requires base != length && MAX_CODE_LEN <= base.Length && alphaSize <= length.Length
    requires LengthsIn(length[..alphaSize], 0, 20)
    modifies base
    ensures forall n :: 0 <= n < MAX_CODE_LEN ==> base[n] == Cum(length[..alphaSize], n)
  {
    hide Cum, Cnt;
    ghost var len := length[..alphaSize];
    var i := 0;
    while i < MAX_CODE_LEN
      invariant 0 <= i <= MAX_CODE_LEN && forall n :: 0 <= n < i ==> base[n] == 0
    {
      base[i] := 0;
      i := i + 1;
    }
    i := 0;
    CntStarts(len);
    while i < alphaSize
      invariant 0 <= i <= alphaSize
      invariant forall n :: 0 <= n < MAX_CODE_LEN ==> base[n] == Cnt(len, n - 1, i)
    {
      base[length[i] + 1] := base[length[i] + 1] + 1;
      forall m ensures Cnt(len, m, i + 1) == Cnt(len, m, i) + (if len[i] == m then 1 else 0) {
        CntStep(len, m, i);
      }
      i := i + 1;
    }
    NoneOf(len, -1, |len|);
    CumStart(len);
    i := 1;
    while i < MAX_CODE_LEN
      invariant 1 <= i <= MAX_CODE_LEN
      invariant forall n :: 0 <= n < i ==> base[n] == Cum(len, n)
      invariant forall n :: i <= n < MAX_CODE_LEN ==> base[n] == Cnt(len, n - 1, |len|)
    {
      FirstStep(len, i - 1);
      base[i] := base[i] + base[i - 1];
      i := i + 1;
    }
  }

  lemma CntStarts(len: seq<int>)
    ensures forall n :: Cnt(len, n, 0) == 0
  {
  }

  lemma CumStart(len: seq<int>)
    ensures Cum(len, 0) == 0
  {
  }

  /** The last code of each length. */
  method FillLimit(limit: array<int>, base: array<int>, minLen: nat, maxLen: nat, ghost len: seq<int>)
    requires limit != base && MAX_CODE_LEN <= base.Length && MAX_CODE_LEN <= limit.Length
    requires minLen <= maxLen <= 20 && LengthsIn(len, minLen, maxLen)
    requires forall n :: 0 <= n < MAX_CODE_LEN ==> base[n] == Cum(len, n)
    modifies limit
    ensures forall n :: minLen <= n <= maxLen ==> limit[n] == First(len, n) + Cnt(len, n, |len|) - 1
    ensures forall n :: maxLen < n < MAX_CODE_LEN ==> limit[n] == 0
  {
    hide Cum, Cnt, First;
    var i := 0;
    while i < MAX_CODE_LEN
      invariant 0 <= i <= MAX_CODE_LEN && forall n :: 0 <= n < i ==> limit[n] == 0
    {
      limit[i] := 0;
      i := i + 1;
    }
    var vec := 0;
    NoneShorter(len, minLen, maxLen, minLen);
    i := minLen;
    while i <= maxLen
      invariant minLen <= i <= maxLen + 1 && vec == First(len, i)
      invariant forall n :: minLen <= n < i ==> limit[n] == First(len, n) + Cnt(len, n, |len|) - 1
      invariant forall n :: maxLen < n < MAX_CODE_LEN ==> limit[n] == 0
    {
      FirstStep(len, i);
      vec := vec + (base[i + 1] - base[i]);
      limit[i] := vec - 1;
      vec := vec * 2;
      i := i + 1;
    }
  }

  /** Turns the counts of shorter codes into the offsets from codes to slots. */
  method AdjustBase(limit: array<int>, base: array<int>, minLen: nat, maxLen: nat, ghost len: seq<int>)
    requires limit != base && MAX_CODE_LEN <= base.Length && MAX_CODE_LEN <= limit.Length
    requires minLen <= maxLen <= 20 && LengthsIn(len, minLen, maxLen)
    requires forall n :: 0 <= n < MAX_CODE_LEN ==> base[n] == Cum(len, n)
    requires forall n :: minLen <= n <= maxLen ==> limit[n] == First(len, n) + Cnt(len, n, |len|) - 1
    modifies base
    ensures forall n :: minLen <= n <= maxLen ==> base[n] == First(len, n) - Cum(len, n)
  {
    hide Cum, Cnt, First;
    NoneShorter(len, minLen, maxLen, minLen);
    var i := minLen + 1;
    while i <= maxLen
      invariant minLen + 1 <= i <= maxLen + 1
      invariant forall n :: minLen <= n < i ==> base[n] == First(len, n) - Cum(len, n)
      invariant forall n :: i <= n <= maxLen ==> base[n] == Cum(len, n)
    {
      FirstStep(len, i - 1);
      base[i] := (limit[i - 1] + 1) * 2 - base[i];
      i := i + 1;
    }
  }

  method CreateDecodeTables(limit: array<int>, base: array<int>, perm: array<int>, length: array<int>,
                            minLen: nat, maxLen: nat, alphaSize: nat)
    requires limit != base && limit != perm && base != perm && limit != length && base != length && perm != length
    requires MAX_CODE_LEN <= base.Length && MAX_CODE_LEN <= limit.Length
    requires alphaSize <= perm.Length && alphaSize <= length.Length
    requires minLen <= maxLen <= 20 && LengthsIn(length[..alphaSize], minLen, maxLen)
    modifies limit, base, perm
    ensures TablesFor(length[..alphaSize], minLen, maxLen, limit[..], base[..], perm[..])
  {
    hide Cum, Cnt, First;
    ghost var len := length[..alphaSize];
    FillPerm(perm, length, minLen, maxLen, alphaSize);
    FillBase(base, length, alphaSize);
    FillLimit(limit, base, minLen, maxLen, len);
    AdjustBase(limit, base, minLen, maxLen, len);
  }

  // ---------- decoding ----------

  datatype Outcome = NeedMore | Bad | Symbol(sym: int, used: nat)

  /** Decoding one symbol: bits are taken until the number they spell is within the limit for their count. */
  function DecodeFrom(limit: seq<int>, base: seq<int>, perm: seq<int>, bits: seq<bool>, zn: nat): Outcome
    requires |limit| >= MAX_CODE_LEN && |base| >= MAX_CODE_LEN && |perm| >= MAX_ALPHA_SIZE
    decreases 21 - zn
  {
    if |bits| < zn then NeedMore
    else if zn > 20 then Bad
    else
      var zvec := Value(bits[..zn]);
      if zvec <= limit[zn] then
        if zvec - base[zn] < 0 || zvec - base[zn] >= MAX_ALPHA_SIZE then Bad
        else Symbol(perm[zvec - base[zn]], zn)
      else DecodeFrom(limit, base, perm, bits, zn + 1)
  }

  /** The first code of a longer length lies past all codes of a shorter one. */
  lemma {:induction false} FirstPast(len: seq<int>, n: nat, m: nat)
    requires n < m
    ensures First(len, m) >= (First(len, n) + Cnt(len, n, |len|)) * Pow2(m - n)
    decreases m
  {
    hide Cnt, First;
    FirstStep(len, m - 1);
    var x := First(len, n) + Cnt(len, n, |len|);
    if n + 1 < m {
      FirstPast(len, n, m - 1);
      assert Pow2(m - n) == 2 * Pow2(m - 1 - n);
      assert x * (2 * Pow2(m - 1 - n)) == 2 * (x * Pow2(m - 1 - n));
    } else {
      assert Pow2(1) == 2;
    }
  }

  /** A number at least `x * 2^k` keeps at least `x` when its low `k` bits are dropped. */
  lemma PrefixAtLeast(s: seq<bool>, n: nat, x: nat)
    requires n <= |s| && Value(s) >= x * Pow2(|s| - n)
    ensures Value(s[..n]) >= x
  {
    hide Value, Pow2;
    var v, p := Value(s[..n]), Pow2(|s| - n);
    assert s == s[..n] + s[n..];
    ValueConcat(s[..n], s[n..]);
    ValueBounded(s[n..]);
    if v + 1 <= x {
      MulLess(v, x, p);
    }
  }

  lemma {:induction false} MulLess(v: nat, x: nat, p: nat)
    requires v + 1 <= x
    ensures v * p + p <= x * p
    decreases x
  {
    if x == v + 1 {
      assert (v + 1) * p == v * p + p;
    } else {
      MulLess(v, x - 1, p);
      assert x * p == (x - 1) * p + p;
    }
  }

  /** With fewer bits than its code has, a symbol's bits are past the limit. */
  lemma PrefixPastLimit(len: seq<int>, i: nat, n: nat)
    requires i < |len| && 0 <= n < len[i] && Code(len, i) < Pow2(len[i])
    ensures Value(Bits(Code(len, i), len[i])[..n]) >= First(len, n) + Cnt(len, n, |len|)
  {
    hide Value, Bits, Pow2, Cnt, First;
    FirstPast(len, n, len[i]);
    ValueOfBits(Code(len, i), len[i]);
    PrefixAtLeast(Bits(Code(len, i), len[i]), n, First(len, n) + Cnt(len, n, |len|));
  }

  /** The symbol in slot `j`. */
  ghost function SymbolAt(len: seq<int>, j: int): nat {
    if exists i :: 0 <= i < |len| && len[i] >= 0 && Slot(len, i) == j then
      var i :| 0 <= i < |len| && len[i] >= 0 && Slot(len, i) == j;
      i
    else 0
  }

  /**
   * Decoding one symbol by the lengths alone: bits are taken until the number they spell is below the end of the codes of that
   * many bits, and the codes of one length stand for the symbols of that length in turn.
   */
  ghost function DecodeBy(len: seq<int>, bits: seq<bool>, n: nat): Outcome
    decreases 21 - n
  {
    if |bits| < n then NeedMore
    else if n > 20 then Bad
    else
      var v := Value(bits[..n]);
      if v < First(len, n) + Cnt(len, n, |len|) then Symbol(SymbolAt(len, v - First(len, n) + Cum(len, n)), n)
      else DecodeBy(len, bits, n + 1)
  }

  lemma SymbolAtSlot(len: seq<int>, i: nat)
    requires i < |len| && len[i] >= 0
    ensures SymbolAt(len, Slot(len, i)) == i
  {
    var j := SymbolAt(len, Slot(len, i));
    if j != i {
      SlotsDistinct(len, i, j);
    }
  }

  /** Decoding by a symbol's bits, whatever follows them, ends with that symbol. */
  lemma {:induction false} DecodeReaches(len: seq<int>, i: nat, tail: seq<bool>, n: nat)
    requires i < |len| && n <= len[i] <= 20 && Code(len, i) < Pow2(len[i])
    ensures DecodeBy(len, Bits(Code(len, i), len[i]) + tail, n) == Symbol(i, len[i])
    decreases len[i] - n
  {
    hide Value, Bits, Pow2, Cnt, First, Cum, SymbolAt;
    var s := Bits(Code(len, i), len[i]);
    assert (s + tail)[..n] == s[..n];
    if n < len[i] {
      PrefixPastLimit(len, i, n);
      DecodeReaches(len, i, tail, n + 1);
    } else {
      assert s[..n] == s;
      ValueOfBits(Code(len, i), len[i]);
      CntGrows(len, len[i], i, |len|);
      assert Code(len, i) - First(len, n) + Cum(len, n) == Slot(len, i);
      SymbolAtSlot(len, i);
    }
  }

  /** With a Kraft sum of at most one, a symbol's code is decoded to that symbol, whatever bits follow it. */
  lemma DecodeByCode(len: seq<int>, L: nat, i: nat, tail: seq<bool>)
    requires LengthsIn(len, 0, L) && L <= 20 && KraftSum(len, L, |len|) <= Pow2(L) && i < |len|
    ensures DecodeBy(len, Bits(Code(len, i), len[i]) + tail, 0) == Symbol(i, len[i])
  {
    hide Code, KraftSum, DecodeBy;
    CodeFits(len, L, i);
    DecodeReaches(len, i, tail, 0);
  }

  /** From the longest code on there is a code, so nothing but zeros stays within a limit there. */
  lemma SomeCode(len: seq<int>, n: nat)
    requires |len| > 0 && 0 <= len[0] <= n
    ensures First(len, n) + Cnt(len, n, |len|) >= 1
  {
    hide Cnt, First, Pow2;
    CntGrows(len, len[0], 0, |len|);
    if len[0] < n {
      FirstPast(len, len[0], n);
      MulLess(0, First(len, len[0]) + Cnt(len, len[0], |len|), Pow2(n - len[0]));
    }
  }

  lemma ValueGrows(bits: seq<bool>, n: nat)
    requires n < |bits|
    ensures Value(bits[..n + 1]) >= 2 * Value(bits[..n])
  {
    assert bits[..n + 1][..n] == bits[..n];
  }

  /** A number past the limit for one bit less and within the limit for `zn` bits has a slot. */
  lemma SlotInRange(len: seq<int>, minLen: nat, maxLen: nat, limit: seq<int>, base: seq<int>, perm: seq<int>,
          bits: seq<bool>, zn: nat)
    requires TablesFor(len, minLen, maxLen, limit, base, perm) && maxLen <= 20 && 1 <= |len| <= MAX_ALPHA_SIZE
    requires |limit| >= MAX_CODE_LEN && |base| >= MAX_CODE_LEN && |perm| >= MAX_ALPHA_SIZE
    requires minLen <= zn <= 20 && zn <= |bits| && Value(bits[..zn]) <= limit[zn]
    requires zn > minLen ==> Value(bits[..zn - 1]) > limit[zn - 1]
    ensures 0 <= Value(bits[..zn]) - base[zn] < |len|
  {
    hide Value, Cnt, First, Cum;
    if zn > minLen {
      ValueGrows(bits, zn - 1);
    }
    if zn > maxLen {
      SomeCode(len, maxLen);
    }
    NoneShorter(len, minLen, maxLen, minLen);
    if zn > 0 {
      FirstStep(len, zn - 1);
    }
    FirstStep(len, zn);
    CumIsTo(len, zn + 1);
  }

  /** No code has fewer bits than the shortest, so decoding may start there. */
  lemma {:induction false} SkipShort(len: seq<int>, minLen: nat, maxLen: nat, bits: seq<bool>, n: nat)
    requires LengthsIn(len, minLen, maxLen) && n <= minLen <= 20
    ensures DecodeBy(len, bits, n) == DecodeBy(len, bits, minLen)
    decreases minLen - n
  {
    hide Value, Cnt, First, Cum, SymbolAt;
    if n < minLen {
      NoneShorter(len, minLen, maxLen, n);
      NoneOf(len, n, |len|);
      SkipShort(len, minLen, maxLen, bits, n + 1);
    }
  }

  /** The tables decode whatever bits as the lengths say: to a symbol of the alphabet, unless 20 bits make no code. */
  lemma {:induction false} TablesDecode(len: seq<int>, minLen: nat, maxLen: nat, limit: seq<int>, base: seq<int>,
          perm: seq<int>,
                                        bits: seq<bool>, zn: nat)
    requires TablesFor(len, minLen, maxLen, limit, base, perm) && maxLen <= 20 && 1 <= |len| <= MAX_ALPHA_SIZE
    requires |limit| >= MAX_CODE_LEN && |base| >= MAX_CODE_LEN && |perm| >= MAX_ALPHA_SIZE
    requires minLen <= zn <= 21
    requires zn > minLen ==> zn - 1 <= |bits| && Value(bits[..zn - 1]) >= First(len, zn - 1) + Cnt(len, zn - 1, |len|)
    ensures var d := DecodeFrom(limit, base, perm, bits, zn);
      d == DecodeBy(len, bits, zn) && (d.Symbol? ==> 0 <= d.sym < |len| && d.used <= |bits|) && (d.Bad? ==> |bits| > 20)
    decreases 21 - zn
  {
    hide Value, TablesFor, Cnt, First, Cum, SymbolAt;
    if zn <= |bits| && zn <= 20 {
      WithinLimit(len, minLen, maxLen, limit, base, perm, bits, zn);
      if Value(bits[..zn]) > limit[zn] {
        TablesDecode(len, minLen, maxLen, limit, base, perm, bits, zn + 1);
      }
    }
  }

  /** Being within the limit is being below the end of the codes, and the slot then holds the symbol. */
  lemma WithinLimit(len: seq<int>, minLen: nat, maxLen: nat, limit: seq<int>, base: seq<int>, perm: seq<int>,
          bits: seq<bool>, zn: nat)
    requires TablesFor(len, minLen, maxLen, limit, base, perm) && maxLen <= 20 && 1 <= |len| <= MAX_ALPHA_SIZE
    requires |limit| >= MAX_CODE_LEN && |base| >= MAX_CODE_LEN && |perm| >= MAX_ALPHA_SIZE
    requires minLen <= zn <= 20 && zn <= |bits|
    requires zn > minLen ==> Value(bits[..zn - 1]) >= First(len, zn - 1) + Cnt(len, zn - 1, |len|)
    ensures var v, j := Value(bits[..zn]), Value(bits[..zn]) - base[zn];
      && (v <= limit[zn] <==> v < First(len, zn) + Cnt(len, zn, |len|))
      && (v <= limit[zn] ==> 0 <= j < |len| && j == v - First(len, zn) + Cum(len, zn) && 0 <= perm[j] == SymbolAt(len, j) < |len|)
  {
    hide Value, Cnt, First, Cum, SymbolAt;
    var v := Value(bits[..zn]);
    assert minLen <= len[0] <= maxLen;
    if zn > maxLen {
      PastAllCodes(len, minLen, maxLen, limit, base, perm, bits, zn);
    } else if v <= limit[zn] {
      SlotInRange(len, minLen, maxLen, limit, base, perm, bits, zn);
      var j := v - base[zn];
      assert Slot(len, perm[j]) == j;
      SymbolAtSlot(len, perm[j]);
    }
  }

  /** Past the longest code nothing is within a limit, and nothing is below the end of the codes. */
  lemma PastAllCodes(len: seq<int>, minLen: nat, maxLen: nat, limit: seq<int>, base: seq<int>, perm: seq<int>,
          bits: seq<bool>, zn: nat)
    requires TablesFor(len, minLen, maxLen, limit, base, perm) && 1 <= |len|
    requires |limit| >= MAX_CODE_LEN && minLen <= maxLen < zn <= 20 && zn <= |bits|
    requires Value(bits[..zn - 1]) >= First(len, zn - 1) + Cnt(len, zn - 1, |len|)
    ensures Value(bits[..zn]) > limit[zn] && Value(bits[..zn]) >= First(len, zn) + Cnt(len, zn, |len|)
  {
    hide Value, Cnt, First, Cum;
    ValueGrows(bits, zn - 1);
    FirstStep(len, zn - 1);
    NoneOf(len, zn, |len|);
    SomeCode(len, zn);
  }

  // ---------- codes fit their lengths and are prefix-free ----------

  /** The Kraft sum, times 2^L, of the symbols among the first `k` with codes of at most `n` bits. */
  ghost function KraftUpTo(len: seq<int>, L: nat, n: nat, k: nat): nat
    requires k <= |len| && forall i :: 0 <= i < k ==> len[i] >= 0
  {
    if k == 0 then 0 else KraftUpTo(len, L, n, k - 1) + (if len[k - 1] <= n then Term(L, len[k - 1]) else 0)
  }

  lemma {:induction false} KraftStep(len: seq<int>, L: nat, n: nat, k: nat)
    requires k <= |len| && forall i :: 0 <= i < k ==> len[i] >= 0
    ensures n > 0 ==> KraftUpTo(len, L, n, k) == KraftUpTo(len, L, n - 1, k) + Cnt(len, n, k) * Term(L, n)
    ensures n == 0 ==> KraftUpTo(len, L, n, k) == Cnt(len, n, k) * Term(L, n)
    ensures KraftUpTo(len, L, n, k) <= KraftSum(len, L, k)
    decreases k
  {
    hide Term;
    if k > 0 {
      KraftStep(len, L, n, k - 1);
      AddOne(Cnt(len, n, k - 1), Term(L, n));
    }
  }

  lemma AddOne(c: nat, t: nat)
    ensures (c + 1) * t == c * t + t
  {
  }

  /** The codes of up to `n` bits take up exactly their share of the code space. */
  lemma {:induction false} FirstIsKraft(len: seq<int>, L: nat, n: nat)
    requires n <= L && forall i :: 0 <= i < |len| ==> len[i] >= 0
    ensures (First(len, n) + Cnt(len, n, |len|)) * Pow2(L - n) == KraftUpTo(len, L, n, |len|)
    decreases n
  {
    hide Cnt, Pow2;
    KraftStep(len, L, n, |len|);
    if n > 0 {
      FirstIsKraft(len, L, n - 1);
      FirstStep(len, n - 1);
      PowAdd(L - n, 1);
      PowOne();
      var x := First(len, n - 1) + Cnt(len, n - 1, |len|);
      Regroup(x, 2, Pow2(L - n));
      Distribute(1, Cnt(len, n, |len|), 2 * x, Pow2(L - n));
    }
  }

  /** The Kraft sum, times 2^L, of those of the first `k` symbols that come ahead of `i`: shorter ones, and earlier ones as long. */
  ghost function KraftAhead(len: seq<int>, L: nat, i: nat, k: nat): nat
    requires i < |len| && k <= |len| && forall j :: 0 <= j < |len| ==> len[j] >= 0
  {
    if k == 0 then 0
    else KraftAhead(len, L, i, k - 1) + (if len[k - 1] < len[i] || (len[k - 1] == len[i] && k - 1 < i) then Term(L, len[k - 1]) else 0)
  }

  lemma {:induction false} AheadInTwo(len: seq<int>, L: nat, i: nat, k: nat)
    requires i < |len| && k <= |len| && (forall j :: 0 <= j < |len| ==> len[j] >= 0) && len[i] >= 1
    ensures KraftAhead(len, L, i, k) ==
      KraftUpTo(len, L, len[i] - 1, k) + Cnt(len, len[i], if k < i then k else i) * Term(L, len[i])
    decreases k
  {
    hide Term;
    if k > 0 {
      AheadInTwo(len, L, i, k - 1);
      AddOne(Cnt(len, len[i], k - 1), Term(L, len[i]));
    }
  }

  /** A code, as a fraction of the code space, is the share of the symbols that come ahead of its own. */
  lemma CodeIsShare(len: seq<int>, L: nat, i: nat)
    requires LengthsIn(len, 1, L) && i < |len|
    ensures Code(len, i) * Pow2(L - len[i]) == KraftAhead(len, L, i, |len|)
  {
    hide Cnt, Pow2, KraftUpTo, KraftAhead, First;
    var n := len[i];
    AheadInTwo(len, L, i, |len|);
    FirstIsKraft(len, L, n - 1);
    FirstStep(len, n - 1);
    PowAdd(L - n, 1);
    PowOne();
    var x := First(len, n - 1) + Cnt(len, n - 1, |len|);
    Regroup(x, 2, Pow2(L - n));
    Distribute(1, Cnt(len, n, i), 2 * x, Pow2(L - n));
  }

  lemma PowOne()
    ensures Pow2(1) == 2
  {
  }

  /** With a Kraft sum of at most one, a code fits in its length. */
  lemma CodeFits(len: seq<int>, L: nat, i: nat)
    requires LengthsIn(len, 0, L) && KraftSum(len, L, |len|) <= Pow2(L) && i < |len|
    ensures Code(len, i) < Pow2(len[i])
  {
    hide Cnt, Pow2, First, KraftSum, KraftUpTo;
    var n := len[i];
    FirstIsKraft(len, L, n);
    KraftStep(len, L, n, |len|);
    CntGrows(len, n, i, |len|);
    PowAdd(n, L - n);
    if Code(len, i) >= Pow2(n) {
      MulLess(Pow2(n), First(len, n) + Cnt(len, n, |len|), Pow2(L - n));
    }
  }

  /** No symbol's code is the beginning of another's. */
  lemma PrefixFree(len: seq<int>, L: nat, i: nat, j: nat)
    requires LengthsIn(len, 1, L) && KraftSum(len, L, |len|) <= Pow2(L)
    requires i < |len| && j < |len| && i != j
    ensures !(Bits(Code(len, i), len[i]) <= Bits(Code(len, j), len[j]))
  {
    hide Value, Bits, Pow2, Cnt, First, KraftSum;
    CodeFits(len, L, i);
    CodeFits(len, L, j);
    var s, t := Bits(Code(len, i), len[i]), Bits(Code(len, j), len[j]);
    ValueOfBits(Code(len, i), len[i]);
    ValueOfBits(Code(len, j), len[j]);
    if s <= t {
      assert s == t[..len[i]];
      CntGrows(len, len[i], i, |len|);
      if len[i] < len[j] {
        PrefixPastLimit(len, j, len[i]);
      } else {
        assert s == t;
        if i < j {
          CntGrows(len, len[i], i, j);
        } else {
          CntGrows(len, len[i], j, i);
        }
      }
    }
  }

  /** Decoding a symbol's code with the tables, whatever bits follow it, consumes that code and returns that symbol. */
  lemma DecodeSymbol(len: seq<int>, minLen: nat, maxLen: nat, limit: seq<int>, base: seq<int>, perm: seq<int>, L: nat,
          i: nat, tail: seq<bool>)
    requires TablesFor(len, minLen, maxLen, limit, base, perm) && maxLen <= 20 && |len| <= MAX_ALPHA_SIZE
    requires |limit| >= MAX_CODE_LEN && |base| >= MAX_CODE_LEN && |perm| >= MAX_ALPHA_SIZE
    requires maxLen <= L <= 20 && KraftSum(len, L, |len|) <= Pow2(L) && i < |len|
    ensures DecodeFrom(limit, base, perm, Bits(Code(len, i), len[i]) + tail, minLen) == Symbol(i, len[i])
  {
    hide Code, KraftSum, DecodeBy, DecodeFrom;
    var bits := Bits(Code(len, i), len[i]) + tail;
    DecodeByCode(len, L, i, tail);
    SkipShort(len, minLen, maxLen, bits, 0);
    TablesDecode(len, minLen, maxLen, limit, base, perm, bits, minLen);
  }
}
