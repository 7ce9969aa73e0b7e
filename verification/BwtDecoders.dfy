/** The two decoders of the block-sorting transform: packed words (FAST) and packed nibbles (SMALL). */
module BwtDecoders {
  import opened Bwt
  import opened ByteStrings
  import opened Counting
  import opened Rotations

  /** Turns the tallies of the decoded column into the start of each symbol's class. */
  method BuildCftab(unzftab: array<int>, cftab: array<int>, nblock: int, ghost l: seq<int>) returns (ok: bool)
    requires unzftab.Length == 256 && cftab.Length == 257 && unzftab != cftab
    requires Bytes(l) && nblock == |l|
    requires forall c :: 0 <= c < 256 ==> unzftab[c] == Count(l, c)
    modifies cftab
    ensures ok && forall c :: 0 <= c <= 256 ==> cftab[c] == Less(l, c)
  {
    LessAll(l, 0);
    LessAll(l, 256);
    var i := 0;
    while i <= 255
      invariant 0 <= i <= 256
    {
      CountBounds(l, i);
      if unzftab[i] < 0 || unzftab[i] > nblock {
        return false;
      }
      i := i + 1;
    }
    cftab[0] := 0;
    i := 1;
    while i <= 256
      invariant 1 <= i <= 257 && cftab[0] == 0
      invariant forall c :: 1 <= c < i ==> cftab[c] == Count(l, c - 1)
    {
      cftab[i] := unzftab[i - 1];
      i := i + 1;
    }
    i := 1;
    while i <= 256
      invariant 1 <= i <= 257
      invariant forall c :: 0 <= c < i ==> cftab[c] == Less(l, c)
      invariant forall c :: i <= c < 257 ==> cftab[c] == Count(l, c - 1)
    {
      cftab[i] := cftab[i] + cftab[i - 1];
      i := i + 1;
    }
    i := 0;
    while i <= 256
      invariant 0 <= i <= 257 && forall c :: 0 <= c <= 256 ==> cftab[c] == Less(l, c)
    {
      assert Less(l, i) <= |l|;
      if cftab[i] < 0 || cftab[i] > nblock {
        return false;
      }
      i := i + 1;
    }
    i := 1;
    while i <= 256
      invariant 1 <= i <= 257 && forall c :: 0 <= c <= 256 ==> cftab[c] == Less(l, c)
    {
      LessMonotone(l, i - 1, i);
      if cftab[i - 1] > cftab[i] {
        return false;
      }
      i := i + 1;
    }
    ok := true;
  }

  lemma CountBounds(l: seq<int>, c: int)
    ensures 0 <= Count(l, c) <= |l|
  {
    LessMonotone(l, c, c + 1);
    assert Less(l, c + 1) <= |l|;
  }

  // ---------- FAST: symbol and place packed into one word ----------

  /** Sets the upper 24 bits of a word in which they are still clear. */
  function SetUpper(w: nat, i: nat): (r: nat)
    requires w < 0x100 && i < 0x100_0000
    ensures r < 0x1_0000_0000
  {
    w + 256 * i
  }

  /** Both parts of a packed word can be read back. */
  lemma Unpack(w: nat, i: nat)
    requires w < 0x100 && i < 0x100_0000
    ensures SetUpper(w, i) % 256 == w && SetUpper(w, i) / 256 == i
  {
  }

  /** Adds to each word of `tt` the place its sorted symbol came from. */
  method BuildFast(tt: array<int>, cftab: array<int>, nblock: nat, ghost l: seq<int>)
    requires nblock == |l| <= 900000 && tt.Length >= |l| && cftab.Length == 257 && tt != cftab && Bytes(l)
    requires forall i :: 0 <= i < |l| ==> tt[i] == l[i]
    requires forall c :: 0 <= c <= 256 ==> cftab[c] == Less(l, c)
    modifies tt, cftab
    ensures forall k :: 0 <= k < |l| ==> tt[k] == SetUpper(l[k], Origin(l, k))
  {
    hide Less, Count, Up, SetUpper;
    var i := 0;
    CountNone(l);
    while i < nblock
      invariant 0 <= i <= nblock
      invariant forall c :: 0 <= c < 256 ==> cftab[c] == Less(l, c) + Count(l[..i], c)
      invariant forall k :: 0 <= k < |l| ==> tt[k] == if Origin(l, k) < i then SetUpper(l[k], Origin(l, k)) else l[k]
    {
      var uc := tt[i] % 256;
      assert uc == l[i] by {
        if Origin(l, i) < i {
          Unpack(l[i], Origin(l, i));
        }
      }
      UpBounds(l, i);
      UpIsSlot(l, i);
      assert cftab[uc] == Up(l, i);
      OriginUnique(l, Up(l, i), i);
      forall c | 0 <= c < 256 ensures Count(l[..i + 1], c) == Count(l[..i], c) + (if l[i] == c then 1 else 0) {
        CountStep(l, i, c);
      }
      tt[cftab[uc]] := SetUpper(tt[cftab[uc]], i);
      cftab[uc] := cftab[uc] + 1;
      i := i + 1;
    }
  }

  lemma WalkNext(l: seq<int>, x: nat, t: nat)
    requires x < |l|
    ensures WalkTo(l, x, t + 1) == Origin(l, WalkTo(l, x, t))
  {
  }

  /** The fast decoder's walk over the packed vector. */
  class FastWalk {
    const tt: array<int>
    const limit: nat
    var tPos: nat
    ghost const column: seq<int>
    ghost const orig: nat
    ghost var taken: nat

    ghost predicate Valid()
      reads this, tt
    {
      && 0 < |column| <= tt.Length && |column| <= limit && orig < |column|
      && Bytes(column) && |column| <= 900000
      && (forall k :: 0 <= k < |column| ==> tt[k] == SetUpper(column[k], Origin(column, k)))
      && tPos == WalkTo(column, orig, taken + 1)
    }

    constructor (tt: array<int>, limit: nat, origPtr: nat, ghost l: seq<int>)
      requires |l| <= tt.Length && |l| <= limit && origPtr < |l| <= 900000 && Bytes(l)
      requires forall k :: 0 <= k < |l| ==> tt[k] == SetUpper(l[k], Origin(l, k))
      ensures Valid() && this.tt == tt && column == l && orig == origPtr && taken == 0
    {
      this.tt := tt;
      this.limit := limit;
      Unpack(l[origPtr], Origin(l, origPtr));
      tPos := tt[origPtr] / 256;
      column := l;
      orig := origPtr;
      taken := 0;
      new;
      assert WalkTo(l, origPtr, 1) == Origin(l, WalkTo(l, origPtr, 0));
    }

    /** Delivers the next decoded byte. */
    method Get() returns (corrupt: bool, ch: int)
      requires Valid()
      modifies this`tPos, this`taken
      ensures Valid() && !corrupt && taken == old(taken) + 1
      ensures ch == Decoded(column, orig, old(taken))
    {
      hide SetUpper, Up, Origin, WalkTo;
      WalkNext(column, orig, taken + 1);
      Unpack(column[tPos], Origin(column, tPos));
      if tPos >= limit {
        return true, 0;
      }
      tPos := tt[tPos];
      ch := tPos % 256;
      tPos := tPos / 256;
      taken := taken + 1;
      corrupt := false;
    }
  }

  // ---------- SMALL: 20-bit entries split over halfwords and nibbles ----------

  /** The four-bit table entry `i`. */
  function GetLL4(ll4: seq<nat>, i: nat): nat
    requires i / 2 < |ll4|
  {
    (if i % 2 == 0 then ll4[i / 2] else ll4[i / 2] / 16) % 16
  }

  function GetLL(ll16: seq<nat>, ll4: seq<nat>, i: nat): nat
    requires i < |ll16| && i / 2 < |ll4|
  {
    ll16[i] + 65536 * GetLL4(ll4, i)
  }

  ghost predicate Packed(ll16: seq<nat>, ll4: seq<nat>, n: nat) {
    && n <= |ll16| && (n + 1) / 2 <= |ll4|
    && (forall i :: 0 <= i < |ll16| ==> ll16[i] < 65536)
    && (forall i :: 0 <= i < |ll4| ==> ll4[i] < 256)
  }

  /** Replaces the low or the high four bits of a byte. */
  function SetNibble(x: nat, high: bool, n: nat): (r: nat)
    requires x < 256 && n < 16
    ensures r < 256
    ensures (r % 16) == (if high then x % 16 else n) && (r / 16) % 16 == (if high then n else (x / 16) % 16)
  {
    if high then x % 16 + 16 * n else (x - x % 16) + n
  }

  method SetLL(ll16: array<nat>, ll4: array<nat>, i: nat, n: nat, ghost size: nat)
    requires ll16 != ll4 && Packed(ll16[..], ll4[..], size) && i < size && n < 0x10_0000
    modifies ll16, ll4
    ensures Packed(ll16[..], ll4[..], size)
    ensures GetLL(ll16[..], ll4[..], i) == n
    ensures forall k :: 0 <= k < size && k != i ==> GetLL(ll16[..], ll4[..], k) == old(GetLL(ll16[..], ll4[..], k))
    ensures forall k :: 0 <= k < size && k != i ==> ll16[k] == old(ll16[k])
  {
    ll16[i] := n % 65536;
    ll4[i / 2] := SetNibble(ll4[i / 2], i % 2 == 1, n / 65536);
  }

  /** Replaces the column, byte by byte, by the place each entry takes in the sorted column. */
  method BuildT(ll16: array<nat>, ll4: array<nat>, cftab: array<int>, cftabCopy: array<int>, nblock: nat,
          ghost l: seq<int>)
    requires ll16 != ll4 && cftab.Length == cftabCopy.Length == 257 && cftab != cftabCopy
    requires nblock == |l| <= 900000 && Bytes(l) && Packed(ll16[..], ll4[..], nblock)
    requires forall i :: 0 <= i < |l| ==> ll16[i] == l[i]
    requires forall c :: 0 <= c <= 256 ==> cftab[c] == Less(l, c)
    modifies ll16, ll4, cftabCopy
    ensures Packed(ll16[..], ll4[..], nblock)
    ensures forall i :: 0 <= i < |l| ==> GetLL(ll16[..], ll4[..], i) == Up(l, i)
  {
    hide Less, Count, Up;
    var i := 0;
    while i <= 256
      invariant 0 <= i <= 257 && Packed(ll16[..], ll4[..], nblock)
      invariant forall c :: 0 <= c < i ==> cftabCopy[c] == Less(l, c)
      invariant forall k :: 0 <= k < |l| ==> ll16[k] == l[k]
    {
      cftabCopy[i] := cftab[i];
      i := i + 1;
    }
    i := 0;
    CountNone(l);
    while i < nblock
      invariant 0 <= i <= nblock && Packed(ll16[..], ll4[..], nblock)
      invariant forall c :: 0 <= c < 256 ==> cftabCopy[c] == Less(l, c) + Count(l[..i], c)
      invariant forall k :: i <= k < nblock ==> ll16[k] == l[k]
      invariant forall k :: 0 <= k < i ==> GetLL(ll16[..], ll4[..], k) == Up(l, k)
    {
      var uc := ll16[i] % 256;
      assert uc == l[i];
      UpBounds(l, i);
      UpIsSlot(l, i);
      forall c | 0 <= c < 256 ensures Count(l[..i + 1], c) == Count(l[..i], c) + (if l[i] == c then 1 else 0) {
        CountStep(l, i, c);
      }
      SetLL(ll16, ll4, i, cftabCopy[uc], nblock);
      cftabCopy[uc] := cftabCopy[uc] + 1;
      i := i + 1;
    }
  }

  /** The entries of `v` have been reversed; their predecessors stay within `v` and the start. */
  ghost predicate Reversed(ll16: seq<nat>, ll4: seq<nat>, l: seq<int>, orig: nat, v: set<int>)
  {
    && Packed(ll16, ll4, |l|) && orig < |l|
    && (forall y :: y in v ==> 0 <= y < |l| && GetLL(ll16, ll4, y) == Origin(l, y) && Origin(l, y) in v + {orig})
    && (forall y :: 0 <= y < |l| && y !in v ==> GetLL(ll16, ll4, y) == Up(l, y))
  }

  /** Reversing one more pointer, that of `j`, whose predecessor is `i`. */
  lemma ReverseStep(p16: seq<nat>, p4: seq<nat>, q16: seq<nat>, q4: seq<nat>, l: seq<int>, orig: nat, v: set<int>,
          i: nat, j: nat)
    requires Reversed(p16, p4, l, orig, v) && i < |l| && (i in v || i == orig)
    requires j < |l| && j !in v && Origin(l, j) == i && Packed(q16, q4, |l|) && GetLL(q16, q4, j) == i
    requires forall k :: 0 <= k < |l| && k != j ==> GetLL(q16, q4, k) == GetLL(p16, p4, k)
    ensures Reversed(q16, q4, l, orig, v + {j})
    ensures v + {j} <= Below(|l|)
    ensures GetLL(p16, p4, j) == Up(l, j)
    ensures j != orig ==> Up(l, j) !in v + {j}
  {
    hide Up, GetLL, Origin;
    NextOnCycle(l, j);
  }

  lemma NextOnCycle(l: seq<int>, i: nat)
    requires i < |l|
    ensures 0 <= Up(l, i) < |l| && Origin(l, Up(l, i)) == i
  {
    hide Less, Rank;
    UpBounds(l, i);
    OriginUnique(l, Up(l, i), i);
  }

  /** Reverses the pointers along the cycle of `origPtr`, and those only. */
  method ReverseCycle(ll16: array<nat>, ll4: array<nat>, origPtr: nat, ghost l: seq<int>)
    requires ll16 != ll4 && |l| <= 900000 && origPtr < |l| && Packed(ll16[..], ll4[..], |l|)
    requires forall i :: 0 <= i < |l| ==> GetLL(ll16[..], ll4[..], i) == Up(l, i)
    modifies ll16, ll4
    ensures Packed(ll16[..], ll4[..], |l|)
    ensures forall t: nat :: GetLL(ll16[..], ll4[..], WalkTo(l, origPtr, t)) == WalkTo(l, origPtr, t + 1)
  {
    hide Up, GetLL, Origin, Reversed;
    ghost var v: set<int> := {};
    StartReversed(ll16[..], ll4[..], l, origPtr);
    var i := origPtr;
    var j := GetLL(ll16[..], ll4[..], i);
    NextOnCycle(l, i);
    while true
      invariant Packed(ll16[..], ll4[..], |l|) && Reversed(ll16[..], ll4[..], l, origPtr, v)
      invariant 0 <= i < |l| && (i in v || i == origPtr)
      invariant 0 <= j < |l| && Origin(l, j) == i && j !in v
      decreases |l| - |v|
    {
      ghost var p16, p4 := ll16[..], ll4[..];
      var tmp := GetLL(ll16[..], ll4[..], j);
      SetLL(ll16, ll4, j, i, |l|);
      ReverseStep(p16, p4, ll16[..], ll4[..], l, origPtr, v, i, j);
      NextOnCycle(l, j);
      v := v + {j};
      SubsetSmaller(v, Below(|l|));
      i := j;
      j := tmp;
      if i == origPtr {
        break;
      }
    }
    CycleReversed(ll16[..], ll4[..], l, origPtr, v);
  }

  lemma StartReversed(ll16: seq<nat>, ll4: seq<nat>, l: seq<int>, orig: nat)
    requires Packed(ll16, ll4, |l|) && orig < |l|
    requires forall i :: 0 <= i < |l| ==> GetLL(ll16, ll4, i) == Up(l, i)
    ensures Reversed(ll16, ll4, l, orig, {})
  {
  }

  lemma CycleReversed(ll16: seq<nat>, ll4: seq<nat>, l: seq<int>, orig: nat, v: set<int>)
    requires Reversed(ll16, ll4, l, orig, v) && orig in v
    ensures forall t: nat :: GetLL(ll16, ll4, WalkTo(l, orig, t)) == WalkTo(l, orig, t + 1)
  {
    hide Up, GetLL, Origin;
    forall t: nat ensures GetLL(ll16, ll4, WalkTo(l, orig, t)) == WalkTo(l, orig, t + 1) {
      CycleClosed(l, orig, v, t);
      WalkNext(l, orig, t);
    }
  }

  lemma {:induction false} CycleClosed(l: seq<int>, orig: nat, v: set<int>, t: nat)
    requires orig < |l| && orig in v
    requires forall y :: y in v ==> 0 <= y < |l| && Origin(l, y) in v
    ensures WalkTo(l, orig, t) in v
  {
    if t > 0 {
      CycleClosed(l, orig, v, t - 1);
    }
  }

  /** The symbol whose class in the sorted column holds place `indx`, by bisection. */
  method IndexIntoF(indx: nat, cftab: array<int>, ghost l: seq<int>) returns (nb: int)
    requires cftab.Length == 257 && Bytes(l) && indx < |l|
    requires forall c :: 0 <= c <= 256 ==> cftab[c] == Less(l, c)
    ensures 0 <= nb < 256 && Less(l, nb) <= indx < Less(l, nb + 1)
    ensures nb == l[Origin(l, indx)]
  {
    hide Less, Up, Origin;
    LessAll(l, 0);
    LessAll(l, 256);
    nb := 0;
    var na := 256;
    while true
      invariant 0 <= nb < na <= 256 && na - nb > 1
      invariant cftab[nb] <= indx < cftab[na]
      decreases na - nb
    {
      var mid := (nb + na) / 2;
      if indx >= cftab[mid] {
        nb := mid;
      } else {
        na := mid;
      }
      if na - nb == 1 {
        break;
      }
    }
    UpBounds(l, Origin(l, indx));
    SameClass(l, nb, l[Origin(l, indx)], indx);
  }

  /** The memory-saving decoder's walk over the reversed cycle. */
  class SmallWalk {
    const ll16: array<nat>
    const ll4: array<nat>
    const cftab: array<int>
    const limit: nat
    var tPos: nat
    ghost const column: seq<int>
    ghost const orig: nat
    ghost var taken: nat

    ghost predicate Valid()
      reads this, ll16, ll4, cftab
    {
      && 0 < |column| <= limit && orig < |column| && Bytes(column)
      && Packed(ll16[..], ll4[..], |column|) && cftab.Length == 257
      && (forall c :: 0 <= c <= 256 ==> cftab[c] == Less(column, c))
      && (forall t: nat :: GetLL(ll16[..], ll4[..], WalkTo(column, orig, t)) == WalkTo(column, orig, t + 1))
      && tPos == WalkTo(column, orig, taken)
    }

    constructor (ll16: array<nat>, ll4: array<nat>, cftab: array<int>, limit: nat, origPtr: nat, ghost l: seq<int>)
      requires |l| <= limit && origPtr < |l| && Bytes(l) && Packed(ll16[..], ll4[..], |l|) && cftab.Length == 257
      requires forall c :: 0 <= c <= 256 ==> cftab[c] == Less(l, c)
      requires forall t: nat :: GetLL(ll16[..], ll4[..], WalkTo(l, origPtr, t)) == WalkTo(l, origPtr, t + 1)
      ensures Valid() && this.ll16 == ll16 && this.ll4 == ll4 && column == l && orig == origPtr && taken == 0
    {
      hide Less, GetLL, Origin;
      this.ll16 := ll16;
      this.ll4 := ll4;
      this.cftab := cftab;
      this.limit := limit;
      tPos := origPtr;
      column := l;
      orig := origPtr;
      taken := 0;
    }

    /** Delivers the next decoded byte: the same one as the fast decoder's walk. */
    method Get() returns (corrupt: bool, ch: int)
      requires Valid()
      modifies this`tPos, this`taken
      ensures Valid() && !corrupt && taken == old(taken) + 1
      ensures ch == Decoded(column, orig, old(taken))
    {
      hide Less, Origin, WalkTo;
      WalkNext(column, orig, taken);
      if tPos >= limit {
        return true, 0;
      }
      ch := IndexIntoF(tPos, cftab, column);
      tPos := GetLL(ll16[..], ll4[..], tPos);
      taken := taken + 1;
      corrupt := false;
    }
  }
}
