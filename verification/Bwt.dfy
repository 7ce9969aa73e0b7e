/** The block-sorting transform and its inverse by a counting sort of the last column. */
module Bwt {
  import opened Arithmetic
  import opened Counting
  import opened Rotations

  /** The symbol before each rotation, in the order of the sorted rotations. */
  function LastColumn(b: seq<int>, f: seq<int>): (l: seq<int>)
    requires IsPerm(f, |b|)
    ensures |l| == |b|
  {
    seq(|b|, i requires 0 <= i < |b| => BackBounds(f[i], |b|); b[Back(f[i], 1, |b|)])
  }

  /** The place of the unrotated block among the sorted rotations. */
  method FindOrigin(ptr: array<int>) returns (origPtr: int)
    requires ptr.Length > 0 && IsPerm(ptr[..], ptr.Length)
    ensures 0 <= origPtr < ptr.Length && ptr[origPtr] == 0
  {
    origPtr := -1;
    ghost var p := PermHits(ptr[..], ptr.Length, 0);
    var i := 0;
    while i < ptr.Length
      invariant 0 <= i <= ptr.Length && origPtr == -1
      invariant forall k :: 0 <= k < i ==> ptr[k] != 0
    {
      if ptr[i] == 0 {
        origPtr := i;
        break;
      }
      i := i + 1;
    }
    assert ptr[..][p] == 0;
    assert origPtr != -1;
  }

  // ---------- the walk that undoes the transform ----------

  lemma SlotHit(l: seq<int>, k: nat)
    requires k < |l|
    ensures exists i :: 0 <= i < |l| && Up(l, i) == k
  {
    SlotsPermute(l);
    var i := PermHits(seq(|l|, i requires 0 <= i < |l| => Up(l, i)), |l|, k);
    assert Up(l, i) == k;
  }

  /** The place in the last column of the `k`-th symbol of the sorted column. */
  ghost function Origin(l: seq<int>, k: nat): (i: nat)
    requires k < |l|
    ensures i < |l| && Up(l, i) == k
  {
    SlotHit(l, k);
    var i :| 0 <= i < |l| && Up(l, i) == k;
    i
  }

  lemma OriginUnique(l: seq<int>, k: nat, i: nat)
    requires k < |l| && i < |l| && Up(l, i) == k
    ensures Origin(l, k) == i
  {
    var j := Origin(l, k);
    if i < j {
      SlotsDiffer(l, i, j);
    } else if j < i {
      SlotsDiffer(l, j, i);
    }
  }

  ghost function WalkTo(l: seq<int>, x: nat, t: nat): (k: nat)
    requires x < |l|
    ensures k < |l|
  {
    if t == 0 then x else Origin(l, WalkTo(l, x, t - 1))
  }

  /** The `t`-th byte that decoding column `l` from place `orig` delivers. */
  ghost function Decoded(l: seq<int>, orig: nat, t: nat): int
    requires orig < |l|
  {
    l[WalkTo(l, orig, t + 1)]
  }

  // ---------- the walk recovers the block ----------

  /** Rotations equal all round stay equal when both move on one symbol. */
  lemma EqualRoundShift(b: seq<int>, x: nat, y: nat)
    requires b != [] && Cmp(b, x, y, |b|) == 0
    ensures Cmp(b, x + 1, y + 1, |b|) == 0
    ensures At(b, x) == At(b, y)
  {
    CmpSplit(b, x, y, 1, |b| - 1);
    CmpSplit(b, x + 1, y + 1, |b| - 1, 1);
    WrapMod(x, |b|);
    WrapMod(y, |b|);
    CmpShift(b, x + 1 + (|b| - 1), x, y + 1 + (|b| - 1), y, 1);
    assert Cmp(b, x + 1, y + 1, 0) == 0;
  }

  lemma WrapMod(x: nat, n: nat)
    requires n > 0
    ensures (x + n) % n == x % n
  {
    DivUnique(x + n, x / n + 1, x % n, n);
  }

  lemma AtWrap(b: seq<int>, x: nat)
    requires b != []
    ensures At(b, x + |b|) == At(b, x)
  {
    WrapMod(x, |b|);
  }

  lemma FirstSymbol(b: seq<int>, x: nat, y: nat)
    requires b != []
    ensures Cmp(b, x, y, 1) < 0 <==> At(b, x) < At(b, y)
    ensures Cmp(b, x, y, 1) == 0 <==> At(b, x) == At(b, y)
  {
    hide At;
    assert Cmp(b, x + 1, y + 1, 0) == 0;
  }

  /** Equal all round means equal at the symbol before, too. */
  lemma EqualBefore(b: seq<int>, x: nat, y: nat)
    requires b != [] && Cmp(b, x + 1, y + 1, |b|) == 0
    ensures At(b, x) == At(b, y)
  {
    hide Cmp, At;
    CmpSplit(b, x + 1, y + 1, |b| - 1, 1);
    FirstSymbol(b, x + |b|, y + |b|);
    AtWrap(b, x);
    AtWrap(b, y);
  }

  /** Sorting the last column by counting lists the rotations one symbol back in order. */
  ghost function PrecedingOrder(b: seq<int>, f: seq<int>): (g: seq<int>)
    requires b != [] && IsPerm(f, |b|)
    ensures |g| == |b|
  {
    var l := LastColumn(b, f);
    seq(|b|, k requires 0 <= k < |b| => Back(f[Origin(l, k)], 1, |b|))
  }

  lemma PrecedingPermutes(b: seq<int>, f: seq<int>)
    requires b != [] && IsPerm(f, |b|)
    ensures IsPerm(PrecedingOrder(b, f), |b|)
  {
    var l, g := LastColumn(b, f), PrecedingOrder(b, f);
    forall k | 0 <= k < |b| ensures 0 <= g[k] < |b| {
      BackBounds(f[Origin(l, k)], |b|);
    }
    forall p, q | 0 <= p < q < |b| ensures g[p] != g[q] {
      assert Origin(l, p) != Origin(l, q);
    }
  }

  lemma PrecedingSorted(b: seq<int>, f: seq<int>)
    requires b != [] && SortedRotations(b, f)
    ensures SortedTo(b, PrecedingOrder(b, f), |b|)
  {
    hide Cmp, Up;
    PrecedingPermutes(b, f);
    var l, g := LastColumn(b, f), PrecedingOrder(b, f);
    forall p, q | 0 <= p <= q < |b| ensures Cmp(b, g[p], g[q], |b|) <= 0 {
      PrecedingStep(b, f, Origin(l, p), Origin(l, q));
    }
  }

  lemma PrecedingStep(b: seq<int>, f: seq<int>, i: nat, j: nat)
    requires b != [] && SortedRotations(b, f) && i < |b| && j < |b|
    requires Up(LastColumn(b, f), i) <= Up(LastColumn(b, f), j)
    ensures 0 <= Back(f[i], 1, |b|) && 0 <= Back(f[j], 1, |b|)
    ensures Cmp(b, Back(f[i], 1, |b|), Back(f[j], 1, |b|), |b|) <= 0
  {
    hide Cmp, At, SortedTo, Up;
    var l := LastColumn(b, f);
    var x, y := Back(f[i], 1, |b|), Back(f[j], 1, |b|);
    BackBounds(f[i], |b|);
    BackBounds(f[j], |b|);
    UpOrders(l, i, j);
    AtSmall(b, x);
    AtSmall(b, y);
    assert At(b, x) == l[i] && At(b, y) == l[j];
    FirstSymbol(b, x, y);
    CmpSplit(b, x, y, 1, |b| - 1);
    if l[i] == l[j] {
      assert Cmp(b, f[i], f[j], |b|) <= 0 by {
        InOrder(b, f, i, j);
      }
      CmpSplit(b, f[i], f[j], |b| - 1, 1);
      CmpShift(b, x + 1, f[i], y + 1, f[j], |b| - 1);
    }
  }

  lemma InOrder(b: seq<int>, f: seq<int>, i: nat, j: nat)
    requires b != [] && SortedRotations(b, f) && i <= j < |b|
    ensures Cmp(b, f[i], f[j], |b|) <= 0
  {
    hide Cmp;
  }

  /** The counting sort is stable: its places order the symbols, and equal symbols as they stood. */
  lemma UpOrders(l: seq<int>, i: nat, j: nat)
    requires i < |l| && j < |l| && Up(l, i) <= Up(l, j)
    ensures l[i] < l[j] || (l[i] == l[j] && i <= j)
  {
    hide Rank, Less;
    UpBounds(l, i);
    UpBounds(l, j);
    if l[j] < l[i] {
      LessMonotone(l, l[j] + 1, l[i]);
    } else if l[i] == l[j] && j < i {
      RankStrict(l, j, i);
    }
  }

  /** One step of the walk moves to a rotation that begins one symbol later. */
  lemma WalkStep(b: seq<int>, f: seq<int>, k: nat)
    requires b != [] && SortedRotations(b, f) && k < |b|
    ensures Cmp(b, f[Origin(LastColumn(b, f), k)], f[k] + 1, |b|) == 0
  {
    hide Cmp, Up;
    var i, g := Origin(LastColumn(b, f), k), PrecedingOrder(b, f);
    PrecedingPermutes(b, f);
    PrecedingSorted(b, f);
    SortedListingsAgree(b, f, g, |b|, k);
    EqualRoundShift(b, f[k], g[k]);
    BackBounds(f[i], |b|);
    CmpShift(b, f[k] + 1, f[k] + 1, g[k] + 1, f[i], |b|);
    CmpAntisymmetric(b, f[k] + 1, f[i], |b|);
  }

  lemma {:induction false} WalkReads(b: seq<int>, f: seq<int>, orig: nat, t: nat)
    requires b != [] && SortedRotations(b, f) && orig < |b| && f[orig] == 0
    ensures Cmp(b, f[WalkTo(LastColumn(b, f), orig, t)], t, |b|) == 0
  {
    hide Cmp, Origin;
    var l := LastColumn(b, f);
    if t == 0 {
      CmpAntisymmetric(b, 0, 0, |b|);
    } else {
      WalkReads(b, f, orig, t - 1);
      var k := WalkTo(l, orig, t - 1);
      WalkStep(b, f, k);
      EqualRoundShift(b, f[k], t - 1);
      CmpTransitive(b, f[WalkTo(l, orig, t)], f[k] + 1, t, |b|);
    }
  }

  /** For every block, periodic or not, decoding the last column from the block's own place gives the block. */
  lemma DecodedIsBlock(b: seq<int>, f: seq<int>, orig: nat, t: nat)
    requires b != [] && SortedRotations(b, f) && orig < |b| && f[orig] == 0 && t < |b|
    ensures Decoded(LastColumn(b, f), orig, t) == b[t]
  {
    hide Cmp, Origin;
    var l := LastColumn(b, f);
    var k := WalkTo(l, orig, t + 1);
    WalkReads(b, f, orig, t + 1);
    BackBounds(f[k], |b|);
    var x := Back(f[k], 1, |b|);
    CmpShift(b, x + 1, f[k], t + 1, t + 1, |b|);
    EqualBefore(b, x, t);
    AtSmall(b, x);
    AtSmall(b, t);
  }
}
