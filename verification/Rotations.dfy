/** The order that block sorting puts on the cyclic rotations of a block. */
module Rotations {
  import opened Arithmetic

  /** The symbol at offset `i` of the block, read cyclically. */
  function At(b: seq<int>, i: nat): int
    requires b != []
  {
    b[i % |b|]
  }

  lemma AtSmall(b: seq<int>, i: nat)
    requires i < |b|
    ensures At(b, i) == b[i]
  {
    DivUnique(i, 0, i, |b|);
  }

  /** Compares the first `h` symbols of rotations `i` and `j`: negative, zero or positive. */
  function Cmp(b: seq<int>, i: nat, j: nat, h: nat): int
    requires b != []
    decreases h
  {
    if h == 0 then 0
    else if At(b, i) < At(b, j) then -1
    else if At(b, i) > At(b, j) then 1
    else Cmp(b, i + 1, j + 1, h - 1)
  }

  lemma {:induction false} CmpAntisymmetric(b: seq<int>, i: nat, j: nat, h: nat)
    requires b != []
    ensures Cmp(b, i, j, h) == -Cmp(b, j, i, h)
    decreases h
  {
    if h > 0 {
      CmpAntisymmetric(b, i + 1, j + 1, h - 1);
    }
  }

  lemma {:induction false} CmpTransitive(b: seq<int>, i: nat, j: nat, k: nat, h: nat)
    requires b != []
    requires Cmp(b, i, j, h) <= 0 && Cmp(b, j, k, h) <= 0
    ensures Cmp(b, i, k, h) <= 0
    ensures Cmp(b, i, k, h) == 0 <==> Cmp(b, i, j, h) == 0 && Cmp(b, j, k, h) == 0
    decreases h
  {
    if h > 0 && At(b, i) == At(b, j) == At(b, k) {
      CmpTransitive(b, i + 1, j + 1, k + 1, h - 1);
    }
  }

  /** Comparing `h + g` symbols is comparing `h` symbols, then `g` more where those agree. */
  lemma {:induction false} CmpSplit(b: seq<int>, i: nat, j: nat, h: nat, g: nat)
    requires b != []
    ensures Cmp(b, i, j, h + g) == if Cmp(b, i, j, h) != 0 then Cmp(b, i, j, h) else Cmp(b, i + h, j + h, g)
    decreases h
  {
    if h > 0 {
      CmpSplit(b, i + 1, j + 1, h - 1, g);
    }
  }

  lemma {:induction false} CmpShift(b: seq<int>, i: nat, i': nat, j: nat, j': nat, h: nat)
    requires b != []
    requires i % |b| == i' % |b| && j % |b| == j' % |b|
    ensures Cmp(b, i, j, h) == Cmp(b, i', j', h)
    decreases h
  {
    if h > 0 {
      ModSucc(i, |b|);
      ModSucc(i', |b|);
      ModSucc(j, |b|);
      ModSucc(j', |b|);
      CmpShift(b, i + 1, i' + 1, j + 1, j' + 1, h - 1);
    }
  }

  lemma ModSucc(i: nat, n: nat)
    requires n > 0
    ensures (i + 1) % n == if i % n == n - 1 then 0 else i % n + 1
  {
    var q, r := i / n, i % n;
    assert i + 1 == n * q + (r + 1);
    if r == n - 1 {
      assert i + 1 == n * (q + 1);
      DivUnique(i + 1, q + 1, 0, n);
    } else {
      DivUnique(i + 1, q, r + 1, n);
    }
  }

  /** `f` lists every index below `n` exactly once. */
  ghost predicate IsPerm(f: seq<int>, n: nat) {
    && |f| == n
    && (forall p :: 0 <= p < n ==> 0 <= f[p] < n)
    && (forall p, q :: 0 <= p < q < n ==> f[p] != f[q])
  }

  function Below(n: nat): (s: set<int>)
    ensures forall x :: x in s <==> 0 <= x < n
    ensures |s| == n
  {
    if n == 0 then {} else Below(n - 1) + {n - 1}
  }

  lemma {:induction false} PermImage(f: seq<int>, k: nat)
    requires k <= |f|
    requires forall p, q :: 0 <= p < q < |f| ==> f[p] != f[q]
    ensures |set p | 0 <= p < k :: f[p]| == k
    decreases k
  {
    var s := set p | 0 <= p < k :: f[p];
    if k == 0 {
      assert s == {};
    } else {
      PermImage(f, k - 1);
      assert s == (set p | 0 <= p < k - 1 :: f[p]) + {f[k - 1]};
    }
  }

  lemma SubsetEqual(a: set<int>, b: set<int>)
    requires a <= b && |a| >= |b|
    ensures a == b
  {
    assert b == a + (b - a);
    assert |b - a| == |b| - |a|;
    assert b - a == {};
  }

  /** A permutation hits every index. */
  lemma PermHits(f: seq<int>, n: nat, x: int) returns (p: nat)
    requires IsPerm(f, n) && 0 <= x < n
    ensures p < n && f[p] == x
  {
    PermImage(f, n);
    var s := set p | 0 <= p < n :: f[p];
    SubsetEqual(s, Below(n));
    assert x in s;
    p :| 0 <= p < n && f[p] == x;
  }

  /** `f` lists the rotations of `b` in non-decreasing order of their first `h` symbols. */
  ghost predicate SortedTo(b: seq<int>, f: seq<int>, h: nat)
    requires b != []
  {
    && (forall p :: 0 <= p < |f| ==> 0 <= f[p])
    && forall p, q :: 0 <= p <= q < |f| ==> Cmp(b, f[p], f[q], h) <= 0
  }

  /** What block sorting promises: every rotation once, in non-decreasing order. */
  ghost predicate SortedRotations(b: seq<int>, f: seq<int>)
    requires b != []
  {
    IsPerm(f, |b|) && SortedTo(b, f, |b|)
  }

  /** Two sorted listings of the rotations hold, place by place, rotations that compare equal. */
  lemma SortedListingsAgree(b: seq<int>, f: seq<int>, g: seq<int>, h: nat, k: nat)
    requires b != [] && k < |b|
    requires IsPerm(f, |b|) && IsPerm(g, |b|) && SortedTo(b, f, h) && SortedTo(b, g, h)
    ensures Cmp(b, f[k], g[k], h) == 0
  {
    NotBefore(b, f, g, h, k);
    NotBefore(b, g, f, h, k);
    CmpAntisymmetric(b, f[k], g[k], h);
  }

  /** Otherwise the first `k + 1` rotations of `f` would be among the first `k` of `g`. */
  lemma NotBefore(b: seq<int>, f: seq<int>, g: seq<int>, h: nat, k: nat)
    requires b != [] && k < |b|
    requires IsPerm(f, |b|) && IsPerm(g, |b|) && SortedTo(b, f, h) && SortedTo(b, g, h)
    ensures Cmp(b, f[k], g[k], h) >= 0
  {
    if Cmp(b, f[k], g[k], h) < 0 {
      var early := set p | 0 <= p < k + 1 :: f[p];
      var room := set p | 0 <= p < k :: g[p];
      PermImage(f, k + 1);
      PermImage(g, k);
      forall x | x in early ensures x in room {
        var p :| 0 <= p < k + 1 && f[p] == x;
        var q := PermHits(g, |b|, x);
        CmpTransitive(b, x, f[k], g[k], h);
        if q >= k {
          CmpTransitive(b, x, g[k], x, h);
          CmpAntisymmetric(b, x, x, h);
          assert false;
        }
      }
      SubsetSmaller(early, room);
      assert false;
    }
  }

  lemma SubsetSmaller(a: set<int>, b: set<int>)
    requires a <= b
    ensures |a| <= |b|
  {
    assert b == a + (b - a);
  }

  /** The position `h` places before `x`, cyclically. */
  function Back(x: int, h: nat, n: nat): int {
    if x - h < 0 then x - h + n else x - h
  }

  lemma BackBounds(x: nat, n: nat)
    requires x < n
    ensures 0 <= Back(x, 1, n) < n
    ensures (Back(x, 1, n) + 1) % n == x % n
  {
    DivUnique(x, 0, x, n);
    if x == 0 {
      DivUnique(n, 1, 0, n);
    }
  }
}
