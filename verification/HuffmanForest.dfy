/** The forest of a Huffman construction: packed weights, merging, paths to the root and the Kraft sum. */
module HuffmanForest {
  import opened Arithmetic

  // ---------- packed weights: 24 bits of weight above 8 bits of depth ----------

  function W(z: nat): nat { z / 256 }

  function D(z: nat): nat { z % 256 }

  function Max(x: nat, y: nat): nat { if x > y then x else y }

  /** The weight parts added, one more than the larger depth part below them; the depth must fit its 8 bits. */
  function AddWeights(x: nat, y: nat): nat
    requires Max(D(x), D(y)) < 255
  {
    256 * (W(x) + W(y)) + (1 + Max(D(x), D(y)))
  }

  lemma AddedWeights(x: nat, y: nat)
    requires Max(D(x), D(y)) < 255
    ensures W(AddWeights(x, y)) == W(x) + W(y)
    ensures D(AddWeights(x, y)) == 1 + Max(D(x), D(y))
    ensures x >= 256 ==> AddWeights(x, y) >= 256
  {
  }

  lemma PackedOrder(x: nat, y: nat)
    requires x <= y
    ensures W(x) <= W(y)
  {
  }

  // ---------- the least weight of a tree of a given depth ----------

  /** Fibonacci numbers: the least weight a node of depth `h` can have. */
  function G(h: nat): nat {
    if h == 0 then 1 else if h == 1 then 2 else G(h - 1) + G(h - 2)
  }

  lemma {:induction false} GMonotone(h: nat, k: nat)
    requires h <= k
    ensures 1 <= G(h) <= G(k)
    decreases k
  {
    if k >= 2 {
      GMonotone(k - 2, k - 2);
      GMonotone(k - 1, k - 1);
      if h < k {
        GMonotone(h, k - 1);
      }
    }
  }

  lemma {:induction false} GDoubles(i: nat)
    ensures G(2 * i) >= Pow2(i)
  {
    if i > 0 {
      GDoubles(i - 1);
      GMonotone(2 * i - 2, 2 * i - 1);
      assert G(2 * i) == G(2 * i - 1) + G(2 * i - 2);
    }
  }

  lemma GAtForty()
    ensures G(40) >= 0x10_0000
  {
    hide G;
    GDoubles(20);
    PowAdd(10, 10);
    assert Pow2(10) == 1024;
  }

  lemma GAtThirteen()
    ensures G(13) == 610
  {
    assert G(4) == 8 && G(5) == 13;
    assert G(6) == 21 && G(7) == 34;
    assert G(8) == 55 && G(9) == 89;
    assert G(10) == 144 && G(11) == 233;
  }

  /** A node that weighs less than 2^20 is less than 40 deep. */
  lemma DepthFits(h: nat, w: nat)
    requires G(h) <= w < 0x10_0000
    ensures h < 40
  {
    hide G;
    GAtForty();
    if h >= 40 {
      GMonotone(40, h);
    }
  }

  // ---------- the growing forest ----------

  /**
   * Nodes `1..n`, the first `A` of them leaves: a parent is a later inner node, and inner node `m` is the
   * parent of exactly the nodes `a[m]` and `b[m]`.
   */
  ghost predicate Shape(p: seq<int>, a: seq<nat>, b: seq<nat>, A: nat, n: nat) {
    && A <= n < |p| && n < |a| && n < |b|
    && (forall k :: 1 <= k <= n ==> p[k] == -1 || (A < p[k] <= n && k < p[k]))
    && (forall m :: A < m <= n ==> 1 <= a[m] < m && 1 <= b[m] < m && a[m] != b[m] && p[a[m]] == m && p[b[m]] == m)
    && (forall k :: 1 <= k <= n && p[k] != -1 ==> k == a[p[k]] || k == b[p[k]])
  }

  /** Leaves have depth 0; an inner node has its children's weight and one more than their depth. */
  ghost predicate Weighs(w: seq<int>, a: seq<nat>, b: seq<nat>, A: nat, n: nat) {
    && A <= n < |w| && n < |a| && n < |b|
    && (forall k :: 1 <= k <= n ==> w[k] >= 256)
    && (forall k :: 1 <= k <= A ==> D(w[k]) == 0)
    && (forall m :: A < m <= n ==> 1 <= a[m] < m && 1 <= b[m] < m)
    && (forall m :: A < m <= n ==> D(w[m]) == 1 + Max(D(w[a[m]]), D(w[b[m]])))
  }

  /** Of the nodes that had no parent when inner node `m` was made of `x` and `y`, those two were the lightest. */
  ghost predicate Lightest(p: seq<int>, w: seq<int>, m: nat, x: nat, y: nat)
    requires m <= |p| && m <= |w| && x < m && y < m && forall k :: 1 <= k < m ==> w[k] >= 256
  {
    forall z :: 1 <= z < m && z != x && z != y && !(0 <= p[z] <= m)
      ==> 1 <= x && 1 <= y && W(w[x]) <= W(w[z]) && W(w[y]) <= W(w[z])
  }

  /** Every inner node weighs as much as its children, and they were the lightest to choose from. */
  ghost predicate Greedy(p: seq<int>, w: seq<int>, a: seq<nat>, b: seq<nat>, A: nat, n: nat) {
    && A <= n < |p| && n < |w| && n < |a| && n < |b|
    && (forall k :: 1 <= k <= n ==> w[k] >= 256)
    && (forall m :: A < m <= n ==> 1 <= a[m] < m && 1 <= b[m] < m)
    && (forall m :: A < m <= n ==> W(w[m]) == W(w[a[m]]) + W(w[b[m]]))
    && (forall m :: A < m <= n ==> Lightest(p, w, m, a[m], b[m]))
  }

  /** Every node is as heavy as its depth demands, and no live node is lighter than `low`. */
  ghost predicate HeavyEnough(w: seq<int>, p: seq<int>, n: nat, low: nat) {
    && n < |w| && n < |p|
    && (forall k :: 1 <= k <= n ==> w[k] >= 256 && W(w[k]) >= G(D(w[k])))
    && (forall k :: 1 <= k <= n && p[k] == -1 ==> W(w[k]) >= low)
    && (forall k :: 1 <= k <= n && D(w[k]) >= 1 ==> low >= G(D(w[k]) - 1))
  }

  ghost function Live(p: seq<int>, n: nat): set<int>
    requires n < |p|
  {
    set k | 1 <= k <= n && p[k] == -1
  }

  /** The weight of the live nodes among `1..k`. */
  ghost function LiveSum(p: seq<int>, w: seq<int>, k: nat): int
    requires k < |p| && k < |w| && forall i :: 1 <= i <= k ==> w[i] >= 0
  {
    if k == 0 then 0 else LiveSum(p, w, k - 1) + (if p[k] == -1 then W(w[k]) else 0)
  }

  ghost function LeafSum(w: seq<int>, k: nat): int
    requires k < |w| && forall i :: 1 <= i <= k ==> w[i] >= 0
  {
    if k == 0 then 0 else LeafSum(w, k - 1) + W(w[k])
  }

  lemma {:induction false} LiveSumLeaves(p: seq<int>, w: seq<int>, k: nat)
    requires k < |p| && k < |w| && forall i :: 1 <= i <= k ==> w[i] >= 0 && p[i] == -1
    ensures LiveSum(p, w, k) == LeafSum(w, k)
  {
    if k > 0 {
      LiveSumLeaves(p, w, k - 1);
    }
  }

  lemma {:induction false} LiveSumAtLeast(p: seq<int>, w: seq<int>, k: nat, x: nat, y: nat)
    requires k < |p| && k < |w| && forall i :: 1 <= i <= k ==> w[i] >= 0
    requires 1 <= x && 1 <= y && x != y
    ensures LiveSum(p, w, k) >= 0
    ensures x <= k && p[x] == -1 ==> LiveSum(p, w, k) >= W(w[x])
    ensures x <= k && y <= k && p[x] == -1 && p[y] == -1 ==> LiveSum(p, w, k) >= W(w[x]) + W(w[y])
    decreases k
  {
    hide W;
    if k > 0 {
      LiveSumAtLeast(p, w, k - 1, x, y);
      LiveSumAtLeast(p, w, k - 1, y, x);
    }
  }

  /** Merging two live nodes moves their weight to the new node. */
  lemma {:induction false} LiveSumMerge(p: seq<int>, q: seq<int>, w: seq<int>, v: seq<int>, k: nat, x: nat, y: nat,
          m: int)
    requires k < |p| && k < |q| && k < |w| && k < |v| && m != -1
    requires forall i :: 1 <= i <= k ==> w[i] >= 0 && v[i] == w[i]
    requires 1 <= x && 1 <= y && x != y
    requires forall i :: 1 <= i <= k ==> q[i] == if i == x || i == y then m else p[i]
    requires (x <= k ==> p[x] == -1) && (y <= k ==> p[y] == -1)
    ensures LiveSum(q, v, k) == LiveSum(p, w, k) - (if x <= k then W(w[x]) else 0) - (if y <= k then W(w[y]) else 0)
    decreases k
  {
    hide W;
    if k > 0 {
      LiveSumMerge(p, q, w, v, k - 1, x, y, m);
    }
  }

  // ---------- one merge ----------

  /** What the merging loop keeps: the forest, its weights, and the total weight of the live nodes. */
  ghost predicate Forest(p: seq<int>, w: seq<int>, a: seq<nat>, b: seq<nat>, A: nat, n: nat, low: nat, total: int) {
    && Shape(p, a, b, A, n) && Weighs(w, a, b, A, n) && HeavyEnough(w, p, n, low) && Greedy(p, w, a, b, A, n)
    && LiveSum(p, w, n) == total < 0x10_0000
  }

  /** `x` and `y` are two live nodes, no other live node being lighter than either. */
  ghost predicate TwoLightest(p: seq<int>, w: seq<int>, n: nat, x: nat, y: nat)
    requires n < |p| && n < |w|
  {
    && x in Live(p, n) && y in Live(p, n) && x != y
    && w[x] <= w[y] && forall k :: k in Live(p, n) && k != x ==> w[y] <= w[k]
  }

  lemma MergeDepths(p: seq<int>, w: seq<int>, a: seq<nat>, b: seq<nat>, A: nat, n: nat, low: nat, total: int, x: nat,
          y: nat)
    requires Forest(p, w, a, b, A, n, low, total) && TwoLightest(p, w, n, x, y)
    requires w[x] >= 0 && w[y] >= 0
    ensures D(w[x]) < 40 && D(w[y]) < 40
    ensures low <= W(w[x]) <= W(w[y])
    ensures W(w[x]) + W(w[y]) >= G(1 + Max(D(w[x]), D(w[y])))
    ensures W(w[y]) >= G(Max(D(w[x]), D(w[y])))
  {
    hide W, D, G, LiveSum;
    LiveSumAtLeast(p, w, n, x, y);
    LiveSumAtLeast(p, w, n, y, x);
    DepthFits(D(w[x]), W(w[x]));
    DepthFits(D(w[y]), W(w[y]));
    PackedOrder(w[x], w[y]);
    GStep(Max(D(w[x]), D(w[y])));
  }

  lemma GStep(h: nat)
    ensures h == 0 ==> G(h) == 1 && G(h + 1) == 2
    ensures h > 0 ==> G(h + 1) == G(h) + G(h - 1)
  {
  }

  lemma MergeForest(p: seq<int>, w: seq<int>, a: seq<nat>, b: seq<nat>, A: nat, n: nat, low: nat, total: int, x: nat,
          y: nat,
                    q: seq<int>, v: seq<int>, a': seq<nat>, b': seq<nat>)
    requires Forest(p, w, a, b, A, n, low, total) && TwoLightest(p, w, n, x, y)
    requires n + 1 < |p| && n + 1 < |w| && n + 1 < |a| && n + 1 < |b|
    requires w[x] >= 0 && w[y] >= 0 && Max(D(w[x]), D(w[y])) < 255
    requires q == p[x := n + 1][y := n + 1][n + 1 := -1] && v == w[n + 1 := AddWeights(w[x], w[y])]
    requires a' == a[n + 1 := x] && b' == b[n + 1 := y]
    ensures Forest(q, v, a', b', A, n + 1, W(w[y]), total)
  {
    hide W, D, G, AddWeights, HeavyEnough, LiveSum, Greedy;
    AddedWeights(w[x], w[y]);
    MergeDepths(p, w, a, b, A, n, low, total, x, y);
    MergeShape(p, a, b, A, n, x, y, q, a', b');
    MergeHeavy(p, w, n, low, x, y, q, v);
    MergeWeighs(w, a, b, A, n, x, y, v, a', b');
    MergeSum(p, w, n, x, y, q, v);
    MergeGreedy(p, w, a, b, A, n, x, y, q, v, a', b');
  }

  lemma MergeGreedy(p: seq<int>, w: seq<int>, a: seq<nat>, b: seq<nat>, A: nat, n: nat, x: nat, y: nat,
                    q: seq<int>, v: seq<int>, a': seq<nat>, b': seq<nat>)
    requires Greedy(p, w, a, b, A, n) && Shape(p, a, b, A, n) && TwoLightest(p, w, n, x, y)
    requires n + 1 < |p| && n + 1 < |w| && n + 1 < |a| && n + 1 < |b| && |v| == |w|
    requires q == p[x := n + 1][y := n + 1][n + 1 := -1]
    requires forall k :: 1 <= k <= n ==> v[k] == w[k]
    requires w[x] >= 0 && w[y] >= 0 && v[n + 1] >= 256 && W(v[n + 1]) == W(w[x]) + W(w[y])
    requires a' == a[n + 1 := x] && b' == b[n + 1 := y]
    ensures Greedy(q, v, a', b', A, n + 1)
  {
    hide W, Lightest;
    MergeLightest(p, w, A, n, x, y, q, v);
    forall m | A < m <= n + 1 ensures Lightest(q, v, m, a'[m], b'[m]) && W(v[m]) == W(v[a'[m]]) + W(v[b'[m]]) {
      if m <= n {
        StillLightest(p, w, n, x, y, q, v, m, a[m], b[m]);
      }
    }
  }

  lemma StillLightest(p: seq<int>, w: seq<int>, n: nat, x: nat, y: nat, q: seq<int>, v: seq<int>, m: nat, g: nat, h: nat)
    requires 1 <= m <= n && n + 1 < |p| && n + 1 < |w| && |v| == |w| && x in Live(p, n) && y in Live(p, n)
    requires g < m && h < m && (forall k :: 1 <= k <= n ==> w[k] >= 256) && Lightest(p, w, m, g, h)
    requires q == p[x := n + 1][y := n + 1][n + 1 := -1]
    requires forall k :: 1 <= k <= n ==> v[k] == w[k]
    ensures Lightest(q, v, m, g, h)
  {
    hide W;
  }

  lemma MergeLightest(p: seq<int>, w: seq<int>, A: nat, n: nat, x: nat, y: nat, q: seq<int>, v: seq<int>)
    requires n + 1 < |p| && n + 1 < |w| && |v| == |w| && TwoLightest(p, w, n, x, y)
    requires forall k :: 1 <= k <= n ==> w[k] >= 256 && (p[k] == -1 || 0 <= p[k] <= n)
    requires q == p[x := n + 1][y := n + 1][n + 1 := -1]
    requires forall k :: 1 <= k <= n ==> v[k] == w[k]
    ensures Lightest(q, v, n + 1, x, y)
  {
    hide W;
    PackedOrder(w[x], w[y]);
    forall z | 1 <= z <= n && z != x && z != y && !(0 <= q[z] <= n + 1)
      ensures 1 <= x && 1 <= y && W(v[x]) <= W(v[z]) && W(v[y]) <= W(v[z])
    {
      assert z in Live(p, n);
      PackedOrder(w[y], w[z]);
    }
  }

  lemma MergeWeighs(w: seq<int>, a: seq<nat>, b: seq<nat>, A: nat, n: nat, x: nat, y: nat, v: seq<int>, a': seq<nat>,
          b': seq<nat>)
    requires Weighs(w, a, b, A, n) && 1 <= x <= n && 1 <= y <= n
    requires n + 1 < |w| && n + 1 < |a| && n + 1 < |b| && |v| == |w|
    requires a' == a[n + 1 := x] && b' == b[n + 1 := y]
    requires forall k :: 1 <= k <= n ==> v[k] == w[k]
    requires v[n + 1] >= 256 && D(v[n + 1]) == 1 + Max(D(w[x]), D(w[y]))
    ensures Weighs(v, a', b', A, n + 1)
  {
    hide D;
  }

  lemma MergeSum(p: seq<int>, w: seq<int>, n: nat, x: nat, y: nat, q: seq<int>, v: seq<int>)
    requires n + 1 < |p| && n + 1 < |w| && |v| == |w| && x in Live(p, n) && y in Live(p, n) && x != y
    requires q == p[x := n + 1][y := n + 1][n + 1 := -1]
    requires forall k :: 1 <= k <= n ==> w[k] >= 0 && v[k] == w[k]
    requires v[n + 1] >= 0 && W(v[n + 1]) == W(w[x]) + W(w[y])
    ensures LiveSum(q, v, n + 1) == LiveSum(p, w, n)
  {
    hide W;
    LiveSumMerge(p, q, w, v, n, x, y, n + 1);
  }

  lemma MergeShape(p: seq<int>, a: seq<nat>, b: seq<nat>, A: nat, n: nat, x: nat, y: nat, q: seq<int>, a': seq<nat>,
          b': seq<nat>)
    requires Shape(p, a, b, A, n) && x in Live(p, n) && y in Live(p, n) && x != y
    requires n + 1 < |p| && n + 1 < |a| && n + 1 < |b|
    requires q == p[x := n + 1][y := n + 1][n + 1 := -1] && a' == a[n + 1 := x] && b' == b[n + 1 := y]
    ensures Shape(q, a', b', A, n + 1)
  {
  }

  lemma MergeHeavy(p: seq<int>, w: seq<int>, n: nat, low: nat, x: nat, y: nat, q: seq<int>, v: seq<int>)
    requires HeavyEnough(w, p, n, low) && n + 1 < |p| && n + 1 < |w| && TwoLightest(p, w, n, x, y)
    requires w[x] >= 0 && w[y] >= 0 && low <= W(w[x]) <= W(w[y])
    requires W(w[x]) + W(w[y]) >= G(1 + Max(D(w[x]), D(w[y])))
    requires W(w[y]) >= G(Max(D(w[x]), D(w[y])))
    requires q == p[x := n + 1][y := n + 1][n + 1 := -1] && |v| == |w|
    requires forall k :: 1 <= k <= n ==> v[k] == w[k]
    requires v[n + 1] >= 256 && W(v[n + 1]) == W(w[x]) + W(w[y]) && D(v[n + 1]) == 1 + Max(D(w[x]), D(w[y]))
    ensures HeavyEnough(v, q, n + 1, W(w[y]))
  {
    hide W, D, G;
    forall k | 1 <= k <= n + 1 && q[k] == -1 ensures v[k] >= 0 && W(v[k]) >= W(w[y]) {
      if k <= n {
        assert k in Live(p, n) && k != x && k != y;
        PackedOrder(w[y], w[k]);
      }
    }
  }

  lemma MergeLive(p: seq<int>, n: nat, x: nat, y: nat, q: seq<int>)
    requires n + 1 < |p| && x in Live(p, n) && y in Live(p, n) && x != y
    requires q == p[x := n + 1][y := n + 1][n + 1 := -1]
    ensures Live(q, n + 1) == Live(p, n) - {x, y} + {n + 1}
    ensures multiset(Live(q, n + 1)) == multiset(Live(p, n)) - multiset{x} - multiset{y} + multiset{n + 1}
  {
    assert Live(q, n + 1) == Live(p, n) - {x, y} + {n + 1};
  }

  // ---------- code lengths: the distance from a leaf to the root ----------

  /** The number of parents above node `k`. */
  ghost function PathLen(p: seq<int>, k: nat): nat
    requires k < |p|
    decreases |p| - k
  {
    if k < p[k] < |p| then 1 + PathLen(p, p[k]) else 0
  }

  /** The one tree left: every node but the root `n` has a parent. */
  ghost predicate OneTree(p: seq<int>, a: seq<nat>, b: seq<nat>, A: nat, n: nat) {
    1 <= A < n && Shape(p, a, b, A, n) && Live(p, n) == {n}
  }

  lemma Parented(p: seq<int>, a: seq<nat>, b: seq<nat>, A: nat, n: nat, k: nat)
    requires OneTree(p, a, b, A, n) && 1 <= k < n
    ensures A < p[k] <= n && k < p[k] && PathLen(p, k) == 1 + PathLen(p, p[k])
  {
    assert k !in Live(p, n);
  }

  lemma RootPath(p: seq<int>, a: seq<nat>, b: seq<nat>, A: nat, n: nat)
    requires OneTree(p, a, b, A, n)
    ensures p[n] == -1 && PathLen(p, n) == 0
  {
    assert n in Live(p, n);
  }

  /** A path never outgrows the depth that the packed weights recorded. */
  lemma {:induction false} PathWithinDepth(p: seq<int>, w: seq<int>, a: seq<nat>, b: seq<nat>, A: nat, n: nat, k: nat)
    requires OneTree(p, a, b, A, n) && Weighs(w, a, b, A, n) && 1 <= k <= n
    ensures PathLen(p, k) + D(w[k]) <= D(w[n])
    decreases n - k
  {
    hide D;
    if k == n {
      RootPath(p, a, b, A, n);
    } else {
      Parented(p, a, b, A, n, k);
      PathWithinDepth(p, w, a, b, A, n, p[k]);
    }
  }

  /** A tree with a path of length `h` weighs at least `G(h)`. */
  lemma DeepIsHeavy(p: seq<int>, w: seq<int>, a: seq<nat>, b: seq<nat>, A: nat, n: nat, low: nat, total: int, i: nat)
    requires OneTree(p, a, b, A, n) && Forest(p, w, a, b, A, n, low, total) && 1 <= i <= n
    ensures total >= G(PathLen(p, i))
  {
    hide D, W, G, PathLen, LiveSum;
    PathWithinDepth(p, w, a, b, A, n, i);
    RootPath(p, a, b, A, n);
    LiveSumAtLeast(p, w, n, n, n + 1);
    GMonotone(PathLen(p, i), D(w[n]));
  }

  /** If no leaf's path is longer than `L`, no node's is. */
  lemma {:induction false} InnerPaths(p: seq<int>, a: seq<nat>, b: seq<nat>, A: nat, n: nat, L: nat, k: nat)
    requires OneTree(p, a, b, A, n) && 1 <= k <= n
    requires forall i :: 1 <= i <= A ==> PathLen(p, i) <= L
    ensures PathLen(p, k) <= L
    decreases k
  {
    hide PathLen;
    if k > A {
      Parented(p, a, b, A, n, a[k]);
      InnerPaths(p, a, b, A, n, L, a[k]);
    }
  }

  // ---------- the Kraft sum ----------

  function Term(L: nat, d: nat): nat {
    if d <= L then Pow2(L - d) else 0
  }

  /** Node `k` had no parent yet when the tree had grown to `m` nodes. */
  ghost predicate Open(p: seq<int>, m: nat, k: nat)
    requires k < |p|
  {
    !(0 <= p[k] <= m)
  }

  /** The Kraft sum, times 2^L, of the open nodes among `1..k` put at the depths `d`. */
  ghost function Frontier(p: seq<int>, L: nat, d: seq<nat>, m: nat, k: nat): nat
    requires k < |p| && k < |d|
  {
    if k == 0 then 0
    else Frontier(p, L, d, m, k - 1) + (if Open(p, m, k) then Term(L, d[k]) else 0)
  }

  /** Uncovering the two children of `m` adds their terms. */
  lemma {:induction false} FrontierUncover(p: seq<int>, a: seq<nat>, b: seq<nat>, A: nat, n: nat, L: nat, d: seq<nat>,
          m: nat, k: nat)
    requires OneTree(p, a, b, A, n) && A < m <= n < |d| && k < m
    ensures Frontier(p, L, d, m - 1, k) == Frontier(p, L, d, m, k)
      + (if a[m] <= k then Term(L, d[a[m]]) else 0)
      + (if b[m] <= k then Term(L, d[b[m]]) else 0)
    decreases k
  {
    hide Term;
    if k > 0 {
      FrontierUncover(p, a, b, A, n, L, d, m, k - 1);
      assert p[k] == m ==> k == a[m] || k == b[m];
    }
  }

  lemma TermSplits(L: nat, d: nat)
    requires d + 1 <= L
    ensures Term(L, d) == Term(L, d + 1) + Term(L, d + 1)
  {
  }

  /** Replacing an inner node by its two children leaves the Kraft sum as it was. */
  lemma FrontierStep(p: seq<int>, a: seq<nat>, b: seq<nat>, A: nat, n: nat, L: nat, d: seq<nat>, m: nat)
    requires OneTree(p, a, b, A, n) && A < m <= n < |d|
    requires d[a[m]] == d[b[m]] == d[m] + 1 <= L
    ensures Frontier(p, L, d, m - 1, m - 1) == Frontier(p, L, d, m, m)
  {
    hide Term;
    FrontierUncover(p, a, b, A, n, L, d, m, m - 1);
    TermSplits(L, d[m]);
  }

  /** The depths of the nodes in the tree. */
  ghost function Paths(p: seq<int>, n: nat): (d: seq<nat>)
    requires n < |p|
    ensures |d| == n + 1 && forall k :: 0 <= k <= n ==> d[k] == PathLen(p, k)
  {
    seq(n + 1, k requires 0 <= k <= n => PathLen(p, k))
  }

  lemma ChildPaths(p: seq<int>, a: seq<nat>, b: seq<nat>, A: nat, n: nat, m: nat)
    requires OneTree(p, a, b, A, n) && A < m <= n
    ensures PathLen(p, a[m]) == PathLen(p, b[m]) == PathLen(p, m) + 1
  {
    hide PathLen;
    Parented(p, a, b, A, n, a[m]);
    Parented(p, a, b, A, n, b[m]);
  }

  lemma {:induction false} FrontierToLeaves(p: seq<int>, a: seq<nat>, b: seq<nat>, A: nat, n: nat, L: nat, m: nat)
    requires OneTree(p, a, b, A, n) && A <= m <= n
    requires forall k :: 1 <= k <= n ==> PathLen(p, k) <= L
    ensures Frontier(p, L, Paths(p, n), A, A) == Frontier(p, L, Paths(p, n), m, m)
    decreases m
  {
    hide PathLen, Term;
    if m > A {
      ChildPaths(p, a, b, A, n, m);
      assert PathLen(p, a[m]) <= L;
      FrontierStep(p, a, b, A, n, L, Paths(p, n), m);
      FrontierToLeaves(p, a, b, A, n, L, m - 1);
    }
  }

  lemma {:induction false} FrontierAtRoot(p: seq<int>, a: seq<nat>, b: seq<nat>, A: nat, n: nat, L: nat, d: seq<nat>,
          k: nat)
    requires OneTree(p, a, b, A, n) && k < n < |d|
    ensures Frontier(p, L, d, n, k) == 0
    decreases k
  {
    if k > 0 {
      Parented(p, a, b, A, n, k);
      FrontierAtRoot(p, a, b, A, n, L, d, k - 1);
    }
  }

  /** The Kraft sum, times 2^L, of the first `k` code lengths. */
  ghost function KraftSum(len: seq<int>, L: nat, k: nat): nat
    requires k <= |len| && forall i :: 0 <= i < k ==> len[i] >= 0
  {
    if k == 0 then 0 else KraftSum(len, L, k - 1) + Term(L, len[k - 1])
  }

  /** When only the leaves are there, all of them are open. */
  lemma {:induction false} KraftIsFrontier(p: seq<int>, a: seq<nat>, b: seq<nat>, A: nat, n: nat, L: nat, len: seq<int>,
          d: seq<nat>, k: nat)
    requires OneTree(p, a, b, A, n) && k <= A <= |len| && n < |d|
    requires forall i :: 1 <= i <= A ==> len[i - 1] == d[i]
    requires forall i :: 0 <= i < A ==> len[i] >= 0
    ensures KraftSum(len, L, k) == Frontier(p, L, d, A, k)
    decreases k
  {
    hide Term;
    if k > 0 {
      KraftIsFrontier(p, a, b, A, n, L, len, d, k - 1);
      assert len[k - 1] == d[k];
      Parented(p, a, b, A, n, k);
    }
  }

  /** Path lengths of at most `L` make a complete code. */
  lemma KraftComplete(p: seq<int>, a: seq<nat>, b: seq<nat>, A: nat, n: nat, L: nat, len: seq<int>)
    requires OneTree(p, a, b, A, n) && A <= |len|
    requires forall i :: 1 <= i <= A ==> len[i - 1] == PathLen(p, i) <= L
    requires forall i :: 0 <= i < A ==> len[i] >= 0
    ensures KraftSum(len, L, A) == Pow2(L)
  {
    hide PathLen, KraftSum, Pow2;
    forall k | 1 <= k <= n ensures PathLen(p, k) <= L {
      InnerPaths(p, a, b, A, n, L, k);
    }
    KraftIsFrontier(p, a, b, A, n, L, len, Paths(p, n), A);
    FrontierToLeaves(p, a, b, A, n, L, n);
    FrontierAtRoot(p, a, b, A, n, L, Paths(p, n), n - 1);
    RootPath(p, a, b, A, n);
  }
}
