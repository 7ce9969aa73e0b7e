/** Huffman's tree is optimal: no code costs less than the one it gives. */
module HuffmanOptimal {
  import opened Arithmetic
  import opened HuffmanForest

  // ---------- what a choice of depths costs ----------

  /** Weight times depth, added over the open nodes among `1..k`. */
  ghost function Cost(p: seq<int>, w: seq<int>, d: seq<nat>, m: nat, k: nat): nat
    requires k < |p| && k < |w| && k < |d| && forall i :: 1 <= i <= k ==> w[i] >= 0
  {
    if k == 0 then 0 else Cost(p, w, d, m, k - 1) + (if Open(p, m, k) then W(w[k]) * d[k] else 0)
  }

  lemma {:induction false} CostUpdate(p: seq<int>, w: seq<int>, d: seq<nat>, m: nat, k: nat, u: nat, t: nat)
    requires k < |p| && k < |w| && k < |d| && forall i :: 1 <= i <= k ==> w[i] >= 0
    requires 1 <= u < |d| && u < |p| && u < |w| && w[u] >= 0
    ensures Cost(p, w, d[u := t], m, k) == Cost(p, w, d, m, k) + (if u <= k && Open(p, m, u) then W(w[u]) * t - W(w[u]) * d[u] else 0)
    decreases k
  {
    hide W, Open;
    if k > 0 {
      CostUpdate(p, w, d, m, k - 1, u, t);
    }
  }

  lemma {:induction false} FrontierUpdate(p: seq<int>, L: nat, d: seq<nat>, m: nat, k: nat, u: nat, t: nat)
    requires k < |p| && k < |d| && 1 <= u < |d| && u < |p|
    ensures Frontier(p, L, d[u := t], m, k) == Frontier(p, L, d, m, k) + (if u <= k && Open(p, m, u) then Term(L, t) - Term(L, d[u]) else 0)
    decreases k
  {
    hide Term, Open;
    if k > 0 {
      FrontierUpdate(p, L, d, m, k - 1, u, t);
    }
  }

  /** Uncovering the two children of `m` adds what they cost. */
  lemma {:induction false} CostUncover(p: seq<int>, w: seq<int>, a: seq<nat>, b: seq<nat>, A: nat, n: nat, d: seq<nat>,
          m: nat, k: nat)
    requires OneTree(p, a, b, A, n) && A < m <= n < |d| && k < m
    requires n < |w| && forall i :: 1 <= i <= n ==> w[i] >= 0
    ensures Cost(p, w, d, m - 1, k) == Cost(p, w, d, m, k)
      + (if a[m] <= k then W(w[a[m]]) * d[a[m]] else 0)
      + (if b[m] <= k then W(w[b[m]]) * d[b[m]] else 0)
    decreases k
  {
    hide W;
    if k > 0 {
      CostUncover(p, w, a, b, A, n, d, m, k - 1);
      assert p[k] == m ==> k == a[m] || k == b[m];
    }
  }

  /** Splitting a node into its two children, one level down, costs their weights. */
  lemma CostStep(p: seq<int>, w: seq<int>, a: seq<nat>, b: seq<nat>, A: nat, n: nat, d: seq<nat>, m: nat)
    requires OneTree(p, a, b, A, n) && Greedy(p, w, a, b, A, n) && A < m <= n < |d|
    requires d[a[m]] == d[b[m]] == d[m] + 1
    ensures Cost(p, w, d, m - 1, m - 1) == Cost(p, w, d, m, m) + W(w[m])
  {
    hide W, Open, Cost, Shape;
    CostUncover(p, w, a, b, A, n, d, m, m - 1);
    CostTop(p, w, a, b, A, n, d, m);
    OneDown(W(w[a[m]]), W(w[b[m]]), W(w[m]), d[m], d[m] + 1);
  }

  lemma CostTop(p: seq<int>, w: seq<int>, a: seq<nat>, b: seq<nat>, A: nat, n: nat, d: seq<nat>, m: nat)
    requires OneTree(p, a, b, A, n) && 1 <= m <= n < |d| && n < |w| && forall i :: 1 <= i <= n ==> w[i] >= 0
    ensures Cost(p, w, d, m, m) == Cost(p, w, d, m, m - 1) + W(w[m]) * d[m]
  {
    hide W;
    assert Open(p, m, m);
  }

  lemma OneDown(x: nat, y: nat, z: nat, h: nat, g: nat)
    requires z == x + y && g == h + 1
    ensures x * g + y * g == z * h + z
  {
    assert z * g == x * g + y * g;
    assert z * g == z * h + z;
  }

  lemma {:induction false} CostAtRoot(p: seq<int>, w: seq<int>, a: seq<nat>, b: seq<nat>, A: nat, n: nat, d: seq<nat>,
          k: nat)
    requires OneTree(p, a, b, A, n) && k < n < |d|
    requires n < |w| && forall i :: 1 <= i <= n ==> w[i] >= 0
    ensures Cost(p, w, d, n, k) == 0
    decreases k
  {
    if k > 0 {
      Parented(p, a, b, A, n, k);
      CostAtRoot(p, w, a, b, A, n, d, k - 1);
    }
  }

  // ---------- exchanges that cost nothing ----------

  /** Depths for the open nodes that some prefix code could give them. */
  ghost predicate Depths(p: seq<int>, L: nat, d: seq<nat>, m: nat) {
    && m < |p| && m < |d|
    && (forall k :: 1 <= k <= m && Open(p, m, k) ==> d[k] <= L)
    && Frontier(p, L, d, m, m) <= Pow2(L)
  }

  /** Putting the heavier of two nodes at the lesser of their depths. */
  lemma Exchange(p: seq<int>, w: seq<int>, L: nat, d: seq<nat>, m: nat, u: nat, v: nat) returns (e: seq<nat>)
    requires Depths(p, L, d, m) && m < |w| && forall i :: 1 <= i <= m ==> w[i] >= 0
    requires 1 <= u <= m && 1 <= v <= m && Open(p, m, u) && Open(p, m, v)
    requires W(w[u]) <= W(w[v]) && d[u] <= d[v]
    ensures |e| == |d| && e == d[u := d[v]][v := d[u]]
    ensures Depths(p, L, e, m) && Cost(p, w, e, m, m) <= Cost(p, w, d, m, m)
  {
    hide W, Term, Open;
    var c := d[u := d[v]];
    e := c[v := d[u]];
    FrontierUpdate(p, L, d, m, m, u, d[v]);
    FrontierUpdate(p, L, c, m, m, v, d[u]);
    CostUpdate(p, w, d, m, m, u, d[v]);
    CostUpdate(p, w, c, m, m, v, d[u]);
    Crossed(W(w[u]), W(w[v]), d[u], d[v]);
  }

  lemma Crossed(x: nat, y: nat, g: nat, h: nat)
    requires x <= y && g <= h
    ensures x * h + y * g <= x * g + y * h
  {
    assert (y - x) * (h - g) >= 0;
  }

  /** If all open nodes but one are above depth `h`, the Kraft sum leaves room to raise that one. */
  lemma {:induction false} FrontierMultiple(p: seq<int>, L: nat, d: seq<nat>, m: nat, k: nat, h: nat) returns (q: nat)
    requires k < |p| && k < |d| && h <= L
    requires forall i :: 1 <= i <= k && Open(p, m, i) ==> d[i] <= h
    ensures Frontier(p, L, d, m, k) == q * Pow2(L - h)
    decreases k
  {
    hide Open;
    if k == 0 {
      q := 0;
    } else {
      q := FrontierMultiple(p, L, d, m, k - 1, h);
      if Open(p, m, k) {
        PowAdd(h - d[k], L - h);
        assert (q + Pow2(h - d[k])) * Pow2(L - h) == q * Pow2(L - h) + Pow2(h - d[k]) * Pow2(L - h);
        q := q + Pow2(h - d[k]);
      }
    }
  }

  lemma TimesMonotone(x: nat, y: nat, s: nat)
    requires x <= y
    ensures x * s <= y * s
  {
    assert (y - x) * s >= 0;
  }

  lemma OneMore(x: nat, s: nat)
    ensures (x + 1) * s == x * s + s
  {
  }

  lemma RoundedUp(q: nat, r: nat, s: nat, t: nat)
    requires q * s <= r * s + t && t < s
    ensures q * s <= r * s
  {
    if q <= r {
      TimesMonotone(q, r, s);
    } else {
      OneMore(r, s);
      TimesMonotone(r + 1, q, s);
    }
  }

  lemma Raise(p: seq<int>, w: seq<int>, L: nat, d: seq<nat>, m: nat, z: nat) returns (e: seq<nat>)
    requires Depths(p, L, d, m) && m < |w| && forall i :: 1 <= i <= m ==> w[i] >= 256
    requires 1 <= z <= m && Open(p, m, z) && d[z] >= 1
    requires forall k :: 1 <= k <= m && k != z && Open(p, m, k) ==> d[k] < d[z]
    ensures |e| == |d| && Depths(p, L, e, m) && Cost(p, w, e, m, m) < Cost(p, w, d, m, m)
  {
    hide Open, Frontier, Cost;
    var h := d[z] - 1;
    e := d[z := h];
    FrontierUpdate(p, L, d, m, m, z, h);
    CostUpdate(p, w, d, m, m, z, h);
    assert W(w[z]) * (h + 1) == W(w[z]) * h + W(w[z]);
    var q := FrontierMultiple(p, L, e, m, m, h);
    PowAdd(h, L - h);
    RoundedUp(q, Pow2(h), Pow2(L - h), Pow2(L - h - 1));
  }

  lemma {:induction false} Deepest(p: seq<int>, d: seq<nat>, m: nat, k: nat, u: nat) returns (z: nat)
    requires k < |p| && k < |d| && 1 <= u < |p| && u < |d| && Open(p, m, u)
    ensures 1 <= z < |p| && z < |d| && (z == u || z <= k) && Open(p, m, z) && d[u] <= d[z]
    ensures forall i :: 1 <= i <= k && Open(p, m, i) ==> d[i] <= d[z]
    decreases k
  {
    hide Open;
    if k == 0 {
      z := u;
    } else {
      z := Deepest(p, d, m, k - 1, u);
      if Open(p, m, k) && d[k] > d[z] {
        z := k;
      }
    }
  }

  /** The two lightest nodes, `x` and `y`, put at the depth of the two deepest. */
  lemma Sink(p: seq<int>, w: seq<int>, L: nat, d: seq<nat>, m: nat, x: nat, y: nat, s: nat, t: nat)
    returns (e: seq<nat>)
    requires Depths(p, L, d, m) && m < |d| && m < |p| && m < |w| && forall i :: 1 <= i <= m ==> w[i] >= 0
    requires 1 <= x <= m && 1 <= y <= m && x != y && Open(p, m, x) && Open(p, m, y)
    requires forall z :: 1 <= z <= m && z != x && z != y && Open(p, m, z) ==> W(w[x]) <= W(w[z]) && W(w[y]) <= W(w[z])
    requires 1 <= s <= m && 1 <= t <= m && s != t && Open(p, m, s) && Open(p, m, t) && d[s] == d[t] && s != y && t != x
    requires forall k :: 1 <= k <= m && Open(p, m, k) ==> d[k] <= d[s]
    ensures |e| == |d| && e[x] == e[y] == d[s]
    ensures Depths(p, L, e, m) && Cost(p, w, e, m, m) <= Cost(p, w, d, m, m)
  {
    hide W, Open, Cost, Depths;
    e := Exchange(p, w, L, d, m, x, s);
    e := Exchange(p, w, L, e, m, y, t);
  }

  // ---------- optimality ----------

  /** The two children of `m` are open and no lighter node is, just before they are merged. */
  lemma Children(p: seq<int>, w: seq<int>, a: seq<nat>, b: seq<nat>, A: nat, n: nat, m: nat)
    requires OneTree(p, a, b, A, n) && Greedy(p, w, a, b, A, n) && A < m <= n
    ensures Open(p, m - 1, a[m]) && Open(p, m - 1, b[m])
    ensures forall z :: 1 <= z < m && z != a[m] && z != b[m] && Open(p, m - 1, z) ==> W(w[a[m]]) <= W(w[z]) && W(w[b[m]]) <= W(w[z])
  {
    hide W;
  }

  /** Two open nodes cannot both be at depth 0. */
  lemma NotBothAtTop(p: seq<int>, a: seq<nat>, b: seq<nat>, A: nat, n: nat, L: nat, d: seq<nat>, m: nat)
    requires OneTree(p, a, b, A, n) && A < m <= n < |d| && Depths(p, L, d, m - 1)
    ensures d[a[m]] >= 1 || d[b[m]] >= 1
  {
    FrontierUncover(p, a, b, A, n, L, d, m, m - 1);
  }

  /** No depths that a prefix code could give the open nodes cost less than their depths in the tree. */
  lemma {:induction false} NoneCheaper(p: seq<int>, w: seq<int>, a: seq<nat>, b: seq<nat>, A: nat, n: nat, L: nat,
          d: seq<nat>, m: nat)
    requires OneTree(p, a, b, A, n) && Greedy(p, w, a, b, A, n) && A <= m <= n < |d| && Depths(p, L, d, m)
    ensures Cost(p, w, Paths(p, n), m, m) <= Cost(p, w, d, m, m)
    decreases n - m, Cost(p, w, d, m, m)
  {
    hide W, Cost, Depths, Open, Greedy, PathLen, Frontier;
    TreeBounds(p, w, a, b, A, n);
    if m == n {
      RootCostsNothing(p, w, a, b, A, n);
    } else {
      var x, y := a[m + 1], b[m + 1];
      Children(p, w, a, b, A, n, m + 1);
      NotBothAtTop(p, a, b, A, n, L, d, m + 1);
      var s := Deepest(p, d, m, m, x);
      if t :| 1 <= t <= m && t != s && Open(p, m, t) && d[t] == d[s] {
        var g, h := s, t;
        if s == y || t == x {
          g, h := t, s;
        }
        var e := Sink(p, w, L, d, m, x, y, g, h);
        Merged(p, w, a, b, A, n, L, e, m + 1, d[s] - 1);
        NoneCheaper(p, w, a, b, A, n, L, e[m + 1 := d[s] - 1], m + 1);
        ChildPaths(p, a, b, A, n, m + 1);
        CostStep(p, w, a, b, A, n, Paths(p, n), m + 1);
      } else {
        var e := Raise(p, w, L, d, m, s);
        NoneCheaper(p, w, a, b, A, n, L, e, m);
      }
    }
  }

  lemma TreeBounds(p: seq<int>, w: seq<int>, a: seq<nat>, b: seq<nat>, A: nat, n: nat)
    requires OneTree(p, a, b, A, n) && Greedy(p, w, a, b, A, n)
    ensures n < |p| && n < |w| && n < |a| && n < |b| && forall i :: 1 <= i <= n ==> w[i] >= 256
  {
  }

  lemma RootCostsNothing(p: seq<int>, w: seq<int>, a: seq<nat>, b: seq<nat>, A: nat, n: nat)
    requires OneTree(p, a, b, A, n) && n < |w| && forall i :: 1 <= i <= n ==> w[i] >= 0
    ensures Cost(p, w, Paths(p, n), n, n) == 0
  {
    hide W, PathLen;
    RootPath(p, a, b, A, n);
    CostAtRoot(p, w, a, b, A, n, Paths(p, n), n - 1);
  }

  /** A node open when `m` was made was open just before. */
  lemma Siblings(p: seq<int>, w: seq<int>, a: seq<nat>, b: seq<nat>, A: nat, n: nat, m: nat)
    requires OneTree(p, a, b, A, n) && Greedy(p, w, a, b, A, n) && A < m <= n
    ensures 1 <= a[m] < m && 1 <= b[m] < m && Open(p, m - 1, a[m]) && Open(p, m, m)
    ensures forall k :: 1 <= k < m && Open(p, m, k) ==> Open(p, m - 1, k)
  {
    hide W;
  }

  /** Two siblings merged: their parent takes a place one level up, and the rest is as before. */
  lemma Merged(p: seq<int>, w: seq<int>, a: seq<nat>, b: seq<nat>, A: nat, n: nat, L: nat, d: seq<nat>, m: nat, h: nat)
    requires OneTree(p, a, b, A, n) && Greedy(p, w, a, b, A, n) && A < m <= n < |d| && Depths(p, L, d, m - 1)
    requires d[a[m]] == d[b[m]] == h + 1
    ensures Depths(p, L, d[m := h], m)
    ensures Cost(p, w, d, m - 1, m - 1) == Cost(p, w, d[m := h], m, m) + W(w[m])
  {
    hide W, Cost, Frontier, Term, Greedy, OneTree, Open, Depths;
    TreeBounds(p, w, a, b, A, n);
    Siblings(p, w, a, b, A, n, m);
    CostUpdate(p, w, d, m - 1, m - 1, m, h);
    CostStep(p, w, a, b, A, n, d[m := h], m);
    MergedDepths(p, w, a, b, A, n, L, d, m, h);
  }

  lemma MergedDepths(p: seq<int>, w: seq<int>, a: seq<nat>, b: seq<nat>, A: nat, n: nat, L: nat, d: seq<nat>, m: nat,
          h: nat)
    requires OneTree(p, a, b, A, n) && Greedy(p, w, a, b, A, n) && A < m <= n < |d| && Depths(p, L, d, m - 1)
    requires d[a[m]] == d[b[m]] == h + 1
    ensures Depths(p, L, d[m := h], m)
  {
    hide W, Frontier, Term, Greedy, Shape, Open;
    TreeBounds(p, w, a, b, A, n);
    Siblings(p, w, a, b, A, n, m);
    assert d[a[m]] <= L;
    FrontierUpdate(p, L, d, m - 1, m - 1, m, h);
    FrontierStep(p, a, b, A, n, L, d[m := h], m);
  }

  // ---------- the leaves ----------

  /** A symbol that never occurs weighs as much as one that occurs once. */
  function SymbolWeight(f: int): int {
    if f == 0 then 1 else f
  }

  /** The bits that symbols of the given frequencies take, a frequency of 0 counting as 1. */
  ghost function CodeCost(freq: seq<int>, len: seq<int>, k: nat): int
    requires k <= |freq| && k <= |len|
  {
    if k == 0 then 0 else CodeCost(freq, len, k - 1) + SymbolWeight(freq[k - 1]) * len[k - 1]
  }

  /** Code lengths of at most `L` that a prefix code can have. */
  ghost predicate CodeLengths(len: seq<nat>, L: nat) {
    (forall i :: 0 <= i < |len| ==> len[i] <= L) && KraftSum(len, L, |len|) <= Pow2(L)
  }

  /** No code for the first `A` symbols, however long its codes, takes fewer bits. */
  ghost predicate Optimal(freq: seq<int>, len: seq<int>, A: nat)
    requires A <= |freq| && A <= |len|
  {
    forall other: seq<nat>, L: nat :: |other| == A && CodeLengths(other, L) ==> CodeCost(freq, len, A) <= CodeCost(freq, other, A)
  }

  /** The leaf weights are the frequencies. */
  ghost predicate Weighted(freq: seq<int>, w: seq<int>, A: nat) {
    A <= |freq| && A < |w| && forall i :: 1 <= i <= A ==> w[i] >= 0 && W(w[i]) == SymbolWeight(freq[i - 1])
  }

  lemma {:induction false} CostIsCodeCost(p: seq<int>, w: seq<int>, a: seq<nat>, b: seq<nat>, A: nat, n: nat,
                                          freq: seq<int>, len: seq<int>, d: seq<nat>, k: nat)
    requires OneTree(p, a, b, A, n) && Weighted(freq, w, A) && k <= A <= |len| && n < |d|
    requires forall i :: 1 <= i <= A ==> len[i - 1] == d[i]
    ensures CodeCost(freq, len, k) == Cost(p, w, d, A, k)
    decreases k
  {
    hide W;
    if k > 0 {
      CostIsCodeCost(p, w, a, b, A, n, freq, len, d, k - 1);
      Parented(p, a, b, A, n, k);
      assert len[k - 1] == d[k] && W(w[k]) == SymbolWeight(freq[k - 1]);
    }
  }

  lemma CheaperNever(p: seq<int>, w: seq<int>, a: seq<nat>, b: seq<nat>, A: nat, n: nat, freq: seq<int>, len: seq<int>,
                     other: seq<nat>, L: nat)
    requires OneTree(p, a, b, A, n) && Greedy(p, w, a, b, A, n) && Weighted(freq, w, A) && A <= |len|
    requires forall i :: 1 <= i <= A ==> len[i - 1] == PathLen(p, i)
    requires |other| == A && CodeLengths(other, L)
    ensures CodeCost(freq, len, A) <= CodeCost(freq, other, A)
  {
    hide W, Greedy, Weighted, PathLen, Cost, CodeCost, Frontier;
    var d: seq<nat> := seq(n + 1, i => if 1 <= i <= A then other[i - 1] else 0);
    KraftIsFrontier(p, a, b, A, n, L, other, d, A);
    CostIsCodeCost(p, w, a, b, A, n, freq, other, d, A);
    CostIsCodeCost(p, w, a, b, A, n, freq, len, Paths(p, n), A);
    NoneCheaper(p, w, a, b, A, n, L, d, A);
  }

  /** The path lengths of a greedily built tree are optimal code lengths. */
  lemma GreedyOptimal(p: seq<int>, w: seq<int>, a: seq<nat>, b: seq<nat>, A: nat, n: nat, freq: seq<int>, len: seq<int>)
    requires OneTree(p, a, b, A, n) && Greedy(p, w, a, b, A, n) && Weighted(freq, w, A) && A <= |len|
    requires forall i :: 1 <= i <= A ==> len[i - 1] == PathLen(p, i)
    ensures Optimal(freq, len, A)
  {
    hide Greedy, PathLen, CodeCost, CodeLengths, OneTree;
    forall other: seq<nat>, L: nat | |other| == A && CodeLengths(other, L)
      ensures CodeCost(freq, len, A) <= CodeCost(freq, other, A)
    {
      CheaperNever(p, w, a, b, A, n, freq, len, other, L);
    }
  }

  // ---------- trees with a path that is too long ----------

  ghost function WeightSum(freq: seq<int>, k: nat): int
    requires k <= |freq|
  {
    if k == 0 then 0 else WeightSum(freq, k - 1) + SymbolWeight(freq[k - 1])
  }

  /** A complete tree that merging the lightest nodes makes of the frequencies. */
  ghost predicate HuffmanTree(freq: seq<int>, p: seq<int>, w: seq<int>, a: seq<nat>, b: seq<nat>, A: nat, n: nat,
          low: nat) {
    Weighted(freq, w, A) && OneTree(p, a, b, A, n) && Forest(p, w, a, b, A, n, low, WeightSum(freq, A))
  }

  ghost predicate TooLong(p: seq<int>, A: nat, maxLen: nat) {
    exists i :: 1 <= i <= A < |p| && PathLen(p, i) > maxLen
  }

  /** Merging the lightest nodes can put some symbol deeper than `maxLen`. */
  ghost predicate Overlong(freq: seq<int>, A: nat, maxLen: nat) {
    exists p, w, a, b, n, low :: HuffmanTree(freq, p, w, a, b, A, n, low) && TooLong(p, A, maxLen)
  }

  lemma {:induction false} WeightSumLeaves(freq: seq<int>, w: seq<int>, A: nat, k: nat)
    requires Weighted(freq, w, A) && k <= A
    ensures LeafSum(w, k) == WeightSum(freq, k)
  {
    hide W, SymbolWeight;
    if k > 0 {
      WeightSumLeaves(freq, w, A, k - 1);
      assert W(w[k]) == SymbolWeight(freq[k - 1]);
    }
  }

  /** That takes frequencies whose total is at least a Fibonacci number. */
  lemma OverlongIsHeavy(freq: seq<int>, A: nat, maxLen: nat)
    requires Overlong(freq, A, maxLen) && A <= |freq|
    ensures WeightSum(freq, A) >= G(maxLen + 1)
  {
    hide W, D, G, PathLen, WeightSum, Forest;
    var p, w, a, b, n, low :| HuffmanTree(freq, p, w, a, b, A, n, low) && TooLong(p, A, maxLen);
    var i :| 1 <= i <= A && PathLen(p, i) > maxLen;
    DeepIsHeavy(p, w, a, b, A, n, low, WeightSum(freq, A), i);
    GMonotone(maxLen + 1, PathLen(p, i));
  }
}
