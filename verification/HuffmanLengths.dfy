/** Huffman code lengths: the tree built by merging lightest nodes, and the rescaling that limits its depth. */
module HuffmanLengths {
  import opened Arithmetic
  import opened HuffmanForest
  import opened HuffmanOptimal
  import opened WeightHeap

  const MAX_ALPHA_SIZE := 258

  // ---------- building the tree ----------

  ghost predicate Leaves(w: seq<int>, A: nat) {
    A < |w| && forall k :: 1 <= k <= A ==> w[k] >= 256 && D(w[k]) == 0
  }

  lemma StartForest(p: seq<int>, w: seq<int>, a: seq<nat>, b: seq<nat>, A: nat)
    requires Leaves(w, A) && A < |p| && A < |a| && A < |b|
    requires forall k :: 1 <= k <= A ==> p[k] == -1
    requires LeafSum(w, A) < 0x10_0000
    ensures Forest(p, w, a, b, A, A, 0, LeafSum(w, A))
  {
    LiveSumLeaves(p, w, A);
    forall k | 1 <= k <= A ensures W(w[k]) >= G(D(w[k])) {
    }
  }

  lemma PoppedLightest(p: seq<int>, w: seq<int>, n: nat, e: multiset<int>, x: int, y: int)
    requires n < |p| && n < |w| && e == multiset(Live(p, n))
    requires x in e && forall k :: k in e ==> 0 <= k < |w| && w[x] <= w[k]
    requires y in e - multiset{x} && forall k :: k in e - multiset{x} ==> 0 <= k < |w| && w[y] <= w[k]
    ensures x >= 0 && y >= 0 && TwoLightest(p, w, n, x, y)
  {
    assert x in Live(p, n) && y in Live(p, n);
    assert e[x] == 1;
    forall k | k in Live(p, n) && k != x ensures w[y] <= w[k] {
      assert k in e - multiset{x};
    }
  }

  /** Puts all leaves into the heap. */
  method FillHeap(heap: array<int>, weight: array<int>, parent: array<int>, alphaSize: nat)
    requires heap != weight && parent != weight && heap != parent
    requires 2 <= alphaSize <= MAX_ALPHA_SIZE && heap.Length == MAX_ALPHA_SIZE + 2
    requires weight.Length == parent.Length == MAX_ALPHA_SIZE * 2 && Leaves(weight[..], alphaSize)
    modifies heap, weight, parent
    ensures forall k :: 1 <= k <= alphaSize ==> weight[k] == old(weight[k]) && parent[k] == -1
    ensures Nodes(heap[..], weight[..], alphaSize) && HeapOrdered(heap[..], weight[..], alphaSize)
    ensures Elems(heap[..], alphaSize) == multiset(Live(parent[..], alphaSize))
  {
    hide HeapOrdered, Elems, D;
    var nHeap := 0;
    heap[0] := 0;
    weight[0] := 0;
    parent[0] := -2;
    StartHeap(heap[..], weight[..]);
    assert Live(parent[..], 0) == {};
    var i := 1;
    while i <= alphaSize
      invariant 1 <= i <= alphaSize + 1 && nHeap == i - 1
      invariant forall k :: 1 <= k < parent.Length ==> weight[k] == old(weight[k])
      invariant forall k :: 1 <= k < i ==> parent[k] == -1
      invariant Nodes(heap[..], weight[..], nHeap) && HeapOrdered(heap[..], weight[..], nHeap)
      invariant Elems(heap[..], nHeap) == multiset(Live(parent[..], nHeap))
    {
      ghost var was := parent[..];
      parent[i] := -1;
      assert Live(parent[..], i) == Live(was, i - 1) + {i};
      assert weight[i] == old(weight[..])[i];
      PushNode(heap, weight, nHeap, i);
      nHeap := nHeap + 1;
      i := i + 1;
    }
  }

  lemma StartHeap(heap: seq<int>, weight: seq<int>)
    requires 0 < |heap| && 0 < |weight| && heap[0] == 0 && weight[0] == 0
    ensures Nodes(heap, weight, 0) && HeapOrdered(heap, weight, 0) && Elems(heap, 0) == multiset{}
  {
  }

  /** Makes the new node `m` the parent of `n1` and `n2`. */
  method LinkNodes(weight: array<int>, parent: array<int>, A: nat, m: nat, n1: nat, n2: nat,
                   ghost a: seq<nat>, ghost b: seq<nat>, ghost low: nat, ghost total: int)
    returns (ghost low': nat)
    requires parent != weight && 1 <= m < weight.Length == parent.Length == |a| == |b|
    requires Forest(parent[..], weight[..], a, b, A, m - 1, low, total)
    requires n1 < weight.Length && n2 < weight.Length && TwoLightest(parent[..], weight[..], m - 1, n1, n2)
    modifies weight, parent
    ensures forall k :: 0 <= k < m ==> weight[k] == old(weight[k])
    ensures forall k :: 0 <= k < weight.Length && k != m ==> weight[k] == old(weight[k])
    ensures weight[m] >= 256
    ensures Forest(parent[..], weight[..], a[m := n1], b[m := n2], A, m, low', total)
    ensures multiset(Live(parent[..], m)) == multiset(Live(old(parent[..]), m - 1)) - multiset{n1} - multiset{n2} + multiset{m}
    ensures m !in Live(old(parent[..]), m - 1)
  {
    hide D, W, G, LiveSum, AddWeights, Shape, Weighs, HeavyEnough;
    ghost var p, w := parent[..], weight[..];
    ForestWeights(p, w, a, b, A, m - 1, low, total);
    MergeDepths(p, w, a, b, A, m - 1, low, total, n1, n2);
    parent[n1] := m;
    parent[n2] := m;
    weight[m] := AddWeights(weight[n1], weight[n2]);
    parent[m] := -1;
    assert parent[..] == p[n1 := m][n2 := m][m := -1];
    assert weight[..] == w[m := AddWeights(w[n1], w[n2])];
    MergeForest(p, w, a, b, A, m - 1, low, total, n1, n2, parent[..], weight[..], a[m := n1], b[m := n2]);
    ForestWeights(parent[..], weight[..], a[m := n1], b[m := n2], A, m, W(w[n2]), total);
    MergeLive(p, m - 1, n1, n2, parent[..]);
    low' := W(w[n2]);
  }

  /** The heap does not see a change to the weight of a node outside it. */
  lemma WeightOutside(heap: seq<int>, w: seq<int>, v: seq<int>, n: nat, m: nat)
    requires Nodes(heap, w, n) && HeapOrdered(heap, w, n) && m !in Elems(heap, n) && m != 0
    requires |v| == |w| && forall k :: 0 <= k < |w| && k != m ==> v[k] == w[k]
    ensures Nodes(heap, v, n) && HeapOrdered(heap, v, n)
  {
    forall k | 1 <= k <= n ensures heap[k] != m {
      assert heap[1..n + 1][k - 1] == heap[k];
    }
  }

  /** The heap holds the live nodes of the forest. */
  ghost predicate Merging(heap: seq<int>, weight: seq<int>, parent: seq<int>, a: seq<nat>, b: seq<nat>,
                          A: nat, n: nat, nHeap: nat, low: nat, total: int)
  {
    && Nodes(heap, weight, nHeap) && HeapOrdered(heap, weight, nHeap)
    && Forest(parent, weight, a, b, A, n, low, total)
    && Elems(heap, nHeap) == multiset(Live(parent, n))
  }

  /** Takes the two lightest nodes off the heap. */
  method PopTwo(heap: array<int>, weight: array<int>, nHeap: nat, ghost p: seq<int>, ghost n: nat)
    returns (n1: int, n2: int)
    requires heap != weight && 2 <= nHeap < heap.Length && n < |p| && n < weight.Length
    requires Nodes(heap[..], weight[..], nHeap) && HeapOrdered(heap[..], weight[..], nHeap)
    requires Elems(heap[..], nHeap) == multiset(Live(p, n))
    modifies heap
    ensures Nodes(heap[..], weight[..], nHeap - 2) && HeapOrdered(heap[..], weight[..], nHeap - 2)
    ensures 0 <= n1 < weight.Length && 0 <= n2 < weight.Length && TwoLightest(p, weight[..], n, n1, n2)
    ensures Elems(heap[..], nHeap - 2) == multiset(Live(p, n)) - multiset{n1} - multiset{n2}
  {
    hide HeapOrdered, Elems, Nodes, Live;
    ghost var e := Elems(heap[..], nHeap);
    n1 := PopNode(heap, weight, nHeap);
    n2 := PopNode(heap, weight, nHeap - 1);
    PoppedLightest(p, weight[..], n, e, n1, n2);
  }

  /** Merges the two lightest nodes into the new node `m`. */
  method MergeStep(heap: array<int>, weight: array<int>, parent: array<int>, A: nat, m: nat, nHeap: nat,
                   ghost a: seq<nat>, ghost b: seq<nat>, ghost low: nat, ghost total: int)
    returns (ghost a': seq<nat>, ghost b': seq<nat>, ghost low': nat)
    requires heap != weight && parent != weight && heap != parent
    requires 2 <= nHeap < heap.Length && 1 <= m < weight.Length == parent.Length == |a| == |b|
    requires Merging(heap[..], weight[..], parent[..], a, b, A, m - 1, nHeap, low, total)
    modifies heap, weight, parent
    ensures |a'| == |a| && |b'| == |b|
    ensures forall k :: 0 <= k < m ==> weight[k] == old(weight[k])
    ensures Merging(heap[..], weight[..], parent[..], a', b', A, m, nHeap - 1, low', total)
  {
    hide HeapOrdered, Elems, Nodes, Forest, Live, TwoLightest;
    ghost var p, w := parent[..], weight[..];
    var n1, n2 := PopTwo(heap, weight, nHeap, p, m - 1);
    low' := LinkNodes(weight, parent, A, m, n1, n2, a, b, low, total);
    a', b' := a[m := n1], b[m := n2];
    WeightOutside(heap[..], w, weight[..], nHeap - 2, m);
    PushNode(heap, weight, nHeap - 2, m);
  }

  /** Merges the two lightest nodes until one is left: the root, node `2 * alphaSize - 1`. */
  method BuildTree(heap: array<int>, weight: array<int>, parent: array<int>, alphaSize: nat)
    returns (nNodes: nat, ghost a: seq<nat>, ghost b: seq<nat>, ghost low: nat)
    requires heap != weight && parent != weight && heap != parent
    requires 2 <= alphaSize <= MAX_ALPHA_SIZE && heap.Length == MAX_ALPHA_SIZE + 2
    requires weight.Length == parent.Length == MAX_ALPHA_SIZE * 2
    requires Leaves(weight[..], alphaSize) && LeafSum(weight[..], alphaSize) < 0x10_0000
    modifies heap, weight, parent
    ensures forall k :: 1 <= k <= alphaSize ==> weight[k] == old(weight[k])
    ensures nNodes == 2 * alphaSize - 1
    ensures Forest(parent[..], weight[..], a, b, alphaSize, nNodes, low, old(LeafSum(weight[..], alphaSize)))
    ensures Live(parent[..], nNodes) == {nNodes}
  {
    hide HeapOrdered, Elems, D, Forest, LeafSum, Nodes;
    ghost var total := LeafSum(weight[..], alphaSize);
    FillHeap(heap, weight, parent, alphaSize);
    SameLeafSum(old(weight[..]), weight[..], alphaSize);
    assert Leaves(weight[..], alphaSize);
    nNodes := alphaSize;
    var nHeap := alphaSize;
    a, b, low := seq(weight.Length, _ => 1), seq(weight.Length, _ => 1), 0;
    StartForest(parent[..], weight[..], a, b, alphaSize);
    while nHeap > 1
      invariant 1 <= nHeap && nHeap + nNodes == 2 * alphaSize && nNodes >= alphaSize
      invariant |a| == weight.Length && |b| == weight.Length
      invariant forall k :: 1 <= k <= alphaSize ==> weight[k] == old(weight[k])
      invariant Merging(heap[..], weight[..], parent[..], a, b, alphaSize, nNodes, nHeap, low, total)
      decreases nHeap
    {
      nNodes := nNodes + 1;
      a, b, low := MergeStep(heap, weight, parent, alphaSize, nNodes, nHeap, a, b, low, total);
      nHeap := nHeap - 1;
    }
    OneLeft(parent[..], weight[..], a, b, alphaSize, nNodes, low, total, heap[..]);
  }

  lemma {:induction false} SameLeafSum(w: seq<int>, v: seq<int>, k: nat)
    requires k < |w| && k < |v| && forall i :: 1 <= i <= k ==> w[i] >= 0 && v[i] == w[i]
    ensures LeafSum(w, k) == LeafSum(v, k)
  {
    if k > 0 {
      SameLeafSum(w, v, k - 1);
    }
  }

  lemma ForestWeights(p: seq<int>, w: seq<int>, a: seq<nat>, b: seq<nat>, A: nat, n: nat, low: nat, total: int)
    requires Forest(p, w, a, b, A, n, low, total)
    ensures n < |p| && n < |w| && forall k :: 1 <= k <= n ==> w[k] >= 256
  {
  }

  /** The root has no parent, so the one live node is the root. */
  lemma OneLeft(p: seq<int>, w: seq<int>, a: seq<nat>, b: seq<nat>, A: nat, n: nat, low: nat, total: int, heap: seq<int>)
    requires Forest(p, w, a, b, A, n, low, total) && 1 <= n && 1 < |heap|
    requires Elems(heap, 1) == multiset(Live(p, n))
    ensures Live(p, n) == {n}
  {
    assert n in Live(p, n);
    assert |Elems(heap, 1)| == 1;
    assert |multiset(Live(p, n))| == |Live(p, n)|;
    assert Live(p, n) == {n} + (Live(p, n) - {n});
  }

  // ---------- measuring the paths ----------

  /** Walks from every leaf to the root. */
  method MeasureLengths(len: array<int>, parent: array<int>, alphaSize: nat, maxLen: nat, ghost n: nat)
    returns (tooLong: bool)
    requires len != parent && len.Length >= alphaSize && n < parent.Length && 1 <= alphaSize < n
    requires forall k :: 1 <= k <= n ==> parent[k] == -1 || (k < parent[k] <= n)
    modifies len
    ensures forall i :: 1 <= i <= alphaSize ==> len[i - 1] == PathLen(parent[..], i)
    ensures tooLong <==> exists i :: 1 <= i <= alphaSize && PathLen(parent[..], i) > maxLen
  {
    ghost var p := parent[..];
    tooLong := false;
    var i := 1;
    while i <= alphaSize
      invariant 1 <= i <= alphaSize + 1
      invariant forall k :: 1 <= k < i ==> len[k - 1] == PathLen(p, k)
      invariant tooLong <==> exists k :: 1 <= k < i && PathLen(p, k) > maxLen
    {
      var j, k := 0, i;
      while parent[k] >= 0
        invariant 1 <= k <= n && 0 <= j && PathLen(p, i) == j + PathLen(p, k)
        decreases n - k
      {
        k := parent[k];
        j := j + 1;
      }
      len[i - 1] := j;
      if j > maxLen {
        tooLong := true;
      }
      i := i + 1;
    }
    assert parent[..] == p;
  }

  // ---------- rescaling ----------

  function Scaled(x: nat): nat { 256 * (1 + W(x) / 2) }

  lemma ScaledLeaf(x: nat)
    requires x >= 256
    ensures Scaled(x) >= 256 && D(Scaled(x)) == 0
    ensures W(Scaled(x)) <= W(x) && (W(x) > 2 ==> W(Scaled(x)) < W(x))
  {
  }

  lemma {:induction false} ScalingShrinks(w: seq<int>, v: seq<int>, k: nat)
    requires k < |w| && k < |v|
    requires forall i :: 1 <= i <= k ==> w[i] >= 256 && v[i] >= 0 && v[i] == Scaled(w[i])
    ensures LeafSum(v, k) <= LeafSum(w, k)
    ensures LeafSum(v, k) < LeafSum(w, k) || LeafSum(w, k) <= 2 * k
    decreases k
  {
    hide W, Scaled;
    if k > 0 {
      ScaledLeaf(w[k]);
      ScalingShrinks(w, v, k - 1);
    }
  }

  ghost function FreqSum(freq: seq<int>, k: nat): int
    requires k <= |freq|
  {
    if k == 0 then 0 else FreqSum(freq, k - 1) + freq[k - 1]
  }

  function FirstWeight(f: int): int {
    256 * SymbolWeight(f)
  }

  lemma {:induction false} FirstSum(freq: seq<int>, w: seq<int>, k: nat)
    requires k <= |freq| && k < |w| && forall i :: 0 <= i < k ==> freq[i] >= 0
    requires forall i :: 0 <= i < k ==> w[i + 1] >= 0 && w[i + 1] == FirstWeight(freq[i])
    requires forall i :: 1 <= i <= k ==> w[i] >= 0
    ensures LeafSum(w, k) <= FreqSum(freq, k) + k
  {
    if k > 0 {
      FirstSum(freq, w, k - 1);
      assert w[k] == FirstWeight(freq[k - 1]);
    }
  }

  /** A leaf too far down makes the total weight large enough for rescaling to lower it. */
  lemma TooDeepIsHeavy(p: seq<int>, w: seq<int>, a: seq<nat>, b: seq<nat>, A: nat, n: nat, low: nat, total: int, i: nat,
          maxLen: nat)
    requires OneTree(p, a, b, A, n) && Forest(p, w, a, b, A, n, low, total) && 1 <= i <= A
    requires PathLen(p, i) > maxLen >= 17
    ensures total > 516
  {
    hide G, PathLen, Shape;
    DeepIsHeavy(p, w, a, b, A, n, low, total, i);
    GAtThirteen();
    GMonotone(13, PathLen(p, i));
  }

  method Rescale(weight: array<int>, alphaSize: nat)
    requires alphaSize < weight.Length && Leaves(weight[..], alphaSize)
    modifies weight
    ensures Leaves(weight[..], alphaSize)
    ensures forall k :: 1 <= k <= alphaSize ==> weight[k] == Scaled(old(weight[..])[k])
    ensures LeafSum(weight[..], alphaSize) <= old(LeafSum(weight[..], alphaSize))
    ensures LeafSum(weight[..], alphaSize) < old(LeafSum(weight[..], alphaSize))
         || old(LeafSum(weight[..], alphaSize)) <= 2 * alphaSize
  {
    hide LeafSum, D;
    ghost var w := weight[..];
    var i := 1;
    while i <= alphaSize
      invariant 1 <= i <= alphaSize + 1
      invariant forall k :: 1 <= k < i ==> weight[k] == Scaled(w[k])
      invariant forall k :: i <= k <= alphaSize ==> weight[k] == w[k]
    {
      var j := weight[i] / 256;
      j := 1 + j / 2;
      weight[i] := j * 256;
      i := i + 1;
    }
    forall k | 1 <= k <= alphaSize ensures weight[k] >= 256 && D(weight[k]) == 0 {
      ScaledLeaf(w[k]);
    }
    ScalingShrinks(w, weight[..], alphaSize);
  }

  /** The frequencies halved so many times, each time to one more than the half of it, where no frequency counts as one. */
  ghost function Halved(freq: seq<int>, times: nat): (g: seq<int>)
    ensures |g| == |freq|
    decreases times
  {
    if times == 0 then freq
    else
      var g := Halved(freq, times - 1);
      seq(|freq|, i requires 0 <= i < |freq| => 1 + SymbolWeight(g[i]) / 2)
  }

  /**
   * Code lengths for the given symbol frequencies: a complete prefix code no longer than `maxLen` bits. The lengths are optimal for
   * the frequencies halved so many times, and no fewer times would do.
   */
  method MakeCodeLengths(len: array<int>, freq: array<int>, alphaSize: nat, maxLen: nat) returns (ghost times: nat)
    requires len != freq && 2 <= alphaSize <= MAX_ALPHA_SIZE && maxLen >= 17
    requires alphaSize <= len.Length && alphaSize <= freq.Length
    requires forall i :: 0 <= i < alphaSize ==> freq[i] >= 0
    requires FreqSum(freq[..], alphaSize) <= 900001
    modifies len
    ensures forall i :: 0 <= i < alphaSize ==> 1 <= len[i] <= maxLen
    ensures KraftSum(len[..], maxLen, alphaSize) == Pow2(maxLen)
    ensures Optimal(Halved(freq[..], times), len[..], alphaSize)
    ensures forall n :: 0 <= n < times ==> Overlong(Halved(freq[..], n), alphaSize, maxLen)
  {
    hide LeafSum, D, W, FreqSum, Forest, PathLen, KraftSum, Live, OneTree, Weighted, Overlong, Optimal, WeightSum,
      Halved;
    times := 0;
    var heap := new int[MAX_ALPHA_SIZE + 2];
    var weight := new int[MAX_ALPHA_SIZE * 2];
    var parent := new int[MAX_ALPHA_SIZE * 2];
    var i := 0;
    while i < alphaSize
      invariant 0 <= i <= alphaSize
      invariant forall k :: 0 <= k < i ==> weight[k + 1] == FirstWeight(freq[k])
    {
      weight[i + 1] := (if freq[i] == 0 then 1 else freq[i]) * 256;
      i := i + 1;
    }
    FirstLeaves(freq[..], weight[..], alphaSize);
    FirstWeighted(freq[..], weight[..], alphaSize);
    NotHalved(freq[..]);
    while true
      invariant Leaves(weight[..], alphaSize) && 0 <= LeafSum(weight[..], alphaSize) < 0x10_0000
      invariant Weighted(Halved(freq[..], times), weight[..], alphaSize)
      invariant forall n :: 0 <= n < times ==> Overlong(Halved(freq[..], n), alphaSize, maxLen)
      decreases LeafSum(weight[..], alphaSize)
    {
      ghost var w := weight[..];
      var nNodes, a, b, low := BuildTree(heap, weight, parent, alphaSize);
      SameLeafSum(w, weight[..], alphaSize);
      ghost var g, v := Halved(freq[..], times), weight[..];
      StillWeighted(g, w, v, alphaSize);
      ghost var total := LeafSum(w, alphaSize);
      ForestParents(parent[..], weight[..], a, b, alphaSize, nNodes, low, total);
      var tooLong := MeasureLengths(len, parent, alphaSize, maxLen, nNodes);
      if !tooLong {
        LengthsComplete(parent[..], weight[..], a, b, alphaSize, nNodes, low, total, len[..], maxLen);
        LengthsOptimal(g, parent[..], weight[..], a, b, alphaSize, nNodes, low, total, len[..]);
        break;
      }
      ghost var deep :| 1 <= deep <= alphaSize && PathLen(parent[..], deep) > maxLen;
      WeightSumLeaves(g, w, alphaSize, alphaSize);
      FoundOverlong(g, parent[..], weight[..], a, b, alphaSize, nNodes, low, deep, maxLen);
      TooDeepIsHeavy(parent[..], weight[..], a, b, alphaSize, nNodes, low, total, deep, maxLen);
      Rescale(weight, alphaSize);
      HalvedWeighted(freq[..], times, v, weight[..], alphaSize);
      times := times + 1;
      LeafSumNonNegative(weight[..], alphaSize);
    }
  }

  lemma FirstLeaves(freq: seq<int>, w: seq<int>, k: nat)
    requires k <= MAX_ALPHA_SIZE && k <= |freq| && k < |w| && forall i :: 0 <= i < k ==> freq[i] >= 0
    requires forall i :: 0 <= i < k ==> w[i + 1] == FirstWeight(freq[i])
    requires FreqSum(freq, k) <= 900001
    ensures Leaves(w, k) && 0 <= LeafSum(w, k) < 0x10_0000
  {
    hide LeafSum, FreqSum;
    forall i | 1 <= i <= k ensures w[i] >= 256 && D(w[i]) == 0 {
      assert w[i] == FirstWeight(freq[i - 1]);
    }
    FirstSum(freq, w, k);
    LeafSumNonNegative(w, k);
  }

  lemma {:induction false} LeafSumNonNegative(w: seq<int>, k: nat)
    requires k < |w| && forall i :: 1 <= i <= k ==> w[i] >= 0
    ensures LeafSum(w, k) >= 0
  {
    if k > 0 {
      LeafSumNonNegative(w, k - 1);
    }
  }

  lemma ForestParents(p: seq<int>, w: seq<int>, a: seq<nat>, b: seq<nat>, A: nat, n: nat, low: nat, total: int)
    requires Forest(p, w, a, b, A, n, low, total)
    requires Live(p, n) == {n} && 1 <= A < n
    ensures OneTree(p, a, b, A, n)
    ensures n < |p| && forall k :: 1 <= k <= n ==> p[k] == -1 || (k < p[k] <= n)
  {
  }

  lemma FirstWeighted(freq: seq<int>, w: seq<int>, A: nat)
    requires A <= |freq| && A < |w| && forall i :: 0 <= i < A ==> freq[i] >= 0 && w[i + 1] == FirstWeight(freq[i])
    ensures Weighted(freq, w, A)
  {
    forall i | 1 <= i <= A ensures w[i] >= 0 && W(w[i]) == SymbolWeight(freq[i - 1]) {
      assert w[i - 1 + 1] == FirstWeight(freq[i - 1]);
    }
  }

  lemma NotHalved(freq: seq<int>)
    ensures Halved(freq, 0) == freq
  {
  }

  /** Scaling all weights halves the frequencies once more. */
  lemma HalvedWeighted(freq: seq<int>, times: nat, w: seq<int>, v: seq<int>, A: nat)
    requires Weighted(Halved(freq, times), w, A) && A < |v|
    requires forall k :: 1 <= k <= A ==> w[k] >= 0 && v[k] == Scaled(w[k])
    ensures Weighted(Halved(freq, times + 1), v, A)
  {
    var g, h := Halved(freq, times), Halved(freq, times + 1);
    forall i | 1 <= i <= A ensures v[i] >= 0 && W(v[i]) == SymbolWeight(h[i - 1]) {
      assert W(w[i]) == SymbolWeight(g[i - 1]);
      assert h[i - 1] == 1 + SymbolWeight(g[i - 1]) / 2;
    }
  }

  lemma StillWeighted(freq: seq<int>, w: seq<int>, v: seq<int>, A: nat)
    requires Weighted(freq, w, A) && A < |v| && forall k :: 1 <= k <= A ==> v[k] == w[k]
    ensures Weighted(freq, v, A)
  {
  }

  lemma LengthsOptimal(freq: seq<int>, p: seq<int>, w: seq<int>, a: seq<nat>, b: seq<nat>, A: nat, n: nat, low: nat,
          total: int, len: seq<int>)
    requires OneTree(p, a, b, A, n) && Forest(p, w, a, b, A, n, low, total) && Weighted(freq, w, A) && A <= |len|
    requires forall i :: 1 <= i <= A ==> len[i - 1] == PathLen(p, i)
    ensures Optimal(freq, len, A)
  {
    hide PathLen, Greedy, Shape, Optimal;
    GreedyOptimal(p, w, a, b, A, n, freq, len);
  }

  lemma FoundOverlong(freq: seq<int>, p: seq<int>, w: seq<int>, a: seq<nat>, b: seq<nat>, A: nat, n: nat, low: nat,
          deep: nat, maxLen: nat)
    requires Weighted(freq, w, A) && OneTree(p, a, b, A, n) && Forest(p, w, a, b, A, n, low, WeightSum(freq, A))
    requires 1 <= deep <= A && PathLen(p, deep) > maxLen
    ensures Overlong(freq, A, maxLen)
  {
    hide PathLen, Forest, WeightSum;
    assert HuffmanTree(freq, p, w, a, b, A, n, low) && TooLong(p, A, maxLen);
  }

  lemma LengthsComplete(p: seq<int>, w: seq<int>, a: seq<nat>, b: seq<nat>, A: nat, n: nat, low: nat, total: int,
          len: seq<int>, L: nat)
    requires OneTree(p, a, b, A, n) && Forest(p, w, a, b, A, n, low, total) && A <= |len|
    requires forall i :: 1 <= i <= A ==> len[i - 1] == PathLen(p, i)
    requires !exists i :: 1 <= i <= A && PathLen(p, i) > L
    ensures forall i :: 0 <= i < A ==> 1 <= len[i] <= L
    ensures KraftSum(len, L, A) == Pow2(L)
  {
    hide PathLen, KraftSum;
    forall i | 0 <= i < A ensures 1 <= len[i] <= L {
      assert len[i + 1 - 1] == PathLen(p, i + 1);
      Parented(p, a, b, A, n, i + 1);
    }
    KraftComplete(p, a, b, A, n, L, len);
  }
}
