/** The binary heap of tree nodes, ordered by weight, that builds the Huffman tree. */
module WeightHeap {
  import opened Permutations

  /** The nodes in heap slots `1..n`. */
  ghost function Elems(heap: seq<int>, n: nat): multiset<int>
    requires n < |heap|
  {
    multiset(heap[1..n + 1])
  }

  /** Slot 0 holds the sentinel node 0 of weight 0; every other node in the heap weighs more. */
  ghost predicate Nodes(heap: seq<int>, weight: seq<int>, n: nat) {
    && n < |heap| && 0 < |weight| && heap[0] == 0 && weight[0] == 0
    && forall k :: 1 <= k <= n ==> 0 <= heap[k] < |weight| && weight[heap[k]] > 0
  }

  /** No node is lighter than the one in the slot above it. */
  ghost predicate HeapOrdered(heap: seq<int>, weight: seq<int>, n: nat)
    requires Nodes(heap, weight, n)
  {
    forall p, k :: 1 <= p < k <= n && p == k / 2 ==> weight[heap[p]] <= weight[heap[k]]
  }

  lemma {:induction false} RootLightest(heap: seq<int>, weight: seq<int>, n: nat, k: nat)
    requires Nodes(heap, weight, n) && HeapOrdered(heap, weight, n) && 1 <= k <= n
    ensures weight[heap[1]] <= weight[heap[k]]
    decreases k
  {
    if k > 1 {
      RootLightest(heap, weight, n, k / 2);
      assert weight[heap[k / 2]] <= weight[heap[k]];
    }
  }

  /** In order but for slot `z`, whose node may be too light for its place. */
  ghost predicate LightAt(v: seq<int>, weight: seq<int>, n: nat, z: nat)
    requires Nodes(v, weight, n)
  {
    && (forall p, k :: 1 <= p < k <= n && p == k / 2 && k != z ==> weight[v[p]] <= weight[v[k]])
    && (forall p, k :: 1 <= p < k <= n && p == z / 2 && k / 2 == z ==> weight[v[p]] <= weight[v[k]])
  }

  /** In order but for slot `z`, whose node may be too heavy for its place. */
  ghost predicate HeavyAt(v: seq<int>, weight: seq<int>, n: nat, z: nat)
    requires Nodes(v, weight, n)
  {
    && (forall p, k :: 1 <= p < k <= n && p == k / 2 && p != z ==> weight[v[p]] <= weight[v[k]])
    && (forall p, k :: 1 <= p < k <= n && p == z / 2 && k / 2 == z ==> weight[v[p]] <= weight[v[k]])
  }

  /** What moving a node up or down the heap keeps: the nodes in it. */
  ghost predicate SameNodes(v: seq<int>, s: seq<int>, weight: seq<int>, n: nat) {
    SegPerm(v, s, 1, n) && Nodes(v, weight, n)
  }

  lemma SameSelf(s: seq<int>, weight: seq<int>, n: nat)
    requires Nodes(s, weight, n)
    ensures SameNodes(s, s, weight, n)
  {
  }

  lemma SwapNodes(v: seq<int>, s: seq<int>, weight: seq<int>, n: nat, i: nat, j: nat) returns (w: seq<int>)
    requires SameNodes(v, s, weight, n) && 1 <= i < j <= n
    ensures SameNodes(w, s, weight, n)
    ensures |w| == |v| && w[i] == v[j] && w[j] == v[i]
    ensures forall p :: 0 <= p < |v| && p != i && p != j ==> w[p] == v[p]
  {
    w := v[i := v[j]][j := v[i]];
    SwapSeg(v, 1, n, i, j);
  }

  lemma UpStep(v: seq<int>, w: seq<int>, weight: seq<int>, n: nat, z: nat)
    requires Nodes(v, weight, n) && Nodes(w, weight, n) && |w| == |v| && 2 <= z <= n
    requires LightAt(v, weight, n, z) && weight[v[z]] < weight[v[z / 2]]
    requires w[z] == v[z / 2] && w[z / 2] == v[z]
    requires forall p :: 0 <= p < |v| && p != z && p != z / 2 ==> w[p] == v[p]
    ensures LightAt(w, weight, n, z / 2)
  {
  }

  lemma DownStep(v: seq<int>, w: seq<int>, weight: seq<int>, n: nat, z: nat, y: nat)
    requires Nodes(v, weight, n) && Nodes(w, weight, n) && |w| == |v| && 1 <= z && y / 2 == z && y <= n
    requires HeavyAt(v, weight, n, z) && weight[v[y]] <= weight[v[z]]
    requires forall k :: 1 <= k <= n && k / 2 == z ==> weight[v[y]] <= weight[v[k]]
    requires w[z] == v[y] && w[y] == v[z]
    requires forall p :: 0 <= p < |v| && p != z && p != y ==> w[p] == v[p]
    ensures HeavyAt(w, weight, n, y)
  {
  }

  /** Moves the node in the last slot up to its place. */
  method UpHeap(heap: array<int>, weight: array<int>, n: nat)
    requires heap != weight && n >= 1 && Nodes(heap[..], weight[..], n)
    requires LightAt(heap[..], weight[..], n, n)
    modifies heap
    ensures SameNodes(heap[..], old(heap[..]), weight[..], n) && HeapOrdered(heap[..], weight[..], n)
  {
    hide LightAt, SegPerm;
    ghost var s, wt := heap[..], weight[..];
    SameSelf(s, wt, n);
    ghost var v := s;
    var zz := n;
    var tmp := heap[zz];
    while weight[tmp] < weight[heap[zz / 2]]
      invariant 1 <= zz <= n && |v| == heap.Length && v[zz] == tmp
      invariant forall p :: 0 <= p < heap.Length && p != zz ==> heap[p] == v[p]
      invariant SameNodes(v, s, wt, n) && LightAt(v, wt, n, zz)
      decreases zz
    {
      assert heap[zz / 2] == v[zz / 2];
      ghost var w := SwapNodes(v, s, wt, n, zz / 2, zz);
      UpStep(v, w, wt, n, zz);
      v := w;
      heap[zz] := heap[zz / 2];
      zz := zz / 2;
    }
    assert heap[zz / 2] == v[zz / 2];
    heap[zz] := tmp;
    assert heap[..] == v;
    LightEnds(v, wt, n, zz);
  }

  lemma LightEnds(v: seq<int>, weight: seq<int>, n: nat, z: nat)
    requires Nodes(v, weight, n) && LightAt(v, weight, n, z) && 1 <= z <= n && weight[v[z / 2]] <= weight[v[z]]
    ensures HeapOrdered(v, weight, n)
  {
  }

  lemma HeavyEnds(v: seq<int>, weight: seq<int>, n: nat, z: nat)
    requires Nodes(v, weight, n) && HeavyAt(v, weight, n, z) && 1 <= z
    requires forall k :: 1 <= k <= n && k / 2 == z ==> weight[v[z]] <= weight[v[k]]
    ensures HeapOrdered(v, weight, n)
  {
  }

  /** Moves the node in the first slot down to its place. */
  method DownHeap(heap: array<int>, weight: array<int>, nHeap: nat)
    requires heap != weight && 1 < heap.Length && Nodes(heap[..], weight[..], nHeap)
    requires 0 <= heap[1] < weight.Length && HeavyAt(heap[..], weight[..], nHeap, 1)
    modifies heap
    ensures SameNodes(heap[..], old(heap[..]), weight[..], nHeap) && HeapOrdered(heap[..], weight[..], nHeap)
  {
    hide HeavyAt, SegPerm;
    ghost var s, wt := heap[..], weight[..];
    SameSelf(s, wt, nHeap);
    ghost var v := s;
    var zz := 1;
    var tmp := heap[zz];
    while true
      invariant 1 <= zz && (zz == 1 || zz <= nHeap) && |v| == heap.Length && v[zz] == tmp
      invariant forall p :: 0 <= p < heap.Length && p != zz ==> heap[p] == v[p]
      invariant SameNodes(v, s, wt, nHeap) && HeavyAt(v, wt, nHeap, zz)
      decreases nHeap - zz
    {
      var yy := zz * 2;
      if yy > nHeap {
        break;
      }
      assert heap[yy] == v[yy];
      if yy < nHeap {
        assert heap[yy + 1] == v[yy + 1];
        if weight[heap[yy + 1]] < weight[heap[yy]] {
          yy := yy + 1;
        }
      }
      if weight[tmp] < weight[heap[yy]] {
        break;
      }
      ghost var w := SwapNodes(v, s, wt, nHeap, zz, yy);
      DownStep(v, w, wt, nHeap, zz, yy);
      v := w;
      heap[zz] := heap[yy];
      zz := yy;
    }
    heap[zz] := tmp;
    assert heap[..] == v;
    HeavyEnds(v, wt, nHeap, zz);
  }

  lemma SameElems(v: seq<int>, s: seq<int>, weight: seq<int>, n: nat)
    requires SameNodes(v, s, weight, n) && n < |s|
    ensures Elems(v, n) == Elems(s, n)
  {
    SegPermSlice(v, s, 1, n);
  }

  lemma LastElem(heap: seq<int>, n: nat)
    requires 1 <= n < |heap|
    ensures Elems(heap, n) == Elems(heap, n - 1) + multiset{heap[n]}
  {
    assert heap[1..n + 1] == heap[1..n] + [heap[n]];
  }

  lemma FirstReplaced(heap: seq<int>, n: nat)
    requires 1 <= n < |heap|
    ensures Elems(heap[1 := heap[n]], n - 1) == Elems(heap, n) - multiset{heap[1]}
  {
    LastElem(heap, n);
    if n > 1 {
      var t, u := heap[1..n], heap[1 := heap[n]][1..n];
      assert t == [heap[1]] + heap[2..n];
      assert u == [heap[n]] + heap[2..n];
    }
  }

  lemma InElems(heap: seq<int>, n: nat, x: int) returns (k: nat)
    requires n < |heap| && x in Elems(heap, n)
    ensures 1 <= k <= n && heap[k] == x
  {
    var j :| 0 <= j < n && heap[1..n + 1][j] == x;
    k := j + 1;
  }

  lemma PushReady(was: seq<int>, s: seq<int>, weight: seq<int>, n: nat, x: nat)
    requires n + 1 < |was| && s == was[n + 1 := x] && x < |weight| && weight[x] > 0
    requires Nodes(was, weight, n) && HeapOrdered(was, weight, n)
    ensures Nodes(s, weight, n + 1) && LightAt(s, weight, n + 1, n + 1)
    ensures Elems(s, n + 1) == Elems(was, n) + multiset{x}
  {
    assert s[1..n + 1] == was[1..n + 1];
    LastElem(s, n + 1);
  }

  /** Adds node `x` to the heap. */
  method PushNode(heap: array<int>, weight: array<int>, nHeap: nat, x: nat)
    requires heap != weight && nHeap + 1 < heap.Length && x < weight.Length && weight[x] > 0
    requires Nodes(heap[..], weight[..], nHeap) && HeapOrdered(heap[..], weight[..], nHeap)
    modifies heap
    ensures Nodes(heap[..], weight[..], nHeap + 1) && HeapOrdered(heap[..], weight[..], nHeap + 1)
    ensures Elems(heap[..], nHeap + 1) == old(Elems(heap[..], nHeap)) + multiset{x}
  {
    hide HeapOrdered, LightAt, SegPerm, Elems;
    ghost var was := heap[..];
    heap[nHeap + 1] := x;
    ghost var s := heap[..];
    PushReady(was, s, weight[..], nHeap, x);
    UpHeap(heap, weight, nHeap + 1);
    SameElems(heap[..], s, weight[..], nHeap + 1);
  }

  lemma PopReady(was: seq<int>, weight: seq<int>, n: nat)
    requires 1 <= n < |was| && Nodes(was, weight, n) && HeapOrdered(was, weight, n)
    ensures 0 <= was[n] < |weight| && 0 <= was[1] < |weight|
    ensures Nodes(was[1 := was[n]], weight, n - 1) && HeavyAt(was[1 := was[n]], weight, n - 1, 1)
    ensures was[1] in Elems(was, n)
    ensures Elems(was[1 := was[n]], n - 1) == Elems(was, n) - multiset{was[1]}
    ensures forall y :: y in Elems(was, n) ==> 0 <= y < |weight| && weight[was[1]] <= weight[y]
  {
    assert was[1..n + 1][0] == was[1];
    forall y | y in Elems(was, n) ensures 0 <= y < |weight| && weight[was[1]] <= weight[y] {
      var k := InElems(was, n, y);
      RootLightest(was, weight, n, k);
    }
    FirstReplaced(was, n);
  }

  /** Removes a lightest node. */
  method PopNode(heap: array<int>, weight: array<int>, nHeap: nat) returns (x: int)
    requires heap != weight && 1 <= nHeap < heap.Length
    requires Nodes(heap[..], weight[..], nHeap) && HeapOrdered(heap[..], weight[..], nHeap)
    modifies heap
    ensures Nodes(heap[..], weight[..], nHeap - 1) && HeapOrdered(heap[..], weight[..], nHeap - 1)
    ensures x in old(Elems(heap[..], nHeap)) && 0 <= x < weight.Length
    ensures Elems(heap[..], nHeap - 1) == old(Elems(heap[..], nHeap)) - multiset{x}
    ensures forall y :: y in old(Elems(heap[..], nHeap)) ==> 0 <= y < weight.Length && weight[x] <= weight[y]
  {
    hide HeapOrdered, HeavyAt, SegPerm, Elems;
    ghost var was := heap[..];
    PopReady(was, weight[..], nHeap);
    x := heap[1];
    heap[1] := heap[nHeap];
    ghost var s := heap[..];
    assert s == was[1 := was[nHeap]];
    DownHeap(heap, weight, nHeap - 1);
    SameElems(heap[..], s, weight[..], nHeap - 1);
  }
}
