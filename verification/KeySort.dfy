/** The fallback sorter's in-place sorts of a bucket by key: shell-style insertion and three-way quicksort. */
module KeySort {
  import opened Arithmetic
  import opened Permutations

  // ---------- what is sorted ----------

  /** Every entry of the stretch names an entry of the key table. */
  ghost predicate KeysIn(f: seq<int>, n: int) {
    forall p :: 0 <= p < |f| ==> 0 <= f[p] < n
  }

  // ---------- fallbackSimpleSort ----------

  /** Keys `gap` apart are in order from `lo` on. */
  ghost predicate GapSorted(f: seq<int>, e: seq<int>, lo: int, hi: int, gap: int)
    requires 0 <= lo && hi < |f| && KeysIn(f, |e|)
  {
    forall p, q :: lo <= p < q <= hi && q == p + gap ==> e[f[p]] <= e[f[q]]
  }

  ghost predicate KeySorted(f: seq<int>, e: seq<int>, lo: int, hi: int)
    requires 0 <= lo && hi < |f| && KeysIn(f, |e|)
  {
    forall p, q :: lo <= p <= q <= hi ==> e[f[p]] <= e[f[q]]
  }

  lemma {:induction false} GapOneSorted(f: seq<int>, e: seq<int>, lo: int, hi: int, p: int, q: int)
    requires 0 <= lo <= p <= q <= hi < |f| && KeysIn(f, |e|)
    requires GapSorted(f, e, lo, hi, 1)
    ensures e[f[p]] <= e[f[q]]
    decreases q - p
  {
    if p < q {
      assert e[f[p]] <= e[f[p + 1]];
      GapOneSorted(f, e, lo, hi, p + 1, q);
    }
  }

  /** In order but for the entry at the hole `h`, which may be too large for its place. */
  ghost predicate HoleSorted(v: seq<int>, e: seq<int>, i: int, hi: int, gap: int, h: int)
    requires 0 <= i && hi < |v| && KeysIn(v, |e|) && gap > 0
  {
    && (forall p, q :: i <= p < q <= hi && q == p + gap && p != h ==> e[v[p]] <= e[v[q]])
    && (forall p, q :: i <= p < q <= hi && p + gap == h && q == h + gap ==> e[v[p]] <= e[v[q]])
  }

  lemma HoleStep(v: seq<int>, w: seq<int>, e: seq<int>, i: int, hi: int, gap: int, h: int)
    requires 0 <= i <= h && hi < |v| && gap > 0 && h + gap <= hi
    requires KeysIn(v, |e|) && KeysIn(w, |e|)
    requires HoleSorted(v, e, i, hi, gap, h)
    requires e[v[h]] > e[v[h + gap]]
    requires |w| == |v| && w[h] == v[h + gap] && w[h + gap] == v[h]
    requires forall p :: 0 <= p < |v| && p != h && p != h + gap ==> w[p] == v[p]
    ensures HoleSorted(w, e, i, hi, gap, h + gap)
  {
  }

  lemma SwapKeys(v: seq<int>, h: int, j: int, n: int)
    requires 0 <= h < j < |v| && KeysIn(v, n)
    ensures KeysIn(v[h := v[j]][j := v[h]], n)
  {
  }

  /** What one shift of the insertion keeps. */
  ghost predicate Inserting(v: seq<int>, s: seq<int>, e: seq<int>, i: int, hi: int, gap: int, h: int)
    requires 0 <= i <= hi < |s| && gap > 0
  {
    SegPerm(v, s, i, hi) && KeysIn(v, |e|) && HoleSorted(v, e, i, hi, gap, h)
  }

  lemma InsertStep(v: seq<int>, s: seq<int>, e: seq<int>, i: int, hi: int, gap: int, h: int, j: int)
    returns (w: seq<int>)
    requires 0 <= i <= h < j <= hi < |s| && gap > 0 && j == h + gap
    requires Inserting(v, s, e, i, hi, gap, h)
    requires e[v[h]] > e[v[j]]
    ensures Inserting(w, s, e, i, hi, gap, j)
    ensures w[h] == v[j] && w[j] == v[h]
    ensures forall p :: 0 <= p < |v| && p != h && p != j ==> w[p] == v[p]
  {
    w := v[h := v[j]][j := v[h]];
    SwapSeg(v, i, hi, h, j);
    SwapKeys(v, h, j, |e|);
    HoleStep(v, w, e, i, hi, gap, h);
  }

  /** Inserts entry `i` among the entries `gap` apart after it. */
  method InsertWithGap(fmap: array<int>, eclass: array<int>, i: int, hi: int, gap: int)
    requires fmap != eclass && gap > 0
    requires 0 <= i <= hi < fmap.Length && KeysIn(fmap[..], eclass.Length)
    requires GapSorted(fmap[..], eclass[..], i + 1, hi, gap)
    modifies fmap
    ensures SegPerm(fmap[..], old(fmap[..]), i, hi)
    ensures KeysIn(fmap[..], eclass.Length)
    ensures GapSorted(fmap[..], eclass[..], i, hi, gap)
  {
    ghost var s := fmap[..];
    ghost var e := eclass[..];
    var tmp := fmap[i];
    var ecTmp := eclass[tmp];
    var j := i + gap;
    ghost var h := i;      // the hole, at j - gap
    ghost var v := s;      // fmap with the entry being inserted put into the hole
    assert Inserting(v, s, e, i, hi, gap, h);
    while j <= hi && ecTmp > eclass[fmap[j]]
      invariant i <= h <= hi && j == h + gap
      invariant |v| == fmap.Length && v[h] == tmp
      invariant forall p :: 0 <= p < fmap.Length && p != h ==> fmap[p] == v[p]
      invariant Inserting(v, s, e, i, hi, gap, h)
    {
      assert fmap[j] == v[j];
      v := InsertStep(v, s, e, i, hi, gap, h, j);
      h := j;
      fmap[j - gap] := fmap[j];
      j := j + gap;
    }
    assert j <= hi ==> fmap[j] == v[j];
    fmap[j - gap] := tmp;
    assert fmap[..] == v;
    assert GapSorted(v, e, i, hi, gap);
  }

  method SimpleSort(fmap: array<int>, eclass: array<int>, lo: int, hi: int)
    requires fmap != eclass
    requires 0 <= lo <= hi + 1 <= fmap.Length && KeysIn(fmap[..], eclass.Length)
    modifies fmap
    ensures SegPerm(fmap[..], old(fmap[..]), lo, hi)
    ensures KeysIn(fmap[..], eclass.Length)
    ensures KeySorted(fmap[..], eclass[..], lo, hi)
  {
    if lo == hi {
      return;
    }
    ghost var s := fmap[..];
    if hi - lo > 3 {
      var i := hi - 4;
      while i >= lo
        invariant lo - 1 <= i <= hi - 4
        invariant SegPerm(fmap[..], s, lo, hi) && KeysIn(fmap[..], eclass.Length)
        invariant GapSorted(fmap[..], eclass[..], i + 1, hi, 4)
      {
        InsertWithGap(fmap, eclass, i, hi, 4);
        i := i - 1;
      }
    }
    var i := hi - 1;
    while i >= lo
      invariant lo - 2 <= i <= hi - 1 && (lo <= hi ==> lo - 1 <= i)
      invariant SegPerm(fmap[..], s, lo, hi) && KeysIn(fmap[..], eclass.Length)
      invariant i + 1 >= 0 ==> GapSorted(fmap[..], eclass[..], i + 1, hi, 1)
    {
      InsertWithGap(fmap, eclass, i, hi, 1);
      i := i - 1;
    }
    forall p, q | lo <= p <= q <= hi ensures eclass[fmap[p]] <= eclass[fmap[q]] {
      GapOneSorted(fmap[..], eclass[..], lo, hi, p, q);
    }
  }

  // ---------- fallbackQSort3 ----------

  method Swap(fmap: array<int>, i: int, j: int, ghost lo: int, ghost hi: int, ghost n: int)
    requires 0 <= lo <= i <= hi < fmap.Length && lo <= j <= hi && KeysIn(fmap[..], n)
    modifies fmap
    ensures SegPerm(fmap[..], old(fmap[..]), lo, hi) && KeysIn(fmap[..], n)
    ensures fmap[i] == old(fmap[j]) && fmap[j] == old(fmap[i])
    ensures forall p :: 0 <= p < fmap.Length && p != i && p != j ==> fmap[p] == old(fmap[p])
  {
    ghost var s := fmap[..];
    fmap[i], fmap[j] := fmap[j], fmap[i];
    if i <= j {
      SwapSeg(s, lo, hi, i, j);
      assert fmap[..] == s[i := s[j]][j := s[i]];
    } else {
      SwapSeg(s, lo, hi, j, i);
      assert fmap[..] == s[j := s[i]][i := s[j]];
    }
  }

  /** Exchanges the `n` entries from `p1` with the `n` entries from `p2`. */
  method SwapBlocks(fmap: array<int>, p1: int, p2: int, n: int, ghost lo: int, ghost hi: int, ghost m: int)
    requires 0 <= n && 0 <= lo <= p1 && p1 + n <= p2 && p2 + n <= hi + 1 <= fmap.Length
    requires KeysIn(fmap[..], m)
    modifies fmap
    ensures SegPerm(fmap[..], old(fmap[..]), lo, hi) && KeysIn(fmap[..], m)
    ensures forall p :: p1 <= p < p1 + n ==> fmap[p] == old(fmap[..])[p + (p2 - p1)]
    ensures forall p :: p2 <= p < p2 + n ==> fmap[p] == old(fmap[..])[p - (p2 - p1)]
    ensures forall p :: 0 <= p < fmap.Length && !(p1 <= p < p1 + n) && !(p2 <= p < p2 + n) ==> fmap[p] == old(fmap[p])
  {
    ghost var s := fmap[..];
    var yyp1, yyp2, yyn := p1, p2, n;
    while yyn > 0
      invariant 0 <= yyn <= n && yyp1 == p1 + (n - yyn) && yyp2 == p2 + (n - yyn)
      invariant SegPerm(fmap[..], s, lo, hi) && KeysIn(fmap[..], m)
      invariant forall p :: p1 <= p < yyp1 ==> fmap[p] == s[p + (p2 - p1)]
      invariant forall p :: p2 <= p < yyp2 ==> fmap[p] == s[p - (p2 - p1)]
      invariant forall p :: 0 <= p < fmap.Length && !(p1 <= p < yyp1) && !(p2 <= p < yyp2) ==> fmap[p] == s[p]
    {
      Swap(fmap, yyp1, yyp2, lo, hi, m);
      yyp1, yyp2, yyn := yyp1 + 1, yyp2 + 1, yyn - 1;
    }
  }

  /** Every key at `from..to` (inclusive) compares to the pivot with sign `sign`. */
  ghost predicate KeysAre(f: seq<int>, e: seq<int>, from: int, to: int, med: int, sign: int)
    requires KeysIn(f, |e|) && 0 <= from && to < |f|
  {
    forall p :: from <= p <= to ==>
      && (sign < 0 ==> e[f[p]] < med)
      && (sign == 0 ==> e[f[p]] == med)
      && (sign > 0 ==> e[f[p]] > med)
  }

  /** The four regions of a partition in progress: equal, less, (unscanned,) greater, equal. */
  ghost predicate Regions(f: seq<int>, e: seq<int>, lo: int, hi: int, med: int,
                          ltLo: int, unLo: int, unHi: int, gtHi: int)
  {
    && KeysIn(f, |e|)
    && 0 <= lo <= ltLo <= unLo <= unHi + 1 <= gtHi + 1 <= hi + 1 <= |f|
    && KeysAre(f, e, lo, ltLo - 1, med, 0)
    && KeysAre(f, e, ltLo, unLo - 1, med, -1)
    && KeysAre(f, e, unHi + 1, gtHi, med, 1)
    && KeysAre(f, e, gtHi + 1, hi, med, 0)
  }

  ghost predicate Swapped(g: seq<int>, f: seq<int>, i: int, j: int)
    requires 0 <= i < |f| && 0 <= j < |f|
  {
    && |g| == |f| && g[i] == f[j] && g[j] == f[i]
    && forall p :: 0 <= p < |f| && p != i && p != j ==> g[p] == f[p]
  }

  lemma GrowLeft(f: seq<int>, g: seq<int>, e: seq<int>, lo: int, hi: int, med: int,
                 ltLo: int, unLo: int, unHi: int, gtHi: int)
    requires Regions(f, e, lo, hi, med, ltLo, unLo, unHi, gtHi) && unLo <= unHi
    requires e[f[unLo]] == med && KeysIn(g, |e|) && Swapped(g, f, unLo, ltLo)
    ensures Regions(g, e, lo, hi, med, ltLo + 1, unLo + 1, unHi, gtHi)
  {
  }

  lemma GrowRight(f: seq<int>, g: seq<int>, e: seq<int>, lo: int, hi: int, med: int,
                  ltLo: int, unLo: int, unHi: int, gtHi: int)
    requires Regions(f, e, lo, hi, med, ltLo, unLo, unHi, gtHi) && unLo <= unHi
    requires e[f[unHi]] == med && KeysIn(g, |e|) && Swapped(g, f, unHi, gtHi)
    ensures Regions(g, e, lo, hi, med, ltLo, unLo, unHi - 1, gtHi - 1)
  {
  }

  lemma Exchange(f: seq<int>, g: seq<int>, e: seq<int>, lo: int, hi: int, med: int,
                 ltLo: int, unLo: int, unHi: int, gtHi: int)
    requires Regions(f, e, lo, hi, med, ltLo, unLo, unHi, gtHi) && unLo < unHi
    requires e[f[unLo]] > med > e[f[unHi]] && KeysIn(g, |e|) && Swapped(g, f, unLo, unHi)
    ensures Regions(g, e, lo, hi, med, ltLo, unLo + 1, unHi - 1, gtHi)
  {
  }

  /** Scans up from `unLo`, collecting the keys equal to the pivot, to the first greater key. */
  method ScanUp(fmap: array<int>, eclass: array<int>, lo: int, hi: int, med: int,
                ltLo: int, unLo: int, unHi: int, gtHi: int, ghost e: seq<int>) returns (ltLo': int, unLo': int)
    requires fmap != eclass && hi < fmap.Length && e == eclass[..]
    requires Regions(fmap[..], e, lo, hi, med, ltLo, unLo, unHi, gtHi)
    modifies fmap
    ensures SegPerm(fmap[..], old(fmap[..]), lo, hi)
    ensures Regions(fmap[..], e, lo, hi, med, ltLo', unLo', unHi, gtHi) && unLo <= unLo'
    ensures unLo' <= unHi ==> e[fmap[unLo']] > med
  {
    ghost var s := fmap[..];
    ltLo', unLo' := ltLo, unLo;
    while unLo' <= unHi
      invariant SegPerm(fmap[..], s, lo, hi) && unLo <= unLo'
      invariant Regions(fmap[..], e, lo, hi, med, ltLo', unLo', unHi, gtHi)
      decreases unHi - unLo'
    {
      var n := eclass[fmap[unLo']] - med;
      if n == 0 {
        ghost var f := fmap[..];
        Swap(fmap, unLo', ltLo', lo, hi, eclass.Length);
        GrowLeft(f, fmap[..], e, lo, hi, med, ltLo', unLo', unHi, gtHi);
        ltLo', unLo' := ltLo' + 1, unLo' + 1;
        continue;
      }
      if n > 0 {
        break;
      }
      unLo' := unLo' + 1;
    }
  }

  /** Scans down from `unHi`, collecting the keys equal to the pivot, to the first smaller key. */
  method ScanDown(fmap: array<int>, eclass: array<int>, lo: int, hi: int, med: int,
                  ltLo: int, unLo: int, unHi: int, gtHi: int, ghost e: seq<int>) returns (unHi': int, gtHi': int)
    requires fmap != eclass && hi < fmap.Length && e == eclass[..]
    requires Regions(fmap[..], e, lo, hi, med, ltLo, unLo, unHi, gtHi)
    requires unLo <= unHi ==> e[fmap[unLo]] > med
    modifies fmap
    ensures SegPerm(fmap[..], old(fmap[..]), lo, hi)
    ensures Regions(fmap[..], e, lo, hi, med, ltLo, unLo, unHi', gtHi') && unHi' <= unHi
    ensures unLo <= unHi' ==> e[fmap[unLo]] > med > e[fmap[unHi']]
  {
    ghost var s := fmap[..];
    unHi', gtHi' := unHi, gtHi;
    while unLo <= unHi'
      invariant SegPerm(fmap[..], s, lo, hi) && unHi' <= unHi
      invariant Regions(fmap[..], e, lo, hi, med, ltLo, unLo, unHi', gtHi')
      invariant unLo <= unHi' ==> e[fmap[unLo]] > med
      decreases unHi' - unLo
    {
      var n := eclass[fmap[unHi']] - med;
      if n == 0 {
        ghost var f := fmap[..];
        Swap(fmap, unHi', gtHi', lo, hi, eclass.Length);
        GrowRight(f, fmap[..], e, lo, hi, med, ltLo, unLo, unHi', gtHi');
        gtHi', unHi' := gtHi' - 1, unHi' - 1;
        continue;
      }
      if n < 0 {
        break;
      }
      unHi' := unHi' - 1;
    }
  }

  lemma EmptyRegions(f: seq<int>, e: seq<int>, lo: int, hi: int, med: int)
    requires 0 <= lo <= hi < |f| && KeysIn(f, |e|)
    ensures Regions(f, e, lo, hi, med, lo, lo, hi, hi)
  {
  }

  /** Splits the stretch by the pivot, leaving the keys equal to it at both ends. */
  method Partition(fmap: array<int>, eclass: array<int>, lo: int, hi: int, med: int, ghost e: seq<int>)
    returns (ltLo: int, unLo: int, unHi: int, gtHi: int)
    requires fmap != eclass && 0 <= lo <= hi < fmap.Length && KeysIn(fmap[..], |e|) && e == eclass[..]
    modifies fmap
    ensures SegPerm(fmap[..], old(fmap[..]), lo, hi)
    ensures Regions(fmap[..], e, lo, hi, med, ltLo, unLo, unHi, gtHi) && unHi == unLo - 1
  {
    hide KeysAre;
    ghost var s := fmap[..];
    unLo, ltLo := lo, lo;
    unHi, gtHi := hi, hi;
    EmptyRegions(fmap[..], e, lo, hi, med);
    while true
      invariant SegPerm(fmap[..], s, lo, hi)
      invariant Regions(fmap[..], e, lo, hi, med, ltLo, unLo, unHi, gtHi)
      decreases unHi - unLo + 1
    {
      ltLo, unLo := ScanUp(fmap, eclass, lo, hi, med, ltLo, unLo, unHi, gtHi, e);
      unHi, gtHi := ScanDown(fmap, eclass, lo, hi, med, ltLo, unLo, unHi, gtHi, e);
      if unLo > unHi {
        break;
      }
      ghost var f := fmap[..];
      Swap(fmap, unLo, unHi, lo, hi, eclass.Length);
      Exchange(f, fmap[..], e, lo, hi, med, ltLo, unLo, unHi, gtHi);
      unLo, unHi := unLo + 1, unHi - 1;
    }
  }

  /** Position `c` ends a stretch: no key up to it exceeds a key after it. */
  ghost predicate Cut(f: seq<int>, e: seq<int>, lo: int, hi: int, c: int)
    requires 0 <= lo && hi < |f| && KeysIn(f, |e|)
  {
    forall p, q :: lo <= p <= c < q <= hi ==> e[f[p]] <= e[f[q]]
  }

  /** Rearranging a stretch that a cut does not divide keeps the cut. */
  lemma CutKept(g: seq<int>, f: seq<int>, e: seq<int>, lo: int, hi: int, c: int, lo': int, hi': int)
    requires 0 <= lo <= lo' <= hi' + 1 <= hi + 1 <= |f|
    requires KeysIn(f, |e|) && KeysIn(g, |e|)
    requires SegPerm(g, f, lo', hi') && (c < lo' || hi' <= c)
    requires Cut(f, e, lo, hi, c)
    ensures Cut(g, e, lo, hi, c)
  {
    forall p, q | lo <= p <= c < q <= hi ensures e[g[p]] <= e[g[q]] {
      var p', q' := p, q;
      if lo' <= p <= hi' {
        p' := SegPermSource(g, f, lo', hi', p);
      }
      if lo' <= q <= hi' {
        q' := SegPermSource(g, f, lo', hi', q);
      }
      assert e[f[p']] <= e[f[q']];
    }
  }

  /** Moves the keys equal to the pivot from both ends to the middle. */
  method Gather(fmap: array<int>, eclass: array<int>, lo: int, hi: int, med: int,
                ltLo: int, unLo: int, unHi: int, gtHi: int, ghost e: seq<int>) returns (n: int, m: int)
    requires fmap != eclass && e == eclass[..]
    requires Regions(fmap[..], e, lo, hi, med, ltLo, unLo, unHi, gtHi) && unHi == unLo - 1 && hi < fmap.Length
    modifies fmap
    ensures SegPerm(fmap[..], old(fmap[..]), lo, hi) && KeysIn(fmap[..], |e|)
    ensures n == lo + unLo - ltLo - 1 && m == hi - (gtHi - unHi) + 1
    ensures KeysAre(fmap[..], e, lo, n, med, -1)
    ensures KeysAre(fmap[..], e, n + 1, m - 1, med, 0)
    ensures KeysAre(fmap[..], e, m, hi, med, 1)
  {
    hide SegPerm;
    n := if ltLo - lo < unLo - ltLo then ltLo - lo else unLo - ltLo;
    SwapBlocks(fmap, lo, unLo - n, n, lo, hi, eclass.Length);
    ghost var between := fmap[..];
    assert KeysAre(between, e, lo, lo + unLo - ltLo - 1, med, -1);
    assert KeysAre(between, e, lo + unLo - ltLo, unLo - 1, med, 0);
    m := if hi - gtHi < gtHi - unHi then hi - gtHi else gtHi - unHi;
    SwapBlocks(fmap, unLo, hi - m + 1, m, lo, hi, eclass.Length);
    SegPermTwice(fmap[..], between, old(fmap[..]), lo, hi);
    n := lo + unLo - ltLo - 1;
    m := hi - (gtHi - unHi) + 1;
  }

  /** A stretch of fmap waiting on the sorter's stack. */
  datatype Stretch = Stretch(lo: int, hi: int)

  ghost predicate Open(segs: seq<Stretch>, c: int) {
    exists k :: 0 <= k < |segs| && segs[k].lo <= c < segs[k].hi
  }

  ghost predicate Apart(segs: seq<Stretch>) {
    forall j, k :: 0 <= j < k < |segs| ==> segs[j].hi < segs[k].lo || segs[k].hi < segs[j].lo
  }

  /** The pending stretches lie between cuts, and every other position is a cut. */
  ghost predicate Pending(f: seq<int>, e: seq<int>, lo: int, hi: int, segs: seq<Stretch>) {
    && KeysIn(f, |e|) && 0 <= lo <= hi < |f|
    && (forall k :: 0 <= k < |segs| ==> lo <= segs[k].lo <= segs[k].hi + 1 <= hi + 1)
    && Apart(segs)
    && (forall k :: 0 <= k < |segs| ==> Cut(f, e, lo, hi, segs[k].lo - 1) && Cut(f, e, lo, hi, segs[k].hi))
    && (forall c :: lo <= c < hi ==> Cut(f, e, lo, hi, c) || Open(segs, c))
  }

  lemma PendingNone(f: seq<int>, e: seq<int>, lo: int, hi: int)
    requires Pending(f, e, lo, hi, [])
    ensures KeysIn(f, |e|) && KeySorted(f, e, lo, hi)
  {
    forall p, q | lo <= p <= q <= hi ensures e[f[p]] <= e[f[q]] {
      if p < q {
        assert !Open([], p);
        assert Cut(f, e, lo, hi, p);
      }
    }
  }

  /** Replacing the top stretch by the stretches `kids` that its rearrangement leaves unsorted. */
  lemma PendingReplace(f: seq<int>, g: seq<int>, e: seq<int>, lo: int, hi: int,
                       rest: seq<Stretch>, top: Stretch, kids: seq<Stretch>)
    requires Pending(f, e, lo, hi, rest + [top])
    requires SegPerm(g, f, top.lo, top.hi) && KeysIn(g, |e|) && 0 <= top.lo && top.hi < |g|
    requires forall k :: 0 <= k < |kids| ==> top.lo <= kids[k].lo <= kids[k].hi + 1 <= top.hi + 1
    requires Apart(kids)
    requires forall k :: 0 <= k < |kids| ==> Cut(g, e, top.lo, top.hi, kids[k].lo - 1) && Cut(g, e, top.lo, top.hi, kids[k].hi)
    requires forall c :: top.lo <= c < top.hi ==> Cut(g, e, top.lo, top.hi, c) || Open(kids, c)
    ensures Pending(g, e, lo, hi, rest + kids)
  {
    var was, now := rest + [top], rest + kids;
    assert was[|rest|] == top;
    forall k | 0 <= k < |now|
      ensures lo <= now[k].lo <= now[k].hi + 1 <= hi + 1
      ensures Cut(g, e, lo, hi, now[k].lo - 1) && Cut(g, e, lo, hi, now[k].hi)
    {
      if k < |rest| {
        assert was[k] == now[k];
        CutKept(g, f, e, lo, hi, now[k].lo - 1, top.lo, top.hi);
        CutKept(g, f, e, lo, hi, now[k].hi, top.lo, top.hi);
      } else {
        assert now[k] == kids[k - |rest|];
        WholeCut(f, g, e, lo, hi, top, now[k].lo - 1);
        WholeCut(f, g, e, lo, hi, top, now[k].hi);
      }
    }
    forall j, k | 0 <= j < k < |now| ensures now[j].hi < now[k].lo || now[k].hi < now[j].lo {
      if k < |rest| {
        assert was[j] == now[j] && was[k] == now[k];
      } else if j < |rest| {
        assert was[j] == now[j] && was[|rest|] == top;
        assert now[k] == kids[k - |rest|];
      } else {
        assert now[j] == kids[j - |rest|] && now[k] == kids[k - |rest|];
      }
    }
    forall c | lo <= c < hi ensures Cut(g, e, lo, hi, c) || Open(now, c) {
      if top.lo <= c < top.hi && !Open(kids, c) {
        WholeCut(f, g, e, lo, hi, top, c);
      } else if !(top.lo <= c < top.hi) && Cut(f, e, lo, hi, c) {
        CutKept(g, f, e, lo, hi, c, top.lo, top.hi);
      } else {
        StillOpen(rest, top, kids, c);
      }
    }
  }

  /** A place in one of the kids, or in one of the other stretches, stays open. */
  lemma StillOpen(rest: seq<Stretch>, top: Stretch, kids: seq<Stretch>, c: int)
    requires Open(kids, c) || (Open(rest + [top], c) && !(top.lo <= c < top.hi))
    ensures Open(rest + kids, c)
  {
    var was, now := rest + [top], rest + kids;
    if Open(kids, c) {
      var k :| 0 <= k < |kids| && kids[k].lo <= c < kids[k].hi;
      assert now[|rest| + k] == kids[k];
    } else {
      var k :| 0 <= k < |was| && was[k].lo <= c < was[k].hi;
      assert now[k] == was[k];
    }
  }

  /** A cut of the rearranged stretch is a cut of the whole. */
  lemma WholeCut(f: seq<int>, g: seq<int>, e: seq<int>, lo: int, hi: int, top: Stretch, c: int)
    requires KeysIn(f, |e|) && KeysIn(g, |e|) && SegPerm(g, f, top.lo, top.hi)
    requires 0 <= lo <= top.lo <= top.hi + 1 <= hi + 1 <= |f|
    requires Cut(f, e, lo, hi, top.lo - 1) && Cut(f, e, lo, hi, top.hi)
    requires top.lo - 1 <= c <= top.hi && Cut(g, e, top.lo, top.hi, c)
    ensures Cut(g, e, lo, hi, c)
  {
    CutKept(g, f, e, lo, hi, top.lo - 1, top.lo, top.hi);
    CutKept(g, f, e, lo, hi, top.hi, top.lo, top.hi);
    forall p, q | lo <= p <= c < q <= hi ensures e[g[p]] <= e[g[q]] {
    }
  }

  const STACK_SIZE := 100
  const SMALL_THRESH := 10

  function Size(s: Stretch): int { s.hi - s.lo + 1 }

  ghost function TotalSize(segs: seq<Stretch>): int {
    if segs == [] then 0 else TotalSize(segs[..|segs| - 1]) + Size(segs[|segs| - 1])
  }

  /** The larger half waits below the smaller, so sizes at least halve from one entry to the next. */
  ghost predicate Halving(segs: seq<Stretch>, total: int) {
    forall k :: 0 <= k < |segs| ==> 0 <= Size(segs[k]) && Size(segs[k]) * Pow2(k) <= total
  }

  lemma HalvingSplit(rest: seq<Stretch>, top: Stretch, big: Stretch, small: Stretch, total: int)
    requires Halving(rest + [top], total)
    requires 0 <= Size(small) <= Size(big) && Size(big) + Size(small) <= Size(top)
    ensures Halving(rest + [big] + [small], total)
  {
    var was, now := rest + [top], rest + [big] + [small];
    forall k | 0 <= k < |now| ensures 0 <= Size(now[k]) && Size(now[k]) * Pow2(k) <= total {
      var t := |rest|;
      assert was[t] == top;
      if k < t {
        assert was[k] == now[k];
      } else if k == t {
        MulMonotone(Size(big), Size(top), Pow2(t));
      } else {
        assert Size(small) * Pow2(t + 1) == (2 * Size(small)) * Pow2(t);
        MulMonotone(2 * Size(small), Size(top), Pow2(t));
      }
    }
  }

  lemma MulMonotone(x: int, y: int, p: nat)
    requires x <= y
    ensures x * p <= y * p
  {
  }

  /** A stretch long enough to be split sits low on the stack. */
  lemma HalvingDepth(rest: seq<Stretch>, top: Stretch, total: int)
    requires Halving(rest + [top], total) && total < 0x10_0000
    requires Size(top) > SMALL_THRESH
    ensures |rest| <= 16
  {
    var t := |rest|;
    assert (rest + [top])[t] == top;
    if t > 16 {
      PowMonotone(17, t);
      assert Pow2(10) == 1024;
      PowAdd(10, 7);
      assert Pow2(7) == 128;
      MulMonotone(11, Size(top), Pow2(t));
    }
  }

  lemma TotalSizePush(rest: seq<Stretch>, x: Stretch)
    ensures TotalSize(rest + [x]) == TotalSize(rest) + Size(x)
  {
    assert (rest + [x])[..|rest|] == rest;
  }

  lemma {:induction false} TotalSizeNonNegative(segs: seq<Stretch>, total: int)
    requires Halving(segs, total)
    ensures TotalSize(segs) >= 0
  {
    if segs != [] {
      var rest := segs[..|segs| - 1];
      assert Halving(rest, total) by {
        forall k | 0 <= k < |rest| ensures 0 <= Size(rest[k]) && Size(rest[k]) * Pow2(k) <= total {
          assert rest[k] == segs[k];
        }
      }
      TotalSizeNonNegative(rest, total);
    }
  }

  /** fmap is a rearrangement of `s` with only the stretches on the stack left to sort. */
  ghost predicate Sorting(f: seq<int>, s: seq<int>, e: seq<int>, lo: int, hi: int, segs: seq<Stretch>) {
    SegPerm(f, s, lo, hi) && Pending(f, e, lo, hi, segs) && Halving(segs, hi - lo + 1)
  }

  lemma TopBounds(f: seq<int>, s: seq<int>, e: seq<int>, lo: int, hi: int, rest: seq<Stretch>, top: Stretch)
    requires Sorting(f, s, e, lo, hi, rest + [top])
    ensures 0 <= lo && hi < |f|
    ensures |f| == |s| && lo <= top.lo <= top.hi + 1 <= hi + 1 && KeysIn(f, |e|)
    ensures forall p :: lo <= p <= hi ==> 0 <= f[p] < |e|
    ensures Halving(rest + [top], hi - lo + 1)
  {
    assert (rest + [top])[|rest|] == top;
  }

  lemma StartSorting(f: seq<int>, e: seq<int>, lo: int, hi: int)
    requires KeysIn(f, |e|) && 0 <= lo <= hi < |f|
    ensures Sorting(f, f, e, lo, hi, [Stretch(lo, hi)])
  {
    var segs := [Stretch(lo, hi)];
    forall c | lo <= c < hi ensures Open(segs, c) {
      assert segs[0].lo <= c < segs[0].hi;
    }
  }

  lemma SortingDone(f: seq<int>, s: seq<int>, e: seq<int>, lo: int, hi: int)
    requires Sorting(f, s, e, lo, hi, [])
    ensures SegPerm(f, s, lo, hi) && KeysIn(f, |e|) && KeySorted(f, e, lo, hi)
  {
    PendingNone(f, e, lo, hi);
  }

  /** The top stretch has been sorted. */
  lemma DoneTop(f: seq<int>, g: seq<int>, s: seq<int>, e: seq<int>, lo: int, hi: int, rest: seq<Stretch>, top: Stretch)
    requires Sorting(f, s, e, lo, hi, rest + [top])
    requires SegPerm(g, f, top.lo, top.hi) && KeysIn(g, |e|) && 0 <= top.lo && top.hi < |g|
    requires KeySorted(g, e, top.lo, top.hi)
    ensures Sorting(g, s, e, lo, hi, rest)
    ensures 0 <= TotalSize(rest) <= TotalSize(rest + [top])
  {
    PendingReplace(f, g, e, lo, hi, rest, top, []);
    assert rest + [] == rest;
    assert (rest + [top])[|rest|] == top;
    forall k | 0 <= k < |rest| ensures 0 <= Size(rest[k]) && Size(rest[k]) * Pow2(k) <= hi - lo + 1 {
      assert (rest + [top])[k] == rest[k];
    }
    TotalSizePush(rest, top);
    TotalSizeNonNegative(rest, hi - lo + 1);
  }

  /** The two smaller stretches cover every position of the split stretch that is not yet a cut. */
  lemma SplitCuts(g: seq<int>, e: seq<int>, top: Stretch, n: int, m: int, med: int, kids: seq<Stretch>)
    requires KeysIn(g, |e|) && 0 <= top.lo && top.hi < |g|
    requires top.lo - 1 <= n && n + 2 <= m <= top.hi + 1
    requires KeysAre(g, e, top.lo, n, med, -1) && KeysAre(g, e, n + 1, m - 1, med, 0)
    requires KeysAre(g, e, m, top.hi, med, 1)
    requires kids == [Stretch(top.lo, n), Stretch(m, top.hi)] || kids == [Stretch(m, top.hi), Stretch(top.lo, n)]
    ensures forall k :: 0 <= k < |kids| ==> Cut(g, e, top.lo, top.hi, kids[k].lo - 1) && Cut(g, e, top.lo, top.hi, kids[k].hi)
    ensures forall c :: top.lo <= c < top.hi ==> Cut(g, e, top.lo, top.hi, c) || Open(kids, c)
  {
    forall c | n <= c < m ensures Cut(g, e, top.lo, top.hi, c) {
    }
    forall c | top.lo <= c < top.hi ensures Cut(g, e, top.lo, top.hi, c) || Open(kids, c) {
      if c < n || m <= c {
        assert kids[0].lo <= c < kids[0].hi || kids[1].lo <= c < kids[1].hi;
      }
    }
    assert Cut(g, e, top.lo, top.hi, top.lo - 1) && Cut(g, e, top.lo, top.hi, top.hi);
  }

  /** The top stretch has been split around its pivot. */
  lemma SplitTop(f: seq<int>, g: seq<int>, s: seq<int>, e: seq<int>, lo: int, hi: int,
                 rest: seq<Stretch>, top: Stretch, n: int, m: int, med: int, big: Stretch, small: Stretch)
    requires Sorting(f, s, e, lo, hi, rest + [top])
    requires SegPerm(g, f, top.lo, top.hi) && KeysIn(g, |e|) && 0 <= top.lo && top.hi < |g|
    requires top.lo - 1 <= n && n + 2 <= m <= top.hi + 1
    requires KeysAre(g, e, top.lo, n, med, -1) && KeysAre(g, e, n + 1, m - 1, med, 0)
    requires KeysAre(g, e, m, top.hi, med, 1)
    requires [big, small] == [Stretch(top.lo, n), Stretch(m, top.hi)] || [big, small] == [Stretch(m, top.hi), Stretch(top.lo, n)]
    requires Size(small) <= Size(big)
    ensures Sorting(g, s, e, lo, hi, rest + [big] + [small])
    ensures 0 <= TotalSize(rest + [big] + [small]) < TotalSize(rest + [top])
  {
    hide KeysAre, Cut, Open, TotalSize;
    var kids := [big, small];
    assert kids[0] == big && kids[1] == small;
    SplitCuts(g, e, top, n, m, med, kids);
    assert (rest + [top])[|rest|] == top;
    assert Apart(kids);
    PendingReplace(f, g, e, lo, hi, rest, top, kids);
    assert rest + kids == rest + [big] + [small];
    SplitSizes(rest, top, big, small, hi - lo + 1);
  }

  lemma SplitSizes(rest: seq<Stretch>, top: Stretch, big: Stretch, small: Stretch, total: int)
    requires Halving(rest + [top], total)
    requires 0 <= Size(small) <= Size(big) && Size(big) + Size(small) < Size(top)
    ensures Halving(rest + [big] + [small], total)
    ensures 0 <= TotalSize(rest + [big] + [small]) < TotalSize(rest + [top])
  {
    HalvingSplit(rest, top, big, small, total);
    TotalSizePush(rest, top);
    TotalSizePush(rest, big);
    TotalSizePush(rest + [big], small);
    TotalSizeNonNegative(rest + [big] + [small], total);
  }

  /** The pivot is a key of the stretch, so it still is after any rearrangement. */
  lemma PivotStays(f: seq<int>, g: seq<int>, e: seq<int>, lo: int, hi: int, p: int) returns (p': int)
    requires 0 <= lo <= p <= hi < |f| && KeysIn(f, |e|) && KeysIn(g, |e|) && SegPerm(g, f, lo, hi)
    ensures lo <= p' <= hi && e[g[p']] == e[f[p]]
  {
    p' := SegPermSource(f, g, lo, hi, p);
  }

  /** The stretches the two stack arrays hold. */
  ghost predicate OnStack(los: array<int>, his: array<int>, segs: seq<Stretch>)
    reads los, his
  {
    && |segs| <= los.Length && |segs| <= his.Length
    && forall k :: 0 <= k < |segs| ==> segs[k] == Stretch(los[k], his[k])
  }

  lemma AllEqual(f: seq<int>, e: seq<int>, lo: int, hi: int, med: int, ltLo: int, unLo: int, unHi: int, gtHi: int)
    requires Regions(f, e, lo, hi, med, ltLo, unLo, unHi, gtHi) && unHi == unLo - 1 && gtHi < ltLo
    ensures KeySorted(f, e, lo, hi)
  {
  }

  lemma SomePivot(f: seq<int>, g: seq<int>, e: seq<int>, lo: int, hi: int, p: int, n: int, m: int, med: int)
    requires 0 <= lo <= p <= hi < |f| && KeysIn(f, |e|) && KeysIn(g, |e|) && SegPerm(g, f, lo, hi)
    requires med == e[f[p]] && lo - 1 <= n < m <= hi + 1
    requires KeysAre(g, e, lo, n, med, -1) && KeysAre(g, e, m, hi, med, 1)
    ensures n + 2 <= m
  {
    var p' := PivotStays(f, g, e, lo, hi, p);
    assert n < p' < m;
  }

  /** Splits a stretch around its pivot into smaller, equal and greater keys; `done` when all are equal. */
  method SplitAround(fmap: array<int>, eclass: array<int>, lo: int, hi: int, med: int, ghost pivot: int,
          ghost e: seq<int>)
    returns (done: bool, n: int, m: int)
    requires fmap != eclass && e == eclass[..]
    requires 0 <= lo <= pivot <= hi < fmap.Length && KeysIn(fmap[..], |e|) && med == e[fmap[pivot]]
    modifies fmap
    ensures SegPerm(fmap[..], old(fmap[..]), lo, hi) && KeysIn(fmap[..], |e|)
    ensures done ==> KeySorted(fmap[..], e, lo, hi)
    ensures !done ==> lo - 1 <= n && n + 2 <= m <= hi + 1
    ensures !done ==> KeysAre(fmap[..], e, lo, n, med, -1)
    ensures !done ==> KeysAre(fmap[..], e, n + 1, m - 1, med, 0)
    ensures !done ==> KeysAre(fmap[..], e, m, hi, med, 1)
  {
    hide KeysAre, KeySorted;
    ghost var f := fmap[..];
    var ltLo, unLo, unHi, gtHi := Partition(fmap, eclass, lo, hi, med, e);
    if gtHi < ltLo {
      AllEqual(fmap[..], e, lo, hi, med, ltLo, unLo, unHi, gtHi);
      return true, lo, hi;
    }
    n, m := Gather(fmap, eclass, lo, hi, med, ltLo, unLo, unHi, gtHi, e);
    SomePivot(f, fmap[..], e, lo, hi, pivot, n, m, med);
    done := false;
  }

  method Push(los: array<int>, his: array<int>, sp: int, lo: int, hi: int, ghost segs: seq<Stretch>)
    requires los != his && los.Length == his.Length && 0 <= sp < los.Length
    requires sp == |segs| && OnStack(los, his, segs)
    modifies los, his
    ensures OnStack(los, his, segs + [Stretch(lo, hi)])
  {
    los[sp], his[sp] := lo, hi;
  }

  lemma OnStackPop(los: array<int>, his: array<int>, segs: seq<Stretch>, sp: int)
    requires OnStack(los, his, segs) && 0 <= sp && sp == |segs| - 1
    ensures |segs| <= los.Length && |segs| <= his.Length && segs[sp] == Stretch(los[sp], his[sp])
    ensures OnStack(los, his, segs[..sp])
  {
  }

  /** Sorts entries `loSt..hiSt` of fmap by key, with a stack of at most 100 pending stretches. */
  method QSort3(fmap: array<int>, eclass: array<int>, loSt: int, hiSt: int)
    requires fmap != eclass && fmap.Length <= 900000
    requires 0 <= loSt <= hiSt < fmap.Length && KeysIn(fmap[..], eclass.Length)
    modifies fmap
    ensures SegPerm(fmap[..], old(fmap[..]), loSt, hiSt) && KeysIn(fmap[..], eclass.Length)
    ensures KeySorted(fmap[..], eclass[..], loSt, hiSt)
  {
    hide OnStack, Sorting, KeySorted, Halving, KeysAre, TotalSize, KeysIn;
    ghost var s, e := fmap[..], eclass[..];
    var stackLo, stackHi := new int[STACK_SIZE], new int[STACK_SIZE];
    var r, sp := 0, 0;
    ghost var segs: seq<Stretch> := [];
    Push(stackLo, stackHi, sp, loSt, hiSt, segs);
    segs, sp := segs + [Stretch(loSt, hiSt)], sp + 1;
    StartSorting(s, e, loSt, hiSt);
    assert segs == [Stretch(loSt, hiSt)];
    while sp > 0
      invariant 0 <= sp <= 18 && |segs| == sp && OnStack(stackLo, stackHi, segs)
      invariant Sorting(fmap[..], s, e, loSt, hiSt, segs)
      decreases TotalSize(segs), sp
    {
      assert sp < STACK_SIZE - 1;
      sp := sp - 1;
      OnStackPop(stackLo, stackHi, segs, sp);
      var lo, hi := stackLo[sp], stackHi[sp];
      ghost var f := fmap[..];
      ghost var rest, top := segs[..sp], Stretch(lo, hi);
      assert segs == rest + [top];
      TopBounds(f, s, e, loSt, hiSt, rest, top);
      if hi - lo < SMALL_THRESH {
        SimpleSort(fmap, eclass, lo, hi);
        DoneTop(f, fmap[..], s, e, loSt, hiSt, rest, top);
        segs := rest;
        continue;
      }
      HalvingDepth(rest, top, hiSt - loSt + 1);
      r := (r * 7621 + 1) % 32768;
      var r3 := r % 3;
      ghost var pivot := if r3 == 0 then lo else if r3 == 1 then (lo + hi) / 2 else hi;
      var med := if r3 == 0 then eclass[fmap[lo]]
                 else if r3 == 1 then eclass[fmap[(lo + hi) / 2]]
                 else eclass[fmap[hi]];
      var done, n, m := SplitAround(fmap, eclass, lo, hi, med, pivot, e);
      if done {
        DoneTop(f, fmap[..], s, e, loSt, hiSt, rest, top);
        segs := rest;
        continue;
      }
      segs := rest;
      if n - lo > hi - m {
        Push(stackLo, stackHi, sp, lo, n, segs);
        segs, sp := segs + [Stretch(lo, n)], sp + 1;
        Push(stackLo, stackHi, sp, m, hi, segs);
        segs, sp := segs + [Stretch(m, hi)], sp + 1;
        SplitTop(f, fmap[..], s, e, loSt, hiSt, rest, top, n, m, med, Stretch(lo, n), Stretch(m, hi));
      } else {
        Push(stackLo, stackHi, sp, m, hi, segs);
        segs, sp := segs + [Stretch(m, hi)], sp + 1;
        Push(stackLo, stackHi, sp, lo, n, segs);
        segs, sp := segs + [Stretch(lo, n)], sp + 1;
        SplitTop(f, fmap[..], s, e, loSt, hiSt, rest, top, n, m, med, Stretch(m, hi), Stretch(lo, n));
      }
    }
    assert segs == [];
    SortingDone(fmap[..], s, e, loSt, hiSt);
  }
}
