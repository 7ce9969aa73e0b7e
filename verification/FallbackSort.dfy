/** The fallback block sorter: a bucket sort by first symbol, refined by doubling the compared prefix. */
module FallbackSort {
  import opened Arithmetic
  import opened BitTable
  import opened ByteStrings
  import opened Counting
  import opened KeySort
  import opened Permutations
  import opened Rotations

  // ---------- the first bucket sort ----------

  /** Tallies the symbols of the block, then turns the tallies into the end of each symbol's class. */
  method TallySymbols(block: array<int>, ftab: array<int>, ftabCopy: array<int>)
    requires Bytes(block[..]) && ftab.Length == 257 && ftabCopy.Length == 256
    requires ftab != block && ftabCopy != block && ftab != ftabCopy
    modifies ftab, ftabCopy
    ensures forall c :: 0 <= c < 256 ==> ftab[c] == Less(block[..], c + 1)
    ensures forall c :: 0 <= c < 256 ==> ftabCopy[c] == Count(block[..], c)
  {
    ghost var b := block[..];
    var i := 0;
    while i < 257
      invariant 0 <= i <= 257 && forall c :: 0 <= c < i ==> ftab[c] == 0
    {
      ftab[i] := 0;
      i := i + 1;
    }
    i := 0;
    while i < block.Length
      invariant 0 <= i <= block.Length
      invariant forall c :: 0 <= c < 257 ==> ftab[c] == Count(b[..i], c)
    {
      ftab[block[i]] := ftab[block[i]] + 1;
      forall c | 0 <= c < 257 ensures Count(b[..i + 1], c) == Count(b[..i], c) + (if b[i] == c then 1 else 0) {
        CountStep(b, i, c);
      }
      i := i + 1;
    }
    assert b[..block.Length] == b;
    i := 0;
    while i < 256
      invariant 0 <= i <= 256 && forall c :: 0 <= c < i ==> ftabCopy[c] == Count(b, c)
      invariant forall c :: 0 <= c < 257 ==> ftab[c] == Count(b, c)
    {
      ftabCopy[i] := ftab[i];
      i := i + 1;
    }
    LessAll(b, 0);
    i := 1;
    while i < 257
      invariant 1 <= i <= 257
      invariant forall c :: 0 <= c < i ==> ftab[c] == Less(b, c + 1)
      invariant forall c :: i <= c < 257 ==> ftab[c] == Count(b, c)
      invariant forall c :: 0 <= c < 256 ==> ftabCopy[c] == Count(b, c)
    {
      ftab[i] := ftab[i] + ftab[i - 1];
      i := i + 1;
    }
  }

  /** Puts every position into the class of its symbol, filling each class from its end. */
  method PlacePositions(fmap: array<int>, block: array<int>, ftab: array<int>)
    requires Bytes(block[..]) && ftab.Length == 257 && fmap.Length == block.Length
    requires fmap != block && fmap != ftab && ftab != block
    requires forall c :: 0 <= c < 256 ==> ftab[c] == Less(block[..], c + 1)
    modifies fmap, ftab
    ensures forall i :: 0 <= i < block.Length ==> 0 <= Down(block[..], i) < fmap.Length && fmap[Down(block[..], i)] == i
    ensures forall c :: 0 <= c < 256 ==> ftab[c] == Less(block[..], c)
  {
    ghost var b := block[..];
    var i := 0;
    while i < block.Length
      invariant 0 <= i <= block.Length
      invariant forall c :: 0 <= c < 256 ==> ftab[c] == Less(b, c + 1) - Count(b[..i], c)
      invariant forall p :: 0 <= p < i ==> 0 <= Down(b, p) < fmap.Length && fmap[Down(b, p)] == p
    {
      var j := block[i];
      UpBounds(b, i);
      var k := ftab[j] - 1;
      assert k == Down(b, i);
      forall c | 0 <= c < 256 ensures Count(b[..i + 1], c) == Count(b[..i], c) + (if b[i] == c then 1 else 0) {
        CountStep(b, i, c);
      }
      forall p | 0 <= p < i ensures Down(b, p) != k {
        SlotsDiffer(b, p, i);
      }
      ftab[j] := k;
      fmap[k] := i;
      i := i + 1;
    }
    assert b[..block.Length] == b;
  }

  lemma OneSymbol(b: seq<int>, x: nat, y: nat)
    requires x < |b| && y < |b|
    ensures Cmp(b, x, y, 1) <= 0 <==> b[x] <= b[y]
    ensures Cmp(b, x, y, 1) == 0 <==> b[x] == b[y]
  {
    AtSmall(b, x);
    AtSmall(b, y);
    assert Cmp(b, x + 1, y + 1, 0) == 0;
  }

  /** The bucket sort lists every position, in order of its symbol. */
  lemma PlacedSorted(b: seq<int>, f: seq<int>)
    requires b != [] && |f| == |b| && Bytes(b)
    requires forall i :: 0 <= i < |b| ==> 0 <= Down(b, i) < |f| && f[Down(b, i)] == i
    ensures IsPerm(f, |b|) && SortedTo(b, f, 1)
    ensures forall k :: 0 <= k < |b| ==> Less(b, b[f[k]]) <= k < Less(b, b[f[k]] + 1)
  {
    SlotsPermute(b);
    var slots := seq(|b|, i requires 0 <= i < |b| => Down(b, i));
    forall k | 0 <= k < |b| ensures 0 <= f[k] < |b| && Down(b, f[k]) == k && Less(b, b[f[k]]) <= k < Less(b, b[f[k]] + 1) {
      var i := PermHits(slots, |b|, k);
      UpBounds(b, i);
    }
    forall p, q | 0 <= p <= q < |f| ensures Cmp(b, f[p], f[q], 1) <= 0 {
      if b[f[q]] < b[f[p]] {
        LessMonotone(b, b[f[q]] + 1, b[f[p]]);
      }
      OneSymbol(b, f[p], f[q]);
    }
  }

  // ---------- bucket headers and the refinement of one round ----------

  /** The table covers the block and its sentinels. */
  ghost predicate Covers(t: seq<Word>, n: nat) {
    (n + 63) / 32 < |t|
  }

  /**
   * The state of one refinement round: the places below `m` are in order of their first `2h` symbols and
   * carry the bucket headers for it, the others are in order of their first `h`, and no bucket spans `m`.
   */
  ghost predicate Refined(b: seq<int>, f: seq<int>, t: seq<Word>, h: nat, m: nat) {
    && b != [] && IsPerm(f, |b|) && Covers(t, |b|) && m <= |b|
    && Bit(t, 0) && Bit(t, m) && Bit(t, |b|) && !Bit(t, |b| + 1)
    && (forall p, q :: 0 <= p <= q < m ==> Cmp(b, f[p], f[q], h + h) <= 0)
    && (forall p, q :: m <= p <= q < |b| ==> Cmp(b, f[p], f[q], h) <= 0)
    && (forall p, q :: 0 <= p < m <= q < |b| ==> Cmp(b, f[p], f[q], h) < 0)
    && (forall p, q :: 0 <= p < q < m && q == p + 1 ==> (Bit(t, q) <==> Cmp(b, f[p], f[q], h + h) != 0))
    && (forall p, q :: m <= p < q < |b| && q == p + 1 ==> (Bit(t, q) <==> Cmp(b, f[p], f[q], h) != 0))
  }

  /** A position that is a bucket by itself stays one. */
  lemma PassSingleton(b: seq<int>, f: seq<int>, t: seq<Word>, h: nat, m: nat)
    requires Refined(b, f, t, h, m) && m < |b| && Bit(t, m + 1)
    ensures Refined(b, f, t, h, m + 1)
  {
    hide Cmp, Bit;
    CmpAntisymmetric(b, f[m], f[m], h + h);
    forall p | 0 <= p < m ensures Cmp(b, f[p], f[m], h + h) < 0 {
      CmpSplit(b, f[p], f[m], h, h);
    }
    forall q | m + 1 <= q < |b| ensures Cmp(b, f[m], f[q], h) < 0 {
      CmpTransitive(b, f[m], f[m + 1], f[q], h);
    }
  }

  /** The key of rotation `x` ranks the `h` symbols that follow its first `h`. */
  ghost predicate KeyRanks(b: seq<int>, e: seq<int>, h: nat)
    requires b != []
  {
    && |e| == |b|
    && forall x: nat, y: nat :: x < |b| && y < |b| ==> (e[x] <= e[y] <==> Cmp(b, x + h, y + h, h) <= 0)
  }

  /** Within a bucket, equal on the first `h` symbols, the keys decide the first `2h`. */
  lemma KeysDecide(b: seq<int>, e: seq<int>, h: nat, x: nat, y: nat)
    requires b != [] && KeyRanks(b, e, h) && x < |b| && y < |b| && Cmp(b, x, y, h) == 0
    ensures e[x] <= e[y] <==> Cmp(b, x, y, h + h) <= 0
    ensures e[x] == e[y] <==> Cmp(b, x, y, h + h) == 0
  {
    hide Cmp;
    CmpSplit(b, x, y, h, h);
    CmpAntisymmetric(b, x + h, y + h, h);
  }

  /** A stretch without headers inside is one bucket: its rotations agree on the first `h` symbols. */
  lemma {:induction false} BucketAgrees(b: seq<int>, f: seq<int>, t: seq<Word>, h: nat, l: nat, p: nat, q: nat)
    requires Refined(b, f, t, h, l) && l <= p <= q < |b|
    requires forall k :: l < k <= q ==> !Bit(t, k)
    ensures Cmp(b, f[p], f[q], h) == 0
    decreases q - p
  {
    hide Cmp, Bit;
    if p == q {
      CmpAntisymmetric(b, f[p], f[p], h);
    } else {
      BucketAgrees(b, f, t, h, l, p, q - 1);
      assert !Bit(t, q);
      CmpTransitive(b, f[p], f[q - 1], f[q], h);
    }
  }

  /** The bucket `l..r` has been sorted by key; what that says about the first `2h` symbols. */
  lemma BucketSorted(b: seq<int>, f: seq<int>, t: seq<Word>, g: seq<int>, e: seq<int>, h: nat, l: nat, r: nat)
    requires Refined(b, f, t, h, l) && l <= r < |b|
    requires Bit(t, r + 1) && forall k :: l < k <= r ==> !Bit(t, k)
    requires KeyRanks(b, e, h) && SegPerm(g, f, l, r) && KeysIn(g, |e|) && KeySorted(g, e, l, r)
    ensures IsPerm(g, |b|)
    ensures forall p, q :: l <= p <= q <= r ==> Cmp(b, g[p], g[q], h) == 0 && Cmp(b, g[p], g[q], h + h) <= 0
    ensures forall p, q :: l <= p <= q <= r ==> (e[g[p]] == e[g[q]] <==> Cmp(b, g[p], g[q], h + h) == 0)
    ensures forall p, q :: l <= p <= r < q < |b| ==> Cmp(b, g[p], g[q], h) < 0
    ensures forall p, q :: 0 <= p < l <= q <= r ==> Cmp(b, g[p], g[q], h) < 0
  {
    hide Cmp, Bit;
    PermKept(f, g, |b|);
    forall p, q | l <= p <= q <= r
      ensures Cmp(b, g[p], g[q], h) == 0 && Cmp(b, g[p], g[q], h + h) <= 0
      ensures e[g[p]] == e[g[q]] <==> Cmp(b, g[p], g[q], h + h) == 0
    {
      var p' := SegPermSource(g, f, l, r, p);
      var q' := SegPermSource(g, f, l, r, q);
      if p' <= q' {
        BucketAgrees(b, f, t, h, l, p', q');
      } else {
        BucketAgrees(b, f, t, h, l, q', p');
        CmpAntisymmetric(b, g[p], g[q], h);
      }
      KeysDecide(b, e, h, g[p], g[q]);
    }
    forall p, q | l <= p <= r < q < |b| ensures Cmp(b, g[p], g[q], h) < 0 {
      var p' := SegPermSource(g, f, l, r, p);
      BucketAgrees(b, f, t, h, l, p', r);
      CmpTransitive(b, f[p'], f[r], f[r + 1], h);
      CmpTransitive(b, f[p'], f[r + 1], f[q], h);
    }
    forall p, q | 0 <= p < l <= q <= r ensures Cmp(b, g[p], g[q], h) < 0 {
      var q' := SegPermSource(g, f, l, r, q);
    }
  }

  lemma PermKept(f: seq<int>, g: seq<int>, n: nat)
    requires IsPerm(f, n) && multiset(g) == multiset(f) && |g| == |f|
    ensures IsPerm(g, n)
  {
    forall p | 0 <= p < n ensures 0 <= g[p] < n {
      assert g[p] in multiset(f);
    }
    forall p, q | 0 <= p < q < n ensures g[p] != g[q] {
      if g[p] == g[q] {
        CountedTwice(g, p, q);
        assert g[p] in multiset(f);
        CountedOnce(f, n, g[p]);
      }
    }
  }

  lemma CountedTwice(g: seq<int>, p: nat, q: nat)
    requires p < q < |g| && g[p] == g[q]
    ensures multiset(g)[g[p]] >= 2
  {
    assert g == g[..q] + g[q..];
    assert g[p] in g[..q] && g[q] in g[q..];
  }

  lemma CountedOnce(f: seq<int>, n: nat, x: int)
    requires IsPerm(f, n) && x in f
    ensures multiset(f)[x] == 1
  {
    var k :| 0 <= k < n && f[k] == x;
    assert f == f[..k] + [x] + f[k + 1..];
    assert x !in f[..k] && x !in f[k + 1..];
  }

  /** The whole bucket, sorted and with its new headers, joins the refined part. */
  lemma PassBucket(b: seq<int>, f: seq<int>, t: seq<Word>, g: seq<int>, t': seq<Word>, e: seq<int>, h: nat, l: nat,
          r: nat)
    requires Refined(b, f, t, h, l) && l < r < |b|
    requires Bit(t, r + 1) && forall k :: l < k <= r ==> !Bit(t, k)
    requires KeyRanks(b, e, h) && SegPerm(g, f, l, r) && KeysIn(g, |e|) && KeySorted(g, e, l, r)
    requires |t'| == |t|
    requires forall k :: 0 <= k <= |b| + 1 && !(l < k <= r) ==> Bit(t', k) == Bit(t, k)
    requires forall k :: l < k <= r ==> Bit(t', k) == (e[g[k - 1]] != e[g[k]])
    ensures Refined(b, g, t', h, r + 1)
  {
    hide Cmp, Bit;
    BucketSorted(b, f, t, g, e, h, l, r);
    forall p, q | 0 <= p <= q < r + 1 ensures Cmp(b, g[p], g[q], h + h) <= 0 {
      if p < l <= q {
        CmpSplit(b, g[p], g[q], h, h);
      }
    }
    forall p, q | 0 <= p < q < r + 1 && q == p + 1 ensures Bit(t', q) <==> Cmp(b, g[p], g[q], h + h) != 0 {
      if q == l {
        CmpSplit(b, g[p], g[q], h, h);
      }
    }
  }

  // ---------- the keys of a round ----------

  /** The start of the bucket that place `p` lies in. */
  ghost function HeadPos(t: seq<Word>, p: nat): (j: nat)
    requires p / 32 < |t|
    ensures j <= p
  {
    if p == 0 || Bit(t, p) then p else HeadPos(t, p - 1)
  }

  lemma {:induction false} HeadRanks(b: seq<int>, f: seq<int>, t: seq<Word>, h: nat, p: nat, q: nat)
    requires Refined(b, f, t, h, 0) && p <= q < |b|
    ensures HeadPos(t, p) <= HeadPos(t, q)
    ensures HeadPos(t, p) == HeadPos(t, q) <==> Cmp(b, f[p], f[q], h) == 0
    decreases q
  {
    hide Cmp, Bit;
    if p == q {
      CmpAntisymmetric(b, f[p], f[p], h);
    } else {
      HeadRanks(b, f, t, h, p, q - 1);
      assert Bit(t, q) <==> Cmp(b, f[q - 1], f[q], h) != 0;
      CmpTransitive(b, f[p], f[q - 1], f[q], h);
    }
  }

  /** Keys that hold the bucket starts of the positions `h` further on rank rotations by those symbols. */
  lemma KeysRank(b: seq<int>, f: seq<int>, t: seq<Word>, e: seq<int>, h: nat)
    requires Refined(b, f, t, h, 0) && h <= |b| && |e| == |b|
    requires forall p :: 0 <= p < |b| ==> 0 <= Back(f[p], h, |b|) < |b| && e[Back(f[p], h, |b|)] == HeadPos(t, p)
    ensures KeyRanks(b, e, h)
  {
    hide Cmp, Bit, HeadPos;
    forall x: nat, y: nat | x < |b| && y < |b| ensures e[x] <= e[y] <==> Cmp(b, x + h, y + h, h) <= 0 {
      var p := Ahead(b, f, h, x);
      var q := Ahead(b, f, h, y);
      CmpShift(b, x + h, f[p], y + h, f[q], h);
      if p <= q {
        HeadRanks(b, f, t, h, p, q);
      } else {
        HeadRanks(b, f, t, h, q, p);
        CmpAntisymmetric(b, f[p], f[q], h);
      }
    }
  }

  /** The place of the rotation `h` symbols after rotation `x`. */
  lemma Ahead(b: seq<int>, f: seq<int>, h: nat, x: nat) returns (p: nat)
    requires b != [] && IsPerm(f, |b|) && h <= |b| && x < |b|
    ensures p < |b| && Back(f[p], h, |b|) == x && (x + h) % |b| == f[p] % |b|
  {
    var z := if x + h < |b| then x + h else x + h - |b|;
    p := PermHits(f, |b|, z);
    DivUnique(z, 0, z, |b|);
    if x + h >= |b| {
      DivUnique(x + h, 1, z, |b|);
    }
  }

  method BuildKeys(fmap: array<int>, eclass: array<int>, bhtab: array<Word>, ghost b: seq<int>, h: nat)
    requires fmap != eclass && fmap.Length == eclass.Length == |b| && h <= |b|
    requires Refined(b, fmap[..], bhtab[..], h, 0)
    modifies eclass
    ensures KeyRanks(b, eclass[..], h)
    ensures forall k :: 0 <= k < |b| ==> 0 <= eclass[k] < |b|
  {
    hide Cmp, Bit, Refined, KeyRanks;
    ghost var f, t := fmap[..], bhtab[..];
    RefinedBits(b, f, t, h, 0);
    var j, i := 0, 0;
    while i < fmap.Length
      invariant 0 <= i <= fmap.Length
      invariant i > 0 ==> j == HeadPos(t, i - 1)
      invariant forall p :: 0 <= p < i ==> 0 <= Back(f[p], h, |b|) < |b| && eclass[Back(f[p], h, |b|)] == HeadPos(t, p)
    {
      var isHead := IsSet(bhtab, i);
      if isHead {
        j := i;
      }
      var k := fmap[i] - h;
      if k < 0 {
        k := k + fmap.Length;
      }
      eclass[k] := j;
      i := i + 1;
    }
    KeysRank(b, f, t, eclass[..], h);
    forall k | 0 <= k < |b| ensures 0 <= eclass[k] < |b| {
      var p := Ahead(b, f, h, k);
    }
  }

  // ---------- one refinement round ----------

  /** Sets a header wherever the key changes within the sorted bucket `l..r`. */
  method SetHeaders(fmap: array<int>, eclass: array<int>, bhtab: array<Word>, l: nat, r: nat, ghost n: nat)
    requires fmap != eclass && l <= r < fmap.Length == n && Covers(bhtab[..], n)
    requires KeysIn(fmap[..], eclass.Length) && forall k :: 0 <= k < eclass.Length ==> 0 <= eclass[k]
    requires Bit(bhtab[..], l) && forall k :: l < k <= r ==> !Bit(bhtab[..], k)
    modifies bhtab
    ensures forall k :: 0 <= k <= n + 1 && !(l < k <= r) ==> Bit(bhtab[..], k) == old(Bit(bhtab[..], k))
    ensures forall k :: l < k <= r ==> Bit(bhtab[..], k) == (eclass[fmap[k - 1]] != eclass[fmap[k]])
  {
    hide Bit;
    var cc, i := -1, l;
    while i <= r
      invariant l <= i <= r + 1
      invariant i == l ==> cc == -1
      invariant i > l ==> cc == eclass[fmap[i - 1]]
      invariant forall k :: 0 <= k <= n + 1 && !(l < k < i) ==> Bit(bhtab[..], k) == old(Bit(bhtab[..], k))
      invariant forall k :: l < k < i ==> Bit(bhtab[..], k) == (eclass[fmap[k - 1]] != eclass[fmap[k]])
    {
      var cc1 := eclass[fmap[i]];
      if cc != cc1 {
        SetBit(bhtab, i);
        cc := cc1;
      }
      i := i + 1;
    }
  }

  /** Refines every bucket from the order of the first `h` symbols to that of the first `2h`. */
  method Round(fmap: array<int>, eclass: array<int>, bhtab: array<Word>, ghost b: seq<int>, h: nat)
    returns (nNotDone: nat)
    requires fmap != eclass && fmap.Length == eclass.Length == |b| <= 900000 && h <= |b|
    requires Refined(b, fmap[..], bhtab[..], h, 0)
    modifies fmap, eclass, bhtab
    ensures Refined(b, fmap[..], bhtab[..], h, |b|)
    ensures nNotDone == 0 ==> forall k :: 0 <= k <= |b| ==> Bit(bhtab[..], k)
  {
    hide Cmp, Bit, Refined, KeyRanks, SegPerm, KeySorted;
    BuildKeys(fmap, eclass, bhtab, b, h);
    ghost var e := eclass[..];
    nNotDone := 0;
    var nblock := fmap.Length;
    var r := -1;
    RefinedBits(b, fmap[..], bhtab[..], h, 0);
    while true
      invariant -1 <= r < nblock && Refined(b, fmap[..], bhtab[..], h, r + 1)
      invariant eclass[..] == e
      invariant nNotDone == 0 ==> forall k :: 0 <= k <= r + 1 ==> Bit(bhtab[..], k)
      decreases nblock - r
    {
      RefinedBits(b, fmap[..], bhtab[..], h, r + 1);
      var k := SkipSet(bhtab, r + 1, nblock + 1);
      var l := k - 1;
      PassSingletons(b, fmap[..], bhtab[..], h, r + 1, l);
      if l >= nblock {
        break;
      }
      k := SkipClear(bhtab, k, nblock);
      r := k - 1;
      if r >= nblock {
        break;
      }
      if r > l {
        nNotDone := nNotDone + (r - l + 1);
        ghost var f, t := fmap[..], bhtab[..];
        QSort3(fmap, eclass, l, r);
        SetHeaders(fmap, eclass, bhtab, l, r, nblock);
        PassBucket(b, f, t, fmap[..], bhtab[..], e, h, l, r);
      }
    }
  }

  lemma RefinedBits(b: seq<int>, f: seq<int>, t: seq<Word>, h: nat, m: nat)
    requires Refined(b, f, t, h, m)
    ensures m <= |b| && Covers(t, |b|) && IsPerm(f, |b|)
    ensures Bit(t, 0) && Bit(t, m) && Bit(t, |b|) && !Bit(t, |b| + 1)
  {
  }

  /** A run of headers is a run of singleton buckets. */
  lemma {:induction false} PassSingletons(b: seq<int>, f: seq<int>, t: seq<Word>, h: nat, m: nat, l: nat)
    requires Refined(b, f, t, h, m) && m <= l <= |b|
    requires forall k :: m <= k <= l ==> Bit(t, k)
    ensures Refined(b, f, t, h, l)
    decreases l - m
  {
    hide Cmp, Bit;
    if m < l {
      PassSingleton(b, f, t, h, m);
      PassSingletons(b, f, t, h, m + 1, l);
    }
  }

  // ---------- the sort ----------

  /** One round done, the next begins with the doubled prefix. */
  lemma NextRound(b: seq<int>, f: seq<int>, t: seq<Word>, h: nat)
    requires Refined(b, f, t, h, |b|)
    ensures Refined(b, f, t, h + h, 0)
  {
    hide Cmp, Bit;
  }

  /** Rotations in order of more symbols than the block has, or all told apart, are in order. */
  lemma SortComplete(b: seq<int>, f: seq<int>, t: seq<Word>, h: nat)
    requires Refined(b, f, t, h, 0)
    requires h > |b| || forall k :: 0 <= k <= |b| ==> Bit(t, k)
    ensures SortedRotations(b, f)
  {
    hide Cmp, Bit, HeadPos;
    forall p, q | 0 <= p <= q < |b| ensures Cmp(b, f[p], f[q], |b|) <= 0 {
      if h > |b| {
        CmpSplit(b, f[p], f[q], |b|, h - |b|);
      } else if p < q {
        AllHeads(b, f, t, h, p, q);
        CmpSplit(b, f[p], f[q], h, |b| - h);
      } else {
        CmpAntisymmetric(b, f[p], f[p], |b|);
      }
    }
  }

  lemma {:induction false} AllHeads(b: seq<int>, f: seq<int>, t: seq<Word>, h: nat, p: nat, q: nat)
    requires Refined(b, f, t, h, 0) && p < q < |b|
    requires forall k :: 0 <= k <= |b| ==> Bit(t, k)
    ensures Cmp(b, f[p], f[q], h) < 0
    decreases q
  {
    hide Cmp, Bit;
    assert Bit(t, q) <==> Cmp(b, f[q - 1], f[q], h) != 0;
    if p < q - 1 {
      AllHeads(b, f, t, h, p, q - 1);
      CmpTransitive(b, f[p], f[q - 1], f[q], h);
    }
  }

  method ClearTable(bhtab: array<Word>, nblock: nat)
    requires Covers(bhtab[..], nblock)
    modifies bhtab
    ensures forall p :: 0 <= p <= nblock + 1 ==> !Bit(bhtab[..], p)
  {
    var nBhtab := 2 + nblock / 32;
    var i := 0;
    while i < nBhtab
      invariant 0 <= i <= nBhtab <= bhtab.Length && forall w :: 0 <= w < i ==> bhtab[w] == ALL_ZEROS
    {
      bhtab[i] := ALL_ZEROS;
      i := i + 1;
    }
  }

  /** Place `p` starts the class of one of the first `n` symbols. */
  ghost predicate StartOf(b: seq<int>, n: nat, p: int) {
    exists c :: 0 <= c < n && Less(b, c) == p
  }

  lemma StartNone(b: seq<int>)
    ensures forall p :: !StartOf(b, 0, p)
  {
  }

  lemma StartStep(b: seq<int>, n: nat, p: int)
    ensures StartOf(b, n + 1, p) == (StartOf(b, n, p) || Less(b, n) == p)
  {
    if StartOf(b, n + 1, p) {
      var c :| 0 <= c < n + 1 && Less(b, c) == p;
      assert c < n ==> 0 <= c < n && Less(b, c) == p;
    }
  }

  /** Sets the first headers, one at the start of each symbol's class, and the sentinels past the block. */
  method FirstHeaders(bhtab: array<Word>, ftab: array<int>, nblock: nat, ghost b: seq<int>)
    requires Covers(bhtab[..], nblock) && ftab.Length == 257 && |b| == nblock
    requires forall c :: 0 <= c < 256 ==> ftab[c] == Less(b, c)
    modifies bhtab
    ensures forall p :: 0 <= p < nblock ==> (Bit(bhtab[..], p) <==> StartOf(b, 256, p))
    ensures Bit(bhtab[..], nblock) && !Bit(bhtab[..], nblock + 1)
  {
    hide Bit, StartOf;
    ClearTable(bhtab, nblock);
    StartNone(b);
    var i := 0;
    while i < 256
      invariant 0 <= i <= 256
      invariant forall p :: 0 <= p < nblock ==> (Bit(bhtab[..], p) <==> StartOf(b, i, p))
      invariant !Bit(bhtab[..], nblock + 1)
    {
      SetBit(bhtab, ftab[i]);
      forall p | 0 <= p < nblock ensures StartOf(b, i + 1, p) == (StartOf(b, i, p) || Less(b, i) == p) {
        StartStep(b, i, p);
      }
      i := i + 1;
    }
    i := 0;
    while i < 32
      invariant 0 <= i <= 32
      invariant forall p :: 0 <= p < nblock ==> (Bit(bhtab[..], p) <==> StartOf(b, 256, p))
      invariant !Bit(bhtab[..], nblock + 1) && (i > 0 ==> Bit(bhtab[..], nblock))
    {
      SetBit(bhtab, nblock + 2 * i);
      ClearBit(bhtab, nblock + 2 * i + 1);
      i := i + 1;
    }
  }

  /** The bucket sort and its headers are the state to refine, at one symbol. */
  lemma FirstRefined(b: seq<int>, f: seq<int>, t: seq<Word>)
    requires b != [] && Bytes(b) && IsPerm(f, |b|) && SortedTo(b, f, 1)
    requires forall k :: 0 <= k < |b| ==> Less(b, b[f[k]]) <= k < Less(b, b[f[k]] + 1)
    requires Covers(t, |b|) && Bit(t, |b|) && !Bit(t, |b| + 1)
    requires forall p :: 0 <= p < |b| ==> (Bit(t, p) <==> StartOf(b, 256, p))
    ensures Refined(b, f, t, 1, 0)
  {
    hide Cmp, Bit, Less;
    LessAll(b, 0);
    assert 0 <= 0 < 256 && Less(b, 0) == 0;
    forall p, q | 0 <= p < q < |b| && q == p + 1 ensures Bit(t, q) <==> Cmp(b, f[p], f[q], 1) != 0 {
      ClassBoundary(b, f, q);
      OneSymbol(b, f[p], f[q]);
    }
  }

  lemma ClassBoundary(b: seq<int>, f: seq<int>, q: nat)
    requires 0 < q < |b| && Bytes(b) && IsPerm(f, |b|)
    requires forall k :: 0 <= k < |b| ==> Less(b, b[f[k]]) <= k < Less(b, b[f[k]] + 1)
    ensures b[f[q - 1]] != b[f[q]] <==> StartOf(b, 256, q)
  {
    var x, y := b[f[q - 1]], b[f[q]];
    if x < y {
      LessMonotone(b, x + 1, y);
      assert Less(b, y) == q;
    } else if y < x {
      LessMonotone(b, y + 1, x);
      assert false;
    }
    forall c | 0 <= c < 256 && Less(b, c) == q ensures x != y {
      if c <= x {
        LessMonotone(b, c, x);
      } else if y < c {
        LessMonotone(b, y + 1, c);
      }
    }
  }

  /** Overwrites the block, whose memory the keys share. */
  method Overwrite(block: array<int>)
    modifies block
  {
    var i := 0;
    while i < block.Length {
      block[i] := *;
      i := i + 1;
    }
  }

  /** Puts the block back: the first symbols of the sorted rotations are the tallied symbols in order. */
  method RestoreBlock(fmap: array<int>, block: array<int>, ftabCopy: array<int>, ghost b: seq<int>)
    requires fmap != block && fmap != ftabCopy && block != ftabCopy
    requires fmap.Length == block.Length == |b| && ftabCopy.Length == 256
    requires Bytes(b) && IsPerm(fmap[..], |b|)
    requires forall c :: 0 <= c < 256 ==> ftabCopy[c] == Count(b, c)
    requires forall k :: 0 <= k < |b| ==> Less(b, b[fmap[k]]) <= k < Less(b, b[fmap[k]] + 1)
    modifies block, ftabCopy
    ensures block[..] == b
  {
    ghost var f := fmap[..];
    var j, i := 0, 0;
    LessAll(b, 0);
    LessAll(b, 256);
    while i < fmap.Length
      invariant 0 <= i <= fmap.Length && 0 <= j < 256
      invariant Less(b, j) <= i <= Less(b, j + 1) && ftabCopy[j] == Less(b, j + 1) - i
      invariant forall c :: j < c < 256 ==> ftabCopy[c] == Count(b, c)
      invariant forall p :: 0 <= p < i ==> block[f[p]] == b[f[p]]
    {
      while ftabCopy[j] == 0
        invariant 0 <= j < 256
        invariant Less(b, j) <= i <= Less(b, j + 1) && ftabCopy[j] == Less(b, j + 1) - i
        invariant forall c :: j < c < 256 ==> ftabCopy[c] == Count(b, c)
        invariant forall p :: 0 <= p < i ==> block[f[p]] == b[f[p]]
        decreases 256 - j
      {
        assert j != 255;
        LessMonotone(b, j + 1, j + 2);
        j := j + 1;
      }
      ftabCopy[j] := ftabCopy[j] - 1;
      SameClass(b, b[f[i]], j, i);
      assert fmap[i] == f[i] && forall p :: 0 <= p < i ==> f[p] != f[i];
      block[fmap[i]] := j;
      i := i + 1;
    }
    forall x | 0 <= x < |b| ensures block[x] == b[x] {
      var p := PermHits(f, |b|, x);
    }
  }

  lemma SortedToOne(b: seq<int>, f: seq<int>)
    requires b != [] && SortedRotations(b, f)
    ensures SortedTo(b, f, 1)
  {
    hide Cmp;
    forall p, q | 0 <= p <= q < |f| ensures Cmp(b, f[p], f[q], 1) <= 0 {
      CmpSplit(b, f[p], f[q], 1, |b| - 1);
    }
  }

  /** Sorting further does not move a symbol out of its class. */
  lemma SortedClasses(b: seq<int>, f0: seq<int>, f: seq<int>)
    requires b != [] && IsPerm(f0, |b|) && SortedTo(b, f0, 1)
    requires forall k :: 0 <= k < |b| ==> Less(b, b[f0[k]]) <= k < Less(b, b[f0[k]] + 1)
    requires IsPerm(f, |b|) && SortedTo(b, f, 1)
    ensures forall k :: 0 <= k < |b| ==> Less(b, b[f[k]]) <= k < Less(b, b[f[k]] + 1)
  {
    hide SortedTo, Less;
    forall k | 0 <= k < |b| ensures Less(b, b[f[k]]) <= k < Less(b, b[f[k]] + 1) {
      SortedListingsAgree(b, f, f0, 1, k);
      OneSymbol(b, f[k], f0[k]);
    }
  }

  /** Lists the rotations of the block in order, and leaves the block as it was. */
  method Sort(fmap: array<int>, eclass: array<int>, block: array<int>, bhtab: array<Word>)
    requires 0 < block.Length <= 900000 && fmap.Length == eclass.Length == block.Length
    requires fmap != eclass && fmap != block && eclass != block
    requires Bytes(block[..]) && Covers(bhtab[..], block.Length)
    modifies fmap, eclass, block, bhtab
    ensures SortedRotations(old(block[..]), fmap[..])
    ensures block[..] == old(block[..])
  {
    hide Cmp, Bit, Refined, Bytes, SortedTo;
    ghost var b := block[..];
    var nblock := block.Length;
    var ftab, ftabCopy := new int[257], new int[256];
    TallySymbols(block, ftab, ftabCopy);
    PlacePositions(fmap, block, ftab);
    ghost var f0 := fmap[..];
    assert block[..] == b;
    PlacedSorted(b, f0);
    FirstHeaders(bhtab, ftab, nblock, b);
    FirstRefined(b, f0, bhtab[..]);
    Overwrite(block);
    var h := 1;
    while true
      invariant 1 <= h <= nblock && Refined(b, fmap[..], bhtab[..], h, 0)
      invariant forall c :: 0 <= c < 256 ==> ftabCopy[c] == Count(b, c)
      decreases nblock - h
    {
      var nNotDone := Round(fmap, eclass, bhtab, b, h);
      NextRound(b, fmap[..], bhtab[..], h);
      h := h * 2;
      if h > nblock || nNotDone == 0 {
        break;
      }
    }
    SortComplete(b, fmap[..], bhtab[..], h);
    SortedToOne(b, fmap[..]);
    SortedClasses(b, f0, fmap[..]);
    RestoreBlock(fmap, block, ftabCopy, b);
  }
}
