/** Counting sort's bookkeeping: how many symbols of a column are smaller than a given one. */
module Counting {
  import opened Rotations

  /** The number of entries of `s` that are smaller than `c`. */
  function Less(s: seq<int>, c: int): (n: nat)
    ensures n <= |s|
  {
    if s == [] then 0 else Less(s[..|s| - 1], c) + (if s[|s| - 1] < c then 1 else 0)
  }

  /** The number of entries of `s` equal to `c`. */
  ghost function Count(s: seq<int>, c: int): int {
    Less(s, c + 1) - Less(s, c)
  }

  lemma LessPush(s: seq<int>, x: int, c: int)
    ensures Less(s + [x], c) == Less(s, c) + (if x < c then 1 else 0)
  {
    assert (s + [x])[..|s|] == s;
  }

  lemma LessPrefix(s: seq<int>, i: nat, c: int)
    requires i < |s|
    ensures Less(s[..i + 1], c) == Less(s[..i], c) + (if s[i] < c then 1 else 0)
  {
    assert s[..i + 1] == s[..i] + [s[i]];
    LessPush(s[..i], s[i], c);
  }

  lemma {:induction false} LessMonotone(s: seq<int>, c: int, d: int)
    requires c <= d
    ensures Less(s, c) <= Less(s, d)
    decreases |s|
  {
    if s != [] {
      LessMonotone(s[..|s| - 1], c, d);
    }
  }

  /** Prefixes hold no more of any symbol than the whole. */
  lemma {:induction false} CountPrefix(s: seq<int>, i: nat, c: int)
    requires i <= |s|
    ensures 0 <= Count(s[..i], c) <= Count(s, c)
    decreases |s| - i
  {
    LessMonotone(s[..i], c, c + 1);
    if i < |s| {
      LessPrefix(s, i, c);
      LessPrefix(s, i, c + 1);
      CountPrefix(s, i + 1, c);
    } else {
      assert s[..i] == s;
    }
  }

  lemma {:induction false} LessAll(s: seq<int>, c: int)
    ensures (forall k :: 0 <= k < |s| ==> s[k] < c) ==> Less(s, c) == |s|
    ensures (forall k :: 0 <= k < |s| ==> s[k] >= c) ==> Less(s, c) == 0
    decreases |s|
  {
    if s != [] {
      var r := s[..|s| - 1];
      assert forall k :: 0 <= k < |r| ==> r[k] == s[k];
      LessAll(r, c);
    }
  }

  /** How many times the symbol at `i` occurs before `i`. */
  ghost function Rank(s: seq<int>, i: nat): int
    requires i < |s|
  {
    Count(s[..i], s[i])
  }

  lemma RankBounds(s: seq<int>, i: nat)
    requires i < |s|
    ensures 0 <= Rank(s, i) < Count(s, s[i])
  {
    CountPrefix(s, i, s[i]);
    CountPrefix(s, i + 1, s[i]);
    LessPrefix(s, i, s[i]);
    LessPrefix(s, i, s[i] + 1);
  }

  lemma RankStrict(s: seq<int>, i: nat, j: nat)
    requires i < j < |s| && s[i] == s[j]
    ensures Rank(s, i) < Rank(s, j)
  {
    RankBounds(s[..j + 1], i);
    assert s[..j + 1][..i] == s[..i];
    RankBounds(s[..j], i);
    assert s[..j][..i] == s[..i];
  }

  /** Where a stable counting sort puts entry `i`: the first entries of a symbol first. */
  ghost function Up(s: seq<int>, i: nat): int
    requires i < |s|
  {
    Less(s, s[i]) + Rank(s, i)
  }

  /** Where the counting sort that fills each class from its end puts entry `i`. */
  ghost function Down(s: seq<int>, i: nat): int
    requires i < |s|
  {
    Less(s, s[i] + 1) - 1 - Rank(s, i)
  }

  lemma UpBounds(s: seq<int>, i: nat)
    requires i < |s|
    ensures Less(s, s[i]) <= Up(s, i) < Less(s, s[i] + 1) <= |s|
    ensures Less(s, s[i]) <= Down(s, i) < Less(s, s[i] + 1)
  {
    RankBounds(s, i);
  }

  lemma SlotsDiffer(s: seq<int>, i: nat, j: nat)
    requires i < j < |s|
    ensures Up(s, i) != Up(s, j)
    ensures Down(s, i) != Down(s, j)
  {
    UpBounds(s, i);
    UpBounds(s, j);
    if s[i] == s[j] {
      RankStrict(s, i, j);
    } else if s[i] < s[j] {
      LessMonotone(s, s[i] + 1, s[j]);
    } else {
      LessMonotone(s, s[j] + 1, s[i]);
    }
  }

  /** The places of the two counting sorts are permutations. */
  lemma SlotsPermute(s: seq<int>)
    ensures IsPerm(seq(|s|, i requires 0 <= i < |s| => Up(s, i)), |s|)
    ensures IsPerm(seq(|s|, i requires 0 <= i < |s| => Down(s, i)), |s|)
  {
    forall i | 0 <= i < |s| ensures 0 <= Up(s, i) < |s| && 0 <= Down(s, i) < |s| {
      UpBounds(s, i);
    }
    forall i, j | 0 <= i < j < |s| ensures Up(s, i) != Up(s, j) && Down(s, i) != Down(s, j) {
      SlotsDiffer(s, i, j);
    }
  }

  lemma SameClass(b: seq<int>, c: int, d: int, k: int)
    requires Less(b, c) <= k < Less(b, c + 1) && Less(b, d) <= k < Less(b, d + 1)
    ensures c == d
  {
    if c < d {
      LessMonotone(b, c + 1, d);
    } else if d < c {
      LessMonotone(b, d + 1, c);
    }
  }

  lemma CountStep(s: seq<int>, i: nat, c: int)
    requires i < |s|
    ensures Count(s[..i + 1], c) == Count(s[..i], c) + (if s[i] == c then 1 else 0)
  {
    LessPrefix(s, i, c);
    LessPrefix(s, i, c + 1);
  }

  lemma UpIsSlot(s: seq<int>, i: nat)
    requires i < |s|
    ensures Up(s, i) == Less(s, s[i]) + Count(s[..i], s[i])
  {
  }

  lemma CountNone(s: seq<int>)
    ensures forall c :: Count(s[..0], c) == 0
  {
  }
}
