/** Prefix codes of any kind: the Kraft inequality, and what it makes of the Huffman code lengths. */
module PrefixCodes {
  import opened Arithmetic
  import opened BitStream
  import opened HuffmanForest
  import opened HuffmanOptimal

  /** No code word is the beginning of another. */
  ghost predicate IsPrefixFree(words: seq<seq<bool>>) {
    forall i, j :: 0 <= i < |words| && 0 <= j < |words| && i != j ==> !(words[i] <= words[j])
  }

  ghost function Lengths(words: seq<seq<bool>>): (d: seq<nat>)
    ensures |d| == |words| && forall i :: 0 <= i < |words| ==> d[i] == |words[i]|
  {
    seq(|words|, i requires 0 <= i < |words| => |words[i]|)
  }

  /** The `L`-bit numbers that begin with the bits of `s`. */
  ghost function Extensions(s: seq<bool>, L: nat): set<int>
    requires |s| <= L
  {
    Range(Value(s) * Pow2(L - |s|), Pow2(L - |s|))
  }

  ghost function Range(lo: int, n: nat): (r: set<int>)
    ensures forall x :: x in r <==> lo <= x < lo + n
  {
    if n == 0 then {} else Range(lo, n - 1) + {lo + n - 1}
  }

  lemma {:induction false} RangeSize(lo: int, n: nat)
    ensures |Range(lo, n)| == n
    decreases n
  {
    if n > 0 {
      RangeSize(lo, n - 1);
    }
  }

  lemma BeginsWith(s: seq<bool>, L: nat, x: int)
    requires |s| <= L && x in Extensions(s, L)
    ensures 0 <= x < Pow2(L) && s <= Bits(x, L)
  {
    hide Value, Pow2, Bits;
    var k := L - |s|;
    var r := x - Value(s) * Pow2(k);
    ValueOfBits(r, k);
    ValueConcat(s, Bits(r, k));
    BitsOfValue(s + Bits(r, k));
    ValueBounded(s + Bits(r, k));
  }

  lemma BothBegin(s: seq<bool>, t: seq<bool>, b: seq<bool>)
    requires s <= b && t <= b
    ensures s <= t || t <= s
  {
    assert s == b[..|s|] && t == b[..|t|];
    if |s| <= |t| {
      assert b[..|s|] == b[..|t|][..|s|];
    } else {
      assert b[..|t|] == b[..|s|][..|t|];
    }
  }

  lemma Meeting(s: seq<bool>, t: seq<bool>, L: nat, x: int)
    requires |s| <= L && |t| <= L && x in Extensions(s, L) && x in Extensions(t, L)
    ensures s <= t || t <= s
  {
    hide Bits, Extensions;
    BeginsWith(s, L, x);
    BeginsWith(t, L, x);
    BothBegin(s, t, Bits(x, L));
  }

  lemma Disjoint(s: seq<bool>, t: seq<bool>, L: nat)
    requires |s| <= L && |t| <= L && !(s <= t) && !(t <= s)
    ensures Extensions(s, L) !! Extensions(t, L)
  {
    hide Extensions;
    forall x | x in Extensions(s, L) ensures x !in Extensions(t, L) {
      if x in Extensions(t, L) {
        Meeting(s, t, L, x);
      }
    }
  }

  /** The numbers that begin with one of the first `k` code words. */
  ghost function Covered(words: seq<seq<bool>>, L: nat, k: nat): set<int>
    requires k <= |words| && forall i :: 0 <= i < |words| ==> |words[i]| <= L
  {
    if k == 0 then {} else Covered(words, L, k - 1) + Extensions(words[k - 1], L)
  }

  lemma {:induction false} CoveredApart(words: seq<seq<bool>>, L: nat, k: nat, j: nat)
    requires IsPrefixFree(words) && k <= j < |words| && forall i :: 0 <= i < |words| ==> |words[i]| <= L
    ensures Covered(words, L, k) !! Extensions(words[j], L)
    decreases k
  {
    hide Extensions;
    if k > 0 {
      CoveredApart(words, L, k - 1, j);
      Disjoint(words[k - 1], words[j], L);
    }
  }

  lemma {:induction false} CoveredSize(words: seq<seq<bool>>, L: nat, k: nat)
    requires IsPrefixFree(words) && k <= |words| && forall i :: 0 <= i < |words| ==> |words[i]| <= L
    ensures |Covered(words, L, k)| == KraftSum(Lengths(words), L, k)
    ensures Covered(words, L, k) <= Range(0, Pow2(L))
    decreases k
  {
    hide Bits, Value, Pow2;
    if k > 0 {
      var s := words[k - 1];
      CoveredSize(words, L, k - 1);
      CoveredApart(words, L, k - 1, k - 1);
      RangeSize(Value(s) * Pow2(L - |s|), Pow2(L - |s|));
      forall x | x in Extensions(s, L) ensures x in Range(0, Pow2(L)) {
        BeginsWith(s, L, x);
      }
    }
  }

  lemma {:induction false} SubsetSize(s: set<int>, t: set<int>)
    requires s <= t
    ensures |s| <= |t|
  {
    assert t == s + (t - s);
  }

  /** The Kraft inequality: the lengths of every prefix code are code lengths. */
  lemma KraftInequality(words: seq<seq<bool>>, L: nat)
    requires IsPrefixFree(words) && forall i :: 0 <= i < |words| ==> |words[i]| <= L
    ensures CodeLengths(Lengths(words), L)
  {
    hide IsPrefixFree, Covered, KraftSum, Pow2;
    CoveredSize(words, L, |words|);
    RangeSize(0, Pow2(L));
    SubsetSize(Covered(words, L, |words|), Range(0, Pow2(L)));
  }

  lemma {:induction false} Longest(words: seq<seq<bool>>, k: nat) returns (L: nat)
    requires k <= |words|
    ensures forall i :: 0 <= i < k ==> |words[i]| <= L
  {
    if k == 0 {
      L := 0;
    } else {
      L := Longest(words, k - 1);
      if |words[k - 1]| > L {
        L := |words[k - 1]|;
      }
    }
  }

  /** Optimal code lengths take no more bits than any prefix code does. */
  lemma NoPrefixCodeBetter(freq: seq<int>, len: seq<int>, words: seq<seq<bool>>)
    requires |words| <= |freq| && |words| <= |len|
    requires Optimal(freq, len, |words|) && IsPrefixFree(words)
    ensures CodeCost(freq, len, |words|) <= CodeCost(freq, Lengths(words), |words|)
  {
    hide IsPrefixFree, CodeCost, CodeLengths;
    var L := Longest(words, |words|);
    KraftInequality(words, L);
  }
}
