/** Move-to-front lists, and the decoder's list of sixteen segments floating in a 4096-byte array. */
module SegmentedMtf {

  const MTFA_SIZE := 4096
  const MTFL_SIZE := 16
  const SEGMENTS := 16

  /** The list with its entry `n` moved to the front. */
  function MoveToFront(s: seq<int>, n: nat): (t: seq<int>)
    requires n < |s|
    ensures |t| == |s|
  {
    [s[n]] + s[..n] + s[n + 1..]
  }

  /** Moving an entry to the front rearranges the list. */
  lemma MoveToFrontPermutes(s: seq<int>, n: nat)
    requires n < |s|
    ensures multiset(MoveToFront(s, n)) == multiset(s)
  {
    assert s == s[..n] + [s[n]] + s[n + 1..];
  }

  /** Moving an early entry to the front does not involve the rest of the list. */
  lemma MoveToFrontPrefix(s: seq<int>, m: nat, n: nat)
    requires n < m <= |s|
    ensures MoveToFront(s, n)[..m] == MoveToFront(s[..m], n)
  {
  }

  /** The segments lie in the array in order, without overlap. */
  ghost predicate Placed(a: seq<int>, base: seq<int>) {
    && |a| == MTFA_SIZE && |base| == SEGMENTS
    && (forall s :: 0 <= s < SEGMENTS ==> 0 <= base[s] <= MTFA_SIZE - MTFL_SIZE * (SEGMENTS - s))
    && (forall s, t :: 0 <= s < t < SEGMENTS ==> base[s] + MTFL_SIZE * (t - s) <= base[t])
  }

  /** The entry at offset `o` of segment `s`. */
  ghost function Entry(a: seq<int>, base: seq<int>, s: int, o: int): int
    requires 0 <= s < |base| && 0 <= base[s] + o < |a|
  {
    a[base[s] + o]
  }

  /** The list the segments hold, one after another. */
  ghost function ListOf(a: seq<int>, base: seq<int>): (l: seq<int>)
    requires Placed(a, base)
    ensures |l| == MTFL_SIZE * SEGMENTS
  {
    seq(MTFL_SIZE * SEGMENTS, k requires 0 <= k < MTFL_SIZE * SEGMENTS => Entry(a, base, k / MTFL_SIZE, k % MTFL_SIZE))
  }

  /** Segment `s` holds its sixteen entries of list `l`. */
  ghost predicate Holds(a: seq<int>, base: seq<int>, s: int, l: seq<int>) {
    && 0 <= s < |base| && |l| == MTFL_SIZE * SEGMENTS && s < SEGMENTS
    && 0 <= base[s] <= |a| - MTFL_SIZE
    && forall o :: 0 <= o < MTFL_SIZE ==> Entry(a, base, s, o) == l[MTFL_SIZE * s + o]
  }

  lemma HoldsAll(a: seq<int>, base: seq<int>, l: seq<int>)
    requires Placed(a, base) && |l| == MTFL_SIZE * SEGMENTS
    requires forall s :: 0 <= s < SEGMENTS ==> Holds(a, base, s, l)
    ensures ListOf(a, base) == l
  {
    forall k | 0 <= k < MTFL_SIZE * SEGMENTS ensures ListOf(a, base)[k] == l[k] {
      assert Holds(a, base, k / MTFL_SIZE, l);
      assert Entry(a, base, k / MTFL_SIZE, k % MTFL_SIZE) == l[MTFL_SIZE * (k / MTFL_SIZE) + k % MTFL_SIZE];
    }
  }

  lemma ListHolds(a: seq<int>, base: seq<int>, s: int)
    requires Placed(a, base) && 0 <= s < SEGMENTS
    ensures Holds(a, base, s, ListOf(a, base))
  {
  }

  /** A segment whose place and entries are untouched holds what it held. */
  lemma HoldsKept(a: seq<int>, base: seq<int>, a': seq<int>, base': seq<int>, s: int, l: seq<int>)
    requires Holds(a, base, s, l) && |a'| == |a| && |base'| == |base| && base'[s] == base[s]
    requires forall p :: base[s] <= p < base[s] + MTFL_SIZE ==> a'[p] == a[p]
    ensures Holds(a', base', s, l)
  {
    forall o | 0 <= o < MTFL_SIZE ensures Entry(a', base', s, o) == l[MTFL_SIZE * s + o] {
      assert Entry(a, base, s, o) == l[MTFL_SIZE * s + o];
    }
  }

  // ---------- the general case: one entry crosses every segment boundary below it ----------

  /** Segment `s`, about to give up its last entry, holds one entry less: those from its second on. */
  ghost predicate HoldsTail(a: seq<int>, base: seq<int>, s: int, l: seq<int>) {
    && 0 <= s < |base| && |l| == MTFL_SIZE * SEGMENTS && s < SEGMENTS
    && 0 <= base[s] <= |a| - MTFL_SIZE + 1
    && forall o :: 0 <= o < MTFL_SIZE - 1 ==> Entry(a, base, s, o) == l[MTFL_SIZE * s + o + 1]
  }

  /**
   * The state while the entries move up one place, with segments above `l` done: `was` is the list before,
   * `now` the list after, `b0` where the segments were.
   */
  ghost predicate Rippling(a: seq<int>, base: seq<int>, b0: seq<int>, was: seq<int>, now: seq<int>, lno: int, l: int) {
    && |base| == SEGMENTS && Placed(a, b0) && b0[0] > 0
    && 0 <= l <= lno < SEGMENTS && 1 <= lno
    && (forall s :: 0 <= s < SEGMENTS ==> base[s] == b0[s] - (if l < s < lno then 1 else 0) + (if s == lno == l then 1 else 0))
    && (forall s :: l < s < SEGMENTS ==> Holds(a, base, s, now))
    && (forall s :: 0 <= s < l ==> Holds(a, base, s, was))
    && HoldsTail(a, base, l, now)
  }

  /** What moving entry `nn` to the front does to the entries before it. */
  lemma MovedUp(was: seq<int>, nn: nat, k: nat)
    requires nn < |was| && k < |was|
    ensures MoveToFront(was, nn)[k] == if k == 0 then was[nn] else if k <= nn then was[k - 1] else was[k]
  {
  }

  /** Giving up its last entry, a segment holds the rest of what it will hold. */
  lemma TailOfOld(a: seq<int>, base: seq<int>, s: int, was: seq<int>, nn: nat)
    requires Holds(a, base, s, was) && nn < |was| && MTFL_SIZE * (s + 1) <= nn
    ensures HoldsTail(a, base, s, MoveToFront(was, nn))
    ensures s + 1 < SEGMENTS && a[base[s] + MTFL_SIZE - 1] == MoveToFront(was, nn)[MTFL_SIZE * (s + 1)]
  {
    forall o | 0 <= o < MTFL_SIZE - 1 ensures Entry(a, base, s, o) == MoveToFront(was, nn)[MTFL_SIZE * s + o + 1] {
      MovedUp(was, nn, MTFL_SIZE * s + o + 1);
    }
    assert Entry(a, base, s, MTFL_SIZE - 1) == was[MTFL_SIZE * s + MTFL_SIZE - 1];
    MovedUp(was, nn, MTFL_SIZE * (s + 1));
  }

  /** The first entry put in front of the rest, one place further down. */
  lemma HeadToTail(a: seq<int>, base: seq<int>, a': seq<int>, base': seq<int>, s: int, now: seq<int>)
    requires HoldsTail(a, base, s, now) && base[s] >= 1 && |base'| == |base| && base'[s] == base[s] - 1
    requires |a'| == |a| && a'[base'[s]] == now[MTFL_SIZE * s]
    requires forall p :: 0 <= p < |a| && p != base'[s] ==> a'[p] == a[p]
    ensures Holds(a', base', s, now)
  {
    forall o | 0 <= o < MTFL_SIZE ensures Entry(a', base', s, o) == now[MTFL_SIZE * s + o] {
      if o > 0 {
        assert Entry(a, base, s, o - 1) == now[MTFL_SIZE * s + o];
      }
    }
  }

  /** One boundary crossed: the last entry of segment `l - 1` becomes the first of segment `l`. */
  lemma RippleStep(a: seq<int>, base: seq<int>, b0: seq<int>, was: seq<int>, nn: nat, lno: int, l: int, a': seq<int>,
          base': seq<int>)
    requires nn < |was| && Rippling(a, base, b0, was, MoveToFront(was, nn), lno, l) && l >= 1
    requires MTFL_SIZE * lno <= nn < MTFL_SIZE * (lno + 1)
    requires base' == base[l := base[l] - 1] && 0 <= base'[l] < |a| && 0 <= base[l - 1] <= |a| - MTFL_SIZE
    requires a' == a[base'[l] := a[base[l - 1] + MTFL_SIZE - 1]]
    ensures Rippling(a', base', b0, was, MoveToFront(was, nn), lno, l - 1)
  {
    hide Holds, HoldsTail, MoveToFront;
    var now := MoveToFront(was, nn);
    TailOfOld(a, base, l - 1, was, nn);
    HeadToTail(a, base, a', base', l, now);
    forall s | l < s < SEGMENTS ensures Holds(a', base', s, now) {
      HoldsKept(a, base, a', base', s, now);
    }
    forall s | 0 <= s < l - 1 ensures Holds(a', base', s, was) {
      HoldsKept(a, base, a', base', s, was);
    }
    TailKept(a, base, a', base', l - 1, now);
    SamePlaces(a, a', b0);
  }

  lemma TailKept(a: seq<int>, base: seq<int>, a': seq<int>, base': seq<int>, s: int, l: seq<int>)
    requires HoldsTail(a, base, s, l) && |a'| == |a| && |base'| == |base| && base'[s] == base[s]
    requires forall p :: base[s] <= p < base[s] + MTFL_SIZE - 1 ==> a'[p] == a[p]
    ensures HoldsTail(a', base', s, l)
  {
    forall o | 0 <= o < MTFL_SIZE - 1 ensures Entry(a', base', s, o) == l[MTFL_SIZE * s + o + 1] {
      assert Entry(a, base, s, o) == l[MTFL_SIZE * s + o + 1];
    }
  }

  lemma SamePlaces(a: seq<int>, a': seq<int>, b: seq<int>)
    requires Placed(a, b) && |a'| == |a|
    ensures Placed(a', b)
  {
  }

  /** The decoder's list of byte indices, most recently used first. */
  class MtfList {
    const mtfa: array<int>
    const mtfbase: array<int>

    /** The segments are in place, with room to move the first one down. */
    ghost predicate Valid()
      reads this, mtfa, mtfbase
    {
      mtfa != mtfbase && Placed(mtfa[..], mtfbase[..]) && mtfbase[0] > 0
    }

    ghost function List(): (l: seq<int>)
      requires Valid()
      reads this, mtfa, mtfbase
    {
      ListOf(mtfa[..], mtfbase[..])
    }

    /** The list of all byte indices in order. */
    constructor ()
      ensures Valid() && List() == seq(256, k => k)
      ensures fresh(mtfa) && fresh(mtfbase)
    {
      mtfa := new int[MTFA_SIZE];
      mtfbase := new int[SEGMENTS];
      new;
      var kk := MTFA_SIZE - 1;
      var ii := SEGMENTS - 1;
      while ii >= 0
        invariant -1 <= ii < SEGMENTS && kk == MTFA_SIZE - 1 - MTFL_SIZE * (SEGMENTS - 1 - ii)
        invariant forall s :: ii < s < SEGMENTS ==> mtfbase[s] == MTFA_SIZE - MTFL_SIZE * (SEGMENTS - s)
        invariant forall k :: kk < k < MTFA_SIZE ==> mtfa[k] == k - (MTFA_SIZE - MTFL_SIZE * SEGMENTS)
      {
        var jj := MTFL_SIZE - 1;
        while jj >= 0
          invariant -1 <= jj < MTFL_SIZE && kk == MTFA_SIZE - MTFL_SIZE * (SEGMENTS - ii) + jj
          invariant forall s :: ii < s < SEGMENTS ==> mtfbase[s] == MTFA_SIZE - MTFL_SIZE * (SEGMENTS - s)
          invariant forall k :: kk < k < MTFA_SIZE ==> mtfa[k] == k - (MTFA_SIZE - MTFL_SIZE * SEGMENTS)
        {
          mtfa[kk] := ii * MTFL_SIZE + jj;
          kk := kk - 1;
          jj := jj - 1;
        }
        mtfbase[ii] := kk + 1;
        ii := ii - 1;
      }
    }

    /** Moves the `nn` entries from place `pp` up by one, four at a time. */
    method ShiftUp(pp: nat, nn: nat)
      requires mtfa.Length == MTFA_SIZE && pp + nn < MTFA_SIZE
      modifies mtfa
      ensures forall p :: pp < p <= pp + nn ==> mtfa[p] == old(mtfa[..])[p - 1]
      ensures forall p :: 0 <= p < MTFA_SIZE && !(pp < p <= pp + nn) ==> mtfa[p] == old(mtfa[p])
    {
      ghost var a := mtfa[..];
      var n := nn;
      while n > 3
        invariant 0 <= n <= nn
        invariant forall p :: pp + n < p <= pp + nn ==> mtfa[p] == a[p - 1]
        invariant forall p :: 0 <= p < MTFA_SIZE && !(pp + n < p <= pp + nn) ==> mtfa[p] == a[p]
      {
        var z := pp + n;
        mtfa[z] := mtfa[z - 1];
        mtfa[z - 1] := mtfa[z - 2];
        mtfa[z - 2] := mtfa[z - 3];
        mtfa[z - 3] := mtfa[z - 4];
        n := n - 4;
      }
      while n > 0
        invariant 0 <= n <= nn
        invariant forall p :: pp + n < p <= pp + nn ==> mtfa[p] == a[p - 1]
        invariant forall p :: 0 <= p < MTFA_SIZE && !(pp + n < p <= pp + nn) ==> mtfa[p] == a[p]
      {
        mtfa[pp + n] := mtfa[pp + n - 1];
        n := n - 1;
      }
    }

    /** The entry at the front. */
    method Front() returns (uc: int)
      requires Valid()
      ensures uc == List()[0]
    {
      hide ListOf;
      FirstEntries(mtfa[..], mtfbase[..], List());
      uc := mtfa[mtfbase[0]];
    }

    /** Moves an entry of the first segment to the front. */
    method MoveWithinFirst(nn: nat) returns (uc: int)
      requires Valid() && nn < MTFL_SIZE
      modifies mtfa
      ensures Valid() && uc == old(List())[nn] && List() == MoveToFront(old(List()), nn)
    {
      hide MoveToFront, ListOf, Holds;
      ghost var a, was := mtfa[..], List();
      var pp := mtfbase[0];
      FirstEntries(a, mtfbase[..], was);
      uc := mtfa[pp + nn];
      assert uc == was[nn];
      ShiftUp(pp, nn);
      mtfa[pp] := uc;
      FirstMoved(a, mtfa[..], mtfbase[..], was, nn);
    }

    /** Moves the entries from place `from` up to place `to` by one, one at a time. */
    method CloseGap(from: nat, to: nat)
      requires mtfa.Length == MTFA_SIZE && from <= to < MTFA_SIZE
      modifies mtfa
      ensures forall p :: from < p <= to ==> mtfa[p] == old(mtfa[..])[p - 1]
      ensures forall p :: 0 <= p < MTFA_SIZE && !(from < p <= to) ==> mtfa[p] == old(mtfa[p])
    {
      ghost var a := mtfa[..];
      var pp := to;
      while pp > from
        invariant from <= pp <= to
        invariant forall p :: pp < p <= to ==> mtfa[p] == a[p - 1]
        invariant forall p :: 0 <= p < MTFA_SIZE && !(pp < p <= to) ==> mtfa[p] == a[p]
      {
        mtfa[pp] := mtfa[pp - 1];
        pp := pp - 1;
      }
    }

    /** Moves an entry of a later segment to the front, each segment before it giving its last entry to the next. */
    method MoveAcross(nn: nat) returns (uc: int)
      requires Valid() && MTFL_SIZE <= nn < MTFL_SIZE * SEGMENTS
      modifies mtfa, mtfbase
      ensures mtfa != mtfbase && Placed(mtfa[..], mtfbase[..])
      ensures uc == old(List())[nn] && ListOf(mtfa[..], mtfbase[..]) == MoveToFront(old(List()), nn)
    {
      hide MoveToFront, ListOf, Holds, HoldsTail;
      ghost var a, b0, was := mtfa[..], mtfbase[..], List();
      ghost var now := MoveToFront(was, nn);
      var lno, off := nn / MTFL_SIZE, nn % MTFL_SIZE;
      ghost var lno0 := lno;
      var pp := mtfbase[lno] + off;
      uc := mtfa[pp];
      EntryIs(a, b0, lno, off);
      assert uc == was[nn];
      CloseGap(mtfbase[lno], pp);
      mtfbase[lno] := mtfbase[lno] + 1;
      RippleStart(a, mtfa[..], b0, mtfbase[..], was, nn);
      while lno > 0
        invariant 0 <= lno <= lno0
        invariant Rippling(mtfa[..], mtfbase[..], b0, was, now, lno0, lno)
      {
        ghost var a1, b1 := mtfa[..], mtfbase[..];
        mtfbase[lno] := mtfbase[lno] - 1;
        mtfa[mtfbase[lno]] := mtfa[mtfbase[lno - 1] + MTFL_SIZE - 1];
        RippleStep(a1, b1, b0, was, nn, lno0, lno, mtfa[..], mtfbase[..]);
        lno := lno - 1;
      }
      ghost var a1, b1 := mtfa[..], mtfbase[..];
      mtfbase[0] := mtfbase[0] - 1;
      mtfa[mtfbase[0]] := uc;
      RippleEnd(a1, mtfa[..], b0, b1, mtfbase[..], was, nn, lno0);
    }

    /** Copies the segment at `from` to the places up to `to`, its last entry first. */
    method CopyUp(from: int, to: int) returns (kk: int)
      requires mtfa.Length == MTFA_SIZE && 0 <= from <= to - MTFL_SIZE + 1 && to < MTFA_SIZE
      modifies mtfa
      ensures kk == to - MTFL_SIZE
      ensures forall p :: kk < p <= to ==> mtfa[p] == old(mtfa[..])[p - (kk + 1) + from]
      ensures forall p :: 0 <= p <= kk || to < p < MTFA_SIZE ==> mtfa[p] == old(mtfa[p])
    {
      ghost var a := mtfa[..];
      kk := to;
      var jj := MTFL_SIZE - 1;
      while jj >= 0
        invariant -1 <= jj < MTFL_SIZE && kk == to - (MTFL_SIZE - 1) + jj
        invariant forall p :: kk < p <= to ==> mtfa[p] == a[p - (kk - jj) + from]
        invariant forall p :: 0 <= p <= kk || to < p < MTFA_SIZE ==> mtfa[p] == a[p]
      {
        mtfa[kk] := mtfa[from + jj];
        kk := kk - 1;
        jj := jj - 1;
      }
    }

    /** Moves all segments back up to the end of the array. */
    method Rebuild()
      requires mtfa != mtfbase && Placed(mtfa[..], mtfbase[..])
      modifies mtfa, mtfbase
      ensures Valid() && List() == old(ListOf(mtfa[..], mtfbase[..]))
    {
      hide ListOf, Holds;
      ghost var a, b0 := mtfa[..], mtfbase[..];
      ghost var l := ListOf(a, b0);
      var kk := MTFA_SIZE - 1;
      var ii := SEGMENTS - 1;
      while ii >= 0
        invariant -1 <= ii < SEGMENTS && kk == MTFA_SIZE - 1 - MTFL_SIZE * (SEGMENTS - 1 - ii)
        invariant forall s :: ii < s < SEGMENTS ==> mtfbase[s] == MTFA_SIZE - MTFL_SIZE * (SEGMENTS - s)
        invariant forall s :: 0 <= s <= ii ==> mtfbase[s] == b0[s]
        invariant forall s :: ii < s < SEGMENTS ==> Holds(mtfa[..], mtfbase[..], s, l)
        invariant forall p :: 0 <= p <= kk ==> mtfa[p] == a[p]
      {
        ghost var a1, b1 := mtfa[..], mtfbase[..];
        assert b0[ii] <= MTFA_SIZE - MTFL_SIZE * (SEGMENTS - ii);
        kk := CopyUp(mtfbase[ii], kk);
        mtfbase[ii] := kk + 1;
        Copied(a, b0, a1, b1, mtfa[..], mtfbase[..], l, ii);
        ii := ii - 1;
      }
      HoldsAll(mtfa[..], mtfbase[..], l);
    }

    /** Moves entry `nn` of the list to the front. */
    method Decode(nn: nat) returns (uc: int)
      requires Valid() && nn < MTFL_SIZE * SEGMENTS
      modifies mtfa, mtfbase
      ensures Valid() && uc == old(List())[nn] && List() == MoveToFront(old(List()), nn)
    {
      if nn < MTFL_SIZE {
        uc := MoveWithinFirst(nn);
      } else {
        uc := MoveAcross(nn);
        if mtfbase[0] == 0 {
          Rebuild();
        }
      }
    }
  }

  /** The moved entry's segment has closed its gap and counts one place further up. */
  lemma RippleStart(a: seq<int>, a': seq<int>, b0: seq<int>, base: seq<int>, was: seq<int>, nn: nat)
    requires Placed(a, b0) && b0[0] > 0 && was == ListOf(a, b0) && MTFL_SIZE <= nn < MTFL_SIZE * SEGMENTS && |a'| == |a|
    requires base == b0[nn / MTFL_SIZE := b0[nn / MTFL_SIZE] + 1]
    requires forall p :: b0[nn / MTFL_SIZE] < p <= b0[nn / MTFL_SIZE] + nn % MTFL_SIZE ==> a'[p] == a[p - 1]
    requires forall p :: 0 <= p < |a| && !(b0[nn / MTFL_SIZE] < p <= b0[nn / MTFL_SIZE] + nn % MTFL_SIZE) ==> a'[p] == a[p]
    ensures Rippling(a', base, b0, was, MoveToFront(was, nn), nn / MTFL_SIZE, nn / MTFL_SIZE)
  {
    hide ListOf, MoveToFront, Holds;
    var now, l, off := MoveToFront(was, nn), nn / MTFL_SIZE, nn % MTFL_SIZE;
    ListHolds(a, b0, l);
    forall s | l < s < SEGMENTS ensures Holds(a', base, s, now) {
      ListHolds(a, b0, s);
      assert b0[l] + MTFL_SIZE * (s - l) <= b0[s];
      HoldsKept(a, b0, a', base, s, was);
      LaterHolds(a', base, s, was, nn);
    }
    forall s | 0 <= s < l ensures Holds(a', base, s, was) {
      ListHolds(a, b0, s);
      assert b0[s] + MTFL_SIZE * (l - s) <= b0[l];
      HoldsKept(a, b0, a', base, s, was);
    }
    forall o | 0 <= o < MTFL_SIZE - 1 ensures Entry(a', base, l, o) == now[MTFL_SIZE * l + o + 1] {
      MovedUp(was, nn, MTFL_SIZE * l + o + 1);
      EntryIs(a, b0, l, o);
      EntryIs(a, b0, l, o + 1);
    }
  }

  lemma RippleEnd(a: seq<int>, a': seq<int>, b0: seq<int>, base: seq<int>, base': seq<int>, was: seq<int>, nn: nat,
          lno: int)
    requires nn < |was| && Rippling(a, base, b0, was, MoveToFront(was, nn), lno, 0)
    requires base' == base[0 := base[0] - 1] && 0 <= base'[0] < |a| && a' == a[base'[0] := was[nn]]
    ensures Placed(a', base') && ListOf(a', base') == MoveToFront(was, nn)
  {
    hide ListOf, MoveToFront, Holds, HoldsTail;
    var now := MoveToFront(was, nn);
    MovedUp(was, nn, 0);
    HeadToTailAt(a, base, a', base', now);
    forall s | 0 <= s < SEGMENTS ensures Holds(a', base', s, now) {
      if s > 0 {
        HoldsKept(a, base, a', base', s, now);
      }
    }
    HoldsAll(a', base', now);
  }

  lemma HeadToTailAt(a: seq<int>, base: seq<int>, a': seq<int>, base': seq<int>, now: seq<int>)
    requires HoldsTail(a, base, 0, now) && base[0] >= 1 && base' == base[0 := base[0] - 1]
    requires a' == a[base'[0] := now[0]]
    ensures Holds(a', base', 0, now)
  {
    HeadToTail(a, base, a', base', 0, now);
  }

  /** Segment `s` has been copied to its place at the end of the array. */
  lemma Copied(a: seq<int>, b0: seq<int>, a1: seq<int>, b1: seq<int>, a': seq<int>, base': seq<int>, l: seq<int>, s: int)
    requires Placed(a, b0) && l == ListOf(a, b0) && 0 <= s < SEGMENTS && |a1| == |a'| == MTFA_SIZE && |b1| == SEGMENTS
    requires forall t :: s < t < SEGMENTS ==> Holds(a1, b1, t, l) && b1[t] == MTFA_SIZE - MTFL_SIZE * (SEGMENTS - t)
    requires base' == b1[s := MTFA_SIZE - MTFL_SIZE * (SEGMENTS - s)]
    requires forall p :: base'[s] <= p < base'[s] + MTFL_SIZE ==> a'[p] == a[p - base'[s] + b0[s]]
    requires forall p :: base'[s] + MTFL_SIZE <= p < MTFA_SIZE ==> a'[p] == a1[p]
    ensures forall t :: s <= t < SEGMENTS ==> Holds(a', base', t, l)
  {
    hide ListOf;
    forall t | s < t < SEGMENTS ensures Holds(a', base', t, l) {
      HoldsKept(a1, b1, a', base', t, l);
    }
    forall o | 0 <= o < MTFL_SIZE ensures Entry(a', base', s, o) == l[MTFL_SIZE * s + o] {
      EntryIs(a, b0, s, o);
    }
    assert Holds(a', base', s, l);
  }

  lemma FirstEntries(a: seq<int>, base: seq<int>, was: seq<int>)
    requires Placed(a, base) && was == ListOf(a, base)
    ensures forall o :: 0 <= o < MTFL_SIZE ==> a[base[0] + o] == was[o]
  {
    forall o | 0 <= o < MTFL_SIZE ensures a[base[0] + o] == was[o] {
      EntryIs(a, base, 0, o);
    }
  }

  lemma EntryIs(a: seq<int>, base: seq<int>, s: int, o: int)
    requires Placed(a, base) && 0 <= s < SEGMENTS && 0 <= o < MTFL_SIZE
    ensures Entry(a, base, s, o) == ListOf(a, base)[MTFL_SIZE * s + o]
  {
  }

  lemma FirstMoved(a: seq<int>, a': seq<int>, base: seq<int>, was: seq<int>, nn: nat)
    requires Placed(a, base) && |a'| == |a| && was == ListOf(a, base) && nn < MTFL_SIZE
    requires a'[base[0]] == a[base[0] + nn]
    requires forall p :: base[0] < p <= base[0] + nn ==> a'[p] == a[p - 1]
    requires forall p :: 0 <= p < |a| && !(base[0] <= p <= base[0] + nn) ==> a'[p] == a[p]
    ensures Placed(a', base) && ListOf(a', base) == MoveToFront(was, nn)
  {
    hide ListOf, MoveToFront, Holds;
    var now := MoveToFront(was, nn);
    FirstEntries(a, base, was);
    forall s | 0 <= s < SEGMENTS ensures Holds(a', base, s, now) {
      ListHolds(a, base, s);
      if s == 0 {
        FirstHolds(a, a', base, was, nn);
      } else {
        assert base[0] + MTFL_SIZE * (s - 0) <= base[s];
        HoldsKept(a, base, a', base, s, was);
        LaterHolds(a', base, s, was, nn);
      }
    }
    HoldsAll(a', base, now);
  }

  lemma FirstHolds(a: seq<int>, a': seq<int>, base: seq<int>, was: seq<int>, nn: nat)
    requires Placed(a, base) && |a'| == |a| && |was| == MTFL_SIZE * SEGMENTS && nn < MTFL_SIZE
    requires forall o :: 0 <= o < MTFL_SIZE ==> a[base[0] + o] == was[o]
    requires a'[base[0]] == a[base[0] + nn]
    requires forall p :: base[0] < p <= base[0] + nn ==> a'[p] == a[p - 1]
    requires forall p :: 0 <= p < |a| && !(base[0] <= p <= base[0] + nn) ==> a'[p] == a[p]
    ensures Holds(a', base, 0, MoveToFront(was, nn))
  {
    hide MoveToFront;
    forall o | 0 <= o < MTFL_SIZE ensures Entry(a', base, 0, o) == MoveToFront(was, nn)[MTFL_SIZE * 0 + o] {
      MovedUp(was, nn, o);
    }
  }

  /** Segments past the moved entry's keep their entries. */
  lemma LaterHolds(a: seq<int>, base: seq<int>, s: int, was: seq<int>, nn: nat)
    requires Holds(a, base, s, was) && nn < MTFL_SIZE * s
    ensures Holds(a, base, s, MoveToFront(was, nn))
  {
    hide MoveToFront;
    forall o | 0 <= o < MTFL_SIZE ensures Entry(a, base, s, o) == MoveToFront(was, nn)[MTFL_SIZE * s + o] {
      assert Entry(a, base, s, o) == was[MTFL_SIZE * s + o];
      MovedUp(was, nn, MTFL_SIZE * s + o);
    }
  }
}
