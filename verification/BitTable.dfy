/** The bucket-header bit table of the block sorter: one flag a position, 32 flags a word. */
module BitTable {

  /** A 32-bit word as its bits, least significant first. */
  type Word = w: seq<bool> | |w| == 32 witness seq(32, _ => false)

  const ALL_ONES: Word := seq(32, _ => true)
  const ALL_ZEROS: Word := seq(32, _ => false)

  /** Flag `z` of the table `t`. */
  predicate Bit(t: seq<Word>, z: nat)
    requires z / 32 < |t|
  {
    t[z / 32][z % 32]
  }

  method SetBit(t: array<Word>, z: nat)
    requires z / 32 < t.Length
    modifies t
    ensures forall y: nat :: y / 32 < t.Length ==> Bit(t[..], y) == (y == z || old(Bit(t[..], y)))
  {
    t[z / 32] := t[z / 32][z % 32 := true];
  }

  method ClearBit(t: array<Word>, z: nat)
    requires z / 32 < t.Length
    modifies t
    ensures forall y: nat :: y / 32 < t.Length ==> Bit(t[..], y) == (y != z && old(Bit(t[..], y)))
  {
    t[z / 32] := t[z / 32][z % 32 := false];
  }

  method IsSet(t: array<Word>, z: nat) returns (r: bool)
    requires z / 32 < t.Length
    ensures r == Bit(t[..], z)
  {
    r := t[z / 32][z % 32];
  }

  /** The first clear flag at or after `k`, found by stepping over whole words of ones. */
  method SkipSet(t: array<Word>, from: nat, ghost stop: nat) returns (k: nat)
    requires from <= stop && stop / 32 < t.Length
    requires !Bit(t[..], stop)
    ensures from <= k <= stop && !Bit(t[..], k)
    ensures forall y :: from <= y < k ==> Bit(t[..], y)
  {
    k := from;
    while t[k / 32][k % 32] && k % 32 != 0
      invariant from <= k <= stop
      invariant forall y :: from <= y < k ==> Bit(t[..], y)
      decreases stop - k
    {
      k := k + 1;
    }
    if t[k / 32][k % 32] {
      while t[k / 32] == ALL_ONES
        invariant from <= k <= stop && k % 32 == 0
        invariant forall y :: from <= y < k ==> Bit(t[..], y)
        decreases stop - k
      {
        assert k / 32 < stop / 32;
        k := k + 32;
      }
      while t[k / 32][k % 32]
        invariant from <= k <= stop
        invariant forall y :: from <= y < k ==> Bit(t[..], y)
        decreases stop - k
      {
        k := k + 1;
      }
    }
  }

  /** The first set flag at or after `k`, found by stepping over whole words of zeros. */
  method SkipClear(t: array<Word>, from: nat, ghost stop: nat) returns (k: nat)
    requires from <= stop && stop / 32 < t.Length
    requires Bit(t[..], stop)
    ensures from <= k <= stop && Bit(t[..], k)
    ensures forall y :: from <= y < k ==> !Bit(t[..], y)
  {
    k := from;
    while !t[k / 32][k % 32] && k % 32 != 0
      invariant from <= k <= stop
      invariant forall y :: from <= y < k ==> !Bit(t[..], y)
      decreases stop - k
    {
      k := k + 1;
    }
    if !t[k / 32][k % 32] {
      while t[k / 32] == ALL_ZEROS
        invariant from <= k <= stop && k % 32 == 0
        invariant forall y :: from <= y < k ==> !Bit(t[..], y)
        decreases stop - k
      {
        assert k / 32 < stop / 32;
        k := k + 32;
      }
      while !t[k / 32][k % 32]
        invariant from <= k <= stop
        invariant forall y :: from <= y < k ==> !Bit(t[..], y)
        decreases stop - k
      {
        k := k + 1;
      }
    }
  }
}
