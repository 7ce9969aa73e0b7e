/** Words and bytes as strings of bits, and what the operations on words do to them. */
module WordBits {
  import opened CrcDivision

  function ByteA(w: bv32): bv8 { (w >> 24) as bv8 }

  function ByteB(w: bv32): bv8 { ((w >> 16) & 0xff) as bv8 }

  function ByteC(w: bv32): bv8 { ((w >> 8) & 0xff) as bv8 }

  function ByteD(w: bv32): bv8 { (w & 0xff) as bv8 }

  /** The bits of a word, the most significant first. */
  function Spelled(w: bv32): (bits: seq<bool>)
    ensures |bits| == 32
  {
    Eight(ByteA(w)) + Eight(ByteB(w)) + Eight(ByteC(w)) + Eight(ByteD(w))
  }

  /** Every bit turned over. */
  function Flipped(bits: seq<bool>): (f: seq<bool>)
    ensures |f| == |bits|
  {
    seq(|bits|, i requires 0 <= i < |bits| => !bits[i])
  }

  /** The bits one place further up, the topmost one coming in at the bottom. */
  function Rotated(bits: seq<bool>): (r: seq<bool>)
    ensures |r| == |bits|
  {
    if bits == [] then [] else bits[1..] + [bits[0]]
  }

  /** Set where exactly one of two strings is. */
  function BitXor(a: seq<bool>, b: seq<bool>): (c: seq<bool>)
    requires |a| == |b|
    ensures |c| == |a|
  {
    seq(|a|, i requires 0 <= i < |a| => a[i] != b[i])
  }

  // ---------- bytes ----------

  /** A byte one place further up, with a bit coming in from the byte below it. */
  function Carry(b: bv8, below: bv8): bv8 { (b << 1) | (below >> 7) }

  lemma SumFirst(a: bv8, b: bv8)
    ensures Set(Sum(a, b)) == (Set(a) != Set(b)) && Next(Sum(a, b)) == Sum(Next(a), Next(b))
  {
  }

  lemma {:induction false} SumNth(a: bv8, b: bv8, k: nat)
    ensures Nth(Sum(a, b), k) == (Nth(a, k) != Nth(b, k))
    decreases k
  {
    hide Set, Sum, Next;
    SumFirst(a, b);
    if k > 0 {
      SumNth(Next(a), Next(b), k - 1);
    }
  }

  lemma EightXored(a: bv8, b: bv8)
    ensures Eight(Sum(a, b)) == BitXor(Eight(a), Eight(b))
  {
    hide Nth, Sum;
    forall k: nat | k < 8 ensures Nth(Sum(a, b), k) == (Nth(a, k) != Nth(b, k)) {
      SumNth(a, b, k);
    }
  }

  lemma CarryFour(b: bv8, below: bv8)
    ensures var c := Carry(b, below);
      && Set(c) == Set(Next(b)) && Set(Next(c)) == Set(Next(Next(b)))
      && Set(Next(Next(c))) == Set(Next(Next(Next(b)))) && Set(Next(Next(Next(c)))) == Set(Next(Next(Next(Next(b)))))
  {
  }

  lemma CarryMore(b: bv8, below: bv8)
    ensures var c, d := Next(Next(Next(Next(Carry(b, below))))), Next(Next(Next(Next(b))));
      && Set(c) == Set(Next(d)) && Set(Next(c)) == Set(Next(Next(d))) && Set(Next(Next(c))) == Set(Next(Next(Next(d))))
      && Set(Next(Next(Next(c)))) == Set(below)
  {
  }

  lemma EightCarried(b: bv8, below: bv8)
    ensures Eight(Carry(b, below)) == Eight(b)[1..] + [Eight(below)[0]]
  {
    hide Set, Carry, Next, Eight;
    CarryFour(b, below);
    CarryMore(b, below);
    NthEight(b);
    NthEight(below);
    NthEight(Carry(b, below));
  }

  // ---------- words ----------

  function Inverse(w: bv32): bv32 { !w }

  function RotateUp(w: bv32): bv32 { (w << 1) | (w >> 31) }

  lemma InverseIsXor(w: bv32)
    ensures Inverse(w) == Xor(w, 0xffff_ffff)
    ensures ByteA(0xffff_ffff) == 0xff && ByteB(0xffff_ffff) == 0xff && ByteC(0xffff_ffff) == 0xff
    ensures ByteD(0xffff_ffff) == 0xff
  {
  }

  lemma AllSet()
    ensures forall k: nat | k < 8 :: Eight(0xff)[k]
  {
    var b: bv8 := 0xff;
    NthEight(b);
  }

  lemma XorA(v: bv32, w: bv32)
    ensures ByteA(Xor(v, w)) == Sum(ByteA(v), ByteA(w))
  {
  }

  lemma XorB(v: bv32, w: bv32)
    ensures ByteB(Xor(v, w)) == Sum(ByteB(v), ByteB(w))
  {
  }

  lemma XorC(v: bv32, w: bv32)
    ensures ByteC(Xor(v, w)) == Sum(ByteC(v), ByteC(w))
  {
  }

  lemma XorD(v: bv32, w: bv32)
    ensures ByteD(Xor(v, w)) == Sum(ByteD(v), ByteD(w))
  {
  }

  lemma RotateParts(w: bv32)
    ensures ByteA(RotateUp(w)) == Carry(ByteA(w), ByteB(w)) && ByteB(RotateUp(w)) == Carry(ByteB(w), ByteC(w))
    ensures ByteC(RotateUp(w)) == Carry(ByteC(w), ByteD(w)) && ByteD(RotateUp(w)) == Carry(ByteD(w), ByteA(w))
  {
  }

  lemma BitXorConcat(a: seq<bool>, b: seq<bool>, c: seq<bool>, d: seq<bool>)
    requires |a| == |c| && |b| == |d|
    ensures BitXor(a + b, c + d) == BitXor(a, c) + BitXor(b, d)
  {
  }

  lemma XorBits(v: bv32, w: bv32)
    ensures Spelled(Xor(v, w)) == BitXor(Spelled(v), Spelled(w))
  {
    hide Eight, ByteA, ByteB, ByteC, ByteD, Xor, Sum, BitXor;
    var a, b, c, d := Eight(ByteA(v)), Eight(ByteB(v)), Eight(ByteC(v)), Eight(ByteD(v));
    var e, f, g, h := Eight(ByteA(w)), Eight(ByteB(w)), Eight(ByteC(w)), Eight(ByteD(w));
    BitXorConcat(a, b, e, f);
    BitXorConcat(a + b, c, e + f, g);
    BitXorConcat(a + b + c, d, e + f + g, h);
    XorA(v, w);
    XorB(v, w);
    XorC(v, w);
    XorD(v, w);
    EightXored(ByteA(v), ByteA(w));
    EightXored(ByteB(v), ByteB(w));
    EightXored(ByteC(v), ByteC(w));
    EightXored(ByteD(v), ByteD(w));
  }

  lemma InverseBits(w: bv32)
    ensures Spelled(Inverse(w)) == Flipped(Spelled(w))
  {
    hide Eight, ByteA, ByteB, ByteC, ByteD, Inverse, Xor;
    InverseIsXor(w);
    AllSet();
    XorBits(w, 0xffff_ffff);
  }

  lemma RotateBits(w: bv32)
    ensures Spelled(RotateUp(w)) == Rotated(Spelled(w))
  {
    hide Eight, ByteA, ByteB, ByteC, ByteD, RotateUp, Carry;
    RotateParts(w);
    EightCarried(ByteA(w), ByteB(w));
    EightCarried(ByteB(w), ByteC(w));
    EightCarried(ByteC(w), ByteD(w));
    EightCarried(ByteD(w), ByteA(w));
  }
}
