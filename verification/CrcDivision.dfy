/** The division that a most-significant-first CRC-32 stands for, one bit at a time and one byte at a time. */
module CrcDivision {

  const POLY: bv32 := 0x04c11db7

  /** The operations below are named so that proofs can do without looking at single bits. */
  function Xor(x: bv32, y: bv32): bv32 { x ^ y }

  function Up(x: bv32): bv32 { x << 1 }

  function UpEight(x: bv32): bv32 { x << 8 }

  predicate Top(x: bv32) { x & 0x8000_0000 != 0 }

  function High(x: bv32): bv32 { x & 0xff00_0000 }

  function Low(x: bv32): bv32 { x & 0x00ff_ffff }

  function FirstByte(x: bv32): bv8 { (x >> 24) as bv8 }

  function Sum(a: bv8, b: bv8): bv8 { a ^ b }

  function AtTop(b: bv8): bv32 { (b as bv32) << 24 }

  predicate Set(b: bv8) { b & 0x80 != 0 }

  function Next(b: bv8): bv8 { b << 1 }

  /** Bit `k` of a byte, the most significant first. */
  predicate Nth(b: bv8, k: nat)
    decreases k
  {
    if k == 0 then Set(b) else Nth(Next(b), k - 1)
  }

  /** One step of polynomial division. */
  function Step(x: bv32): bv32 {
    if Top(x) then Xor(Up(x), POLY) else Up(x)
  }

  function EightSteps(x: bv32): bv32 {
    Step(Step(Step(Step(Step(Step(Step(Step(x))))))))
  }

  /** Entry `i` of the table of 256 words: what eight steps make of the byte `i`. */
  function Entry(i: bv8): bv32 {
    EightSteps(AtTop(i))
  }

  /** The register after it has taken in one bit. */
  function Feed(r: bv32, bit: bool): bv32 {
    if Top(r) != bit then Xor(Up(r), POLY) else Up(r)
  }

  /** The remainder of the division of a string of bits, starting from a register. */
  function Divide(r: bv32, bits: seq<bool>): bv32 {
    if bits == [] then r else Feed(Divide(r, bits[..|bits| - 1]), bits[|bits| - 1])
  }

  /** The bits of a byte, the most significant first. */
  function Eight(b: bv8): (bits: seq<bool>)
    ensures |bits| == 8
  {
    seq(8, k requires 0 <= k < 8 => Nth(b, k))
  }

  // ---------- single operations ----------

  lemma Commutes(x: bv32, y: bv32)
    ensures Xor(x, y) == Xor(y, x)
  {
  }

  lemma Associates(x: bv32, y: bv32, z: bv32)
    ensures Xor(Xor(x, y), z) == Xor(x, Xor(y, z))
  {
  }

  lemma Cancels(x: bv32, y: bv32)
    ensures Xor(Xor(x, y), y) == x
  {
  }

  lemma SameXor(x: bv32, y: bv32)
    ensures Xor(x, y) == 0 <==> x == y
  {
  }

  lemma TopXor(x: bv32, y: bv32)
    ensures Top(Xor(x, y)) <==> Top(x) != Top(y)
  {
  }

  lemma UpXor(x: bv32, y: bv32)
    ensures Up(Xor(x, y)) == Xor(Up(x), Up(y))
  {
  }

  lemma AtTopXor(a: bv8, b: bv8)
    ensures AtTop(Sum(a, b)) == Xor(AtTop(a), AtTop(b))
  {
  }

  lemma AtTopUp(b: bv8)
    ensures Top(AtTop(b)) <==> Set(b)
    ensures Up(AtTop(b)) == AtTop(Next(b))
  {
  }

  lemma NothingAdded(x: bv32)
    ensures Xor(x, AtTop(0)) == x
  {
  }

  lemma HighLow(r: bv32)
    ensures r == Xor(High(r), Low(r)) && AtTop(FirstByte(r)) == High(r)
  {
  }

  lemma LowSteps(r: bv32)
    ensures EightSteps(Low(r)) == UpEight(r)
  {
  }

  lemma StepZero(z: bv32)
    ensures Step(z) == 0 <==> z == 0
  {
  }

  lemma ByteOut(b: bv8)
    ensures Next(Next(Next(Next(Next(Next(Next(Next(b)))))))) == 0
  {
  }

  // ---------- steps are linear ----------

  lemma StepXor(x: bv32, y: bv32)
    ensures Step(Xor(x, y)) == Xor(Step(x), Step(y))
  {
    hide Xor, Top, Up;
    TopXor(x, y);
    UpXor(x, y);
    Commutes(Up(y), POLY);
    Associates(Up(x), POLY, Up(y));
    Associates(Up(x), Up(y), POLY);
    Associates(Xor(Up(x), POLY), Up(y), POLY);
    Cancels(Xor(Up(x), Up(y)), POLY);
  }

  lemma EightXor(x: bv32, y: bv32)
    ensures EightSteps(Xor(x, y)) == Xor(EightSteps(x), EightSteps(y))
  {
    hide Step, Xor;
    StepXor(x, y);
    var x1, y1 := Step(x), Step(y);
    StepXor(x1, y1);
    var x2, y2 := Step(x1), Step(y1);
    StepXor(x2, y2);
    var x3, y3 := Step(x2), Step(y2);
    StepXor(x3, y3);
    var x4, y4 := Step(x3), Step(y3);
    StepXor(x4, y4);
    var x5, y5 := Step(x4), Step(y4);
    StepXor(x5, y5);
    var x6, y6 := Step(x5), Step(y5);
    StepXor(x6, y6);
    StepXor(Step(x6), Step(y6));
  }

  /** The entry of a byte is the sum of the entries of its parts. */
  lemma EntryXor(a: bv8, b: bv8)
    ensures Entry(Sum(a, b)) == Xor(Entry(a), Entry(b))
  {
    hide EightSteps, Xor, AtTop, Sum;
    AtTopXor(a, b);
    EightXor(AtTop(a), AtTop(b));
  }

  /** The entries of the eight bytes with one bit set, as they stand in the table. */
  lemma EntriesOfBits()
    ensures Entry(0x01) == 0x04c11db7 && Entry(0x02) == 0x09823b6e
    ensures Entry(0x04) == 0x130476dc && Entry(0x08) == 0x2608edb8
    ensures Entry(0x10) == 0x4c11db70 && Entry(0x20) == 0x9823b6e0
    ensures Entry(0x40) == 0x34867077 && Entry(0x80) == 0x690ce0ee
  {
  }

  // ---------- a byte at once is eight bits one after another ----------

  /** Adding the next byte at the top before a step is feeding its first bit. */
  lemma FeedTop(r: bv32, b: bv8)
    ensures Step(Xor(r, AtTop(b))) == Xor(Feed(r, Set(b)), AtTop(Next(b)))
  {
    hide Xor, Top, Up, AtTop, Set, Next;
    AtTopUp(b);
    TopXor(r, AtTop(b));
    UpXor(r, AtTop(b));
    Associates(Up(r), AtTop(Next(b)), POLY);
    Associates(Up(r), POLY, AtTop(Next(b)));
    Commutes(AtTop(Next(b)), POLY);
  }

  lemma {:induction false} DivideOn(r: bv32, a: seq<bool>, b: seq<bool>)
    ensures Divide(r, a + b) == Divide(Divide(r, a), b)
    decreases |b|
  {
    hide Feed;
    if b == [] {
      assert a + b == a;
    } else {
      var c := b[..|b| - 1];
      assert (a + b)[..|a + b| - 1] == a + c;
      DivideOn(r, a, c);
    }
  }

  lemma DivideNext(r: bv32, e: seq<bool>, k: nat)
    requires k < |e|
    ensures Divide(r, e[..0]) == r && Divide(r, e[..k + 1]) == Feed(Divide(r, e[..k]), e[k])
  {
    hide Feed;
    assert e[..k + 1][..k] == e[..k];
  }

  lemma DivideFour(r: bv32, e: seq<bool>, k: nat)
    requires k + 4 <= |e|
    ensures Divide(r, e[..k + 4]) == Feed(Feed(Feed(Feed(Divide(r, e[..k]), e[k]), e[k + 1]), e[k + 2]), e[k + 3])
  {
    hide Feed, Divide;
    DivideNext(r, e, k);
    DivideNext(r, e, k + 1);
    DivideNext(r, e, k + 2);
    DivideNext(r, e, k + 3);
  }

  lemma WholeEight(r: bv32, e: seq<bool>)
    requires |e| == 8
    ensures Divide(r, e[..0]) == r && Divide(r, e[..8]) == Divide(r, e)
  {
    assert e[..8] == e;
  }

  lemma NthFour(b: bv8)
    ensures Nth(b, 0) == Set(b) && Nth(b, 1) == Set(Next(b))
    ensures Nth(b, 2) == Set(Next(Next(b))) && Nth(b, 3) == Set(Next(Next(Next(b))))
  {
    hide Set, Next;
    var b1 := Next(b);
    var b2 := Next(b1);
    assert Nth(b, 2) == Nth(b1, 1) && Nth(b, 3) == Nth(b1, 2) == Nth(b2, 1);
  }

  lemma NthLater(b: bv8, k: nat)
    ensures Nth(b, k + 4) == Nth(Next(Next(Next(Next(b)))), k)
  {
    hide Set, Next;
    var b1 := Next(b);
    var b2 := Next(b1);
    assert Nth(b, k + 4) == Nth(b1, k + 3) == Nth(b2, k + 2) == Nth(Next(b2), k + 1);
  }

  lemma NthEight(b: bv8)
    ensures var e, c := Eight(b), Next(Next(Next(Next(b))));
      && e[0] == Set(b) && e[1] == Set(Next(b)) && e[2] == Set(Next(Next(b))) && e[3] == Set(Next(Next(Next(b))))
      && e[4] == Set(c) && e[5] == Set(Next(c)) && e[6] == Set(Next(Next(c))) && e[7] == Set(Next(Next(Next(c))))
  {
    hide Set, Next, Nth;
    var c := Next(Next(Next(Next(b))));
    NthFour(b);
    NthFour(c);
    NthLater(b, 0);
    NthLater(b, 1);
    NthLater(b, 2);
    NthLater(b, 3);
  }

  /** Eight steps of the register with a byte added at the top are feeding the bits of that byte. */
  lemma EightFeeds(r: bv32, b: bv8)
    ensures EightSteps(Xor(r, AtTop(b))) == Divide(r, Eight(b))
  {
    hide Step, Xor, AtTop, Feed, Set, Divide, Next, Eight;
    var e := Eight(b);
    WholeEight(r, e);
    DivideFour(r, e, 0);
    DivideFour(r, e, 4);
    NthEight(b);
    FeedTop(r, b);
    var r1, b1 := Feed(r, e[0]), Next(b);
    FeedTop(r1, b1);
    var r2, b2 := Feed(r1, e[1]), Next(b1);
    FeedTop(r2, b2);
    var r3, b3 := Feed(r2, e[2]), Next(b2);
    FeedTop(r3, b3);
    var r4, b4 := Feed(r3, e[3]), Next(b3);
    FeedTop(r4, b4);
    var r5, b5 := Feed(r4, e[4]), Next(b4);
    FeedTop(r5, b5);
    var r6, b6 := Feed(r5, e[5]), Next(b5);
    FeedTop(r6, b6);
    var r7, b7 := Feed(r6, e[6]), Next(b6);
    FeedTop(r7, b7);
    ByteOut(b);
    NothingAdded(Feed(r7, e[7]));
  }

  /** The register falls apart into its top byte and the rest, which eight steps only shift. */
  lemma TopApart(r: bv32, b: bv8)
    ensures Xor(r, AtTop(b)) == Xor(AtTop(Sum(FirstByte(r), b)), Low(r))
  {
    hide Xor, High, Low, FirstByte, AtTop, Sum;
    HighLow(r);
    AtTopXor(FirstByte(r), b);
    Associates(High(r), Low(r), AtTop(b));
    Associates(High(r), AtTop(b), Low(r));
    Commutes(Low(r), AtTop(b));
  }

  /** One look-up in the table does eight steps of the division. */
  lemma EntryDivides(r: bv32, b: bv8)
    ensures Xor(UpEight(r), Entry(Sum(FirstByte(r), b))) == Divide(r, Eight(b))
  {
    hide EightSteps, Xor, Low, AtTop, FirstByte, Divide, Eight, UpEight, Sum;
    var i := Sum(FirstByte(r), b);
    TopApart(r, b);
    EightXor(AtTop(i), Low(r));
    LowSteps(r);
    EightFeeds(r, b);
    Commutes(Entry(i), UpEight(r));
  }

  // ---------- what the division tells apart ----------

  lemma StepInjective(x: bv32, y: bv32)
    requires Step(x) == Step(y)
    ensures x == y
  {
    hide Step, Xor;
    StepXor(x, y);
    SameXor(x, y);
    SameXor(Step(x), Step(y));
    StepZero(Xor(x, y));
  }

  lemma EightInjective(x: bv32, y: bv32)
    requires EightSteps(x) == EightSteps(y)
    ensures x == y
  {
    hide Step;
    var x1, y1 := Step(x), Step(y);
    var x2, y2 := Step(x1), Step(y1);
    var x3, y3 := Step(x2), Step(y2);
    var x4, y4 := Step(x3), Step(y3);
    var x5, y5 := Step(x4), Step(y4);
    var x6, y6 := Step(x5), Step(y5);
    StepInjective(Step(x6), Step(y6));
    StepInjective(x6, y6);
    StepInjective(x5, y5);
    StepInjective(x4, y4);
    StepInjective(x3, y3);
    StepInjective(x2, y2);
    StepInjective(x1, y1);
    StepInjective(x, y);
  }

  lemma BytesTold(r: bv32, b: bv8, c: bv8)
    requires Xor(r, AtTop(b)) == Xor(r, AtTop(c))
    ensures b == c
  {
  }

  lemma RegistersTold(r: bv32, q: bv32, b: bv8)
    requires Xor(r, AtTop(b)) == Xor(q, AtTop(b))
    ensures r == q
  {
  }

  /** One register and different bytes, or different registers and one byte, leave different remainders. */
  lemma DivideInjective(r: bv32, q: bv32, b: bv8, c: bv8)
    requires Divide(r, Eight(b)) == Divide(q, Eight(c))
    ensures r == q ==> b == c
    ensures b == c ==> r == q
  {
    hide EightSteps, Xor, AtTop, Divide, Eight;
    EightFeeds(r, b);
    EightFeeds(q, c);
    EightInjective(Xor(r, AtTop(b)), Xor(q, AtTop(c)));
    if r == q {
      BytesTold(r, b, c);
    }
    if b == c {
      RegistersTold(r, q, b);
    }
  }
}
