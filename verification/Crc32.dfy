/** The sliced CRC-32: four table look-ups for four bytes, against one polynomial step per bit (section 8 of RFC 1952). */
module Crc32 {

  const POLY: bv32 := 0xEDB88320
  const NUM_TABLES := 8

  /** The operations below are named so that proofs can do without looking at single bits. */
  type Word = bv32

  function Xor(x: Word, y: Word): Word { x ^ y }

  function Low(x: Word): Word { x & 0xFF }

  function High(x: Word): Word { x & 0xFFFFFF00 }

  function Half(x: Word): Word { x >> 1 }

  predicate Odd(x: Word) { x & 1 == 1 }

  function Down(x: Word): Word { x >> 8 }

  function Up(x: Word): Word { x << 8 }

  function Byte(b: bv8): Word { b as bv32 }

  /** Four bytes as a little-endian machine loads them, the first one lowest. */
  function Load(b0: bv8, b1: bv8, b2: bv8, b3: bv8): Word {
    (b0 as bv32) | ((b1 as bv32) << 8) | ((b2 as bv32) << 16) | ((b3 as bv32) << 24)
  }

  /** One bit's worth of polynomial division. */
  function Step(r: Word): Word {
    (r >> 1) ^ (POLY & !((r & 1) - 1))
  }

  function Steps(r: Word, n: nat): Word {
    if n == 0 then r else Step(Steps(r, n - 1))
  }

  /** The checksum after one more byte: it is added to the low end and goes through eight polynomial steps. */
  function AddByte(v: Word, b: bv8): Word {
    Steps(Xor(v, Byte(b)), 8)
  }

  ghost function Fold(v: Word, data: seq<bv8>): Word {
    if data == [] then v else AddByte(Fold(v, data[..|data| - 1]), data[|data| - 1])
  }

  // ---------- single operations ----------

  lemma StepOdd(r: Word)
    requires Odd(r)
    ensures Step(r) == Xor(Half(r), POLY)
  {
  }

  lemma StepEven(r: Word)
    requires !Odd(r)
    ensures Step(r) == Half(r)
  {
  }

  lemma OddXor(x: Word, y: Word)
    ensures Odd(Xor(x, y)) <==> Odd(x) != Odd(y)
  {
  }

  lemma HalfXor(x: Word, y: Word)
    ensures Half(Xor(x, y)) == Xor(Half(x), Half(y))
  {
  }

  lemma XorCommutes(x: Word, y: Word)
    ensures Xor(x, y) == Xor(y, x)
  {
  }

  lemma XorCancels(x: Word, y: Word)
    ensures Xor(Xor(x, y), y) == x
  {
  }

  lemma StepXor(x: Word, y: Word)
    ensures Step(Xor(x, y)) == Xor(Step(x), Step(y))
  {
    hide Step, Xor, Odd, Half;
    OddXor(x, y);
    HalfXor(x, y);
    if Odd(x) {
      StepOdd(x);
    } else {
      StepEven(x);
    }
    if Odd(y) {
      StepOdd(y);
    } else {
      StepEven(y);
    }
    if Odd(Xor(x, y)) {
      StepOdd(Xor(x, y));
    } else {
      StepEven(Xor(x, y));
    }
    XorCommutes(Half(y), POLY);
    XorAssociates(Half(x), POLY, Half(y));
    XorAssociates(Half(x), Half(y), POLY);
    XorAssociates(Xor(Half(x), POLY), Half(y), POLY);
    XorCancels(Xor(Half(x), Half(y)), POLY);
  }

  lemma SplitLow(v: Word)
    ensures v == Xor(Low(v), High(v))
  {
  }

  lemma ShiftOut(r: Word)
    ensures Step(Step(Step(Step(Step(Step(Step(Step(High(r))))))))) == Down(r)
  {
  }

  predicate Fits(x: Word) { x <= 0xFFFFFF }

  lemma UpHigh(x: Word)
    requires Fits(x)
    ensures High(Up(x)) == Up(x) && Down(Up(x)) == x
  {
  }

  lemma BytesFit(b: bv8)
    ensures Fits(Byte(b)) && Fits(Up(Byte(b))) && Fits(Up(Up(Byte(b))))
  {
  }

  lemma XorAssociates(x: Word, y: Word, z: Word)
    ensures Xor(Xor(x, y), z) == Xor(x, Xor(y, z))
  {
  }

  lemma LoadTwo(b0: bv8, b1: bv8)
    ensures Xor(Byte(b0), Up(Byte(b1))) == (b0 as bv32) | ((b1 as bv32) << 8)
  {
  }

  lemma LoadMore(x: bv32, b2: bv8, b3: bv8)
    requires x <= 0xFFFF
    ensures Xor(Xor(x, Up(Up(Byte(b2)))), Up(Up(Up(Byte(b3))))) == x | ((b2 as bv32) << 16) | ((b3 as bv32) << 24)
  {
  }

  lemma TwoBytesSmall(b0: bv8, b1: bv8)
    ensures (b0 as bv32) | ((b1 as bv32) << 8) <= 0xFFFF
  {
  }

  lemma AddingBytes(v: Word, b0: bv8, b1: bv8, b2: bv8, b3: bv8)
    ensures Xor(Xor(Xor(Xor(v, Byte(b0)), Up(Byte(b1))), Up(Up(Byte(b2)))), Up(Up(Up(Byte(b3))))) == Xor(v, Load(b0, b1, b2, b3))
  {
    hide Xor, Byte, Up;
    var x1, x2, x3 := Up(Byte(b1)), Up(Up(Byte(b2))), Up(Up(Up(Byte(b3))));
    XorAssociates(v, Byte(b0), x1);
    XorAssociates(v, Xor(Byte(b0), x1), x2);
    XorAssociates(v, Xor(Xor(Byte(b0), x1), x2), x3);
    LoadTwo(b0, b1);
    TwoBytesSmall(b0, b1);
    LoadMore((b0 as bv32) | ((b1 as bv32) << 8), b2, b3);
  }

  lemma FourBytes(v: Word)
    ensures Xor(Xor(Xor(Low(v), Up(Low(Down(v)))), Up(Up(Low(Down(Down(v)))))), Up(Up(Up(Down(Down(Down(v))))))) == v
    ensures Fits(Low(Down(v))) && Fits(Low(Down(Down(v)))) && Fits(Down(Down(Down(v))))
    ensures Fits(Up(Low(Down(Down(v))))) && Fits(Up(Down(Down(Down(v))))) && Fits(Up(Up(Down(Down(Down(v))))))
    ensures Low(Down(Down(Down(v)))) == Down(Down(Down(v)))
  {
  }

  lemma ByteDown(v: Word, b: bv8)
    ensures Down(Xor(v, Byte(b))) == Down(v)
  {
  }

  // ---------- the steps are linear ----------

  lemma {:induction false} StepsXor(x: Word, y: Word, n: nat)
    ensures Steps(Xor(x, y), n) == Xor(Steps(x, n), Steps(y, n))
  {
    hide Step, Xor;
    if n > 0 {
      StepsXor(x, y, n - 1);
      StepXor(Steps(x, n - 1), Steps(y, n - 1));
    }
  }

  lemma {:induction false} StepsAdd(r: Word, n: nat, m: nat)
    ensures Steps(r, n + m) == Steps(Steps(r, n), m)
    decreases m
  {
    hide Step;
    if m > 0 {
      StepsAdd(r, n, m - 1);
    }
  }

  lemma FourSteps(r: Word)
    ensures Steps(r, 4) == Step(Step(Step(Step(r))))
  {
    hide Step;
    assert Steps(r, 1) == Step(r);
    assert Steps(r, 2) == Step(Step(r));
    assert Steps(r, 3) == Step(Step(Step(r)));
  }

  /** Bits that are all above the low byte only move down. */
  lemma HighSteps(r: Word)
    ensures Steps(High(r), 8) == Down(r)
  {
    hide Step, Steps, High, Down;
    StepsAdd(High(r), 4, 4);
    FourSteps(High(r));
    FourSteps(Steps(High(r), 4));
    ShiftOut(r);
  }

  /** Eight steps work on the low byte alone; the rest only moves down. */
  lemma ByteSteps(v: Word)
    ensures Steps(v, 8) == Xor(Steps(Low(v), 8), Down(v))
  {
    hide Steps, Step, Xor, Low, High, Down;
    SplitLow(v);
    StepsXor(Low(v), High(v), 8);
    HighSteps(v);
  }

  /** Adding a value after eight steps is adding it one byte further up before them. */
  lemma Absorb(a: Word, x: Word, n: nat)
    requires Fits(x)
    ensures Xor(Steps(a, 8), x) == Steps(Xor(a, Up(x)), 8)
    ensures Steps(Up(x), 8 + n) == Steps(x, n)
  {
    hide Steps, Step, Xor, Low, High, Down, Up;
    UpHigh(x);
    HighSteps(Up(x));
    StepsXor(a, Up(x), 8);
    StepsAdd(Up(x), 8, n);
  }

  /** Four bytes one after the other are one addition and thirty-two steps. */
  lemma FourAtOnce(v: Word, b0: bv8, b1: bv8, b2: bv8, b3: bv8)
    ensures AddByte(AddByte(AddByte(AddByte(v, b0), b1), b2), b3) == Steps(Xor(v, Load(b0, b1, b2, b3)), 32)
  {
    hide Steps, Step, Xor, Up, Byte, Load;
    BytesFit(b1);
    BytesFit(b2);
    BytesFit(b3);
    AddingBytes(v, b0, b1, b2, b3);
    var a1 := Xor(v, Byte(b0));
    var a2 := Xor(a1, Up(Byte(b1)));
    var a3 := Xor(a2, Up(Up(Byte(b2))));
    Absorb(a1, Byte(b1), 0);
    StepsAdd(a2, 8, 8);
    Absorb(Steps(a2, 8), Byte(b2), 0);
    Absorb(a2, Up(Byte(b2)), 0);
    StepsAdd(a3, 8, 16);
    StepsAdd(Steps(a3, 8), 8, 8);
    Absorb(Steps(Steps(a3, 8), 8), Byte(b3), 0);
    Absorb(Steps(a3, 8), Up(Byte(b3)), 0);
    Absorb(a3, Up(Up(Byte(b3))), 0);
    var a4 := Xor(a3, Up(Up(Up(Byte(b3)))));
    StepsAdd(a4, 8, 24);
    StepsAdd(Steps(a4, 8), 8, 16);
    StepsAdd(Steps(Steps(a4, 8), 8), 8, 8);
  }

  /** Thirty-two steps of a word, from its four bytes. */
  lemma FourSlices(v: Word)
    ensures Steps(v, 32) == Xor(Xor(Xor(Steps(Low(v), 32), Steps(Low(Down(v)), 24)), Steps(Low(Down(Down(v))), 16)),
                                Steps(Down(Down(Down(v))), 8))
  {
    hide Steps, Step, Xor, Up, Low, Down, Fits;
    var x0, x1, x2, x3 := Low(v), Low(Down(v)), Low(Down(Down(v))), Down(Down(Down(v)));
    FourBytes(v);
    StepsXor(Xor(Xor(x0, Up(x1)), Up(Up(x2))), Up(Up(Up(x3))), 32);
    StepsXor(Xor(x0, Up(x1)), Up(Up(x2)), 32);
    StepsXor(x0, Up(x1), 32);
    Absorb(v, x1, 24);
    Absorb(v, Up(x2), 24);
    Absorb(v, x2, 16);
    Absorb(v, Up(Up(x3)), 24);
    Absorb(v, Up(x3), 16);
    Absorb(v, x3, 8);
  }

  // ---------- what the checksum tells apart ----------

  lemma StepZero(z: bv32)
    ensures Step(z) == 0 <==> z == 0
  {
  }

  lemma SameXor(x: bv32, y: bv32)
    ensures Xor(x, y) == 0 <==> x == y
  {
  }

  /** Different words stay different through any number of steps. */
  lemma {:induction false} StepsInjective(x: bv32, y: bv32, n: nat)
    requires Steps(x, n) == Steps(y, n)
    ensures x == y
  {
    hide Step, Xor;
    if n > 0 {
      var a, b := Steps(x, n - 1), Steps(y, n - 1);
      StepXor(a, b);
      SameXor(Step(a), Step(b));
      StepZero(Xor(a, b));
      SameXor(a, b);
      StepsInjective(x, y, n - 1);
    }
  }

  lemma BytesTold(v: bv32, b: bv8, c: bv8)
    requires Xor(v, Byte(b)) == Xor(v, Byte(c))
    ensures b == c
  {
  }

  lemma WordsTold(v: bv32, w: bv32, b: bv8)
    requires Xor(v, Byte(b)) == Xor(w, Byte(b))
    ensures v == w
  {
  }

  /** Two strings of one length that differ in exactly one byte have different checksums. */
  lemma {:induction false} OneByteTold(v: bv32, s: seq<bv8>, t: seq<bv8>, k: nat)
    requires |s| == |t| && k < |s| && s[k] != t[k]
    requires forall i :: 0 <= i < |s| && i != k ==> s[i] == t[i]
    ensures Fold(v, s) != Fold(v, t)
    decreases |s|
  {
    hide Steps, Xor, Byte;
    var n := |s| - 1;
    var x, y := Fold(v, s[..n]), Fold(v, t[..n]);
    if k == n {
      assert s[..n] == t[..n];
      if Fold(v, s) == Fold(v, t) {
        StepsInjective(Xor(x, Byte(s[n])), Xor(x, Byte(t[n])), 8);
        BytesTold(x, s[n], t[n]);
      }
    } else {
      OneByteTold(v, s[..n], t[..n], k);
      if Fold(v, s) == Fold(v, t) {
        StepsInjective(Xor(x, Byte(s[n])), Xor(y, Byte(s[n])), 8);
        WordsTold(x, y, s[n]);
      }
    }
  }

  /** The bytes of "123456789". */
  const DIGITS: seq<bv8> := [0x31, 0x32, 0x33, 0x34, 0x35, 0x36, 0x37, 0x38, 0x39]

  lemma FirstDigits()
    ensures AddByte(0xffffffff, 0x31) == 0x7c231048
    ensures AddByte(0x7c231048, 0x32) == 0xb0acbb32
    ensures AddByte(0xb0acbb32, 0x33) == 0x77b79c2d
  {
  }

  lemma SecondDigits()
    ensures AddByte(0x77b79c2d, 0x34) == 0x641c1f5c
    ensures AddByte(0x641c1f5c, 0x35) == 0x340ac5e3
    ensures AddByte(0x340ac5e3, 0x36) == 0xf68d2c9e
  {
  }

  lemma ThirdDigits()
    ensures AddByte(0xf68d2c9e, 0x37) == 0xaffc9660
    ensures AddByte(0xaffc9660, 0x38) == 0x651f2550
    ensures AddByte(0x651f2550, 0x39) == 0x340bc6d9
  {
  }

  /** The usual check value: the checksum of the digits, begun from all ones and turned over, is cbf43926. */
  lemma CheckValue()
    ensures !Fold(0xffffffff, DIGITS) == 0xcbf43926
  {
    hide AddByte;
    FirstDigits();
    SecondDigits();
    ThirdDigits();
    var v: bv32 := 0xffffffff;
    FoldStart(v, DIGITS);
    FoldStep(v, DIGITS, 0);
    FoldStep(v, DIGITS, 1);
    FoldStep(v, DIGITS, 2);
    FoldStep(v, DIGITS, 3);
    FoldStep(v, DIGITS, 4);
    FoldStep(v, DIGITS, 5);
    FoldStep(v, DIGITS, 6);
    FoldStep(v, DIGITS, 7);
    FoldStep(v, DIGITS, 8);
    assert DIGITS[..9] == DIGITS;
  }

  // ---------- the tables ----------

  /** A byte as a table index. */
  function Index(x: bv32): (i: nat)
    requires x <= 0xFF
    ensures i < 256
  {
    x as int
  }

  lemma IndexDiffers(x: bv32, y: bv32)
    requires x <= 0xFF && y <= 0xFF && Index(x) == Index(y)
    ensures x == y
  {
  }

  /** The first table holds eight steps of every byte; each later one, eight more steps than the one before. */
  ghost predicate FirstOk(t: seq<bv32>, n: bv32)
    requires |t| >= 256
  {
    forall x: bv32 :: x <= 0xFF && x < n ==> t[Index(x)] == Steps(x, 8)
  }

  ghost predicate LaterOk(t: seq<bv32>, n: int) {
    forall i :: 256 <= i < n <= |t| ==> t[i] == Steps(t[i - 256], 8)
  }

  ghost predicate TablesOk(t: seq<bv32>) {
    |t| == 256 * NUM_TABLES && FirstOk(t, 256) && LaterOk(t, |t|)
  }

  lemma LowSmall(v: Word)
    ensures Low(v) <= 0xFF && Down(Down(Down(v))) <= 0xFF
  {
  }

  method GenerateTable(table: array<bv32>)
    requires table.Length == 256 * NUM_TABLES
    modifies table
    ensures TablesOk(table[..])
  {
    hide Steps, Step, Index, FirstOk, LaterOk, Low, Down, Xor;
    var i: bv32 := 0;
    NoEntries(table[..]);
    while i < 256
      invariant i <= 256 && FirstOk(table[..], i)
      decreases 256 - i
    {
      var r := FirstEntry(i);
      ghost var t := table[..];
      table[Index(i)] := r;
      EntryStored(t, i, r);
      i := i + 1;
    }
    var k := 256;
    NoLater(table[..]);
    while k < 256 * NUM_TABLES
      invariant 256 <= k <= 256 * NUM_TABLES && FirstOk(table[..], 256) && LaterOk(table[..], k)
    {
      ghost var t := table[..];
      var r := table[k - 256];
      LowSmall(r);
      ByteSteps(r);
      FirstAt(t, Low(r));
      table[k] := Xor(table[Index(Low(r))], Down(r));
      LaterStored(t, k, table[k]);
      k := k + 1;
    }
  }

  lemma NoEntries(t: seq<bv32>)
    requires |t| >= 256
    ensures FirstOk(t, 0)
  {
  }

  lemma NoLater(t: seq<bv32>)
    ensures LaterOk(t, 256)
  {
  }

  lemma FirstAt(t: seq<bv32>, x: bv32)
    requires |t| >= 256 && FirstOk(t, 256) && x <= 0xFF
    ensures t[Index(x)] == Steps(x, 8)
  {
    hide Steps, Index;
  }

  lemma EntryStored(t: seq<bv32>, i: bv32, r: bv32)
    requires |t| >= 256 && i < 256 && FirstOk(t, i) && r == Steps(i, 8)
    ensures FirstOk(t[Index(i) := r], i + 1)
  {
    hide Steps, Index;
    var t' := t[Index(i) := r];
    forall x: bv32 | x <= 0xFF && x < i + 1 ensures t'[Index(x)] == Steps(x, 8) {
      if x != i {
        if Index(x) == Index(i) {
          IndexDiffers(x, i);
        }
        NotLast(x, i);
      }
    }
  }

  lemma NotLast(x: bv32, i: bv32)
    requires i < 256 && x < i + 1 && x != i
    ensures x < i
  {
  }

  lemma LaterStored(t: seq<bv32>, k: int, r: bv32)
    requires 256 <= k < |t| && FirstOk(t, 256) && LaterOk(t, k) && r == Steps(t[k - 256], 8)
    ensures FirstOk(t[k := r], 256) && LaterOk(t[k := r], k + 1)
  {
    hide Steps, Index;
  }

  /** A table entry, by bitwise division. */
  method FirstEntry(i: bv32) returns (r: bv32)
    ensures r == Steps(i, 8)
  {
    hide Step, Steps;
    r := i;
    var j := 0;
    OneMore(i, 0);
    while j < 8
      invariant 0 <= j <= 8 && r == Steps(i, j)
    {
      OneMore(i, j);
      r := Step(r);
      j := j + 1;
    }
  }

  lemma OneMore(r: bv32, n: nat)
    ensures Steps(r, 0) == r && Steps(r, n + 1) == Step(Steps(r, n))
  {
  }

  /** Entry `x` of the table with `k` tables before it: the byte after `8 * (k + 1)` steps. */
  lemma {:induction false} LaterAt(t: seq<bv32>, k: nat, x: bv32)
    requires TablesOk(t) && k < NUM_TABLES && x <= 0xFF
    ensures t[256 * k + Index(x)] == Steps(x, 8 * (k + 1))
  {
    hide Steps, Index;
    FirstAt(t, x);
    if k > 0 {
      LaterAt(t, k - 1, x);
      StepsAdd(x, 8 * k, 8);
      assert t[256 * k + Index(x)] == Steps(t[256 * (k - 1) + Index(x)], 8);
    }
  }

  // ---------- updating ----------

  /** One byte's update by table. */
  method UpdateByte(v: bv32, b: bv8, table: array<bv32>) returns (w: bv32)
    requires TablesOk(table[..])
    ensures w == AddByte(v, b)
  {
    hide Steps, Index, Step, FirstOk, LaterOk, Low, Down, Xor, Byte;
    var x := Xor(v, Byte(b));
    LowSmall(x);
    ByteSteps(x);
    ByteDown(v, b);
    FirstAt(table[..], Low(x));
    w := Xor(table[Index(Low(x))], Down(v));
  }

  /** Four bytes' update: one look-up in each of four tables. */
  method UpdateFour(v: bv32, b0: bv8, b1: bv8, b2: bv8, b3: bv8, table: array<bv32>) returns (w: bv32)
    requires TablesOk(table[..])
    ensures w == AddByte(AddByte(AddByte(AddByte(v, b0), b1), b2), b3)
  {
    hide Steps, Index, Step, FirstOk, LaterOk, Low, Down, Xor, Byte, Load, AddByte;
    var x := Xor(v, Load(b0, b1, b2, b3));
    FourAtOnce(v, b0, b1, b2, b3);
    FourSlices(x);
    LowSmall(x);
    LowSmall(Down(x));
    LowSmall(Down(Down(x)));
    ghost var t := table[..];
    LaterAt(t, 3, Low(x));
    LaterAt(t, 2, Low(Down(x)));
    LaterAt(t, 1, Low(Down(Down(x))));
    LaterAt(t, 0, Down(Down(Down(x))));
    w := Xor(Xor(Xor(table[0x300 + Index(Low(x))], table[0x200 + Index(Low(Down(x)))]), table[0x100 + Index(Low(Down(Down(x))))]),
             table[0x000 + Index(Down(Down(Down(x))))]);
  }

  lemma FoldStep(v: bv32, data: seq<bv8>, i: nat)
    requires i < |data|
    ensures Fold(v, data[..i + 1]) == AddByte(Fold(v, data[..i]), data[i])
  {
    hide AddByte;
    assert data[..i + 1][..i] == data[..i];
  }

  /** The update of a whole buffer that begins at the given address. */
  method CrcUpdateT4(v: bv32, data: array<bv8>, address: nat, table: array<bv32>) returns (crc: bv32)
    requires TablesOk(table[..])
    ensures crc == Fold(v, data[..])
  {
    hide AddByte, TablesOk, Fold;
    ghost var d := data[..];
    crc := v;
    var p := 0;
    FoldStart(v, d);
    while p < data.Length && (address + p) % 4 != 0
      invariant 0 <= p <= data.Length && crc == Fold(v, d[..p])
    {
      FoldStep(v, d, p);
      crc := UpdateByte(crc, data[p], table);
      p := p + 1;
    }
    while data.Length - p >= 4
      invariant 0 <= p <= data.Length && crc == Fold(v, d[..p])
    {
      FoldStep(v, d, p);
      FoldStep(v, d, p + 1);
      FoldStep(v, d, p + 2);
      FoldStep(v, d, p + 3);
      crc := UpdateFour(crc, data[p], data[p + 1], data[p + 2], data[p + 3], table);
      p := p + 4;
    }
    while p < data.Length
      invariant 0 <= p <= data.Length && crc == Fold(v, d[..p])
    {
      FoldStep(v, d, p);
      crc := UpdateByte(crc, data[p], table);
      p := p + 1;
    }
    assert d[..p] == d;
  }

  lemma FoldStart(v: bv32, data: seq<bv8>)
    ensures Fold(v, data[..0]) == v
  {
  }
}
