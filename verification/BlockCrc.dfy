/** The checksum that goes with each block: a fold over the bytes the block stands for. */
module BlockCrc {
  import opened BitStream
  import opened ByteNumbers
  import opened ByteStrings
  import opened CrcDivision
  import opened WordBits

  datatype Checksum = Checksum(word: bv32)

  const INITIAL := Checksum(0xffffffff)

  /** The checksum after one more byte. */
  function Update(crc: Checksum, ch: int): Checksum
    requires 0 <= ch < 256
  {
    Checksum(Xor(UpEight(crc.word), Entry(Sum(FirstByte(crc.word), ch as bv8))))
  }

  function Finalise(crc: Checksum): Checksum {
    Checksum(Inverse(crc.word))
  }

  /** The checksum of a stream after one more block. */
  function Combine(combined: Checksum, crc: Checksum): Checksum {
    Checksum(Xor(RotateUp(combined.word), crc.word))
  }

  /** The checksum of a string of bytes. */
  ghost function Crc(s: seq<int>): Checksum
    requires Bytes(s)
  {
    if s == [] then INITIAL else Update(Crc(s[..|s| - 1]), s[|s| - 1])
  }

  lemma CrcPush(s: seq<int>, x: int)
    requires Bytes(s) && 0 <= x < 256
    ensures Bytes(s + [x]) && Crc(s + [x]) == Update(Crc(s), x)
  {
    hide Update;
    assert (s + [x])[..|s|] == s;
  }

  // ---------- the checksum as a division ----------

  lemma UpdateDivides(crc: Checksum, ch: int)
    requires 0 <= ch < 256
    ensures Update(crc, ch) == Checksum(Divide(crc.word, Bits(ch, 8)))
  {
    hide Entry, Xor, FirstByte, UpEight, Sum, Divide, Bits, Eight;
    EntryDivides(crc.word, ch as bv8);
    OctetBack(ch);
    ByteAsBits(ch as bv8);
  }

  /** The checksum of a string is the remainder of the division of its bits, starting from all ones. */
  lemma {:induction false} CrcDivides(s: seq<int>)
    requires Bytes(s)
    ensures Crc(s) == Checksum(Divide(0xffff_ffff, ByteBits(s)))
  {
    hide Update, Divide, Bits;
    if s == [] {
      DivideNothing(0xffff_ffff);
    } else {
      var t, x := s[..|s| - 1], s[|s| - 1];
      CrcDivides(t);
      UpdateDivides(Crc(t), x);
      DivideOn(0xffff_ffff, ByteBits(t), Bits(x, 8));
    }
  }

  lemma DivideNothing(r: bv32)
    ensures Divide(r, ByteBits([])) == r
  {
  }

  /** After a different byte, or from a different checksum, the checksum is a different one. */
  lemma UpdateInjective(crc: Checksum, other: Checksum, x: int, y: int)
    requires 0 <= x < 256 && 0 <= y < 256 && Update(crc, x) == Update(other, y)
    ensures crc == other ==> x == y
    ensures x == y ==> crc == other
  {
    hide Update, Divide, Bits, Eight;
    OctetBack(x);
    OctetBack(y);
    ByteAsBits(x as bv8);
    ByteAsBits(y as bv8);
    UpdateDivides(crc, x);
    UpdateDivides(other, y);
    DivideInjective(crc.word, other.word, x as bv8, y as bv8);
  }

  /** Two strings of one length that differ in exactly one byte have different checksums. */
  lemma {:induction false} OneByteTold(s: seq<int>, t: seq<int>, k: nat)
    requires Bytes(s) && Bytes(t) && |s| == |t| && k < |s| && s[k] != t[k]
    requires forall i :: 0 <= i < |s| && i != k ==> s[i] == t[i]
    ensures Crc(s) != Crc(t)
    decreases |s|
  {
    hide Update;
    var n := |s| - 1;
    if k == n {
      assert s[..n] == t[..n];
    } else {
      OneByteTold(s[..n], t[..n], k);
    }
    if Crc(s) == Crc(t) {
      UpdateInjective(Crc(s[..n]), Crc(t[..n]), s[n], t[n]);
    }
  }

  /** The bytes of "123456789". */
  const DIGITS: seq<int> := [0x31, 0x32, 0x33, 0x34, 0x35, 0x36, 0x37, 0x38, 0x39]

  lemma FirstDigits()
    ensures Update(Checksum(0xffffffff), 0x31) == Checksum(0x9efbcf93)
    ensures Update(Checksum(0x9efbcf93), 0x32) == Checksum(0x3fec5e6a)
    ensures Update(Checksum(0x3fec5e6a), 0x33) == Checksum(0xd952f164)
  {
  }

  lemma SecondDigits()
    ensures Update(Checksum(0xd952f164), 0x34) == Checksum(0xa695c4aa)
    ensures Update(Checksum(0xa695c4aa), 0x35) == Checksum(0xbd9ab747)
    ensures Update(Checksum(0xbd9ab747), 0x36) == Checksum(0xd8f06c8f)
  {
  }

  lemma ThirdDigits()
    ensures Update(Checksum(0xd8f06c8f), 0x37) == Checksum(0x0d8a14c4)
    ensures Update(Checksum(0x0d8a14c4), 0x38) == Checksum(0x49e3c2fb)
    ensures Update(Checksum(0x49e3c2fb), 0x39) == Checksum(0x0376e6e7)
  {
  }

  /** The usual check value: the finished checksum of the digits is fc891918. */
  lemma CheckValue()
    ensures Finalise(Crc(DIGITS)) == Checksum(0xfc891918)
  {
    hide Update;
    FirstDigits();
    SecondDigits();
    ThirdDigits();
    assert Crc(DIGITS[..0]) == Checksum(0xffff_ffff);
    CrcNext(DIGITS, 0);
    CrcNext(DIGITS, 1);
    CrcNext(DIGITS, 2);
    CrcNext(DIGITS, 3);
    CrcNext(DIGITS, 4);
    CrcNext(DIGITS, 5);
    CrcNext(DIGITS, 6);
    CrcNext(DIGITS, 7);
    CrcNext(DIGITS, 8);
    assert DIGITS[..9] == DIGITS;
  }

  lemma CrcNext(s: seq<int>, k: nat)
    requires Bytes(s) && k < |s|
    ensures Crc(s[..k + 1]) == Update(Crc(s[..k]), s[k])
  {
    hide Update;
    assert s[..k + 1][..k] == s[..k];
  }

  // ---------- a word as four bytes ----------

  /** The four bytes of a word, the most significant first. */
  function WordBytes(c: Checksum): (b: seq<nat>)
    ensures |b| == 4 && forall k :: 0 <= k < 4 ==> b[k] < 256
  {
    [ByteA(c.word) as nat, ByteB(c.word) as nat, ByteC(c.word) as nat, ByteD(c.word) as nat]
  }

  function Glue(x: bv32, b: bv8): bv32 {
    (x << 8) | (b as bv32)
  }

  /** A word with one more byte shifted in. */
  function WithByte(c: Checksum, uc: nat): Checksum
    requires uc < 256
  {
    Checksum(Glue(c.word, uc as bv8))
  }

  function FromBytes(c: Checksum, b: seq<nat>): Checksum
    requires forall k :: 0 <= k < |b| ==> b[k] < 256
    decreases |b|
  {
    if b == [] then c else FromBytes(WithByte(c, b[0]), b[1..])
  }

  lemma Joined(w: bv32)
    ensures Glue(Glue(Glue(Glue(0, ByteA(w)), ByteB(w)), ByteC(w)), ByteD(w)) == w
  {
  }

  lemma ShiftOne(x: bv32, b: bv8)
    ensures WithByte(Checksum(x), b as nat) == Checksum(Glue(x, b))
  {
    hide Glue;
    NumberBack(b);
  }

  /** A word comes back from its bytes. */
  lemma WordBack(c: Checksum)
    ensures FromBytes(Checksum(0), WordBytes(c)) == c
  {
    hide WithByte, Glue, ByteA, ByteB, ByteC, ByteD;
    var w, b := c.word, WordBytes(c);
    assert b[1..][1..] == b[2..] && b[2..][1..] == b[3..] && b[3..][1..] == [];
    ShiftOne(0, ByteA(w));
    ShiftOne(Glue(0, ByteA(w)), ByteB(w));
    ShiftOne(Glue(Glue(0, ByteA(w)), ByteB(w)), ByteC(w));
    ShiftOne(Glue(Glue(Glue(0, ByteA(w)), ByteB(w)), ByteC(w)), ByteD(w));
    Joined(w);
    var one := WithByte(Checksum(0), b[0]);
    var two := WithByte(one, b[1]);
    var three := WithByte(two, b[2]);
    assert FromBytes(three, b[3..]) == c;
    assert FromBytes(two, b[2..]) == c;
    assert FromBytes(one, b[1..]) == c;
  }

  lemma FourBytes(b: seq<nat>)
    requires |b| == 4
    ensures ByteBits(b) == Bits(b[0], 8) + Bits(b[1], 8) + Bits(b[2], 8) + Bits(b[3], 8)
  {
    hide Bits;
    assert b[..3][..2] == b[..2] && b[..2][..1] == b[..1] && b[..1][..0] == [];
    assert ByteBits(b[..1]) == Bits(b[0], 8);
    assert ByteBits(b[..2]) == Bits(b[0], 8) + Bits(b[1], 8);
    assert ByteBits(b[..3]) == Bits(b[0], 8) + Bits(b[1], 8) + Bits(b[2], 8);
  }

  /** The four bytes that are written for a word spell its bits. */
  lemma WordWritten(c: Checksum)
    ensures ByteBits(WordBytes(c)) == Spelled(c.word)
  {
    hide Eight, Bits, ByteBits, ByteA, ByteB, ByteC, ByteD;
    FourBytes(WordBytes(c));
    ByteAsBits(ByteA(c.word));
    ByteAsBits(ByteB(c.word));
    ByteAsBits(ByteC(c.word));
    ByteAsBits(ByteD(c.word));
  }

  // ---------- the checksum that is stored, and that of the stream, as bits ----------

  /** The finished checksum has every bit of the register turned over. */
  lemma FinaliseBits(c: Checksum)
    ensures Spelled(Finalise(c).word) == Flipped(Spelled(c.word))
  {
    hide Spelled, Flipped;
    InverseBits(c.word);
  }

  /** Combining rotates the bits by one and turns over those that are set in the block's checksum. */
  lemma CombineBits(combined: Checksum, crc: Checksum)
    ensures Spelled(Combine(combined, crc).word) == BitXor(Rotated(Spelled(combined.word)), Spelled(crc.word))
  {
    hide Spelled, BitXor, Rotated, Xor, RotateUp;
    RotateBits(combined.word);
    XorBits(RotateUp(combined.word), crc.word);
  }
}
