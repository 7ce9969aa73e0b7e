/** The bits of a byte as a number are its bits as a bit vector. */
module ByteNumbers {
  import opened BitStream
  import opened CrcDivision

  function Half(b: bv8): bv8 { b >> 1 }

  predicate Odd(b: bv8) { b & 1 != 0 }

  lemma NumberBack(b: bv8)
    ensures (b as nat) as bv8 == b
  {
  }

  lemma NumberNext(b: bv8)
    requires b < 255
    ensures (b + 1) as nat == (b as nat) + 1
  {
  }

  lemma NumberZero(b: bv8)
    ensures b as nat == 0 <==> b == 0
  {
  }

  /** The byte that a number is. */
  lemma {:induction false} ByteOf(ch: nat) returns (b: bv8)
    requires ch < 256
    ensures b as nat == ch
    decreases ch
  {
    if ch == 0 {
      b := 0;
      NumberZero(b);
    } else {
      var c := ByteOf(ch - 1);
      NumberBelow(c, ch - 1);
      NumberNext(c);
      b := c + 1;
    }
  }

  lemma NumberBelow(b: bv8, n: nat)
    requires b as nat == n < 255
    ensures b < 255
  {
  }

  lemma OctetBack(ch: int)
    requires 0 <= ch < 256
    ensures (ch as bv8) as nat == ch
  {
    var b := ByteOf(ch);
    NumberBack(b);
  }

  lemma HalfNumber(b: bv8)
    ensures (b as nat) / 2 == Half(b) as nat
  {
  }

  lemma OddNumber(b: bv8)
    ensures (b as nat) % 2 == 1 <==> Odd(b)
  {
  }

  lemma BitsHalf(b: bv8, n: nat)
    ensures Bits(b as nat, n + 1) == Bits(Half(b) as nat, n) + [Odd(b)]
  {
    hide Half, Odd;
    HalfNumber(b);
    OddNumber(b);
  }

  lemma HalvesFirst(b: bv8)
    ensures Odd(Half(Half(Half(Half(Half(Half(Half(b)))))))) == Set(b)
    ensures Odd(Half(Half(Half(Half(Half(Half(b))))))) == Set(Next(b))
    ensures Odd(Half(Half(Half(Half(Half(b)))))) == Set(Next(Next(b)))
    ensures Odd(Half(Half(Half(Half(b))))) == Set(Next(Next(Next(b))))
  {
  }

  lemma HalvesLast(b: bv8)
    ensures var c := Next(Next(Next(Next(b))));
      && Odd(Half(Half(Half(b)))) == Set(c) && Odd(Half(Half(b))) == Set(Next(c))
      && Odd(Half(b)) == Set(Next(Next(c))) && Odd(b) == Set(Next(Next(Next(c))))
  {
  }

  lemma BitsFour(b: bv8, n: nat)
    ensures Bits(b as nat, n + 4) == Bits(Half(Half(Half(Half(b)))) as nat, n)
      + [Odd(Half(Half(Half(b)))), Odd(Half(Half(b))), Odd(Half(b)), Odd(b)]
  {
    hide Half, Odd, Bits;
    BitsHalf(b, n + 3);
    BitsHalf(Half(b), n + 2);
    BitsHalf(Half(Half(b)), n + 1);
    BitsHalf(Half(Half(Half(b))), n);
  }

  lemma FirstFour(b: bv8)
    ensures Bits(Half(Half(Half(Half(b)))) as nat, 4) == Eight(b)[..4]
  {
    hide Set, Bits, Half, Odd, Next, Eight;
    BitsFour(Half(Half(Half(Half(b)))), 0);
    HalvesFirst(b);
    NthEight(b);
  }

  lemma LastFour(b: bv8)
    ensures [Odd(Half(Half(Half(b)))), Odd(Half(Half(b))), Odd(Half(b)), Odd(b)] == Eight(b)[4..]
  {
    hide Set, Half, Odd, Next, Eight;
    HalvesLast(b);
    NthEight(b);
  }

  /** The bits of a byte as a number are those of the byte as a bit vector. */
  lemma ByteAsBits(b: bv8)
    ensures Bits(b as nat, 8) == Eight(b)
  {
    hide Bits, Half, Odd, Eight;
    BitsFour(b, 4);
    FirstFour(b);
    LastFour(b);
  }
}
