/** The bit stream: values written most significant bit first, and read back from any chunks of bytes. */
module BitStream {
  import opened Arithmetic
  import opened Options
  import opened Parsing

  // ---------- bits and the numbers they spell ----------

  /** The low `n` bits of `v`, most significant first. */
  function Bits(v: nat, n: nat): (s: seq<bool>)
    ensures |s| == n
  {
    if n == 0 then [] else Bits(v / 2, n - 1) + [v % 2 == 1]
  }

  /** The number that a string of bits spells. */
  function Value(s: seq<bool>): nat {
    if s == [] then 0 else 2 * Value(s[..|s| - 1]) + (if s[|s| - 1] then 1 else 0)
  }

  lemma {:induction false} ValueBounded(s: seq<bool>)
    ensures Value(s) < Pow2(|s|)
  {
    if s != [] {
      ValueBounded(s[..|s| - 1]);
    }
  }

  lemma {:induction false} ValueOfBits(v: nat, n: nat)
    requires v < Pow2(n)
    ensures Value(Bits(v, n)) == v
  {
    if n > 0 {
      ValueOfBits(v / 2, n - 1);
      assert Bits(v, n)[..n - 1] == Bits(v / 2, n - 1);
    }
  }

  lemma {:induction false} BitsOfValue(s: seq<bool>)
    ensures Bits(Value(s), |s|) == s
  {
    if s != [] {
      BitsOfValue(s[..|s| - 1]);
      assert s == s[..|s| - 1] + [s[|s| - 1]];
    }
  }

  lemma {:induction false} ValueConcat(s: seq<bool>, t: seq<bool>)
    ensures Value(s + t) == Value(s) * Pow2(|t|) + Value(t)
    decreases |t|
  {
    if t == [] {
      assert s + t == s;
    } else {
      var u := t[..|t| - 1];
      ValueConcat(s, u);
      assert (s + t)[..|s + t| - 1] == s + u;
      assert Value(s) * (2 * Pow2(|u|)) == 2 * (Value(s) * Pow2(|u|));
    }
  }

  /** The bits of a string of bytes. */
  function ByteBits(b: seq<nat>): (s: seq<bool>)
    ensures |s| == 8 * |b|
  {
    if b == [] then [] else ByteBits(b[..|b| - 1]) + Bits(b[|b| - 1], 8)
  }

  lemma {:induction false} ByteBitsConcat(a: seq<nat>, b: seq<nat>)
    ensures ByteBits(a + b) == ByteBits(a) + ByteBits(b)
    decreases |b|
  {
    hide Bits;
    if b == [] {
      assert a + b == a;
    } else {
      ByteBitsConcat(a, b[..|b| - 1]);
      assert (a + b)[..|a + b| - 1] == a + b[..|b| - 1];
    }
  }

  lemma ByteBitsFirst(b: seq<nat>)
    requires b != []
    ensures ByteBits(b) == Bits(b[0], 8) + ByteBits(b[1..])
  {
    assert b == [b[0]] + b[1..];
    ByteBitsConcat([b[0]], b[1..]);
    assert [b[0]][..0] == [];
    assert ByteBits([b[0]]) == Bits(b[0], 8);
  }

  // ---------- writing ----------

  const TWO32 := 0x1_0000_0000

  /** `live` as the topmost bits of a 32-bit word. */
  ghost function TopAligned(live: seq<bool>): nat
    requires |live| <= 32
  {
    Value(live) * Pow2(32 - |live|)
  }

  /** The top byte of the word is the first eight live bits; shifting it out keeps the rest aligned. */
  lemma TopByte(live: seq<bool>)
    requires 8 <= |live| <= 32
    ensures TopAligned(live) < TWO32
    ensures TopAligned(live) / 0x100_0000 == Value(live[..8]) < 256
    ensures (TopAligned(live) * 256) % TWO32 == TopAligned(live[8..])
  {
    hide Pow2;
    var h, r := Value(live[..8]), Value(live[8..]);
    var p, q := Pow2(|live| - 8), Pow2(32 - |live|);
    assert live == live[..8] + live[8..];
    ValueConcat(live[..8], live[8..]);
    ValueBounded(live[..8]);
    ValueBounded(live[8..]);
    PowAdd(|live| - 8, 32 - |live|);
    PowersUsed();
    ByteSplit(h, r, p, q);
    PowAdd(8, 32 - |live|);
    assert TopAligned(live[8..]) == r * (256 * q);
  }

  lemma PowersUsed()
    ensures Pow2(8) == 256 && Pow2(24) == 0x100_0000 && Pow2(32) == TWO32
  {
    assert Pow2(8) == 256;
    PowAdd(8, 8);
    PowAdd(16, 8);
    PowAdd(24, 8);
  }

  lemma Distribute(h: nat, r: nat, p: nat, q: nat)
    ensures (h * p + r) * q == h * (p * q) + r * q
  {
  }

  lemma ProductBelow(r: nat, p: nat, q: nat)
    requires r < p && q > 0
    ensures r * q < p * q
  {
  }

  lemma Linear(h: nat, z: nat)
    requires h < 256 && z < 0x100_0000
    ensures h * 0x100_0000 + z < TWO32
    ensures (h * 0x100_0000 + z) / 0x100_0000 == h
    ensures ((h * 0x100_0000 + z) * 256) % TWO32 == 256 * z
  {
  }

  lemma ByteSplit(h: nat, r: nat, p: nat, q: nat)
    requires h < 256 && r < p && p * q == 0x100_0000 && q > 0
    ensures (h * p + r) * q < TWO32
    ensures ((h * p + r) * q) / 0x100_0000 == h
    ensures ((h * p + r) * q * 256) % TWO32 == r * (256 * q)
  {
    Distribute(h, r, p, q);
    ProductBelow(r, p, q);
    Linear(h, r * q);
    assert r * (256 * q) == 256 * (r * q);
  }

  /** The union of two words that have no bit in common: `x` has none below bit `k`, `y` none from it on. */
  function Union(x: nat, y: nat, ghost k: nat): nat
    requires x % Pow2(k) == 0 && y < Pow2(k)
  {
    x + y
  }

  lemma MulMod(x: nat, p: nat)
    requires p > 0
    ensures (x * p) % p == 0
  {
    assert x * p == p * x + 0;
    DivUnique(x * p, x, 0, p);
  }

  /** Values go below the live bits without touching them. */
  lemma AppendAligned(live: seq<bool>, n: nat, v: nat)
    requires |live| + n <= 32 && v < Pow2(n)
    ensures TopAligned(live) % Pow2(32 - |live|) == 0
    ensures v * Pow2(32 - |live| - n) < Pow2(32 - |live|)
    ensures TopAligned(live + Bits(v, n)) == TopAligned(live) + v * Pow2(32 - |live| - n)
  {
    hide Pow2, Value, Bits;
    var k := 32 - |live| - n;
    MulMod(Value(live), Pow2(32 - |live|));
    PowAdd(n, k);
    ProductBelow(v, Pow2(n), Pow2(k));
    ValueConcat(live, Bits(v, n));
    ValueOfBits(v, n);
    Distribute(Value(live), v, Pow2(n), Pow2(k));
  }

  ghost predicate AllBytes(b: seq<nat>) {
    forall i :: 0 <= i < |b| ==> b[i] < 256
  }

  /** The compressor's bit buffer and its output bytes. */
  class BitWriter {
    var bsBuff: nat
    var bsLive: int
    var zbits: seq<nat>
    ghost var live: seq<bool>

    ghost predicate Valid()
      reads this
    {
      |live| == bsLive <= 31 && bsBuff == TopAligned(live) < TWO32 && AllBytes(zbits)
    }

    /** All bits written so far. */
    ghost function Written(): seq<bool>
      reads this
    {
      ByteBits(zbits) + live
    }

    constructor ()
      ensures Valid() && Written() == [] && zbits == []
    {
      bsBuff, bsLive, zbits, live := 0, 0, [], [];
    }

    /** Moves the top byte of the buffer to the output; a last, incomplete byte ends in zero bits. */
    method ShiftOutByte()
      requires Valid() && bsLive > 0
      modifies this
      ensures bsLive == old(bsLive) - 8
      ensures old(bsLive) >= 8 ==> Valid() && Written() == old(Written())
      ensures old(bsLive) < 8 ==> ByteBits(zbits) == old(Written()) + Zeros(8 - old(|live|)) && AllBytes(zbits)
    {
      hide Bits, Value;
      var byte := bsBuff / 0x100_0000;
      assert (zbits + [byte])[..|zbits|] == zbits;
      zbits := zbits + [byte];
      bsBuff := (bsBuff * 256) % TWO32;
      bsLive := bsLive - 8;
      if |live| >= 8 {
        TopByte(live);
        BitsOfValue(live[..8]);
        assert live == live[..8] + live[8..];
        live := live[8..];
        assert Written() == old(ByteBits(zbits)) + old(live[..8]) + live;
      } else {
        LastByte(live);
        BitsOfValue(live + Zeros(8 - |live|));
        assert ByteBits(zbits) == old(ByteBits(zbits)) + (live + Zeros(8 - |live|));
      }
    }

    /** Writes the `n` bits of `v`. */
    method BsW(n: nat, v: nat)
      requires Valid() && 1 <= n <= 24 && v < Pow2(n)
      modifies this
      ensures Valid() && Written() == old(Written()) + Bits(v, n)
    {
      hide Bits, Value, Pow2, TopAligned;
      while bsLive >= 8
        invariant Valid() && Written() == old(Written())
        decreases bsLive
      {
        ShiftOutByte();
      }
      AppendAligned(live, n, v);
      AlignedFits(live + Bits(v, n));
      bsBuff := Union(bsBuff, v * Pow2(32 - bsLive - n), 32 - bsLive);
      bsLive := bsLive + n;
      live := live + Bits(v, n);
    }

    /** Starts the output anew; the bits in the buffer stay. */
    method Clear()
      modifies this`zbits
      ensures zbits == [] && (old(Valid()) ==> Valid())
    {
      zbits := [];
    }

    /** Moves the whole buffer out, the last byte filled up with zero bits. */
    method BsFinishWrite()
      requires Valid()
      modifies this
      ensures exists n :: 0 <= n < 8 && ByteBits(zbits) == old(Written()) + Zeros(n)
      ensures bsLive <= 0 && AllBytes(zbits)
    {
      ghost var n := 0;
      while bsLive > 0
        invariant 0 <= n < 8
        invariant bsLive > 0 ==> Valid() && Written() == old(Written())
        invariant bsLive <= 0 ==> ByteBits(zbits) == old(Written()) + Zeros(n)
        invariant AllBytes(zbits)
        decreases bsLive
      {
        n := if bsLive >= 8 then 0 else 8 - |live|;
        ShiftOutByte();
      }
    }
  }

  ghost function Zeros(n: nat): seq<bool> {
    seq(n, _ => false)
  }

  lemma AlignedFits(live: seq<bool>)
    requires |live| <= 32
    ensures TopAligned(live) < TWO32
  {
    hide Pow2, Value;
    ValueBounded(live);
    PowAdd(|live|, 32 - |live|);
    ProductBelow(Value(live), Pow2(|live|), Pow2(32 - |live|));
    PowersUsed();
  }

  lemma {:induction false} ZeroBits(n: nat)
    ensures Value(Zeros(n)) == 0
  {
    if n > 0 {
      ZeroBits(n - 1);
      assert Zeros(n)[..n - 1] == Zeros(n - 1);
    }
  }

  lemma Regroup(v: nat, p: nat, q: nat)
    ensures v * (p * q) == (v * p) * q
  {
  }

  /** The top byte of a buffer with fewer than eight live bits is those bits and zeros. */
  lemma LastByte(live: seq<bool>)
    requires |live| <= 8
    ensures TopAligned(live) / 0x100_0000 == Value(live + Zeros(8 - |live|))
  {
    hide Pow2, Value;
    var pad := Zeros(8 - |live|);
    ValueConcat(live, pad);
    ZeroBits(8 - |live|);
    PowAdd(|pad|, 24);
    PowersUsed();
    Regroup(Value(live), Pow2(|pad|), 0x100_0000);
  }

  // ---------- reading ----------

  lemma Factor(k: int, p: nat, q: nat, h: nat)
    ensures k * (p * q) + h * q == q * (k * p + h)
  {
  }

  /** Splitting the low bits of a word: the upper `n` of them by a shift and a mask, the others stay. */
  lemma SplitLow(x: nat, p: nat, q: nat, h: nat, r: nat)
    requires p > 0 && q > 0 && h < p && r < q && x % (p * q) == h * q + r
    ensures (x / q) % p == h && x % q == r
  {
    var k := x / (p * q);
    Factor(k, p, q, h);
    assert x == q * (k * p + h) + r by {
      assert x == (p * q) * k + x % (p * q);
    }
    DivUnique(x, k * p + h, r, q);
    DivUnique(k * p + h, k, h, p);
  }

  /** The top `n` of the live low bits of a word. */
  lemma TakeBits(live: seq<bool>, x: nat, n: nat)
    requires n <= |live| && x % Pow2(|live|) == Value(live)
    ensures (x / Pow2(|live| - n)) % Pow2(n) == Value(live[..n])
    ensures x % Pow2(|live| - n) == Value(live[n..])
  {
    hide Pow2, Value;
    assert live == live[..n] + live[n..];
    ValueConcat(live[..n], live[n..]);
    ValueBounded(live[..n]);
    ValueBounded(live[n..]);
    PowAdd(n, |live| - n);
    SplitLow(x, Pow2(n), Pow2(|live| - n), Value(live[..n]), Value(live[n..]));
  }

  lemma ShiftMod(x: nat, p: nat, r: nat, v: nat, byte: nat)
    requires p > 0 && x % p == v && byte < 256 && TWO32 == (p * 256) * r
    ensures ((x * 256) % TWO32 + byte) % (p * 256) == v * 256 + byte
  {
    var k, j := x / p, (x * 256) / TWO32;
    var y := (x * 256) % TWO32 + byte;
    assert x == p * k + v;
    assert x * 256 == TWO32 * j + (x * 256) % TWO32;
    assert TWO32 * j == (p * 256) * (r * j) by {
      Regroup(p * 256, r, j);
    }
    assert (p * k) * 256 == (p * 256) * k;
    assert y == (p * 256) * k - (p * 256) * (r * j) + (v * 256 + byte);
    Subtract(p * 256, k, r * j);
    DivUnique(y, k - r * j, v * 256 + byte, p * 256);
  }

  lemma Subtract(m: int, x: int, y: int)
    ensures m * x - m * y == m * (x - y)
  {
  }

  /** Shifting in a byte below the live bits. */
  lemma ShiftIn(live: seq<bool>, x: nat, byte: nat)
    requires |live| + 8 <= 32 && x % Pow2(|live|) == Value(live) && byte < 256
    ensures ((x * 256) % TWO32 + byte) % Pow2(|live| + 8) == Value(live + Bits(byte, 8))
  {
    hide Pow2, Value, Bits;
    PowersUsed();
    PowAdd(|live|, 8);
    PowAdd(|live| + 8, 24 - |live|);
    ShiftMod(x, Pow2(|live|), Pow2(24 - |live|), Value(live), byte);
    ValueConcat(live, Bits(byte, 8));
    ValueOfBits(byte, 8);
  }

  /** The decompressor's bit buffer, refilled from whatever input is at hand. */
  class BitReader {
    var bsBuff: nat
    var bsLive: nat
    var input: seq<nat>
    ghost var live: seq<bool>

    ghost predicate Valid()
      reads this
    {
      && |live| == bsLive <= 31 && bsBuff < TWO32 && bsBuff % Pow2(bsLive) == Value(live)
      && AllBytes(input)
    }

    /** All bits not yet read. */
    ghost function Pending(): seq<bool>
      reads this
    {
      live + ByteBits(input)
    }

    constructor ()
      ensures Valid() && Pending() == []
    {
      bsBuff, bsLive, input, live := 0, 0, [], [];
    }

    /** Makes the next chunk of input available. */
    method Feed(chunk: seq<nat>)
      requires Valid() && AllBytes(chunk)
      modifies this
      ensures Valid() && Pending() == old(Pending()) + ByteBits(chunk)
    {
      ByteBitsConcat(input, chunk);
      input := input + chunk;
    }

    /** Moves one byte of input into the buffer. */
    method ShiftInByte()
      requires Valid() && bsLive <= 23 && input != []
      modifies this
      ensures Valid() && Pending() == old(Pending()) && |input| == old(|input|) - 1
    {
      hide Pow2, Value, Bits;
      ShiftIn(live, bsBuff, input[0]);
      ByteBitsFirst(input);
      ShiftFits(bsBuff, input[0]);
      bsBuff := (bsBuff * 256) % TWO32 + input[0];
      live := live + Bits(input[0], 8);
      bsLive := bsLive + 8;
      input := input[1..];
    }

    /** Reads `n` bits, or nothing but buffered input when there are not enough. */
    method GetBits(n: nat) returns (v: Option<nat>)
      requires Valid() && n <= 24
      modifies this
      ensures Valid()
      ensures v.Some? <==> n <= |old(Pending())|
      ensures v.Some? ==> v.value == Value(old(Pending())[..n]) && Pending() == old(Pending())[n..]
      ensures v.None? ==> Pending() == old(Pending()) && input == []
    {
      hide Pow2, Value, Bits, ByteBits;
      ghost var all := Pending();
      while bsLive < n
        invariant Valid() && Pending() == all
        decreases |input|
      {
        if input == [] {
          EmptyBytes();
          return None;
        }
        ShiftInByte();
      }
      TakeBits(live, bsBuff, n);
      v := Some((bsBuff / Pow2(bsLive - n)) % Pow2(n));
      assert all[..n] == live[..n] && all[n..] == live[n..] + ByteBits(input);
      bsLive := bsLive - n;
      live := live[n..];
    }
  }

  lemma EmptyBytes()
    ensures ByteBits([]) == []
  {
  }

  lemma ShiftFits(x: nat, byte: nat)
    requires byte < 256
    ensures (x * 256) % TWO32 + byte < TWO32
  {
    assert TWO32 == 256 * 0x100_0000;
    var y := (x * 256) % TWO32;
    var q := (x * 256) / TWO32;
    assert y == 256 * (x - q * 0x100_0000);
  }

  // ---------- what is written is what is read ----------

  datatype Field = Field(width: nat, value: nat)

  ghost predicate Writable(fs: seq<Field>) {
    forall i :: 0 <= i < |fs| ==> 1 <= fs[i].width <= 24 && fs[i].value < Pow2(fs[i].width)
  }

  /** The bits that writing the fields in turn appends. */
  ghost function Encoded(fs: seq<Field>): seq<bool> {
    if fs == [] then [] else Bits(fs[0].value, fs[0].width) + Encoded(fs[1..])
  }

  /** The values that reads of the given widths return, and the bits they leave. */
  ghost function ReadAll(s: seq<bool>, widths: seq<nat>): Option<(seq<nat>, seq<bool>)> {
    if widths == [] then Some(([], s))
    else if |s| < widths[0] then None
    else
      match ReadAll(s[widths[0]..], widths[1..])
      case None => None
      case Some((vs, rest)) => Some(([Value(s[..widths[0]])] + vs, rest))
  }

  function Widths(fs: seq<Field>): seq<nat> {
    if fs == [] then [] else [fs[0].width] + Widths(fs[1..])
  }

  function Values(fs: seq<Field>): seq<nat> {
    if fs == [] then [] else [fs[0].value] + Values(fs[1..])
  }

  /** Reading the widths that were written gives back the values, whatever bits follow. */
  lemma {:induction false} ReadBack(fs: seq<Field>, tail: seq<bool>)
    requires Writable(fs)
    ensures ReadAll(Encoded(fs) + tail, Widths(fs)) == Some((Values(fs), tail))
    decreases |fs|
  {
    hide Value, Bits, Pow2;
    if fs == [] {
      assert Encoded(fs) + tail == tail;
    } else {
      var s, first := Encoded(fs) + tail, Bits(fs[0].value, fs[0].width);
      assert s == first + (Encoded(fs[1..]) + tail);
      assert s[..fs[0].width] == first && s[fs[0].width..] == Encoded(fs[1..]) + tail;
      ValueOfBits(fs[0].value, fs[0].width);
      ReadBack(fs[1..], tail);
      assert Widths(fs)[1..] == Widths(fs[1..]);
    }
  }

  // ---------- input in chunks ----------

  /** The number that the first `n` bits spell. */
  ghost function Front(bits: seq<bool>, n: nat): (p: Parsed<nat>)
    ensures Orderly(p, bits)
  {
    if |bits| < n then Broken(NeedInput) else Parsed(Value(bits[..n]), bits[n..])
  }

  ghost function FrontByte(bits: seq<bool>): (p: Parsed<nat>)
    ensures Orderly(p, bits) && (p.Parsed? ==> p.value < 256 && |p.rest| == |bits| - 8)
  {
    if |bits| >= 8 then
      ValueBounded(bits[..8]);
      PowersUsed();
      Front(bits, 8)
    else Front(bits, 8)
  }

  ghost function FrontBit(bits: seq<bool>): (p: Parsed<bool>)
    ensures Orderly(p, bits) && (p.Parsed? ==> |p.rest| == |bits| - 1)
  {
    if bits == [] then Broken(NeedInput) else Parsed(bits[0], bits[1..])
  }

  /** A number that was written is read back. */
  lemma FrontBack(v: nat, n: nat, rest: seq<bool>)
    requires v < Pow2(n)
    ensures Front(Bits(v, n) + rest, n) == Parsed(v, rest)
  {
    hide Value, Bits, Pow2;
    ValueOfBits(v, n);
    assert (Bits(v, n) + rest)[..n] == Bits(v, n) && (Bits(v, n) + rest)[n..] == rest;
  }

  lemma ByteBack(b: nat, rest: seq<bool>)
    requires b < 256
    ensures FrontByte(Bits(b, 8) + rest) == Parsed(b, rest)
  {
    hide Value, Bits, Front;
    PowersUsed();
    FrontBack(b, 8, rest);
  }

  function Flat(chunks: seq<seq<nat>>): seq<nat> {
    if chunks == [] then [] else chunks[0] + Flat(chunks[1..])
  }

  lemma FlatFirst(chunks: seq<seq<nat>>)
    requires chunks != []
    ensures ByteBits(Flat(chunks)) == ByteBits(chunks[0]) + ByteBits(Flat(chunks[1..]))
  {
    ByteBitsConcat(chunks[0], Flat(chunks[1..]));
  }

  lemma NoBits()
    ensures ByteBits(Flat([])) == []
  {
  }

  ghost predicate AllChunks(chunks: seq<seq<nat>>) {
    forall c :: 0 <= c < |chunks| ==> AllBytes(chunks[c])
  }

  /** Reading bits from input that arrives in chunks: when the bits run out, reading goes on with the next chunk. */
  class ChunkedInput {
    const bits: BitReader
    var chunks: seq<seq<nat>>

    ghost predicate Valid()
      reads this, bits
    {
      bits.Valid() && AllChunks(chunks)
    }

    /** All bits still to come. */
    ghost function All(): seq<bool>
      reads this, bits
    {
      bits.Pending() + ByteBits(Flat(chunks))
    }

    constructor (chunks: seq<seq<nat>>)
      requires AllChunks(chunks)
      ensures Valid() && All() == ByteBits(Flat(chunks)) && fresh(bits)
    {
      bits := new BitReader();
      this.chunks := chunks;
      new;
      assert [] + ByteBits(Flat(chunks)) == ByteBits(Flat(chunks));
    }

    /** Reads `n` bits; there may not be that many. */
    method Get(n: nat) returns (v: Received<nat>)
      requires Valid() && n <= 24
      modifies this, bits
      ensures Valid() && Left(v, All()) == Front(old(All()), n)
    {
      hide BitReader.Valid, BitReader.Pending, Value, ByteBits, Flat;
      ghost var all := All();
      while true
        invariant Valid() && All() == all
        decreases |chunks|
      {
        ghost var pending, later := bits.Pending(), ByteBits(Flat(chunks));
        var got := bits.GetBits(n);
        if got.Some? {
          assert all[..n] == pending[..n] && all[n..] == pending[n..] + later;
          return Received(got.value);
        }
        if chunks == [] {
          NoBits();
          return Stopped(NeedInput);
        }
        FlatFirst(chunks);
        bits.Feed(chunks[0]);
        ghost var first, rest := ByteBits(chunks[0]), ByteBits(Flat(chunks[1..]));
        assert pending + (first + rest) == pending + first + rest;
        chunks := chunks[1..];
      }
    }

    /** Reads one byte. */
    method GetByte() returns (b: Received<nat>)
      requires Valid()
      modifies this, bits
      ensures Valid() && Left(b, All()) == FrontByte(old(All()))
      ensures b.Received? ==> b.value < 256
    {
      hide BitReader.Valid, All, Front;
      b := Get(8);
    }

    /** Reads one bit. */
    method GetBit() returns (b: Received<bool>)
      requires Valid()
      modifies this, bits
      ensures Valid() && Left(b, All()) == FrontBit(old(All()))
    {
      hide BitReader.Valid, All;
      ghost var all := All();
      var v :- Get(1);
      OneBit(all[0]);
      assert all[..1] == [all[0]];
      return Received(v == 1);
    }
  }

  lemma OneBit(b: bool)
    ensures Value([b]) == (if b then 1 else 0) && Bits(if b then 1 else 0, 1) == [b]
  {
    assert [b][..0] == [];
    assert Bits(if b then 1 else 0, 1) == Bits(0, 0) + [b];
  }

  lemma OneBitFits(b: bool)
    ensures (if b then 1 else 0) < Pow2(1)
  {
  }

  /** Writes one bit. */
  method SendBit(w: BitWriter, b: bool)
    requires w.Valid()
    modifies w
    ensures w.Valid() && w.Written() == old(w.Written()) + [b]
  {
    hide Bits, Pow2;
    OneBit(b);
    OneBitFits(b);
    w.BsW(1, if b then 1 else 0);
  }
}
