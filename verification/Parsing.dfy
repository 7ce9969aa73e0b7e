/** Reading from a string of bits: what is read and what is left of it, or why reading stops. */
module Parsing {

  /**
   * Why reading stops short: the input has run out for now, it is no stream at all, it is bad, it has led the reader past the end
   * of an array, or it holds a randomised block.
   */
  datatype Reason = NeedInput | DataErrorMagic | DataError | Overrun | Randomised

  /** What a reading method returns. */
  datatype Received<+T> = Received(value: T) | Stopped(why: Reason) {

    predicate IsFailure() {
      Stopped?
    }

    function PropagateFailure<U>(): Received<U>
      requires IsFailure()
    {
      Stopped(why)
    }

    function Extract(): T
      requires !IsFailure()
    {
      value
    }
  }

  /** What a string of bits begins with, and the bits after it. */
  datatype Parsed<+T> = Parsed(value: T, rest: seq<bool>) | Broken(why: Reason) {

    predicate IsFailure() {
      Broken?
    }

    function PropagateFailure<U>(): Parsed<U>
      requires IsFailure()
    {
      Broken(why)
    }

    function Extract(): (T, seq<bool>)
      requires !IsFailure()
    {
      (value, rest)
    }
  }

  /** What was received, with the bits that were left. */
  ghost function Left<T>(r: Received<T>, rest: seq<bool>): Parsed<T> {
    match r
    case Received(value) => Parsed(value, rest)
    case Stopped(why) => Broken(why)
  }

  /** The same, where the value is not in the result but in some array. */
  ghost function LeftWith<T>(r: Received<()>, value: T, rest: seq<bool>): Parsed<T> {
    match r
    case Received(_) => Parsed(value, rest)
    case Stopped(why) => Broken(why)
  }

  /** No bits are made up, and reading stops for lack of input or for bad data only. */
  ghost predicate Orderly<T>(p: Parsed<T>, bits: seq<bool>) {
    match p
    case Parsed(_, rest) => |rest| <= |bits|
    case Broken(why) => why == NeedInput || why == DataError
  }

  /** `rest` is what `bits` end with. */
  ghost predicate Ends(bits: seq<bool>, rest: seq<bool>) {
    |rest| <= |bits| && bits[|bits| - |rest|..] == rest
  }

  lemma EndsEnds(bits: seq<bool>, mid: seq<bool>, rest: seq<bool>)
    requires Ends(bits, mid) && Ends(mid, rest)
    ensures Ends(bits, rest)
  {
  }

  lemma EndsWhole(bits: seq<bool>)
    ensures Ends(bits, bits)
  {
  }

  lemma EndsAfter(a: seq<bool>, rest: seq<bool>)
    ensures Ends(a + rest, rest)
  {
  }

  /**
   * What reading makes of some bits, `p`, goes for the bits with more after them, `q`, unless it asks for more: a value keeps its
   * place, and bad bits stay bad.
   */
  ghost predicate Settled<T(!new)>(p: Parsed<T>, q: Parsed<T>, bits: seq<bool>, more: seq<bool>) {
    match p
    case Parsed(value, rest) => q == Parsed(value, rest + more) && Ends(bits, rest)
    case Broken(why) => why == NeedInput || q == p
  }
}
