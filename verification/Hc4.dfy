/**
 * The hash-chain match finder, over data of which ever more comes into reach. Positions are 32-bit words; that of the end of
 * the data in reach may wrap in the program, where only its distance from the current position is used, so here it does not.
 */
module Hc4 {

  const EMPTY := 0
  const MAX_POS := 0xFFFFFFFF
  const NORMALIZE_STEP := 1024
  const HASH2_SIZE := 1024
  const HASH3_SIZE := 0x10000
  const MAX_HISTORY := 0xC0000000

  // ---------- hashes ----------

  function LowByte(x: bv32): bv32 { x & 0xFF }

  function NextByte(x: bv32): bv32 { (x >> 8) & 0xFF }

  function Mix2(w: bv32, b: bv8): bv32 { w ^ (b as bv32) }

  function Mix3(w: bv32, b: bv8, c: bv8): bv32 { w ^ (b as bv32) ^ ((c as bv32) << 8) }

  lemma SmallBytes(x: bv32)
    ensures LowByte(x) <= 0xFF && NextByte(x) <= 0xFF
  {
  }

  function Number(x: bv32): (i: nat)
    requires x <= 0xFF
    ensures i < 256
  {
    x as nat
  }

  lemma NumberSame(x: bv32, y: bv32)
    requires x <= 0xFF && y <= 0xFF && Number(x) == Number(y)
    ensures x == y
  {
  }

  function Join(high: nat, low: nat): (x: nat)
    requires high < 256 && low < 256
    ensures x <= 256 * high + 255
  {
    256 * high + low
  }

  /** The low ten bits of a word, as a table index. */
  function Low10(x: bv32): (h: nat)
    ensures h < HASH2_SIZE
  {
    SmallBytes(x);
    Join(Number(NextByte(x)) % 4, Number(LowByte(x)))
  }

  /** The low sixteen bits of a word, as a table index. */
  function Low16(x: bv32): (h: nat)
    ensures h < HASH3_SIZE
  {
    SmallBytes(x);
    Join(Number(NextByte(x)), Number(LowByte(x)))
  }

  /** The four-byte hash, into a table whose size is a power of two. */
  function Hash4(t: bv32, x: bv32, size: nat): (h: nat)
    requires size > 0
    ensures h < size
  {
    ((t ^ (x << 5)) as nat) % size
  }

  lemma Parts(h: nat, l: nat, h': nat, l': nat)
    requires h < 256 && h' < 256 && l < 256 && l' < 256 && Join(h, l) == Join(h', l')
    ensures h == h' && l == l'
  {
  }

  lemma LowSame(w: bv32, b: bv8, c: bv8)
    requires LowByte(Mix2(w, b)) == LowByte(Mix2(w, c))
    ensures b == c
  {
  }

  lemma BothSame(w: bv32, b: bv8, c: bv8, b': bv8, c': bv8)
    requires LowByte(Mix3(w, b, c)) == LowByte(Mix3(w, b', c')) && NextByte(Mix3(w, b, c)) == NextByte(Mix3(w, b', c'))
    ensures b == b' && c == c'
  {
  }

  /** With the same first byte, equal two-byte hashes mean equal second bytes. */
  lemma Hash2Same(w: bv32, b: bv8, c: bv8)
    requires Low10(Mix2(w, b)) == Low10(Mix2(w, c))
    ensures b == c
  {
    hide LowByte, NextByte, Mix2, Number;
    var t, t' := Mix2(w, b), Mix2(w, c);
    SmallBytes(t);
    SmallBytes(t');
    Parts(Number(NextByte(t)) % 4, Number(LowByte(t)), Number(NextByte(t')) % 4, Number(LowByte(t')));
    NumberSame(LowByte(t), LowByte(t'));
    LowSame(w, b, c);
  }

  /** With the same first byte, equal three-byte hashes mean equal second and third bytes. */
  lemma Hash3Same(w: bv32, b: bv8, c: bv8, b': bv8, c': bv8)
    requires Low16(Mix3(w, b, c)) == Low16(Mix3(w, b', c'))
    ensures b == b' && c == c'
  {
    hide LowByte, NextByte, Mix3, Number;
    var t, t' := Mix3(w, b, c), Mix3(w, b', c');
    SmallBytes(t);
    SmallBytes(t');
    Parts(Number(NextByte(t)), Number(LowByte(t)), Number(NextByte(t')), Number(LowByte(t')));
    NumberSame(LowByte(t), LowByte(t'));
    NumberSame(NextByte(t), NextByte(t'));
    BothSame(w, b, c, b', c');
  }

  // ---------- hashes of the data ----------

  function H2(crc: bv8 -> bv32, data: seq<bv8>, i: nat): (h: nat)
    requires i + 4 <= |data|
    ensures h < HASH2_SIZE
  {
    Low10(Mix2(crc(data[i]), data[i + 1]))
  }

  function H3(crc: bv8 -> bv32, data: seq<bv8>, i: nat): (h: nat)
    requires i + 4 <= |data|
    ensures h < HASH3_SIZE
  {
    Low16(Mix3(crc(data[i]), data[i + 1], data[i + 2]))
  }

  function H4(crc: bv8 -> bv32, data: seq<bv8>, i: nat, size: nat): (h: nat)
    requires i + 4 <= |data| && size > 0
    ensures h < size
  {
    Hash4(Mix3(crc(data[i]), data[i + 1], data[i + 2]), crc(data[i + 3]), size)
  }

  /** The number of places that have four bytes. */
  function Places(data: seq<bv8>): nat {
    if |data| < 4 then 0 else |data| - 3
  }

  /** The keys of all places by their first two bytes. */
  ghost function Keys2(crc: bv8 -> bv32, data: seq<bv8>): (keys: seq<nat>)
    ensures |keys| == Places(data) && forall i :: 0 <= i < |keys| ==> keys[i] == H2(crc, data, i)
  {
    seq(Places(data), i requires 0 <= i < Places(data) => H2(crc, data, i))
  }

  /** By their first three bytes. */
  ghost function Keys3(crc: bv8 -> bv32, data: seq<bv8>): (keys: seq<nat>)
    ensures |keys| == Places(data) && forall i :: 0 <= i < |keys| ==> keys[i] == H3(crc, data, i)
  {
    seq(Places(data), i requires 0 <= i < Places(data) => H3(crc, data, i))
  }

  /** By their first four bytes. */
  ghost function Keys4(crc: bv8 -> bv32, data: seq<bv8>, size: nat): (keys: seq<nat>)
    requires size > 0
    ensures |keys| == Places(data) && forall i :: 0 <= i < |keys| ==> keys[i] == H4(crc, data, i, size)
  {
    seq(Places(data), i requires 0 <= i < Places(data) => H4(crc, data, i, size))
  }

  /** An equal first byte and an equal hash of two bytes mean two equal bytes. */
  lemma H2Match(crc: bv8 -> bv32, data: seq<bv8>, i: nat, j: nat)
    requires i + 4 <= |data| && j + 4 <= |data|
    requires data[i] == data[j] && H2(crc, data, i) == H2(crc, data, j)
    ensures data[i + 1] == data[j + 1]
  {
    hide Low10, Mix2;
    Hash2Same(crc(data[i]), data[i + 1], data[j + 1]);
  }

  /** An equal first byte and an equal hash of three bytes mean three equal bytes. */
  lemma H3Match(crc: bv8 -> bv32, data: seq<bv8>, i: nat, j: nat)
    requires i + 4 <= |data| && j + 4 <= |data|
    requires data[i] == data[j] && H3(crc, data, i) == H3(crc, data, j)
    ensures data[i + 1] == data[j + 1] && data[i + 2] == data[j + 2]
  {
    hide Low16, Mix3;
    Hash3Same(crc(data[i]), data[i + 1], data[i + 2], data[j + 1], data[j + 2]);
  }

  // ---------- what the tables hold ----------

  /** The last of the first `n` places with the key `s`, or -1 if there is none. */
  function Latest(keys: seq<nat>, s: nat, n: nat): (k: int)
    requires n <= |keys|
    ensures -1 <= k < n && (k >= 0 ==> keys[k] == s)
    ensures forall j :: k < j < n ==> keys[j] != s
  {
    if n == 0 then -1 else if keys[n - 1] == s then n - 1 else Latest(keys, s, n - 1)
  }

  /** The last place before `i` with the same key as `i`. */
  ghost function Before(keys: seq<nat>, i: nat): (k: int)
    requires i < |keys|
    ensures -1 <= k < i
  {
    Latest(keys, keys[i], i)
  }

  /** An entry at position `pos`, which is place `ix`: it names place `k` if that is in reach, and otherwise nothing that is. */
  ghost predicate Names(v: nat, pos: nat, ix: nat, size: nat, k: int) {
    v < pos && if 0 <= k && ix - k < size then pos - v == ix - k else pos - v >= size
  }

  /** Every slot of a table names the last place whose key is the slot. */
  ghost predicate TableOk(h: seq<nat>, keys: seq<nat>, pos: nat, ix: nat, size: nat) {
    ix <= |keys| && forall s :: 0 <= s < |h| ==> Names(h[s], pos, ix, size, Latest(keys, s, ix))
  }

  /** The place in the ring that belongs to the position `delta` back. */
  function Ring(at: nat, delta: nat, size: nat): int {
    at - delta + (if delta > at then size else 0)
  }

  /** For every place in reach the ring names the last place before it with the same key. */
  ghost predicate ChainOk(son: seq<nat>, keys: seq<nat>, pos: nat, ix: nat, at: nat) {
    && at <= |son| && ix <= |keys|
    && forall d :: 1 <= d < |son| && d <= ix ==> LinkOk(son, keys, pos, ix, at, d)
  }

  ghost predicate LinkOk(son: seq<nat>, keys: seq<nat>, pos: nat, ix: nat, at: nat, d: nat)
    requires 1 <= d < |son| && at <= |son| && d <= ix <= |keys|
  {
    Names(son[Ring(at, d, |son|)], pos, ix, |son|, Before(keys, ix - d))
  }

  lemma NamesMoves(v: nat, pos: nat, ix: nat, size: nat, k: int)
    requires Names(v, pos, ix, size, k)
    ensures Names(v, pos + 1, ix + 1, size, k)
  {
  }

  lemma TableMoves(h: seq<nat>, keys: seq<nat>, pos: nat, ix: nat, size: nat)
    requires TableOk(h, keys, pos, ix, size) && ix < |keys| && keys[ix] < |h|
    ensures TableOk(h[keys[ix] := pos], keys, pos + 1, ix + 1, size)
  {
    var t := h[keys[ix] := pos];
    forall s | 0 <= s < |t| ensures Names(t[s], pos + 1, ix + 1, size, Latest(keys, s, ix + 1)) {
      NamesMoves(h[s], pos, ix, size, Latest(keys, s, ix));
    }
  }

  lemma ChainMoves(son: seq<nat>, keys: seq<nat>, pos: nat, ix: nat, at: nat, v: nat)
    requires ChainOk(son, keys, pos, ix, at) && at < |son| && ix < |keys| && Names(v, pos, ix, |son|, Before(keys, ix))
    ensures ChainOk(son[at := v], keys, pos + 1, ix + 1, at + 1)
  {
    hide Before, Names;
    var t, pos', ix', at' := son[at := v], pos + 1, ix + 1, at + 1;
    forall d | 1 <= d < |t| && d <= ix' ensures LinkOk(t, keys, pos', ix', at', d) {
      if d > 1 {
        assert LinkOk(son, keys, pos, ix, at, d - 1);
        NamesMoves(son[Ring(at, d - 1, |son|)], pos, ix, |son|, Before(keys, ix' - d));
      } else {
        NamesMoves(v, pos, ix, |son|, Before(keys, ix));
      }
    }
  }

  lemma ChainWraps(son: seq<nat>, keys: seq<nat>, pos: nat, ix: nat)
    requires ChainOk(son, keys, pos, ix, |son|)
    ensures ChainOk(son, keys, pos, ix, 0)
  {
    hide Before, Names;
    forall d | 1 <= d < |son| && d <= ix ensures LinkOk(son, keys, pos, ix, 0, d) {
      assert LinkOk(son, keys, pos, ix, |son|, d);
    }
  }

  // ---------- normalisation ----------

  function Reduced(v: nat, subValue: nat): nat {
    if v <= subValue then EMPTY else v - subValue
  }

  ghost predicate ReducedBy(t: seq<nat>, s: seq<nat>, subValue: nat) {
    |t| == |s| && forall i :: 0 <= i < |s| ==> t[i] == Reduced(s[i], subValue)
  }

  lemma NamesReduced(v: nat, pos: nat, ix: nat, size: nat, k: int, sub: nat)
    requires Names(v, pos, ix, size, k) && size > 0 && sub + size <= pos
    ensures Names(Reduced(v, sub), pos - sub, ix, size, k)
  {
  }

  lemma TableReduced(h: seq<nat>, t: seq<nat>, keys: seq<nat>, pos: nat, ix: nat, size: nat, sub: nat)
    requires TableOk(h, keys, pos, ix, size) && ReducedBy(t, h, sub) && size > 0 && sub + size <= pos
    ensures TableOk(t, keys, pos - sub, ix, size)
  {
    hide Names, Latest;
    forall s | 0 <= s < |t| ensures Names(t[s], pos - sub, ix, size, Latest(keys, s, ix)) {
      NamesReduced(h[s], pos, ix, size, Latest(keys, s, ix), sub);
    }
  }

  lemma ChainReduced(son: seq<nat>, t: seq<nat>, keys: seq<nat>, pos: nat, ix: nat, at: nat, sub: nat)
    requires ChainOk(son, keys, pos, ix, at) && ReducedBy(t, son, sub) && |son| > 0 && sub + |son| <= pos
    ensures ChainOk(t, keys, pos - sub, ix, at)
  {
    hide Names, Before;
    var pos' := pos - sub;
    forall d | 1 <= d < |t| && d <= ix ensures LinkOk(t, keys, pos', ix, at, d) {
      assert LinkOk(son, keys, pos, ix, at, d);
      NamesReduced(son[Ring(at, d, |son|)], pos, ix, |son|, Before(keys, ix - d), sub);
    }
  }

  // ---------- matches ----------

  datatype Match = Match(len: nat, distance: nat)

  /** The `n` bytes from `i` on are those from the earlier place `j` on. */
  ghost predicate Agrees(data: seq<bv8>, i: nat, j: int, n: nat) {
    0 <= j < i && i + n <= |data| && forall t :: i <= t < i + n ==> data[t] == data[t - (i - j)]
  }

  /** The bytes from `i` on repeat those `distance + 1` before them. */
  ghost predicate TrueMatch(data: seq<bv8>, i: nat, m: Match) {
    Agrees(data, i, i - (m.distance + 1), m.len)
  }

  /** The matches are true, near enough, longer one by one, none over the limit and all over `low`. */
  ghost predicate Reported(ms: seq<Match>, data: seq<bv8>, i: nat, size: nat, limit: nat) {
    && (forall k :: 0 <= k < |ms| ==> TrueMatch(data, i, ms[k]) && ms[k].distance + 1 < size && 2 <= ms[k].len <= limit)
    && forall k, l :: 0 <= k < l < |ms| ==> ms[k].len < ms[l].len
  }

  /** The last match reported, which is the longest, has at least `n` bytes. */
  ghost predicate Reaches(ms: seq<Match>, n: nat) {
    ms != [] && ms[|ms| - 1].len >= n
  }

  /** How many places from `lo` to before `hi` have the key `s`. */
  function Recurrences(keys: seq<nat>, s: nat, lo: nat, hi: nat): nat
    requires hi <= |keys|
    decreases hi
  {
    if hi <= lo then 0 else Recurrences(keys, s, lo, hi - 1) + (if keys[hi - 1] == s then 1 else 0)
  }

  lemma {:induction false} RecurrencesGrow(keys: seq<nat>, s: nat, lo: nat, lo': nat, hi: nat)
    requires hi <= |keys| && lo <= lo'
    ensures Recurrences(keys, s, lo, hi) >= Recurrences(keys, s, lo', hi)
    decreases hi
  {
    if hi > lo {
      RecurrencesGrow(keys, s, lo, lo', hi - 1);
    }
  }

  /** From one place with the key to the last one before it, there is just the one more. */
  lemma {:induction false} RecurrencesStep(keys: seq<nat>, s: nat, lo: nat, k: nat, hi: nat)
    requires lo <= k < hi <= |keys| && keys[k] == s && forall j :: lo <= j < k ==> keys[j] != s
    ensures Recurrences(keys, s, lo, hi) == Recurrences(keys, s, k + 1, hi) + 1
    decreases hi
  {
    if hi > k + 1 {
      RecurrencesStep(keys, s, lo, k, hi - 1);
    } else {
      NoRecurrences(keys, s, lo, k);
    }
  }

  lemma {:induction false} NoRecurrences(keys: seq<nat>, s: nat, lo: nat, hi: nat)
    requires hi <= |keys| && forall j :: lo <= j < hi ==> keys[j] != s
    ensures Recurrences(keys, s, lo, hi) == 0
    decreases hi
  {
    if hi > lo {
      NoRecurrences(keys, s, lo, hi - 1);
    }
  }

  /** Place `j` agrees with place `i` in no more than `len` bytes. */
  ghost predicate UpTo(data: seq<bv8>, i: nat, j: int, limit: nat, len: nat) {
    forall n: nat :: n <= limit && Agrees(data, i, j, n) ==> n <= len
  }

  lemma DiffersAt(data: seq<bv8>, i: nat, j: nat, limit: nat, len: nat)
    requires j < i && i + len < |data| && data[j + len] != data[i + len]
    ensures UpTo(data, i, j, limit, len)
  {
    assert data[i + len - (i - j)] != data[i + len];
  }

  /** No place after `from` that is in reach agrees with place `i` in four bytes and in more than `len`. */
  ghost predicate NoneLonger(data: seq<bv8>, i: nat, size: nat, limit: nat, from: int, len: nat) {
    forall j, n: nat :: from < j < i && i - j < size && 4 <= n <= limit && Agrees(data, i, j, n) ==> n <= len
  }

  /** Places that agree in four bytes have the same keys. */
  lemma SameKeys(crc: bv8 -> bv32, data: seq<bv8>, i: nat, j: int, n: nat, size: nat)
    requires i + 4 <= |data| && size > 0 && Agrees(data, i, j, n)
    ensures n >= 2 ==> Keys2(crc, data)[j] == Keys2(crc, data)[i]
    ensures n >= 3 ==> Keys3(crc, data)[j] == Keys3(crc, data)[i]
    ensures n >= 4 ==> Keys4(crc, data, size)[j] == Keys4(crc, data, size)[i]
  {
    hide Low10, Low16, Hash4, Mix2, Mix3;
    assert n >= 1 ==> data[i] == data[i - (i - j)];
    assert n >= 2 ==> data[i + 1] == data[i + 1 - (i - j)];
    assert n >= 3 ==> data[i + 2] == data[i + 2 - (i - j)];
    assert n >= 4 ==> data[i + 3] == data[i + 3 - (i - j)];
  }

  /** The chain begins with the last place with the same key; those after it agree in no four bytes. */
  lemma ChainBegins(crc: bv8 -> bv32, data: seq<bv8>, i: nat, size: nat, limit: nat, hashSize: nat, len: nat)
    requires i + 4 <= |data| && hashSize > 0
    ensures var keys := Keys4(crc, data, hashSize);
      var k := Before(keys, i);
      && NoneLonger(data, i, size, limit, k, len) && (k >= 0 ==> keys[k] == keys[i])
      && Recurrences(keys, keys[i], k + 1, i) == 0
  {
    hide H4, Agrees, Recurrences;
    var keys := Keys4(crc, data, hashSize);
    var k := Before(keys, i);
    NoRecurrences(keys, keys[i], k + 1, i);
    forall j, n: nat | k < j < i && 4 <= n ensures !Agrees(data, i, j, n) {
      if Agrees(data, i, j, n) {
        SameKeys(crc, data, i, j, n, hashSize);
        assert false;
      }
    }
  }

  /** It goes on with the last place before with the same key; those in between agree in no four bytes. */
  lemma ChainGoesOn(crc: bv8 -> bv32, data: seq<bv8>, i: nat, size: nat, limit: nat, hashSize: nat, k: nat, len: nat,
          len': nat)
    requires i + 4 <= |data| && hashSize > 0 && k < i && len <= len'
    requires Keys4(crc, data, hashSize)[k] == Keys4(crc, data, hashSize)[i]
    requires NoneLonger(data, i, size, limit, k, len) && UpTo(data, i, k, limit, len')
    ensures var keys := Keys4(crc, data, hashSize);
      var k' := Before(keys, k);
      && NoneLonger(data, i, size, limit, k', len') && (k' >= 0 ==> keys[k'] == keys[i])
      && Recurrences(keys, keys[i], k' + 1, i) == Recurrences(keys, keys[i], k + 1, i) + 1
  {
    hide H4, Agrees, Recurrences;
    var keys := Keys4(crc, data, hashSize);
    var k' := Before(keys, k);
    RecurrencesStep(keys, keys[i], k' + 1, k, i);
    forall j, n: nat | k' < j < k && 4 <= n ensures !Agrees(data, i, j, n) {
      if Agrees(data, i, j, n) {
        SameKeys(crc, data, i, j, n, hashSize);
        assert false;
      }
    }
  }

  lemma NamesNear(v: nat, pos: nat, ix: nat, size: nat, k: int)
    requires Names(v, pos, ix, size, k)
    ensures pos - v < size <==> 0 <= k && ix - k < size
    ensures pos - v < size ==> k == ix - (pos - v)
  {
  }

  lemma NextLink(son: seq<nat>, keys: seq<nat>, pos: nat, ix: nat, at: nat, d: nat)
    requires ChainOk(son, keys, pos, ix, at) && 1 <= d < |son| && d <= ix && at < |son|
    ensures var r := Ring(at, d, |son|);
      0 <= r < |son| && r != at && Names(son[r], pos, ix, |son|, Before(keys, ix - d))
  {
    hide Names, Before;
    assert LinkOk(son, keys, pos, ix, at, d);
  }

  /** The match finder's state. */
  class MatchFinder {
    const data: seq<bv8>
    const crc: bv8 -> bv32
    const directInput: bool
    const historySize: nat
    const cyclicBufferSize: nat
    const matchMaxLen: nat
    const keepSizeAfter: nat
    const cutValue: nat
    const hash2: array<nat>
    const hash3: array<nat>
    const hash4: array<nat>
    const son: array<nat>
    var bufferIx: nat
    var pos: nat
    var posLimit: nat
    var streamPos: nat
    var lenLimit: nat
    var cyclicBufferPos: nat
    var directInputRem: nat
    var streamEndWasReached: bool

    ghost predicate Sized() {
      && historySize <= MAX_HISTORY && cyclicBufferSize == historySize + 1 == son.Length && matchMaxLen <= keepSizeAfter
      && hash2.Length == HASH2_SIZE && hash3.Length == HASH3_SIZE && hash4.Length > 0
      && hash2 != hash3 && hash2 != hash4 && hash2 != son && hash3 != hash4 && hash3 != son && hash4 != son
    }

    /** The position counters and the place in the data move together. */
    ghost predicate Placed()
      reads this
    {
      && cyclicBufferSize <= pos <= streamPos && pos <= MAX_POS && cyclicBufferPos <= cyclicBufferSize
      && (directInput ==> streamPos <= MAX_POS)
      && bufferIx + (streamPos - pos) + directInputRem == |data|
    }

    /** Data in memory that the position counter can number is in reach from the beginning. */
    ghost predicate Taken()
      reads this
    {
      directInput && cyclicBufferSize + |data| <= MAX_POS ==> directInputRem == 0
    }

    /** The hash tables name the last places of all keys, for position `p` at place `ix`. */
    ghost predicate TablesOk(p: nat, ix: nat)
      requires Sized()
      reads hash2, hash3, hash4
    {
      && TableOk(hash2[..], Keys2(crc, data), p, ix, cyclicBufferSize)
      && TableOk(hash3[..], Keys3(crc, data), p, ix, cyclicBufferSize)
      && TableOk(hash4[..], Keys4(crc, data, hash4.Length), p, ix, cyclicBufferSize)
    }

    /** And so does the ring. */
    ghost predicate IndexOk(p: nat, ix: nat, at: nat)
      requires Sized()
      reads hash2, hash3, hash4, son
    {
      TablesOk(p, ix) && ChainOk(son[..], Keys4(crc, data, hash4.Length), p, ix, at)
    }

    /** Enough data is ahead of position `p` for matches to be looked for, now or later. */
    predicate Searching(p: nat)
      reads this`streamPos
    {
      matchMaxLen >= 4 && streamPos >= p + 4
    }

    /** Until position reaches its limit, everything read ahead stays in reach. */
    ghost predicate Limited()
      reads this
    {
      pos < streamPos ==>
        && pos < posLimit <= MAX_POS && posLimit - pos <= cyclicBufferSize - cyclicBufferPos
        && lenLimit == (if streamPos - pos < matchMaxLen then streamPos - pos else matchMaxLen)
        && (posLimit == pos + 1 || posLimit + keepSizeAfter <= streamPos)
    }

    ghost predicate Valid()
      reads this, hash2, hash3, hash4, son
    {
      && Sized() && Placed() && Limited() && Taken() && pos < MAX_POS && cyclicBufferPos < cyclicBufferSize
      && (Searching(pos) ==> IndexOk(pos, bufferIx, cyclicBufferPos))
    }

    method SetLimits()
      requires Sized() && Placed() && pos < MAX_POS && cyclicBufferPos < cyclicBufferSize
      modifies this`posLimit, this`lenLimit
      ensures Limited()
    {
      var limit := MAX_POS - pos;
      var limit2 := cyclicBufferSize - cyclicBufferPos;
      if limit2 < limit {
        limit := limit2;
      }
      limit2 := streamPos - pos;
      if limit2 <= keepSizeAfter {
        if limit2 > 0 {
          limit2 := 1;
        }
      } else {
        limit2 := limit2 - keepSizeAfter;
      }
      if limit2 < limit {
        limit := limit2;
      }
      lenLimit := streamPos - pos;
      if lenLimit > matchMaxLen {
        lenLimit := matchMaxLen;
      }
      posLimit := pos + limit;
    }

    /** Lets more of the data come into reach. */
    method ReadBlock()
      requires Placed()
      modifies this`streamPos, this`directInputRem, this`streamEndWasReached
      ensures Placed() && streamPos >= old(streamPos)
      ensures streamEndWasReached <==> old(streamEndWasReached) || directInputRem == 0
      ensures old(streamEndWasReached) ==> directInputRem == old(directInputRem)
      ensures directInput && !old(streamEndWasReached) ==> directInputRem == 0 || streamPos == MAX_POS
    {
      if streamEndWasReached {
        return;
      }
      var curSize;
      if directInput {
        curSize := MAX_POS - streamPos;
        if curSize > directInputRem {
          curSize := directInputRem;
        }
      } else {
        // As much as the stream and the room in the window give.
        curSize :| 0 <= curSize <= directInputRem;
      }
      directInputRem := directInputRem - curSize;
      streamPos := streamPos + curSize;
      if directInputRem == 0 {
        streamEndWasReached := true;
      }
    }

    static method Normalize3(subValue: nat, items: array<nat>)
      modifies items
      ensures ReducedBy(items[..], old(items[..]), subValue)
    {
      var i := 0;
      while i < items.Length
        invariant 0 <= i <= items.Length
        invariant forall k :: 0 <= k < i ==> items[k] == Reduced(old(items[..])[k], subValue)
        invariant forall k :: i <= k < items.Length ==> items[k] == old(items[..])[k]
      {
        var value := items[i];
        if value <= subValue {
          value := EMPTY;
        } else {
          value := value - subValue;
        }
        items[i] := value;
        i := i + 1;
      }
    }

    /** A match finder at the beginning of the data; the ring starts with whatever was in memory. */
    constructor (data: seq<bv8>, crc: bv8 -> bv32, directInput: bool, historySize: nat, matchMaxLen: nat,
            keepSizeAfter: nat, cutValue: nat, hashSize: nat)
      requires historySize <= MAX_HISTORY && matchMaxLen <= keepSizeAfter && hashSize > 0
      ensures Valid() && this.data == data && bufferIx == 0 && cyclicBufferSize == historySize + 1
      ensures this.crc == crc && this.directInput == directInput && this.matchMaxLen == matchMaxLen
      ensures this.cutValue == cutValue && hash4.Length == hashSize
    {
      this.data := data;
      this.crc := crc;
      this.directInput := directInput;
      this.historySize := historySize;
      cyclicBufferSize := historySize + 1;
      this.matchMaxLen := matchMaxLen;
      this.keepSizeAfter := keepSizeAfter;
      this.cutValue := cutValue;
      hash2 := new nat[HASH2_SIZE](_ => EMPTY);
      hash3 := new nat[HASH3_SIZE](_ => EMPTY);
      hash4 := new nat[hashSize](_ => EMPTY);
      son := new nat[historySize + 1];
      cyclicBufferPos, bufferIx, pos, streamPos := 0, 0, historySize + 1, historySize + 1;
      posLimit, lenLimit := historySize + 1, 0;
      directInputRem, streamEndWasReached := |data|, false;
      new;
      hide TableOk, ChainOk, H2, H3, H4;
      EmptyTable(hash2[..], Keys2(crc, data), pos);
      EmptyTable(hash3[..], Keys3(crc, data), pos);
      EmptyTable(hash4[..], Keys4(crc, data, hash4.Length), pos);
      EmptyChain(son[..], Keys4(crc, data, hash4.Length), pos);
      ReadBlock();
      SetLimits();
    }

    /** Subtracts from every position what can be spared. */
    method Normalize()
      requires Sized() && Placed() && posLimit == pos == MAX_POS
      requires Searching(pos) ==> IndexOk(pos, bufferIx, cyclicBufferPos)
      modifies this`pos, this`posLimit, this`streamPos, hash2, hash3, hash4, son
      ensures Placed() && pos < MAX_POS && streamPos - pos == old(streamPos) - old(pos)
      ensures Searching(pos) ==> IndexOk(pos, bufferIx, cyclicBufferPos)
    {
      hide TableOk, ChainOk, ReducedBy, H2, H3, H4;
      var subValue := (pos - historySize - 1) / NORMALIZE_STEP * NORMALIZE_STEP;
      ghost var h2, h3, h4, sn := hash2[..], hash3[..], hash4[..], son[..];
      Normalize3(subValue, hash2);
      Normalize3(subValue, hash3);
      Normalize3(subValue, hash4);
      Normalize3(subValue, son);
      if Searching(pos) {
        ghost var keys4 := Keys4(crc, data, hash4.Length);
        TableReduced(h2, hash2[..], Keys2(crc, data), pos, bufferIx, cyclicBufferSize, subValue);
        TableReduced(h3, hash3[..], Keys3(crc, data), pos, bufferIx, cyclicBufferSize, subValue);
        TableReduced(h4, hash4[..], keys4, pos, bufferIx, cyclicBufferSize, subValue);
        ChainReduced(sn, son[..], keys4, pos, bufferIx, cyclicBufferPos, subValue);
      }
      posLimit := posLimit - subValue;
      pos := pos - subValue;
      streamPos := streamPos - subValue;
    }

    /** What has to be seen to when position reaches its limit. */
    method CheckLimits()
      requires Sized() && Placed() && Taken() && posLimit == pos
      requires Searching(pos) ==> IndexOk(pos, bufferIx, cyclicBufferPos)
      modifies this`pos, this`posLimit, this`streamPos, this`lenLimit, this`cyclicBufferPos, this`directInputRem,
               this`streamEndWasReached, hash2, hash3, hash4, son
      ensures Valid() && streamPos - pos >= old(streamPos) - old(pos)
    {
      hide TablesOk, ChainOk, Keys4;
      if pos == MAX_POS {
        Normalize();
      }
      if !streamEndWasReached && keepSizeAfter == streamPos - pos {
        ReadBlock();
      }
      if cyclicBufferPos == cyclicBufferSize {
        if Searching(pos) {
          ChainWraps(son[..], Keys4(crc, data, hash4.Length), pos, bufferIx);
        }
        cyclicBufferPos := 0;
      }
      SetLimits();
    }

    /** Moves on by one byte. */
    method MovePos()
      requires Sized() && Placed() && Limited() && Taken() && pos < streamPos && cyclicBufferPos < cyclicBufferSize
      requires Searching(pos + 1) ==> IndexOk(pos + 1, bufferIx + 1, cyclicBufferPos + 1)
      modifies this, hash2, hash3, hash4, son
      ensures Valid() && bufferIx == old(bufferIx) + 1 && streamPos - pos >= old(streamPos) - old(pos) - 1
    {
      hide TablesOk, ChainOk;
      cyclicBufferPos := cyclicBufferPos + 1;
      bufferIx := bufferIx + 1;
      pos := pos + 1;
      if pos == posLimit {
        CheckLimits();
      }
    }

    /** Puts the current position into the hash tables and returns the entries it replaces. */
    method Enter() returns (v2: nat, v3: nat, v4: nat)
      requires Sized() && TablesOk(pos, bufferIx) && bufferIx + 4 <= |data|
      modifies hash2, hash3, hash4
      ensures TablesOk(pos + 1, bufferIx + 1)
      ensures Names(v2, pos, bufferIx, cyclicBufferSize, Before(Keys2(crc, data), bufferIx))
      ensures Names(v3, pos, bufferIx, cyclicBufferSize, Before(Keys3(crc, data), bufferIx))
      ensures Names(v4, pos, bufferIx, cyclicBufferSize, Before(Keys4(crc, data, hash4.Length), bufferIx))
    {
      hide H2, H3, H4, Names;
      ghost var keys2, keys3, keys4 := Keys2(crc, data), Keys3(crc, data), Keys4(crc, data, hash4.Length);
      var h2, h3, h4 := H2(crc, data, bufferIx), H3(crc, data, bufferIx), H4(crc, data, bufferIx, hash4.Length);
      ghost var s2, s3, s4 := hash2[..], hash3[..], hash4[..];
      v2, v3, v4 := hash2[h2], hash3[h3], hash4[h4];
      assert v2 == s2[h2] && v3 == s3[h3] && v4 == s4[h4];
      TableMoves(s2, keys2, pos, bufferIx, cyclicBufferSize);
      TableMoves(s3, keys3, pos, bufferIx, cyclicBufferSize);
      TableMoves(s4, keys4, pos, bufferIx, cyclicBufferSize);
      hash2[h2], hash3[h3], hash4[h4] := pos, pos, pos;
      assert hash2[..] == s2[h2 := pos] && hash3[..] == s3[h3 := pos] && hash4[..] == s4[h4 := pos];
    }

    /** What the chain promises: all of the first `cutValue` places in reach that agree in four bytes or more have been looked at. */
    ghost predicate ChainSearched(ms: seq<Match>, ix: nat, limit: nat)
      requires Sized() && ix + 4 <= |data|
    {
      var keys := Keys4(crc, data, hash4.Length);
      forall j, n: nat ::
        (InReach(j, ix) && j < ix && 4 <= n <= limit && Agrees(data, ix, j, n) && Recurrences(keys, keys[ix], j + 1, ix) < cutValue)
        ==> Reaches(ms, n)
    }

    /** What the short hashes promise: the last place with the same two or three bytes has been looked at. */
    ghost predicate ShortSearched(ms: seq<Match>, ix: nat, limit: nat)
      requires ix + 4 <= |data|
    {
      var k2, k3 := Before(Keys2(crc, data), ix), Before(Keys3(crc, data), ix);
      && (InReach(k2, ix) ==> forall n: nat :: 2 <= n <= limit && Agrees(data, ix, k2, n) ==> Reaches(ms, n))
      && (InReach(k3, ix) ==> forall n: nat :: 3 <= n <= limit && Agrees(data, ix, k3, n) ==> Reaches(ms, n))
    }

    predicate InReach(k: int, ix: nat) {
      0 <= k && ix - k < cyclicBufferSize
    }

    /** How far a match at distance `delta` goes, of which the first `from` bytes are known. */
    method Extend(delta: nat, from: nat) returns (len: nat)
      requires 1 <= delta <= bufferIx && bufferIx + lenLimit <= |data| && from <= lenLimit
      requires TrueMatch(data, bufferIx, Match(from, delta - 1))
      ensures from <= len <= lenLimit && TrueMatch(data, bufferIx, Match(len, delta - 1))
      ensures UpTo(data, bufferIx, bufferIx - delta, lenLimit, len)
    {
      len := from;
      while len != lenLimit
        invariant from <= len <= lenLimit && TrueMatch(data, bufferIx, Match(len, delta - 1))
        decreases lenLimit - len
      {
        if data[bufferIx + len - delta] != data[bufferIx + len] {
          break;
        }
        len := len + 1;
      }
    }

    /** The matches that the two short hashes promise, the last of them extended as far as it goes. */
    method ShortMatches(v2: nat, v3: nat) returns (ms: seq<Match>, maxLen: nat)
      requires 4 <= lenLimit && bufferIx + lenLimit <= |data|
      requires Names(v2, pos, bufferIx, cyclicBufferSize, Before(Keys2(crc, data), bufferIx))
      requires Names(v3, pos, bufferIx, cyclicBufferSize, Before(Keys3(crc, data), bufferIx))
      ensures Reported(ms, data, bufferIx, cyclicBufferSize, lenLimit) && 1 <= maxLen <= lenLimit
      ensures ms == [] ==> maxLen == 1
      ensures ms != [] ==> maxLen == ms[|ms| - 1].len
      ensures ShortSearched(ms, bufferIx, lenLimit)
    {
      hide H2, H3, TrueMatch, Reported, Agrees, Before, Names, UpTo, Keys2, Keys3, ShortSearched;
      var cur := bufferIx;
      var delta2, delta3 := pos - v2, pos - v3;
      NamesNear(v2, pos, cur, cyclicBufferSize, Before(Keys2(crc, data), cur));
      NamesNear(v3, pos, cur, cyclicBufferSize, Before(Keys3(crc, data), cur));
      ghost var two := delta2 < cyclicBufferSize && data[cur - delta2] == data[cur];
      ghost var three := delta2 != delta3 && delta3 < cyclicBufferSize && data[cur - delta3] == data[cur];
      ms, maxLen := [], 1;
      if delta2 < cyclicBufferSize && data[cur - delta2] == data[cur] {
        TwoMatch(crc, data, cur, delta2);
        maxLen := 2;
        ms := [Match(2, delta2 - 1)];
      }
      if delta2 != delta3 && delta3 < cyclicBufferSize && data[cur - delta3] == data[cur] {
        ThreeMatch(crc, data, cur, delta3);
        maxLen := 3;
        ms := ms + [Match(3, delta3 - 1)];
        delta2 := delta3;
      }
      if ms != [] {
        maxLen := Extend(delta2, maxLen);
        ms := ms[|ms| - 1 := Match(maxLen, delta2 - 1)];
        if |ms| == 1 {
          assert ms == [ms[0]];
          ReportOne(ms[0], data, cur, cyclicBufferSize, lenLimit);
        } else {
          assert ms == [ms[0], ms[1]];
          ReportTwo(ms[0], ms[1], data, cur, cyclicBufferSize, lenLimit);
        }
      } else {
        NothingReported(data, cur, cyclicBufferSize, lenLimit);
      }
      ShortsSearched(ms, cur, lenLimit, two, three, maxLen);
    }

    /** The match that is extended goes at least as far as the last places with the same two and three bytes. */
    lemma ShortsSearched(ms: seq<Match>, ix: nat, limit: nat, two: bool, three: bool, maxLen: nat)
      requires ix + 4 <= |data|
      requires var k2, k3 := Before(Keys2(crc, data), ix), Before(Keys3(crc, data), ix);
        && (two <==> InReach(k2, ix) && data[k2] == data[ix])
        && (three <==> InReach(k3, ix) && data[k3] == data[ix] && !(InReach(k2, ix) && k2 == k3))
        && (two || three ==> Reaches(ms, maxLen) && maxLen >= 2 && UpTo(data, ix, if three then k3 else k2, limit, maxLen))
        && (three ==> maxLen >= 3)
      ensures ShortSearched(ms, ix, limit)
    {
      hide Before;
      var k2, k3 := Before(Keys2(crc, data), ix), Before(Keys3(crc, data), ix);
      forall n: nat | InReach(k2, ix) && 2 <= n <= limit && Agrees(data, ix, k2, n) ensures Reaches(ms, n) {
        assert data[ix] == data[ix - (ix - k2)];
        if three && n > 2 {
          TwoIsThree(crc, data, ix, n);
        }
      }
      forall n: nat | InReach(k3, ix) && 3 <= n <= limit && Agrees(data, ix, k3, n) ensures Reaches(ms, n) {
        assert data[ix] == data[ix - (ix - k3)];
      }
    }

    /** Follows the chain of positions with the same four-byte hash, reporting each match longer than those before. */
    method ChainMatches(first: nat, found: seq<Match>, low: nat) returns (ms: seq<Match>)
      requires Sized() && cyclicBufferPos < cyclicBufferSize <= pos && 4 <= lenLimit && bufferIx + lenLimit <= |data|
      requires Names(first, pos, bufferIx, cyclicBufferSize, Before(Keys4(crc, data, hash4.Length), bufferIx))
      requires ChainOk(son[..], Keys4(crc, data, hash4.Length), pos, bufferIx, cyclicBufferPos)
      requires Reported(found, data, bufferIx, cyclicBufferSize, lenLimit) && 3 <= low < lenLimit
      requires (forall k :: 0 <= k < |found| ==> found[k].len <= low) && (low > 3 ==> Reaches(found, low))
      modifies son
      ensures Reported(ms, data, bufferIx, cyclicBufferSize, lenLimit) && found <= ms
      ensures ChainSearched(ms, bufferIx, lenLimit)
      ensures son[..] == old(son[..])[cyclicBufferPos := first]
    {
      hide Names, ChainOk, LinkOk, Before, H4, NoneLonger, Recurrences, Reported, Agrees, Keys4, UpTo, TrueMatch,
        ChainSearched;
      ghost var s, keys := son[..], Keys4(crc, data, hash4.Length);
      ghost var k := Before(keys, bufferIx);
      var cur, cut, curMatch, maxLen := bufferIx, cutValue, first, low;
      ms := found;
      son[cyclicBufferPos] := first;
      ChainBegins(crc, data, cur, cyclicBufferSize, lenLimit, hash4.Length, maxLen);
      while true
        invariant son[..] == s[cyclicBufferPos := first]
        invariant 0 <= cut && -1 <= k < cur && Names(curMatch, pos, cur, cyclicBufferSize, k)
        invariant Reported(ms, data, cur, cyclicBufferSize, lenLimit) && found <= ms && 3 <= maxLen < lenLimit
        invariant forall l :: 0 <= l < |ms| ==> ms[l].len <= maxLen
        invariant maxLen > 3 ==> Reaches(ms, maxLen)
        invariant k >= 0 ==> keys[k] == keys[cur]
        invariant NoneLonger(data, cur, cyclicBufferSize, lenLimit, k, maxLen)
        invariant cut + Recurrences(keys, keys[cur], k + 1, cur) == cutValue
        decreases cut
      {
        var delta := pos - curMatch;
        NamesNear(curMatch, pos, cur, cyclicBufferSize, k);
        if cut == 0 || delta >= cyclicBufferSize {
          ChainEnds(ms, cur, lenLimit, k, maxLen, cut);
          return;
        }
        cut := cut - 1;
        NextLink(s, keys, pos, cur, cyclicBufferPos, delta);
        curMatch := son[Ring(cyclicBufferPos, delta, cyclicBufferSize)];
        ghost var low' := maxLen;
        if data[cur - delta + maxLen] == data[cur + maxLen] && data[cur - delta] == data[cur] {
          var len := 1;
          while len != lenLimit && data[cur - delta + len] == data[cur + len]
            invariant 1 <= len <= lenLimit && SoFar(data, cur, delta, len)
            decreases lenLimit - len
          {
            len := len + 1;
          }
          Compared(data, cur, delta, len, lenLimit);
          if maxLen < len {
            maxLen := len;
            ReportMore(ms, Match(len, delta - 1), data, cur, cyclicBufferSize, lenLimit);
            ms := ms + [Match(len, delta - 1)];
            if len == lenLimit {
              LongestSearched(ms, cur, lenLimit);
              return;
            }
          }
        } else {
          DiffersAt(data, cur, k, lenLimit, if data[cur - delta] == data[cur] then maxLen else 0);
        }
        UpToMore(data, cur, k, lenLimit, maxLen);
        ChainGoesOn(crc, data, cur, cyclicBufferSize, lenLimit, hash4.Length, k, low', maxLen);
        k := Before(keys, k);
      }
    }

    /** When the chain is left, all of the first `cutValue` places in reach have been looked at. */
    lemma ChainEnds(ms: seq<Match>, ix: nat, limit: nat, k: int, maxLen: nat, cut: nat)
      requires Sized() && ix + 4 <= |data| && -1 <= k < ix && (maxLen > 3 ==> Reaches(ms, maxLen))
      requires NoneLonger(data, ix, cyclicBufferSize, limit, k, maxLen)
      requires var keys := Keys4(crc, data, hash4.Length); cut + Recurrences(keys, keys[ix], k + 1, ix) == cutValue
      requires cut == 0 || !InReach(k, ix)
      ensures ChainSearched(ms, ix, limit)
    {
      hide H4, Agrees, Recurrences;
      var keys := Keys4(crc, data, hash4.Length);
      forall j, n: nat |
        InReach(j, ix) && j < ix && 4 <= n <= limit && Agrees(data, ix, j, n) && Recurrences(keys, keys[ix], j + 1, ix) < cutValue
        ensures Reaches(ms, n)
      {
        if j <= k {
          RecurrencesGrow(keys, keys[ix], j + 1, k + 1, ix);
        }
      }
    }

    /** Nothing is longer than the limit. */
    lemma LongestSearched(ms: seq<Match>, ix: nat, limit: nat)
      requires Sized() && ix + 4 <= |data| && Reaches(ms, limit)
      ensures ChainSearched(ms, ix, limit)
    {
      hide H4, Agrees, Recurrences;
    }

    /** More matches, each longer than those before, do no harm. */
    lemma ShortStays(found: seq<Match>, ms: seq<Match>, ix: nat, limit: nat)
      requires ix + 4 <= |data| && found <= ms && Reported(ms, data, ix, cyclicBufferSize, limit)
      requires ShortSearched(found, ix, limit)
      ensures ShortSearched(ms, ix, limit)
    {
      hide Agrees, Before, Keys2, Keys3, TrueMatch;
      assert forall n: nat :: Reaches(found, n) ==> Reaches(ms, n);
    }

    /** The matches at the current position; then moves on. Positions too near the end have none. */
    method GetMatches() returns (ms: seq<Match>)
      requires Valid() && pos < streamPos
      modifies this, hash2, hash3, hash4, son
      ensures Valid() && bufferIx == old(bufferIx) + 1 && streamPos - pos >= old(streamPos) - old(pos) - 1
      ensures old(bufferIx) + old(lenLimit) <= |data| && old(lenLimit) <= matchMaxLen
      ensures directInput && cyclicBufferSize + |data| <= MAX_POS ==>
        old(lenLimit) == matchMaxLen || old(bufferIx) + old(lenLimit) == |data|
      ensures Reported(ms, data, old(bufferIx), cyclicBufferSize, old(lenLimit))
      ensures old(lenLimit) >= 4 ==> ChainSearched(ms, old(bufferIx), old(lenLimit)) && ShortSearched(ms, old(bufferIx), old(lenLimit))
    {
      hide TableOk, ChainOk, Reported, Names, Before, ChainSearched, ShortSearched, H4;
      if lenLimit < 4 {
        NothingReported(data, bufferIx, cyclicBufferSize, lenLimit);
        PassBy();
        return [];
      }
      ghost var s, keys := son[..], Keys4(crc, data, hash4.Length);
      var v2, v3, curMatch := Enter();
      var found, maxLen := ShortMatches(v2, v3);
      FoundUpTo(found, data, bufferIx, cyclicBufferSize, lenLimit);
      ChainMoves(s, keys, pos, bufferIx, cyclicBufferPos, curMatch);
      if maxLen == lenLimit {
        son[cyclicBufferPos] := curMatch;
        ms := found;
        LongestSearched(found, bufferIx, lenLimit);
      } else {
        if maxLen < 3 {
          maxLen := 3;
        }
        ms := ChainMatches(curMatch, found, maxLen);
        ShortStays(found, ms, bufferIx, lenLimit);
      }
      assert son[..] == s[cyclicBufferPos := curMatch];
      MovePos();
    }

    /** Moves on without looking for matches; near the end the position is not even entered. */
    method PassBy()
      requires Valid() && pos < streamPos && lenLimit < 4
      modifies this, hash2, hash3, hash4, son
      ensures Valid() && bufferIx == old(bufferIx) + 1 && streamPos - pos >= old(streamPos) - old(pos) - 1
    {
      hide IndexOk;
      MovePos();
    }

    /** Enters the next positions without reporting matches. */
    method Skip(num: nat)
      requires Valid() && 1 <= num <= streamPos - pos
      modifies this, hash2, hash3, hash4, son
      ensures Valid() && bufferIx == old(bufferIx) + num
    {
      hide IndexOk;
      var left := num;
      while left > 0
        invariant 0 <= left <= num && Valid() && bufferIx == old(bufferIx) + num - left && left <= streamPos - pos
        decreases left
      {
        SkipOne();
        left := left - 1;
      }
    }

    method SkipOne()
      requires Valid() && pos < streamPos
      modifies this, hash2, hash3, hash4, son
      ensures Valid() && bufferIx == old(bufferIx) + 1 && streamPos - pos >= old(streamPos) - old(pos) - 1
    {
      hide TableOk, ChainOk, Names, Before, H4;
      if lenLimit < 4 {
        PassBy();
        return;
      }
      ghost var s, keys := son[..], Keys4(crc, data, hash4.Length);
      var v2, v3, curMatch := Enter();
      ChainMoves(s, keys, pos, bufferIx, cyclicBufferPos, curMatch);
      son[cyclicBufferPos] := curMatch;
      assert son[..] == s[cyclicBufferPos := curMatch];
      MovePos();
    }
  }

  lemma EmptyTable(h: seq<nat>, keys: seq<nat>, pos: nat)
    requires pos > 0 && forall s :: 0 <= s < |h| ==> h[s] == EMPTY
    ensures TableOk(h, keys, pos, 0, pos)
  {
  }

  lemma EmptyChain(son: seq<nat>, keys: seq<nat>, pos: nat)
    ensures ChainOk(son, keys, pos, 0, 0)
  {
  }

  lemma TwoMatch(crc: bv8 -> bv32, data: seq<bv8>, i: nat, delta: nat)
    requires 1 <= delta <= i && i + 4 <= |data| && data[i - delta] == data[i]
    requires i - delta == Before(Keys2(crc, data), i)
    ensures TrueMatch(data, i, Match(2, delta - 1))
  {
    hide H2;
    H2Match(crc, data, i, i - delta);
  }

  lemma ThreeMatch(crc: bv8 -> bv32, data: seq<bv8>, i: nat, delta: nat)
    requires 1 <= delta <= i && i + 4 <= |data| && data[i - delta] == data[i]
    requires i - delta == Before(Keys3(crc, data), i)
    ensures TrueMatch(data, i, Match(3, delta - 1))
  {
    hide H3;
    H3Match(crc, data, i, i - delta);
  }

  /** The bytes compared so far are equal. */
  ghost predicate SoFar(data: seq<bv8>, cur: nat, delta: nat, len: nat) {
    1 <= delta <= cur && cur + len <= |data| && forall j :: cur <= j < cur + len ==> data[j] == data[j - delta]
  }

  /** Comparing stops at the limit or at the first byte that differs. */
  lemma Compared(data: seq<bv8>, cur: nat, delta: nat, len: nat, limit: nat)
    requires SoFar(data, cur, delta, len) && len <= limit && cur + limit <= |data|
    requires len == limit || data[cur - delta + len] != data[cur + len]
    ensures TrueMatch(data, cur, Match(len, delta - 1)) && UpTo(data, cur, cur - delta, limit, len)
  {
    if len != limit {
      DiffersAt(data, cur, cur - delta, limit, len);
    }
  }

  lemma UpToMore(data: seq<bv8>, i: nat, j: int, limit: nat, len: nat)
    ensures forall l: nat :: l <= len && UpTo(data, i, j, limit, l) ==> UpTo(data, i, j, limit, len)
  {
    hide Agrees;
  }

  lemma ReportMore(ms: seq<Match>, m: Match, data: seq<bv8>, i: nat, size: nat, limit: nat)
    requires Reported(ms, data, i, size, limit) && forall k :: 0 <= k < |ms| ==> ms[k].len < m.len
    requires TrueMatch(data, i, m) && m.distance + 1 < size && 2 <= m.len <= limit
    ensures Reported(ms + [m], data, i, size, limit)
  {
    hide TrueMatch;
  }

  /**
   * If the last place with the same two bytes goes on to agree in a third, the last place with the same three bytes is the same
   * place or has another first byte.
   */
  lemma TwoIsThree(crc: bv8 -> bv32, data: seq<bv8>, i: nat, n: nat)
    requires i + 4 <= |data| && n >= 3
    requires var k2, k3 := Before(Keys2(crc, data), i), Before(Keys3(crc, data), i);
      k2 >= 0 && Agrees(data, i, k2, n) && k3 >= 0 && data[k3] == data[i]
    ensures Before(Keys2(crc, data), i) == Before(Keys3(crc, data), i)
  {
    hide H2, H3, Agrees, TrueMatch;
    var k2, k3 := Before(Keys2(crc, data), i), Before(Keys3(crc, data), i);
    SameKeys(crc, data, i, k2, n, 1);
    ThreeMatch(crc, data, i, i - k3);
    TrueAgrees(data, i, k3, 3);
    SameKeys(crc, data, i, k3, 3, 1);
  }

  lemma TrueAgrees(data: seq<bv8>, i: nat, k: nat, n: nat)
    requires k < i && TrueMatch(data, i, Match(n, i - k - 1))
    ensures Agrees(data, i, k, n)
  {
  }

  lemma ReportOne(m: Match, data: seq<bv8>, i: nat, size: nat, limit: nat)
    requires TrueMatch(data, i, m) && m.distance + 1 < size && 2 <= m.len <= limit
    ensures Reported([m], data, i, size, limit)
  {
    hide TrueMatch;
  }

  lemma ReportTwo(m: Match, n: Match, data: seq<bv8>, i: nat, size: nat, limit: nat)
    requires TrueMatch(data, i, m) && m.distance + 1 < size && 2 <= m.len < n.len
    requires TrueMatch(data, i, n) && n.distance + 1 < size && n.len <= limit
    ensures Reported([m, n], data, i, size, limit)
  {
    hide TrueMatch;
  }

  lemma NothingReported(data: seq<bv8>, i: nat, size: nat, limit: nat)
    ensures Reported([], data, i, size, limit)
  {
  }

  lemma FoundUpTo(ms: seq<Match>, data: seq<bv8>, i: nat, size: nat, limit: nat)
    requires Reported(ms, data, i, size, limit)
    ensures ms != [] ==> forall k :: 0 <= k < |ms| ==> ms[k].len <= ms[|ms| - 1].len
  {
  }
}
