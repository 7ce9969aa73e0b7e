/** Move-to-front coding of the last column, with runs of the front entry in bijective base two. */
module MtfCoding {
  import opened ByteStrings
  import opened Counting
  import opened Parsing
  import opened Rotations
  import opened SegmentedMtf

  const RUNA := 0
  const RUNB := 1
  const MAX_RUN_WEIGHT := 2 * 1024 * 1024

  // ---------- the code as a function ----------

  /** The digits of run length `m`: RUNA counts one, RUNB two, each digit twice the one before. */
  function RunDigits(m: nat): seq<nat> {
    if m == 0 then [] else [if (m - 1) % 2 == 1 then RUNB else RUNA] + RunDigits((m - 1) / 2)
  }

  ghost function IndexOf(s: seq<int>, x: int): (j: nat)
    requires x in s
    ensures j < |s| && s[j] == x
  {
    var j :| 0 <= j < |s| && s[j] == x;
    j
  }

  /** No entry occurs twice. */
  ghost predicate Distinct(s: seq<int>) {
    forall i, j :: 0 <= i < j < |s| ==> s[i] != s[j]
  }

  lemma MoveKeeps(s: seq<int>, n: nat)
    requires n < |s| && Distinct(s)
    ensures Distinct(MoveToFront(s, n))
    ensures forall x :: x in s <==> x in MoveToFront(s, n)
  {
    hide MoveToFront;
    var t := MoveToFront(s, n);
    forall i, j | 0 <= i < j < |t| ensures t[i] != t[j] {
      MovedUp(s, n, i);
      MovedUp(s, n, j);
    }
    MoveToFrontPermutes(s, n);
    forall x ensures x in s <==> x in t {
      assert x in s <==> x in multiset(s);
      assert x in t <==> x in multiset(t);
    }
  }

  /** The symbols for the indices `ll`, given the list `yy` and `zPend` uses of its front entry still to be told. */
  ghost function Symbols(ll: seq<int>, yy: seq<int>, zPend: nat): seq<nat>
    requires forall i :: 0 <= i < |ll| ==> ll[i] in yy
    requires Distinct(yy) && yy != []
    decreases |ll|
  {
    if ll == [] then RunDigits(zPend) + [|yy| + 1]
    else if ll[0] == yy[0] then Symbols(ll[1..], yy, zPend + 1)
    else
      var j := IndexOf(yy, ll[0]);
      MoveKeeps(yy, j);
      RunDigits(zPend) + [j + 1] + Symbols(ll[1..], MoveToFront(yy, j), 0)
  }

  /** The last symbol is end-of-block, and all before it are smaller. */
  lemma {:induction false} SymbolsEnd(ll: seq<int>, yy: seq<int>, zPend: nat)
    requires forall i :: 0 <= i < |ll| ==> ll[i] in yy
    requires Distinct(yy) && yy != []
    ensures var s := Symbols(ll, yy, zPend);
      |s| <= zPend + |ll| + 1 && s != [] && s[|s| - 1] == |yy| + 1 && forall k :: 0 <= k < |s| - 1 ==> s[k] <= |yy|
    decreases |ll|
  {
    hide RunDigits, MoveToFront, Distinct;
    RunDigitsShort(zPend);
    if ll != [] {
      if ll[0] == yy[0] {
        SymbolsEnd(ll[1..], yy, zPend + 1);
      } else {
        assert ll[0] in yy;
        var j := IndexOf(yy, ll[0]);
        MoveKeeps(yy, j);
        forall i | 0 <= i < |ll[1..]| ensures ll[1..][i] in MoveToFront(yy, j) {
          assert ll[1..][i] == ll[i + 1];
        }
        SymbolsEnd(ll[1..], MoveToFront(yy, j), 0);
        var later := Symbols(ll[1..], MoveToFront(yy, j), 0);
        assert Symbols(ll, yy, zPend) == RunDigits(zPend) + [j + 1] + later;
      }
    }
  }

  // ---------- the list holds what was used last in front ----------

  /** The place where `x` occurs last, or -1. */
  function LastSeen(ll: seq<int>, x: int): (i: int)
    ensures -1 <= i < |ll|
  {
    if ll == [] then -1 else if ll[|ll| - 1] == x then |ll| - 1 else LastSeen(ll[..|ll| - 1], x)
  }

  /** The list after the entries `ll` have been moved to the front one after the other. */
  ghost function Fronted(yy: seq<int>, ll: seq<int>): (s: seq<int>)
    requires Distinct(yy) && forall i :: 0 <= i < |ll| ==> ll[i] in yy
    ensures Distinct(s) && forall x :: x in s <==> x in yy
  {
    if ll == [] then yy
    else
      var s := Fronted(yy, ll[..|ll| - 1]);
      var j := IndexOf(s, ll[|ll| - 1]);
      MoveKeeps(s, j);
      MoveToFront(s, j)
  }

  /** `x` is ahead of `y`. */
  ghost predicate Ahead(s: seq<int>, x: int, y: int) {
    exists i, j :: 0 <= i < j < |s| && s[i] == x && s[j] == y
  }

  lemma AheadMoved(s: seq<int>, n: nat, x: int, y: int)
    requires n < |s| && Distinct(s) && x in s && y in s && x != y
    ensures Ahead(MoveToFront(s, n), x, y) <==> x == s[n] || (y != s[n] && Ahead(s, x, y))
  {
    var t := MoveToFront(s, n);
    MoveKeeps(s, n);
    var i, j := IndexOf(s, x), IndexOf(s, y);
    var i', j' := if i == n then 0 else if i < n then i + 1 else i, if j == n then 0 else if j < n then j + 1 else j;
    assert t[i'] == x && t[j'] == y;
    AheadPlaces(s, i, j);
    AheadPlaces(t, i', j');
  }

  lemma AheadPlaces(s: seq<int>, i: nat, j: nat)
    requires Distinct(s) && i < |s| && j < |s| && i != j
    ensures Ahead(s, s[i], s[j]) <==> i < j
  {
  }

  /** Of two entries that one is ahead that was used last; entries not yet used stay behind, in their order. */
  lemma {:induction false} RecentFirst(yy: seq<int>, ll: seq<int>, x: int, y: int)
    requires Distinct(yy) && forall i :: 0 <= i < |ll| ==> ll[i] in yy
    requires x in yy && y in yy && x != y
    ensures Ahead(Fronted(yy, ll), x, y) <==>
      LastSeen(ll, x) > LastSeen(ll, y) || (LastSeen(ll, x) == LastSeen(ll, y) == -1 && Ahead(yy, x, y))
    decreases |ll|
  {
    hide Ahead, Distinct, MoveToFront;
    if ll != [] {
      var s, z := Fronted(yy, ll[..|ll| - 1]), ll[|ll| - 1];
      RecentFirst(yy, ll[..|ll| - 1], x, y);
      AheadMoved(s, IndexOf(s, z), x, y);
    }
  }

  /** The symbols for the entries from `k` on are told by the list as the entries before have left it. */
  lemma {:induction false} SymbolsFrom(ll: seq<int>, yy: seq<int>, k: nat) returns (sent: seq<nat>, z: nat)
    requires Distinct(yy) && yy != [] && k <= |ll| && forall i :: 0 <= i < |ll| ==> ll[i] in yy
    ensures var s := Fronted(yy, ll[..k]);
      && s != [] && (forall i :: 0 <= i < |ll[k..]| ==> ll[k..][i] in s)
      && Symbols(ll, yy, 0) == sent + Symbols(ll[k..], s, z)
    decreases k
  {
    hide Distinct, RunDigits, MoveToFront;
    if k == 0 {
      assert ll[..0] == [] && ll[0..] == ll;
      sent, z := [], 0;
    } else {
      sent, z := SymbolsFrom(ll, yy, k - 1);
      var s := Fronted(yy, ll[..k - 1]);
      var rest := ll[k - 1..];
      assert ll[..k][..k - 1] == ll[..k - 1] && rest[1..] == ll[k..] && rest[0] == ll[k - 1];
      var j := IndexOf(s, ll[k - 1]);
      if rest[0] == s[0] {
        FrontStays(s, j);
        z := z + 1;
      } else {
        sent, z := sent + RunDigits(z) + [j + 1], 0;
      }
    }
  }

  lemma FrontStays(s: seq<int>, j: nat)
    requires Distinct(s) && j < |s| && s[j] == s[0]
    ensures MoveToFront(s, j) == s
  {
  }

  // ---------- the decoder as a function ----------

  /** What symbols decode to; `Short` says that nothing is wrong with them but that the end is still missing. */
  datatype Decoded = Fail | Short | Done(out: seq<int>)

  /** The length of the run that begins `syms`, each digit weighing twice the one before, and what follows it. */
  function ReadRun(syms: seq<nat>, weight: nat): Run {
    if syms == [] then ShortRun
    else if syms[0] > RUNB then Run(0, syms)
    else if weight >= MAX_RUN_WEIGHT then BadRun
    else Plus((syms[0] + 1) * weight, ReadRun(syms[1..], 2 * weight))
  }

  datatype Run = BadRun | ShortRun | Run(len: nat, rest: seq<nat>)

  function Plus(n: nat, r: Run): Run {
    match r
    case BadRun => BadRun
    case ShortRun => ShortRun
    case Run(m, rest) => Run(n + m, rest)
  }

  lemma RunShortens(syms: seq<nat>, weight: nat)
    ensures var r := ReadRun(syms, weight); r.Run? ==> |r.rest| <= |syms| && (syms != [] && syms[0] <= RUNB ==> |r.rest| < |syms|)
  {
  }

  /** What decoding the symbols delivers, with the list `yy` and room for `room` more entries. */
  function Decode(syms: seq<nat>, yy: seq<int>, eob: nat, room: nat): Decoded
    decreases |syms|
  {
    if syms == [] then Short
    else if syms[0] == eob then Done([])
    else if syms[0] <= RUNB then
      RunShortens(syms, 1);
      match ReadRun(syms, 1)
      case BadRun => Fail
      case ShortRun => Short
      case Run(n, rest) =>
        if n > room || yy == [] then Fail
        else Prepend(Repeat(yy[0], n), Decode(rest, yy, eob, room - n))
    else if room == 0 || syms[0] - 1 >= |yy| then Fail
    else Prepend([yy[syms[0] - 1]], Decode(syms[1..], MoveToFront(yy, syms[0] - 1), eob, room - 1))
  }

  function Prepend(s: seq<int>, d: Decoded): Decoded {
    match d
    case Fail => Fail
    case Short => Short
    case Done(out) => Done(s + out)
  }

  /** Decoded entries are entries of the list, and there is room for them. */
  lemma {:induction false} DecodedBytes(syms: seq<nat>, yy: seq<int>, eob: nat, room: nat)
    requires Bytes(yy)
    ensures var d := Decode(syms, yy, eob, room); d.Done? ==> Bytes(d.out) && |d.out| <= room
    decreases |syms|
  {
    hide MoveToFront;
    if syms != [] && syms[0] != eob {
      if syms[0] <= RUNB {
        RunShortens(syms, 1);
        var r := ReadRun(syms, 1);
        if r.Run? && r.len <= room {
          DecodedBytes(r.rest, yy, eob, room - r.len);
        }
      } else if room > 0 && syms[0] - 1 < |yy| {
        var moved := MoveToFront(yy, syms[0] - 1);
        forall k | 0 <= k < |yy| ensures 0 <= moved[k] < 256 {
          MovedUp(yy, syms[0] - 1, k);
        }
        DecodedBytes(syms[1..], moved, eob, room - 1);
      }
    }
  }

  // ---------- the round trip ----------

  /** A run's digits are read back as its length, and no weight reaches the bound. */
  lemma {:induction false} RunReadBack(m: nat, rest: seq<nat>, weight: nat)
    requires rest != [] && rest[0] > RUNB && m * weight < MAX_RUN_WEIGHT
    ensures ReadRun(RunDigits(m) + rest, weight) == Run(m * weight, rest)
    decreases m
  {
    if m == 0 {
      assert RunDigits(m) + rest == rest;
    } else {
      var h := (m - 1) / 2;
      var d: nat := if (m - 1) % 2 == 1 then RUNB else RUNA;
      assert m == 2 * h + d + 1;
      Spread(h, d + 1, weight);
      assert (RunDigits(m) + rest)[1..] == RunDigits(h) + rest;
      RunReadBack(h, rest, 2 * weight);
      AtLeastOne(m, weight);
    }
  }

  lemma Spread(h: nat, d: nat, w: nat)
    ensures (2 * h + d) * w == h * (2 * w) + d * w
    ensures h * (2 * w) <= (2 * h + d) * w
  {
    assert d * w >= 0;
  }

  lemma AtLeastOne(m: nat, w: nat)
    requires m >= 1
    ensures w <= m * w
  {
    assert (m - 1) * w >= 0;
  }

  /** The digits of a run in front of other symbols deliver that many of the front entry. */
  lemma DecodeRunThen(z: nat, rest: seq<nat>, yy: seq<int>, eob: nat, room: nat)
    requires rest != [] && rest[0] > RUNB && eob > RUNB && yy != [] && z <= room && z < MAX_RUN_WEIGHT
    ensures Decode(RunDigits(z) + rest, yy, eob, room) == Prepend(Repeat(yy[0], z), Decode(rest, yy, eob, room - z))
  {
    if z == 0 {
      assert RunDigits(z) + rest == rest;
      assert Prepend(Repeat(yy[0], 0), Decode(rest, yy, eob, room)) == Decode(rest, yy, eob, room) by {
        if Decode(rest, yy, eob, room).Done? {
          assert Repeat(yy[0], 0) + Decode(rest, yy, eob, room).out == Decode(rest, yy, eob, room).out;
        }
      }
    } else {
      RunReadBack(z, rest, 1);
    }
  }

  /** Decoding the symbols of a column, with any longer list that begins with the coder's, gives the column. */
  lemma {:induction false} RoundTrip(ll: seq<int>, yy: seq<int>, zPend: nat, list: seq<int>, room: nat)
    requires forall i :: 0 <= i < |ll| ==> ll[i] in yy
    requires Distinct(yy) && yy != [] && |yy| <= |list| && list[..|yy|] == yy
    requires zPend + |ll| <= room && zPend + |ll| < MAX_RUN_WEIGHT
    ensures Decode(Symbols(ll, yy, zPend), list, |yy| + 1, room) == Done(Repeat(yy[0], zPend) + ll)
    decreases |ll|
  {
    hide Decode, RunDigits, MoveToFront, Distinct;
    var eob := |yy| + 1;
    assert list[0] == yy[0];
    if ll == [] {
      DecodeRunThen(zPend, [eob], list, eob, room);
      DecodeEob(list, eob, room - zPend);
      assert Repeat(yy[0], zPend) + [] == Repeat(yy[0], zPend);
    } else if ll[0] == yy[0] {
      RoundTrip(ll[1..], yy, zPend + 1, list, room);
      assert Repeat(yy[0], zPend + 1) + ll[1..] == Repeat(yy[0], zPend) + ll;
    } else {
      assert ll[0] in yy;
      var j := IndexOf(yy, ll[0]);
      MoveKeeps(yy, j);
      MoveToFrontPrefix(list, |yy|, j);
      forall i | 0 <= i < |ll[1..]| ensures ll[1..][i] in MoveToFront(yy, j) {
        assert ll[1..][i] == ll[i + 1];
      }
      RoundTrip(ll[1..], MoveToFront(yy, j), 0, MoveToFront(list, j), room - zPend - 1);
      RoundTripMove(ll, yy, zPend, list, room, j, Symbols(ll[1..], MoveToFront(yy, j), 0));
    }
  }

  lemma RoundTripMove(ll: seq<int>, yy: seq<int>, zPend: nat, list: seq<int>, room: nat, j: nat, later: seq<nat>)
    requires ll != [] && yy != [] && |yy| <= |list| && list[..|yy|] == yy && 1 <= j < |yy| && yy[j] == ll[0]
    requires zPend + |ll| <= room && zPend < MAX_RUN_WEIGHT
    requires Decode(later, MoveToFront(list, j), |yy| + 1, room - zPend - 1) == Done(Repeat(MoveToFront(yy, j)[0], 0) + ll[1..])
    ensures Decode(RunDigits(zPend) + [j + 1] + later, list, |yy| + 1, room) == Done(Repeat(yy[0], zPend) + ll)
  {
    hide Decode, RunDigits, MoveToFront;
    var eob, rest := |yy| + 1, [j + 1] + later;
    assert list[0] == yy[0] && list[j] == yy[j];
    assert RunDigits(zPend) + [j + 1] + later == RunDigits(zPend) + rest;
    DecodeRunThen(zPend, rest, list, eob, room);
    DecodeMove(rest, list, eob, room - zPend);
    assert rest[1..] == later;
    assert Repeat(MoveToFront(yy, j)[0], 0) + ll[1..] == ll[1..];
    assert [ll[0]] + ll[1..] == ll;
  }

  lemma DecodeEob(yy: seq<int>, eob: nat, room: nat)
    ensures Decode([eob], yy, eob, room) == Done([])
  {
  }

  lemma DecodeMove(syms: seq<nat>, yy: seq<int>, eob: nat, room: nat)
    requires syms != [] && RUNB < syms[0] < eob && room > 0 && syms[0] - 1 < |yy|
    ensures Decode(syms, yy, eob, room) == Prepend([yy[syms[0] - 1]], Decode(syms[1..], MoveToFront(yy, syms[0] - 1), eob, room - 1))
  {
  }

  // ---------- numbering the bytes in use ----------

  /** How many of the bytes below `c` are in use: the index of byte `c` among them. */
  function UsedBelow(inUse: seq<bool>, c: nat): nat
    requires c <= |inUse|
  {
    if c == 0 then 0 else UsedBelow(inUse, c - 1) + (if inUse[c - 1] then 1 else 0)
  }

  lemma {:induction false} UsedMonotone(inUse: seq<bool>, c: nat, d: nat)
    requires c <= d <= |inUse|
    ensures UsedBelow(inUse, c) <= UsedBelow(inUse, d) <= d
    ensures c < d && inUse[c] ==> UsedBelow(inUse, c) < UsedBelow(inUse, d)
    decreases d
  {
    if c < d {
      UsedMonotone(inUse, c, d - 1);
    } else if d > 0 {
      UsedMonotone(inUse, d - 1, d - 1);
    }
  }

  /** The coder's map from bytes to indices. */
  method MakeMapsE(inUse: array<bool>, unseqToSeq: array<int>) returns (nInUse: nat)
    requires inUse.Length == 256 && unseqToSeq.Length == 256
    modifies unseqToSeq
    ensures nInUse == UsedBelow(inUse[..], 256) <= 256
    ensures forall c :: 0 <= c < 256 && inUse[c] ==> unseqToSeq[c] == UsedBelow(inUse[..], c) < nInUse
  {
    ghost var u := inUse[..];
    nInUse := 0;
    var i := 0;
    while i < 256
      invariant 0 <= i <= 256 && nInUse == UsedBelow(u, i)
      invariant forall c :: 0 <= c < i && u[c] ==> unseqToSeq[c] == UsedBelow(u, c)
    {
      if inUse[i] {
        unseqToSeq[i] := nInUse;
        nInUse := nInUse + 1;
      }
      i := i + 1;
    }
    forall c | 0 <= c < 256 && u[c] ensures UsedBelow(u, c) < UsedBelow(u, 256) {
      UsedMonotone(u, c, 256);
    }
    UsedMonotone(u, 0, 256);
    assert u == inUse[..];
  }

  /** The bytes in use below `c`, in order. */
  function UsedBytes(inUse: seq<bool>, c: nat): (s: seq<int>)
    requires c <= |inUse|
    ensures |s| == UsedBelow(inUse, c) <= c && forall k :: 0 <= k < |s| ==> 0 <= s[k] < c
  {
    if c == 0 then [] else UsedBytes(inUse, c - 1) + (if inUse[c - 1] then [c - 1] else [])
  }

  /** A byte in use is where its index says. */
  lemma {:induction false} UsedByteAt(inUse: seq<bool>, c: nat, d: nat)
    requires c < d <= |inUse| && inUse[c]
    ensures UsedBelow(inUse, c) < UsedBelow(inUse, d) && UsedBytes(inUse, d)[UsedBelow(inUse, c)] == c
    decreases d
  {
    if c < d - 1 {
      UsedByteAt(inUse, c, d - 1);
    }
  }

  /** The decoder's map back from indices to bytes. */
  method MakeMapsD(inUse: array<bool>, seqToUnseq: array<int>) returns (nInUse: nat)
    requires inUse.Length == 256 && seqToUnseq.Length == 256
    modifies seqToUnseq
    ensures nInUse == UsedBelow(inUse[..], 256) <= 256 && seqToUnseq[..nInUse] == UsedBytes(inUse[..], 256)
    ensures forall c :: 0 <= c < 256 && inUse[c] ==> UsedBelow(inUse[..], c) < nInUse && seqToUnseq[UsedBelow(inUse[..], c)] == c
    ensures seqToUnseq[nInUse..] == old(seqToUnseq[nInUse..])
  {
    ghost var u := inUse[..];
    nInUse := 0;
    var i := 0;
    while i < 256
      invariant 0 <= i <= 256 && nInUse <= i && seqToUnseq[..nInUse] == UsedBytes(u, i)
      invariant forall k :: nInUse <= k < 256 ==> seqToUnseq[k] == old(seqToUnseq[k])
    {
      if inUse[i] {
        ghost var was := seqToUnseq[..nInUse];
        seqToUnseq[nInUse] := i;
        nInUse := nInUse + 1;
        assert seqToUnseq[..nInUse] == was + [i];
      }
      i := i + 1;
    }
    assert u == inUse[..];
    forall c | 0 <= c < 256 && u[c] ensures UsedBelow(u, c) < nInUse && seqToUnseq[UsedBelow(u, c)] == c {
      UsedByteAt(u, c, 256);
      assert seqToUnseq[..nInUse][UsedBelow(u, c)] == c;
    }
  }

  // ---------- the coder in place ----------

  lemma {:induction false} RunDigitsShort(m: nat)
    ensures |RunDigits(m)| <= m && forall i :: 0 <= i < |RunDigits(m)| ==> RunDigits(m)[i] <= RUNB
  {
    if m > 0 {
      RunDigitsShort((m - 1) / 2);
    }
  }

  /** Appends the digits of a run of `count` to the first `at` symbols. */
  method WriteRun(mtfv: array<int>, at: nat, count: nat) returns (wr: nat)
    requires at + count <= mtfv.Length
    modifies mtfv
    ensures wr == at + |RunDigits(count)| <= at + count
    ensures mtfv[..wr] == old(mtfv[..at]) + RunDigits(count)
    ensures forall k :: wr <= k < mtfv.Length ==> mtfv[k] == old(mtfv[k])
  {
    hide RunDigits;
    ghost var s := mtfv[..];
    wr := at;
    RunDigitsShort(count);
    if count > 0 {
      var zPend: nat := count - 1;
      while true
        invariant at <= wr && wr + |RunDigits(zPend + 1)| == at + |RunDigits(count)|
        invariant mtfv[..wr] + RunDigits(zPend + 1) == s[..at] + RunDigits(count)
        invariant forall k :: wr <= k < mtfv.Length ==> mtfv[k] == s[k]
        decreases zPend
      {
        ghost var done := mtfv[..wr];
        RunDigitsStep(zPend + 1);
        if zPend % 2 == 1 {
          mtfv[wr] := RUNB;
        } else {
          mtfv[wr] := RUNA;
        }
        wr := wr + 1;
        assert mtfv[..wr] == done + [mtfv[wr - 1]];
        if zPend < 2 {
          RunDigitsStep(0);
          break;
        }
        zPend := (zPend - 2) / 2;
      }
    } else {
      RunDigitsStep(0);
    }
  }

  lemma RunDigitsStep(m: nat)
    ensures m == 0 ==> RunDigits(m) == []
    ensures m > 0 ==> RunDigits(m) == [if (m - 1) % 2 == 1 then RUNB else RUNA] + RunDigits((m - 1) / 2)
  {
  }

  /** Moves the entry `x` to the front of the list and tells where it was. */
  method MoveByteToFront(yy: array<int>, x: int, m: nat) returns (j: nat)
    requires 2 <= m <= yy.Length && x in yy[1..m]
    modifies yy
    ensures 1 <= j < m && old(yy[j]) == x
    ensures yy[..m] == MoveToFront(old(yy[..m]), j)
  {
    hide MoveToFront;
    ghost var s := yy[..];
    var rtmp := yy[1];
    yy[1] := yy[0];
    j := 1;
    while x != rtmp
      invariant 1 <= j < m && rtmp == s[j] && x in s[j..m]
      invariant forall k :: 1 <= k <= j ==> yy[k] == s[k - 1]
      invariant forall k :: j < k < yy.Length ==> yy[k] == s[k]
      decreases m - j
    {
      j := j + 1;
      var rtmp2 := rtmp;
      rtmp := yy[j];
      yy[j] := rtmp2;
    }
    yy[0] := rtmp;
    forall k | 0 <= k < m ensures yy[..m][k] == MoveToFront(s[..m], j)[k] {
      MovedUp(s[..m], j, k);
    }
  }

  /** Tells a pending run and then the place of an entry that is not at the front, and moves that entry there. */
  method WriteMove(mtfv: array<int>, yy: array<int>, at: nat, zPend: nat, x: int, m: nat)
    returns (wr: nat, ghost place: nat)
    requires mtfv != yy && at + zPend < mtfv.Length && 2 <= m <= yy.Length && x in yy[1..m]
    modifies mtfv, yy
    ensures 1 <= place < m && old(yy[place]) == x && yy[..m] == MoveToFront(old(yy[..m]), place)
    ensures wr <= at + zPend + 1 <= mtfv.Length && mtfv[..wr] == old(mtfv[..at]) + RunDigits(zPend) + [place + 1]
    ensures forall k :: wr <= k < mtfv.Length ==> mtfv[k] == old(mtfv[k])
  {
    hide MoveToFront, RunDigits;
    wr := WriteRun(mtfv, at, zPend);
    var j := MoveByteToFront(yy, x, m);
    place := j;
    ghost var told := mtfv[..wr];
    mtfv[wr] := j + 1;
    wr := wr + 1;
    assert mtfv[..wr] == told + [j + 1];
  }

  /** Entry `i` of the sort order, as the two halfwords that hold it. */
  function Ptr(arr1: seq<int>, i: nat): int
    requires 2 * i + 1 < |arr1|
  {
    arr1[2 * i] + 65536 * arr1[2 * i + 1]
  }

  /** The indices to code: the byte before each sorted rotation, renumbered. */
  ghost function Indices(arr1: seq<int>, block: seq<int>, unseqToSeq: seq<int>): (ll: seq<int>)
    requires |arr1| == 2 * |block| && |unseqToSeq| == 256 && Bytes(block)
    requires forall i :: 0 <= i < |block| ==> 0 <= Ptr(arr1, i) < |block|
    ensures |ll| == |block|
  {
    seq(|block|, i requires 0 <= i < |block| => BackBounds(Ptr(arr1, i), |block|); unseqToSeq[block[Back(Ptr(arr1, i), 1, |block|)]])
  }

  ghost function Identity(n: nat): (s: seq<int>)
    ensures |s| == n && forall i :: 0 <= i < n ==> s[i] == i
  {
    seq(n, i => i)
  }

  /** What the coding loop keeps: the symbols written, followed by those still to come, are the whole code. */
  ghost predicate Coding(written: seq<int>, ll: seq<int>, i: nat, yy: seq<int>, zPend: nat, all: seq<nat>) {
    && i <= |ll| && Distinct(yy) && yy != [] && (forall k :: 0 <= k < |ll| ==> ll[k] in yy)
    && written + Symbols(ll[i..], yy, zPend) == all
  }

  lemma CodingStart(ll: seq<int>, n: nat)
    requires n > 0 && forall k :: 0 <= k < |ll| ==> ll[k] in Identity(n)
    ensures Distinct(Identity(n)) && Coding([], ll, 0, Identity(n), 0, Symbols(ll, Identity(n), 0))
  {
    assert ll[0..] == ll;
  }

  lemma CodingRun(written: seq<int>, ll: seq<int>, i: nat, yy: seq<int>, zPend: nat, all: seq<nat>)
    requires Coding(written, ll, i, yy, zPend, all) && i < |ll| && ll[i] == yy[0]
    ensures Coding(written, ll, i + 1, yy, zPend + 1, all)
  {
    assert ll[i..][1..] == ll[i + 1..];
  }

  lemma CodingMove(written: seq<int>, ll: seq<int>, i: nat, yy: seq<int>, zPend: nat, all: seq<nat>, j: nat)
    requires Coding(written, ll, i, yy, zPend, all) && i < |ll| && ll[i] != yy[0] && j < |yy| && yy[j] == ll[i]
    ensures Coding(written + RunDigits(zPend) + [j + 1], ll, i + 1, MoveToFront(yy, j), 0, all)
  {
    hide MoveToFront, RunDigits;
    var rest, now := ll[i..], MoveToFront(yy, j);
    assert rest[1..] == ll[i + 1..];
    assert IndexOf(yy, rest[0]) == j;
    MoveKeeps(yy, j);
    assert Symbols(rest, yy, zPend) == RunDigits(zPend) + [j + 1] + Symbols(ll[i + 1..], now, 0);
    assert written + Symbols(rest, yy, zPend) == written + RunDigits(zPend) + [j + 1] + Symbols(ll[i + 1..], now, 0);
  }

  lemma CodingEnd(written: seq<int>, ll: seq<int>, yy: seq<int>, zPend: nat, all: seq<nat>)
    requires Coding(written, ll, |ll|, yy, zPend, all)
    ensures written + RunDigits(zPend) + [|yy| + 1] == all
  {
    assert ll[|ll|..] == [];
  }

  lemma CodingMember(written: seq<int>, ll: seq<int>, i: nat, yy: seq<int>, zPend: nat, all: seq<nat>)
    requires Coding(written, ll, i, yy, zPend, all) && i < |ll| && ll[i] != yy[0]
    ensures |yy| >= 2 && ll[i] in yy[1..]
  {
    var j := IndexOf(yy, ll[i]);
    assert yy[1..][j - 1] == ll[i];
  }

  /** The bytes the block uses get the indices below `nInUse`. */
  lemma IndicesInUse(arr1: seq<int>, block: seq<int>, inUse: seq<bool>, unseqToSeq: seq<int>, nInUse: nat)
    requires |arr1| == 2 * |block| && |unseqToSeq| == 256 && |inUse| == 256 && Bytes(block)
    requires forall i :: 0 <= i < |block| ==> 0 <= Ptr(arr1, i) < |block|
    requires forall i :: 0 <= i < |block| ==> inUse[block[i]]
    requires forall c :: 0 <= c < 256 && inUse[c] ==> unseqToSeq[c] == UsedBelow(inUse, c) < nInUse
    ensures forall k :: 0 <= k < |block| ==> Indices(arr1, block, unseqToSeq)[k] in Identity(nInUse)
  {
    var ll := Indices(arr1, block, unseqToSeq);
    forall k | 0 <= k < |block| ensures ll[k] in Identity(nInUse) {
      BackBounds(Ptr(arr1, k), |block|);
      assert Identity(nInUse)[ll[k]] == ll[k];
    }
  }

  method InitList(yy: array<int>, n: nat)
    requires n <= yy.Length
    modifies yy
    ensures yy[..n] == Identity(n)
  {
    var i := 0;
    while i < n
      invariant 0 <= i <= n && forall k :: 0 <= k < i ==> yy[k] == k
    {
      yy[i] := i;
      i := i + 1;
    }
  }

  /** The `i`-th index to code, as long as the sort order is intact from entry `i` on. */
  method IndexFor(arr1: array<int>, block: array<int>, unseqToSeq: array<int>, i: nat, ghost s: seq<int>)
    returns (ll_i: int)
    requires arr1.Length == |s| == 2 * block.Length && unseqToSeq.Length == 256 && Bytes(block[..]) && i < block.Length
    requires forall i :: 0 <= i < block.Length ==> 0 <= Ptr(s, i) < block.Length
    requires forall k :: 2 * i <= k < arr1.Length ==> arr1[k] == s[k]
    ensures ll_i == Indices(s, block[..], unseqToSeq[..])[i]
  {
    IndexAt(s, block[..], unseqToSeq[..], i);
    var j := arr1[2 * i] + 65536 * arr1[2 * i + 1] - 1;
    if j < 0 {
      j := j + block.Length;
    }
    ll_i := unseqToSeq[block[j]];
  }

  /** Codes the sorted block. The symbols overwrite, halfword by halfword, only sort-order entries already used. */
  method GenerateMtf(arr1: array<int>, block: array<int>, inUse: array<bool>, unseqToSeq: array<int>)
    returns (nInUse: nat, nMTF: nat)
    requires arr1.Length == 2 * block.Length && block.Length > 0 && inUse.Length == 256 && unseqToSeq.Length == 256
    requires arr1 != block && arr1 != unseqToSeq && block != unseqToSeq && Bytes(block[..])
    requires forall i :: 0 <= i < block.Length ==> 0 <= Ptr(arr1[..], i) < block.Length
    requires forall i :: 0 <= i < block.Length ==> inUse[block[i]]
    modifies arr1, unseqToSeq
    ensures 1 <= nInUse == UsedBelow(inUse[..], 256) <= 256
    ensures forall c :: 0 <= c < 256 && inUse[c] ==> unseqToSeq[c] == UsedBelow(inUse[..], c) < nInUse
    ensures Distinct(Identity(nInUse)) && nMTF <= block.Length + 1 <= arr1.Length
    ensures var ll := Indices(old(arr1[..]), block[..], unseqToSeq[..]);
      (forall k :: 0 <= k < |ll| ==> ll[k] in Identity(nInUse)) && arr1[..nMTF] == Symbols(ll, Identity(nInUse), 0)
  {
    hide Symbols, Coding, Indices, UsedBelow, RunDigits, MoveToFront, Ptr, Distinct, Identity, Back;
    ghost var s, b := arr1[..], block[..];
    var nblock := block.Length;
    nInUse := MakeMapsE(inUse, unseqToSeq);
    assert unseqToSeq[block[0]] < nInUse;
    ghost var q := unseqToSeq[..];
    ghost var ll := Indices(s, b, q);
    IndicesInUse(s, b, inUse[..], q, nInUse);
    CodingStart(ll, nInUse);
    ghost var all := Symbols(ll, Identity(nInUse), 0);
    var eob := nInUse + 1;
    var yy := new int[256];
    InitList(yy, nInUse);
    var wr: nat, zPend: nat := 0, 0;
    assert arr1[..0] == [];
    var i := 0;
    while i < nblock
      invariant i <= nblock && wr + zPend <= i
      invariant forall k :: 2 * i <= k < arr1.Length ==> arr1[k] == s[k]
      invariant Coding(arr1[..wr], ll, i, yy[..nInUse], zPend, all)
      modifies arr1, yy
    {
      assert block[..] == b && unseqToSeq[..] == q;
      var ll_i := IndexFor(arr1, block, unseqToSeq, i, s);
      if yy[0] == ll_i {
        CodingRun(arr1[..wr], ll, i, yy[..nInUse], zPend, all);
        zPend := zPend + 1;
      } else {
        CodingMember(arr1[..wr], ll, i, yy[..nInUse], zPend, all);
        ghost var w, y, was := arr1[..wr], yy[..nInUse], arr1[..];
        assert yy[1..nInUse] == y[1..];
        ghost var at;
        wr, at := WriteMove(arr1, yy, wr, zPend, ll_i, nInUse);
        assert arr1.Length == |was| && forall k :: wr <= k < |was| ==> arr1[k] == was[k];
        CodingMove(w, ll, i, y, zPend, all, at);
        zPend := 0;
      }
      i := i + 1;
    }
    CodingEnd(arr1[..wr], ll, yy[..nInUse], zPend, all);
    wr := WriteRun(arr1, wr, zPend);
    arr1[wr] := eob;
    assert arr1[..wr + 1] == arr1[..wr] + [eob];
    nMTF := wr + 1;
    assert block[..] == b && unseqToSeq[..] == q;
  }

  lemma IndexAt(arr1: seq<int>, block: seq<int>, unseqToSeq: seq<int>, i: nat)
    requires |arr1| == 2 * |block| && |unseqToSeq| == 256 && Bytes(block) && i < |block|
    requires forall i :: 0 <= i < |block| ==> 0 <= Ptr(arr1, i) < |block|
    ensures 0 <= Back(Ptr(arr1, i), 1, |block|) < |block|
    ensures Indices(arr1, block, unseqToSeq)[i] == unseqToSeq[block[Back(Ptr(arr1, i), 1, |block|)]]
  {
    BackBounds(Ptr(arr1, i), |block|);
  }

  // ---------- the decoder in place ----------

  lemma ReadRunStep(syms: seq<nat>, weight: nat)
    ensures syms == [] ==> ReadRun(syms, weight) == ShortRun
    ensures syms != [] && syms[0] > RUNB ==> ReadRun(syms, weight) == Run(0, syms)
    ensures syms != [] && syms[0] <= RUNB && weight >= MAX_RUN_WEIGHT ==> ReadRun(syms, weight) == BadRun
    ensures syms != [] && syms[0] <= RUNB && weight < MAX_RUN_WEIGHT ==>
      ReadRun(syms, weight) == Plus((syms[0] + 1) * weight, ReadRun(syms[1..], 2 * weight))
  {
  }

  /** Reads the run that starts at symbol `at`; there is none when the weight runs over or the symbols run out. */
  method TakeRun(syms: seq<nat>, at: nat) returns (r: Received<nat>, next: nat)
    requires at < |syms| && syms[at] <= RUNB
    ensures r.Received? ==> next <= |syms| && ReadRun(syms[at..], 1) == Run(r.value, syms[next..])
    ensures r.Stopped? <==> !ReadRun(syms[at..], 1).Run?
    ensures r.Stopped? ==> r.why == if ReadRun(syms[at..], 1).ShortRun? then NeedInput else DataError
  {
    hide ReadRun;
    var es: int, N: nat := -1, 1;
    next := at;
    while next < |syms| && syms[next] <= RUNB
      invariant at <= next <= |syms| && N >= 1 && es >= -1
      invariant ReadRun(syms[at..], 1) == Plus(es + 1, ReadRun(syms[next..], N))
    {
      ReadRunStep(syms[next..], N);
      if N >= MAX_RUN_WEIGHT {
        return Stopped(DataError), next;
      }
      assert syms[next..][1..] == syms[next + 1..];
      if syms[next] == RUNA {
        es := es + (0 + 1) * N;
      } else {
        es := es + (1 + 1) * N;
      }
      N := N * 2;
      next := next + 1;
    }
    ReadRunStep(syms[next..], N);
    if next == |syms| {
      return Stopped(NeedInput), next;
    }
    es := es + 1;
    return Received(es), next;
  }

  /** Appends `es` copies of a byte to the column, unless there is no room for them. */
  method PutRun(tt: array<int>, nblock: nat, nblockMAX: nat, uc: int, es: nat) returns (ok: bool)
    requires nblock <= nblockMAX <= tt.Length
    modifies tt
    ensures ok <==> es <= nblockMAX - nblock
    ensures ok ==> tt[..nblock + es] == old(tt[..nblock]) + Repeat(uc, es)
  {
    var left, n := es, nblock;
    ghost var s := tt[..nblock];
    while left > 0
      invariant 0 <= left <= es && n == nblock + es - left <= nblockMAX
      invariant tt[..nblock] == s && forall k :: nblock <= k < n ==> tt[k] == uc
    {
      if n >= nblockMAX {
        return false;
      }
      tt[n] := uc;
      n := n + 1;
      left := left - 1;
    }
    return true;
  }

  lemma {:induction false} CountRepeat(s: seq<int>, x: int, n: nat, c: int)
    ensures Count(s + Repeat(x, n), c) == Count(s, c) + (if x == c then n else 0)
    decreases n
  {
    if n == 0 {
      assert s + Repeat(x, 0) == s;
    } else {
      CountRepeat(s, x, n - 1, c);
      assert s + Repeat(x, n) == (s + Repeat(x, n - 1)) + [x];
      LessPush(s + Repeat(x, n - 1), x, c);
      LessPush(s + Repeat(x, n - 1), x, c + 1);
    }
  }

  /** The bytes that the indices in `out` stand for. */
  ghost function Renamed(out: seq<int>, seqToUnseq: seq<int>): (s: seq<int>)
    requires |seqToUnseq| == 256 && Bytes(out)
    ensures |s| == |out|
  {
    seq(|out|, i requires 0 <= i < |out| => seqToUnseq[out[i]])
  }

  /** How far the decoder has come: `out` is decoded, the rest of the symbols and the list decide what follows. */
  ghost predicate Decoding(syms: seq<nat>, eob: nat, room: nat, k: nat, list: seq<int>, out: seq<int>, all: Decoded) {
    && k <= |syms| && |out| <= room && Bytes(out) && |list| == 256 && Bytes(list)
    && all == Prepend(out, Decode(syms[k..], list, eob, room - |out|))
  }

  lemma PrependTwice(s: seq<int>, t: seq<int>, d: Decoded)
    ensures Prepend(s, Prepend(t, d)) == Prepend(s + t, d)
  {
    match d
    case Fail | Short =>
    case Done(out) => assert s + (t + out) == s + t + out;
  }

  lemma DecodingRun(syms: seq<nat>, eob: nat, room: nat, k: nat, list: seq<int>, out: seq<int>, all: Decoded, es: nat,
          next: nat)
    requires Decoding(syms, eob, room, k, list, out, all) && eob > RUNB && k < |syms| && syms[k] <= RUNB
    requires next <= |syms| && ReadRun(syms[k..], 1) == Run(es, syms[next..])
    ensures es > room - |out| ==> all == Fail
    ensures es <= room - |out| ==> Decoding(syms, eob, room, next, list, out + Repeat(list[0], es), all)
    ensures next > k
  {
    RunShortens(syms[k..], 1);
    if es <= room - |out| {
      PrependTwice(out, Repeat(list[0], es), Decode(syms[next..], list, eob, room - |out| - es));
    }
  }

  lemma DecodingMove(syms: seq<nat>, eob: nat, room: nat, k: nat, list: seq<int>, out: seq<int>, all: Decoded)
    requires Decoding(syms, eob, room, k, list, out, all) && k < |syms| && RUNB < syms[k] < eob <= 257
    ensures |out| == room ==> all == Fail
    ensures |out| < room ==> Decoding(syms, eob, room, k + 1, MoveToFront(list, syms[k] - 1), out + [list[syms[k] - 1]], all)
  {
    hide MoveToFront;
    var nn := syms[k] - 1;
    assert syms[k..][1..] == syms[k + 1..];
    if |out| < room {
      forall i | 0 <= i < 256 ensures 0 <= MoveToFront(list, nn)[i] < 256 {
        MovedUp(list, nn, i);
      }
      PrependTwice(out, [list[nn]], Decode(syms[k + 1..], MoveToFront(list, nn), eob, room - |out| - 1));
    }
  }

  lemma DecodingEnds(syms: seq<nat>, eob: nat, room: nat, k: nat, list: seq<int>, out: seq<int>, all: Decoded)
    requires Decoding(syms, eob, room, k, list, out, all)
    ensures k == |syms| ==> all == Short
    ensures k < |syms| && syms[k] == eob ==> all == Done(out)
    ensures k < |syms| && syms[k] <= RUNB && syms[k] != eob && ReadRun(syms[k..], 1).BadRun? ==> all == Fail
    ensures k < |syms| && syms[k] <= RUNB && syms[k] != eob && ReadRun(syms[k..], 1).ShortRun? ==> all == Short
  {
    assert out + [] == out;
  }

  /** What the decoder keeps between symbols: the column so far and how often each byte occurs in it. */
  ghost predicate Filled(tt: seq<int>, unzftab: seq<int>, seqToUnseq: seq<int>, out: seq<int>) {
    && |seqToUnseq| == 256 && Bytes(out) && |out| <= |tt| && |unzftab| == 256
    && tt[..|out|] == Renamed(out, seqToUnseq)
    && forall c :: 0 <= c < 256 ==> unzftab[c] == Count(tt[..|out|], c)
  }

  lemma FilledRun(tt: seq<int>, tt': seq<int>, unz: seq<int>, unz': seq<int>, names: seq<int>, out: seq<int>, x: int,
          n: nat)
    requires Filled(tt, unz, names, out) && 0 <= x < 256 && Bytes(names)
    requires |out| + n <= |tt'| && tt'[..|out| + n] == tt[..|out|] + Repeat(names[x], n)
    requires unz' == unz[names[x] := unz[names[x]] + n]
    ensures Filled(tt', unz', names, out + Repeat(x, n))
  {
    hide Count;
    var out' := out + Repeat(x, n);
    assert tt'[..|out'|] == Renamed(out', names);
    forall c | 0 <= c < 256 ensures unz'[c] == Count(tt'[..|out'|], c) {
      CountRepeat(tt[..|out|], names[x], n, c);
    }
  }

  method ClearCounts(unzftab: array<int>)
    requires unzftab.Length == 256
    modifies unzftab
    ensures forall c :: 0 <= c < 256 ==> unzftab[c] == 0
  {
    var i := 0;
    while i <= 255
      invariant 0 <= i <= 256 && forall c :: 0 <= c < i ==> unzftab[c] == 0
    {
      unzftab[i] := 0;
      i := i + 1;
    }
  }

  /** Puts `es` times the byte that the front of the list stands for into the column. */
  method PutFront(mtf: MtfList, seqToUnseq: array<int>, tt: array<int>, unzftab: array<int>, nblock: nat,
          nblockMAX: nat,
          es: nat, ghost out: seq<int>)
    returns (ok: bool)
    requires mtf.Valid() && Bytes(mtf.List()) && nblock == |out| <= nblockMAX <= tt.Length && Bytes(seqToUnseq[..])
    requires tt != unzftab && tt != seqToUnseq && unzftab != seqToUnseq && mtf.mtfa !in {tt, unzftab}
    requires mtf.mtfbase !in {tt, unzftab}
    requires Filled(tt[..], unzftab[..], seqToUnseq[..], out)
    modifies tt, unzftab
    ensures ok <==> es <= nblockMAX - nblock
    ensures ok ==> Filled(tt[..], unzftab[..], seqToUnseq[..], out + Repeat(mtf.List()[0], es))
  {
    hide Filled, Repeat;
    ghost var was, unz, names := tt[..], unzftab[..], seqToUnseq[..];
    var front := mtf.Front();
    FilledSizes(was, unz, names, out);
    var uc := seqToUnseq[front];
    assert uc == names[front];
    unzftab[uc] := unzftab[uc] + es;
    ok := PutRun(tt, nblock, nblockMAX, uc, es);
    assert seqToUnseq[..] == names;
    if ok {
      FilledRun(was, tt[..], unz, unzftab[..], names, out, front, es);
    }
  }

  /** Puts the byte that entry `nn` of the list stands for into the column and moves the entry to the front. */
  method PutEntry(mtf: MtfList, seqToUnseq: array<int>, tt: array<int>, unzftab: array<int>, nblock: nat, nn: nat,
          ghost out: seq<int>)
    returns (uc: int)
    requires mtf.Valid() && Bytes(mtf.List()) && nblock == |out| < tt.Length && Bytes(seqToUnseq[..])
    requires nn < MTFL_SIZE * SEGMENTS
    requires tt != unzftab && tt != seqToUnseq && unzftab != seqToUnseq
    requires mtf.mtfa !in {tt, unzftab, seqToUnseq} && mtf.mtfbase !in {tt, unzftab, seqToUnseq}
    requires Filled(tt[..], unzftab[..], seqToUnseq[..], out)
    modifies tt, unzftab, mtf.mtfa, mtf.mtfbase
    ensures mtf.Valid() && uc == old(mtf.List())[nn] && mtf.List() == MoveToFront(old(mtf.List()), nn)
    ensures Filled(tt[..], unzftab[..], seqToUnseq[..], out + [uc])
  {
    hide Filled, MoveToFront;
    ghost var was, unz, names := tt[..], unzftab[..], seqToUnseq[..];
    uc := mtf.Decode(nn);
    FilledSizes(was, unz, names, out);
    var name := seqToUnseq[uc];
    assert name == names[uc];
    unzftab[name] := unzftab[name] + 1;
    tt[nblock] := name;
    assert seqToUnseq[..] == names;
    FilledOne(was, tt[..], unz, unzftab[..], names, out, uc);
  }

  /**
   * Decodes symbols up to end-of-block into the column, with room for `nblockMAX` bytes, and counts each byte.
   * The result is the column's length.
   */
  method DecodeColumn(syms: seq<nat>, eob: nat, seqToUnseq: array<int>, nblockMAX: nat, tt: array<int>,
          unzftab: array<int>)
    returns (r: Received<nat>)
    requires RUNB < eob <= 257 && forall k :: 0 <= k < |syms| ==> syms[k] <= eob
    requires seqToUnseq.Length == 256 && Bytes(seqToUnseq[..]) && unzftab.Length == 256 && nblockMAX <= tt.Length
    requires tt != unzftab && tt != seqToUnseq && unzftab != seqToUnseq
    modifies tt, unzftab
    ensures var d := Decode(syms, Identity(256), eob, nblockMAX);
      match d
      case Fail => r == Stopped(DataError)
      case Short => r == Stopped(NeedInput)
      case Done(out) => r == Received(|out|) && |out| <= nblockMAX && Bytes(out) && Filled(tt[..], unzftab[..], seqToUnseq[..], out)
  {
    hide Decoding, Filled, Decode, ReadRun, MoveToFront, Repeat, ListOf, Placed;
    ghost var all, names := Decode(syms, Identity(256), eob, nblockMAX), seqToUnseq[..];
    ClearCounts(unzftab);
    var mtf := new MtfList();
    var nblock := 0;
    ghost var out: seq<int> := [];
    DecodingStart(syms, eob, nblockMAX);
    FilledStart(tt[..], unzftab[..], names);
    assert mtf.List() == Identity(256);
    var k := 0;
    while k < |syms| && syms[k] != eob
      invariant 0 <= k <= |syms| && nblock == |out| <= nblockMAX && mtf.Valid()
      invariant fresh(mtf.mtfa) && fresh(mtf.mtfbase) 
      invariant Decoding(syms, eob, nblockMAX, k, mtf.List(), out, all)
      invariant Filled(tt[..], unzftab[..], names, out) && seqToUnseq[..] == names
    {
      DecodingEnds(syms, eob, nblockMAX, k, mtf.List(), out, all);
      DecodingBounds(syms, eob, nblockMAX, k, mtf.List(), out, all);
      ghost var list := mtf.List();
      if syms[k] <= RUNB {
        var run, next := TakeRun(syms, k);
        if run.Stopped? {
          return run;
        }
        var es := run.value;
        DecodingRun(syms, eob, nblockMAX, k, list, out, all, es, next);
        var ok := PutFront(mtf, seqToUnseq, tt, unzftab, nblock, nblockMAX, es, out);
        if !ok {
          return Stopped(DataError);
        }
        out := out + Repeat(list[0], es);
        nblock := nblock + es;
        k := next;
      } else {
        DecodingMove(syms, eob, nblockMAX, k, list, out, all);
        if nblock >= nblockMAX {
          return Stopped(DataError);
        }
        var uc := PutEntry(mtf, seqToUnseq, tt, unzftab, nblock, syms[k] - 1, out);
        out := out + [uc];
        nblock := nblock + 1;
        k := k + 1;
      }
    }
    DecodingEnds(syms, eob, nblockMAX, k, mtf.List(), out, all);
    DecodingBounds(syms, eob, nblockMAX, k, mtf.List(), out, all);
    return if k == |syms| then Stopped(NeedInput) else Received(nblock);
  }

  lemma DecodingStart(syms: seq<nat>, eob: nat, room: nat)
    ensures Decoding(syms, eob, room, 0, Identity(256), [], Decode(syms, Identity(256), eob, room))
  {
    hide Decode;
    assert syms[0..] == syms;
    match Decode(syms, Identity(256), eob, room)
    case Fail | Short =>
    case Done(out) => assert [] + out == out;
  }

  lemma FilledStart(tt: seq<int>, unzftab: seq<int>, names: seq<int>)
    requires |unzftab| == 256 && |names| == 256 && forall c :: 0 <= c < 256 ==> unzftab[c] == 0
    ensures Filled(tt, unzftab, names, [])
  {
    assert tt[..0] == [];
    CountNone(tt);
  }

  lemma FilledOne(tt: seq<int>, tt': seq<int>, unz: seq<int>, unz': seq<int>, names: seq<int>, out: seq<int>, x: int)
    requires Filled(tt, unz, names, out) && 0 <= x < 256 && Bytes(names)
    requires |out| < |tt| && tt' == tt[|out| := names[x]] && unz' == unz[names[x] := unz[names[x]] + 1]
    ensures Filled(tt', unz', names, out + [x])
  {
    assert Repeat(x, 1) == [x];
    assert tt'[..|out| + 1] == tt[..|out|] + Repeat(names[x], 1);
    FilledRun(tt, tt', unz, unz', names, out, x, 1);
  }

  lemma FilledSizes(tt: seq<int>, unz: seq<int>, names: seq<int>, out: seq<int>)
    requires Filled(tt, unz, names, out)
    ensures |names| == 256 == |unz| && |out| <= |tt|
  {
  }

  lemma DecodingBounds(syms: seq<nat>, eob: nat, room: nat, k: nat, list: seq<int>, out: seq<int>, all: Decoded)
    requires Decoding(syms, eob, room, k, list, out, all)
    ensures |list| == 256 && Bytes(list) && Bytes(out) && |out| <= room
  {
  }
}
