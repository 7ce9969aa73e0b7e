/** Run-length packing ahead of the block sort: four equal bytes are followed by a count of further ones. */
module RunLength {
  import opened ByteStrings

  datatype Run = Run(ch: int, len: nat)

  /** How a run is packed. */
  function PackRun(r: Run): seq<int> {
    if r.len < 4 then Repeat(r.ch, r.len) else Repeat(r.ch, 4) + [r.len - 4]
  }

  function Pack(runs: seq<Run>): seq<int> {
    if runs == [] then [] else PackRun(runs[0]) + Pack(runs[1..])
  }

  /** The bytes of the runs. */
  function Plain(runs: seq<Run>): seq<int> {
    if runs == [] then [] else Repeat(runs[0].ch, runs[0].len) + Plain(runs[1..])
  }

  predicate FourEqual(b: seq<int>) {
    |b| >= 4 && b[0] == b[1] == b[2] == b[3]
  }

  /** Every four equal bytes have their count. */
  predicate WellPacked(b: seq<int>) {
    if b == [] then true
    else if FourEqual(b) then |b| > 4 && WellPacked(b[5..])
    else WellPacked(b[1..])
  }

  /** What a packed string stands for. */
  function Expand(b: seq<int>): seq<int> {
    if b == [] then []
    else if FourEqual(b) && |b| > 4 then Repeat(b[0], if b[4] >= 0 then 4 + b[4] else 0) + Expand(b[5..])
    else [b[0]] + Expand(b[1..])
  }

  /** Bytes stand for bytes. */
  lemma {:induction false} ExpandedBytes(b: seq<int>)
    requires Bytes(b)
    ensures Bytes(Expand(b))
  {
    if b != [] {
      if FourEqual(b) && |b| > 4 {
        ExpandedBytes(b[5..]);
      } else {
        ExpandedBytes(b[1..]);
      }
    }
  }

  lemma {:induction false} PackPush(runs: seq<Run>, r: Run)
    ensures Pack(runs + [r]) == Pack(runs) + PackRun(r)
    ensures Plain(runs + [r]) == Plain(runs) + Repeat(r.ch, r.len)
  {
    hide PackRun, Repeat;
    if runs == [] {
      assert runs + [r] == [r];
      assert [r][1..] == [];
      assert PackRun(r) + [] == PackRun(r) && Repeat(r.ch, r.len) + [] == Repeat(r.ch, r.len);
    } else {
      PackPush(runs[1..], r);
      assert (runs + [r])[1..] == runs[1..] + [r];
      Associate(PackRun(runs[0]), Pack(runs[1..]), PackRun(r));
      Associate(Repeat(runs[0].ch, runs[0].len), Plain(runs[1..]), Repeat(r.ch, r.len));
    }
  }

  lemma Associate(a: seq<int>, b: seq<int>, c: seq<int>)
    ensures a + (b + c) == a + b + c
  {
  }

  /** Runs of bytes, one to 255 long, as long as they can be: the same byte goes on in a new run only after 255 of them. */
  ghost predicate Runs(runs: seq<Run>) {
    && (forall i :: 0 <= i < |runs| ==> 0 <= runs[i].ch < 256 && 1 <= runs[i].len <= 255)
    && forall i, j :: 0 <= i && j == i + 1 && j < |runs| ==> runs[i].len == 255 || runs[i].ch != runs[j].ch
  }

  lemma RunsTail(runs: seq<Run>)
    requires Runs(runs) && runs != []
    ensures Runs(runs[1..])
  {
    var t := runs[1..];
    forall i, j | 0 <= i && j == i + 1 && j < |t| ensures t[i].len == 255 || t[i].ch != t[j].ch {
      assert t[i] == runs[j] && t[j] == runs[j + 1];
    }
  }

  lemma RunsPush(runs: seq<Run>, r: Run)
    requires Runs(runs) && 0 <= r.ch < 256 && 1 <= r.len <= 255
    requires runs != [] ==> runs[|runs| - 1].len == 255 || runs[|runs| - 1].ch != r.ch
    ensures Runs(runs + [r])
  {
  }

  /** The first byte of packed runs is the first run's. */
  lemma PackFirst(runs: seq<Run>)
    requires Runs(runs) && runs != []
    ensures Pack(runs) != [] && Pack(runs)[0] == runs[0].ch
  {
    assert PackRun(runs[0]) != [] && PackRun(runs[0])[0] == runs[0].ch;
  }

  /** A short run in front of anything that does not go on with its byte. */
  lemma {:induction false} ShortRun(x: int, n: nat, rest: seq<int>)
    requires n < 4 && (rest == [] || rest[0] != x)
    ensures WellPacked(Repeat(x, n) + rest) == WellPacked(rest)
    ensures Expand(Repeat(x, n) + rest) == Repeat(x, n) + Expand(rest)
    decreases n
  {
    hide Expand, WellPacked, FourEqual;
    var b := Repeat(x, n) + rest;
    if n == 0 {
      assert b == rest;
    } else {
      ShortRun(x, n - 1, rest);
      NotFour(x, n, rest);
      TakeOne(b);
      assert b[1..] == Repeat(x, n - 1) + rest;
      assert [x] + (Repeat(x, n - 1) + Expand(rest)) == Repeat(x, n) + Expand(rest);
    }
  }

  lemma NotFour(x: int, n: nat, rest: seq<int>)
    requires 1 <= n < 4 && (rest == [] || rest[0] != x)
    ensures !FourEqual(Repeat(x, n) + rest)
  {
    var b := Repeat(x, n) + rest;
    if n < |b| {
      assert b[n] == rest[0];
    }
  }

  lemma TakeOne(b: seq<int>)
    requires b != [] && !FourEqual(b)
    ensures WellPacked(b) == WellPacked(b[1..]) && Expand(b) == [b[0]] + Expand(b[1..])
  {
  }

  lemma LongRun(x: int, count: nat, rest: seq<int>)
    ensures WellPacked(Repeat(x, 4) + [count] + rest) == WellPacked(rest)
    ensures Expand(Repeat(x, 4) + [count] + rest) == Repeat(x, 4 + count) + Expand(rest)
  {
    var b := Repeat(x, 4) + [count] + rest;
    assert FourEqual(b) && b[4] == count && b[5..] == rest;
  }

  /** Packed runs are well packed and stand for the bytes of the runs. */
  lemma {:induction false} PackedExpands(runs: seq<Run>)
    requires Runs(runs)
    ensures WellPacked(Pack(runs)) && Expand(Pack(runs)) == Plain(runs)
    decreases |runs|
  {
    hide Expand, WellPacked, Runs;
    if runs == [] {
      NothingPacked();
    } else {
      var r, rest := runs[0], Pack(runs[1..]);
      RunsTail(runs);
      PackedExpands(runs[1..]);
      if r.len < 4 {
        if runs[1..] != [] {
          PackFirst(runs[1..]);
          RunsDiffer(runs);
        }
        ShortRun(r.ch, r.len, rest);
      } else {
        assert PackRun(r) + rest == Repeat(r.ch, 4) + [r.len - 4] + rest;
        LongRun(r.ch, r.len - 4, rest);
      }
    }
  }

  lemma RunsDiffer(runs: seq<Run>)
    requires Runs(runs) && |runs| > 1 && runs[0].len < 4
    ensures runs[1].ch != runs[0].ch
  {
  }

  lemma NothingPacked()
    ensures WellPacked([]) && Expand([]) == []
  {
  }

  // ---------- packing is determined by the bytes ----------

  /** How many bytes `x` a string begins with, up to `cap`. */
  function Lead(s: seq<int>, x: int, cap: nat): (n: nat)
    ensures n <= |s|
    decreases |s|
  {
    if s == [] || cap == 0 || s[0] != x then 0 else 1 + Lead(s[1..], x, cap - 1)
  }

  /** A string cut into runs, each as long as it can be, but for the limit of 255. */
  function Cut(s: seq<int>): seq<Run>
    decreases |s|
  {
    if s == [] then [] else
      var n := Lead(s, s[0], 255);
      [Run(s[0], n)] + Cut(s[n..])
  }

  lemma {:induction false} LeadOf(x: int, n: nat, rest: seq<int>, cap: nat)
    requires n <= cap && (n == cap || rest == [] || rest[0] != x)
    ensures Lead(Repeat(x, n) + rest, x, cap) == n
    decreases n
  {
    if n == 0 {
      assert Repeat(x, n) + rest == rest;
    } else {
      assert (Repeat(x, n) + rest)[1..] == Repeat(x, n - 1) + rest;
      LeadOf(x, n - 1, rest, cap - 1);
    }
  }

  /** There is just one way to cut a string into such runs. */
  lemma {:induction false} CutPlain(runs: seq<Run>)
    requires Runs(runs)
    ensures Cut(Plain(runs)) == runs
    decreases |runs|
  {
    if runs != [] {
      var r, rest := runs[0], Plain(runs[1..]);
      RunsTail(runs);
      CutPlain(runs[1..]);
      var s := Repeat(r.ch, r.len) + rest;
      assert s[0] == r.ch && s[r.len..] == rest;
      if |runs| > 1 {
        assert rest == Repeat(runs[1].ch, runs[1].len) + Plain(runs[1..][1..]);
        assert rest[0] == runs[1].ch;
      }
      LeadOf(r.ch, r.len, rest, 255);
    }
  }

  // ---------- how far unpacking has come ----------

  /**
   * With `used` bytes of block `b` looked at, the last of them not yet taken, and `pending` bytes owed, `out` has been
   * delivered. One byte more than the block and its successor has been looked at only if a count was missing.
   */
  ghost predicate Unrolled(b: seq<int>, used: nat, pending: seq<int>, out: seq<int>) {
    && 1 <= used <= |b| + 2
    && (used == |b| + 2 ==> !WellPacked(b))
    && (used <= |b| + 1 ==> WellPacked(b) == WellPacked(b[used - 1..]))
    && (used <= |b| + 1 && WellPacked(b) ==> out + pending + Expand(b[used - 1..]) == Expand(b))
  }

  /** The run that starts at the byte looked at last: `n` copies, and the byte after them differs or there is none. */
  lemma StartShort(b: seq<int>, used: nat, n: nat, out: seq<int>)
    requires Unrolled(b, used, [], out) && 1 <= n < 4 && used - 1 + n <= |b|
    requires b[used - 1..used - 1 + n] == Repeat(b[used - 1], n)
    requires used - 1 + n == |b| || b[used - 1 + n] != b[used - 1]
    ensures Unrolled(b, used + n, Repeat(b[used - 1], n), out)
  {
    hide Expand, WellPacked;
    var rest := b[used - 1 + n..];
    assert b[used - 1..] == Repeat(b[used - 1], n) + rest;
    ShortRun(b[used - 1], n, rest);
    assert out + [] + (Repeat(b[used - 1], n) + Expand(rest)) == out + Repeat(b[used - 1], n) + Expand(rest);
  }

  /** Four equal bytes: with their count a long run; without one the block is not well packed. */
  lemma StartLong(b: seq<int>, used: nat, out: seq<int>)
    requires Unrolled(b, used, [], out) && used + 3 <= |b| && FourEqual(b[used - 1..])
    ensures used + 3 < |b| && b[used + 3] >= 0 ==> Unrolled(b, used + 5, Repeat(b[used - 1], 4 + b[used + 3]), out)
    ensures used + 3 == |b| ==> !WellPacked(b)
  {
    hide Expand, WellPacked;
    var s, x := b[used - 1..], b[used - 1];
    if used + 3 == |b| {
      CountMissing(s);
    } else if b[used + 3] >= 0 {
      var c, rest := b[used + 3], b[used + 4..];
      assert s == Repeat(x, 4) + [c] + rest;
      LongRun(x, c, rest);
      assert out + [] + (Repeat(x, 4 + c) + Expand(rest)) == out + Repeat(x, 4 + c) + Expand(rest);
    }
  }

  lemma CountMissing(s: seq<int>)
    requires FourEqual(s) && |s| == 4
    ensures !WellPacked(s)
  {
  }

  /** Delivering one byte of what is owed. */
  lemma DeliverOne(b: seq<int>, used: nat, x: int, n: nat, out: seq<int>)
    requires Unrolled(b, used, Repeat(x, n + 1), out)
    ensures Unrolled(b, used, Repeat(x, n), out + [x])
  {
    hide Expand, WellPacked;
    assert Repeat(x, n + 1) == [x] + Repeat(x, n);
    if used <= |b| + 1 {
      assert out + Repeat(x, n + 1) + Expand(b[used - 1..]) == out + [x] + Repeat(x, n) + Expand(b[used - 1..]);
    }
  }

  lemma AllDelivered(b: seq<int>, out: seq<int>)
    requires Unrolled(b, |b| + 1, [], out)
    ensures WellPacked(b) && out == Expand(b)
  {
    assert b[|b|..] == [];
  }
}
