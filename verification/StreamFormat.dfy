/** A whole compressed stream: its header, its blocks and its trailer. */
module StreamFormat {
  import opened BitStream
  import opened BlockCodec
  import opened BlockCrc
  import opened ByteStrings
  import opened RunLength

  const HEADER: seq<nat> := [0x42, 0x5A, 0x68]
  const HDR_0 := 0x30
  const END_MAGIC: seq<nat> := [0x17, 0x72, 0x45, 0x38, 0x50, 0x90]

  /** A finished block: its packed bytes, the checksum of what it stands for, what its bits say, and its sorted rotations. */
  datatype Sealed = Sealed(block: seq<int>, crc: Checksum, info: BlockInfo, perm: seq<int>)

  /** The bytes that the finished blocks stand for. */
  ghost function Restored(finished: seq<Sealed>): seq<int> {
    if finished == [] then [] else Restored(finished[..|finished| - 1]) + Expand(finished[|finished| - 1].block)
  }

  ghost function Combined(finished: seq<Sealed>): Checksum {
    if finished == [] then Checksum(0) else Combine(Combined(finished[..|finished| - 1]), finished[|finished| - 1].crc)
  }

  /** The block can be unpacked, has room for the sort, carries the checksum of what it stands for, and is what its bits say. */
  ghost predicate WellSealed(f: Sealed, blockSize100k: nat) {
    && WellPacked(f.block) && Bytes(f.block) && Bytes(Expand(f.block)) && 0 < |f.block| <= 100000 * blockSize100k - 10
    && f.crc == Finalise(Crc(Expand(f.block)))
    && InfoOk(f.info) && Describes(f.info, f.block, f.perm) && f.info.crc == f.crc
  }

  ghost predicate AllSealed(finished: seq<Sealed>, blockSize100k: nat) {
    forall i :: 0 <= i < |finished| ==> WellSealed(finished[i], blockSize100k)
  }

  lemma SealOne(finished: seq<Sealed>, blockSize100k: nat, s: Sealed)
    requires AllSealed(finished, blockSize100k) && WellSealed(s, blockSize100k)
    ensures AllSealed(finished + [s], blockSize100k)
    ensures Restored(finished + [s]) == Restored(finished) + Expand(s.block)
    ensures Combined(finished + [s]) == Combine(Combined(finished), s.crc)
  {
    hide Expand, WellSealed, Combine;
    assert (finished + [s])[..|finished|] == finished;
  }

  ghost predicate InfosOk(finished: seq<Sealed>) {
    forall i :: 0 <= i < |finished| ==> InfoOk(finished[i].info)
  }

  ghost function HeaderBits(blockSize100k: nat): seq<bool> {
    ByteBits(HEADER + [HDR_0 + blockSize100k])
  }

  /** The bits of the blocks from block `k` on. */
  ghost function BlocksFrom(finished: seq<Sealed>, k: nat): seq<bool>
    requires k <= |finished| && InfosOk(finished)
    decreases |finished| - k
  {
    if k == |finished| then [] else BlockBits(finished[k].info) + BlocksFrom(finished, k + 1)
  }

  lemma {:induction false} BlocksPush(finished: seq<Sealed>, s: Sealed, k: nat)
    requires k <= |finished| && InfosOk(finished) && InfoOk(s.info)
    ensures InfosOk(finished + [s]) && BlocksFrom(finished + [s], k) == BlocksFrom(finished, k) + BlockBits(s.info)
    decreases |finished| - k
  {
    hide InfoOk, BlockBits;
    var f := finished + [s];
    assert InfosOk(f);
    if k == |finished| {
      assert f[k] == s;
      assert BlocksFrom(f, k + 1) == [];
      assert BlockBits(s.info) + [] == [] + BlockBits(s.info);
    } else {
      BlocksPush(finished, s, k + 1);
      assert f[k] == finished[k];
      assert BlockBits(f[k].info) + (BlocksFrom(finished, k + 1) + BlockBits(s.info))
        == BlockBits(f[k].info) + BlocksFrom(finished, k + 1) + BlockBits(s.info);
    }
  }

  ghost function TrailerBits(combined: Checksum): seq<bool> {
    ByteBits(END_MAGIC) + ByteBits(WordBytes(combined))
  }

  /** The bits of a stream, but for the zeros that fill the last byte. */
  ghost function StreamBits(finished: seq<Sealed>, blockSize100k: nat): seq<bool>
    requires InfosOk(finished)
  {
    HeaderBits(blockSize100k) + BlocksFrom(finished, 0) + TrailerBits(Combined(finished))
  }
}
