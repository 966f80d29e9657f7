// The on-disk format: filesystem.h, and the slot macros of block.h.
module Layout {
  const BLOCKSIZE := 512
  const INODESIZE := 64
  const NUM_DIRECT := 12
  const ROOTINODE := 1
  const INTS_PER_BLOCK := 128
  const MAX_BLOCKS := 140               // NUM_DIRECT plus one full indirect block

  const INODE_FREE := 0
  const INODE_DIRECTORY := 1
  const INODE_REGULAR := 2
  const INODE_SYMLINK := 3

  type Byte = b: int | 0 <= b < 256
  type Int16 = n: int | -0x8000 <= n < 0x8000
  type Int32 = n: int | -0x8000_0000 <= n < 0x8000_0000
  type Block = s: seq<Byte> | |s| == BLOCKSIZE witness seq(BLOCKSIZE, _ => 0)
  type Direct = s: seq<Int32> | |s| == NUM_DIRECT witness seq(NUM_DIRECT, _ => 0)

  function ZeroBlock(): Block {
    seq(BLOCKSIZE, _ => 0)
  }

  datatype Inode = Inode(kind: Int16, nlink: Int16, reuse: Int32, size: Int32, direct: Direct, indirect: Int32)

  // Machine integers: two's complement, least significant byte first.
  function Encode16(n: Int16): (s: seq<Byte>)
    ensures |s| == 2
  {
    var u := n % 0x1_0000;
    [u % 256, u / 256]
  }

  function Decode16(s: seq<Byte>): (n: Int16)
    requires |s| == 2
  {
    var u: int := s[0] as int + 256 * s[1] as int;
    if u < 0x8000 then u else u - 0x1_0000
  }

  function Encode32(n: Int32): (s: seq<Byte>)
    ensures |s| == 4
  {
    var u := n % 0x1_0000_0000;
    [u % 256, u / 256 % 256, u / 0x1_0000 % 256, u / 0x100_0000]
  }

  function Decode32(s: seq<Byte>): (n: Int32)
    requires |s| == 4
  {
    var u: int := s[0] as int + 256 * s[1] as int + 0x1_0000 * s[2] as int + 0x100_0000 * s[3] as int;
    if u < 0x8000_0000 then u else u - 0x1_0000_0000
  }

  // The bytes of s from p on are the number n, least significant first, in two's complement.
  predicate ShortAt(s: seq<Byte>, p: nat, n: int) {
    && p + 2 <= |s| && -0x8000 <= n < 0x8000
    && var a: int, b: int := s[p], s[p + 1];
      (n - (a + 256 * b)) % 0x1_0000 == 0
  }

  predicate IntAt(s: seq<Byte>, p: nat, n: int) {
    && p + 4 <= |s| && -0x8000_0000 <= n < 0x8000_0000
    && var a: int, b: int, c: int, d: int := s[p], s[p + 1], s[p + 2], s[p + 3];
      (n - (a + 256 * b + 0x1_0000 * c + 0x100_0000 * d)) % 0x1_0000_0000 == 0
  }

  lemma Decoded16(s: seq<Byte>, p: nat)
    requires p + 2 <= |s|
    ensures ShortAt(s, p, Decode16(s[p..p + 2]))
  {
  }

  lemma Decoded32(s: seq<Byte>, p: nat)
    requires p + 4 <= |s|
    ensures IntAt(s, p, Decode32(s[p..p + 4]))
  {
    var t := s[p..p + 4];
    var u: int := t[0] as int + 256 * t[1] as int + 0x1_0000 * t[2] as int + 0x100_0000 * t[3] as int;
    assert Decode32(t) == u || Decode32(t) == u - 0x1_0000_0000;
  }

  // At one place there is one number.
  lemma OneNumber(s: seq<Byte>, p: nat, m: int, n: int)
    requires (IntAt(s, p, m) && IntAt(s, p, n)) || (ShortAt(s, p, m) && ShortAt(s, p, n))
    ensures m == n
  {
  }

  lemma RoundTrip16(n: Int16)
    ensures Decode16(Encode16(n)) == n
  {
  }

  lemma RoundTripBytes16(s: seq<Byte>)
    requires |s| == 2
    ensures Encode16(Decode16(s)) == s
  {
  }

  lemma RoundTrip32(n: Int32)
    ensures Decode32(Encode32(n)) == n
  {
    var u := n % 0x1_0000_0000;
    assert u == u % 256 + 256 * (u / 256);
    assert u / 256 == u / 256 % 256 + 256 * (u / 256 / 256);
    assert u / 256 / 256 == u / 0x1_0000 && u / 0x1_0000 / 256 == u / 0x100_0000;
  }

  lemma RoundTripBytes32(s: seq<Byte>)
    requires |s| == 4
    ensures Encode32(Decode32(s)) == s
  {
    var a: int, b: int, c: int, d: int := s[0], s[1], s[2], s[3];
    var u := a + 256 * b + 0x1_0000 * c + 0x100_0000 * d;
    Digits(a, b, c, d);
    assert Decode32(s) % 0x1_0000_0000 == u;
    assert s == [s[0], s[1], s[2], s[3]];
  }

  lemma Digits(a: int, b: int, c: int, d: int)
    requires 0 <= a < 256 && 0 <= b < 256 && 0 <= c < 256 && 0 <= d < 256
    ensures var u := a + 256 * b + 0x1_0000 * c + 0x100_0000 * d;
      u % 256 == a && u / 256 % 256 == b && u / 0x1_0000 % 256 == c && u / 0x100_0000 == d
  {
    var u := a + 256 * b + 0x1_0000 * c + 0x100_0000 * d;
    assert u / 256 == b + 256 * c + 0x1_0000 * d;
    assert u / 0x1_0000 == c + 256 * d;
  }

  // memcpy of bytes over s at offset off.
  function Splice<T>(s: seq<T>, off: nat, bytes: seq<T>): (r: seq<T>)
    requires off + |bytes| <= |s|
    ensures |r| == |s|
    ensures forall p :: 0 <= p < |s| ==> r[p] == if off <= p < off + |bytes| then bytes[p - off] else s[p]
  {
    s[..off] + bytes + s[off + |bytes|..]
  }

  lemma SpliceReads<T>(s: seq<T>, off: nat, bytes: seq<T>)
    requires off + |bytes| <= |s|
    ensures Splice(s, off, bytes)[off..off + |bytes|] == bytes
    ensures forall lo, hi :: 0 <= lo <= hi <= |s| && (hi <= off || off + |bytes| <= lo) ==>
        Splice(s, off, bytes)[lo..hi] == s[lo..hi]
  {
  }

  lemma SpliceSame<T>(s: seq<T>, off: nat, n: nat)
    requires off + n <= |s|
    ensures Splice(s, off, s[off..off + n]) == s
  {
  }

  // struct inode, field by field.
  function EncodeInode(ino: Inode): (s: seq<Byte>)
    ensures |s| == INODESIZE
  {
    Encode16(ino.kind) + Encode16(ino.nlink) + Encode32(ino.reuse) + Encode32(ino.size)
      + EncodeDirect(ino.direct) + Encode32(ino.indirect)
  }

  function EncodeDirect(direct: Direct): (s: seq<Byte>)
    ensures |s| == 4 * NUM_DIRECT
  {
    seq(4 * NUM_DIRECT, p requires 0 <= p < 4 * NUM_DIRECT => Encode32(direct[p / 4])[p % 4])
  }

  function DecodeDirect(s: seq<Byte>): Direct
    requires |s| == 4 * NUM_DIRECT
  {
    seq(NUM_DIRECT, j requires 0 <= j < NUM_DIRECT => Decode32(s[4 * j..4 * j + 4]))
  }

  lemma DirectRoundTrip(direct: Direct)
    ensures DecodeDirect(EncodeDirect(direct)) == direct
  {
    var s := EncodeDirect(direct);
    forall j | 0 <= j < NUM_DIRECT
      ensures Decode32(s[4 * j..4 * j + 4]) == direct[j]
    {
      assert s[4 * j..4 * j + 4] == Encode32(direct[j]);
      RoundTrip32(direct[j]);
    }
    assert DecodeDirect(s) == direct;
  }

  lemma DirectBytesRoundTrip(s: seq<Byte>)
    requires |s| == 4 * NUM_DIRECT
    ensures EncodeDirect(DecodeDirect(s)) == s
  {
    var t := EncodeDirect(DecodeDirect(s));
    forall p | 0 <= p < 4 * NUM_DIRECT
      ensures t[p] == s[p]
    {
      RoundTripBytes32(s[4 * (p / 4)..4 * (p / 4) + 4]);
    }
  }

  function DecodeInode(s: seq<Byte>): Inode
    requires |s| == INODESIZE
  {
    Inode(Decode16(s[0..2]), Decode16(s[2..4]), Decode32(s[4..8]), Decode32(s[8..12]),
          DecodeDirect(s[12..60]), Decode32(s[60..64]))
  }

  lemma InodeRoundTrip(ino: Inode)
    ensures DecodeInode(EncodeInode(ino)) == ino
  {
    RoundTrip16(ino.kind);
    RoundTrip16(ino.nlink);
    RoundTrip32(ino.reuse);
    RoundTrip32(ino.size);
    DirectRoundTrip(ino.direct);
    RoundTrip32(ino.indirect);
    hide Encode16, Encode32, EncodeDirect, Decode16, Decode32, DecodeDirect;
    var s := EncodeInode(ino);
    assert s[0..2] == Encode16(ino.kind) && s[2..4] == Encode16(ino.nlink);
    assert s[4..8] == Encode32(ino.reuse) && s[8..12] == Encode32(ino.size);
    assert s[12..60] == EncodeDirect(ino.direct) && s[60..64] == Encode32(ino.indirect);
  }

  lemma InodeBytesRoundTrip(s: seq<Byte>)
    requires |s| == INODESIZE
    ensures EncodeInode(DecodeInode(s)) == s
  {
    RoundTripBytes16(s[0..2]);
    RoundTripBytes16(s[2..4]);
    RoundTripBytes32(s[4..8]);
    RoundTripBytes32(s[8..12]);
    DirectBytesRoundTrip(s[12..60]);
    RoundTripBytes32(s[60..64]);
    hide Encode16, Encode32, EncodeDirect, Decode16, Decode32, DecodeDirect;
    assert s == s[0..2] + s[2..4] + s[4..8] + s[8..12] + s[12..60] + s[60..64];
  }

  // INODE_TO_BLOCK and INODE_IN_BLOCK_ADDR
  function InodeToBlock(inum: nat): nat {
    1 + inum / (BLOCKSIZE / INODESIZE)
  }

  function InodeInBlockAddr(inum: nat): (off: nat)
    ensures off + INODESIZE <= BLOCKSIZE
  {
    inum % (BLOCKSIZE / INODESIZE) * INODESIZE
  }

  // NUM_BLOCKS_FOR_INODES
  function BlocksForInodes(numInodes: nat): nat {
    (numInodes * INODESIZE + BLOCKSIZE - 1) / BLOCKSIZE
  }

  function GetSlot(blocks: seq<Block>, inum: nat): Inode
    requires InodeToBlock(inum) < |blocks|
  {
    DecodeInode(blocks[InodeToBlock(inum)][InodeInBlockAddr(inum)..InodeInBlockAddr(inum) + INODESIZE])
  }

  // struct inode, as it stands in slot inum of the inode table: eight to a block, from block 1 on.
  predicate SlotAt(blocks: seq<Block>, inum: nat, ino: Inode) {
    && 1 + inum / 8 < |blocks|
    && var s, o := blocks[1 + inum / 8], 64 * (inum % 8);
      && ShortAt(s, o, ino.kind) && ShortAt(s, o + 2, ino.nlink)
      && IntAt(s, o + 4, ino.reuse) && IntAt(s, o + 8, ino.size)
      && (forall j :: 0 <= j < NUM_DIRECT ==> IntAt(s, o + 12 + 4 * j, ino.direct[j]))
      && IntAt(s, o + 60, ino.indirect)
  }

  // What GetSlot() reads is what stands there.
  lemma SlotLayout(blocks: seq<Block>, inum: nat)
    requires InodeToBlock(inum) < |blocks|
    ensures SlotAt(blocks, inum, GetSlot(blocks, inum))
  {
    hide Decode16, Decode32, ShortAt, IntAt, DecodeDirect;
    var s, o := blocks[InodeToBlock(inum)], InodeInBlockAddr(inum);
    Decoded16(s, o);
    Decoded16(s, o + 2);
    Decoded32(s, o + 4);
    Decoded32(s, o + 8);
    Decoded32(s, o + 60);
    SliceSlice(s, o, o + INODESIZE, 0, 2);
    SliceSlice(s, o, o + INODESIZE, 2, 4);
    SliceSlice(s, o, o + INODESIZE, 4, 8);
    SliceSlice(s, o, o + INODESIZE, 8, 12);
    SliceSlice(s, o, o + INODESIZE, 60, 64);
    SliceSlice(s, o, o + INODESIZE, 12, 60);
    DirectLayout(s, o + 12);
  }

  lemma DirectLayout(s: seq<Byte>, p: nat)
    requires p + 48 <= |s|
    ensures forall j :: 0 <= j < NUM_DIRECT ==> IntAt(s, p + 4 * j, DecodeDirect(s[p..p + 48])[j])
  {
    hide Decode32, IntAt;
    forall j | 0 <= j < NUM_DIRECT
      ensures IntAt(s, p + 4 * j, DecodeDirect(s[p..p + 48])[j])
    {
      SliceSlice(s, p, p + 48, 4 * j, 4 * j + 4);
      Decoded32(s, p + 4 * j);
    }
  }

  lemma SliceSlice<T>(s: seq<T>, a: nat, b: nat, c: nat, d: nat)
    requires c <= d && a + d <= b <= |s|
    ensures s[a..b][c..d] == s[a + c..a + d]
  {
    var t := s[a..b];
    assert forall i :: c <= i < d ==> t[i] == s[a + i];
    assert forall i :: 0 <= i < d - c ==> t[c..d][i] == s[a + c..a + d][i];
  }

  function PutSlot(block: Block, inum: nat, ino: Inode): Block {
    Splice(block, InodeInBlockAddr(inum), EncodeInode(ino))
  }

  // Writing one inode back changes that slot, no other slot, and no block beyond the inode table.
  lemma SlotIsolation(blocks: seq<Block>, numInodes: nat, inum: nat, ino: Inode)
    requires inum < numInodes && BlocksForInodes(numInodes) < |blocks|
    ensures 1 <= InodeToBlock(inum) <= BlocksForInodes(numInodes)
    ensures var blocks' := blocks[InodeToBlock(inum) := PutSlot(blocks[InodeToBlock(inum)], inum, ino)];
      && GetSlot(blocks', inum) == ino
      && (forall other :: 0 <= other && other != inum && InodeToBlock(other) < |blocks| ==>
            GetSlot(blocks', other) == GetSlot(blocks, other))
      && (forall b :: BlocksForInodes(numInodes) < b < |blocks| ==> blocks'[b] == blocks[b])
  {
    var b, off := InodeToBlock(inum), InodeInBlockAddr(inum);
    var blocks' := blocks[b := PutSlot(blocks[b], inum, ino)];
    SpliceReads(blocks[b], off, EncodeInode(ino));
    InodeRoundTrip(ino);
    forall other | 0 <= other && other != inum && InodeToBlock(other) < |blocks|
      ensures GetSlot(blocks', other) == GetSlot(blocks, other)
    {
      if InodeToBlock(other) == b {
        var lo := InodeInBlockAddr(other);
        assert lo + INODESIZE <= off || off + INODESIZE <= lo;
        assert blocks'[b][lo..lo + INODESIZE] == blocks[b][lo..lo + INODESIZE];
      }
    }
  }

  // A write-back of an unchanged inode changes nothing at all.
  lemma PutSlotSame(blocks: seq<Block>, inum: nat)
    requires InodeToBlock(inum) < |blocks|
    ensures PutSlot(blocks[InodeToBlock(inum)], inum, GetSlot(blocks, inum)) == blocks[InodeToBlock(inum)]
  {
    var b, off := blocks[InodeToBlock(inum)], InodeInBlockAddr(inum);
    InodeBytesRoundTrip(b[off..off + INODESIZE]);
    SpliceSame(b, off, INODESIZE);
  }

  // Block numbers stored in an indirect block.
  function GetInt(block: Block, k: nat): Int32
    requires k < INTS_PER_BLOCK
  {
    Decode32(block[4 * k..4 * k + 4])
  }

  function PutInt(block: Block, k: nat, n: Int32): Block
    requires k < INTS_PER_BLOCK
  {
    Splice(block, 4 * k, Encode32(n))
  }

  // Entry k of an indirect block is the four bytes from 4k on.
  lemma IntLayout(block: Block, k: nat, n: Int32)
    requires k < INTS_PER_BLOCK
    ensures IntAt(block, 4 * k, GetInt(block, k)) && IntAt(PutInt(block, k, n), 4 * k, n)
    ensures forall p :: 0 <= p < BLOCKSIZE && !(4 * k <= p < 4 * k + 4) ==> PutInt(block, k, n)[p] == block[p]
  {
    hide Decode32, Encode32, IntAt;
    Decoded32(block, 4 * k);
    IntIsolation(block, k, n);
    Decoded32(PutInt(block, k, n), 4 * k);
  }

  lemma IntIsolation(block: Block, k: nat, n: Int32)
    requires k < INTS_PER_BLOCK
    ensures GetInt(PutInt(block, k, n), k) == n
    ensures forall j :: 0 <= j < INTS_PER_BLOCK && j != k ==> GetInt(PutInt(block, k, n), j) == GetInt(block, j)
  {
    SpliceReads(block, 4 * k, Encode32(n));
    RoundTrip32(n);
    forall j | 0 <= j < INTS_PER_BLOCK && j != k
      ensures GetInt(PutInt(block, k, n), j) == GetInt(block, j)
    {
      assert 4 * j + 4 <= 4 * k || 4 * k + 4 <= 4 * j;
    }
  }

  // extend() counts the inode blocks in inodes rather than bytes; both counts agree.
  lemma InodeBlockCounts(numInodes: nat)
    ensures (numInodes + BLOCKSIZE / INODESIZE - 1) / (BLOCKSIZE / INODESIZE) == BlocksForInodes(numInodes)
  {
  }
}
