// The disk that mkyfs.c writes.
module Mkyfs {
  import opened Sequences
  import opened Layout
  import opened BlockMap
  import opened FileSystem
  import opened Mount
  import opened Restart
  import opened Naming
  import Creation
  import Runs

  const NUMSECTORS := 1426
  const DOT: Byte := 46

  // Blocks of the inode table. mkyfs makes room for one inode more than it announces.
  function TableBlocks(n: nat): nat {
    ((n + 1) * INODESIZE + BLOCKSIZE - 1) / BLOCKSIZE
  }

  // Inode counts for which the root directory exists and fits onto the disk.
  predicate Fitting(n: nat) {
    2 <= n && TableBlocks(n) + 1 < NUMSECTORS
  }

  function Zeros(n: nat): (r: seq<Byte>)
    ensures |r| == n && forall p :: 0 <= p < n ==> r[p] == 0
  {
    seq(n, _ => 0)
  }

  function RootInode(n: nat): Inode
    requires Fitting(n)
  {
    Inode(INODE_DIRECTORY, 2, 1, 2 * DIRENTSIZE, NoDirect()[0 := TableBlocks(n) + 1], 0)
  }

  // The header, the root inode, free inodes.
  function SlotBytes(n: nat, k: nat): (r: seq<Byte>)
    requires Fitting(n)
    ensures |r| == INODESIZE
  {
    if k == 0 then Encode32(NUMSECTORS) + Encode32(n) + Zeros(56)
    else if k == 1 then EncodeInode(RootInode(n))
    else Zeros(INODESIZE)
  }

  function TableBlock(n: nat, m: nat): Block
    requires Fitting(n)
  {
    seq(BLOCKSIZE, p requires 0 <= p < BLOCKSIZE =>
      SlotBytes(n, m * (BLOCKSIZE / INODESIZE) + p / INODESIZE)[p % INODESIZE])
  }

  // The entries "." and "..".
  function RootBlock(): Block {
    Creation.CreateEntry(ROOTINODE, [DOT]) + Creation.CreateEntry(ROOTINODE, [DOT, DOT])
      + Zeros(BLOCKSIZE - 2 * DIRENTSIZE)
  }

  function Sector(n: nat, b: nat): Block
    requires Fitting(n)
  {
    if 1 <= b <= TableBlocks(n) then TableBlock(n, b - 1)
    else if b == TableBlocks(n) + 1 then RootBlock()
    else ZeroBlock()
  }

  function Sectors(n: nat): (r: seq<Block>)
    requires Fitting(n)
    ensures |r| == NUMSECTORS
  {
    seq(NUMSECTORS, b requires 0 <= b < NUMSECTORS => Sector(n, b))
  }

  lemma TableCovers(n: nat, k: nat)
    requires Fitting(n) && k <= n
    ensures 1 <= InodeToBlock(k) <= TableBlocks(n)
    ensures BlocksForInodes(n) <= TableBlocks(n) <= BlocksForInodes(n) + 1
  {
  }

  lemma SlotWritten(n: nat, k: nat)
    requires Fitting(n) && k <= n
    ensures InodeToBlock(k) < NUMSECTORS && GetSlot(Sectors(n), k) == DecodeInode(SlotBytes(n, k))
  {
    hide SlotBytes, DecodeInode;
    TableCovers(n, k);
    var m, off := InodeToBlock(k) - 1, InodeInBlockAddr(k);
    var block := TableBlock(n, m);
    assert Sectors(n)[m + 1] == block;
    forall q | 0 <= q < INODESIZE
      ensures block[off + q] == SlotBytes(n, k)[q]
    {
      Within(k, q);
    }
    assert block[off..off + INODESIZE] == SlotBytes(n, k);
  }

  lemma Within(k: nat, q: nat)
    requires q < INODESIZE
    ensures var p := InodeInBlockAddr(k) + q;
      p < BLOCKSIZE && (InodeToBlock(k) - 1) * (BLOCKSIZE / INODESIZE) + p / INODESIZE == k && p % INODESIZE == q
  {
  }

  lemma HeaderWritten(n: nat)
    requires Fitting(n)
    ensures HeaderBlocks(Sectors(n)[1]) == NUMSECTORS && HeaderInodes(Sectors(n)[1]) == n
  {
    hide Encode32, Decode32, SlotBytes, Zeros;
    RoundTrip32(NUMSECTORS);
    RoundTrip32(n);
    HeaderBytes(n);
  }

  lemma HeaderBytes(n: nat)
    requires Fitting(n)
    ensures Sectors(n)[1][0..4] == Encode32(NUMSECTORS) && Sectors(n)[1][4..8] == Encode32(n)
  {
    hide Encode32;
    var block := TableBlock(n, 0);
    assert Sectors(n)[1] == block;
    var s := SlotBytes(n, 0);
    assert s[0..4] == Encode32(NUMSECTORS) && s[4..8] == Encode32(n);
    assert forall p :: 0 <= p < 8 ==> block[p] == s[p];
    assert block[0..4] == s[0..4] && block[4..8] == s[4..8];
  }

  // The header, a root directory of two entries in block d, and nothing else.
  ghost predicate Formatted(inodes: seq<Inode>, d: int) {
    && 1 < |inodes| && HeaderOnly(inodes) && inodes[0].kind != INODE_DIRECTORY
    && inodes[1].kind == INODE_DIRECTORY && inodes[1].size == 2 * DIRENTSIZE && inodes[1].direct[0] == d
    && (forall k :: 2 <= k < |inodes| ==> !Live(inodes[k]))
  }

  lemma FreeSlot()
    ensures !Live(DecodeInode(Zeros(INODESIZE)))
  {
    assert Zeros(INODESIZE)[0..2] == [0, 0];
  }

  lemma HeaderInode(n: nat)
    requires Fitting(n)
    ensures var ino := DecodeInode(SlotBytes(n, 0)); ino.kind == NUMSECTORS && ino.size == 0
  {
    hide DecodeDirect;
    var s := SlotBytes(n, 0);
    assert s[0..2] == [146, 5];
    assert s[8..12] == [0, 0, 0, 0];
  }

  // What mkyfs writes is a formatted disk that the server can be started on.
  lemma Written(n: nat)
    requires Fitting(n)
    ensures BlocksForInodes(n) < |Sectors(n)| && Formatted(Slots(Sectors(n), n), TableBlocks(n) + 1)
    ensures HeaderKept(Slots(Sectors(n), n), NUMSECTORS, n) && Mountable(Sectors(n))
    ensures BlocksForInodes(n) < TableBlocks(n) + 1 < NUMSECTORS
    ensures Sectors(n)[TableBlocks(n) + 1] == RootBlock()
  {
    hide SlotBytes, DecodeInode, HeaderBlocks, HeaderInodes, GetSlot, Decode32, Encode16;
    TableCovers(n, 0);
    var inodes := Slots(Sectors(n), n);
    forall k | 0 <= k < n
      ensures inodes[k] == DecodeInode(SlotBytes(n, k))
    {
      SlotWritten(n, k);
    }
    HeaderInode(n);
    RootSlot(n);
    forall k | 2 <= k < n
      ensures !Live(inodes[k])
    {
      EmptySlot(n, k);
    }
    HeaderWritten(n);
    HeaderSlot(Sectors(n));
    UsableAtFirst(inodes, Sectors(n), TableBlocks(n) + 1, BlocksForInodes(n));
  }

  // The image in bytes: the header, the inode of the root directory, and its two entries.
  lemma ImageBytes(n: nat)
    requires Fitting(n)
    ensures TableBlocks(n) + 1 < |Sectors(n)| && 64 * (n + 1) <= 512 * TableBlocks(n) < 64 * (n + 1) + 512
    ensures IntAt(Sectors(n)[1], 0, 1426) && IntAt(Sectors(n)[1], 4, n)
    ensures var inodes := Slots(Sectors(n), n);
      && (forall k :: 0 <= k < n ==> SlotAt(Sectors(n), k, inodes[k]))
      && inodes[1] == Inode(1, 2, 1, 64, NoDirect()[0 := TableBlocks(n) + 1], 0)
      && (forall k :: 2 <= k < n ==> inodes[k].kind == 0)
    ensures TwoDots(Sectors(n)[TableBlocks(n) + 1])
  {
    hide SlotAt, IntAt, Sectors, Formatted, SlotBytes, DecodeInode, HeaderBlocks, HeaderInodes, GetSlot,
      Creation.CreateEntry;
    Written(n);
    HeaderWritten(n);
    HeaderLayout(Sectors(n)[1]);
    SlotsLayout(Sectors(n), n);
    TableCovers(n, 1);
    SlotWritten(n, 1);
    RootSlot(n);
    FreeSlots(Slots(Sectors(n), n), TableBlocks(n) + 1);
    RootBytes();
  }

  lemma FreeSlots(inodes: seq<Inode>, d: int)
    requires Formatted(inodes, d)
    ensures forall k :: 2 <= k < |inodes| ==> inodes[k].kind == INODE_FREE
  {
  }

  // The entries "." and "..", both for inode 1, and zeros.
  predicate TwoDots(block: Block) {
    forall p :: 0 <= p < BLOCKSIZE ==>
        block[p] == if p == 0 || p == 32 then 1 else if p == 2 || p == 34 || p == 35 then 46 else 0
  }

  lemma RootBytes()
    ensures TwoDots(RootBlock())
  {
    hide Creation.CreateEntry;
    var a, b := Creation.CreateEntry(ROOTINODE, [DOT]), Creation.CreateEntry(ROOTINODE, [DOT, DOT]);
    Creation.CreatedBytes(ROOTINODE, [DOT]);
    Creation.CreatedBytes(ROOTINODE, [DOT, DOT]);
    assert a[0] == 1 && a[1] == 0 && b[0] == 1 && b[1] == 0;
    forall p | 2 <= p < 32
      ensures a[p] == (if p == 2 then 46 else 0) && b[p] == if p == 2 || p == 3 then 46 else 0
    {
    }
    var block := RootBlock();
    assert forall p :: 0 <= p < 32 ==> block[p] == a[p] && block[32 + p] == b[p];
    assert forall p :: 64 <= p < BLOCKSIZE ==> block[p] == Zeros(BLOCKSIZE - 64)[p - 64];
  }

  lemma RootSlot(n: nat)
    requires Fitting(n)
    ensures DecodeInode(SlotBytes(n, 1)) == RootInode(n)
  {
    InodeRoundTrip(RootInode(n));
  }

  lemma EmptySlot(n: nat, k: nat)
    requires Fitting(n) && 2 <= k
    ensures !Live(DecodeInode(SlotBytes(n, k)))
  {
    FreeSlot();
  }

  lemma UsableAtFirst(inodes: seq<Inode>, data: seq<Block>, d: int, table: nat)
    requires Formatted(inodes, d)
    ensures AllUsable(inodes, data, table)
  {
    assert BlocksFor(2 * DIRENTSIZE) == 1;
  }
}
