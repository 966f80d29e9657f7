// From a freshly formatted disk, as mkyfs leaves it, to a running server.
module Boot {
  import opened Sequences
  import opened Layout
  import opened BlockMap
  import opened BlockCache
  import opened FileSystem
  import opened Mount
  import opened Naming
  import opened Mkyfs
  import opened Restart
  import opened Operations
  import opened Runs
  import Bitmap

  lemma OwnedAtFirst(inodes: seq<Inode>, data: seq<Block>, d: int)
    requires Formatted(inodes, d)
    ensures forall k :: 0 <= k < |inodes| && Live(inodes[k]) ==>
        Readable(inodes[k], data) && Owned(inodes[k], data) == if k == 1 then [d] else []
    ensures Indirects(inodes) == {}
  {
    assert BlocksFor(2 * DIRENTSIZE) == 1;
    assert Owned(inodes[1], data) == [d];
  }

  // Such a disk has sound block ownership and no leaks, with the reserved blocks and block d in use.
  lemma FormattedSound(inodes: seq<Inode>, data: seq<Block>, d: nat, table: nat, numBlocks: nat)
    returns (used: set<nat>)
    requires Formatted(inodes, d) && table < d < numBlocks <= |data|
    ensures Clean(inodes, data, used, table, numBlocks)
    ensures forall b: nat :: b in used <==> b <= table || b == d
  {
    hide Formatted, BlockMap.Sound, Exact, Fit, HeaderOnly, Indirects;
    OwnedAtFirst(inodes, data, d);
    used := Bitmap.Free({}, table + 1) + {d};
    assert forall b: nat :: b in used <==> b <= table || b == d;
    SoundAtFirst(inodes, data, d, used, table, numBlocks);
    FitAtFirst(inodes, d);
  }

  lemma SoundAtFirst(inodes: seq<Inode>, data: seq<Block>, d: nat, used: set<nat>, table: nat, numBlocks: nat)
    requires Formatted(inodes, d) && table < d < numBlocks <= |data|
    requires forall b: nat :: b in used <==> b <= table || b == d
    ensures BlockMap.Sound(inodes, data, used, table, numBlocks) && Exact(inodes, data, used, table)
  {
    hide Formatted, Owned, Readable;
    OwnedAtFirst(inodes, data, d);
    RootOnly(inodes, d);
    assert Owns(inodes[1], data, d);
  }

  lemma RootOnly(inodes: seq<Inode>, d: int)
    requires Formatted(inodes, d)
    ensures 1 < |inodes| && Live(inodes[1])
  {
  }

  lemma FitAtFirst(inodes: seq<Inode>, d: int)
    requires Formatted(inodes, d)
    ensures Fit(inodes) && HeaderOnly(inodes)
  {
  }

  // An image whose block ownership is sound when used is marked, with no file that needs an indirect block.
  ghost predicate Clean(inodes: seq<Inode>, data: seq<Block>, used: set<nat>, table: nat, numBlocks: nat) {
    && Sound(inodes, data, used, table, numBlocks) && Exact(inodes, data, used, table)
    && HeaderOnly(inodes) && Fit(inodes) && Indirects(inodes) == {}
  }

  ghost predicate CleanImage(blocks: seq<Block>, used: set<nat>) {
    && Mountable(blocks) && HeaderInodes(blocks[1]) <= 0x8000
    && var n: nat, b: nat := HeaderInodes(blocks[1]), HeaderBlocks(blocks[1]);
      Clean(Slots(blocks, n), blocks, used, BlocksForInodes(n), b)
  }

  // Mounting a clean image.
  method Start(store: BlockStore, ghost used: set<nat>) returns (fs: Server)
    requires store.Valid() && CleanImage(store.Blocks, used)
    modifies store.Repr
    ensures Healthy(fs) && fs.NoLeaks() && fs.UsedBlocks() == used && fs.store == store
    ensures fresh(fs) && fresh(fs.Repr - old(store.Repr))
    ensures fs.numInodes == HeaderInodes(old(store.Blocks)[1]) && fs.numBlocks == HeaderBlocks(old(store.Blocks)[1])
    ensures fs.Data == old(store.Blocks) && fs.Inodes == Slots(fs.Data, fs.numInodes)
  {
    hide BlockStore.Valid, Server.Valid, Server.UsedBlocks, Server.UsedInodes, Server.Settled, BlockMap.Sound,
      Exact, Slots, AllUsable, HeaderBlocks, HeaderInodes, Indirects, HeaderOnly, Fit, Marked;
    fs := InitInodeBlock(store);
    RebuildExact(fs.Inodes, fs.Data, used, fs.UsedBlocks(), fs.Table(), fs.numBlocks);
    assert fs.UsedBlocks() == used;
  }

  // A formatted disk, mounted: the runs of the server start here.
  method Boot(disk: Disk, ghost d: nat) returns (fs: Server)
    requires Mountable(disk.sectors) && HeaderInodes(disk.sectors[1]) <= 0x8000
    requires Formatted(Slots(disk.sectors, HeaderInodes(disk.sectors[1])), d)
    requires BlocksForInodes(HeaderInodes(disk.sectors[1])) < d < HeaderBlocks(disk.sectors[1])
    modifies disk
    ensures Healthy(fs) && fs.NoLeaks() && fs.store.disk == disk && fresh(fs) && fresh(fs.Repr - {disk})
    ensures fs.Data == old(disk.sectors) && fs.Inodes == Slots(fs.Data, fs.numInodes)
    ensures fs.numInodes == HeaderInodes(old(disk.sectors)[1]) && fs.numBlocks == HeaderBlocks(old(disk.sectors)[1])
    ensures forall b: nat :: b in fs.UsedBlocks() <==> b <= fs.Table() || b == d
  {
    hide BlockStore.Valid, Server.Valid, Server.UsedBlocks, BlockMap.Sound, Clean, Slots, AllUsable, HeaderBlocks,
      HeaderInodes, Healthy;
    ghost var n, b := HeaderInodes(disk.sectors[1]), HeaderBlocks(disk.sectors[1]);
    ghost var used := FormattedSound(Slots(disk.sectors, n), disk.sectors, d, BlocksForInodes(n), b);
    var store := new BlockStore(disk);
    fs := Start(store, used);
  }

  // The file system on the disk mkyfs writes.
  ghost predicate Fresh(s: Snapshot, n: nat) {
    && Fitting(n) && |s.inodes| == n && Formatted(s.inodes, TableBlocks(n) + 1) && s.data == Sectors(n)
    && s.table == BlocksForInodes(n) && s.numBlocks == NUMSECTORS
    && (forall b: nat :: b in s.used <==> b <= s.table || b == TableBlocks(n) + 1)
  }

  // Mounted, it is the state every server on such a disk starts from.
  method BootFresh(n: nat) returns (fs: Server)
    requires Fitting(n)
    ensures fresh(fs) && fresh(fs.Repr) && Healthy(fs) && fs.NoLeaks() && Fresh(Now(fs), n)
    ensures HeaderKept(fs.Inodes, fs.numBlocks, fs.numInodes) && fs.numInodes == n == |fs.Inodes|
    ensures fs.numBlocks == NUMSECTORS && fs.Table() == BlocksForInodes(n)
  {
    hide Healthy, Mountable, Formatted, HeaderKept, Sectors, Slots, HeaderBlocks, HeaderInodes, Exact,
      Server.UsedBlocks;
    Written(n);
    HeaderWritten(n);
    var disk := new Disk(Sectors(n));
    fs := Boot(disk, TableBlocks(n) + 1);
  }

  // All blocks are free then but the reserved ones and the one of the root directory.
  lemma FreeAtFirst(s: Snapshot, n: nat)
    requires Fresh(s, n)
    ensures BlocksForInodes(n) <= TableBlocks(n) && FreeCount(s) == NUMSECTORS - BlocksForInodes(n) - 2
  {
    hide Formatted, Sectors;
    TableCovers(n, 0);
    var reserved, d := s.used - {TableBlocks(n) + 1}, TableBlocks(n) + 1;
    FreeAbove(reserved, s.table, s.numBlocks);
    Bitmap.TakeOne(reserved, s.numBlocks, d);
    assert reserved + {d} == s.used;
  }

  lemma {:induction false} FreeAbove(used: set<nat>, table: nat, numBlocks: nat)
    requires table < numBlocks && forall b: nat :: b < numBlocks ==> (b in used <==> b <= table)
    ensures |Bitmap.Free(used, numBlocks)| == numBlocks - table - 1
  {
    if numBlocks == table + 1 {
      assert Bitmap.Free(used, numBlocks) == {};
    } else {
      FreeAbove(used, table, numBlocks - 1);
      assert Bitmap.Free(used, numBlocks) == Bitmap.Free(used, numBlocks - 1) + {numBlocks - 1};
    }
  }
}
