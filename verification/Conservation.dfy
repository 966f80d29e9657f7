// What extending and freeing add up to: no block lost, none gained, and exactly when.
module Conservation {
  import opened Sequences
  import opened Layout
  import opened RecencyQueue
  import opened BlockMap
  import opened Growth
  import opened FileSystem
  import opened Allocator
  import Bitmap

  // The blocks an extension takes.
  function Cost(size: nat, newsize: nat): int {
    Mapped(newsize) - Mapped(size) + if Mapped(size) <= NUM_DIRECT < Mapped(newsize) then 1 else 0
  }

  // Up to the largest mappable size extend() succeeds exactly when there are enough free blocks.
  lemma FitsExactly(size: nat, newsize: nat, free: nat)
    requires newsize <= BLOCKSIZE * MAX_BLOCKS
    ensures Fits(size, newsize, free) <==> size <= newsize && Cost(size, newsize) <= free
  {
  }

  // Its estimate agrees with that except for a file of exactly 12 blocks, where one block more than
  // estimated is necessary and sufficient.
  lemma EstimateShort(size: nat, newsize: nat, free: nat)
    requires size <= newsize <= BLOCKSIZE * MAX_BLOCKS
    ensures (Need(size, newsize) <= free && !Fits(size, newsize, free)) <==> Underestimated(size, newsize, free)
    ensures BlocksFor(size) == NUM_DIRECT < BlocksFor(newsize) ==>
        (Fits(size, newsize, free) <==> free >= Need(size, newsize) + 1)
    ensures BlocksFor(size) != NUM_DIRECT ==> (Fits(size, newsize, free) <==> free >= Need(size, newsize))
  {
  }

  // Extending a file and then freeing it frees exactly what freeing it at once would have freed.
  lemma ExtendThenFree(v: View, w: View, newsize: nat)
    requires Extended(v, w, newsize) && Distinct(Owned(v.ino, v.data))
    requires forall b :: b in Owned(v.ino, v.data) ==> 0 <= b && b in v.used
    ensures Readable(w.ino, w.data) && Less(w.used, Owned(w.ino, w.data)) == Less(v.used, Owned(v.ino, v.data))
    ensures v.ino.size == 0 ==> Less(w.used, Owned(w.ino, w.data)) == v.used
  {
    hide Extended, NewBlocks, Distinct;
    ExtendedOwns(v, w, newsize);
    ExtendedParts(v, w, newsize);
    forall b: nat
      ensures b in Less(w.used, Owned(w.ino, w.data)) <==> b in Less(v.used, Owned(v.ino, v.data))
    {
    }
  }

  // With the inode cache's membership and the inode bitmap unchanged, a change that frees no inode
  // keeps cached inodes allocated and allocated inodes marked.
  lemma StillSettled(fs: Server, inodes: seq<Inode>, cached: set<nat>, used: set<nat>)
    requires fs.icache.Map().Keys == cached && fs.UsedInodes() == used && |inodes| == |fs.Inodes|
    requires forall j :: 0 <= j < |inodes| ==> Live(fs.Inodes[j]) == Live(inodes[j])
    requires forall j :: j in cached ==> j < |inodes| && Live(inodes[j])
    requires forall j :: 0 <= j < |inodes| && Live(inodes[j]) ==> j in used
    ensures fs.Settled()
  {
  }

  // extend() on a file of size 0.
  method Allocate(fs: Server, info: Node<Inode>, ghost k: nat, newsize: nat) returns (r: int)
    requires fs.Valid() && fs.Sound() && fs.Settled() && fs.Has(k, info) && k < fs.numInodes && Live(fs.Inodes[k])
    requires fs.Inodes[k].size == 0 && newsize <= BLOCKSIZE * MAX_BLOCKS
    modifies fs.Repr
    ensures fs.Valid() && fs.Sound() && fs.Settled() && fs.Elsewhere(k) && fs.Has(k, info)
    ensures Live(fs.Inodes[k]) && fs.Inodes[k].size <= BLOCKSIZE * MAX_BLOCKS && Readable(fs.Inodes[k], fs.Data)
    ensures r == 0 <==> Cost(0, newsize) <= |Bitmap.Free(old(fs.UsedBlocks()), fs.numBlocks)|
    ensures r == 0 ==> fs.Inodes[k].size == newsize
    ensures r == 0 ==> Less(fs.UsedBlocks(), Owned(fs.Inodes[k], fs.Data)) == old(fs.UsedBlocks())
  {
    hide Server.Valid, Server.UsedBlocks, Server.UsedInodes, BlockMap.Sound;
    ghost var v := fs.View(k);
    FitsExactly(0, newsize, |Bitmap.Free(fs.UsedBlocks(), fs.numBlocks)|);
    Emptied(fs, k);
    r := Extend(fs, info, k, newsize);
    StayedSmall(v, fs.View(k), r, newsize);
    StillSettled(fs, old(fs.Inodes), old(fs.icache.Map()).Keys, old(fs.UsedInodes()));
    if r == 0 {
      ExtendThenFree(v, fs.View(k), newsize);
    }
    SoundStart(fs, k);
  }

  // A file of size 0, extended and then freed, leaves the block bitmap as it was; the inode is gone.
  method AllocateAndFree(fs: Server, info: Node<Inode>, k: nat, newsize: nat) returns (r: int, gone: Node?<Inode>)
    requires fs.Valid() && fs.Sound() && fs.Settled() && fs.Has(k, info) && k < fs.numInodes && Live(fs.Inodes[k])
    requires fs.Inodes[k].size == 0 && newsize <= BLOCKSIZE * MAX_BLOCKS
    modifies fs.Repr
    ensures fs.Valid() && fs.Sound() && fs.Settled() && gone == null && !Live(fs.Inodes[k])
    ensures r == 0 <==> Cost(0, newsize) <= |Bitmap.Free(old(fs.UsedBlocks()), fs.numBlocks)|
    ensures r == 0 ==> fs.UsedBlocks() == old(fs.UsedBlocks())
    ensures fs.UsedInodes() == old(fs.UsedInodes()) - {k}
  {
    hide Server.Valid, Server.UsedBlocks, Server.UsedInodes, Server.Settled, BlockMap.Sound, Bitmap.Free, Owned,
      Less, Cost;
    r := Allocate(fs, info, k, newsize);
    var _ := FreeInode(fs, k);
    gone := fs.GetUseInode(k);
  }

  lemma StayedSmall(v: View, w: View, r: int, newsize: nat)
    requires newsize <= BLOCKSIZE * MAX_BLOCKS && v.ino.size == 0
    requires r == 0 ==> Extended(v, w, newsize)
    requires r != 0 ==> w == v || CutShort(v, w)
    ensures w.ino.size <= BLOCKSIZE * MAX_BLOCKS && w.ino.kind == v.ino.kind
  {
  }

  lemma Emptied(fs: Server, k: nat)
    requires fs.Valid() && fs.Sound() && k < fs.numInodes && Live(fs.Inodes[k]) && fs.Inodes[k].size == 0
    ensures Readable(fs.Inodes[k], fs.Data) && Owned(fs.Inodes[k], fs.Data) == []
    ensures Distinct(Owned(fs.Inodes[k], fs.Data))
  {
  }
}
