// Extending and freeing files: extend() and free_inode() of block.c.
module Allocator {
  import opened Sequences
  import opened Layout
  import opened RecencyQueue
  import opened BlockMap
  import opened Growth
  import opened FileSystem
  import LruCache
  import BlockCache
  import Bitmap

  // The free blocks beyond the inode table, counted with is_free.
  method CountFree(fs: Server) returns (valid: nat)
    requires fs.Valid() && fs.Reserved()
    ensures valid == |Bitmap.Free(fs.UsedBlocks(), fs.numBlocks)|
  {
    hide Server.Valid, Server.UsedBlocks, Server.UsedInodes, Bitmap.Members, Bitmap.Free;
    var inodeBlocks := (fs.numInodes + BLOCKSIZE / INODESIZE - 1) / (BLOCKSIZE / INODESIZE);
    InodeBlockCounts(fs.numInodes);
    ghost var used := fs.UsedBlocks();
    valid := 0;
    NoneFree(used, inodeBlocks + 1);
    for i := inodeBlocks + 1 to fs.numBlocks
      invariant valid == |Bitmap.Free(used, i)|
    {
      FreeBelow(used, i);
      var free := fs.IsFreeBlock(i);
      if free == 1 {
        valid := valid + 1;
      }
    }
  }

  lemma NoneFree(used: set<nat>, len: nat)
    requires forall b: nat :: b < len ==> b in used
    ensures Bitmap.Free(used, len) == {}
  {
  }

  lemma FreeBelow(used: set<nat>, i: nat)
    ensures |Bitmap.Free(used, i + 1)| == |Bitmap.Free(used, i)| + if i in used then 0 else 1
  {
    if i in used {
      assert Bitmap.Free(used, i + 1) == Bitmap.Free(used, i);
    } else {
      assert Bitmap.Free(used, i + 1) == Bitmap.Free(used, i) + {i};
    }
  }

  // One round of the first loop: a zeroed block becomes direct entry c.
  method AllocDirect(fs: Server, info: Node<Inode>, ghost k: nat, c: nat) returns (b: int)
    requires fs.Valid() && fs.Reserved() && fs.Has(k, info) && k < fs.numInodes && info.isDirty && c < NUM_DIRECT
    modifies fs.Repr
    ensures fs.Valid() && fs.Reserved() && fs.Elsewhere(k) && fs.Has(k, info) && info.isDirty
    ensures fs.Pending == old(fs.Pending)
    ensures b == -1 ==> Bitmap.Free(fs.UsedBlocks(), fs.numBlocks) == {} && fs.View(k) == old(fs.View(k))
    ensures b != -1 ==>
        && 0 <= b < fs.numBlocks && b !in old(fs.UsedBlocks()) && fs.View(k) == SetDirect(old(fs.View(k)), c, b)
        && forall i: nat :: i < b ==> i in old(fs.UsedBlocks())
  {
    hide Server.Valid, Server.UsedBlocks, Server.UsedInodes, Bitmap.Free;
    b := fs.FindFreeBlock();
    if b == -1 {
      return;
    }
    MarkAndZero(fs, b);
    fs.Listed(k);
    fs.Update(info, k, info.val.(direct := info.val.direct[c := b]));
    assert fs.Grown();
  }

  method MarkAndZero(fs: Server, b: nat)
    requires fs.Valid() && fs.Table() < b < fs.numBlocks
    modifies fs.Repr
    ensures fs.Valid() && fs.Grown() && fs.SameCache() && fs.Inodes == old(fs.Inodes) && fs.Pending == old(fs.Pending)
    ensures fs.UsedBlocks() == old(fs.UsedBlocks()) + {b} && fs.UsedInodes() == old(fs.UsedInodes())
    ensures fs.Data == old(fs.Data)[b := ZeroBlock()]
  {
    hide BlockCache.BlockStore.Valid, LruCache.Cache.Valid, InodesAgree, DataAgree, Server.UsedBlocks,
      Server.UsedInodes;
    fs.MarkUsed(b);
    fs.FillBlock(b, ZeroBlock());
  }

  // A block becomes the indirect block; its contents stay what they were.
  method AllocIndirect(fs: Server, info: Node<Inode>, ghost k: nat) returns (b: int)
    requires fs.Valid() && fs.Reserved() && fs.Has(k, info) && k < fs.numInodes && info.isDirty
    modifies fs.Repr
    ensures fs.Valid() && fs.Reserved() && fs.Elsewhere(k) && fs.Has(k, info) && info.isDirty
    ensures fs.Pending == old(fs.Pending)
    ensures b == -1 ==> Bitmap.Free(fs.UsedBlocks(), fs.numBlocks) == {} && fs.View(k) == old(fs.View(k))
    ensures b != -1 ==>
        && 0 <= b < fs.numBlocks && b !in old(fs.UsedBlocks()) && fs.View(k) == SetIndirect(old(fs.View(k)), b)
        && forall i: nat :: i < b ==> i in old(fs.UsedBlocks())
  {
    hide Server.Valid, Server.UsedBlocks, Server.UsedInodes, Bitmap.Free;
    b := fs.FindFreeBlock();
    if b == -1 {
      return;
    }
    fs.Listed(k);
    fs.MarkUsed(b);
    fs.Update(info, k, info.val.(indirect := b));
  }

  // One round of the second loop: a block becomes entry c - 12 of the cached indirect block.
  method AllocEntry(fs: Server, info: Node<Inode>, ghost k: nat, block: Node<Block>, ghost x: nat, c: nat)
    returns (b: int)
    requires fs.Valid() && fs.Reserved() && fs.Has(k, info) && k < fs.numInodes && info.isDirty
    requires fs.Inodes[k].indirect == x && NUM_DIRECT <= c < MAX_BLOCKS
    requires fs.Holds(x, block) && fs.Table() < x && block.val == fs.Data[x]
    modifies fs.Repr
    ensures fs.Valid() && fs.Reserved() && fs.Elsewhere(k) && fs.Has(k, info) && info.isDirty
    ensures fs.Pending == old(fs.Pending)
    ensures fs.Inodes == old(fs.Inodes) && fs.Holds(x, block) && block.val == fs.Data[x]
    ensures b == -1 ==> Bitmap.Free(fs.UsedBlocks(), fs.numBlocks) == {} && fs.View(k) == old(fs.View(k))
    ensures b != -1 ==>
        && 0 <= b < fs.numBlocks && b !in old(fs.UsedBlocks()) && fs.View(k) == SetEntry(old(fs.View(k)), c, b)
        && forall i: nat :: i < b ==> i in old(fs.UsedBlocks())
  {
    hide Server.Valid, Server.UsedBlocks, Server.UsedInodes, Bitmap.Free, PutInt;
    b := fs.FindFreeBlock();
    if b == -1 {
      return;
    }
    fs.StoreWithin();
    fs.WriteData(block, x, PutInt(block.val, c - NUM_DIRECT, b));
    assert fs.Elsewhere(k) && fs.Has(k, info);
    fs.MarkUsed(b);
  }

  // How far a map of used blocks has grown, as far as the block map can name it.
  function Capped(c: nat): nat {
    if c <= MAX_BLOCKS then c else MAX_BLOCKS
  }

  // The first loop of extend(): direct entries until the file is long enough or they run out.
  // r is -1 when the bitmap has no free block left, with c entries in place.
  method GrowDirects(fs: Server, info: Node<Inode>, ghost k: nat, ghost v: View, curBlockMax: nat, newsize: nat)
    returns (r: int, cur: nat, ghost c: nat)
    requires fs.Valid() && fs.Reserved() && fs.Has(k, info) && k < fs.numInodes && info.isDirty
    requires v == fs.View(k) && Readable(v.ino, v.data)
    requires curBlockMax == BLOCKSIZE * BlocksFor(v.ino.size) && v.ino.size <= newsize
    modifies fs.Repr
    ensures fs.Valid() && fs.Reserved() && fs.Elsewhere(k) && fs.Has(k, info) && info.isDirty
    ensures fs.Pending == old(fs.Pending)
    ensures cur == BLOCKSIZE * c && Growing(v, fs.View(k), Capped(c), false)
    ensures r == 0 ==> c == if BlocksFor(v.ino.size) >= NUM_DIRECT then BlocksFor(v.ino.size)
                            else if BlocksFor(newsize) < NUM_DIRECT then BlocksFor(newsize) else NUM_DIRECT
    ensures r != 0 ==> r == -1 && Bitmap.Free(fs.UsedBlocks(), fs.numBlocks) == {}
    ensures r != 0 ==> c < NUM_DIRECT && c < BlocksFor(newsize)
  {
    hide Server.Valid, Server.UsedBlocks, Server.UsedInodes, Growing, SetDirect, Bitmap.Free, BlocksFor;
    GrowingStart(v);
    BlocksMonotone(v.ino.size, newsize);
    cur, c := curBlockMax, BlocksFor(v.ino.size);
    while cur < BLOCKSIZE * NUM_DIRECT && cur < newsize
      invariant fs.Valid() && fs.Reserved() && fs.Elsewhere(k) && fs.Has(k, info) && info.isDirty
      invariant fs.Pending == old(fs.Pending)
      invariant cur == BLOCKSIZE * c && Growing(v, fs.View(k), Capped(c), false)
      invariant BlocksFor(v.ino.size) <= c && (c <= NUM_DIRECT || c == BlocksFor(v.ino.size))
      invariant c == BlocksFor(v.ino.size) || c <= BlocksFor(newsize)
      decreases BLOCKSIZE * NUM_DIRECT - cur
    {
      ghost var w := fs.View(k);
      var b := AllocDirect(fs, info, k, cur / BLOCKSIZE);
      BelowSize(c, newsize);
      if b == -1 {
        return -1, cur, c;
      }
      GrowDirect(v, w, c, b);
      cur, c := cur + BLOCKSIZE, c + 1;
    }
    BelowSize(c, newsize);
    r := 0;
  }

  // The cached indirect block, marked dirty.
  method OpenIndirect(fs: Server, info: Node<Inode>, ghost k: nat) returns (block: Node<Block>)
    requires fs.Valid() && fs.Reserved() && fs.Has(k, info) && k < fs.numInodes && info.isDirty
    requires info.val == fs.Inodes[k]
    requires fs.Table() < fs.Inodes[k].indirect < |fs.Data|
    modifies fs.Repr
    ensures fs.Valid() && fs.Reserved() && fs.Elsewhere(k) && fs.Has(k, info) && info.isDirty
    ensures fs.Pending == old(fs.Pending)
    ensures fs.View(k) == old(fs.View(k))
    ensures fs.Holds(fs.Inodes[k].indirect, block) && block.val == fs.Data[fs.Inodes[k].indirect]
  {
    hide BlockCache.BlockStore.Valid, LruCache.Cache.Valid, InodesAgree, DataAgree, Server.UsedBlocks,
      Server.UsedInodes;
    block := fs.GetBlock(info.val.indirect);
    fs.WriteData(block, block.key, block.val);
  }

  // The second loop of extend(): entries of the indirect block x, from entry c on.
  method GrowEntries(fs: Server, info: Node<Inode>, ghost k: nat, ghost v: View, curBlockMax: nat, newsize: nat,
                     ghost c0: nat, ghost ind: bool)
    returns (r: int, ghost c: nat)
    requires fs.Valid() && fs.Reserved() && fs.Has(k, info) && k < fs.numInodes && info.isDirty
    requires info.val == fs.Inodes[k]
    requires Growing(v, fs.View(k), Capped(c0), ind) && NUM_DIRECT <= c0 < BlocksFor(newsize)
    requires curBlockMax == BLOCKSIZE * c0
    requires fs.Table() < fs.Inodes[k].indirect < |fs.Data|
    requires Mapped(v.ino.size) <= NUM_DIRECT ==> ind
    requires Mapped(v.ino.size) > NUM_DIRECT ==> fs.Inodes[k].indirect in v.used
    modifies fs.Repr
    ensures fs.Valid() && fs.Reserved() && fs.Elsewhere(k) && fs.Has(k, info) && info.isDirty
    ensures fs.Pending == old(fs.Pending)
    ensures Growing(v, fs.View(k), c, ind)
    ensures r == 0 ==> c == Mapped(newsize)
    ensures r != 0 ==> r == -1 && Bitmap.Free(fs.UsedBlocks(), fs.numBlocks) == {} && c < Mapped(newsize)
  {
    hide Server.Valid, Server.UsedBlocks, Server.UsedInodes, Growing, SetEntry, Bitmap.Free, BlocksFor;
    ghost var x := fs.Inodes[k].indirect;
    var blockIndirect := OpenIndirect(fs, info, k);
    var cur := curBlockMax;
    c := c0;
    while cur < BLOCKSIZE * (NUM_DIRECT + INTS_PER_BLOCK) && cur < newsize
      invariant fs.Valid() && fs.Reserved() && fs.Elsewhere(k) && fs.Has(k, info) && info.isDirty
      invariant fs.Pending == old(fs.Pending)
      invariant fs.Holds(x, blockIndirect) && blockIndirect.val == fs.Data[x] && fs.Inodes[k].indirect == x
      invariant cur == BLOCKSIZE * c && Growing(v, fs.View(k), Capped(c), ind)
      invariant c0 <= c && (c == c0 || c <= BlocksFor(newsize))
      decreases BLOCKSIZE * MAX_BLOCKS - cur
    {
      ghost var w := fs.View(k);
      BelowSize(c, newsize);
      var b := AllocEntry(fs, info, k, blockIndirect, x, cur / BLOCKSIZE);
      assert fs.Grown();
      if b == -1 {
        return -1, c;
      }
      SameLength(v, w, c, ind);
      GrowEntry(v, w, c, ind, b);
      cur, c := cur + BLOCKSIZE, c + 1;
    }
    BelowSize(c, newsize);
    r, c := 0, Capped(c);
  }

  // extend()'s estimate of the blocks an extension takes.
  function Need(size: nat, newsize: nat): int {
    BlocksFor(newsize) - BlocksFor(size) + if BlocksFor(size) < NUM_DIRECT < BlocksFor(newsize) then 1 else 0
  }

  // The estimate forgets the indirect block of a file of exactly 12 blocks.
  predicate Underestimated(size: nat, newsize: nat, free: nat) {
    BlocksFor(size) == NUM_DIRECT < BlocksFor(newsize) <= MAX_BLOCKS && free == BlocksFor(newsize) - NUM_DIRECT
  }

  // With enough blocks by the estimate, an allocation can only come up short in the case the
  // estimate forgets; in that case it must.
  lemma ComesUpShort(v: View, w: View, c: nat, ind: bool, newsize: nat, numBlocks: nat)
    requires Growing(v, w, c, ind) && (forall b :: b in w.used ==> b < numBlocks) && v.ino.size <= newsize
    requires Need(v.ino.size, newsize) <= |Bitmap.Free(v.used, numBlocks)|
    requires Bitmap.Free(w.used, numBlocks) == {}
    requires c < Mapped(newsize) && (ind || c <= NUM_DIRECT || Mapped(v.ino.size) > NUM_DIRECT)
    ensures Underestimated(v.ino.size, newsize, |Bitmap.Free(v.used, numBlocks)|)
  {
    GrowingCount(v, w, c, ind, numBlocks);
  }

  lemma Suffices(v: View, w: View, newsize: nat, numBlocks: nat)
    requires v.ino.size >= 0 && Mapped(v.ino.size) <= Mapped(newsize)
    requires Growing(v, w, Mapped(newsize), Mapped(v.ino.size) <= NUM_DIRECT < Mapped(newsize))
    requires forall b :: b in w.used ==> b < numBlocks
    ensures !Underestimated(v.ino.size, newsize, |Bitmap.Free(v.used, numBlocks)|)
  {
    GrowingCount(v, w, Mapped(newsize), Mapped(v.ino.size) <= NUM_DIRECT < Mapped(newsize), numBlocks);
  }

  // Exactly when extend() passes its checks and yet runs out of blocks.
  predicate Stops(size: int, newsize: int, free: nat) {
    0 <= size <= newsize && Underestimated(size, newsize, free)
  }

  lemma Refused(size: nat, newsize: nat, free: nat)
    requires Need(size, newsize) > free
    ensures !Stops(size, newsize, free)
  {
  }

  // Exactly when extend() succeeds.
  predicate Fits(size: nat, newsize: int, free: nat) {
    size <= newsize && Need(size, newsize) <= free && !Underestimated(size, newsize, free)
  }

  lemma SoundStart(fs: Server, k: nat)
    requires fs.Valid() && fs.Sound() && k < fs.numInodes && Live(fs.Inodes[k])
    ensures fs.Reserved()
    ensures SoundInode(fs.Inodes[k], fs.Data, fs.UsedBlocks(), fs.Table(), fs.numBlocks)
    ensures Mapped(fs.Inodes[k].size) > NUM_DIRECT ==>
        fs.Table() < fs.Inodes[k].indirect < |fs.Data| && fs.Inodes[k].indirect in fs.UsedBlocks()
  {
    if Mapped(fs.Inodes[k].size) > NUM_DIRECT {
      IndirectOwned(fs.Inodes[k], fs.Data);
    }
  }

  // The blocks are in place: extend() without its checks.
  method Grow(fs: Server, info: Node<Inode>, ghost k: nat, ghost v: View, newsize: nat)
    returns (r: int, ghost c: nat, ghost ind: bool)
    requires fs.Valid() && fs.Sound() && fs.Has(k, info) && k < fs.numInodes && info.isDirty && info.val == fs.Inodes[k]
    requires v == fs.View(k) && Live(v.ino) && Readable(v.ino, v.data) && v.ino.size <= newsize
    requires Need(v.ino.size, newsize) <= |Bitmap.Free(fs.UsedBlocks(), fs.numBlocks)|
    modifies fs.Repr
    ensures fs.Valid() && fs.Elsewhere(k) && fs.Has(k, info) && info.isDirty && fs.Pending == old(fs.Pending)
    ensures info.val == fs.Inodes[k] && Growing(v, fs.View(k), c, ind)
    ensures r == 0 <==> !Underestimated(v.ino.size, newsize, |Bitmap.Free(v.used, fs.numBlocks)|)
    ensures r == 0 ==> c == Mapped(newsize) && ind == (Mapped(v.ino.size) <= NUM_DIRECT < Mapped(newsize))
    ensures r != 0 ==> r == -1 && Bitmap.Free(fs.UsedBlocks(), fs.numBlocks) == {}
  {
    hide Server.Valid, Server.UsedBlocks, Server.UsedInodes, Server.Sound, Growing, Bitmap.Free, Need,
      Underestimated, BlocksFor;
    SoundStart(fs, k);
    BlocksMonotone(v.ino.size, newsize);
    var cur: nat;
    r, cur, c := GrowDirects(fs, info, k, v, BLOCKSIZE * BlocksFor(info.val.size), newsize);
    fs.UsedBound();
    fs.Cached(k);
    if r != 0 {
      ind := false;
      ComesUpShort(v, fs.View(k), c, ind, newsize, fs.numBlocks);
      return;
    }
    r, c, ind := GrowBeyond(fs, info, k, v, cur, newsize, c);
  }

  // Past the direct entries: the indirect block, if it is new, and its entries.
  method GrowBeyond(fs: Server, info: Node<Inode>, ghost k: nat, ghost v: View, cur: nat, newsize: nat, ghost c0: nat)
    returns (r: int, ghost c: nat, ghost ind: bool)
    requires fs.Valid() && fs.Reserved() && fs.Has(k, info) && k < fs.numInodes && info.isDirty
    requires info.val == fs.Inodes[k]
    requires Readable(v.ino, v.data) && v.ino.size <= newsize
    requires Mapped(v.ino.size) > NUM_DIRECT ==> fs.Table() < v.ino.indirect < |fs.Data| && v.ino.indirect in v.used
    requires Need(v.ino.size, newsize) <= |Bitmap.Free(v.used, fs.numBlocks)|
    requires cur == BLOCKSIZE * c0 && Growing(v, fs.View(k), Capped(c0), false)
    requires c0 == if BlocksFor(v.ino.size) >= NUM_DIRECT then BlocksFor(v.ino.size)
                   else if BlocksFor(newsize) < NUM_DIRECT then BlocksFor(newsize) else NUM_DIRECT
    modifies fs.Repr
    ensures fs.Valid() && fs.Elsewhere(k) && fs.Has(k, info) && info.isDirty && fs.Pending == old(fs.Pending)
    ensures info.val == fs.Inodes[k] && Growing(v, fs.View(k), c, ind)
    ensures r == 0 <==> !Underestimated(v.ino.size, newsize, |Bitmap.Free(v.used, fs.numBlocks)|)
    ensures r == 0 ==> c == Mapped(newsize) && ind == (Mapped(v.ino.size) <= NUM_DIRECT < Mapped(newsize))
    ensures r != 0 ==> r == -1 && Bitmap.Free(fs.UsedBlocks(), fs.numBlocks) == {}
  {
    hide Server.Valid, Server.UsedBlocks, Server.UsedInodes, Server.Sound, Growing, Bitmap.Free, Need,
      Underestimated, BlocksFor;
    BlocksMonotone(v.ino.size, newsize);
    BelowSize(c0, newsize);
    fs.UsedBound();
    r, c, ind := 0, Capped(c0), false;
    if cur < newsize && cur == BLOCKSIZE * NUM_DIRECT {
      ghost var w := fs.View(k);
      var b := AllocIndirect(fs, info, k);
      fs.UsedBound();
      fs.Cached(k);
      if b == -1 {
        ComesUpShort(v, w, c, ind, newsize, fs.numBlocks);
        r := -1;
        return;
      }
      SameLength(v, w, c, ind);
      GrowIndirect(v, w, b);
      ind := true;
    } else {
      KeptIndirect(v, fs.View(k), c);
    }
    if cur < newsize {
      r, c := GrowEntries(fs, info, k, v, cur, newsize, c0, ind);
      fs.UsedBound();
      fs.Cached(k);
      if r != 0 {
        ComesUpShort(v, fs.View(k), c, ind, newsize, fs.numBlocks);
        return;
      }
    }
    Suffices(v, fs.View(k), newsize, fs.numBlocks);
  }

  // extend(): 0 on success, -1 otherwise.
  method Extend(fs: Server, info: Node<Inode>, ghost k: nat, newsize: int) returns (r: int)
    requires fs.Valid() && fs.Sound() && fs.Has(k, info) && k < fs.numInodes && Live(fs.Inodes[k])
    requires newsize < 0x8000_0000
    modifies fs.Repr
    ensures fs.Valid() && fs.Sound() && fs.Elsewhere(k) && fs.Has(k, info)
    ensures fs.Pending == if newsize < old(fs.Inodes[k]).size then old(fs.Pending) else old(fs.Pending) - {k}
    ensures info.isDirty == (newsize >= old(fs.Inodes[k]).size || old(info.isDirty))
    ensures OtherFiles(fs, k)
    // exactly when it succeeds, and what it has done then
    ensures r == 0 || r == -1
    ensures old(fs.Inodes[k]).size >= 0
    ensures r == 0 <==> old(Fits(fs.Inodes[k].size, newsize, |Bitmap.Free(fs.UsedBlocks(), fs.numBlocks)|))
    ensures r == 0 ==> Extended(old(fs.View(k)), fs.View(k), newsize)
    // blocks are lost exactly when it runs out of them half way
    ensures fs.NoLeaks() <==>
        old(fs.NoLeaks() && !Stops(fs.Inodes[k].size, newsize, |Bitmap.Free(fs.UsedBlocks(), fs.numBlocks)|))
    // refused, nothing has changed; cut short, every free block has been taken and the file is as long as before
    ensures r == -1 && (newsize < old(fs.Inodes[k]).size
                        || old(Need(fs.Inodes[k].size, newsize) > |Bitmap.Free(fs.UsedBlocks(), fs.numBlocks)|))
        ==> fs.View(k) == old(fs.View(k))
    ensures r == -1 && newsize >= old(fs.Inodes[k]).size
              && old(Need(fs.Inodes[k].size, newsize) <= |Bitmap.Free(fs.UsedBlocks(), fs.numBlocks)|)
        ==> Bitmap.Free(fs.UsedBlocks(), fs.numBlocks) == {} && CutShort(old(fs.View(k)), fs.View(k))
  {
    hide Server.Valid, Server.UsedBlocks, Server.UsedInodes, Growing, Bitmap.Free, Underestimated, Extended,
      BlocksFor, BlockMap.Sound, BlockMap.Exact, CutShort;
    SoundStart(fs, k);
    fs.Cached(k);
    EveryFile(fs);
    ghost var v := fs.View(k);
    var valid := CountFree(fs);
    if newsize < info.val.size {
      return -1;
    }
    fs.MarkDirty(info, k);
    var usedBlock, newBlock := BlocksFor(info.val.size), BlocksFor(newsize);
    var curBlockMax := BLOCKSIZE * usedBlock;
    var extraBlock := if usedBlock <= NUM_DIRECT < newBlock && curBlockMax < BLOCKSIZE * NUM_DIRECT then 1 else 0;
    if newBlock - usedBlock + extraBlock > valid {
      Refused(info.val.size, newsize, valid);
      return -1;
    }
    r := Perform(fs, info, k, v, newsize);
  }

  // The part of extend() behind its checks.
  method Perform(fs: Server, info: Node<Inode>, ghost k: nat, ghost v: View, newsize: nat) returns (r: int)
    requires fs.Valid() && fs.Sound() && fs.Has(k, info) && k < fs.numInodes && info.isDirty && info.val == fs.Inodes[k]
    requires v == fs.View(k) && Live(v.ino) && Readable(v.ino, v.data) && v.ino.size <= newsize < 0x8000_0000
    requires Need(v.ino.size, newsize) <= |Bitmap.Free(v.used, fs.numBlocks)|
    modifies fs.Repr
    ensures fs.Valid() && fs.Sound() && fs.Elsewhere(k) && fs.Has(k, info) && info.isDirty
    ensures fs.Pending == old(fs.Pending)
    ensures OtherFiles(fs, k)
    ensures r == 0 <==> !Underestimated(v.ino.size, newsize, |Bitmap.Free(v.used, fs.numBlocks)|)
    ensures r == 0 ==> Extended(v, fs.View(k), newsize)
    ensures r != 0 ==> r == -1 && Bitmap.Free(fs.UsedBlocks(), fs.numBlocks) == {} && CutShort(v, fs.View(k))
    ensures fs.NoLeaks() <==> r == 0 && old(fs.NoLeaks())
  {
    hide Server.Valid, Server.UsedBlocks, Server.UsedInodes, Growing, Bitmap.Free, Underestimated, Extended, Need,
      BlockMap.Sound, BlockMap.Exact, CutShort;
    ghost var c, ind;
    r, c, ind := Grow(fs, info, k, v, newsize);
    fs.UsedBound();
    if r != 0 {
      RanOut(v, fs.View(k), c, ind, newsize, fs.numBlocks);
      StillSound(fs, k, v, old(fs.Inodes), c, ind);
      NowLeaking(fs, k, v, old(fs.Inodes));
      return;
    }
    ghost var w := fs.View(k);
    fs.Update(info, k, info.val.(size := newsize));
    Finish(v, w, newsize);
    NowSound(fs, k, v, old(fs.Inodes), newsize);
  }

  lemma EveryFile(fs: Server)
    requires fs.Valid() && fs.Sound()
    ensures forall i :: 0 <= i < |fs.Inodes| && Live(fs.Inodes[i]) ==> SameFile(fs.Inodes[i], fs.Data, fs.Data)
  {
  }

  lemma RanOut(v: View, w: View, c: nat, ind: bool, newsize: nat, numBlocks: nat)
    requires Growing(v, w, c, ind) && (forall b :: b in w.used ==> b < numBlocks)
    requires Underestimated(v.ino.size, newsize, |Bitmap.Free(v.used, numBlocks)|)
    requires Bitmap.Free(w.used, numBlocks) == {}
    ensures CutShort(v, w)
  {
    GrowingCount(v, w, c, ind, numBlocks);
  }

  lemma StillSound(fs: Server, k: nat, v: View, inodes: seq<Inode>, c: nat, ind: bool)
    requires fs.Valid() && k < |inodes| == |fs.Inodes| && v.ino == inodes[k] && Live(inodes[k])
    requires forall j :: 0 <= j < |fs.Inodes| && j != k ==> fs.Inodes[j] == inodes[j]
    requires BlockMap.Sound(inodes, v.data, v.used, fs.Table(), fs.numBlocks) && Growing(v, fs.View(k), c, ind)
    ensures fs.Sound()
    ensures forall i :: 0 <= i < |inodes| && i != k && Live(inodes[i]) ==> SameFile(inodes[i], v.data, fs.Data)
  {
    fs.UsedBound();
    GrowingSound(inodes, k, v, fs.View(k), c, ind, fs.Table(), fs.numBlocks);
    assert fs.Inodes == inodes[k := fs.Inodes[k]];
  }

  lemma NowLeaking(fs: Server, k: nat, v: View, inodes: seq<Inode>)
    requires fs.Valid() && k < |inodes| == |fs.Inodes| && v.ino == inodes[k] && Live(inodes[k])
    requires forall j :: 0 <= j < |fs.Inodes| && j != k ==> fs.Inodes[j] == inodes[j]
    requires BlockMap.Sound(inodes, v.data, v.used, fs.Table(), fs.numBlocks) && CutShort(v, fs.View(k))
    ensures !fs.NoLeaks()
  {
    hide Server.Valid, Server.UsedBlocks, BlockMap.Sound, Exact, CutShort;
    fs.UsedBound();
    CutShortLeaks(inodes, k, v, fs.View(k), fs.Table(), fs.numBlocks);
    assert fs.Inodes == inodes[k := fs.Inodes[k]];
  }

  lemma NowSound(fs: Server, k: nat, v: View, inodes: seq<Inode>, newsize: nat)
    requires fs.Valid() && k < |inodes| == |fs.Inodes| && v.ino == inodes[k] && Live(inodes[k])
    requires forall j :: 0 <= j < |fs.Inodes| && j != k ==> fs.Inodes[j] == inodes[j]
    requires BlockMap.Sound(inodes, v.data, v.used, fs.Table(), fs.numBlocks) && Extended(v, fs.View(k), newsize)
    ensures fs.Sound()
    ensures forall i :: 0 <= i < |inodes| && i != k && Live(inodes[i]) ==> SameFile(inodes[i], v.data, fs.Data)
    ensures fs.NoLeaks() <==> Exact(inodes, v.data, v.used, fs.Table())
  {
    hide Server.Valid, Server.UsedBlocks, BlockMap.Sound, BlockMap.Exact, Extended, SameFile;
    fs.UsedBound();
    ExtendedSound(inodes, k, v, fs.View(k), newsize, fs.Table(), fs.numBlocks);
    ExtendedExact(inodes, k, v, fs.View(k), newsize, fs.Table(), fs.numBlocks);
    assert fs.Inodes == inodes[k := fs.Inodes[k]];
  }

  twostate predicate OtherFiles(fs: Server, k: nat)
    reads fs
  {
    forall i :: 0 <= i < |old(fs.Inodes)| && i != k && Live(old(fs.Inodes)[i]) ==>
        SameFile(old(fs.Inodes)[i], old(fs.Data), fs.Data)
  }

  predicate InRange(fs: Server, b: int) {
    BlocksForInodes(fs.numInodes) < b < fs.numBlocks
  }

  // The first loop of free_inode().
  method FreeDirects(fs: Server, ino: Inode, ghost data: seq<Block>) returns (r: int, j: nat)
    requires fs.Valid() && Readable(ino, data)
    modifies fs.blockBitmap
    ensures fs.Valid() && fs.UsedInodes() == old(fs.UsedInodes())
    ensures r == 0 ==> j == if Mapped(ino.size) < NUM_DIRECT then Mapped(ino.size) else NUM_DIRECT
    ensures r == 0 ==> fs.UsedBlocks() == Less(old(fs.UsedBlocks()), MapOf(ino, data)[..j])
    ensures (forall b :: b in MapOf(ino, data) ==> InRange(fs, b)) ==> r == 0
  {
    hide Server.Valid, Server.UsedBlocks, Server.UsedInodes, Less;
    j := 0;
    ghost var blocks := MapOf(ino, data);
    assert blocks[..0] == [];
    LessNone(fs.UsedBlocks());
    while j < NUM_DIRECT && j * BLOCKSIZE < ino.size
      invariant j <= Mapped(ino.size) && j <= NUM_DIRECT && fs.Valid() && fs.UsedInodes() == old(fs.UsedInodes())
      invariant fs.UsedBlocks() == Less(old(fs.UsedBlocks()), blocks[..j])
    {
      assert blocks[j] == ino.direct[j] && blocks[j] in blocks;
      if !InRange(fs, ino.direct[j]) {
        return -1, j;
      }
      fs.MarkFree(ino.direct[j]);
      LessOne(old(fs.UsedBlocks()), blocks[..j], ino.direct[j]);
      assert blocks[..j + 1] == blocks[..j] + [blocks[j]];
      j := j + 1;
    }
    r := 0;
  }

  // The second loop of free_inode(), over the entries of the indirect block.
  method FreeEntries(fs: Server, cur: Inode, indirectBlock: Block, j0: nat, ghost ino: Inode, ghost data: seq<Block>)
    returns (r: int)
    requires cur.size == ino.size && cur.indirect == ino.indirect
    requires fs.Valid() && Readable(ino, data) && ino.size <= BLOCKSIZE * MAX_BLOCKS
    requires NUM_DIRECT == j0 < Mapped(ino.size) && indirectBlock == data[ino.indirect]
    modifies fs.blockBitmap
    ensures fs.Valid() && fs.UsedInodes() == old(fs.UsedInodes())
    ensures r == 0 ==> fs.UsedBlocks() == Less(old(fs.UsedBlocks()), Owned(ino, data)[j0..])
    ensures (forall b :: b in Owned(ino, data) ==> InRange(fs, b)) ==> r == 0
  {
    hide Server.Valid, Server.UsedBlocks, Server.UsedInodes, Less, Owned, GetInt;
    var j := j0;
    ghost var blocks := Owned(ino, data);
    EntriesOwned(ino, data);
    assert blocks[j0..j0] == [];
    LessNone(fs.UsedBlocks());
    while j * BLOCKSIZE < cur.size
      invariant j0 <= j <= Mapped(ino.size) && fs.Valid() && fs.UsedInodes() == old(fs.UsedInodes())
      invariant fs.UsedBlocks() == Less(old(fs.UsedBlocks()), blocks[j0..j])
    {
      var b := GetInt(indirectBlock, j - NUM_DIRECT);
      assert blocks[j] == b;
      if !InRange(fs, b) {
        assert b in blocks;
        return -1;
      }
      fs.MarkFree(b);
      LessOne(old(fs.UsedBlocks()), blocks[j0..j], b);
      assert blocks[j0..j + 1] == blocks[j0..j] + [blocks[j]];
      j := j + 1;
    }
    fs.MarkFree(cur.indirect);
    LessOne(old(fs.UsedBlocks()), blocks[j0..j], cur.indirect);
    assert blocks[j0..] == blocks[j0..j] + [cur.indirect as int];
    r := 0;
  }

  // The owned blocks beyond the direct ones: the entries of the indirect block, and that block itself.
  lemma EntriesOwned(ino: Inode, data: seq<Block>)
    requires Readable(ino, data) && Mapped(ino.size) > NUM_DIRECT
    ensures |Owned(ino, data)| == Mapped(ino.size) + 1 && Owned(ino, data)[Mapped(ino.size)] == ino.indirect
    ensures forall j :: NUM_DIRECT <= j < Mapped(ino.size) ==>
        Owned(ino, data)[j] == GetInt(data[ino.indirect], j - NUM_DIRECT)
  {
    hide GetInt;
  }

  lemma LessNone(used: set<nat>)
    ensures Less(used, []) == used
  {
  }

  lemma LessTwice(used: set<nat>, a: seq<int>, b: seq<int>)
    ensures Less(Less(used, a), b) == Less(used, a + b)
  {
  }

  // free_inode(): the blocks back to the bitmap, the inode back to the inode bitmap and out of the cache.
  method FreeInode(fs: Server, k: nat) returns (r: int)
    requires fs.Valid() && fs.Sound() && fs.Settled() && k < fs.numInodes
    requires Live(fs.Inodes[k]) ==> fs.Inodes[k].size <= BLOCKSIZE * MAX_BLOCKS
    modifies fs.Repr
    ensures fs.Valid() && fs.Sound() && fs.Settled() && fs.Grown() && fs.Data == old(fs.Data)
    ensures r == if old(Live(fs.Inodes[k])) then 0 else -1
    ensures r == -1 ==> fs.SameState() && fs.icache.Map() == old(fs.icache.Map())
    ensures r == 0 ==>
        && Readable(old(fs.Inodes)[k], fs.Data)
        && fs.Inodes == old(fs.Inodes)[k := Freed(old(fs.Inodes)[k])]
        && fs.UsedBlocks() == Less(old(fs.UsedBlocks()), Owned(old(fs.Inodes)[k], fs.Data))
        && fs.UsedInodes() == old(fs.UsedInodes()) - {k}
        && k !in fs.icache.Map() && fs.Pending == old(fs.Pending) - {k}
    // the inode, field by field: the reuse count is left alone
    ensures r == 0 ==>
        && fs.Inodes[k].kind == INODE_FREE && fs.Inodes[k].nlink == 0 && fs.Inodes[k].size == 0
        && (forall j :: 0 <= j < NUM_DIRECT ==> fs.Inodes[k].direct[j] == 0) && fs.Inodes[k].indirect == 0
        && fs.Inodes[k].reuse == old(fs.Inodes[k]).reuse
    ensures fs.NoLeaks() <==> old(fs.NoLeaks())
    // and it has been synced: if every sector could be written, everything is on the disk
    ensures r == 0 && fs.store.disk.Failures == old(fs.store.disk.Failures) ==> fs.Durable()
  {
    hide Server.Valid, Server.UsedBlocks, Server.UsedInodes, BlockMap.Sound, BlockMap.Exact, Server.Settled, Owned,
      Less, Server.Durable;
    var info := fs.GetUseInode(k);
    if info == null {
      return -1;
    }
    r := Reclaim(fs, info, k);
  }

  // free_inode() once the inode is in hand.
  method Reclaim(fs: Server, info: Node<Inode>, k: nat) returns (r: int)
    requires fs.Valid() && fs.Sound() && fs.Settled() && fs.Has(k, info) && k < fs.numInodes && info.val == fs.Inodes[k]
    requires Live(fs.Inodes[k]) && fs.Inodes[k].size <= BLOCKSIZE * MAX_BLOCKS
    modifies fs.Repr
    ensures fs.Valid() && fs.Sound() && fs.Settled() && fs.Grown() && fs.Data == old(fs.Data)
    ensures r == 0
    ensures Readable(old(fs.Inodes)[k], fs.Data)
    ensures fs.Inodes == old(fs.Inodes)[k := Freed(old(fs.Inodes)[k])]
    ensures fs.UsedBlocks() == Less(old(fs.UsedBlocks()), Owned(old(fs.Inodes)[k], fs.Data))
    ensures fs.UsedInodes() == old(fs.UsedInodes()) - {k}
    ensures k !in fs.icache.Map() && fs.Pending == old(fs.Pending) - {k}
    ensures fs.NoLeaks() <==> old(fs.NoLeaks())
    ensures fs.store.disk.Failures == old(fs.store.disk.Failures) ==> fs.Durable()
  {
    hide Server.Valid, Server.UsedBlocks, Server.UsedInodes, BlockMap.Sound, BlockMap.Exact, Owned, Less, MapOf,
      Server.Durable;
    SoundStart(fs, k);
    FreedExact(fs.Inodes, fs.Data, fs.UsedBlocks(), fs.Table(), k);
    FreedSound(fs.Inodes, fs.Data, fs.UsedBlocks(), fs.Table(), fs.numBlocks, k);
    r := FreeBlocks(fs, info, k);
    assert fs.Grown();
    if r == 0 {
      Retire(fs, info, k, old(fs.Inodes)[k]);
    }
    assert fs.Inodes == old(fs.Inodes)[k := Freed(old(fs.Inodes)[k])];
  }

  // The two loops of free_inode() and the clearing of the direct entries between them.
  method FreeBlocks(fs: Server, info: Node<Inode>, ghost k: nat) returns (r: int)
    requires fs.Valid() && fs.Has(k, info) && k < fs.numInodes && info.val == fs.Inodes[k]
    requires SoundInode(fs.Inodes[k], fs.Data, fs.UsedBlocks(), fs.Table(), fs.numBlocks)
    requires fs.Inodes[k].size <= BLOCKSIZE * MAX_BLOCKS
    modifies fs.Repr
    ensures fs.Valid() && fs.Elsewhere(k) && fs.Has(k, info) && info.val == fs.Inodes[k] && fs.Data == old(fs.Data)
    ensures fs.Inodes[k] == old(fs.Inodes)[k].(direct := NoDirect())
    ensures fs.Pending == if info.isDirty then old(fs.Pending) else old(fs.Pending) + {k}
    ensures fs.UsedBlocks() == Less(old(fs.UsedBlocks()), Owned(old(fs.Inodes)[k], fs.Data))
    ensures r == 0
  {
    hide Server.Valid, Server.UsedBlocks, Server.UsedInodes, Owned, Less, MapOf, Distinct, Entry, Freed;
    ghost var ino, data, used := info.val, fs.Data, fs.UsedBlocks();
    OwnedParts(ino, data);
    var j;
    r, j := FreeDirects(fs, info.val, data);
    assert fs.Elsewhere(k) && fs.Has(k, info);
    if r == 0 {
      LessTwice(used, MapOf(ino, data)[..j], Owned(ino, data)[j..]);
      fs.Update(info, k, info.val.(direct := NoDirect()));
      assert fs.Elsewhere(k);
      if j * BLOCKSIZE < info.val.size {
        r := FreeIndirect(fs, info.val, j, ino, data);
      }
    }
  }

  // The second loop of free_inode() with the fetching of the indirect block before it.
  method FreeIndirect(fs: Server, cur: Inode, j: nat, ghost ino: Inode, ghost data: seq<Block>) returns (r: int)
    requires fs.Valid() && data == fs.Data && cur.size == ino.size && cur.indirect == ino.indirect
    requires Readable(ino, data) && NUM_DIRECT == j < Mapped(ino.size) && ino.size <= BLOCKSIZE * MAX_BLOCKS
    requires forall b :: b in Owned(ino, data) ==> fs.Table() < b < fs.numBlocks
    modifies fs.Repr
    ensures fs.Valid() && fs.Grown() && fs.SameCache() && fs.UsedInodes() == old(fs.UsedInodes())
    ensures fs.Inodes == old(fs.Inodes) && fs.Data == old(fs.Data) && fs.Pending == old(fs.Pending)
    ensures fs.UsedBlocks() == Less(old(fs.UsedBlocks()), Owned(ino, data)[j..])
    ensures r == 0
  {
    hide BlockCache.BlockStore.Valid, LruCache.Cache.Valid, InodesAgree, DataAgree, Server.UsedBlocks,
      Server.UsedInodes, Owned, Less, MapOf;
    IndirectOwned(ino, data);
    var block := fs.GetBlock(cur.indirect);
    r := FreeEntries(fs, cur, block.val, j, ino, data);
  }

  // The rest of free_inode(): the fields cleared, the inode number freed, the inode synced and dropped.
  method Retire(fs: Server, info: Node<Inode>, k: nat, ghost ino: Inode)
    requires fs.Valid() && fs.Has(k, info) && k < fs.numInodes && info.val == fs.Inodes[k]
    requires info.val.reuse == ino.reuse
    requires info.val.direct == NoDirect()
    modifies fs.Repr
    ensures fs.Valid() && fs.Grown() && fs.Data == old(fs.Data) && fs.UsedBlocks() == old(fs.UsedBlocks())
    ensures fs.Inodes == old(fs.Inodes)[k := Freed(ino)]
    ensures fs.UsedInodes() == old(fs.UsedInodes()) - {k}
    ensures fs.icache.Map() == old(fs.icache.Map()) - {k} && fs.Pending == old(fs.Pending) - {k}
    ensures fs.store.disk.Failures == old(fs.store.disk.Failures) ==> fs.Durable()
  {
    hide Server.Valid, Server.UsedBlocks, Server.UsedInodes, Server.Durable;
    ClearFields(fs, info, k);
    DropSynced(fs, info, k);
  }

  method ClearFields(fs: Server, info: Node<Inode>, k: nat)
    requires fs.Valid() && fs.Has(k, info) && k < fs.numInodes && info.val == fs.Inodes[k]
    modifies fs.Repr
    ensures fs.Valid() && fs.Has(k, info) && fs.Data == old(fs.Data) && fs.UsedBlocks() == old(fs.UsedBlocks())
    ensures fs.Inodes == old(fs.Inodes)[k := info.val]
    ensures info.val == old(info.val).(size := 0, kind := INODE_FREE, nlink := 0, indirect := 0)
    ensures fs.UsedInodes() == old(fs.UsedInodes()) - {k}
    ensures fs.Pending == old(fs.Pending) - {k} && fs.icache.Map() == old(fs.icache.Map()) && fs.Grown()
  {
    hide Server.Valid, Server.UsedBlocks, Server.UsedInodes;
    fs.Update(info, k, info.val.(size := 0, kind := INODE_FREE, nlink := 0));
    fs.MarkDirty(info, k);
    fs.Update(info, k, info.val.(indirect := 0));
    fs.MarkInodeFree(k);
  }

  method DropSynced(fs: Server, info: Node<Inode>, k: nat)
    requires fs.Valid() && fs.Has(k, info) && k !in fs.Pending
    modifies fs.Repr
    ensures fs.Valid() && fs.Grown() && fs.SameState() && fs.icache.Map() == old(fs.icache.Map()) - {k}
    ensures fs.store.disk.Failures == old(fs.store.disk.Failures) ==> fs.Durable()
  {
    hide BlockCache.BlockStore.Valid, LruCache.Cache.Valid, InodesAgree, DataAgree, Server.UsedBlocks,
      Server.UsedInodes, Server.Durable;
    var _ := fs.Sync();
    fs.Release(info, k);
  }

  // The block list of a file splits into what the two loops of free_inode() free.
  lemma OwnedParts(ino: Inode, data: seq<Block>)
    requires Readable(ino, data)
    ensures forall b :: b in MapOf(ino, data) ==> b in Owned(ino, data)
    ensures Mapped(ino.size) <= NUM_DIRECT ==> Owned(ino, data) == MapOf(ino, data)[..Mapped(ino.size)]
    ensures Mapped(ino.size) > NUM_DIRECT ==>
        Owned(ino, data) == MapOf(ino, data)[..NUM_DIRECT] + Owned(ino, data)[NUM_DIRECT..]
  {
  }
}
