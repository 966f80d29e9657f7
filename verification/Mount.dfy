// Starting on an existing image: init_inode_block() of block.c.
module Mount {
  import opened Sequences
  import opened Layout
  import opened RecencyQueue
  import opened BlockMap
  import opened BlockCache
  import opened FileSystem
  import opened Allocator
  import opened LruOrder
  import opened LruCache

  // Block b is a data block of the inode.
  predicate MapsTo(ino: Inode, data: seq<Block>, b: int) {
    Live(ino) && Readable(ino, data) && b in MapOf(ino, data)
  }

  // The block bitmap after the inodes 1 to n have been gone through.
  ghost predicate Marked(used: set<nat>, inodes: seq<Inode>, data: seq<Block>, table: nat, numBlocks: nat, n: nat)
    requires n <= |inodes|
  {
    forall b: nat :: b in used <==>
        (b <= table || (b < numBlocks && exists k :: 1 <= k < n && MapsTo(inodes[k], data, b)))
  }

  // The blocks that hold further block numbers.
  function Indirects(inodes: seq<Inode>): set<int> {
    set i | 0 <= i < |inodes| && Live(inodes[i]) && inodes[i].size >= 0 && Mapped(inodes[i].size) > NUM_DIRECT ::
      inodes[i].indirect as int
  }

  // The header in slot 0 has no blocks of its own.
  predicate HeaderOnly(inodes: seq<Inode>) {
    0 < |inodes| && (Live(inodes[0]) ==> inodes[0].size == 0)
  }

  // The rebuilt bitmap is the one kept before, without the indirect blocks: with those marked as
  // well it would be the same.
  lemma RebuildExact(inodes: seq<Inode>, data: seq<Block>, before: set<nat>, after: set<nat>, table: nat,
                     numBlocks: nat)
    requires Sound(inodes, data, before, table, numBlocks) && Exact(inodes, data, before, table) && HeaderOnly(inodes)
    requires Marked(after, inodes, data, table, numBlocks, |inodes|)
    ensures forall b: nat :: b in after <==> b in before && b !in Indirects(inodes)
    ensures forall b: nat :: b in before <==> b in after || b in Indirects(inodes)
    ensures before == after + set b: nat | b in before && b in Indirects(inodes)
  {
    forall b: nat
      ensures b in after ==> b in before && b !in Indirects(inodes)
      ensures b in before ==> b in after || b in Indirects(inodes)
      ensures b in Indirects(inodes) ==> b in before
    {
      if b > table {
        if b in after {
          var k :| 1 <= k < |inodes| && MapsTo(inodes[k], data, b);
          DataNotIndirect(inodes, data, before, table, numBlocks, k, b);
        } else if b in before {
          var i :| 0 <= i < |inodes| && Owns(inodes[i], data, b);
          OwnedKinds(inodes[i], data, b);
        }
      }
      if b in Indirects(inodes) {
        IndirectUsed(inodes, data, before, table, numBlocks, b);
      }
    }
  }

  lemma OwnedKinds(ino: Inode, data: seq<Block>, b: int)
    requires Owns(ino, data, b)
    ensures MapsTo(ino, data, b) || (Mapped(ino.size) > NUM_DIRECT && b == ino.indirect)
  {
  }

  lemma IndirectUsed(inodes: seq<Inode>, data: seq<Block>, used: set<nat>, table: nat, numBlocks: nat, b: nat)
    requires Sound(inodes, data, used, table, numBlocks) && b in Indirects(inodes)
    ensures b in used && b > table
  {
    var i :| 0 <= i < |inodes| && Live(inodes[i]) && inodes[i].size >= 0 && Mapped(inodes[i].size) > NUM_DIRECT
             && b == inodes[i].indirect;
    IndirectOwned(inodes[i], data);
  }

  lemma DataNotIndirect(inodes: seq<Inode>, data: seq<Block>, used: set<nat>, table: nat, numBlocks: nat, k: nat,
                        b: nat)
    requires Sound(inodes, data, used, table, numBlocks) && k < |inodes| && MapsTo(inodes[k], data, b)
    ensures b in used && b !in Indirects(inodes)
  {
    var j :| 0 <= j < Mapped(inodes[k].size) && MapOf(inodes[k], data)[j] == b;
    assert Owned(inodes[k], data)[j] == b && b in Owned(inodes[k], data);
    MapApart(inodes[k], data, j);
    forall i | 0 <= i < |inodes| && Live(inodes[i]) && inodes[i].size >= 0 && Mapped(inodes[i].size) > NUM_DIRECT
      ensures inodes[i].indirect != b
    {
      IndirectOwned(inodes[i], data);
      if i != k {
        Apart(inodes, data, used, table, numBlocks, i, k);
      }
    }
  }

  // As the program stands, the block map is sound after a restart exactly if no file needs an
  // indirect block.
  lemma RebuildSound(inodes: seq<Inode>, data: seq<Block>, before: set<nat>, after: set<nat>, table: nat,
                     numBlocks: nat)
    requires Sound(inodes, data, before, table, numBlocks) && Exact(inodes, data, before, table) && HeaderOnly(inodes)
    requires Marked(after, inodes, data, table, numBlocks, |inodes|)
    ensures Sound(inodes, data, after, table, numBlocks) <==> Indirects(inodes) == {}
  {
    RebuildExact(inodes, data, before, after, table, numBlocks);
    if Indirects(inodes) == {} {
      assert forall b :: b in after <==> b in before;
      assert after == before;
    } else {
      var b :| b in Indirects(inodes);
      var i :| 0 <= i < |inodes| && Live(inodes[i]) && inodes[i].size >= 0 && Mapped(inodes[i].size) > NUM_DIRECT
               && b == inodes[i].indirect;
      IndirectOwned(inodes[i], data);
      assert b !in after;
      assert !SoundInode(inodes[i], data, after, table, numBlocks);
    }
  }

  // Those of the listed blocks that lie beyond the inode table.
  function Kept(blocks: seq<int>, table: nat, numBlocks: nat): set<nat> {
    set b: nat | b in blocks && table < b < numBlocks
  }

  lemma KeptMore(blocks: seq<int>, b: int, table: nat, numBlocks: nat)
    ensures Kept(blocks + [b], table, numBlocks) ==
        Kept(blocks, table, numBlocks) + if table < b < numBlocks then {b as nat} else {}
  {
  }

  lemma KeptNone(table: nat, numBlocks: nat)
    ensures Kept([], table, numBlocks) == {}
  {
  }

  // A number out of range is reported and otherwise passed over.
  method MarkInRange(fs: Server, b: int)
    requires fs.Valid()
    modifies fs.blockBitmap
    ensures fs.Valid() && fs.UsedInodes() == old(fs.UsedInodes())
    ensures fs.UsedBlocks() == old(fs.UsedBlocks()) + if fs.Table() < b < fs.numBlocks then {b as nat} else {}
  {
    hide Server.Valid, Server.UsedBlocks, Server.UsedInodes;
    if InRange(fs, b) {
      fs.MarkUsed(b);
    }
  }

  // The loop over the direct entries.
  method MarkDirects(fs: Server, ino: Inode, ghost data: seq<Block>) returns (j: nat)
    requires fs.Valid() && Readable(ino, data)
    modifies fs.blockBitmap
    ensures fs.Valid() && fs.UsedInodes() == old(fs.UsedInodes())
    ensures j == if Mapped(ino.size) < NUM_DIRECT then Mapped(ino.size) else NUM_DIRECT
    ensures fs.UsedBlocks() == old(fs.UsedBlocks()) + Kept(MapOf(ino, data)[..j], fs.Table(), fs.numBlocks)
  {
    hide Server.Valid, Server.UsedBlocks, Server.UsedInodes, Kept;
    j := 0;
    ghost var blocks := MapOf(ino, data);
    KeptNone(fs.Table(), fs.numBlocks);
    assert blocks[..0] == [];
    while j < NUM_DIRECT && j * BLOCKSIZE < ino.size
      invariant j <= Mapped(ino.size) && j <= NUM_DIRECT && fs.Valid() && fs.UsedInodes() == old(fs.UsedInodes())
      invariant fs.UsedBlocks() == old(fs.UsedBlocks()) + Kept(blocks[..j], fs.Table(), fs.numBlocks)
    {
      MarkInRange(fs, ino.direct[j]);
      KeptMore(blocks[..j], ino.direct[j], fs.Table(), fs.numBlocks);
      assert blocks[..j + 1] == blocks[..j] + [ino.direct[j] as int];
      j := j + 1;
    }
  }

  // The loop over the entries of the indirect block.
  method MarkEntries(fs: Server, ino: Inode, indirectBlock: Block, j0: nat, ghost data: seq<Block>)
    requires fs.Valid() && Readable(ino, data) && ino.size <= BLOCKSIZE * MAX_BLOCKS
    requires NUM_DIRECT == j0 < Mapped(ino.size) && indirectBlock == data[ino.indirect]
    modifies fs.blockBitmap
    ensures fs.Valid() && fs.UsedInodes() == old(fs.UsedInodes())
    ensures fs.UsedBlocks() == old(fs.UsedBlocks()) + Kept(MapOf(ino, data)[j0..], fs.Table(), fs.numBlocks)
  {
    hide Server.Valid, Server.UsedBlocks, Server.UsedInodes, Kept;
    var j := j0;
    ghost var blocks := MapOf(ino, data);
    KeptNone(fs.Table(), fs.numBlocks);
    assert blocks[j0..j0] == [];
    while j * BLOCKSIZE < ino.size
      invariant j0 <= j <= Mapped(ino.size) && fs.Valid() && fs.UsedInodes() == old(fs.UsedInodes())
      invariant fs.UsedBlocks() == old(fs.UsedBlocks()) + Kept(blocks[j0..j], fs.Table(), fs.numBlocks)
    {
      var b := GetInt(indirectBlock, j - NUM_DIRECT);
      MarkInRange(fs, b);
      KeptMore(blocks[j0..j], b, fs.Table(), fs.numBlocks);
      assert blocks[j0..j + 1] == blocks[j0..j] + [b as int];
      j := j + 1;
    }
    assert blocks[j0..j] == blocks[j0..];
  }

  // Marking the data blocks of one inode. The indirect block itself stays unmarked.
  method MarkFile(fs: Server, ino: Inode)
    requires fs.Valid() && Readable(ino, fs.Data) && ino.size <= BLOCKSIZE * MAX_BLOCKS
    requires Mapped(ino.size) > NUM_DIRECT ==> fs.Table() < ino.indirect
    modifies fs.Repr
    ensures fs.Valid() && fs.Grown() && fs.SameCache() && fs.UsedInodes() == old(fs.UsedInodes())
    ensures fs.Inodes == old(fs.Inodes) && fs.Data == old(fs.Data) && fs.Pending == old(fs.Pending)
    ensures fs.UsedBlocks() == old(fs.UsedBlocks()) + Kept(MapOf(ino, fs.Data), fs.Table(), fs.numBlocks)
  {
    hide BlockStore.Valid, LruCache.Cache.Valid, InodesAgree, DataAgree, Server.UsedBlocks, Server.UsedInodes,
      MapOf, Kept;
    ghost var data, blocks := fs.Data, MapOf(ino, fs.Data);
    var j := MarkDirects(fs, ino, data);
    KeptParts(blocks, j, fs.Table(), fs.numBlocks);
    if j * BLOCKSIZE < ino.size {
      MarkIndirect(fs, ino, j);
    }
  }

  method MarkIndirect(fs: Server, ino: Inode, j: nat)
    requires fs.Valid() && Readable(ino, fs.Data) && ino.size <= BLOCKSIZE * MAX_BLOCKS
    requires NUM_DIRECT == j < Mapped(ino.size) && fs.Table() < ino.indirect
    modifies fs.Repr
    ensures fs.Valid() && fs.Grown() && fs.SameCache() && fs.UsedInodes() == old(fs.UsedInodes())
    ensures fs.Inodes == old(fs.Inodes) && fs.Data == old(fs.Data) && fs.Pending == old(fs.Pending)
    ensures fs.UsedBlocks() == old(fs.UsedBlocks()) + Kept(MapOf(ino, fs.Data)[j..], fs.Table(), fs.numBlocks)
  {
    hide BlockStore.Valid, LruCache.Cache.Valid, InodesAgree, DataAgree, Server.UsedBlocks, Server.UsedInodes,
      MapOf, Kept;
    ghost var data := fs.Data;
    var block := fs.GetBlock(ino.indirect);
    MarkEntries(fs, ino, block.val, j, data);
  }

  lemma KeptParts(blocks: seq<int>, j: nat, table: nat, numBlocks: nat)
    requires j <= |blocks|
    ensures Kept(blocks[..j], table, numBlocks) + Kept(blocks[j..], table, numBlocks) == Kept(blocks, table, numBlocks)
    ensures j == |blocks| ==> Kept(blocks[..j], table, numBlocks) == Kept(blocks, table, numBlocks)
  {
    assert forall b :: b in blocks <==> b in blocks[..j] || b in blocks[j..];
  }

  // What the program takes for granted about an inode on the disk.
  predicate Usable(ino: Inode, data: seq<Block>, table: nat) {
    Live(ino) ==>
      && Readable(ino, data) && ino.size <= BLOCKSIZE * MAX_BLOCKS
      && (Mapped(ino.size) > NUM_DIRECT ==> table < ino.indirect)
  }

  ghost predicate AllUsable(inodes: seq<Inode>, data: seq<Block>, table: nat) {
    forall k :: 1 <= k < |inodes| ==> Usable(inodes[k], data, table)
  }

  function Adds(ino: Inode, data: seq<Block>, table: nat, numBlocks: nat): set<nat> {
    if Live(ino) && Readable(ino, data) then Kept(MapOf(ino, data), table, numBlocks) else {}
  }

  lemma MarkedMore(used: set<nat>, inodes: seq<Inode>, data: seq<Block>, table: nat, numBlocks: nat, n: nat)
    requires 1 <= n < |inodes| && Marked(used, inodes, data, table, numBlocks, n)
    ensures Marked(used + Adds(inodes[n], data, table, numBlocks), inodes, data, table, numBlocks, n + 1)
  {
    forall b: nat
      ensures b in used + Adds(inodes[n], data, table, numBlocks) <==>
          (b <= table || (b < numBlocks && exists k :: 1 <= k < n + 1 && MapsTo(inodes[k], data, b)))
    {
      if b < numBlocks && b !in used {
        assert b in Adds(inodes[n], data, table, numBlocks) <==> b > table && MapsTo(inodes[n], data, b);
      }
    }
  }

  // One round of the loop over all inodes.
  method RebuildInode(fs: Server, i: nat)
    requires fs.Valid() && 1 <= i < fs.numInodes && i !in fs.icache.Map() && Usable(fs.Inodes[i], fs.Data, fs.Table())
    modifies fs.Repr
    ensures fs.Valid() && fs.Grown()
    ensures fs.Inodes == old(fs.Inodes) && fs.Data == old(fs.Data) && fs.Pending == old(fs.Pending)
    ensures fs.UsedInodes() == old(fs.UsedInodes()) + if Live(fs.Inodes[i]) then {i} else {}
    ensures fs.UsedBlocks() == old(fs.UsedBlocks()) + Adds(fs.Inodes[i], fs.Data, fs.Table(), fs.numBlocks)
    ensures forall k :: k in fs.icache.Map() ==> k in old(fs.icache.Map()) || (k == i && Live(fs.Inodes[i]))
    ensures Keys(fs.icache.q.Items) ==
        if Live(fs.Inodes[i]) then Access(old(Keys(fs.icache.q.Items)), INODE_CACHESIZE, i, true)
        else old(Keys(fs.icache.q.Items))
  {
    hide Server.Valid, Server.UsedBlocks, Server.UsedInodes, MapOf, Kept, Keys, Access;
    fs.StoreWithin();
    var res := fs.LoadInode(i);
    assert fs.Grown();
    if res.val.kind != INODE_FREE {
      fs.MarkInodeUsed(i);
      MarkFile(fs, res.val);
      fs.SetInodeLru(res);
    }
  }

  // Reserved blocks first: the boot block and the inode table.
  method MarkTable(fs: Server)
    requires fs.Valid() && 0 < fs.numInodes && fs.UsedBlocks() == {} && fs.UsedInodes() == {}
    modifies fs.blockBitmap, fs.inodeBitmap
    ensures fs.Valid() && fs.UsedInodes() == {0} && forall b: nat :: b in fs.UsedBlocks() <==> b <= fs.Table()
  {
    hide Server.Valid, Server.UsedBlocks, Server.UsedInodes;
    fs.MarkUsed(0);
    fs.MarkInodeUsed(0);
    for i := 1 to BlocksForInodes(fs.numInodes) + 1
      invariant fs.Valid() && fs.UsedInodes() == {0} && forall b: nat :: b in fs.UsedBlocks() <==> b < i
    {
      fs.MarkUsed(i);
    }
  }

  // The inode bitmap after the inodes below n have been gone through. Slot 0 counts as used.
  ghost predicate Numbered(used: set<nat>, inodes: seq<Inode>, n: nat)
    requires n <= |inodes|
  {
    forall k: nat :: k in used <==> k == 0 || (1 <= k < n && Live(inodes[k]))
  }

  // The allocated inodes among those from 1 to n, in order.
  function Allocated(inodes: seq<Inode>, n: nat): (r: seq<int>)
    requires n <= |inodes|
    ensures forall k :: k in r <==> 1 <= k < n && Live(inodes[k])
    ensures Distinct(r)
  {
    if n <= 1 then []
    else if Live(inodes[n - 1]) then Allocated(inodes, n - 1) + [n - 1]
    else Allocated(inodes, n - 1)
  }

  lemma NothingYet(inodes: seq<Inode>)
    requires 0 < |inodes|
    ensures Suffix(Allocated(inodes, 1), INODE_CACHESIZE) == []
  {
  }

  lemma OneMoreCached(inodes: seq<Inode>, n: nat)
    requires 1 <= n < |inodes|
    ensures Suffix(Allocated(inodes, n + 1), INODE_CACHESIZE) ==
        var before := Suffix(Allocated(inodes, n), INODE_CACHESIZE);
        if Live(inodes[n]) then Access(before, INODE_CACHESIZE, n, true) else before
  {
    hide Live;
    var all := Allocated(inodes, n);
    var last := Suffix(all, INODE_CACHESIZE);
    forall j | 0 <= j < |last|
      ensures last[j] != n
    {
      var x := all[|all| - |last| + j];
      assert last[j] == x && x in all;
    }
    assert n !in last;
  }

  // All inodes, from 1 on: bitmaps marked, allocated inodes cached.
  method Rebuild(fs: Server)
    requires fs.Valid() && 0 < fs.numInodes && fs.UsedBlocks() == {} && fs.UsedInodes() == {}
    requires fs.icache.Map() == map[] && fs.icache.q.Items == []
    requires AllUsable(fs.Inodes, fs.Data, fs.Table())
    modifies fs.Repr
    ensures fs.Valid() && fs.Grown() && fs.Settled()
    ensures fs.Inodes == old(fs.Inodes) && fs.Data == old(fs.Data) && fs.Pending == old(fs.Pending)
    ensures Marked(fs.UsedBlocks(), fs.Inodes, fs.Data, fs.Table(), fs.numBlocks, fs.numInodes)
    ensures Numbered(fs.UsedInodes(), fs.Inodes, fs.numInodes)
    ensures Keys(fs.icache.q.Items) == Suffix(Allocated(fs.Inodes, fs.numInodes), INODE_CACHESIZE)
  {
    hide Server.Valid, Server.UsedBlocks, Server.UsedInodes, Marked, Adds, Usable, Access, Suffix;
    NothingYet(fs.Inodes);
    MarkTable(fs);
    TableMarked(fs.UsedBlocks(), fs.Inodes, fs.Data, fs.Table(), fs.numBlocks);
    for i := 1 to fs.numInodes
      invariant fs.Valid() && fs.Grown()
      invariant fs.Inodes == old(fs.Inodes) && fs.Data == old(fs.Data) && fs.Pending == old(fs.Pending)
      invariant Marked(fs.UsedBlocks(), fs.Inodes, fs.Data, fs.Table(), fs.numBlocks, i)
      invariant Numbered(fs.UsedInodes(), fs.Inodes, i)
      invariant forall k :: k in fs.icache.Map() ==> 1 <= k < i && Live(fs.Inodes[k])
      invariant Keys(fs.icache.q.Items) == Suffix(Allocated(fs.Inodes, i), INODE_CACHESIZE)
    {
      OneMoreCached(fs.Inodes, i);
      MarkedMore(fs.UsedBlocks(), fs.Inodes, fs.Data, fs.Table(), fs.numBlocks, i);
      RebuildInode(fs, i);
    }
  }

  lemma TableMarked(used: set<nat>, inodes: seq<Inode>, data: seq<Block>, table: nat, numBlocks: nat)
    requires 0 < |inodes| && forall b: nat :: b in used <==> b <= table
    ensures Marked(used, inodes, data, table, numBlocks, 1)
  {
  }

  // struct fs_header, at the start of block 1.
  function HeaderBlocks(block: Block): Int32 {
    Decode32(block[0..4])
  }

  function HeaderInodes(block: Block): Int32 {
    Decode32(block[4..8])
  }

  lemma HeaderLayout(block: Block)
    ensures IntAt(block, 0, HeaderBlocks(block)) && IntAt(block, 4, HeaderInodes(block))
  {
    Decoded32(block, 0);
    Decoded32(block, 4);
  }

  lemma SlotsLayout(blocks: seq<Block>, n: nat)
    requires BlocksForInodes(n) < |blocks|
    ensures forall k :: 0 <= k < n ==> SlotAt(blocks, k, Slots(blocks, n)[k])
  {
    hide GetSlot, SlotAt;
    forall k | 0 <= k < n
      ensures InodeToBlock(k) < |blocks| && SlotAt(blocks, k, Slots(blocks, n)[k])
    {
      SlotLayout(blocks, k);
    }
  }

  // An image the program can start on.
  ghost predicate Mountable(blocks: seq<Block>) {
    && 1 < |blocks| && 0 < HeaderInodes(blocks[1])
    && BlocksForInodes(HeaderInodes(blocks[1])) < HeaderBlocks(blocks[1]) <= |blocks|
    && AllUsable(Slots(blocks, HeaderInodes(blocks[1])), blocks, BlocksForInodes(HeaderInodes(blocks[1])))
  }

  // init_inode_block()
  method InitInodeBlock(store: BlockStore) returns (fs: Server)
    requires store.Valid() && Mountable(store.Blocks)
    modifies store.Repr
    ensures fs.Valid() && fs.Settled() && fs.store == store && fresh(fs) && fresh(fs.Repr - old(store.Repr))
    ensures fs.numBlocks == HeaderBlocks(old(store.Blocks)[1]) && fs.numInodes == HeaderInodes(old(store.Blocks)[1])
    ensures fs.Inodes == Slots(old(store.Blocks), fs.numInodes) && fs.Data == old(store.Blocks) && fs.Pending == {}
    ensures Marked(fs.UsedBlocks(), fs.Inodes, fs.Data, fs.Table(), fs.numBlocks, fs.numInodes)
    ensures Numbered(fs.UsedInodes(), fs.Inodes, fs.numInodes)
    // cached are the last allocated inodes
    ensures Keys(fs.icache.q.Items) == Suffix(Allocated(fs.Inodes, fs.numInodes), INODE_CACHESIZE)
    // the same in terms of the bytes of the image
    ensures IntAt(old(store.Blocks)[1], 0, fs.numBlocks) && IntAt(old(store.Blocks)[1], 4, fs.numInodes)
    ensures forall k :: 0 <= k < |fs.Inodes| ==> SlotAt(old(store.Blocks), k, fs.Inodes[k])
  {
    hide BlockStore.Valid, Server.Valid, Server.UsedBlocks, Server.UsedInodes, Marked, Adds, Usable, Slots,
      HeaderBlocks, HeaderInodes, SlotAt, IntAt, Keys, Suffix;
    ghost var image := store.Blocks;
    HeaderLayout(image[1]);
    SlotsLayout(image, HeaderInodes(image[1]));
    var tempBlock := store.GetBlock(InodeToBlock(0));
    var numInodes, numBlocks := HeaderInodes(tempBlock.val), HeaderBlocks(tempBlock.val);
    fs := new Server(store, numBlocks, numInodes);
    Rebuild(fs);
  }
}
