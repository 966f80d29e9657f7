// Reading and writing the bytes of a file: ReadHandler() and WriteHandler() of yfs.c.
module ByteIO {
  import opened Sequences
  import opened Layout
  import opened RecencyQueue
  import opened BlockMap
  import opened Growth
  import opened FileSystem
  import opened Allocator
  import opened Conservation
  import BlockCache
  import LruCache
  import Bitmap

  // The part of s that a read of size bytes at position can reach.
  function Slice<T>(s: seq<T>, position: nat, size: int): (r: seq<T>)
    ensures |r| == if size <= 0 || position >= |s| then 0 else if size <= |s| - position then size else |s| - position
  {
    if size <= 0 || position >= |s| then [] else s[position..if size <= |s| - position then position + size else |s|]
  }

  // s with bytes laid over it from off on; what would fall off the end is dropped.
  function Overwrite<T>(s: seq<T>, off: nat, bytes: seq<T>): (r: seq<T>)
    ensures |r| == |s|
  {
    seq(|s|, p requires 0 <= p < |s| => if off <= p < off + |bytes| then bytes[p - off] else s[p])
  }

  // Two consecutive reads, the second starting where the first ended, are one read.
  lemma SliceSplit<T>(s: seq<T>, position: nat, a: nat, b: nat)
    ensures Slice(s, position, a) + Slice(s, position + |Slice(s, position, a)|, b) == Slice(s, position, a + b)
  {
  }

  // Two consecutive writes are one write.
  lemma OverwriteTwice<T>(s: seq<T>, off: nat, a: seq<T>, b: seq<T>)
    ensures Overwrite(Overwrite(s, off, a), off + |a|, b) == Overwrite(s, off, a + b)
  {
  }

  lemma OverwriteNone<T>(s: seq<T>, off: nat)
    ensures Overwrite(s, off, []) == s
  {
  }

  // A read at the same place sees what was written, as far as s reaches.
  lemma ReadBack<T>(s: seq<T>, off: nat, bytes: seq<T>, len: nat)
    requires len <= |s|
    ensures Slice(Overwrite(s, off, bytes)[..len], off, |bytes|) == bytes[..|Slice(s[..len], off, |bytes|)|]
  {
    var u := Overwrite(s, off, bytes)[..len];
    assert forall i :: 0 <= i < |Slice(u, off, |bytes|)| ==> Slice(u, off, |bytes|)[i] == u[off + i];
  }

  // A read elsewhere sees what was there before.
  lemma ReadElsewhere<T>(s: seq<T>, off: nat, bytes: seq<T>, len: nat, p: nat, n: nat)
    requires len <= |s| && (p + n <= off || off + |bytes| <= p)
    ensures Slice(Overwrite(s, off, bytes)[..len], p, n) == Slice(s[..len], p, n)
  {
    var t, u := s[..len], Overwrite(s, off, bytes)[..len];
    assert forall i :: 0 <= i < |Slice(u, p, n)| ==> Slice(u, p, n)[i] == u[p + i] && Slice(t, p, n)[i] == t[p + i];
  }

  // Writing inside one data block of a file writes those bytes of the file.
  lemma BlockWrite(ino: Inode, data: seq<Block>, j: nat, off: nat, bytes: seq<Byte>)
    requires Addressable(ino, data) && Distinct(Owned(ino, data)) && j < Mapped(ino.size) && off + |bytes| <= BLOCKSIZE
    ensures var b := MapOf(ino, data)[j];
      var data' := data[b := Splice(data[b], off, bytes)];
      && Addressable(ino, data') && Owned(ino, data') == Owned(ino, data) && MapOf(ino, data') == MapOf(ino, data)
      && FileBytes(ino, data') == Overwrite(FileBytes(ino, data), BLOCKSIZE * j + off, bytes)
  {
    var blocks := MapOf(ino, data);
    var b := blocks[j];
    var data' := data[b := Splice(data[b], off, bytes)];
    MapApart(ino, data, j);
    OwnedFrame(ino, data, data');
    forall p | 0 <= p < BLOCKSIZE * Mapped(ino.size)
      ensures FileBytes(ino, data')[p] == Overwrite(FileBytes(ino, data), BLOCKSIZE * j + off, bytes)[p]
    {
      if p / BLOCKSIZE == j {
        assert p == BLOCKSIZE * j + p % BLOCKSIZE;
      } else {
        assert blocks[p / BLOCKSIZE] != b;
        assert !(BLOCKSIZE * j <= p < BLOCKSIZE * j + BLOCKSIZE);
      }
    }
    assert FileBytes(ino, data') == Overwrite(FileBytes(ino, data), BLOCKSIZE * j + off, bytes);
  }

  // The same, for the file system as a whole: nobody else's block is hit.
  lemma BlockWriteSound(inodes: seq<Inode>, data: seq<Block>, used: set<nat>, table: nat, numBlocks: nat, k: nat,
                        j: nat, block: Block)
    requires Sound(inodes, data, used, table, numBlocks) && k < |inodes| && Live(inodes[k])
    requires Readable(inodes[k], data) && j < Mapped(inodes[k].size)
    ensures table < MapOf(inodes[k], data)[j] < |data|
    ensures Sound(inodes, data[MapOf(inodes[k], data)[j] := block], used, table, numBlocks)
    ensures forall i :: 0 <= i < |inodes| && i != k && Live(inodes[i]) ==>
        SameFile(inodes[i], data, data[MapOf(inodes[k], data)[j] := block])
  {
    var ino := inodes[k];
    var b := MapOf(ino, data)[j];
    assert Owned(ino, data)[j] == b && b in Owned(ino, data);
    MapApart(ino, data, j);
    var data' := data[b := block];
    OwnedFrame(ino, data, data');
    Replace(inodes, data, used, table, numBlocks, k, ino, data', used, {b});
    assert inodes[k := ino] == inodes;
  }

  lemma AtBlock(fs: Server, k: nat, j: nat)
    requires fs.Valid() && fs.Sound() && k < fs.numInodes && Live(fs.Inodes[k]) && fs.Inodes[k].size >= 0
    requires j < Mapped(fs.Inodes[k].size)
    ensures Addressable(fs.Inodes[k], fs.Data) && Distinct(Owned(fs.Inodes[k], fs.Data))
    ensures fs.Table() < MapOf(fs.Inodes[k], fs.Data)[j] < |fs.Data|
    ensures j >= NUM_DIRECT ==> fs.Table() < fs.Inodes[k].indirect < |fs.Data|
    ensures MapOf(fs.Inodes[k], fs.Data)[j] == Entry(fs.Inodes[k], fs.Data, j)
  {
    hide Server.Valid, Server.UsedBlocks;
    var ino := fs.Inodes[k];
    BlockWriteSound(fs.Inodes, fs.Data, fs.UsedBlocks(), fs.Table(), fs.numBlocks, k, j, ZeroBlock());
    SoundStart(fs, k);
    SoundAddressable(ino, fs.Data, fs.UsedBlocks(), fs.Table(), fs.numBlocks);
  }

  // The cached copy of a file's j-th block.
  method FetchBlock(fs: Server, ino: Inode, ghost k: nat, j: nat) returns (binfo: Node<Block>)
    requires fs.Valid() && fs.Sound() && k < fs.numInodes && ino == fs.Inodes[k] && Live(ino)
    requires ino.size >= 0 && j < Mapped(ino.size)
    modifies fs`Repr, fs.store.Repr
    ensures fs.Valid() && fs.Grown() && fs.SameState() && fs.SameCache() && Addressable(ino, fs.Data)
    ensures fs.Holds(MapOf(ino, fs.Data)[j], binfo) && binfo.val == fs.Data[MapOf(ino, fs.Data)[j]]
  {
    hide Server.Valid, Server.UsedBlocks, Server.UsedInodes, BlockMap.Sound, MapOf, Owned;
    AtBlock(fs, k, j);
    if j < NUM_DIRECT {
      binfo := fs.GetBlock(ino.direct[j]);
    } else {
      var indirectbinfo := fs.GetBlock(ino.indirect);
      var bnum := GetInt(indirectbinfo.val, j - NUM_DIRECT);
      binfo := fs.GetBlock(bnum);
    }
  }

  // The contents of file k.
  ghost function Text(fs: Server, k: nat): seq<Byte>
    reads fs
  {
    if k < |fs.Inodes| then TextOf(fs.Inodes[k], fs.Data) else []
  }

  // memcpy into the caller's buffer
  method CopyIn(buf: array<Byte>, at: nat, bytes: seq<Byte>)
    requires at + |bytes| <= buf.Length
    modifies buf
    ensures buf[..] == Overwrite(old(buf[..]), at, bytes)
  {
    for i := 0 to |bytes|
      invariant forall p :: 0 <= p < buf.Length ==> buf[p] == if at <= p < at + i then bytes[p - at] else old(buf[p])
    {
      buf[at + i] := bytes[i];
    }
  }

  // Whether a transfer reaches a block number that the block map cannot name.
  predicate PastMap(position: nat, size: int, fileSize: int) {
    size > 0 && position < fileSize && BLOCKSIZE * MAX_BLOCKS < fileSize && BLOCKSIZE * MAX_BLOCKS < position + size
  }

  // Some byte asked for lies within the file, but beyond its 140th block.
  lemma PastMapMeans(position: nat, size: int, fileSize: int)
    ensures PastMap(position, size, fileSize) <==>
        exists p :: position <= p < position + size && p < fileSize && p / BLOCKSIZE >= 140
  {
    if PastMap(position, size, fileSize) {
      var p := if position <= BLOCKSIZE * MAX_BLOCKS then BLOCKSIZE * MAX_BLOCKS else position;
      assert p / BLOCKSIZE >= 140;
    }
  }

  // What a buffer holds after a read, byte by byte.
  lemma BytesRead(text: seq<Byte>, position: nat, size: int, was: seq<Byte>)
    requires size <= |was|
    ensures var part := Slice(text, position, size);
      forall p :: 0 <= p < |was| ==>
        Overwrite(was, 0, part)[p] == if p < |part| then text[position + p] else was[p]
  {
  }

  lemma DivMod(j: nat, off: nat)
    requires off < BLOCKSIZE
    ensures (BLOCKSIZE * j + off) / BLOCKSIZE == j && (BLOCKSIZE * j + off) % BLOCKSIZE == off
  {
  }

  lemma BlockBytes(ino: Inode, data: seq<Block>, j: nat, off: nat, pos: nat, count: nat)
    requires Addressable(ino, data) && j < Mapped(ino.size) && pos == BLOCKSIZE * j + off
    requires off + count <= BLOCKSIZE && pos + count <= ino.size
    ensures pos + count <= |Contents(ino, data)|
    ensures data[MapOf(ino, data)[j]][off..off + count] == Slice(Contents(ino, data), pos, count)
  {
    var bytes, c := data[MapOf(ino, data)[j]][off..off + count], Contents(ino, data);
    assert pos + count <= BLOCKSIZE * Mapped(ino.size);
    forall i | 0 <= i < count
      ensures bytes[i] == Slice(c, pos, count)[i]
    {
      DivMod(j, off + i);
      assert c[pos + i] == FileBytes(ino, data)[pos + i];
    }
  }

  lemma ReadMore<T>(c: seq<T>, was: seq<T>, position: nat, total: nat, count: nat)
    requires position + total + count <= |c| && total + count <= |was|
    ensures Overwrite(Overwrite(was, 0, Slice(c, position, total)), total, Slice(c, position + total, count))
         == Overwrite(was, 0, Slice(c, position, total + count))
  {
    SliceSplit(c, position, total, count);
    OverwriteTwice(was, 0, Slice(c, position, total), Slice(c, position + total, count));
  }

  // One round of ReadHandler()'s loop: the part of block j that was asked for.
  method ReadChunk(fs: Server, ino: Inode, ghost k: nat, j: nat, off: nat, ghost pos: nat, buf: array<Byte>,
                   at: nat, count: nat)
    requires fs.Valid() && fs.Sound() && k < fs.numInodes && ino == fs.Inodes[k] && Live(ino) && ino.size >= 0
    requires j < Mapped(ino.size) && pos == BLOCKSIZE * j + off && off + count <= BLOCKSIZE && pos + count <= ino.size
    requires buf !in fs.Repr && at + count <= buf.Length
    modifies fs`Repr, fs.store.Repr, buf
    ensures fs.Valid() && fs.Grown() && fs.SameState() && fs.SameCache()
    ensures pos + count <= |Text(fs, k)| && buf[..] == Overwrite(old(buf[..]), at, Slice(Text(fs, k), pos, count))
  {
    hide Server.Valid, Server.UsedBlocks, Server.UsedInodes, BlockMap.Sound, MapOf, Owned, Contents;
    fs.StoreWithin();
    var binfo := FetchBlock(fs, ino, k, j);
    BlockBytes(ino, fs.Data, j, off, pos, count);
    CopyIn(buf, at, binfo.val[off..off + count]);
  }

  lemma Locate(pos: nat, size: nat)
    requires pos < size
    ensures pos == BLOCKSIZE * (pos / BLOCKSIZE) + pos % BLOCKSIZE && pos % BLOCKSIZE < BLOCKSIZE
    ensures pos / BLOCKSIZE < BlocksFor(size)
    ensures pos / BLOCKSIZE >= MAX_BLOCKS <==> pos >= BLOCKSIZE * MAX_BLOCKS
  {
  }

  lemma TextLength(fs: Server, k: nat)
    requires fs.Valid() && fs.Sound() && k < fs.numInodes && Live(fs.Inodes[k])
    ensures 0 <= fs.Inodes[k].size
    ensures |Text(fs, k)| ==
        if fs.Inodes[k].size <= BLOCKSIZE * MAX_BLOCKS then fs.Inodes[k].size else BLOCKSIZE * MAX_BLOCKS
  {
    hide Server.Valid, Server.UsedBlocks;
    SoundAddressable(fs.Inodes[k], fs.Data, fs.UsedBlocks(), fs.Table(), fs.numBlocks);
  }

  // One round of ReadHandler()'s loop: what can be had from the block at pos, at most left bytes.
  method ReadStep(fs: Server, info: Node<Inode>, ghost k: nat, pos: nat, left: int, buf: array<Byte>, at: nat)
    returns (readCount: int)
    requires fs.Valid() && fs.Sound() && fs.Has(k, info) && k < fs.numInodes && Live(fs.Inodes[k])
    requires info.val == fs.Inodes[k]
    requires pos < info.val.size && 0 < left && at + left <= buf.Length && buf !in fs.Repr
    modifies fs`Repr, fs.store.Repr, buf
    ensures fs.Valid() && fs.Grown() && fs.SameState() && fs.SameCache()
    ensures pos >= BLOCKSIZE * MAX_BLOCKS ==> readCount == -1 && buf[..] == old(buf[..])
    ensures pos < BLOCKSIZE * MAX_BLOCKS ==> 0 < readCount <= left && pos + readCount <= |Text(fs, k)|
    ensures pos < BLOCKSIZE * MAX_BLOCKS ==> buf[..] == Overwrite(old(buf[..]), at, Slice(Text(fs, k), pos, readCount))
  {
    hide Server.Valid, Server.UsedBlocks, Server.UsedInodes, BlockMap.Sound, Text, BlocksFor, Overwrite, Slice;
    Locate(pos, info.val.size);
    var blockNum, blockOffset := pos / BLOCKSIZE, pos % BLOCKSIZE;
    if blockNum >= MAX_BLOCKS {
      return -1;
    }
    var fileLeft, blockLeft := info.val.size - pos, BLOCKSIZE - blockOffset;
    readCount := left;
    if readCount > fileLeft {
      readCount := fileLeft;
    }
    if readCount > blockLeft {
      readCount := blockLeft;
    }
    ReadChunk(fs, info.val, k, blockNum, blockOffset, pos, buf, at, readCount);
  }

  lemma ReadOver<T>(c: seq<T>, position: nat, total: nat, size: int, fileSize: nat)
    requires |c| == if fileSize <= BLOCKSIZE * MAX_BLOCKS then fileSize else BLOCKSIZE * MAX_BLOCKS
    requires total == 0 || (total <= size && position + total <= |c|)
    requires total >= size || position + total >= fileSize || position + total >= BLOCKSIZE * MAX_BLOCKS
    ensures Slice(c, position, size) == Slice(c, position, total) && |Slice(c, position, size)| == total
    ensures PastMap(position, size, fileSize) <==> total < size && position + total < fileSize
  {
  }

  // The loop of ReadHandler().
  method ReadLoop(fs: Server, info: Node<Inode>, ghost k: nat, position: nat, buf: array<Byte>, size: int)
    returns (r: int)
    requires fs.Valid() && fs.Sound() && fs.Has(k, info) && k < fs.numInodes && Live(fs.Inodes[k])
    requires size <= buf.Length && buf !in fs.Repr
    modifies fs`Repr, fs.store.Repr, buf
    ensures fs.Valid() && fs.Grown() && fs.SameState() && fs.SameCache()
    ensures r == if PastMap(position, size, fs.Inodes[k].size) then -1 else |Slice(Text(fs, k), position, size)|
    ensures buf[..] == Overwrite(old(buf[..]), 0, Slice(Text(fs, k), position, size))
  {
    hide Server.Valid, Server.UsedBlocks, Server.UsedInodes, BlockMap.Sound, TextOf, Overwrite, Slice, PastMap;
    fs.Cached(k);
    TextLength(fs, k);
    var totalReadCount := 0;
    ghost var c := Text(fs, k);
    OverwriteNone(buf[..], 0);
    ghost var size0: nat := info.val.size;
    while totalReadCount < size && position + totalReadCount < info.val.size
      invariant fs.Valid() && fs.Grown() && fs.SameState() && fs.SameCache() && buf !in fs.Repr
      invariant totalReadCount == 0 || (0 < totalReadCount <= size && position + totalReadCount <= |c|)
      invariant buf[..] == Overwrite(old(buf[..]), 0, Slice(c, position, totalReadCount))
      invariant info.val.size == size0
      decreases size - totalReadCount
    {
      fs.Cached(k);
      var readCount := ReadStep(fs, info, k, position + totalReadCount, size - totalReadCount, buf, totalReadCount);
      if readCount == -1 {
        ReadOver(c, position, totalReadCount, size, size0);
        return -1;
      }
      ReadMore(c, old(buf[..]), position, totalReadCount, readCount);
      totalReadCount := totalReadCount + readCount;
    }
    ReadOver(c, position, totalReadCount, size, size0);
    r := totalReadCount;
  }

  // ReadHandler(): ERROR for an inode that is not allocated, and for reads past the block map.
  method ReadHandler(fs: Server, inum: nat, position: nat, buf: array<Byte>, size: int) returns (r: int)
    requires fs.Valid() && fs.Sound() && fs.Settled() && inum < fs.numInodes
    requires size <= buf.Length && buf !in fs.Repr
    modifies fs.Repr, buf
    ensures fs.Valid() && fs.Sound() && fs.Settled() && fs.Grown() && fs.SameState()
    ensures Live(fs.Inodes[inum]) ==>
        && 0 <= fs.Inodes[inum].size
        && r == (if PastMap(position, size, fs.Inodes[inum].size) then -1 else |Slice(Text(fs, inum), position, size)|)
        && buf[..] == Overwrite(old(buf[..]), 0, Slice(Text(fs, inum), position, size))
    ensures !Live(fs.Inodes[inum]) ==> r == -1 && buf[..] == old(buf[..])
    // byte by byte
    ensures 0 <= r ==>
        && (r > 0 ==> position + r <= |Text(fs, inum)|)
        && forall p :: 0 <= p < buf.Length ==> buf[p] == if p < r then Text(fs, inum)[position + p] else old(buf[p])
    ensures inum in old(fs.icache.Map()) ==> fs.icache.Map() == old(fs.icache.Map())
  {
    hide Server.Valid, Server.UsedBlocks, Server.UsedInodes, BlockMap.Sound, TextOf, Overwrite, Slice, PastMap;
    var curInodeInfo := fs.GetUseInode(inum);
    if curInodeInfo == null {
      return -1;
    }
    TextLength(fs, inum);
    fs.StoreWithin();
    BytesRead(Text(fs, inum), position, size, buf[..]);
    ghost var was := buf[..];
    r := ReadLoop(fs, curInodeInfo, inum, position, buf, size);
    assert forall p :: 0 <= p < buf.Length ==> buf[p] == buf[..][p] && was[p] == old(buf[p]);
  }

  // Between two images, bytes have been laid over the blocks of file k; every block map is as it was
  // and so are all other files.
  ghost predicate Rewrites(inodes: seq<Inode>, k: nat, data: seq<Block>, data': seq<Block>, off: nat, bytes: seq<Byte>)
    requires k < |inodes|
  {
    && |data'| == |data|
    && (forall i :: 0 <= i < |inodes| && i != k && Live(inodes[i]) ==> SameFile(inodes[i], data, data'))
    && Addressable(inodes[k], data) && Addressable(inodes[k], data')
    && Owned(inodes[k], data') == Owned(inodes[k], data)
    && FileBytes(inodes[k], data') == Overwrite(FileBytes(inodes[k], data), off, bytes)
  }

  lemma RewritesNone(inodes: seq<Inode>, k: nat, data: seq<Block>, used: set<nat>, table: nat, numBlocks: nat, off: nat)
    requires Sound(inodes, data, used, table, numBlocks) && k < |inodes| && Live(inodes[k])
    ensures Rewrites(inodes, k, data, data, off, [])
  {
    SoundAddressable(inodes[k], data, used, table, numBlocks);
    OverwriteNone(FileBytes(inodes[k], data), off);
  }

  lemma RewritesTwice(inodes: seq<Inode>, k: nat, data: seq<Block>, data': seq<Block>, data'': seq<Block>,
                      off: nat, a: seq<Byte>, b: seq<Byte>)
    requires k < |inodes| && Rewrites(inodes, k, data, data', off, a)
    requires Rewrites(inodes, k, data', data'', off + |a|, b)
    ensures Rewrites(inodes, k, data, data'', off, a + b)
  {
    OverwriteTwice(FileBytes(inodes[k], data), off, a, b);
  }

  lemma RewritesSound(inodes: seq<Inode>, k: nat, data: seq<Block>, data': seq<Block>, off: nat, bytes: seq<Byte>,
                      used: set<nat>, table: nat, numBlocks: nat)
    requires k < |inodes| && Rewrites(inodes, k, data, data', off, bytes) && Sound(inodes, data, used, table, numBlocks)
    ensures Sound(inodes, data', used, table, numBlocks)
    ensures Exact(inodes, data', used, table) <==> Exact(inodes, data, used, table)
  {
    forall b | b in used
      ensures (exists i :: 0 <= i < |inodes| && Owns(inodes[i], data, b))
          <==> (exists i :: 0 <= i < |inodes| && Owns(inodes[i], data', b))
    {
      SameOwner(inodes, inodes, k, data, data', b);
    }
  }

  lemma WriteRewrites(inodes: seq<Inode>, k: nat, data: seq<Block>, used: set<nat>, table: nat, numBlocks: nat,
                      j: nat, off: nat, pos: nat, bytes: seq<Byte>)
    requires Sound(inodes, data, used, table, numBlocks) && k < |inodes| && Live(inodes[k])
    requires Readable(inodes[k], data) && j < Mapped(inodes[k].size) && pos == BLOCKSIZE * j + off
    requires off + |bytes| <= BLOCKSIZE
    ensures table < MapOf(inodes[k], data)[j] < |data|
    ensures var b := MapOf(inodes[k], data)[j];
      Rewrites(inodes, k, data, data[b := Splice(data[b], off, bytes)], pos, bytes)
  {
    var b := MapOf(inodes[k], data)[j];
    SoundAddressable(inodes[k], data, used, table, numBlocks);
    BlockWriteSound(inodes, data, used, table, numBlocks, k, j, Splice(data[b], off, bytes));
    BlockWrite(inodes[k], data, j, off, bytes);
  }

  // One round of WriteHandler()'s loop, for block j.
  method WriteChunk(fs: Server, ino: Inode, ghost k: nat, j: nat, off: nat, ghost pos: nat, bytes: seq<Byte>)
    requires fs.Valid() && fs.Sound() && k < fs.numInodes && ino == fs.Inodes[k] && Live(ino) && ino.size >= 0
    requires j < Mapped(ino.size) && pos == BLOCKSIZE * j + off && off + |bytes| <= BLOCKSIZE
    modifies fs`Repr, fs`Data, fs.store.Repr
    ensures fs.Valid() && fs.Sound() && fs.Grown() && fs.SameCache() && (fs.NoLeaks() <==> old(fs.NoLeaks()))
    ensures fs.Inodes == old(fs.Inodes) && fs.UsedBlocks() == old(fs.UsedBlocks())
    ensures fs.UsedInodes() == old(fs.UsedInodes())
    ensures Rewrites(fs.Inodes, k, old(fs.Data), fs.Data, pos, bytes)
  {
    hide Server.Valid, Server.UsedBlocks, Server.UsedInodes, BlockMap.Sound, BlockMap.Exact, MapOf, Owned, Rewrites;
    AtBlock(fs, k, j);
    ghost var data := fs.Data;
    var binfo := FetchBlock(fs, ino, k, j);
    fs.StoreWithin();
    WriteRewrites(fs.Inodes, k, data, fs.UsedBlocks(), fs.Table(), fs.numBlocks, j, off, pos, bytes);
    fs.WriteData(binfo, binfo.key, Splice(binfo.val, off, bytes));
    RewritesSound(fs.Inodes, k, data, fs.Data, pos, bytes, fs.UsedBlocks(), fs.Table(), fs.numBlocks);
  }

  lemma WriteStart(fs: Server, k: nat, off: nat)
    requires fs.Valid() && fs.Sound() && k < fs.numInodes && Live(fs.Inodes[k])
    ensures Rewrites(fs.Inodes, k, fs.Data, fs.Data, off, []) && 0 <= fs.Inodes[k].size
  {
    RewritesNone(fs.Inodes, k, fs.Data, fs.UsedBlocks(), fs.Table(), fs.numBlocks, off);
  }

  // How many bytes a write of size bytes at position stores in a file of fileSize bytes: nothing
  // from the end of the file on, otherwise as much as fits into the file's blocks.
  function Stored(position: nat, size: int, fileSize: nat): (n: nat)
    ensures size <= 0 ==> n == 0
    ensures 0 <= size ==> n <= size
  {
    if size <= 0 || position >= fileSize || position >= BLOCKSIZE * Mapped(fileSize) then 0
    else if size <= BLOCKSIZE * Mapped(fileSize) - position then size
    else BLOCKSIZE * Mapped(fileSize) - position
  }

  // One round of WriteHandler()'s loop: the bytes of buf from at on that belong into the block at pos.
  method WriteStep(fs: Server, info: Node<Inode>, ghost k: nat, pos: nat, left: int, buf: seq<Byte>, at: nat)
    returns (writeCount: int)
    requires fs.Valid() && fs.Sound() && fs.Has(k, info) && k < fs.numInodes && Live(fs.Inodes[k])
    requires info.val == fs.Inodes[k]
    requires pos < info.val.size && 0 < left && at + left <= |buf|
    modifies fs`Repr, fs`Data, fs.store.Repr
    ensures fs.Valid() && fs.Sound() && fs.Grown() && fs.SameCache() && (fs.NoLeaks() <==> old(fs.NoLeaks()))
    ensures fs.Inodes == old(fs.Inodes) && fs.UsedBlocks() == old(fs.UsedBlocks())
    ensures fs.UsedInodes() == old(fs.UsedInodes())
    ensures pos >= BLOCKSIZE * MAX_BLOCKS ==> writeCount == -1 && fs.Data == old(fs.Data)
    ensures pos < BLOCKSIZE * MAX_BLOCKS ==>
        && 0 < writeCount <= left && pos + writeCount <= BLOCKSIZE * Mapped(info.val.size)
        && (writeCount == left || (pos + writeCount) % BLOCKSIZE == 0)
        && Rewrites(fs.Inodes, k, old(fs.Data), fs.Data, pos, buf[at..at + writeCount])
  {
    hide Server.Valid, Server.UsedBlocks, Server.UsedInodes, BlockMap.Sound, BlockMap.Exact, Rewrites, BlocksFor;
    Locate(pos, info.val.size);
    var blockNum, blockOffset := pos / BLOCKSIZE, pos % BLOCKSIZE;
    if blockNum >= MAX_BLOCKS {
      return -1;
    }
    var blockLeft := BLOCKSIZE - blockOffset;
    writeCount := left;
    if writeCount > blockLeft {
      writeCount := blockLeft;
    }
    WriteChunk(fs, info.val, k, blockNum, blockOffset, pos, buf[at..at + writeCount]);
    BlockEnd(blockNum, blockOffset, writeCount, info.val.size);
  }

  lemma BlockEnd(j: nat, off: nat, count: nat, size: nat)
    requires j < Mapped(size) && off + count <= BLOCKSIZE
    ensures BLOCKSIZE * j + off + count <= BLOCKSIZE * Mapped(size)
    ensures off + count == BLOCKSIZE ==> (BLOCKSIZE * j + off + count) % BLOCKSIZE == 0
  {
    assert BLOCKSIZE * (j + 1) <= BLOCKSIZE * Mapped(size);
  }

  lemma WriteOver(position: nat, total: nat, size: int, fileSize: nat)
    requires total == 0 || (total <= size && position < fileSize && position + total <= BLOCKSIZE * Mapped(fileSize))
    requires total == 0 || total == size || (position + total) % BLOCKSIZE == 0
    requires total >= size || position + total >= fileSize || position + total >= BLOCKSIZE * MAX_BLOCKS
    ensures Stored(position, size, fileSize) == total
    ensures PastMap(position, size, fileSize) <==> total < size && position + total < fileSize
  {
    if total < size && 0 < total && position + total >= fileSize {
      BoundaryIsEnd(position + total, fileSize);
    }
  }

  lemma BoundaryIsEnd(end: nat, fileSize: nat)
    requires fileSize <= end <= BLOCKSIZE * Mapped(fileSize) && end % BLOCKSIZE == 0
    ensures end == BLOCKSIZE * Mapped(fileSize)
  {
    assert end == BLOCKSIZE * (end / BLOCKSIZE);
  }

  // The loop of WriteHandler().
  method WriteLoop(fs: Server, info: Node<Inode>, ghost k: nat, position: nat, buf: seq<Byte>, size: int)
    returns (r: int)
    requires fs.Valid() && fs.Sound() && fs.Has(k, info) && k < fs.numInodes && Live(fs.Inodes[k]) && size <= |buf|
    modifies fs`Repr, fs`Data, fs.store.Repr
    ensures fs.Valid() && fs.Sound() && fs.Grown() && fs.SameCache() && (fs.NoLeaks() <==> old(fs.NoLeaks()))
    ensures fs.Inodes == old(fs.Inodes) && fs.UsedBlocks() == old(fs.UsedBlocks())
    ensures fs.UsedInodes() == old(fs.UsedInodes())
    ensures 0 <= fs.Inodes[k].size
    ensures r == if PastMap(position, size, fs.Inodes[k].size) then -1 else Stored(position, size, fs.Inodes[k].size)
    ensures Rewrites(fs.Inodes, k, old(fs.Data), fs.Data, position, buf[..Stored(position, size, fs.Inodes[k].size)])
  {
    hide Server.Valid, Server.UsedBlocks, Server.UsedInodes, BlockMap.Sound, BlockMap.Exact, Rewrites, BlocksFor,
      Stored, PastMap;
    fs.Cached(k);
    WriteStart(fs, k, position);
    var totalWriteCount := 0;
    ghost var data, size0: nat := fs.Data, info.val.size;
    while totalWriteCount < size && position + totalWriteCount < info.val.size
      invariant fs.Valid() && fs.Sound() && fs.Grown() && fs.SameCache() && (fs.NoLeaks() <==> old(fs.NoLeaks()))
      invariant fs.Inodes == old(fs.Inodes) && fs.UsedBlocks() == old(fs.UsedBlocks())
      invariant fs.UsedInodes() == old(fs.UsedInodes())
      invariant totalWriteCount == 0 || (0 < totalWriteCount <= size && position < size0)
      invariant totalWriteCount == 0 || position + totalWriteCount <= BLOCKSIZE * Mapped(size0)
      invariant totalWriteCount == 0 || totalWriteCount == size || (position + totalWriteCount) % BLOCKSIZE == 0
      invariant Rewrites(fs.Inodes, k, data, fs.Data, position, buf[..totalWriteCount])
      invariant info.val.size == size0
      decreases size - totalWriteCount
    {
      fs.Cached(k);
      ghost var was := fs.Data;
      var reqLeft := size - totalWriteCount;
      var writeCount := WriteStep(fs, info, k, position + totalWriteCount, reqLeft, buf, totalWriteCount);
      assert fs.Grown() && fs.SameCache();
      if writeCount == -1 {
        WriteOver(position, totalWriteCount, size, size0);
        return -1;
      }
      ghost var done, more := buf[..totalWriteCount], buf[totalWriteCount..totalWriteCount + writeCount];
      RewritesTwice(fs.Inodes, k, data, was, fs.Data, position, done, more);
      assert done + more == buf[..totalWriteCount + writeCount];
      totalWriteCount := totalWriteCount + writeCount;
    }
    WriteOver(position, totalWriteCount, size, size0);
    r := totalWriteCount;
  }

  // WriteHandler()'s test for more blocks. It is by whole blocks and counts one block too many.
  predicate Grows(position: nat, size: int, fileSize: nat) {
    position + size > BLOCKSIZE * (fileSize / BLOCKSIZE + 1)
  }

  // The one way a write can lose blocks: its extension is cut short.
  predicate CutsShort(position: nat, size: int, fileSize: int, free: nat) {
    0 <= fileSize && Grows(position, size, fileSize) && Stops(fileSize, position + size, free)
  }

  // What the test and the extension after it do to the file, whose result WriteHandler() ignores.
  ghost predicate Resized(v: View, w: View, position: nat, size: int, numBlocks: nat)
    requires 0 <= v.ino.size
  {
    var free := |Bitmap.Free(v.used, numBlocks)|;
    if !Grows(position, size, v.ino.size) then w == v
    else if Fits(v.ino.size, position + size, free) then Extended(v, w, position + size)
    else if Underestimated(v.ino.size, position + size, free) then
      CutShort(v, w) && Bitmap.Free(w.used, numBlocks) == {}
    else w == v
  }

  lemma WhyNot(size: nat, newsize: int, free: nat)
    requires !Fits(size, newsize, free)
    ensures newsize >= 0 && Underestimated(size, newsize, free) ==> size <= newsize && Need(size, newsize) <= free
    ensures newsize < size || Need(size, newsize) > free || Underestimated(size, newsize, free)
  {
  }

  // An extension cut short leaves size, blocks and bytes of the file as they were.
  lemma CutShortBytes(v: View, w: View, table: nat, numBlocks: nat)
    requires CutShort(v, w) && SoundInode(v.ino, v.data, v.used, table, numBlocks) && numBlocks <= |v.data|
    ensures w.ino.size == v.ino.size && Addressable(v.ino, v.data) && Addressable(w.ino, w.data)
    ensures Mapped(w.ino.size) == Mapped(v.ino.size) && FileBytes(w.ino, w.data) == FileBytes(v.ino, v.data)
  {
    hide Growing;
    var c: nat :| Growing(v, w, c, true);
    SoundAddressable(v.ino, v.data, v.used, table, numBlocks);
    GrowingOwns(v, w, c, true);
    CutShortBlocks(v, w, c);
    SameBlocks(v.ino, v.data, w.ino, w.data, Mapped(v.ino.size));
  }

  lemma CutShortBlocks(v: View, w: View, c: nat)
    requires Growing(v, w, c, true) && Addressable(v.ino, v.data) && MapOf(w.ino, w.data) == MapOf(v.ino, v.data)
    requires forall b :: b in MapOf(v.ino, v.data) ==> b in v.used
    ensures w.ino.size == v.ino.size && |w.data| == |v.data|
    ensures forall j :: 0 <= j < Mapped(v.ino.size) ==>
        w.data[MapOf(w.ino, w.data)[j]] == v.data[MapOf(v.ino, v.data)[j]]
  {
  }

  // What becomes of the file's bytes: what was there stays, new direct blocks read as zeros.
  lemma ResizedBytes(v: View, w: View, position: nat, size: int, table: nat, numBlocks: nat)
    requires SoundInode(v.ino, v.data, v.used, table, numBlocks) && numBlocks <= |v.data|
    requires Resized(v, w, position, size, numBlocks)
    ensures w.ino.kind == v.ino.kind
    ensures w.ino.size ==
        var free := |Bitmap.Free(v.used, numBlocks)|;
        if Grows(position, size, v.ino.size) && Fits(v.ino.size, position + size, free) then position + size
        else v.ino.size
    ensures Addressable(v.ino, v.data) && Addressable(w.ino, w.data)
    ensures Mapped(v.ino.size) <= Mapped(w.ino.size)
    ensures FileBytes(w.ino, w.data)[..BLOCKSIZE * Mapped(v.ino.size)] == FileBytes(v.ino, v.data)
    ensures forall p ::
        BLOCKSIZE * Mapped(v.ino.size) <= p < BLOCKSIZE * Mapped(w.ino.size) && p < BLOCKSIZE * NUM_DIRECT ==>
        FileBytes(w.ino, w.data)[p] == 0
  {
    hide Extended, CutShort, FileBytes, Addressable, Mapped, Underestimated, Fits;
    SoundAddressable(v.ino, v.data, v.used, table, numBlocks);
    if !Grows(position, size, v.ino.size) {
    } else if Fits(v.ino.size, position + size, |Bitmap.Free(v.used, numBlocks)|) {
      ExtendedBytes(v, w, position + size);
      ExtendedLive(v, w, position + size);
      ExtendedParts(v, w, position + size);
    } else if Underestimated(v.ino.size, position + size, |Bitmap.Free(v.used, numBlocks)|) {
      CutShortBytes(v, w, table, numBlocks);
      CutShortKind(v, w);
    }
  }

  lemma CutShortKind(v: View, w: View)
    requires CutShort(v, w)
    ensures w.ino.kind == v.ino.kind
  {
  }

  // The inode marked dirty, and more blocks if the test asks for them.
  method Reserve(fs: Server, info: Node<Inode>, ghost k: nat, position: nat, size: int)
    requires fs.Valid() && fs.Sound() && fs.Has(k, info) && k < fs.numInodes && Live(fs.Inodes[k])
    requires 0 <= fs.Inodes[k].size
    requires position + size < 0x8000_0000
    modifies fs.Repr
    ensures fs.Valid() && fs.Sound() && fs.Elsewhere(k) && fs.Has(k, info) && fs.Pending == old(fs.Pending) - {k}
    ensures OtherFiles(fs, k) && Resized(old(fs.View(k)), fs.View(k), position, size, fs.numBlocks)
  {
    hide Server.Valid, Server.UsedBlocks, Server.UsedInodes, BlockMap.Sound, Bitmap.Free, Extended, CutShort, Need,
      SameFile, Fits, Underestimated;
    fs.Cached(k);
    EveryFile(fs);
    fs.MarkDirty(info, k);
    if position + size > BLOCKSIZE * (info.val.size / BLOCKSIZE + 1) {
      if !Fits(info.val.size, position + size, |Bitmap.Free(fs.UsedBlocks(), fs.numBlocks)|) {
        WhyNot(info.val.size, position + size, |Bitmap.Free(fs.UsedBlocks(), fs.numBlocks)|);
      }
      var _ := Extend(fs, info, k, position + size);
    }
  }

  // A write leaks exactly when its extension is cut short.
  lemma ResizedExact(inodes: seq<Inode>, k: nat, v: View, w: View, position: nat, size: int, table: nat, numBlocks: nat)
    requires k < |inodes| && Live(inodes[k]) && v.ino == inodes[k] && 0 <= v.ino.size
    requires Resized(v, w, position, size, numBlocks)
    requires Sound(inodes, v.data, v.used, table, numBlocks) && forall b :: b in w.used ==> b < numBlocks
    ensures Exact(inodes[k := w.ino], w.data, w.used, table) <==>
        Exact(inodes, v.data, v.used, table) && !CutsShort(position, size, v.ino.size, |Bitmap.Free(v.used, numBlocks)|)
  {
    hide Extended, CutShort, Exact, Sound, Underestimated;
    assert inodes[k := v.ino] == inodes;
    var free := |Bitmap.Free(v.used, numBlocks)|;
    if !Grows(position, size, v.ino.size) {
    } else if Fits(v.ino.size, position + size, free) {
      ExtendedExact(inodes, k, v, w, position + size, table, numBlocks);
    } else if Underestimated(v.ino.size, position + size, free) {
      CutShortLeaks(inodes, k, v, w, table, numBlocks);
      WhyNot(v.ino.size, position + size, free);
    }
  }

  // WriteHandler(): ERROR for an inode that is not allocated. Otherwise w is the file as it stands
  // after room has been made, and the bytes that fit are laid over it.
  method WriteHandler(fs: Server, inum: nat, position: nat, buf: seq<Byte>, size: int) returns (r: int, ghost w: View)
    requires fs.Valid() && fs.Sound() && fs.Settled() && inum < fs.numInodes
    requires size <= |buf| && position + size < 0x8000_0000
    modifies fs.Repr
    ensures fs.Valid() && fs.Sound() && fs.Settled() && fs.Grown() && fs.UsedInodes() == old(fs.UsedInodes())
    ensures w == View(fs.Inodes[inum], w.data, fs.UsedBlocks())
    ensures inum in old(fs.icache.Map()) ==> fs.icache.Map() == old(fs.icache.Map())
    ensures !old(Live(fs.Inodes[inum])) ==> r == -1 && fs.SameState()
    ensures old(Live(fs.Inodes[inum])) ==>
        && fs.Inodes == old(fs.Inodes)[inum := w.ino] && fs.Pending == old(fs.Pending) - {inum}
        && 0 <= old(fs.Inodes[inum]).size && Resized(old(fs.View(inum)), w, position, size, fs.numBlocks)
        && 0 <= w.ino.size && Live(w.ino)
        && r == (if PastMap(position, size, w.ino.size) then -1 else Stored(position, size, w.ino.size))
        && Rewrites(fs.Inodes, inum, w.data, fs.Data, position, buf[..Stored(position, size, w.ino.size)])
        && OtherFiles(fs, inum)
    // blocks are lost exactly when the extension runs out of them half way
    ensures fs.NoLeaks() <==> old(fs.NoLeaks()
        && !(Live(fs.Inodes[inum])
             && CutsShort(position, size, fs.Inodes[inum].size, |Bitmap.Free(fs.UsedBlocks(), fs.numBlocks)|)))
  {
    hide Server.Valid, Server.UsedBlocks, Server.UsedInodes, BlockMap.Sound, BlockMap.Exact, Bitmap.Free, Resized,
      Rewrites, PastMap, Stored, SameFile, CutsShort;
    var curInodeInfo := fs.GetUseInode(inum);
    if curInodeInfo == null {
      return -1, fs.View(inum);
    }
    r, w := WriteLive(fs, curInodeInfo, inum, position, buf, size);
  }

  lemma AfterReserve(fs: Server, k: nat, inodes: seq<Inode>, v: View, position: nat, size: int)
    requires fs.Valid() && fs.Sound() && k < |inodes| == |fs.Inodes| && Live(inodes[k]) && v.ino == inodes[k]
    requires 0 <= v.ino.size
    requires forall j :: 0 <= j < |inodes| && j != k ==> fs.Inodes[j] == inodes[j]
    requires BlockMap.Sound(inodes, v.data, v.used, fs.Table(), fs.numBlocks)
    requires Resized(v, fs.View(k), position, size, fs.numBlocks)
    ensures Live(fs.Inodes[k]) && 0 <= fs.Inodes[k].size && fs.Inodes == inodes[k := fs.Inodes[k]]
    ensures fs.NoLeaks() <==>
        Exact(inodes, v.data, v.used, fs.Table())
        && !CutsShort(position, size, v.ino.size, |Bitmap.Free(v.used, fs.numBlocks)|)
  {
    hide Server.Valid, Server.UsedBlocks, Resized, Exact, CutsShort, Bitmap.Free, FileBytes;
    fs.UsedBound();
    ResizedBytes(v, fs.View(k), position, size, fs.Table(), fs.numBlocks);
    ResizedExact(inodes, k, v, fs.View(k), position, size, fs.Table(), fs.numBlocks);
    assert fs.Inodes == inodes[k := fs.Inodes[k]];
  }

  lemma Compose(inodes: seq<Inode>, inodes': seq<Inode>, k: nat, data: seq<Block>, data': seq<Block>,
                data'': seq<Block>, off: nat, bytes: seq<Byte>)
    requires k < |inodes| == |inodes'| && Rewrites(inodes', k, data', data'', off, bytes)
    requires forall i :: 0 <= i < |inodes| && i != k ==> inodes'[i] == inodes[i]
    requires forall i :: 0 <= i < |inodes| && i != k && Live(inodes[i]) ==> SameFile(inodes[i], data, data')
    ensures forall i :: 0 <= i < |inodes| && i != k && Live(inodes[i]) ==> SameFile(inodes[i], data, data'')
  {
    forall i | 0 <= i < |inodes| && i != k && Live(inodes[i])
      ensures SameFile(inodes[i], data, data'')
    {
      assert SameFile(inodes[i], data, data') && SameFile(inodes'[i], data', data'');
    }
  }

  // WriteHandler() once the inode is in hand.
  method WriteLive(fs: Server, info: Node<Inode>, ghost k: nat, position: nat, buf: seq<Byte>, size: int)
    returns (r: int, ghost w: View)
    requires fs.Valid() && fs.Sound() && fs.Settled() && fs.Has(k, info) && k < fs.numInodes && Live(fs.Inodes[k])
    requires size <= |buf| && position + size < 0x8000_0000
    modifies fs.Repr
    ensures fs.Valid() && fs.Sound() && fs.Settled() && fs.Grown() && fs.UsedInodes() == old(fs.UsedInodes())
    ensures w == View(fs.Inodes[k], w.data, fs.UsedBlocks())
    ensures fs.icache.Map() == old(fs.icache.Map())
    ensures fs.Inodes == old(fs.Inodes)[k := w.ino] && fs.Pending == old(fs.Pending) - {k}
    ensures 0 <= old(fs.Inodes[k]).size && Resized(old(fs.View(k)), w, position, size, fs.numBlocks)
    ensures 0 <= w.ino.size && Live(w.ino)
    ensures r == if PastMap(position, size, w.ino.size) then -1 else Stored(position, size, w.ino.size)
    ensures Rewrites(fs.Inodes, k, w.data, fs.Data, position, buf[..Stored(position, size, w.ino.size)])
    ensures OtherFiles(fs, k)
    ensures fs.NoLeaks() <==> old(fs.NoLeaks()
        && !CutsShort(position, size, fs.Inodes[k].size, |Bitmap.Free(fs.UsedBlocks(), fs.numBlocks)|))
  {
    hide Server.Valid, Server.UsedBlocks, Server.UsedInodes, BlockMap.Sound, BlockMap.Exact, Bitmap.Free, Resized,
      Rewrites, PastMap, Stored, SameFile, CutsShort;
    WriteStart(fs, k, position);
    ghost var v := fs.View(k);
    Reserve(fs, info, k, position, size);
    AfterReserve(fs, k, old(fs.Inodes), v, position, size);
    w := fs.View(k);
    StillSettled(fs, old(fs.Inodes), old(fs.icache.Map()).Keys, old(fs.UsedInodes()));
    fs.StoreWithin();
    r := WriteLoop(fs, info, k, position, buf, size);
    Compose(old(fs.Inodes), fs.Inodes, k, v.data, w.data, fs.Data, position, buf[..Stored(position, size, w.ino.size)]);
  }
}
