// What reads and writes mean together.
module Transfers {
  import opened Sequences
  import opened Layout
  import opened RecencyQueue
  import opened BlockMap
  import opened Growth
  import opened FileSystem
  import opened Allocator
  import opened Conservation
  import opened ByteIO
  import Bitmap

  // The number of bytes a write stores, for files the block map can hold.
  lemma StoredExactly(position: nat, size: nat, fileSize: nat)
    requires fileSize <= BLOCKSIZE * MAX_BLOCKS
    ensures var room := BLOCKSIZE * ((fileSize + BLOCKSIZE - 1) / BLOCKSIZE) - position;
      Stored(position, size, fileSize) == if position >= fileSize then 0 else if size <= room then size else room
    ensures !PastMap(position, size, fileSize)
  {
  }

  // Byte by byte: the file after a write is the bytes written, around them what it was before, and
  // zeros in the direct blocks the write has added.
  lemma WrittenBytes(inodes: seq<Inode>, k: nat, v: View, w: View, data: seq<Block>, position: nat, size: int,
                     bytes: seq<Byte>, table: nat, numBlocks: nat)
    requires SoundInode(v.ino, v.data, v.used, table, numBlocks) && numBlocks <= |v.data|
    requires Resized(v, w, position, size, numBlocks) && k < |inodes| && inodes[k] == w.ino
    requires Rewrites(inodes, k, w.data, data, position, bytes)
    ensures Addressable(v.ino, v.data) && Addressable(w.ino, data) && Mapped(v.ino.size) <= Mapped(w.ino.size)
    ensures forall p :: 0 <= p < BLOCKSIZE * Mapped(w.ino.size) ==>
        && (position <= p < position + |bytes| ==> FileBytes(w.ino, data)[p] == bytes[p - position])
        && (!(position <= p < position + |bytes|) && p < BLOCKSIZE * Mapped(v.ino.size) ==>
              FileBytes(w.ino, data)[p] == FileBytes(v.ino, v.data)[p])
        && (!(position <= p < position + |bytes|) && BLOCKSIZE * Mapped(v.ino.size) <= p < BLOCKSIZE * NUM_DIRECT ==>
              FileBytes(w.ino, data)[p] == 0)
  {
    hide Resized, FileBytes, SoundInode, BlocksFor, Fits;
    ResizedBytes(v, w, position, size, table, numBlocks);
    var was, now, after := FileBytes(v.ino, v.data), FileBytes(w.ino, w.data), FileBytes(w.ino, data);
    forall p | 0 <= p < BLOCKSIZE * Mapped(w.ino.size)
      ensures position <= p < position + |bytes| ==> after[p] == bytes[p - position]
      ensures !(position <= p < position + |bytes|) && p < BLOCKSIZE * Mapped(v.ino.size) ==> after[p] == was[p]
      ensures !(position <= p < position + |bytes|) && BLOCKSIZE * Mapped(v.ino.size) <= p < BLOCKSIZE * NUM_DIRECT ==>
          after[p] == 0
    {
      assert after[p] == Overwrite(now, position, bytes)[p];
      if p < BLOCKSIZE * Mapped(v.ino.size) {
        assert now[p] == now[..BLOCKSIZE * Mapped(v.ino.size)][p];
      }
    }
  }

  // The size of the file after a write.
  function SizeAfter(position: nat, size: int, fileSize: nat, free: nat): nat {
    if Grows(position, size, fileSize) && Fits(fileSize, position + size, free) then position + size else fileSize
  }

  // All bytes given have become part of the contents of the file.
  predicate WritesAll(position: nat, size: nat, fileSize: nat, free: nat) {
    && Stored(position, size, SizeAfter(position, size, fileSize, free)) == size
    && position + size <= SizeAfter(position, size, fileSize, free)
  }

  // A write promises to store all bytes given, extending the file as needed. It does so exactly when
  // the file need not grow, or the test for growth by whole blocks notices that it must and there is room.
  lemma WritesAllWhen(position: nat, size: nat, fileSize: nat, free: nat)
    requires 0 < size && position + size <= BLOCKSIZE * MAX_BLOCKS && fileSize <= BLOCKSIZE * MAX_BLOCKS
    ensures WritesAll(position, size, fileSize, free) <==>
        (position + size <= fileSize || (Grows(position, size, fileSize) && Cost(fileSize, position + size) <= free))
  {
    FitsExactly(fileSize, position + size, free);
    if position + size <= fileSize {
      assert SizeAfter(position, size, fileSize, free) == fileSize;
      StoredExactly(position, size, fileSize);
    } else if Grows(position, size, fileSize) && Fits(fileSize, position + size, free) {
      StoredExactly(position, size, position + size);
    }
  }

  // However many blocks are free, what does not pass the next block boundary but does pass the end
  // of the file is lost.
  lemma LostTail(position: nat, size: nat, fileSize: nat, free: nat)
    requires 0 < size && position + size <= BLOCKSIZE * MAX_BLOCKS && fileSize <= BLOCKSIZE * MAX_BLOCKS
    requires Cost(fileSize, position + size) <= free
    ensures !WritesAll(position, size, fileSize, free) <==>
        fileSize < position + size <= BLOCKSIZE * (fileSize / BLOCKSIZE + 1)
  {
    WritesAllWhen(position, size, fileSize, free);
    if position + size <= fileSize {
      assert fileSize < BLOCKSIZE * (fileSize / BLOCKSIZE + 1);
    }
  }

  // Whatever else goes on in the caches: other inodes come and go, and everything is synced.
  method Disturb(fs: Server, others: seq<nat>)
    requires fs.Valid() && fs.Sound() && fs.Settled() && forall i :: 0 <= i < |others| ==> others[i] < fs.numInodes
    modifies fs.Repr
    ensures fs.Valid() && fs.Sound() && fs.Settled() && fs.Grown() && fs.SameState()
  {
    hide Server.Valid, Server.UsedBlocks, Server.UsedInodes, BlockMap.Sound;
    for i := 0 to |others|
      invariant fs.Valid() && fs.Settled() && fs.Grown() && fs.SameState()
    {
      var _ := fs.GetUseInode(others[i]);
    }
    var _ := fs.Sync();
  }

  lemma WhatWasWritten(fs: Server, k: nat, data: seq<Block>, position: nat, bytes: seq<Byte>)
    requires fs.Valid() && fs.Sound() && k < fs.numInodes && Live(fs.Inodes[k])
    requires Rewrites(fs.Inodes, k, data, fs.Data, position, bytes)
    ensures var part := Slice(Text(fs, k), position, |bytes|); |part| <= |bytes| && part == bytes[..|part|]
  {
    hide Server.Valid, Server.UsedBlocks, BlockMap.Sound, FileBytes, Addressable, Slice, Overwrite;
    TextLength(fs, k);
    ReadBack(FileBytes(fs.Inodes[k], data), position, bytes, |Text(fs, k)|);
  }

  // Reading back what is known to have been written.
  method ReadAgain(fs: Server, inum: nat, position: nat, out: array<Byte>, n: nat, ghost data: seq<Block>,
                   ghost bytes: seq<Byte>)
    returns (m: int)
    requires fs.Valid() && fs.Sound() && fs.Settled() && inum < fs.numInodes && Live(fs.Inodes[inum])
    requires Rewrites(fs.Inodes, inum, data, fs.Data, position, bytes) && |bytes| == n
    requires fs.Inodes[inum].size >= 0 && !PastMap(position, n, fs.Inodes[inum].size)
    requires n <= out.Length && out !in fs.Repr
    modifies fs.Repr, out
    ensures fs.Valid() && fs.Sound() && fs.Settled() && fs.SameState()
    ensures m == var fileSize := fs.Inodes[inum].size;
                 if position >= fileSize then 0 else if n <= fileSize - position then n else fileSize - position
    ensures out[..] == Overwrite(old(out[..]), 0, bytes[..m])
  {
    hide Server.Valid, Server.UsedBlocks, Server.UsedInodes, Server.Settled, BlockMap.Sound, Rewrites, Overwrite,
      TextOf;
    WhatWasWritten(fs, inum, data, position, bytes);
    TextLength(fs, inum);
    m := ReadHandler(fs, inum, position, out, n);
  }

  lemma NotPast(position: nat, size: nat, fileSize: nat)
    ensures PastMap(position, Stored(position, size, fileSize), fileSize) ==> PastMap(position, size, fileSize)
  {
  }

  // After a write, and any disturbance of the caches, a read of as many bytes at the same place
  // gives the bytes written, as far as they lie within the size of the file.
  method WriteThenRead(fs: Server, inum: nat, position: nat, buf: seq<Byte>, size: nat, others: seq<nat>,
                       out: array<Byte>)
    returns (n: int, m: int)
    requires fs.Valid() && fs.Sound() && fs.Settled() && inum < fs.numInodes && Live(fs.Inodes[inum])
    requires forall i :: 0 <= i < |others| ==> others[i] < fs.numInodes
    requires size <= |buf| && position + size < 0x8000_0000 && size <= out.Length && out !in fs.Repr
    modifies fs.Repr, out
    ensures fs.Valid() && fs.Sound() && fs.Settled()
    ensures n >= 0 ==>
        && n <= size
        && m == (var fileSize := fs.Inodes[inum].size;
                 if position >= fileSize then 0 else if n <= fileSize - position then n else fileSize - position)
        && out[..] == Overwrite(old(out[..]), 0, buf[..m])
  {
    hide Server.Valid, Server.UsedBlocks, Server.UsedInodes, Server.Settled, BlockMap.Sound, Resized, Rewrites,
      Overwrite, Stored, PastMap;
    ghost var w;
    n, w := WriteHandler(fs, inum, position, buf, size);
    NotPast(position, size, w.ino.size);
    Disturb(fs, others);
    m := 0;
    if n >= 0 {
      m := ReadAgain(fs, inum, position, out, n, w.data, buf[..n]);
      assert buf[..n][..m] == buf[..m];
    }
  }

  // WriteHandler() keeps the promise of a write, to return the number of bytes given with all of them
  // part of the contents, exactly in the cases of WritesAll.
  method WriteWhole(fs: Server, inum: nat, position: nat, bytes: seq<Byte>) returns (r: int)
    requires fs.Valid() && fs.Sound() && fs.Settled() && inum < fs.numInodes && Live(fs.Inodes[inum])
    requires 0 < |bytes| && position + |bytes| <= BLOCKSIZE * MAX_BLOCKS
    requires fs.Inodes[inum].size <= BLOCKSIZE * MAX_BLOCKS
    modifies fs.Repr
    ensures fs.Valid() && fs.Sound() && fs.Settled() && 0 <= old(fs.Inodes[inum]).size
    ensures (r == |bytes| && Slice(Text(fs, inum), position, |bytes|) == bytes) <==>
        old(WritesAll(position, |bytes|, fs.Inodes[inum].size, |Bitmap.Free(fs.UsedBlocks(), fs.numBlocks)|))
    ensures (r == |bytes| && Slice(Text(fs, inum), position, |bytes|) == bytes) <==>
        var fileSize, free := old(fs.Inodes[inum]).size, |Bitmap.Free(old(fs.UsedBlocks()), fs.numBlocks)|;
        || position + |bytes| <= fileSize
        || (Grows(position, |bytes|, fileSize) && Cost(fileSize, position + |bytes|) <= free)
    ensures fs.Inodes[inum].size ==
        old(SizeAfter(position, |bytes|, fs.Inodes[inum].size, |Bitmap.Free(fs.UsedBlocks(), fs.numBlocks)|))
  {
    hide Server.Valid, Server.UsedBlocks, Server.UsedInodes, Server.Settled, BlockMap.Sound, BlockMap.Exact,
      Bitmap.Free, Resized, Rewrites, TextOf, SameFile, Stored, Slice, FileBytes, Grows, Cost;
    SoundStart(fs, inum);
    ghost var v := fs.View(inum);
    ghost var w;
    r, w := WriteHandler(fs, inum, position, bytes, |bytes|);
    ResizedBytes(v, w, position, |bytes|, fs.Table(), fs.numBlocks);
    NotPastMap(position, |bytes|, w.ino.size);
    WhatWasWritten(fs, inum, w.data, position, bytes[..r]);
    TextLength(fs, inum);
    AllOrNot(Text(fs, inum), position, bytes, r, w.ino.size);
    WritesAllWhen(position, |bytes|, v.ino.size, |Bitmap.Free(v.used, fs.numBlocks)|);
  }

  lemma NotPastMap(position: nat, size: nat, fileSize: nat)
    requires position + size <= BLOCKSIZE * MAX_BLOCKS
    ensures !PastMap(position, size, fileSize)
  {
  }

  lemma AllOrNot(text: seq<Byte>, position: nat, bytes: seq<Byte>, n: nat, fileSize: nat)
    requires 0 < |bytes| && |text| == fileSize && n == Stored(position, |bytes|, fileSize) && n <= |bytes|
    requires Slice(text, position, n) == bytes[..n][..|Slice(text, position, n)|]
    ensures (n == |bytes| && Slice(text, position, |bytes|) == bytes) <==>
        (n == |bytes| && position + |bytes| <= fileSize)
  {
    if n == |bytes| {
      assert bytes[..n] == bytes;
    }
  }

  // Two consecutive reads, the second starting where the first ended, return together what one read
  // of the combined size returns.
  method ReadTwice(fs: Server, inum: nat, position: nat, first: array<Byte>, second: array<Byte>, whole: array<Byte>)
    returns (a: int, b: int, c: int)
    requires fs.Valid() && fs.Sound() && fs.Settled() && inum < fs.numInodes && Live(fs.Inodes[inum])
    requires fs.Inodes[inum].size <= BLOCKSIZE * MAX_BLOCKS && whole.Length == first.Length + second.Length
    requires first !in fs.Repr && second !in fs.Repr && whole !in fs.Repr
    requires first != second && first != whole && second != whole
    modifies fs.Repr, first, second, whole
    ensures fs.Valid() && fs.Sound() && fs.Settled() && fs.SameState()
    ensures 0 <= a <= first.Length && 0 <= b <= second.Length && c == a + b
    ensures whole[..c] == first[..a] + second[..b]
  {
    hide Server.Valid, Server.UsedBlocks, Server.UsedInodes, Server.Settled, BlockMap.Sound, TextOf, Overwrite,
      Slice;
    TextLength(fs, inum);
    ghost var text := Text(fs, inum);
    a := ReadHandler(fs, inum, position, first, first.Length);
    Shown(text, position, old(first[..]));
    SliceSplit(text, position, first.Length, second.Length);
    ghost var second0 := second[..];
    b := ReadHandler(fs, inum, position + a, second, second.Length);
    Shown(text, position + a, second0);
    ghost var whole0 := whole[..];
    c := ReadHandler(fs, inum, position, whole, whole.Length);
    Shown(text, position, whole0);
  }

  lemma Shown(text: seq<Byte>, position: nat, was: seq<Byte>)
    ensures |Slice(text, position, |was|)| <= |was|
    ensures var part := Slice(text, position, |was|); Overwrite(was, 0, part)[..|part|] == part
  {
  }
}
