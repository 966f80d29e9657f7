// Syncing, and starting again on what is then on the disk.
module Restart {
  import opened Sequences
  import opened Layout
  import opened BlockMap
  import opened BlockCache
  import opened FileSystem
  import opened Mount
  import Operations
  import Runs

  // The header fields, seen as the inode in slot 0.
  predicate HeaderMatches(ino: Inode, numBlocks: int, numInodes: int) {
    Decode32(Encode16(ino.kind) + Encode16(ino.nlink)) == numBlocks && ino.reuse == numInodes
  }

  lemma HeaderSlot(blocks: seq<Block>)
    requires 1 < |blocks|
    ensures HeaderMatches(GetSlot(blocks, 0), HeaderBlocks(blocks[1]), HeaderInodes(blocks[1]))
  {
    hide Decode32, Decode16, Encode16, DecodeDirect;
    var s := blocks[1][0..INODESIZE];
    RoundTripBytes16(s[0..2]);
    RoundTripBytes16(s[2..4]);
    assert InodeInBlockAddr(0) == 0 && InodeToBlock(0) == 1;
    assert s[0..2] + s[2..4] == blocks[1][0..4] && s[4..8] == blocks[1][4..8];
  }

  // Two images that agree beyond the inode table hold the same files.
  lemma SameBeyond(inodes: seq<Inode>, data: seq<Block>, data': seq<Block>, used: set<nat>, table: nat, numBlocks: nat)
    requires Sound(inodes, data, used, table, numBlocks)
    requires |data'| == |data| && forall b :: table < b < |data| ==> data'[b] == data[b]
    ensures forall i :: 0 <= i < |inodes| && Live(inodes[i]) ==> SameFile(inodes[i], data, data')
    ensures Sound(inodes, data', used, table, numBlocks)
  {
    forall i | 0 <= i < |inodes| && Live(inodes[i])
      ensures SameFile(inodes[i], data, data')
    {
      if Mapped(inodes[i].size) > NUM_DIRECT {
        IndirectOwned(inodes[i], data);
      }
      OwnedFrame(inodes[i], data, data');
    }
  }

  // The header says what the server goes by, and has no blocks of its own.
  ghost predicate HeaderKept(inodes: seq<Inode>, numBlocks: nat, numInodes: nat) {
    |inodes| == numInodes && HeaderOnly(inodes) && HeaderMatches(inodes[0], numBlocks, numInodes)
  }

  // A run that leaves the header alone keeps a server on its disk restartable.
  lemma HeaderStays(inodes: seq<Inode>, data: seq<Block>, inodes': seq<Inode>, data': seq<Block>, numBlocks: nat,
                    numInodes: nat)
    requires HeaderKept(inodes, numBlocks, numInodes) && Operations.Untouched(inodes, data, inodes', data', 0)
    ensures HeaderKept(inodes', numBlocks, numInodes)
  {
  }

  lemma SoundUsable(inodes: seq<Inode>, data: seq<Block>, used: set<nat>, table: nat, numBlocks: nat)
    requires Sound(inodes, data, used, table, numBlocks) && Operations.Fit(inodes)
    ensures AllUsable(inodes, data, table)
  {
    forall k | 1 <= k < |inodes| && Live(inodes[k])
      ensures Usable(inodes[k], data, table)
    {
      if Mapped(inodes[k].size) > NUM_DIRECT {
        IndirectOwned(inodes[k], data);
      }
    }
  }

  // The disk as a successful sync leaves it can be started on, and holds every logical inode and block.
  lemma SyncedImage(fs: Server)
    requires fs.Valid() && fs.Durable() && fs.Sound() && fs.Pending == {} && Operations.Fit(fs.Inodes)
    requires HeaderKept(fs.Inodes, fs.numBlocks, fs.numInodes)
    ensures var sectors := fs.store.disk.sectors;
      && |sectors| == |fs.Data| && fs.Table() < |sectors|
      && Slots(sectors, fs.numInodes) == fs.Inodes && Mountable(sectors)
      && HeaderBlocks(sectors[1]) == fs.numBlocks && HeaderInodes(sectors[1]) == fs.numInodes
      && (forall b :: fs.Table() < b < |fs.Data| ==> sectors[b] == fs.Data[b])
      && forall k :: 0 <= k < |fs.Inodes| ==> SlotAt(sectors, k, fs.Inodes[k])
  {
    hide BlockStore.Valid, InodesAgree, DataAgree, Server.UsedBlocks, BlockMap.Sound, AllUsable, HeaderBlocks,
      HeaderInodes, HeaderMatches, GetSlot, Operations.Fit, SlotAt;
    fs.store.Sentinel();
    var sectors := fs.store.disk.sectors;
    assert Slots(sectors, fs.numInodes) == fs.Inodes;
    SlotsLayout(sectors, fs.numInodes);
    SameBeyond(fs.Inodes, fs.Data, sectors, fs.UsedBlocks(), fs.Table(), fs.numBlocks);
    SoundUsable(fs.Inodes, sectors, fs.UsedBlocks(), fs.Table(), fs.numBlocks);
    HeaderSlot(sectors);
    HeaderSays(fs.Inodes[0], fs.numBlocks, fs.numInodes, HeaderBlocks(sectors[1]), HeaderInodes(sectors[1]));
  }

  lemma HeaderSays(ino: Inode, a: int, b: int, c: int, d: int)
    requires HeaderMatches(ino, a, b) && HeaderMatches(ino, c, d)
    ensures a == c && b == d
  {
  }

  ghost predicate OwnedBySome(inodes: seq<Inode>, data: seq<Block>, b: int) {
    exists i :: 0 <= i < |inodes| && Owns(inodes[i], data, b)
  }

  // The bitmap without the leaked blocks.
  lemma WithoutLeaks(inodes: seq<Inode>, data: seq<Block>, used: set<nat>, table: nat, numBlocks: nat)
    returns (kept: set<nat>)
    requires Sound(inodes, data, used, table, numBlocks)
    ensures kept == set b | b in used && (b <= table || OwnedBySome(inodes, data, b))
    ensures Sound(inodes, data, kept, table, numBlocks) && Exact(inodes, data, kept, table)
    ensures forall b: nat :: b in kept <==> b <= table || OwnedBySome(inodes, data, b)
    ensures Exact(inodes, data, used, table) <==> kept == used
  {
    kept := set b | b in used && (b <= table || OwnedBySome(inodes, data, b));
    forall i | 0 <= i < |inodes| && Live(inodes[i])
      ensures SoundInode(inodes[i], data, kept, table, numBlocks)
    {
      assert forall b :: b in Owned(inodes[i], data) ==> Owns(inodes[i], data, b);
    }
  }

  // What a server started on the synced disk of another has in common with it, and what it has not:
  // the same inodes, files and inode bitmap, and a block bitmap of the reserved and owned blocks
  // without the indirect ones. Leaked blocks are free again.
  ghost predicate Restored(inodes: seq<Inode>, data: seq<Block>, used: set<nat>, numbers: set<nat>, again: Server)
    reads again, again.blockBitmap, again.inodeBitmap
  {
    && again.Inodes == inodes && again.UsedInodes() == numbers && again.Pending == {}
    && (forall i :: 0 <= i < |inodes| && Live(inodes[i]) ==> SameFile(inodes[i], data, again.Data))
    && (forall b: nat :: b in again.UsedBlocks() <==>
          (b <= again.Table() || OwnedBySome(inodes, data, b)) && b !in Indirects(inodes))
    && (Exact(inodes, data, used, again.Table()) ==>
          forall b: nat :: b in again.UsedBlocks() <==> b in used && b !in Indirects(inodes))
    && (again.Sound() <==> Indirects(inodes) == {})
  }

  lemma Rebuilt(again: Server, inodes: seq<Inode>, data: seq<Block>, used: set<nat>, numbers: set<nat>,
                sectors: seq<Block>)
    requires again.Valid() && again.Inodes == inodes && again.Data == sectors && again.Pending == {}
    requires |sectors| == |data| && forall b :: again.Table() < b < |data| ==> sectors[b] == data[b]
    requires Sound(inodes, data, used, again.Table(), again.numBlocks) && HeaderOnly(inodes)
    requires Marked(again.UsedBlocks(), inodes, sectors, again.Table(), again.numBlocks, |inodes|)
    requires again.UsedInodes() == numbers
    ensures Restored(inodes, data, used, numbers, again)
  {
    hide Server.Valid, Server.UsedBlocks, Server.UsedInodes, BlockMap.Sound, Exact, SameFile, Marked, HeaderOnly,
      Indirects, OwnedBySome;
    var kept := WithoutLeaks(inodes, data, used, again.Table(), again.numBlocks);
    SameBeyond(inodes, data, sectors, kept, again.Table(), again.numBlocks);
    ExactBeyond(inodes, data, sectors, kept, again.Table());
    RebuildExact(inodes, sectors, kept, again.UsedBlocks(), again.Table(), again.numBlocks);
    RebuildSound(inodes, sectors, kept, again.UsedBlocks(), again.Table(), again.numBlocks);
  }

  lemma ExactBeyond(inodes: seq<Inode>, data: seq<Block>, data': seq<Block>, used: set<nat>, table: nat)
    requires forall i :: 0 <= i < |inodes| && Live(inodes[i]) ==> SameFile(inodes[i], data, data')
    requires Exact(inodes, data, used, table)
    ensures Exact(inodes, data', used, table)
  {
    forall b | b in used && b > table
      ensures exists i :: 0 <= i < |inodes| && Owns(inodes[i], data', b)
    {
      var i :| 0 <= i < |inodes| && Owns(inodes[i], data, b);
      assert Owns(inodes[i], data', b);
    }
  }

  // The inode bitmap is a function of the inodes, so a rebuilt one is the one kept.
  lemma SameNumbers(a: set<nat>, b: set<nat>, inodes: seq<Inode>)
    requires Numbered(a, inodes, |inodes|) && Numbered(b, inodes, |inodes|)
    ensures a == b
  {
  }

  // A new start with empty caches on the disk of a server that has brought everything there.
  method StartAgain(fs: Server) returns (again: Server)
    requires Runs.Healthy(fs) && Runs.OnDisk(fs) && HeaderKept(fs.Inodes, fs.numBlocks, fs.numInodes)
    modifies fs.Repr
    ensures again.Valid() && again.Settled() && again.numBlocks == fs.numBlocks && again.numInodes == fs.numInodes
    ensures fs.SameState()
    ensures Restored(old(fs.Inodes), old(fs.Data), old(fs.UsedBlocks()), old(fs.UsedInodes()), again)
    ensures Indirects(old(fs.Inodes)) == {} ==> Runs.Healthy(again)
  {
    hide BlockStore.Valid, Server.Valid, Server.UsedBlocks, Server.UsedInodes, BlockMap.Sound, Exact, Marked,
      Numbered, Indirects, SameFile, HeaderOnly, Slots, Mountable, HeaderBlocks, HeaderInodes, Restored,
      HeaderMatches, Operations.Fit, Server.Durable, SlotAt, IntAt;
    ghost var inodes, data, used, numbers := fs.Inodes, fs.Data, fs.UsedBlocks(), fs.UsedInodes();
    SyncedImage(fs);
    fs.StoreWithin();
    var store := new BlockStore(fs.store.disk);
    again := InitInodeBlock(store);
    SameNumbers(again.UsedInodes(), numbers, inodes);
    Rebuilt(again, inodes, data, used, numbers, again.Data);
    SoundAgain(again, inodes, data, used, numbers);
  }

  // sync(), then a new start with empty caches on the same disk.
  method SyncAndRestart(fs: Server) returns (r: int, again: Server?)
    requires Runs.Healthy(fs) && HeaderKept(fs.Inodes, fs.numBlocks, fs.numInodes)
    modifies fs.Repr
    ensures fs.SameState()
    ensures r == 0 ==> again != null && again.Valid() && again.Settled()
    ensures r == 0 ==> Restored(old(fs.Inodes), old(fs.Data), old(fs.UsedBlocks()), old(fs.UsedInodes()), again)
    ensures r == 0 ==> again.numBlocks == fs.numBlocks && again.numInodes == fs.numInodes
    ensures r == 0 && Indirects(old(fs.Inodes)) == {} ==> Runs.Healthy(again)
    ensures r != 0 ==> r == -1 && again == null && fs.store.disk.Failures > old(fs.store.disk.Failures)
  {
    hide Server.Valid, Server.UsedBlocks, Server.UsedInodes, Indirects, Restored, HeaderKept, Server.Durable,
      Operations.Consistent;
    again := null;
    r := fs.Sync();
    if r == 0 {
      again := StartAgain(fs);
    }
  }

  lemma SoundAgain(again: Server, inodes: seq<Inode>, data: seq<Block>, used: set<nat>, numbers: set<nat>)
    requires Restored(inodes, data, used, numbers, again)
    ensures again.Sound() <==> Indirects(inodes) == {}
    ensures again.Inodes == inodes && again.UsedInodes() == numbers && again.Pending == {}
  {
  }
}
