// A disk's life from formatting over any use to the next start.
module Lifetime {
  import opened Sequences
  import opened Layout
  import opened BlockMap
  import opened BlockCache
  import opened FileSystem
  import opened Mount
  import opened Mkyfs
  import opened Restart
  import opened Boot
  import opened Operations
  import opened Budget
  import opened Runs

  // From a formatted disk, any run of operations.
  method Use(n: nat, ops: seq<Op>) returns (fs: Server, ghost trail: seq<Snapshot>)
    requires Fitting(n) && forall i :: 0 <= i < |ops| ==> Allowed(ops[i], n)
    ensures fresh(fs) && fresh(fs.Repr) && Healthy(fs) && fs.numInodes == n && fs.numBlocks == NUMSECTORS
    ensures Traced(ops, trail) && Fresh(trail[0], n) && trail[|ops|] == Now(fs)
    ensures fs.NoLeaks() <==> NeverRunsOut(ops, trail)
    ensures Spared(ops, 0) ==> HeaderKept(fs.Inodes, NUMSECTORS, n)
    ensures Needs(ops) <= NUMSECTORS - BlocksForInodes(n) - 2 ==> NeverRunsOut(ops, trail)
  {
    hide Healthy, Fresh, HeaderKept, Server.UsedBlocks, Server.UsedInodes, Server.Valid, NeverRunsOut, Untouched,
      UsedIsOwned, Exact, Sectors, Traced, Allowed, Needs, Lasts, LedgerOf;
    fs := BootFresh(n);
    FreeAtFirst(Now(fs), n);
    ghost var inodes, data := fs.Inodes, fs.Data;
    trail := Run(fs, ops);
    if Spared(ops, 0) {
      HeaderStays(inodes, data, fs.Inodes, fs.Data, fs.numBlocks, fs.numInodes);
    }
  }

  // From a formatted disk, any run of operations that leaves the header alone, a sync, and a new
  // start with empty caches: if every sector could be written, the new server has what the old one
  // has, the same inodes, every file byte for byte, the same inode bitmap, and the blocks in use
  // without the indirect ones.
  method LiveAndRestart(n: nat, ops: seq<Op>) returns (r: int, fs: Server, again: Server?, ghost trail: seq<Snapshot>)
    requires Fitting(n) && (forall i :: 0 <= i < |ops| ==> Allowed(ops[i], n)) && Spared(ops, 0)
    ensures fs.numInodes == n && fs.numBlocks == NUMSECTORS
    ensures Traced(ops, trail) && Fresh(trail[0], n) && trail[|ops|] == Now(fs)
    ensures r == 0 ==> again != null && again.Valid() && again.Settled()
    ensures r == 0 ==> again.numBlocks == fs.numBlocks && again.numInodes == fs.numInodes
    ensures r == 0 ==> Restored(fs.Inodes, fs.Data, fs.UsedBlocks(), fs.UsedInodes(), again)
    // no block is lost or gained but the indirect ones, unless an extension ran out of blocks half
    // way, which none does if the disk has blocks for everything
    ensures r == 0 && NeverRunsOut(ops, trail) ==>
        forall b: nat :: b in again.UsedBlocks() <==> b in fs.UsedBlocks() && b !in Indirects(fs.Inodes)
    ensures Needs(ops) <= NUMSECTORS - BlocksForInodes(n) - 2 ==> NeverRunsOut(ops, trail)
    ensures r != 0 ==> r == -1 && again == null && fs.store.disk.Failures > 0
    ensures r == 0 && Indirects(fs.Inodes) == {} ==> Healthy(again)
  {
    hide Healthy, Fresh, HeaderKept, Server.UsedBlocks, Server.UsedInodes, Server.Valid, Restored, Indirects,
      NeverRunsOut, Exact, Traced, Allowed, Needs;
    fs, trail := Use(n, ops);
    ghost var leakFree := fs.NoLeaks();
    r, again := SyncAndRestart(fs);
    if r == 0 && leakFree {
      NothingLost(Now(fs), fs.Data, fs.UsedInodes(), again);
    }
  }

  lemma NothingLost(s: Snapshot, data: seq<Block>, numbers: set<nat>, again: Server)
    requires Restored(s.inodes, data, s.used, numbers, again) && Exact(s.inodes, data, s.used, again.Table())
    ensures forall b: nat :: b in again.UsedBlocks() <==> b in s.used && b !in Indirects(s.inodes)
  {
  }
}
