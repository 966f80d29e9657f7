// Whole runs of the server: what every sequence of operations keeps.
module Runs {
  import opened Sequences
  import opened Layout
  import opened RecencyQueue
  import opened BlockMap
  import opened Growth
  import opened FileSystem
  import opened Allocator
  import opened Conservation
  import opened ByteIO
  import opened Naming
  import opened Creation
  import opened Mount
  import opened Operations
  import opened Budget
  import Paths
  import Bitmap

  ghost function Now(fs: Server): Snapshot
    reads fs, fs.blockBitmap, fs.inodeBitmap
  {
    Snapshot(fs.Inodes, fs.Data, fs.UsedBlocks(), fs.UsedInodes(), fs.Table(), fs.numBlocks)
  }

  // Between operations: caches and block ownership sound, no inode edited behind its dirty flag's
  // back, and the inode bitmap exactly the header and the allocated inodes.
  ghost predicate Healthy(fs: Server)
    reads fs, fs.Repr, fs.icache, fs.icache.t, fs.blockBitmap, fs.inodeBitmap
  {
    fs.Valid() && fs.Settled() && fs.Pending == {} && Consistent(Now(fs))
  }

  // The used blocks are exactly the reserved and the owned ones.
  ghost predicate UsedIsOwned(fs: Server)
    reads fs, fs.blockBitmap
  {
    forall b: nat :: b in fs.UsedBlocks() <==>
        (b <= fs.Table() || exists i :: 0 <= i < |fs.Inodes| && Owns(fs.Inodes[i], fs.Data, b))
  }

  lemma NothingLeaks(fs: Server)
    requires fs.Valid() && fs.Sound()
    ensures UsedIsOwned(fs) <==> fs.NoLeaks()
  {
    hide Server.Valid, Server.UsedBlocks;
    forall b: nat, i | 0 <= i < |fs.Inodes| && Owns(fs.Inodes[i], fs.Data, b)
      ensures b in fs.UsedBlocks()
    {
      assert SoundInode(fs.Inodes[i], fs.Data, fs.UsedBlocks(), fs.Table(), fs.numBlocks);
    }
  }

  lemma NothingTouched(inodes: seq<Inode>, data: seq<Block>, used: set<nat>, table: nat, numBlocks: nat)
    requires Sound(inodes, data, used, table, numBlocks)
    ensures forall k :: 0 <= k < |inodes| ==> Untouched(inodes, data, inodes, data, k)
  {
  }

  lemma OneFit(inodes: seq<Inode>, k: nat, ino: Inode)
    requires Fit(inodes) && k < |inodes|
    requires Live(ino) ==>
        ino.size <= BLOCKSIZE * MAX_BLOCKS && (ino.kind == INODE_DIRECTORY ==> DIRENTSIZE <= ino.size)
    ensures Fit(inodes[k := ino])
  {
  }

  // Changing an allocated inode into an allocated inode renumbers nothing.
  lemma StillNumbered(used: set<nat>, inodes: seq<Inode>, k: nat, ino: Inode)
    requires Numbered(used, inodes, |inodes|) && k < |inodes| && Live(ino) == Live(inodes[k])
    ensures Numbered(used, inodes[k := ino], |inodes|)
  {
  }

  lemma WriteFits(inodes: seq<Inode>, k: nat, v: View, w: View, position: nat, size: int, table: nat, numBlocks: nat)
    requires Fit(inodes) && k < |inodes| && Live(inodes[k]) && v.ino == inodes[k]
    requires SoundInode(v.ino, v.data, v.used, table, numBlocks) && numBlocks <= |v.data|
    requires Resized(v, w, position, size, numBlocks) && position + size <= BLOCKSIZE * MAX_BLOCKS
    ensures Fit(inodes[k := w.ino])
  {
    hide Resized, FileBytes;
    ResizedBytes(v, w, position, size, table, numBlocks);
    OneFit(inodes, k, w.ino);
  }

  // For the operation that targets t.
  lemma Frame(op: Op, s: Snapshot, s': Snapshot, t: nat)
    requires |s'.inodes| == |s.inodes| && s'.table == s.table && s'.numBlocks == s.numBlocks
    requires forall k :: k == t ==> Targets(op, k)
    requires forall i :: 0 <= i < |s.inodes| && i != t && (Live(s.inodes[i]) || i == 0) ==> s'.inodes[i] == s.inodes[i]
    requires forall i :: 0 <= i < |s.inodes| && i != t && Live(s.inodes[i]) ==> SameFile(s.inodes[i], s.data, s'.data)
    ensures Framed(op, s, s')
  {
  }

  // Everything logical is on the disk, and no cached entry is dirty.
  ghost predicate OnDisk(fs: Server)
    reads fs, fs.Repr
  {
    fs.Valid() && fs.Durable()
  }

  // If every sector could be written, that is.
  twostate predicate OnDiskUnlessFailed(fs: Server)
    reads fs, fs.Repr, fs.store, fs.store.disk
  {
    fs.store.disk.Failures == old(fs.store.disk.Failures) ==> OnDisk(fs)
  }

  // An operation that leaves everything as it is.
  lemma Idle(op: Op, s: Snapshot)
    requires Consistent(s)
    ensures Framed(op, s, s)
  {
    hide Numbered, Fit;
  }

  lemma InMap(position: nat, size: nat, fileSize: nat)
    requires position + size <= BLOCKSIZE * MAX_BLOCKS
    ensures !PastMap(position, size, fileSize)
  {
  }

  method DoWrite(fs: Server, inum: nat, position: nat, bytes: seq<Byte>) returns (r: int)
    requires Healthy(fs) && Allowed(Op.Write(inum, position, bytes), fs.numInodes)
    modifies fs.Repr
    ensures Healthy(fs) && fs.Grown() && Follows(Op.Write(inum, position, bytes), old(Now(fs)), Now(fs))
    ensures fs.NoLeaks() <==> old(fs.NoLeaks()) && !RunsOut(Op.Write(inum, position, bytes), old(Now(fs)))
    ensures r == if old(Live(fs.Inodes[inum])) && 0 <= fs.Inodes[inum].size then
                   Stored(position, |bytes|, fs.Inodes[inum].size)
                 else -1
  {
    hide Server.Valid, Server.UsedBlocks, Server.UsedInodes, Server.Settled, BlockMap.Sound, Exact, Bitmap.Free,
      Resized, Rewrites, PastMap, Stored, SameFile, CutsShort, Fit, Numbered, Framed;
    ghost var op, s := Op.Write(inum, position, bytes), Now(fs);
    Idle(op, s);
    if Live(fs.Inodes[inum]) {
      SoundStart(fs, inum);
    }
    ghost var w;
    r, w := WriteHandler(fs, inum, position, bytes, |bytes|);
    if Live(s.inodes[inum]) {
      InMap(position, |bytes|, w.ino.size);
      WriteFits(s.inodes, inum, ViewOf(s, inum), w, position, |bytes|, fs.Table(), fs.numBlocks);
      StillNumbered(fs.UsedInodes(), s.inodes, inum, w.ino);
      Frame(op, s, Now(fs), inum);
      assert Wrote(s, Now(fs), inum, w, position, bytes);
    }
  }

  lemma ExtendFits(inodes: seq<Inode>, k: nat, v: View, w: View, newsize: int)
    requires Fit(inodes) && k < |inodes| && Live(inodes[k]) && v.ino == inodes[k] && newsize <= BLOCKSIZE * MAX_BLOCKS
    requires w == v || CutShort(v, w) || (0 <= newsize && Extended(v, w, newsize))
    ensures Fit(inodes[k := w.ino]) && w.ino.kind == v.ino.kind
  {
    if w != v {
      SizeKept(v, w, newsize);
    }
    OneFit(inodes, k, w.ino);
  }

  // The three ways of extend().
  lemma Verdict(size: nat, newsize: int, free: nat)
    ensures Fits(size, newsize, free) ==> size <= newsize
    ensures Stops(size, newsize, free) ==>
        size <= newsize && Need(size, newsize) <= free && !Fits(size, newsize, free)
    ensures Fits(size, newsize, free) || Stops(size, newsize, free) || newsize < size || Need(size, newsize) > free
  {
  }

  method DoExtend(fs: Server, inum: nat, newsize: int) returns (r: int)
    requires Healthy(fs) && Allowed(Op.Extend(inum, newsize), fs.numInodes)
    modifies fs.Repr
    ensures Healthy(fs) && fs.Grown() && Follows(Op.Extend(inum, newsize), old(Now(fs)), Now(fs))
    ensures fs.NoLeaks() <==> old(fs.NoLeaks()) && !RunsOut(Op.Extend(inum, newsize), old(Now(fs)))
    ensures old(Live(fs.Inodes[inum])) ==> 0 <= old(fs.Inodes[inum]).size
    ensures r == if old(Live(fs.Inodes[inum]))
                    && Fits(old(fs.Inodes[inum]).size, newsize, FreeCount(old(Now(fs)))) then 0 else -1
  {
    hide Server.Valid, Server.UsedBlocks, Server.UsedInodes, Server.Settled, BlockMap.Sound, Exact, Bitmap.Free,
      Grew, Fits, Need, Underestimated, Stops, SameFile, Fit, Numbered, Framed;
    ghost var op, s := Op.Extend(inum, newsize), Now(fs);
    Idle(op, s);
    var info := fs.GetUseInode(inum);
    r := -1;
    if info != null {
      r := ExtendLive(fs, info, inum, newsize);
    }
  }

  method ExtendLive(fs: Server, info: Node<Inode>, ghost k: nat, newsize: int) returns (r: int)
    requires Healthy(fs) && k < fs.numInodes && fs.Has(k, info) && Live(fs.Inodes[k])
    requires newsize <= BLOCKSIZE * MAX_BLOCKS
    modifies fs.Repr
    ensures Healthy(fs) && fs.Grown() && Framed(Op.Extend(k, newsize), old(Now(fs)), Now(fs))
    ensures 0 <= old(fs.Inodes[k]).size && Grew(old(Now(fs)), Now(fs), k, newsize)
    ensures fs.NoLeaks() <==>
        old(fs.NoLeaks() && !Stops(fs.Inodes[k].size, newsize, |Bitmap.Free(fs.UsedBlocks(), fs.numBlocks)|))
    ensures r == if Fits(old(fs.Inodes[k]).size, newsize, FreeCount(old(Now(fs)))) then 0 else -1
  {
    hide Server.Valid, Server.UsedBlocks, Server.UsedInodes, BlockMap.Sound, Exact, Bitmap.Free, Extended, CutShort,
      Need, Underestimated, Stops, SameFile, Fit, Numbered, Fits, Framed;
    ghost var s := Now(fs);
    ghost var v, free := fs.View(k), FreeCount(s);
    SoundStart(fs, k);
    Verdict(v.ino.size, newsize, free);
    r := Allocator.Extend(fs, info, k, newsize);
    ghost var w := fs.View(k);
    assert fs.Inodes == s.inodes[k := w.ino];
    ExtendFits(s.inodes, k, v, w, newsize);
    StillSettled(fs, s.inodes, old(fs.icache.Map()).Keys, s.numbers);
    StillNumbered(s.numbers, s.inodes, k, w.ino);
    Frame(Op.Extend(k, newsize), s, Now(fs), k);
  }

  lemma CreatedFits(inodes: seq<Inode>, r: nat, kind: Int16, used: set<nat>)
    requires Fit(inodes) && Numbered(used, inodes, |inodes|) && r < |inodes| && r !in used
    requires kind != INODE_DIRECTORY && kind != INODE_FREE
    ensures var inodes' := inodes[r := OneMoreLink(Born(inodes[r], kind))];
      Fit(inodes') && Numbered(used + {r}, inodes', |inodes'|)
  {
    OneFit(inodes, r, OneMoreLink(Born(inodes[r], kind)));
  }

  lemma UndoneFits(inodes: seq<Inode>, inodes': seq<Inode>, used: set<nat>)
    requires Fit(inodes) && Numbered(used, inodes, |inodes|) && |inodes| > 0
    requires inodes' == inodes || exists k: nat :: FirstFree(used, k) && Undone(inodes, inodes', k)
    ensures |inodes'| == |inodes| && Fit(inodes') && Numbered(used, inodes', |inodes'|)
    ensures forall i :: 0 <= i < |inodes| && (Live(inodes[i]) || i == 0) ==> inodes'[i] == inodes[i]
  {
  }

  method DoCreate(fs: Server, parent: nat, filename: CString, kind: Int16) returns (r: int)
    requires Healthy(fs) && Allowed(Op.Create(parent, filename, kind), fs.numInodes)
    modifies fs.Repr
    ensures Healthy(fs) && fs.Grown() && (fs.NoLeaks() <==> old(fs.NoLeaks()))
    ensures Follows(Op.Create(parent, filename, kind), old(Now(fs)), Now(fs))
    ensures r != -1 <==> CanCreate(ImageIn(old(Now(fs))), old(fs.UsedInodes()), fs.numInodes, parent, filename)
    ensures r != -1 ==> Creates(Op.Create(parent, filename, kind), old(Now(fs)), r)
    ensures Syncs(Op.Create(parent, filename, kind), old(Now(fs))) ==> OnDiskUnlessFailed(fs)
  {
    hide Server.Durable, Server.Valid, Server.UsedBlocks, Server.UsedInodes, Server.Settled, BlockMap.Sound, Exact,
      SameFile, Created, CanCreate, CanStart, TextOf, FirstFree, Fit, Numbered, Undone, Framed;
    ghost var op, s := Op.Create(parent, filename, kind), Now(fs);
    FitListing(fs, parent);
    r := CreateFile(fs, filename, parent, kind);
    if r != -1 {
      CreatedInodes(s, Now(fs), parent, r, filename, kind);
      HeaderUsed(s.numbers, s.inodes);
    } else {
      UndoneFits(s.inodes, fs.Inodes, s.numbers);
    }
    Frame(op, s, Now(fs), parent);
    assert Made(s, Now(fs), parent, filename, kind);
  }

  lemma CreatedInodes(s: Snapshot, s': Snapshot, parent: nat, r: nat, filename: CString, kind: Int16)
    requires Fit(s.inodes) && Numbered(s.numbers, s.inodes, |s.inodes|) && FirstFree(s.numbers, r)
    requires Created(ImageIn(s), ImageIn(s'), parent, r, filename, kind)
    requires kind != INODE_DIRECTORY && kind != INODE_FREE
    ensures r < |s.inodes| == |s'.inodes| && r !in s.numbers 
    ensures Fit(s'.inodes) && Numbered(s.numbers + {r}, s'.inodes, |s'.inodes|)
    ensures !Live(s.inodes[r]) && forall i :: 0 <= i < |s.inodes| && i != r ==> s'.inodes[i] == s.inodes[i]
  {
    hide Numbered, Fit, NewSlot, TextOf, CreateEntry, Born, OneMoreLink;
    CreatedFits(s.inodes, r, kind, s.numbers);
  }

  lemma FitListing(fs: Server, k: nat)
    requires Healthy(fs) && k < fs.numInodes
    ensures Listing(fs.Inodes[k])
  {
    hide Server.Valid, Server.UsedBlocks, Server.UsedInodes, Server.Settled, BlockMap.Sound, Numbered;
  }

  lemma HeaderUsed(used: set<nat>, inodes: seq<Inode>)
    requires Numbered(used, inodes, |inodes|)
    ensures 0 in used
  {
  }

  lemma FreedFits(inodes: seq<Inode>, k: nat, used: set<nat>)
    requires Fit(inodes) && Numbered(used, inodes, |inodes|) && 0 < k < |inodes|
    ensures var inodes' := inodes[k := Freed(inodes[k])]; Fit(inodes') && Numbered(used - {k}, inodes', |inodes'|)
    ensures Live(inodes[k]) ==> inodes[k].size <= BLOCKSIZE * MAX_BLOCKS
  {
  }

  method DoFree(fs: Server, inum: nat)
    requires Healthy(fs) && Allowed(Op.Free(inum), fs.numInodes)
    modifies fs.Repr
    ensures Healthy(fs) && fs.Grown() && (fs.NoLeaks() <==> old(fs.NoLeaks()))
    ensures Follows(Op.Free(inum), old(Now(fs)), Now(fs))
    ensures Syncs(Op.Free(inum), old(Now(fs))) ==> OnDiskUnlessFailed(fs)
  {
    hide Server.Durable, Server.Valid, Server.UsedBlocks, Server.UsedInodes, Server.Settled, BlockMap.Sound, Exact,
      SameFile, Owned, Less, Fit, Numbered, Framed;
    ghost var op, s := Op.Free(inum), Now(fs);
    EveryFile(fs);
    Idle(op, s);
    FreedFits(s.inodes, inum, s.numbers);
    var r := FreeInode(fs, inum);
    Frame(op, s, Now(fs), inum);
  }

  method DoQuiet(fs: Server, op: Op)
    requires Healthy(fs) && Allowed(op, fs.numInodes) && Quiet(op)
    modifies fs.Repr
    ensures Healthy(fs) && fs.Grown() && fs.SameState()
    ensures op.Sync? ==> OnDiskUnlessFailed(fs)
  {
    hide Server.Durable, Server.Valid, Server.UsedBlocks, Server.UsedInodes, BlockMap.Sound, PastMap, Slice,
      Overwrite, TextOf, Numbered, Naming.ResolvePath;
    match op
    case Read(inum, position, size) =>
      var buf := new Byte[size];
      var _ := ReadHandler(fs, inum, position, buf, size);
    case Resolve(path, dir) =>
      var _, _ := Paths.ResolvePath(fs, path, dir);
    case Sync =>
      var _ := fs.Sync();
  }

  // One operation.
  method Step(fs: Server, op: Op)
    requires Healthy(fs) && Allowed(op, fs.numInodes)
    modifies fs.Repr
    ensures Healthy(fs) && fs.Grown() && (Quiet(op) ==> fs.SameState()) && Follows(op, old(Now(fs)), Now(fs))
    ensures fs.NoLeaks() <==> old(fs.NoLeaks()) && !RunsOut(op, old(Now(fs)))
    ensures Syncs(op, old(Now(fs))) ==> OnDiskUnlessFailed(fs)
  {
    hide OnDisk, CanCreate, CanStart, Server.Valid, Server.UsedBlocks, Server.UsedInodes, Server.Settled,
      BlockMap.Sound, Exact, Fit, CutsShort, Stops, Framed, Numbered, Wrote, Grew, Made, Cleared, Bitmap.Free;
    match op
    case Write(inum, position, bytes) => var _ := DoWrite(fs, inum, position, bytes);
    case Extend(inum, newsize) => var _ := DoExtend(fs, inum, newsize);
    case Create(parent, filename, kind) => var _ := DoCreate(fs, parent, filename, kind);
    case Free(inum) => DoFree(fs, inum);
    case _ =>
      Idle(op, Now(fs));
      DoQuiet(fs, op);
  }

  // No operation of the run targets file k.
  predicate Spared(ops: seq<Op>, k: nat) {
    forall i :: 0 <= i < |ops| ==> !Targets(ops[i], k)
  }

  // Any run of operations. Every reachable state is healthy: both caches well formed and transparent,
  // block ownership sound, nothing pending. trail is what the run makes of the file system, operation
  // by operation. A file that is no operation's target is the same afterwards, byte for byte. Used
  // blocks are exactly the reserved and owned ones, if they were and no extension ran out of blocks
  // half way, and only then; the caller can tell beforehand. Operations that only read leave the
  // logical state as it was, whatever the caches do.
  method Run(fs: Server, ops: seq<Op>) returns (ghost trail: seq<Snapshot>)
    requires Healthy(fs) && forall i :: 0 <= i < |ops| ==> Allowed(ops[i], fs.numInodes)
    modifies fs.Repr
    ensures Healthy(fs) && fs.Grown()
    ensures Traced(ops, trail) && trail[0] == old(Now(fs)) && trail[|ops|] == Now(fs)
    ensures forall k :: 0 <= k < fs.numInodes && Spared(ops, k) ==>
        Untouched(old(fs.Inodes), old(fs.Data), fs.Inodes, fs.Data, k)
    ensures fs.NoLeaks() <==> old(fs.NoLeaks()) && NeverRunsOut(ops, trail)
    ensures UsedIsOwned(fs) <==> old(UsedIsOwned(fs)) && NeverRunsOut(ops, trail)
    // exactly, as long as no file is created
    ensures (forall i :: 0 <= i < |ops| ==> !ops[i].Create?) ==>
        (NeverRunsOut(ops, trail) <==> Lasts(ops, LedgerOf(old(Now(fs)))))
    // and in any case with enough blocks for everything
    ensures Needs(ops) <= FreeCount(old(Now(fs))) ==> NeverRunsOut(ops, trail)
    ensures (forall i :: 0 <= i < |ops| ==> Quiet(ops[i])) ==> fs.SameState()
    // after a step that syncs, everything is on the disk, if every sector could be written
    ensures ops != [] && Syncs(ops[|ops| - 1], trail[|ops| - 1]) ==> OnDiskUnlessFailed(fs)
  {
    hide OnDisk, Syncs, Healthy, Server.Valid, Server.UsedBlocks, Server.UsedInodes, BlockMap.Sound, Exact,
      Untouched, RunsOut, UsedIsOwned, Traced, Follows, NeverRunsOut, Allowed, FreeCount, Needs, Lasts, LedgerOf;
    Start(fs);
    ghost var s := Now(fs);
    trail := [s];
    StartTrail(s);
    for i := 0 to |ops|
      invariant Healthy(fs) && fs.Grown() && |fs.Inodes| == fs.numInodes
      invariant Traced(ops[..i], trail) && |trail| == i + 1 && trail[0] == s && trail[i] == Now(fs)
      invariant forall k :: 0 <= k < fs.numInodes && Spared(ops[..i], k) ==>
          Untouched(s.inodes, s.data, fs.Inodes, fs.Data, k)
      invariant fs.NoLeaks() <==> old(fs.NoLeaks()) && NeverRunsOut(ops[..i], trail)
      invariant (forall j :: 0 <= j < i ==> Quiet(ops[j])) ==> fs.SameState()
      invariant i > 0 && Syncs(ops[i - 1], trail[i - 1]) ==> OnDiskUnlessFailed(fs)
    {
      ghost var s' := Now(fs);
      Step(fs, ops[i]);
      HealthyNow(fs);
      StepTrail(ops[..i], trail, ops[i], Now(fs));
      assert ops[..i] + [ops[i]] == ops[..i + 1];
      trail := trail + [Now(fs)];
      forall k | 0 <= k < fs.numInodes && Spared(ops[..i + 1], k)
        ensures Untouched(s.inodes, s.data, fs.Inodes, fs.Data, k)
      {
        SparedSoFar(ops, i, k);
        FollowsUntouched(ops[i], s', Now(fs), k);
        UntouchedTwice(s.inodes, s.data, s'.inodes, s'.data, fs.Inodes, fs.Data, k);
      }
    }
    assert ops[..|ops|] == ops;
    HealthyLeaks(fs);
    Beforehand(ops, trail);
  }

  lemma Beforehand(ops: seq<Op>, trail: seq<Snapshot>)
    requires Traced(ops, trail) && forall i :: 0 <= i < |ops| ==> Allowed(ops[i], |trail[0].inodes|)
    ensures (forall i :: 0 <= i < |ops| ==> !ops[i].Create?) ==>
        (NeverRunsOut(ops, trail) <==> Lasts(ops, LedgerOf(trail[0])))
    ensures Needs(ops) <= FreeCount(trail[0]) ==> NeverRunsOut(ops, trail)
  {
    hide NeverRunsOut, Lasts, LedgerOf, Allowed, FreeCount, Needs, Follows, Consistent;
    if forall i :: 0 <= i < |ops| ==> !ops[i].Create? {
      Foreseen(ops, trail);
    }
    if Needs(ops) <= FreeCount(trail[0]) {
      NeedsMet(ops, trail);
    }
  }

  lemma HealthyNow(fs: Server)
    requires Healthy(fs)
    ensures Consistent(Now(fs)) && |Now(fs).inodes| == fs.numInodes
  {
    hide Server.UsedBlocks, Server.UsedInodes, BlockMap.Sound, Fit, Numbered;
  }

  lemma HealthySound(fs: Server)
    requires Healthy(fs)
    ensures fs.Valid() && fs.Settled() && fs.Sound()
  {
    hide Server.Valid, Server.UsedBlocks, Server.UsedInodes, BlockMap.Sound, Fit, Numbered;
  }

  lemma FollowsUntouched(op: Op, s: Snapshot, s': Snapshot, k: nat)
    requires Follows(op, s, s') && k < |s.inodes| && !Targets(op, k)
    ensures Untouched(s.inodes, s.data, s'.inodes, s'.data, k)
  {
  }

  lemma HealthyLeaks(fs: Server)
    requires Healthy(fs)
    ensures UsedIsOwned(fs) <==> fs.NoLeaks()
  {
    NothingLeaks(fs);
  }

  lemma SparedSoFar(ops: seq<Op>, i: nat, k: nat)
    requires i < |ops| && Spared(ops[..i + 1], k)
    ensures Spared(ops[..i], k) && !Targets(ops[i], k)
  {
    assert ops[..i + 1][i] == ops[i];
    forall j | 0 <= j < i
      ensures !Targets(ops[..i][j], k)
    {
      assert ops[..i + 1][j] == ops[..i][j];
    }
  }

  lemma Start(fs: Server)
    requires Healthy(fs)
    ensures forall k :: 0 <= k < fs.numInodes ==> Untouched(fs.Inodes, fs.Data, fs.Inodes, fs.Data, k)
    ensures UsedIsOwned(fs) <==> fs.NoLeaks()
    ensures Consistent(Now(fs)) && |Now(fs).inodes| == fs.numInodes
  {
    HealthyNow(fs);
    NothingTouched(fs.Inodes, fs.Data, fs.UsedBlocks(), fs.Table(), fs.numBlocks);
    NothingLeaks(fs);
  }

  // After a run that begins with freeing inode k, get_use_inode() on it is NULL, unless the run has
  // created a file in its place, the number being the first one free then, and has not freed that.
  method FreeThenRun(fs: Server, k: nat, ops: seq<Op>) returns (n: Node?<Inode>, ghost trail: seq<Snapshot>)
    requires Healthy(fs) && 0 < k < fs.numInodes && forall i :: 0 <= i < |ops| ==> Allowed(ops[i], fs.numInodes)
    modifies fs.Repr
    ensures Healthy(fs) && var all := [Op.Free(k)] + ops;
      && Traced(all, trail) && trail[0] == old(Now(fs)) && trail[|all|] == Now(fs)
      && (n != null <==> exists i: nat :: i < |all| && Creates(all[i], trail[i], k) && Stays(all, k, i, |all|))
  {
    hide Server.Valid, Server.UsedBlocks, Server.UsedInodes, Server.Settled, BlockMap.Sound, Fit, Numbered,
      Untouched, Traced, Creates, NeverRunsOut, UsedIsOwned, Lasts, LedgerOf, Needs, FreeCount;
    ghost var all := [Op.Free(k)] + ops;
    trail := Run(fs, [Op.Free(k)] + ops);
    LifeOf(all, trail, k, |all|);
    assert all[0] == Op.Free(k) && !Stays(all, k, 0, |all|);
    n := fs.GetUseInode(k);
  }
}
