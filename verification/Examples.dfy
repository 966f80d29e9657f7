// Where the program falls short of its promises, on disks it can really be run on: what some runs
// do on a freshly formatted disk, in every case. Lifetime.Use can be called with any of them.
module Examples {
  import opened Sequences
  import opened Layout
  import opened BlockMap
  import opened Growth
  import opened FileSystem
  import opened Allocator
  import opened Conservation
  import opened ByteIO
  import opened Transfers
  import opened Naming
  import Paths
  import opened Creation
  import opened Mount
  import opened Mkyfs
  import opened Restart
  import opened Boot
  import opened Operations
  import opened Budget
  import opened Files
  import opened Runs
  import opened Lifetime
  import Bitmap

  const NAME: CString := [97]            // "a"
  const OTHER: CString := [98]           // "b"
  const PARENT: CString := [DOT, DOT]

  // The first two files created on a disk, both in its root directory. They get the numbers 2 and 3.
  const FIRST := Op.Create(ROOTINODE, NAME, INODE_REGULAR)
  const SECOND := Op.Create(ROOTINODE, OTHER, INODE_REGULAR)

  // The two entries of the root directory of a formatted disk.
  lemma RootEntries(inodes: seq<Inode>, n: nat)
    requires Fitting(n) && Formatted(inodes, TableBlocks(n) + 1)
    ensures var text := TextOf(inodes[1], Sectors(n));
      && |text| == 2 * DIRENTSIZE && EntryAt(text, 0).inum == ROOTINODE && EntryAt(text, 1).inum == ROOTINODE
      && Named(EntryAt(text, 0), [DOT]) && Named(EntryAt(text, 1), PARENT)
  {
    hide CreateEntry, EntryAt, Named, TextOf;
    RootText(inodes, n);
    var text := TextOf(inodes[1], Sectors(n));
    CreatedEntry(ROOTINODE, [DOT]);
    CreatedEntry(ROOTINODE, PARENT);
    EntriesOf(text, CreateEntry(ROOTINODE, [DOT]), CreateEntry(ROOTINODE, PARENT));
  }

  lemma EntriesOf(text: seq<Byte>, a: seq<Byte>, b: seq<Byte>)
    requires |a| == DIRENTSIZE && |b| == DIRENTSIZE && text == a + b
    ensures EntryAt(text, 0) == EntryAt(a, 0) && EntryAt(text, 1) == EntryAt(b, 0)
  {
    hide Decode16;
    assert text[0..2] == a[0..2] && text[2..32] == a[2..32];
    assert text[32..34] == b[0..2] && text[34..64] == b[2..32];
  }

  lemma RootText(inodes: seq<Inode>, n: nat)
    requires Fitting(n) && Formatted(inodes, TableBlocks(n) + 1)
    ensures TextOf(inodes[1], Sectors(n)) == CreateEntry(ROOTINODE, [DOT]) + CreateEntry(ROOTINODE, PARENT)
  {
    hide CreateEntry, TableBlock;
    var ino, data, d := inodes[1], Sectors(n), TableBlocks(n) + 1;
    assert Mapped(ino.size) == 1 && MapOf(ino, data) == [d];
    assert data[d] == RootBlock();
    assert Addressable(ino, data);
    var a, b := CreateEntry(ROOTINODE, [DOT]), CreateEntry(ROOTINODE, PARENT);
    assert forall p :: 0 <= p < 2 * DIRENTSIZE ==> Contents(ino, data)[p] == RootBlock()[p] == (a + b)[p];
  }

  // The root directory has two entries, x for inode a and y for inode b.
  ghost predicate Listed(s: Snapshot, x: CString, a: int, y: CString, b: int) {
    && |x| <= DIRNAMELEN && |y| <= DIRNAMELEN && 0 < a && 0 < b
    && 1 < |s.inodes| && s.inodes[1].kind == INODE_DIRECTORY && s.inodes[1].size == 2 * DIRENTSIZE
    && var text := TextOf(s.inodes[1], s.data);
      && |text| == 2 * DIRENTSIZE
      && EntryAt(text, 0).inum == a && UpToNul(EntryAt(text, 0).name) == x
      && EntryAt(text, 1).inum == b && UpToNul(EntryAt(text, 1).name) == y
  }

  lemma SearchTwo(text: seq<Byte>, name: CString)
    requires |text| == 2 * DIRENTSIZE
    ensures Search(text, name, 0, 2) == if Named(EntryAt(text, 0), name) then EntryAt(text, 0).inum
                                        else if Named(EntryAt(text, 1), name) then EntryAt(text, 1).inum else 0
  {
    hide EntryAt, Named;
    assert Search(text, name, 1, 2) == if Named(EntryAt(text, 1), name) then EntryAt(text, 1).inum else 0;
  }

  lemma FindInRoot(s: Snapshot, x: CString, a: int, y: CString, b: int, name: CString)
    requires Listed(s, x, a, y, b) && |name| <= DIRNAMELEN
    ensures Find(ImageIn(s), name, ROOTINODE) == Inum(if name == x then a else if name == y then b else 0)
  {
    hide EntryAt, TextOf, Search, UpToNul;
    SearchTwo(TextOf(s.inodes[1], s.data), name);
    assert s.inodes[1].size / DIRENTSIZE == 2;
  }

  lemma ListedAtFirst(s: Snapshot, n: nat)
    requires Fresh(s, n)
    ensures Listed(s, [DOT], 1, PARENT, 1)
  {
    hide CreateEntry, EntryAt, TextOf, UpToNul, Sectors;
    RootEntries(s.inodes, n);
    assert Shortened(PARENT) == PARENT && Shortened([DOT]) == [DOT];
  }

  // The second slot of a directory of two entries is the one looked at last, and taken.
  lemma SecondSlot(text: seq<Byte>)
    requires |text| == 2 * DIRENTSIZE && EntryAt(text, 0).inum != 0
    ensures NewSlot(text, 2 * DIRENTSIZE, 0) == 1
  {
    hide EntryAt;
  }

  // A file created in the root directory takes the place of the second entry.
  lemma Added(op: Op, s: Snapshot, s': Snapshot, x: CString, a: int, y: CString, b: int, k: nat)
    requires op.Create? && op == Op.Create(ROOTINODE, op.filename, INODE_REGULAR) && Follows(op, s, s')
    requires Consistent(s) && Listed(s, x, a, y, b) && op.filename != x && op.filename != y
    requires |op.filename| <= DIRNAMELEN && 0 !in op.filename
    requires FirstFree(s.numbers, k) && 0 < k < |s.inodes|
    ensures Creates(op, s, k) && Listed(s', x, a, op.filename, k) && FreeCount(s') == FreeCount(s)
    ensures |s'.inodes| == |s.inodes| && s'.inodes == s.inodes[k := s'.inodes[k]] && s'.numbers == s.numbers + {k}
    ensures Live(s'.inodes[k]) && s'.inodes[k].size == 0
  {
    hide Consistent, CreateEntry, EntryAt, TextOf, UpToNul, Rewrites, Search, NewSlot, Untouched;
    FindInRoot(s, x, a, y, b, op.filename);
    SecondSlot(TextOf(s.inodes[1], s.data));
    assert k in Bitmap.Free(s.numbers, |s.inodes|);
    assert Room(ImageIn(s), ROOTINODE);
    var j: nat :| FirstFree(s.numbers, j) && s'.numbers == s.numbers + {j}
                  && Created(ImageIn(s), ImageIn(s'), ROOTINODE, j, op.filename, INODE_REGULAR);
    assert j == k;
    NewEntry(op, s, s', x, a, k);
  }

  lemma NewEntry(op: Op, s: Snapshot, s': Snapshot, x: CString, a: int, k: nat)
    requires op.Create? && |op.filename| <= DIRNAMELEN && 0 !in op.filename && k != 1
    requires Created(ImageIn(s), ImageIn(s'), ROOTINODE, k, op.filename, INODE_REGULAR)
    requires s.inodes[1].size == 2 * DIRENTSIZE && |TextOf(s.inodes[1], s.data)| == 2 * DIRENTSIZE
    requires NewSlot(TextOf(s.inodes[1], s.data), 2 * DIRENTSIZE, 0) == 1
    ensures 1 < |s'.inodes| && s'.inodes[1] == s.inodes[1]
    ensures var text, text' := TextOf(s.inodes[1], s.data), TextOf(s'.inodes[1], s'.data);
      && |text'| == 2 * DIRENTSIZE && EntryAt(text', 0) == EntryAt(text, 0)
      && EntryAt(text', 1).inum == k && UpToNul(EntryAt(text', 1).name) == op.filename
  {
    hide CreateEntry, EntryAt, TextOf, UpToNul, Rewrites, NewSlot;
    var entry := CreateEntry(k, op.filename);
    CreatedEntry(k, op.filename);
    EntryWritten(s.inodes[k := Born(s.inodes[k], INODE_REGULAR)], s'.inodes, 1, s.data, s'.data, DIRENTSIZE, entry);
    EntriesAfter(TextOf(s.inodes[1], s.data), 1, entry);
    assert Shortened(op.filename) == op.filename;
  }

  // A fresh disk after the first creation: file 2 is there under its name, and is empty.
  lemma AfterFirst(s: Snapshot, s': Snapshot, n: nat)
    requires 3 <= n && Fresh(s, n) && Consistent(s) && Follows(FIRST, s, s')
    ensures |s'.inodes| == n && s'.inodes == s.inodes[2 := s'.inodes[2]] && FreeCount(s') == FreeCount(s)
    ensures Live(s'.inodes[2]) && s'.inodes[2].size == 0 && s'.numbers == {0, 1, 2}
    ensures Listed(s, [DOT], 1, PARENT, 1) && Listed(s', [DOT], 1, NAME, 2) && Creates(FIRST, s, 2)
  {
    hide Follows, Sectors, Sound, Fit, Listed, Creates;
    ListedAtFirst(s, n);
    assert s.numbers == {0, 1};
    assert NAME[0] != DOT && |PARENT| == 2;
    Added(FIRST, s, s', [DOT], 1, PARENT, 1, 2);
  }

  // addEntry() replaces the last entry of a full directory: on a formatted disk, the first file
  // created in the root directory takes the place of "..".
  lemma ParentLost(n: nat, trail: seq<Snapshot>)
    requires 3 <= n && Traced([FIRST], trail) && Fresh(trail[0], n)
    ensures Find(ImageIn(trail[0]), PARENT, ROOTINODE) == Inum(ROOTINODE)
    ensures Find(ImageIn(trail[1]), NAME, ROOTINODE) == Inum(2)
    ensures Find(ImageIn(trail[1]), PARENT, ROOTINODE) == Inum(0)
  {
    hide Follows, Consistent, Fresh, Listed, Find;
    RestTraced([FIRST], trail);
    AfterFirst(trail[0], trail[1], n);
    assert NAME[0] != DOT && |PARENT| == 2;
    FindInRoot(trail[0], [DOT], 1, PARENT, 1, PARENT);
    FindInRoot(trail[1], [DOT], 1, NAME, 2, PARENT);
    FindInRoot(trail[1], [DOT], 1, NAME, 2, NAME);
  }

  // The same as findInumInDir() sees it.
  method ParentLookedUp(n: nat) returns (fs: Server, before: int, after: int, ghost trail: seq<Snapshot>)
    requires Fitting(n) && 3 <= n
    ensures Healthy(fs) && Traced([FIRST], trail) && Fresh(trail[0], n) && trail[1] == Now(fs)
    ensures Inum(before) == Find(ImageIn(trail[0]), PARENT, ROOTINODE) && before == ROOTINODE
    ensures Inum(after) == Find(ImageIn(trail[1]), PARENT, ROOTINODE) && after == 0
  {
    hide Follows, Consistent, Fresh, Find, Server.Valid, Server.UsedBlocks, Server.UsedInodes, Server.Settled,
      BlockMap.Sound, Fit, Numbered;
    fs := BootFresh(n);
    HealthyNow(fs);
    HealthySound(fs);
    ghost var s := Now(fs);
    before := Paths.FindInumInDir(fs, PARENT, ROOTINODE);
    var _ := DoCreate(fs, ROOTINODE, NAME, INODE_REGULAR);
    HealthyNow(fs);
    HealthySound(fs);
    trail := [s, Now(fs)];
    ParentLost(n, trail);
    after := Paths.FindInumInDir(fs, PARENT, ROOTINODE);
  }

  // WriteHandler() tests for growth by whole blocks: of up to 512 bytes written to an empty file none
  // is stored, however many blocks are free.
  method WriteLost(fs: Server, k: nat, bytes: seq<Byte>) returns (r: int)
    requires Healthy(fs) && k < fs.numInodes && Live(fs.Inodes[k]) && fs.Inodes[k].size == 0
    requires 0 < |bytes| <= BLOCKSIZE
    modifies fs.Repr
    ensures Healthy(fs) && Follows(Op.Write(k, 0, bytes), old(Now(fs)), Now(fs))
    ensures r == 0 && FilesOf(Now(fs)) == old(FilesOf(Now(fs)))
  {
    hide Healthy, Follows, FilesOf, FreeCount, Consistent;
    ghost var s := Now(fs);
    HealthyNow(fs);
    InFiles(s, k);
    WholeText(s, k);
    r := DoWrite(fs, k, 0, bytes);
    HealthyNow(fs);
    Refines(Op.Write(k, 0, bytes), s, Now(fs));
    NothingStored(FilesOf(s)[k], FilesOf(Now(fs))[k], bytes, FreeCount(s));
    InFiles(Now(fs), k);
    WholeText(Now(fs), k);
    assert FilesOf(s)[k := []] == FilesOf(s);
  }

  lemma NothingStored(text: Bytes, text': Bytes, bytes: seq<Byte>, free: nat)
    requires Overlaid(text, text', 0, bytes, free) && text == [] && |bytes| <= BLOCKSIZE
    ensures text' == [] && Stored(0, |bytes|, 0) == 0
  {
  }

  // The same from the start: 100 bytes for the first file of a disk.
  method WriteLostAtFirst(n: nat, bytes: seq<Byte>) returns (fs: Server, r: int, ghost trail: seq<Snapshot>)
    requires Fitting(n) && 3 <= n && |bytes| == 100
    ensures Healthy(fs) && Traced([FIRST, Op.Write(2, 0, bytes)], trail) && Fresh(trail[0], n) && trail[2] == Now(fs)
    ensures r == 0 && 2 in FilesOf(trail[2]) && FilesOf(trail[2])[2] == []
  {
    hide Healthy, Follows, FilesOf, Consistent, Fresh, Listed, Creates;
    fs, trail := Use(n, [FIRST]);
    RestTraced([FIRST], trail);
    AfterFirst(trail[0], trail[1], n);
    InFiles(trail[1], 2);
    WholeText(trail[1], 2);
    r := WriteLost(fs, 2, bytes);
    HealthyNow(fs);
    StepTrail([FIRST], trail, Op.Write(2, 0, bytes), Now(fs));
    trail := trail + [Now(fs)];
    assert [FIRST] + [Op.Write(2, 0, bytes)] == [FIRST, Op.Write(2, 0, bytes)];
  }

  // With 11287 inodes 13 blocks are left on the disk.
  const FEW_BLOCKS := 11287
  const GAP := [FIRST, Op.Extend(2, 6144), Op.Extend(2, 6145)]

  // A file of 12 blocks, one block free, one byte more: extend() finds its estimate met, runs out of
  // blocks, and those it took are lost.
  lemma EstimateMissed(trail: seq<Snapshot>)
    requires Traced(GAP, trail) && Fresh(trail[0], FEW_BLOCKS)
    ensures |trail[2].inodes| == |trail[3].inodes| == FEW_BLOCKS
    ensures trail[2].inodes[2].size == 6144 && FreeCount(trail[2]) == 1 == Need(6144, 6145)
    ensures RunsOut(GAP[2], trail[2]) && trail[3].inodes[2].size == 6144 && FreeCount(trail[3]) == 0
  {
    hide Consistent, Follows, Fresh, Listed, Creates, FreeCount;
    Three(GAP, trail);
    FreeAtFirst(trail[0], FEW_BLOCKS);
    AfterFirst(trail[0], trail[1], FEW_BLOCKS);
    GapNumbers();
    SizeOf(trail[1], 2);
    NextLedger(GAP[1], trail[1], trail[2]);
    LifeStep(GAP[1], trail[1], trail[2], 2);
    SizeOf(trail[2], 2);
    NextLedger(GAP[2], trail[2], trail[3]);
    LifeStep(GAP[2], trail[2], trail[3], 2);
    SizeOf(trail[3], 2);
  }

  lemma GapNumbers()
    ensures BlocksForInodes(FEW_BLOCKS) == 1411 && Fitting(FEW_BLOCKS)
    ensures Fits(0, 6144, 13) && Cost(0, 6144) == 12
    ensures Need(6144, 6145) == 1 && Stops(6144, 6145, 1) && !Fits(6144, 6145, 1)
  {
    assert BlocksFor(0) == 0 && BlocksFor(6144) == 12 && BlocksFor(6145) == 13;
  }

  // The steps of a run of three.
  lemma Three(ops: seq<Op>, trail: seq<Snapshot>)
    requires Traced(ops, trail) && |ops| >= 3
    ensures forall i :: 0 <= i <= 3 ==> Consistent(trail[i])
    ensures forall i :: 0 <= i < 3 ==> Follows(ops[i], trail[i], trail[i + 1]) && Allowed(ops[i], |trail[i].inodes|)
  {
  }

  method BlockLost() returns (fs: Server, ghost trail: seq<Snapshot>)
    ensures Healthy(fs) && Traced(GAP, trail) && Fresh(trail[0], FEW_BLOCKS) && trail[3] == Now(fs)
    ensures !fs.NoLeaks()
  {
    hide Healthy, Traced, Fresh, Exact, FreeCount, RunsOut;
    GapNumbers();
    fs, trail := Use(FEW_BLOCKS, GAP);
    EstimateMissed(trail);
  }

  // init_inode_block() does not mark indirect blocks: after one file has grown past 12 blocks, a new
  // start on the synced disk has a bitmap in which an owned block counts as free.
  method OwnershipLost(n: nat) returns (r: int, fs: Server, again: Server?, ghost trail: seq<Snapshot>)
    requires Fitting(n) && 3 <= n && BlocksForInodes(n) + 16 <= NUMSECTORS
    ensures Traced([FIRST, Op.Extend(2, 6145)], trail) && Fresh(trail[0], n) && trail[2] == Now(fs)
    ensures r == 0 ==> again != null && Restored(fs.Inodes, fs.Data, fs.UsedBlocks(), fs.UsedInodes(), again)
    ensures r == 0 ==> !again.Sound()
    ensures r != 0 ==> again == null && fs.store.disk.Failures > 0
  {
    hide Traced, Fresh, BlockMap.Sound, Restored, Exact, Indirects;
    r, fs, again, trail := LiveAndRestart(n, [FIRST, Op.Extend(2, 6145)]);
    Thirteen(n, trail);
    if r == 0 {
      SoundAgain(again, fs.Inodes, fs.Data, fs.UsedBlocks(), fs.UsedInodes());
    }
  }

  lemma Thirteen(n: nat, trail: seq<Snapshot>)
    requires 3 <= n && BlocksForInodes(n) + 16 <= NUMSECTORS
    requires Traced([FIRST, Op.Extend(2, 6145)], trail) && Fresh(trail[0], n)
    ensures Indirects(trail[2].inodes) != {}
  {
    hide Consistent, Follows, Fresh, Listed, Creates, FreeCount;
    var ops := [FIRST, Op.Extend(2, 6145)];
    assert Follows(ops[0], trail[0], trail[1]) && Follows(ops[1], trail[1], trail[2]);
    FreeAtFirst(trail[0], n);
    AfterFirst(trail[0], trail[1], n);
    assert BlocksFor(0) == 0 && BlocksFor(6145) == 13;
    SizeOf(trail[1], 2);
    NextLedger(ops[1], trail[1], trail[2]);
    LifeStep(ops[1], trail[1], trail[2], 2);
    SizeOf(trail[2], 2);
    assert trail[2].inodes[2].indirect as int in Indirects(trail[2].inodes);
  }

  // A new data block beyond the direct ones holds what was last in it: if the only free blocks are
  // those of a file just freed, the bytes of that file.
  lemma Recycled(s: Snapshot, s': Snapshot, k: nat, m: nat, newsize: nat, p: nat) returns (q: nat)
    requires Consistent(s) && FreeCount(s) == 0 && m < |s.inodes| && Live(s.inodes[m])
    requires Mapped(s.inodes[m].size) <= NUM_DIRECT && Readable(s.inodes[m], s.data)
    requires Consistent(Cleared(s, m)) && Consistent(s') && k < |s.inodes| == |s'.inodes| && k != m && Live(s.inodes[k])
    requires Extended(ViewOf(Cleared(s, m), k), ViewOf(s', k), newsize)
    requires s'.numBlocks == s.numBlocks
    requires BLOCKSIZE * BlocksFor(s.inodes[k].size) <= p < newsize && BLOCKSIZE * NUM_DIRECT <= p
    ensures Addressable(s.inodes[m], s.data) && q < BLOCKSIZE * Mapped(s.inodes[m].size)
    ensures q % BLOCKSIZE == p % BLOCKSIZE
    ensures p < |TextOf(s'.inodes[k], s'.data)| && TextOf(s'.inodes[k], s'.data)[p] == FileBytes(s.inodes[m], s.data)[q]
  {
    hide Consistent, Extended, Less, Bitmap.Free, TextOf, MapOf, Owned, Addressable, FreeCount;
    WholeText(s, m);
    var b := NewByte(Cleared(s, m), s', k, newsize, p);
    WasOwned(s, m, b);
    q := ByteIn(s.inodes[m], s.data, b, p % BLOCKSIZE);
  }

  // Such a byte is that of a block not in use before.
  lemma NewByte(s: Snapshot, s': Snapshot, k: nat, newsize: nat, p: nat) returns (b: int)
    requires Consistent(s) && Consistent(s') && k < |s.inodes| == |s'.inodes| && Live(s.inodes[k])
    requires Extended(ViewOf(s, k), ViewOf(s', k), newsize)
    requires BLOCKSIZE * BlocksFor(s.inodes[k].size) <= p < newsize && BLOCKSIZE * NUM_DIRECT <= p
    ensures 0 <= b < |s.data| && b !in s.used && b < s'.numBlocks
    ensures p < |TextOf(s'.inodes[k], s'.data)| && TextOf(s'.inodes[k], s'.data)[p] == s.data[b][p % BLOCKSIZE]
  {
    hide Consistent, Extended, FileBytes, BlocksFor, Addressable, Distinct;
    var v, w := ViewOf(s, k), ViewOf(s', k);
    ExtendedLive(v, w, newsize);
    ExtendedSize(v, w, newsize);
    WholeText(s, k);
    WholeText(s', k);
    ExtendedBytes(v, w, newsize);
    BelowSize(p / BLOCKSIZE, newsize);
    b := MapOf(w.ino, w.data)[p / BLOCKSIZE];
    assert Owned(w.ino, w.data)[p / BLOCKSIZE] == b && b in Owned(w.ino, w.data);
  }

  lemma ByteIn(ino: Inode, data: seq<Block>, b: int, r: nat) returns (q: nat)
    requires Addressable(ino, data) && b in MapOf(ino, data) && r < BLOCKSIZE
    ensures q < BLOCKSIZE * Mapped(ino.size) && q % BLOCKSIZE == r
    ensures 0 <= b < |data| && FileBytes(ino, data)[q] == data[b][r]
  {
    hide Mapped;
    var j :| 0 <= j < Mapped(ino.size) && MapOf(ino, data)[j] == b;
    q := BLOCKSIZE * j + r;
    assert q / BLOCKSIZE == j && q % BLOCKSIZE == r;
  }

  lemma WasOwned(s: Snapshot, m: nat, b: int)
    requires FreeCount(s) == 0 && m < |s.inodes| && Readable(s.inodes[m], s.data)
    requires Mapped(s.inodes[m].size) <= NUM_DIRECT
    requires 0 <= b < s.numBlocks && b !in Less(s.used, Owned(s.inodes[m], s.data))
    ensures b in MapOf(s.inodes[m], s.data)
  {
    assert b !in Bitmap.Free(s.used, s.numBlocks);
    assert Owned(s.inodes[m], s.data) == MapOf(s.inodes[m], s.data);
  }

  // With 11279 inodes 14 blocks are left on the disk.
  const MORE_BLOCKS := 11279

  // File 2 takes 12 blocks and file 3 the other two, which are filled and freed, and taken by file 2.
  function Reuse(bytes: seq<Byte>): (ops: seq<Op>)
    ensures |ops| == 7
  {
    [FIRST, SECOND, Op.Extend(2, 6144), Op.Extend(3, 1024), Op.Write(3, 0, bytes), Op.Free(3), Op.Extend(2, 6145)]
  }

  // Files 2 and 3 are there with these sizes, and so many blocks are free.
  ghost predicate Sizes(s: Snapshot, a: int, b: int, free: nat) {
    && 3 < |s.inodes| && Live(s.inodes[2]) && Live(s.inodes[3]) && s.inodes[2].size == a && s.inodes[3].size == b
    && FreeCount(s) == free
  }

  lemma SizesNext(op: Op, s: Snapshot, s': Snapshot, a: int, b: int, free: nat)
    requires Consistent(s) && Consistent(s') && Follows(op, s, s') && Allowed(op, |s.inodes|)
    requires (op.Extend? || op.Write?) && Sizes(s, a, b, free)
    ensures |s'.inodes| == |s.inodes| && LedgerOf(s).sizes[2] == a && LedgerOf(s).sizes[3] == b
    ensures LedgerOf(s).free == free
    ensures LedgerOf(s') == Next(op, LedgerOf(s))
    ensures Sizes(s', LedgerOf(s').sizes[2], LedgerOf(s').sizes[3], LedgerOf(s').free)
  {
    hide Consistent, Follows, FreeCount, Next, Creates;
    LifeStep(op, s, s', 2);
    LifeStep(op, s, s', 3);
    SizeOf(s, 2);
    SizeOf(s, 3);
    SizeOf(s', 2);
    SizeOf(s', 3);
    NextLedger(op, s, s');
    assert !op.Create?;
  }

  // The state of that run when file 3 is full and so is the disk.
  lemma Filled(bytes: seq<Byte>, trail: seq<Snapshot>)
    requires Traced(Reuse(bytes), trail) && Fresh(trail[0], MORE_BLOCKS) && |bytes| == 1024
    ensures |trail[5].inodes| == MORE_BLOCKS && Sizes(trail[5], 6144, 1024, 0)
    ensures TextOf(trail[5].inodes[3], trail[5].data) == bytes
  {
    hide Consistent, Follows, Fresh, Listed, Creates, FreeCount, Next, TextOf, Sizes;
    var ops := Reuse(bytes);
    Seven(ops, trail);
    FreeAtFirst(trail[0], MORE_BLOCKS);
    ReuseNumbers();
    AfterFirst(trail[0], trail[1], MORE_BLOCKS);
    AfterSecond(trail[1], trail[2]);
    SizesNext(ops[2], trail[2], trail[3], 0, 0, 14);
    TwelveTaken(LedgerOf(trail[2]));
    SizesNext(ops[3], trail[3], trail[4], 6144, 0, 2);
    TwoTaken(LedgerOf(trail[3]));
    SizesNext(ops[4], trail[4], trail[5], 6144, 1024, 0);
    FillsUp(trail[4], trail[5], bytes);
  }

  lemma TwelveTaken(l: Ledger)
    requires 3 < |l.sizes| && l.sizes[2] == 0 && l.free == 14
    ensures Next(Op.Extend(2, 6144), l) == Ledger(l.sizes[2 := 6144], 2)
  {
    ReuseNumbers();
  }

  lemma TwoTaken(l: Ledger)
    requires 3 < |l.sizes| && l.sizes[3] == 0 && l.free == 2
    ensures Next(Op.Extend(3, 1024), l) == Ledger(l.sizes[3 := 1024], 0)
  {
    ReuseNumbers();
  }

  // A write over the whole of file 3.
  lemma FillsUp(s: Snapshot, s': Snapshot, bytes: seq<Byte>)
    requires Consistent(s) && Consistent(s') && Sizes(s, 6144, 1024, 0) && |bytes| == 1024
    requires Follows(Op.Write(3, 0, bytes), s, s')
    ensures Next(Op.Write(3, 0, bytes), LedgerOf(s)) == LedgerOf(s)
    ensures 3 < |s'.inodes| && TextOf(s'.inodes[3], s'.data) == bytes
  {
    hide Consistent, Follows, FreeCount, TextOf, FilesOf, Creates, Fits;
    var op := Op.Write(3, 0, bytes);
    LifeStep(op, s, s', 3);
    SizeOf(s, 3);
    WholeText(s, 3);
    Refines(op, s, s');
    InFiles(s, 3);
    InFiles(s', 3);
  }

  lemma AfterSecond(s: Snapshot, s': Snapshot)
    requires Consistent(s) && Follows(SECOND, s, s') && Listed(s, [DOT], 1, NAME, 2) && s.numbers == {0, 1, 2}
    requires 3 < |s.inodes| && Live(s.inodes[2]) && s.inodes[2].size == 0
    ensures |s'.inodes| == |s.inodes| && Sizes(s', 0, 0, FreeCount(s))
  {
    hide Follows, Listed, Creates, Consistent, FreeCount;
    assert OTHER[0] != DOT && OTHER[0] != NAME[0];
    Added(SECOND, s, s', [DOT], 1, NAME, 2, 3);
  }

  lemma Seven(ops: seq<Op>, trail: seq<Snapshot>)
    requires Traced(ops, trail) && |ops| == 7
    ensures forall i :: 0 <= i <= 7 ==> Consistent(trail[i])
    ensures forall i :: 0 <= i < 7 ==> Follows(ops[i], trail[i], trail[i + 1]) && Allowed(ops[i], |trail[i].inodes|)
  {
  }

  lemma ReuseNumbers()
    ensures BlocksForInodes(MORE_BLOCKS) == 1410 && Fitting(MORE_BLOCKS)
    ensures BlocksFor(0) == 0 && BlocksFor(6144) == 12 && BlocksFor(1024) == 2 && BlocksFor(6145) == 13
  {
  }

  lemma Regrown(s: Snapshot, s': Snapshot)
    requires Consistent(s) && Follows(Op.Extend(2, 6145), s, s') && FreeCount(s) == 2
    requires 2 < |s.inodes| && Live(s.inodes[2]) && s.inodes[2].size == 6144
    ensures 2 < |s'.inodes| == |s.inodes| && s'.numBlocks == s.numBlocks && Live(s'.inodes[2])
    ensures Extended(ViewOf(s, 2), ViewOf(s', 2), 6145) && s'.inodes[2].size == 6145
  {
    hide Consistent, FreeCount, Extended, Untouched, CutShort;
    ReuseNumbers();
    assert Fits(6144, 6145, 2);
    ExtendedLive(ViewOf(s, 2), ViewOf(s', 2), 6145);
    ExtendedSize(ViewOf(s, 2), ViewOf(s', 2), 6145);
  }

  lemma FreedThree(s: Snapshot, s': Snapshot)
    requires Consistent(s) && Follows(Op.Free(3), s, s') && Sizes(s, 6144, 1024, 0)
    ensures Readable(s.inodes[3], s.data) && s' == Cleared(s, 3) && FreeCount(s') == 2 && 3 !in FilesOf(s')
    ensures |s'.inodes| == |s.inodes| && s'.numBlocks == s.numBlocks && s'.inodes[2] == s.inodes[2]
    ensures Mapped(s.inodes[3].size) == 2
  {
    hide Consistent, FreeCount, Less, Owned, Untouched;
    ReuseNumbers();
    FreeLedger(s, 3);
  }

  // Neither extend() nor free_inode() clears a block that is to become an indirect data block: a byte
  // of a freed file is read through another file, which never wrote it.
  lemma Leftover(bytes: seq<Byte>, x: Byte, trail: seq<Snapshot>)
    requires Traced(Reuse(bytes), trail) && Fresh(trail[0], MORE_BLOCKS)
    requires |bytes| == 1024 && forall p :: 0 <= p < 1024 ==> bytes[p] == x
    ensures 3 !in FilesOf(trail[6])
    ensures 2 in FilesOf(trail[7]) && |FilesOf(trail[7])[2]| == 6145 && FilesOf(trail[7])[2][6144] == x
  {
    hide Consistent, Fresh, FreeCount, FilesOf, Extended, Follows, Cleared, Addressable, Mapped, BlocksFor;
    Seven(Reuse(bytes), trail);
    Filled(bytes, trail);
    FreedThree(trail[5], trail[6]);
    Regrown(trail[6], trail[7]);
    ReuseNumbers();
    var q := Recycled(trail[5], trail[7], 2, 3, 6145, 6144);
    ByteOf(trail[5], 3, bytes, q);
    WholeText(trail[7], 2);
    InFiles(trail[7], 2);
  }

  lemma ByteOf(s: Snapshot, k: nat, bytes: seq<Byte>, q: nat)
    requires Consistent(s) && k < |s.inodes| && Live(s.inodes[k]) && TextOf(s.inodes[k], s.data) == bytes
    requires Addressable(s.inodes[k], s.data) && q < BLOCKSIZE * Mapped(s.inodes[k].size)
    requires s.inodes[k].size == BLOCKSIZE * Mapped(s.inodes[k].size)
    ensures q < |bytes| && FileBytes(s.inodes[k], s.data)[q] == bytes[q]
  {
    WholeText(s, k);
  }

  // The same as ReadHandler() sees it.
  method LeftoverRead(x: Byte) returns (fs: Server, r: int, buf: array<Byte>, ghost trail: seq<Snapshot>)
    ensures var bytes := seq(1024, _ => x);
      Traced(Reuse(bytes), trail) && Fresh(trail[0], MORE_BLOCKS) && trail[7] == Now(fs)
    ensures r == 1 && buf[..] == [x]
  {
    hide Fresh, Healthy, FilesOf, Consistent, Follows, Reuse, Server.UsedBlocks, Server.UsedInodes, Exact;
    ReuseNumbers();
    ReuseAllowed(x);
    var bytes := seq(1024, _ => x);
    fs, trail := Use(MORE_BLOCKS, Reuse(bytes));
    Leftover(bytes, x, trail);
    assert Now(fs) == trail[7];
    r, buf := ReadOne(fs, 2, 6144, x);
  }

  lemma ReuseAllowed(x: Byte)
    ensures forall op :: op in Reuse(seq(1024, _ => x)) ==> Allowed(op, MORE_BLOCKS)
  {
  }

  method ReadOne(fs: Server, k: nat, at: nat, ghost x: Byte) returns (r: int, buf: array<Byte>)
    requires Healthy(fs) && k in FilesOf(Now(fs)) && |FilesOf(Now(fs))[k]| == at + 1 && FilesOf(Now(fs))[k][at] == x
    modifies fs.Repr
    ensures fs.SameState() && r == 1 && buf[..] == [x]
  {
    hide Server.Valid, Server.UsedBlocks, Server.UsedInodes, Server.Settled, FilesOf, TextOf, Consistent, Slice,
      Overwrite, BlockMap.Sound, PastMap;
    HealthyNow(fs);
    HealthySound(fs);
    InFiles(Now(fs), k);
    WholeText(Now(fs), k);
    buf := new Byte[1];
    OneByte(Text(fs, k), at, buf[..]);
    r := ReadHandler(fs, k, at, buf, 1);
  }

  lemma OneByte(text: seq<Byte>, at: nat, was: seq<Byte>)
    requires at + 1 == |text| <= BLOCKSIZE * MAX_BLOCKS && |was| == 1
    ensures Slice(text, at, 1) == [text[at]] && Overwrite(was, 0, [text[at]]) == [text[at]]
    ensures !PastMap(at, 1, |text|)
  {
  }
}
