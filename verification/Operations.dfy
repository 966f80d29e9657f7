// What each operation does to the file system, caches left aside.
module Operations {
  import opened Sequences
  import opened Layout
  import opened BlockMap
  import opened Growth
  import opened Allocator
  import opened ByteIO
  import opened Naming
  import opened Creation
  import opened Mount
  import Bitmap

  datatype Op =
    | Write(inum: nat, position: nat, bytes: seq<Byte>)
    | Extend(inum: nat, newsize: int)
    | Create(parent: nat, filename: CString, kind: Int16)
    | Free(inum: nat)
    | Read(inum: nat, position: nat, size: nat)
    | Resolve(path: CString, dir: int)
    | Sync

  // Inode numbers in range, sizes the block map can hold, no empty directories, the header not freed.
  predicate Allowed(op: Op, numInodes: nat) {
    match op
    case Write(inum, position, bytes) => inum < numInodes && position + |bytes| <= BLOCKSIZE * MAX_BLOCKS
    case Extend(inum, newsize) => inum < numInodes && newsize <= BLOCKSIZE * MAX_BLOCKS
    case Create(parent, filename, kind) => parent < numInodes && kind != INODE_FREE && kind != INODE_DIRECTORY
    case Free(inum) => 0 < inum < numInodes
    case Read(inum, position, size) => inum < numInodes
    case Resolve(path, dir) => true
    case Sync => true
  }

  // The file an operation may change.
  predicate Targets(op: Op, k: nat) {
    match op
    case Write(inum, position, bytes) => k == inum
    case Extend(inum, newsize) => k == inum
    case Create(parent, filename, kind) => k == parent
    case Free(inum) => k == inum
    case Read(inum, position, size) => false
    case Resolve(path, dir) => false
    case Sync => false
  }

  predicate Quiet(op: Op) {
    op.Read? || op.Resolve? || op.Sync?
  }

  // The file system as the caches present it: the inodes, the blocks, both bitmaps, and the numbers
  // of the last block of the inode table and of all blocks.
  datatype Snapshot = Snapshot(inodes: seq<Inode>, data: seq<Block>, used: set<nat>, numbers: set<nat>,
                               table: nat, numBlocks: nat)

  function FreeCount(s: Snapshot): nat {
    |Bitmap.Free(s.used, s.numBlocks)|
  }

  function ViewOf(s: Snapshot, k: nat): View
    requires k < |s.inodes|
  {
    View(s.inodes[k], s.data, s.used)
  }

  function ImageIn(s: Snapshot): Image {
    Image(s.inodes, s.data)
  }

  // Sizes within reach of the block map; directories with at least one entry.
  ghost predicate Fit(inodes: seq<Inode>) {
    forall k :: 0 <= k < |inodes| && Live(inodes[k]) ==>
        inodes[k].size <= BLOCKSIZE * MAX_BLOCKS && (inodes[k].kind == INODE_DIRECTORY ==> DIRENTSIZE <= inodes[k].size)
  }

  // Block ownership is sound, and the inode bitmap is exactly the header and the allocated inodes.
  ghost predicate Consistent(s: Snapshot) {
    && Sound(s.inodes, s.data, s.used, s.table, s.numBlocks) && Fit(s.inodes)
    && 0 < |s.inodes| <= 0x8000 && Numbered(s.numbers, s.inodes, |s.inodes|)
  }

  // File k is the same file before and after, byte for byte; so is the header, in slot 0.
  ghost predicate Untouched(inodes: seq<Inode>, data: seq<Block>, inodes': seq<Inode>, data': seq<Block>, k: nat) {
    && k < |inodes| == |inodes'| && (Live(inodes[k]) || k == 0 ==> inodes'[k] == inodes[k])
    && (Live(inodes[k]) ==> SameFile(inodes[k], data, data'))
  }

  lemma UntouchedTwice(inodes: seq<Inode>, data: seq<Block>, inodes': seq<Inode>, data': seq<Block>,
                       inodes'': seq<Inode>, data'': seq<Block>, k: nat)
    requires Untouched(inodes, data, inodes', data', k) && Untouched(inodes', data', inodes'', data'', k)
    ensures Untouched(inodes, data, inodes'', data'', k)
  {
  }

  // What an untouched file holds.
  lemma UntouchedText(inodes: seq<Inode>, data: seq<Block>, inodes': seq<Inode>, data': seq<Block>, k: nat)
    requires Untouched(inodes, data, inodes', data', k) && Live(inodes[k])
    ensures TextOf(inodes'[k], data') == TextOf(inodes[k], data)
  {
    SameBytes(inodes[k], data, data');
  }

  // All files but those the operation targets.
  ghost predicate Framed(op: Op, s: Snapshot, s': Snapshot) {
    && |s'.inodes| == |s.inodes| && s'.table == s.table && s'.numBlocks == s.numBlocks
    && forall k :: 0 <= k < |s.inodes| && !Targets(op, k) ==> Untouched(s.inodes, s.data, s'.inodes, s'.data, k)
  }

  // A write to an allocated file: w is the file once there is room, over which the bytes are laid.
  ghost predicate Wrote(s: Snapshot, s': Snapshot, k: nat, w: View, position: nat, bytes: seq<Byte>)
    requires k < |s.inodes|
  {
    && 0 <= s.inodes[k].size && Resized(ViewOf(s, k), w, position, |bytes|, s.numBlocks) && 0 <= w.ino.size
    && s'.inodes == s.inodes[k := w.ino] && s'.used == w.used && s'.numbers == s.numbers
    && Rewrites(s'.inodes, k, w.data, s'.data, position, bytes[..Stored(position, |bytes|, w.ino.size)])
  }

  // An extension of an allocated file.
  ghost predicate Grew(s: Snapshot, s': Snapshot, k: nat, newsize: int)
    requires k < |s.inodes| && 0 <= s.inodes[k].size
  {
    if Fits(s.inodes[k].size, newsize, FreeCount(s)) then
      && |s'.inodes| == |s.inodes| && s'.inodes == s.inodes[k := s'.inodes[k]] && s'.numbers == s.numbers
      && 0 <= newsize && Extended(ViewOf(s, k), ViewOf(s', k), newsize)
    else if Stops(s.inodes[k].size, newsize, FreeCount(s)) then
      && |s'.inodes| == |s.inodes| && s'.inodes == s.inodes[k := s'.inodes[k]] && s'.numbers == s.numbers
      && CutShort(ViewOf(s, k), ViewOf(s', k)) && Bitmap.Free(s'.used, s'.numBlocks) == {}
    else
      s' == s
  }

  // The operation creates file k: the name is not there, the directory has room, and k is the first
  // number free.
  ghost predicate Creates(op: Op, s: Snapshot, k: int) {
    && op.Create? && k < |s.inodes| && FirstFree(s.numbers, k)
    && CanCreate(ImageIn(s), s.numbers, |s.inodes|, op.parent, op.filename)
  }

  ghost predicate Made(s: Snapshot, s': Snapshot, parent: nat, filename: CString, kind: Int16) {
    && s'.used == s.used && parent < |s.inodes| && |s'.inodes| == |s.inodes|
    && if CanCreate(ImageIn(s), s.numbers, |s.inodes|, parent, filename) then
         exists k: nat ::
           && k < |s.inodes| && FirstFree(s.numbers, k) && s'.numbers == s.numbers + {k}
           && Created(ImageIn(s), ImageIn(s'), parent, k, filename, kind)
       else
         && s'.numbers == s.numbers
         && TextOf(s'.inodes[parent], s'.data) == TextOf(s.inodes[parent], s.data)
         && if CanStart(ImageIn(s), s.numbers, |s.inodes|, parent, filename) then
              exists k: nat :: FirstFree(s.numbers, k) && Undone(s.inodes, s'.inodes, k)
            else s'.inodes == s.inodes
  }

  // The file system after freeing file k.
  ghost function Cleared(s: Snapshot, k: nat): Snapshot
    requires k < |s.inodes| && Readable(s.inodes[k], s.data)
  {
    s.(inodes := s.inodes[k := Freed(s.inodes[k])], used := Less(s.used, Owned(s.inodes[k], s.data)),
       numbers := s.numbers - {k})
  }

  // What the operation makes of the file system.
  ghost predicate Follows(op: Op, s: Snapshot, s': Snapshot) {
    && Framed(op, s, s')
    && match op
       case Write(inum, position, bytes) =>
         && inum < |s.inodes|
         && if Live(s.inodes[inum]) then exists w :: Wrote(s, s', inum, w, position, bytes) else s' == s
       case Extend(inum, newsize) =>
         && inum < |s.inodes|
         && if Live(s.inodes[inum]) then 0 <= s.inodes[inum].size && Grew(s, s', inum, newsize) else s' == s
       case Create(parent, filename, kind) => Made(s, s', parent, filename, kind)
       case Free(inum) =>
         && inum < |s.inodes|
         && if Live(s.inodes[inum]) then Readable(s.inodes[inum], s.data) && s' == Cleared(s, inum) else s' == s
       case _ => s' == s
  }

  // The operation brings everything logical onto the disk, unless a sector cannot be written.
  ghost predicate Syncs(op: Op, s: Snapshot) {
    match op
    case Create(parent, filename, kind) =>
      && CanStart(ImageIn(s), s.numbers, |s.inodes|, parent, filename)
      && !CanCreate(ImageIn(s), s.numbers, |s.inodes|, parent, filename)
    case Free(inum) => inum < |s.inodes| && Live(s.inodes[inum])
    case Sync => true
    case _ => false
  }

  // The operation makes extend() run out of blocks half way, which the gap in its estimate allows.
  predicate RunsOut(op: Op, s: Snapshot) {
    match op
    case Write(inum, position, bytes) =>
      inum < |s.inodes| && Live(s.inodes[inum]) && CutsShort(position, |bytes|, s.inodes[inum].size, FreeCount(s))
    case Extend(inum, newsize) =>
      inum < |s.inodes| && Live(s.inodes[inum]) && Stops(s.inodes[inum].size, newsize, FreeCount(s))
    case _ => false
  }

  // The states a run goes through: every one consistent, and each what the operation before it makes
  // of the one before.
  ghost predicate Traced(ops: seq<Op>, trail: seq<Snapshot>) {
    && |trail| == |ops| + 1
    && (forall i :: 0 <= i < |trail| ==> Consistent(trail[i]))
    && (forall i {:trigger ops[i]} :: 0 <= i < |ops| ==>
          Allowed(ops[i], |trail[i].inodes|) && Follows(ops[i], trail[i], trail[i + 1]))
  }

  // No extension in the run runs out of blocks half way.
  ghost predicate NeverRunsOut(ops: seq<Op>, trail: seq<Snapshot>)
    requires |ops| <= |trail|
  {
    forall i :: 0 <= i < |ops| ==> !RunsOut(ops[i], trail[i])
  }

  lemma StartTrail(s: Snapshot)
    requires Consistent(s)
    ensures Traced([], [s]) && NeverRunsOut([], [s])
  {
  }

  lemma StepTrail(ops: seq<Op>, trail: seq<Snapshot>, op: Op, s: Snapshot)
    requires Traced(ops, trail) && Consistent(s)
    requires Allowed(op, |trail[|ops|].inodes|) && Follows(op, trail[|ops|], s)
    ensures Traced(ops + [op], trail + [s])
    ensures NeverRunsOut(ops + [op], trail + [s]) <==> NeverRunsOut(ops, trail) && !RunsOut(op, trail[|ops|])
  {
    hide RunsOut, Follows, Consistent, Allowed;
    var ops', trail' := ops + [op], trail + [s];
    assert forall i :: 0 <= i < |ops| ==> ops'[i] == ops[i];
    assert forall i :: 0 <= i <= |ops| ==> trail'[i] == trail[i];
    if NeverRunsOut(ops', trail') {
      forall i | 0 <= i < |ops|
        ensures !RunsOut(ops[i], trail[i])
      {
        assert !RunsOut(ops'[i], trail'[i]);
      }
    }
    forall i | 0 <= i < |ops'|
      ensures Allowed(ops'[i], |trail'[i].inodes|) && Follows(ops'[i], trail'[i], trail'[i + 1])
    {
      assert i < |ops| ==> Allowed(ops[i], |trail[i].inodes|) && Follows(ops[i], trail[i], trail[i + 1]);
    }
  }

  // The run but for its first operation.
  lemma RestTraced(ops: seq<Op>, trail: seq<Snapshot>)
    requires Traced(ops, trail) && ops != []
    ensures Consistent(trail[0]) && Consistent(trail[1]) && Allowed(ops[0], |trail[0].inodes|)
    ensures Follows(ops[0], trail[0], trail[1]) && Traced(ops[1..], trail[1..])
    ensures NeverRunsOut(ops, trail) <==> !RunsOut(ops[0], trail[0]) && NeverRunsOut(ops[1..], trail[1..])
  {
    hide RunsOut, Follows, Consistent, Allowed;
    forall i | 0 <= i < |ops| - 1
      ensures Allowed(ops[1..][i], |trail[1..][i].inodes|) && Follows(ops[1..][i], trail[1..][i], trail[1..][i + 1])
    {
      assert Follows(ops[i + 1], trail[i + 1], trail[i + 2]);
    }
    if NeverRunsOut(ops, trail) {
      forall i | 0 <= i < |ops| - 1
        ensures !RunsOut(ops[1..][i], trail[1..][i])
      {
        assert !RunsOut(ops[i + 1], trail[i + 1]);
      }
    }
    if !RunsOut(ops[0], trail[0]) && NeverRunsOut(ops[1..], trail[1..]) {
      forall i | 0 <= i < |ops|
        ensures !RunsOut(ops[i], trail[i])
      {
        assert i > 0 ==> !RunsOut(ops[1..][i - 1], trail[1..][i - 1]);
      }
    }
  }

  lemma SameNumber(op: Op, s: Snapshot, s': Snapshot)
    requires Follows(op, s, s')
    ensures |s'.inodes| == |s.inodes|
  {
  }

  lemma SizeKept(v: View, w: View, newsize: int)
    requires CutShort(v, w) || (0 <= newsize && Extended(v, w, newsize))
    ensures w.ino.kind == v.ino.kind && (w.ino.size == v.ino.size || v.ino.size <= w.ino.size == newsize)
  {
  }

  lemma WroteKind(s: Snapshot, s': Snapshot, k: nat, w: View, position: nat, bytes: seq<Byte>)
    requires k < |s.inodes| && Wrote(s, s', k, w, position, bytes)
    ensures |s'.inodes| == |s.inodes| && s'.inodes == s.inodes[k := s'.inodes[k]]
    ensures s'.inodes[k].kind == s.inodes[k].kind
  {
    hide Extended, CutShort, Rewrites, Fits, Underestimated, Bitmap.Free, Stored;
    if w != ViewOf(s, k) {
      SizeKept(ViewOf(s, k), w, position + |bytes|);
    }
  }

  lemma GrewKind(s: Snapshot, s': Snapshot, k: nat, newsize: int)
    requires k < |s.inodes| && 0 <= s.inodes[k].size && Grew(s, s', k, newsize)
    ensures |s'.inodes| == |s.inodes| && s'.inodes == s.inodes[k := s'.inodes[k]]
    ensures s'.inodes[k].kind == s.inodes[k].kind
  {
    hide Extended, CutShort, Fits, Underestimated, Bitmap.Free;
    if s' != s {
      SizeKept(ViewOf(s, k), ViewOf(s', k), newsize);
    }
  }

  lemma MadeLife(s: Snapshot, s': Snapshot, op: Op, k: nat)
    requires op.Create? && Made(s, s', op.parent, op.filename, op.kind) && op.kind != INODE_FREE && k < |s.inodes|
    ensures Live(s'.inodes[k]) <==> Creates(op, s, k) || Live(s.inodes[k])
  {
    hide CanCreate, CanStart, Rewrites, TextOf;
  }

  // One inode comes to life when a file is created, and one dies when it is freed.
  lemma LifeStep(op: Op, s: Snapshot, s': Snapshot, k: nat)
    requires Follows(op, s, s') && Allowed(op, |s.inodes|) && k < |s.inodes|
    ensures |s'.inodes| == |s.inodes|
    ensures Live(s'.inodes[k]) <==> Creates(op, s, k) || (Live(s.inodes[k]) && op != Op.Free(k))
  {
    hide Untouched, CanCreate, FirstFree, Made, Wrote, Grew, Less, Owned;
    match op
    case Write(inum, position, bytes) =>
      if Live(s.inodes[inum]) {
        var w :| Wrote(s, s', inum, w, position, bytes);
        WroteKind(s, s', inum, w, position, bytes);
      }
    case Extend(inum, newsize) =>
      if Live(s.inodes[inum]) {
        GrewKind(s, s', inum, newsize);
      }
    case Create(parent, filename, kind) =>
      MadeLife(s, s', op, k);
    case _ =>
  }

  // No operation from the i-th to the n-th frees file k.
  predicate Stays(ops: seq<Op>, k: nat, i: nat, n: nat) {
    forall j :: i <= j < n && j < |ops| ==> ops[j] != Op.Free(k)
  }

  // When a file exists after n operations of a run: it has been created, or was there from the
  // start, and has not been freed since.
  lemma {:induction false} LifeOf(ops: seq<Op>, trail: seq<Snapshot>, k: nat, n: nat)
    requires Traced(ops, trail) && n <= |ops| && k < |trail[0].inodes|
    ensures |trail[n].inodes| == |trail[0].inodes|
    ensures Live(trail[n].inodes[k]) <==>
        || (Live(trail[0].inodes[k]) && Stays(ops, k, 0, n))
        || exists i: nat :: i < n && Creates(ops[i], trail[i], k) && Stays(ops, k, i, n)
  {
    hide Creates, Follows, Consistent, Allowed;
    if n > 0 {
      LifeOf(ops, trail, k, n - 1);
      LifeStep(ops[n - 1], trail[n - 1], trail[n], k);
      OneMoreStep(ops, trail, k, n - 1);
    }
  }

  lemma OneMoreStep(ops: seq<Op>, trail: seq<Snapshot>, k: nat, n: nat)
    requires n < |ops| && |trail| == |ops| + 1
    ensures Stays(ops, k, 0, n + 1) <==> Stays(ops, k, 0, n) && ops[n] != Op.Free(k)
    ensures (exists i: nat :: i < n + 1 && Creates(ops[i], trail[i], k) && Stays(ops, k, i, n + 1)) <==>
        || Creates(ops[n], trail[n], k)
        || ((exists i: nat :: i < n && Creates(ops[i], trail[i], k) && Stays(ops, k, i, n)) && ops[n] != Op.Free(k))
  {
    hide CanCreate, FirstFree;
    if Creates(ops[n], trail[n], k) {
      assert ops[n].Create? && Stays(ops, k, n, n + 1);
    }
    if i: nat :| i < n && Creates(ops[i], trail[i], k) && Stays(ops, k, i, n) && ops[n] != Op.Free(k) {
      assert Stays(ops, k, i, n + 1);
    }
    if i: nat :| i < n && Creates(ops[i], trail[i], k) && Stays(ops, k, i, n + 1) {
      assert Stays(ops, k, i, n);
    }
  }

  // Kind, links and reuse count are not extend()'s or WriteHandler()'s business.
  predicate SameCounts(ino: Inode, ino': Inode) {
    ino'.kind == ino.kind && ino'.nlink == ino.nlink && ino'.reuse == ino.reuse
  }

  lemma GrowthKeepsCounts(v: View, w: View, newsize: int)
    requires CutShort(v, w) || (0 <= newsize && Extended(v, w, newsize))
    ensures SameCounts(v.ino, w.ino)
  {
  }

  lemma WroteCounts(s: Snapshot, s': Snapshot, k: nat, w: View, position: nat, bytes: seq<Byte>)
    requires k < |s.inodes| && Wrote(s, s', k, w, position, bytes)
    ensures |s'.inodes| == |s.inodes| && SameCounts(s.inodes[k], s'.inodes[k])
    ensures forall j :: 0 <= j < |s.inodes| && j != k ==> s'.inodes[j] == s.inodes[j]
  {
    hide Extended, CutShort, Rewrites, Fits, Underestimated, Bitmap.Free, Stored;
    if w != ViewOf(s, k) {
      GrowthKeepsCounts(ViewOf(s, k), w, position + |bytes|);
    }
  }

  lemma GrewCounts(s: Snapshot, s': Snapshot, k: nat, newsize: int)
    requires k < |s.inodes| && 0 <= s.inodes[k].size && Grew(s, s', k, newsize)
    ensures |s'.inodes| == |s.inodes| && SameCounts(s.inodes[k], s'.inodes[k])
    ensures forall j :: 0 <= j < |s.inodes| && j != k ==> s'.inodes[j] == s.inodes[j]
  {
    hide Extended, CutShort, Fits, Underestimated, Bitmap.Free;
    if s' != s {
      GrowthKeepsCounts(ViewOf(s, k), ViewOf(s', k), newsize);
    }
  }

  lemma MadeCounts(op: Op, s: Snapshot, s': Snapshot, k: nat)
    requires op.Create? && Made(s, s', op.parent, op.filename, op.kind) && k < |s.inodes|
    ensures |s'.inodes| == |s.inodes|
    ensures Creates(op, s, k) ==>
        && !Live(s.inodes[k]) && s'.inodes[k].kind == op.kind && s'.inodes[k].nlink == 1 && s'.inodes[k].size == 0
        && (s'.inodes[k].reuse - s.inodes[k].reuse - 1) % 0x1_0000_0000 == 0
    ensures !Creates(op, s, k) ==>
        && s'.inodes[k].reuse == s.inodes[k].reuse && (Live(s'.inodes[k]) ==> s'.inodes[k] == s.inodes[k])
  {
    hide CanCreate, CanStart, Rewrites, TextOf;
  }

  // A file comes into being with the kind asked for, one link and a reuse count one higher; nothing
  // changes these but its end, and nothing but creation ever changes the reuse count.
  lemma CountsStep(op: Op, s: Snapshot, s': Snapshot, k: nat)
    requires Follows(op, s, s') && k < |s.inodes|
    ensures |s'.inodes| == |s.inodes|
    ensures Creates(op, s, k) ==>
        && !Live(s.inodes[k]) && s'.inodes[k].kind == op.kind && s'.inodes[k].nlink == 1 && s'.inodes[k].size == 0
        && (s'.inodes[k].reuse - s.inodes[k].reuse - 1) % 0x1_0000_0000 == 0
    ensures !Creates(op, s, k) ==>
        && s'.inodes[k].reuse == s.inodes[k].reuse
        && (Live(s'.inodes[k]) ==> SameCounts(s.inodes[k], s'.inodes[k]))
  {
    hide Untouched, CanCreate, FirstFree, Made, Wrote, Grew, Less, Owned;
    match op
    case Write(inum, position, bytes) =>
      if Live(s.inodes[inum]) {
        var w :| Wrote(s, s', inum, w, position, bytes);
        WroteCounts(s, s', inum, w, position, bytes);
      }
    case Extend(inum, newsize) =>
      if Live(s.inodes[inum]) {
        GrewCounts(s, s', inum, newsize);
      }
    case Create(parent, filename, kind) =>
      MadeCounts(op, s, s', k);
    case _ =>
  }

  // A file that is not freed keeps them.
  lemma {:induction false} CountsKept(ops: seq<Op>, trail: seq<Snapshot>, k: nat, m: nat, n: nat)
    requires Traced(ops, trail) && m <= n <= |ops| && k < |trail[m].inodes| && Live(trail[m].inodes[k])
    requires Stays(ops, k, m, n)
    ensures |trail[n].inodes| == |trail[m].inodes| && Live(trail[n].inodes[k])
    ensures SameCounts(trail[m].inodes[k], trail[n].inodes[k])
    decreases n - m
  {
    hide Creates, Follows, Consistent, Allowed;
    if m < n {
      CountsKept(ops, trail, k, m, n - 1);
      CountsStep(ops[n - 1], trail[n - 1], trail[n], k);
      LifeStep(ops[n - 1], trail[n - 1], trail[n], k);
    }
  }

  // A file created in step i and not freed since is what was asked for, with one link.
  lemma CreatedFile(ops: seq<Op>, trail: seq<Snapshot>, k: nat, i: nat, n: nat)
    requires Traced(ops, trail) && i < n <= |ops| && k < |trail[i].inodes|
    requires Creates(ops[i], trail[i], k) && Stays(ops, k, i, n)
    ensures |trail[n].inodes| == |trail[i].inodes| && Live(trail[n].inodes[k])
    ensures trail[n].inodes[k].kind == ops[i].kind && trail[n].inodes[k].nlink == 1
    ensures (trail[n].inodes[k].reuse - trail[i].inodes[k].reuse - 1) % 0x1_0000_0000 == 0
  {
    hide Creates, Follows, Consistent, Allowed;
    IsCreation(ops[i], trail[i], k);
    CountsStep(ops[i], trail[i], trail[i + 1], k);
    LifeStep(ops[i], trail[i], trail[i + 1], k);
    assert Stays(ops, k, i + 1, n);
    CountsKept(ops, trail, k, i + 1, n);
  }

  lemma IsCreation(op: Op, s: Snapshot, k: int)
    requires Creates(op, s, k)
    ensures op.Create?
  {
  }

  // How often file k has been created in the first n steps.
  ghost function Creations(ops: seq<Op>, trail: seq<Snapshot>, k: nat, n: nat): nat
    requires n <= |ops| <= |trail|
  {
    if n == 0 then 0
    else Creations(ops, trail, k, n - 1) + if Creates(ops[n - 1], trail[n - 1], k) then 1 else 0
  }

  // The reuse count of an inode tells how often it has been created, in 32 bits.
  lemma {:induction false} ReuseOf(ops: seq<Op>, trail: seq<Snapshot>, k: nat, n: nat)
    requires Traced(ops, trail) && n <= |ops| && k < |trail[0].inodes|
    ensures |trail[n].inodes| == |trail[0].inodes|
    ensures (trail[n].inodes[k].reuse - trail[0].inodes[k].reuse - Creations(ops, trail, k, n)) % 0x1_0000_0000 == 0
  {
    hide Creates, Follows, Consistent, Allowed;
    if n > 0 {
      ReuseOf(ops, trail, k, n - 1);
      CountsStep(ops[n - 1], trail[n - 1], trail[n], k);
    }
  }
}
