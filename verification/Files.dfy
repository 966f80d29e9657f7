// The file system as its users see it: files by number, each a sequence of bytes. Every operation
// acts on this view alone.
module Files {
  import opened Sequences
  import opened Layout
  import opened BlockMap
  import opened Growth
  import opened Allocator
  import opened ByteIO
  import opened Transfers
  import opened Naming
  import opened Creation
  import opened Operations
  import Bitmap

  type Bytes = seq<Byte>

  function FilesOf(s: Snapshot): map<nat, Bytes> {
    map k: nat | k < |s.inodes| && Live(s.inodes[k]) :: TextOf(s.inodes[k], s.data)
  }

  // A byte at p that no write has touched: what it was, or zero in a new direct block.
  predicate Kept(text: Bytes, text': Bytes, p: nat)
    requires p < |text'|
  {
    && (p < |text| ==> text'[p] == text[p])
    && (BLOCKSIZE * BlocksFor(|text|) <= p < BLOCKSIZE * NUM_DIRECT ==> text'[p] == 0)
  }

  // A file after a write: its size, and each of its bytes.
  predicate Overlaid(text: Bytes, text': Bytes, position: nat, bytes: seq<Byte>, free: nat) {
    var n := Stored(position, |bytes|, SizeAfter(position, |bytes|, |text|, free));
    && |text'| == SizeAfter(position, |bytes|, |text|, free)
    && forall p :: 0 <= p < |text'| ==>
        if position <= p < position + n then text'[p] == bytes[p - position] else Kept(text, text', p)
  }

  // A file after an extension to newsize.
  predicate Lengthened(text: Bytes, text': Bytes, newsize: int) {
    |text'| == newsize && forall p :: 0 <= p < |text'| ==> Kept(text, text', p)
  }

  // The entry of a new empty file k in its parent's first free slot.
  predicate Entered(f: map<nat, Bytes>, f': map<nat, Bytes>, parent: nat, k: nat, filename: CString) {
    && parent in f && k !in f && k < 0x8000
    && var i := NewSlot(f[parent], |f[parent]|, 0);
      i >= 0 && f' == f[parent := Overwrite(f[parent], DIRENTSIZE * i, CreateEntry(k, filename))][k := []]
  }

  // What an operation does to the files, with so many blocks free.
  ghost predicate Effect(op: Op, f: map<nat, Bytes>, f': map<nat, Bytes>, free: nat) {
    match op
    case Write(k, position, bytes) =>
      if k !in f then f' == f
      else k in f' && f' == f[k := f'[k]] && Overlaid(f[k], f'[k], position, bytes, free)
    case Extend(k, newsize) =>
      if k !in f || !Fits(|f[k]|, newsize, free) then f' == f
      else k in f' && f' == f[k := f'[k]] && Lengthened(f[k], f'[k], newsize)
    case Create(parent, filename, kind) =>
      f' == f || exists k :: Entered(f, f', parent, k, filename)
    case Free(k) => f' == f - {k}
    case _ => f' == f
  }

  // Within reach of the block map a file is as long as its size says.
  lemma WholeText(s: Snapshot, k: nat)
    requires Consistent(s) && k < |s.inodes| && Live(s.inodes[k])
    ensures 0 <= s.inodes[k].size == |TextOf(s.inodes[k], s.data)| <= BLOCKSIZE * MAX_BLOCKS
    ensures Addressable(s.inodes[k], s.data) && SoundInode(s.inodes[k], s.data, s.used, s.table, s.numBlocks)
    ensures Mapped(s.inodes[k].size) == BlocksFor(s.inodes[k].size) && s.numBlocks <= |s.data|
  {
    SoundAddressable(s.inodes[k], s.data, s.used, s.table, s.numBlocks);
  }

  // Files other than the target, which stays allocated, are what they were.
  lemma OtherTexts(op: Op, s: Snapshot, s': Snapshot, t: nat)
    requires Framed(op, s, s') && t < |s.inodes| && (forall k :: Targets(op, k) ==> k == t)
    requires Live(s.inodes[t]) && s'.inodes == s.inodes[t := s'.inodes[t]] && Live(s'.inodes[t])
    ensures t in FilesOf(s) && t in FilesOf(s') && FilesOf(s') == FilesOf(s)[t := FilesOf(s')[t]]
  {
    hide TextOf, SameFile;
    forall k: nat | k < |s.inodes| && k != t && Live(s.inodes[k])
      ensures TextOf(s'.inodes[k], s'.data) == TextOf(s.inodes[k], s.data)
    {
      UntouchedText(s.inodes, s.data, s'.inodes, s'.data, k);
    }
  }

  lemma WriteEffect(s: Snapshot, s': Snapshot, w: View, k: nat, position: nat, bytes: seq<Byte>)
    requires Consistent(s) && Consistent(s') && k < |s.inodes| && Live(s.inodes[k])
    requires Wrote(s, s', k, w, position, bytes) && position + |bytes| <= BLOCKSIZE * MAX_BLOCKS
    ensures k < |s'.inodes| && Live(s'.inodes[k])
    ensures Overlaid(TextOf(s.inodes[k], s.data), TextOf(s'.inodes[k], s'.data), position, bytes, FreeCount(s))
  {
    hide Consistent, Resized, Rewrites, FileBytes, Addressable, Stored, Fits, Grows, Bitmap.Free;
    WroteKind(s, s', k, w, position, bytes);
    WholeText(s, k);
    WholeText(s', k);
    ResizedBytes(ViewOf(s, k), w, position, |bytes|, s.table, s.numBlocks);
    WrittenBytes(s'.inodes, k, ViewOf(s, k), w, s'.data, position, |bytes|,
                 bytes[..Stored(position, |bytes|, w.ino.size)], s.table, s.numBlocks);
  }

  lemma ExtendEffect(s: Snapshot, s': Snapshot, k: nat, newsize: nat)
    requires Consistent(s) && Consistent(s') && k < |s.inodes| == |s'.inodes| && Live(s.inodes[k])
    requires Extended(ViewOf(s, k), ViewOf(s', k), newsize)
    ensures Live(s'.inodes[k])
    ensures Lengthened(TextOf(s.inodes[k], s.data), TextOf(s'.inodes[k], s'.data), newsize)
  {
    hide Consistent, Extended, FileBytes, Addressable;
    ExtendedLive(ViewOf(s, k), ViewOf(s', k), newsize);
    WholeText(s, k);
    WholeText(s', k);
    ExtendedSize(ViewOf(s, k), ViewOf(s', k), newsize);
    ExtendedBytes(ViewOf(s, k), ViewOf(s', k), newsize);
    var was, now := FileBytes(s.inodes[k], s.data), FileBytes(s'.inodes[k], s'.data);
    assert forall p :: 0 <= p < |was| ==> now[p] == now[..|was|][p];
  }

  lemma ExtendedSize(v: View, w: View, newsize: nat)
    requires Extended(v, w, newsize)
    ensures v.ino.size <= newsize == w.ino.size
  {
  }

  // Cut short, an extension has not changed the file.
  lemma CutShortEffect(s: Snapshot, s': Snapshot, k: nat)
    requires Consistent(s) && Consistent(s') && k < |s.inodes| == |s'.inodes| && Live(s.inodes[k])
    requires CutShort(ViewOf(s, k), ViewOf(s', k))
    ensures Live(s'.inodes[k]) && TextOf(s'.inodes[k], s'.data) == TextOf(s.inodes[k], s.data)
  {
    hide Consistent, CutShort, FileBytes, Addressable;
    CutShortKind(ViewOf(s, k), ViewOf(s', k));
    WholeText(s, k);
    WholeText(s', k);
    CutShortBytes(ViewOf(s, k), ViewOf(s', k), s.table, s.numBlocks);
  }

  lemma CreateEffect(op: Op, s: Snapshot, s': Snapshot)
    requires Consistent(s) && Consistent(s') && op.Create? && Framed(op, s, s')
    requires Made(s, s', op.parent, op.filename, op.kind) && op.kind != INODE_FREE
    ensures Effect(op, FilesOf(s), FilesOf(s'), FreeCount(s))
  {
    hide Consistent, CanStart, Created, Rewrites, TextOf, NewSlot, CreateEntry, Overwrite;
    var f, f', parent := FilesOf(s), FilesOf(s'), op.parent;
    if CanCreate(ImageIn(s), s.numbers, |s.inodes|, parent, op.filename) {
      var k: nat :| k < |s.inodes| && Created(ImageIn(s), ImageIn(s'), parent, k, op.filename, op.kind);
      NewFileEffect(op, s, s', k);
      assert Entered(f, f', parent, k, op.filename);
    } else {
      forall k: nat | k < |s.inodes| && Live(s.inodes[k])
        ensures TextOf(s'.inodes[k], s'.data) == TextOf(s.inodes[k], s.data)
      {
        if k != parent {
          UntouchedText(s.inodes, s.data, s'.inodes, s'.data, k);
        }
      }
      forall k: nat | k < |s.inodes|
        ensures Live(s'.inodes[k]) <==> Live(s.inodes[k])
      {
      }
      assert f' == f;
    }
  }

  lemma NewFileEffect(op: Op, s: Snapshot, s': Snapshot, k: nat)
    requires Consistent(s) && Consistent(s') && op.Create? && Framed(op, s, s') && op.kind != INODE_FREE
    requires Created(ImageIn(s), ImageIn(s'), op.parent, k, op.filename, op.kind)
    ensures Entered(FilesOf(s), FilesOf(s'), op.parent, k, op.filename)
  {
    hide Consistent, Rewrites, TextOf, NewSlot, CreateEntry, Overwrite;
    var f, f', parent := FilesOf(s), FilesOf(s'), op.parent;
    WholeText(s, parent);
    WholeText(s', k);
    var i := NewSlot(f[parent], |f[parent]|, 0);
    EntryWritten(s.inodes[k := Born(s.inodes[k], op.kind)], s'.inodes, parent, s.data, s'.data, DIRENTSIZE * i,
                 CreateEntry(k, op.filename));
    forall j: nat | j < |s.inodes| && j != parent && Live(s.inodes[j])
      ensures TextOf(s'.inodes[j], s'.data) == TextOf(s.inodes[j], s.data)
    {
      UntouchedText(s.inodes, s.data, s'.inodes, s'.data, j);
    }
    assert TextOf(s'.inodes[k], s'.data) == [];
    assert f' == f[parent := Overwrite(f[parent], DIRENTSIZE * i, CreateEntry(k, op.filename))][k := []];
  }

  lemma FreeEffect(s: Snapshot, k: nat)
    requires k < |s.inodes| && Readable(s.inodes[k], s.data)
    ensures FilesOf(Cleared(s, k)) == FilesOf(s) - {k}
  {
    hide TextOf, Less, Owned;
    assert forall j :: 0 <= j < |s.inodes| && j != k ==> Cleared(s, k).inodes[j] == s.inodes[j];
  }

  // Every operation on the inodes and blocks is the operation on the files.
  lemma Refines(op: Op, s: Snapshot, s': Snapshot)
    requires Consistent(s) && Consistent(s') && Allowed(op, |s.inodes|) && Follows(op, s, s')
    ensures Effect(op, FilesOf(s), FilesOf(s'), FreeCount(s))
  {
    hide Consistent, Wrote, Made, Extended, CutShort, Framed, Overlaid, Lengthened, FilesOf, Fits, Stops,
      FreeCount, Less, Owned;
    match op
    case Write(k, position, bytes) =>
      InFiles(s, k);
      if Live(s.inodes[k]) {
        var w :| Wrote(s, s', k, w, position, bytes);
        WroteKind(s, s', k, w, position, bytes);
        WriteEffect(s, s', w, k, position, bytes);
        OtherTexts(op, s, s', k);
        InFiles(s', k);
      }
    case Extend(k, newsize) =>
      InFiles(s, k);
      if Live(s.inodes[k]) {
        WholeText(s, k);
        GrewKind(s, s', k, newsize);
        OtherTexts(op, s, s', k);
        InFiles(s', k);
        if Fits(s.inodes[k].size, newsize, FreeCount(s)) {
          ExtendEffect(s, s', k, newsize);
        } else if Stops(s.inodes[k].size, newsize, FreeCount(s)) {
          CutShortEffect(s, s', k);
          assert FilesOf(s)[k := FilesOf(s)[k]] == FilesOf(s);
        }
      }
    case Create(parent, filename, kind) =>
      CreateEffect(op, s, s');
    case Free(k) =>
      InFiles(s, k);
      if Live(s.inodes[k]) {
        FreeEffect(s, k);
      } else {
        assert FilesOf(s) - {k} == FilesOf(s);
      }
    case _ =>
  }

  lemma InFiles(s: Snapshot, k: nat)
    ensures k in FilesOf(s) <==> k < |s.inodes| && Live(s.inodes[k])
    ensures k in FilesOf(s) ==> FilesOf(s)[k] == TextOf(s.inodes[k], s.data)
  {
  }

  // Every run of the server is a run on the files.
  lemma RunEffects(ops: seq<Op>, trail: seq<Snapshot>)
    requires Traced(ops, trail)
    ensures forall i :: 0 <= i < |ops| ==>
        Effect(ops[i], FilesOf(trail[i]), FilesOf(trail[i + 1]), FreeCount(trail[i]))
  {
    hide Consistent, Follows, Allowed, Effect, FilesOf, FreeCount;
    forall i | 0 <= i < |ops|
      ensures Effect(ops[i], FilesOf(trail[i]), FilesOf(trail[i + 1]), FreeCount(trail[i]))
    {
      Refines(ops[i], trail[i], trail[i + 1]);
    }
  }
}
