// Before a run: whether it will lose blocks, from the sizes of the files and the number of free
// blocks alone.
module Budget {
  import opened Sequences
  import opened Layout
  import opened BlockMap
  import opened Growth
  import opened Allocator
  import opened Conservation
  import opened ByteIO
  import opened Operations
  import Bitmap

  // The sizes of the files, -1 for an inode that is free, and the number of free blocks.
  datatype Ledger = Ledger(sizes: seq<int>, free: nat)

  function LedgerOf(s: Snapshot): (l: Ledger)
    ensures |l.sizes| == |s.inodes|
  {
    Ledger(seq(|s.inodes|, k requires 0 <= k < |s.inodes| => if Live(s.inodes[k]) then s.inodes[k].size else -1),
           FreeCount(s))
  }

  // The blocks of a file, its indirect block included.
  function Footprint(size: nat): nat {
    Mapped(size) + if Mapped(size) > NUM_DIRECT then 1 else 0
  }

  lemma FootprintCost(size: nat, newsize: nat)
    ensures Cost(size, newsize) <= Footprint(newsize)
    ensures size <= newsize ==> Cost(size, newsize) == Footprint(newsize) - Footprint(size)
  {
  }

  // The ledger after extending file k.
  function Lengthen(l: Ledger, k: nat, newsize: int): Ledger
    requires k < |l.sizes| && newsize <= BLOCKSIZE * MAX_BLOCKS
  {
    var size := l.sizes[k];
    if size < 0 then l
    else if Fits(size, newsize, l.free) then
      FitsExactly(size, newsize, l.free);
      Ledger(l.sizes[k := newsize], l.free - Cost(size, newsize))
    else if Stops(size, newsize, l.free) then Ledger(l.sizes, 0)
    else l
  }

  // The ledger after an operation; of creation, whose success depends on names, it tells nothing.
  function Next(op: Op, l: Ledger): Ledger
    requires Allowed(op, |l.sizes|)
  {
    match op
    case Write(k, position, bytes) =>
      if 0 <= l.sizes[k] && Grows(position, |bytes|, l.sizes[k]) then Lengthen(l, k, position + |bytes|) else l
    case Extend(k, newsize) => Lengthen(l, k, newsize)
    case Free(k) =>
      if l.sizes[k] < 0 then l else Ledger(l.sizes[k := -1], l.free + Footprint(l.sizes[k]))
    case _ => l
  }

  // The operation runs out of blocks half way.
  predicate Exceeds(op: Op, l: Ledger)
    requires Allowed(op, |l.sizes|)
  {
    match op
    case Write(k, position, bytes) => CutsShort(position, |bytes|, l.sizes[k], l.free)
    case Extend(k, newsize) => Stops(l.sizes[k], newsize, l.free)
    case _ => false
  }

  // No operation does.
  predicate Lasts(ops: seq<Op>, l: Ledger)
    requires forall i :: 0 <= i < |ops| ==> Allowed(ops[i], |l.sizes|)
  {
    ops == [] || (!Exceeds(ops[0], l) && Lasts(ops[1..], Next(ops[0], l)))
  }

  lemma FootprintOwned(ino: Inode, data: seq<Block>)
    requires Readable(ino, data)
    ensures |Owned(ino, data)| == Footprint(ino.size)
  {
  }

  // Freeing distinct used blocks raises the free count by their number.
  lemma {:induction false} GiveAll(used: set<nat>, blocks: seq<int>, len: nat)
    requires Distinct(blocks) && forall b :: b in blocks ==> 0 <= b < len && b in used
    ensures |Bitmap.Free(Less(used, blocks), len)| == |Bitmap.Free(used, len)| + |blocks|
  {
    hide Distinct;
    var used' := Less(used, blocks);
    assert forall b: nat :: b in used <==> b in used' || b in blocks;
    TakeAll(used', used, blocks, len);
  }

  lemma UsedBelow(s: Snapshot)
    requires Consistent(s)
    ensures forall b :: b in s.used ==> b < s.numBlocks
  {
  }

  lemma SizeOf(s: Snapshot, k: nat)
    requires Consistent(s) && k < |s.inodes| && Live(s.inodes[k])
    ensures 0 <= s.inodes[k].size <= BLOCKSIZE * MAX_BLOCKS && LedgerOf(s).sizes[k] == s.inodes[k].size
    ensures SoundInode(s.inodes[k], s.data, s.used, s.table, s.numBlocks)
  {
    assert SoundInode(s.inodes[k], s.data, s.used, s.table, s.numBlocks);
  }

  // One inode has changed, which is as allocated as before.
  lemma LedgerAt(s: Snapshot, s': Snapshot, k: nat)
    requires k < |s.inodes| == |s'.inodes| && s'.inodes == s.inodes[k := s'.inodes[k]]
    requires Live(s.inodes[k]) && Live(s'.inodes[k])
    ensures LedgerOf(s').sizes == LedgerOf(s).sizes[k := s'.inodes[k].size]
  {
  }

  lemma ExtendLedger(s: Snapshot, s': Snapshot, k: nat, newsize: int)
    requires Consistent(s) && Consistent(s') && k < |s.inodes| && Live(s.inodes[k]) && 0 <= s.inodes[k].size
    requires newsize <= BLOCKSIZE * MAX_BLOCKS && Grew(s, s', k, newsize)
    requires s'.numBlocks == s.numBlocks
    ensures LedgerOf(s') == Lengthen(LedgerOf(s), k, newsize)
  {
    hide Consistent, Extended, CutShort, Fits, Stops, Bitmap.Free;
    SizeOf(s, k);
    GrewKind(s, s', k, newsize);
    LedgerAt(s, s', k);
    if Fits(s.inodes[k].size, newsize, FreeCount(s)) {
      GrownLedger(ViewOf(s, k), ViewOf(s', k), newsize, s, s');
    } else if Stops(s.inodes[k].size, newsize, FreeCount(s)) {
      SameSize(ViewOf(s, k), ViewOf(s', k));
    }
  }

  lemma GrownLedger(v: View, w: View, newsize: nat, s: Snapshot, s': Snapshot)
    requires Consistent(s') && Extended(v, w, newsize) && w.used == s'.used && v.used == s.used
    requires s'.numBlocks == s.numBlocks
    ensures 0 <= v.ino.size && w.ino.size == newsize && FreeCount(s') == FreeCount(s) - Cost(v.ino.size, newsize)
  {
    UsedBelow(s');
    ExtendedCount(v, w, newsize, s.numBlocks);
  }

  lemma SameSize(v: View, w: View)
    requires CutShort(v, w)
    ensures w.ino.size == v.ino.size
  {
  }

  // Room made for a write is an extension, and the write itself takes no block.
  lemma WriteLedger(s: Snapshot, s': Snapshot, w: View, k: nat, position: nat, bytes: seq<Byte>)
    requires Consistent(s) && Consistent(s') && k < |s.inodes| && Live(s.inodes[k]) && s'.numBlocks == s.numBlocks
    requires Wrote(s, s', k, w, position, bytes) && position + |bytes| <= BLOCKSIZE * MAX_BLOCKS
    ensures LedgerOf(s') == Next(Op.Write(k, position, bytes), LedgerOf(s))
  {
    hide Consistent, Extended, CutShort, Rewrites, Fits, Stops, Bitmap.Free, Stored;
    SizeOf(s, k);
    WroteKind(s, s', k, w, position, bytes);
    LedgerAt(s, s', k);
    var newsize, free := position + |bytes|, FreeCount(s);
    GrowsBeyond(position, |bytes|, s.inodes[k].size);
    StopsWhen(s.inodes[k].size, newsize, free);
    if Grows(position, |bytes|, s.inodes[k].size) {
      if Fits(s.inodes[k].size, newsize, free) {
        GrownLedger(ViewOf(s, k), w, newsize, s, s');
      } else if Stops(s.inodes[k].size, newsize, free) {
        SameSize(ViewOf(s, k), w);
      }
    }
  }

  lemma GrowsBeyond(position: nat, size: nat, fileSize: nat)
    ensures Grows(position, size, fileSize) ==> fileSize < position + size
  {
  }

  lemma StopsWhen(size: nat, newsize: nat, free: nat)
    ensures size <= newsize ==> (Stops(size, newsize, free) <==> Underestimated(size, newsize, free))
  {
  }

  lemma FreeLedger(s: Snapshot, k: nat)
    requires Consistent(s) && k < |s.inodes| && Live(s.inodes[k])
    ensures Readable(s.inodes[k], s.data) && 0 <= s.inodes[k].size
    ensures LedgerOf(Cleared(s, k)) ==
        Ledger(LedgerOf(s).sizes[k := -1], FreeCount(s) + Footprint(s.inodes[k].size))
  {
    hide Consistent, Less, Owned, Bitmap.Free;
    SizeOf(s, k);
    FootprintOwned(s.inodes[k], s.data);
    GiveAll(s.used, Owned(s.inodes[k], s.data), s.numBlocks);
    assert LedgerOf(Cleared(s, k)).sizes == LedgerOf(s).sizes[k := -1];
  }

  // The ledger goes by itself.
  lemma NextLedger(op: Op, s: Snapshot, s': Snapshot)
    requires Consistent(s) && Consistent(s') && Allowed(op, |s.inodes|) && Follows(op, s, s') && !op.Create?
    ensures LedgerOf(s') == Next(op, LedgerOf(s))
    ensures RunsOut(op, s) <==> Exceeds(op, LedgerOf(s))
  {
    hide Consistent, Wrote, Grew, Cleared, Lengthen, Stops, Bitmap.Free, Untouched, Fits;
    match op
    case Write(k, position, bytes) =>
      if Live(s.inodes[k]) {
        SizeOf(s, k);
        var w :| Wrote(s, s', k, w, position, bytes);
        WriteLedger(s, s', w, k, position, bytes);
      }
    case Extend(k, newsize) =>
      StopsNot(newsize, FreeCount(s));
      if Live(s.inodes[k]) {
        SizeOf(s, k);
        ExtendLedger(s, s', k, newsize);
      } else {
        Nothing(LedgerOf(s), k, newsize);
      }
    case Free(k) =>
      if Live(s.inodes[k]) {
        SizeOf(s, k);
        FreeLedger(s, k);
      }
    case _ =>
  }

  lemma StopsNot(newsize: int, free: nat)
    ensures !Stops(-1, newsize, free)
  {
  }

  lemma Nothing(l: Ledger, k: nat, newsize: int)
    requires k < |l.sizes| && newsize <= BLOCKSIZE * MAX_BLOCKS && l.sizes[k] < 0
    ensures Lengthen(l, k, newsize) == l
  {
  }

  // Without creations, the sizes and the free count at the start decide whether a run loses blocks.
  lemma {:induction false} Foreseen(ops: seq<Op>, trail: seq<Snapshot>)
    requires Traced(ops, trail) && forall i :: 0 <= i < |ops| ==> !ops[i].Create?
    ensures forall i :: 0 <= i < |ops| ==> Allowed(ops[i], |trail[0].inodes|)
    ensures NeverRunsOut(ops, trail) <==> Lasts(ops, LedgerOf(trail[0]))
  {
    hide Consistent, Follows, Allowed, RunsOut, Exceeds, Next, LedgerOf;
    if ops != [] {
      RestTraced(ops, trail);
      SameNumber(ops[0], trail[0], trail[1]);
      NextLedger(ops[0], trail[0], trail[1]);
      Foreseen(ops[1..], trail[1..]);
      assert forall i :: 0 < i < |ops| ==> ops[i] == ops[1..][i - 1];
    }
  }

  // The most blocks an operation can take.
  function Demand(op: Op): nat {
    match op
    case Write(k, position, bytes) => Footprint(position + |bytes|)
    case Extend(k, newsize) => if newsize < 0 then 0 else Footprint(newsize)
    case _ => 0
  }

  function Needs(ops: seq<Op>): nat {
    if ops == [] then 0 else Demand(ops[0]) + Needs(ops[1..])
  }

  lemma WithinDemand(size: nat, newsize: nat, free: nat)
    requires Footprint(newsize) <= free && newsize <= BLOCKSIZE * MAX_BLOCKS
    ensures !Stops(size, newsize, free)
    ensures Fits(size, newsize, free) ==> Cost(size, newsize) <= Footprint(newsize)
  {
    FootprintCost(size, newsize);
    FitsExactly(size, newsize, free);
  }

  // With the demand of an operation free, it does not run out and takes no more.
  lemma DemandMet(op: Op, s: Snapshot, s': Snapshot)
    requires Consistent(s) && Consistent(s') && Allowed(op, |s.inodes|) && Follows(op, s, s')
    requires Demand(op) <= FreeCount(s)
    ensures !RunsOut(op, s) && FreeCount(s') >= FreeCount(s) - Demand(op)
  {
    hide Consistent, Follows, Stops, Fits, Cost, Footprint, Bitmap.Free;
    if op.Create? {
      CreateTakesNone(op, s, s');
    } else {
      NextLedger(op, s, s');
      var l := LedgerOf(s);
      match op
      case Write(k, position, bytes) =>
        if 0 <= l.sizes[k] {
          WithinDemand(l.sizes[k], position + |bytes|, l.free);
        }
      case Extend(k, newsize) =>
        if 0 <= l.sizes[k] && 0 <= newsize {
          WithinDemand(l.sizes[k], newsize, l.free);
        } else {
          NoExtension(l.sizes[k], newsize, l.free);
        }
      case _ =>
    }
  }

  lemma NoExtension(size: int, newsize: int, free: nat)
    requires size < 0 || newsize < 0
    ensures !Stops(size, newsize, free)
    ensures 0 <= size ==> !Fits(size, newsize, free)
  {
  }

  lemma CreateTakesNone(op: Op, s: Snapshot, s': Snapshot)
    requires op.Create? && Follows(op, s, s')
    ensures FreeCount(s') == FreeCount(s)
  {
  }

  // With enough free blocks at the start for everything it asks for, no run loses blocks.
  lemma {:induction false} NeedsMet(ops: seq<Op>, trail: seq<Snapshot>)
    requires Traced(ops, trail) && Needs(ops) <= FreeCount(trail[0])
    ensures NeverRunsOut(ops, trail) && FreeCount(trail[|ops|]) >= FreeCount(trail[0]) - Needs(ops)
  {
    hide Consistent, Follows, Allowed, RunsOut, Demand, FreeCount;
    if ops != [] {
      RestTraced(ops, trail);
      DemandMet(ops[0], trail[0], trail[1]);
      NeedsMet(ops[1..], trail[1..]);
    }
  }
}
