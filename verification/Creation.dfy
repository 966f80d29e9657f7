// Adding a directory entry and creating a file: addEntry() and createFile() of yfs.c. Both hold
// inode handles across nested reads and writes.
module Creation {
  import opened Sequences
  import opened Layout
  import opened RecencyQueue
  import opened LruOrder
  import opened BlockMap
  import opened Growth
  import opened FileSystem
  import opened Allocator
  import opened Conservation
  import opened ByteIO
  import opened Naming
  import opened Paths
  import opened Residency
  import Bitmap
  import LruCache

  // get_use_inode(), noting that nothing is fresher than what it returns.
  method UseFirst(fs: Server, a: nat, ghost c: nat) returns (x: Node?<Inode>)
    requires fs.Valid() && fs.Settled() && a < fs.numInodes
    modifies fs.Repr
    ensures fs.Valid() && fs.Settled() && fs.Grown() && fs.SameState()
    ensures x == null <==> !Live(fs.Inodes[a])
    ensures x != null ==> fs.Has(a, x) && Held(LruCache.Keys(fs.icache.q.Items), a, {})
    ensures c in old(fs.icache.Map()) && old(Held(LruCache.Keys(fs.icache.q.Items), c, {})) ==>
        c in fs.icache.Map() && fs.icache.Map()[c] == old(fs.icache.Map())[c]
  {
    hide Server.Valid, Server.UsedBlocks, Server.UsedInodes, Server.Settled, LruCache.Keys, Access, Held;
    ghost var order := LruCache.Keys(fs.icache.q.Items);
    if Held(order, c, {}) {
      FewSeen(c, a);
      AccessKeeps(order, INODE_CACHESIZE, a, true, c, {});
      HeldIsIn(Access(order, INODE_CACHESIZE, a, true), c, {} + {a as int} - {c as int});
    }
    x := fs.GetUseInode(a);
    if x != null {
      InodesListed(fs);
      JustUsed(order, INODE_CACHESIZE, a, true);
    }
  }

  // A second handle beside a handle fresh from its use. Both are good afterwards.
  method UseSecond(fs: Server, a: nat, x: Node<Inode>, b: nat) returns (y: Node?<Inode>)
    requires fs.Valid() && fs.Settled() && fs.Has(a, x) && Held(LruCache.Keys(fs.icache.q.Items), a, {})
    requires b < fs.numInodes
    modifies fs.Repr
    ensures fs.Valid() && fs.Settled() && fs.Grown() && fs.SameState()
    ensures fs.Has(a, x) && (y == null <==> !Live(fs.Inodes[b])) && (y != null ==> fs.Has(b, y))
    ensures b in old(fs.icache.Map()) ==> fs.icache.Map() == old(fs.icache.Map())
  {
    hide Server.Valid, Server.UsedBlocks, Server.UsedInodes, Server.Settled, LruCache.Keys, Access, Held;
    FewSeen(a, b);
    AccessKeeps(LruCache.Keys(fs.icache.q.Items), INODE_CACHESIZE, b, true, a, {});
    y := fs.GetUseInode(b);
    InodesListed(fs);
    if y != null {
      HeldIsIn(LruCache.Keys(fs.icache.q.Items), a, {} + {b as int} - {a as int});
    }
  }

  lemma FewSeen(a: nat, b: nat)
    ensures |{} + {b as int} - {a as int}| < INODE_CACHESIZE
  {
    SubsetCount({} + {b as int} - {a as int}, {b as int});
  }

  // Where addEntry() puts an entry: the first slot in use by nobody, the last slot otherwise; -1 if
  // the search leaves the block map.
  function NewSlot(text: seq<Byte>, size: nat, i: nat): (r: int)
    ensures r == -1 || (i <= r && (DIRENTSIZE * i < size ==> DIRENTSIZE * r < size))
    decreases size - DIRENTSIZE * i
  {
    if DIRENTSIZE * i + DIRENTSIZE >= size then i
    else if DIRENTSIZE * i + DIRENTSIZE > |text| then -1
    else if EntryAt(text, i).inum == 0 then i
    else NewSlot(text, size, i + 1)
  }

  // The first slot that is free, and without one the last, which is not looked at; -1 if a slot before
  // it lies beyond the block map.
  lemma {:induction false} SlotMeans(text: seq<Byte>, size: nat, i: nat)
    ensures var r := NewSlot(text, size, i);
      && (r != -1 ==>
            && i <= r && (forall j :: i <= j < r ==>
                  && DIRENTSIZE * j + DIRENTSIZE < size && DIRENTSIZE * j + DIRENTSIZE <= |text|
                  && EntryAt(text, j).inum != 0)
            && (DIRENTSIZE * r + DIRENTSIZE < size ==>
                  DIRENTSIZE * r + DIRENTSIZE <= |text| && EntryAt(text, r).inum == 0))
      && (r == -1 ==> exists j :: i <= j && |text| < DIRENTSIZE * j + DIRENTSIZE < size)
    decreases size - DIRENTSIZE * i
  {
    hide EntryAt;
    if DIRENTSIZE * i + DIRENTSIZE < size && DIRENTSIZE * i + DIRENTSIZE <= |text| && EntryAt(text, i).inum != 0 {
      SlotMeans(text, size, i + 1);
    }
  }

  // The last slot is never looked at: the slot chosen is in use, and its entry lost, if and only if
  // none of the slots is free; it is the last one then.
  lemma {:induction false} SlotInUse(text: seq<Byte>, n: nat, i: nat)
    requires i < n && |text| == DIRENTSIZE * n
    ensures i <= NewSlot(text, |text|, i) < n
    ensures EntryAt(text, NewSlot(text, |text|, i)).inum != 0 <==> forall j :: i <= j < n ==> EntryAt(text, j).inum != 0
    ensures EntryAt(text, NewSlot(text, |text|, i)).inum != 0 ==> NewSlot(text, |text|, i) == n - 1
    // of the free slots it is the first one
    ensures forall j :: i <= j < NewSlot(text, |text|, i) ==> EntryAt(text, j).inum != 0
    decreases n - i
  {
    hide EntryAt;
    if i < n - 1 && EntryAt(text, i).inum != 0 {
      SlotInUse(text, n, i + 1);
    }
  }

  // Every entry but the one in slot i survives a new entry in slot i.
  lemma EntriesAfter(text: seq<Byte>, i: nat, entry: seq<Byte>)
    requires DIRENTSIZE * i + DIRENTSIZE <= |text| && |entry| == DIRENTSIZE
    ensures EntryAt(Overwrite(text, DIRENTSIZE * i, entry), i) == EntryAt(entry, 0)
    ensures forall j: nat :: DIRENTSIZE * j + DIRENTSIZE <= |text| && j != i ==>
        EntryAt(Overwrite(text, DIRENTSIZE * i, entry), j) == EntryAt(text, j)
  {
    hide Decode16;
    var after := Overwrite(text, DIRENTSIZE * i, entry);
    assert after[DIRENTSIZE * i..DIRENTSIZE * i + 2] == entry[0..2];
    assert after[DIRENTSIZE * i + 2..DIRENTSIZE * i + DIRENTSIZE] == entry[2..DIRENTSIZE];
    forall j: nat | DIRENTSIZE * j + DIRENTSIZE <= |text| && j != i
      ensures EntryAt(after, j) == EntryAt(text, j)
    {
      EntryKept(text, i, entry, j);
    }
  }

  lemma EntryKept(text: seq<Byte>, i: nat, entry: seq<Byte>, j: nat)
    requires DIRENTSIZE * i + DIRENTSIZE <= |text| && |entry| == DIRENTSIZE
    requires j != i && DIRENTSIZE * j + DIRENTSIZE <= |text|
    ensures EntryAt(Overwrite(text, DIRENTSIZE * i, entry), j) == EntryAt(text, j)
  {
    hide Decode16;
    var after, p := Overwrite(text, DIRENTSIZE * i, entry), DIRENTSIZE * j;
    assert after[p..p + 2] == text[p..p + 2] && after[p + 2..p + DIRENTSIZE] == text[p + 2..p + DIRENTSIZE];
  }

  // A name that only the overwritten entry had is found before and no longer found afterwards.
  lemma NameLost(text: seq<Byte>, n: nat, i: nat, entry: seq<Byte>, name: CString)
    requires i < n && DIRENTSIZE * n <= |text| && |entry| == DIRENTSIZE
    requires forall j :: 0 <= j < n ==> (Named(EntryAt(text, j), name) <==> j == i)
    requires !Named(EntryAt(entry, 0), name)
    ensures Search(text, name, 0, n) == EntryAt(text, i).inum
    ensures Search(Overwrite(text, DIRENTSIZE * i, entry), name, 0, n) == 0
  {
    hide EntryAt, Named, Overwrite, Search;
    var at := SearchFinds(text, name, 0, n);
    EntriesAfter(text, i, entry);
    var after := SearchFinds(Overwrite(text, DIRENTSIZE * i, entry), name, 0, n);
  }

  // The loop of addEntry().
  method FindSlot(fs: Server, inum: nat, size: nat) returns (curPos: int)
    requires fs.Valid() && fs.Sound() && fs.Settled() && inum < fs.numInodes && Live(fs.Inodes[inum])
    requires size == fs.Inodes[inum].size && DIRENTSIZE <= size && inum in fs.icache.Map()
    modifies fs.Repr
    ensures fs.Valid() && fs.Settled() && fs.Grown() && fs.SameState() && fs.icache.Map() == old(fs.icache.Map())
    ensures var i := NewSlot(Text(fs, inum), size, 0); curPos == if i == -1 then -1 else DIRENTSIZE * i
  {
    hide Server.Valid, Server.UsedBlocks, Server.UsedInodes, Server.Settled, BlockMap.Sound, TextOf, EntryAt;
    ghost var text := Text(fs, inum);
    curPos := 0;
    ghost var i := 0;
    while curPos < size - DIRENTSIZE
      invariant fs.Valid() && fs.Settled() && fs.Grown() && fs.SameState() && fs.icache.Map() == old(fs.icache.Map())
      invariant curPos == DIRENTSIZE * i && NewSlot(text, size, 0) == NewSlot(text, size, i)
      decreases size - curPos
    {
      var ok, entry := ReadEntry(fs, inum, curPos / DIRENTSIZE);
      if !ok {
        return -1;
      }
      if entry.inum == 0 {
        break;
      }
      curPos, i := curPos + DIRENTSIZE, i + 1;
    }
  }

  // Neither kind nor blocks of the inode change.
  predicate SameShape(ino: Inode, ino': Inode) {
    ino'.kind == ino.kind && ino'.size == ino.size && ino'.direct == ino.direct && ino'.indirect == ino.indirect
  }

  lemma Relinked(inodes: seq<Inode>, k: nat, ino': Inode, data: seq<Block>, used: set<nat>, table: nat, numBlocks: nat)
    requires Sound(inodes, data, used, table, numBlocks) && k < |inodes| && SameShape(inodes[k], ino')
    ensures Sound(inodes[k := ino'], data, used, table, numBlocks)
    ensures Exact(inodes[k := ino'], data, used, table) <==> Exact(inodes, data, used, table)
  {
    assert Readable(inodes[k], data) ==> Readable(ino', data) && Owned(ino', data) == Owned(inodes[k], data);
    SameOwners(inodes, k, ino', data, used, table);
  }

  lemma SameOwners(inodes: seq<Inode>, k: nat, ino': Inode, data: seq<Block>, used: set<nat>, table: nat)
    requires k < |inodes| && forall b: nat :: b in used ==> (Owns(ino', data, b) <==> Owns(inodes[k], data, b))
    ensures Exact(inodes[k := ino'], data, used, table) <==> Exact(inodes, data, used, table)
  {
    var inodes' := inodes[k := ino'];
    forall b | b in used
      ensures (exists i :: 0 <= i < |inodes| && Owns(inodes[i], data, b))
          <==> (exists i :: 0 <= i < |inodes'| && Owns(inodes'[i], data, b))
    {
      if i :| 0 <= i < |inodes| && Owns(inodes[i], data, b) {
        assert Owns(inodes'[i], data, b);
      }
      if i :| 0 <= i < |inodes'| && Owns(inodes'[i], data, b) {
        assert Owns(inodes[i], data, b);
      }
    }
  }

  // nlink++ on a 16-bit field.
  function OneMoreLink(ino: Inode): Inode {
    ino.(nlink := if ino.nlink == 0x7fff then -0x8000 else ino.nlink + 1)
  }

  lemma SlotFits(i: nat, size: nat)
    requires DIRENTSIZE * i < size
    ensures !Grows(DIRENTSIZE * i, DIRENTSIZE, size)
    ensures PastMap(DIRENTSIZE * i, DIRENTSIZE, size) <==> DIRENTSIZE * i >= BLOCKSIZE * MAX_BLOCKS
    ensures Stored(DIRENTSIZE * i, DIRENTSIZE, size) ==
        if DIRENTSIZE * i >= BLOCKSIZE * MAX_BLOCKS then 0 else DIRENTSIZE
  {
    var pos := DIRENTSIZE * i;
    assert pos % BLOCKSIZE + DIRENTSIZE <= BLOCKSIZE;
    assert pos == BLOCKSIZE * (pos / BLOCKSIZE) + pos % BLOCKSIZE;
    assert pos / BLOCKSIZE <= size / BLOCKSIZE;
  }

  // The entry written into its slot; no block is taken for it.
  method PutEntry(fs: Server, inum: nat, i: nat, newEntry: seq<Byte>) returns (r: int)
    requires fs.Valid() && fs.Sound() && fs.Settled() && inum < fs.numInodes && Live(fs.Inodes[inum])
    requires |newEntry| == DIRENTSIZE
    requires 0 <= DIRENTSIZE * i < fs.Inodes[inum].size < 0x7fff_ffe0 && inum in fs.icache.Map()
    modifies fs.Repr
    ensures fs.Valid() && fs.Sound() && fs.Settled() && fs.Grown() && (fs.NoLeaks() <==> old(fs.NoLeaks()))
    ensures fs.icache.Map() == old(fs.icache.Map()) && fs.Inodes == old(fs.Inodes)
    ensures fs.UsedBlocks() == old(fs.UsedBlocks()) && fs.UsedInodes() == old(fs.UsedInodes())
    ensures fs.Pending == old(fs.Pending) - {inum}
    ensures r == if DIRENTSIZE * i >= BLOCKSIZE * MAX_BLOCKS then -1 else DIRENTSIZE
    ensures Rewrites(fs.Inodes, inum, old(fs.Data), fs.Data, DIRENTSIZE * i, if r == -1 then [] else newEntry)
    ensures OtherFiles(fs, inum)
  {
    hide Server.Valid, Server.UsedBlocks, Server.UsedInodes, Server.Settled, BlockMap.Sound, Exact, Rewrites,
      Extended, CutShort, Grows, PastMap, Stored, Bitmap.Free, SameFile;
    SlotFits(i, fs.Inodes[inum].size);
    ghost var w;
    r, w := WriteHandler(fs, inum, DIRENTSIZE * i, newEntry, DIRENTSIZE);
    assert fs.Inodes == old(fs.Inodes)[inum := old(fs.Inodes)[inum]];
    assert newEntry[..DIRENTSIZE] == newEntry && newEntry[..0] == [];
  }

  // The two handles put to use after the write: the directory is dirty, its new entry has one link more.
  method CountLink(fs: Server, info: Node<Inode>, ghost inum: nat, entryInfo: Node<Inode>, ghost child: nat)
    requires fs.Valid() && fs.Sound() && fs.Settled() && fs.Has(inum, info) && fs.Has(child, entryInfo)
    modifies fs.Repr
    ensures fs.Valid() && fs.Sound() && fs.Settled() && fs.Grown() && (fs.NoLeaks() <==> old(fs.NoLeaks()))
    ensures fs.icache.Map() == old(fs.icache.Map()) && fs.Data == old(fs.Data) && child < fs.numInodes
    ensures fs.Inodes == old(fs.Inodes)[child := OneMoreLink(old(fs.Inodes)[child])]
    ensures fs.UsedBlocks() == old(fs.UsedBlocks()) && fs.UsedInodes() == old(fs.UsedInodes())
    ensures fs.Pending == old(fs.Pending) - {inum, child}
  {
    hide Server.Valid, Server.UsedBlocks, Server.UsedInodes, BlockMap.Sound, Exact;
    fs.Cached(child);
    Relinked(fs.Inodes, child, OneMoreLink(fs.Inodes[child]), fs.Data, fs.UsedBlocks(), fs.Table(), fs.numBlocks);
    fs.MarkDirty(info, inum);
    fs.Update(entryInfo, child, OneMoreLink(entryInfo.val));
    fs.MarkDirty(entryInfo, child);
  }

  function EntryInum(entry: seq<Byte>): Int16
    requires |entry| == DIRENTSIZE
  {
    Decode16(entry[0..2])
  }

  // A directory of at least one entry; on a shorter one the C program reads an entry it never filled in.
  predicate Listing(ino: Inode) {
    ino.kind == INODE_DIRECTORY ==> DIRENTSIZE <= ino.size < 0x7fff_ffe0
  }

  // A slot for a new entry can be had in the directory.
  predicate Room(img: Image, inum: nat) {
    && inum < |img.inodes| && img.inodes[inum].kind == INODE_DIRECTORY && 0 <= img.inodes[inum].size
    && var i := NewSlot(TextOf(img.inodes[inum], img.data), img.inodes[inum].size, 0);
      0 <= DIRENTSIZE * i < BLOCKSIZE * MAX_BLOCKS
  }

  // When addEntry() succeeds.
  predicate EntryFits(img: Image, inum: nat, child: nat) {
    Room(img, inum) && child < |img.inodes| && Live(img.inodes[child])
  }

  // addEntry()
  method AddEntry(fs: Server, inum: nat, newEntry: seq<Byte>) returns (r: int)
    requires fs.Valid() && fs.Sound() && fs.Settled() && inum < fs.numInodes && Listing(fs.Inodes[inum])
    requires |newEntry| == DIRENTSIZE && 0 <= EntryInum(newEntry) < fs.numInodes
    modifies fs.Repr
    ensures fs.Valid() && fs.Sound() && fs.Settled() && fs.Grown() && (fs.NoLeaks() <==> old(fs.NoLeaks()))
    ensures fs.UsedBlocks() == old(fs.UsedBlocks()) && fs.UsedInodes() == old(fs.UsedInodes())
    ensures OtherFiles(fs, inum)
    ensures r == if old(EntryFits(ImageOf(fs), inum, EntryInum(newEntry))) then DIRENTSIZE else -1
    // a handle to the new entry's inode, fresh from its use, stays good
    ensures var c := EntryInum(newEntry);
      c in old(fs.icache.Map()) && old(Held(LruCache.Keys(fs.icache.q.Items), c, {})) ==>
        c in fs.icache.Map() && fs.icache.Map()[c] == old(fs.icache.Map())[c]
    ensures r == -1 ==>
        fs.Inodes == old(fs.Inodes) && Text(fs, inum) == old(Text(fs, inum)) && fs.Pending <= old(fs.Pending)
    ensures r != -1 ==>
        var child: nat, i := EntryInum(newEntry), NewSlot(old(Text(fs, inum)), old(fs.Inodes[inum].size), 0);
        && fs.Inodes == old(fs.Inodes)[child := OneMoreLink(old(fs.Inodes)[child])]
        && fs.Pending == old(fs.Pending) - {inum, child}
        && i >= 0 && Rewrites(old(fs.Inodes), inum, old(fs.Data), fs.Data, DIRENTSIZE * i, newEntry)
        && Text(fs, inum) == Overwrite(old(Text(fs, inum)), DIRENTSIZE * i, newEntry)
    // field by field: the entry's inode has one link more, in 16 bits, and nothing else has changed
    ensures r != -1 ==>
        var c: nat := EntryInum(newEntry);
        && |fs.Inodes| == |old(fs.Inodes)| && c < |fs.Inodes|
        && (old(fs.Inodes[c]).nlink < 0x7fff ==> fs.Inodes[c].nlink == old(fs.Inodes[c]).nlink + 1)
        && (old(fs.Inodes[c]).nlink == 0x7fff ==> fs.Inodes[c].nlink == -0x8000)
        && fs.Inodes[c].(nlink := 0) == old(fs.Inodes[c]).(nlink := 0)
        && forall j :: 0 <= j < |fs.Inodes| && j != c ==> fs.Inodes[j] == old(fs.Inodes)[j]
  {
    hide Server.Valid, Server.UsedBlocks, Server.UsedInodes, Server.Settled, BlockMap.Sound, Exact, Rewrites,
      TextOf, EntryInum, NewSlot, Held, SameFile;
    r := -1;
    EveryFile(fs);
    var inodeInfo := UseFirst(fs, inum, EntryInum(newEntry));
    if inodeInfo == null {
      return;
    }
    fs.Cached(inum);
    if inodeInfo.val.kind != INODE_DIRECTORY {
      return;
    }
    var entryInodeInfo := UseSecond(fs, inum, inodeInfo, EntryInum(newEntry));
    assert fs.Grown();
    if entryInodeInfo == null {
      return;
    }
    r := Insert(fs, inodeInfo, inum, entryInodeInfo, newEntry);
  }

  lemma NothingWritten(inodes: seq<Inode>, k: nat, data: seq<Block>, data': seq<Block>, off: nat)
    requires k < |inodes| && Rewrites(inodes, k, data, data', off, [])
    ensures TextOf(inodes[k], data') == TextOf(inodes[k], data)
  {
    TextRewritten(inodes, k, data, data', off, []);
    OverwriteNone(TextOf(inodes[k], data), off);
  }

  lemma EntryWritten(inodes: seq<Inode>, inodes': seq<Inode>, k: nat, data: seq<Block>, data': seq<Block>, off: nat,
                     entry: seq<Byte>)
    requires k < |inodes| == |inodes'| && Rewrites(inodes, k, data, data', off, entry)
    requires inodes'[k] == inodes[k] || inodes'[k] == OneMoreLink(inodes[k])
    ensures TextOf(inodes'[k], data') == Overwrite(TextOf(inodes[k], data), off, entry)
  {
    hide Overwrite;
    TextRewritten(inodes, k, data, data', off, entry);
    RelinkedText(inodes[k], inodes'[k], data');
  }

  lemma RelinkedText(ino: Inode, ino': Inode, data: seq<Block>)
    requires SameShape(ino, ino')
    ensures TextOf(ino', data) == TextOf(ino, data)
  {
    if Readable(ino, data) {
      assert MapOf(ino', data) == MapOf(ino, data);
      if Addressable(ino, data) {
        assert FileBytes(ino', data) == FileBytes(ino, data);
      }
    }
  }

  // addEntry() with both handles in hand.
  method Insert(fs: Server, info: Node<Inode>, inum: nat, entryInfo: Node<Inode>, newEntry: seq<Byte>) returns (r: int)
    requires fs.Valid() && fs.Sound() && fs.Settled() && inum < fs.numInodes && |newEntry| == DIRENTSIZE
    requires 0 <= EntryInum(newEntry) && fs.Has(inum, info) && fs.Has(EntryInum(newEntry), entryInfo)
    requires Live(fs.Inodes[inum]) && DIRENTSIZE <= fs.Inodes[inum].size < 0x7fff_ffe0
    modifies fs.Repr
    ensures fs.Valid() && fs.Sound() && fs.Settled() && fs.Grown() && (fs.NoLeaks() <==> old(fs.NoLeaks()))
    ensures fs.icache.Map() == old(fs.icache.Map())
    ensures fs.UsedBlocks() == old(fs.UsedBlocks()) && fs.UsedInodes() == old(fs.UsedInodes())
    ensures OtherFiles(fs, inum)
    ensures r == -1 || r == DIRENTSIZE
    ensures r != -1 <==>
        0 <= DIRENTSIZE * NewSlot(old(Text(fs, inum)), old(fs.Inodes[inum].size), 0) < BLOCKSIZE * MAX_BLOCKS
    ensures r == -1 ==>
        fs.Inodes == old(fs.Inodes) && Text(fs, inum) == old(Text(fs, inum)) && fs.Pending <= old(fs.Pending)
    ensures r != -1 ==>
        var child: nat, i := EntryInum(newEntry), NewSlot(old(Text(fs, inum)), old(fs.Inodes[inum].size), 0);
        && child < fs.numInodes && fs.Inodes == old(fs.Inodes)[child := OneMoreLink(old(fs.Inodes)[child])]
        && fs.Pending == old(fs.Pending) - {inum, child}
        && i >= 0 && Rewrites(old(fs.Inodes), inum, old(fs.Data), fs.Data, DIRENTSIZE * i, newEntry)
        && Text(fs, inum) == Overwrite(old(Text(fs, inum)), DIRENTSIZE * i, newEntry)
  {
    hide Server.Valid, Server.UsedBlocks, Server.UsedInodes, Server.Settled, BlockMap.Sound, Exact, Rewrites,
      TextOf, EntryInum, OneMoreLink, SameFile;
    EveryFile(fs);
    fs.Cached(inum);
    var curPos := FindSlot(fs, inum, info.val.size);
    if curPos == -1 {
      return -1;
    }
    ghost var data := fs.Data;
    var res := PutEntry(fs, inum, curPos / DIRENTSIZE, newEntry);
    if res == -1 {
      NothingWritten(fs.Inodes, inum, data, fs.Data, curPos);
      return -1;
    }
    assert fs.Grown() && OtherFiles(fs, inum);
    CountLink(fs, info, inum, entryInfo, EntryInum(newEntry));
    EntryWritten(old(fs.Inodes), fs.Inodes, inum, data, fs.Data, curPos, newEntry);
    r := res;
  }

  // A directory whose entries fill it exactly and lie within the block map.
  predicate Whole(ino: Inode) {
    ino.kind == INODE_DIRECTORY && DIRENTSIZE <= ino.size <= BLOCKSIZE * MAX_BLOCKS && ino.size % DIRENTSIZE == 0
  }

  lemma WholeRoom(fs: Server, inum: nat)
    requires fs.Valid() && fs.Sound() && inum < fs.numInodes && Whole(fs.Inodes[inum])
    ensures Room(ImageOf(fs), inum) && |Text(fs, inum)| == fs.Inodes[inum].size
    ensures var n, i := |Text(fs, inum)| / DIRENTSIZE, NewSlot(Text(fs, inum), |Text(fs, inum)|, 0);
      && |Text(fs, inum)| == DIRENTSIZE * n && 0 <= i < n
      && (EntryAt(Text(fs, inum), i).inum != 0 <==> forall j :: 0 <= j < n ==> EntryAt(Text(fs, inum), j).inum != 0)
  {
    hide Server.Valid, BlockMap.Sound, TextOf, EntryAt, NewSlot;
    TextLength(fs, inum);
    SlotInUse(Text(fs, inum), |Text(fs, inum)| / DIRENTSIZE, 0);
  }

  // addEntry() on a directory: every entry but one survives. The one replaced is free unless the
  // directory is full; exactly then an entry in use is lost.
  method AddToListing(fs: Server, inum: nat, newEntry: seq<Byte>) returns (r: int, ghost i: nat)
    requires fs.Valid() && fs.Sound() && fs.Settled() && inum < fs.numInodes && Whole(fs.Inodes[inum])
    requires |newEntry| == DIRENTSIZE && 0 <= EntryInum(newEntry) < fs.numInodes && Live(fs.Inodes[EntryInum(newEntry)])
    modifies fs.Repr
    ensures fs.Valid() && fs.Sound() && fs.Settled() && r == DIRENTSIZE
    ensures var text, after := old(Text(fs, inum)), Text(fs, inum);
      && |after| == |text| && DIRENTSIZE * i + DIRENTSIZE <= |text|
      && EntryAt(after, i) == EntryAt(newEntry, 0)
      && (forall j: nat :: DIRENTSIZE * j + DIRENTSIZE <= |text| && j != i ==> EntryAt(after, j) == EntryAt(text, j))
      && (EntryAt(text, i).inum != 0 <==>
            forall j: nat :: DIRENTSIZE * j + DIRENTSIZE <= |text| ==> EntryAt(text, j).inum != 0)
  {
    hide Server.Valid, Server.UsedBlocks, Server.UsedInodes, Server.Settled, BlockMap.Sound, Rewrites, TextOf,
      EntryAt, NewSlot, Held, SameFile, Overwrite;
    WholeRoom(fs, inum);
    i := NewSlot(Text(fs, inum), fs.Inodes[inum].size, 0);
    EntriesAfter(Text(fs, inum), i, newEntry);
    r := AddEntry(fs, inum, newEntry);
  }

  // What becomes of the name in the last entry of a full directory.
  lemma LastNameLost(text: seq<Byte>, n: nat, entry: seq<Byte>, name: CString)
    requires 0 < n && |text| == DIRENTSIZE * n && |entry| == DIRENTSIZE
    requires forall j :: 0 <= j < n ==> EntryAt(text, j).inum != 0
    requires forall j :: 0 <= j < n ==> (Named(EntryAt(text, j), name) <==> j == n - 1)
    requires !Named(EntryAt(entry, 0), name)
    ensures NewSlot(text, |text|, 0) == n - 1
    ensures Search(text, name, 0, n) == EntryAt(text, n - 1).inum
    ensures Search(Overwrite(text, DIRENTSIZE * (n - 1), entry), name, 0, n) == 0
  {
    hide EntryAt, Named, Overwrite, Search;
    SlotInUse(text, n, 0);
    NameLost(text, n, n - 1, entry, name);
  }

  // createEntry()
  function CreateEntry(inum: Int16, filename: CString): (r: seq<Byte>)
    ensures |r| == DIRENTSIZE
  {
    Encode16(inum) + Shortened(filename) + seq(DIRNAMELEN - |Shortened(filename)|, _ => 0)
  }

  lemma CreatedEntry(inum: Int16, filename: CString)
    requires 0 !in filename
    ensures EntryInum(CreateEntry(inum, filename)) == inum
    ensures Named(EntryAt(CreateEntry(inum, filename), 0), filename)
    ensures EntryAt(CreateEntry(inum, filename), 0).inum == inum
  {
    hide Encode16, Decode16;
    RoundTrip16(inum);
    var name := Shortened(filename);
    var e, pad := CreateEntry(inum, filename), seq<Byte>(DIRNAMELEN - |name|, _ => 0);
    assert e[0..2] == Encode16(inum) && e[2..DIRENTSIZE] == name + pad;
    if pad == [] {
      UpToNulWhole(name, []);
      assert name + pad == name;
    } else {
      UpToNulWhole(name, pad[1..]);
      assert name + pad == name + [0] + pad[1..];
    }
  }

  // struct dir_entry as createEntry() fills it in.
  lemma CreatedBytes(inum: Int16, filename: CString)
    ensures var e := CreateEntry(inum, filename);
      && ShortAt(e, 0, inum)
      && forall p :: 2 <= p < 32 ==> e[p] == if p - 2 < |filename| then filename[p - 2] else 0
  {
    hide Encode16, Decode16, ShortAt;
    RoundTrip16(inum);
    assert CreateEntry(inum, filename)[0..2] == Encode16(inum);
    Decoded16(CreateEntry(inum, filename), 0);
  }

  // A name that was not found before is found, with its inode number, once its entry has been added.
  lemma {:induction false} FindsNew(text: seq<Byte>, size: nat, name: CString, entry: seq<Byte>, i: nat, j: nat)
    requires |entry| == DIRENTSIZE && Named(EntryAt(entry, 0), name)
    requires NewSlot(text, size, j) == i && j <= i < size / DIRENTSIZE && DIRENTSIZE * i + DIRENTSIZE <= |text|
    requires Search(text, name, j, size / DIRENTSIZE) == 0
    ensures Search(Overwrite(text, DIRENTSIZE * i, entry), name, j, size / DIRENTSIZE) == EntryAt(entry, 0).inum
    decreases i - j
  {
    hide EntryAt, Named, Overwrite;
    EntriesAfter(text, i, entry);
    if j < i {
      FindsNew(text, size, name, entry, i, j + 1);
    }
  }

  // The fields createFile() sets, and what it takes back.
  function Born(ino: Inode, kind: Int16): Inode {
    ino.(kind := kind, nlink := 0, size := 0, reuse := if ino.reuse == 0x7fff_ffff then -0x8000_0000 else ino.reuse + 1)
  }

  function Unused(ino: Inode): Inode {
    ino.(reuse := if ino.reuse == -0x8000_0000 then 0x7fff_ffff else ino.reuse - 1)
  }

  // A new inode of size 0 owns nothing.
  lemma BornSound(inodes: seq<Inode>, k: nat, kind: Int16, data: seq<Block>, used: set<nat>, table: nat, numBlocks: nat)
    requires Sound(inodes, data, used, table, numBlocks) && k < |inodes| && !Live(inodes[k]) && kind != INODE_FREE
    ensures Sound(inodes[k := Born(inodes[k], kind)], data, used, table, numBlocks)
    ensures Exact(inodes[k := Born(inodes[k], kind)], data, used, table) <==> Exact(inodes, data, used, table)
    ensures var ino := Born(inodes[k], kind); Live(ino) && Readable(ino, data) && Owned(ino, data) == []
  {
    assert Owned(inodes[k := Born(inodes[k], kind)][k], data) == [];
    SameOwners(inodes, k, Born(inodes[k], kind), data, used, table);
  }

  // The number find_free() hands out.
  predicate FirstFree(used: set<nat>, k: int) {
    0 <= k && k !in used && forall i: nat :: i < k ==> i in used
  }

  // get_new_inode(), and the fields of the new inode filled in.
  method NewFile(fs: Server, fileType: Int16) returns (info: Node?<Inode>)
    requires fs.Valid() && fs.Sound() && fs.Settled() && fileType != INODE_FREE
    modifies fs.Repr
    ensures fs.Valid() && fs.Sound() && fs.Settled() && fs.Grown() && (fs.NoLeaks() <==> old(fs.NoLeaks()))
    ensures fs.Data == old(fs.Data) && fs.UsedBlocks() == old(fs.UsedBlocks())
    ensures info != null ==> fs.Pending <= old(fs.Pending) + {info.key}
    ensures info == null <==> Bitmap.Free(old(fs.UsedInodes()), fs.numInodes) == {}
    ensures info == null ==> fs.SameState()
    ensures info != null ==>
        && 0 <= info.key < fs.numInodes && FirstFree(old(fs.UsedInodes()), info.key)
        && fs.UsedInodes() == old(fs.UsedInodes()) + {info.key} && !Live(old(fs.Inodes)[info.key])
        && fs.Inodes == old(fs.Inodes)[info.key := Born(old(fs.Inodes)[info.key], fileType)]
        && fs.Has(info.key, info) && Held(LruCache.Keys(fs.icache.q.Items), info.key, {})
  {
    hide Server.Valid, Server.UsedBlocks, Server.UsedInodes, BlockMap.Sound, Exact, LruCache.Keys, Access, Held,
      Bitmap.Free, Born;
    ghost var order := LruCache.Keys(fs.icache.q.Items);
    info := fs.GetNewInode();
    if info == null {
      return;
    }
    InodesListed(fs);
    JustUsed(order, INODE_CACHESIZE, info.key, true);
    BornSound(fs.Inodes, info.key, fileType, fs.Data, fs.UsedBlocks(), fs.Table(), fs.numBlocks);
    fs.Update(info, info.key, Born(info.val, fileType));
  }

  // createFile() taking back what it did: the old reuse count, and free_inode().
  method Abandon(fs: Server, info: Node<Inode>, ghost was: Inode, fileType: Int16)
    requires fs.Valid() && fs.Sound() && fs.Settled() && 0 <= info.key < fs.numInodes && fs.Has(info.key, info)
    requires fileType != INODE_FREE && fs.Inodes[info.key] == Born(was, fileType)
    modifies fs.Repr
    ensures fs.Valid() && fs.Sound() && fs.Settled() && fs.Grown() && (fs.NoLeaks() <==> old(fs.NoLeaks()))
    ensures fs.Inodes == old(fs.Inodes)[info.key := Freed(was)] && fs.Data == old(fs.Data)
    ensures fs.UsedBlocks() == old(fs.UsedBlocks()) && fs.UsedInodes() == old(fs.UsedInodes()) - {info.key}
    ensures fs.Pending <= old(fs.Pending) - {info.key}
    ensures fs.store.disk.Failures == old(fs.store.disk.Failures) ==> fs.Durable()
  {
    hide Server.Valid, Server.UsedBlocks, Server.UsedInodes, BlockMap.Sound, Exact, Owned, Less, Server.Durable;
    fs.Cached(info.key);
    var k: nat := info.key;
    OwnsNothing(fs, k);
    Relinked(fs.Inodes, k, Unused(fs.Inodes[k]), fs.Data, fs.UsedBlocks(), fs.Table(), fs.numBlocks);
    fs.Update(info, k, Unused(info.val));
    FreedNothing(fs.Inodes, fs.Data, fs.UsedBlocks(), fs.Table(), fs.numBlocks, k);
    var _ := FreeInode(fs, k);
    assert fs.Inodes == old(fs.Inodes)[k := Freed(was)];
  }

  lemma OwnsNothing(fs: Server, k: nat)
    requires fs.Valid() && k < fs.numInodes && fs.Inodes[k].size == 0
    ensures Readable(fs.Inodes[k], fs.Data) && Owned(fs.Inodes[k], fs.Data) == []
  {
  }

  lemma FreedNothing(inodes: seq<Inode>, data: seq<Block>, used: set<nat>, table: nat, numBlocks: nat, k: nat)
    requires k < |inodes| && Live(inodes[k]) && inodes[k].size == 0
    ensures Readable(inodes[k], data) && Less(used, Owned(inodes[k], data)) == used
  {
    assert Less(used, Owned(inodes[k], data)) == used;
  }

  // Inode k was free and still is.
  ghost predicate Undone(inodes: seq<Inode>, inodes': seq<Inode>, k: nat) {
    k < |inodes| && !Live(inodes[k]) && inodes' == inodes[k := Freed(inodes[k])]
  }

  // Inode r has come into being, with one link, and its entry stands in the parent's new slot.
  ghost predicate Created(img: Image, img': Image, parent: nat, r: nat, filename: CString, fileType: Int16) {
    && parent < |img.inodes| && r < |img.inodes| && r < 0x8000 && Live(img.inodes[parent]) && !Live(img.inodes[r])
    && img'.inodes == img.inodes[r := OneMoreLink(Born(img.inodes[r], fileType))]
    && 0 <= img.inodes[parent].size
    && var i := NewSlot(TextOf(img.inodes[parent], img.data), img.inodes[parent].size, 0);
      && 0 <= DIRENTSIZE * i < BLOCKSIZE * MAX_BLOCKS
      && Rewrites(img.inodes[r := Born(img.inodes[r], fileType)], parent, img.data, img'.data, DIRENTSIZE * i,
                  CreateEntry(r, filename))
  }

  lemma IsCreated(img: Image, mid: Image, img': Image, parent: nat, r: nat, filename: CString, fileType: Int16)
    requires parent < |img.inodes| && r < |img.inodes| && r < 0x8000 && Live(img.inodes[parent]) && !Live(img.inodes[r])
    requires mid == Image(img.inodes[r := Born(img.inodes[r], fileType)], img.data) && EntryFits(mid, parent, r)
    requires img'.inodes == mid.inodes[r := OneMoreLink(mid.inodes[r])]
    requires var i := NewSlot(TextOf(mid.inodes[parent], mid.data), mid.inodes[parent].size, 0);
      i >= 0 && Rewrites(mid.inodes, parent, mid.data, img'.data, DIRENTSIZE * i, CreateEntry(r, filename))
    ensures Created(img, img', parent, r, filename, fileType)
  {
    assert parent != r && mid.inodes[parent] == img.inodes[parent];
    assert img'.inodes == img.inodes[r := OneMoreLink(Born(img.inodes[r], fileType))];
  }

  lemma FindLive(img: Image, name: CString, dir: nat)
    requires Find(img, name, dir).Inum?
    ensures dir < |img.inodes| && Live(img.inodes[dir])
  {
  }

  // When createFile() gets as far as taking an inode: the name is not there, and a number is free.
  ghost predicate CanStart(img: Image, used: set<nat>, numInodes: nat, parent: nat, filename: CString) {
    var found := Find(img, filename, parent);
    found.Inum? && found.n <= 0 && Bitmap.Free(used, numInodes) != {}
  }

  // When it succeeds: the directory has room, too.
  ghost predicate CanCreate(img: Image, used: set<nat>, numInodes: nat, parent: nat, filename: CString) {
    CanStart(img, used, numInodes, parent, filename) && Room(img, parent)
  }

  // In terms of the inodes, the bitmap and the slot: no entry of the name, or one without a number;
  // a number to be had; a directory, and the slot within the block map.
  lemma CreateWhen(img: Image, used: set<nat>, numInodes: nat, parent: nat, filename: CString)
    ensures CanCreate(img, used, numInodes, parent, filename) <==>
        && (exists m: int :: m <= 0 && Find(img, filename, parent) == Inum(m))
        && (exists k: nat :: k < numInodes && k !in used)
        && parent < |img.inodes| && img.inodes[parent].kind == 1 && 0 <= img.inodes[parent].size
        && 0 <= NewSlot(TextOf(img.inodes[parent], img.data), img.inodes[parent].size, 0) < 16 * 140
  {
    hide Find, NewSlot, TextOf;
    if k: nat :| k < numInodes && k !in used {
      assert k in Bitmap.Free(used, numInodes);
    }
    if k: nat :| k in Bitmap.Free(used, numInodes) {
      assert k < numInodes && k !in used;
    }
  }

  lemma BornLive(ino: Inode, kind: Int16)
    requires kind != INODE_FREE
    ensures Live(Born(ino, kind))
  {
  }

  lemma RoomStays(img: Image, mid: Image, parent: nat, r: nat, ino: Inode)
    requires r < |img.inodes| && parent < |img.inodes| && r != parent && Live(ino)
    requires mid == Image(img.inodes[r := ino], img.data)
    ensures EntryFits(mid, parent, r) <==> Room(img, parent)
  {
  }

  // createFile(): the new inode number, ERROR otherwise. Names longer than 30 characters are cut off.
  method CreateFile(fs: Server, filename: CString, parent: nat, fileType: Int16) returns (r: int)
    requires fs.Valid() && fs.Sound() && fs.Settled() && parent < fs.numInodes <= 0x8000 && Listing(fs.Inodes[parent])
    requires fileType != INODE_FREE
    modifies fs.Repr
    ensures fs.Valid() && fs.Sound() && fs.Settled() && fs.Grown() && (fs.NoLeaks() <==> old(fs.NoLeaks()))
    ensures fs.UsedBlocks() == old(fs.UsedBlocks())
    ensures r != -1 ==>
        0 <= r < fs.numInodes && FirstFree(old(fs.UsedInodes()), r) && fs.UsedInodes() == old(fs.UsedInodes()) + {r}
    ensures r != -1 ==> Created(old(ImageOf(fs)), ImageOf(fs), parent, r, filename, fileType)
    // the new inode, field by field
    ensures r != -1 ==>
        && |fs.Inodes| == |old(fs.Inodes)|
        && fs.Inodes[r].kind == fileType && fs.Inodes[r].nlink == 1 && fs.Inodes[r].size == 0
        && (old(fs.Inodes[r]).reuse < 0x7fff_ffff ==> fs.Inodes[r].reuse == old(fs.Inodes[r]).reuse + 1)
        && (old(fs.Inodes[r]).reuse == 0x7fff_ffff ==> fs.Inodes[r].reuse == -0x8000_0000)
        && fs.Inodes[r].direct == old(fs.Inodes[r]).direct && fs.Inodes[r].indirect == old(fs.Inodes[r]).indirect
        && forall j :: 0 <= j < |fs.Inodes| && j != r ==> fs.Inodes[j] == old(fs.Inodes)[j]
    // without success no reuse count and no allocated inode has changed
    ensures r == -1 ==>
        && |fs.Inodes| == |old(fs.Inodes)|
        && forall j :: 0 <= j < |fs.Inodes| ==>
            && fs.Inodes[j].reuse == old(fs.Inodes)[j].reuse
            && (Live(old(fs.Inodes)[j]) || Live(fs.Inodes[j]) ==> fs.Inodes[j] == old(fs.Inodes)[j])
    ensures OtherFiles(fs, parent) && fs.Pending <= old(fs.Pending)
    ensures r != -1 <==> old(CanCreate(ImageOf(fs), fs.UsedInodes(), fs.numInodes, parent, filename))
    ensures r == -1 ==> fs.UsedInodes() == old(fs.UsedInodes()) && Text(fs, parent) == old(Text(fs, parent))
    ensures r == -1 ==>
        if old(CanStart(ImageOf(fs), fs.UsedInodes(), fs.numInodes, parent, filename)) then
          exists k: nat :: FirstFree(old(fs.UsedInodes()), k) && Undone(old(fs.Inodes), fs.Inodes, k)
        else fs.Inodes == old(fs.Inodes)
    // where free_inode() has taken the number back everything has been synced
    ensures r == -1 && fs.store.disk.Failures == old(fs.store.disk.Failures) ==>
        old(CanStart(ImageOf(fs), fs.UsedInodes(), fs.numInodes, parent, filename)) ==> fs.Durable()
  {
    hide Server.Durable, Undone, Server.Valid, Server.UsedBlocks, Server.UsedInodes, Server.Settled,
      BlockMap.Sound, Exact, Find, CreateEntry, Bitmap.Free, EntryInum, EntryFits, Room, Rewrites, Born, Held,
      LruCache.Keys, NewSlot, TextOf, OneMoreLink, Created, SameFile;
    EveryFile(fs);
    var existInum := FindInumInDir(fs, filename, parent);
    if existInum == -1 || existInum > 0 {
      return -1;
    }
    FindLive(ImageOf(fs), filename, parent);
    ghost var img := ImageOf(fs);
    assert fs.Grown() && fs.SameState();
    var info := NewFile(fs, fileType);
    assert fs.Grown();
    if info == null {
      return -1;
    }
    ghost var mid := fs.Inodes;
    r := EnterName(fs, info, filename, parent, fileType, img);
    if r != -1 {
      CreatedFields(img, ImageOf(fs), parent, r, filename, fileType);
    } else {
      UndoneFields(img.inodes, fs.Inodes, info.key);
    }
    OthersStill(img.inodes, mid, info.key, img.data, fs.Data, parent);
  }

  lemma CreatedFields(img: Image, img': Image, parent: nat, r: nat, filename: CString, kind: Int16)
    requires Created(img, img', parent, r, filename, kind)
    ensures r < |img.inodes| == |img'.inodes|
    ensures var was, ino := img.inodes[r], img'.inodes[r];
      && ino.kind == kind && ino.nlink == 1 && ino.size == 0
      && ino.reuse == (if was.reuse == 0x7fff_ffff then -0x8000_0000 else was.reuse + 1)
      && ino.direct == was.direct && ino.indirect == was.indirect
    ensures forall j :: 0 <= j < |img.inodes| && j != r ==> img'.inodes[j] == img.inodes[j]
  {
    hide TextOf, NewSlot, Rewrites, CreateEntry;
  }

  lemma UndoneFields(inodes: seq<Inode>, inodes': seq<Inode>, k: nat)
    requires Undone(inodes, inodes', k)
    ensures |inodes'| == |inodes| && forall j :: 0 <= j < |inodes| ==>
        && inodes'[j].reuse == inodes[j].reuse
        && (Live(inodes[j]) || Live(inodes'[j]) ==> inodes'[j] == inodes[j])
  {
  }

  lemma OthersStill(inodes: seq<Inode>, mid: seq<Inode>, r: nat, data: seq<Block>, data': seq<Block>, parent: nat)
    requires |mid| == |inodes| && r < |inodes| && !Live(inodes[r])
    requires forall i :: 0 <= i < |inodes| && i != r ==> mid[i] == inodes[i]
    requires forall i :: 0 <= i < |mid| && i != parent && Live(mid[i]) ==> SameFile(mid[i], data, data')
    ensures forall i :: 0 <= i < |inodes| && i != parent && Live(inodes[i]) ==> SameFile(inodes[i], data, data')
  {
    forall i | 0 <= i < |inodes| && i != parent && Live(inodes[i])
      ensures SameFile(inodes[i], data, data')
    {
      assert mid[i] == inodes[i];
    }
  }

  // createFile() with the new inode in hand: its entry in the parent, or back to where it was.
  method EnterName(fs: Server, info: Node<Inode>, filename: CString, parent: nat, fileType: Int16, ghost img: Image)
    returns (r: int)
    requires fs.Valid() && fs.Sound() && fs.Settled() && parent < fs.numInodes <= 0x8000 && Listing(fs.Inodes[parent])
    requires 0 <= info.key < fs.numInodes && info.key != parent && fs.Has(info.key, info) && info.key in fs.UsedInodes()
    requires Held(LruCache.Keys(fs.icache.q.Items), info.key, {}) && fileType != INODE_FREE
    requires info.key < |img.inodes| && !Live(img.inodes[info.key]) && parent < |img.inodes| && Live(img.inodes[parent])
    requires ImageOf(fs) == Image(img.inodes[info.key := Born(img.inodes[info.key], fileType)], img.data)
    modifies fs.Repr
    ensures fs.Valid() && fs.Sound() && fs.Settled() && fs.Grown() && (fs.NoLeaks() <==> old(fs.NoLeaks()))
    ensures fs.UsedBlocks() == old(fs.UsedBlocks()) && OtherFiles(fs, parent)
    ensures fs.Pending <= old(fs.Pending) - {info.key}
    ensures r == (if Room(img, parent) then info.key else -1)
    ensures r == -1 ==> Text(fs, parent) == old(Text(fs, parent))
    ensures r != -1 ==>
        fs.UsedInodes() == old(fs.UsedInodes()) && Created(img, ImageOf(fs), parent, r, filename, fileType)
    ensures r == -1 ==> fs.UsedInodes() == old(fs.UsedInodes()) - {info.key} && Undone(img.inodes, fs.Inodes, info.key)
    ensures r == -1 && fs.store.disk.Failures == old(fs.store.disk.Failures) ==> fs.Durable()
  {
    hide Server.Durable, Server.Valid, Server.UsedBlocks, Server.UsedInodes, Server.Settled, BlockMap.Sound, Exact,
      Find, CreateEntry, Bitmap.Free, EntryInum, EntryFits, Room, Rewrites, Born, Held, LruCache.Keys, NewSlot,
      TextOf, OneMoreLink, Created, SameFile;
    ghost var mid := ImageOf(fs);
    var newEntry := CreateEntry(info.key, filename);
    EntryNames(info.key, filename);
    BornLive(img.inodes[info.key], fileType);
    RoomStays(img, mid, parent, info.key, mid.inodes[info.key]);
    r := AddEntry(fs, parent, newEntry);
    if r == -1 {
      Abandon(fs, info, img.inodes[info.key], fileType);
      assert fs.Inodes == img.inodes[info.key := Freed(img.inodes[info.key])];
      return;
    }
    r := info.key;
    IsCreated(img, mid, ImageOf(fs), parent, r, filename, fileType);
  }

  lemma EntryNames(inum: Int16, filename: CString)
    ensures EntryInum(CreateEntry(inum, filename)) == inum
  {
    RoundTrip16(inum);
    assert CreateEntry(inum, filename)[0..2] == Encode16(inum);
  }

  lemma TextRewritten(inodes: seq<Inode>, k: nat, data: seq<Block>, data': seq<Block>, off: nat, bytes: seq<Byte>)
    requires k < |inodes| && Rewrites(inodes, k, data, data', off, bytes)
    ensures TextOf(inodes[k], data') == Overwrite(TextOf(inodes[k], data), off, bytes)
    ensures |TextOf(inodes[k], data)| ==
        if inodes[k].size <= BLOCKSIZE * MAX_BLOCKS then inodes[k].size else BLOCKSIZE * MAX_BLOCKS
  {
    hide FileBytes;
    var n, mass := |TextOf(inodes[k], data)|, FileBytes(inodes[k], data);
    assert Overwrite(mass, off, bytes)[..n] == Overwrite(mass[..n], off, bytes);
  }

  // A file that has been created is found under its name.
  lemma CreatedIsFound(img: Image, img': Image, parent: nat, r: nat, filename: CString, fileType: Int16)
    requires Created(img, img', parent, r, filename, fileType) && 0 !in filename
    requires DIRENTSIZE <= img.inodes[parent].size && img.inodes[parent].size % DIRENTSIZE == 0
    requires Find(img, filename, parent) == Inum(0)
    ensures Find(img', filename, parent) == Inum(r)
  {
    hide TextOf, CreateEntry, Rewrites, EntryAt, Born, OneMoreLink, Named;
    var ino := img.inodes[parent];
    var text := TextOf(ino, img.data);
    var i := NewSlot(text, ino.size, 0);
    var mid := img.inodes[r := Born(img.inodes[r], fileType)];
    TextRewritten(mid, parent, img.data, img'.data, DIRENTSIZE * i, CreateEntry(r, filename));
    CreatedEntry(r, filename);
    FindsNew(text, ino.size, filename, CreateEntry(r, filename), i, 0);
    assert img'.inodes[parent] == ino;
  }
}
