// Which blocks an inode owns, what it means for the block map to be sound, and what extending,
// freeing and writing do to it.
module BlockMap {
  import opened Sequences
  import opened Layout
  import Bitmap

  // Blocks needed for size bytes, and how many of them the block map can name.
  function BlocksFor(size: nat): nat {
    (size + BLOCKSIZE - 1) / BLOCKSIZE
  }

  function Mapped(size: nat): nat {
    if BlocksFor(size) <= MAX_BLOCKS then BlocksFor(size) else MAX_BLOCKS
  }

  lemma BelowSize(c: nat, size: nat)
    ensures BLOCKSIZE * c < size <==> c < BlocksFor(size)
  {
  }

  predicate Live(ino: Inode) {
    ino.kind != INODE_FREE
  }

  // The size is sensible and the indirect block, if used, exists.
  predicate Readable(ino: Inode, data: seq<Block>) {
    ino.size >= 0 && (Mapped(ino.size) > NUM_DIRECT ==> 0 <= ino.indirect < |data|)
  }

  function Entry(ino: Inode, data: seq<Block>, j: nat): int
    requires j < MAX_BLOCKS && (j >= NUM_DIRECT ==> 0 <= ino.indirect < |data|)
  {
    if j < NUM_DIRECT then ino.direct[j] else GetInt(data[ino.indirect], j - NUM_DIRECT)
  }

  // The data blocks of a file, in order.
  function MapOf(ino: Inode, data: seq<Block>): (r: seq<int>)
    requires Readable(ino, data)
    ensures |r| == Mapped(ino.size)
  {
    seq(Mapped(ino.size), j requires 0 <= j < Mapped(ino.size) => Entry(ino, data, j))
  }

  // The data blocks and, for a file that needs one, the indirect block.
  function Owned(ino: Inode, data: seq<Block>): seq<int>
    requires Readable(ino, data)
  {
    MapOf(ino, data) + if Mapped(ino.size) > NUM_DIRECT then [ino.indirect] else []
  }

  predicate SoundInode(ino: Inode, data: seq<Block>, used: set<nat>, table: nat, numBlocks: nat) {
    && Readable(ino, data)
    && Distinct(Owned(ino, data))
    && (forall b :: b in Owned(ino, data) ==> table < b < numBlocks && b in used)
  }

  // Block ownership: live inodes own distinct blocks beyond the inode table, all marked used.
  predicate Sound(inodes: seq<Inode>, data: seq<Block>, used: set<nat>, table: nat, numBlocks: nat) {
    && table < numBlocks <= |data|
    && (forall b: nat :: b <= table ==> b in used)
    && (forall b :: b in used ==> b < numBlocks)
    && (forall i :: 0 <= i < |inodes| && Live(inodes[i]) ==> SoundInode(inodes[i], data, used, table, numBlocks))
    && (forall i, j :: 0 <= i < j < |inodes| && Live(inodes[i]) && Live(inodes[j]) ==>
          Elements(Owned(inodes[i], data)) !! Elements(Owned(inodes[j], data)))
  }

  // Nothing is marked used without a reason: no leaks.
  ghost predicate Exact(inodes: seq<Inode>, data: seq<Block>, used: set<nat>, table: nat) {
    forall b :: b in used ==> b <= table || exists i :: 0 <= i < |inodes| && Owns(inodes[i], data, b)
  }

  predicate Owns(ino: Inode, data: seq<Block>, b: int) {
    Live(ino) && Readable(ino, data) && b in Owned(ino, data)
  }

  // The two images agree on every block outside touched.
  ghost predicate OnlyTouches(data: seq<Block>, data': seq<Block>, touched: set<int>) {
    && |data'| == |data|
    && (forall b :: 0 <= b < |data| && b !in touched ==> data'[b] == data[b])
  }

  // Neither the block map of a file nor any byte of its blocks differs between the two images.
  predicate SameFile(ino: Inode, data: seq<Block>, data': seq<Block>) {
    && Readable(ino, data) && Readable(ino, data')
    && Owned(ino, data') == Owned(ino, data) && MapOf(ino, data') == MapOf(ino, data)
    && (forall b :: b in Owned(ino, data) ==> 0 <= b < |data| && b < |data'| && data'[b] == data[b])
  }

  // A block map depends on the data only through its indirect block.
  lemma OwnedFrame(ino: Inode, data: seq<Block>, data': seq<Block>)
    requires Readable(ino, data) && |data'| == |data|
    requires Mapped(ino.size) > NUM_DIRECT ==> data'[ino.indirect] == data[ino.indirect]
    ensures Readable(ino, data') && MapOf(ino, data') == MapOf(ino, data) && Owned(ino, data') == Owned(ino, data)
  {
  }

  lemma IndirectOwned(ino: Inode, data: seq<Block>)
    requires Readable(ino, data) && Mapped(ino.size) > NUM_DIRECT
    ensures ino.indirect in Owned(ino, data)
  {
    assert Owned(ino, data)[Mapped(ino.size)] == ino.indirect;
  }

  // A data block of a file is no other data block of it, and not its indirect block.
  lemma MapApart(ino: Inode, data: seq<Block>, j: nat)
    requires Readable(ino, data) && Distinct(Owned(ino, data)) && j < Mapped(ino.size)
    ensures forall i :: 0 <= i < Mapped(ino.size) && i != j ==> MapOf(ino, data)[i] != MapOf(ino, data)[j]
    ensures Mapped(ino.size) > NUM_DIRECT ==> ino.indirect != MapOf(ino, data)[j]
  {
    var owned, n := Owned(ino, data), Mapped(ino.size);
    assert forall i :: 0 <= i < n ==> owned[i] == MapOf(ino, data)[i];
    assert n > NUM_DIRECT ==> owned[n] == ino.indirect;
  }

  // Replacing one inode of a sound image, given what became of its blocks and of everyone else's.
  lemma Replace(inodes: seq<Inode>, data: seq<Block>, used: set<nat>, table: nat, numBlocks: nat,
                k: nat, ino': Inode, data': seq<Block>, used': set<nat>, touched: set<int>)
    requires Sound(inodes, data, used, table, numBlocks) && k < |inodes| && Live(inodes[k])
    requires OnlyTouches(data, data', touched)
    requires forall b: nat :: b <= table ==> b in used'
    requires forall b :: b in used' ==> b < numBlocks
    // touched blocks were free or belonged to inode k
    requires forall b :: b in touched ==> b !in used || b in Owned(inodes[k], data)
    // everyone else's blocks stay marked
    requires forall b :: b in used ==> b in used' || b in Owned(inodes[k], data)
    // inode k ends up with blocks that were its own or free
    requires Live(ino') ==> SoundInode(ino', data', used', table, numBlocks)
    requires Live(ino') ==> forall b :: b in Owned(ino', data') ==> b !in used || b in Owned(inodes[k], data)
    ensures Sound(inodes[k := ino'], data', used', table, numBlocks)
    ensures forall i :: 0 <= i < |inodes| && i != k && Live(inodes[i]) ==> SameFile(inodes[i], data, data')
  {
    hide MapOf, Owned, Readable, Distinct, OnlyTouches;
    Bystanders(inodes, data, used, table, numBlocks, k, data', touched);
    var inodes' := inodes[k := ino'];
    forall i | 0 <= i < |inodes'| && Live(inodes'[i])
      ensures SoundInode(inodes'[i], data', used', table, numBlocks)
    {
      if i != k {
        assert SoundInode(inodes[i], data, used, table, numBlocks);
      }
    }
    forall i, j | 0 <= i < j < |inodes'| && Live(inodes'[i]) && Live(inodes'[j])
      ensures Elements(Owned(inodes'[i], data')) !! Elements(Owned(inodes'[j], data'))
    {
      if i != k && j != k {
        assert Elements(Owned(inodes[i], data)) !! Elements(Owned(inodes[j], data));
      } else {
        assert forall b :: b in Owned(inodes'[i], data') ==> b !in Owned(inodes'[j], data');
      }
    }
  }

  // What is touched when inode k changes belongs to nobody else.
  lemma Bystanders(inodes: seq<Inode>, data: seq<Block>, used: set<nat>, table: nat, numBlocks: nat, k: nat,
                   data': seq<Block>, touched: set<int>)
    requires Sound(inodes, data, used, table, numBlocks) && k < |inodes| && Live(inodes[k])
    requires OnlyTouches(data, data', touched)
    requires forall b :: b in touched ==> b !in used || b in Owned(inodes[k], data)
    ensures |data'| == |data|
    ensures forall i :: 0 <= i < |inodes| && i != k && Live(inodes[i]) ==>
        && SameFile(inodes[i], data, data')
        && forall b :: b in Owned(inodes[i], data) ==> b in used && b !in Owned(inodes[k], data)
  {
    forall i | 0 <= i < |inodes| && i != k && Live(inodes[i])
      ensures Readable(inodes[i], data') && Owned(inodes[i], data') == Owned(inodes[i], data)
      ensures MapOf(inodes[i], data') == MapOf(inodes[i], data)
      ensures forall b :: b in Owned(inodes[i], data) ==> data'[b] == data[b] && b !in Owned(inodes[k], data)
    {
      Apart(inodes, data, used, table, numBlocks, i, k);
      if Mapped(inodes[i].size) > NUM_DIRECT {
        IndirectOwned(inodes[i], data);
      }
      OwnedFrame(inodes[i], data, data');
    }
  }

  // No block belongs to two live inodes.
  lemma Apart(inodes: seq<Inode>, data: seq<Block>, used: set<nat>, table: nat, numBlocks: nat, i: nat, j: nat)
    requires Sound(inodes, data, used, table, numBlocks)
    requires i < |inodes| && j < |inodes| && i != j && Live(inodes[i]) && Live(inodes[j])
    ensures forall b :: b in Owned(inodes[i], data) ==> b !in Owned(inodes[j], data)
  {
    var x, y := if i < j then i else j, if i < j then j else i;
    assert Elements(Owned(inodes[x], data)) !! Elements(Owned(inodes[y], data));
    forall b | b in Owned(inodes[i], data)
      ensures b !in Owned(inodes[j], data)
    {
      assert b in Elements(Owned(inodes[i], data));
    }
  }

  // Every data block of the file exists.
  predicate Addressable(ino: Inode, data: seq<Block>) {
    Readable(ino, data) && forall j :: 0 <= j < Mapped(ino.size) ==> 0 <= MapOf(ino, data)[j] < |data|
  }

  // The bytes of the file's blocks, end to end.
  function FileBytes(ino: Inode, data: seq<Block>): (r: seq<Byte>)
    requires Addressable(ino, data)
    ensures |r| == BLOCKSIZE * Mapped(ino.size)
  {
    seq(BLOCKSIZE * Mapped(ino.size), p requires 0 <= p < BLOCKSIZE * Mapped(ino.size) =>
      data[MapOf(ino, data)[p / BLOCKSIZE]][p % BLOCKSIZE])
  }

  // The contents of the file: its bytes up to its size, as far as they are mapped.
  function Contents(ino: Inode, data: seq<Block>): (r: seq<Byte>)
    requires Addressable(ino, data)
    ensures |r| == if ino.size <= BLOCKSIZE * MAX_BLOCKS then ino.size else BLOCKSIZE * MAX_BLOCKS
  {
    FileBytes(ino, data)[..if ino.size <= BLOCKSIZE * MAX_BLOCKS then ino.size else BLOCKSIZE * MAX_BLOCKS]
  }

  // Where on the disk a byte of a file is: of the first 12 blocks the inode has the numbers, of the
  // others the indirect block, four bytes each.
  lemma BytePlace(ino: Inode, data: seq<Block>, p: nat) returns (b: nat)
    requires Addressable(ino, data) && p < BLOCKSIZE * Mapped(ino.size)
    ensures p < 6144 ==> b == ino.direct[p / 512]
    ensures 6144 <= p ==> 0 <= ino.indirect < |data| && IntAt(data[ino.indirect], 4 * (p / 512 - 12), b)
    ensures b < |data| && FileBytes(ino, data)[p] == data[b][p % 512]
    ensures p < ino.size ==> p < |TextOf(ino, data)| && TextOf(ino, data)[p] == data[b][p % 512]
  {
    hide GetInt, IntAt;
    var j := p / BLOCKSIZE;
    b := MapOf(ino, data)[j];
    if j >= NUM_DIRECT {
      IntLayout(data[ino.indirect], j - NUM_DIRECT, 0);
    }
  }

  // The same, for inodes whose blocks need not all exist.
  function TextOf(ino: Inode, data: seq<Block>): seq<Byte> {
    if Addressable(ino, data) then Contents(ino, data) else []
  }

  lemma SoundAddressable(ino: Inode, data: seq<Block>, used: set<nat>, table: nat, numBlocks: nat)
    requires SoundInode(ino, data, used, table, numBlocks) && numBlocks <= |data|
    ensures Addressable(ino, data)
  {
    forall j | 0 <= j < Mapped(ino.size)
      ensures 0 <= MapOf(ino, data)[j] < |data|
    {
      assert Owned(ino, data)[j] == MapOf(ino, data)[j] && MapOf(ino, data)[j] in Owned(ino, data);
    }
  }

  // Two block maps whose first n blocks hold the same data describe the same first bytes.
  lemma SameBlocks(ino: Inode, data: seq<Block>, ino': Inode, data': seq<Block>, n: nat)
    requires Addressable(ino, data) && Addressable(ino', data')
    requires n <= Mapped(ino.size) && n <= Mapped(ino'.size)
    requires forall j :: 0 <= j < n ==> data'[MapOf(ino', data')[j]] == data[MapOf(ino, data)[j]]
    ensures FileBytes(ino', data')[..BLOCKSIZE * n] == FileBytes(ino, data)[..BLOCKSIZE * n]
  {
  }

  // A file whose blocks are the same in both images has the same bytes in both.
  lemma SameBytes(ino: Inode, data: seq<Block>, data': seq<Block>)
    requires SameFile(ino, data, data')
    ensures Addressable(ino, data) && Addressable(ino, data') && FileBytes(ino, data') == FileBytes(ino, data)
  {
    forall j | 0 <= j < Mapped(ino.size)
      ensures 0 <= MapOf(ino, data)[j] < |data| && MapOf(ino, data)[j] < |data'|
      ensures data'[MapOf(ino, data')[j]] == data[MapOf(ino, data)[j]]
    {
      assert Owned(ino, data)[j] == MapOf(ino, data)[j] && MapOf(ino, data)[j] in Owned(ino, data);
    }
    SameBlocks(ino, data, ino, data', Mapped(ino.size));
  }

  // The bitmap with the listed blocks marked free.
  function Less(used: set<nat>, blocks: seq<int>): set<nat> {
    set b | b in used && b !in blocks
  }

  lemma LessOne(used: set<nat>, blocks: seq<int>, b: nat)
    ensures Less(used, blocks + [b]) == Less(used, blocks) - {b}
  {
  }

  function NoDirect(): Direct {
    seq(NUM_DIRECT, _ => 0)
  }

  // What free_inode leaves of an inode.
  function Freed(ino: Inode): Inode {
    Inode(INODE_FREE, 0, ino.reuse, 0, NoDirect(), 0)
  }

  // Freeing a file keeps block ownership and touches no other file.
  lemma FreedSound(inodes: seq<Inode>, data: seq<Block>, used: set<nat>, table: nat, numBlocks: nat, k: nat)
    requires Sound(inodes, data, used, table, numBlocks) && k < |inodes| && Live(inodes[k])
    ensures Sound(inodes[k := Freed(inodes[k])], data, Less(used, Owned(inodes[k], data)), table, numBlocks)
    ensures forall i :: 0 <= i < |inodes| && i != k && Live(inodes[i]) ==> SameFile(inodes[i], data, data)
  {
    Replace(inodes, data, used, table, numBlocks, k, Freed(inodes[k]), data, Less(used, Owned(inodes[k], data)), {});
  }

  // Freeing a file neither leaks blocks nor finds lost ones.
  lemma FreedExact(inodes: seq<Inode>, data: seq<Block>, used: set<nat>, table: nat, k: nat)
    requires k < |inodes| && Live(inodes[k]) && Readable(inodes[k], data)
    ensures Exact(inodes[k := Freed(inodes[k])], data, Less(used, Owned(inodes[k], data)), table)
        <==> Exact(inodes, data, used, table)
  {
    var inodes', used' := inodes[k := Freed(inodes[k])], Less(used, Owned(inodes[k], data));
    forall b | b in used'
      ensures (exists i :: 0 <= i < |inodes'| && Owns(inodes'[i], data, b))
          <==> (exists i :: 0 <= i < |inodes| && Owns(inodes[i], data, b))
    {
      if i :| 0 <= i < |inodes| && Owns(inodes[i], data, b) {
        assert Owns(inodes'[i], data, b);
      }
      if i :| 0 <= i < |inodes'| && Owns(inodes'[i], data, b) {
        assert Owns(inodes[i], data, b);
      }
    }
    forall b | b in used && b !in used'
      ensures exists i :: 0 <= i < |inodes| && Owns(inodes[i], data, b)
    {
      assert Owns(inodes[k], data, b);
    }
  }
}
