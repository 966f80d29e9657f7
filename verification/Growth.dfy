// What extend() does to a block map, one allocation at a time, and what follows for the whole map.
module Growth {
  import opened Sequences
  import opened Layout
  import opened BlockMap
  import Bitmap

  // One file among the data blocks and the block bitmap.
  datatype View = View(ino: Inode, data: seq<Block>, used: set<nat>)

  predicate Reaches(ino: Inode, data: seq<Block>, c: nat) {
    c <= MAX_BLOCKS && (c > NUM_DIRECT ==> 0 <= ino.indirect < |data|)
  }

  // The first c entries of a block map.
  function MapTo(ino: Inode, data: seq<Block>, c: nat): (r: seq<int>)
    requires Reaches(ino, data, c)
    ensures |r| == c
  {
    seq(c, j requires 0 <= j < c => Entry(ino, data, j))
  }

  predicate HasIndirect(w: View, c: nat, ind: bool) {
    c <= MAX_BLOCKS && (c > NUM_DIRECT || ind ==> 0 <= w.ino.indirect < |w.data|)
  }

  // The blocks newly taken when a map of n entries has grown to c: the indirect block if that is
  // new (ind), then the data blocks in order.
  function Taken(w: View, n: nat, c: nat, ind: bool): seq<int>
    requires n <= c && HasIndirect(w, c, ind)
  {
    (if ind then [w.ino.indirect] else []) + MapTo(w.ino, w.data, c)[n..]
  }

  // Only block numbers change in the inode, and only from n on. The size field is the last thing
  // extend() sets.
  predicate InodeGrows(v: Inode, w: Inode, c: nat, ind: bool) {
    && w.kind == v.kind && w.nlink == v.nlink && w.reuse == v.reuse && w.size == v.size
    && (!ind ==> w.indirect == v.indirect)
    && (forall j :: 0 <= j < NUM_DIRECT && j >= c ==> w.direct[j] == v.direct[j])
  }

  // The taken blocks are distinct, were free, and are all that is newly marked.
  predicate Takes(v: View, w: View, n: nat, c: nat, ind: bool)
    requires n <= c && HasIndirect(w, c, ind)
  {
    && Distinct(Taken(w, n, c, ind))
    && (forall b :: b in Taken(w, n, c, ind) ==> 0 <= b < |v.data| && b !in v.used)
    && (forall b :: b in v.used ==> b in w.used)
    && (forall b :: b in Taken(w, n, c, ind) ==> b in w.used)
    && (forall b :: b in w.used ==> b in v.used || b in Taken(w, n, c, ind))
  }

  // They are the lowest that were free, and each is the lowest at its turn: direct blocks first, then
  // the indirect block, then its entries.
  ghost predicate TakesLowest(v: View, w: View, n: nat, c: nat, ind: bool)
    requires n <= c && HasIndirect(w, c, ind)
  {
    && (forall b, i: nat :: b in w.used && b !in v.used && i < b ==> i in w.used)
    && var blocks := MapTo(w.ino, w.data, c);
      && (forall i, j :: n <= i < j < c ==> blocks[i] < blocks[j])
      && (ind ==> forall j :: n <= j < c ==> if j < NUM_DIRECT then blocks[j] < w.ino.indirect
                                             else w.ino.indirect < blocks[j])
  }

  // A block that is the lowest free one lies above all taken so far.
  lemma AboveTaken(v: View, w: View, n: nat, c: nat, ind: bool, b: Int32)
    requires n <= c && HasIndirect(w, c, ind) && Takes(v, w, n, c, ind) && TakesLowest(v, w, n, c, ind)
    requires 0 <= b && b !in w.used
    ensures forall j :: n <= j < c ==> MapTo(w.ino, w.data, c)[j] < b
    ensures ind ==> w.ino.indirect < b
  {
    hide MapTo;
    var taken := Taken(w, n, c, ind);
    forall x | x in taken
      ensures x < b
    {
      assert x in w.used && x !in v.used && (b as nat) !in w.used;
    }
    forall j | n <= j < c
      ensures MapTo(w.ino, w.data, c)[j] in taken
    {
      assert taken[(if ind then 1 else 0) + j - n] == MapTo(w.ino, w.data, c)[j];
    }
    if ind {
      assert taken[0] == w.ino.indirect;
      assert taken[0] in taken;
    }
  }

  lemma NextLowest(v: View, w: View, w': View, n: nat, c: nat, ind: bool, b: Int32)
    requires n <= c && HasIndirect(w, c, ind) && HasIndirect(w', c + 1, ind)
    requires Takes(v, w, n, c, ind) && TakesLowest(v, w, n, c, ind)
    requires 0 <= b && b !in w.used && w'.used == w.used + {b as nat} && forall i: nat :: i < b ==> i in w.used
    requires MapTo(w'.ino, w'.data, c + 1) == MapTo(w.ino, w.data, c) + [b] && w'.ino.indirect == w.ino.indirect
    requires ind ==> NUM_DIRECT <= c
    ensures TakesLowest(v, w', n, c + 1, ind)
  {
    hide MapTo, Takes;
    AboveTaken(v, w, n, c, ind, b);
    LowestMore(v, w, w', b);
  }

  lemma LowestMore(v: View, w: View, w': View, b: Int32)
    requires forall x, i: nat :: x in w.used && x !in v.used && i < x ==> i in w.used
    requires 0 <= b && w'.used == w.used + {b as nat} && forall i: nat :: i < b ==> i in w.used
    ensures forall x, i: nat :: x in w'.used && x !in v.used && i < x ==> i in w'.used
  {
  }

  // New direct blocks are zeroed, the indirect block may gain entries, nothing else is written.
  ghost predicate DataGrows(v: View, w: View, n: nat, c: nat, ind: bool)
    requires n <= c && HasIndirect(w, c, ind)
  {
    && |w.data| == |v.data|
    && (forall b ::
          0 <= b < |v.data| && b !in Taken(w, n, c, ind) && !(n < c && NUM_DIRECT < c && b == w.ino.indirect) ==>
          w.data[b] == v.data[b])
    && (forall j :: n <= j < c ==>
          var b := MapTo(w.ino, w.data, c)[j];
          0 <= b < |v.data| && w.data[b] == if j < NUM_DIRECT then ZeroBlock() else v.data[b])
  }

  ghost predicate Growing(v: View, w: View, c: nat, ind: bool) {
    && Readable(v.ino, v.data)
    && Mapped(v.ino.size) <= c && HasIndirect(w, c, ind)
    && (ind ==> Mapped(v.ino.size) <= NUM_DIRECT <= c)
    && (c > NUM_DIRECT && Mapped(v.ino.size) <= NUM_DIRECT ==> ind)
    && InodeGrows(v.ino, w.ino, c, ind)
    && MapTo(w.ino, w.data, c)[..Mapped(v.ino.size)] == MapOf(v.ino, v.data)
    && Takes(v, w, Mapped(v.ino.size), c, ind)
    && TakesLowest(v, w, Mapped(v.ino.size), c, ind)
    && DataGrows(v, w, Mapped(v.ino.size), c, ind)
  }

  lemma KeptIndirect(v: View, w: View, c: nat)
    requires Growing(v, w, c, false)
    ensures w.ino.indirect == v.ino.indirect
  {
  }

  lemma SameLength(v: View, w: View, c: nat, ind: bool)
    requires Growing(v, w, c, ind)
    ensures |w.data| == |v.data|
  {
  }

  lemma GrowingStart(v: View)
    requires Readable(v.ino, v.data)
    ensures Growing(v, v, Mapped(v.ino.size), false)
  {
    assert MapTo(v.ino, v.data, Mapped(v.ino.size)) == MapOf(v.ino, v.data);
  }

  // Block b becomes direct entry c.
  function SetDirect(w: View, c: nat, b: Int32): View
    requires c < NUM_DIRECT && 0 <= b < |w.data|
  {
    View(w.ino.(direct := w.ino.direct[c := b]), w.data[b := ZeroBlock()], w.used + {b as nat})
  }

  lemma GrowDirect(v: View, w: View, c: nat, b: Int32)
    requires Growing(v, w, c, false) && c < NUM_DIRECT && 0 <= b < |v.data| && b !in w.used
    requires forall i: nat :: i < b ==> i in w.used
    ensures Growing(v, SetDirect(w, c, b), c + 1, false)
  {
    hide TakesLowest;
    var n, w' := Mapped(v.ino.size), SetDirect(w, c, b);
    assert MapTo(w'.ino, w'.data, c + 1) == MapTo(w.ino, w.data, c) + [b];
    assert Taken(w', n, c + 1, false) == Taken(w, n, c, false) + [b];
    TakesOneMore(v, w, w', n, c, false, b);
    NextLowest(v, w, w', n, c, false, b);
    assert b !in Taken(w, n, c, false);
    assert DataGrows(v, w', n, c + 1, false);
  }

  // Block b becomes the indirect block.
  function SetIndirect(w: View, b: Int32): View
    requires 0 <= b < |w.data|
  {
    View(w.ino.(indirect := b), w.data, w.used + {b as nat})
  }

  lemma GrowIndirect(v: View, w: View, b: Int32)
    requires Growing(v, w, NUM_DIRECT, false) && 0 <= b < |v.data| && b !in w.used
    requires forall i: nat :: i < b ==> i in w.used
    ensures Growing(v, SetIndirect(w, b), NUM_DIRECT, true)
  {
    var n, w' := Mapped(v.ino.size), SetIndirect(w, b);
    assert MapTo(w'.ino, w'.data, NUM_DIRECT) == MapTo(w.ino, w.data, NUM_DIRECT);
    AboveTaken(v, w, n, NUM_DIRECT, false, b);
    LowestMore(v, w, w', b);
    assert Taken(w', n, NUM_DIRECT, true) == [b] + Taken(w, n, NUM_DIRECT, false);
    assert b !in Taken(w, n, NUM_DIRECT, false);
    assert Takes(v, w', n, NUM_DIRECT, true);
    assert DataGrows(v, w', n, NUM_DIRECT, true);
  }

  // Block b becomes entry c - 12 of the indirect block.
  function SetEntry(w: View, c: nat, b: Int32): View
    requires NUM_DIRECT <= c < MAX_BLOCKS && 0 <= w.ino.indirect < |w.data| && 0 <= b
  {
    var x := w.ino.indirect;
    View(w.ino, w.data[x := PutInt(w.data[x], c - NUM_DIRECT, b)], w.used + {b as nat})
  }

  lemma GrowEntry(v: View, w: View, c: nat, ind: bool, b: Int32)
    requires Growing(v, w, c, ind) && NUM_DIRECT <= c < MAX_BLOCKS && 0 <= w.ino.indirect < |w.data|
    requires Mapped(v.ino.size) <= NUM_DIRECT ==> ind
    requires Mapped(v.ino.size) > NUM_DIRECT ==> w.ino.indirect in v.used
    requires 0 <= b < |v.data| && b !in w.used && forall i: nat :: i < b ==> i in w.used
    ensures Growing(v, SetEntry(w, c, b), c + 1, ind)
  {
    hide Takes, TakesLowest, DataGrows, Taken, MapTo, GetInt, PutInt;
    var n, w' := Mapped(v.ino.size), SetEntry(w, c, b);
    EntryMap(w, n, c, ind, b);
    EntriesApart(v, w, c, ind);
    TakesOneMore(v, w, w', n, c, ind, b);
    NextLowest(v, w, w', n, c, ind, b);
    EntryData(v, w, n, c, ind, b);
  }

  lemma EntryMap(w: View, n: nat, c: nat, ind: bool, b: Int32)
    requires n <= c && HasIndirect(w, c, ind) && NUM_DIRECT <= c < MAX_BLOCKS && 0 <= w.ino.indirect < |w.data|
    requires 0 <= b
    ensures var w' := SetEntry(w, c, b);
      && MapTo(w'.ino, w'.data, c + 1) == MapTo(w.ino, w.data, c) + [b]
      && Taken(w', n, c + 1, ind) == Taken(w, n, c, ind) + [b]
  {
    IntIsolation(w.data[w.ino.indirect], c - NUM_DIRECT, b);
    var w' := SetEntry(w, c, b);
    assert MapTo(w'.ino, w'.data, c + 1) == MapTo(w.ino, w.data, c) + [b];
  }

  lemma TakesOneMore(v: View, w: View, w': View, n: nat, c: nat, ind: bool, b: Int32)
    requires n <= c && HasIndirect(w, c, ind) && HasIndirect(w', c + 1, ind) && Takes(v, w, n, c, ind)
    requires 0 <= b < |v.data| && b !in w.used && w'.used == w.used + {b as nat}
    requires Taken(w', n, c + 1, ind) == Taken(w, n, c, ind) + [b]
    ensures Takes(v, w', n, c + 1, ind)
  {
    hide Taken;
    assert b !in Taken(w, n, c, ind);
  }

  lemma EntryData(v: View, w: View, n: nat, c: nat, ind: bool, b: Int32)
    requires n <= c && HasIndirect(w, c, ind) && NUM_DIRECT <= c < MAX_BLOCKS && 0 <= w.ino.indirect < |w.data|
    requires Takes(v, w, n, c, ind) && DataGrows(v, w, n, c, ind)
    requires 0 <= b < |v.data| && b !in w.used && w.ino.indirect in w.used
    requires forall j :: n <= j < c ==> MapTo(w.ino, w.data, c)[j] != w.ino.indirect
    ensures DataGrows(v, SetEntry(w, c, b), n, c + 1, ind)
  {
    hide PutInt, MapTo, Taken;
    EntryMap(w, n, c, ind, b);
    assert b !in Taken(w, n, c, ind);
    assert w.data[b] == v.data[b] && b != w.ino.indirect;
  }

  // The indirect block is not one of the data blocks just taken.
  lemma EntriesApart(v: View, w: View, c: nat, ind: bool)
    requires Growing(v, w, c, ind) && NUM_DIRECT <= c && 0 <= w.ino.indirect < |w.data|
    requires Mapped(v.ino.size) <= NUM_DIRECT ==> ind
    requires Mapped(v.ino.size) > NUM_DIRECT ==> w.ino.indirect in v.used
    ensures forall j :: Mapped(v.ino.size) <= j < c ==> MapTo(w.ino, w.data, c)[j] != w.ino.indirect
    ensures w.ino.indirect in w.used
  {
    hide DataGrows, MapTo, InodeGrows;
    var n := Mapped(v.ino.size);
    forall j | n <= j < c
      ensures MapTo(w.ino, w.data, c)[j] != w.ino.indirect
    {
      assert Taken(w, n, c, ind)[(if ind then 1 else 0) + j - n] == MapTo(w.ino, w.data, c)[j];
      assert ind ==> Taken(w, n, c, ind)[0] == w.ino.indirect;
    }
    assert ind ==> Taken(w, n, c, ind)[0] == w.ino.indirect;
  }

  // extend() has succeeded.
  ghost predicate Extended(v: View, w: View, newsize: nat) {
    && Readable(v.ino, v.data) && v.ino.size <= newsize == w.ino.size
    && Growing(v, View(w.ino.(size := v.ino.size), w.data, w.used), Mapped(newsize),
               Mapped(v.ino.size) <= NUM_DIRECT < Mapped(newsize))
  }

  lemma BlocksMonotone(size: nat, newsize: nat)
    requires size <= newsize
    ensures BlocksFor(size) <= BlocksFor(newsize)
  {
  }

  lemma MappedMonotone(size: nat, newsize: nat)
    requires size <= newsize
    ensures Mapped(size) <= Mapped(newsize)
  {
  }

  // Blocks written by a growing file: the ones it took, and its indirect block.
  lemma GrowingTouches(v: View, w: View, c: nat, ind: bool) returns (touched: set<int>)
    requires Growing(v, w, c, ind)
    ensures OnlyTouches(v.data, w.data, touched)
    ensures forall b :: b in touched <==>
        (b in Taken(w, Mapped(v.ino.size), c, ind) || (Mapped(v.ino.size) < c && NUM_DIRECT < c && b == w.ino.indirect))
  {
    var n := Mapped(v.ino.size);
    touched := Elements(Taken(w, n, c, ind)) + if n < c && NUM_DIRECT < c then {w.ino.indirect as int} else {};
  }

  // While the size field is untouched the file owns what it owned before.
  lemma GrowingOwns(v: View, w: View, c: nat, ind: bool)
    requires Growing(v, w, c, ind)
    ensures Readable(w.ino, w.data)
    ensures MapOf(w.ino, w.data) == MapOf(v.ino, v.data) && Owned(w.ino, w.data) == Owned(v.ino, v.data)
  {
    hide Takes, DataGrows;
    assert MapOf(w.ino, w.data) == MapTo(w.ino, w.data, c)[..Mapped(v.ino.size)];
  }

  // An extension that stops half way leaks blocks but keeps the block map sound.
  lemma GrowingSound(inodes: seq<Inode>, k: nat, v: View, w: View, c: nat, ind: bool, table: nat, numBlocks: nat)
    requires k < |inodes| && Live(inodes[k]) && v.ino == inodes[k] && Growing(v, w, c, ind)
    requires Sound(inodes, v.data, v.used, table, numBlocks) && forall b :: b in w.used ==> b < numBlocks
    ensures Sound(inodes[k := w.ino], w.data, w.used, table, numBlocks)
    ensures forall i :: 0 <= i < |inodes| && i != k && Live(inodes[i]) ==> SameFile(inodes[i], v.data, w.data)
  {
    GrowingOwns(v, w, c, ind);
    var touched := GrowingTouches(v, w, c, ind);
    if Mapped(v.ino.size) > NUM_DIRECT {
      IndirectOwned(v.ino, v.data);
    }
    hide Sound, Takes, DataGrows;
    Replace(inodes, v.data, v.used, table, numBlocks, k, w.ino, w.data, w.used, touched);
  }

  // What the extended file owns: its old blocks and the ones taken.
  lemma ExtendedOwns(v: View, w: View, newsize: nat)
    requires Extended(v, w, newsize) && Distinct(Owned(v.ino, v.data))
    requires forall b :: b in Owned(v.ino, v.data) ==> 0 <= b && b in v.used
    ensures Readable(w.ino, w.data)
    ensures MapOf(w.ino, w.data)[..Mapped(v.ino.size)] == MapOf(v.ino, v.data)
    ensures Distinct(Owned(w.ino, w.data))
    ensures forall b :: b in Owned(w.ino, w.data) <==> (b in Owned(v.ino, v.data) || b in NewBlocks(v, w))
  {
    hide Extended, Distinct, MapOf, NewBlocks;
    ExtendedParts(v, w, newsize);
    var n, n' := Mapped(v.ino.size), Mapped(newsize);
    var was, more := MapOf(v.ino, v.data), MapOf(w.ino, w.data)[n..];
    assert MapOf(w.ino, w.data) == was + more;
    if n' <= NUM_DIRECT {
      assert Owned(v.ino, v.data) == was && NewBlocks(v, w) == more;
      assert Owned(w.ino, w.data) == was + more;
      InConcat(was, more);
      forall b | b in was
        ensures b !in more
      {
        assert b in v.used;
      }
      DistinctConcat(was, more);
    } else if n <= NUM_DIRECT {
      assert Owned(v.ino, v.data) == was;
      Rotate(was, more, w.ino.indirect);
    } else {
      assert NewBlocks(v, w) == more;
      Insert(was, more, w.ino.indirect);
    }
  }

  lemma ExtendedParts(v: View, w: View, newsize: nat)
    requires Extended(v, w, newsize)
    ensures Readable(v.ino, v.data) && Readable(w.ino, w.data) && v.ino.size <= newsize == w.ino.size
    ensures var n, n' := Mapped(v.ino.size), Mapped(newsize);
      && n <= n' && MapOf(w.ino, w.data)[..n] == MapOf(v.ino, v.data)
      && NewBlocks(v, w) == (if n <= NUM_DIRECT < n' then [w.ino.indirect as int] else []) + MapOf(w.ino, w.data)[n..]
      && (n > NUM_DIRECT || n' <= NUM_DIRECT ==> w.ino.indirect == v.ino.indirect)
    ensures Distinct(NewBlocks(v, w))
    ensures forall b :: b in NewBlocks(v, w) ==> 0 <= b < |v.data| && b !in v.used
    ensures forall b: nat :: b in w.used <==> b in v.used || b in NewBlocks(v, w)
  {
    hide DataGrows, Distinct, MapTo;
    MapReaches(w.ino, w.data);
    SizeFree(w.ino, v.ino.size, w.data, Mapped(newsize));
  }

  // The entries themselves do not depend on the size field.
  lemma SizeFree(ino: Inode, size: Int32, data: seq<Block>, c: nat)
    requires Reaches(ino, data, c)
    ensures Reaches(ino.(size := size), data, c) && MapTo(ino.(size := size), data, c) == MapTo(ino, data, c)
  {
  }

  lemma MapReaches(ino: Inode, data: seq<Block>)
    requires Readable(ino, data)
    ensures MapOf(ino, data) == MapTo(ino, data, Mapped(ino.size))
  {
  }

  function NewBlocks(v: View, w: View): seq<int>
    requires Readable(v.ino, v.data) && 0 <= v.ino.size <= w.ino.size && Readable(w.ino, w.data)
  {
    MappedMonotone(v.ino.size, w.ino.size);
    Taken(w, Mapped(v.ino.size), Mapped(w.ino.size), Mapped(v.ino.size) <= NUM_DIRECT < Mapped(w.ino.size))
  }

  lemma Rotate(a: seq<int>, b: seq<int>, x: int)
    requires Distinct(a) && Distinct([x] + b) && forall y :: y in a ==> y !in [x] + b
    ensures Distinct(a + b + [x])
    ensures forall y :: y in a + b + [x] <==> (y in a || y in [x] + b)
  {
    DistinctParts([x], b);
    InConcat([x], b);
    forall y | y in a
      ensures y !in b && y != x
    {
      assert y !in [x] + b;
    }
    InConcat(a, b);
    InConcat(a + b, [x]);
    DistinctOne(x);
    DistinctConcat(a, b);
    DistinctConcat(a + b, [x]);
  }

  lemma Insert(a: seq<int>, b: seq<int>, x: int)
    requires Distinct(a + [x]) && Distinct(b) && forall y :: y in a + [x] ==> y !in b
    ensures Distinct(a + b + [x])
    ensures forall y :: y in a + b + [x] <==> (y in a + [x] || y in b)
  {
    DistinctParts(a, [x]);
    InConcat(a, [x]);
    forall y | y in a + [x]
      ensures y !in b
    {
    }
    assert forall y :: y in a ==> y in a + [x];
    InConcat(a, b);
    InConcat(a + b, [x]);
    DistinctOne(x);
    DistinctConcat(a, b);
    DistinctConcat(a + b, [x]);
  }

  lemma DistinctOne(x: int)
    ensures Distinct([x])
  {
  }

  // extend()'s last step: with all entries in place, setting the size completes the extension.
  lemma Finish(v: View, w: View, newsize: Int32)
    requires Readable(v.ino, v.data) && v.ino.size <= newsize
    requires Growing(v, w, Mapped(newsize), Mapped(v.ino.size) <= NUM_DIRECT < Mapped(newsize))
    ensures Extended(v, View(w.ino.(size := newsize), w.data, w.used), newsize)
  {
    assert w.ino.(size := newsize).(size := v.ino.size) == w.ino;
  }

  // A successful extension keeps block ownership, and no other file changes.
  lemma ExtendedSound(inodes: seq<Inode>, k: nat, v: View, w: View, newsize: nat, table: nat, numBlocks: nat)
    requires k < |inodes| && Live(inodes[k]) && v.ino == inodes[k] && Extended(v, w, newsize)
    requires Sound(inodes, v.data, v.used, table, numBlocks) && forall b :: b in w.used ==> b < numBlocks
    ensures Sound(inodes[k := w.ino], w.data, w.used, table, numBlocks)
    ensures forall i :: 0 <= i < |inodes| && i != k && Live(inodes[i]) ==> SameFile(inodes[i], v.data, w.data)
  {
    ExtendedOwns(v, w, newsize);
    ExtendedParts(v, w, newsize);
    var touched := ExtendedTouches(v, w, newsize);
    hide Sound, Extended, NewBlocks;
    Replace(inodes, v.data, v.used, table, numBlocks, k, w.ino, w.data, w.used, touched);
  }

  lemma ExtendedTouches(v: View, w: View, newsize: nat) returns (touched: set<int>)
    requires Extended(v, w, newsize)
    ensures Readable(v.ino, v.data) && 0 <= v.ino.size <= w.ino.size && Readable(w.ino, w.data)
    ensures OnlyTouches(v.data, w.data, touched)
    ensures forall b :: b in touched ==> b in NewBlocks(v, w) || b in Owned(v.ino, v.data)
  {
    ExtendedParts(v, w, newsize);
    var n, n' := Mapped(v.ino.size), Mapped(newsize);
    touched := GrowingTouches(v, View(w.ino.(size := v.ino.size), w.data, w.used), n', n <= NUM_DIRECT < n');
    SizeFree(w.ino, v.ino.size, w.data, n');
    if n > NUM_DIRECT {
      IndirectOwned(v.ino, v.data);
    }
  }

  // The free count drops by the new blocks, plus one exactly when an indirect block is first needed.
  lemma ExtendedCount(v: View, w: View, newsize: nat, numBlocks: nat)
    requires Extended(v, w, newsize)
    requires forall b :: b in w.used ==> b < numBlocks
    ensures |Bitmap.Free(w.used, numBlocks)| ==
        |Bitmap.Free(v.used, numBlocks)| - (Mapped(newsize) - Mapped(v.ino.size))
          - (if Mapped(v.ino.size) <= NUM_DIRECT < Mapped(newsize) then 1 else 0)
  {
    ExtendedParts(v, w, newsize);
    TakeAll(v.used, w.used, NewBlocks(v, w), numBlocks);
  }

  lemma GrowingCount(v: View, w: View, c: nat, ind: bool, numBlocks: nat)
    requires Growing(v, w, c, ind)
    requires forall b :: b in w.used ==> b < numBlocks
    ensures |Bitmap.Free(w.used, numBlocks)| ==
        |Bitmap.Free(v.used, numBlocks)| - (c - Mapped(v.ino.size)) - (if ind then 1 else 0)
  {
    hide DataGrows, InodeGrows;
    TakeAll(v.used, w.used, Taken(w, Mapped(v.ino.size), c, ind), numBlocks);
  }

  lemma {:induction false} TakeAll(used: set<nat>, used': set<nat>, taken: seq<int>, len: nat)
    requires Distinct(taken) && forall b :: b in taken ==> 0 <= b < len && b !in used
    requires forall b: nat :: b in used' <==> b in used || b in taken
    ensures |Bitmap.Free(used', len)| == |Bitmap.Free(used, len)| - |taken|
  {
    if taken == [] {
      assert used' == used;
    } else {
      var b, rest := taken[|taken| - 1], taken[..|taken| - 1];
      assert taken == rest + [b];
      DistinctParts(rest, [b]);
      InConcat(rest, [b]);
      assert b in taken && b in used';
      TakeAll(used, used' - {b}, rest, len);
      assert used' == used' - {b} + {b};
      Bitmap.TakeOne(used' - {b}, len, b);
    }
  }

  // Every byte the file had it still has, and its new direct blocks read as zeros. The other new
  // blocks hold what they held before, whoever left it there.
  lemma ExtendedBytes(v: View, w: View, newsize: nat)
    requires Extended(v, w, newsize) && Addressable(v.ino, v.data) && Distinct(Owned(v.ino, v.data))
    requires forall b :: b in Owned(v.ino, v.data) ==> 0 <= b && b in v.used
    ensures Addressable(w.ino, w.data) && Mapped(v.ino.size) <= Mapped(newsize)
    ensures FileBytes(w.ino, w.data)[..BLOCKSIZE * Mapped(v.ino.size)] == FileBytes(v.ino, v.data)
    ensures forall p ::
        BLOCKSIZE * Mapped(v.ino.size) <= p < BLOCKSIZE * Mapped(newsize) && p < BLOCKSIZE * NUM_DIRECT ==>
        FileBytes(w.ino, w.data)[p] == 0
    ensures forall j :: Mapped(v.ino.size) <= j < Mapped(newsize) ==>
        0 <= MapOf(w.ino, w.data)[j] < |v.data| && MapOf(w.ino, w.data)[j] !in v.used
    ensures forall p ::
        BLOCKSIZE * Mapped(v.ino.size) <= p < BLOCKSIZE * Mapped(newsize) && BLOCKSIZE * NUM_DIRECT <= p ==>
        FileBytes(w.ino, w.data)[p] == v.data[MapOf(w.ino, w.data)[p / BLOCKSIZE]][p % BLOCKSIZE]
  {
    hide Distinct, NewBlocks, Growing, BlocksFor;
    var n, n' := Mapped(v.ino.size), Mapped(newsize);
    ExtendedParts(v, w, newsize);
    forall j | 0 <= j < n'
      ensures 0 <= MapOf(w.ino, w.data)[j] < |w.data|
      ensures j < n ==> w.data[MapOf(w.ino, w.data)[j]] == v.data[MapOf(v.ino, v.data)[j]]
      ensures n <= j < NUM_DIRECT ==> w.data[MapOf(w.ino, w.data)[j]] == ZeroBlock()
      ensures n <= j ==> 0 <= MapOf(w.ino, w.data)[j] < |v.data| && MapOf(w.ino, w.data)[j] !in v.used
      ensures n <= j && NUM_DIRECT <= j ==> w.data[MapOf(w.ino, w.data)[j]] == v.data[MapOf(w.ino, w.data)[j]]
    {
      ExtendedBlock(v, w, newsize, j);
    }
    SameBlocks(v.ino, v.data, w.ino, w.data, n);
  }

  lemma ExtendedBlock(v: View, w: View, newsize: nat, j: nat)
    requires Extended(v, w, newsize) && Addressable(v.ino, v.data) && Distinct(Owned(v.ino, v.data))
    requires forall b :: b in Owned(v.ino, v.data) ==> 0 <= b && b in v.used
    requires j < Mapped(newsize)
    ensures Readable(w.ino, w.data) && w.ino.size == newsize && |w.data| == |v.data|
    ensures 0 <= MapOf(w.ino, w.data)[j] < |w.data|
    ensures j < Mapped(v.ino.size) ==> w.data[MapOf(w.ino, w.data)[j]] == v.data[MapOf(v.ino, v.data)[j]]
    ensures Mapped(v.ino.size) <= j < NUM_DIRECT ==> w.data[MapOf(w.ino, w.data)[j]] == ZeroBlock()
    ensures Mapped(v.ino.size) <= j ==> MapOf(w.ino, w.data)[j] !in v.used
    ensures Mapped(v.ino.size) <= j && NUM_DIRECT <= j ==>
        w.data[MapOf(w.ino, w.data)[j]] == v.data[MapOf(w.ino, w.data)[j]]
  {
    var n, n' := Mapped(v.ino.size), Mapped(newsize);
    ExtendedParts(v, w, newsize);
    MapReaches(w.ino, w.data);
    SizeFree(w.ino, v.ino.size, w.data, n');
    if j < n {
      var b := MapOf(v.ino, v.data)[j];
      assert Owned(v.ino, v.data)[j] == b && MapOf(w.ino, w.data)[..n][j] == b;
      if n > NUM_DIRECT {
        assert Owned(v.ino, v.data)[n] == v.ino.indirect;
      }
      assert b !in NewBlocks(v, w) && !(n < n' && NUM_DIRECT < n' && b == w.ino.indirect);
    } else {
    }
  }

  // A successful extension neither leaks blocks nor finds lost ones.
  lemma ExtendedExact(inodes: seq<Inode>, k: nat, v: View, w: View, newsize: nat, table: nat, numBlocks: nat)
    requires k < |inodes| && Live(inodes[k]) && v.ino == inodes[k] && Extended(v, w, newsize)
    requires Sound(inodes, v.data, v.used, table, numBlocks) && forall b :: b in w.used ==> b < numBlocks
    ensures Exact(inodes[k := w.ino], w.data, w.used, table) <==> Exact(inodes, v.data, v.used, table)
    ensures w.ino.kind == v.ino.kind
  {
    hide Extended, NewBlocks, Distinct;
    ExtendedOwns(v, w, newsize);
    ExtendedParts(v, w, newsize);
    ExtendedSound(inodes, k, v, w, newsize, table, numBlocks);
    ExtendedLive(v, w, newsize);
    var inodes' := inodes[k := w.ino];
    forall b | b in v.used
      ensures (exists i :: 0 <= i < |inodes| && Owns(inodes[i], v.data, b))
          <==> (exists i :: 0 <= i < |inodes'| && Owns(inodes'[i], w.data, b))
    {
      SameOwner(inodes, inodes', k, v.data, w.data, b);
    }
    forall b | b in w.used && b !in v.used
      ensures exists i :: 0 <= i < |inodes'| && Owns(inodes'[i], w.data, b)
    {
      assert Owns(inodes'[k], w.data, b);
    }
  }

  // A block that inode k owns in both images or in neither has an owner in both or in neither.
  lemma SameOwner(inodes: seq<Inode>, inodes': seq<Inode>, k: nat, data: seq<Block>, data': seq<Block>, b: int)
    requires |inodes'| == |inodes| && k < |inodes| && forall i :: 0 <= i < |inodes| && i != k ==>
        inodes'[i] == inodes[i]
    requires forall i :: 0 <= i < |inodes| && i != k && Live(inodes[i]) ==> SameFile(inodes[i], data, data')
    requires Owns(inodes'[k], data', b) <==> Owns(inodes[k], data, b)
    ensures (exists i :: 0 <= i < |inodes| && Owns(inodes[i], data, b))
        <==> (exists i :: 0 <= i < |inodes'| && Owns(inodes'[i], data', b))
  {
    if i :| 0 <= i < |inodes| && Owns(inodes[i], data, b) {
      assert i != k ==> SameFile(inodes[i], data, data');
      assert Owns(inodes'[i], data', b);
    }
    if i :| 0 <= i < |inodes'| && Owns(inodes'[i], data', b) {
      assert i != k ==> SameFile(inodes[i], data, data');
      assert Owns(inodes[i], data, b);
    }
  }

  lemma ExtendedLive(v: View, w: View, newsize: nat)
    requires Extended(v, w, newsize)
    ensures w.ino.kind == v.ino.kind
  {
  }

  // An extension that ran out of blocks: the block map, its bytes and the size are as before, a new
  // indirect block has been put into the inode, and the blocks taken are lost.
  ghost predicate CutShort(v: View, w: View) {
    exists c: nat :: Growing(v, w, c, true)
  }

  // An extension cut short leaks: a block it took is marked used and belongs to nobody.
  lemma CutShortLeaks(inodes: seq<Inode>, k: nat, v: View, w: View, table: nat, numBlocks: nat)
    requires k < |inodes| && Live(inodes[k]) && v.ino == inodes[k] && CutShort(v, w)
    requires Sound(inodes, v.data, v.used, table, numBlocks) && forall b :: b in w.used ==> b < numBlocks
    ensures !Exact(inodes[k := w.ino], w.data, w.used, table)
  {
    hide Growing;
    var c: nat :| Growing(v, w, c, true);
    GrowingSound(inodes, k, v, w, c, true, table, numBlocks);
    GrowingOwns(v, w, c, true);
    GrowingMore(v, w, c);
    var b :| b in w.used && b !in v.used;
    var inodes' := inodes[k := w.ino];
    forall i | 0 <= i < |inodes'|
      ensures !Owns(inodes'[i], w.data, b)
    {
      if i != k && Live(inodes[i]) {
        assert SameFile(inodes[i], v.data, w.data);
      }
    }
  }

  lemma GrowingMore(v: View, w: View, c: nat)
    requires Growing(v, w, c, true)
    ensures exists b :: b in w.used && b !in v.used
  {
    var n := Mapped(v.ino.size);
    assert Taken(w, n, c, true)[0] == w.ino.indirect;
    assert w.ino.indirect in Taken(w, n, c, true);
  }

  // The blocks an extension takes are the lowest free ones, in ascending order.
  lemma ExtendedLowest(v: View, w: View, newsize: nat)
    requires Extended(v, w, newsize)
    ensures Readable(v.ino, v.data) && Readable(w.ino, w.data) && w.ino.size == newsize
    ensures forall b, i: nat :: b in w.used && b !in v.used && i < b ==> i in w.used
    ensures var blocks, n := MapOf(w.ino, w.data), Mapped(v.ino.size);
      forall i, j :: n <= i < j < |blocks| ==> blocks[i] < blocks[j]
  {
    hide Takes, DataGrows, InodeGrows, MapTo, MapOf;
    ExtendedParts(v, w, newsize);
    MapReaches(w.ino, w.data);
    SizeFree(w.ino, v.ino.size, w.data, Mapped(newsize));
  }
}
