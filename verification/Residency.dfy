// How long a handle stays good: runs of accesses against the LRU caches.
module Residency {
  import opened Sequences
  import opened Layout
  import opened RecencyQueue
  import opened LruCache
  import opened LruOrder
  import opened BlockCache
  import opened FileSystem
  import BlockMap

  function Ints(keys: seq<nat>): (r: seq<int>)
    ensures |r| == |keys| && forall i :: 0 <= i < |keys| ==> r[i] == keys[i]
  {
    seq(|keys|, i requires 0 <= i < |keys| => keys[i])
  }

  // The keys other than key among those accessed.
  function Others(keys: seq<nat>, key: int): set<int> {
    Elements(Ints(keys)) - {key}
  }

  lemma OthersSoFar(keys: seq<nat>, key: int, i: nat)
    requires i < |keys|
    ensures Others(keys[..i + 1], key) == Others(keys[..i], key) + {keys[i] as int} - {key}
    ensures |Others(keys[..i + 1], key)| <= |Others(keys, key)|
    ensures Others(keys[..i], key) <= Others(keys[..i + 1], key) && key !in Others(keys[..i + 1], key)
  {
    assert Ints(keys[..i + 1]) == Ints(keys[..i]) + [keys[i] as int];
    ElementsConcat(Ints(keys[..i]), [keys[i] as int]);
    assert Elements([keys[i] as int]) == {keys[i] as int};
    assert Ints(keys) == Ints(keys[..i + 1]) + Ints(keys[i + 1..]);
    ElementsConcat(Ints(keys[..i + 1]), Ints(keys[i + 1..]));
    SubsetCount(Others(keys[..i + 1], key), Others(keys, key));
  }

  // Right after its access nothing is fresher than a key.
  lemma JustUsed(order: seq<int>, cap: nat, key: int, evicts: bool)
    requires Distinct(Access(order, cap, key, evicts))
    ensures Held(Access(order, cap, key, evicts), key, {})
  {
    var after := Access(order, cap, key, evicts);
    assert after[|after| - 1] == key && Elements(after[|after|..]) == {};
  }

  lemma HeldIsIn(order: seq<int>, key: int, seen: set<int>)
    requires Held(order, key, seen)
    ensures key in order
  {
  }

  // One access more.
  method KeepOnce(store: BlockStore, ghost b: nat, ghost n: Node<Block>, other: nat, ghost seen: set<int>)
    requires store.Valid() && other < |store.Blocks| && b in store.cache.Map() && store.cache.Map()[b] == n
    requires Held(Keys(store.cache.q.Items), b, seen) && |seen + {other as int} - {b as int}| < BLOCK_CACHESIZE
    modifies store.Repr
    ensures store.Valid() && store.Repr >= old(store.Repr) && fresh(store.Repr - old(store.Repr))
    ensures store.Blocks == old(store.Blocks) && b in store.cache.Map() && store.cache.Map()[b] == n
    ensures Held(Keys(store.cache.q.Items), b, seen + {other as int} - {b as int})
  {
    hide BlockStore.Valid, Cache.Valid, Keys, Access, Held;
    AccessKeeps(Keys(store.cache.q.Items), BLOCK_CACHESIZE, other, true, b, seen);
    AccessKeeps(Keys(store.cache.q.Items), BLOCK_CACHESIZE, other, false, b, seen);
    var _ := store.GetBlock(other);
    HeldIsIn(Keys(store.cache.q.Items), b, seen + {other as int} - {b as int});
    BlocksListed(store);
  }

  // A block handle outlives accesses to any blocks whatever, as long as fewer than BLOCK_CACHESIZE
  // of them are distinct; failing write-backs included.
  method KeepBlock(store: BlockStore, b: nat, others: seq<nat>) returns (n: Node<Block>)
    requires store.Valid() && b < |store.Blocks| && forall i :: 0 <= i < |others| ==> others[i] < |store.Blocks|
    requires |Others(others, b)| < BLOCK_CACHESIZE
    modifies store.Repr
    ensures store.Valid() && store.Blocks == old(store.Blocks)
    ensures b in store.cache.Map() && store.cache.Map()[b] == n && n.key == b && n.val == store.Blocks[b]
  {
    hide BlockStore.Valid, Cache.Valid, Keys, Access, Held, Others;
    n := store.GetBlock(b);
    ghost var order := old(Keys(store.cache.q.Items));
    BlocksListed(store);
    JustUsed(order, BLOCK_CACHESIZE, b, store.disk.Failures == old(store.disk.Failures));
    NoOthers(b);
    for i := 0 to |others|
      invariant store.Valid() && store.Repr >= old(store.Repr) && fresh(store.Repr - old(store.Repr))
      invariant store.Blocks == old(store.Blocks)
      invariant b in store.cache.Map() && store.cache.Map()[b] == n
      invariant Held(Keys(store.cache.q.Items), b, Others(others[..i], b))
    {
      OthersSoFar(others, b, i);
      KeepOnce(store, b, n, others[i], Others(others[..i], b));
    }
    assert others[..|others|] == others;
    BlocksListed(store);
  }

  lemma NoOthers(key: int)
    ensures Others([], key) == {} && forall keys: seq<nat> :: Others(keys[..0], key) == {}
  {
  }

  lemma BlocksListed(store: BlockStore)
    requires store.Valid()
    ensures Distinct(Keys(store.cache.q.Items))
    ensures forall k :: k in store.cache.Map() <==> k in Keys(store.cache.q.Items)
    ensures forall k :: k in store.cache.Map() ==>
        store.cache.Map()[k].key == k && k < |store.Blocks| && store.cache.Map()[k].val == store.Blocks[k]
  {
    store.cache.KeysListed();
    store.Sentinel();
  }

  // A run of block accesses, with no write-back failing: the recency list is what the run makes of
  // it, so starting empty it holds the most recently used blocks in order of last use.
  method AccessBlocks(store: BlockStore, blocks: seq<nat>)
    requires store.Valid() && forall i :: 0 <= i < |blocks| ==> blocks[i] < |store.Blocks|
    modifies store.Repr
    ensures store.Valid() && store.Blocks == old(store.Blocks) && store.disk.Failures >= old(store.disk.Failures)
    ensures store.disk.Failures == old(store.disk.Failures) ==>
        && Keys(store.cache.q.Items) == Run(old(Keys(store.cache.q.Items)), BLOCK_CACHESIZE, Ints(blocks))
        && (old(store.cache.q.Items) == [] ==>
              Keys(store.cache.q.Items) == Suffix(ByLastAccess(Ints(blocks)), BLOCK_CACHESIZE))
  {
    hide BlockStore.Valid, Cache.Valid, Access;
    ghost var order := Keys(store.cache.q.Items);
    for i := 0 to |blocks|
      invariant store.Valid() && store.Repr >= old(store.Repr) && fresh(store.Repr - old(store.Repr))
      invariant store.Blocks == old(store.Blocks) && store.disk.Failures >= old(store.disk.Failures)
      invariant store.disk.Failures == old(store.disk.Failures) ==>
          Keys(store.cache.q.Items) == Run(order, BLOCK_CACHESIZE, Ints(blocks[..i]))
    {
      var _ := store.GetBlock(blocks[i]);
      var now := Ints(blocks[..i + 1]);
      assert now[..i] == Ints(blocks[..i]);
    }
    assert blocks[..|blocks|] == blocks;
    RunIsMostRecent(BLOCK_CACHESIZE, Ints(blocks));
  }

  lemma InodesListed(fs: Server)
    requires fs.Valid()
    ensures Distinct(Keys(fs.icache.q.Items))
    ensures forall k :: k in fs.icache.Map() <==> k in Keys(fs.icache.q.Items)
  {
    fs.icache.KeysListed();
  }

  // One use more.
  method KeepUsed(fs: Server, ghost k: nat, ghost n: Node<Inode>, other: nat, ghost seen: set<int>)
    requires fs.Valid() && fs.Settled() && other < fs.numInodes && fs.Has(k, n) && k !in seen
    requires Held(Keys(fs.icache.q.Items), k, seen) && |seen + {other as int} - {k as int}| < INODE_CACHESIZE
    modifies fs.Repr
    ensures fs.Valid() && fs.Settled() && fs.Grown() && fs.SameState() && fs.Has(k, n)
    ensures Held(Keys(fs.icache.q.Items), k, seen + {other as int} - {k as int})
  {
    hide Server.Valid, Server.UsedBlocks, Server.UsedInodes, Server.Settled, Keys, Access, Held;
    AccessKeeps(Keys(fs.icache.q.Items), INODE_CACHESIZE, other, true, k, seen);
    HeldLonger(Keys(fs.icache.q.Items), k, seen, seen + {other as int} - {k as int});
    var _ := fs.GetUseInode(other);
    HeldIsIn(Keys(fs.icache.q.Items), k, seen + {other as int} - {k as int});
    InodesListed(fs);
  }

  // An inode handle outlives uses of any inodes whatever, as long as fewer than INODE_CACHESIZE of
  // them are distinct, and whatever happens in the block cache below.
  method KeepInode(fs: Server, k: nat, others: seq<nat>) returns (n: Node<Inode>)
    requires fs.Valid() && fs.Settled() && k < fs.numInodes && BlockMap.Live(fs.Inodes[k])
    requires forall i :: 0 <= i < |others| ==> others[i] < fs.numInodes
    requires |Others(others, k)| < INODE_CACHESIZE
    modifies fs.Repr
    ensures fs.Valid() && fs.Settled() && fs.Grown() && fs.SameState()
    ensures fs.Has(k, n) && n.val == fs.Inodes[k]
  {
    hide Server.Valid, Server.UsedBlocks, Server.UsedInodes, Server.Settled, Keys, Access, Held, Others;
    ghost var order := Keys(fs.icache.q.Items);
    n := fs.GetUseInode(k);
    InodesListed(fs);
    JustUsed(order, INODE_CACHESIZE, k, true);
    NoOthers(k);
    for i := 0 to |others|
      invariant fs.Valid() && fs.Settled() && fs.Grown() && fs.SameState()
      invariant fs.Has(k, n) && Held(Keys(fs.icache.q.Items), k, Others(others[..i], k))
    {
      OthersSoFar(others, k, i);
      KeepUsed(fs, k, n, others[i], Others(others[..i], k));
    }
    fs.Cached(k);
  }

  lemma HeldLonger(order: seq<int>, key: int, seen: set<int>, more: set<int>)
    requires Held(order, key, seen) && seen <= more && key !in more
    ensures Held(order, key, more)
  {
  }

  // The accesses among uses of the inodes ks: a use of a free inode touches nothing.
  function Used(inodes: seq<Inode>, ks: seq<nat>): seq<int>
    requires forall i :: 0 <= i < |ks| ==> ks[i] < |inodes|
  {
    if ks == [] then []
    else
      var before, k := Used(inodes, ks[..|ks| - 1]), ks[|ks| - 1];
      if BlockMap.Live(inodes[k]) then before + [k] else before
  }

  // A run of inode uses: whatever evictions and write-backs it causes, the recency list is what the
  // run makes of it, so starting empty it holds the most recently used inodes in order of last use.
  method UseInodes(fs: Server, ks: seq<nat>)
    requires fs.Valid() && fs.Settled() && forall i :: 0 <= i < |ks| ==> ks[i] < fs.numInodes
    modifies fs.Repr
    ensures fs.Valid() && fs.Settled() && fs.Grown() && fs.SameState()
    ensures Keys(fs.icache.q.Items) == Run(old(Keys(fs.icache.q.Items)), INODE_CACHESIZE, Used(fs.Inodes, ks))
    ensures old(fs.icache.q.Items) == [] ==>
        Keys(fs.icache.q.Items) == Suffix(ByLastAccess(Used(fs.Inodes, ks)), INODE_CACHESIZE)
  {
    hide Server.Valid, Server.UsedBlocks, Server.UsedInodes, Server.Settled, Access, Suffix, ByLastAccess;
    ghost var order := Keys(fs.icache.q.Items);
    for i := 0 to |ks|
      invariant fs.Valid() && fs.Settled() && fs.Grown() && fs.SameState()
      invariant Keys(fs.icache.q.Items) == Run(order, INODE_CACHESIZE, Used(fs.Inodes, ks[..i]))
    {
      var _ := fs.GetUseInode(ks[i]);
      assert ks[..i + 1][..i] == ks[..i];
      OneMore(order, Used(fs.Inodes, ks[..i]), ks[i]);
    }
    assert ks[..|ks|] == ks;
    RunIsMostRecent(INODE_CACHESIZE, Used(fs.Inodes, ks));
  }

  lemma OneMore(order: seq<int>, keys: seq<int>, k: int)
    ensures Run(order, INODE_CACHESIZE, keys + [k]) ==
        Access(Run(order, INODE_CACHESIZE, keys), INODE_CACHESIZE, k, true)
  {
    assert (keys + [k])[..|keys|] == keys;
  }

  // In every valid state: list, counter and table of both caches tell the same, no key is listed
  // twice, the keys stand in the order of their last access, and the caches stay within their
  // bounds as long as no sector write has failed.
  lemma CachesInStep(fs: Server)
    requires fs.Valid()
    ensures var q := fs.icache.q;
      && Linked(q.head, q.Items, q.tail) && q.len == |q.Items| <= INODE_CACHESIZE && Distinct(Keys(q.Items))
      && InOrder(Keys(q.Items), fs.icache.History)
      && forall k :: k in fs.icache.Map() <==> k in Keys(q.Items)
    ensures var q := fs.store.cache.q;
      && Linked(q.head, q.Items, q.tail) && Distinct(Keys(q.Items))
      && q.len == |q.Items| <= BLOCK_CACHESIZE + fs.store.disk.Failures
      && InOrder(Keys(q.Items), fs.store.cache.History)
      && forall b :: b in fs.store.cache.Map() <==> b in Keys(q.Items)
  {
    hide InOrder;
    InodesListed(fs);
    BlocksListed(fs.store);
  }
}
