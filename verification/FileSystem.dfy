// The two cache levels together: cached inodes above cached blocks above the disk.
module FileSystem {
  import opened Sequences
  import opened Layout
  import opened HashTable
  import opened RecencyQueue
  import opened LruCache
  import opened LruOrder
  import opened BlockCache
  import Bitmap
  import BlockMap
  import Growth

  const INODE_CACHESIZE := 16

  // Every logical inode is the cached copy if there is one and its slot otherwise; a copy that is
  // clean, and was not edited behind the dirty flag's back (pending), equals its slot.
  ghost predicate InodesAgree(m: map<nat, Node<Inode>>, blocks: seq<Block>, inodes: seq<Inode>, pending: set<nat>)
    reads m.Values`val, m.Values`isDirty
  {
    && (forall k :: 0 <= k < |inodes| ==> InodeToBlock(k) < |blocks|)
    && (forall k :: k in m ==>
          k < |inodes| && inodes[k] == m[k].val && (m[k].isDirty || k in pending || GetSlot(blocks, k) == m[k].val))
    && (forall k :: 0 <= k < |inodes| && k !in m ==> inodes[k] == GetSlot(blocks, k))
  }

  // Blocks beyond the inode table.
  ghost predicate DataAgree(data: seq<Block>, blocks: seq<Block>, table: nat) {
    && |data| == |blocks|
    && (forall b :: table < b < |data| ==> data[b] == blocks[b])
  }

  lemma TableBound(numInodes: nat)
    ensures forall k :: 0 <= k < numInodes ==> 1 <= InodeToBlock(k) <= BlocksForInodes(numInodes)
  {
  }

  // The inode table as it stands in the given blocks.
  function Slots(blocks: seq<Block>, numInodes: nat): (r: seq<Inode>)
    requires BlocksForInodes(numInodes) < |blocks|
    ensures |r| == numInodes && forall k :: 0 <= k < numInodes ==>
        InodeToBlock(k) < |blocks| && r[k] == GetSlot(blocks, k)
  {
    TableBound(numInodes);
    seq(numInodes, k requires 0 <= k < numInodes => GetSlot(blocks, k))
  }

  class Server {
    const store: BlockStore
    const icache: Cache<Inode>
    const numBlocks: nat
    const numInodes: nat
    const blockBitmap: array<bv8>
    const inodeBitmap: array<bv8>
    ghost var Inodes: seq<Inode>         // the logical inodes, slot 0 (the header) included
    ghost var Data: seq<Block>           // the logical blocks beyond the inode table
    ghost var Pending: set<nat>
    ghost var Repr: set<object>

    ghost function Table(): nat {
      BlocksForInodes(numInodes)
    }

    ghost function UsedBlocks(): set<nat>
      reads blockBitmap
    {
      if numBlocks <= 8 * blockBitmap.Length then Bitmap.Members(blockBitmap[..], numBlocks) else {}
    }

    ghost function UsedInodes(): set<nat>
      reads inodeBitmap
    {
      if numInodes <= 8 * inodeBitmap.Length then Bitmap.Members(inodeBitmap[..], numInodes) else {}
    }

    ghost predicate Valid()
      reads this, Repr
      ensures Valid() ==> this in Repr && blockBitmap in Repr && inodeBitmap in Repr && icache.Repr <= Repr
      ensures Valid() ==> |Inodes| == numInodes && Table() < numBlocks <= |Data| && numBlocks < 0x8000_0000
    {
      && this in Repr && store in Repr && icache in Repr && blockBitmap in Repr && inodeBitmap in Repr
      && store.Repr <= Repr && icache.Repr <= Repr && store.Repr !! icache.Repr
      && this !in store.Repr && this !in icache.Repr
      && blockBitmap !in store.Repr && blockBitmap !in icache.Repr
      && inodeBitmap !in store.Repr && inodeBitmap !in icache.Repr && blockBitmap != inodeBitmap
      && store in store.Repr && store.disk in store.Repr && store.cache in store.Repr && icache in icache.Repr
      && icache.q in icache.Repr && icache.t in icache.Repr
      && icache.t.Repr <= icache.Repr && icache.q.Footprint() <= icache.Repr
      && icache.Map().Values <= icache.q.Pos.Keys
      && store.Valid() && icache.Valid()
      && numBlocks <= 8 * blockBitmap.Length && numInodes <= 8 * inodeBitmap.Length
      && 0 < numInodes && Table() < numBlocks <= |store.Blocks| && numBlocks < 0x8000_0000
      && |Inodes| == numInodes && |Data| == |store.Blocks|
      && InodesAgree(icache.Map(), store.Blocks, Inodes, Pending)
      && DataAgree(Data, store.Blocks, Table())
      && |icache.q.Items| <= INODE_CACHESIZE
    }

    // Block ownership holds.
    ghost predicate Sound()
      reads this, blockBitmap
    {
      BlockMap.Sound(Inodes, Data, UsedBlocks(), Table(), numBlocks)
    }

    // No block beyond the inode table is marked used without belonging to an allocated inode.
    ghost predicate NoLeaks()
      reads this, blockBitmap
    {
      BlockMap.Exact(Inodes, Data, UsedBlocks(), Table())
    }

    // Cached inodes are allocated ones, and allocated inodes are marked used.
    ghost predicate Settled()
      reads this, icache, icache.t, inodeBitmap
    {
      && (forall k :: k in icache.Map() ==> k < |Inodes| && BlockMap.Live(Inodes[k]))
      && (forall k :: 0 <= k < |Inodes| && BlockMap.Live(Inodes[k]) ==> k in UsedInodes())
    }

    // The boot block and the inode table are marked used.
    ghost predicate Reserved()
      reads blockBitmap
    {
      forall b: nat :: b <= Table() ==> b in UsedBlocks()
    }

    ghost function View(k: nat): Growth.View
      requires k < |Inodes|
      reads this, blockBitmap
    {
      Growth.View(Inodes[k], Data, UsedBlocks())
    }

    // Empty caches above a store, and bitmaps with every bit clear.
    constructor (store: BlockStore, numBlocks: nat, numInodes: nat)
      requires store.Valid() && 0 < numInodes && BlocksForInodes(numInodes) < numBlocks <= |store.Blocks|
      requires numBlocks < 0x8000_0000
      ensures Valid() && fresh(Repr - store.Repr) && this.store == store
      ensures this.numBlocks == numBlocks && this.numInodes == numInodes
      ensures icache.Map() == map[] && icache.q.Items == []
      ensures Pending == {} && UsedBlocks() == {} && UsedInodes() == {}
      ensures Inodes == Slots(store.Blocks, numInodes) && Data == store.Blocks
    {
      hide BlockStore.Valid, Cache.Valid, InodesAgree, DataAgree, Slots, Bitmap.Members;
      this.store, this.numBlocks, this.numInodes := store, numBlocks, numInodes;
      icache := new Cache<Inode>();
      var blockMap := Bitmap.Clear(numBlocks);
      var inodeMap := Bitmap.Clear(numInodes);
      blockBitmap, inodeBitmap := blockMap, inodeMap;
      new;
      UncachedAgree(store.Blocks, numInodes);
      Inodes, Data := Slots(store.Blocks, numInodes), store.Blocks;
      Pending := {};
      Repr := {this, blockBitmap, inodeBitmap} + store.Repr + icache.Repr;
    }

    // The logical state: what the rest of the server can observe.
    twostate predicate SameState()
      reads this, blockBitmap, inodeBitmap
    {
      && Inodes == old(Inodes) && Data == old(Data) && Pending == old(Pending)
      && UsedBlocks() == old(UsedBlocks()) && UsedInodes() == old(UsedInodes())
    }

    // The inode cache holds the same entries, with the same contents and flags, in the same order.
    twostate predicate SameCache()
      reads this, icache, icache.q, icache.t, icache.t.Map.Values
    {
      && icache.Map() == old(icache.Map()) && icache.q.Items == old(icache.q.Items)
      && (forall k :: k in icache.Map() ==>
            icache.Map()[k].val == old(icache.Map()[k].val) && icache.Map()[k].isDirty == old(icache.Map()[k].isDirty))
    }

    // Only new objects join the footprint.
    twostate predicate Grown()
      reads this, store, store.disk, store.cache, icache
    {
      && old(store.cache.History) <= store.cache.History && old(icache.History) <= icache.History
      && Repr >= old(Repr) && fresh(Repr - old(Repr))
      && store.Repr >= old(store.Repr) && fresh(store.Repr - old(store.Repr))
      && store.disk.Failures >= old(store.disk.Failures)
    }

    // Every inode but k is as it was, and so are the inode bitmap and the inode cache's membership and order.
    twostate predicate Elsewhere(k: nat)
      reads this, icache, icache.q, icache.t, store, store.cache, store.disk, inodeBitmap
    {
      && |Inodes| == |old(Inodes)| && (forall j :: 0 <= j < |Inodes| && j != k ==> Inodes[j] == old(Inodes)[j])
      && UsedInodes() == old(UsedInodes())
      && icache.Map() == old(icache.Map()) && icache.q.Items == old(icache.q.Items)
      && Grown()
    }

    // get_block, as every routine above the block cache calls it.
    method GetBlock(b: nat) returns (n: Node<Block>)
      requires Valid() && b < |Data|
      modifies this`Repr, store.Repr
      ensures Valid() && Grown() && SameState()
      ensures SameCache()
      ensures Holds(b, n) && n.val == store.Blocks[b] && (Table() < b ==> n.val == Data[b])
      ensures store.cache.History == Noted(old(store.cache.History), b)
      ensures Keys(store.cache.q.Items) ==
          Access(old(Keys(store.cache.q.Items)), BLOCK_CACHESIZE, b, store.disk.Failures == old(store.disk.Failures))
    {
      hide BlockStore.Valid, Cache.Valid, InodesAgree, Keys, Access, Noted, Server.UsedBlocks, Server.UsedInodes;
      n := store.GetBlock(b);
      assert SameCache() && SameState();
      Repr := Repr + store.Repr;
    }

    // n is the resident copy of block b.
    ghost predicate Holds(b: nat, n: Node<Block>)
      reads this, store, store.cache, store.cache.t
    {
      n in store.Repr && n.key == b && b in store.cache.Map() && store.cache.Map()[b] == n && b < |Data|
    }

    // n is the resident copy of inode k.
    ghost predicate Has(k: nat, n: Node<Inode>)
      reads this, icache, icache.t
    {
      n in Repr && n.key == k && k in icache.Map() && icache.Map()[k] == n
    }

    // Copy a cached inode into its slot of the cached inode table.
    method WriteBack(info: Node<Inode>, ghost k: nat)
      requires Valid() && Has(k, info)
      modifies this`Repr, store.Repr
      ensures Valid() && Grown() && SameState()
      ensures icache.Map() == old(icache.Map()) && icache.q.Items == old(icache.q.Items)
      ensures InodeToBlock(k) < |store.Blocks| && GetSlot(store.Blocks, k) == info.val
      ensures store.cache.History == Noted(old(store.cache.History), InodeToBlock(k))
      ensures icache.History == old(icache.History)
    {
      hide BlockStore.Valid, Cache.Valid, InodesAgree, DataAgree, GetSlot, PutSlot, Noted, Keys, Access,
        Server.UsedBlocks, Server.UsedInodes;
      Listed(k);
      InTable(k);
      var block := GetBlock(InodeToBlock(info.key));
      assert Grown() && SameState();
      WriteBackAgrees(icache.Map(), store.Blocks, Inodes, Data, Pending, k);
      store.Write(block, PutSlot(block.val, info.key, info.val));
    }

    lemma Listed(k: nat)
      requires Valid() && k in icache.Map()
      ensures icache.Map()[k] != icache.q.head && icache.Map()[k] != icache.q.tail
      ensures forall j :: j in icache.Map() && j != k ==> icache.Map()[j] != icache.Map()[k]
      ensures k < numInodes && icache.Map()[k].key == k && icache.Map()[k].val == Inodes[k]
      ensures icache.Map()[k] in icache.q.Pos
    {
    }

    lemma StoreWithin()
      requires Valid()
      ensures store.Repr <= Repr && store in store.Repr && store.disk in Repr && this in Repr && this !in store.Repr
    {
    }

    lemma UsedBound()
      requires Valid()
      ensures forall b :: b in UsedBlocks() ==> b < numBlocks
      ensures forall k :: k in UsedInodes() ==> k < numInodes
    {
    }

    lemma Cached(k: nat)
      requires Valid() && k in icache.Map()
      ensures k < numInodes && icache.Map()[k].key == k && icache.Map()[k].val == Inodes[k]
    {
    }

    lemma InTable(k: nat)
      requires Valid() && k < numInodes
      ensures 1 <= InodeToBlock(k) <= Table() && InodeToBlock(k) < |Data|
    {
      TableBound(numInodes);
    }

    // The block accesses with those of an eviction: to the block with the slot of the oldest inode, if
    // the inode cache is full.
    ghost function Evicting(history: seq<int>, items: seq<Node<Inode>>): seq<int>
    {
      if |items| >= INODE_CACHESIZE && items[0].key >= 0 then Noted(history, InodeToBlock(items[0].key)) else history
    }

    // evict_inode: a full inode cache writes its oldest inode into its slot and drops it.
    method EvictInode()
      requires Valid()
      modifies Repr
      ensures Valid() && Grown() && SameState() && |icache.q.Items| < INODE_CACHESIZE && icache.Repr == old(icache.Repr)
      ensures var items := old(icache.q.Items);
        && (|items| >= INODE_CACHESIZE ==>
              icache.q.Items == items[1..] && icache.Map() == old(icache.Map()) - {items[0].key})
        && (|items| < INODE_CACHESIZE ==> icache.q.Items == items && icache.Map() == old(icache.Map()))
      ensures icache.History == old(icache.History)
      ensures store.cache.History == Evicting(old(store.cache.History), old(icache.q.Items))
    {
      hide BlockStore.Valid, Cache.Valid, InodesAgree, DataAgree, GetSlot, Noted, Server.UsedBlocks,
        Server.UsedInodes;
      Oldest();
      if icache.q.len >= INODE_CACHESIZE {
        var victim := icache.q.head.next;
        if victim == icache.q.tail {
          return;
        }
        WriteBack(victim, victim.key);
        Oldest();
        DropAgrees(icache.Map(), store.Blocks, Inodes, Pending, victim.key);
        icache.Leave(victim);
      }
    }

    // set_inode_lru for an inode that is not cached. Callers reach it only after a miss.
    method SetInodeLru(n: Node<Inode>)
      requires Valid() && n !in Repr && 0 <= n.key < numInodes && n.key !in icache.Map() && n.val == Inodes[n.key]
      modifies Repr, n`prev, n`next
      ensures Valid() && n in Repr && Repr >= old(Repr) && fresh(Repr - old(Repr) - {n}) && SameState()
      ensures store.Repr >= old(store.Repr) && fresh(store.Repr - old(store.Repr))
      ensures store.disk.Failures >= old(store.disk.Failures)
      ensures fresh(icache.Repr - old(icache.Repr) - {n}) && old(store.cache.History) <= store.cache.History
      ensures Has(n.key, n)
      ensures forall k :: k in icache.Map() && k != n.key ==>
          k in old(icache.Map()) && icache.Map()[k] == old(icache.Map())[k]
      ensures Keys(icache.q.Items) == Access(old(Keys(icache.q.Items)), INODE_CACHESIZE, n.key, true)
      ensures icache.History == Noted(old(icache.History), n.key)
      ensures store.cache.History == Evicting(old(store.cache.History), old(icache.q.Items))
    {
      hide BlockStore.Valid, Cache.Valid, InodesAgree, DataAgree, Keys, Access, Noted, Server.UsedBlocks,
        Server.UsedInodes;
      icache.KeysListed();
      EnterOrder(icache.q.Items, n, INODE_CACHESIZE, true);
      EvictInode();
      AdmitInode(n);
    }

    method AdmitInode(n: Node<Inode>)
      requires Valid() && n !in Repr && 0 <= n.key < numInodes && n.key !in icache.Map() && n.val == Inodes[n.key]
      requires |icache.q.Items| < INODE_CACHESIZE
      modifies this`Repr, icache.Repr, n`prev, n`next
      ensures Valid() && n in Repr && Repr >= old(Repr) && fresh(Repr - old(Repr) - {n}) && SameState()
      ensures store.Repr == old(store.Repr) && fresh(icache.Repr - old(icache.Repr) - {n})
      ensures store.cache.History == old(store.cache.History)
      ensures icache.Map() == old(icache.Map())[n.key := n] && icache.q.Items == old(icache.q.Items) + [n]
      ensures icache.History == Noted(old(icache.History), n.key)
    {
      hide BlockStore.Valid, Cache.Valid, InodesAgree, DataAgree, Noted, Server.UsedBlocks, Server.UsedInodes;
      EnterAgrees(icache.Map(), store.Blocks, Inodes, Pending, n);
      icache.Enter(n);
      Repr := Repr + icache.Repr;
    }

    // get_inode_lru
    method GetInodeLru(k: nat) returns (n: Node<Inode>)
      requires Valid() && k < numInodes
      modifies icache`History, icache.q, icache.q.Footprint()`prev, icache.q.Footprint()`next
      ensures Valid() && icache.Map() == old(icache.Map())
      ensures icache.History == if k in icache.Map() then Noted(old(icache.History), k) else old(icache.History)
      ensures k in icache.Map() ==> Has(k, n) && n.val == Inodes[k]
      ensures k in icache.Map() ==> Keys(icache.q.Items) == Touch(old(Keys(icache.q.Items)), k)
      ensures k !in icache.Map() ==> n.key == -1 && icache.q.Items == old(icache.q.Items)
    {
      hide BlockStore.Valid, Cache.Valid, InodesAgree, DataAgree, Keys, Touch, Without, Noted, Server.UsedBlocks,
        Server.UsedInodes;
      Sentinel();
      icache.KeysListed();
      if k in icache.Map() {
        Listed(k);
        icache.TouchKeys(k);
      }
      n := icache.Get(k);
    }

    lemma Sentinel()
      requires Valid()
      ensures icache.q.head.key == -1
    {
    }

    // get_use_inode: the cached copy of an inode, or null for a free inode that is not cached.
    method GetUseInode(k: nat) returns (n: Node?<Inode>)
      requires Valid() && k < numInodes
      modifies Repr
      ensures Valid() && Grown() && SameState()
      ensures n == null <==> k !in old(icache.Map()) && Inodes[k].kind == INODE_FREE
      ensures n == null ==> icache.Map() == old(icache.Map()) && icache.q.Items == old(icache.q.Items)
      ensures n != null ==> Has(k, n) && n.val == Inodes[k]
      ensures forall j :: j in icache.Map() && j != k ==>
          j in old(icache.Map()) && icache.Map()[j] == old(icache.Map())[j]
      ensures k in old(icache.Map()) ==> n == old(icache.Map())[k] && icache.Map() == old(icache.Map())
      ensures n != null ==> Keys(icache.q.Items) == Access(old(Keys(icache.q.Items)), INODE_CACHESIZE, k, true)
      ensures icache.History == if n != null then Noted(old(icache.History), k) else old(icache.History)
      ensures old(Settled()) ==> Settled() && (n == null <==> !BlockMap.Live(Inodes[k]))
      // the blocks accessed: none for a cached inode, else the one with its slot, then that of the one evicted
      ensures store.cache.History ==
          if k in old(icache.Map()) then old(store.cache.History)
          else
            var loaded := Noted(old(store.cache.History), InodeToBlock(k));
            if n != null then Evicting(loaded, old(icache.q.Items)) else loaded
    {
      hide BlockStore.Valid, Cache.Valid, InodesAgree, DataAgree, Keys, Touch, Without, Noted, Server.UsedBlocks,
        Server.UsedInodes;
      icache.KeysListed();
      n := GetInodeLru(k);
      if k in icache.Map() {
        Listed(k);
      }
      if n.key == -1 {
        assert icache.Map() == old(icache.Map()) && icache.q.Items == old(icache.q.Items) && Grown();
        n := Fetch(k);
      }
    }

    // The part of get_use_inode for an inode that is not cached.
    method Fetch(k: nat) returns (n: Node?<Inode>)
      requires Valid() && k < numInodes && k !in icache.Map()
      modifies Repr
      ensures Valid() && Grown() && SameState()
      ensures n == null <==> Inodes[k].kind == INODE_FREE
      ensures n == null ==> icache.Map() == old(icache.Map()) && icache.q.Items == old(icache.q.Items)
      ensures n != null ==> Has(k, n) && n.val == Inodes[k]
      ensures forall j :: j in icache.Map() && j != k ==>
          j in old(icache.Map()) && icache.Map()[j] == old(icache.Map())[j]
      ensures n != null ==> Keys(icache.q.Items) == Access(old(Keys(icache.q.Items)), INODE_CACHESIZE, k, true)
      ensures icache.History == if n != null then Noted(old(icache.History), k) else old(icache.History)
      ensures store.cache.History ==
          var loaded := Noted(old(store.cache.History), InodeToBlock(k));
          if n != null then Evicting(loaded, old(icache.q.Items)) else loaded
    {
      hide BlockStore.Valid, Cache.Valid, InodesAgree, DataAgree, Keys, Access, Noted, Server.UsedBlocks,
        Server.UsedInodes;
      var res := LoadInode(k);
      if res.val.kind == INODE_FREE {
        return null;
      }
      assert Grown();
      n := CacheInode(k, res);
    }

    // A new entry holding a copy of the inode's slot.
    method LoadInode(k: nat) returns (res: Node<Inode>)
      requires Valid() && k < numInodes && k !in icache.Map()
      modifies this`Repr, store.Repr
      ensures Valid() && Grown() && SameState() && icache.Map() == old(icache.Map())
      ensures icache.q.Items == old(icache.q.Items)
      ensures fresh(res) && res !in Repr && res.key == k && res.val == Inodes[k]
      ensures icache.History == old(icache.History)
      ensures store.cache.History == Noted(old(store.cache.History), InodeToBlock(k))
    {
      hide Keys, Access, Noted, BlockStore.Valid, Cache.Valid, InodesAgree, DataAgree, DecodeInode,
        Server.UsedBlocks, Server.UsedInodes;
      InTable(k);
      var tempBlock := GetBlock(InodeToBlock(k));
      var offset := InodeInBlockAddr(k);
      Slot(k);
      res := new Node<Inode>(k, DecodeInode(tempBlock.val[offset..offset + INODESIZE]));
    }

    // set_inode_lru followed by get_inode_lru.
    method CacheInode(k: nat, res: Node<Inode>) returns (n: Node<Inode>)
      requires Valid() && k < numInodes && k !in icache.Map() && res !in Repr && res.key == k && res.val == Inodes[k]
      modifies Repr, res`prev, res`next
      ensures Valid() && Repr >= old(Repr) && fresh(Repr - old(Repr) - {res}) && SameState()
      ensures store.Repr >= old(store.Repr) && fresh(store.Repr - old(store.Repr))
      ensures store.disk.Failures >= old(store.disk.Failures) && old(store.cache.History) <= store.cache.History
      ensures Has(k, n) && n.val == Inodes[k] && n == res
      ensures forall j :: j in icache.Map() && j != k ==>
          j in old(icache.Map()) && icache.Map()[j] == old(icache.Map())[j]
      ensures Keys(icache.q.Items) == Access(old(Keys(icache.q.Items)), INODE_CACHESIZE, k, true)
      ensures icache.History == Noted(old(icache.History), k)
      ensures store.cache.History == Evicting(old(store.cache.History), old(icache.q.Items))
    {
      hide BlockStore.Valid, Cache.Valid, InodesAgree, DataAgree, Keys, Touch, Without, Noted, Server.UsedBlocks,
        Server.UsedInodes;
      icache.KeysListed();
      SetInodeLru(res);
      FreshestStays(old(Keys(icache.q.Items)), INODE_CACHESIZE, k, true);
      NotedTwice(old(icache.History), k);
      n := GetInodeLru(k);
    }

    // get_new_inode: the least inode number not in use, marked used and cached; null if there is none.
    method GetNewInode() returns (n: Node?<Inode>)
      requires Valid() && forall k :: k in icache.Map() ==> k in UsedInodes()
      modifies Repr
      ensures Valid() && Grown() && Inodes == old(Inodes) && Data == old(Data) && Pending == old(Pending)
      ensures UsedBlocks() == old(UsedBlocks())
      ensures n == null <==> Bitmap.Free(old(UsedInodes()), numInodes) == {}
      ensures n == null ==> UsedInodes() == old(UsedInodes()) && icache.Map() == old(icache.Map())
      ensures n != null ==>
          && 0 <= n.key < numInodes && n.key !in old(UsedInodes()) && UsedInodes() == old(UsedInodes()) + {n.key}
          && (forall j: nat :: j < n.key ==> j in old(UsedInodes()))
          && Has(n.key, n) && n.val == Inodes[n.key]
      ensures n != null ==> Keys(icache.q.Items) == Access(old(Keys(icache.q.Items)), INODE_CACHESIZE, n.key, true)
      ensures icache.History == if n != null then Noted(old(icache.History), n.key) else old(icache.History)
      ensures forall j :: j in icache.Map() && (n == null || j != n.key) ==>
          j in old(icache.Map()) && icache.Map()[j] == old(icache.Map())[j]
      ensures forall j :: j in icache.Map() ==> j in UsedInodes()
    {
      hide BlockStore.Valid, Cache.Valid, InodesAgree, DataAgree, Keys, Access, Noted, Server.UsedBlocks,
        Server.UsedInodes;
      var k := FindFreeInode();
      if k == -1 {
        return null;
      }
      var res := LoadInode(k);
      assert Grown();
      MarkInodeUsed(k);
      n := CacheInode(k, res);
    }

    // An inode that is not cached is what its slot says.
    lemma Slot(k: nat)
      requires Valid() && k < numInodes && k !in icache.Map()
      ensures InodeToBlock(k) < |store.Blocks| && Inodes[k] == GetSlot(store.Blocks, k)
    {
    }

    // Assigning fields of a cached inode. An edit of an inode whose dirty flag is not set is pending.
    method Update(info: Node<Inode>, ghost k: nat, ino: Inode)
      requires Valid() && Has(k, info)
      modifies this`Inodes, this`Pending, info`val
      ensures Valid() && k < numInodes && Inodes == old(Inodes)[k := ino] && info.val == ino
      ensures Pending == if info.isDirty then old(Pending) else old(Pending) + {k}
      ensures icache.Map() == old(icache.Map()) && Has(k, info)
      ensures UsedBlocks() == old(UsedBlocks()) && UsedInodes() == old(UsedInodes())
    {
      hide BlockStore.Valid, Cache.Valid, DataAgree, GetSlot, Server.UsedBlocks, Server.UsedInodes;
      Listed(k);
      info.val := ino;
      Inodes := Inodes[k := ino];
      Pending := if info.isDirty then Pending else Pending + {k};
    }

    method MarkDirty(info: Node<Inode>, ghost k: nat)
      requires Valid() && Has(k, info)
      modifies this`Pending, info`isDirty
      ensures Valid() && info.isDirty && Pending == old(Pending) - {k}
    {
      hide BlockStore.Valid, Cache.Valid, DataAgree, GetSlot, Server.UsedBlocks, Server.UsedInodes;
      Listed(k);
      info.isDirty := true;
      Pending := Pending - {k};
    }

    // Overwriting the contents of a cached data block and marking it dirty.
    method WriteData(n: Node<Block>, ghost b: nat, data: Block)
      requires Valid() && Holds(b, n) && Table() < b
      modifies store`Blocks, this`Data, n`val, n`isDirty
      ensures Valid() && Holds(b, n) && n.val == data && Data == old(Data)[b := data]
      ensures SameCache() && UsedBlocks() == old(UsedBlocks()) && UsedInodes() == old(UsedInodes())
    {
      hide BlockStore.Valid, Cache.Valid, InodesAgree, Server.UsedBlocks, Server.UsedInodes;
      DataWriteAgrees(icache.Map(), store.Blocks, Inodes, Pending, b, data);
      store.Write(n, data);
      Data := Data[b := data];
    }

    // find_free on the inode bitmap
    method FindFreeInode() returns (r: int)
      requires Valid()
      ensures r == -1 <==> Bitmap.Free(UsedInodes(), numInodes) == {}
      ensures r != -1 ==> 0 <= r < numInodes && r !in UsedInodes() && forall i: nat :: i < r ==> i in UsedInodes()
    {
      hide BlockStore.Valid, Cache.Valid, InodesAgree, DataAgree, Bitmap.Members;
      r := Bitmap.FindFree(inodeBitmap, numInodes);
      assert r != -1 ==> r in Bitmap.Free(UsedInodes(), numInodes);
    }

    // find_free on the block bitmap
    method FindFreeBlock() returns (r: int)
      requires Valid()
      ensures r == -1 <==> Bitmap.Free(UsedBlocks(), numBlocks) == {}
      ensures r != -1 ==> 0 <= r < numBlocks && r !in UsedBlocks() && forall i: nat :: i < r ==> i in UsedBlocks()
    {
      hide BlockStore.Valid, Cache.Valid, InodesAgree, DataAgree, Bitmap.Members;
      r := Bitmap.FindFree(blockBitmap, numBlocks);
      assert r != -1 ==> r in Bitmap.Free(UsedBlocks(), numBlocks);
    }

    // is_free on the block bitmap
    method IsFreeBlock(b: nat) returns (r: int)
      requires Valid()
      ensures r == 1 <==> b < numBlocks && b !in UsedBlocks()
    {
      hide BlockStore.Valid, Cache.Valid, InodesAgree, DataAgree, Bitmap.Members;
      r := Bitmap.IsFree(blockBitmap[..], b, numBlocks);
    }

    method MarkUsed(b: nat)
      requires Valid()
      modifies blockBitmap
      ensures Valid() && UsedBlocks() == old(UsedBlocks()) + if b < numBlocks then {b} else {}
      ensures UsedInodes() == old(UsedInodes())
    {
      hide BlockStore.Valid, Cache.Valid, InodesAgree, DataAgree, Bitmap.Members;
      Bitmap.SetUsed(blockBitmap, b, numBlocks);
    }

    method MarkFree(b: nat)
      requires Valid()
      modifies blockBitmap
      ensures Valid() && UsedBlocks() == old(UsedBlocks()) - {b}
      ensures UsedInodes() == old(UsedInodes())
    {
      hide BlockStore.Valid, Cache.Valid, InodesAgree, DataAgree, Bitmap.Members;
      Bitmap.SetFree(blockBitmap, b, numBlocks);
    }

    method MarkInodeUsed(k: nat)
      requires Valid()
      modifies inodeBitmap
      ensures Valid() && UsedInodes() == old(UsedInodes()) + if k < numInodes then {k} else {}
      ensures UsedBlocks() == old(UsedBlocks())
    {
      hide BlockStore.Valid, Cache.Valid, InodesAgree, DataAgree, Bitmap.Members;
      Bitmap.SetUsed(inodeBitmap, k, numInodes);
    }

    method MarkInodeFree(k: nat)
      requires Valid()
      modifies inodeBitmap
      ensures Valid() && UsedInodes() == old(UsedInodes()) - {k}
      ensures UsedBlocks() == old(UsedBlocks())
    {
      hide BlockStore.Valid, Cache.Valid, InodesAgree, DataAgree, Bitmap.Members;
      Bitmap.SetFree(inodeBitmap, k, numInodes);
    }

    // get_block, then overwriting the whole block and marking it dirty.
    method FillBlock(b: nat, data: Block)
      requires Valid() && Table() < b < |Data|
      modifies this`Repr, this`Data, store.Repr
      ensures Valid() && Grown() && Data == old(Data)[b := data]
      ensures UsedBlocks() == old(UsedBlocks()) && UsedInodes() == old(UsedInodes())
      ensures SameCache()
    {
      hide BlockStore.Valid, Cache.Valid, InodesAgree, DataAgree, Server.UsedBlocks, Server.UsedInodes;
      var n := GetBlock(b);
      assert Grown() && SameCache();
      WriteData(n, b, data);
    }

    // Clearing the flag of an inode whose slot is up to date.
    method CleanInode(info: Node<Inode>, ghost k: nat)
      requires Valid() && Has(k, info) && InodeToBlock(k) < |store.Blocks| && GetSlot(store.Blocks, k) == info.val
      modifies info`isDirty
      ensures Valid() && !info.isDirty
    {
      hide BlockStore.Valid, Cache.Valid, DataAgree, GetSlot, Server.UsedBlocks, Server.UsedInodes;
      Listed(k);
      info.isDirty := false;
    }

    method WriteOut(info: Node<Inode>, ghost k: nat)
      requires Valid() && Has(k, info)
      modifies this`Repr, store.Repr, info`isDirty
      ensures Valid() && Grown() && SameState() && !info.isDirty
      ensures icache.Map() == old(icache.Map()) && icache.q.Items == old(icache.q.Items)
    {
      hide BlockStore.Valid, Cache.Valid, InodesAgree, DataAgree, GetSlot, Server.UsedBlocks, Server.UsedInodes;
      Listed(k);
      WriteBack(info, k);
      CleanInode(info, k);
    }

    // The first loop of sync(): every dirty inode into the cached inode table.
    method SyncInodes()
      requires Valid()
      modifies Repr
      ensures Valid() && Grown() && SameState()
      ensures icache.Map() == old(icache.Map()) && icache.q.Items == old(icache.q.Items)
      ensures forall k :: k in icache.Map() ==> !icache.Map()[k].isDirty
    {
      hide BlockStore.Valid, Cache.Valid, InodesAgree, DataAgree, GetSlot, Server.UsedBlocks, Server.UsedInodes;
      var cur := icache.q.head;
      ghost var i := -1;
      Follow(i);
      while cur != icache.q.tail
        invariant -1 <= i <= |icache.q.Items| && Valid() && Grown() && SameState()
        invariant icache.Map() == old(icache.Map()) && icache.q.Items == old(icache.q.Items)
        invariant cur == icache.q.At(i) && (cur == icache.q.tail <==> i == |icache.q.Items|)
        invariant forall j :: 0 <= j < i ==> !icache.q.Items[j].isDirty
        decreases |icache.q.Items| - i
      {
        cur := SyncOne(cur, i);
        i := i + 1;
      }
      AllClean();
    }

    // One round: the entry at i written out if dirty, and the one after it.
    method SyncOne(cur: Node<Inode>, ghost i: int) returns (next: Node<Inode>)
      requires Valid() && -1 <= i < |icache.q.Items| && cur == icache.q.At(i)
      modifies this`Repr, store.Repr, cur`isDirty
      ensures Valid() && Grown() && SameState() && !cur.isDirty
      ensures icache.Map() == old(icache.Map()) && icache.q.Items == old(icache.q.Items)
      ensures next == icache.q.At(i + 1) && (next == icache.q.tail <==> i + 1 == |icache.q.Items|)
      ensures i + 1 < |icache.q.Items| ==> next in icache.q.Pos
    {
      hide BlockStore.Valid, Cache.Valid, InodesAgree, DataAgree, GetSlot, Server.UsedBlocks, Server.UsedInodes;
      Follow(i);
      if cur.isDirty {
        WriteOut(cur, cur.key);
      }
      Follow(i);
      Follow(i + 1);
      next := cur.next;
    }

    lemma Follow(i: int)
      requires Valid() && -1 <= i <= |icache.q.Items|
      ensures var q := icache.q;
        && q.At(i) in q.Footprint() && (q.At(i) == q.tail <==> i == |q.Items|)
        && (i < |q.Items| ==> q.At(i).next == q.At(i + 1))
        && (0 <= i < |q.Items| ==> 0 <= q.At(i).key && Has(q.At(i).key, q.At(i)))
        && (i == -1 ==> !q.At(i).isDirty)
        && (forall j :: 0 <= j < |q.Items| ==> q.Items[j] in q.Pos)
    {
      icache.q.Follow(i);
    }

    lemma AllClean()
      requires Valid() && forall j :: 0 <= j < |icache.q.Items| ==> !icache.q.Items[j].isDirty
      ensures forall k :: k in icache.Map() ==> !icache.Map()[k].isDirty
    {
    }

    // Everything logical is on the disk, and no cached entry is dirty.
    ghost predicate Durable()
      requires Valid()
      reads Repr, this
    {
      && (forall k :: k in icache.Map() ==> !icache.Map()[k].isDirty)
      && (forall b :: b in store.cache.Map() ==> !store.cache.Map()[b].isDirty)
      && store.disk.sectors == store.Blocks
      && (forall k :: 0 <= k < numInodes && k !in Pending ==>
            InodeToBlock(k) < |store.disk.sectors| && GetSlot(store.disk.sectors, k) == Inodes[k])
      && (forall b :: Table() < b < |Data| ==> b < |store.disk.sectors| && store.disk.sectors[b] == Data[b])
    }

    lemma AllOut()
      requires Valid() && store.disk.sectors == store.Blocks
      requires forall k :: k in icache.Map() ==> !icache.Map()[k].isDirty
      requires forall b :: b in store.cache.Map() ==> !store.cache.Map()[b].isDirty
      ensures Durable()
    {
    }

    // sync()
    method Sync() returns (r: int)
      requires Valid()
      modifies Repr
      ensures Valid() && Grown() && SameState()
      ensures icache.Map() == old(icache.Map()) && icache.q.Items == old(icache.q.Items)
      ensures forall k :: k in icache.Map() ==> !icache.Map()[k].isDirty
      ensures r == 0 ==> Durable()
      ensures r != 0 ==> r == -1 && store.disk.Failures > old(store.disk.Failures)
    {
      hide BlockStore.Valid, Cache.Valid, InodesAgree, DataAgree, GetSlot, Server.UsedBlocks, Server.UsedInodes;
      SyncInodes();
      r := store.Flush();
      if r == 0 {
        AllOut();
      }
    }

    // delete_inode_hashTable followed by remove_queue_inode. The entry is dropped without a write-back,
    // so its slot must already hold it.
    method Release(info: Node<Inode>, ghost k: nat)
      requires Valid() && Has(k, info) && !info.isDirty && k !in Pending
      modifies icache.Repr
      ensures Valid() && SameState() && icache.Map() == old(icache.Map()) - {k}
      ensures icache.q.Items == Without(old(icache.q.Items), info) && icache.History == old(icache.History)
      ensures store.cache.History == old(store.cache.History)
      ensures old(Durable()) ==> Durable()
    {
      hide BlockStore.Valid, Cache.Valid, InodesAgree, DataAgree, GetSlot, Without, Server.UsedBlocks,
        Server.UsedInodes;
      Listed(k);
      icache.OneFewer(info);
      InSlot(k);
      Apart();
      DropAgrees(icache.Map(), store.Blocks, Inodes, Pending, k);
      icache.Leave(info);
    }

    // The block cache lies outside the inode cache.
    lemma Apart()
      requires Valid()
      ensures store.cache.t in store.Repr && store.disk in store.Repr && store.cache.Map().Values <= store.Repr
      ensures icache.Map().Values <= icache.q.Pos.Keys && icache.q.Pos.Keys <= icache.q.Footprint()
      ensures forall n :: n in icache.q.Footprint() ==> n !in icache.t.Repr
    {
    }

    lemma InSlot(k: nat)
      requires Valid() && k in icache.Map() && !icache.Map()[k].isDirty && k !in Pending
      ensures InodeToBlock(k) < |store.Blocks| && GetSlot(store.Blocks, k) == icache.Map()[k].val
    {
    }

    lemma Oldest()
      requires Valid()
      ensures icache.q.len == |icache.q.Items|
      ensures icache.q.Items == [] ==> icache.q.head.next == icache.q.tail
      ensures icache.q.Items != [] ==>
          var n := icache.q.head.next;
          && n == icache.q.Items[0] && n != icache.q.tail && n in icache.q.Pos && 0 <= n.key < numInodes
          && Has(n.key, n) && Without(icache.q.Items, n) == icache.q.Items[1..]
    {
    }
  }

  lemma EnterAgrees(m: map<nat, Node<Inode>>, blocks: seq<Block>, inodes: seq<Inode>, pending: set<nat>, n: Node<Inode>)
    requires InodesAgree(m, blocks, inodes, pending) && 0 <= n.key < |inodes| && n.key !in m && n.val == inodes[n.key]
    ensures InodesAgree(m[n.key := n], blocks, inodes, pending)
  {
  }

  lemma DataWriteAgrees(m: map<nat, Node<Inode>>, blocks: seq<Block>, inodes: seq<Inode>, pending: set<nat>, b: nat,
                        data: Block)
    requires InodesAgree(m, blocks, inodes, pending) && BlocksForInodes(|inodes|) < b < |blocks|
    ensures InodesAgree(m, blocks[b := data], inodes, pending)
  {
    TableBound(|inodes|);
    assert forall k :: 0 <= k < |inodes| ==> GetSlot(blocks[b := data], k) == GetSlot(blocks, k);
  }

  lemma UncachedAgree(blocks: seq<Block>, numInodes: nat)
    requires BlocksForInodes(numInodes) < |blocks|
    ensures forall m: map<nat, Node<Inode>> :: m == map[] ==> InodesAgree(m, blocks, Slots(blocks, numInodes), {})
    ensures DataAgree(blocks, blocks, BlocksForInodes(numInodes))
  {
  }

  lemma DropAgrees(m: map<nat, Node<Inode>>, blocks: seq<Block>, inodes: seq<Inode>, pending: set<nat>, k: nat)
    requires InodesAgree(m, blocks, inodes, pending) && k in m && InodeToBlock(k) < |blocks|
    requires GetSlot(blocks, k) == m[k].val
    ensures InodesAgree(m - {k}, blocks, inodes, pending)
  {
  }

  lemma WriteBackAgrees(m: map<nat, Node<Inode>>, blocks: seq<Block>, inodes: seq<Inode>, data: seq<Block>,
                        pending: set<nat>, k: nat)
    requires InodesAgree(m, blocks, inodes, pending) && k in m && BlocksForInodes(|inodes|) < |blocks|
    requires DataAgree(data, blocks, BlocksForInodes(|inodes|))
    ensures InodeToBlock(k) < |blocks|
    ensures var b := InodeToBlock(k);
      var blocks' := blocks[b := PutSlot(blocks[b], k, m[k].val)];
      InodesAgree(m, blocks', inodes, pending) && GetSlot(blocks', k) == m[k].val
      && DataAgree(data, blocks', BlocksForInodes(|inodes|))
  {
    SlotIsolation(blocks, |inodes|, k, m[k].val);
  }
}
