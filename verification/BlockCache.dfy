// The block cache of lrucache.c and block.c over a disk of sectors.
module BlockCache {
  import opened Sequences
  import opened Layout
  import opened HashTable
  import opened RecencyQueue
  import opened LruCache
  import opened LruOrder

  const BLOCK_CACHESIZE := 32

  class Disk {
    var sectors: seq<Block>
    ghost var Failures: nat              // write errors so far

    constructor (sectors: seq<Block>)
      ensures this.sectors == sectors && Failures == 0
    {
      this.sectors, Failures := sectors, 0;
    }

    method ReadSector(n: nat) returns (data: Block)
      requires n < |sectors|
      ensures data == sectors[n]
    {
      data := sectors[n];
    }

    // A failing write reports a nonzero code and may leave anything in the sector.
    method WriteSector(n: nat, data: Block) returns (sig: int)
      requires n < |sectors|
      modifies this
      ensures |sectors| == |old(sectors)| && sectors == old(sectors)[n := sectors[n]]
      ensures sig == 0 ==> sectors[n] == data && Failures == old(Failures)
      ensures sig != 0 ==> Failures == old(Failures) + 1
    {
      sig := *;
      if sig == 0 {
        sectors := sectors[n := data];
      } else {
        var torn: Block := *;
        sectors := sectors[n := torn];
        Failures := Failures + 1;
      }
    }
  }

  // Every logical block is the cached copy if there is one and the sector otherwise;
  // a clean copy equals its sector.
  ghost predicate Agrees(m: map<nat, Node<Block>>, sectors: seq<Block>, blocks: seq<Block>)
    reads m.Values`val, m.Values`isDirty
  {
    && |sectors| == |blocks|
    && (forall b :: b in m ==> b < |blocks| && blocks[b] == m[b].val && (m[b].isDirty || sectors[b] == m[b].val))
    && (forall b :: 0 <= b < |blocks| && b !in m ==> blocks[b] == sectors[b])
  }

  class BlockStore {
    const disk: Disk
    const cache: Cache<Block>
    ghost var Blocks: seq<Block>         // the logical blocks
    ghost var Repr: set<object>

    ghost predicate Valid()
      reads this, Repr
      ensures Valid() ==> this in Repr && disk in Repr && cache in Repr
    {
      && this in Repr && disk in Repr && cache in Repr && cache.Repr <= Repr
      && this !in cache.Repr && disk !in cache.Repr
      && cache.q in cache.Repr && cache.t in cache.Repr
      && cache.t.Repr <= cache.Repr && cache.q.Footprint() <= cache.Repr
      && cache.Valid()
      && Agrees(cache.Map(), disk.sectors, Blocks)
      && |cache.q.Items| <= BLOCK_CACHESIZE + disk.Failures
    }

    constructor (disk: Disk)
      ensures Valid() && fresh(Repr - {disk}) && this.disk == disk
      ensures Blocks == disk.sectors && cache.Map() == map[] && cache.q.Items == [] && cache.History == []
    {
      this.disk := disk;
      cache := new Cache<Block>();
      new;
      Blocks := disk.sectors;
      Repr := {this, disk, cache} + cache.Repr;
    }

    // evict_block: a full cache gives up its oldest block, writing it back first if dirty.
    method EvictBlock()
      requires Valid()
      modifies Repr
      ensures Valid() && Repr == old(Repr) && Blocks == old(Blocks) && cache.History == old(cache.History)
      ensures |cache.q.Items| < BLOCK_CACHESIZE + disk.Failures
      ensures old(disk.Failures) <= disk.Failures
      ensures var items, full := old(cache.q.Items), |old(cache.q.Items)| >= BLOCK_CACHESIZE;
        && (full && disk.Failures == old(disk.Failures) ==>
              cache.q.Items == items[1..] && cache.Map() == old(cache.Map()) - {items[0].key})
        && (!full || disk.Failures != old(disk.Failures) ==>
              cache.q.Items == items && cache.Map() == old(cache.Map()))
    {
      hide Queue.Valid, Table.Valid, InStep, InOrder, Agrees;
      Oldest();
      if cache.q.len >= BLOCK_CACHESIZE {
        var victim := cache.q.head.next;
        if victim == cache.q.tail {
          return;
        }
        ghost var m, before := cache.Map(), disk.sectors;
        if victim.isDirty {
          var sig := disk.WriteSector(victim.key, victim.val);
          DirtyWrite(m, before, Blocks, victim.key, disk.sectors);
          if sig != 0 {
            return;
          }
        }
        CleanDrop(m, disk.sectors, Blocks, victim.key);
        cache.Leave(victim);
      }
    }

    lemma Oldest()
      requires Valid()
      ensures cache.q.len == |cache.q.Items| && cache.Map().Values <= cache.q.Pos.Keys
      ensures cache.q.Items == [] ==> cache.q.head.next == cache.q.tail
      ensures cache.q.Items != [] ==>
          var n := cache.q.head.next;
          && n == cache.q.Items[0] && n != cache.q.tail && n in cache.q.Pos && n.key >= 0
          && n.key in cache.Map() && cache.Map()[n.key] == n && n.key < |disk.sectors|
          && Without(cache.q.Items, n) == cache.q.Items[1..]
          && (n.isDirty || disk.sectors[n.key] == n.val)
    {
    }

    lemma Separate()
      requires Valid()
      ensures forall n :: n in cache.q.Footprint() ==> n !in cache.t.Repr
      ensures cache.Map().Values <= cache.q.Pos.Keys
    {
    }

    // set_block_lru for a block that is not cached. Callers reach it only after a miss.
    method SetBlockLru(n: Node<Block>)
      requires Valid() && n !in Repr && 0 <= n.key < |Blocks| && n.key !in cache.Map()
      requires n.val == Blocks[n.key]
      modifies Repr, n`prev, n`next
      ensures Valid() && n in Repr && Repr >= old(Repr) && fresh(Repr - old(Repr) - {n}) && Blocks == old(Blocks)
      ensures old(disk.Failures) <= disk.Failures
      ensures n.key in cache.Map() && cache.Map()[n.key] == n && cache.History == Noted(old(cache.History), n.key)
      ensures forall k :: k in cache.Map() && k != n.key ==>
          k in old(cache.Map()) && cache.Map()[k] == old(cache.Map())[k]
      ensures Keys(cache.q.Items) ==
          Access(old(Keys(cache.q.Items)), BLOCK_CACHESIZE, n.key, disk.Failures == old(disk.Failures))
    {
      hide Cache.Valid, Agrees, Keys, Access, Noted;
      ghost var before := cache.q.Items;
      cache.KeysListed();
      EvictBlock();
      cache.KeysListed();
      EnterOrder(before, n, BLOCK_CACHESIZE, disk.Failures == old(disk.Failures));
      Admit(n);
    }

    method Admit(n: Node<Block>)
      requires Valid() && n !in Repr && 0 <= n.key < |Blocks| && n.key !in cache.Map() && n.val == Blocks[n.key]
      requires |cache.q.Items| < BLOCK_CACHESIZE + disk.Failures
      modifies Repr - {disk}, n`prev, n`next
      ensures Valid() && n in Repr && Repr >= old(Repr) && fresh(Repr - old(Repr) - {n}) && Blocks == old(Blocks)
      ensures cache.Map() == old(cache.Map())[n.key := n] && cache.q.Items == old(cache.q.Items) + [n]
      ensures cache.History == Noted(old(cache.History), n.key)
    {
      hide Cache.Valid, Agrees, Noted;
      Separate();
      CleanEnter(cache.Map(), disk.sectors, Blocks, n);
      cache.Enter(n);
      Repr := Repr + cache.Repr;
    }

    // get_block: the cached copy of a block, read from disk if need be.
    method GetBlock(b: nat) returns (n: Node<Block>)
      requires Valid() && b < |Blocks|
      modifies Repr
      ensures Valid() && Repr >= old(Repr) && fresh(Repr - old(Repr)) && Blocks == old(Blocks)
      ensures old(disk.Failures) <= disk.Failures
      ensures b in cache.Map() && cache.Map()[b] == n && n.key == b && n.val == Blocks[b] && n in Repr
      ensures forall k :: k in cache.Map() && k != b ==> k in old(cache.Map()) && cache.Map()[k] == old(cache.Map())[k]
      ensures b in old(cache.Map()) ==> n == old(cache.Map())[b]
      ensures Keys(cache.q.Items) ==
          Access(old(Keys(cache.q.Items)), BLOCK_CACHESIZE, b, disk.Failures == old(disk.Failures))
      ensures cache.History == Noted(old(cache.History), b)
    {
      hide Cache.Valid, Agrees, Keys, Touch, Without, Noted;
      cache.KeysListed();
      Sentinel();
      n := GetLru(b);
      if n.key == -1 {
        var data := disk.ReadSector(b);
        var res := new Node<Block>(b, data);
        SetBlockLru(res);
        cache.KeysListed();
        FreshestStays(old(Keys(cache.q.Items)), BLOCK_CACHESIZE, b, disk.Failures == old(disk.Failures));
        NotedTwice(old(cache.History), b);
        n := GetLru(b);
      }
    }

    method GetLru(b: nat) returns (n: Node<Block>)
      requires Valid() && b < |Blocks|
      modifies Repr
      ensures Valid() && Repr == old(Repr) && Blocks == old(Blocks) && cache.Map() == old(cache.Map())
      ensures disk.sectors == old(disk.sectors) && disk.Failures == old(disk.Failures)
      ensures b in cache.Map() ==> n == cache.Map()[b] && n.key == b && n.val == Blocks[b] && n in Repr
      ensures b in cache.Map() ==> Keys(cache.q.Items) == Touch(old(Keys(cache.q.Items)), b)
      ensures b !in cache.Map() ==> n.key == -1 && cache.q.Items == old(cache.q.Items)
      ensures cache.History == if b in cache.Map() then Noted(old(cache.History), b) else old(cache.History)
    {
      hide Queue.Valid, Table.Valid, InStep, InOrder, Agrees, Keys, Touch, Without, Noted;
      Sentinel();
      cache.KeysListed();
      if b in cache.Map() {
        cache.TouchKeys(b);
      }
      n := cache.Get(b);
    }

    // Overwriting the contents of a cached block and marking it dirty.
    method Write(n: Node<Block>, data: Block)
      requires Valid() && 0 <= n.key && n.key in cache.Map() && cache.Map()[n.key] == n
      modifies this`Blocks, n`val, n`isDirty
      ensures Valid() && n.key < |Blocks| && Blocks == old(Blocks)[n.key := data] && n.isDirty && n.val == data
    {
      hide Cache.Valid;
      Resident(n);
      n.val := data;
      n.isDirty := true;
      Blocks := Blocks[n.key := data];
    }

    lemma Resident(n: Node<Block>)
      requires Valid() && 0 <= n.key && n.key in cache.Map() && cache.Map()[n.key] == n
      ensures n != cache.q.head && n != cache.q.tail && n in cache.q.Pos && n !in cache.t.Repr && n.key < |Blocks|
      ensures forall k :: k in cache.Map() && k != n.key ==> cache.Map()[k] != n
    {
    }

    lemma Sentinel()
      requires Valid()
      ensures cache.q.head.key == -1
      ensures forall k :: k in cache.Map() ==>
          cache.Map()[k].key == k && k < |Blocks| && cache.Map()[k].val == Blocks[k]
      ensures forall k :: k in cache.Map() ==> cache.Map()[k] in Repr
      ensures forall b :: 0 <= b < |Blocks| && b !in cache.Map() ==> disk.sectors[b] == Blocks[b]
      ensures |disk.sectors| == |Blocks|
    {
    }

    // The body of sync()'s second loop: write one dirty block out.
    method FlushOne(cur: Node<Block>) returns (r: int)
      requires Valid() && cur in cache.q.Footprint()
      modifies disk, cur`isDirty
      ensures Valid()
      ensures r == 0 ==> !cur.isDirty && disk.Failures == old(disk.Failures)
      ensures r != 0 ==> r == -1 && disk.Failures == old(disk.Failures) + 1
    {
      hide Cache.Valid, Agrees;
      Listed(cur);
      if cur.isDirty {
        ghost var before := disk.sectors;
        var sig := disk.WriteSector(cur.key, cur.val);
        DirtyWrite(cache.Map(), before, Blocks, cur.key, disk.sectors);
        if sig != 0 {
          return -1;
        }
        MarkClean(cur);
      }
      return 0;
    }

    method MarkClean(cur: Node<Block>)
      requires Valid() && cur in cache.q.Pos && 0 <= cur.key < |disk.sectors| && disk.sectors[cur.key] == cur.val
      modifies cur`isDirty
      ensures Valid() && !cur.isDirty
    {
      hide Cache.Valid;
      Listed(cur);
      cur.isDirty := false;
    }

    lemma Listed(n: Node<Block>)
      requires Valid() && n in cache.q.Footprint()
      ensures n !in cache.t.Repr
      ensures n in cache.q.Pos ==> n != cache.q.head && n != cache.q.tail
      ensures n in cache.q.Pos ==> 0 <= n.key < |disk.sectors| && n.key in cache.Map() && cache.Map()[n.key] == n
      ensures n !in cache.q.Pos ==> !n.isDirty
      ensures forall k :: k in cache.Map() ==> cache.Map()[k].key == k
    {
    }

    // The second loop of sync(): walk the list from its head sentinel.
    method Flush() returns (r: int)
      requires Valid()
      modifies Repr
      ensures Valid() && Repr == old(Repr) && Blocks == old(Blocks)
      ensures cache.Map() == old(cache.Map()) && cache.q.Items == old(cache.q.Items)
      ensures cache.History == old(cache.History)
      ensures r == 0 ==> disk.sectors == Blocks && disk.Failures == old(disk.Failures)
      ensures r == 0 ==> forall k :: k in cache.Map() ==> !cache.Map()[k].isDirty
      ensures r != 0 ==> r == -1 && disk.Failures == old(disk.Failures) + 1
    {
      hide Cache.Valid, Agrees;
      var cur := cache.q.head;
      ghost var i := -1;
      Follow(i);
      while cur != cache.q.tail
        invariant -1 <= i <= |cache.q.Items| && Valid() && disk.Failures == old(disk.Failures)
        invariant cur == cache.q.At(i) && (cur == cache.q.tail <==> i == |cache.q.Items|)
        invariant forall j :: 0 <= j < i ==> !cache.q.Items[j].isDirty
        invariant unchanged(this) && unchanged(cache) && unchanged(cache.q) && unchanged(cache.t)
        decreases |cache.q.Items| - i
      {
        Follow(i);
        var sig := FlushOne(cur);
        if sig != 0 {
          return -1;
        }
        Follow(i + 1);
        cur := cur.next;
        i := i + 1;
      }
      AllClean();
      return 0;
    }

    lemma Follow(i: int)
      requires Valid() && -1 <= i <= |cache.q.Items|
      ensures var q := cache.q;
        && q.At(i) in q.Footprint() && (q.At(i) == q.tail <==> i == |q.Items|)
        && (i < |q.Items| ==> q.At(i).next == q.At(i + 1))
    {
      cache.q.Follow(i);
    }

    lemma AllClean()
      requires Valid() && forall j :: 0 <= j < |cache.q.Items| ==> !cache.q.Items[j].isDirty
      ensures disk.sectors == Blocks && forall k :: k in cache.Map() ==> !cache.Map()[k].isDirty
    {
    }
  }

  lemma CleanEnter(m: map<nat, Node<Block>>, sectors: seq<Block>, blocks: seq<Block>, n: Node<Block>)
    requires Agrees(m, sectors, blocks) && 0 <= n.key < |blocks| && n.key !in m && n.val == blocks[n.key]
    ensures Agrees(m[n.key := n], sectors, blocks)
  {
  }

  // A dirty block's sector is free to change.
  lemma DirtyWrite(m: map<nat, Node<Block>>, sectors: seq<Block>, blocks: seq<Block>, b: nat, sectors': seq<Block>)
    requires Agrees(m, sectors, blocks) && b in m && m[b].isDirty
    requires b < |sectors'| == |sectors| && sectors' == sectors[b := sectors'[b]]
    ensures Agrees(m, sectors', blocks)
  {
  }

  // A block whose sector is up to date may leave.
  lemma CleanDrop(m: map<nat, Node<Block>>, sectors: seq<Block>, blocks: seq<Block>, b: nat)
    requires Agrees(m, sectors, blocks) && b in m && sectors[b] == m[b].val
    ensures Agrees(m - {b}, sectors, blocks)
  {
  }
}
