// The chained hash tables of block.c: 256 buckets of singly linked wraps, new keys in front.
module HashTable {
  const HASH_TABLE_SIZE := 256

  function HashKey(key: nat): (h: nat)
    ensures h < HASH_TABLE_SIZE
  {
    key % HASH_TABLE_SIZE
  }

  datatype Option<+T> = None | Some(value: T)

  function Lookup<T>(m: map<nat, T>, key: nat): Option<T> {
    if key in m then Some(m[key]) else None
  }

  lemma LookupSet<T>(m: map<nat, T>, key: nat, value: T)
    ensures forall k {:trigger Lookup(m[key := value], k)} ::
        Lookup(m[key := value], k) == if k == key then Some(value) else Lookup(m, k)
  {
    forall k
      ensures Lookup(m[key := value], k) == if k == key then Some(value) else Lookup(m, k)
    {
    }
  }

  lemma LookupDrop<T>(m: map<nat, T>, key: nat)
    ensures forall k {:trigger Lookup(m - {key}, k)} :: Lookup(m - {key}, k) == if k == key then None else Lookup(m, k)
  {
    forall k
      ensures Lookup(m - {key}, k) == if k == key then None else Lookup(m, k)
    {
    }
  }

  class Wrap<T> {
    const key: nat
    var value: T
    var next: Wrap?<T>

    constructor (key: nat, value: T, next: Wrap?<T>)
      ensures this.key == key && this.value == value && this.next == next
    {
      this.key, this.value, this.next := key, value, next;
    }
  }

  // One slot of a bucket array: the pointer to its first wrap.
  class Bucket<T> {
    const index: nat
    var first: Wrap?<T>
    ghost var Chain: seq<Wrap<T>>        // the wraps in link order
    ghost var Rank: map<nat, nat>        // where each key stands in Chain
    ghost var Map: map<nat, T>
    ghost var Wraps: set<Wrap<T>>

    ghost predicate Valid()
      reads this, Wraps
    {
      && Ranked(Chain, Rank)
      && Within(Chain, Wraps)
      && (forall w :: w in Wraps ==> HashKey(w.key) == index)
      && Linked(first, Chain)
      && Map.Keys == Rank.Keys
      && Holds(Chain, Map)
    }

    constructor (index: nat)
      ensures Valid() && Map == map[] && Wraps == {} && this.index == index
    {
      this.index, first, Chain, Rank, Map, Wraps := index, null, [], map[], map[], {};
    }

    method Search(key: nat) returns (r: Option<T>)
      requires Valid()
      ensures r == if key in Map then Some(Map[key]) else None
    {
      var current := first;
      ghost var j := 0;
      while current != null
        invariant 0 <= j <= |Chain| && current == if j == |Chain| then null else Chain[j]
        invariant key in Rank ==> j <= Rank[key]
        decreases |Chain| - j
      {
        if current.key == key {
          return Some(current.value);
        }
        current := current.next;
        j := j + 1;
      }
      return None;
    }

    method Insert(key: nat, value: T)
      requires Valid() && HashKey(key) == index
      modifies this, Wraps
      ensures Valid() && Map == old(Map)[key := value] && fresh(Wraps - old(Wraps))
    {
      var current := first;
      ghost var j := 0;
      while current != null
        invariant 0 <= j <= |Chain| && current == if j == |Chain| then null else Chain[j]
        invariant key in Rank ==> j <= Rank[key]
        decreases |Chain| - j
      {
        if current.key == key {
          current.value := value;
          Map := Map[key := value];
          return;
        }
        current := current.next;
        j := j + 1;
      }
      Push(key, value);
    }

    method Push(key: nat, value: T)
      requires Valid() && HashKey(key) == index && key !in Map
      modifies this
      ensures Valid() && Map == old(Map)[key := value] && fresh(Wraps - old(Wraps))
    {
      hide Within, Ranked, Linked, Holds, PushRank;
      var wrap := new Wrap(key, value, first);
      RankedPush(Chain, Rank, wrap);
      LinkedPush(Chain, wrap);
      HoldsPush(Chain, Map, wrap);
      first := wrap;
      Chain, Rank, Wraps, Map := [wrap] + Chain, PushRank(Rank, key), Wraps + {wrap}, Map[key := value];
    }

    // An absent key is left alone.
    method Delete(key: nat)
      requires Valid()
      modifies this, Wraps
      ensures Valid() && Map == old(Map) - {key} && Wraps == old(Wraps)
    {
      var current := first;
      var prev: Wrap?<T> := null;
      ghost var j := 0;
      while current != null
        invariant 0 <= j <= |Chain| && current == if j == |Chain| then null else Chain[j]
        invariant prev == if j == 0 then null else Chain[j - 1]
        invariant key in Rank ==> j <= Rank[key]
        decreases |Chain| - j
      {
        if current.key == key {
          UnlinkAt(prev, current, j);
          return;
        }
        prev := current;
        current := current.next;
        j := j + 1;
      }
    }

    method UnlinkAt(prev: Wrap?<T>, current: Wrap<T>, ghost j: nat)
      requires Valid() && j < |Chain| && current == Chain[j]
      requires prev == if j == 0 then null else Chain[j - 1]
      modifies this, Wraps`next
      ensures Valid() && Map == old(Map) - {current.key} && Wraps == old(Wraps)
    {
      hide Within, Linked, Ranked, Holds, DropRank;
      RankedDrop(Chain, Rank, j);
      HoldsDrop(Chain, Rank, Map, j);
      Bypass(prev, current, j);
      Chain, Rank, Map := Cut(Chain, j), DropRank(Rank, current.key), Map - {current.key};
    }

    // Redirect whatever pointed at current to its successor.
    method Bypass(prev: Wrap?<T>, current: Wrap<T>, ghost j: nat)
      requires Linked(first, Chain) && Ranked(Chain, Rank) && Within(Chain, Wraps) && j < |Chain| && current == Chain[j]
      requires prev == if j == 0 then null else Chain[j - 1]
      modifies this`first, Wraps`next
      ensures Linked(first, Cut(Chain, j))
    {
      assert current.next == if j + 1 == |Chain| then null else Chain[j + 1];
      if prev == null {
        first := current.next;
      } else {
        prev.next := current.next;
      }
    }
  }

  ghost predicate Linked<T>(first: Wrap?<T>, chain: seq<Wrap<T>>)
    reads chain`next
  {
    && (first == if chain == [] then null else chain[0])
    && (forall j {:trigger chain[j].next} :: 0 <= j < |chain| ==>
          chain[j].next == if j == |chain| - 1 then null else chain[j + 1])
  }

  ghost predicate Within<T>(chain: seq<Wrap<T>>, wraps: set<Wrap<T>>) {
    forall j :: 0 <= j < |chain| ==> chain[j] in wraps
  }

  ghost function Cut<T>(chain: seq<T>, j: nat): seq<T>
    requires j < |chain|
  {
    chain[..j] + chain[j + 1..]
  }

  ghost predicate Holds<T>(chain: seq<Wrap<T>>, m: map<nat, T>)
    reads chain`value
  {
    forall j :: 0 <= j < |chain| ==> chain[j].key in m && m[chain[j].key] == chain[j].value
  }

  lemma LinkedPush<T>(chain: seq<Wrap<T>>, w: Wrap<T>)
    requires Linked(w.next, chain)
    ensures Linked(w, [w] + chain)
  {
  }

  lemma HoldsPush<T>(chain: seq<Wrap<T>>, m: map<nat, T>, w: Wrap<T>)
    requires Holds(chain, m) && w.key !in m
    ensures Holds([w] + chain, m[w.key := w.value])
  {
  }

  lemma HoldsDrop<T>(chain: seq<Wrap<T>>, rank: map<nat, nat>, m: map<nat, T>, j: nat)
    requires Holds(chain, m) && Ranked(chain, rank) && j < |chain|
    ensures Holds(Cut(chain, j), m - {chain[j].key})
  {
  }

  ghost predicate Ranked<T>(chain: seq<Wrap<T>>, rank: map<nat, nat>) {
    && (forall j :: 0 <= j < |chain| ==> chain[j].key in rank && rank[chain[j].key] == j)
    && (forall k :: k in rank ==> rank[k] < |chain| && chain[rank[k]].key == k)
  }

  ghost function PushRank(rank: map<nat, nat>, key: nat): map<nat, nat> {
    (map k | k in rank :: rank[k] + 1)[key := 0]
  }

  lemma RankedPush<T>(chain: seq<Wrap<T>>, rank: map<nat, nat>, w: Wrap<T>)
    requires Ranked(chain, rank) && w.key !in rank
    ensures Ranked([w] + chain, PushRank(rank, w.key))
    ensures forall wraps :: Within(chain, wraps) ==> Within([w] + chain, wraps + {w})
    ensures PushRank(rank, w.key).Keys == rank.Keys + {w.key}
  {
  }

  ghost function DropRank(rank: map<nat, nat>, key: nat): map<nat, nat>
    requires key in rank
  {
    map k | k in rank && k != key :: if rank[k] > rank[key] then rank[k] - 1 else rank[k]
  }

  lemma RankedDrop<T>(chain: seq<Wrap<T>>, rank: map<nat, nat>, j: nat)
    requires Ranked(chain, rank) && j < |chain|
    ensures chain[j].key in rank && Ranked(Cut(chain, j), DropRank(rank, chain[j].key))
    ensures forall wraps :: Within(chain, wraps) ==> Within(Cut(chain, j), wraps)
    ensures DropRank(rank, chain[j].key).Keys == rank.Keys - {chain[j].key}
  {
  }

  class Table<T> {
    const buckets: seq<Bucket<T>>
    ghost var Map: map<nat, T>           // what the table stands for
    ghost var Repr: set<object>

    ghost predicate Valid()
      reads this, Repr
    {
      && this in Repr
      && |buckets| == HASH_TABLE_SIZE
      && (forall b {:trigger buckets[b]} :: 0 <= b < |buckets| ==>
            buckets[b] in Repr && buckets[b].index == b && buckets[b].Wraps <= Repr && buckets[b].Valid())
      && (forall k {:trigger HashKey(k)} :: Lookup(Map, k) == Lookup(buckets[HashKey(k)].Map, k))
    }

    // Zero-initialised bucket arrays.
    constructor ()
      ensures Valid() && Map == map[] && fresh(Repr)
    {
      var slots: seq<Bucket<T>> := [];
      for b := 0 to HASH_TABLE_SIZE
        invariant |slots| == b
        invariant forall c :: 0 <= c < b ==>
          slots[c].index == c && slots[c].Valid() && slots[c].Map == map[] && slots[c].Wraps == {} && fresh(slots[c])
      {
        var slot := new Bucket<T>(b);
        slots := slots + [slot];
      }
      buckets := slots;
      Map := map[];
      Repr := {this} + (set s: Bucket<T> | s in slots);
    }

    // search_inode_hashTable, search_block_hashTable
    method Search(key: nat) returns (r: Option<T>)
      requires Valid()
      ensures r == if key in Map then Some(Map[key]) else None
    {
      r := buckets[HashKey(key)].Search(key);
    }

    // insert_inode_hashTable, insert_block_hashTable
    method Insert(key: nat, value: T)
      requires Valid()
      modifies Repr
      ensures Valid() && Map == old(Map)[key := value] && fresh(Repr - old(Repr))
    {
      hide Bucket.Valid, HashKey, Lookup;
      var h := HashKey(key);
      var bucket := buckets[h];
      Separate(h);
      LookupSet(Map, key, value);
      LookupSet(bucket.Map, key, value);
      bucket.Insert(key, value);
      Map, Repr := Map[key := value], Repr + bucket.Wraps;
    }

    // delete_inode_hashTable, delete_block_hashTable
    method Delete(key: nat)
      requires Valid()
      modifies Repr
      ensures Valid() && Map == old(Map) - {key} && Repr == old(Repr)
    {
      hide Bucket.Valid, HashKey, Lookup;
      var h := HashKey(key);
      Separate(h);
      LookupDrop(Map, key);
      LookupDrop(buckets[h].Map, key);
      buckets[h].Delete(key);
      Map := Map - {key};
    }

    // No bucket shares a wrap with bucket h.
    lemma Separate(h: nat)
      requires Valid() && h < |buckets|
      ensures forall b :: 0 <= b < |buckets| && b != h ==>
          buckets[b] != buckets[h] && buckets[b].Wraps !! buckets[h].Wraps
    {
    }
  }
}
