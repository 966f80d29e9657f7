// One cache level: the recency queue and the hash table that lrucache.c and block.c keep in step.
module LruCache {
  import opened Sequences
  import opened HashTable
  import opened RecencyQueue
  import opened LruOrder

  class Cache<V(0)> {
    const q: Queue<V>
    const t: Table<Node<V>>
    ghost var Repr: set<object>
    ghost var History: seq<int>          // the accesses so far

    ghost predicate Valid()
      reads this, q, t, t.Repr
      reads q.Footprint()`prev, q.Footprint()`next, q.head`isDirty, q.tail`isDirty
      ensures Valid() ==> this in Repr && q in Repr && t in Repr && t.Repr <= Repr && q.Footprint() <= Repr
      ensures Valid() ==> Map().Values <= q.Pos.Keys && forall n :: n in q.Footprint() ==> n !in t.Repr
    {
      && this in Repr && q in Repr && t in Repr && q.Footprint() <= Repr && t.Repr <= Repr
      && this !in t.Repr && q !in t.Repr && (forall n :: n in q.Footprint() ==> n !in t.Repr)
      && q.Valid() && t.Valid()
      && InStep(t.Map, q.Pos.Keys)
      && InOrder(Keys(q.Items), History)
    }

    // The resident entry of each key.
    ghost function Map(): map<nat, Node<V>>
      reads t
    {
      t.Map
    }

    constructor ()
      ensures Valid() && fresh(Repr) && Map() == map[] && q.Items == [] && History == []
      ensures this in Repr && q in Repr && t in Repr && t.Repr <= Repr && q.Footprint() <= Repr
    {
      q := new Queue<V>();
      t := new Table<Node<V>>();
      new;
      Repr, History := {this, q, t} + q.Footprint() + t.Repr, [];
    }

    // get_block_lru, get_inode_lru: a hit moves to the tail, a miss answers the head sentinel.
    method Get(key: nat) returns (n: Node<V>)
      requires Valid()
      modifies this`History, q, q.Footprint()`prev, q.Footprint()`next
      ensures Valid() && Map() == old(Map()) && q.Pos.Keys == old(q.Pos.Keys)
      ensures History == if key in Map() then Noted(old(History), key) else old(History)
      ensures n == if key in Map() then Map()[key] else q.head
      ensures q.Items == if key in Map() then Without(old(q.Items), n) + [n] else old(q.Items)
    {
      hide Queue.Valid, Table.Valid, Without, InOrder, Keys, Noted, Touch;
      var res := t.Search(key);
      if res == None {
        n := q.head;
      } else {
        n := res.value;
        TouchKeys(key);
        AccessInOrder(Keys(q.Items), History, key);
        q.MoveToTail(n);
        History := Noted(History, key);
      }
    }

    // The last two steps of set_block_lru and set_inode_lru.
    method Enter(n: Node<V>)
      requires Valid() && n !in Repr && n.key >= 0 && n.key !in Map()
      modifies this, q, t, t.Repr, q.Footprint()`prev, q.Footprint()`next, n`prev, n`next
      ensures Valid() && Repr >= old(Repr) + {n} && fresh(Repr - old(Repr) - {n})
      ensures t.Repr <= Repr && q.Footprint() <= Repr && q.Footprint() == old(q.Footprint()) + {n}
      ensures Map() == old(Map())[n.key := n] && q.Items == old(q.Items) + [n]
      ensures History == Noted(old(History), n.key)
    {
      hide Queue.Valid, Table.Valid, InOrder, Keys, Noted;
      KeysListed();
      EnterInOrder(q.Items, History, n);
      History := Noted(History, n.key);
      q.Enqueue(n);
      t.Insert(n.key, n);
      Repr := Repr + {n} + t.Repr;
      assert q.Footprint() <= Repr && q.Valid() && t.Valid();
    }

    // delete_*_hashTable followed by remove_queue_*.
    method Leave(n: Node<V>)
      requires Valid() && n in q.Pos
      modifies this, q, t, t.Repr, q.Footprint()`prev, q.Footprint()`next
      ensures Valid() && Repr == old(Repr)
      ensures Map() == old(Map()) - {n.key} && q.Items == Without(old(q.Items), n)
      ensures n.prev == null && n.next == null && History == old(History)
    {
      hide Queue.Valid, Table.Valid, InOrder, Keys, Without;
      LeaveInOrder(n);
      t.Delete(n.key);
      q.Remove(n);
    }

    lemma KeysListed()
      requires Valid()
      ensures forall k: int :: k in Keys(q.Items) <==> 0 <= k && k in Map()
      ensures Map().Values <= q.Pos.Keys
    {
      var items := q.Items;
      forall k: int | 0 <= k && k in Map()
        ensures k in Keys(items)
      {
        assert Keys(items)[q.Pos[Map()[k]]] == k;
      }
    }

    lemma LeaveInOrder(n: Node<V>)
      requires Valid() && n in q.Pos
      ensures InOrder(Keys(Without(q.Items, n)), History)
    {
      WithoutAt(q.Items, q.Pos[n]);
      InOrderDistinct(Keys(q.Items), History);
      KeysWithout(q.Items, q.Pos[n]);
      RestInOrder(Keys(q.Items), History, n.key);
    }

    lemma OneFewer(n: Node<V>)
      requires Valid() && n in q.Pos
      ensures |Without(q.Items, n)| == |q.Items| - 1
    {
      WithoutAt(q.Items, q.Pos[n]);
    }

    lemma TouchKeys(b: nat)
      requires Valid() && b in Map()
      ensures var n := Map()[b];
        Keys(Without(q.Items, n) + [n]) == Touch(Keys(q.Items), b)
        && |Without(q.Items, n)| == |q.Items| - 1
    {
      var n, items := Map()[b], q.Items;
      WithoutAt(items, q.Pos[n]);
      KeysWithout(items, q.Pos[n]);
      KeysStep(Without(items, n), n);
    }
  }

  lemma EnterInOrder<V>(items: seq<Node<V>>, history: seq<int>, n: Node<V>)
    requires InOrder(Keys(items), history) && n.key !in Keys(items)
    ensures InOrder(Keys(items + [n]), Noted(history, n.key))
  {
    KeysStep(items, n);
    WithoutAbsent(Keys(items), n.key);
    AccessInOrder(Keys(items), history, n.key);
  }

  // The table holds exactly the listed entries, each under its own key.
  ghost predicate InStep<V>(m: map<nat, Node<V>>, entries: set<Node<V>>) {
    && (forall k :: k in m ==> m[k] in entries && m[k].key == k)
    && (forall n :: n in entries ==> n.key >= 0 && n.key in m && m[n.key] == n)
  }

  // Keys, oldest first.
  function Keys<V>(items: seq<Node<V>>): seq<int> {
    seq(|items|, i requires 0 <= i < |items| => items[i].key)
  }

  lemma KeysStep<V>(items: seq<Node<V>>, n: Node<V>)
    ensures items != [] ==> Keys(items[1..]) == Keys(items)[1..]
    ensures Keys(items + [n]) == Keys(items) + [n.key]
    ensures items != [] ==> Keys(items[1..] + [n]) == Keys(items)[1..] + [n.key]
    ensures |Keys(items)| == |items|
  {
  }

  lemma KeysWithout<V>(items: seq<Node<V>>, i: nat)
    requires i < |items| && Distinct(items) && Distinct(Keys(items))
    ensures Keys(Without(items, items[i])) == Without(Keys(items), items[i].key)
  {
    WithoutAt(items, i);
    WithoutAt(Keys(items), i);
    assert Keys(items[..i]) == Keys(items)[..i];
    assert Keys(items[i + 1..]) == Keys(items)[i + 1..];
    KeysConcat(items[..i], items[i + 1..]);
  }

  lemma KeysConcat<V>(a: seq<Node<V>>, b: seq<Node<V>>)
    ensures Keys(a + b) == Keys(a) + Keys(b)
  {
  }

  lemma EnterOrder<V>(items: seq<Node<V>>, n: Node<V>, cap: nat, evicts: bool)
    requires cap > 0
    requires n.key !in Keys(items)
    ensures var kept := if evicts && |items| >= cap then items[1..] else items;
      Keys(kept + [n]) == Access(Keys(items), cap, n.key, evicts)
  {
    KeysStep(items, n);
  }
}
