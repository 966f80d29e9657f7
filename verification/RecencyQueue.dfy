// The recency queues of lrucache.c: doubly linked, between two sentinels, oldest entry first.
// inode_info and block_info differ only in their payload, so one generic node serves both.
module RecencyQueue {
  import opened Sequences

  class Node<V> {
    var isDirty: bool
    const key: int
    var prev: Node?<V>
    var next: Node?<V>
    var val: V

    constructor (key: int, val: V)
      ensures !isDirty && this.key == key && prev == null && next == null && this.val == val
    {
      this.isDirty, this.key, this.prev, this.next, this.val := false, key, null, null, val;
    }

    // Stand between t and its predecessor.
    method LinkBefore(t: Node<V>)
      requires t != this && t.prev != null && t.prev != this && t.prev != t
      modifies this`prev, this`next, t`prev, t.prev`next
      ensures next == t && prev == old(t.prev) && t.prev == this && old(t.prev).next == this
    {
      next := t;
      prev := t.prev;
      t.prev.next := this;
      t.prev := this;
    }

    // Join the neighbours to each other and leave.
    method Unlink()
      requires prev != null && next != null && prev != this && next != this && prev != next
      modifies this`prev, this`next, prev`next, next`prev
      ensures prev == null && next == null
      ensures old(prev).next == old(next) && old(next).prev == old(prev)
    {
      prev.next := next;
      next.prev := prev;
      next := null;
      prev := null;
    }
  }

  class Queue<V(0)> {
    const head: Node<V>
    const tail: Node<V>
    var len: int
    ghost var Items: seq<Node<V>>        // oldest first
    ghost var Pos: map<Node<V>, nat>     // where each entry stands in Items

    ghost function Footprint(): set<Node<V>>
      reads this
    {
      {head, tail} + Pos.Keys
    }

    ghost predicate Valid()
      reads this, Footprint()`prev, Footprint()`next, head`isDirty, tail`isDirty
    {
      && len == |Items|
      && Indexes(Pos, Items)
      && head != tail && head !in Pos && tail !in Pos
      && head.key == -1 && tail.key == -1 && !head.isDirty && !tail.isDirty
      && Linked(head, Items, tail)
    }

    // The list walked from its head sentinel (-1) to its tail sentinel (|Items|).
    ghost function At(i: int): Node<V>
      requires -1 <= i <= |Items|
      reads this
    {
      if i == -1 then head else if i == |Items| then tail else Items[i]
    }

    lemma Follow(i: int)
      requires Valid() && -1 <= i <= |Items|
      ensures At(i) in Footprint() && (At(i) == tail <==> i == |Items|)
      ensures i < |Items| ==> At(i).next == At(i + 1)
      ensures 0 <= i < |Items| ==> At(i) in Pos
    {
    }

    // init_lru, with both sentinels allocated.
    constructor ()
      ensures Valid() && Items == [] && fresh(Footprint())
    {
      var filler: V := *;
      var h := new Node<V>(-1, filler);
      var t := new Node<V>(-1, filler);
      h.next := t;
      t.prev := h;
      head, tail, len, Items, Pos := h, t, 0, [], map[];
    }

    // enqueue_inode, enqueue_block: link x in front of the tail sentinel.
    method Enqueue(x: Node<V>)
      requires Valid() && x !in Footprint()
      modifies this, Footprint()`prev, Footprint()`next, x`prev, x`next
      ensures Valid() && Items == old(Items) + [x] && Pos.Keys == old(Pos).Keys + {x}
    {
      x.LinkBefore(tail);
      len := len + 1;
      Pos := Pos[x := |Items|];
      Items := Items + [x];
    }

    // dequeue_inode, dequeue_block: unlink the oldest entry, if any.
    method Dequeue()
      requires Valid()
      modifies this, Footprint()`prev, Footprint()`next
      ensures Valid() && Items == if old(Items) == [] then [] else old(Items)[1..]
      ensures old(Items) != [] ==> old(Items)[0].prev == null && old(Items)[0].next == null
    {
      if head.next == tail {
        return;
      }
      var temp := head.next;
      assert temp == Items[0] && Without(Items, temp) == Items[1..];
      Remove(temp);
    }

    // remove_queue_inode, remove_queue_block: unlink an entry from anywhere in the list.
    method Remove(x: Node<V>)
      requires Valid() && x in Footprint()
      modifies this, Footprint()`prev, Footprint()`next
      ensures Valid() && Pos.Keys == old(Pos).Keys - {x}
      ensures Items == if x in old(Pos) then Without(old(Items), x) else old(Items)
      ensures x in old(Pos) ==> x.prev == null && x.next == null
    {
      hide Indexes, Linked, Closed, Without;
      if x == head || x == tail {
        return;
      }
      PlaceOf(Pos, Items, x);
      IndexesWithout(Pos, Items, Pos[x]);
      Bypass(x, Pos[x]);
      len, Items, Pos := len - 1, Without(Items, x), Closed(Pos, x);
    }

    // The two calls with which a hit refreshes its entry.
    method MoveToTail(x: Node<V>)
      requires Valid() && x in Pos
      modifies this, Footprint()`prev, Footprint()`next
      ensures Valid() && Pos.Keys == old(Pos).Keys && Items == Without(old(Items), x) + [x]
    {
      assert x != head && x != tail;
      hide Indexes, Linked, Without;
      Remove(x);
      Enqueue(x);
    }

    // Take x, which stands at k, out of the links.
    method Bypass(x: Node<V>, ghost k: nat)
      requires Linked(head, Items, tail) && Indexes(Pos, Items) && k < |Items| && Items[k] == x
      requires head != tail && head !in Pos && tail !in Pos
      modifies Footprint()`prev, Footprint()`next
      ensures Linked(head, Items[..k] + Items[k + 1..], tail) && x.prev == null && x.next == null
    {
      hide Indexes;
      ghost var items, rest := Items, Items[..k] + Items[k + 1..];
      IndexedPlaces(Pos, items);
      assert x.prev == if k == 0 then head else items[k - 1];
      assert x.next == if k == |items| - 1 then tail else items[k + 1];
      assert forall i :: 0 <= i < |items| && i != k ==> items[i] != x;
      x.Unlink();
      forall i | 0 <= i < k
        ensures rest[i].prev == if i == 0 then head else rest[i - 1]
        ensures rest[i].next == if i == |rest| - 1 then tail else rest[i + 1]
      {
        assert rest[i] == items[i] && Pos[items[i]] == i;
        assert i > 0 ==> rest[i - 1] == items[i - 1];
        assert i < k - 1 ==> rest[i + 1] == items[i + 1];
        assert i == k - 1 < |rest| - 1 ==> rest[i + 1] == items[i + 2];
      }
      forall i | k <= i < |rest|
        ensures rest[i].prev == if i == 0 then head else rest[i - 1]
        ensures rest[i].next == if i == |rest| - 1 then tail else rest[i + 1]
      {
        assert rest[i] == items[i + 1] && Pos[items[i + 1]] == i + 1;
        assert i > k ==> rest[i - 1] == items[i];
        assert i < |rest| - 1 ==> rest[i + 1] == items[i + 2];
      }
    }
  }

  // head, items and tail follow one another in both directions.
  ghost predicate Linked<V>(head: Node<V>, items: seq<Node<V>>, tail: Node<V>)
    reads head`prev, head`next, items`prev, items`next, tail`prev, tail`next
  {
    && head.prev == null && tail.next == null
    && head.next == (if items == [] then tail else items[0])
    && tail.prev == (if items == [] then head else items[|items| - 1])
    && (forall i {:trigger items[i].prev} :: 0 <= i < |items| ==>
          items[i].prev == if i == 0 then head else items[i - 1])
    && (forall i {:trigger items[i].next} :: 0 <= i < |items| ==>
          items[i].next == if i == |items| - 1 then tail else items[i + 1])
  }

  ghost predicate Indexes<T>(pos: map<T, nat>, s: seq<T>) {
    && (forall x :: x in pos ==> pos[x] < |s| && s[pos[x]] == x)
    && (forall i :: 0 <= i < |s| ==> s[i] in pos && pos[s[i]] == i)
  }

  // Positions once x has left and those behind it have moved up.
  ghost function Closed<T>(pos: map<T, nat>, x: T): map<T, nat>
    requires x in pos
    requires forall y :: y in pos && y != x ==> pos[y] != pos[x]
  {
    map y | y in pos && y != x :: if pos[y] < pos[x] then pos[y] else pos[y] - 1
  }

  lemma IndexesWithout<T>(pos: map<T, nat>, s: seq<T>, k: nat)
    requires Indexes(pos, s) && k < |s|
    ensures forall y :: y in pos && y != s[k] ==> pos[y] != pos[s[k]]
    ensures Indexes(Closed(pos, s[k]), Without(s, s[k])) && Closed(pos, s[k]).Keys == pos.Keys - {s[k]}
    ensures Without(s, s[k]) == s[..k] + s[k + 1..] && |Without(s, s[k])| == |s| - 1
  {
    hide Indexes, Closed, Without, Distinct;
    IndexedDistinct(pos, s);
    IndexesClosed(pos, s, k);
    WithoutAt(s, k);
  }

  lemma IndexesClosed<T>(pos: map<T, nat>, s: seq<T>, k: nat)
    requires Indexes(pos, s) && k < |s|
    ensures s[k] in pos && forall y :: y in pos && y != s[k] ==> pos[y] != pos[s[k]]
    ensures Indexes(Closed(pos, s[k]), s[..k] + s[k + 1..]) && Closed(pos, s[k]).Keys == pos.Keys - {s[k]}
  {
    IndexedDistinct(pos, s);
    var q, t := Closed(pos, s[k]), s[..k] + s[k + 1..];
    forall i | 0 <= i < |t|
      ensures t[i] in q && q[t[i]] == i
    {
      var j := if i < k then i else i + 1;
      assert t[i] == s[j] && s[j] in pos && pos[s[j]] == j;
    }
    forall x | x in q
      ensures q[x] < |t| && t[q[x]] == x
    {
      assert x in pos && s[pos[x]] == x;
    }
  }

  lemma PlaceOf<T>(pos: map<T, nat>, s: seq<T>, x: T)
    requires Indexes(pos, s) && x in pos
    ensures pos[x] < |s| && s[pos[x]] == x
  {
  }

  lemma IndexedPlaces<T>(pos: map<T, nat>, s: seq<T>)
    requires Indexes(pos, s)
    ensures forall i :: 0 <= i < |s| ==> s[i] in pos && pos[s[i]] == i
  {
  }

  lemma IndexedDistinct<T>(pos: map<T, nat>, s: seq<T>)
    requires Indexes(pos, s)
    ensures Distinct(s) && forall x, y :: x in pos && y in pos && x != y ==> pos[x] != pos[y]
  {
    forall x, y | x in pos && y in pos && x != y
      ensures pos[x] != pos[y]
    {
      assert s[pos[x]] == x && s[pos[y]] == y;
    }
    forall i, j | 0 <= i < j < |s|
      ensures s[i] != s[j]
    {
      assert pos[s[i]] == i && pos[s[j]] == j;
    }
  }
}
