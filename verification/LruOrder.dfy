// What a cache level should hold and in which order, as functions of the history of accesses.
module LruOrder {
  import opened Sequences

  function Touch(order: seq<int>, key: int): seq<int> {
    Without(order, key) + [key]
  }

  // The order after one access. A miss in a full cache drops the oldest key, unless its
  // write-back failed (evicts is false).
  function Access(order: seq<int>, cap: nat, key: int, evicts: bool): (r: seq<int>) {
    if key in order then Touch(order, key)
    else if evicts && order != [] && |order| >= cap then order[1..] + [key]
    else order + [key]
  }

  function Run(order: seq<int>, cap: nat, keys: seq<int>): seq<int> {
    if keys == [] then order
    else Access(Run(order, cap, keys[..|keys| - 1]), cap, keys[|keys| - 1], true)
  }

  // Every key ever accessed, by the time of its last access.
  function ByLastAccess(history: seq<int>): seq<int> {
    if history == [] then []
    else Touch(ByLastAccess(history[..|history| - 1]), history[|history| - 1])
  }

  function Suffix(s: seq<int>, n: nat): seq<int> {
    if |s| <= n then s else s[|s| - n..]
  }

  // The other keys accessed since key was last accessed.
  function Since(history: seq<int>, key: int): set<int> {
    if history == [] then {}
    else if history[|history| - 1] == key then {}
    else Since(history[..|history| - 1], key) + {history[|history| - 1]}
  }

  // What Touch does when the key stands at i, and when it is new.
  lemma TouchAt(order: seq<int>, i: nat)
    requires Distinct(order) && i < |order|
    ensures Touch(order, order[i]) == order[..i] + order[i + 1..] + [order[i]]
    ensures Distinct(Touch(order, order[i]))
  {
    WithoutAt(order, i);
  }

  lemma TouchNew(order: seq<int>, key: int)
    requires Distinct(order) && key !in order
    ensures Touch(order, key) == order + [key] && Distinct(Touch(order, key))
  {
    WithoutAbsent(order, key);
  }

  // Keeping the most recent keys commutes with an access.
  lemma AccessSuffix(all: seq<int>, cap: nat, key: int)
    requires Distinct(all) && cap > 0
    ensures Access(Suffix(all, cap), cap, key, true) == Suffix(Touch(all, key), cap)
    ensures Distinct(Touch(all, key))
  {
    if key in all {
      var i :| 0 <= i < |all| && all[i] == key;
      TouchAt(all, i);
      if |all| >= cap {
        AccessOld(all, cap, i);
      }
    } else {
      TouchNew(all, key);
      if |all| >= cap {
        AccessNew(all, cap, key);
      }
    }
  }

  lemma AccessOld(all: seq<int>, cap: nat, i: nat)
    requires Distinct(all) && 0 < cap <= |all| && i < |all|
    ensures Access(all[|all| - cap..], cap, all[i], true) == (all[..i] + all[i + 1..] + [all[i]])[|all| - cap..]
  {
    var d := |all| - cap;
    var order := all[d..];
    assert Distinct(order) && (i < d ==> all[i] !in order);
    hide Distinct, Without;
    if i >= d {
      assert order[i - d] == all[i];
      TouchAt(order, i - d);
      assert order[..i - d] == all[d..i] && order[i - d + 1..] == all[i + 1..];
    } else {
      assert order[1..] == all[d + 1..];
    }
  }

  lemma AccessNew(all: seq<int>, cap: nat, key: int)
    requires key !in all && 0 < cap <= |all|
    ensures Access(all[|all| - cap..], cap, key, true) == (all + [key])[|all| + 1 - cap..]
  {
    assert key !in all[|all| - cap..];
  }

  // The LRU stack property: a cache that starts empty holds the cap most recently used keys, in order of last use.
  lemma {:induction false} RunIsMostRecent(cap: nat, history: seq<int>)
    requires cap > 0
    ensures Run([], cap, history) == Suffix(ByLastAccess(history), cap)
    ensures Distinct(ByLastAccess(history))
  {
    if history != [] {
      var before := history[..|history| - 1];
      RunIsMostRecent(cap, before);
      AccessSuffix(ByLastAccess(before), cap, history[|history| - 1]);
    }
  }

  // Moving the key at i to the end puts it behind the one at p and disturbs nothing else.
  lemma Behind(order: seq<int>, p: nat, i: nat) returns (q: nat)
    requires p < |order| && i < |order| && i != p
    ensures var after := order[..i] + order[i + 1..] + [order[i]];
      q < |order| && after[q] == order[p] && Elements(after[q + 1..]) == Elements(order[p + 1..]) + {order[i]}
    ensures q == if i < p then p - 1 else p
  {
    var after := order[..i] + order[i + 1..] + [order[i]];
    q := if i < p then p - 1 else p;
    if i < p {
      assert after[q + 1..] == order[p + 1..] + [order[i]];
    } else {
      assert after[q + 1..] == order[p + 1..i] + order[i + 1..] + [order[i]];
      assert order[p + 1..] == order[p + 1..i] + [order[i]] + order[i + 1..];
    }
  }

  // Where a key stands in the order of last use: behind it come exactly the keys used since.
  lemma {:induction false} StandsBefore(history: seq<int>, key: int) returns (p: nat)
    requires key in history
    ensures p < |ByLastAccess(history)| && ByLastAccess(history)[p] == key
    ensures Elements(ByLastAccess(history)[p + 1..]) == Since(history, key)
  {
    var before, last := history[..|history| - 1], history[|history| - 1];
    var all := ByLastAccess(before);
    RunIsMostRecent(1, before);
    if last == key {
      p := |ByLastAccess(history)| - 1;
      NoElements(ByLastAccess(history)[p + 1..]);
    } else {
      var p' := StandsBefore(before, key);
      p := Refreshed(all, p', last);
    }
  }

  // Touching another key puts it behind the one at p and disturbs nothing else.
  lemma Refreshed(all: seq<int>, p: nat, other: int) returns (q: nat)
    requires Distinct(all) && p < |all| && other != all[p]
    ensures q < |Touch(all, other)| && Touch(all, other)[q] == all[p]
    ensures Elements(Touch(all, other)[q + 1..]) == Elements(all[p + 1..]) + {other}
  {
    if other in all {
      var i :| 0 <= i < |all| && all[i] == other;
      TouchAt(all, i);
      q := Behind(all, p, i);
    } else {
      TouchNew(all, other);
      q := p;
      assert (all + [other])[p + 1..] == all[p + 1..] + [other];
    }
  }

  lemma {:induction false} OnlyAccessed(history: seq<int>, key: int)
    requires key in ByLastAccess(history)
    ensures key in history
  {
    if history != [] {
      var before, last := history[..|history| - 1], history[|history| - 1];
      RunIsMostRecent(1, before);
      if key != last {
        if last in ByLastAccess(before) {
          var i :| 0 <= i < |ByLastAccess(before)| && ByLastAccess(before)[i] == last;
          TouchAt(ByLastAccess(before), i);
        } else {
          TouchNew(ByLastAccess(before), last);
        }
        OnlyAccessed(before, key);
      }
    }
  }

  // Residency, exactly: a key is held iff it was used and fewer than cap other keys were used since.
  lemma Residency(cap: nat, history: seq<int>, key: int)
    requires cap > 0
    ensures key in Run([], cap, history) <==> key in history && |Since(history, key)| < cap
  {
    RunIsMostRecent(cap, history);
    var all := ByLastAccess(history);
    if key in history {
      var p := StandsBefore(history, key);
      ElementsCount(all[p + 1..]);
      InSuffix(all, cap, p);
    } else if key in all {
      OnlyAccessed(history, key);
    }
  }

  lemma InSuffix(all: seq<int>, cap: nat, p: nat)
    requires Distinct(all) && p < |all|
    ensures all[p] in Suffix(all, cap) <==> |all| - 1 - p < cap
  {
    if |all| > cap {
      var d := |all| - cap;
      if p >= d {
        assert all[d..][p - d] == all[p];
      }
    }
  }

  // Nothing but members of seen is fresher than key.
  ghost predicate Held(order: seq<int>, key: int, seen: set<int>) {
    && Distinct(order)
    && key !in seen
    && exists i :: 0 <= i < |order| && order[i] == key && Elements(order[i + 1..]) <= seen
  }

  // Whatever the write-backs do, an access cannot push key out before cap other keys have been seen.
  lemma AccessKeeps(order: seq<int>, cap: nat, other: int, evicts: bool, key: int, seen: set<int>)
    requires Held(order, key, seen)
    requires |seen + {other} - {key}| < cap
    ensures Held(Access(order, cap, other, evicts), key, seen + {other} - {key})
  {
    var i :| 0 <= i < |order| && order[i] == key && Elements(order[i + 1..]) <= seen;
    if other in order {
      var j :| 0 <= j < |order| && order[j] == other;
      HitKeeps(order, i, j, seen);
    } else if evicts && |order| >= cap {
      MissKeeps(order, i, cap, other, seen);
    } else {
      AppendKeeps(order, i, other, seen);
    }
  }

  lemma HitKeeps(order: seq<int>, i: nat, j: nat, seen: set<int>)
    requires Distinct(order) && i < |order| && j < |order| && Elements(order[i + 1..]) <= seen && order[i] !in seen
    ensures Held(Touch(order, order[j]), order[i], seen + {order[j]} - {order[i]})
  {
    TouchAt(order, j);
    var after := order[..j] + order[j + 1..] + [order[j]];
    hide Elements, Distinct, Without;
    if j == i {
      NoElements(after[|order|..]);
      assert after[|order| - 1] == order[i];
    } else {
      var q := Behind(order, i, j);
    }
  }

  lemma NoElements(s: seq<int>)
    requires |s| == 0
    ensures Elements(s) == {}
  {
  }

  lemma AppendKeeps(order: seq<int>, i: nat, other: int, seen: set<int>)
    requires Distinct(order) && i < |order| && Elements(order[i + 1..]) <= seen && order[i] !in seen && other !in order
    ensures Held(order + [other], order[i], seen + {other} - {order[i]})
  {
    ElementsConcat(order[i + 1..], [other]);
    var after := order + [other];
    assert other != order[i] && Distinct(after);
    assert after[i] == order[i] && after[i + 1..] == order[i + 1..] + [other];
  }

  lemma MissKeeps(order: seq<int>, i: nat, cap: nat, other: int, seen: set<int>)
    requires Distinct(order) && i < |order| && Elements(order[i + 1..]) <= seen && order[i] !in seen && other !in order
    requires |order| >= cap > |seen + {other} - {order[i]}|
    ensures Held(order[1..] + [other], order[i], seen + {other} - {order[i]})
  {
    if i == 0 {
      ElementsCount(order[1..]);
      assert other !in Elements(order[1..]) && other != order[0];
      SubsetCount(Elements(order[1..]) + {other}, seen + {other} - {order[i]});
      assert false;
    }
    assert order[1..][i..] == order[i + 1..];
    AppendKeeps(order[1..], i - 1, other, seen);
  }

  lemma FreshestStays(order: seq<int>, cap: nat, b: int, evicts: bool)
    requires b !in order
    ensures var after := Access(order, cap, b, evicts); Touch(after, b) == after
  {
    var kept := if evicts && order != [] && |order| >= cap then order[1..] else order;
    WithoutLast(kept, b);
  }

  // A history of accesses with one more; the same key again at once adds nothing.
  function Noted(history: seq<int>, key: int): (r: seq<int>)
    ensures key in r && history <= r && forall k :: k in r <==> k in history || k == key
  {
    if history != [] && history[|history| - 1] == key then history else history + [key]
  }

  // When a key was last accessed.
  function LastUse(history: seq<int>, key: int): (i: nat)
    requires key in history
    ensures i < |history| && history[i] == key && forall j :: i < j < |history| ==> history[j] != key
  {
    if history[|history| - 1] == key then |history| - 1 else LastUse(history[..|history| - 1], key)
  }

  // The keys stand in the order of their last access.
  ghost predicate InOrder(order: seq<int>, history: seq<int>) {
    && (forall k :: k in order ==> k in history)
    && (forall i, j :: 0 <= i < j < |order| ==> LastUse(history, order[i]) < LastUse(history, order[j]))
  }

  lemma NotedTwice(history: seq<int>, key: int)
    ensures Noted(Noted(history, key), key) == Noted(history, key)
  {
  }

  lemma NotedUse(history: seq<int>, key: int, k: int)
    requires k in history || k == key
    ensures LastUse(Noted(history, key), k) == if k == key then |Noted(history, key)| - 1 else LastUse(history, k)
    ensures k != key ==> LastUse(history, k) < |Noted(history, key)| - 1
  {
    if k != key && history[|history| - 1] != key {
      assert Noted(history, key)[..|history|] == history;
    }
  }

  // An access moves its key to the end, or puts it there.
  lemma AccessInOrder(order: seq<int>, history: seq<int>, key: int)
    requires InOrder(order, history)
    ensures InOrder(Touch(order, key), Noted(history, key))
  {
    hide LastUse, Noted, Without;
    var rest := Without(order, key);
    RestInOrder(order, history, key);
    forall k | k in rest
      ensures k != key && LastUse(Noted(history, key), k) == LastUse(history, k) < |Noted(history, key)| - 1
    {
      NotedUse(history, key, k);
    }
    NotedUse(history, key, key);
  }

  lemma InOrderDistinct(order: seq<int>, history: seq<int>)
    requires InOrder(order, history)
    ensures Distinct(order)
  {
    forall i, j | 0 <= i < j < |order|
      ensures order[i] != order[j]
    {
      assert LastUse(history, order[i]) < LastUse(history, order[j]);
    }
  }

  // Eviction and deletion leave the others in order.
  lemma RestInOrder(order: seq<int>, history: seq<int>, key: int)
    requires InOrder(order, history)
    ensures InOrder(Without(order, key), history) && key !in Without(order, key)
  {
    InOrderDistinct(order, history);
    if key in order {
      var i :| 0 <= i < |order| && order[i] == key;
      WithoutAt(order, i);
      CutInOrder(order, history, i);
    } else {
      WithoutAbsent(order, key);
    }
  }

  lemma CutInOrder(order: seq<int>, history: seq<int>, i: nat)
    requires InOrder(order, history) && Distinct(order) && i < |order|
    ensures InOrder(order[..i] + order[i + 1..], history) && order[i] !in order[..i] + order[i + 1..]
  {
    hide LastUse;
    var rest := order[..i] + order[i + 1..];
    forall a | 0 <= a < |rest|
      ensures rest[a] in history && rest[a] != order[i]
    {
      assert rest[a] == order[if a < i then a else a + 1];
    }
    forall a, b | 0 <= a < b < |rest|
      ensures LastUse(history, rest[a]) < LastUse(history, rest[b])
    {
      assert rest[a] == order[if a < i then a else a + 1] && rest[b] == order[if b < i then b else b + 1];
    }
  }
}
