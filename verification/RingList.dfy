/**
 * The circular doubly linked list of transfer_export/include/list.h.  A ring is described
 * by the sequence of its nodes, the list head first.
 */
module RingList {
  class ListHead {
    var prev: ListHead
    var next: ListHead

    /** INIT_LIST_HEAD */
    constructor ()
      ensures Ring([this])
    {
      prev, next := this, this;
    }
  }

  function Succ(n: nat, i: nat): nat
    requires i < n
  {
    if i + 1 == n then 0 else i + 1
  }

  ghost predicate Distinct(s: seq<ListHead>) {
    forall i, j | 0 <= i < j < |s| :: s[i] != s[j]
  }

  ghost predicate Ring(s: seq<ListHead>)
    reads s
  {
    && s != [] && Distinct(s)
    && (forall i | 0 <= i < |s| :: s[i].next == s[Succ(|s|, i)])
    && (forall i | 0 <= i < |s| :: s[Succ(|s|, i)].prev == s[i])
  }

  /** A ring may be written from any of its nodes on. */
  lemma Rotate(a: seq<ListHead>, b: seq<ListHead>)
    requires Ring(a + b)
    ensures Ring(b + a)
  {
    var s, t := a + b, b + a;
    forall i | 0 <= i < |t|
      ensures t[i].next == t[Succ(|t|, i)] && t[Succ(|t|, i)].prev == t[i]
    {
      var k := if i < |b| then i + |a| else i - |b|;
      assert s[k] == t[i] && s[Succ(|s|, k)] == t[Succ(|t|, i)];
    }
    DistinctRotate(a, b);
  }

  lemma DistinctRotate(a: seq<ListHead>, b: seq<ListHead>)
    requires Distinct(a + b)
    ensures Distinct(b + a)
  {
    var s, t := a + b, b + a;
    forall i, j | 0 <= i < j < |t| ensures t[i] != t[j] {
      var k, l := if i < |b| then i + |a| else i - |b|, if j < |b| then j + |a| else j - |b|;
      assert s[k] == t[i] && s[l] == t[j];
      assert k < l || l < k;
    }
  }

  lemma DistinctInsert(a: seq<ListHead>, add: ListHead, b: seq<ListHead>)
    requires Distinct(a + b) && add !in a + b
    ensures Distinct(a + [add] + b)
  {
    var s, t := a + b, a + [add] + b;
    forall i, j | 0 <= i < j < |t| ensures t[i] != t[j] {
      assert i < |a| ==> t[i] == s[i];
      assert i > |a| ==> t[i] == s[i - 1];
      assert j < |a| ==> t[j] == s[j];
      assert j > |a| ==> t[j] == s[j - 1];
    }
  }

  lemma DistinctWithout(head: ListHead, xs: seq<ListHead>, k: nat)
    requires Distinct([head] + xs) && k < |xs|
    ensures Distinct([head] + Without(xs, k))
  {
    var s, t := [head] + xs, [head] + Without(xs, k);
    forall i, j | 0 <= i < j < |t| ensures t[i] != t[j] {
      assert t[i] == s[if i <= k then i else i + 1];
      assert t[j] == s[if j <= k then j else j + 1];
    }
  }

  /** The pointers determine the ring: from a given node on there is only one way to write it. */
  lemma {:induction false} RingUnique(s: seq<ListHead>, t: seq<ListHead>)
    requires Ring(s) && Ring(t) && s[0] == t[0]
    ensures s == t
  {
    var m := if |s| < |t| then |s| - 1 else |t| - 1;
    SamePrefix(s, t, m);
    assert s[Succ(|s|, m)] == s[m].next == t[m].next == t[Succ(|t|, m)];
  }

  lemma {:induction false} SamePrefix(s: seq<ListHead>, t: seq<ListHead>, k: nat)
    requires Ring(s) && Ring(t) && s[0] == t[0] && k < |s| && k < |t|
    ensures forall i | 0 <= i <= k :: s[i] == t[i]
  {
    if k == 0 {
    } else {
      SamePrefix(s, t, k - 1);
      assert s[k - 1].next == s[k] && t[k - 1].next == t[k];
    }
  }

  // --- insertion ---

  /** __list_add: put `add` between two neighbours. */
  method InsertBetween(add: ListHead, prev: ListHead, next: ListHead, ghost a: seq<ListHead>, ghost b: seq<ListHead>)
    requires Ring(a + b) && a != [] && add !in a + b
    requires prev == a[|a| - 1] && next == (b + a)[0]
    modifies next`prev, add, prev`next
    ensures Ring(a + [add] + b)
  {
    ghost var s, t := a + b, a + [add] + b;
    DistinctInsert(a, add, b);
    assert next == s[Succ(|s|, |a| - 1)];
    next.prev := add;
    add.next := next;
    add.prev := prev;
    prev.next := add;
    forall i | 0 <= i < |t|
      ensures t[i].next == t[Succ(|t|, i)] && t[Succ(|t|, i)].prev == t[i]
    {
      if i < |a| - 1 {
        assert s[i] == t[i] && s[Succ(|s|, i)] == t[Succ(|t|, i)];
        assert s[i] != s[|a| - 1] && s[Succ(|s|, i)] != next;
      } else if i > |a| {
        assert s[i - 1] != s[|a| - 1] && s[Succ(|s|, i - 1)] != next;
        assert s[i - 1] == t[i] && s[Succ(|s|, i - 1)] == t[Succ(|t|, i)];
      }
    }
  }

  method ListAdd(add: ListHead, head: ListHead, ghost xs: seq<ListHead>)
    requires Ring([head] + xs) && add !in [head] + xs
    modifies head.next`prev, add, head`next
    ensures Ring([head] + ([add] + xs))
  {
    FirstOf(head, xs);
    InsertBetween(add, head, head.next, [head], xs);
    assert [head] + [add] + xs == [head] + ([add] + xs);
  }

  method ListAddTail(add: ListHead, head: ListHead, ghost xs: seq<ListHead>)
    requires Ring([head] + xs) && add !in [head] + xs
    modifies head`prev, add, head.prev`next
    ensures Ring([head] + (xs + [add]))
  {
    assert ([head] + xs) + [] == [head] + xs;
    assert head.prev == ([head] + xs)[|xs|] by {
      assert Succ(|xs| + 1, |xs|) == 0;
    }
    InsertBetween(add, head.prev, head, [head] + xs, []);
    assert [head] + xs + [add] + [] == [head] + (xs + [add]);
  }

  // --- removal ---

  function Without<T>(xs: seq<T>, k: nat): seq<T>
    requires k < |xs|
  {
    xs[..k] + xs[k + 1..]
  }

  /** list_del: the neighbours close over `entry`, whose own pointers stay. */
  method ListDel(entry: ListHead, ghost head: ListHead, ghost xs: seq<ListHead>, ghost k: nat)
    requires Ring([head] + xs) && k < |xs| && xs[k] == entry
    modifies entry.next`prev, entry.prev`next
    ensures Ring([head] + Without(xs, k))
    ensures entry.next == old(entry.next) && entry.prev == old(entry.prev)
  {
    ghost var s, t := [head] + xs, [head] + Without(xs, k);
    assert s[k + 1] == entry && s[Succ(|s|, k)] == entry;
    assert entry.prev == s[k] && entry.next == s[Succ(|s|, k + 1)];
    var prev, next := entry.prev, entry.next;
    DistinctWithout(head, xs, k);
    next.prev := prev;
    prev.next := next;
    forall i | 0 <= i < |t|
      ensures t[i].next == t[Succ(|t|, i)] && t[Succ(|t|, i)].prev == t[i]
    {
      if i < k {
        assert s[i] == t[i] && s[Succ(|s|, i)] == t[Succ(|t|, i)];
      } else if i > k {
        assert s[i + 1] == t[i] && s[Succ(|s|, i + 1)] == t[Succ(|t|, i)];
      }
    }
  }

  /** Deleting a node just added restores every pointer of the ring. */
  method AddThenDel(add: ListHead, head: ListHead, ghost xs: seq<ListHead>)
    requires Ring([head] + xs) && add !in [head] + xs
    modifies head.next`prev, add, head`next
    ensures Ring([head] + xs)
    ensures forall n | n in [head] + xs :: n.next == old(n.next) && n.prev == old(n.prev)
  {
    ghost var s := [head] + xs;
    ListAdd(add, head, xs);
    assert [add] + xs == ([add] + xs)[..0] + [add] + xs;
    assert add.prev == head && add.next == old(head.next) by {
      ghost var t := [head] + ([add] + xs);
      assert t[0] == head && t[1] == add && t[Succ(|t|, 0)] == add && t[Succ(|t|, 1)] == s[Succ(|s|, 0)];
    }
    ListDel(add, head, [add] + xs, 0);
    assert [head] + Without([add] + xs, 0) == s;
  }

  /** The same for a node added at the other end. */
  method AddTailThenDel(add: ListHead, head: ListHead, ghost xs: seq<ListHead>)
    requires Ring([head] + xs) && add !in [head] + xs
    modifies head`prev, add, head.prev`next
    ensures Ring([head] + xs)
    ensures forall n | n in [head] + xs :: n.next == old(n.next) && n.prev == old(n.prev)
  {
    ghost var s, t := [head] + xs, [head] + (xs + [add]);
    assert s[|xs|] == (if xs == [] then head else xs[|xs| - 1]) && s[Succ(|s|, |xs|)] == head;
    ListAddTail(add, head, xs);
    assert add.prev == old(head.prev) && add.next == head by {
      assert t[|xs|] == s[|xs|] && t[Succ(|t|, |xs|)] == add && t[Succ(|t|, |xs| + 1)] == head;
    }
    ListDel(add, head, xs + [add], |xs|);
    assert Without(xs + [add], |xs|) == xs;
  }

  // --- emptiness ---

  method ListEmpty(head: ListHead, ghost xs: seq<ListHead>) returns (r: bool)
    requires Ring([head] + xs)
    ensures r <==> xs == []
  {
    r := head.next == head;
    ghost var s := [head] + xs;
    assert s[0].next == s[Succ(|s|, 0)];
  }

  method ListEmptyCareful(head: ListHead, ghost xs: seq<ListHead>) returns (r: bool)
    requires Ring([head] + xs)
    ensures r <==> xs == []
  {
    var next := head.next;
    r := next == head && next == head.prev;
    ghost var s := [head] + xs;
    assert s[0].next == s[Succ(|s|, 0)];
    assert s[Succ(|s|, |s| - 1)].prev == s[|s| - 1];
  }

  // --- traversal ---

  /** The nodes that are not marked as gone. */
  function Kept(xs: seq<ListHead>, gone: seq<bool>): seq<ListHead>
    requires |xs| == |gone|
  {
    if xs == [] then []
    else
      var k := |xs| - 1;
      if gone[k] then Kept(xs[..k], gone[..k]) else Kept(xs[..k], gone[..k]) + [xs[k]]
  }

  /** The body of the loop: for whatever reason, it deletes the current node or not. */
  method Visit(pos: ListHead, ghost head: ListHead, ghost kept: seq<ListHead>, ghost tail: seq<ListHead>)
    returns (gone: bool)
    requires Ring([head] + (kept + ([pos] + tail)))
    modifies pos.next`prev, pos.prev`next
    ensures Ring([head] + (kept + ((if gone then [] else [pos]) + tail)))
  {
    ghost var ring := kept + ([pos] + tail);
    if * {
      assert ring[|kept|] == pos;
      NeighboursIn(head, ring, |kept|);
      ListDel(pos, head, ring, |kept|);
      assert Without(ring, |kept|) == kept + ([] + tail);
      return true;
    } else {
      return false;
    }
  }

  /**
   * list_for_each_safe: each node of the starting ring is visited once, in order; `gone[k]`
   * tells whether the body deleted node k, and the others remain.
   */
  method ForEachSafe(head: ListHead, ghost xs: seq<ListHead>)
    returns (visited: seq<ListHead>, gone: seq<bool>)
    requires Ring([head] + xs)
    modifies head, xs
    ensures visited == xs && |gone| == |xs|
    ensures Ring([head] + Kept(xs, gone))
  {
    visited, gone := [], [];
    ghost var kept: seq<ListHead>, rest := [], xs;
    FirstOf(head, xs);
    assert [] + xs == xs && Kept([], []) == [];
    hide Kept, Ring;
    var pos := head.next;
    var pnext := pos.next;
    while pos != head
      invariant xs == visited + rest && |gone| == |visited| && kept == Kept(visited, gone)
      invariant Ring([head] + (kept + rest))
      invariant forall n | n in kept :: n in xs
      invariant pos == if rest == [] then head else rest[0]
      invariant pnext == pos.next
      decreases rest
    {
      ghost var tail := rest[1..];
      Advance(xs, visited, rest);
      NextIn(head, kept, pos, tail);
      VisitFrame(head, kept, pos, tail, xs);
      var del := Visit(pos, head, kept, tail);
      KeptSnoc(visited, gone, pos, del);
      visited, gone := visited + [pos], gone + [del];
      KeptAssoc(kept, if del then [] else [pos], tail);
      kept := kept + if del then [] else [pos];
      rest := tail;
      pos := pnext;
      pnext := pos.next;
    }
    HeadIsNoNode(head, kept, rest);
    assert kept + rest == kept && visited + rest == visited;
  }

  lemma Advance(xs: seq<ListHead>, visited: seq<ListHead>, rest: seq<ListHead>)
    requires xs == visited + rest && rest != []
    ensures rest == [rest[0]] + rest[1..] && xs == visited + [rest[0]] + rest[1..]
    ensures rest[0] in xs && forall n | n in rest[1..] :: n in xs
  {
    assert xs[|visited|] == rest[0];
    forall n | n in rest[1..] ensures n in xs {
      assert n in rest;
    }
  }

  lemma KeptSnoc(xs: seq<ListHead>, gone: seq<bool>, x: ListHead, del: bool)
    requires |xs| == |gone|
    ensures Kept(xs + [x], gone + [del]) == Kept(xs, gone) + if del then [] else [x]
  {
    assert (xs + [x])[..|xs|] == xs && (gone + [del])[..|xs|] == gone;
  }

  lemma KeptAssoc(a: seq<ListHead>, b: seq<ListHead>, c: seq<ListHead>)
    ensures a + (b + c) == (a + b) + c
  {
  }

  lemma VisitFrame(head: ListHead, kept: seq<ListHead>, pos: ListHead, tail: seq<ListHead>, xs: seq<ListHead>)
    requires Ring([head] + (kept + ([pos] + tail)))
    requires pos in xs && (forall n | n in kept :: n in xs) && (forall n | n in tail :: n in xs)
    ensures (pos.next == head || pos.next in xs) && (pos.prev == head || pos.prev in xs)
  {
    NeighboursIn(head, kept + ([pos] + tail), |kept|);
  }

  lemma HeadIsNoNode(head: ListHead, kept: seq<ListHead>, rest: seq<ListHead>)
    requires Ring([head] + (kept + rest))
    ensures rest != [] ==> rest[0] != head
  {
    var s := [head] + (kept + rest);
    assert rest != [] ==> s[|kept| + 1] == rest[0] && s[0] != s[|kept| + 1];
  }

  lemma NextIn(head: ListHead, kept: seq<ListHead>, pos: ListHead, tail: seq<ListHead>)
    requires Ring([head] + (kept + ([pos] + tail)))
    ensures pos.next == if tail == [] then head else tail[0]
  {
    NextOf(head, kept + ([pos] + tail), |kept|);
  }

  lemma FirstOf(head: ListHead, xs: seq<ListHead>)
    requires Ring([head] + xs)
    ensures head.next == if xs == [] then head else xs[0]
  {
    var s := [head] + xs;
    assert s[0].next == s[Succ(|s|, 0)];
  }

  lemma NextOf(head: ListHead, xs: seq<ListHead>, k: nat)
    requires Ring([head] + xs) && k < |xs|
    ensures xs[k].next == if k + 1 < |xs| then xs[k + 1] else head
  {
    var s := [head] + xs;
    assert s[k + 1].next == s[Succ(|s|, k + 1)];
  }

  lemma NeighboursIn(head: ListHead, xs: seq<ListHead>, k: nat)
    requires Ring([head] + xs) && k < |xs|
    ensures xs[k].next in [head] + xs && xs[k].prev in [head] + xs
  {
    var s := [head] + xs;
    assert s[k + 1].next == s[Succ(|s|, k + 1)];
    assert s[Succ(|s|, k)].prev == s[k];
  }
}
