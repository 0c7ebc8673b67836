/**
 * The hash-chain list of transfer_export/include/list.h.  `pprev` points to the cell that
 * points to the node: the `first` of a list head or the `next` of the node before.
 */
module HashChain {
  datatype Link = Null | Poison1 | To(node: Node)
  datatype Cell = NoCell | Poison2 | First(head: Head) | NextOf(node: Node)

  class Head {
    var first: Link

    /** INIT_HLIST_HEAD */
    constructor ()
      ensures Chain(this, [])
    {
      first := Null;
    }
  }

  class Node {
    var next: Link
    var pprev: Cell

    /** INIT_HLIST_NODE */
    constructor ()
      ensures next == Null && pprev == NoCell
    {
      next, pprev := Null, NoCell;
    }
  }

  function LinkAt(xs: seq<Node>, i: nat): Link {
    if i < |xs| then To(xs[i]) else Null
  }

  function CellAt(h: Head, xs: seq<Node>, i: nat): Cell
    requires i <= |xs|
  {
    if i == 0 then First(h) else NextOf(xs[i - 1])
  }

  ghost predicate Distinct(xs: seq<Node>) {
    forall i, j | 0 <= i < j < |xs| :: xs[i] != xs[j]
  }

  /** Node i of the chain links to the next one, and its pprev names the cell before it. */
  ghost predicate Linked(h: Head, xs: seq<Node>, i: nat)
    requires i < |xs|
    reads xs
  {
    xs[i].next == LinkAt(xs, i + 1) && xs[i].pprev == CellAt(h, xs, i)
  }

  /** The nodes of h are xs: the links lead through them to Null, and each pprev leads back. */
  ghost predicate Chain(h: Head, xs: seq<Node>)
    reads h, xs
  {
    && Distinct(xs)
    && h.first == LinkAt(xs, 0)
    && (forall i: nat | i < |xs| :: Linked(h, xs, i))
  }

  /** The object a cell is in. */
  function Owner(c: Cell): set<object> {
    match c
    case First(h) => {h}
    case NextOf(n) => {n}
    case _ => {}
  }

  function Target(l: Link): set<object> {
    if l.To? then {l.node} else {}
  }

  /** *c */
  function Load(c: Cell): Link
    requires c.First? || c.NextOf?
    reads Owner(c)
  {
    match c
    case First(h) => h.first
    case NextOf(n) => n.next
  }

  /** The cell that pprev names holds this node. */
  lemma PprevHoldsNode(h: Head, xs: seq<Node>, i: nat)
    requires Chain(h, xs) && i < |xs|
    ensures (xs[i].pprev.First? || xs[i].pprev.NextOf?) && Load(xs[i].pprev) == To(xs[i])
  {
    assert Linked(h, xs, i);
    if i > 0 {
      assert Linked(h, xs, i - 1);
    }
  }

  /** A list head has one chain. */
  lemma ChainUnique(h: Head, xs: seq<Node>, ys: seq<Node>)
    requires Chain(h, xs) && Chain(h, ys)
    ensures xs == ys
  {
    SameLinks(h, xs, ys, if |xs| < |ys| then |xs| else |ys|);
  }

  lemma {:induction false} SameLinks(h: Head, xs: seq<Node>, ys: seq<Node>, k: nat)
    requires Chain(h, xs) && Chain(h, ys) && k <= |xs| && k <= |ys|
    ensures xs[..k] == ys[..k] && LinkAt(xs, k) == LinkAt(ys, k)
  {
    if k == 0 {
    } else {
      SameLinks(h, xs, ys, k - 1);
      assert Linked(h, xs, k - 1) && Linked(h, ys, k - 1);
      assert xs[..k] == xs[..k - 1] + [xs[k - 1]] && ys[..k] == ys[..k - 1] + [ys[k - 1]];
    }
  }

  /** Chains of different heads share no node: the back links would lead to both heads. */
  lemma {:induction false} ChainsDisjoint(h: Head, xs: seq<Node>, i: nat, g: Head, ys: seq<Node>, j: nat)
    requires Chain(h, xs) && Chain(g, ys) && h != g && i < |xs| && j < |ys|
    ensures xs[i] != ys[j]
    decreases i
  {
    assert Linked(h, xs, i) && Linked(g, ys, j);
    if i > 0 && j > 0 {
      ChainsDisjoint(h, xs, i - 1, g, ys, j - 1);
    }
    assert CellAt(h, xs, i) != CellAt(g, ys, j);
  }

  method Store(c: Cell, v: Link)
    requires c.First? || c.NextOf?
    modifies Owner(c)
    ensures Load(c) == v
    ensures c.NextOf? ==> c.node.pprev == old(c.node.pprev)
  {
    match c
    case First(h) => h.first := v;
    case NextOf(n) => n.next := v;
  }

  // --- insertion ---

  method AddHead(n: Node, h: Head, ghost xs: seq<Node>)
    requires Chain(h, xs) && n !in xs
    modifies n, h, xs
    ensures Chain(h, [n] + xs)
  {
    ghost var ys := [n] + xs;
    var first := h.first;
    n.next := first;
    if first.To? {
      first.node.pprev := NextOf(n);
    }
    h.first := To(n);
    n.pprev := First(h);
    forall i: nat | i < |ys| ensures Linked(h, ys, i) {
      if i >= 1 {
        assert ys[i] == xs[i - 1] && old(Linked(h, xs, i - 1));
      }
    }
  }

  method AddBefore(n: Node, next: Node, ghost h: Head, ghost xs: seq<Node>, ghost k: nat)
    requires Chain(h, xs) && n !in xs && k < |xs| && xs[k] == next
    modifies n, h, xs
    ensures Chain(h, xs[..k] + [n] + xs[k..])
  {
    ghost var ys := xs[..k] + [n] + xs[k..];
    assert Linked(h, xs, k) && (k > 0 ==> Linked(h, xs, k - 1));
    n.pprev := next.pprev;
    n.next := To(next);
    next.pprev := NextOf(n);
    Store(n.pprev, To(n));
    forall i: nat | i < |ys| ensures Linked(h, ys, i) {
      if i < k {
        assert ys[i] == xs[i] && old(Linked(h, xs, i));
      } else if i > k {
        assert ys[i] == xs[i - 1] && old(Linked(h, xs, i - 1));
      }
    }
  }

  method AddAfter(n: Node, next: Node, ghost h: Head, ghost xs: seq<Node>, ghost k: nat)
    requires Chain(h, xs) && next !in xs && k < |xs| && xs[k] == n
    modifies next, xs
    ensures Chain(h, xs[..k + 1] + [next] + xs[k + 1..])
  {
    ghost var ys := xs[..k + 1] + [next] + xs[k + 1..];
    assert Linked(h, xs, k);
    next.next := n.next;
    n.next := To(next);
    next.pprev := NextOf(n);
    if next.next.To? {
      next.next.node.pprev := NextOf(next);
    }
    forall i: nat | i < |ys| ensures Linked(h, ys, i) {
      if i <= k {
        assert ys[i] == xs[i] && old(Linked(h, xs, i));
      } else if i > k + 1 {
        assert ys[i] == xs[i - 1] && old(Linked(h, xs, i - 1));
      }
    }
  }

  // --- removal ---

  function Without(xs: seq<Node>, k: nat): seq<Node>
    requires k < |xs|
  {
    xs[..k] + xs[k + 1..]
  }

  /** __hlist_del */
  method Unlink(n: Node, ghost h: Head, ghost xs: seq<Node>, ghost k: nat)
    requires Chain(h, xs) && k < |xs| && xs[k] == n
    modifies n, Owner(n.pprev), Target(n.next)
    ensures Chain(h, Without(xs, k))
    ensures n.next == old(n.next) && n.pprev == old(n.pprev)
  {
    ghost var ys := Without(xs, k);
    assert Linked(h, xs, k);
    var next, pprev := n.next, n.pprev;
    Store(pprev, next);
    if next.To? {
      next.node.pprev := pprev;
    }
    forall i: nat | i < |ys| ensures Linked(h, ys, i) {
      var j := if i < k then i else i + 1;
      assert ys[i] == xs[j] && old(Linked(h, xs, j));
    }
  }

  method Del(n: Node, ghost h: Head, ghost xs: seq<Node>, ghost k: nat)
    requires Chain(h, xs) && k < |xs| && xs[k] == n
    modifies n, Owner(n.pprev), Target(n.next)
    ensures Chain(h, Without(xs, k))
    ensures n.next == Poison1 && n.pprev == Poison2
  {
    Unlink(n, h, xs, k);
    n.next := Poison1;
    n.pprev := Poison2;
  }

  /** hlist_move_list.  What the new head held before is lost, and so is a list moved to itself. */
  method MoveList(from: Head, newlist: Head, ghost xs: seq<Node>)
    requires Chain(from, xs)
    modifies from, newlist, xs
    ensures Chain(from, []) && (from != newlist ==> Chain(newlist, xs))
  {
    newlist.first := from.first;
    if newlist.first.To? {
      newlist.first.node.pprev := First(newlist);
    }
    from.first := Null;
    forall i: nat | i < |xs| ensures Linked(newlist, xs, i) {
      assert old(Linked(from, xs, i));
    }
  }

  // --- traversal ---

  /** The nodes that are not marked as gone. */
  function Kept(xs: seq<Node>, gone: seq<bool>): seq<Node>
    requires |xs| == |gone|
  {
    if xs == [] then []
    else
      var k := |xs| - 1;
      if gone[k] then Kept(xs[..k], gone[..k]) else Kept(xs[..k], gone[..k]) + [xs[k]]
  }

  /** The body of the loop: for whatever reason, it deletes the current node or not. */
  method Visit(cur: Node, ghost head: Head, ghost kept: seq<Node>, ghost tail: seq<Node>) returns (gone: bool)
    requires Chain(head, kept + ([cur] + tail))
    modifies cur, Owner(cur.pprev), Target(cur.next)
    ensures Chain(head, (kept + if gone then [] else [cur]) + tail)
  {
    ghost var all := kept + ([cur] + tail);
    if * {
      assert all[|kept|] == cur;
      Del(cur, head, all, |kept|);
      assert Without(all, |kept|) == (kept + []) + tail;
      return true;
    } else {
      assert all == (kept + [cur]) + tail;
      return false;
    }
  }

  /** hlist_for_each_safe: `gone[k]` tells whether the body deleted node k. */
  method ForEachSafe(head: Head, ghost xs: seq<Node>) returns (visited: seq<Node>, gone: seq<bool>)
    requires Chain(head, xs)
    modifies head, xs
    ensures visited == xs && |gone| == |xs|
    ensures Chain(head, Kept(xs, gone))
  {
    visited, gone := [], [];
    ghost var kept: seq<Node>, rest := [], xs;
    assert [] + xs == xs && Kept([], []) == [];
    assert head.first == LinkAt(xs, 0);
    hide Kept, Chain, Owner, Target;
    var pos := head.first;
    while pos.To?
      invariant xs == visited + rest && |gone| == |visited| && kept == Kept(visited, gone)
      invariant Chain(head, kept + rest)
      invariant forall n | n in kept :: n in xs
      invariant pos == LinkAt(rest, 0)
      decreases rest
    {
      ghost var tail := rest[1..];
      var cur := pos.node;
      var n := cur.next;
      Advance(xs, visited, rest);
      NextIn(head, kept, cur, tail);
      VisitFrame(head, kept, cur, tail, xs);
      var del := Visit(cur, head, kept, tail);
      KeptSnoc(visited, gone, cur, del);
      visited, gone := visited + [cur], gone + [del];
      kept := kept + if del then [] else [cur];
      rest := tail;
      pos := n;
    }
    assert kept + rest == kept && visited + rest == visited;
  }

  lemma Advance(xs: seq<Node>, visited: seq<Node>, rest: seq<Node>)
    requires xs == visited + rest && rest != []
    ensures rest == [rest[0]] + rest[1..] && xs == visited + [rest[0]] + rest[1..]
    ensures rest[0] in xs && (|rest| > 1 ==> rest[1] in xs)
  {
    assert xs[|visited|] == rest[0] && (|rest| > 1 ==> xs[|visited| + 1] == rest[1]);
  }

  lemma NextIn(head: Head, kept: seq<Node>, cur: Node, tail: seq<Node>)
    requires Chain(head, kept + ([cur] + tail))
    ensures cur.next == LinkAt(tail, 0)
    ensures cur.pprev == if kept == [] then First(head) else NextOf(kept[|kept| - 1])
  {
    assert Linked(head, kept + ([cur] + tail), |kept|);
  }

  /** The cells that a deletion of the current node changes belong to the list. */
  lemma VisitFrame(head: Head, kept: seq<Node>, cur: Node, tail: seq<Node>, xs: seq<Node>)
    requires Chain(head, kept + ([cur] + tail))
    requires cur in xs && (forall n | n in kept :: n in xs) && (tail != [] ==> tail[0] in xs)
    ensures forall o | o in Owner(cur.pprev) :: o == head || o in xs
    ensures forall o | o in Target(cur.next) :: o in xs
  {
    NextIn(head, kept, cur, tail);
    assert kept != [] ==> kept[|kept| - 1] in kept;
  }

  lemma KeptSnoc(xs: seq<Node>, gone: seq<bool>, x: Node, del: bool)
    requires |xs| == |gone|
    ensures Kept(xs + [x], gone + [del]) == Kept(xs, gone) + if del then [] else [x]
  {
    assert (xs + [x])[..|xs|] == xs && (gone + [del])[..|xs|] == gone;
  }

  // --- all the chains of a hash table ---

  /** Every head of t has its chain; repr holds all heads and nodes. */
  ghost predicate Table(t: map<Head, seq<Node>>, repr: set<object>)
    reads repr
  {
    forall h | h in t :: h in repr && (forall n | n in t[h] :: n in repr) && Chain(h, t[h])
  }

  lemma TableDisjoint(t: map<Head, seq<Node>>, repr: set<object>)
    requires Table(t, repr)
    ensures forall g, h, n | g in t && h in t && g != h && n in t[h] :: n !in t[g]
  {
    forall g, h, n | g in t && h in t && g != h && n in t[h] ensures n !in t[g] {
      var i :| 0 <= i < |t[h]| && t[h][i] == n;
      forall j: nat | j < |t[g]| ensures t[g][j] != n {
        ChainsDisjoint(h, t[h], i, g, t[g], j);
      }
    }
  }

  /** Adding to one chain of a table leaves the others as they are. */
  method TableAddHead(n: Node, h: Head, ghost t: map<Head, seq<Node>>, ghost repr: set<object>)
    requires Table(t, repr) && h in t && forall g | g in t :: n !in t[g]
    modifies n, h, t[h]
    ensures Table(t[h := [n] + t[h]], repr + {n})
  {
    TableDisjoint(t, repr);
    AddHead(n, h, t[h]);
    forall g | g in t && g != h ensures Chain(g, t[g]) {
      forall i: nat | i < |t[g]| ensures Linked(g, t[g], i) {
        assert old(Linked(g, t[g], i)) && t[g][i] in t[g];
      }
    }
  }

  method TableDel(n: Node, ghost h: Head, ghost k: nat, ghost t: map<Head, seq<Node>>, ghost repr: set<object>)
    requires Table(t, repr) && h in t && k < |t[h]| && t[h][k] == n
    modifies n, Owner(n.pprev), Target(n.next)
    ensures Table(t[h := Without(t[h], k)], repr)
    ensures n.next == Poison1 && n.pprev == Poison2
  {
    TableDisjoint(t, repr);
    assert Linked(h, t[h], k);
    Del(n, h, t[h], k);
    forall g | g in t && g != h ensures Chain(g, t[g]) {
      forall i: nat | i < |t[g]| ensures Linked(g, t[g], i) {
        assert old(Linked(g, t[g], i)) && t[g][i] in t[g];
      }
    }
  }

  method TableAddBefore(n: Node, next: Node, ghost h: Head, ghost k: nat,
                        ghost t: map<Head, seq<Node>>, ghost repr: set<object>)
    requires Table(t, repr) && h in t && (forall g | g in t :: n !in t[g]) && k < |t[h]| && t[h][k] == next
    modifies n, h, t[h]
    ensures Table(t[h := t[h][..k] + [n] + t[h][k..]], repr + {n})
  {
    TableDisjoint(t, repr);
    AddBefore(n, next, h, t[h], k);
    forall g | g in t && g != h ensures Chain(g, t[g]) {
      forall i: nat | i < |t[g]| ensures Linked(g, t[g], i) {
        assert old(Linked(g, t[g], i)) && t[g][i] in t[g];
      }
    }
  }

  method TableAddAfter(n: Node, next: Node, ghost h: Head, ghost k: nat,
                       ghost t: map<Head, seq<Node>>, ghost repr: set<object>)
    requires Table(t, repr) && h in t && (forall g | g in t :: next !in t[g]) && k < |t[h]| && t[h][k] == n
    modifies next, t[h]
    ensures Table(t[h := t[h][..k + 1] + [next] + t[h][k + 1..]], repr + {next})
  {
    TableDisjoint(t, repr);
    AddAfter(n, next, h, t[h], k);
    forall g | g in t && g != h ensures Chain(g, t[g]) {
      forall i: nat | i < |t[g]| ensures Linked(g, t[g], i) {
        assert old(Linked(g, t[g], i)) && t[g][i] in t[g];
      }
    }
  }

  /** The nodes that the new head had are in no chain afterwards. */
  method TableMoveList(h: Head, newlist: Head, ghost t: map<Head, seq<Node>>, ghost repr: set<object>)
    requires Table(t, repr) && h in t && newlist in t
    modifies h, newlist, t[h]
    ensures Table(t[newlist := t[h]][h := []], repr)
  {
    TableDisjoint(t, repr);
    MoveList(h, newlist, t[h]);
    forall g | g in t && g != h && g != newlist ensures Chain(g, t[g]) {
      forall i: nat | i < |t[g]| ensures Linked(g, t[g], i) {
        assert old(Linked(g, t[g], i)) && t[g][i] in t[g];
      }
    }
  }
}
