/** What it means that a list is another one with some elements left out. */
module Picks {
  /**
   * `ix` are, in order, the positions of s whose elements are to be kept, and `part` is what
   * stands there.
   */
  ghost predicate Picked<T>(part: seq<T>, s: seq<T>, keep: T -> bool, ix: seq<nat>) {
    && |ix| == |part|
    && (forall a, b | 0 <= a < b < |ix| :: ix[a] < ix[b])
    && (forall a | 0 <= a < |ix| :: ix[a] < |s| && part[a] == s[ix[a]])
    && (forall i: nat | i < |s| :: i in ix <==> keep(s[i]))
  }

  lemma PickedSnoc<T>(part: seq<T>, s: seq<T>, keep: T -> bool, ix: seq<nat>, x: T)
    requires Picked(part, s, keep, ix)
    ensures if keep(x) then Picked(part + [x], s + [x], keep, ix + [|s|]) else Picked(part, s + [x], keep, ix)
  {
    var t, jx := s + [x], if keep(x) then ix + [|s|] else ix;
    forall i: nat | i < |t| ensures i in jx <==> keep(t[i]) {
      if i < |s| {
        assert t[i] == s[i] && (i in jx <==> i in ix);
      } else {
        assert |s| !in ix && (keep(x) ==> jx[|ix|] == |s|);
      }
    }
  }

  ghost predicate Increasing(ix: seq<nat>) {
    forall a, b | 0 <= a < b < |ix| :: ix[a] < ix[b]
  }

  lemma InSnoc(ix: seq<nat>, n: nat, i: nat)
    ensures i in ix + [n] <==> i in ix || i == n
  {
    assert (ix + [n])[|ix|] == n;
  }

  lemma LastIsLargest(ix: seq<nat>, i: nat)
    requires Increasing(ix) && i in ix
    ensures i == ix[|ix| - 1] || i < ix[|ix| - 1]
  {
    var a :| 0 <= a < |ix| && ix[a] == i;
    if a < |ix| - 1 {
      assert ix[a] < ix[|ix| - 1];
    }
  }

  /** Unless both are empty, both end with the same position. */
  lemma LastSame(ix: seq<nat>, jx: seq<nat>)
    requires Increasing(ix) && Increasing(jx) && (forall i :: i in ix <==> i in jx) && ix != []
    ensures jx != [] && ix[|ix| - 1] == jx[|jx| - 1]
  {
    assert ix[|ix| - 1] in jx;
    var n, m := ix[|ix| - 1], jx[|jx| - 1];
    LastIsLargest(ix, m);
    LastIsLargest(jx, n);
  }

  lemma FrontWithout(ix: seq<nat>, i: nat)
    requires Increasing(ix) && ix != []
    ensures Increasing(ix[..|ix| - 1])
    ensures i in ix[..|ix| - 1] <==> i in ix && i != ix[|ix| - 1]
  {
    var front, n := ix[..|ix| - 1], ix[|ix| - 1];
    assert ix == front + [n];
    InSnoc(front, n, i);
    assert forall a | 0 <= a < |front| :: front[a] == ix[a] && ix[a] < n;
  }

  lemma {:induction false} SamePositions(ix: seq<nat>, jx: seq<nat>)
    requires Increasing(ix) && Increasing(jx) && forall i :: i in ix <==> i in jx
    ensures ix == jx
  {
    if ix == [] {
      if jx != [] { LastSame(jx, ix); }
    } else {
      LastSame(ix, jx);
      var front, other := ix[..|ix| - 1], jx[..|jx| - 1];
      forall i ensures i in front <==> i in other {
        FrontWithout(ix, i);
        FrontWithout(jx, i);
      }
      FrontWithout(ix, 0);
      FrontWithout(jx, 0);
      hide Increasing;
      SamePositions(front, other);
      assert ix == front + [ix[|ix| - 1]] && jx == other + [jx[|jx| - 1]];
    }
  }

  /** There is only one such list. */
  lemma PickedOnce<T>(part: seq<T>, ix: seq<nat>, other: seq<T>, jx: seq<nat>, s: seq<T>, keep: T -> bool)
    requires Picked(part, s, keep, ix) && Picked(other, s, keep, jx)
    ensures part == other && ix == jx
  {
    forall i ensures i in ix <==> i in jx {
      PickedPosition(part, s, keep, ix, i);
      PickedPosition(other, s, keep, jx, i);
    }
    SamePositions(ix, jx);
  }

  lemma PickedPosition<T>(part: seq<T>, s: seq<T>, keep: T -> bool, ix: seq<nat>, i: nat)
    requires Picked(part, s, keep, ix)
    ensures i in ix <==> i < |s| && keep(s[i])
  {
  }
}
