/** Keeping the first occurrence of every URL of a list. */
module Dedup {
  import opened Bfs
  import opened Picks

  function FirstOcc(s: seq<Url>): seq<Url> {
    if s == [] then []
    else
      var u, rest := s[|s| - 1], s[..|s| - 1];
      if u in rest then FirstOcc(rest) else FirstOcc(rest) + [u]
  }

  lemma {:induction false} FirstOccMembers(s: seq<Url>)
    ensures forall u :: u in FirstOcc(s) <==> u in s
  {
    if s == [] {
    } else {
      FirstOccMembers(s[..|s| - 1]);
      assert s == s[..|s| - 1] + [s[|s| - 1]];
    }
  }

  lemma {:induction false} FirstOccDistinct(s: seq<Url>)
    ensures Distinct(FirstOcc(s))
  {
    if s == [] {
    } else {
      FirstOccDistinct(s[..|s| - 1]);
      FirstOccMembers(s[..|s| - 1]);
    }
  }

  lemma FirstOccSnoc(s: seq<Url>, u: Url)
    ensures FirstOcc(s + [u]) == FirstOcc(s) + if u in s then [] else [u]
  {
    assert (s + [u])[..|s|] == s;
  }

  lemma {:induction false} FirstOccPrefix(a: seq<Url>, b: seq<Url>)
    requires a <= b
    ensures FirstOcc(a) <= FirstOcc(b)
    decreases |b|
  {
    if |a| < |b| {
      FirstOccPrefix(a, b[..|b| - 1]);
    } else {
      assert a == b;
    }
  }

  /** What is kept of a list are its first occurrences, in their order. */
  lemma {:induction false} FirstOccInOrder(s: seq<Url>) returns (ix: seq<nat>)
    ensures Increasing(ix) && |ix| == |FirstOcc(s)|
    ensures forall a | 0 <= a < |ix| :: ix[a] < |s| && FirstOcc(s)[a] == s[ix[a]]
    ensures forall i: nat | i < |s| :: i in ix <==> s[i] !in s[..i]
    decreases |s|
  {
    if s == [] {
      ix := [];
    } else {
      var n := |s| - 1;
      var front := FirstOccInOrder(s[..n]);
      ix := if s[n] in s[..n] then front else front + [n];
      assert FirstOcc(s) == FirstOcc(s[..n]) + if s[n] in s[..n] then [] else [s[n]];
      hide FirstOcc;
      forall i: nat | i < |s| ensures i in ix <==> s[i] !in s[..i] {
        FirstPosition(s, front, i);
      }
    }
  }

  lemma FirstPosition(s: seq<Url>, front: seq<nat>, i: nat)
    requires i < |s| && forall a | 0 <= a < |front| :: front[a] < |s| - 1
    requires forall j: nat | j < |s| - 1 :: j in front <==> s[..|s| - 1][j] !in s[..|s| - 1][..j]
    ensures var n := |s| - 1; i in (if s[n] in s[..n] then front else front + [n]) <==> s[i] !in s[..i]
  {
    var n := |s| - 1;
    InSnoc(front, n, i);
    if i < n {
      assert s[..n][i] == s[i] && s[..n][..i] == s[..i];
    }
  }

  /** Appending known URLs and then distinct fresh ones adds just the fresh ones. */
  lemma {:induction false} FirstOccAppend(a: seq<Url>, known: seq<Url>, novel: seq<Url>)
    requires forall u | u in known :: u in a
    requires Distinct(novel) && forall u | u in novel :: u !in a
    ensures FirstOcc(a + (known + novel)) == FirstOcc(a) + novel
    decreases |known| + |novel|
  {
    if novel != [] {
      var u, rest := novel[|novel| - 1], novel[..|novel| - 1];
      FirstOccAppend(a, known, rest);
      assert u !in rest;
      assert a + (known + novel) == a + (known + rest) + [u];
      FirstOccSnoc(a + (known + rest), u);
    } else if known != [] {
      var u, rest := known[|known| - 1], known[..|known| - 1];
      FirstOccAppend(a, rest, novel);
      assert a + (known + novel) == a + (rest + novel) + [u];
      FirstOccSnoc(a + (rest + novel), u);
    } else {
      assert a + (known + novel) == a;
    }
  }
}
