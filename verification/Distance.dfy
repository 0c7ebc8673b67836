/** The crawler's order is the order of link distance from the root. */
module Distance {
  import opened Bfs

  ghost predicate Leads(fetch: Url -> Page, root: Url, p: seq<Url>, u: Url) {
    Path(fetch, p) && p[0] == root && p[|p| - 1] == u
  }

  /** u is in the list, at most `most` links away by the levels d. */
  ghost predicate Within(order: seq<Url>, d: seq<nat>, u: Url, most: nat) {
    exists m :: 0 <= m < |order| && m < |d| && order[m] == u && d[m] <= most
  }

  /** Levels go up along the list, by 1 at most beyond the page to be fetched next. */
  ghost predicate Climbing(order: seq<Url>, done: nat, d: seq<nat>) {
    && |d| == |order| && done <= |order| && order != [] && d[0] == 0
    && (forall i, j | 0 <= i < j < |d| :: d[i] <= d[j])
    && (forall i | 0 <= i < |d| :: done < |d| ==> d[i] <= d[done] + 1)
  }

  /** Every listed URL has a path as long as its level says. */
  ghost predicate Backed(fetch: Url -> Page, root: Url, order: seq<Url>, d: seq<nat>) {
    |d| == |order| && forall k | 0 <= k < |order| :: exists p :: Leads(fetch, root, p, order[k]) && |p| == d[k] + 1
  }

  /** The links of a fetched page are at most one level further. */
  ghost predicate Covered(fetch: Url -> Page, order: seq<Url>, done: nat, d: seq<nat>) {
    && |d| == |order| && done <= |order|
    && forall k, v | 0 <= k < done && LinksTo(fetch, order[k], v) :: Within(order, d, v, d[k] + 1)
  }

  ghost predicate Levelled(fetch: Url -> Page, root: Url, order: seq<Url>, done: nat, d: seq<nat>) {
    Climbing(order, done, d) && order[0] == root && Backed(fetch, root, order, d) && Covered(fetch, order, done, d)
  }

  /** The levels once the new links of the next page are listed. */
  function MoreLevels(d: seq<nat>, done: nat, extra: nat): (e: seq<nat>)
    requires done < |d|
    ensures |e| == |d| + extra
    ensures forall k | 0 <= k < |e| :: e[k] == if k < |d| then d[k] else d[done] + 1
  {
    d + seq(extra, _ => d[done] + 1)
  }

  lemma ClimbingStep(order: seq<Url>, done: nat, d: seq<nat>, novel: seq<Url>)
    requires Climbing(order, done, d) && done < |order|
    ensures Climbing(order + novel, done + 1, MoreLevels(d, done, |novel|))
  {
  }

  lemma BackedStep(fetch: Url -> Page, root: Url, order: seq<Url>, done: nat, d: seq<nat>, novel: seq<Url>)
    requires Backed(fetch, root, order, d) && done < |order|
    requires forall v | v in novel :: LinksTo(fetch, order[done], v)
    ensures Backed(fetch, root, order + novel, MoreLevels(d, done, |novel|))
  {
    var more, e := order + novel, MoreLevels(d, done, |novel|);
    forall k | 0 <= k < |more| ensures exists p :: Leads(fetch, root, p, more[k]) && |p| == e[k] + 1 {
      if k < |order| {
        var p :| Leads(fetch, root, p, order[k]) && |p| == d[k] + 1;
      } else {
        var p :| Leads(fetch, root, p, order[done]) && |p| == d[done] + 1;
        assert more[k] in novel;
        assert Leads(fetch, root, p + [more[k]], more[k]);
      }
    }
  }

  lemma WithinMore(order: seq<Url>, d: seq<nat>, u: Url, most: nat, novel: seq<Url>, done: nat)
    requires |d| == |order| && done < |d| && Within(order, d, u, most)
    ensures Within(order + novel, MoreLevels(d, done, |novel|), u, most)
  {
    var m :| 0 <= m < |order| && order[m] == u && d[m] <= most;
    assert (order + novel)[m] == u;
  }

  lemma CoveredStep(fetch: Url -> Page, order: seq<Url>, done: nat, d: seq<nat>, novel: seq<Url>)
    requires Climbing(order, done, d) && Covered(fetch, order, done, d) && done < |order|
    requires forall v | LinksTo(fetch, order[done], v) :: v in order || v in novel
    ensures Covered(fetch, order + novel, done + 1, MoreLevels(d, done, |novel|))
  {
    var more, e := order + novel, MoreLevels(d, done, |novel|);
    forall k, v | 0 <= k < done + 1 && LinksTo(fetch, more[k], v) ensures Within(more, e, v, e[k] + 1) {
      if k < done {
        assert more[k] == order[k];
        WithinMore(order, d, v, d[k] + 1, novel, done);
      } else {
        assert v in more;
        var m :| 0 <= m < |more| && more[m] == v;
        assert e[m] <= d[done] + 1;
      }
    }
  }

  /** A finished search has levels. */
  lemma {:induction false} SearchLevels(fetch: Url -> Page, world: set<Url>, root: Url,
                                        order: seq<Url>, done: nat, d: seq<nat>) returns (e: seq<nat>)
    requires Searching(fetch, world, order, done) && Levelled(fetch, root, order, done, d)
    ensures var all := Search(fetch, world, order, done); Levelled(fetch, root, all, |all|, e)
    decreases |world| - done
  {
    if done == |order| {
      e := d;
    } else {
      var links := Links(fetch, order[done]);
      var novel := New(order, links);
      SearchingStep(fetch, world, order, done);
      LinksAre(fetch, order[done]);
      NewMembers(order, links);
      ClimbingStep(order, done, d, novel);
      BackedStep(fetch, root, order, done, d, novel);
      CoveredStep(fetch, order, done, d, novel);
      assert Search(fetch, world, order, done) == Search(fetch, world, order + novel, done + 1);
      hide *;
      e := SearchLevels(fetch, world, root, order + novel, done + 1, MoreLevels(d, done, |novel|));
    }
  }

  /** No path is shorter than the level of its end. */
  lemma {:induction false} NoShortcut(fetch: Url -> Page, root: Url, all: seq<Url>, d: seq<nat>, p: seq<Url>)
    requires Levelled(fetch, root, all, |all|, d) && Path(fetch, p) && p[0] == root
    ensures Within(all, d, p[|p| - 1], |p| - 1)
    decreases |p|
  {
    if |p| == 1 {
      assert all[0] == p[0] && d[0] <= 0;
    } else {
      var q := p[..|p| - 1];
      NoShortcut(fetch, root, all, d, q);
      var m :| 0 <= m < |all| && all[m] == q[|q| - 1] && d[m] <= |q| - 1;
      assert LinksTo(fetch, p[|p| - 2], p[|p| - 1]);
      var k :| 0 <= k < |all| && all[k] == p[|p| - 1] && d[k] <= d[m] + 1;
    }
  }

  lemma RootLevelled(fetch: Url -> Page, root: Url)
    ensures Levelled(fetch, root, [root], 0, [0])
  {
    assert Leads(fetch, root, [root], root);
  }

  lemma CrawlLevels(fetch: Url -> Page, world: set<Url>, root: Url) returns (d: seq<nat>)
    requires Crawlable(fetch, world, root)
    ensures var all := Crawled(fetch, world, root); Levelled(fetch, root, all, |all|, d) && Distinct(all)
  {
    hide Levelled, Search;
    RootLevelled(fetch, root);
    SearchExtends(fetch, world, [root], 0);
    d := SearchLevels(fetch, world, root, [root], 0, [0]);
  }

  /** What is listed earlier is not further from the root, over all paths of links. */
  lemma NearestFirst(fetch: Url -> Page, world: set<Url>, root: Url, i: nat, j: nat, p: seq<Url>) returns (q: seq<Url>)
    requires Crawlable(fetch, world, root)
    requires var all := Crawled(fetch, world, root); i <= j < |all| && Leads(fetch, root, p, all[j])
    ensures Leads(fetch, root, q, Crawled(fetch, world, root)[i]) && |q| <= |p|
  {
    var all := Crawled(fetch, world, root);
    var d := CrawlLevels(fetch, world, root);
    NoShortcut(fetch, root, all, d, p);
    hide Crawled, Crawlable, Path, Covered;
    var m :| 0 <= m < |all| && all[m] == all[j] && d[m] <= |p| - 1;
    assert m == j;
    assert d[i] <= d[j];
    q :| Leads(fetch, root, q, all[i]) && |q| == d[i] + 1;
  }
}
