/**
 * The reference for the crawler: a work list without duplicates.  A page is not text, or
 * it is text with the sorted, distinct links that s_search_urls.sh extracts.
 */
module Bfs {
  import opened Picks

  type Url = string

  datatype Page = NotText | Text(links: seq<Url>)

  /** The page of u is text and has a link to v. */
  predicate LinksTo(fetch: Url -> Page, u: Url, v: Url) {
    fetch(u).Text? && v in fetch(u).links
  }

  /** What the crawler looks at for u. */
  function Links(fetch: Url -> Page, u: Url): seq<Url> {
    match fetch(u)
    case NotText => []
    case Text(links) => links
  }

  lemma LinksAre(fetch: Url -> Page, u: Url)
    ensures forall v :: v in Links(fetch, u) <==> LinksTo(fetch, u, v)
    ensures DistinctLinks(fetch) ==> Distinct(Links(fetch, u))
  {
  }

  ghost predicate Distinct<T>(s: seq<T>) {
    forall i, j | 0 <= i < j < |s| :: s[i] != s[j]
  }

  ghost predicate DistinctLinks(fetch: Url -> Page) {
    forall u: Url | fetch(u).Text? :: Distinct(fetch(u).links)
  }

  /** A finite set of URLs that following links does not leave. */
  ghost predicate ClosedWorld(fetch: Url -> Page, world: set<Url>) {
    forall u, v | u in world && LinksTo(fetch, u, v) :: v in world
  }

  // --- reachability ---

  ghost predicate Path(fetch: Url -> Page, p: seq<Url>) {
    p != [] && forall i | 0 <= i < |p| - 1 :: LinksTo(fetch, p[i], p[i + 1])
  }

  ghost predicate Reachable(fetch: Url -> Page, root: Url, u: Url) {
    exists p :: Path(fetch, p) && p[0] == root && p[|p| - 1] == u
  }

  lemma ReachableStep(fetch: Url -> Page, root: Url, u: Url, v: Url)
    requires Reachable(fetch, root, u) && LinksTo(fetch, u, v)
    ensures Reachable(fetch, root, v)
  {
    var p :| Path(fetch, p) && p[0] == root && p[|p| - 1] == u;
    assert Path(fetch, p + [v]) && (p + [v])[0] == root;
  }

  lemma RootReachable(fetch: Url -> Page, root: Url)
    ensures Reachable(fetch, root, root)
  {
    assert Path(fetch, [root]);
  }

  lemma {:induction false} PathStaysIn(fetch: Url -> Page, s: set<Url>, p: seq<Url>)
    requires Path(fetch, p) && p[0] in s
    requires forall u, v | u in s && LinksTo(fetch, u, v) :: v in s
    ensures p[|p| - 1] in s
    decreases |p|
  {
    if |p| > 1 {
      PathStaysIn(fetch, s, p[..|p| - 1]);
    }
  }

  // --- the search ---

  /** The links not yet in `order`, in their order. */
  function New(order: seq<Url>, links: seq<Url>): seq<Url> {
    if links == [] then []
    else
      var rest := New(order, links[..|links| - 1]);
      if links[|links| - 1] in order then rest else rest + [links[|links| - 1]]
  }

  lemma {:induction false} NewMembers(order: seq<Url>, links: seq<Url>)
    ensures forall u :: u in New(order, links) <==> u in links && u !in order
  {
    if links == [] {
    } else {
      NewMembers(order, links[..|links| - 1]);
      assert links == links[..|links| - 1] + [links[|links| - 1]];
    }
  }

  /** The new links keep their order. */
  lemma {:induction false} NewInOrder(order: seq<Url>, links: seq<Url>) returns (ix: seq<nat>)
    ensures Picked(New(order, links), links, u => u !in order, ix)
    decreases |links|
  {
    if links == [] {
      ix := [];
    } else {
      var rest, last := links[..|links| - 1], links[|links| - 1];
      ix := NewInOrder(order, rest);
      assert links == rest + [last];
      PickedSnoc(New(order, rest), rest, u => u !in order, ix, last);
      if last !in order {
        ix := ix + [|rest|];
      }
    }
  }

  lemma {:induction false} NewDistinct(order: seq<Url>, links: seq<Url>)
    requires Distinct(order) && Distinct(links)
    ensures Distinct(order + New(order, links))
  {
    if links == [] {
    } else {
      var rest := links[..|links| - 1];
      NewDistinct(order, rest);
      NewMembers(order, rest);
      var u := links[|links| - 1];
      assert u !in rest;
      if u !in order {
        assert order + New(order, links) == order + New(order, rest) + [u];
      }
    }
  }

  lemma {:induction false} DistinctBound(s: seq<Url>, world: set<Url>)
    requires Distinct(s) && forall u | u in s :: u in world
    ensures |s| <= |world|
  {
    if s == [] {
    } else {
      var u := s[|s| - 1];
      var rest := s[..|s| - 1];
      assert u !in rest;
      DistinctBound(rest, world - {u});
    }
  }

  ghost predicate Searching(fetch: Url -> Page, world: set<Url>, order: seq<Url>, done: nat) {
    && DistinctLinks(fetch) && ClosedWorld(fetch, world)
    && Distinct(order) && (forall u | u in order :: u in world) && done <= |order|
  }

  lemma SearchingStep(fetch: Url -> Page, world: set<Url>, order: seq<Url>, done: nat)
    requires Searching(fetch, world, order, done) && done < |order|
    ensures Searching(fetch, world, order + New(order, Links(fetch, order[done])), done + 1)
    ensures done < |world|
  {
    LinksAre(fetch, order[done]);
    NewDistinct(order, Links(fetch, order[done]));
    NewMembers(order, Links(fetch, order[done]));
    DistinctBound(order, world);
  }

  /** `order[..done]` have been fetched; the rest of `order` waits. */
  ghost function Search(fetch: Url -> Page, world: set<Url>, order: seq<Url>, done: nat): seq<Url>
    requires Searching(fetch, world, order, done)
    decreases |world| - done
  {
    if done == |order| then order
    else
      SearchingStep(fetch, world, order, done);
      Search(fetch, world, order + New(order, Links(fetch, order[done])), done + 1)
  }

  ghost predicate Crawlable(fetch: Url -> Page, world: set<Url>, root: Url) {
    DistinctLinks(fetch) && ClosedWorld(fetch, world) && root in world
  }

  ghost function Crawled(fetch: Url -> Page, world: set<Url>, root: Url): seq<Url>
    requires Crawlable(fetch, world, root)
  {
    Search(fetch, world, [root], 0)
  }

  lemma {:induction false} SearchExtends(fetch: Url -> Page, world: set<Url>, order: seq<Url>, done: nat)
    requires Searching(fetch, world, order, done)
    ensures order <= Search(fetch, world, order, done) && Distinct(Search(fetch, world, order, done))
    decreases |world| - done
  {
    if done < |order| {
      SearchingStep(fetch, world, order, done);
      SearchExtends(fetch, world, order + New(order, Links(fetch, order[done])), done + 1);
    }
  }

  lemma {:induction false} SearchCloses(fetch: Url -> Page, world: set<Url>, order: seq<Url>, done: nat)
    requires Searching(fetch, world, order, done)
    requires forall k, v | 0 <= k < done && LinksTo(fetch, order[k], v) :: v in order
    ensures var all := Search(fetch, world, order, done);
            forall u, v | u in all && LinksTo(fetch, u, v) :: v in all
    decreases |world| - done
  {
    if done < |order| {
      SearchingStep(fetch, world, order, done);
      var more := order + New(order, Links(fetch, order[done]));
      LinksAre(fetch, order[done]);
      NewMembers(order, Links(fetch, order[done]));
      forall k, v | 0 <= k < done + 1 && LinksTo(fetch, more[k], v) ensures v in more {
        assert more[k] == order[k];
      }
      SearchCloses(fetch, world, more, done + 1);
      assert Search(fetch, world, order, done) == Search(fetch, world, more, done + 1);
    } else {
      forall u, v | u in order && LinksTo(fetch, u, v) ensures v in order {
        var k :| 0 <= k < |order| && order[k] == u;
      }
    }
  }

  lemma {:induction false} SearchReaches(fetch: Url -> Page, world: set<Url>, order: seq<Url>, done: nat, root: Url)
    requires Searching(fetch, world, order, done)
    requires forall u | u in order :: Reachable(fetch, root, u)
    ensures forall u | u in Search(fetch, world, order, done) :: Reachable(fetch, root, u)
    decreases |world| - done
  {
    hide Reachable, New;
    if done < |order| {
      SearchingStep(fetch, world, order, done);
      var more := order + New(order, Links(fetch, order[done]));
      LinksAre(fetch, order[done]);
      NewMembers(order, Links(fetch, order[done]));
      forall u | u in more ensures Reachable(fetch, root, u) {
        if u !in order { ReachableStep(fetch, root, order[done], u); }
      }
      SearchReaches(fetch, world, more, done + 1, root);
      assert Search(fetch, world, order, done) == Search(fetch, world, more, done + 1);
    }
  }

  /** The search lists each reachable URL once and nothing else. */
  lemma CrawledIsReachable(fetch: Url -> Page, world: set<Url>, root: Url)
    requires Crawlable(fetch, world, root)
    ensures var all := Crawled(fetch, world, root);
            && Distinct(all) && root in all
            && forall u :: u in all <==> Reachable(fetch, root, u)
  {
    var all := Crawled(fetch, world, root);
    SearchExtends(fetch, world, [root], 0);
    SearchCloses(fetch, world, [root], 0);
    RootReachable(fetch, root);
    SearchReaches(fetch, world, [root], 0, root);
    assert root == all[0];
    forall u | Reachable(fetch, root, u) ensures u in all {
      var p :| Path(fetch, p) && p[0] == root && p[|p| - 1] == u;
      PathStaysIn(fetch, (set v | v in all), p);
    }
  }
}
