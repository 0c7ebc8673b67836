/**
 * The crawler of spider_lite/shell: a loop that reads the queue file `unvisited` while its
 * body appends to it.  The scratch file of new links is only ever appended to, so each page
 * puts every link found so far into the queue again.
 *
 * Fetching is an arbitrary function from URL to page and md5 an injective function; the
 * files start empty.  A URL is one word, and fgrep finds an md5 only in its own column.
 */
module Crawler {
  import opened Wrappers
  import opened Bfs
  import opened Dedup
  import D = Distance
  import opened Picks

  datatype Line = Line(url: Url, md5: string)
  datatype Visit = Visit(url: Url, md5: string, path: nat)

  function Urls(lines: seq<Line>): (r: seq<Url>)
    ensures |r| == |lines| && forall k | 0 <= k < |r| :: r[k] == lines[k].url
  {
    seq(|lines|, k requires 0 <= k < |lines| => lines[k].url)
  }

  ghost predicate Injective(md5: Url -> string) {
    forall u, v | md5(u) == md5(v) :: u == v
  }

  /** Every line carries the md5 of its URL. */
  ghost predicate Hashed(md5: Url -> string, lines: seq<Line>) {
    forall k | 0 <= k < |lines| :: lines[k].md5 == md5(lines[k].url)
  }

  /** fgrep -q m on the md5 column. */
  predicate Listed(m: string, lines: seq<Line>) {
    exists k | 0 <= k < |lines| :: lines[k].md5 == m
  }

  lemma ListedIsMember(md5: Url -> string, u: Url, lines: seq<Line>)
    requires Injective(md5) && Hashed(md5, lines)
    ensures Listed(md5(u), lines) <==> u in Urls(lines)
  {
    if u in Urls(lines) {
      var k :| 0 <= k < |Urls(lines)| && Urls(lines)[k] == u;
      assert lines[k].md5 == md5(u);
    }
  }

  lemma UrlsAppend(a: seq<Line>, b: seq<Line>)
    ensures Urls(a + b) == Urls(a) + Urls(b)
  {
  }

  /** The URLs whose pages are text. */
  function TextOnly(fetch: Url -> Page, s: seq<Url>): seq<Url> {
    if s == [] then []
    else
      var rest := TextOnly(fetch, s[..|s| - 1]);
      if fetch(s[|s| - 1]).Text? then rest + [s[|s| - 1]] else rest
  }

  lemma {:induction false} TextOnlyLength(fetch: Url -> Page, s: seq<Url>)
    ensures |TextOnly(fetch, s)| <= |s|
  {
    if s == [] {
    } else {
      TextOnlyLength(fetch, s[..|s| - 1]);
    }
  }

  lemma TextOnlySnoc(fetch: Url -> Page, s: seq<Url>, u: Url)
    ensures TextOnly(fetch, s + [u]) == TextOnly(fetch, s) + if fetch(u).Text? then [u] else []
  {
    assert (s + [u])[..|s|] == s;
  }

  /** The text pages keep the order in which they were fetched. */
  lemma {:induction false} TextOnlyInOrder(fetch: Url -> Page, s: seq<Url>) returns (ix: seq<nat>)
    ensures Picked(TextOnly(fetch, s), s, u => fetch(u).Text?, ix)
    decreases |s|
  {
    if s == [] {
      ix := [];
    } else {
      var rest, last := s[..|s| - 1], s[|s| - 1];
      ix := TextOnlyInOrder(fetch, rest);
      assert s == rest + [last];
      PickedSnoc(TextOnly(fetch, rest), rest, u => fetch(u).Text?, ix, last);
      if fetch(last).Text? {
        ix := ix + [|rest|];
      }
    }
  }

  lemma NewSameMembers(a: seq<Url>, b: seq<Url>, links: seq<Url>)
    requires forall u :: u in a <==> u in b
    ensures New(a, links) == New(b, links)
  {
    if links != [] {
      NewSameMembers(a, b, links[..|links| - 1]);
    }
  }

  /** Reading a queued URL that was already fetched changes nothing. */
  lemma SkipKnown(q: seq<Url>, pos: nat, fetched: seq<Url>)
    requires pos < |q| && FirstOcc(q[..pos]) == fetched && q[pos] in fetched
    ensures FirstOcc(q[..pos + 1]) == fetched
  {
    assert q[..pos + 1] == q[..pos] + [q[pos]];
    FirstOccMembers(q[..pos]);
    FirstOccSnoc(q[..pos], q[pos]);
  }

  /** A queued URL that was not fetched yet is the next one of the search order. */
  lemma NextInOrder(q: seq<Url>, pos: nat, order: seq<Url>, d: nat)
    requires pos < |q| && FirstOcc(q) == order && d <= |order|
    requires FirstOcc(q[..pos]) == order[..d] && q[pos] !in order[..d]
    ensures d < |order| && order[d] == q[pos]
    ensures FirstOcc(q[..pos + 1]) == order[..d + 1] == order[..d] + [q[pos]]
  {
    hide FirstOcc;
    assert q[..pos + 1] == q[..pos] + [q[pos]];
    FirstOccMembers(q[..pos]);
    FirstOccSnoc(q[..pos], q[pos]);
    FirstOccPrefix(q[..pos + 1], q);
    PrefixNext(order, d, q[pos]);
  }

  lemma PrefixNext(order: seq<Url>, d: nat, u: Url)
    requires d <= |order| && order[..d] + [u] <= order
    ensures d < |order| && order[d] == u && order[..d + 1] == order[..d] + [u]
  {
    var next := order[..d] + [u];
    assert next[d] == u && |next| == d + 1;
  }

  /** Appending the whole scratch file extends the search order by the new links alone. */
  lemma AppendScratch(q: seq<Url>, root: Url, known: seq<Url>, links: seq<Url>)
    requires FirstOcc(q) == [root] + known && Distinct(links)
    ensures New(q, links) == New([root] + known, links)
    ensures FirstOcc(q + (known + New(q, links))) == [root] + known + New(q, links)
    ensures [root] + known + New(q, links) == [root] + (known + New(q, links))
  {
    FirstOccMembers(q);
    NewSameMembers(q, [root] + known, links);
    NewIsDistinct(q, links);
    NewMembers(q, links);
    forall u | u in known ensures u in q {
      assert u in [root] + known;
    }
    FirstOccAppend(q, known, New(q, links));
  }

  lemma NewSnoc(order: seq<Url>, links: seq<Url>, k: nat)
    requires k < |links|
    ensures New(order, links[..k + 1]) == New(order, links[..k]) + if links[k] in order then [] else [links[k]]
  {
    assert links[..k + 1][..k] == links[..k];
  }

  lemma NewOfNone(order: seq<Url>)
    ensures New(order, []) == []
  {
  }

  lemma {:induction false} NewIsDistinct(order: seq<Url>, links: seq<Url>)
    requires Distinct(links)
    ensures Distinct(New(order, links))
  {
    if links == [] {
    } else {
      NewIsDistinct(order, links[..|links| - 1]);
      NewMembers(order, links[..|links| - 1]);
      assert links[|links| - 1] !in links[..|links| - 1];
    }
  }

  // --- what the loop keeps, over the contents of the files ---

  datatype Web = Web(fetch: Url -> Page, md5: Url -> string)

  datatype Files = Files(
    unvisited: seq<Line>,        // the queue file
    downloadMd5: seq<Line>,      // every URL ever fetched
    visited: seq<Visit>,         // text pages and where they were dumped
    scratch: Option<seq<Line>>,  // ${tmp}_htm_uniq; None while the file does not exist
    dumps: map<nat, Url>,        // which URL's page is in dump file i
    fetched: seq<Url>)           // the wget calls, in order

  /** The lines of the scratch file, if there is one. */
  function Scratch(f: Files): seq<Line> {
    if f.scratch.Some? then f.scratch.value else []
  }

  function Known(f: Files): seq<Url> {
    Urls(Scratch(f))
  }

  /** The root and, after it, the links in the scratch file. */
  function Order(f: Files, root: Url): seq<Url> {
    [root] + Known(f)
  }

  ghost predicate FilesOk(w: Web, f: Files) {
    && Hashed(w.md5, f.unvisited) && Hashed(w.md5, f.downloadMd5)
    && (f.scratch.Some? ==> Hashed(w.md5, f.scratch.value))
    && f.fetched == Urls(f.downloadMd5)
    && (f.scratch == None ==> |f.unvisited| == 1)
  }

  /** The queue without repetitions is the search order, and a prefix of it is fetched. */
  ghost predicate QueueOk(f: Files, root: Url, pos: nat) {
    && pos <= |f.unvisited|
    && FirstOcc(Urls(f.unvisited)) == Order(f, root)
    && |f.fetched| <= |Order(f, root)|
    && f.fetched == Order(f, root)[..|f.fetched|]
    && FirstOcc(Urls(f.unvisited)[..pos]) == f.fetched
  }

  ghost predicate SearchOk(w: Web, world: set<Url>, f: Files, root: Url) {
    && Crawlable(w.fetch, world, root)
    && Searching(w.fetch, world, Order(f, root), |f.fetched|)
    && Search(w.fetch, world, Order(f, root), |f.fetched|) == Crawled(w.fetch, world, root)
  }

  /** Every text page is visited once, and dump file k holds the k-th of them. */
  ghost predicate VisitedIs(w: Web, fetched: seq<Url>, visited: seq<Visit>, dumps: map<nat, Url>) {
    Visits(w.md5, TextOnly(w.fetch, fetched), visited, dumps)
  }

  ghost predicate Visits(md5: Url -> string, texts: seq<Url>, visited: seq<Visit>, dumps: map<nat, Url>) {
    && |visited| == |texts|
    && (forall k | 0 <= k < |visited| ::
          && visited[k].url == texts[k] && visited[k].md5 == md5(texts[k])
          && visited[k].path == k + 1
          && k + 1 in dumps && dumps[k + 1] == texts[k])
    && (forall i | i in dumps :: 1 <= i <= |visited|)
  }

  ghost predicate VisitedOk(w: Web, f: Files) {
    VisitedIs(w, f.fetched, f.visited, f.dumps)
  }

  ghost predicate Small(w: Web, world: set<Url>, f: Files, root: Url)
    requires Crawlable(w.fetch, world, root)
  {
    |f.unvisited| <= 1 + |f.visited| * (|Crawled(w.fetch, world, root)| - 1)
  }

  /** The counter skips its increment only when nothing is left to read. */
  ghost predicate CounterOk(f: Files, i: nat, pos: nat) {
    i == |f.visited| + 1 || (f.scratch == None && pos == |f.unvisited|)
  }

  ghost predicate Inv(w: Web, world: set<Url>, f: Files, root: Url, pos: nat) {
    && FilesOk(w, f) && QueueOk(f, root, pos) && SearchOk(w, world, f, root)
    && VisitedOk(w, f) && Small(w, world, f, root)
  }

  /** s_download.sh and the line appended to `visited`, on file contents. */
  function FetchEffect(w: Web, f: Files, i: nat, line: Line): Files {
    if Listed(line.md5, f.downloadMd5) then f
    else
      var g := f.(downloadMd5 := f.downloadMd5 + [Line(line.url, w.md5(line.url))],
                  fetched := f.fetched + [line.url]);
      if w.fetch(line.url).Text?
      then g.(dumps := f.dumps[i := line.url], visited := f.visited + [Visit(line.url, line.md5, i)])
      else g.(dumps := f.dumps - {i})
  }

  lemma OneMoreVisit(md5: Url -> string, texts: seq<Url>, visited: seq<Visit>, dumps: map<nat, Url>, u: Url, i: nat)
    requires Visits(md5, texts, visited, dumps) && i == |visited| + 1
    ensures Visits(md5, texts + [u], visited + [Visit(u, md5(u), i)], dumps[i := u])
    ensures Visits(md5, texts, visited, dumps - {i})
  {
    var more, d := visited + [Visit(u, md5(u), i)], dumps[i := u];
    forall k | 0 <= k < |more|
      ensures more[k].url == (texts + [u])[k] && more[k].md5 == md5((texts + [u])[k]) && more[k].path == k + 1
      ensures k + 1 in d && d[k + 1] == (texts + [u])[k]
    {
      if k < |visited| {
        assert more[k] == visited[k] && k + 1 in dumps;
      }
    }
  }

  lemma VisitText(w: Web, fetched: seq<Url>, visited: seq<Visit>, dumps: map<nat, Url>, u: Url, i: nat)
    requires VisitedIs(w, fetched, visited, dumps) && i == |visited| + 1 && w.fetch(u).Text?
    ensures VisitedIs(w, fetched + [u], visited + [Visit(u, w.md5(u), i)], dumps[i := u])
  {
    TextOnlySnoc(w.fetch, fetched, u);
    OneMoreVisit(w.md5, TextOnly(w.fetch, fetched), visited, dumps, u, i);
  }

  lemma VisitOther(w: Web, fetched: seq<Url>, visited: seq<Visit>, dumps: map<nat, Url>, u: Url, i: nat)
    requires VisitedIs(w, fetched, visited, dumps) && i == |visited| + 1 && w.fetch(u).NotText?
    ensures VisitedIs(w, fetched + [u], visited, dumps - {i})
  {
    TextOnlySnoc(w.fetch, fetched, u);
    OneMoreVisit(w.md5, TextOnly(w.fetch, fetched), visited, dumps, u, i);
    assert TextOnly(w.fetch, fetched) + [] == TextOnly(w.fetch, fetched);
  }

  lemma FetchVisits(w: Web, f: Files, i: nat, line: Line)
    requires VisitedOk(w, f) && i == |f.visited| + 1 && line.md5 == w.md5(line.url)
    ensures VisitedOk(w, FetchEffect(w, f, i, line))
  {
    hide VisitedIs, Listed;
    if w.fetch(line.url).Text? {
      VisitText(w, f.fetched, f.visited, f.dumps, line.url, i);
    } else {
      VisitOther(w, f.fetched, f.visited, f.dumps, line.url, i);
    }
  }

  lemma HashedAppend(md5: Url -> string, lines: seq<Line>, u: Url)
    requires Hashed(md5, lines)
    ensures Hashed(md5, lines + [Line(u, md5(u))])
    ensures Urls(lines + [Line(u, md5(u))]) == Urls(lines) + [u]
  {
  }

  lemma NovelLine(md5: Url -> string, before: seq<Line>, novel: seq<Url>, lines: seq<Line>, u: Url)
    requires Hashed(md5, lines) && before <= lines && Urls(lines) == Urls(before) + novel
    ensures var more := lines + [Line(u, md5(u))];
            Hashed(md5, more) && before <= more && Urls(more) == Urls(before) + (novel + [u])
  {
    HashedAppend(md5, lines, u);
    assert Urls(before) + novel + [u] == Urls(before) + (novel + [u]);
  }

  /** The fgrep of s_download.sh finds exactly the fetched URLs. */
  lemma ListedIsFetched(w: Web, f: Files, pos: nat)
    requires Injective(w.md5) && FilesOk(w, f) && pos < |f.unvisited|
    ensures Listed(f.unvisited[pos].md5, f.downloadMd5) <==> f.unvisited[pos].url in f.fetched
  {
    ListedIsMember(w.md5, f.unvisited[pos].url, f.downloadMd5);
  }

  lemma FetchFiles(w: Web, f: Files, i: nat, pos: nat)
    requires FilesOk(w, f) && pos < |f.unvisited|
    ensures FilesOk(w, FetchEffect(w, f, i, f.unvisited[pos]))
  {
    HashedAppend(w.md5, f.downloadMd5, f.unvisited[pos].url);
  }

  /** A queue line is either a known URL, or the next one of the search order. */
  lemma FetchAdvances(w: Web, f: Files, root: Url, i: nat, pos: nat)
    requires QueueOk(f, root, pos) && pos < |f.unvisited|
    requires Listed(f.unvisited[pos].md5, f.downloadMd5) <==> f.unvisited[pos].url in f.fetched
    ensures var line := f.unvisited[pos]; var g := FetchEffect(w, f, i, line); var d := |f.fetched|;
            && QueueOk(g, root, pos + 1)
            && (if Listed(line.md5, f.downloadMd5) then g == f
                else |g.fetched| == d + 1 && d < |Order(f, root)| && Order(f, root)[d] == line.url)
  {
    var q, u := Urls(f.unvisited), f.unvisited[pos].url;
    assert q[pos] == u;
    if u in f.fetched {
      SkipKnown(q, pos, f.fetched);
    } else {
      NextInOrder(q, pos, Order(f, root), |f.fetched|);
    }
  }

  lemma NoNewLinks(order: seq<Url>, links: seq<Url>)
    requires links == []
    ensures order + New(order, links) == order
  {
  }

  /** A line that adds no links (known already, or not text) leaves the search where it must be. */
  lemma FetchWithoutLinks(w: Web, world: set<Url>, f: Files, root: Url, i: nat, pos: nat)
    requires Inv(w, world, f, root, pos) && pos < |f.unvisited| && i == |f.visited| + 1
    requires Listed(f.unvisited[pos].md5, f.downloadMd5) <==> f.unvisited[pos].url in f.fetched
    requires Listed(f.unvisited[pos].md5, f.downloadMd5) || w.fetch(f.unvisited[pos].url).NotText?
    ensures Inv(w, world, FetchEffect(w, f, i, f.unvisited[pos]), root, pos + 1)
  {
    var line := f.unvisited[pos];
    FetchFiles(w, f, i, pos);
    FetchAdvances(w, f, root, i, pos);
    FetchVisits(w, f, i, line);
    if !Listed(line.md5, f.downloadMd5) {
      SearchingStep(w.fetch, world, Order(f, root), |f.fetched|);
      NoNewLinks(Order(f, root), Links(w.fetch, line.url));
    }
  }

  /** What s_search_urls.sh, s_uniq_url.sh and `cat` make of the files, for given new scratch lines. */
  ghost predicate ExpandEffect(w: Web, f: Files, g: Files, links: seq<Url>, root: Url) {
    && g == f.(scratch := g.scratch, unvisited := g.unvisited)
    && FilesOk(w, g)
    && g.unvisited == f.unvisited + Scratch(g)
    && FirstOcc(Urls(g.unvisited)) == Order(g, root)
    && Order(g, root) == Order(f, root) + New(Order(f, root), links)
    && (g.scratch == None ==> g == f)
  }

  lemma GrownQueue(a: seq<Line>, b: seq<Line>, k: nat)
    requires a <= b && k <= |a|
    ensures Urls(a)[..k] == Urls(b)[..k]
  {
  }

  lemma MoreVisits(visits: nat, m: int)
    ensures (visits + 1) * m == visits * m + m
  {
  }

  /** After a text page was fetched, its new links join the search, and the queue grows by less than n lines. */
  lemma ExpandKeeps(w: Web, world: set<Url>, f: Files, g: Files, h: Files, root: Url, pos: nat, u: Url)
    requires SearchOk(w, world, f, root) && Small(w, world, f, root)
    requires |f.fetched| < |Order(f, root)| && Order(f, root)[|f.fetched|] == u
    requires QueueOk(g, root, pos) && VisitedOk(w, g)
    requires Order(g, root) == Order(f, root) && g.unvisited == f.unvisited
    requires |g.fetched| == |f.fetched| + 1 && |g.visited| == |f.visited| + 1
    requires ExpandEffect(w, g, h, Links(w.fetch, u), root)
    ensures Inv(w, world, h, root, pos)
  {
    assert Crawlable(w.fetch, world, root);
    hide SearchOk, VisitedOk, New, FirstOcc;
    assert QueueOk(h, root, pos) by {
      ExpandQueue(w, g, h, root, pos, Links(w.fetch, u));
    }
    assert SearchOk(w, world, h, root) by {
      ExpandSearches(w, world, f, h, root, u);
    }
    assert Small(w, world, h, root) by {
      ExpandSize(w, world, f, h, root);
    }
    VisitedFrame(w, g, h);
  }

  lemma VisitedFrame(w: Web, g: Files, h: Files)
    requires VisitedOk(w, g) && h == g.(scratch := h.scratch, unvisited := h.unvisited)
    ensures VisitedOk(w, h)
  {
    hide VisitedIs;
  }

  lemma ExpandQueue(w: Web, g: Files, h: Files, root: Url, pos: nat, links: seq<Url>)
    requires QueueOk(g, root, pos) && ExpandEffect(w, g, h, links, root)
    ensures QueueOk(h, root, pos)
  {
    GrownQueue(g.unvisited, h.unvisited, pos);
    assert Order(g, root) <= Order(h, root);
  }

  lemma ExpandSize(w: Web, world: set<Url>, f: Files, h: Files, root: Url)
    requires Crawlable(w.fetch, world, root) && Small(w, world, f, root) && SearchOk(w, world, h, root)
    requires |h.visited| == |f.visited| + 1 && |h.unvisited| <= |f.unvisited| + |Known(h)|
    ensures Small(w, world, h, root)
  {
    SearchExtends(w.fetch, world, Order(h, root), |h.fetched|);
    MoreVisits(|f.visited|, |Crawled(w.fetch, world, root)| - 1);
  }

  lemma FetchAndExpand(w: Web, world: set<Url>, f: Files, h: Files, root: Url, i: nat, pos: nat)
    requires Inv(w, world, f, root, pos) && pos < |f.unvisited| && i == |f.visited| + 1
    requires f.unvisited[pos].url !in f.fetched
    requires !Listed(f.unvisited[pos].md5, f.downloadMd5) && w.fetch(f.unvisited[pos].url).Text?
    requires var line := f.unvisited[pos];
             ExpandEffect(w, FetchEffect(w, f, i, line), h, Links(w.fetch, line.url), root)
    ensures Inv(w, world, h, root, pos + 1)
    ensures h.scratch == None ==> pos + 1 == |h.unvisited|
  {
    var line := f.unvisited[pos];
    FetchAdvances(w, f, root, i, pos);
    FetchVisits(w, f, i, line);
    ExpandKeeps(w, world, f, FetchEffect(w, f, i, line), h, root, pos + 1, line.url);
  }

  lemma ExpandSearches(w: Web, world: set<Url>, f: Files, h: Files, root: Url, u: Url)
    requires SearchOk(w, world, f, root) && |f.fetched| < |Order(f, root)| && Order(f, root)[|f.fetched|] == u
    requires |h.fetched| == |f.fetched| + 1
    requires Order(h, root) == Order(f, root) + New(Order(f, root), Links(w.fetch, u))
    ensures SearchOk(w, world, h, root)
  {
    SearchingStep(w.fetch, world, Order(f, root), |f.fetched|);
  }

  lemma MoreVisitsBound(visits: nat, n: nat)
    requires visits <= n && n >= 1
    ensures visits * (n - 1) <= n * (n - 1)
  {
    assert (n - visits) * (n - 1) >= 0;
  }

  lemma Started(w: Web, world: set<Url>, f: Files, root: Url)
    requires Crawlable(w.fetch, world, root)
    requires f == Files([Line(root, w.md5(root))], [], [], None, map[], [])
    ensures Inv(w, world, f, root, 0)
  {
    assert FirstOcc([root]) == [root] && FirstOcc([]) == [];
    hide FirstOcc, New, Links;
    assert Urls(f.unvisited) == [root] == Order(f, root);
    assert Urls(f.unvisited)[..0] == [];
  }

  lemma FetchedBound(w: Web, world: set<Url>, f: Files, root: Url)
    requires SearchOk(w, world, f, root)
    ensures |f.fetched| <= |world|
  {
    DistinctBound(Order(f, root), world);
  }

  /** The files after a crawl: what is fetched, queued and visited is the search order itself. */
  ghost predicate CrawlResult(w: Web, f: Files, all: seq<Url>) {
    && f.fetched == Urls(f.downloadMd5) == all
    && FirstOcc(Urls(f.unvisited)) == all
    && |f.unvisited| <= 1 + |all| * (|all| - 1)
    && VisitedOk(w, f)
  }

  lemma Finished(w: Web, world: set<Url>, f: Files, root: Url, pos: nat)
    requires Inv(w, world, f, root, pos) && pos == |f.unvisited|
    ensures CrawlResult(w, f, Crawled(w.fetch, world, root))
  {
    assert Urls(f.unvisited)[..pos] == Urls(f.unvisited);
    TextOnlyLength(w.fetch, f.fetched);
    MoreVisitsBound(|f.visited|, |f.fetched|);
  }

  /** What a finished crawl means, without reference to any search order. */
  lemma CrawlIsReachability(w: Web, world: set<Url>, f: Files, root: Url)
    requires Crawlable(w.fetch, world, root) && CrawlResult(w, f, Crawled(w.fetch, world, root))
    ensures Distinct(f.fetched) && Distinct(FirstOcc(Urls(f.unvisited)))
    ensures forall u :: u in f.fetched <==> Reachable(w.fetch, root, u)
    ensures forall u :: u in Urls(f.unvisited) <==> Reachable(w.fetch, root, u)
    ensures forall u :: (exists k :: 0 <= k < |f.visited| && f.visited[k].url == u)
                        <==> Reachable(w.fetch, root, u) && w.fetch(u).Text?
    ensures forall j, k | 0 <= j < k < |f.visited| ::
              f.visited[j].path != f.visited[k].path && f.visited[j].url != f.visited[k].url
  {
    CrawledIsReachable(w.fetch, world, root);
    FirstOccMembers(Urls(f.unvisited));
    TextOnlyMembers(w.fetch, f.fetched);
    forall u | Reachable(w.fetch, root, u) && w.fetch(u).Text?
      ensures exists k :: 0 <= k < |f.visited| && f.visited[k].url == u
    {
      var k :| 0 <= k < |TextOnly(w.fetch, f.fetched)| && TextOnly(w.fetch, f.fetched)[k] == u;
      assert f.visited[k].url == u;
    }
  }

  /** Pages are fetched in the order of their distance from the root, counted in links. */
  lemma FetchedNearestFirst(w: Web, world: set<Url>, f: Files, root: Url, i: nat, j: nat, p: seq<Url>)
    returns (q: seq<Url>)
    requires Crawlable(w.fetch, world, root) && CrawlResult(w, f, Crawled(w.fetch, world, root))
    requires i <= j < |f.fetched|
    requires Path(w.fetch, p) && p[0] == root && p[|p| - 1] == f.fetched[j]
    ensures Path(w.fetch, q) && q[0] == root && q[|q| - 1] == f.fetched[i] && |q| <= |p|
  {
    q := D.NearestFirst(w.fetch, world, root, i, j, p);
  }

  lemma {:induction false} TextOnlyMembers(fetch: Url -> Page, s: seq<Url>)
    ensures forall u :: u in TextOnly(fetch, s) <==> u in s && fetch(u).Text?
    ensures Distinct(s) ==> Distinct(TextOnly(fetch, s))
  {
    if s == [] {
    } else {
      TextOnlyMembers(fetch, s[..|s| - 1]);
      assert s == s[..|s| - 1] + [s[|s| - 1]];
    }
  }

  /** stat_cnt_tool.sh: print a line unless its md5 was marked before. */
  method FirstLines(ghost md5: Url -> string, lines: seq<Line>) returns (out: seq<Line>)
    requires Injective(md5) && Hashed(md5, lines)
    ensures Urls(out) == FirstOcc(Urls(lines)) && Hashed(md5, out)
  {
    var mark: set<string> := {};
    out := [];
    for k := 0 to |lines|
      invariant Hashed(md5, out) && Urls(out) == FirstOcc(Urls(lines[..k]))
      invariant forall m :: m in mark <==> Listed(m, lines[..k])
    {
      ListedGrows(lines, k);
      FirstLinesStep(md5, lines, k);
      if lines[k].md5 !in mark {
        mark := mark + {lines[k].md5};
        out := out + [lines[k]];
      }
    }
    assert lines[..|lines|] == lines;
  }

  lemma FirstLinesStep(md5: Url -> string, lines: seq<Line>, k: nat)
    requires Injective(md5) && Hashed(md5, lines) && k < |lines|
    ensures FirstOcc(Urls(lines[..k + 1])) ==
            FirstOcc(Urls(lines[..k])) + if Listed(lines[k].md5, lines[..k]) then [] else [lines[k].url]
  {
    assert Urls(lines[..k + 1]) == Urls(lines[..k]) + [lines[k].url];
    ListedIsMember(md5, lines[k].url, lines[..k]);
    FirstOccSnoc(Urls(lines[..k]), lines[k].url);
  }

  lemma ListedGrows(lines: seq<Line>, k: nat)
    requires k < |lines|
    ensures forall m :: Listed(m, lines[..k + 1]) <==> Listed(m, lines[..k]) || m == lines[k].md5
  {
    var a, b := lines[..k], lines[..k + 1];
    forall m ensures Listed(m, b) <==> Listed(m, a) || m == lines[k].md5 {
      if Listed(m, a) {
        var j :| 0 <= j < |a| && a[j].md5 == m;
        assert b[j].md5 == m;
      }
      if m == lines[k].md5 {
        assert b[k].md5 == m;
      }
    }
  }

  class Spider {
    const fetch: Url -> Page
    const md5: Url -> string

    var unvisited: seq<Line>
    var downloadMd5: seq<Line>
    var visited: seq<Visit>
    var scratch: Option<seq<Line>>
    var dumps: map<nat, Url>
    var fetched: seq<Url>

    ghost function State(): Files
      reads this
    {
      Files(unvisited, downloadMd5, visited, scratch, dumps, fetched)
    }

    ghost function Site(): Web {
      Web(fetch, md5)
    }

    constructor (fetch: Url -> Page, md5: Url -> string)
      ensures this.fetch == fetch && this.md5 == md5
      ensures unvisited == [] && downloadMd5 == [] && visited == []
      ensures scratch == None && dumps == map[] && fetched == []
    {
      this.fetch, this.md5 := fetch, md5;
      unvisited, downloadMd5, visited := [], [], [];
      scratch, dumps, fetched := None, map[], [];
    }

    /** s_download.sh: fetch unless already fetched; keep the dump only if it is text. */
    method Download(i: nat, url: Url, m: string) returns (ok: bool)
      modifies this`downloadMd5, this`dumps, this`fetched
      ensures Listed(m, old(downloadMd5)) ==>
                !ok && downloadMd5 == old(downloadMd5) && dumps == old(dumps) && fetched == old(fetched)
      ensures !Listed(m, old(downloadMd5)) ==>
                && downloadMd5 == old(downloadMd5) + [Line(url, md5(url))]
                && fetched == old(fetched) + [url]
                && ok == fetch(url).Text?
                && dumps == if ok then old(dumps)[i := url] else old(dumps) - {i}
    {
      if Listed(m, downloadMd5) {
        return false;
      }
      dumps := dumps[i := url];
      fetched := fetched + [url];
      downloadMd5 := downloadMd5 + [Line(url, md5(url))];
      if fetch(url).NotText? {
        dumps := dumps - {i};
        return false;
      }
      return true;
    }

    /** s_uniq_url.sh: append to the scratch file the links that are not queued. */
    method UniqUrls(links: seq<Url>)
      requires Injective(md5) && Hashed(md5, unvisited)
      requires scratch.Some? ==> Hashed(md5, scratch.value)
      modifies this`scratch
      ensures scratch.Some? ==> Hashed(md5, scratch.value)
      ensures var novel := New(Urls(unvisited), links);
              && (scratch == None <==> old(scratch) == None && novel == [])
              && (scratch.Some? ==>
                    old(if scratch.Some? then scratch.value else []) <= scratch.value
                    && Urls(scratch.value) == Urls(old(if scratch.Some? then scratch.value else [])) + novel)
    {
      hide New;
      NewOfNone(Urls(unvisited));
      assert links[..0] == [];
      ghost var before := if scratch.Some? then scratch.value else [];
      assert scratch.Some? ==> Urls(scratch.value) == Urls(before) + [];
      assert scratch == None ==> Hashed(md5, before) && Urls(before) == Urls(before) + [];
      hide Hashed, Listed, Urls;
      for k := 0 to |links|
        invariant scratch.Some? ==> Hashed(md5, scratch.value)
        invariant var novel := New(Urls(unvisited), links[..k]);
                  && (scratch == None <==> old(scratch) == None && novel == [])
                  && (scratch.Some? ==> before <= scratch.value && Urls(scratch.value) == Urls(before) + novel)
      {
        var htm := links[k];
        NewSnoc(Urls(unvisited), links, k);
        ListedIsMember(md5, htm, unvisited);
        if !Listed(md5(htm), unvisited) {
          ghost var lines := if scratch.Some? then scratch.value else before;
          NovelLine(md5, before, New(Urls(unvisited), links[..k]), lines, htm);
          scratch := Some((if scratch.Some? then scratch.value else []) + [Line(htm, md5(htm))]);
        }
      }
      assert links[..|links|] == links;
    }

    /** s_search_urls.sh, s_uniq_url.sh and the `cat` of the loop body. */
    method Expand(path: nat, ghost root: Url) returns (ok: bool)
      requires path in dumps && Injective(md5) && FilesOk(Site(), State())
      requires FirstOcc(Urls(unvisited)) == Order(State(), root) && Distinct(Links(fetch, dumps[path]))
      modifies this`scratch, this`unvisited
      ensures ExpandEffect(Site(), old(State()), State(), Links(fetch, dumps[path]), root)
      ensures ok <==> scratch.Some?
      ensures unvisited == if ok then old(unvisited) + scratch.value else old(unvisited)
    {
      hide FirstOcc, New, Links, Injective;
      var links := Links(fetch, dumps[path]);
      ghost var q, was := Urls(unvisited), Known(State());
      assert FirstOcc(q + (was + New(q, links))) == [root] + was + New([root] + was, links)
          && [root] + was + New([root] + was, links) == [root] + (was + New(q, links))
          && New(q, links) == New([root] + was, links) by {
        AppendScratch(q, root, was, links);
      }
      UniqUrls(links);
      assert Known(State()) == was + New(q, links);
      if scratch == None {
        return false;
      }
      UrlsAppend(unvisited, scratch.value);
      unvisited := unvisited + scratch.value;
      return true;
    }

    /** One pass of the loop body; the counter stays behind only if nothing is left to read. */
    method Body(i: nat, pos: nat, ghost root: Url, ghost world: set<Url>) returns (next: nat)
      requires Injective(md5) && Inv(Site(), world, State(), root, pos)
      requires pos < |unvisited| && i == |visited| + 1
      modifies this
      ensures Inv(Site(), world, State(), root, pos + 1) && CounterOk(State(), next, pos + 1)
      ensures State() == old(State()) || |old(fetched)| < |fetched|
    {
      hide FirstOcc, New, Search, TextOnly;
      var line := unvisited[pos];
      ghost var f := State();
      ListedIsFetched(Site(), f, pos);
      FetchAdvances(Site(), f, root, i, pos);
      FetchFiles(Site(), f, i, pos);
      var ok := Download(i, line.url, line.md5);
      if !ok {
        FetchWithoutLinks(Site(), world, f, root, i, pos);
        assert State() == FetchEffect(Site(), f, i, line);
        return i;
      }
      visited := visited + [Visit(line.url, line.md5, i)];
      assert State() == FetchEffect(Site(), f, i, line);
      var cat := Expand(i, root);
      FetchAndExpand(Site(), world, f, State(), root, i, pos);
      return if cat then i + 1 else i;
    }

    /** The loop of spider_ctl.sh, for a root whose reachable URLs are finitely many. */
    method Crawl(root: Url, ghost world: set<Url>)
      requires Crawlable(fetch, world, root) && Injective(md5)
      requires downloadMd5 == [] && visited == [] && scratch == None && dumps == map[] && fetched == []
      modifies this
      ensures CrawlResult(Site(), State(), Crawled(fetch, world, root))
    {
      unvisited := [Line(root, md5(root))];
      var i := 1;
      var pos := 0;
      Started(Site(), world, State(), root);
      while pos < |unvisited|
        invariant Inv(Site(), world, State(), root, pos) && CounterOk(State(), i, pos)
        decreases |world| - |fetched|, |unvisited| - pos
      {
        i := Body(i, pos, root, world);
        pos := pos + 1;
        FetchedBound(Site(), world, State(), root);
      }
      Finished(Site(), world, State(), root, pos);
    }
  }
}
