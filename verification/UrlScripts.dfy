/** The scripts of url_manager as methods on the files, and the bulk loader. */
module UrlScripts {
  import opened Picks
  import opened UrlStore

  // --- bulk load: what the two passes must produce ---

  /** No line in any file; the counter file is what it is. */
  function Empty(count: int): (s: Store)
    ensures Shaped(s) && s.count == count
  {
    Store(seq(BLOCK_SIZE, _ => seq(TAILS, _ => [])), count)
  }

  /** The URLs put one after another, each into its own file.  No script sets the counter. */
  function Load(md5: string -> string, urls: seq<string>, count: int): (s: Store)
    requires forall u | u in urls :: IsMd5(md5(u))
    ensures Shaped(s) && s.count == count
  {
    if urls == [] then Empty(count)
    else
      var u, s := urls[|urls| - 1], Load(md5, urls[..|urls| - 1], count);
      assert IsMd5(md5(u));
      var b, t := |u| % BLOCK_SIZE, Tail(md5(u));
      SetFile(s, b, t, s.files[b][t] + [Record(u, md5(u))], 0)
  }

  /** The lines the first pass writes to `dump` of bucket b. */
  function OfLength(urls: seq<string>, b: nat): (r: seq<string>)
    ensures forall u | u in r :: u in urls
  {
    if urls == [] then []
    else
      var rest := OfLength(urls[..|urls| - 1], b);
      if |urls[|urls| - 1]| % BLOCK_SIZE == b then rest + [urls[|urls| - 1]] else rest
  }

  /** What the second pass makes of one bucket's dump. */
  function Divide(md5: string -> string, urls: seq<string>): (fs: seq<File>)
    requires forall u | u in urls :: IsMd5(md5(u))
    ensures |fs| == TAILS
  {
    if urls == [] then seq(TAILS, _ => [])
    else
      var u, fs := urls[|urls| - 1], Divide(md5, urls[..|urls| - 1]);
      assert IsMd5(md5(u));
      fs[Tail(md5(u)) := fs[Tail(md5(u))] + [Record(u, md5(u))]]
  }

  /** Splitting by length and then by md5 is the same as filing the URLs one by one. */
  lemma {:induction false} TwoPasses(md5: string -> string, urls: seq<string>, count: int, b: nat)
    requires b < BLOCK_SIZE && forall u | u in urls :: IsMd5(md5(u))
    ensures Load(md5, urls, count).files[b] == Divide(md5, OfLength(urls, b))
  {
    if urls == [] {
    } else {
      var u, rest := urls[|urls| - 1], urls[..|urls| - 1];
      TwoPasses(md5, rest, count, b);
      var some := OfLength(rest, b);
      assert (some + [u])[..|some|] == some;
    }
  }

  predicate BelongsTo(md5: string -> string, b: nat, t: nat, u: string) {
    IsMd5(md5(u)) && |u| % BLOCK_SIZE == b && Tail(md5(u)) == t
  }

  function FileUrls(f: File): (us: seq<string>)
    ensures |us| == |f| && forall k | 0 <= k < |f| :: us[k] == f[k].url
  {
    seq(|f|, k requires 0 <= k < |f| => f[k].url)
  }

  /** A bulk load puts into each file the URLs that belong there, in the order of the input. */
  lemma {:induction false} LoadInOrder(md5: string -> string, urls: seq<string>, count: int, b: nat, t: nat)
    returns (ix: seq<nat>)
    requires b < BLOCK_SIZE && t < TAILS && forall u | u in urls :: IsMd5(md5(u))
    ensures Picked(FileUrls(Load(md5, urls, count).files[b][t]), urls, u => BelongsTo(md5, b, t, u), ix)
    decreases |urls|
  {
    if urls == [] {
      ix := [];
    } else {
      var u, rest := urls[|urls| - 1], urls[..|urls| - 1];
      ix := LoadInOrder(md5, rest, count, b, t);
      var f := Load(md5, rest, count).files[b][t];
      assert urls == rest + [u];
      PickedSnoc(FileUrls(f), rest, v => BelongsTo(md5, b, t, v), ix, u);
      assert FileUrls(f + [Record(u, md5(u))]) == FileUrls(f) + [u];
      if BelongsTo(md5, b, t, u) {
        ix := ix + [|rest|];
      }
    }
  }

  ghost predicate DistinctUrls(urls: seq<string>) {
    forall i, j | 0 <= i < j < |urls| :: urls[i] != urls[j]
  }

  /** After a bulk load the counter is off by the number of URLs, unless it held that number. */
  lemma {:induction false} LoadDrift(md5: string -> string, urls: seq<string>, count: int)
    requires forall u | u in urls :: IsMd5(md5(u))
    ensures Drift(Load(md5, urls, count)) == count - |urls|
  {
    if urls == [] {
      EmptyTotal(BLOCK_SIZE);
    } else {
      var u, rest := urls[|urls| - 1], urls[..|urls| - 1];
      LoadDrift(md5, rest, count);
      var s := Load(md5, rest, count);
      var b, t := |u| % BLOCK_SIZE, Tail(md5(u));
      SetFileDrift(s, b, t, s.files[b][t] + [Record(u, md5(u))], 0);
    }
  }

  /** A bulk load of distinct URLs files each of them once, where it belongs. */
  lemma {:induction false} LoadKeeps(md5: string -> string, known: set<string>, urls: seq<string>, count: int)
    requires Clean(md5, known) && DistinctUrls(urls) && forall u | u in urls :: u in known
    ensures Placed(md5, known, Load(md5, urls, count))
    ensures forall v :: Stored(Load(md5, urls, count), v) <==> v in urls
  {
    if urls == [] {
    } else {
      var u, rest := urls[|urls| - 1], urls[..|urls| - 1];
      LoadKeeps(md5, known, rest, count);
      assert u !in rest;
      hide DistinctUrls;
      LoadOneMore(md5, known, Load(md5, rest, count), u);
      forall v ensures Stored(Load(md5, urls, count), v) <==> v in urls {
        AppendStored(Load(md5, rest, count), |u| % BLOCK_SIZE, Tail(md5(u)), Record(u, md5(u)), 0, v);
        assert v in urls <==> v in rest || v == u;
      }
    }
  }

  lemma LoadOneMore(md5: string -> string, known: set<string>, s: Store, u: string)
    requires Clean(md5, known) && Placed(md5, known, s) && u in known && !Stored(s, u)
    ensures var b, t := |u| % BLOCK_SIZE, Tail(md5(u));
            Placed(md5, known, SetFile(s, b, t, s.files[b][t] + [Record(u, md5(u))], 0))
  {
    var b, t := |u| % BLOCK_SIZE, Tail(md5(u));
    var f := s.files[b][t];
    assert FileOk(md5, known, f, b, t);
    forall k | 0 <= k < |f| ensures f[k].url != u {
      assert InFile(f, f[k].url);
    }
    SetFilePlaced(md5, known, s, b, t, f + [Record(u, md5(u))], 0);
  }

  lemma {:induction false} EmptyTotal(n: nat)
    ensures Total(seq(n, _ => seq(TAILS, _ => []))) == 0
  {
    var files: seq<seq<File>> := seq(n, _ => seq(TAILS, _ => []));
    if n > 0 {
      EmptyTotal(n - 1);
      assert files[..n - 1] == seq(n - 1, _ => seq(TAILS, _ => []));
      EmptySum(TAILS);
    }
  }

  lemma {:induction false} EmptySum(n: nat)
    ensures SumFiles(seq(n, _ => [])) == 0
  {
    var fs: seq<File> := seq(n, _ => []);
    if n > 0 {
      EmptySum(n - 1);
      assert fs[..n - 1] == seq(n - 1, _ => []);
    }
  }

  /**
   * From a bulk load on, whatever is added and deleted, search is right.  If no delete meets
   * two lines with its text, the counter is right exactly if it held the number of loaded URLs.
   */
  lemma {:induction false} LoadAndRun(md5: string -> string, known: set<string>, urls: seq<string>, ops: seq<Op>,
                                      count: int)
    requires Clean(md5, known) && DistinctUrls(urls) && forall u | u in urls :: u in known
    requires Adds(known, ops) && forall op | op in ops :: Ready(md5, op)
    ensures var s := RunOps(md5, Load(md5, urls, count), ops);
            && Placed(md5, known, s)
            && (forall u | u in known :: Found(md5, s, u) <==> Stored(s, u))
            && s.count - Total(s.files) >= count - |urls|
            && (Careful(md5, Load(md5, urls, count), ops) ==> (s.count == Total(s.files) <==> count == |urls|))
  {
    LoadKeeps(md5, known, urls, count);
    LoadDrift(md5, urls, count);
    RunKeeps(md5, known, Load(md5, urls, count), ops);
  }

  lemma AddUrlMeans(md5: string -> string, known: set<string>, s: Store, u: string)
    requires Shaped(s) && IsMd5(md5(u))
    ensures Clean(md5, known) && Placed(md5, known, s) && u in known ==>
              var r := Add(md5, s, u);
              && Placed(md5, known, r) && Drift(r) == Drift(s)
              && (Blocked(md5, s, u) <==> exists v | Stored(s, v) && IsMd5(md5(v)) ::
                                            Contains(Text(Record(v, md5(v))), u) && SameFile(md5, u, v))
              && (Stored(s, u) ==> Blocked(md5, s, u))
              && forall v :: Stored(r, v) <==> Stored(s, v) || (v == u && !Blocked(md5, s, u))
  {
    if Clean(md5, known) && Placed(md5, known, s) && u in known {
      hide Clean, Placed, Stored, Drift, Blocked, Add;
      AddKeeps(md5, known, s, u);
      BlockedByStored(md5, known, s, u);
      forall v ensures Stored(Add(md5, s, u), v) <==> Stored(s, v) || (v == u && !Blocked(md5, s, u)) {
        AddStores(md5, known, s, u, v);
      }
    }
  }

  class Manager {
    const md5: string -> string
    var files: seq<seq<File>>
    var count: int

    ghost function State(): Store
      reads this
    {
      Store(files, count)
    }

    constructor (md5: string -> string, count: int)
      ensures this.md5 == md5 && State() == Empty(count)
    {
      this.md5 := md5;
      files := seq(BLOCK_SIZE, _ => seq(TAILS, _ => []));
      this.count := count;
    }

    /**
     * add_url.cgi.  In a store of known URLs the URL is stored afterwards if it was or if the
     * script says so; the counter follows the number of lines.
     */
    method AddUrl(url: string, ghost known: set<string>) returns (added: bool)
      requires Shaped(State()) && IsMd5(md5(url))
      modifies this
      ensures State() == Add(md5, old(State()), url)
      ensures !added ==> State() == old(State())
      ensures added ==> var b, t := |url| % BLOCK_SIZE, Tail(md5(url));
                        files == old(files)[b := old(files)[b][t := old(files)[b][t] + [Record(url, md5(url))]]]
      ensures Clean(md5, known) && old(Placed(md5, known, State())) && url in known ==>
                && Placed(md5, known, State()) && Drift(State()) == old(Drift(State()))
                && (!added <==> exists v | old(Stored(State(), v)) && IsMd5(md5(v)) ::
                                  Contains(Text(Record(v, md5(v))), url) && SameFile(md5, url, v))
                && (added ==> !old(Stored(State(), url)))
                && forall v :: Stored(State(), v) <==> old(Stored(State(), v)) || (v == url && added)
    {
      AddUrlMeans(md5, known, State(), url);
      var len := |url|;
      var m := md5(url);
      var b, t := len % BLOCK_SIZE, Tail(m);
      var ff := files[b][t];
      if Matches(ff, url) {
        return false;
      }
      files := files[b := files[b][t := ff + [Record(url, m)]]];
      count := count + 1;
      return true;
    }

    /**
     * delete_url.cgi, for any text without characters that are special to sed.  Records stay
     * in their files, and the counter goes wrong exactly if two lines contain the text.
     */
    method DeleteUrl(len: nat, m: string, ghost known: set<string>) returns (deleted: bool)
      requires Shaped(State()) && IsPlain(m)
      modifies this
      ensures State() == Delete(old(State()), len, m)
      ensures deleted <==> State() != old(State())
      ensures old(Placed(md5, known, State())) ==>
                && Placed(md5, known, State())
                && (Drift(State()) == old(Drift(State())) <==> old(AtMostOne(Named(State(), len, m), m)))
    {
      if Placed(md5, known, State()) {
        DeleteKeeps(md5, known, State(), len, m);
      }
      if !HasTail(m) {
        return false;
      }
      var b, t := len % BLOCK_SIZE, Tail(m);
      var ff := files[b][t];
      deleted := Matches(ff, m);
      if deleted {
        files := files[b := files[b][t := Remove(ff, m)]];
        count := count - 1;
      }
    }

    /** search_url.cgi: in a store of known URLs it finds a URL exactly if that is stored. */
    method SearchUrl(query: string, ghost known: set<string>) returns (found: bool)
      requires Shaped(State()) && IsMd5(md5(query))
      ensures found <==> Found(md5, State(), query)
      ensures Clean(md5, known) && Placed(md5, known, State()) && query in known ==>
                (found <==> Stored(State(), query))
    {
      var m := md5(query);
      found := Matches(files[|query| % BLOCK_SIZE][Tail(m)], m);
      if Clean(md5, known) && Placed(md5, known, State()) && query in known {
        SearchIsExact(md5, known, State(), query);
      }
    }

    /** md5_divide.sh i: split the dump of one bucket by the end of the md5. */
    method Md5Divide(i: nat, dump: seq<string>)
      requires Shaped(State()) && i < BLOCK_SIZE && files[i] == Divide(md5, [])
      requires forall u | u in dump :: IsMd5(md5(u))
      modifies this`files
      ensures files == old(files)[i := Divide(md5, dump)]
    {
      ghost var was := files;
      assert was[i := was[i]] == was;
      for k := 0 to |dump|
        invariant files == was[i := Divide(md5, dump[..k])]
      {
        assert dump[..k + 1][..k] == dump[..k];
        var url := dump[k];
        var m := md5(url);
        var fs := files[i];
        files := files[i := fs[Tail(m) := fs[Tail(m)] + [Record(url, m)]]];
      }
      assert dump[..|dump|] == dump;
    }

    /** cut_dump_md5.sh: a pass by length, then one pass for each bucket. */
    method BulkLoad(urls: seq<string>)
      requires forall u | u in urls :: IsMd5(md5(u))
      modifies this`files
      ensures State() == Load(md5, urls, old(count))
    {
      files := seq(BLOCK_SIZE, _ => seq(TAILS, _ => []));
      var dump: seq<seq<string>> := seq(BLOCK_SIZE, _ => []);
      for k := 0 to |urls|
        invariant |dump| == BLOCK_SIZE
        invariant forall b | 0 <= b < BLOCK_SIZE :: dump[b] == OfLength(urls[..k], b)
      {
        assert urls[..k + 1][..k] == urls[..k];
        var p := |urls[k]| % BLOCK_SIZE;
        dump := dump[p := dump[p] + [urls[k]]];
      }
      assert urls[..|urls|] == urls;
      for i := 0 to BLOCK_SIZE
        invariant Shaped(State())
        invariant forall b | 0 <= b < i :: files[b] == Load(md5, urls, count).files[b]
        invariant forall b | i <= b < BLOCK_SIZE :: files[b] == Divide(md5, [])
      {
        Md5Divide(i, dump[i]);
        TwoPasses(md5, urls, count, i);
      }
    }

    /** cal_sum_of_url.sh: the number of lines of all files. */
    method CalSum() returns (sum: nat)
      requires Shaped(State())
      ensures sum == Total(files)
    {
      sum := 0;
      for i := 0 to BLOCK_SIZE
        invariant sum == Total(files[..i])
      {
        var bucket := files[i];
        ghost var before := sum;
        for j := 0 to |bucket|
          invariant sum == before + SumFiles(bucket[..j])
        {
          assert bucket[..j + 1][..j] == bucket[..j];
          sum := sum + |bucket[j]|;
        }
        assert bucket[..|bucket|] == bucket && files[..i + 1][..i] == files[..i];
      }
      assert files[..BLOCK_SIZE] == files;
    }
  }
}
