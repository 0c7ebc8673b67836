/**
 * Paging over the bucket files (url_manager/cgi-bin/sh_cgi/get_show_urls.sh): the files of
 * bucket 0, 1, ... in `ls` order are skipped or printed with counters carried from file to
 * file.
 */
module Pager {
  import opened Modulo

  type Line = string
  type File = seq<Line>

  function Concat(files: seq<File>): seq<Line> {
    if files == [] then [] else Concat(files[..|files| - 1]) + files[|files| - 1]
  }

  function AllFiles(buckets: seq<seq<File>>): seq<File> {
    if buckets == [] then [] else AllFiles(buckets[..|buckets| - 1]) + buckets[|buckets| - 1]
  }

  function Clip(x: int, hi: nat): (r: nat)
    ensures r <= hi
  {
    if x < 0 then 0 else if x > hi then hi else x
  }

  /** At most `need` lines from line `skip` on. */
  function Window(lines: seq<Line>, skip: int, need: int): seq<Line> {
    var from := Clip(skip, |lines|);
    lines[from..from + Clip(need, |lines| - from)]
  }

  /** What a page is supposed to show: curr_page from 1 on, per_page lines each. */
  function Begin(currPage: int, perPage: int): int {
    perPage * (currPage - 1) + 1
  }

  lemma PartOfSum(a: seq<Line>, b: seq<Line>, lo: nat, hi: nat)
    requires lo <= hi <= |a| + |b|
    ensures Clip(lo, |a|) <= Clip(hi, |a|) && Clip(lo - |a|, |b|) <= Clip(hi - |a|, |b|)
    ensures Part(a + b, lo, hi) ==
            Part(a, Clip(lo, |a|), Clip(hi, |a|)) + Part(b, Clip(lo - |a|, |b|), Clip(hi - |a|, |b|))
  {
  }

  /** Where a window over n + m lines begins and ends in the first n and in the other m. */
  lemma ClipSplit(n: nat, m: nat, skip: int, need: int, first: nat)
    requires first == Clip(need, n - Clip(skip, n))
    ensures var lo := Clip(skip, n + m); var hi := lo + Clip(need, n + m - lo);
            && Clip(lo, n) == Clip(skip, n) && Clip(hi, n) == Clip(lo, n) + first
            && Clip(lo - n, m) == Clip(skip - n, m)
            && Clip(hi - n, m) == Clip(lo - n, m) + Clip(need - first, m - Clip(lo - n, m))
  {
  }

  /** A window over two files is a window over each, with the counters carried on. */
  lemma WindowSplit(a: seq<Line>, b: seq<Line>, skip: int, need: int)
    ensures var first := Window(a, skip, need);
            Window(a + b, skip, need) == first + Window(b, skip - |a|, need - |first|)
  {
    hide *;
    var n, m, first := |a|, |b|, |Window(a, skip, need)|;
    var lo := Clip(skip, n + m);
    var hi := lo + Clip(need, n + m - lo);
    WindowIs(a, skip, need, Clip(skip, n), Clip(skip, n) + Clip(need, n - Clip(skip, n)));
    ClipSplit(n, m, skip, need, first);
    WindowIs(b, skip - n, need - first, Clip(lo - n, m), Clip(hi - n, m));
    WindowIs(a + b, skip, need, lo, hi);
    PartOfSum(a, b, lo, hi);
  }

  function Part(lines: seq<Line>, from: nat, to: nat): seq<Line>
    requires from <= to <= |lines|
  {
    lines[from..to]
  }

  lemma WindowIs(lines: seq<Line>, skip: int, need: int, from: nat, to: nat)
    requires from == Clip(skip, |lines|) && to == from + Clip(need, |lines| - from)
    ensures to <= |lines| && Window(lines, skip, need) == Part(lines, from, to)
    ensures |Window(lines, skip, need)| == to - from
  {
  }

  /** The counters before the next file, after the files holding `seen`. */
  ghost predicate Carried(seen: seq<Line>, begin: int, perPage: int, lineBegin: int, needPrint: int, tmp: seq<Line>) {
    && tmp == Window(seen, begin, perPage)
    && needPrint == perPage - |tmp|
    && (lineBegin > 0 ==> lineBegin == begin - |seen|)
    && (lineBegin <= 0 ==> begin <= |seen|)
  }

  lemma AwkLine(file: File, k: nat, begin: int, need: int)
    requires k < |file|
    ensures var printed := Window(file[..k], begin, need);
            Window(file[..k + 1], begin, need) == printed + if begin <= k && |printed| < need then [file[k]] else []
  {
    WindowSplit(file[..k], [file[k]], begin, need);
    assert file[..k + 1] == file[..k] + [file[k]];
  }

  /** The awk program: count `i` lines down, then print while `j` lasts. */
  method Awk(file: File, lineBegin: int, needPrint: int, tmp: seq<Line>) returns (out: seq<Line>)
    ensures out == tmp + Window(file, lineBegin, needPrint)
  {
    var i, j := lineBegin, needPrint;
    out := tmp;
    for k := 0 to |file|
      invariant i == if lineBegin <= 0 then lineBegin else if k <= lineBegin then lineBegin - k else 0
      invariant out == tmp + Window(file[..k], lineBegin, needPrint)
      invariant j == needPrint - |Window(file[..k], lineBegin, needPrint)|
    {
      AwkLine(file, k, lineBegin, needPrint);
      if i > 0 {
        i := i - 1;
      } else if j > 0 {
        out := out + [file[k]];
        j := j - 1;
      }
    }
    assert file[..|file|] == file;
  }

  /** One file of the inner loop. */
  method ShowFile(file: File, perPage: int, lineBegin: int, needPrint: int, tmp: seq<Line>,
                  ghost seen: seq<Line>, ghost begin: int)
    returns (lineBegin': int, needPrint': int, tmp': seq<Line>, exits: bool)
    requires Carried(seen, begin, perPage, lineBegin, needPrint, tmp)
    ensures Carried(seen + file, begin, perPage, lineBegin', needPrint', tmp')
    ensures exits ==> needPrint' <= 0
  {
    lineBegin', needPrint', tmp', exits := lineBegin, needPrint, tmp, false;
    WindowSplit(seen, file, begin, perPage);
    var curLine := |file|;
    var offset := lineBegin - curLine;
    if offset > 0 {
      lineBegin' := offset;
    } else {
      tmp' := Awk(file, lineBegin, needPrint, tmp);
      lineBegin' := 0;
      var alreadyPrint := |tmp'|;
      needPrint' := perPage - alreadyPrint;
      exits := needPrint' <= 0;
    }
  }

  method ShowBucket(files: seq<File>, perPage: int, lineBegin: int, needPrint: int, tmp: seq<Line>,
                    ghost seen: seq<Line>, ghost begin: int)
    returns (lineBegin': int, needPrint': int, tmp': seq<Line>, exits: bool)
    requires Carried(seen, begin, perPage, lineBegin, needPrint, tmp)
    ensures !exits ==> Carried(seen + Concat(files), begin, perPage, lineBegin', needPrint', tmp')
    ensures exits ==> tmp' == Window(seen + Concat(files), begin, perPage) && perPage <= |tmp'|
  {
    lineBegin', needPrint', tmp', exits := lineBegin, needPrint, tmp, false;
    assert seen + Concat(files[..0]) == seen;
    for j := 0 to |files|
      invariant !exits && Carried(seen + Concat(files[..j]), begin, perPage, lineBegin', needPrint', tmp')
    {
      ghost var before := seen + Concat(files[..j]);
      assert files[..j + 1][..j] == files[..j];
      assert seen + Concat(files[..j + 1]) == before + files[j];
      lineBegin', needPrint', tmp', exits :=
        ShowFile(files[j], perPage, lineBegin', needPrint', tmp', before, begin);
      if exits {
        LeaveBucket(files, j, seen, begin, perPage);
        return;
      }
    }
    assert files[..|files|] == files;
  }

  /** A full page is not changed by the lines behind it. */
  lemma PageIsFull(seen: seq<Line>, more: seq<Line>, begin: int, perPage: int)
    requires perPage <= |Window(seen, begin, perPage)|
    ensures Window(seen + more, begin, perPage) == Window(seen, begin, perPage)
  {
    WindowSplit(seen, more, begin, perPage);
  }

  lemma LeaveBucket(files: seq<File>, j: nat, seen: seq<Line>, begin: int, perPage: int)
    requires j < |files| && perPage <= |Window(seen + Concat(files[..j + 1]), begin, perPage)|
    ensures Window(seen + Concat(files), begin, perPage) == Window(seen + Concat(files[..j + 1]), begin, perPage)
  {
    var upto := Concat(files[..j + 1]);
    ConcatPrefix(files, j + 1);
    PageIsFull(seen + upto, Concat(files)[|upto|..], begin, perPage);
    assert seen + Concat(files) == seen + upto + Concat(files)[|upto|..];
  }

  lemma {:induction false} ConcatPrefix(files: seq<File>, j: nat)
    requires j <= |files|
    ensures Concat(files[..j]) <= Concat(files)
    decreases |files|
  {
    if j < |files| {
      ConcatPrefix(files[..|files| - 1], j);
      assert files[..|files| - 1][..j] == files[..j];
    } else {
      assert files[..j] == files;
    }
  }

  lemma {:induction false} ConcatAppend(a: seq<File>, b: seq<File>)
    ensures Concat(a + b) == Concat(a) + Concat(b)
    decreases |b|
  {
    if b == [] {
      assert a + b == a;
    } else {
      var c, last := a + b, b[|b| - 1];
      ConcatAppend(a, b[..|b| - 1]);
      assert c[..|c| - 1] == a + b[..|b| - 1] && c[|c| - 1] == last;
      assert Concat(c) == Concat(a) + Concat(b[..|b| - 1]) + last;
    }
  }

  lemma AllLinesAppend(buckets: seq<seq<File>>, i: nat)
    requires i < |buckets|
    ensures Concat(AllFiles(buckets[..i + 1])) == Concat(AllFiles(buckets[..i])) + Concat(buckets[i])
  {
    assert buckets[..i + 1][..i] == buckets[..i];
    ConcatAppend(AllFiles(buckets[..i]), buckets[i]);
  }

  lemma {:induction false} AllLinesPrefix(buckets: seq<seq<File>>, i: nat)
    requires i <= |buckets|
    ensures Concat(AllFiles(buckets[..i])) <= Concat(AllFiles(buckets))
    decreases |buckets| - i
  {
    if i < |buckets| {
      AllLinesAppend(buckets, i);
      AllLinesPrefix(buckets, i + 1);
    } else {
      assert buckets[..i] == buckets;
    }
  }

  /** The script: for every layout of the buckets, the page is a window over all lines. */
  method Show(currPage: int, perPage: int, buckets: seq<seq<File>>) returns (tmp: seq<Line>)
    ensures tmp == Window(Concat(AllFiles(buckets)), Begin(currPage, perPage), perPage)
    ensures IsPage(tmp, buckets, currPage, perPage)
  {
    hide IsPage;
    WindowIsPage(buckets, currPage, perPage);
    var lineBegin := perPage * (currPage - 1) + 1;
    var needPrint := perPage;
    tmp := [];
    ghost var begin := Begin(currPage, perPage);
    for i := 0 to |buckets|
      invariant Carried(Concat(AllFiles(buckets[..i])), begin, perPage, lineBegin, needPrint, tmp)
    {
      ghost var seen := Concat(AllFiles(buckets[..i]));
      var exits;
      lineBegin, needPrint, tmp, exits :=
        ShowBucket(buckets[i], perPage, lineBegin, needPrint, tmp, seen, begin);
      AllLinesAppend(buckets, i);
      if exits {
        AllLinesPrefix(buckets, i + 1);
        ghost var all := Concat(AllFiles(buckets));
        ghost var upto := seen + Concat(buckets[i]);
        PageIsFull(upto, all[|upto|..], begin, perPage);
        assert all == upto + all[|upto|..];
        return;
      }
    }
    assert buckets[..|buckets|] == buckets;
  }

  // --- where a line of a file stands among all lines ---

  /** `wc -l` of these files in all. */
  function Count(files: seq<File>): nat {
    if files == [] then 0 else |files[0]| + Count(files[1..])
  }

  function CountAll(buckets: seq<seq<File>>): nat {
    if buckets == [] then 0 else Count(buckets[0]) + CountAll(buckets[1..])
  }

  lemma {:induction false} CountSnoc(files: seq<File>, f: File)
    ensures Count(files + [f]) == Count(files) + |f|
  {
    if files == [] {
      assert [f][1..] == [];
    } else {
      assert (files + [f])[1..] == files[1..] + [f];
      CountSnoc(files[1..], f);
    }
  }

  lemma {:induction false} CountAllSnoc(buckets: seq<seq<File>>, files: seq<File>)
    ensures CountAll(buckets + [files]) == CountAll(buckets) + Count(files)
  {
    if buckets == [] {
      assert [files][1..] == [];
    } else {
      assert (buckets + [files])[1..] == buckets[1..] + [files];
      CountAllSnoc(buckets[1..], files);
    }
  }

  lemma {:induction false} ConcatLength(files: seq<File>)
    ensures |Concat(files)| == Count(files)
    decreases |files|
  {
    if files == [] {
    } else {
      var front := files[..|files| - 1];
      assert files == front + [files[|files| - 1]];
      ConcatLength(front);
      CountSnoc(front, files[|files| - 1]);
    }
  }

  /** Line k of file j stands behind all lines of the files before. */
  lemma {:induction false} LineInFiles(files: seq<File>, j: nat, k: nat)
    requires j < |files| && k < |files[j]|
    ensures Count(files[..j]) + k < |Concat(files)|
    ensures Concat(files)[Count(files[..j]) + k] == files[j][k]
    decreases |files|
  {
    var n := |files| - 1;
    ConcatLength(files[..n]);
    if j == n {
    } else {
      LineInFiles(files[..n], j, k);
      assert files[..n][..j] == files[..j];
    }
  }

  lemma {:induction false} AllFilesLength(buckets: seq<seq<File>>)
    ensures |Concat(AllFiles(buckets))| == CountAll(buckets)
    decreases |buckets|
  {
    if buckets == [] {
    } else {
      var n := |buckets| - 1;
      assert buckets == buckets[..n] + [buckets[n]];
      AllFilesLength(buckets[..n]);
      ConcatAppend(AllFiles(buckets[..n]), buckets[n]);
      ConcatLength(buckets[n]);
      CountAllSnoc(buckets[..n], buckets[n]);
    }
  }

  /** The number of a line among all lines: those of earlier buckets and of earlier files are before it. */
  function Position(buckets: seq<seq<File>>, i: nat, j: nat, k: nat): nat
    requires i < |buckets| && j < |buckets[i]|
  {
    CountAll(buckets[..i]) + Count(buckets[i][..j]) + k
  }

  lemma {:induction false} LineInBuckets(buckets: seq<seq<File>>, i: nat, j: nat, k: nat)
    requires i < |buckets| && j < |buckets[i]| && k < |buckets[i][j]|
    ensures Position(buckets, i, j, k) < |Concat(AllFiles(buckets))|
    ensures Concat(AllFiles(buckets))[Position(buckets, i, j, k)] == buckets[i][j][k]
    decreases |buckets|
  {
    var n := |buckets| - 1;
    ConcatAppend(AllFiles(buckets[..n]), buckets[n]);
    AllFilesLength(buckets[..n]);
    if i == n {
      LineInFiles(buckets[n], j, k);
    } else {
      LineInBuckets(buckets[..n], i, j, k);
      assert buckets[..n][..i] == buckets[..i];
    }
  }

  // --- what the pages add up to ---

  /** Line number l, counted from 0, belongs on page c of k lines. */
  predicate OnPage(l: nat, c: int, k: int) {
    k >= 1 && if c >= 1 then l >= 1 && c == (l - 1) / k + 1 else l < k
  }

  /** Line l of `total` lines is in the window that a page is. */
  predicate Shown(total: nat, c: int, k: int, l: nat) {
    var from := Clip(Begin(c, k), total);
    from <= l < from + Clip(k, total - from)
  }

  lemma ShownIsWindow(lines: seq<Line>, c: int, k: int, l: nat)
    requires l < |lines| && Shown(|lines|, c, k, l)
    ensures var page := Window(lines, Begin(c, k), k); var at := l - Clip(Begin(c, k), |lines|);
            0 <= at < |page| && page[at] == lines[l]
  {
  }

  /**
   * For every number that may be typed in: page 1 and the pages after it share out all lines but
   * line 0, each on one page; page 0 and those before it show the first k lines again.
   */
  lemma WhereShown(total: nat, c: int, k: int, l: nat)
    requires l < total
    ensures Shown(total, c, k, l) <==> OnPage(l, c, k)
  {
    if k >= 1 && c >= 1 {
      PagePosition(c, k, l);
    } else if k >= 1 {
      MulBounds(c - 1, k);
      assert k * (c - 1) == (c - 1) * k;
    }
  }

  lemma PagePosition(c: int, k: int, l: nat)
    requires k >= 1 && c >= 1
    ensures Begin(c, k) >= 1
    ensures Begin(c, k) <= l < Begin(c, k) + k <==> l >= 1 && c == (l - 1) / k + 1
  {
    var q, r := (l - 1) / k, (l - 1) % k;
    assert l - 1 == q * k + r;
    assert k * (c - 1) == (c - 1) * k;
    MulBounds(c - 1, k);
    assert (q - (c - 1)) * k == q * k - (c - 1) * k;
    MulBounds(q - (c - 1), k);
  }

  /** Line 0 is shown on page 0 and before, and on no page from 1 on. */
  lemma FirstLineShown(total: nat, c: int, k: int)
    requires k >= 1 && total > 0
    ensures Shown(total, c, k, 0) <==> c <= 0
  {
    WhereShown(total, c, k, 0);
  }

  lemma PageContents(lines: seq<Line>, c: int, k: int)
    requires c >= 1 && k >= 1
    ensures Begin(c, k) >= 1
    ensures var a := Clip(Begin(c, k), |lines|); var b := Clip(Begin(c + 1, k), |lines|);
            a <= b && Window(lines, Begin(c, k), k) == lines[a..b]
  {
    MulBounds(c - 1, k);
    assert k * (c - 1) == (c - 1) * k && k * c == k * (c - 1) + k;
  }

  function Pages(lines: seq<Line>, m: nat, k: nat): seq<Line> {
    if m == 0 then [] else Pages(lines, m - 1, k) + Window(lines, Begin(m, k), k)
  }

  /** Pages 1 to m, one behind the other, are all lines but the first, up to the m-th page's end. */
  lemma {:induction false} PagesInOrder(lines: seq<Line>, m: nat, k: nat)
    requires k >= 1 && lines != []
    ensures Pages(lines, m, k) == lines[1..Clip(Begin(m + 1, k), |lines|)]
  {
    if m == 0 {
    } else {
      PagesInOrder(lines, m - 1, k);
      PageContents(lines, m, k);
      hide Window, Begin;
      Adjacent(lines, Clip(Begin(m, k), |lines|), Clip(Begin(m + 1, k), |lines|));
    }
  }

  lemma Adjacent(lines: seq<Line>, a: nat, b: nat)
    requires 1 <= a <= b <= |lines|
    ensures lines[1..a] + lines[a..b] == lines[1..b]
  {
  }

  /** Enough pages from page 1 on show everything except line 0. */
  lemma PagesFromOne(lines: seq<Line>, m: nat, k: nat)
    requires k >= 1 && lines != [] && m * k + 1 >= |lines|
    ensures Pages(lines, m, k) == lines[1..]
  {
    PagesInOrder(lines, m, k);
    assert k * m == m * k;
  }

  // --- what the script prints ---

  /**
   * A page that the script prints: how many lines it has, and for every line of every file
   * whether it is there and where.
   */
  ghost predicate IsPage(page: seq<Line>, buckets: seq<seq<File>>, c: int, k: int) {
    var total := CountAll(buckets);
    var from := Clip(Begin(c, k), total);
    && |page| == Clip(k, total - from)
    && forall i: nat, j: nat, l: nat | i < |buckets| && j < |buckets[i]| && l < |buckets[i][j]| ::
         LineOk(page, from, buckets, c, k, i, j, l)
  }

  ghost predicate LineOk(page: seq<Line>, from: nat, buckets: seq<seq<File>>, c: int, k: int, i: nat, j: nat, l: nat)
    requires i < |buckets| && j < |buckets[i]| && l < |buckets[i][j]|
  {
    var at := Position(buckets, i, j, l);
    && (from <= at < from + |page| <==> OnPage(at, c, k))
    && (OnPage(at, c, k) ==> page[at - from] == buckets[i][j][l])
  }

  lemma LineOnPage(page: seq<Line>, from: nat, buckets: seq<seq<File>>, c: int, k: int, i: nat, j: nat, l: nat)
    requires i < |buckets| && j < |buckets[i]| && l < |buckets[i][j]|
    requires from == Clip(Begin(c, k), CountAll(buckets)) && |page| == Clip(k, CountAll(buckets) - from)
    requires page == Window(Concat(AllFiles(buckets)), Begin(c, k), k)
    ensures LineOk(page, from, buckets, c, k, i, j, l)
  {
    hide Concat, AllFiles, CountAll, Window, Position, Clip, Begin;
    var at, total := Position(buckets, i, j, l), CountAll(buckets);
    AllFilesLength(buckets);
    LineInBuckets(buckets, i, j, l);
    WhereShown(total, c, k, at);
    if Shown(total, c, k, at) {
      ShownIsWindow(Concat(AllFiles(buckets)), c, k, at);
    }
  }

  lemma WindowIsPage(buckets: seq<seq<File>>, c: int, k: int)
    ensures IsPage(Window(Concat(AllFiles(buckets)), Begin(c, k), k), buckets, c, k)
  {
    hide Concat, AllFiles, CountAll, Window, Clip, Begin, LineOk, Position;
    var lines, total := Concat(AllFiles(buckets)), CountAll(buckets);
    AllFilesLength(buckets);
    var from := Clip(Begin(c, k), total);
    var page := Window(lines, Begin(c, k), k);
    WindowIs(lines, Begin(c, k), k, from, from + Clip(k, total - from));
    forall i: nat, j: nat, l: nat | i < |buckets| && j < |buckets[i]| && l < |buckets[i][j]|
      ensures LineOk(page, from, buckets, c, k, i, j, l)
    {
      LineOnPage(page, from, buckets, c, k, i, j, l);
    }
  }
}
