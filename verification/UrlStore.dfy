/**
 * The URL store of url_manager: one file for each length modulo 50 and each ending of the
 * md5, a counter beside them, and the scripts that add, delete, look up and bulk-load.
 *
 * A file that does not exist is an empty file.  md5 is a function; the URLs of `known` are
 * those the store is ever used with, and it is assumed that an md5 of one of them occurs in
 * the line of another URL never (`Clean`).  URLs hold no blanks.
 */
module UrlStore {
  import opened Picks

  const BLOCK_SIZE := 50
  const TAILS := 256

  datatype Record = Record(url: string, md5: string)
  type File = seq<Record>

  datatype Store = Store(files: seq<seq<File>>, count: int)

  predicate IsHex(c: char) {
    '0' <= c <= '9' || 'a' <= c <= 'f'
  }

  function HexVal(c: char): (v: nat)
    requires IsHex(c)
    ensures v < 16
  {
    if c <= '9' then c as int - '0' as int else c as int - 'a' as int + 10
  }

  predicate IsMd5(m: string) {
    |m| == 32 && forall k | 0 <= k < 32 :: IsHex(m[k])
  }

  /** The last two characters name a file that can exist; otherwise fgrep finds no file. */
  predicate HasTail(m: string) {
    |m| >= 2 && IsHex(m[|m| - 2]) && IsHex(m[|m| - 1])
  }

  /** The file a last2char names. */
  function Tail(m: string): (t: nat)
    requires HasTail(m)
    ensures t < TAILS
  {
    16 * HexVal(m[|m| - 2]) + HexVal(m[|m| - 1])
  }

  /** Two texts lead to the same file exactly if their last two characters are the same. */
  lemma TailIsName(m: string, k: string)
    requires HasTail(m) && HasTail(k)
    ensures Tail(m) == Tail(k) <==> m[|m| - 2..] == k[|k| - 2..]
  {
    assert m[|m| - 2..] == [m[|m| - 2], m[|m| - 1]] && k[|k| - 2..] == [k[|k| - 2], k[|k| - 1]];
    HexValInjective(m[|m| - 2], k[|k| - 2]);
    HexValInjective(m[|m| - 1], k[|k| - 1]);
  }

  lemma HexValInjective(c: char, d: char)
    requires IsHex(c) && IsHex(d)
    ensures HexVal(c) == HexVal(d) <==> c == d
  {
  }

  /** Letters and digits, which sed's pattern takes as they are. */
  predicate IsPlain(m: string) {
    m != "" && forall k | 0 <= k < |m| :: '0' <= m[k] <= '9' || 'a' <= m[k] <= 'z' || 'A' <= m[k] <= 'Z'
  }

  /** fgrep and the address of sed: p occurs in s. */
  predicate Contains(s: string, p: string) {
    exists i: nat | i <= |s| :: OccursAt(s, p, i)
  }

  predicate OccursAt(s: string, p: string, i: nat) {
    i + |p| <= |s| && s[i..i + |p|] == p
  }

  function Text(r: Record): string {
    r.url + "\t" + r.md5
  }

  predicate Matches(f: File, p: string) {
    exists k | 0 <= k < |f| :: Contains(Text(f[k]), p)
  }

  /** sed -i /p/d */
  function Remove(f: File, p: string): File {
    if f == [] then []
    else
      var rest := Remove(f[..|f| - 1], p);
      if Contains(Text(f[|f| - 1]), p) then rest else rest + [f[|f| - 1]]
  }

  predicate Shaped(s: Store) {
    |s.files| == BLOCK_SIZE && forall b | 0 <= b < BLOCK_SIZE :: |s.files[b]| == TAILS
  }

  function SetFile(s: Store, b: nat, t: nat, f: File, delta: int): (r: Store)
    requires Shaped(s) && b < BLOCK_SIZE && t < TAILS
    ensures Shaped(r)
  {
    Store(s.files[b := s.files[b][t := f]], s.count + delta)
  }

  // --- the three scripts on store contents ---

  /** add_url.cgi looks for the URL's text in the lines of its file, not for its md5. */
  function Add(md5: string -> string, s: Store, u: string): Store
    requires Shaped(s) && IsMd5(md5(u))
  {
    var b, t := |u| % BLOCK_SIZE, Tail(md5(u));
    var f := s.files[b][t];
    if Matches(f, u) then s else SetFile(s, b, t, f + [Record(u, md5(u))], 1)
  }

  /** The file delete_url.cgi looks into for a text; an empty one if there is no such file. */
  function Named(s: Store, len: nat, m: string): File
    requires Shaped(s)
  {
    if HasTail(m) then s.files[len % BLOCK_SIZE][Tail(m)] else []
  }

  /** delete_url.cgi gets a length and a text, meant to be an md5, from its query. */
  function Delete(s: Store, len: nat, m: string): Store
    requires Shaped(s) && IsPlain(m)
  {
    var f := Named(s, len, m);
    if Matches(f, m) then SetFile(s, len % BLOCK_SIZE, Tail(m), Remove(f, m), -1) else s
  }

  predicate Found(md5: string -> string, s: Store, u: string)
    requires Shaped(s) && IsMd5(md5(u))
  {
    Matches(s.files[|u| % BLOCK_SIZE][Tail(md5(u))], md5(u))
  }

  // --- the invariant ---

  ghost predicate Clean(md5: string -> string, known: set<string>) {
    && (forall u | u in known :: IsMd5(md5(u)))
    && (forall u, v | u in known && v in known && Contains(Text(Record(v, md5(v))), md5(u)) :: u == v)
  }

  ghost predicate InFile(f: File, u: string) {
    exists k | 0 <= k < |f| :: f[k].url == u
  }

  ghost predicate Stored(s: Store, u: string)
    requires Shaped(s)
  {
    exists b, t | 0 <= b < BLOCK_SIZE && 0 <= t < TAILS :: InFile(s.files[b][t], u)
  }

  /** File t of bucket b holds its own records only, none twice. */
  ghost predicate FileOk(md5: string -> string, known: set<string>, f: File, b: nat, t: nat) {
    && (forall k | 0 <= k < |f| ::
          && f[k].url in known && f[k].md5 == md5(f[k].url)
          && IsMd5(f[k].md5) && |f[k].url| % BLOCK_SIZE == b && Tail(f[k].md5) == t)
    && (forall j, k | 0 <= j < k < |f| :: f[j].url != f[k].url)
  }

  function SumFiles(fs: seq<File>): nat {
    if fs == [] then 0 else SumFiles(fs[..|fs| - 1]) + |fs[|fs| - 1]|
  }

  /** The number of lines stored, as cal_sum_of_url.sh adds them up. */
  function Total(files: seq<seq<File>>): nat {
    if files == [] then 0 else Total(files[..|files| - 1]) + SumFiles(files[|files| - 1])
  }

  ghost predicate Placed(md5: string -> string, known: set<string>, s: Store) {
    && Shaped(s)
    && forall b, t | 0 <= b < BLOCK_SIZE && 0 <= t < TAILS :: FileOk(md5, known, s.files[b][t], b, t)
  }

  /** How far the counter is off. */
  function Drift(s: Store): int {
    s.count - Total(s.files)
  }

  lemma {:induction false} SumFilesUpdate(fs: seq<File>, t: nat, f: File)
    requires t < |fs|
    ensures SumFiles(fs[t := f]) == SumFiles(fs) - |fs[t]| + |f|
  {
    var g := fs[t := f];
    if t == |fs| - 1 {
      assert g[..|g| - 1] == fs[..|fs| - 1];
    } else {
      SumFilesUpdate(fs[..|fs| - 1], t, f);
      assert g[..|g| - 1] == fs[..|fs| - 1][t := f];
    }
  }

  lemma {:induction false} TotalUpdate(files: seq<seq<File>>, b: nat, fs: seq<File>)
    requires b < |files|
    ensures Total(files[b := fs]) == Total(files) - SumFiles(files[b]) + SumFiles(fs)
  {
    var g := files[b := fs];
    if b == |files| - 1 {
      assert g[..|g| - 1] == files[..|files| - 1];
    } else {
      TotalUpdate(files[..|files| - 1], b, fs);
      assert g[..|g| - 1] == files[..|files| - 1][b := fs];
    }
  }

  lemma SetFileDrift(s: Store, b: nat, t: nat, f: File, delta: int)
    requires Shaped(s) && b < BLOCK_SIZE && t < TAILS
    ensures Drift(SetFile(s, b, t, f, delta)) == Drift(s) + delta - (|f| - |s.files[b][t]|)
  {
    SumFilesUpdate(s.files[b], t, f);
    TotalUpdate(s.files, b, s.files[b][t := f]);
  }

  /** Replacing a file by an acceptable one keeps all files acceptable. */
  lemma SetFilePlaced(md5: string -> string, known: set<string>, s: Store, b: nat, t: nat, f: File, delta: int)
    requires Placed(md5, known, s) && b < BLOCK_SIZE && t < TAILS && FileOk(md5, known, f, b, t)
    ensures Placed(md5, known, SetFile(s, b, t, f, delta))
  {
    var r := SetFile(s, b, t, f, delta);
    forall i, j | 0 <= i < BLOCK_SIZE && 0 <= j < TAILS ensures FileOk(md5, known, r.files[i][j], i, j) {
      assert FileOk(md5, known, s.files[i][j], i, j);
    }
  }

  /** Which URLs are stored depends on the changed file alone. */
  lemma SetFileStored(s: Store, b: nat, t: nat, f: File, delta: int, v: string)
    requires Shaped(s) && b < BLOCK_SIZE && t < TAILS
    ensures var r := SetFile(s, b, t, f, delta);
            Stored(r, v) <==> InFile(f, v) || exists i, j | 0 <= i < BLOCK_SIZE && 0 <= j < TAILS && (i, j) != (b, t) ::
                                InFile(s.files[i][j], v)
  {
    var r := SetFile(s, b, t, f, delta);
    assert r.files[b][t] == f;
    if Stored(r, v) {
      var i, j :| 0 <= i < BLOCK_SIZE && 0 <= j < TAILS && InFile(r.files[i][j], v);
      assert (i, j) != (b, t) ==> r.files[i][j] == s.files[i][j];
    }
    if i, j :| 0 <= i < BLOCK_SIZE && 0 <= j < TAILS && (i, j) != (b, t) && InFile(s.files[i][j], v) {
      assert r.files[i][j] == s.files[i][j];
    }
  }

  /** A known URL can only be in its own file. */
  lemma OwnFile(md5: string -> string, known: set<string>, s: Store, u: string)
    requires Placed(md5, known, s) && IsMd5(md5(u))
    ensures Stored(s, u) <==> InFile(s.files[|u| % BLOCK_SIZE][Tail(md5(u))], u)
    ensures forall i, j | 0 <= i < BLOCK_SIZE && 0 <= j < TAILS && (i, j) != (|u| % BLOCK_SIZE, Tail(md5(u))) ::
              !InFile(s.files[i][j], u)
  {
    forall i, j | 0 <= i < BLOCK_SIZE && 0 <= j < TAILS && InFile(s.files[i][j], u)
      ensures (i, j) == (|u| % BLOCK_SIZE, Tail(md5(u)))
    {
      assert FileOk(md5, known, s.files[i][j], i, j);
    }
  }

  lemma TextContainsMd5(u: string, m: string)
    ensures Contains(Text(Record(u, m)), m)
  {
    var s := Text(Record(u, m));
    assert OccursAt(s, m, |u| + 1);
  }

  /** In an acceptable file, fgrep for a known URL's md5 finds that URL's line and no other. */
  lemma MatchIsMember(md5: string -> string, known: set<string>, f: File, b: nat, t: nat, u: string)
    requires Clean(md5, known) && FileOk(md5, known, f, b, t) && u in known
    ensures Matches(f, md5(u)) <==> InFile(f, u)
    ensures forall k | 0 <= k < |f| :: Contains(Text(f[k]), md5(u)) <==> f[k].url == u
  {
    forall k | 0 <= k < |f| ensures Contains(Text(f[k]), md5(u)) <==> f[k].url == u {
      assert f[k] == Record(f[k].url, md5(f[k].url));
      TextContainsMd5(f[k].url, f[k].md5);
    }
  }

  /** search_url.cgi succeeds exactly for the stored URLs. */
  lemma SearchIsExact(md5: string -> string, known: set<string>, s: Store, u: string)
    requires Clean(md5, known) && Placed(md5, known, s) && u in known
    ensures Found(md5, s, u) <==> Stored(s, u)
  {
    var b, t := |u| % BLOCK_SIZE, Tail(md5(u));
    assert FileOk(md5, known, s.files[b][t], b, t);
    MatchIsMember(md5, known, s.files[b][t], b, t, u);
    OwnFile(md5, known, s, u);
  }

  // --- add ---

  lemma ContainsSelf(u: string, m: string)
    ensures Contains(Text(Record(u, m)), u)
  {
    var s := Text(Record(u, m));
    assert OccursAt(s, u, 0);
  }

  lemma InFileSnoc(f: File, r: Record, v: string)
    ensures InFile(f + [r], v) <==> InFile(f, v) || r.url == v
  {
    var g := f + [r];
    assert g[|f|] == r;
    if InFile(f, v) {
      var k :| 0 <= k < |f| && f[k].url == v;
      assert g[k].url == v;
    }
    if InFile(g, v) {
      var k :| 0 <= k < |g| && g[k].url == v;
      assert k < |f| ==> f[k].url == v;
    }
  }

  lemma AppendStored(s: Store, b: nat, t: nat, r: Record, delta: int, v: string)
    requires Shaped(s) && b < BLOCK_SIZE && t < TAILS
    ensures Stored(SetFile(s, b, t, s.files[b][t] + [r], delta), v) <==> Stored(s, v) || v == r.url
  {
    var f := s.files[b][t];
    InFileSnoc(f, r, v);
    SetFileStored(s, b, t, f + [r], delta, v);
    SetFileStored(s, b, t, f, 0, v);
    assert s.files[b][t := f] == s.files[b] && s.files[b := s.files[b]] == s.files;
  }

  /** The URL's text occurs in some line of its file: it is stored there, or part of another line. */
  ghost predicate Blocked(md5: string -> string, s: Store, u: string)
    requires Shaped(s) && IsMd5(md5(u))
  {
    Matches(s.files[|u| % BLOCK_SIZE][Tail(md5(u))], u)
  }

  /** An add keeps every record in its own file, once, and the counter as right as it was. */
  lemma AddKeeps(md5: string -> string, known: set<string>, s: Store, u: string)
    requires Clean(md5, known) && Placed(md5, known, s) && u in known
    ensures Placed(md5, known, Add(md5, s, u)) && Drift(Add(md5, s, u)) == Drift(s)
  {
    if !Blocked(md5, s, u) {
      var b, t := |u| % BLOCK_SIZE, Tail(md5(u));
      var f := s.files[b][t];
      assert FileOk(md5, known, f, b, t);
      forall k | 0 <= k < |f| ensures f[k].url != u {
        ContainsSelf(f[k].url, f[k].md5);
      }
      SetFilePlaced(md5, known, s, b, t, f + [Record(u, md5(u))], 1);
      SetFileDrift(s, b, t, f + [Record(u, md5(u))], 1);
    }
  }

  /** An add stores its URL unless it is blocked, and stores or loses nothing else. */
  lemma AddStores(md5: string -> string, known: set<string>, s: Store, u: string, v: string)
    requires Clean(md5, known) && Placed(md5, known, s) && u in known
    ensures Stored(Add(md5, s, u), v) <==> Stored(s, v) || (v == u && !Blocked(md5, s, u))
  {
    if !Blocked(md5, s, u) {
      var b, t := |u| % BLOCK_SIZE, Tail(md5(u));
      var f := s.files[b][t];
      AppendStored(s, b, t, Record(u, md5(u)), 1, v);
    }
  }

  /** An add is refused exactly for a text that occurs in the line of a URL in the same file. */
  lemma BlockedByStored(md5: string -> string, known: set<string>, s: Store, u: string)
    requires Placed(md5, known, s) && IsMd5(md5(u))
    ensures Blocked(md5, s, u) <==>
            exists v | Stored(s, v) && IsMd5(md5(v)) ::
              Contains(Text(Record(v, md5(v))), u) && SameFile(md5, u, v)
    ensures Stored(s, u) ==> Blocked(md5, s, u)
  {
    var b, t := |u| % BLOCK_SIZE, Tail(md5(u));
    var f := s.files[b][t];
    assert FileOk(md5, known, f, b, t);
    if Blocked(md5, s, u) {
      var k :| 0 <= k < |f| && Contains(Text(f[k]), u);
      assert f[k] == Record(f[k].url, md5(f[k].url)) && InFile(f, f[k].url) && Stored(s, f[k].url);
    }
    forall v | Stored(s, v) && IsMd5(md5(v)) && Contains(Text(Record(v, md5(v))), u) && SameFile(md5, u, v)
      ensures Blocked(md5, s, u)
    {
      OwnFile(md5, known, s, v);
      LineOf(md5, known, f, b, t, v);
    }
    if Stored(s, u) {
      ContainsSelf(u, md5(u));
      assert SameFile(md5, u, u);
    }
  }

  predicate SameFile(md5: string -> string, u: string, v: string)
    requires IsMd5(md5(u)) && IsMd5(md5(v))
  {
    |u| % BLOCK_SIZE == |v| % BLOCK_SIZE && Tail(md5(u)) == Tail(md5(v))
  }

  /** After an add the URL can be found, exactly if it was stored or is not blocked. */
  lemma AddThenSearch(md5: string -> string, known: set<string>, s: Store, u: string)
    requires Clean(md5, known) && Placed(md5, known, s) && u in known
    ensures Found(md5, Add(md5, s, u), u) <==> Stored(s, u) || !Blocked(md5, s, u)
  {
    AddKeeps(md5, known, s, u);
    AddStores(md5, known, s, u, u);
    SearchIsExact(md5, known, Add(md5, s, u), u);
  }

  /** A URL that is part of a stored one in the same file is refused although it is not stored. */
  lemma PartOfStoredIsRefused(md5: string -> string, known: set<string>, s: Store, u: string, v: string)
    requires Clean(md5, known) && Placed(md5, known, s) && u in known && v in known && u != v
    requires !Stored(s, u) && Stored(s, v) && Contains(v, u)
    requires |u| % BLOCK_SIZE == |v| % BLOCK_SIZE && Tail(md5(u)) == Tail(md5(v))
    ensures Add(md5, s, u) == s && !Found(md5, Add(md5, s, u), u)
  {
    OwnFile(md5, known, s, v);
    var f := s.files[|v| % BLOCK_SIZE][Tail(md5(v))];
    var k :| 0 <= k < |f| && f[k].url == v;
    var i: nat :| i <= |v| && OccursAt(v, u, i);
    assert OccursAt(Text(f[k]), u, i) by {
      assert Text(f[k])[i..i + |u|] == v[i..i + |u|];
    }
    SearchIsExact(md5, known, s, u);
  }

  // --- delete ---

  /** The number of lines that sed deletes. */
  function Hits(f: File, p: string): (n: nat) {
    if f == [] then 0 else Hits(f[..|f| - 1], p) + if Contains(Text(f[|f| - 1]), p) then 1 else 0
  }

  ghost predicate AtMostOne(f: File, p: string) {
    forall i, j | 0 <= i < j < |f| && Contains(Text(f[i]), p) :: !Contains(Text(f[j]), p)
  }

  lemma {:induction false} HitsAreLines(f: File, p: string)
    ensures |Remove(f, p)| == |f| - Hits(f, p)
    ensures Hits(f, p) == 0 <==> !Matches(f, p)
    ensures Hits(f, p) <= 1 <==> AtMostOne(f, p)
  {
    if f == [] {
    } else {
      var rest, last := f[..|f| - 1], f[|f| - 1];
      HitsAreLines(rest, p);
      MatchesSnoc(rest, last, p);
      assert f == rest + [last];
    }
  }

  lemma MatchesSnoc(f: File, r: Record, p: string)
    ensures Matches(f + [r], p) <==> Matches(f, p) || Contains(Text(r), p)
    ensures AtMostOne(f + [r], p) <==> AtMostOne(f, p) && !(Matches(f, p) && Contains(Text(r), p))
  {
    var g := f + [r];
    assert g[|f|] == r && forall k | 0 <= k < |f| :: g[k] == f[k];
    if AtMostOne(g, p) {
      forall i, j | 0 <= i < j < |f| && Contains(Text(f[i]), p) ensures !Contains(Text(f[j]), p) {
        assert g[i] == f[i] && g[j] == f[j];
      }
    }
    if Matches(f, p) {
      var k :| 0 <= k < |f| && Contains(Text(f[k]), p);
      assert Contains(Text(g[k]), p);
    }
  }

  /** sed deletes the lines with p and leaves the others, in their order. */
  lemma {:induction false} RemoveInOrder(f: File, p: string) returns (ix: seq<nat>)
    ensures Picked(Remove(f, p), f, r => !Contains(Text(r), p), ix)
    decreases |f|
  {
    if f == [] {
      ix := [];
    } else {
      var rest, last := f[..|f| - 1], f[|f| - 1];
      ix := RemoveInOrder(rest, p);
      assert f == rest + [last];
      PickedSnoc(Remove(rest, p), rest, r => !Contains(Text(r), p), ix, last);
      if !Contains(Text(last), p) {
        ix := ix + [|rest|];
      }
    }
  }

  /** Removing lines keeps an acceptable file acceptable, and keeps just the other lines. */
  lemma {:induction false} RemoveKeeps(md5: string -> string, known: set<string>, f: File, b: nat, t: nat, p: string)
    requires FileOk(md5, known, f, b, t)
    ensures FileOk(md5, known, Remove(f, p), b, t)
    ensures forall r :: r in Remove(f, p) <==> r in f && !Contains(Text(r), p)
  {
    if f == [] {
    } else {
      var rest, last := f[..|f| - 1], f[|f| - 1];
      RemoveKeeps(md5, known, rest, b, t, p);
      assert f == rest + [last];
      var kept := Remove(rest, p);
      forall k | 0 <= k < |kept| ensures kept[k].url != last.url {
        assert kept[k] in rest;
      }
    }
  }

  /** In an acceptable file a URL's line is determined by the URL. */
  lemma LineOf(md5: string -> string, known: set<string>, f: File, b: nat, t: nat, v: string)
    requires FileOk(md5, known, f, b, t)
    ensures InFile(f, v) <==> Record(v, md5(v)) in f
  {
  }

  /** Whatever text a delete is given, records stay in their files; the counter suffers iff it hits two lines. */
  lemma DeleteKeeps(md5: string -> string, known: set<string>, s: Store, len: nat, m: string)
    requires Placed(md5, known, s) && IsPlain(m)
    ensures Placed(md5, known, Delete(s, len, m))
    ensures Drift(Delete(s, len, m)) >= Drift(s)
    ensures Drift(Delete(s, len, m)) == Drift(s) <==> AtMostOne(Named(s, len, m), m)
  {
    var f := Named(s, len, m);
    HitsAreLines(f, m);
    if Matches(f, m) {
      var b, t := len % BLOCK_SIZE, Tail(m);
      assert FileOk(md5, known, f, b, t);
      RemoveKeeps(md5, known, f, b, t, m);
      SetFilePlaced(md5, known, s, b, t, Remove(f, m), -1);
      SetFileDrift(s, b, t, Remove(f, m), -1);
    }
  }

  /** A URL is gone exactly if the length leads to its file and its line contains the text. */
  lemma DeleteTakes(md5: string -> string, known: set<string>, s: Store, len: nat, m: string, v: string)
    requires Placed(md5, known, s) && IsPlain(m) && IsMd5(md5(v))
    ensures Stored(Delete(s, len, m), v) <==>
            Stored(s, v) && !(HasTail(m) && len % BLOCK_SIZE == |v| % BLOCK_SIZE && Tail(m) == Tail(md5(v))
                              && Contains(Text(Record(v, md5(v))), m))
  {
    var f, after := Named(s, len, m), Delete(s, len, m);
    DeleteKeeps(md5, known, s, len, m);
    OwnFile(md5, known, s, v);
    OwnFile(md5, known, after, v);
    var i, j := |v| % BLOCK_SIZE, Tail(md5(v));
    assert FileOk(md5, known, s.files[i][j], i, j) && FileOk(md5, known, after.files[i][j], i, j);
    LineOf(md5, known, s.files[i][j], i, j, v);
    LineOf(md5, known, after.files[i][j], i, j, v);
    if HasTail(m) && (len % BLOCK_SIZE, Tail(m)) == (i, j) {
      RemoveKeeps(md5, known, f, i, j, m);
      NotHit(f, m, Record(v, md5(v)));
    }
  }

  lemma NotHit(f: File, m: string, r: Record)
    ensures r in f && !Matches(f, m) ==> !Contains(Text(r), m)
  {
  }

  lemma Md5IsPlain(m: string)
    requires IsMd5(m)
    ensures IsPlain(m) && HasTail(m)
  {
  }

  /** An md5 of a known URL hits at most that URL's line. */
  lemma Md5HitsOne(md5: string -> string, known: set<string>, s: Store, len: nat, u: string)
    requires Clean(md5, known) && Placed(md5, known, s) && u in known
    ensures AtMostOne(Named(s, len, md5(u)), md5(u))
  {
    var f := Named(s, len, md5(u));
    assert FileOk(md5, known, f, len % BLOCK_SIZE, Tail(md5(u)));
    MatchIsMember(md5, known, f, len % BLOCK_SIZE, Tail(md5(u)), u);
  }

  /** A delete by md5 takes out its URL exactly if the length is right modulo 50, and nothing else. */
  lemma DeleteRemoves(md5: string -> string, known: set<string>, s: Store, len: nat, u: string, v: string)
    requires Clean(md5, known) && Placed(md5, known, s) && u in known && v in known
    ensures IsPlain(md5(u)) && Drift(Delete(s, len, md5(u))) == Drift(s)
    ensures Stored(Delete(s, len, md5(u)), v) <==>
            Stored(s, v) && !(v == u && len % BLOCK_SIZE == |u| % BLOCK_SIZE)
  {
    Md5IsPlain(md5(u));
    Md5HitsOne(md5, known, s, len, u);
    DeleteKeeps(md5, known, s, len, md5(u));
    DeleteTakes(md5, known, s, len, md5(u), v);
    TextContainsMd5(u, md5(u));
  }

  lemma EndOfMd5(u: string, m: string)
    requires IsMd5(m)
    ensures IsPlain(m[30..]) && HasTail(m[30..]) && Tail(m[30..]) == Tail(m)
    ensures Contains(Text(Record(u, m)), m[30..])
  {
    var s := Text(Record(u, m));
    assert OccursAt(s, m[30..], |u| + 31);
  }

  /** Two stored URLs of one file share the end of their md5; a delete by it makes the counter wrong. */
  lemma ShortTextMiscounts(md5: string -> string, known: set<string>, s: Store, u: string, v: string)
    requires Placed(md5, known, s) && IsMd5(md5(u)) && IsMd5(md5(v))
    requires u != v && Stored(s, u) && Stored(s, v) && SameFile(md5, u, v)
    ensures IsPlain(md5(u)[30..]) && Drift(Delete(s, |u|, md5(u)[30..])) > Drift(s)
  {
    assert Shaped(s);
    hide Placed, Stored, Contains, Delete, Drift, Tail, IsPlain, HasTail, LineIn;
    var p := md5(u)[30..];
    EndOfMd5(u, md5(u));
    EndOfMd5(v, md5(v));
    SameEnd(md5(u), md5(v));
    StoredLine(md5, known, s, u);
    StoredLine(md5, known, s, v);
    TwoLines(Named(s, |u|, p), Record(u, md5(u)), Record(v, md5(v)), p);
    DeleteKeeps(md5, known, s, |u|, p);
  }

  lemma SameEnd(m: string, k: string)
    requires IsMd5(m) && IsMd5(k) && Tail(m) == Tail(k)
    ensures m[30..] == k[30..]
  {
    TailIsName(m, k);
  }

  lemma StoredLine(md5: string -> string, known: set<string>, s: Store, u: string)
    requires Placed(md5, known, s) && IsMd5(md5(u)) && Stored(s, u)
    ensures LineIn(s.files[|u| % BLOCK_SIZE][Tail(md5(u))], Record(u, md5(u)))
  {
    OwnFile(md5, known, s, u);
    var f := s.files[|u| % BLOCK_SIZE][Tail(md5(u))];
    assert FileOk(md5, known, f, |u| % BLOCK_SIZE, Tail(md5(u)));
    LineOf(md5, known, f, |u| % BLOCK_SIZE, Tail(md5(u)), u);
  }

  ghost predicate LineIn(f: File, r: Record) {
    exists k | 0 <= k < |f| :: f[k] == r
  }

  lemma TwoLines(f: File, a: Record, b: Record, p: string)
    requires LineIn(f, a) && LineIn(f, b) && a != b && Contains(Text(a), p) && Contains(Text(b), p)
    ensures !AtMostOne(f, p)
  {
    hide Contains, Text;
    var i, j :| 0 <= i < |f| && 0 <= j < |f| && f[i] == a && f[j] == b;
    if i < j {
      assert Contains(Text(f[i]), p) && Contains(Text(f[j]), p);
    } else {
      assert Contains(Text(f[j]), p) && Contains(Text(f[i]), p);
    }
  }

  // --- runs ---

  datatype Op = AddUrl(url: string) | DeleteUrl(len: nat, text: string)

  predicate Ready(md5: string -> string, op: Op) {
    match op
    case AddUrl(u) => IsMd5(md5(u))
    case DeleteUrl(_, m) => IsPlain(m)
  }

  function Step(md5: string -> string, s: Store, op: Op): Store
    requires Shaped(s) && Ready(md5, op)
  {
    match op
    case AddUrl(u) => Add(md5, s, u)
    case DeleteUrl(len, m) => Delete(s, len, m)
  }

  function RunOps(md5: string -> string, s: Store, ops: seq<Op>): (r: Store)
    requires Shaped(s) && forall op | op in ops :: Ready(md5, op)
    ensures Shaped(r)
    decreases |ops|
  {
    if ops == [] then s else Step(md5, RunOps(md5, s, ops[..|ops| - 1]), ops[|ops| - 1])
  }

  ghost predicate CarefulStep(s: Store, op: Op)
    requires Shaped(s)
  {
    op.DeleteUrl? ==> AtMostOne(Named(s, op.len, op.text), op.text)
  }

  /** No delete of the run meets two lines that contain its text. */
  ghost predicate Careful(md5: string -> string, s: Store, ops: seq<Op>)
    requires Shaped(s) && forall op | op in ops :: Ready(md5, op)
    decreases |ops|
  {
    ops == [] ||
    (var before, op := RunOps(md5, s, ops[..|ops| - 1]), ops[|ops| - 1];
     Careful(md5, s, ops[..|ops| - 1]) && CarefulStep(before, op))
  }

  ghost predicate Adds(known: set<string>, ops: seq<Op>) {
    forall op | op in ops && op.AddUrl? :: op.url in known
  }

  lemma StepKeeps(md5: string -> string, known: set<string>, s: Store, op: Op)
    requires Clean(md5, known) && Placed(md5, known, s) && Ready(md5, op) && (op.AddUrl? ==> op.url in known)
    ensures Placed(md5, known, Step(md5, s, op))
    ensures Drift(Step(md5, s, op)) >= Drift(s)
    ensures Drift(Step(md5, s, op)) == Drift(s) <==> CarefulStep(s, op)
  {
    match op {
      case AddUrl(u) => AddKeeps(md5, known, s, u);
      case DeleteUrl(len, m) => DeleteKeeps(md5, known, s, len, m);
    }
  }

  /**
   * Over every run of adds and deletes each record stays in its own file, and search tells
   * exactly what is stored; the counter stays as right as it was iff the run is careful.
   */
  lemma {:induction false} RunKeeps(md5: string -> string, known: set<string>, s: Store, ops: seq<Op>)
    requires Clean(md5, known) && Placed(md5, known, s)
    requires Adds(known, ops) && forall op | op in ops :: Ready(md5, op)
    ensures Placed(md5, known, RunOps(md5, s, ops))
    ensures forall u | u in known :: Found(md5, RunOps(md5, s, ops), u) <==> Stored(RunOps(md5, s, ops), u)
    ensures Drift(RunOps(md5, s, ops)) >= Drift(s)
    ensures Drift(RunOps(md5, s, ops)) == Drift(s) <==> Careful(md5, s, ops)
    decreases |ops|
  {
    hide Step, Found, Stored, Drift, CarefulStep, FileOk;
    if ops == [] {
    } else {
      var rest, op := ops[..|ops| - 1], ops[|ops| - 1];
      RunKeeps(md5, known, s, rest);
      StepKeeps(md5, known, RunOps(md5, s, rest), op);
    }
    var after := RunOps(md5, s, ops);
    forall u | u in known ensures Found(md5, after, u) <==> Stored(after, u) {
      SearchIsExact(md5, known, after, u);
    }
  }

  /** Deleting by the md5 of known URLs is careful. */
  lemma {:induction false} Md5DeletesAreCareful(md5: string -> string, known: set<string>, s: Store, ops: seq<Op>)
    requires Clean(md5, known) && Placed(md5, known, s)
    requires Adds(known, ops) && forall op | op in ops :: Ready(md5, op)
    requires forall op | op in ops && op.DeleteUrl? :: exists u :: u in known && op.text == md5(u)
    ensures Careful(md5, s, ops)
    decreases |ops|
  {
    if ops == [] {
    } else {
      var rest, op := ops[..|ops| - 1], ops[|ops| - 1];
      Md5DeletesAreCareful(md5, known, s, rest);
      RunKeeps(md5, known, s, rest);
      if op.DeleteUrl? {
        var u :| u in known && op.text == md5(u);
        Md5HitsOne(md5, known, RunOps(md5, s, rest), op.len, u);
      }
    }
  }
}
