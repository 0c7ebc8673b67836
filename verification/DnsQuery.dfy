/**
 * The query that W_DnsClient::Lookup builds in its buffer (dns_server/w_dnsclient.cpp), and
 * the reading of its question by section 3.1 of RFC 1035.  The header is laid out for a
 * little-endian host, the only field that depends on it being the id.
 */
module DnsQuery {
  import opened Bytes
  import opened Wrappers

  type Name = seq<byte>

  const DOT: byte := 46
  const BUF_SIZE := 1024
  const HEADER_SIZE := 12
  const QUERY_SIZE := 4
  const HEADER: Name := [1, 0, 1, 0, 0, 1, 0, 0, 0, 0, 0, 0]
  // type A, class IN
  const TYPE_CLASS: Name := [0, 1, 0, 1]

  /** A C string: no zero byte. */
  predicate IsString(name: Name) {
    forall k | 0 <= k < |name| :: name[k] != 0
  }

  function Zeros(n: nat): (z: Name)
    ensures |z| == n && forall k | 0 <= k < n :: z[k] == 0
  {
    seq(n, _ => 0)
  }

  // --- the encoding as a function of the name ---

  /** The number of bytes before the first dot. */
  function FirstLabel(name: Name): (n: nat)
    ensures n <= |name| && (n < |name| ==> name[n] == DOT)
    ensures forall k | 0 <= k < n :: name[k] != DOT
  {
    if name == [] || name[0] == DOT then 0 else 1 + FirstLabel(name[1..])
  }

  /** Each dot-separated piece behind a byte with its length; a length over 255 wraps. */
  function Labels(name: Name): (e: Name)
    ensures |e| == |name| + 1
    decreases |name|, 1
  {
    var n := FirstLabel(name);
    [n % 256] + name[..n] + LaterLabels(name)
  }

  /** What the first label leaves behind it in the encoding. */
  function LaterLabels(name: Name): (e: Name)
    ensures |e| == |name| - FirstLabel(name)
    decreases |name|, 0
  {
    var n := FirstLabel(name);
    if n == |name| then [] else Labels(name[n + 1..])
  }

  function Question(name: Name): Name {
    Labels(name) + [0] + TYPE_CLASS
  }

  // --- the loop ---

  /**
   * The name's part of the buffer while the loop is at offset q of the name, i bytes into a
   * piece: what is finished, the byte kept free for the length, and the name from there on.
   */
  ghost predicate Scanned(buf: seq<byte>, name: Name, q: nat, i: nat, done: Name) {
    Layout(buf, name, q, i, done) && Labels(name) == done + Labels(name[q - i..])
  }

  ghost predicate Layout(buf: seq<byte>, name: Name, q: nat, i: nat, done: Name) {
    && i <= q <= |name| && |done| == q - i && |buf| == |name| + 1
    && buf == done + [buf[q - i]] + name[q - i..]
    && (forall k | q - i <= k < q :: name[k] != DOT)
  }

  lemma {:induction false} FirstLabelIs(name: Name, n: nat)
    requires n <= |name| && (n < |name| ==> name[n] == DOT)
    requires forall k | 0 <= k < n :: name[k] != DOT
    ensures FirstLabel(name) == n
  {
    if n == 0 {
    } else {
      FirstLabelIs(name[1..], n - 1);
    }
  }

  /** Length and label of one finished piece move from `Labels` of the rest to the front. */
  lemma PieceDone(name: Name, start: nat, n: nat)
    requires start + n <= |name| && (start + n < |name| ==> name[start + n] == DOT)
    requires forall k | start <= k < start + n :: name[k] != DOT
    ensures Labels(name[start..]) == [n % 256] + name[start..start + n]
                                     + if start + n == |name| then [] else Labels(name[start + n + 1..])
  {
    var rest := name[start..];
    FirstLabelIs(rest, n);
    assert rest[..n] == name[start..start + n];
    if start + n < |name| {
      assert rest[n + 1..] == name[start + n + 1..];
    }
  }

  /** Writing the length over the free byte. */
  lemma Patch(buf: seq<byte>, done: Name, free: byte, rest: Name, v: byte)
    requires buf == done + [free] + rest
    ensures buf[|done| := v] == done + [v] + rest
  {
  }

  lemma DotLayout(buf: seq<byte>, name: Name, q: nat, i: nat, done: Name)
    requires Layout(buf, name, q, i, done) && q < |name| && name[q] == DOT
    ensures Layout(buf[q - i := i % 256], name, q + 1, 0, done + [i % 256] + name[q - i..q])
  {
    Patch(buf, done, buf[q - i], name[q - i..], i % 256);
    var piece, tail := name[q - i..q], name[q + 1..];
    assert name[q - i..] == piece + [DOT] + tail;
    Regroup(done, i % 256, piece, DOT, tail);
  }

  lemma Regroup(done: Name, len: byte, piece: Name, dot: byte, tail: Name)
    ensures done + [len] + (piece + [dot] + tail) == (done + [len] + piece) + [dot] + tail
    ensures done + ([len] + piece + tail) == (done + [len] + piece) + tail
    ensures ((done + [len] + piece) + [dot] + tail)[|done| + 1 + |piece|] == dot
  {
  }

  lemma DotStep(buf: seq<byte>, name: Name, q: nat, i: nat, done: Name)
    requires Scanned(buf, name, q, i, done) && q < |name| && name[q] == DOT
    ensures Scanned(buf[q - i := i % 256], name, q + 1, 0, done + [i % 256] + name[q - i..q])
  {
    hide Labels, FirstLabel;
    assert Labels(name[q - i..]) == [i % 256] + name[q - i..q] + Labels(name[q + 1..]) by {
      PieceDone(name, q - i, i);
    }
    DotLayout(buf, name, q, i, done);
    Regroup(done, i % 256, name[q - i..q], DOT, Labels(name[q + 1..]));
  }

  lemma CharStep(buf: seq<byte>, name: Name, q: nat, i: nat, done: Name)
    requires Scanned(buf, name, q, i, done) && q < |name| && name[q] != DOT
    ensures Scanned(buf, name, q + 1, i + 1, done)
  {
  }

  lemma EndLayout(buf: seq<byte>, name: Name, i: nat, done: Name, len: byte)
    requires Layout(buf, name, |name|, i, done)
    ensures buf[|name| - i := len] == done + ([len] + name[|name| - i..|name|] + [])
  {
    Patch(buf, done, buf[|name| - i], name[|name| - i..], len);
  }

  lemma EndStep(buf: seq<byte>, name: Name, i: nat, done: Name)
    requires Scanned(buf, name, |name|, i, done)
    ensures buf[|name| - i := i % 256] == Labels(name)
  {
    hide Labels, FirstLabel;
    assert Labels(name[|name| - i..]) == [i % 256] + name[|name| - i..|name|] + [] by {
      PieceDone(name, |name| - i, i);
    }
    EndLayout(buf, name, i, done, i % 256);
  }

  lemma StartScan(buf: seq<byte>, name: Name)
    requires |buf| == |name| + 1 && buf[1..] == name
    ensures Scanned(buf, name, 0, 0, [])
  {
    assert name[0..] == name && buf == [] + [buf[0]] + name && [] + Labels(name) == Labels(name);
  }

  lemma NextByte(buf: seq<byte>, name: Name, q: nat, i: nat, done: Name)
    requires Scanned(buf, name, q, i, done) && q < |name|
    ensures buf[q + 1] == name[q]
  {
    assert name[q - i..][i] == name[q];
  }

  /** The whole buffer: header, the name's part, and what follows. */
  function Whole(before: Name, mid: Name, after: Name): Name {
    before + mid + after
  }

  lemma Parts(buf: Name, lo: nat, hi: nat)
    requires lo <= hi <= |buf|
    ensures Whole(buf[..lo], buf[lo..hi], buf[hi..]) == buf
    ensures lo < hi ==> buf[lo..hi][1..] == buf[lo + 1..hi]
  {
  }

  lemma WholeIs(before: Name, mid: Name, after: Name)
    ensures Whole(before, mid, after) == before + mid + after
  {
  }

  lemma PatchWhole(before: Name, mid: Name, after: Name, k: nat, v: byte)
    requires k < |mid|
    ensures |before| + k < |Whole(before, mid, after)|
    ensures Whole(before, mid, after)[|before| + k := v] == Whole(before, mid[k := v], after)
  {
  }

  lemma MiddleByte(before: Name, mid: Name, after: Name, k: nat)
    requires k < |mid|
    ensures |before| + k < |Whole(before, mid, after)| && Whole(before, mid, after)[|before| + k] == mid[k]
  {
  }

  /** *(p - i - 1) = i, where a char keeps the low eight bits. */
  method PutLength(buf: array<byte>, at: nat, i: nat, ghost before: Name, ghost mid: Name, ghost after: Name)
    requires buf[..] == Whole(before, mid, after) && |before| <= at < |before| + |mid|
    modifies buf
    ensures buf[..] == Whole(before, mid[at - |before| := i % 256], after)
  {
    var len: byte := i % 256;
    PatchWhole(before, mid, after, at - |before|, len);
    hide Whole;
    ghost var was := buf[..];
    buf[at] := len;
    assert buf[..] == was[at := len];
  }

  /**
   * What holds before offset q of the name is looked at: up to the current piece the name's part
   * is the encoding already, and outside that part nothing has changed.
   */
  ghost predicate Midway(buf: Name, was: Name, name: Name, q: nat, i: nat) {
    var hi := HEADER_SIZE + 1 + |name|;
    && |buf| == |was| && hi <= |was| && i <= q <= |name|
    && buf[..HEADER_SIZE] == was[..HEADER_SIZE] && buf[hi..] == was[hi..]
    && Scanned(buf[HEADER_SIZE..hi], name, q, i, Labels(name)[..q - i])
  }

  lemma Unchanged(buf: Name, mid: Name, was: Name, hi: nat)
    requires HEADER_SIZE <= hi <= |was| && |mid| == hi - HEADER_SIZE
    requires buf == Whole(was[..HEADER_SIZE], mid, was[hi..])
    ensures |buf| == |was| && buf[HEADER_SIZE..hi] == mid
    ensures buf[..HEADER_SIZE] == was[..HEADER_SIZE] && buf[hi..] == was[hi..]
  {
  }

  lemma DoneIsPrefix(mid: Name, name: Name, q: nat, i: nat, done: Name)
    requires Scanned(mid, name, q, i, done)
    ensures |done| == q - i && done == Labels(name)[..q - i]
  {
    hide Labels;
  }

  /** One pass of the loop: at a dot the length of the piece goes in front of it. */
  method OneByte(buf: array<byte>, p: nat, i: nat, ghost was: Name, ghost name: Name) returns (next: nat)
    requires HEADER_SIZE + 1 <= p < HEADER_SIZE + 1 + |name|
    requires Midway(buf[..], was, name, p - HEADER_SIZE - 1, i)
    modifies buf
    ensures Midway(buf[..], was, name, p - HEADER_SIZE, next)
  {
    hide Labels, FirstLabel, Scanned, Layout, Whole;
    ghost var q, hi := p - HEADER_SIZE - 1, HEADER_SIZE + 1 + |name|;
    ghost var before: Name, mid: Name, after: Name := was[..HEADER_SIZE], buf[..][HEADER_SIZE..hi], was[hi..];
    ghost var done: Name := Labels(name)[..q - i];
    Parts(buf[..], HEADER_SIZE, hi);
    NextByte(mid, name, q, i, done);
    MiddleByte(before, mid, after, q + 1);
    assert buf[p] == buf[..][p];
    if buf[p] == DOT {
      DotStep(mid, name, q, i, done);
      PutLength(buf, p - i - 1, i, before, mid, after);
      Unchanged(buf[..], mid[q - i := i % 256], was, hi);
      DoneIsPrefix(mid[q - i := i % 256], name, q + 1, 0, done + [i % 256] + name[q - i..q]);
      return 0;
    } else {
      CharStep(mid, name, q, i, done);
      return i + 1;
    }
  }

  /** The loop over the name. */
  method BackPatch(name: array<byte>, buf: array<byte>)
    requires name != buf && buf.Length == BUF_SIZE
    requires name.Length + HEADER_SIZE + QUERY_SIZE + 2 <= BUF_SIZE
    requires buf[..][HEADER_SIZE + 1..HEADER_SIZE + 1 + name.Length] == name[..]
    modifies buf
    ensures buf[..] == old(buf[..])[..HEADER_SIZE] + Labels(name[..]) + old(buf[..])[HEADER_SIZE + 1 + name.Length..]
  {
    hide Labels, FirstLabel, Midway, Whole;
    ghost var nm, was := name[..], buf[..];
    StartMidway(was, nm);
    var p: nat := HEADER_SIZE + 1;
    var i: nat := 0;
    while p < HEADER_SIZE + 1 + name.Length
      invariant HEADER_SIZE + 1 <= p <= HEADER_SIZE + 1 + name.Length
      invariant Midway(buf[..], was, nm, p - HEADER_SIZE - 1, i)
    {
      i := OneByte(buf, p, i, was, nm);
      p := p + 1;
    }
    ghost var now := buf[..];
    EndMidway(now, was, nm, i);
    PutLength(buf, p - i - 1, i, was[..HEADER_SIZE], now[HEADER_SIZE..p], was[p..]);
  }

  lemma StartMidway(was: Name, name: Name)
    requires HEADER_SIZE + 1 + |name| <= |was| && was[HEADER_SIZE + 1..HEADER_SIZE + 1 + |name|] == name
    ensures Midway(was, was, name, 0, 0)
  {
    hide Labels, FirstLabel, Scanned, Layout, Whole;
    Parts(was, HEADER_SIZE, HEADER_SIZE + 1 + |name|);
    StartScan(was[HEADER_SIZE..HEADER_SIZE + 1 + |name|], name);
  }

  lemma EndMidway(buf: Name, was: Name, name: Name, i: nat)
    requires Midway(buf, was, name, |name|, i)
    ensures var hi := HEADER_SIZE + 1 + |name|;
            && hi <= |was| == |buf| && i <= |name|
            && buf == Whole(was[..HEADER_SIZE], buf[HEADER_SIZE..hi], was[hi..])
            && Whole(was[..HEADER_SIZE], buf[HEADER_SIZE..hi][|name| - i := i % 256], was[hi..])
               == was[..HEADER_SIZE] + Labels(name) + was[hi..]
  {
    hide Labels, FirstLabel, Scanned, Layout, Whole;
    var hi := HEADER_SIZE + 1 + |name|;
    Parts(buf, HEADER_SIZE, hi);
    EndStep(buf[HEADER_SIZE..hi], name, i, Labels(name)[..|name| - i]);
    WholeIs(was[..HEADER_SIZE], Labels(name), was[hi..]);
  }

  /** memset and the header fields. */
  method WriteHeader(buf: array<byte>)
    requires buf.Length == BUF_SIZE
    modifies buf
    ensures buf[..] == HEADER + Zeros(BUF_SIZE - HEADER_SIZE)
  {
    for k := 0 to BUF_SIZE
      invariant forall j | 0 <= j < k :: buf[j] == 0
    {
      buf[k] := 0;
    }
    buf[0], buf[1] := 1, 0;  // id, host byte order
    buf[2], buf[3] := 1, 0;  // flags: recursion desired
    buf[4], buf[5] := 0, 1;  // nques
    ghost var goal := HEADER + Zeros(BUF_SIZE - HEADER_SIZE);
    forall k | 0 <= k < BUF_SIZE ensures buf[k] == goal[k] {
    }
  }

  /** strcpy of the name and its terminator. */
  method CopyString(name: array<byte>, buf: array<byte>, at: nat)
    requires name != buf && at + name.Length < buf.Length
    modifies buf
    ensures buf[..] == old(buf[..])[..at] + name[..] + [0] + old(buf[..])[at + name.Length + 1..]
  {
    Copy(buf, at, name[..]);
    buf[at + name.Length] := 0;
  }

  method WriteQuery(buf: array<byte>, dnsqer: nat)
    requires dnsqer + QUERY_SIZE <= buf.Length
    modifies buf
    ensures buf[..] == old(buf[..])[..dnsqer] + TYPE_CLASS + old(buf[..])[dnsqer + QUERY_SIZE..]
  {
    buf[dnsqer + 2], buf[dnsqer + 3] := 0, 1;  // class
    buf[dnsqer], buf[dnsqer + 1] := 0, 1;      // type
  }

  /** The parts of the buffer once the name is copied into the blank one. */
  lemma Copied(blank: Name, buf: Name, name: Name)
    requires |name| + HEADER_SIZE + QUERY_SIZE + 2 <= BUF_SIZE
    requires blank == HEADER + Zeros(BUF_SIZE - HEADER_SIZE)
    requires buf == blank[..HEADER_SIZE + 1] + name + [0] + blank[HEADER_SIZE + 1 + |name| + 1..]
    ensures |buf| == BUF_SIZE
    ensures buf[..HEADER_SIZE] == HEADER
    ensures buf[HEADER_SIZE + 1..HEADER_SIZE + 1 + |name|] == name
    ensures buf[HEADER_SIZE + 1 + |name|..] == [0] + Zeros(BUF_SIZE - HEADER_SIZE - |name| - 2)
  {
  }

  /** The buffer once type and class are written behind the labels. */
  lemma Assembled(buf: Name, done: Name, labels: Name, zeros: nat)
    requires zeros >= QUERY_SIZE && buf == HEADER + labels + ([0] + Zeros(zeros))
    requires var at := HEADER_SIZE + |labels| + 1; done == buf[..at] + TYPE_CLASS + buf[at + QUERY_SIZE..]
    ensures done == HEADER + (labels + [0] + TYPE_CLASS) + Zeros(zeros - QUERY_SIZE)
  {
    var at := HEADER_SIZE + |labels| + 1;
    assert buf[..at] == HEADER + labels + [0];
    assert buf[at + QUERY_SIZE..] == Zeros(zeros)[QUERY_SIZE..] == Zeros(zeros - QUERY_SIZE);
  }

  /**
   * The query-building part of Lookup.  On return the first `len` bytes of `buf` are the
   * message that is sent; the rest is zero.
   */
  method BuildQuery(name: array<byte>) returns (buf: array<byte>, len: nat)
    requires IsString(name[..])
    requires name.Length + HEADER_SIZE + QUERY_SIZE + 2 <= BUF_SIZE
    ensures fresh(buf) && buf.Length == BUF_SIZE
    ensures len == HEADER_SIZE + |Question(name[..])|
    ensures buf[..] == HEADER + Question(name[..]) + Zeros(BUF_SIZE - len)
    ensures ReadMessage(buf[..][..len]) == Some(Asked(name[..]))
            <==> GoodLabels(name[..]) && name.Length + 2 <= MAX_NAME
  {
    hide Labels, FirstLabel, Zeros, IsString, ReadMessage, GoodLabels, Asked;
    buf := new byte[BUF_SIZE];
    ghost var nm := name[..];
    var n := name.Length;
    WriteHeader(buf);
    ghost var blank := buf[..];
    CopyString(name, buf, HEADER_SIZE + 1);
    Copied(blank, buf[..], nm);
    BackPatch(name, buf);
    ghost var labelled := buf[..];
    assert labelled == HEADER + Labels(nm) + ([0] + Zeros(BUF_SIZE - HEADER_SIZE - n - 2));
    WriteQuery(buf, HEADER_SIZE + 2 + n);
    len := HEADER_SIZE + QUERY_SIZE + n + 2;
    Assembled(labelled, buf[..], Labels(nm), BUF_SIZE - HEADER_SIZE - n - 2);
    Sent(buf[..], Question(nm), Zeros(BUF_SIZE - len), len);
    MessageIsExact(nm);
  }

  lemma Sent(buf: Name, question: Name, zeros: Name, len: nat)
    requires buf == HEADER + question + zeros && len == HEADER_SIZE + |question|
    ensures len <= |buf| && buf[..len] == HEADER + question
  {
  }

  // --- what a resolver reads ---

  const MAX_NAME := 255

  /**
   * The name at the front of `bytes` and what follows it, by section 3.1 of RFC 1035: labels of
   * at most 63 bytes, and at most 255 length and label octets in all.
   */
  function ReadName(bytes: Name): Option<(Name, Name)> {
    match ReadLabels(bytes)
    case None => None
    case Some((name, rest)) => if |bytes| - |rest| <= MAX_NAME then Some((name, rest)) else None
  }

  function ReadLabels(bytes: Name): Option<(Name, Name)>
    decreases |bytes|
  {
    if bytes == [] then None
    else if bytes[0] == 0 then Some(([], bytes[1..]))
    else if bytes[0] >= 64 || |bytes| <= 1 + bytes[0] then None
    else
      var piece, more := bytes[1..1 + bytes[0]], bytes[1 + bytes[0]..];
      match ReadLabels(more)
      case None => None
      case Some((name, rest)) => Some((if more[0] == 0 then piece else piece + [DOT] + name, rest))
  }

  /** Every label has 1 to 63 bytes. */
  predicate GoodLabels(name: Name)
    decreases |name|
  {
    var n := FirstLabel(name);
    1 <= n <= 63 && (n == |name| || GoodLabels(name[n + 1..]))
  }

  lemma Front(len: byte, piece: Name, later: Name, tail: Name)
    ensures var bytes := [len] + piece + later + [0] + tail;
            bytes[0] == len && bytes[1..1 + |piece|] == piece && bytes[1 + |piece|..] == later + [0] + tail
  {
  }

  /** An encoded name, taken apart at its first label. */
  lemma ReadFirst(name: Name, tail: Name)
    ensures var n := FirstLabel(name);
            var bytes := Labels(name) + [0] + tail;
            && bytes[0] == n % 256
            && bytes[1..1 + n] == name[..n]
            && bytes[1 + n..] == LaterLabels(name) + [0] + tail
  {
    var n := FirstLabel(name);
    Front(n % 256, name[..n], LaterLabels(name), tail);
    assert Labels(name) == [n % 256] + name[..n] + LaterLabels(name);
  }

  /** ReadLabels on a first label of acceptable length. */
  lemma ReadStep(len: byte, piece: Name, later: Name, tail: Name)
    requires 1 <= len < 64 && len == |piece|
    ensures var more := later + [0] + tail;
            ReadLabels([len] + piece + later + [0] + tail) ==
            match ReadLabels(more)
            case None => None
            case Some((name, rest)) => Some((if more[0] == 0 then piece else piece + [DOT] + name, rest))
  {
    var bytes := [len] + piece + later + [0] + tail;
    Front(len, piece, later, tail);
    ReadLabelsUnfolds(bytes);
    hide ReadLabels;
    assert |bytes| > 1 + len;
  }

  lemma ReadLabelsUnfolds(bytes: Name)
    requires bytes != [] && 0 < bytes[0] < 64 && |bytes| > 1 + bytes[0]
    ensures var piece, more := bytes[1..1 + bytes[0]], bytes[1 + bytes[0]..];
            ReadLabels(bytes) ==
            match ReadLabels(more)
            case None => None
            case Some((name, rest)) => Some((if more[0] == 0 then piece else piece + [DOT] + name, rest))
  {
  }

  lemma LabelsSplit(name: Name)
    ensures var n := FirstLabel(name);
            && Labels(name) == [n % 256] + name[..n] + LaterLabels(name)
            && LaterLabels(name) == if n == |name| then [] else Labels(name[n + 1..])
  {
    hide FirstLabel;
  }

  lemma NameSplit(name: Name, n: nat)
    requires n < |name| && name[n] == DOT
    ensures name == name[..n] + [DOT] + name[n + 1..]
  {
  }

  lemma ReadEnd(tail: Name)
    ensures ReadLabels([] + [0] + tail) == Some(([], tail)) && ([] + [0] + tail)[0] == 0
  {
    assert [] + [0] + tail == [0] + tail && ([0] + tail)[1..] == tail;
  }

  lemma GoodSplit(name: Name)
    requires GoodLabels(name)
    ensures var n := FirstLabel(name); 1 <= n <= 63 && (n < |name| ==> GoodLabels(name[n + 1..]))
  {
  }

  lemma {:induction false} GoodNamesRead(name: Name, tail: Name)
    requires GoodLabels(name)
    ensures ReadLabels(Labels(name) + [0] + tail) == Some((name, tail))
    decreases |name|
  {
    hide Labels, LaterLabels, ReadLabels, FirstLabel, GoodLabels;
    var n := FirstLabel(name);
    LabelsSplit(name);
    GoodSplit(name);
    ReadStep(n, name[..n], LaterLabels(name), tail);
    if n < |name| {
      var rest := name[n + 1..];
      GoodNamesRead(rest, tail);
      GoodNotEnd(rest, tail);
      NameSplit(name, n);
    } else {
      assert name[..n] == name;
      ReadEnd(tail);
    }
  }

  lemma GoodNotEnd(name: Name, tail: Name)
    requires GoodLabels(name)
    ensures (Labels(name) + [0] + tail)[0] != 0
  {
    ReadFirst(name, tail);
  }

  /** A label whose length does not fit the byte is cut, and the cut shows in the name read. */
  lemma WrappedLabelMisread(name: Name, tail: Name)
    requires IsString(name) && FirstLabel(name) >= 64
    requires ReadLabels(Labels(name) + [0] + tail).Some?
    ensures ReadLabels(Labels(name) + [0] + tail).value.0 != name || FirstLabel(name) % 256 == 0
  {
    var n := FirstLabel(name);
    var k := n % 256;
    var bytes := Labels(name) + [0] + tail;
    ReadFirst(name, tail);
    if 0 < k < 64 {
      assert bytes[1 + k] == bytes[1..1 + n][k] == name[k];
      var (rest, after) := ReadLabels(bytes[1 + k..]).value;
      assert (bytes[1..1 + k] + [DOT] + rest)[k] == DOT;
    }
  }

  /** A zero length byte ends the name too early. */
  lemma EmptyLabelMisread(name: Name, tail: Name)
    requires FirstLabel(name) % 256 == 0
    ensures ReadLabels(Labels(name) + [0] + tail) != Some((name, tail))
  {
    var bytes := Labels(name) + [0] + tail;
    assert bytes[0] == 0 by {
      ReadFirst(name, tail);
    }
    hide Labels, FirstLabel;
    assert |bytes[1..]| == |name| + 1 + |tail|;
  }

  lemma {:induction false} OnlyGoodNamesRead(name: Name, tail: Name)
    requires IsString(name)
    requires ReadLabels(Labels(name) + [0] + tail) == Some((name, tail))
    ensures GoodLabels(name)
    decreases |name|
  {
    var n := FirstLabel(name);
    hide Labels, ReadLabels;
    if n % 256 == 0 {
      EmptyLabelMisread(name, tail);
    } else if n >= 64 {
      WrappedLabelMisread(name, tail);
    } else if n < |name| {
      OnlyGoodRest(name, n, tail);
      OnlyGoodNamesRead(name[n + 1..], tail);
    }
  }

  lemma OnlyGoodRest(name: Name, n: nat, tail: Name)
    requires n == FirstLabel(name) && 1 <= n < 64 && n < |name|
    requires ReadLabels(Labels(name) + [0] + tail) == Some((name, tail))
    ensures ReadLabels(Labels(name[n + 1..]) + [0] + tail) == Some((name[n + 1..], tail))
  {
    LabelsSplit(name);
    hide Labels, LaterLabels, FirstLabel, ReadLabels;
    var later := LaterLabels(name);
    ReadStep(n, name[..n], later, tail);
    ReadRest(name, n, ReadLabels(later + [0] + tail), (later + [0] + tail)[0] == 0, tail);
  }

  /** If reading behind the first label gives the whole name, it read the rest of the name. */
  lemma ReadRest(name: Name, n: nat, more: Option<(Name, Name)>, ends: bool, tail: Name)
    requires n < |name|
    requires match more
             case None => false
             case Some((rest, after)) => (if ends then name[..n] else name[..n] + [DOT] + rest) == name && after == tail
    ensures more == Some((name[n + 1..], tail))
  {
    var (rest, after) := more.value;
    assert !ends by {
      assert |name[..n]| < |name|;
    }
    assert (name[..n] + [DOT] + rest)[n + 1..] == rest;
  }

  /**
   * A resolver reads back the name that was asked for, and stops right behind it, for
   * exactly the names whose labels all have 1 to 63 bytes and that take at most 255 octets.
   */
  lemma QuestionIsExact(name: Name)
    requires IsString(name)
    ensures ReadName(Question(name)) == Some((name, TYPE_CLASS)) <==> GoodLabels(name) && |name| + 2 <= MAX_NAME
  {
    hide Labels, FirstLabel, GoodLabels, ReadLabels, IsString;
    assert |Question(name)| == |name| + 2 + |TYPE_CLASS|;
    if GoodLabels(name) {
      GoodNamesRead(name, TYPE_CLASS);
    }
    if ReadLabels(Question(name)) == Some((name, TYPE_CLASS)) {
      OnlyGoodNamesRead(name, TYPE_CLASS);
    }
  }

  /** Two names with acceptable labels ask the same question only if they are equal. */
  lemma QuestionInjective(a: Name, b: Name)
    requires GoodLabels(a) && GoodLabels(b) && Question(a) == Question(b)
    ensures a == b
  {
    GoodNamesRead(a, TYPE_CLASS);
    GoodNamesRead(b, TYPE_CLASS);
  }

  lemma DottedSlices(name: Name, n: nat)
    requires n <= |name|
    ensures (name + [DOT])[..n] == name[..n]
    ensures (name + [DOT])[n + 1..] == if n == |name| then [] else name[n + 1..] + [DOT]
  {
  }

  lemma ZeroBehind(front: Name, later: Name)
    ensures front + (later + [0]) == front + later + [0]
  {
  }

  /** A dot at the end adds a zero byte to the encoding. */
  lemma {:induction false} LabelsOfTrailingDot(name: Name)
    ensures Labels(name + [DOT]) == Labels(name) + [0]
    decreases |name|
  {
    var n, dotted := FirstLabel(name), name + [DOT];
    FirstLabelIs(dotted, n);
    LabelsSplit(name);
    LabelsSplit(dotted);
    hide *;
    DottedSlices(name, n);
    if n == |name| {
      NoLabels();
    } else {
      LabelsOfTrailingDot(name[n + 1..]);
    }
    ZeroBehind([n % 256] + name[..n], LaterLabels(name));
  }

  lemma NoLabels()
    ensures Labels([]) == [0]
  {
  }

  /** A name with a dot at its end is read back without it, with a second zero byte behind. */
  lemma TrailingDotMisread(name: Name)
    requires GoodLabels(name) && |name| + 2 <= MAX_NAME
    ensures ReadName(Question(name + [DOT])) == Some((name, [0] + TYPE_CLASS))
  {
    hide Labels, FirstLabel, GoodLabels, ReadLabels;
    LabelsOfTrailingDot(name);
    GoodNamesRead(name, [0] + TYPE_CLASS);
    assert Question(name + [DOT]) == Labels(name) + [0] + ([0] + TYPE_CLASS);
  }

  /** The shortest of them, "a.". */
  lemma DotAfterOneLetter()
    ensures ReadName(Question([97, DOT])) == Some(([97], [0] + TYPE_CLASS))
  {
    var name: Name := [97];
    FirstLabelIs(name, 1);
    TrailingDotMisread(name);
    assert name + [DOT] == [97, DOT];
  }

  /** "a.a. ... .a" with 200 dots: all labels are fine, but the name takes too many octets. */
  function Dotted(k: nat): (name: Name)
    ensures |name| == 2 * k + 1 && name[0] == 97 && IsString(name) && (k > 0 ==> name[1] == DOT)
  {
    if k == 0 then [97] else [97, DOT] + Dotted(k - 1)
  }

  lemma {:induction false} DottedIsGood(k: nat)
    ensures GoodLabels(Dotted(k))
  {
    FirstLabelIs(Dotted(k), 1);
    if k == 0 {
    } else {
      DottedIsGood(k - 1);
      assert Dotted(k)[2..] == Dotted(k - 1);
    }
  }

  lemma LongNameRefused()
    ensures GoodLabels(Dotted(200)) && |Dotted(200)| + HEADER_SIZE + QUERY_SIZE + 2 <= BUF_SIZE
    ensures ReadName(Question(Dotted(200))) == None
  {
    hide Labels, FirstLabel, GoodLabels, ReadLabels, Dotted;
    DottedIsGood(200);
    GoodNamesRead(Dotted(200), TYPE_CLASS);
  }

  // --- what a resolver reads in the whole message ---

  /** Two bytes, the most significant first. */
  function Word(bytes: Name, at: nat): (w: nat)
    requires at + 2 <= |bytes|
  {
    256 * (bytes[at] as int) + bytes[at + 1] as int
  }

  /** The second word of the header (section 4.1.1 of RFC 1035), bit by bit from the top. */
  datatype Flags = Flags(response: bool, opcode: nat, authoritative: bool, truncated: bool,
                         recursionDesired: bool, recursionAvailable: bool, zero: nat, rcode: nat)

  function FlagsOf(w: nat): Flags {
    Flags(w / 32768 % 2 == 1, w / 2048 % 16, w / 1024 % 2 == 1, w / 512 % 2 == 1,
          w / 256 % 2 == 1, w / 128 % 2 == 1, w / 16 % 8, w % 16)
  }

  datatype Query = Query(id: nat, flags: Flags, questions: nat, answers: nat, authorities: nat, additionals: nat,
                         name: Name, qtype: nat, qclass: nat, rest: Name)

  /** A message with one question, by sections 4.1.1 and 4.1.2 of RFC 1035. */
  function ReadMessage(bytes: Name): Option<Query> {
    if |bytes| < 12 then None
    else
      match ReadName(bytes[12..])
      case None => None
      case Some((name, tail)) =>
        if |tail| < 4 then None
        else Some(Query(Word(bytes, 0), FlagsOf(Word(bytes, 2)),
                        Word(bytes, 4), Word(bytes, 6), Word(bytes, 8), Word(bytes, 10),
                        name, Word(tail, 0), Word(tail, 2), tail[4..]))
  }

  /** 0x0100 is recursion desired and nothing else. */
  lemma FlagsSent()
    ensures FlagsOf(256) == Flags(false, 0, false, false, true, false, 0, 0)
  {
  }

  /** The fields of the header that is sent. */
  lemma HeaderRead(question: Name)
    ensures var bytes := HEADER + question;
            && bytes[12..] == question
            && Word(bytes, 0) == 256 && Word(bytes, 2) == 256 && Word(bytes, 4) == 1
            && Word(bytes, 6) == 0 && Word(bytes, 8) == 0 && Word(bytes, 10) == 0
  {
    var bytes := HEADER + question;
    assert forall k | 0 <= k < 12 :: bytes[k] == HEADER[k];
  }

  lemma TailIsTypeClass(tail: Name)
    requires |tail| >= 4
    ensures Word(tail, 0) == 1 && Word(tail, 2) == 1 && tail[4..] == [] <==> tail == TYPE_CLASS
  {
    if Word(tail, 0) == 1 && Word(tail, 2) == 1 && tail[4..] == [] {
      assert |tail| == 4 && tail[0] == 0 && tail[1] == 1 && tail[2] == 0 && tail[3] == 1;
    }
  }

  /** A standard query, recursion desired, one question: the address of the name in the Internet class. */
  function Asked(name: Name): Query {
    Query(256, Flags(false, 0, false, false, true, false, 0, 0), 1, 0, 0, 0, name, 1, 1, [])
  }

  /**
   * The message that is sent is read as that query, with nothing else set and no other records,
   * exactly for the names that can be asked for.
   */
  lemma MessageIsExact(name: Name)
    requires IsString(name)
    ensures ReadMessage(HEADER + Question(name)) == Some(Asked(name)) <==> GoodLabels(name) && |name| + 2 <= MAX_NAME
  {
    var question := Question(name);
    QuestionIsExact(name);
    hide ReadName, GoodLabels, Question, FlagsOf, Word, IsString;
    HeaderRead(question);
    FlagsSent();
    match ReadName(question) {
      case None =>
      case Some((read, tail)) =>
        if |tail| >= 4 {
          TailIsTypeClass(tail);
        }
    }
  }
}
