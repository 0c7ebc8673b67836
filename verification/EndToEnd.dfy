/** From the client's byte stream to the blocks the readers pass on. */
module EndToEnd {
  import opened Bytes
  import opened Wrappers
  import opened Modulo
  import opened Protocol
  import opened ProtocolSafety
  import opened ProtocolProgress
  import opened Framing

  /** Every frame that gets into a slot has the length that its header says. */
  predicate AllFramed(c: Config) {
    forall i | 0 <= i < |c.frames| && Fits(c, i) :: WellFramed(c.frames[i])
  }

  lemma {:induction false} DealFramed(c: Config, calls: seq<nat>, r: nat)
    requires c.p > 0 && AllFramed(c) && forall j | 0 <= j < |calls| :: calls[j] < |c.frames| && Fits(c, calls[j])
    ensures forall q | 0 <= q < |Deal(c, calls, r)| :: WellFramed(Deal(c, calls, r)[q])
  {
    if calls == [] {
    } else {
      DealFramed(c, calls[..|calls| - 1], r);
    }
  }

  /**
   * In every state of every run, what reader r has passed on, cut at the length field, is an
   * initial part of the frames dealt to it; once everything is done it is all of them.
   */
  lemma Deliveries(c: Config, tr: seq<State>, r: nat)
    requires Run(c, tr) && SafeInput(c) && AllFramed(c) && r < c.p
    ensures Sized(c, Last(tr))
    ensures var due := Deal(c, Accepted(c, |c.frames|), r); var out := Last(tr).out[r];
            && Cuts(out) <= due
            && (forall q | 0 <= q < |out| :: |out[q]| == c.b)
            && (Done(c, Last(tr)) ==> Cuts(out) == due)
  {
    RunContent(c, tr);
    var s := Last(tr);
    assert ReaderShape(c, s, r) && ReaderContent(c, s, r);
    var all, some := Accepted(c, |c.frames|), Handed(c, s);
    AcceptedMonotone(c, Settled(s), |c.frames|);
    DealMonotone(c, some, all, r);
    DealFramed(c, some, r);
    var due, out := Deal(c, some, r), s.out[r];
    forall q | 0 <= q < |out| ensures Cut(out[q]) == due[q] {
      CutRecovers(out[q], due[q]);
    }
    assert Cuts(out) == due[..|out|];
  }

  /** Of h frames, the reader that gets the frames j with j % p == r0 gets this many. */
  lemma {:induction false} DealLength(c: Config, calls: seq<nat>, r0: nat)
    requires r0 < c.p && forall j | 0 <= j < |calls| :: calls[j] < |c.frames|
    ensures |Deal(c, calls, (r0 + 1) % c.p)| == (|calls| + c.p - 1 - r0) / c.p
  {
    if calls == [] {
      DivModUnique(c.p - 1 - r0, 0, c.p - 1 - r0, c.p);
    } else {
      var h := |calls| - 1;
      DealLength(c, calls[..h], r0);
      SameResidue(h + 1, r0 + 1, c.p);
      var x := h + c.p - 1 - r0;
      SameResidue(h, r0, c.p);
      assert (h + 1) % c.p == (r0 + 1) % c.p <==> (h - r0) % c.p == 0;
      assert x + 1 == (h - r0) + 1 * c.p;
      AddMultiple(h - r0, 1, c.p);
      DivNext(x, c.p);
    }
  }

  /** The reader that gets accepted frame j, counted from 0, and its number among that reader's frames. */
  function ReaderOf(p: nat, j: nat): (r: nat)
    requires p > 0
    ensures r < p
  {
    (j + 1) % p
  }

  function PlaceOf(p: nat, j: nat): nat
    requires p > 0
  {
    j / p
  }

  /** Reader and place determine the frame. */
  lemma PlaceInjective(p: nat, i: nat, j: nat)
    requires p > 0 && ReaderOf(p, i) == ReaderOf(p, j) && PlaceOf(p, i) == PlaceOf(p, j)
    ensures i == j
  {
    SameResidue(i + 1, j + 1, p);
    SameResidue(i, j, p);
    assert i == (i / p) * p + i % p && j == (j / p) * p + j % p;
  }

  lemma PlaceCounts(p: nat, j: nat)
    requires p > 0
    ensures (j % p + 1) % p == ReaderOf(p, j)
    ensures (j + p - 1 - j % p) / p == PlaceOf(p, j)
  {
    Step(j, p);
    assert j == (j / p) * p + j % p;
    assert j + p - 1 - j % p == (j / p) * p + (p - 1);
    DivModUnique(j + p - 1 - j % p, j / p, p - 1, p);
  }

  /** Dealing loses and repeats nothing: accepted frame j is in its place of its reader's share. */
  lemma DealIndex(c: Config, calls: seq<nat>, j: nat)
    requires c.p > 0 && j < |calls| && forall i | 0 <= i < |calls| :: calls[i] < |c.frames|
    ensures PlaceOf(c.p, j) < |Deal(c, calls, ReaderOf(c.p, j))|
    ensures Deal(c, calls, ReaderOf(c.p, j))[PlaceOf(c.p, j)] == c.frames[calls[j]]
  {
    var r := ReaderOf(c.p, j);
    var upto := calls[..j + 1];
    assert upto[..j] == calls[..j];
    assert |upto| % c.p == r;
    DealLength(c, calls[..j], j % c.p);
    PlaceCounts(c.p, j);
    hide ReaderOf, PlaceOf;
    assert Deal(c, upto, r) == Deal(c, calls[..j], r) + [c.frames[calls[j]]];
    DealMonotone(c, upto, calls, r);
  }

  /** What reader r has passed on once everything is done, frame by frame. */
  lemma DoneDelivered(c: Config, tr: seq<State>, out: seq<seq<Block>>, r: nat, q: nat)
    requires Run(c, tr) && SafeInput(c) && AllFramed(c) && r < c.p
    requires Sized(c, Last(tr)) && Done(c, Last(tr)) && out == Last(tr).out
    requires q < |Deal(c, Accepted(c, |c.frames|), r)|
    ensures |out| == c.p && q < |out[r]|
    ensures Cut(out[r][q]) == Deal(c, Accepted(c, |c.frames|), r)[q]
  {
    Deliveries(c, tr, r);
    assert Cuts(out[r])[q] == Cut(out[r][q]);
  }

  /** Where accepted frame j ends up once everything is done. */
  lemma DeliveredAt(c: Config, tr: seq<State>, out: seq<seq<Block>>, j: nat)
    requires Run(c, tr) && SafeInput(c) && AllFramed(c)
    requires Sized(c, Last(tr)) && Done(c, Last(tr)) && out == Last(tr).out
    requires j < |Accepted(c, |c.frames|)|
    ensures |out| == c.p && PlaceOf(c.p, j) < |out[ReaderOf(c.p, j)]|
    ensures Cut(out[ReaderOf(c.p, j)][PlaceOf(c.p, j)]) == c.frames[Accepted(c, |c.frames|)[j]]
  {
    hide ReaderOf, PlaceOf;
    DealIndex(c, Accepted(c, |c.frames|), j);
    DoneDelivered(c, tr, out, ReaderOf(c.p, j), PlaceOf(c.p, j));
  }

  /** The frames of c are the calls that a connection amounts to. */
  predicate Carries(c: Config, calls: seq<Call>) {
    && |c.frames| == |calls|
    && forall k | 0 <= k < |calls| ::
         |c.frames[k]| == calls[k].len && (calls[k].len <= PACKAGE_SIZE ==> c.frames[k] == calls[k].data)
  }

  /** Only the call for an unfinished frame can be too long. */
  lemma CarriedFrames(stream: Block, buffer: Block, c: Config)
    requires |buffer| == PACKAGE_SIZE && |Rest(stream)| <= PACKAGE_SIZE && c.b == PACKAGE_SIZE
    requires Sendable(Frames(stream)) && Carries(c, Calls(buffer, stream))
    ensures AllFramed(c) && FirstFit(c, |Frames(stream)|) && |c.frames| <= |Frames(stream)| + 1
    ensures forall j | 0 <= j < |Frames(stream)| :: c.frames[j] == Frames(stream)[j]
  {
    var frames := Frames(stream);
    hide Frames, Rest, After, Onto, CallOn;
    assert forall j | 0 <= j < |frames| :: Calls(buffer, stream)[j] == AsCalls(frames)[j];
    if |c.frames| > |frames| && Fits(c, |frames|) {
      CallIsFramed(Onto(After(buffer, frames), Rest(stream)));
    }
  }

  lemma CallIsFramed(b: Block)
    requires |b| == PACKAGE_SIZE && CallOn(b).len <= PACKAGE_SIZE
    ensures WellFramed(CallOn(b).data)
  {
    var len := CallOn(b).len;
    assert DataLen(b[..len]) == DataLen(b);
  }

  /**
   * The whole pipeline: the whole frames of a client stream, wherever that ends, through
   * 8192-byte slots with more slots than readers, are all delivered, each exactly where
   * round-robin order puts it.
   */
  lemma StreamDelivered(stream: Block, buffer: Block, c: Config, tr: seq<State>, out: seq<seq<Block>>, j: nat)
    requires |buffer| == PACKAGE_SIZE && |Rest(stream)| <= PACKAGE_SIZE && Sendable(Frames(stream))
    requires Carries(c, Calls(buffer, stream)) && c.b == PACKAGE_SIZE && c.n > c.p
    requires Run(c, tr) && Sized(c, Last(tr)) && Done(c, Last(tr)) && out == Last(tr).out
    requires j < |Frames(stream)|
    ensures |out| == c.p && PlaceOf(c.p, j) < |out[ReaderOf(c.p, j)]|
    ensures Cut(out[ReaderOf(c.p, j)][PlaceOf(c.p, j)]) == Frames(stream)[j]
  {
    hide ReaderOf, PlaceOf, Frames, Rest, Calls, Carries, Cut;
    CarriedFrames(stream, buffer, c);
    LastMayNotFit(c, |Frames(stream)|);
    FirstFitAccepted(c, |Frames(stream)|);
    AcceptedMonotone(c, |Frames(stream)|, |c.frames|);
    assert Accepted(c, |c.frames|)[j] == j;
    DeliveredAt(c, tr, out, j);
  }

  /** So each message that a client sends whole arrives as it was packed. */
  lemma MessageDelivered(ms: seq<Message>, last: Message, k: nat, buffer: Block,
                         c: Config, tr: seq<State>, out: seq<seq<Block>>, j: nat)
    requires (forall m | m in ms :: MayBeSent(m)) && MayBeSent(last) && k < |Packed(last)| && |buffer| == PACKAGE_SIZE
    requires var stream := Concat(AllPacked(ms)) + Packed(last)[..k];
             |Rest(stream)| <= PACKAGE_SIZE && Sendable(Frames(stream)) && Carries(c, Calls(buffer, stream))
    requires c.b == PACKAGE_SIZE && c.n > c.p
    requires Run(c, tr) && Sized(c, Last(tr)) && Done(c, Last(tr)) && out == Last(tr).out
    requires j < |ms|
    ensures |out| == c.p && PlaceOf(c.p, j) < |out[ReaderOf(c.p, j)]|
    ensures Cut(out[ReaderOf(c.p, j)][PlaceOf(c.p, j)]) == ms[j].head + Sent16(|ms[j].data|) + ms[j].data
  {
    var stream := Concat(AllPacked(ms)) + Packed(last)[..k];
    MessagesAreCut(ms, last, k);
    hide Frames, Rest, Calls, Carries, Cut, ReaderOf, PlaceOf;
    StreamDelivered(stream, buffer, c, tr, out, j);
  }
}
