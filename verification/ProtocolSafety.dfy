/** What every step of the pipeline keeps, and safety over whole runs. */
module ProtocolSafety {
  import opened Bytes
  import opened Wrappers
  import opened FifoCtl
  import opened Modulo
  import opened Protocol

  // --- the input: accepted calls and how they are dealt ---

  lemma {:induction false} AcceptedMonotone(c: Config, j: nat, k: nat)
    requires j <= k <= |c.frames|
    ensures Accepted(c, j) <= Accepted(c, k)
    decreases k - j
  {
    if j < k {
      AcceptedMonotone(c, j, k - 1);
    }
  }

  /** The j-th accepted call has exactly j accepted calls before it, so calls are in order. */
  lemma {:induction false} AcceptedRank(c: Config, k: nat, j: nat)
    requires k <= |c.frames| && j < |Accepted(c, k)|
    ensures |Accepted(c, Accepted(c, k)[j])| == j
  {
    if k > 0 && j < |Accepted(c, k - 1)| {
      AcceptedRank(c, k - 1, j);
    }
  }

  lemma LatestBounds(h: nat, p: nat, r: nat)
    requires r < p
    ensures h - p < Latest(h, p, r) <= h
    ensures Latest(h, p, r) % p == r
  {
    var x := h + p - r;
    BackToResidue(h, p, r, x / p, x % p);
  }

  lemma BackToResidue(h: nat, p: nat, r: nat, q: int, d: int)
    requires r < p && h + p - r == q * p + d
    ensures (h - d) % p == r
  {
    DistributeOne(q, p);
    DivModUnique(h - d, q - 1, r, p);
  }

  lemma DistributeOne(q: int, p: int)
    ensures (q - 1) * p == q * p - p
  {
  }

  /** Handing off one more frame moves `Latest` for its reader and for no other. */
  lemma LatestNext(h: nat, p: nat, r: nat)
    requires r < p
    ensures Latest(h + 1, p, r) == if (h + 1) % p == r then h + 1 else Latest(h, p, r)
  {
    LatestBounds(h, p, r);
    LatestBounds(h + 1, p, r);
    var m, m' := Latest(h, p, r), Latest(h + 1, p, r);
    if (h + 1) % p == r {
      CloseResidues(m', h + 1, p);
    } else {
      CloseResidues(m, m', p);
    }
  }

  /** The last frame dealt to r is number Latest, and r has one iff Latest is positive. */
  lemma {:induction false} DealLatest(c: Config, calls: seq<nat>, r: nat)
    requires r < c.p && forall j | 0 <= j < |calls| :: calls[j] < |c.frames|
    ensures var m := Latest(|calls|, c.p, r); var d := Deal(c, calls, r);
            (d != [] <==> m >= 1) && (m >= 1 ==> d[|d| - 1] == c.frames[calls[m - 1]])
  {
    if calls == [] {
      LatestBounds(0, c.p, r);
      if Latest(0, c.p, r) >= 1 { assert false; }
    } else {
      DealLatest(c, calls[..|calls| - 1], r);
      LatestNext(|calls| - 1, c.p, r);
    }
  }

  lemma {:induction false} DealMonotone(c: Config, some: seq<nat>, all: seq<nat>, r: nat)
    requires c.p > 0 && some <= all && forall j | 0 <= j < |all| :: all[j] < |c.frames|
    ensures Deal(c, some, r) <= Deal(c, all, r)
    decreases |all|
  {
    if |some| < |all| {
      DealMonotone(c, some, all[..|all| - 1], r);
    } else {
      assert some == all;
    }
  }

  // --- the structural invariant, for every input ---

  /** Calls whose outcome is settled: refused, or handed off. */
  function Settled(s: State): nat
    requires InCall(s.writer) ==> s.calls > 0
  {
    if InCall(s.writer) then s.calls - 1 else s.calls
  }

  function Handed(c: Config, s: State): seq<nat>
    requires Sized(c, s) && (InCall(s.writer) ==> s.calls > 0)
  {
    Accepted(c, Settled(s))
  }

  predicate WriterShape(c: Config, s: State) {
    && Sized(c, s)
    && s.index == s.calls % c.n
    && (InCall(s.writer) ==> s.calls > 0)
    && (match s.writer
        case WReset(k) => k <= c.n
        case WIdle => true
        case WLock => true
        case WCopy(k) => Fits(c, s.calls - 1) && k <= |Current(c, s)|
        case WUnlock(ok) => ok == Fits(c, s.calls - 1)
        case WOpen => Fits(c, s.calls - 1)
        case WSend => Fits(c, s.calls - 1) && s.readers[s.id] == RRead(None))
    && s.id == (|Handed(c, s)| + if s.writer.WOpen? || s.writer.WSend? then 1 else 0) % c.p
  }

  /** A claiming reader works on the latest frame dealt to it, in the slot that frame was given. */
  predicate ReaderShape(c: Config, s: State, r: nat)
    requires WriterShape(c, s) && r < c.p
  {
    var ph := s.readers[r];
    && (ph.RReset? ==> ph.next <= c.n)
    && (ph.RCopy? ==> |ph.buf| <= c.b)
    && (ph == RRead(None) ==> s.writer.WSend? && s.id == r)
    && (Claim(ph).Some? ==>
          var h := Handed(c, s);
          var m := Latest(|h|, c.p, r);
          m >= 1 && Claim(ph).value == SlotOf(c, h[m - 1]))
  }

  ghost predicate Held(c: Config, s: State, i: nat)
    requires Sized(c, s)
  {
    WriterInside(s, i) || exists r :: 0 <= r < c.p && Inside(s.readers[r], i)
  }

  ghost predicate Shape(c: Config, s: State) {
    && WriterShape(c, s)
    && (forall r: nat | r < c.p :: ReaderShape(c, s, r))
    && SemShape(c, s)
  }

  lemma InitShape(c: Config, s: State)
    requires Init(c, s)
    ensures Shape(c, s)
  {
  }

  lemma WriterStepKeepsWriter(c: Config, s: State, s': State)
    requires WriterShape(c, s) && WriterStep(c, s, s') && !s.writer.WSend?
    ensures WriterShape(c, s') && Handed(c, s') == Handed(c, s) && s'.readers == s.readers
  {
    Step(s.calls, c.n);
    Step(|Handed(c, s)|, c.p);
  }

  ghost predicate SemShape(c: Config, s: State)
    requires Sized(c, s)
  {
    forall i: nat | i < c.n :: s.sem[i] == 0 ==> Held(c, s, i)
  }

  lemma WriterStepKeepsSem(c: Config, s: State, s': State)
    requires WriterShape(c, s) && SemShape(c, s) && WriterStep(c, s, s') && Sized(c, s')
    ensures SemShape(c, s')
  {
    forall i: nat | i < c.n && s'.sem[i] == 0 ensures Held(c, s', i) {
      if s.sem[i] == 0 && !WriterInside(s, i) {
        assert Held(c, s, i);
        var q :| 0 <= q < c.p && Inside(s.readers[q], i);
        assert Inside(s'.readers[q], i);
      }
    }
  }

  lemma ReaderStepKeepsSem(c: Config, s: State, s': State, r: nat)
    requires WriterShape(c, s) && SemShape(c, s) && r < c.p && ReaderStep(c, s, s', r) && Sized(c, s')
    ensures SemShape(c, s')
  {
    forall i: nat | i < c.n && s'.sem[i] == 0 ensures Held(c, s', i) {
      if s.sem[i] == 0 {
        assert Held(c, s, i);
        if !WriterInside(s, i) {
          var q :| 0 <= q < c.p && Inside(s.readers[q], i);
          assert Inside(s'.readers[q], i);
        }
      } else {
        assert Inside(s'.readers[r], i);
      }
    }
  }

  lemma ReadersUnchanged(c: Config, s: State, s': State)
    requires Shape(c, s) && WriterShape(c, s')
    requires s'.readers == s.readers && Handed(c, s') == Handed(c, s)
    requires s.writer.WSend? <==> s'.writer.WSend?
    requires s.writer.WSend? ==> s'.id == s.id
    ensures forall r: nat | r < c.p :: ReaderShape(c, s', r)
  {
    forall r: nat | r < c.p ensures ReaderShape(c, s', r) {
      assert ReaderShape(c, s, r);
    }
  }

  /** Steps of the writer other than the handoff. */
  lemma WriterStepShape(c: Config, s: State, s': State)
    requires Shape(c, s) && WriterStep(c, s, s') && !s.writer.WSend?
    ensures Shape(c, s') && Handed(c, s') == Handed(c, s)
  {
    WriterStepKeepsWriter(c, s, s');
    ReadersUnchanged(c, s, s');
    WriterStepKeepsSem(c, s, s');
  }

  /** The handoff: the frame becomes the latest one of its reader. */
  lemma SendShape(c: Config, s: State, s': State)
    requires Shape(c, s) && WriterStep(c, s, s') && s.writer.WSend?
    ensures Shape(c, s') && Handed(c, s') == Handed(c, s) + [s.calls - 1]
  {
    var h := |Handed(c, s)|;
    assert Handed(c, s') == Handed(c, s) + [s.calls - 1];
    AtoiOfMessage(s.index);
    assert SemShape(c, s') by {
      WriterStepKeepsSem(c, s, s');
    }
    hide Accepted, Latest, Atoi, SemShape;
    forall r: nat | r < c.p ensures ReaderShape(c, s', r) {
      assert ReaderShape(c, s, r);
      LatestNext(h, c.p, r);
    }
  }

  lemma RendezvousShape(c: Config, s: State, s': State)
    requires Shape(c, s) && Rendezvous(c, s, s')
    ensures Shape(c, s') && Handed(c, s') == Handed(c, s)
  {
    forall r: nat | r < c.p ensures ReaderShape(c, s', r) {
      assert ReaderShape(c, s, r);
    }
    forall i: nat | i < c.n && s'.sem[i] == 0 ensures Held(c, s', i) {
      assert Held(c, s, i);
      var q :| 0 <= q < c.p && Inside(s.readers[q], i);
      assert Inside(s'.readers[q], i);
    }
  }

  lemma ReaderStepKeepsReader(c: Config, s: State, s': State, r: nat)
    requires Shape(c, s) && r < c.p && ReaderStep(c, s, s', r)
    ensures WriterShape(c, s') && Handed(c, s') == Handed(c, s) && ReaderShape(c, s', r)
    ensures s'.readers == s.readers[r := s'.readers[r]]
  {
    hide Accepted, Latest, Atoi, SemShape;
    assert ReaderShape(c, s, r);
  }

  lemma ReaderStepShape(c: Config, s: State, s': State, r: nat)
    requires Shape(c, s) && r < c.p && ReaderStep(c, s, s', r)
    ensures Shape(c, s') && Handed(c, s') == Handed(c, s)
  {
    ReaderStepKeepsReader(c, s, s', r);
    forall q: nat | q < c.p ensures ReaderShape(c, s', q) {
      assert ReaderShape(c, s, q);
    }
    ReaderStepKeepsSem(c, s, s', r);
  }

  lemma OutsideResetShape(c: Config, s: State, s': State, i: nat)
    requires Shape(c, s) && i < c.n && OutsideReset(c, s, s', i)
    ensures Shape(c, s') && Handed(c, s') == Handed(c, s)
  {
    ReadersUnchanged(c, s, s');
    forall k: nat | k < c.n && s'.sem[k] == 0 ensures Held(c, s', k) {
      assert Held(c, s, k);
      assert !WriterInside(s, k) ==> exists q :: 0 <= q < c.p && Inside(s'.readers[q], k);
    }
  }

  lemma NextShape(c: Config, s: State, s': State)
    requires Shape(c, s) && Next(c, s, s')
    ensures Shape(c, s')
  {
    if WriterStep(c, s, s') {
      if s.writer.WSend? { SendShape(c, s, s'); } else { WriterStepShape(c, s, s'); }
    } else if Rendezvous(c, s, s') {
      RendezvousShape(c, s, s');
    } else if r: nat :| r < c.p && ReaderStep(c, s, s', r) {
      ReaderStepShape(c, s, s', r);
    } else {
      var i: nat :| i < c.n && OutsideReset(c, s, s', i);
      OutsideResetShape(c, s, s', i);
    }
  }

  lemma {:induction false} RunShape(c: Config, tr: seq<State>)
    requires Run(c, tr)
    ensures Shape(c, Last(tr))
    decreases |tr|
  {
    if |tr| == 1 {
      InitShape(c, tr[0]);
    } else {
      var before := tr[..|tr| - 1];
      RunShape(c, before);
      assert Next(c, tr[|tr| - 2], tr[|tr| - 1]);
      NextShape(c, Last(before), Last(tr));
    }
  }

  // --- exclusion ---

  /**
   * Two accepted calls that share a slot have more than p accepted calls from the first up
   * to the second.  It depends on the frame lengths alone.
   */
  predicate SafeInput(c: Config)
    requires ValidConfig(c)
  {
    forall i, k | 0 <= i < k < |c.frames| && Fits(c, i) && Fits(c, k) && (k - i) % c.n == 0 ::
      |Accepted(c, k)| - |Accepted(c, i)| > c.p
  }

  lemma DifferentSlots(c: Config, i: nat, k: nat)
    requires ValidConfig(c) && SafeInput(c) && i < |c.frames| && k < |c.frames| && Fits(c, i) && Fits(c, k)
    requires 0 < |Accepted(c, k)| - |Accepted(c, i)| <= c.p
    ensures SlotOf(c, i) != SlotOf(c, k)
  {
    if k < i { AcceptedMonotone(c, k, i); }
    SameResidue(k + 1, i + 1, c.n);
  }

  /** The call whose frame a claiming reader works on, and how many were accepted before it. */
  function Work(c: Config, s: State, r: nat): (call: nat)
    requires WriterShape(c, s) && r < c.p && ReaderShape(c, s, r) && Claim(s.readers[r]).Some?
    ensures call < |c.frames| && Fits(c, call) && call < Settled(s)
    ensures Claim(s.readers[r]).value == SlotOf(c, call)
  {
    Handed(c, s)[Latest(|Handed(c, s)|, c.p, r) - 1]
  }

  lemma WorkRank(c: Config, s: State, r: nat)
    requires WriterShape(c, s) && r < c.p && ReaderShape(c, s, r) && Claim(s.readers[r]).Some?
    ensures |Accepted(c, Work(c, s, r))| == Latest(|Handed(c, s)|, c.p, r) - 1
    ensures |Handed(c, s)| - c.p <= |Accepted(c, Work(c, s, r))| < |Handed(c, s)|
    ensures (|Accepted(c, Work(c, s, r))| + 1) % c.p == r
  {
    LatestBounds(|Handed(c, s)|, c.p, r);
    AcceptedRank(c, Settled(s), Latest(|Handed(c, s)|, c.p, r) - 1);
  }

  lemma WriterApart(c: Config, s: State, r: nat)
    requires Shape(c, s) && SafeInput(c) && r < c.p && WriterClaims(c, s) && Claim(s.readers[r]).Some?
    ensures Claim(s.readers[r]) != Some(s.index)
  {
    assert ReaderShape(c, s, r);
    WorkRank(c, s, r);
    DifferentSlots(c, Work(c, s, r), s.calls - 1);
  }

  lemma ReadersApart(c: Config, s: State, r: nat, q: nat)
    requires Shape(c, s) && SafeInput(c) && r < q < c.p
    requires Claim(s.readers[r]).Some? && Claim(s.readers[q]).Some?
    ensures Claim(s.readers[r]) != Claim(s.readers[q])
  {
    assert ReaderShape(c, s, r) && ReaderShape(c, s, q);
    WorkRank(c, s, r);
    WorkRank(c, s, q);
    var i, k := Work(c, s, r), Work(c, s, q);
    if |Accepted(c, i)| < |Accepted(c, k)| {
      DifferentSlots(c, i, k);
    } else {
      DifferentSlots(c, k, i);
    }
  }

  /** The handoff discipline alone keeps every slot in a single use; semaphores play no part. */
  lemma ShapeExclusive(c: Config, s: State)
    requires Shape(c, s) && SafeInput(c)
    ensures Exclusive(c, s)
  {
    forall r | 0 <= r < c.p && WriterClaims(c, s) && Claim(s.readers[r]).Some?
      ensures Claim(s.readers[r]) != Some(s.index)
    {
      WriterApart(c, s, r);
    }
    forall r, q | 0 <= r < q < c.p && Claim(s.readers[r]).Some? && Claim(s.readers[q]).Some?
      ensures Claim(s.readers[r]) != Claim(s.readers[q])
    {
      ReadersApart(c, s, r, q);
    }
  }

  // --- contents ---

  predicate Begins(block: Block, frame: Block) {
    frame <= block
  }

  /** What `out` of a reader must be: the frames dealt to it, less the one it is working on. */
  ghost predicate Delivered(out: seq<Block>, due: seq<Block>, pending: nat, b: nat) {
    && |out| + pending == |due|
    && forall q | 0 <= q < |out| :: |out[q]| == b && Begins(out[q], due[q])
  }

  ghost predicate ReaderContent(c: Config, s: State, r: nat)
    requires WriterShape(c, s) && r < c.p && ReaderShape(c, s, r)
  {
    var ph := s.readers[r];
    var due := Deal(c, Handed(c, s), r);
    && Delivered(s.out[r], due, if Claim(ph).Some? then 1 else 0, c.b)
    && (Claim(ph).Some? ==>
          var f := c.frames[Work(c, s, r)];
          var slot := s.slots[Claim(ph).value];
          && (ph.RRead? || ph.RLock? ==> Begins(slot, f))
          && (ph.RCopy? ==> Begins(slot, f) && ph.buf <= slot)
          && (ph.RUnlock? ==> |ph.buf| == c.b && Begins(ph.buf, f)))
  }

  predicate WriterContent(c: Config, s: State)
    requires WriterShape(c, s)
  {
    match s.writer
    case WCopy(k) => Current(c, s)[..k] <= s.slots[s.index]
    case WUnlock(ok) => ok ==> Begins(s.slots[s.index], Current(c, s))
    case WOpen => Begins(s.slots[s.index], Current(c, s))
    case WSend => Begins(s.slots[s.index], Current(c, s))
    case _ => true
  }

  ghost predicate Content(c: Config, s: State)
    requires Shape(c, s)
  {
    && WriterContent(c, s)
    && forall r: nat | r < c.p && ReaderShape(c, s, r) :: ReaderContent(c, s, r)
  }

  lemma InitContent(c: Config, s: State)
    requires Init(c, s) && Shape(c, s)
    ensures Content(c, s)
  {
  }

  /** A reader that does not move keeps its content when its own slot is not written. */
  lemma ReaderContentFrame(c: Config, s: State, s': State, r: nat)
    requires WriterShape(c, s) && WriterShape(c, s') && r < c.p
    requires ReaderShape(c, s, r) && ReaderShape(c, s', r) && ReaderContent(c, s, r)
    requires s'.readers[r] == s.readers[r] && s'.out[r] == s.out[r]
    requires Handed(c, s') == Handed(c, s)
    requires Claim(s.readers[r]).Some? ==>
               s'.slots[Claim(s.readers[r]).value] == s.slots[Claim(s.readers[r]).value]
    ensures ReaderContent(c, s', r)
  {
  }

  lemma WriterStepContent(c: Config, s: State, s': State)
    requires Shape(c, s) && Exclusive(c, s) && Content(c, s)
    requires WriterStep(c, s, s') && !s.writer.WSend? && Shape(c, s') && Handed(c, s') == Handed(c, s)
    ensures Content(c, s')
  {
    assert WriterContent(c, s');
    forall r: nat | r < c.p ensures ReaderContent(c, s', r) {
      assert ReaderShape(c, s, r) && ReaderShape(c, s', r) && ReaderContent(c, s, r);
      ReaderContentFrame(c, s, s', r);
    }
  }

  lemma DealSnoc(c: Config, h: seq<nat>, call: nat, r: nat)
    requires c.p > 0 && call < |c.frames| && forall j | 0 <= j < |h| :: h[j] < |c.frames|
    ensures Deal(c, h + [call], r) == Deal(c, h, r) + if (|h| + 1) % c.p == r then [c.frames[call]] else []
  {
    assert (h + [call])[..|h|] == h;
  }

  /** What is known when the number is sent. */
  lemma SendFacts(c: Config, s: State, s': State)
    requires Shape(c, s) && Content(c, s) && WriterStep(c, s, s') && s.writer.WSend?
    ensures s' == s.(writer := WIdle, readers := s.readers[s.id := RRead(Some(Message(s.index)))])
    ensures (|Handed(c, s)| + 1) % c.p == s.id && s.index == SlotOf(c, s.calls - 1)
    ensures Begins(s.slots[s.index], Current(c, s))
    ensures Delivered(s.out[s.id], Deal(c, Handed(c, s), s.id), 0, c.b)
  {
    hide Deal, Accepted, Latest, Atoi, SemShape, Delivered, Begins;
    assert ReaderShape(c, s, s.id) && ReaderContent(c, s, s.id);
  }

  /** The reader that gets the number has one more frame due, and finds it in its slot. */
  lemma SendToReader(c: Config, s: State, s': State)
    requires Shape(c, s) && Content(c, s)
    requires WriterStep(c, s, s') && s.writer.WSend? && Shape(c, s')
    requires Handed(c, s') == Handed(c, s) + [s.calls - 1]
    ensures ReaderShape(c, s', s.id) && ReaderContent(c, s', s.id)
  {
    var h, r := Handed(c, s), s.id;
    SendFacts(c, s, s');
    assert ReaderShape(c, s', r);
    AtoiOfMessage(s.index);
    LatestNext(|h|, c.p, r);
    DealSnoc(c, h, s.calls - 1, r);
    hide Deal, Accepted, Latest, Atoi, Message, WriterStep, Content, SemShape, ReaderShape, ReaderContent, Delivered;
    assert Claim(s'.readers[r]) == Some(s.index);
    assert Work(c, s', r) == s.calls - 1;
    OneMoreDue(s.out[r], Deal(c, h, r), Current(c, s), c.b);
    PostedContent(c, s', r);
  }

  lemma OneMoreDue(out: seq<Block>, due: seq<Block>, f: Block, b: nat)
    requires Delivered(out, due, 0, b)
    ensures Delivered(out, due + [f], 1, b)
  {
  }

  lemma PostedContent(c: Config, s: State, r: nat)
    requires WriterShape(c, s) && r < c.p && ReaderShape(c, s, r) && s.readers[r].RRead? && Claim(s.readers[r]).Some?
    requires Delivered(s.out[r], Deal(c, Handed(c, s), r), 1, c.b)
    requires Begins(s.slots[Claim(s.readers[r]).value], c.frames[Work(c, s, r)])
    ensures ReaderContent(c, s, r)
  {
  }

  /** For the other readers nothing changes. */
  lemma SendPastReader(c: Config, s: State, s': State, r: nat)
    requires Shape(c, s) && Content(c, s) && r < c.p && r != s.id
    requires WriterStep(c, s, s') && s.writer.WSend? && Shape(c, s')
    requires Handed(c, s') == Handed(c, s) + [s.calls - 1]
    ensures ReaderShape(c, s', r) && ReaderContent(c, s', r)
  {
    var h := Handed(c, s);
    assert ReaderShape(c, s, r) && ReaderShape(c, s', r) && ReaderContent(c, s, r);
    LatestNext(|h|, c.p, r);
    LatestBounds(|h|, c.p, r);
    DealSnoc(c, h, s.calls - 1, r);
    hide Deal, Accepted, Latest, Atoi;
    assert Claim(s.readers[r]).Some? ==> Work(c, s', r) == Work(c, s, r);
  }

  lemma SendContent(c: Config, s: State, s': State)
    requires Shape(c, s) && Content(c, s)
    requires WriterStep(c, s, s') && s.writer.WSend? && Shape(c, s')
    requires Handed(c, s') == Handed(c, s) + [s.calls - 1]
    ensures Content(c, s')
  {
    forall r: nat | r < c.p && ReaderShape(c, s', r) ensures ReaderContent(c, s', r) {
      if r == s.id { SendToReader(c, s, s'); } else { SendPastReader(c, s, s', r); }
    }
    assert WriterContent(c, s');
  }

  lemma RendezvousContent(c: Config, s: State, s': State)
    requires Shape(c, s) && Content(c, s) && Rendezvous(c, s, s')
    requires Shape(c, s') && Handed(c, s') == Handed(c, s)
    ensures Content(c, s')
  {
    forall r: nat | r < c.p ensures ReaderContent(c, s', r) {
      assert ReaderShape(c, s, r) && ReaderShape(c, s', r) && ReaderContent(c, s, r);
    }
  }

  lemma MovingReaderContent(c: Config, s: State, s': State, r: nat)
    requires Shape(c, s) && Content(c, s) && r < c.p && ReaderStep(c, s, s', r)
    requires Shape(c, s') && Handed(c, s') == Handed(c, s)
    requires ReaderShape(c, s', r)
    ensures ReaderContent(c, s', r)
  {
    hide Accepted, Deal, Latest, Atoi, SemShape;
    assert ReaderShape(c, s, r) && ReaderContent(c, s, r);
    if s.readers[r].RUnlock? {
      DealLatest(c, Handed(c, s), r);
    }
  }

  lemma ReaderStepContent(c: Config, s: State, s': State, r: nat)
    requires Shape(c, s) && Content(c, s) && r < c.p && ReaderStep(c, s, s', r)
    requires Shape(c, s') && Handed(c, s') == Handed(c, s)
    ensures Content(c, s')
  {
    hide Accepted, Deal, Latest, Atoi, SemShape;
    assert ReaderShape(c, s, r);
    assert WriterContent(c, s');
    forall q: nat | q < c.p ensures ReaderContent(c, s', q) {
      assert ReaderShape(c, s, q) && ReaderShape(c, s', q) && ReaderContent(c, s, q);
      if q == r { MovingReaderContent(c, s, s', r); } else { ReaderContentFrame(c, s, s', q); }
    }
  }

  lemma NextContent(c: Config, s: State, s': State)
    requires Shape(c, s) && Content(c, s) && SafeInput(c) && Next(c, s, s')
    ensures Shape(c, s') && Content(c, s')
  {
    ShapeExclusive(c, s);
    if WriterStep(c, s, s') {
      if s.writer.WSend? {
        SendShape(c, s, s');
        SendContent(c, s, s');
      } else {
        WriterStepShape(c, s, s');
        WriterStepContent(c, s, s');
      }
    } else if Rendezvous(c, s, s') {
      RendezvousShape(c, s, s');
      RendezvousContent(c, s, s');
    } else if r: nat :| r < c.p && ReaderStep(c, s, s', r) {
      ReaderStepShape(c, s, s', r);
      ReaderStepContent(c, s, s', r);
    } else {
      var i: nat :| i < c.n && OutsideReset(c, s, s', i);
      OutsideResetShape(c, s, s', i);
      forall r: nat | r < c.p ensures ReaderContent(c, s', r) {
        assert ReaderShape(c, s, r) && ReaderShape(c, s', r) && ReaderContent(c, s, r);
        ReaderContentFrame(c, s, s', r);
      }
    }
  }

  lemma {:induction false} RunContent(c: Config, tr: seq<State>)
    requires Run(c, tr) && SafeInput(c)
    ensures Shape(c, Last(tr)) && Content(c, Last(tr))
    decreases |tr|
  {
    if |tr| == 1 {
      InitShape(c, tr[0]);
      InitContent(c, tr[0]);
    } else {
      var before := tr[..|tr| - 1];
      RunContent(c, before);
      assert Next(c, tr[|tr| - 2], tr[|tr| - 1]);
      NextContent(c, Last(before), Last(tr));
    }
  }
}
