/**
 * The pipeline never gets stuck and drains: whatever the frame lengths, some process can
 * step until every call is settled and every reader waits, and only so many steps are left.
 */
module ProtocolProgress {
  import opened Wrappers
  import opened FifoCtl
  import opened Modulo
  import opened Protocol
  import opened ProtocolSafety

  /** Every call has returned and every reader waits at its pipe. */
  predicate Done(c: Config, s: State)
    requires Sized(c, s)
  {
    && s.writer.WIdle? && s.calls == |c.frames|
    && forall r | 0 <= r < c.p :: s.readers[r].ROpen?
  }

  // --- a decreasing measure ---

  function ReaderRank(c: Config, ph: ReaderPhase): nat {
    match ph
    case RReset(k) => if k <= c.n then c.n - k + 1 else 0
    case ROpen => 0
    case RRead(pipe) => if pipe.Some? then c.b + 4 else 0
    case RLock(_) => c.b + 3
    case RCopy(_, buf) => if |buf| <= c.b then c.b - |buf| + 2 else 0
    case RUnlock(_, _) => 1
  }

  /** The reader's share of a handoff is charged to the writer until the number is sent. */
  function WriterRank(c: Config, s: State): nat {
    match s.writer
    case WReset(k) => if k <= c.n then c.n - k + 1 else 0
    case WIdle => 0
    case WLock => 2 * c.b + 9
    case WCopy(k) => c.b + 8 + if 0 < s.calls <= |c.frames| && k <= |Current(c, s)| then |Current(c, s)| - k else 0
    case WUnlock(_) => c.b + 7
    case WOpen => c.b + 6
    case WSend => c.b + 5
  }

  function SumRanks(c: Config, readers: seq<ReaderPhase>): nat {
    if readers == [] then 0 else ReaderRank(c, readers[0]) + SumRanks(c, readers[1..])
  }

  lemma {:induction false} SumRanksUpdate(c: Config, readers: seq<ReaderPhase>, r: nat, ph: ReaderPhase)
    requires r < |readers|
    ensures SumRanks(c, readers[r := ph]) + ReaderRank(c, readers[r]) == SumRanks(c, readers) + ReaderRank(c, ph)
  {
    if r > 0 {
      SumRanksUpdate(c, readers[1..], r - 1, ph);
      assert readers[r := ph][1..] == readers[1..][r - 1 := ph];
    } else {
      assert readers[r := ph][1..] == readers[1..];
    }
  }

  /** What `left` calls still to come may cost, the writer's and the reader's steps together. */
  function Budget(left: nat, b: nat): nat {
    if left == 0 then 0 else Budget(left - 1, b) + 2 * b + 10
  }

  function Measure(c: Config, s: State): nat
    requires Sized(c, s)
  {
    Budget(|c.frames| - s.calls, c.b) + WriterRank(c, s) + SumRanks(c, s.readers)
  }

  lemma WriterStepDecreases(c: Config, s: State, s': State)
    requires Shape(c, s) && Sized(c, s') && WriterStep(c, s, s')
    ensures Measure(c, s') < Measure(c, s)
  {
    if s.writer.WSend? {
      SumRanksUpdate(c, s.readers, s.id, s'.readers[s.id]);
    }
  }

  lemma ReaderRankDrops(c: Config, s: State, s': State, r: nat)
    requires WriterShape(c, s) && r < c.p && ReaderShape(c, s, r) && ReaderStep(c, s, s', r)
    ensures r < |s'.readers| && ReaderRank(c, s'.readers[r]) < ReaderRank(c, s.readers[r])
    ensures s'.calls == s.calls && s'.writer == s.writer
  {
    hide Handed, Accepted, Latest;
  }

  lemma ReaderStepDecreases(c: Config, s: State, s': State, r: nat)
    requires Shape(c, s) && Sized(c, s') && r < c.p && ReaderStep(c, s, s', r)
    ensures Measure(c, s') < Measure(c, s)
  {
    ReaderStepKeepsReader(c, s, s', r);
    assert ReaderShape(c, s, r);
    ReaderRankDrops(c, s, s', r);
    hide Shape, ReaderStep, ReaderRank, SumRanks, Budget;
    SumRanksUpdate(c, s.readers, r, s'.readers[r]);
  }

  lemma RendezvousDecreases(c: Config, s: State, s': State)
    requires Sized(c, s) && Sized(c, s') && Rendezvous(c, s, s')
    ensures Measure(c, s') < Measure(c, s)
  {
    SumRanksUpdate(c, s.readers, s.id, RRead(None));
  }

  lemma StepDecreases(c: Config, s: State, s': State)
    requires Shape(c, s) && ProcessStep(c, s, s')
    ensures Sized(c, s') && Measure(c, s') < Measure(c, s)
  {
    NextShape(c, s, s');
    if WriterStep(c, s, s') {
      WriterStepDecreases(c, s, s');
    } else if Rendezvous(c, s, s') {
      RendezvousDecreases(c, s, s');
    } else {
      var r: nat :| r < c.p && ReaderStep(c, s, s', r);
      ReaderStepDecreases(c, s, s', r);
    }
  }

  // --- some process can step ---

  lemma InsideReaderMoves(c: Config, s: State, r: nat) returns (s': State)
    requires Shape(c, s) && r < c.p && (s.readers[r].RCopy? || s.readers[r].RUnlock?)
    ensures ReaderStep(c, s, s', r)
  {
    assert ReaderShape(c, s, r);
    match s.readers[r]
    case RCopy(i, buf) =>
      s' := s.(readers := s.readers[r := if |buf| == c.b then RUnlock(i, buf)
                                         else RCopy(i, buf + s.slots[i][|buf|..c.b])]);
    case RUnlock(i, buf) =>
      s' := s.(readers := s.readers[r := ROpen], sem := s.sem[i := s.sem[i] + 1],
               out := s.out[r := s.out[r] + [buf]]);
  }

  lemma InsideWriterMoves(c: Config, s: State) returns (s': State)
    requires Shape(c, s) && (s.writer.WCopy? || s.writer.WUnlock?)
    ensures WriterStep(c, s, s')
  {
    match s.writer
    case WCopy(k) =>
      var f := Current(c, s);
      s' := if k == |f| then s.(writer := WUnlock(true))
            else s.(writer := WCopy(|f|), slots := s.slots[s.index := Overlay(s.slots[s.index], f, k, |f|)]);
    case WUnlock(ok) =>
      s' := s.(writer := if ok then WOpen else WIdle,
               id := if ok then (s.id + 1) % c.p else s.id,
               sem := s.sem[s.index := s.sem[s.index] + 1]);
  }

  /** Whoever waits for a semaphore waits for a process that can step. */
  lemma HolderMoves(c: Config, s: State, i: nat) returns (s': State)
    requires Shape(c, s) && i < c.n && s.sem[i] == 0
    ensures ProcessStep(c, s, s')
  {
    assert Held(c, s, i);
    if WriterInside(s, i) {
      s' := InsideWriterMoves(c, s);
    } else {
      var r: nat :| r < c.p && Inside(s.readers[r], i);
      s' := InsideReaderMoves(c, s, r);
    }
  }

  lemma ReaderMoves(c: Config, s: State, r: nat) returns (s': State)
    requires Shape(c, s) && r < c.p && !s.readers[r].ROpen? && s.readers[r] != RRead(None)
    ensures ProcessStep(c, s, s')
  {
    assert ReaderShape(c, s, r);
    match s.readers[r]
    case RReset(k) =>
      s' := if k < c.n then s.(readers := s.readers[r := RReset(k + 1)], sem := s.sem[k := 1])
            else s.(readers := s.readers[r := ROpen]);
      assert ReaderStep(c, s, s', r);
    case RRead(pipe) =>
      s' := s.(readers := s.readers[r := RLock(Atoi(pipe.value))]);
      assert ReaderStep(c, s, s', r);
    case RLock(i) =>
      if s.sem[i] == 0 {
        s' := HolderMoves(c, s, i);
      } else {
        s' := s.(readers := s.readers[r := RCopy(i, [])], sem := s.sem[i := s.sem[i] - 1]);
        assert ReaderStep(c, s, s', r);
      }
    case RCopy(_, _) => s' := InsideReaderMoves(c, s, r);
    case RUnlock(_, _) => s' := InsideReaderMoves(c, s, r);
  }

  /** No deadlock, for every input: until all is done, some process has a step. */
  lemma NotStuck(c: Config, s: State) returns (s': State)
    requires Shape(c, s) && !Done(c, s)
    ensures ProcessStep(c, s, s')
  {
    match s.writer
    case WReset(k) =>
      s' := if k < c.n then s.(writer := WReset(k + 1), sem := s.sem[k := 1]) else s.(writer := WIdle);
    case WIdle =>
      if s.calls < |c.frames| {
        s' := s.(writer := WLock, calls := s.calls + 1, index := (s.index + 1) % c.n);
      } else {
        var r: nat :| r < c.p && !s.readers[r].ROpen?;
        assert ReaderShape(c, s, r);
        s' := ReaderMoves(c, s, r);
      }
    case WLock =>
      if s.sem[s.index] == 0 {
        s' := HolderMoves(c, s, s.index);
      } else {
        s' := s.(writer := if Fits(c, s.calls - 1) then WCopy(0) else WUnlock(false),
                 sem := s.sem[s.index := s.sem[s.index] - 1]);
      }
    case WCopy(_) => s' := InsideWriterMoves(c, s);
    case WUnlock(_) => s' := InsideWriterMoves(c, s);
    case WOpen =>
      if s.readers[s.id].ROpen? {
        s' := s.(writer := WSend, readers := s.readers[s.id := RRead(None)]);
        assert Rendezvous(c, s, s');
      } else {
        assert ReaderShape(c, s, s.id);
        s' := ReaderMoves(c, s, s.id);
      }
    case WSend =>
      s' := s.(writer := WIdle, readers := s.readers[s.id := RRead(Some(Message(s.index)))]);
  }

  /** Every run can be continued, by process steps alone, until everything is done. */
  lemma {:induction false} Drain(c: Config, tr: seq<State>) returns (all: seq<State>)
    requires Run(c, tr) && Sized(c, Last(tr))
    ensures Run(c, all) && tr <= all && Sized(c, Last(all)) && Done(c, Last(all))
    decreases Measure(c, Last(tr))
  {
    RunShape(c, tr);
    if Done(c, Last(tr)) {
      all := tr;
    } else {
      var s' := NotStuck(c, Last(tr));
      StepDecreases(c, Last(tr), s');
      ExtendRun(c, tr, s');
      all := Drain(c, tr + [s']);
    }
  }

  /** The process steps of a run from state number k on; the others are resets from outside. */
  ghost function ProcessSteps(c: Config, tr: seq<State>, k: nat): nat
    decreases |tr| - k
  {
    if k + 1 >= |tr| then 0
    else ProcessSteps(c, tr, k + 1) + if ProcessStep(c, tr[k], tr[k + 1]) then 1 else 0
  }

  lemma OutsideResetKeepsMeasure(c: Config, s: State, s': State)
    requires Sized(c, s) && Sized(c, s') && Next(c, s, s') && !ProcessStep(c, s, s')
    ensures Measure(c, s') == Measure(c, s)
  {
    var i: nat :| i < c.n && OutsideReset(c, s, s', i);
  }

  /** No run postpones that for ever, however resets are mixed in. */
  lemma {:induction false} StepsAreBounded(c: Config, tr: seq<State>, k: nat)
    requires Run(c, tr) && k < |tr|
    ensures Sized(c, tr[k]) && ProcessSteps(c, tr, k) <= Measure(c, tr[k])
    decreases |tr| - k
  {
    RunShape(c, tr[..k + 1]);
    if k < |tr| - 1 {
      assert Next(c, tr[k], tr[k + 1]);
      StepsAreBounded(c, tr, k + 1);
      if ProcessStep(c, tr[k], tr[k + 1]) {
        StepDecreases(c, tr[k], tr[k + 1]);
      } else {
        OutsideResetKeepsMeasure(c, tr[k], tr[k + 1]);
      }
    }
  }

  // --- when every frame fits ---

  predicate AllFit(c: Config) {
    forall i | 0 <= i < |c.frames| :: Fits(c, i)
  }

  predicate FirstFit(c: Config, k: nat) {
    k <= |c.frames| && forall i | 0 <= i < k :: Fits(c, i)
  }

  lemma {:induction false} FirstFitAccepted(c: Config, k: nat)
    requires FirstFit(c, k)
    ensures |Accepted(c, k)| == k && forall j | 0 <= j < k :: Accepted(c, k)[j] == j
  {
    if k == 0 {
    } else {
      FirstFitAccepted(c, k - 1);
    }
  }

  lemma FirstFitGap(c: Config, i: nat, k: nat)
    requires ValidConfig(c) && FirstFit(c, k) && i < k && (k - i) % c.n == 0
    ensures |Accepted(c, k)| - |Accepted(c, i)| >= c.n
  {
    FirstFitAccepted(c, i);
    FirstFitAccepted(c, k);
    MultipleBound(k - i, c.n);
  }

  /** With more slots than readers, a frame that does not fit does no harm if it is the last. */
  lemma LastMayNotFit(c: Config, k: nat)
    requires ValidConfig(c) && c.n > c.p && FirstFit(c, k) && |c.frames| <= k + 1
    ensures SafeInput(c)
  {
    forall i, j | 0 <= i < j < |c.frames| && Fits(c, i) && Fits(c, j) && (j - i) % c.n == 0
      ensures |Accepted(c, j)| - |Accepted(c, i)| > c.p
    {
      FirstFitGap(c, i, j);
    }
  }

  /** When every frame fits, safety is exactly: more slots than readers, or too few frames to wrap. */
  lemma AllFitSafe(c: Config)
    requires ValidConfig(c) && AllFit(c)
    ensures SafeInput(c) <==> c.n > c.p || |c.frames| <= c.n
  {
    if |c.frames| > c.n {
      FirstFitAccepted(c, 0);
      FirstFitAccepted(c, c.n);
      assert Fits(c, 0) && Fits(c, c.n) && (c.n - 0) % c.n == 0;
    }
    forall i, k | 0 <= i < k < |c.frames| && Fits(c, i) && Fits(c, k) && (k - i) % c.n == 0
      ensures |Accepted(c, k)| - |Accepted(c, i)| >= c.n && |c.frames| > c.n
    {
      FirstFitGap(c, i, k);
      MultipleBound(k - i, c.n);
    }
  }
}
