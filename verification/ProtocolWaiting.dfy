/**
 * When P never blocks.  A refused frame still locks the slot of its call, so the condition is
 * stronger than the one for safety; it, too, is exact.
 */
module ProtocolWaiting {
  import opened Bytes
  import opened FifoCtl
  import opened Wrappers
  import opened Modulo
  import opened Protocol
  import opened ProtocolSafety
  import opened ProtocolProgress
  import opened ProtocolExact

  /** No call, refused or not, gets the slot of an accepted one that may still be unread. */
  predicate NeverShared(c: Config)
    requires ValidConfig(c)
  {
    forall i, k | 0 <= i < k < |c.frames| && Fits(c, i) && (k - i) % c.n == 0 ::
      |Accepted(c, k)| - |Accepted(c, i)| > c.p
  }

  /** The writer is in P and has no step of its own. */
  ghost predicate WriterWaits(c: Config, s: State)
    requires Sized(c, s)
  {
    s.writer.WLock? && forall s': State :: !WriterStep(c, s, s')
  }

  ghost predicate ReaderWaits(c: Config, s: State, r: nat)
    requires Sized(c, s) && r < c.p
  {
    s.readers[r].RLock? && forall s': State :: !ReaderStep(c, s, s', r)
  }

  ghost predicate NoWait(c: Config, s: State) {
    && Sized(c, s) && !WriterWaits(c, s)
    && forall r: nat | r < c.p :: !ReaderWaits(c, s, r)
  }

  lemma WriterWaitsAtZero(c: Config, s: State)
    requires WriterShape(c, s) && s.writer.WLock?
    ensures WriterWaits(c, s) <==> s.sem[s.index] == 0
  {
    if s.sem[s.index] >= 1 {
      var s' := s.(writer := if Fits(c, s.calls - 1) then WCopy(0) else WUnlock(false),
                   sem := s.sem[s.index := s.sem[s.index] - 1]);
      assert WriterStep(c, s, s');
    }
  }

  lemma ReaderWaitsAtZero(c: Config, s: State, r: nat)
    requires Sized(c, s) && r < c.p && s.readers[r].RLock? && 0 <= s.readers[r].slot < c.n
    ensures ReaderWaits(c, s, r) <==> s.sem[s.readers[r].slot] == 0
  {
    var i := s.readers[r].slot;
    if s.sem[i] >= 1 {
      var s' := s.(readers := s.readers[r := RCopy(i, [])], sem := s.sem[i := s.sem[i] - 1]);
      assert ReaderStep(c, s, s', r);
    }
  }

  /** A writer that waits stays in P, whatever the others do, until its slot's count is raised. */
  lemma {:induction false} WriterStays(c: Config, tr: seq<State>, k: nat)
    requires Run(c, tr) && k < |tr| && Sized(c, tr[k]) && WriterWaits(c, tr[k])
    requires forall j | k <= j < |tr| - 1 :: Sized(c, tr[j]) && tr[j].sem[tr[k].index] == 0
    ensures Last(tr).writer == WLock && Last(tr).index == tr[k].index && Last(tr).calls == tr[k].calls
    decreases |tr|
  {
    if k == |tr| - 1 {
    } else {
      var before := tr[..|tr| - 1];
      WriterStays(c, before, k);
      RunShape(c, before);
      assert Next(c, tr[|tr| - 2], tr[|tr| - 1]);
      WriterStaysOne(c, Last(before), Last(tr));
    }
  }

  lemma WriterStaysOne(c: Config, s: State, s': State)
    requires Shape(c, s) && Next(c, s, s') && s.writer == WLock && s.sem[s.index] == 0
    ensures s'.writer == WLock && s'.index == s.index && s'.calls == s.calls
  {
    hide Shape;
    assert !WriterStep(c, s, s') && !Rendezvous(c, s, s');
  }

  lemma {:induction false} ReaderStays(c: Config, tr: seq<State>, k: nat, r: nat)
    requires Run(c, tr) && k < |tr| && r < c.p && Sized(c, tr[k]) && ReaderWaits(c, tr[k], r)
    requires forall j | k <= j < |tr| - 1 :: Sized(c, tr[j]) && ZeroAt(tr[j], tr[k].readers[r].slot)
    ensures Sized(c, Last(tr)) && Last(tr).readers[r] == tr[k].readers[r]
    decreases |tr|
  {
    RunShape(c, tr);
    if k == |tr| - 1 {
    } else {
      var before := tr[..|tr| - 1];
      ReaderStays(c, before, k, r);
      RunShape(c, before);
      assert Next(c, tr[|tr| - 2], tr[|tr| - 1]);
      ReaderStaysOne(c, Last(before), Last(tr), r);
    }
  }

  predicate ZeroAt(s: State, i: int) {
    0 <= i < |s.sem| && s.sem[i] == 0
  }

  lemma ReaderStaysOne(c: Config, s: State, s': State, r: nat)
    requires Shape(c, s) && Next(c, s, s') && r < c.p && s.readers[r].RLock? && ZeroAt(s, s.readers[r].slot)
    requires Sized(c, s')
    ensures s'.readers[r] == s.readers[r]
  {
    hide Shape, Atoi;
    assert !ReaderStep(c, s, s', r);
  }

  ghost predicate NoWaitRuns(c: Config) {
    forall tr: seq<State> | Run(c, tr) :: NoWait(c, Last(tr))
  }

  lemma CallApart(c: Config, s: State, r: nat)
    requires Shape(c, s) && NeverShared(c) && r < c.p && InCall(s.writer) && Claim(s.readers[r]).Some?
    ensures Claim(s.readers[r]) != Some(s.index)
  {
    assert ReaderShape(c, s, r);
    WorkRank(c, s, r);
    SameResidue(s.calls, Work(c, s, r) + 1, c.n);
  }

  lemma WriterFindsFree(c: Config, s: State)
    requires Shape(c, s) && NeverShared(c) && s.writer.WLock?
    ensures s.sem[s.index] >= 1
  {
    assert !Held(c, s, s.index) by {
      forall r | 0 <= r < c.p ensures !Inside(s.readers[r], s.index) {
        if Claim(s.readers[r]).Some? { CallApart(c, s, r); }
      }
    }
  }

  lemma ReaderFindsFree(c: Config, s: State, r: nat)
    requires Shape(c, s) && NeverShared(c) && r < c.p && s.readers[r].RLock?
    ensures var i := s.readers[r].slot; 0 <= i < c.n && s.sem[i] >= 1
  {
    assert ReaderShape(c, s, r);
    var i := s.readers[r].slot;
    assert !Held(c, s, i) by {
      if InCall(s.writer) { CallApart(c, s, r); }
      forall q | 0 <= q < c.p ensures !Inside(s.readers[q], i) {
        if q < r && Claim(s.readers[q]).Some? {
          ReadersApart(c, s, q, r);
        } else if r < q && Claim(s.readers[q]).Some? {
          ReadersApart(c, s, r, q);
        }
      }
    }
  }

  /** A run that ends with the writer waiting for a slot that a reader copies from. */
  lemma WaitingRun(c: Config, i: nat, k: nat) returns (all: seq<State>)
    requires ValidConfig(c) && i < k < |c.frames| && Fits(c, i)
    requires (k - i) % c.n == 0 && |Accepted(c, k)| <= |Accepted(c, i)| + c.p
    ensures Run(c, all) && Sized(c, Last(all)) && WriterWaits(c, Last(all))
    ensures Last(all).calls == k + 1 && Last(all).index == SlotOf(c, i)
    ensures var r := (|Accepted(c, i)| + 1) % c.p; Inside(Last(all).readers[r], SlotOf(c, i))
  {
    all := ServeHolding(c, i, k);
    AcceptedNext(c, k);
    SameResidue(k + 1, i + 1, c.n);
    var s, r, slot := Last(all), (|Accepted(c, i)| + 1) % c.p, SlotOf(c, i);
    var s1 := s.(readers := s.readers[r := RCopy(slot, [])], sem := s.sem[slot := 0]);
    assert ReaderStep(c, s, s1, r);
    ExtendRun(c, all, s1);
    var s2 := s1.(writer := WLock, calls := k + 1, index := slot);
    assert WriterStep(c, s1, s2);
    ExtendRun(c, all + [s1], s2);
    assert forall s3: State :: !WriterStep(c, s2, s3);
    all := all + [s1] + [s2];
  }

  /**
   * If a reset hits the slot meanwhile, by a process that starts just then, the writer gets in
   * as well: two processes are inside one slot.
   */
  lemma ResetLetsTwoIn(c: Config, i: nat, k: nat) returns (all: seq<State>)
    requires ValidConfig(c) && i < k < |c.frames| && Fits(c, i)
    requires (k - i) % c.n == 0 && |Accepted(c, k)| <= |Accepted(c, i)| + c.p
    ensures Run(c, all) && Sized(c, Last(all)) && WriterInside(Last(all), SlotOf(c, i))
    ensures var r := (|Accepted(c, i)| + 1) % c.p; Inside(Last(all).readers[r], SlotOf(c, i))
  {
    all := WaitingRun(c, i, k);
    RunShape(c, all);
    var s, slot := Last(all), SlotOf(c, i);
    var s1 := s.(sem := s.sem[slot := 1]);
    assert OutsideReset(c, s, s1, slot);
    ExtendRun(c, all, s1);
    var s2 := s1.(writer := if Fits(c, k) then WCopy(0) else WUnlock(false), sem := s1.sem[slot := 0]);
    assert WriterStep(c, s1, s2);
    ExtendRun(c, all + [s1], s2);
    all := all + [s1] + [s2];
  }

  /**
   * For every input: in no reachable state a process waits in P, although every process
   * resets all semaphores at its own start, iff no call shares a slot too soon.
   */
  lemma WaitingIsExact(c: Config)
    requires ValidConfig(c)
    ensures NoWaitRuns(c) <==> NeverShared(c)
  {
    if NeverShared(c) {
      forall tr: seq<State> | Run(c, tr) ensures NoWait(c, Last(tr)) {
        RunShape(c, tr);
        NoWaitIn(c, Last(tr));
      }
    } else {
      var i, k :| 0 <= i < k < |c.frames| && Fits(c, i) && (k - i) % c.n == 0
                  && |Accepted(c, k)| - |Accepted(c, i)| <= c.p;
      var tr := WaitingRun(c, i, k);
    }
  }

  lemma NoWaitIn(c: Config, s: State)
    requires Shape(c, s) && NeverShared(c)
    ensures NoWait(c, s)
  {
    if s.writer.WLock? {
      WriterFindsFree(c, s);
      WriterWaitsAtZero(c, s);
    }
    forall r: nat | r < c.p ensures !ReaderWaits(c, s, r) {
      if s.readers[r].RLock? {
        ReaderFindsFree(c, s, r);
        ReaderWaitsAtZero(c, s, r);
      }
    }
  }

  /** With every frame fitting, P never blocks exactly for more slots than readers, or few frames. */
  lemma AllFitNoWait(c: Config)
    requires ValidConfig(c) && AllFit(c)
    ensures NoWaitRuns(c) <==> c.n > c.p || |c.frames| <= c.n
  {
    WaitingIsExact(c);
    assert NeverShared(c) <==> SafeInput(c);
    AllFitSafe(c);
  }

  /** A safe input can make P block: n refused frames behind one that fits. */
  lemma RefusalsMakeWait(n: nat, p: nat, b: nat, small: Block, big: Block)
    requires 0 < n <= INT_MAX && 0 < p && |small| <= b < |big|
    ensures var c := Config(n, p, b, Gap(small, big, n, []));
            SafeRuns(c) && !NoWaitRuns(c)
  {
    var c := Config(n, p, b, Gap(small, big, n, []));
    OneAccepted(c, n);
    assert Accepted(c, 0) == [];
    assert Fits(c, 0) && (n - 0) % c.n == 0;
    SafetyIsExact(c);
    WaitingIsExact(c);
  }

  lemma TenSlotsTwoReadersWait(small: Block, big: Block)
    requires |small| == 51 && |big| == 8193
    ensures var c := Config(10, 2, 8192, Gap(small, big, 10, []));
            SafeRuns(c) && !NoWaitRuns(c)
  {
    RefusalsMakeWait(10, 2, 8192, small, big);
  }
}
