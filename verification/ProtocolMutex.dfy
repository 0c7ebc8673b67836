/**
 * What the semaphores do, for every input: as long as no reset hits a slot that a process is
 * in, count and holders of each slot add up to 1, so no two processes are inside one slot.
 * A reset that does hit one can let a second process in.
 */
module ProtocolMutex {
  import opened Bytes
  import opened FifoCtl
  import opened Wrappers
  import opened Modulo
  import opened Protocol
  import opened ProtocolSafety
  import opened ProtocolExact

  function ReadersInside(readers: seq<ReaderPhase>, i: int): nat {
    if readers == [] then 0
    else ReadersInside(readers[1..], i) + if Inside(readers[0], i) then 1 else 0
  }

  /** How many processes are between P and V of slot i. */
  function Holders(s: State, i: int): nat {
    ReadersInside(s.readers, i) + if WriterInside(s, i) then 1 else 0
  }

  ghost predicate Balanced(c: Config, s: State) {
    Sized(c, s) && forall i: nat | i < c.n :: s.sem[i] + Holders(s, i) == 1
  }

  /** A step that is not a reset of a slot that a process is in. */
  ghost predicate Gentle(c: Config, s: State, s': State)
    requires Sized(c, s) && Sized(c, s')
  {
    && (forall k: nat | k < c.n && s.writer == WReset(k) && s'.writer == WReset(k + 1) :: Holders(s, k) == 0)
    && (forall r: nat, k: nat | r < c.p && k < c.n && s.readers[r] == RReset(k) && s'.readers[r] == RReset(k + 1) ::
          Holders(s, k) == 0)
    && (forall i: nat | i < c.n && OutsideReset(c, s, s', i) :: Holders(s, i) == 0)
  }

  ghost predicate GentleRun(c: Config, tr: seq<State>) {
    && Run(c, tr)
    && (forall j | 0 <= j < |tr| :: Sized(c, tr[j]))
    && forall j | 0 <= j < |tr| - 1 :: Gentle(c, tr[j], tr[j + 1])
  }

  lemma {:induction false} ReadersInsideUpdate(readers: seq<ReaderPhase>, r: nat, ph: ReaderPhase, i: int)
    requires r < |readers|
    ensures ReadersInside(readers[r := ph], i) + (if Inside(readers[r], i) then 1 else 0)
         == ReadersInside(readers, i) + if Inside(ph, i) then 1 else 0
  {
    if r == 0 {
      assert readers[r := ph][1..] == readers[1..];
    } else {
      ReadersInsideUpdate(readers[1..], r - 1, ph, i);
      assert readers[r := ph][1..] == readers[1..][r - 1 := ph];
    }
  }

  lemma {:induction false} NobodyInside(readers: seq<ReaderPhase>, i: int)
    requires forall r | 0 <= r < |readers| :: !Inside(readers[r], i)
    ensures ReadersInside(readers, i) == 0
  {
    if readers == [] {
    } else {
      NobodyInside(readers[1..], i);
    }
  }

  /** Two readers inside count twice. */
  lemma {:induction false} TwoInside(readers: seq<ReaderPhase>, r: nat, q: nat, i: int)
    requires r < q < |readers| && Inside(readers[q], i)
    ensures ReadersInside(readers, i) >= if Inside(readers[r], i) then 2 else 1
  {
    if r == 0 {
      OneInside(readers[1..], q - 1, i);
    } else {
      TwoInside(readers[1..], r - 1, q - 1, i);
    }
  }

  lemma {:induction false} OneInside(readers: seq<ReaderPhase>, r: nat, i: int)
    requires r < |readers| && Inside(readers[r], i)
    ensures ReadersInside(readers, i) >= 1
  {
    if r == 0 {
    } else {
      OneInside(readers[1..], r - 1, i);
    }
  }

  lemma WriterStepBalanced(c: Config, s: State, s': State)
    requires Shape(c, s) && Balanced(c, s) && WriterStep(c, s, s') && Sized(c, s') && Gentle(c, s, s')
    ensures Balanced(c, s')
  {
    hide Shape, ReadersInside, SemShape;
    ShapeIsWriterShape(c, s);
    forall i: nat | i < c.n ensures s'.sem[i] + Holders(s', i) == 1 {
      if s.writer.WSend? {
        ReadersInsideUpdate(s.readers, s.id, s'.readers[s.id], i);
      }
    }
  }

  lemma ShapeIsWriterShape(c: Config, s: State)
    ensures Shape(c, s) ==> WriterShape(c, s)
  {
  }

  lemma ReaderStepBalanced(c: Config, s: State, s': State, r: nat)
    requires Balanced(c, s) && r < c.p && ReaderStep(c, s, s', r) && Sized(c, s') && Gentle(c, s, s')
    ensures Balanced(c, s')
  {
    hide ReadersInside, Atoi;
    assert s'.readers == s.readers[r := s'.readers[r]];
    forall i: nat | i < c.n ensures s'.sem[i] + Holders(s', i) == 1 {
      ReadersInsideUpdate(s.readers, r, s'.readers[r], i);
    }
  }

  lemma NextBalanced(c: Config, s: State, s': State)
    requires Shape(c, s) && Balanced(c, s) && Next(c, s, s') && Sized(c, s') && Gentle(c, s, s')
    ensures Balanced(c, s')
  {
    hide Shape, WriterStep, ReaderStep, ReadersInside;
    if WriterStep(c, s, s') {
      WriterStepBalanced(c, s, s');
    } else if Rendezvous(c, s, s') {
      forall i: nat | i < c.n ensures s'.sem[i] + Holders(s', i) == 1 {
        ReadersInsideUpdate(s.readers, s.id, RRead(None), i);
      }
    } else if r: nat :| r < c.p && ReaderStep(c, s, s', r) {
      ReaderStepBalanced(c, s, s', r);
    } else {
      var i: nat :| i < c.n && OutsideReset(c, s, s', i);
    }
  }

  /** For every input, safe or not: count and holders of each slot add up to 1. */
  lemma {:induction false} CountPlusHolders(c: Config, tr: seq<State>)
    requires GentleRun(c, tr)
    ensures Balanced(c, Last(tr))
    decreases |tr|
  {
    if |tr| == 1 {
      forall i: nat | i < c.n ensures Holders(tr[0], i) == 0 {
        NobodyInside(tr[0].readers, i);
      }
    } else {
      var before := tr[..|tr| - 1];
      assert GentleRun(c, before);
      CountPlusHolders(c, before);
      RunShape(c, before);
      assert Next(c, tr[|tr| - 2], tr[|tr| - 1]) && Gentle(c, tr[|tr| - 2], tr[|tr| - 1]);
      NextBalanced(c, Last(before), Last(tr));
    }
  }

  /** Hence no two processes are inside one slot. */
  lemma MutualExclusion(c: Config, tr: seq<State>, r: nat, i: nat)
    requires GentleRun(c, tr) && r < c.p && i < c.n && Inside(Last(tr).readers[r], i)
    ensures Sized(c, Last(tr)) && Last(tr).sem[i] == 0 && !WriterInside(Last(tr), i)
    ensures forall q: nat | q < c.p && q != r :: !Inside(Last(tr).readers[q], i)
  {
    CountPlusHolders(c, tr);
    var s := Last(tr);
    OneInside(s.readers, r, i);
    assert s.sem[i] + Holders(s, i) == 1;
    hide ReadersInside;
    forall q: nat | q < c.p && q != r ensures !Inside(s.readers[q], i) {
      if Inside(s.readers[q], i) {
        var a, b := if q < r then q else r, if q < r then r else q;
        assert Inside(s.readers[a], i) && Inside(s.readers[b], i);
        TwoInside(s.readers, a, b, i);
        assert false;
      }
    }
  }

  /**
   * A process that starts late does reset a held slot: here reader 0 sets all counts to 1 while
   * the writer is inside the slot of its first call.
   */
  lemma LateStart(c: Config) returns (all: seq<State>)
    requires ValidConfig(c) && c.frames != []
    ensures Run(c, all) && Sized(c, Last(all)) && Last(all).readers[0] == ROpen
    ensures var i := SlotOf(c, 0); WriterInside(Last(all), i) && Last(all).sem[i] == 1
    ensures Last(all).sem[SlotOf(c, 0)] + Holders(Last(all), SlotOf(c, 0)) > 1
  {
    var s0, i := Start(c), SlotOf(c, 0);
    assert Init(c, s0);
    var tr := WriterResets(c, [s0]);
    ResetDone(s0.sem);
    var s1 := Last(tr);
    var s2 := s1.(writer := WLock, calls := 1, index := i);
    assert WriterStep(c, s1, s2);
    ExtendRun(c, tr, s2);
    var s3 := s2.(writer := if Fits(c, 0) then WCopy(0) else WUnlock(false), sem := s2.sem[i := 0]);
    assert WriterStep(c, s2, s3);
    ExtendRun(c, tr + [s2], s3);
    all := ReaderResets(c, tr + [s2] + [s3], 0);
  }

  /**
   * The V of the writer then leaves a count of 2, by which two processes can be inside this slot
   * later on without any further reset.
   */
  lemma CountOfTwo(c: Config) returns (all: seq<State>)
    requires ValidConfig(c) && c.frames != []
    ensures Run(c, all) && Sized(c, Last(all)) && !InsideOrBefore(Last(all).writer)
    ensures Last(all).sem[SlotOf(c, 0)] == 2
  {
    all := LateStart(c);
    var s := Last(all);
    RunShape(c, all);
    if s.writer.WCopy? {
      var f, k, i := Current(c, s), s.writer.done, s.index;
      if k < |f| {
        var s1 := s.(writer := WCopy(|f|), slots := s.slots[i := Overlay(s.slots[i], f, k, |f|)]);
        assert WriterStep(c, s, s1);
        ExtendRun(c, all, s1);
        all, s := all + [s1], s1;
      }
      var s2 := s.(writer := WUnlock(true));
      assert WriterStep(c, s, s2);
      ExtendRun(c, all, s2);
      all, s := all + [s2], s2;
    }
    var ok, j := s.writer.ok, s.index;
    var s3 := s.(writer := if ok then WOpen else WIdle, id := if ok then (s.id + 1) % c.p else s.id,
                 sem := s.sem[j := s.sem[j] + 1]);
    assert WriterStep(c, s, s3);
    ExtendRun(c, all, s3);
    all := all + [s3];
  }

  predicate InsideOrBefore(w: WriterPhase) {
    w.WLock? || w.WCopy? || w.WUnlock?
  }
}
