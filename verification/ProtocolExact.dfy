/**
 * Safety is exact: an input whose lengths let two accepted calls share a slot too soon has
 * a run in which the writer enters a slot whose frame has not been read.
 */
module ProtocolExact {
  import opened Bytes
  import opened Wrappers
  import opened FifoCtl
  import opened Modulo
  import opened Protocol
  import opened ProtocolSafety

  /** Between calls; reader `held` (if < p) has its number but not its block, the others wait. */
  predicate Calm(c: Config, s: State, k: nat, held: nat) {
    && Sized(c, s)
    && s.writer.WIdle? && s.calls == k && s.index == k % c.n && s.id == |Accepted(c, k)| % c.p
    && (forall i | 0 <= i < c.n :: s.sem[i] == 1)
    && (forall r | 0 <= r < c.p :: if r == held then s.readers[r].RLock? else s.readers[r].ROpen?)
  }

  /** The counts after a ResetSem that still had the semaphores from k on before it. */
  function ResetFrom(sem: seq<nat>, k: nat): (r: seq<nat>)
    ensures |r| == |sem| && forall i | 0 <= i < |r| :: r[i] == if k <= i then 1 else sem[i]
  {
    seq(|sem|, i requires 0 <= i < |sem| => if k <= i then 1 else sem[i])
  }

  lemma ResetNext(sem: seq<nat>, k: nat)
    requires k < |sem|
    ensures ResetFrom(sem[k := 1], k + 1) == ResetFrom(sem, k)
  {
  }

  lemma ResetDone(sem: seq<nat>)
    ensures ResetFrom(sem, |sem|) == sem
    ensures (forall i | 0 <= i < |sem| :: sem[i] == 1) ==> forall k: nat :: ResetFrom(sem, k) == sem
  {
  }

  /** The writer can finish its ResetSem alone; it leaves 1 in every count, whatever was there. */
  lemma {:induction false} WriterResets(c: Config, tr: seq<State>) returns (all: seq<State>)
    requires Run(c, tr) && Sized(c, Last(tr)) && Last(tr).writer.WReset? && Last(tr).writer.next <= c.n
    ensures Run(c, all)
    ensures Last(all) == Last(tr).(writer := WIdle, sem := ResetFrom(Last(tr).sem, Last(tr).writer.next))
    decreases c.n - Last(tr).writer.next
  {
    var s := Last(tr);
    var k := s.writer.next;
    if k == c.n {
      ResetDone(s.sem);
      all := tr + [s.(writer := WIdle)];
    } else {
      ResetNext(s.sem, k);
      all := WriterResets(c, tr + [s.(writer := WReset(k + 1), sem := s.sem[k := 1])]);
    }
  }

  lemma {:induction false} ReaderResets(c: Config, tr: seq<State>, r: nat) returns (all: seq<State>)
    requires Run(c, tr) && Sized(c, Last(tr)) && r < c.p
    requires Last(tr).readers[r].RReset? && Last(tr).readers[r].next <= c.n
    ensures Run(c, all)
    ensures Last(all) == Last(tr).(readers := Last(tr).readers[r := ROpen],
                                   sem := ResetFrom(Last(tr).sem, Last(tr).readers[r].next))
    decreases c.n - Last(tr).readers[r].next
  {
    var s := Last(tr);
    var k := s.readers[r].next;
    if k == c.n {
      ResetDone(s.sem);
      var s' := s.(readers := s.readers[r := ROpen]);
      assert ReaderStep(c, s, s', r);
      ExtendRun(c, tr, s');
      all := tr + [s'];
    } else {
      ResetNext(s.sem, k);
      var s' := s.(readers := s.readers[r := RReset(k + 1)], sem := s.sem[k := 1]);
      assert ReaderStep(c, s, s', r);
      ExtendRun(c, tr, s');
      all := ReaderResets(c, tr + [s'], r);
      assert s'.readers[r := ROpen] == s.readers[r := ROpen];
    }
  }

  lemma {:induction false} AllReset(c: Config, s: State, r: nat) returns (all: seq<State>)
    requires Init(c, s) && r <= c.p
    ensures Run(c, all)
    ensures var t := Last(all);
            && Sized(c, t) && t == s.(writer := WIdle, readers := t.readers)
            && (forall q | 0 <= q < c.p :: t.readers[q] == if q < r then ROpen else RReset(0))
  {
    ResetDone(s.sem);
    if r == 0 {
      all := WriterResets(c, [s]);
    } else {
      all := AllReset(c, s, r - 1);
      all := ReaderResets(c, all, r - 1);
    }
  }

  lemma AcceptedNext(c: Config, k: nat)
    requires ValidConfig(c) && k < |c.frames|
    ensures |Accepted(c, k + 1)| == |Accepted(c, k)| + if Fits(c, k) then 1 else 0
    ensures (|Accepted(c, k)| % c.p + 1) % c.p == (|Accepted(c, k)| + 1) % c.p
    ensures (k % c.n + 1) % c.n == (k + 1) % c.n == SlotOf(c, k)
  {
    Step(|Accepted(c, k)|, c.p);
    Step(k, c.n);
  }

  /** The writer alone carries out a call up to the pipe; this is W_DataRecv::WriteData. */
  lemma WriterServes(c: Config, tr: seq<State>, k: nat, held: nat) returns (all: seq<State>)
    requires Run(c, tr) && k < |c.frames| && Calm(c, Last(tr), k, held)
    ensures Run(c, all)
    ensures var s := Last(tr); var f := c.frames[k]; var i := (s.index + 1) % c.n;
            Last(all) == s.(calls := k + 1, index := i, writer := if Fits(c, k) then WOpen else WIdle,
                            id := if Fits(c, k) then (s.id + 1) % c.p else s.id,
                            slots := if Fits(c, k) then s.slots[i := Overlay(s.slots[i], f, 0, |f|)] else s.slots)
  {
    var s := Last(tr);
    var f := c.frames[k];
    var i := (s.index + 1) % c.n;
    var s1 := s.(writer := WLock, calls := k + 1, index := i);
    ExtendRun(c, tr, s1);
    var t := tr + [s1];
    var s2 := s1.(writer := if Fits(c, k) then WCopy(0) else WUnlock(false), sem := s.sem[i := 0]);
    ExtendRun(c, t, s2);
    t := t + [s2];
    if Fits(c, k) {
      var s3 := s2.(writer := WCopy(|f|), slots := s.slots[i := Overlay(s.slots[i], f, 0, |f|)]);
      if f != [] {
        ExtendRun(c, t, s3);
        t := t + [s3];
      } else {
        assert Overlay(s.slots[i], f, 0, |f|) == s.slots[i];
        assert s3 == s2;
      }
      var s4 := s3.(writer := WUnlock(true));
      ExtendRun(c, t, s4);
      t := t + [s4];
      var s5 := s4.(writer := WOpen, id := (s.id + 1) % c.p, sem := s4.sem[i := 1]);
      ExtendRun(c, t, s5);
      assert s4.sem[i := 1] == s.sem;
      all := t + [s5];
    } else {
      var s5 := s2.(writer := WIdle, sem := s2.sem[i := 1]);
      ExtendRun(c, t, s5);
      assert s2.sem[i := 1] == s.sem;
      all := t + [s5];
    }
  }

  /** The waiting reader accepts the number. */
  lemma HandOff(c: Config, tr: seq<State>) returns (all: seq<State>)
    requires Run(c, tr) && Sized(c, Last(tr))
    requires Last(tr).writer.WOpen? && Last(tr).readers[Last(tr).id].ROpen?
    ensures Run(c, all)
    ensures var s := Last(tr);
            Last(all) == s.(writer := WIdle, readers := s.readers[s.id := RLock(s.index)])
  {
    var s := Last(tr);
    var s1 := s.(writer := WSend, readers := s.readers[s.id := RRead(None)]);
    assert Rendezvous(c, s, s1);
    ExtendRun(c, tr, s1);
    var s2 := s1.(writer := WIdle, readers := s1.readers[s.id := RRead(Some(Message(s.index)))]);
    ExtendRun(c, tr + [s1], s2);
    AtoiOfMessage(s.index);
    var s3 := s2.(readers := s2.readers[s.id := RLock(s.index)]);
    assert ReaderStep(c, s2, s3, s.id);
    ExtendRun(c, tr + [s1] + [s2], s3);
    assert s3.readers == s.readers[s.id := RLock(s.index)];
    all := tr + [s1] + [s2] + [s3];
  }

  /** A reader that has its number reads its block and passes it on. */
  lemma ReaderServes(c: Config, tr: seq<State>, r: nat) returns (all: seq<State>)
    requires Run(c, tr) && Sized(c, Last(tr)) && r < c.p
    requires Last(tr).readers[r].RLock? && 0 <= Last(tr).readers[r].slot < c.n
    requires Last(tr).sem[Last(tr).readers[r].slot] == 1
    ensures Run(c, all)
    ensures var s := Last(tr);
            Last(all) == s.(readers := s.readers[r := ROpen],
                            out := s.out[r := s.out[r] + [s.slots[s.readers[r].slot]]])
  {
    var s := Last(tr);
    var i := s.readers[r].slot;
    var s1 := s.(readers := s.readers[r := RCopy(i, [])], sem := s.sem[i := 0]);
    assert ReaderStep(c, s, s1, r);
    ExtendRun(c, tr, s1);
    var t := tr + [s1];
    var s2 := s1.(readers := s.readers[r := RCopy(i, s.slots[i])]);
    if c.b > 0 {
      assert [] + s.slots[i][0..c.b] == s.slots[i];
      assert s1.readers[r := RCopy(i, s.slots[i])] == s2.readers;
      assert ReaderStep(c, s1, s2, r);
      ExtendRun(c, t, s2);
      t := t + [s2];
    } else {
      assert s2 == s1;
    }
    var s3 := s2.(readers := s.readers[r := RUnlock(i, s.slots[i])]);
    assert s2.readers[r := RUnlock(i, s.slots[i])] == s3.readers;
    assert ReaderStep(c, s2, s3, r);
    ExtendRun(c, t, s3);
    t := t + [s3];
    var s4 := s3.(readers := s3.readers[r := ROpen], sem := s3.sem[i := 1],
                  out := s.out[r := s.out[r] + [s.slots[i]]]);
    assert ReaderStep(c, s3, s4, r);
    ExtendRun(c, t, s4);
    assert s4.sem == s.sem && s4.readers == s.readers[r := ROpen];
    all := t + [s4];
  }

  /** One call from start to end; its reader consumes the frame at once, unless `hold`. */
  lemma Serve(c: Config, tr: seq<State>, k: nat, held: nat, hold: bool) returns (all: seq<State>)
    requires Run(c, tr) && k < |c.frames| && Calm(c, Last(tr), k, held)
    requires Fits(c, k) ==> (|Accepted(c, k)| + 1) % c.p != held
    requires hold ==> Fits(c, k) && held == c.p
    ensures Run(c, all)
    ensures var r := (|Accepted(c, k)| + 1) % c.p;
            && Calm(c, Last(all), k + 1, if hold then r else held)
            && (hold ==> Last(all).readers[r] == RLock(SlotOf(c, k)))
            && (held < c.p ==> Last(all).readers[held] == Last(tr).readers[held])
  {
    AcceptedNext(c, k);
    hide Run, Accepted, Overlay;
    all := WriterServes(c, tr, k, held);
    if Fits(c, k) {
      var r := (|Accepted(c, k)| + 1) % c.p;
      all := HandOff(c, all);
      if !hold {
        all := ReaderServes(c, all, r);
      }
    }
  }

  function Start(c: Config): State {
    State(0, WReset(0), 0, 0, seq(c.p, _ => RReset(0)), seq(c.n, _ => 1),
          seq(c.n, _ => seq(c.b, _ => 0)), seq(c.p, _ => []))
  }

  lemma StartCalm(c: Config) returns (all: seq<State>)
    requires ValidConfig(c)
    ensures Run(c, all) && Calm(c, Last(all), 0, c.p)
  {
    assert Init(c, Start(c));
    all := AllReset(c, Start(c), c.p);
  }

  /** Calls 0..k one after another, each frame consumed at once. */
  lemma {:induction false} ServeAll(c: Config, k: nat) returns (all: seq<State>)
    requires ValidConfig(c) && k <= |c.frames|
    ensures Run(c, all) && Calm(c, Last(all), k, c.p)
  {
    if k == 0 {
      all := StartCalm(c);
    } else {
      all := ServeAll(c, k - 1);
      all := Serve(c, all, k - 1, c.p, false);
    }
  }

  /** Calls 0..k, where the reader of call i stops before it locks its slot. */
  lemma {:induction false} ServeHolding(c: Config, i: nat, k: nat) returns (all: seq<State>)
    requires ValidConfig(c) && i < k <= |c.frames| && Fits(c, i)
    requires |Accepted(c, k)| <= |Accepted(c, i)| + c.p
    ensures var r := (|Accepted(c, i)| + 1) % c.p;
            Run(c, all) && Calm(c, Last(all), k, r) && Last(all).readers[r] == RLock(SlotOf(c, i))
    decreases k
  {
    if k == i + 1 {
      all := ServeAll(c, i);
      all := Serve(c, all, i, c.p, true);
    } else {
      AcceptedMonotone(c, i + 1, k - 1);
      AcceptedMonotone(c, k - 1, k);
      AcceptedNext(c, i);
      all := ServeHolding(c, i, k - 1);
      var a, b := |Accepted(c, i)| + 1, |Accepted(c, k - 1)| + 1;
      if Fits(c, k - 1) && a % c.p == b % c.p {
        AcceptedNext(c, k - 1);
        CloseResidues(a, b, c.p);
      }
      all := Serve(c, all, k - 1, a % c.p, false);
    }
  }

  ghost predicate SafeRuns(c: Config) {
    forall tr: seq<State> | Run(c, tr) :: Sized(c, Last(tr)) && Exclusive(c, Last(tr))
  }

  /** A pair of calls that breaks SafeInput gives a run in which the writer enters an unread slot. */
  lemma UnsafeRun(c: Config, i: nat, k: nat) returns (all: seq<State>)
    requires ValidConfig(c) && i < k < |c.frames| && Fits(c, i) && Fits(c, k)
    requires (k - i) % c.n == 0 && |Accepted(c, k)| <= |Accepted(c, i)| + c.p
    ensures Run(c, all) && Sized(c, Last(all)) && !Exclusive(c, Last(all))
    ensures Last(all).writer == WOpen && Last(all).calls == k + 1
    ensures var r := (|Accepted(c, i)| + 1) % c.p;
            && Last(all).readers[r] == RLock(SlotOf(c, i)) && Last(all).index == SlotOf(c, i)
            && Last(all).sem[SlotOf(c, i)] == 1
            && c.frames[k] <= Last(all).slots[SlotOf(c, i)]
  {
    all := ServeHolding(c, i, k);
    AcceptedNext(c, k);
    SameResidue(k + 1, i + 1, c.n);
    var r := (|Accepted(c, i)| + 1) % c.p;
    all := WriterServes(c, all, k, r);
    assert Claim(Last(all).readers[r]) == Some(Last(all).index);
  }

  /** For every input: all reachable states are free of conflict iff the input is safe. */
  lemma SafetyIsExact(c: Config)
    requires ValidConfig(c)
    ensures SafeRuns(c) <==> SafeInput(c)
  {
    if SafeInput(c) {
      forall tr: seq<State> | Run(c, tr) ensures Sized(c, Last(tr)) && Exclusive(c, Last(tr)) {
        RunShape(c, tr);
        ShapeExclusive(c, Last(tr));
      }
    } else {
      var i, k :| 0 <= i < k < |c.frames| && Fits(c, i) && Fits(c, k) && (k - i) % c.n == 0
                  && |Accepted(c, k)| - |Accepted(c, i)| <= c.p;
      var tr := UnsafeRun(c, i, k);
    }
  }

  // --- more slots than readers are not enough ---

  /** A frame that fits, `gap` frames that do not, and then `last`. */
  function Gap(first: Block, big: Block, gap: nat, last: seq<Block>): (frames: seq<Block>)
    ensures |frames| == 1 + gap + |last| && frames[0] == first
    ensures forall i | 1 <= i <= gap :: frames[i] == big
    ensures forall i | 0 <= i < |last| :: frames[1 + gap + i] == last[i]
  {
    [first] + seq(gap, _ => big) + last
  }

  lemma {:induction false} OneAccepted(c: Config, k: nat)
    requires 1 <= k <= |c.frames| && Fits(c, 0) && forall i | 1 <= i < k :: !Fits(c, i)
    ensures Accepted(c, k) == [0]
  {
    if k == 1 {
      assert Accepted(c, 0) == [];
    } else {
      OneAccepted(c, k - 1);
    }
  }

  /**
   * Whatever the numbers of slots and readers: after n - 1 refused frames the next one that fits
   * gets the slot of the first again, which may still be unread.
   */
  lemma RefusalsBreakSafety(n: nat, p: nat, b: nat, small: Block, big: Block)
    requires 0 < n <= INT_MAX && 0 < p && |small| <= b < |big|
    ensures !SafeRuns(Config(n, p, b, Gap(small, big, n - 1, [small])))
  {
    var c := Config(n, p, b, Gap(small, big, n - 1, [small]));
    OneAccepted(c, n);
    assert Accepted(c, 0) == [];
    assert Fits(c, 0) && Fits(c, n) && (n - 0) % c.n == 0;
    SafetyIsExact(c);
  }

  /** So it is with the 10 slots of 8192 bytes and the 2 readers of the program. */
  lemma TenSlotsTwoReaders(small: Block, big: Block)
    requires |small| == 51 && |big| == 8193
    ensures !SafeRuns(Config(10, 2, 8192, Gap(small, big, 9, [small])))
  {
    RefusalsBreakSafety(10, 2, 8192, small, big);
  }

  /** In such a run the reader passes on the later frame in place of its own. */
  lemma UnsafeRunCorrupts(c: Config, i: nat, k: nat) returns (all: seq<State>)
    requires ValidConfig(c) && i < k < |c.frames| && Fits(c, i) && Fits(c, k)
    requires (k - i) % c.n == 0 && |Accepted(c, k)| <= |Accepted(c, i)| + c.p
    ensures Run(c, all) && Sized(c, Last(all))
    ensures var out := Last(all).out[(|Accepted(c, i)| + 1) % c.p];
            out != [] && c.frames[k] <= out[|out| - 1]
  {
    all := UnsafeRun(c, i, k);
    all := ReaderServes(c, all, (|Accepted(c, i)| + 1) % c.p);
  }
}
