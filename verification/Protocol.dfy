/**
 * The shared-memory transfer pipeline as a step relation: one writer process
 * (transfer_server) and `p` reader processes share `n` slots of `b` bytes.
 *
 * A step is one system call or one run of bytes of a memcpy, so copies of different
 * processes may interleave in any way.  Assumptions, each visible as a guard below:
 *   - opening a named pipe for writing completes only together with an opening for
 *     reading, and a reader has closed its end before the next opening (`Rendezvous`);
 *   - the number is written to the pipe after that and read some time later;
 *   - no system call fails.
 */
module Protocol {
  import opened Bytes
  import opened Wrappers
  import opened FifoCtl

  /** `frames` are the buffers handed to WriteData, in order; they need not fit a block. */
  datatype Config = Config(n: nat, p: nat, b: nat, frames: seq<Block>)

  predicate ValidConfig(c: Config) {
    0 < c.n <= INT_MAX && 0 < c.p
  }

  predicate Fits(c: Config, call: nat)
    requires call < |c.frames|
  {
    |c.frames[call]| <= c.b
  }

  // WReset and RReset: inside ResetSem, `next` is the semaphore to set.
  datatype WriterPhase =
    | WReset(next: nat)
    | WIdle
    | WLock
    | WCopy(done: nat)
    | WUnlock(ok: bool)
    | WOpen
    | WSend

  datatype ReaderPhase =
    | RReset(next: nat)
    | ROpen
    | RRead(pipe: Option<string>)
    | RLock(slot: int)
    | RCopy(slot: int, buf: Block)
    | RUnlock(slot: int, buf: Block)

  /**
   * `calls` counts the calls of WriteData begun so far; `index` and `id` are the two
   * cursors of W_DataRecv; `out[r]` are the blocks reader r passed to SendData.
   */
  datatype State = State(
    calls: nat, writer: WriterPhase, index: nat, id: nat,
    readers: seq<ReaderPhase>, sem: seq<nat>, slots: seq<Block>, out: seq<seq<Block>>)

  predicate Sized(c: Config, s: State) {
    && ValidConfig(c)
    && |s.readers| == c.p && |s.out| == c.p
    && |s.sem| == c.n && |s.slots| == c.n
    && s.index < c.n && s.id < c.p
    && s.calls <= |c.frames|
    && (forall i | 0 <= i < c.n :: |s.slots[i]| == c.b)
  }

  predicate Init(c: Config, s: State) {
    && Sized(c, s)
    && s.calls == 0 && s.writer == WReset(0) && s.index == 0 && s.id == 0
    && (forall r | 0 <= r < c.p :: s.readers[r] == RReset(0))
    && (forall i | 0 <= i < c.n :: s.sem[i] == 1)
    && (forall r | 0 <= r < c.p :: s.out[r] == [])
  }

  // --- writer ---

  predicate InCall(w: WriterPhase) {
    !w.WReset? && !w.WIdle?
  }

  function Current(c: Config, s: State): Block
    requires 0 < s.calls <= |c.frames|
  {
    c.frames[s.calls - 1]
  }

  /** memcpy of the bytes `from..to` of `src` onto the same places of `dst`. */
  function Overlay(dst: Block, src: Block, from: nat, to: nat): (r: Block)
    requires from <= to <= |src| && to <= |dst|
    ensures |r| == |dst|
    ensures forall k | 0 <= k < |dst| :: r[k] == if from <= k < to then src[k] else dst[k]
  {
    dst[..from] + src[from..to] + dst[to..]
  }

  /** A writer step that does not involve a reader. */
  predicate WriterStep(c: Config, s: State, s': State)
    requires Sized(c, s)
  {
    match s.writer
    case WReset(k) =>
      s' == if k < c.n then s.(writer := WReset(k + 1), sem := s.sem[k := 1]) else s.(writer := WIdle)
    case WIdle =>
      && s.calls < |c.frames|
      && s' == s.(writer := WLock, calls := s.calls + 1, index := (s.index + 1) % c.n)
    case WLock =>
      && 0 < s.calls && s.sem[s.index] >= 1
      && s' == s.(writer := if Fits(c, s.calls - 1) then WCopy(0) else WUnlock(false),
                  sem := s.sem[s.index := s.sem[s.index] - 1])
    case WCopy(k) =>
      && 0 < s.calls && k <= |Current(c, s)| <= c.b
      && if k == |Current(c, s)| then s' == s.(writer := WUnlock(true))
         else
           && s'.writer.WCopy? && k < s'.writer.done <= |Current(c, s)|
           && s' == s.(writer := s'.writer, slots := s.slots[s.index :=
                       Overlay(s.slots[s.index], Current(c, s), k, s'.writer.done)])
    case WUnlock(ok) =>
      s' == s.(writer := if ok then WOpen else WIdle,
               id := if ok then (s.id + 1) % c.p else s.id,
               sem := s.sem[s.index := s.sem[s.index] + 1])
    case WOpen => false
    case WSend =>
      && s.readers[s.id] == RRead(None)
      && s' == s.(writer := WIdle, readers := s.readers[s.id := RRead(Some(Message(s.index)))])
  }

  /** The writer's open and the open of reader `id` complete together. */
  predicate Rendezvous(c: Config, s: State, s': State)
    requires Sized(c, s)
  {
    && s.writer.WOpen? && s.readers[s.id].ROpen?
    && s' == s.(writer := WSend, readers := s.readers[s.id := RRead(None)])
  }

  // --- readers ---

  predicate ReaderStep(c: Config, s: State, s': State, r: nat)
    requires Sized(c, s) && r < c.p
  {
    match s.readers[r]
    case RReset(k) =>
      s' == if k < c.n then s.(readers := s.readers[r := RReset(k + 1)], sem := s.sem[k := 1])
            else s.(readers := s.readers[r := ROpen])
    case ROpen => false
    case RRead(pipe) =>
      && pipe.Some?
      && s' == s.(readers := s.readers[r := RLock(Atoi(pipe.value))])
    case RLock(i) =>
      && 0 <= i < c.n && s.sem[i] >= 1
      && s' == s.(readers := s.readers[r := RCopy(i, [])], sem := s.sem[i := s.sem[i] - 1])
    case RCopy(i, buf) =>
      && 0 <= i < c.n && |buf| <= c.b
      && if |buf| == c.b then s' == s.(readers := s.readers[r := RUnlock(i, buf)])
         else
           && s'.readers != [] && r < |s'.readers| && s'.readers[r].RCopy?
           && var got := |s'.readers[r].buf|;
           && |buf| < got <= c.b
           && s' == s.(readers := s.readers[r := RCopy(i, buf + s.slots[i][|buf|..got])])
    case RUnlock(i, buf) =>
      && 0 <= i < c.n
      && s' == s.(readers := s.readers[r := ROpen], sem := s.sem[i := s.sem[i] + 1],
                  out := s.out[r := s.out[r] + [buf]])
  }

  /** Some other process (a restarted reader, shm_app) sets one semaphore in its own ResetSem. */
  predicate OutsideReset(c: Config, s: State, s': State, i: nat)
    requires Sized(c, s) && i < c.n
  {
    s' == s.(sem := s.sem[i := 1])
  }

  /** A step of the writer or of a reader. */
  ghost predicate ProcessStep(c: Config, s: State, s': State) {
    && Sized(c, s)
    && (WriterStep(c, s, s') || Rendezvous(c, s, s')
        || exists r: nat :: r < c.p && ReaderStep(c, s, s', r))
  }

  ghost predicate Next(c: Config, s: State, s': State) {
    ProcessStep(c, s, s') || (Sized(c, s) && exists i: nat :: i < c.n && OutsideReset(c, s, s', i))
  }

  ghost predicate Run(c: Config, tr: seq<State>) {
    && tr != [] && Init(c, tr[0])
    && forall i | 0 <= i < |tr| - 1 :: Next(c, tr[i], tr[i + 1])
  }

  function Last(tr: seq<State>): State
    requires tr != []
  {
    tr[|tr| - 1]
  }

  lemma ExtendRun(c: Config, tr: seq<State>, s: State)
    requires Run(c, tr) && Next(c, Last(tr), s)
    ensures Run(c, tr + [s]) && Last(tr + [s]) == s
  {
  }

  // --- what the input alone determines ---

  /** The numbers, counted from 0, of the calls among the first `k` whose frame fits. */
  function Accepted(c: Config, k: nat): (calls: seq<nat>)
    requires k <= |c.frames|
    ensures forall j | 0 <= j < |calls| :: calls[j] < k && Fits(c, calls[j])
    ensures |calls| <= k
  {
    if k == 0 then []
    else if Fits(c, k - 1) then Accepted(c, k - 1) + [k - 1]
    else Accepted(c, k - 1)
  }

  /** The slot that call number `call` gets, whether or not its frame fits. */
  function SlotOf(c: Config, call: nat): nat
    requires c.n > 0
  {
    (call + 1) % c.n
  }

  /**
   * The frames reader r is due: accepted frame number m, counted from 1, is dealt to
   * reader m % p.
   */
  function Deal(c: Config, calls: seq<nat>, r: nat): seq<Block>
    requires c.p > 0 && forall j | 0 <= j < |calls| :: calls[j] < |c.frames|
  {
    if calls == [] then []
    else
      var m := |calls|;
      Deal(c, calls[..m - 1], r) + if m % c.p == r then [c.frames[calls[m - 1]]] else []
  }

  /** The largest m <= h with m % p == r: the last of h frames dealt to r (none if <= 0). */
  function Latest(h: nat, p: nat, r: nat): int
    requires r < p
  {
    h - (h + p - r) % p
  }

  // --- the slots in use ---

  /** The slot whose number is on its way to the reader or being read by it. */
  function Claim(ph: ReaderPhase): Option<int> {
    match ph
    case RReset(_) => None
    case ROpen => None
    case RRead(pipe) => if pipe.Some? then Some(Atoi(pipe.value)) else None
    case RLock(i) => Some(i)
    case RCopy(i, _) => Some(i)
    case RUnlock(i, _) => Some(i)
  }

  /** The writer is filling `index`, or has filled it and not handed it off yet. */
  predicate WriterClaims(c: Config, s: State) {
    InCall(s.writer) && 0 < s.calls <= |c.frames| && Fits(c, s.calls - 1)
  }

  /** No slot is in use twice. */
  predicate Exclusive(c: Config, s: State)
    requires |s.readers| == c.p
  {
    && (forall r | 0 <= r < c.p :: WriterClaims(c, s) ==> Claim(s.readers[r]) != Some(s.index))
    && (forall r, r' | 0 <= r < r' < c.p ::
          Claim(s.readers[r]).Some? ==> Claim(s.readers[r]) != Claim(s.readers[r']))
  }

  predicate Inside(ph: ReaderPhase, i: int) {
    (ph.RCopy? || ph.RUnlock?) && ph.slot == i
  }

  predicate WriterInside(s: State, i: int) {
    (s.writer.WCopy? || s.writer.WUnlock?) && s.index == i
  }
}
