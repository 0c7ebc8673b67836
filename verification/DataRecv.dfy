/**
 * W_DataRecv, the object through which the transfer server writes and a reader process
 * reads (transfer_export/src/share_mem/w_datarecv.cpp).
 */
module DataRecv {
  import opened Bytes
  import opened Wrappers
  import opened FifoCtl
  import opened Protocol
  import S = ShmCtl
  import T = SemTable

  // A call that waits in P has not returned; its fields tell what it did up to there.
  datatype WriteResult = WriteWaits | Refused | Posted(id: nat, text: string)
  datatype ReadResult = ReadWaits | NoBlock | GotBlock

  lemma PThenV(counts: seq<nat>, i: nat)
    ensures i < |counts| && counts[i] >= 1 ==> counts[i := counts[i] - 1][i := counts[i]] == counts
  {
  }

  class DataRecv {
    const p: nat
    const shm: S.ShmCtl
    const sem: T.SemTable
    var hasShm: bool
    var index: nat
    var id: nat

    ghost predicate Valid()
      reads this
    {
      && 0 < p && shm.Valid() && sem.Valid() && sem.blockSize == shm.n <= 0x1_0000
      && index < shm.n && id < p
    }

    constructor (p: nat, shm: S.ShmCtl, sem: T.SemTable)
      requires 0 < p && shm.Valid() && sem.Valid() && sem.blockSize == shm.n <= 0x1_0000
      ensures Valid() && this.p == p && this.shm == shm && this.sem == sem
      ensures index == 0 && id == 0 && !hasShm
    {
      this.p, this.shm, this.sem := p, shm, sem;
      hasShm, index, id := false, 0, 0;
    }

    /** On the first call all semaphores are set to 1. */
    method ShmReadInit()
      requires Valid()
      modifies this`hasShm, sem.val
      ensures Valid() && hasShm
      ensures sem.val[..] == if old(hasShm) then old(sem.val[..]) else seq(sem.blockSize, _ => 1)
    {
      if !hasShm {
        sem.ResetSem();
        hasShm := true;
      }
    }

    /**
     * `index` always advances; `id` advances and a number is posted only if the data fit.
     * The slot gets the data in front of its old bytes, the other slots and all semaphore
     * counts end as they were.
     */
    method WriteData(buf: array<byte>, len: nat) returns (res: WriteResult)
      requires Valid() && buf != shm.arena && IsInt(len) && (len <= shm.b ==> len <= buf.Length)
      modifies this, shm.arena, sem.val
      ensures Valid() && hasShm
      ensures index == (old(index) + 1) % shm.n
      ensures res == WriteWaits <==> old(hasShm) && old(sem.val[(index + 1) % shm.n]) == 0
      ensures res != WriteWaits ==> (res == Refused <==> len > shm.b)
      ensures id == if res.Posted? then (old(id) + 1) % p else old(id)
      ensures res.Posted? ==> res == Posted(id, Message(index))
      ensures shm.Slots() == if res.Posted?
                             then old(shm.Slots())[index := Overlay(old(shm.Slots())[index], buf[..], 0, len)]
                             else old(shm.Slots())
      ensures sem.val[..] == if old(hasShm) then old(sem.val[..]) else seq(sem.blockSize, _ => 1)
    {
      hide S.InArena, S.SlotsIn, Message, Overlay;
      ghost var slots := shm.Slots();
      ShmReadInit();
      ghost var counts := sem.val[..];
      index := index + 1;
      index := index % shm.n;
      assert sem.SemOf(index) == index < shm.n == |counts|;
      assert !old(hasShm) ==> counts[index] == 1;
      hide T.SemTable.SemOf;
      var waits := sem.P(index);
      if waits {
        return WriteWaits;
      }
      S.ModuloKeepsInside(shm.n, shm.b, len, old(index) + 1);
      var flag := shm.Write(buf, len, index);
      ghost var now := shm.Slots();
      assert flag <==> len <= shm.b;
      assert now == if flag then slots[index := Overlay(slots[index], buf[..], 0, len)] else slots;
      sem.V(index);
      PThenV(counts, index);
      if !flag {
        return Refused;
      }
      id := id + 1;
      id := id % p;
      return Posted(id, Message(index));
    }

    /** `text` is what the reader took out of its pipe; a number that leads out of the arena has no defined effect. */
    method ReadData(buf: array<byte>, len: nat, text: string) returns (res: ReadResult)
      requires Valid() && buf != shm.arena && (len == shm.b ==> len <= buf.Length)
      requires var i := Atoi(text);
               i != -1 && S.ReadGuard(shm.n, shm.b, len, i) ==> S.InArena(shm.n, shm.b, len, i)
      modifies this`hasShm, buf, sem.val
      ensures Valid() && hasShm
      ensures var k := sem.SemOf(Atoi(text));
              res == ReadWaits <==> Atoi(text) != -1 && old(hasShm) && k < shm.n && old(sem.val[k]) == 0
      ensures res != ReadWaits ==> (res == GotBlock <==> 0 <= Atoi(text) < shm.n && len == shm.b)
      ensures res == GotBlock ==> buf[..] == shm.Slots()[Atoi(text)] + old(buf[shm.b..])
      ensures res != GotBlock ==> buf[..] == old(buf[..])
      ensures sem.val[..] == if old(hasShm) then old(sem.val[..]) else seq(sem.blockSize, _ => 1)
    {
      ShmReadInit();
      ghost var counts := sem.val[..];
      var slot := Atoi(text);
      if slot == -1 {
        return NoBlock;
      }
      var waits := sem.P(slot);
      if waits {
        return ReadWaits;
      }
      var flag := shm.Read(buf, len, slot);
      sem.V(slot);
      PThenV(counts, sem.SemOf(slot));
      return if flag then GotBlock else NoBlock;
    }
  }

  /** A frame written by one object is read whole by another that gets the posted number. */
  method PassOne(w: DataRecv, r: DataRecv, frame: array<byte>, block: array<byte>) returns (ok: bool)
    requires w.Valid() && r.Valid() && w.shm == r.shm && w.sem == r.sem
    requires frame != w.shm.arena && block != w.shm.arena && frame != block && w != r
    requires block.Length == w.shm.b && IsInt(frame.Length)
    requires forall i | 0 <= i < w.sem.blockSize :: w.sem.val[i] >= 1
    modifies w, r, w.shm.arena, w.sem.val, block
    ensures w.Valid() && r.Valid()
    ensures ok <==> frame.Length <= w.shm.b
    ensures ok ==> frame[..] <= block[..]
    ensures ok ==> block[frame.Length..] == old(w.shm.Slots())[w.index][frame.Length..]
  {
    var sent := w.WriteData(frame, frame.Length);
    if !sent.Posted? {
      return false;
    }
    AtoiOfMessage(w.index);
    S.ModuloKeepsInside(w.shm.n, w.shm.b, block.Length, old(w.index) + 1);
    var got := r.ReadData(block, block.Length, sent.text);
    return got == GotBlock;
  }
}
