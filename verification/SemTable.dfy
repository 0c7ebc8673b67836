/** The semaphore set, one semaphore for each slot (transfer_export/src/share_mem/w_sem_table.cpp). */
module SemTable {
  class SemTable {
    const blockSize: nat
    const val: array<nat>

    ghost predicate Valid() {
      val.Length == blockSize
    }

    constructor (blockSize: nat)
      ensures Valid() && this.blockSize == blockSize && fresh(val)
      ensures forall i | 0 <= i < blockSize :: val[i] == 1
    {
      this.blockSize := blockSize;
      val := new nat[blockSize];
      new;
      ResetSem();
    }

    /** Whatever the counts were and whoever holds a semaphore, every count is 1 afterwards. */
    method ResetSem()
      requires Valid()
      modifies val
      ensures forall i | 0 <= i < blockSize :: val[i] == 1
    {
      for i := 0 to blockSize
        invariant forall k | 0 <= k < i :: val[k] == 1
      {
        val[i] := 1;
      }
    }

    /** What the sem_num of semop, an unsigned short, makes of a number. */
    function SemOf(semNum: int): nat {
      semNum % 0x1_0000
    }

    /**
     * semop with -1.  If the count is 0 the call does not return while that is so (`waits`); a
     * number outside the set fails without effect.
     */
    method P(semNum: int) returns (waits: bool)
      requires Valid()
      modifies val
      ensures waits <==> SemOf(semNum) < blockSize && old(val[SemOf(semNum)]) == 0
      ensures val[..] == if SemOf(semNum) < blockSize && !waits
                         then old(val[..])[SemOf(semNum) := old(val[SemOf(semNum)]) - 1]
                         else old(val[..])
    {
      var k := SemOf(semNum);
      if k >= blockSize {
        return false;
      }
      if val[k] == 0 {
        return true;
      }
      val[k] := val[k] - 1;
      return false;
    }

    /** semop with +1. */
    method V(semNum: int)
      requires Valid()
      modifies val
      ensures val[..] == if SemOf(semNum) < blockSize
                         then old(val[..])[SemOf(semNum) := old(val[SemOf(semNum)]) + 1]
                         else old(val[..])
    {
      var k := SemOf(semNum);
      if k < blockSize {
        val[k] := val[k] + 1;
      }
    }
  }
}
