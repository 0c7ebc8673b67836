/**
 * The flat byte arena that W_ShmCtl cuts into slots
 * (transfer_export/src/share_mem/w_shm_ctl.cpp).
 */
module ShmCtl {
  import opened Bytes
  import opened FifoCtl
  import opened Modulo
  import opened Protocol

  /** Slot k of an arena of slots of b bytes ends before slot i starts, for k < i. */
  lemma SlotBounds(k: nat, i: nat, b: nat)
    requires k < i
    ensures 0 <= k * b && k * b + b == (k + 1) * b <= i * b
  {
    var d := i - k - 1;
    assert i * b == (k + 1) * b + d * b by {
      assert i == (k + 1) + d;
    }
    assert (k + 1) * b == k * b + b;
  }

  /** What W_ShmCtl::Write checks before its memcpy, on signed numbers. */
  predicate WriteGuard(n: nat, b: nat, len: int, index: int) {
    index <= n && len <= b
  }

  predicate ReadGuard(n: nat, b: nat, len: int, index: int) {
    index <= n && len == b
  }

  /** memcpy takes a size_t, in which a negative length is huge. */
  function ByteCount(len: int): int {
    if len < 0 then len + 0x1_0000_0000_0000_0000 else len
  }

  /** The bytes of the access lie in the arena. */
  predicate InArena(n: nat, b: nat, len: int, index: int) {
    0 <= index * b && index * b + ByteCount(len) <= n * b
  }

  predicate Sizes(n: nat, b: nat) {
    0 < n && 0 < b && n * b <= INT_MAX
  }

  /** Which accesses that pass the guard stay inside; no caller passes one of the others. */
  lemma GuardedAccess(n: nat, b: nat, len: int, index: int)
    requires Sizes(n, b) && IsInt(len) && WriteGuard(n, b, len, index)
    ensures InArena(n, b, len, index) <==> 0 <= len && 0 <= index && (index == n ==> len == 0)
  {
    if index < 0 {
      MulBounds(index, b);
    } else if index < n {
      SlotBounds(index, n, b);
    }
  }

  /** A slot number that was taken modulo n, as all callers pass it, is safe with any length. */
  lemma ModuloKeepsInside(n: nat, b: nat, len: nat, number: nat)
    requires Sizes(n, b)
    ensures WriteGuard(n, b, len, number % n) ==> InArena(n, b, len, number % n)
    ensures ReadGuard(n, b, len, number % n) ==> InArena(n, b, len, number % n)
  {
    SlotBounds(number % n, n, b);
  }

  /** The guard lets through the slot behind the last, slot -1, and a negative length. */
  lemma GuardAdmitsOverruns(n: nat, b: nat, len: nat)
    requires Sizes(n, b) && 0 < len <= b
    ensures WriteGuard(n, b, len, n) && !InArena(n, b, len, n)
    ensures WriteGuard(n, b, len, -1) && !InArena(n, b, len, -1)
    ensures WriteGuard(n, b, -1, 0) && !InArena(n, b, -1, 0)
  {
    MulBounds(n, b);
  }

  /** The bytes of slot i of an arena of n slots. */
  function SlotIn(arena: Block, n: nat, b: nat, i: nat): (s: Block)
    requires |arena| == n * b && i < n
    ensures |s| == b
  {
    SlotBounds(i, n, b);
    arena[i * b..i * b + b]
  }

  function SlotsIn(arena: Block, n: nat, b: nat): (s: seq<Block>)
    requires |arena| == n * b
    ensures |s| == n && forall i | 0 <= i < n :: s[i] == SlotIn(arena, n, b, i)
  {
    seq(n, i requires 0 <= i < n => SlotIn(arena, n, b, i))
  }

  /** Bytes copied to the front of slot `index` change that slot alone. */
  lemma CopyToSlot(was: Block, bytes: Block, n: nat, b: nat, index: nat, i: nat)
    requires |was| == n * b && index < n && i < n && |bytes| <= b && index * b + b <= n * b
    ensures var all := was[..index * b] + bytes + was[index * b + |bytes|..];
            && |all| == |was|
            && SlotIn(all, n, b, i) ==
               if i == index then bytes + SlotIn(was, n, b, i)[|bytes|..] else SlotIn(was, n, b, i)
  {
    SlotBounds(i, n, b);
    if i < index { SlotBounds(i, index, b); } else if index < i { SlotBounds(index, i, b); }
    Splice(was, bytes, index * b, i * b, b);
  }

  lemma SlotsAfterCopy(was: Block, now: Block, bytes: Block, n: nat, b: nat, index: nat, len: nat)
    requires |was| == |now| == n * b && index < n && len <= b && len <= |bytes| && index * b + b <= n * b
    requires now == was[..index * b] + bytes[..len] + was[index * b + len..]
    ensures SlotsIn(now, n, b) == SlotsIn(was, n, b)[index := Overlay(SlotsIn(was, n, b)[index], bytes, 0, len)]
  {
    hide SlotIn;
    var goal := SlotsIn(was, n, b)[index := Overlay(SlotsIn(was, n, b)[index], bytes, 0, len)];
    forall i | 0 <= i < n ensures SlotsIn(now, n, b)[i] == goal[i] {
      CopyToSlot(was, bytes[..len], n, b, index, i);
    }
  }

  /** A stretch of an array into which bytes were copied at another place, or at its front. */
  lemma Splice(was: Block, bytes: Block, addr: nat, start: nat, b: nat)
    requires addr + b <= |was| && start + b <= |was| && |bytes| <= b
    requires start == addr || start + b <= addr || addr + b <= start
    ensures var all := was[..addr] + bytes + was[addr + |bytes|..];
            all[start..start + b] ==
            if start == addr then bytes + was[start..start + b][|bytes|..] else was[start..start + b]
  {
    var all := was[..addr] + bytes + was[addr + |bytes|..];
    var part := all[start..start + b];
    if start == addr {
      var goal := bytes + was[start..start + b][|bytes|..];
      assert |part| == |goal|;
      forall k | 0 <= k < b ensures part[k] == goal[k] {
        assert part[k] == all[start + k];
      }
    } else {
      forall k | 0 <= k < b ensures part[k] == was[start..start + b][k] {
        assert part[k] == all[start + k] == was[start + k];
      }
    }
  }

  class ShmCtl {
    const n: nat
    const b: nat
    const arena: array<byte>

    ghost predicate Valid() {
      Sizes(n, b) && arena.Length == n * b
    }

    constructor (n: nat, b: nat)
      requires Sizes(n, b)
      ensures Valid() && this.n == n && this.b == b && fresh(arena)
    {
      this.n, this.b := n, b;
      this.arena := new byte[n * b](_ => 0);
    }

    /** The arena as independent blocks. */
    ghost function Slots(): (s: seq<Block>)
      requires Valid()
      reads arena
      ensures |s| == n
    {
      SlotsIn(arena[..], n, b)
    }

    function GetPerBlockSize(): (size: nat)
      requires Valid()
      ensures size == b
    {
      DivModUnique(arena.Length, b, 0, n);
      arena.Length / n
    }

    /** An access that passes the guard and leaves the arena has no defined effect. */
    method Write(buf: array<byte>, len: int, index: int) returns (ok: bool)
      requires Valid() && buf != arena && IsInt(len)
      requires WriteGuard(n, b, len, index) ==> InArena(n, b, len, index) && len <= buf.Length
      modifies arena
      ensures ok <==> WriteGuard(n, b, len, index)
      ensures !ok ==> arena[..] == old(arena[..])
      ensures ok ==> 0 <= len && 0 <= index && (index == n ==> len == 0)
      ensures ok ==> 0 <= index * b && index * b + len <= arena.Length
                     && arena[..] == old(arena[..])[..index * b] + buf[..len] + old(arena[..])[index * b + len..]
      ensures ok && index == n ==> Slots() == old(Slots())
      ensures ok && index < n ==> Slots() == old(Slots())[index := Overlay(old(Slots())[index], buf[..], 0, len)]
    {
      if index > n {
        return false;
      }
      if len > GetPerBlockSize() {
        return false;
      }
      GuardedAccess(n, b, len, index);
      hide InArena, SlotsIn;
      if index < n { SlotBounds(index, n, b); }
      var addr := index * GetPerBlockSize();
      ghost var was := arena[..];
      Copy(arena, addr, buf[..len]);
      ok := true;
      if index == n {
        assert arena[..] == was;
      } else {
        assert buf[..len] == buf[..][..len];
        SlotsAfterCopy(was, arena[..], buf[..], n, b, index, len);
      }
    }

    method Read(buf: array<byte>, len: int, index: int) returns (ok: bool)
      requires Valid() && buf != arena
      requires ReadGuard(n, b, len, index) ==> InArena(n, b, len, index) && len <= buf.Length
      modifies buf
      ensures ok <==> ReadGuard(n, b, len, index)
      ensures !ok ==> buf[..] == old(buf[..])
      ensures ok ==> 0 <= index < n && buf[..] == Slots()[index] + old(buf[b..])
      ensures ok ==> 0 <= index * b && index * b + b <= arena.Length && buf[..b] == arena[index * b..index * b + b]
    {
      if index > n {
        return false;
      }
      if len != GetPerBlockSize() {
        return false;
      }
      MulBounds(n, b);
      GuardedAccess(n, b, len, index);
      SlotBounds(index, n, b);
      var addr := index * GetPerBlockSize();
      Copy(buf, 0, arena[addr..addr + len]);
      ok := true;
    }
  }
}
