/**
 * The 64-bit byte-order conversions of transfer_export/include/transfer.h on a little-endian
 * machine, where a number's least significant byte comes first in memory and htonl reverses
 * the four bytes of its argument.
 */
module ByteOrder {
  import opened Bytes
  import opened Modulo

  const HALF := 0x1_0000_0000

  function Pow256(n: nat): (p: nat)
    ensures p > 0
  {
    if n == 0 then 1 else 256 * Pow256(n - 1)
  }

  /** The n bytes of x in the memory of a little-endian machine. */
  function Memory(x: nat, n: nat): (m: seq<byte>)
    ensures |m| == n
  {
    if n == 0 then [] else [x % 256] + Memory(x / 256, n - 1)
  }

  /** The number a little-endian machine finds in these bytes. */
  function Value(m: seq<byte>): nat {
    if m == [] then 0 else m[0] + 256 * Value(m[1..])
  }

  function Reversed(m: seq<byte>): (r: seq<byte>)
    ensures |r| == |m| && forall k | 0 <= k < |m| :: r[k] == m[|m| - 1 - k]
  {
    seq(|m|, k requires 0 <= k < |m| => m[|m| - 1 - k])
  }

  /** htonl, and ntohl, of a 32-bit number. */
  function SwapBytes(x: nat): nat {
    Value(Reversed(Memory(x, 4)))
  }

  /** The halves overlap in no bit, so the source's `|` is a sum. */
  function HtoBe64(host: nat): nat {
    SwapBytes(host / HALF) + SwapBytes(host % HALF) * HALF
  }

  function Be64toH(net: nat): nat {
    SwapBytes(net / HALF) + SwapBytes(net % HALF) * HALF
  }

  lemma {:induction false} ValueOfMemory(x: nat, n: nat)
    requires x < Pow256(n)
    ensures Value(Memory(x, n)) == x
  {
    if n == 0 {
    } else {
      ValueOfMemory(x / 256, n - 1);
    }
  }

  lemma {:induction false} MemoryOfValue(m: seq<byte>)
    ensures Memory(Value(m), |m|) == m && Value(m) < Pow256(|m|)
  {
    if m == [] {
    } else {
      MemoryOfValue(m[1..]);
      FirstDigit(m[0], Value(m[1..]));
    }
  }

  lemma FirstDigit(d: byte, v: nat)
    ensures (d + 256 * v) % 256 == d && (d + 256 * v) / 256 == v
  {
  }

  lemma {:induction false} ValueAppend(a: seq<byte>, b: seq<byte>)
    ensures Value(a + b) == Value(a) + Pow256(|a|) * Value(b)
  {
    if a == [] {
      assert a + b == b;
    } else {
      assert (a + b)[1..] == a[1..] + b;
      ValueAppend(a[1..], b);
      Regroup(a[0], Value(a[1..]), Pow256(|a| - 1), Value(b));
    }
  }

  lemma Regroup(d: nat, x: nat, p: nat, y: nat)
    ensures d + 256 * (x + p * y) == (d + 256 * x) + (256 * p) * y
  {
  }

  lemma HalfIsFourBytes()
    ensures Pow256(4) == HALF
  {
    assert Pow256(1) == 256 && Pow256(2) == 65536 && Pow256(3) == 16777216;
  }

  /** Two 32-bit halves, the lower one first, make up the eight bytes of a 64-bit number. */
  lemma Joined(low: seq<byte>, high: seq<byte>)
    requires |low| == 4 && |high| == 4
    ensures var x := Value(low) + Value(high) * HALF;
            && Memory(x, 8) == low + high
            && x % HALF == Value(low) && x / HALF == Value(high)
  {
    hide Value, Memory, Pow256;
    HalfIsFourBytes();
    ValueAppend(low, high);
    MemoryOfValue(low + high);
    MemoryOfValue(low);
  }

  lemma HalvesInMemory(x: nat)
    requires x < HALF * HALF
    ensures Memory(x, 8) == Memory(x % HALF, 4) + Memory(x / HALF, 4)
  {
    HalfIsFourBytes();
    ValueOfMemory(x % HALF, 4);
    ValueOfMemory(x / HALF, 4);
    Joined(Memory(x % HALF, 4), Memory(x / HALF, 4));
  }

  /** What is sent after htobe64 are the base-256 digits of the number, the most significant first. */
  lemma SentBigEndian(host: nat)
    requires host < HALF * HALF
    ensures HtoBe64(host) < HALF * HALF
    ensures Memory(HtoBe64(host), 8) == Reversed(Memory(host, 8))
    ensures forall k: nat | k < 8 :: Memory(HtoBe64(host), 8)[k] == host / Pow256(7 - k) % 256
  {
    hide Value, Memory, Pow256;
    HalfIsFourBytes();
    var low, high := Memory(host % HALF, 4), Memory(host / HALF, 4);
    HalvesInMemory(host);
    Joined(Reversed(high), Reversed(low));
    MemoryOfValue(Reversed(low));
    MemoryOfValue(Reversed(high));
    assert Reversed(high) + Reversed(low) == Reversed(low + high);
    forall k: nat | k < 8 ensures Memory(HtoBe64(host), 8)[k] == host / Pow256(7 - k) % 256 {
      Digit(host, 8, 7 - k);
    }
  }

  lemma {:induction false} Digit(x: nat, n: nat, k: nat)
    requires k < n
    ensures Memory(x, n)[k] == x / Pow256(k) % 256
    decreases k
  {
    if k == 0 {
    } else {
      Digit(x / 256, n - 1, k - 1);
      DivideTwice(x, Pow256(k - 1));
    }
  }

  lemma DivideTwice(x: nat, p: nat)
    requires p > 0
    ensures x / 256 / p == x / (256 * p)
  {
    var q, r, s := x / 256, x % 256, x / 256 % p;
    assert q == (q / p) * p + s;
    assert x == (q / p) * (256 * p) + (256 * s + r);
    DivModUnique(x, q / p, 256 * s + r, 256 * p);
  }

  /** What one side converts for sending, the other side converts back. */
  lemma RoundTrip(x: nat)
    requires x < HALF * HALF
    ensures Be64toH(HtoBe64(x)) == x
  {
    hide Value, Memory, Pow256;
    HalfIsFourBytes();
    var low, high := Memory(x % HALF, 4), Memory(x / HALF, 4);
    ValueOfMemory(x % HALF, 4);
    ValueOfMemory(x / HALF, 4);
    Joined(Reversed(high), Reversed(low));
    MemoryOfValue(Reversed(low));
    MemoryOfValue(Reversed(high));
    assert Reversed(Reversed(low)) == low && Reversed(Reversed(high)) == high;
  }
}
