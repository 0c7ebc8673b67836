/**
 * The slot number sent from the writer to a reader: the decimal text that
 * `sprintf("%d")` leaves in a zeroed 32 character buffer, and what `atoi` makes of
 * such a buffer (transfer_export/src/share_mem/w_fifo_ctl.cpp).
 */
module FifoCtl {
  import opened Wrappers

  const INT_LEN := 32
  const INT_MIN := -0x8000_0000
  const INT_MAX := 0x7fff_ffff

  predicate IsInt(x: int) {
    INT_MIN <= x <= INT_MAX
  }

  predicate IsDigit(c: char) {
    '0' <= c <= '9'
  }

  // The characters `isspace` accepts: tab, newline, vertical tab, form feed, return, blank.
  predicate IsSpace(c: char) {
    c == ' ' || 9 <= c as int <= 13
  }

  function DigitChar(d: nat): (c: char)
    requires d < 10
    ensures IsDigit(c) && c as int - '0' as int == d
  {
    ('0' as int + d) as char
  }

  function Digits(n: nat): (s: string)
    ensures s != [] && IsDigit(s[0])
  {
    if n < 10 then [DigitChar(n)] else Digits(n / 10) + [DigitChar(n % 10)]
  }

  function Itoa(x: int): string {
    if x < 0 then ['-'] + Digits(-x) else Digits(x)
  }

  function ParseDigits(s: string, acc: nat): nat
    decreases |s|
  {
    if s == [] || !IsDigit(s[0]) then acc
    else ParseDigits(s[1..], acc * 10 + (s[0] as int - '0' as int))
  }

  /** `atoi`: leading blanks, an optional sign, then digits up to the first other character. */
  function Atoi(s: string): int
    decreases |s|
  {
    if s == [] then 0
    else if IsSpace(s[0]) then Atoi(s[1..])
    else if s[0] == '-' then 0 - ParseDigits(s[1..], 0) as int
    else if s[0] == '+' then ParseDigits(s[1..], 0)
    else ParseDigits(s, 0)
  }

  function Zeros(n: nat): (z: string)
    ensures |z| == n && forall i :: 0 <= i < n ==> z[i] == 0 as char
  {
    seq(n, _ => 0 as char)
  }

  /** The 32 characters put in the pipe for `data`. */
  function Message(data: int): (m: string)
    requires IsInt(data)
    ensures |m| == INT_LEN
  {
    ItoaFits(data);
    Itoa(data) + Zeros(INT_LEN - |Itoa(data)|)
  }

  function Pow10(k: nat): nat {
    if k == 0 then 1 else 10 * Pow10(k - 1)
  }

  lemma {:induction false} DigitsLength(n: nat, k: nat)
    requires 0 < k && n < Pow10(k)
    ensures |Digits(n)| <= k
  {
    assert Pow10(1) == 10 * Pow10(0);
    if n >= 10 {
      DigitsLength(n / 10, k - 1);
    }
  }

  /** The text of a 32-bit integer is at most 11 characters, so its terminator fits too. */
  lemma ItoaFits(x: int)
    requires IsInt(x)
    ensures 1 <= |Itoa(x)| <= 11 < INT_LEN
  {
    assert Pow10(10) == 10_000_000_000 by {
      assert Pow10(5) == 100_000;
    }
    DigitsLength(if x < 0 then -x else x, 10);
  }

  lemma {:induction false} ParseDigitsOfDigits(n: nat, rest: string)
    ensures ParseDigits(Digits(n) + rest, 0) == ParseDigits(rest, n)
  {
    if n < 10 {
      assert (Digits(n) + rest)[1..] == rest;
    } else {
      var d := DigitChar(n % 10);
      assert Digits(n) + rest == Digits(n / 10) + ([d] + rest);
      ParseDigitsOfDigits(n / 10, [d] + rest);
      assert ([d] + rest)[1..] == rest;
    }
  }

  lemma AtoiOfDigits(s: string)
    requires s != [] && IsDigit(s[0])
    ensures Atoi(s) == ParseDigits(s, 0)
    ensures Atoi(['-'] + s) == -(ParseDigits(s, 0) as int)
  {
    hide ParseDigits;
    assert (['-'] + s)[1..] == s;
  }

  lemma ParseStops(rest: string, n: nat)
    requires rest == [] || !IsDigit(rest[0])
    ensures ParseDigits(rest, n) == n
  {
  }

  /** Parsing undoes printing for every integer, whatever follows the terminator. */
  lemma AtoiOfItoa(x: int, rest: string)
    requires rest == [] || !IsDigit(rest[0])
    ensures Atoi(Itoa(x) + rest) == x
  {
    hide Digits, ParseDigits, Atoi;
    var n := if x < 0 then -x else x;
    var digits := Digits(n);
    ParseDigitsOfDigits(n, rest);
    ParseStops(rest, n);
    AtoiOfDigits(digits + rest);
    assert Itoa(x) + rest == if x < 0 then ['-'] + (digits + rest) else digits + rest;
  }

  lemma AtoiOfMessage(x: int)
    requires IsInt(x)
    ensures Atoi(Message(x)) == x
  {
    ItoaFits(x);
    AtoiOfItoa(x, Zeros(INT_LEN - |Itoa(x)|));
  }

  /** Distinct slot numbers are distinct on the wire. */
  lemma MessageInjective(x: int, y: int)
    requires IsInt(x) && IsInt(y) && Message(x) == Message(y)
    ensures x == y
  {
    AtoiOfMessage(x);
    AtoiOfMessage(y);
  }

  // --- the text is the one that %d prints ---

  /** Decimal digits without a leading zero, except for zero itself. */
  predicate Natural(s: string) {
    s != [] && (forall k | 0 <= k < |s| :: IsDigit(s[k])) && (|s| > 1 ==> s[0] != '0')
  }

  /** A minus sign for a negative number, no other sign, and no superfluous zero. */
  predicate Canonical(s: string) {
    Natural(s) || (s != [] && s[0] == '-' && Natural(s[1..]) && s[1] != '0')
  }

  lemma {:induction false} DigitsNatural(n: nat)
    ensures Natural(Digits(n)) && (Digits(n)[0] == '0' <==> n == 0)
  {
    if n < 10 {
    } else {
      DigitsNatural(n / 10);
    }
  }

  lemma {:induction false} ParseSnoc(s: string, c: char, acc: nat)
    requires (forall k | 0 <= k < |s| :: IsDigit(s[k])) && IsDigit(c)
    ensures ParseDigits(s + [c], acc) == 10 * ParseDigits(s, acc) + (c as int - '0' as int)
    decreases |s|
  {
    if s == [] {
      assert ([] + [c])[1..] == [];
    } else {
      assert (s + [c])[1..] == s[1..] + [c];
      ParseSnoc(s[1..], c, acc * 10 + (s[0] as int - '0' as int));
    }
  }

  lemma {:induction false} DigitsOfParse(s: string)
    requires Natural(s)
    ensures Digits(ParseDigits(s, 0)) == s && (s[0] != '0' ==> ParseDigits(s, 0) >= 1)
    decreases |s|
  {
    var front, c := s[..|s| - 1], s[|s| - 1];
    assert s == front + [c];
    ParseSnoc(front, c, 0);
    var d := c as int - '0' as int;
    assert DigitChar(d) == c;
    if front == [] {
      assert ParseDigits([], 0) == 0;
    } else {
      DigitsOfParse(front);
      var n := ParseDigits(front, 0);
      assert (10 * n + d) / 10 == n && (10 * n + d) % 10 == d;
    }
  }

  /** For every text: it is the one printed for the number it is read as, iff it is canonical. */
  lemma PrintedIsCanonical(s: string)
    ensures Canonical(s) <==> s == Itoa(Atoi(s))
  {
    var x := Atoi(s);
    var n := if x < 0 then -x else x;
    DigitsNatural(n);
    if s == Itoa(x) {
      assert x < 0 ==> s[1..] == Digits(n);
    }
    if Natural(s) {
      AtoiOfDigits(s);
      DigitsOfParse(s);
    } else if Canonical(s) {
      AtoiOfDigits(s[1..]);
      DigitsOfParse(s[1..]);
      assert s == ['-'] + s[1..];
    }
  }

  /** In the pipe: that text, and zeros up to the length of the buffer. */
  lemma MessageIsText(x: int)
    requires IsInt(x)
    ensures Canonical(Itoa(x)) && Atoi(Itoa(x)) == x
    ensures |Itoa(x)| < INT_LEN && Message(x)[..|Itoa(x)|] == Itoa(x)
    ensures forall k | |Itoa(x)| <= k < INT_LEN :: Message(x)[k] == 0 as char
  {
    ItoaFits(x);
    AtoiOfItoa(x, []);
    assert Itoa(x) + [] == Itoa(x);
    PrintedIsCanonical(Itoa(x));
  }

  /** One named pipe between the writer and one reader. */
  class Fifo {
    var pipe: Option<string>

    constructor ()
      ensures pipe == None
    {
      pipe := None;
    }

    method FifoWrite(data: int) returns (written: int)
      requires IsInt(data) && pipe == None
      modifies this
      ensures pipe == Some(Message(data)) && written == INT_LEN
    {
      ItoaFits(data);
      var buf := new char[INT_LEN](_ => 0 as char);
      var text := Itoa(data);
      for i := 0 to |text|
        invariant buf[..] == text[..i] + Zeros(INT_LEN - i)
      {
        buf[i] := text[i];
      }
      assert buf[..] == Message(data);
      pipe := Some(buf[..]);
      written := INT_LEN;
    }

    /** Whatever integer the writer sent is the integer the reader gets. */
    method FifoRead() returns (data: int)
      requires pipe.Some?
      modifies this
      ensures data == Atoi(old(pipe.value)) && pipe == None
      ensures forall sent | IsInt(sent) && old(pipe) == Some(Message(sent)) :: data == sent
    {
      forall sent | IsInt(sent) && pipe == Some(Message(sent)) ensures Atoi(pipe.value) == sent {
        AtoiOfMessage(sent);
      }
      data := Atoi(pipe.value);
      pipe := None;
    }
  }
}
