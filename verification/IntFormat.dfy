/** int2Str: decimal output of any integer type, digit by digit into a character buffer and reversed in place, and
    FixedBuffer, which it writes to. */
module IntFormats {
  import opened Sequences

  const MAX_INT_SIZE := 32

  /** Every value of every signed or unsigned type of at most 64 bits. */
  type int64 = n: int | -0x8000_0000_0000_0000 <= n <= 0xFFFF_FFFF_FFFF_FFFF

  /** C's division and remainder, which truncate toward zero. */
  function Quotient(a: int, b: int): int
    requires b > 0
  {
    if a >= 0 then a / b else -(-a / b)
  }

  function Rest(a: int, b: int): int
    requires b > 0
  {
    a - Quotient(a, b) * b
  }

  /** The table int2Str indexes from its middle, with offsets from -9 to 9. */
  const DIGITS := "9876543210123456789"

  function Digit(rest: int): char
    requires -9 <= rest <= 9
  {
    DIGITS[9 + rest]
  }

  // ---------------------------------------------------------------- numerals

  predicate IsDigit(c: char)
  {
    '0' <= c <= '9'
  }

  function DigitValue(c: char): (d: nat)
    requires IsDigit(c)
    ensures d < 10
  {
    c as int - '0' as int
  }

  /** The value of a string of digits. */
  function Value(s: string): nat
    requires forall i :: 0 <= i < |s| ==> IsDigit(s[i])
  {
    if s == [] then 0 else 10 * Value(s[..|s| - 1]) + DigitValue(s[|s| - 1])
  }

  /** A canonical numeral: digits with no leading zero, but for zero itself. */
  predicate Canonical(s: string)
  {
    s != [] && (forall i :: 0 <= i < |s| ==> IsDigit(s[i])) && (s[0] == '0' ==> |s| == 1)
  }

  /** A decimal integer: '-' and the numeral of the magnitude if negative, the numeral alone otherwise. */
  predicate Denotes(s: string, n: int)
  {
    if n < 0 then |s| > 0 && s[0] == '-' && Canonical(s[1..]) && Value(s[1..]) == -n
    else Canonical(s) && Value(s) == n
  }

  /** The numeral of a number. */
  function Numeral(n: nat): (s: string)
    ensures Canonical(s) && Value(s) == n
  {
    if n < 10 then [Digit(n)] else Numeral(n / 10) + [Digit(n % 10)]
  }

  lemma {:induction false} PositiveValue(s: string)
    requires Canonical(s) && s[0] != '0'
    ensures Value(s) > 0
    decreases |s|
  {
    if |s| > 1 {
      PositiveValue(s[..|s| - 1]);
    }
  }

  /** It is the only one: a canonical numeral is determined by its value. */
  lemma {:induction false} NumeralUnique(s: string)
    requires Canonical(s)
    ensures s == Numeral(Value(s))
    decreases |s|
  {
    var front, d := s[..|s| - 1], DigitValue(s[|s| - 1]);
    assert s[|s| - 1] == Digit(d);
    if front == [] {
      assert Value(s) == d && s == [Digit(d)];
    } else {
      assert front[0] == s[0] != '0';
      NumeralUnique(front);
      PositiveValue(front);
      assert Value(s) / 10 == Value(front) && Value(s) % 10 == d;
      assert s == front + [Digit(d)];
    }
  }

  /** So an integer has one decimal form, and a form one integer. */
  lemma DenotesUnique(s: string, n: int, t: string, m: int)
    requires Denotes(s, n) && Denotes(t, m)
    ensures s == t <==> n == m
  {
    if n == m {
      if n < 0 {
        NumeralUnique(s[1..]);
        NumeralUnique(t[1..]);
        assert s == ['-'] + s[1..] && t == ['-'] + t[1..];
      } else {
        NumeralUnique(s);
        NumeralUnique(t);
      }
    }
  }

  // ---------------------------------------------------------------- the digits in the order they are written

  /** The digits of a number, the lowest first. */
  function Backward(n: nat): (s: string)
    ensures s != []
  {
    if n < 10 then [Digit(n)] else [Digit(n % 10)] + Backward(n / 10)
  }

  lemma {:induction false} BackwardReversed(n: nat)
    ensures Reversed(Backward(n)) == Numeral(n)
  {
    if n >= 10 {
      BackwardReversed(n / 10);
      assert Reversed([Digit(n % 10)] + Backward(n / 10)) == Reversed(Backward(n / 10)) + [Digit(n % 10)];
    }
  }

  function Power10(k: nat): nat
  {
    if k == 0 then 1 else 10 * Power10(k - 1)
  }

  lemma {:induction false} BackwardLength(n: nat, k: nat)
    requires k >= 1 && n < Power10(k)
    ensures |Backward(n)| <= k
    decreases k
  {
    if n >= 10 {
      BackwardLength(n / 10, k - 1);
    }
  }

  function Abs(n: int): nat
  {
    if n < 0 then -n else n
  }

  /** Twenty characters, sign included, are enough for every value. */
  lemma EnoughRoom(n: int64)
    ensures |Backward(Abs(n))| <= if n < 0 then 19 else 20
  {
    assert Power10(5) == 10_0000;
    assert Power10(10) == 100_0000_0000;
    assert Power10(15) == 1000_0000_0000_0000;
    assert Power10(19) == 1000_0000_0000_0000_0000;
    assert Power10(20) == 1_0000_0000_0000_0000_0000;
    BackwardLength(Abs(n), if n < 0 then 19 else 20);
  }

  /** The sign of the remainder is that of the dividend, and the table undoes it. */
  lemma DigitOf(n: int)
    ensures -9 <= Rest(n, 10) <= 9
    ensures Digit(Rest(n, 10)) == Digit(Abs(n) % 10) && Abs(Quotient(n, 10)) == Abs(n) / 10
    ensures n < 0 ==> Quotient(n, 10) <= 0
  {
    var r := Abs(n) % 10;
    assert DIGITS[9 + r] == DIGITS[9 - r];
  }

  // ---------------------------------------------------------------- the code

  lemma ReversedStretch(s: seq<char>, was: seq<char>, lo: nat, hi: nat)
    requires lo <= hi <= |s| == |was| && forall k :: lo <= k < hi ==> s[k] == was[lo + hi - 1 - k]
    ensures s[lo..hi] == Reversed(was[lo..hi])
  {
    var r := Reversed(was[lo..hi]);
    forall k | 0 <= k < hi - lo
      ensures s[lo..hi][k] == r[k]
    {
      assert s[lo + k] == was[hi - 1 - k];
    }
  }

  /** std::reverse on a stretch of the buffer. */
  method Reverse(buf: array<char>, lo: nat, hi: nat)
    requires lo <= hi <= buf.Length
    modifies buf
    ensures buf[lo..hi] == Reversed(old(buf[lo..hi]))
    ensures forall k :: 0 <= k < lo || hi <= k < buf.Length ==> buf[k] == old(buf[k])
  {
    var i, j := lo, hi;
    while i < j
      invariant lo <= i && j <= hi && i + j == lo + hi && i <= j + 1
      invariant forall k :: 0 <= k < lo || hi <= k < buf.Length ==> buf[k] == old(buf[k])
      invariant forall k :: lo <= k < i || j <= k < hi ==> buf[k] == old(buf[lo + hi - 1 - k])
      invariant forall k :: i <= k < j ==> buf[k] == old(buf[k])
    {
      j := j - 1;
      buf[i], buf[j] := buf[j], buf[i];
      i := i + 1;
    }
    ghost var was := old(buf[..]);
    forall k | lo <= k < hi
      ensures buf[k] == was[lo + hi - 1 - k]
    {
      assert k < i || j <= k;
    }
    ReversedStretch(buf[..], was, lo, hi);
  }

  /** The sign after the digits, and the terminating zero. */
  method WriteSign(buf: array<char>, at: nat, digitsEnd: nat, negative: bool) returns (end: nat)
    requires at <= digitsEnd && digitsEnd + 1 < buf.Length + if negative then 0 else 1
    modifies buf
    ensures at <= end < buf.Length && buf[end] == '\0' && end == digitsEnd + if negative then 1 else 0
    ensures buf[at..end] == old(buf[at..digitsEnd]) + if negative then ['-'] else []
    ensures forall k :: 0 <= k < at || end < k < buf.Length ==> buf[k] == old(buf[k])
  {
    end := digitsEnd;
    if negative {
      buf[end] := '-';
      end := end + 1;
    }
    buf[end] := '\0';
    assert buf[at..digitsEnd] == old(buf[at..digitsEnd]);
  }

  lemma FormIs(written: string, n: int64)
    requires written == Backward(Abs(n)) + if n < 0 then ['-'] else []
    ensures Denotes(Reversed(written), n)
  {
    BackwardReversed(Abs(n));
    if n < 0 {
      assert Reversed(written)[1..] == Reversed(Backward(-n));
    } else {
      assert written == Backward(n);
    }
  }

  /** The digits so far, and those of what remains, are all the digits. */
  ghost predicate Writing(done: string, integer: int, more: bool, all: string)
  {
    done + (if more then Backward(Abs(integer)) else []) == all
  }

  lemma WritingStep(done: string, integer: int, all: string)
    requires Writing(done, integer, true, all)
    ensures -9 <= Rest(integer, 10) <= 9 && |done| < |all|
    ensures Writing(done + [Digit(Rest(integer, 10))], Quotient(integer, 10), Quotient(integer, 10) != 0, all)
    ensures Abs(Quotient(integer, 10)) < Abs(integer) || integer == 0 == Quotient(integer, 10)
  {
    DigitOf(integer);
    var m := Abs(integer);
    assert Backward(m) == [Digit(m % 10)] + if m >= 10 then Backward(m / 10) else [];
  }

  /** The loop of Int2Str. */
  method WriteDigits(buf: array<char>, at: nat, n: int64) returns (end: nat)
    requires at + |Backward(Abs(n))| <= buf.Length
    modifies buf
    ensures end == at + |Backward(Abs(n))| && buf[at..end] == Backward(Abs(n))
    ensures forall k :: 0 <= k < at || end <= k < buf.Length ==> buf[k] == old(buf[k])
  {
    end := at;
    var integer: int := n;
    var more := true;
    ghost var all := Backward(Abs(n));
    assert buf[at..end] == [];
    while more
      invariant at <= end <= at + |all| && (more <==> integer != 0 || end == at)
      invariant Writing(buf[at..end], integer, more, all)
      invariant forall k :: 0 <= k < at || end <= k < buf.Length ==> buf[k] == old(buf[k])
      decreases Abs(integer), more
    {
      WritingStep(buf[at..end], integer, all);
      ghost var before := buf[at..end];
      buf[end] := Digit(Rest(integer, 10));
      integer := Quotient(integer, 10);
      end := end + 1;
      more := integer != 0;
      assert buf[at..end] == before + [buf[end - 1]];
    }
  }

  /** The decimal form of a number, from a place of the buffer on, and a terminating zero; its length is returned. */
  method Int2Str(buf: array<char>, at: nat, n: int64) returns (len: nat)
    requires at + 21 <= buf.Length
    modifies buf
    ensures len <= 20 && Denotes(buf[at..at + len], n) && buf[at + len] == '\0'
    ensures forall k :: 0 <= k < at || at + 21 <= k < buf.Length ==> buf[k] == old(buf[k])
  {
    EnoughRoom(n);
    var end := WriteDigits(buf, at, n);
    end := WriteSign(buf, at, end, n < 0);
    FormIs(buf[at..end], n);
    Reverse(buf, at, end);
    len := end - at;
  }

  // ---------------------------------------------------------------- the buffer

  /** A fixed number of characters, the first `len` of them in use and followed by a zero. */
  class FixedBuffer {
    const data: array<char>
    var len: nat

    ghost predicate Valid()
      reads this
    {
      len < data.Length
    }

    ghost function Contents(): string
      requires Valid()
      reads this, data
    {
      data[..len]
    }

    constructor (capacity: nat)
      requires capacity > 0
      ensures Valid() && fresh(data) && Contents() == [] && data.Length == capacity
    {
      data := new char[capacity](_ => '\0');
      len := 0;
    }

    function Available(): nat
      requires Valid()
      reads this
    {
      data.Length - len
    }

    /** A string that fits with its terminating zero is appended, any other is dropped. */
    method Append(str: string)
      requires Valid()
      modifies this, data
      ensures Valid() && Contents() == old(Contents()) + if |str| < old(Available()) then str else []
      ensures |str| < old(Available()) ==> data[len] == '\0'
    {
      if |str| < Available() {
        for i := 0 to |str|
          invariant Valid() && len == old(len) && data[..len] == old(data[..len])
          invariant data[len..len + i] == str[..i]
        {
          data[len + i] := str[i];
        }
        assert data[..len + |str|] == data[..len] + data[len..len + |str|];
        len := len + |str|;
        data[len] := '\0';
      }
    }

    /** The decimal form of a number is appended if more than 32 characters are free, which is always enough. */
    method AppendInt(n: int64)
      requires Valid()
      modifies this, data
      ensures Valid() && old(Contents()) <= Contents()
      ensures old(Available()) <= MAX_INT_SIZE ==> Contents() == old(Contents())
      ensures old(Available()) > MAX_INT_SIZE ==>
                && Denotes(Contents()[old(len)..], n) && |Contents()| <= old(len) + 20 && data[len] == '\0'
    {
      if Available() > MAX_INT_SIZE {
        var written := Int2Str(data, len, n);
        assert data[..len + written] == data[..len] + data[len..len + written];
        len := len + written;
        data[len] := '\0';
      }
    }
  }
}
