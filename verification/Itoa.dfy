/** Integers to decimal text by a table of digit pairs: the fast form writes exactly the
    canonical digits. */
module Itoa {
  import opened Bytes
  import opened Json
  import opened WriterSpec

  /** Entry k of the table: the pairs 00, 01, and so on to 99, one after another. */
  function DigitsLut(k: nat): Byte
    requires k < 200
  {
    DIGIT_0 + if k % 2 == 0 then k / 20 else k / 2 % 10
  }

  /** The two digits of a number below a hundred, as the table has them. */
  function Pair(n: nat): Text
    requires n < 100
  {
    [DigitsLut(2 * n), DigitsLut(2 * n + 1)]
  }

  function Digit(d: nat): Byte
    requires d < 10
  {
    DIGIT_0 + d
  }

  lemma PairIsDigits(n: nat)
    requires n < 100
    ensures Pair(n) == [Digit(n / 10), Digit(n % 10)]
  {
  }

  function Four(n: nat): (t: Text)
    requires n < 10000
    ensures |t| == 4
  {
    Pair(n / 100) + Pair(n % 100)
  }

  lemma AppendDigit(q: nat, r: nat)
    requires q > 0 && r < 10
    ensures Digits(10 * q + r) == Digits(q) + [Digit(r)]
  {
  }

  lemma AppendPair(q: nat, n: nat)
    requires q > 0 && n < 100
    ensures Digits(100 * q + n) == Digits(q) + Pair(n)
  {
    AppendDigit(q, n / 10);
    AppendDigit(10 * q + n / 10, n % 10);
    PairIsDigits(n);
    assert 10 * (10 * q + n / 10) + n % 10 == 100 * q + n;
    assert Digits(q) + [Digit(n / 10)] + [Digit(n % 10)] == Digits(q) + Pair(n);
  }

  lemma AppendFour(q: nat, n: nat)
    requires q > 0 && n < 10000
    ensures Digits(10000 * q + n) == Digits(q) + Four(n)
  {
    AppendPair(q, n / 100);
    AppendPair(100 * q + n / 100, n % 100);
    assert 100 * (100 * q + n / 100) + n % 100 == 10000 * q + n;
    assert Digits(q) + Pair(n / 100) + Pair(n % 100) == Digits(q) + Four(n);
  }

  lemma AppendEight(q: nat, n: nat)
    requires q > 0 && n < 100_000_000
    ensures Digits(100_000_000 * q + n) == Digits(q) + (Four(n / 10000) + Four(n % 10000))
  {
    AppendFour(q, n / 10000);
    AppendFour(10000 * q + n / 10000, n % 10000);
    assert 10000 * (10000 * q + n / 10000) + n % 10000 == 100_000_000 * q + n;
    assert Digits(q) + Four(n / 10000) + Four(n % 10000) == Digits(q) + (Four(n / 10000) + Four(n % 10000));
  }

  lemma OneDigit(a: nat)
    requires a < 10
    ensures Digits(a) == [Digit(a)]
  {
  }

  lemma TwoDigits(a: nat)
    requires 10 <= a < 100
    ensures Digits(a) == Pair(a)
  {
    AppendDigit(a / 10, a % 10);
    PairIsDigits(a);
  }

  /** The digits of a number below ten thousand are its four without the leading zeros. */
  lemma ShortDigits(n: nat)
    requires n < 10000
    ensures Digits(n) == Four(n)[if n >= 1000 then 0 else if n >= 100 then 1 else if n >= 10 then 2 else 3..]
  {
    hide Digits, DigitsLut;
    PairIsDigits(n / 100);
    PairIsDigits(n % 100);
    if n >= 1000 {
      TwoDigits(n / 100);
      AppendPair(n / 100, n % 100);
    } else if n >= 100 {
      OneDigit(n / 100);
      AppendPair(n / 100, n % 100);
    } else if n >= 10 {
      TwoDigits(n);
    } else {
      OneDigit(n);
    }
  }

  /** A group of four at the front of a number: zeros are left out by comparing the whole value. */
  method PutLeadingFour(buffer: Text, n: nat, value: nat, unit: nat) returns (out: Text)
    requires n < 10000 && unit > 0 && (value >= 1000 * unit <==> n >= 1000)
    requires (value >= 100 * unit <==> n >= 100) && (value >= 10 * unit <==> n >= 10)
    ensures out == buffer + Digits(n)
  {
    hide Digits, DigitsLut;
    var d1, d2 := 2 * (n / 100), 2 * (n % 100);
    ghost var four := Four(n);
    assert four == [DigitsLut(d1), DigitsLut(d1 + 1), DigitsLut(d2), DigitsLut(d2 + 1)];
    ShortDigits(n);
    out := buffer;
    if value >= 1000 * unit { out := out + [DigitsLut(d1)]; }
    if value >= 100 * unit { out := out + [DigitsLut(d1 + 1)]; }
    if value >= 10 * unit { out := out + [DigitsLut(d2)]; }
    out := out + [DigitsLut(d2 + 1)];
  }

  method PutFour(buffer: Text, n: nat) returns (out: Text)
    requires n < 10000
    ensures out == buffer + Four(n)
  {
    var d1, d2 := 2 * (n / 100), 2 * (n % 100);
    out := buffer + [DigitsLut(d1)] + [DigitsLut(d1 + 1)] + [DigitsLut(d2)] + [DigitsLut(d2 + 1)];
  }

  method PutEight(buffer: Text, n: nat) returns (out: Text)
    requires n < 100_000_000
    ensures out == buffer + (Four(n / 10000) + Four(n % 10000))
  {
    out := PutFour(buffer, n / 10000);
    out := PutFour(out, n % 10000);
  }

  /** A number below 10^8, of at least one digit. */
  method PutLeadingEight(buffer: Text, n: nat, value: nat, unit: nat) returns (out: Text)
    requires 0 < n < 100_000_000 && unit > 0 && n == value / unit
    ensures out == buffer + Digits(n)
  {
    hide Digits, Four, DigitsLut;
    var b, c := n / 10000, n % 10000;
    Thresholds(n, value, unit);
    if value < 10000 * unit {
      out := PutLeadingFour(buffer, c, value, unit);
    } else {
      out := PutLeadingFour(buffer, b, value, 10000 * unit);
      out := PutFour(out, c);
      AppendFour(b, c);
      assert buffer + Digits(b) + Four(c) == buffer + (Digits(b) + Four(c));
    }
  }

  lemma Thresholds(n: nat, value: nat, unit: nat)
    requires unit > 0 && n == value / unit
    ensures value >= 10 * unit <==> n >= 10
    ensures value >= 100 * unit <==> n >= 100
    ensures value >= 1000 * unit <==> n >= 1000
    ensures value >= 10000 * unit <==> n >= 10000
    ensures value >= 100000 * unit <==> n / 10000 >= 10
    ensures value >= 1000000 * unit <==> n / 10000 >= 100
    ensures value >= 10000000 * unit <==> n / 10000 >= 1000
  {
    Reaches(n, value, unit, 10);
    Reaches(n, value, unit, 100);
    Reaches(n, value, unit, 1000);
    Reaches(n, value, unit, 10000);
    Reaches(n, value, unit, 100000);
    Reaches(n, value, unit, 1000000);
    Reaches(n, value, unit, 10000000);
  }

  lemma Reaches(n: nat, value: nat, unit: nat, k: nat)
    requires unit > 0 && n == value / unit
    ensures value >= k * unit <==> n >= k
  {
    assert value == n * unit + value % unit;
    if n >= k {
      assert (n - k) * unit >= 0;
    } else {
      assert (k - n - 1) * unit >= 0;
    }
  }

  method U32toa(value: nat, buffer: Text) returns (out: Text)
    requires value <= UINT32_MAX
    ensures out == buffer + Digits(value)
  {
    hide Digits, Four, DigitsLut;
    if value < 10000 {
      out := PutLeadingFour(buffer, value, value, 1);
    } else if value < 100_000_000 {
      out := PutLeadingEight(buffer, value, value, 1);
    } else {
      var a := value / 100_000_000;
      if a >= 10 {
        out := buffer + [DigitsLut(2 * a)] + [DigitsLut(2 * a + 1)];
        TwoDigits(a);
      } else {
        out := buffer + [DIGIT_0 + a];
        OneDigit(a);
      }
      assert out == buffer + Digits(a);
      out := PutEight(out, value % 100_000_000);
      AppendEight(a, value % 100_000_000);
    }
  }

  /** Two's complement: the word of a negative number, complemented, plus one. */
  lemma Negated(value: int)
    ensures INT32_MIN <= value < 0 ==> (0xFFFF_FFFF - value % 0x1_0000_0000 + 1) % 0x1_0000_0000 == -value
    ensures INT64_MIN <= value < 0 ==>
              (0xFFFF_FFFF_FFFF_FFFF - value % 0x1_0000_0000_0000_0000 + 1) % 0x1_0000_0000_0000_0000 == -value
  {
  }

  method I32toa(value: int, buffer: Text) returns (out: Text)
    requires INT32_MIN <= value <= INT32_MAX
    ensures out == buffer + IntegerText(value)
  {
    hide Digits;
    out := buffer;
    var u := value % 0x1_0000_0000;
    if value < 0 {
      Negated(value);
      out := out + [MINUS];
      u := (0xFFFF_FFFF - u + 1) % 0x1_0000_0000;
    }
    out := U32toa(u, out);
  }

  method U64toa(value: nat, buffer: Text) returns (out: Text)
    requires value <= UINT64_MAX
    ensures out == buffer + Digits(value)
  {
    hide Digits, Four, DigitsLut;
    if value < 10000 {
      out := PutLeadingFour(buffer, value, value, 1);
    } else if value < 100_000_000 {
      out := PutLeadingEight(buffer, value, value, 1);
    } else if value < 10_000_000_000_000_000 {
      var v0, v1 := value / 100_000_000, value % 100_000_000;
      out := PutLeadingEight(buffer, v0, value, 100_000_000);
      out := PutEight(out, v1);
      AppendEight(v0, v1);
    } else {
      var a, rest := value / 10_000_000_000_000_000, value % 10_000_000_000_000_000;
      out := PutUpToFour(buffer, a);
      var v0, v1 := rest / 100_000_000, rest % 100_000_000;
      out := PutEight(out, v0);
      out := PutEight(out, v1);
      AppendEight(a, v0);
      AppendEight(100_000_000 * a + v0, v1);
      assert 100_000_000 * (100_000_000 * a + v0) + v1 == value;
    }
  }

  method PutUpToFour(buffer: Text, a: nat) returns (out: Text)
    requires 0 < a < 10000
    ensures out == buffer + Digits(a)
  {
    hide Digits, DigitsLut;
    if a < 10 {
      OneDigit(a);
      out := buffer + [DIGIT_0 + a];
    } else if a < 100 {
      TwoDigits(a);
      out := buffer + [DigitsLut(2 * a)] + [DigitsLut(2 * a + 1)];
    } else if a < 1000 {
      OneDigit(a / 100);
      AppendPair(a / 100, a % 100);
      out := buffer + [DIGIT_0 + a / 100] + [DigitsLut(2 * (a % 100))] + [DigitsLut(2 * (a % 100) + 1)];
    } else {
      TwoDigits(a / 100);
      AppendPair(a / 100, a % 100);
      out := buffer + Pair(a / 100) + Pair(a % 100);
    }
  }

  method I64toa(value: int, buffer: Text) returns (out: Text)
    requires INT64_MIN <= value <= INT64_MAX
    ensures out == buffer + IntegerText(value)
  {
    hide Digits;
    out := buffer;
    var u := value % 0x1_0000_0000_0000_0000;
    if value < 0 {
      Negated(value);
      out := out + [MINUS];
      u := (0xFFFF_FFFF_FFFF_FFFF - u + 1) % 0x1_0000_0000_0000_0000;
    }
    out := U64toa(u, out);
  }
}
