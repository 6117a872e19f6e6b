/** `strtoull(text, NULL, 0)`, through which a string becomes an unsigned 64-bit number. */
module Numbers {
  import opened Arithmetic
  import opened Utf8
  import opened Trimming

  const ULLONG_MAX: nat := 0xFFFF_FFFF_FFFF_FFFF

  /** The value of a digit in any base, 36 for a byte that is none. */
  function DigitValue(b: Byte): (d: nat)
    ensures d <= 36
  {
    if 48 <= b <= 57 then b - 48
    else if 97 <= b <= 122 then b - 87
    else if 65 <= b <= 90 then b - 55
    else 36
  }

  /** Accumulates digits up to the first byte that is none in the base. */
  function Accumulate(s: Bytes, base: nat, acc: nat): nat
  {
    if s == [] || DigitValue(s[0]) >= base then acc else Accumulate(s[1..], base, acc * base + DigitValue(s[0]))
  }

  function Unsigned(s: Bytes): nat {
    if |s| >= 3 && s[0] == 48 && (s[1] == 120 || s[1] == 88) && DigitValue(s[2]) < 16 then Accumulate(s[2..], 16, 0)
    else if s != [] && s[0] == 48 then Accumulate(s, 8, 0)
    else Accumulate(s, 10, 0)
  }

  function SkipSpace(s: Bytes): Bytes {
    if s != [] && IsSpace(s[0]) then SkipSpace(s[1..]) else s
  }

  /** Saturates on overflow; a minus sign negates modulo 2^64. */
  function ParseUll(s: Bytes): (n: nat)
    ensures n <= ULLONG_MAX
  {
    var t := SkipSpace(s);
    var negative := t != [] && t[0] == 45;
    var v := Unsigned(if t != [] && (t[0] == 45 || t[0] == 43) then t[1..] else t);
    if v > ULLONG_MAX then ULLONG_MAX
    else if negative && v > 0 then ULLONG_MAX + 1 - v
    else v
  }

  function Digit(d: nat): (b: Byte)
    requires d < 16
    ensures DigitValue(b) == d && b != 10 && b < 0x7f && !IsSpace(b) && b != 43 && b != 45
  {
    if d < 10 then 48 + d else 87 + d
  }

  function Digits(n: nat, base: nat): (s: Bytes)
    requires 2 <= base <= 16
    ensures s != [] && 10 !in s && IsAscii(s)
    ensures forall i :: 0 <= i < |s| ==> DigitValue(s[i]) < base && !IsSpace(s[i]) && s[i] != 43 && s[i] != 45
  {
    if n < base then [Digit(n)] else
      assert n / base < n;
      Digits(n / base, base) + [Digit(n % base)]
  }

  function Decimal(n: nat): Bytes {
    Digits(n, 10)
  }

  function Hexadecimal(n: nat): Bytes {
    [48, 120] + Digits(n, 16)
  }

  lemma {:induction false} AccumulateAppend(a: Bytes, d: Byte, base: nat, acc: nat)
    requires DigitValue(d) < base && forall i :: 0 <= i < |a| ==> DigitValue(a[i]) < base
    ensures Accumulate(a + [d], base, acc) == Accumulate(a, base, acc) * base + DigitValue(d)
  {
    if a == [] {
    } else {
      assert (a + [d])[1..] == a[1..] + [d];
      AccumulateAppend(a[1..], d, base, acc * base + DigitValue(a[0]));
    }
  }

  lemma {:induction false} AccumulateDigits(n: nat, base: nat)
    requires 2 <= base <= 16
    ensures Accumulate(Digits(n, base), base, 0) == n
  {
    if n >= base {
      AccumulateDigits(n / base, base);
      AccumulateAppend(Digits(n / base, base), Digit(n % base), base, 0);
      DivMod(n, base);
    }
  }

  lemma {:induction false} LeadingDigit(n: nat)
    ensures n > 0 ==> Decimal(n)[0] != 48
  {
    if n >= 10 {
      LeadingDigit(n / 10);
    }
  }

  lemma DecimalParses(n: nat)
    requires n <= ULLONG_MAX
    ensures ParseUll(Decimal(n)) == n
  {
    AccumulateDigits(n, 10);
    LeadingDigit(n);
  }

  lemma HexadecimalParses(n: nat)
    requires n <= ULLONG_MAX
    ensures ParseUll([32] + Hexadecimal(n)) == n
    ensures IsAscii(Hexadecimal(n)) && 10 !in Hexadecimal(n)
  {
    AccumulateDigits(n, 16);
    var h := Hexadecimal(n);
    assert ([32] + h)[1..] == h;
    assert SkipSpace([32] + h) == SkipSpace(h) == h;
    assert h[2..] == Digits(n, 16) && h[2] == Digits(n, 16)[0];
  }

  /** White space in front is skipped. */
  lemma SpaceIsSkipped(b: Byte, s: Bytes)
    requires b == 32 || 9 <= b <= 13
    ensures ParseUll([b] + s) == ParseUll(s)
  {
    assert ([b] + s)[1..] == s;
  }

  /** A number beyond 64 bits reads as the greatest. */
  lemma TooGreatSaturates(n: nat)
    requires n > ULLONG_MAX
    ensures ParseUll(Decimal(n)) == 0xffff_ffff_ffff_ffff
  {
    AccumulateDigits(n, 10);
    LeadingDigit(n);
  }

  /** A minus sign negates modulo 2^64. */
  lemma MinusNegates(n: nat)
    requires 0 < n <= ULLONG_MAX
    ensures ParseUll([45] + Decimal(n)) == 0x1_0000_0000_0000_0000 - n
  {
    AccumulateDigits(n, 10);
    LeadingDigit(n);
    assert ([45] + Decimal(n))[1..] == Decimal(n);
  }

  /** A leading zero announces octal digits. */
  lemma ZeroMeansOctal(n: nat)
    requires n <= ULLONG_MAX
    ensures ParseUll([48] + Digits(n, 8)) == n
  {
    var d := Digits(n, 8);
    AccumulateDigits(n, 8);
    assert ([48] + d)[1..] == d;
    assert Accumulate([48] + d, 8, 0) == Accumulate(d, 8, 0);
  }

  /** Text without a digit reads as zero. */
  lemma NoDigitsMeansZero(s: Bytes)
    requires s == [] || (s[0] > 57 && s[0] < 0x7f)
    ensures ParseUll(s) == 0
  {
  }
}
