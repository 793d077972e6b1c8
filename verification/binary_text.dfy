/** Text of binary digits: the Java library routines the coding logic uses
    to turn numbers into '0'/'1' strings and back (Integer.toBinaryString,
    Integer.parseInt with radix 2), and the fixed-width digit strings the
    table symbols and pixels are read as. */
module BinaryText {
  import opened JavaInt

  /** The value of a text of binary digits, most significant first; any
      character other than '1' counts as a zero digit. */
  function BinaryValue(t: string): nat
    decreases |t|
  {
    if t == [] then 0
    else 2 * BinaryValue(t[..|t| - 1]) + (if t[|t| - 1] == '1' then 1 else 0)
  }

  /** The low `n` bits of `v` as digits, most significant first. */
  function Digits(v: nat, n: nat): (t: string)
    ensures |t| == n && IsBinaryText(t)
  {
    seq(n, i requires 0 <= i < n => if Bit(v, n - 1 - i) then '1' else '0')
  }

  /** The last digit of `Digits(v, n)` is the low bit of `v`. */
  lemma DigitsSnoc(v: nat, n: nat)
    requires n > 0
    ensures Digits(v, n) == Digits(v / 2, n - 1) + [DigitChar(v % 2)]
  {
    var t := Digits(v / 2, n - 1) + [DigitChar(v % 2)];
    forall i | 0 <= i < n
      ensures Digits(v, n)[i] == t[i]
    {
      if i < n - 1 {
        assert t[i] == Digits(v / 2, n - 1)[i];
        assert Bit(v, n - 1 - i) == Bit(v / 2, n - 2 - i);
      } else {
        assert t[i] == DigitChar(v % 2);
        assert Bit(v, 0) == (v % 2 == 1);
      }
    }
    assert Digits(v, n) == t;
  }

  /** Reading the digits of `v` back gives its low `n` bits. */
  lemma {:induction false} ValueOfDigits(v: nat, n: nat)
    ensures BinaryValue(Digits(v, n)) == v % Pow2(n)
    decreases n
  {
    if n > 0 {
      var t := Digits(v, n);
      DigitsSnoc(v, n);
      assert t[..n - 1] == Digits(v / 2, n - 1);
      ValueOfDigits(v / 2, n - 1);
      PowHalf(v, n);
      ModParts(v % Pow2(n));
    }
  }

  /** Writing the value of a binary text with as many digits gives the text
      back. */
  lemma {:induction false} DigitsOfValue(t: string)
    requires IsBinaryText(t)
    ensures Digits(BinaryValue(t), |t|) == t
    decreases |t|
  {
    if t != [] {
      var n := |t|;
      var p := t[..n - 1];
      assert IsBinaryText(p);
      DigitsOfValue(p);
      DigitsSnoc(BinaryValue(t), n);
      assert t == p + [t[n - 1]];
    }
  }

  /** A text of `n` digits has a value below 2^n. */
  lemma {:induction false} BinaryValueBound(t: string)
    ensures BinaryValue(t) < Pow2(|t|)
    decreases |t|
  {
    if t != [] {
      BinaryValueBound(t[..|t| - 1]);
    }
  }

  // ---------------------------------------------------------------------
  // Integer.toBinaryString.

  /** Integer.toBinaryString of the pattern `x`: its binary digits without
      leading zeros, "0" for zero. */
  function Binary(x: nat): (t: string)
    ensures |t| > 0 && IsBinaryText(t)
    decreases x
  {
    if x < 2 then [DigitChar(x)] else Binary(x / 2) + [DigitChar(x % 2)]
  }

  /** The number of binary digits of `x` without leading zeros (one for 0). */
  function BitLength(x: nat): (n: nat)
    ensures n >= 1
    decreases x
  {
    if x < 2 then 1 else 1 + BitLength(x / 2)
  }

  /** toBinaryString writes `x` with BitLength(x) digits. */
  lemma {:induction false} BinaryIsDigits(x: nat)
    ensures Binary(x) == Digits(x, BitLength(x))
    decreases x
  {
    if x >= 2 {
      BinaryIsDigits(x / 2);
      DigitsSnoc(x, BitLength(x));
    } else {
      assert Digits(x, 1)[0] == DigitChar(x);
    }
  }

  /** toBinaryString loses nothing: its digits read back as `x`, and they
      start with '1' unless `x` is zero. */
  lemma BinaryRoundTrip(x: nat)
    ensures BinaryValue(Binary(x)) == x
    ensures Binary(x)[0] == '1' <==> x != 0
  {
    BinaryIsDigits(x);
    ValueOfDigits(x, BitLength(x));
    BitLengthBelow(x);
    DivModOfMultiple(x, Pow2(BitLength(x)), 0);
    BinaryLeadingDigit(x);
  }

  lemma {:induction false} BinaryLeadingDigit(x: nat)
    ensures Binary(x)[0] == '1' <==> x != 0
    decreases x
  {
    if x >= 2 {
      BinaryLeadingDigit(x / 2);
    }
  }

  /** `x` is below 2^BitLength(x). */
  lemma {:induction false} BitLengthBelow(x: nat)
    ensures x < Pow2(BitLength(x))
    decreases x
  {
    if x >= 2 {
      BitLengthBelow(x / 2);
    }
  }

  /** A number from 2^(n-1) up to below 2^n has `n` digits. */
  lemma {:induction false} BitLengthOfRange(x: nat, n: nat)
    requires n >= 1 && Pow2(n - 1) <= x < Pow2(n)
    ensures BitLength(x) == n
    decreases n
  {
    if n > 1 {
      BitLengthOfRange(x / 2, n - 1);
    }
  }

  /** A number below 2^n has at most `n` digits. */
  lemma {:induction false} BitLengthAtMost(x: nat, n: nat)
    requires n >= 1 && x < Pow2(n)
    ensures BitLength(x) <= n
    decreases n
  {
    if n > 1 && x >= 2 {
      BitLengthAtMost(x / 2, n - 1);
    }
  }

  /** A number of at least 2^(n-1) has at least `n` digits. */
  lemma {:induction false} BitLengthAtLeast(x: nat, n: nat)
    requires n >= 1 && x >= Pow2(n - 1)
    ensures BitLength(x) >= n
    decreases n
  {
    if n > 1 {
      BitLengthAtLeast(x / 2, n - 1);
    }
  }

  // ---------------------------------------------------------------------
  // Integer.parseInt(s, 2).

  /** Integer.parseInt(s, 2): an optional '-' or '+' sign, then one or more
      digits '0'/'1'; the value must fit in an `int`. Every other text is a
      NumberFormatException. */
  function ParseInt(s: string): (r: Result<int>)
    ensures r.Ok? || r == Throws(NumberFormat)
    ensures |s| == 0 ==> r == Throws(NumberFormat)
    ensures r.Ok? ==> -0x8000_0000 <= r.value < 0x8000_0000
  {
    if |s| == 0 then Throws(NumberFormat)
    else if s[0] < '0' then
      if s[0] != '-' && s[0] != '+' then Throws(NumberFormat)
      else if |s| == 1 then Throws(NumberFormat)
      else Accumulate(s[1..], s[0] == '-')
    else Accumulate(s, false)
  }

  /** The digits after the sign, accumulated with the overflow checks of
      parseInt. */
  function Accumulate(digits: string, negative: bool): (r: Result<int>)
    ensures r.Ok? || r == Throws(NumberFormat)
    ensures r.Ok? ==> -0x8000_0000 <= r.value < 0x8000_0000
  {
    if !IsBinaryText(digits) then Throws(NumberFormat)
    else if negative && BinaryValue(digits) > 0x8000_0000 then Throws(NumberFormat)
    else if !negative && BinaryValue(digits) > 0x7FFF_FFFF then Throws(NumberFormat)
    else
      var v: int := BinaryValue(digits);
      Ok(if negative then -v else v)
  }

  /** parseInt reads an unsigned digit text as its value. */
  lemma ParseUnsigned(s: string)
    requires |s| > 0 && IsBinaryText(s) && BinaryValue(s) < 0x8000_0000
    ensures ParseInt(s) == Ok(BinaryValue(s))
  {
  }

  /** parseInt reads "-" and a digit text as the negated value. */
  lemma ParseNegative(s: string)
    requires |s| > 1 && s[0] == '-' && IsBinaryText(s[1..]) && BinaryValue(s[1..]) <= 0x8000_0000
    ensures ParseInt(s) == Ok(0 - BinaryValue(s[1..]))
  {
  }

  /** parseInt refuses a text with a character that is neither a digit nor a
      leading sign. */
  lemma ParseRejects(s: string, i: nat)
    requires i < |s| && s[i] != '0' && s[i] != '1'
    requires i == 0 ==> s[0] != '-' && s[0] != '+'
    ensures ParseInt(s) == Throws(NumberFormat)
  {
    if s[0] < '0' && (s[0] == '-' || s[0] == '+') && |s| > 1 {
      assert s[1..][i - 1] == s[i];
    }
  }

  /** parseInt undoes Digits for up to 31 digits. */
  lemma ParseDigits(v: nat, n: nat)
    requires 0 < n <= 31
    ensures ParseInt(Digits(v, n)) == Ok(v % Pow2(n))
  {
    ValueOfDigits(v, n);
    BinaryValueBound(Digits(v, n));
    Pow2Monotone(n, 31);
    Pow2Values();
  }

  lemma {:induction false} Pow2Monotone(a: nat, b: nat)
    requires a <= b
    ensures Pow2(a) <= Pow2(b)
    decreases b
  {
    if a < b {
      Pow2Monotone(a, b - 1);
    }
  }
}
