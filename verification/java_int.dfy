/** Java's primitive integers and the few library routines on them that the
    coding logic relies on.

    A Java `int` is modelled by its 32-bit two's-complement pattern read as
    an unsigned number (`Word`, below 2^32) and a Java `byte` by its 8-bit
    pattern (`Byte`, below 256). On such patterns `x >>> k` is `x / 2^k`,
    `x << k` is `x * 2^k` wrapped to 32 bits, and `&`, `|` are the bitwise
    functions `And` and `Or` defined digit by digit below. */
module JavaInt {

  /** The Java exceptions the modelled code can raise. */
  datatype Exception =
    | NullPointer        // NullPointerException
    | IndexOutOfBounds   // ArrayIndexOutOfBoundsException, StringIndexOutOfBoundsException
    | NumberFormat       // NumberFormatException from Integer.parseInt
    | IllegalArgument    // IllegalArgumentException from the image constructor

  /** The outcome of a Java call: a value, or the exception it throws. */
  datatype Result<+T> = Ok(value: T) | Throws(exception: Exception)

  /** A Java reference that may be null. */
  datatype Option<+T> = None | Some(value: T)

  const TwoTo32: nat := 0x1_0000_0000

  /** A Java `int`: its bit pattern as an unsigned number. */
  type Word = x: nat | x < 0x1_0000_0000

  /** A Java `byte`: its bit pattern as an unsigned number. */
  type Byte = x: nat | x < 0x100

  function Pow2(k: nat): (r: nat)
    ensures r >= 1
    decreases k
  {
    if k == 0 then 1 else 2 * Pow2(k - 1)
  }

  /** The powers of two the coding logic shifts by. */
  lemma Pow2Values()
    ensures Pow2(1) == 2 && Pow2(8) == 0x100 && Pow2(9) == 0x200
    ensures Pow2(16) == 0x1_0000 && Pow2(24) == 0x100_0000
    ensures Pow2(31) == 0x8000_0000 && Pow2(32) == 0x1_0000_0000
  {
    assert Pow2(8) == 0x100;
    assert Pow2(16) == 0x1_0000;
  }

  /** The value of a pattern as a Java `int`. */
  function Signed(x: Word): (v: int)
    ensures -0x8000_0000 <= v < 0x8000_0000
    ensures v >= 0 <==> x < 0x8000_0000
    ensures v % TwoTo32 == x
  {
    if x < 0x8000_0000 then x else x - TwoTo32
  }

  /** The pattern of a Java `int` value (the inverse of `Signed`). */
  function Pattern(v: int): (x: Word)
    requires -0x8000_0000 <= v < 0x8000_0000
    ensures Signed(x) == v
  {
    if v < 0 then v + TwoTo32 else v
  }

  /** `x << k`: the bits move up `k` places and those above bit 31 are lost. */
  function Shl(x: Word, k: nat): (r: Word)
    requires k < 32
  {
    (x * Pow2(k)) % TwoTo32
  }

  /** `x >>> k`: the bits move down `k` places, zeros come in at the top. */
  function Ushr(x: Word, k: nat): (r: Word)
    requires k < 32
    ensures r <= x
  {
    DivIsSmaller(x, Pow2(k));
    x / Pow2(k)
  }

  /** The widening conversion `(int) b` of a byte: sign extension. */
  function SignExtend(b: Byte): (r: Word)
    ensures r % 0x100 == b
    ensures r / 0x100 == (if b < 0x80 then 0 else 0xFF_FFFF)
    ensures Signed(r) == (if b < 0x80 then b else b - 0x100)
  {
    if b < 0x80 then b else b + 0xFFFF_FF00
  }

  /** The narrowing conversion `(byte) x`: the low eight bits. */
  function Narrow(x: Word): (r: Byte)
    ensures SignExtend(r) % 0x100 == x % 0x100
  {
    x % 0x100
  }

  /** Bit `i` of `x` is one. */
  predicate Bit(x: nat, i: nat)
    decreases i
  {
    if i == 0 then x % 2 == 1 else Bit(x / 2, i - 1)
  }

  /** The bitwise and `x & y`. */
  function And(x: nat, y: nat): (r: nat)
    ensures r <= x && r <= y
    decreases x
  {
    if x == 0 || y == 0 then 0
    else 2 * And(x / 2, y / 2) + (if x % 2 == 1 && y % 2 == 1 then 1 else 0)
  }

  /** The bitwise or `x | y`. */
  function Or(x: nat, y: nat): (r: nat)
    decreases x + y
  {
    if x == 0 then y
    else if y == 0 then x
    else 2 * Or(x / 2, y / 2) + (if x % 2 == 1 || y % 2 == 1 then 1 else 0)
  }

  /** Integer.bitCount: the number of one bits. */
  function BitCount(x: nat): nat
    decreases x
  {
    if x == 0 then 0 else x % 2 + BitCount(x / 2)
  }

  /** The text StringBuilder.append(int) adds for the number 0 or 1. */
  function DigitChar(d: nat): (c: char)
    requires d < 2
    ensures c == '0' || c == '1'
    ensures c == '1' <==> d == 1
  {
    if d == 0 then '0' else '1'
  }

  /** A string of the characters '0' and '1' only. */
  predicate IsBinaryText(s: string) {
    forall i :: 0 <= i < |s| ==> s[i] == '0' || s[i] == '1'
  }

  /** The low `n` bits of `x`, least significant first; `true` is a one bit. */
  function LowBits(x: nat, n: nat): (r: seq<bool>)
    ensures |r| == n
    ensures forall i :: 0 <= i < n ==> r[i] == Bit(x, i)
  {
    seq(n, i requires 0 <= i < n => Bit(x, i))
  }

  // ---------------------------------------------------------------------
  // Digit-by-digit facts about And, Or and BitCount.

  /** One digit of `x & y`: the low digit and the rest. */
  lemma AndStep(x: nat, y: nat)
    ensures And(x, y) % 2 == (if x % 2 == 1 && y % 2 == 1 then 1 else 0)
    ensures And(x, y) / 2 == And(x / 2, y / 2)
  {
  }

  /** Or-ing numbers with no one bit in common adds them. */
  lemma {:induction false} OrOfDisjoint(x: nat, y: nat)
    requires And(x, y) == 0
    ensures Or(x, y) == x + y
    decreases x + y
  {
    if x != 0 && y != 0 {
      AndStep(x, y);
      OrOfDisjoint(x / 2, y / 2);
    }
  }

  /** A number whose low `k` bits are zero has no bit in common with a number
      below 2^k. */
  lemma {:induction false} AndOfSeparated(x: nat, y: nat, k: nat)
    requires x % Pow2(k) == 0 && y < Pow2(k)
    ensures And(x, y) == 0
    decreases k
  {
    if k > 0 && x != 0 && y != 0 {
      PowHalf(x, k);
      AndOfSeparated(x / 2, y / 2, k - 1);
    }
  }

  /** `x & y == y & x`. */
  lemma {:induction false} AndCommutes(x: nat, y: nat)
    ensures And(x, y) == And(y, x)
    decreases x
  {
    if x != 0 && y != 0 {
      AndCommutes(x / 2, y / 2);
    }
  }

  /** Or-ing a digit into the free low bit of an even number adds it. */
  lemma OrLowDigit(v: nat, d: nat)
    requires v % 2 == 0 && d < 2
    ensures Or(v, d) == v + d
  {
    AndOfSeparated(v, d, 1);
    OrOfDisjoint(v, d);
  }

  /** And-ing with a number below 2^k sees only the low `k` bits. */
  lemma {:induction false} AndOfMod(x: nat, y: nat, k: nat)
    requires y < Pow2(k)
    ensures And(x % Pow2(k), y) == And(x, y)
    decreases k
  {
    if k > 0 {
      var a := And(x % Pow2(k), y);
      var b := And(x, y);
      PowHalf(x, k);
      AndStep(x % Pow2(k), y);
      AndStep(x, y);
      AndOfMod(x / 2, y / 2, k - 1);
      ModParts(a);
      ModParts(b);
    }
  }

  /** `x & 1` is the low bit. */
  lemma AndOne(x: nat)
    ensures And(x, 1) == x % 2
  {
    AndStep(x, 1);
  }

  /** 2^k - 1, the mask of the low `k` bits. */
  function Ones(k: nat): (m: nat)
    ensures m + 1 == Pow2(k)
    decreases k
  {
    if k == 0 then 0 else 2 * Ones(k - 1) + 1
  }

  /** And-ing with the mask of the low `k` bits keeps those bits. */
  lemma {:induction false} LowMask(x: nat, k: nat)
    ensures And(x, Ones(k)) == x % Pow2(k)
    decreases k
  {
    if k > 0 {
      var m := Ones(k);
      var a := And(x, m);
      var b := x % Pow2(k);
      assert m % 2 == 1 && m / 2 == Ones(k - 1);
      AndStep(x, m);
      LowMask(x / 2, k - 1);
      PowHalf(x, k);
      assert a % 2 == b % 2 && a / 2 == b / 2;
      ModParts(a);
      ModParts(b);
    }
  }

  /** `x & 0xff` is the low byte. */
  lemma AndByte(x: nat)
    ensures And(x, 0xFF) == x % 0x100
  {
    LowMask(x, 8);
  }

  /** A number is twice its half plus its low bit. */
  lemma ModParts(x: nat)
    ensures x == 2 * (x / 2) + x % 2
  {
  }

  // ---------------------------------------------------------------------
  // Division by powers of two.

  /** ModHalf for the powers of two. */
  lemma PowHalf(x: nat, k: nat)
    requires k > 0
    ensures 0 <= x % Pow2(k) < Pow2(k) && x / Pow2(k) >= 0
    ensures (x % Pow2(k)) % 2 == x % 2
    ensures (x % Pow2(k)) / 2 == (x / 2) % Pow2(k - 1)
    ensures x / Pow2(k) == (x / 2) / Pow2(k - 1)
  {
    DivModDefinition(x, Pow2(k));
    DivModDefinition(x / 2, Pow2(k - 1));
    ModHalf(x, Pow2(k - 1));
  }

  /** Halving commutes with reduction modulo an even number. */
  lemma ModHalf(x: nat, p: nat)
    requires p >= 1
    ensures (x % (2 * p)) % 2 == x % 2
    ensures (x % (2 * p)) / 2 == (x / 2) % p
    ensures x / (2 * p) == (x / 2) / p
  {
    DivModDefinition(x, 2 * p);
    var q := x / (2 * p);
    var r := x % (2 * p);
    var t := p * q;
    assert x == 2 * t + r by {
      MulAssociative(2, p, q);
    }
    var s := r / 2;
    assert x == 2 * (t + s) + r % 2;
    DivModOfMultiple(s, p, q);
  }

  lemma DivModDefinition(x: nat, d: nat)
    requires d >= 1
    ensures x == d * (x / d) + x % d && 0 <= x % d < d && x / d >= 0
  {
  }

  lemma MulAssociative(a: int, b: int, c: int)
    ensures (a * b) * c == a * (b * c)
  {
  }

  /** Quotient and remainder of `p * q + s` by `p` when `s < p`. */
  lemma DivModOfMultiple(s: nat, p: nat, q: nat)
    requires s < p
    ensures (p * q + s) / p == q
    ensures (p * q + s) % p == s
  {
    var t := p * q + s;
    var q' := t / p;
    DivModDefinition(t, p);
    if q' > q {
      MulMonotone(p, q + 1, q');
      assert false;
    } else if q' < q {
      MulMonotone(p, q' + 1, q);
      assert false;
    }
  }

  /** Dividing by a positive number does not make a number larger. */
  lemma DivIsSmaller(x: nat, d: nat)
    requires d >= 1
    ensures 0 <= x / d <= x
  {
    DivModDefinition(x, d);
    MulMonotone(x / d, 1, d);
  }

  lemma MulMonotone(p: nat, a: nat, b: nat)
    requires a <= b
    ensures p * a <= p * b
  {
  }

  /** Bit `i` of `x` survives reduction modulo 2^k when `i < k`. */
  lemma {:induction false} BitOfMod(x: nat, k: nat, i: nat)
    requires i < k
    ensures Bit(x % Pow2(k), i) == Bit(x, i)
    decreases i
  {
    PowHalf(x, k);
    if i > 0 {
      BitOfMod(x / 2, k - 1, i - 1);
    }
  }

  /** The low `n` bits of `x` are those of `x % 2^k` when `n <= k`. */
  lemma LowBitsOfMod(x: nat, k: nat, n: nat)
    requires n <= k
    ensures LowBits(x % Pow2(k), n) == LowBits(x, n)
  {
    forall i | 0 <= i < n
      ensures Bit(x % Pow2(k), i) == Bit(x, i)
    {
      BitOfMod(x, k, i);
    }
  }

  /** Zero has no one bit. */
  lemma {:induction false} BitOfZero(i: nat)
    ensures !Bit(0, i)
    decreases i
  {
    if i > 0 {
      BitOfZero(i - 1);
    }
  }

  /** The low bits of `x` are its lowest bit followed by the low bits of
      `x / 2`. */
  lemma LowBitsCons(x: nat, n: nat)
    requires n > 0
    ensures LowBits(x, n) == [x % 2 == 1] + LowBits(x / 2, n - 1)
  {
    assert LowBits(x, n)[0] == Bit(x, 0);
  }
}
