/** The rate-1/3, constraint-length-9 convolutional encoder of the reverse
    CDMA channel of TIA/EIA-95 (section 6.1.3.1, convolutional encoding),
    with generator polynomials octal 557, 663 and 711, and the driver that
    runs it over the pixels of an image.

    The encoder sees a 9-bit window: bit 8 is the input bit being encoded and
    bits 7..0 are the eight previous input bits, bit 0 the oldest. Each step
    emits one group of characters: g0, then (when the encoder is built with
    output bits) the oldest window bit, then g1 and g2. */
module EncoderIS95 {
  import opened JavaInt
  import opened BinaryText
  import opened Raster

  /** IS95_DELAY: the number of previous input bits held in the register. */
  const Delay: nat := 8

  /** An IS-95 encoder; `withOutputBits` is WITH_OUTPUT_BITS. */
  datatype Encoder = Encoder(withOutputBits: bool) {

    /** IS95_OUTPUT_LENGTH: characters emitted per input bit. */
    function OutputLength(): nat {
      if withOutputBits then 4 else 3
    }
  }

  /** The encoder as the repository builds it: WITH_OUTPUT_BITS is true. */
  const IS95: Encoder := Encoder(true)

  /** Generator masks: octal 557, 663 and 711. */
  const G0Mask: nat := 0x16F
  const G1Mask: nat := 0x1B3
  const G2Mask: nat := 0x1C9

  /** g0: the parity of the window bits tapped by octal 557. */
  function G0(window: Word): (r: nat)
    ensures r < 2
  {
    BitCount(And(window, G0Mask)) % 2
  }

  /** g1: the parity of the window bits tapped by octal 663. */
  function G1(window: Word): (r: nat)
    ensures r < 2
  {
    BitCount(And(window, G1Mask)) % 2
  }

  /** g2: the parity of the window bits tapped by octal 711. */
  function G2(window: Word): (r: nat)
    ensures r < 2
  {
    BitCount(And(window, G2Mask)) % 2
  }

  /** Bit `i` of `x` as a number. */
  function BitValue(x: nat, i: nat): (d: nat)
    ensures d < 2 && (d == 1 <==> Bit(x, i))
  {
    if Bit(x, i) then 1 else 0
  }

  /** The number of places where both `x` and the mask `m` have a one bit. */
  function TapCount(x: nat, m: nat): nat
    decreases m
  {
    if m == 0 then 0
    else (if x % 2 == 1 && m % 2 == 1 then 1 else 0) + TapCount(x / 2, m / 2)
  }

  /** One when bit `i` is one in both `x` and `m`. */
  function Tap(x: nat, m: nat, i: nat): (d: nat)
    ensures d == (if Bit(m, i) then BitValue(x, i) else 0)
  {
    if Bit(x, i) && Bit(m, i) then 1 else 0
  }

  /** The same count taken over the bit positions below `n`, highest first. */
  function TapSum(x: nat, m: nat, n: nat): nat
    decreases n
  {
    if n == 0 then 0 else Tap(x, m, n - 1) + TapSum(x, m, n - 1)
  }

  lemma {:induction false} BitCountOfAnd(x: nat, m: nat)
    ensures BitCount(And(x, m)) == TapCount(x, m)
    decreases m
  {
    if m != 0 {
      AndStep(x, m);
      BitCountOfAnd(x / 2, m / 2);
      assert BitCount(And(x, m)) == And(x, m) % 2 + BitCount(And(x, m) / 2);
    }
  }

  lemma TapCountStep(x: nat, m: nat)
    ensures TapCount(x, m) == Tap(x, m, 0) + TapCount(x / 2, m / 2)
  {
  }

  lemma TapStep(x: nat, m: nat, i: nat)
    ensures Tap(x, m, i + 1) == Tap(x / 2, m / 2, i)
  {
  }

  lemma {:induction false} TapSumLow(x: nat, m: nat, n: nat)
    requires n > 0
    ensures TapSum(x, m, n) == Tap(x, m, 0) + TapSum(x / 2, m / 2, n - 1)
    decreases n
  {
    if n > 1 {
      TapSumLow(x, m, n - 1);
      TapStep(x, m, n - 2);
    }
  }

  /** Counting taps bit by bit from the bottom or position by position
      agrees for a mask below 2^n. */
  lemma {:induction false} TapCountUpTo(x: nat, m: nat, n: nat)
    requires m < Pow2(n)
    ensures TapCount(x, m) == TapSum(x, m, n)
    decreases n
  {
    TapCountStep(x, m);
    if n > 0 {
      TapCountUpTo(x / 2, m / 2, n - 1);
      TapSumLow(x, m, n);
    }
  }

  /** The tap count of a 9-bit mask written out position by position. */
  lemma TapCountNine(x: nat, m: nat)
    requires m < 512
    ensures TapCount(x, m) ==
      Tap(x, m, 0) + Tap(x, m, 1) + Tap(x, m, 2)
      + Tap(x, m, 3) + Tap(x, m, 4) + Tap(x, m, 5)
      + Tap(x, m, 6) + Tap(x, m, 7) + Tap(x, m, 8)
  {
    TapCountUpTo(x, m, 9);
  }

  /** g0 is the exclusive or of window bits 8, 6, 5, 3, 2, 1 and 0. */
  lemma G0IsTapXor(x: Word)
    ensures G0(x) == (BitValue(x, 8) + BitValue(x, 6) + BitValue(x, 5) + BitValue(x, 3)
                      + BitValue(x, 2) + BitValue(x, 1) + BitValue(x, 0)) % 2
  {
    BitCountOfAnd(x, G0Mask);
    TapCountNine(x, G0Mask);
  }

  /** g1 is the exclusive or of window bits 8, 7, 5, 4, 1 and 0. */
  lemma G1IsTapXor(x: Word)
    ensures G1(x) == (BitValue(x, 8) + BitValue(x, 7) + BitValue(x, 5) + BitValue(x, 4)
                      + BitValue(x, 1) + BitValue(x, 0)) % 2
  {
    BitCountOfAnd(x, G1Mask);
    TapCountNine(x, G1Mask);
  }

  /** g2 is the exclusive or of window bits 8, 7, 6, 3 and 0. */
  lemma G2IsTapXor(x: Word)
    ensures G2(x) == (BitValue(x, 8) + BitValue(x, 7) + BitValue(x, 6) + BitValue(x, 3)
                      + BitValue(x, 0)) % 2
  {
    BitCountOfAnd(x, G2Mask);
    TapCountNine(x, G2Mask);
  }

  /** The parities see only the nine window bits. */
  lemma ParitiesSeeNineBits(x: Word)
    ensures G0(x) == G0(x % 512) && G1(x) == G1(x % 512) && G2(x) == G2(x % 512)
  {
    AndOfMod(x, G0Mask, 9);
    AndOfMod(x, G1Mask, 9);
    AndOfMod(x, G2Mask, 9);
  }

  // ---------------------------------------------------------------------
  // The bit-serial encoder.

  /** The characters one encoding step appends for the window `w`: g0, the
      oldest window bit when the encoder emits output bits, g1 and g2. */
  function Group(enc: Encoder, w: Word): (r: string)
    ensures |r| == enc.OutputLength() && IsBinaryText(r)
  {
    [DigitChar(G0(w))] + (if enc.withOutputBits then [DigitChar(w % 2)] else [])
      + [DigitChar(G1(w)), DigitChar(G2(w))]
  }

  /** A group depends on the nine window bits only. */
  lemma GroupSeesNineBits(enc: Encoder, x: Word)
    ensures Group(enc, x) == Group(enc, x % 512)
  {
    ParitiesSeeNineBits(x);
    ModHalf(x, 256);
  }

  /** The value of a text with one more digit. */
  lemma BinaryValueSnoc(t: string, d: nat)
    requires d < 2
    ensures BinaryValue(t + [DigitChar(d)]) == 2 * BinaryValue(t) + d
  {
    assert (t + [DigitChar(d)])[..|t|] == t;
  }

  /** A group read as a binary number, first character most significant:
      with output bits g0 weighs 8, the oldest window bit 4, g1 2 and g2 1;
      without them g0 weighs 4. */
  lemma GroupValue(enc: Encoder, w: Word)
    ensures BinaryValue(Group(enc, w)) == if enc.withOutputBits
      then 8 * G0(w) + 4 * (w % 2) + 2 * G1(w) + G2(w)
      else 4 * G0(w) + 2 * G1(w) + G2(w)
  {
    var c0 := [DigitChar(G0(w))];
    assert [] + [DigitChar(G0(w))] == c0;
    BinaryValueSnoc([], G0(w));
    var v1 := if enc.withOutputBits then 2 * G0(w) + w % 2 else G0(w);
    var c1 := if enc.withOutputBits then c0 + [DigitChar(w % 2)] else c0;
    if enc.withOutputBits {
      BinaryValueSnoc(c0, w % 2);
    }
    assert BinaryValue(c1) == v1;
    var c2 := c1 + [DigitChar(G1(w))];
    BinaryValueSnoc(c1, G1(w));
    assert Group(enc, w) == c2 + [DigitChar(G2(w))];
    BinaryValueSnoc(c2, G2(w));
  }

  /** The window for input bit `b` above the register `reg`. */
  function Window(reg: Byte, b: bool): (w: Word)
    ensures w < 512 && w % 256 == reg && (w / 256 == 1 <==> b)
  {
    reg + (if b then 256 else 0)
  }

  /** The register after input bit `b`: the window moved one place right, so
      the input becomes bit 7 and the oldest bit drops out. */
  function NextRegister(reg: Byte, b: bool): (r: Byte)
    ensures r % 128 == reg / 2 && (r / 128 == 1 <==> b)
  {
    Window(reg, b) / 2
  }

  /** The bit-serial encoder: each input bit enters the window above the
      register `reg`, the group for that window is emitted, and the window
      moved one place right is the next register. */
  function SerialEncode(enc: Encoder, reg: Byte, bits: seq<bool>): (r: string)
    ensures IsBinaryText(r)
    decreases |bits|
  {
    if bits == [] then []
    else Group(enc, Window(reg, bits[0])) + SerialEncode(enc, NextRegister(reg, bits[0]), bits[1..])
  }

  /** The register of the bit-serial encoder after it has consumed `bits`. */
  function SerialRegister(reg: Byte, bits: seq<bool>): (r: Byte)
    decreases |bits|
  {
    if bits == [] then reg else SerialRegister(NextRegister(reg, bits[0]), bits[1..])
  }

  /** Running the bit-serial encoder over two streams in turn is running it
      over their concatenation. */
  lemma {:induction false} SerialEncodeAppend(enc: Encoder, reg: Byte, a: seq<bool>, b: seq<bool>)
    ensures SerialEncode(enc, reg, a + b)
         == SerialEncode(enc, reg, a) + SerialEncode(enc, SerialRegister(reg, a), b)
    decreases |a|
  {
    if a == [] {
      assert a + b == b;
    } else {
      assert (a + b)[0] == a[0];
      assert (a + b)[1..] == a[1..] + b;
      SerialEncodeAppend(enc, NextRegister(reg, a[0]), a[1..], b);
    }
  }

  /** The register after two streams in turn is the register after their
      concatenation. */
  lemma {:induction false} SerialRegisterAppend(reg: Byte, a: seq<bool>, b: seq<bool>)
    ensures SerialRegister(reg, a + b) == SerialRegister(SerialRegister(reg, a), b)
    decreases |a|
  {
    if a == [] {
      assert a + b == b;
    } else {
      assert (a + b)[0] == a[0];
      assert (a + b)[1..] == a[1..] + b;
      SerialRegisterAppend(NextRegister(reg, a[0]), a[1..], b);
    }
  }

  /** The bit-serial encoder emits one group per input bit. */
  lemma {:induction false} SerialEncodeLength(enc: Encoder, reg: Byte, bits: seq<bool>)
    ensures |SerialEncode(enc, reg, bits)| == |bits| * enc.OutputLength()
    decreases |bits|
  {
    if bits != [] {
      SerialEncodeLength(enc, NextRegister(reg, bits[0]), bits[1..]);
      assert (|bits| - 1) * enc.OutputLength() + enc.OutputLength() == |bits| * enc.OutputLength();
    }
  }

  /** The first step of the bit-serial encoder. */
  lemma SerialCons(enc: Encoder, reg: Byte, b: bool, rest: seq<bool>)
    ensures SerialEncode(enc, reg, [b] + rest)
         == Group(enc, Window(reg, b)) + SerialEncode(enc, NextRegister(reg, b), rest)
  {
    assert ([b] + rest)[0] == b;
    assert ([b] + rest)[1..] == rest;
  }

  /** The register after the first step of the bit-serial encoder. */
  lemma RegisterCons(reg: Byte, b: bool, rest: seq<bool>)
    ensures SerialRegister(reg, [b] + rest) == SerialRegister(NextRegister(reg, b), rest)
  {
    assert ([b] + rest)[0] == b;
    assert ([b] + rest)[1..] == rest;
  }

  /** Bits 0..8 of a register word are the window of its low byte and bit 8. */
  lemma WindowOfWord(x: nat)
    ensures Window(x % 256, Bit(x / 256, 0)) == x % 512
    ensures NextRegister(x % 256, Bit(x / 256, 0)) == (x / 2) % 256
    ensures (x / 256) / 2 == (x / 2) / 256
  {
    DivModDefinition(x, 512);
    var q := x / 512;
    var a := x % 512;
    DivModDefinition(a, 256);
    DivModOfMultiple(a % 256, 256, 2 * q + a / 256);
    DivModDefinition(a, 2);
    DivModOfMultiple(a / 2, 256, q);
  }

  // ---------------------------------------------------------------------
  // encode24bits.

  /** The text the last `m` passes of encode24bits emit from the word `x`:
      the bit-serial encoding of the next `m` bits above bit 7 of `x` from
      the register in its low byte. */
  function Passes(enc: Encoder, x: Word, m: nat): string {
    SerialEncode(enc, x % 256, LowBits(x / 256, m))
  }

  /** The register after the last `m` passes of encode24bits from `x`. */
  function PassesRegister(x: Word, m: nat): Byte {
    SerialRegister(x % 256, LowBits(x / 256, m))
  }

  /** One pass of the loop of encode24bits on the word `x` is one step of
      the bit-serial encoder: bits 0..7 of `x` are the register and bits 8
      and up the input still to come. */
  lemma SerialStep(enc: Encoder, x: Word, m: nat)
    requires m > 0
    ensures Passes(enc, x, m) == Group(enc, x) + Passes(enc, x / 2, m - 1)
  {
    LowBitsCons(x / 256, m);
    WindowOfWord(x);
    SerialCons(enc, x % 256, Bit(x / 256, 0), LowBits((x / 256) / 2, m - 1));
    GroupSeesNineBits(enc, x);
  }

  /** The register after one pass of the loop of encode24bits. */
  lemma RegisterStep(x: Word, m: nat)
    requires m > 0
    ensures PassesRegister(x, m) == PassesRegister(x / 2, m - 1)
  {
    LowBitsCons(x / 256, m);
    WindowOfWord(x);
    RegisterCons(x % 256, Bit(x / 256, 0), LowBits((x / 256) / 2, m - 1));
  }

  /** encode24bits: 24 passes, each appending g0, the oldest window bit (with
      output bits), g1 and g2 of the word and then moving it one place right.
      The text is the bit-serial encoding of bits 8..31 of `rgbLsr` from the
      register held in its low byte. */
  method Encode24Bits(enc: Encoder, rgbLsr: Word) returns (s: string)
    ensures s == SerialEncode(enc, rgbLsr % 256, LowBits(rgbLsr / 256, BitsPerPixel))
  {
    var x := rgbLsr;
    s := [];
    for i := 0 to BitsPerPixel
      invariant s + Passes(enc, x, BitsPerPixel - i) == Passes(enc, rgbLsr, BitsPerPixel)
    {
      var group := EncodeWindow(enc, x);
      PassStep(enc, s, x, BitsPerPixel - i, Passes(enc, rgbLsr, BitsPerPixel));
      s := s + group;
      x := Ushr(x, 1);
    }
    assert LowBits(x / 256, 0) == [];
  }

  /** What is left to emit after one more pass of encode24bits. */
  lemma PassStep(enc: Encoder, s: string, x: Word, m: nat, target: string)
    requires m > 0
    requires s + Passes(enc, x, m) == target
    ensures (s + Group(enc, x)) + Passes(enc, x / 2, m - 1) == target
  {
    SerialStep(enc, x, m);
    assert s + (Group(enc, x) + Passes(enc, x / 2, m - 1)) == (s + Group(enc, x)) + Passes(enc, x / 2, m - 1);
  }

  /** The appends of one pass of encode24bits for the word `x`: read as a
      binary number they are the symbol fillLUT builds for the window, the
      nine low bits of `x`, and nothing above them matters. */
  method EncodeWindow(enc: Encoder, x: Word) returns (group: string)
    ensures group == Group(enc, x) && group == Group(enc, x % 512)
    ensures BinaryValue(group) == if enc.withOutputBits
      then 8 * G0(x % 512) + 4 * (x % 2) + 2 * G1(x % 512) + G2(x % 512)
      else 4 * G0(x % 512) + 2 * G1(x % 512) + G2(x % 512)
  {
    AndOne(x);
    GroupSeesNineBits(enc, x);
    ParitiesSeeNineBits(x);
    GroupValue(enc, x);
    group := [DigitChar(G0(x))];
    if enc.withOutputBits {
      group := group + [DigitChar(And(x, 1))];
    }
    group := group + [DigitChar(G1(x))];
    group := group + [DigitChar(G2(x))];
  }

  /** The register the bit-serial encoder ends in after `n` input bits taken
      from bits 8 and up of `x`: the low byte of `x` moved `n` places right. */
  lemma {:induction false} RegisterIsShift(x: Word, n: nat)
    ensures PassesRegister(x, n) == (x / Pow2(n)) % 256
    decreases n
  {
    if n == 0 {
      assert LowBits(x / 256, n) == [];
    } else {
      RegisterStep(x, n);
      RegisterIsShift(x / 2, n - 1);
      PowHalf(x, n);
    }
  }

  // ---------------------------------------------------------------------
  // encode: the walk over the pixels.

  /** The input bits of a pixel: its 24 colour bits, least significant first. */
  function PixelBits(rgb: Word): (r: seq<bool>)
    ensures |r| == BitsPerPixel
  {
    LowBits(rgb, BitsPerPixel)
  }

  /** The input stream of an image: the pixel bits of every pixel in turn. */
  function StreamBits(pixels: seq<Word>): (r: seq<bool>)
    decreases |pixels|
  {
    if pixels == [] then []
    else StreamBits(pixels[..|pixels| - 1]) + PixelBits(pixels[|pixels| - 1])
  }

  /** Every pixel puts 24 bits into the stream. */
  lemma {:induction false} StreamBitsLength(pixels: seq<Word>)
    ensures |StreamBits(pixels)| == |pixels| * BitsPerPixel
    decreases |pixels|
  {
    if pixels != [] {
      StreamBitsLength(pixels[..|pixels| - 1]);
    }
  }

  /** The stream of one more pixel is the stream so far followed by that
      pixel's bits. */
  lemma StreamBitsSnoc(pixels: seq<Word>, k: nat)
    requires k < |pixels|
    ensures StreamBits(pixels[..k + 1]) == StreamBits(pixels[..k]) + PixelBits(pixels[k])
  {
    var prefix := pixels[..k + 1];
    assert prefix[..|prefix| - 1] == pixels[..k];
  }

  /** `rgb << 8` keeps the 24 colour bits, moved up a byte. */
  lemma ShiftedPixel(rgb: Word)
    ensures Shl(rgb, 8) == 256 * (rgb % 0x100_0000)
  {
    var q := rgb / 0x100_0000;
    var c := rgb % 0x100_0000;
    assert rgb * 256 == TwoTo32 * q + 256 * c;
    DivModOfMultiple(256 * c, TwoTo32, q);
  }

  /** The word encode hands to encode24bits: the colour bits of `rgb` in bits
      8..31 and the carried byte, its sign extension masked off, in bits 0..7. */
  lemma PixelWord(rgb: Word, lsr: Byte)
    ensures Or(Shl(rgb, 8), And(SignExtend(lsr), 0xFF)) == 256 * (rgb % 0x100_0000) + lsr
  {
    ShiftedPixel(rgb);
    AndByte(SignExtend(lsr));
    AndOfSeparated(Shl(rgb, 8), lsr, 8);
    OrOfDisjoint(Shl(rgb, 8), lsr);
  }

  /** The byte encode carries on, `(byte) (rgb >>> 24)` of the shifted word,
      is bits 16..23 of the pixel. */
  lemma CarriedByte(rgb: Word)
    ensures Narrow(Ushr(Shl(rgb, 8), 24)) == (rgb % 0x100_0000) / 0x1_0000
  {
    var c := rgb % 0x100_0000;
    Pow2Values();
    ShiftedPixel(rgb);
    DivModOfMultiple(256 * (c % 0x1_0000), 0x100_0000, c / 0x1_0000);
  }

  /** The colour bits of a pixel are those of its low 24 bits. */
  lemma ColourBits(rgb: Word)
    ensures LowBits(rgb % 0x100_0000, BitsPerPixel) == PixelBits(rgb)
  {
    Pow2Values();
    LowBitsOfMod(rgb, 24, BitsPerPixel);
  }

  /** The word encode hands to encode24bits holds the carried register in
      its low byte and the pixel's colour bits above it. */
  lemma PixelWordParts(rgb: Word, lsr: Byte)
    ensures Or(Shl(rgb, 8), And(SignExtend(lsr), 0xFF)) < TwoTo32
    ensures Or(Shl(rgb, 8), And(SignExtend(lsr), 0xFF)) % 256 == lsr
    ensures Or(Shl(rgb, 8), And(SignExtend(lsr), 0xFF)) / 256 == rgb % 0x100_0000
  {
    PixelWord(rgb, lsr);
    DivModOfMultiple(lsr, 256, rgb % 0x100_0000);
  }

  /** After the pixel bits of `c`, a colour below 2^24, the register holds
      its top byte, bits 16..23. */
  lemma PixelRegister(c: nat, lsr: Byte)
    requires c < 0x100_0000
    ensures SerialRegister(lsr, LowBits(c, BitsPerPixel)) == c / 0x1_0000
  {
    var x := 256 * c + lsr;
    DivModOfMultiple(lsr, 256, c);
    RegisterIsShift(x, BitsPerPixel);
    Pow2Values();
    DivModDefinition(c, 0x1_0000);
    DivModOfMultiple(256 * (c % 0x1_0000) + lsr, 0x100_0000, c / 0x1_0000);
  }

  /** Appending the next pixel of the walk extends the bit-serial encoding by
      that pixel's bits. */
  lemma StreamStep(enc: Encoder, pixels: seq<Word>, k: nat, lsr: Byte)
    requires k < |pixels|
    requires lsr == SerialRegister(0, StreamBits(pixels[..k]))
    ensures SerialEncode(enc, 0, StreamBits(pixels[..k + 1]))
         == SerialEncode(enc, 0, StreamBits(pixels[..k])) + SerialEncode(enc, lsr, PixelBits(pixels[k]))
    ensures SerialRegister(0, StreamBits(pixels[..k + 1])) == SerialRegister(lsr, PixelBits(pixels[k]))
  {
    StreamBitsSnoc(pixels, k);
    SerialEncodeAppend(enc, 0, StreamBits(pixels[..k]), PixelBits(pixels[k]));
    SerialRegisterAppend(0, StreamBits(pixels[..k]), PixelBits(pixels[k]));
  }

  /** EncoderIS95.encode: walks the image row by row, each row left to right,
      and encodes each pixel's 24 colour bits with the register carried over
      from the pixel before (`lsr`, zero at the start). The whole text is the
      bit-serial encoding, from register 0, of the image's stream of colour
      bits; a null image is refused. */
  method Encode(enc: Encoder, inImg: Option<Image>) returns (r: Result<string>)
    requires inImg.Some? ==> inImg.value.Valid()
    ensures inImg.None? <==> r == Throws(NullPointer)
    ensures inImg.Some? ==> r == Ok(SerialEncode(enc, 0, StreamBits(inImg.value.pixels)))
  {
    if inImg.None? {
      return Throws(NullPointer);
    }
    var img := inImg.value;
    var sb: string := [];
    var lsr: Byte := 0;
    var k: nat := 0;  // the pixels done so far
    var h: nat := 0;
    while h < img.height
      invariant 0 <= h <= img.height
      invariant k == h * img.width
      invariant k <= |img.pixels|
      invariant sb == SerialEncode(enc, 0, StreamBits(img.pixels[..k]))
      invariant lsr == SerialRegister(0, StreamBits(img.pixels[..k]))
    {
      RowEndInRange(h, img.width, img.height);
      sb, lsr := EncodeRow(enc, img, h, k, sb, lsr);
      k := k + img.width;
      h := h + 1;
    }
    assert k == |img.pixels| by {
      assert k == img.height * img.width;
    }
    assert img.pixels[..k] == img.pixels;
    return Ok(sb);
  }

  /** The inner loop of encode over row `h`, whose first pixel is pixel `k`
      of the image. */
  method EncodeRow(enc: Encoder, img: Image, h: nat, k: nat, sb0: string, lsr0: Byte)
    returns (sb: string, lsr: Byte)
    requires img.Valid() && h < img.height && k == h * img.width
    requires k + img.width <= |img.pixels|
    requires sb0 == SerialEncode(enc, 0, StreamBits(img.pixels[..k]))
    requires lsr0 == SerialRegister(0, StreamBits(img.pixels[..k]))
    ensures sb == SerialEncode(enc, 0, StreamBits(img.pixels[..k + img.width]))
    ensures lsr == SerialRegister(0, StreamBits(img.pixels[..k + img.width]))
  {
    sb, lsr := sb0, lsr0;
    var w := 0;
    while w < img.width
      invariant 0 <= w <= img.width
      invariant sb == SerialEncode(enc, 0, StreamBits(img.pixels[..k + w]))
      invariant lsr == SerialRegister(0, StreamBits(img.pixels[..k + w]))
    {
      var rgb := img.GetRgb(w, h);
      assert rgb == img.pixels[k + w];
      sb, lsr := EncodePixel(enc, img.pixels, k + w, rgb, sb, lsr);
      w := w + 1;
    }
  }

  /** The body of the inner loop of encode for `rgb`, pixel `k` of the
      image: the colour bits move up eight places, the carried byte fills
      the low eight, encode24bits appends its groups, and the top byte of the
      shifted word is carried on. */
  method EncodePixel(enc: Encoder, pixels: seq<Word>, k: nat, rgb0: Word, sb0: string, lsr0: Byte)
    returns (sb: string, lsr: Byte)
    requires k < |pixels| && rgb0 == pixels[k]
    requires sb0 == SerialEncode(enc, 0, StreamBits(pixels[..k]))
    requires lsr0 == SerialRegister(0, StreamBits(pixels[..k]))
    ensures sb == SerialEncode(enc, 0, StreamBits(pixels[..k + 1]))
    ensures lsr == SerialRegister(0, StreamBits(pixels[..k + 1]))
  {
    StreamStep(enc, pixels, k, lsr0);
    PixelWordParts(rgb0, lsr0);
    ColourBits(rgb0);
    CarriedByte(rgb0);
    PixelRegister(rgb0 % 0x100_0000, lsr0);
    var rgb := Shl(rgb0, 8);
    var text := Encode24Bits(enc, Or(rgb, And(SignExtend(lsr0), 0xFF)));
    sb := sb0 + text;
    lsr := Narrow(Ushr(rgb, 24));
  }

  /** The pixel count after row `h` of a `width` by `height` image. */
  lemma RowEndInRange(h: nat, width: nat, height: nat)
    requires h < height
    ensures h * width + width == (h + 1) * width <= width * height
  {
    MulMonotone(width, h + 1, height);
  }

  // ---------------------------------------------------------------------
  // Properties of the encoded text.

  /** The text of a whole image has 24 groups per pixel. */
  lemma TextLength(enc: Encoder, img: Image)
    requires img.Valid()
    ensures |SerialEncode(enc, 0, StreamBits(img.pixels))|
         == img.width * img.height * BitsPerPixel * enc.OutputLength()
  {
    StreamBitsLength(img.pixels);
    SerialEncodeLength(enc, 0, StreamBits(img.pixels));
  }

  /** Two pixel sequences that agree in the colour bits of every pixel have
      the same stream, whatever their alpha bytes. */
  lemma {:induction false} StreamSeesColourOnly(ps: seq<Word>, qs: seq<Word>)
    requires |ps| == |qs|
    requires forall k :: 0 <= k < |ps| ==> ps[k] % 0x100_0000 == qs[k] % 0x100_0000
    ensures StreamBits(ps) == StreamBits(qs)
    decreases |ps|
  {
    if ps != [] {
      var n := |ps| - 1;
      StreamSeesColourOnly(ps[..n], qs[..n]);
      Pow2Values();
      LowBitsOfMod(ps[n], 24, BitsPerPixel);
      LowBitsOfMod(qs[n], 24, BitsPerPixel);
    }
  }

  /** A text of only '0' characters. */
  predicate IsZeroText(s: string) {
    forall i :: 0 <= i < |s| ==> s[i] == '0'
  }

  /** From register 0, an input of zero bits encodes to zeros only. */
  lemma {:induction false} ZeroBitsEncodeToZeros(enc: Encoder, bits: seq<bool>)
    requires forall i :: 0 <= i < |bits| ==> !bits[i]
    ensures IsZeroText(SerialEncode(enc, 0, bits))
    ensures SerialRegister(0, bits) == 0
    decreases |bits|
  {
    if bits != [] {
      assert !bits[0];
      assert G0(0) == 0 && G1(0) == 0 && G2(0) == 0;
      ZeroBitsEncodeToZeros(enc, bits[1..]);
    }
  }

  /** An image whose pixels all have zero colour bits has zero bits only in
      its stream. */
  lemma {:induction false} BlackStreamIsZero(pixels: seq<Word>)
    requires forall k :: 0 <= k < |pixels| ==> pixels[k] % 0x100_0000 == 0
    ensures forall i :: 0 <= i < |StreamBits(pixels)| ==> !StreamBits(pixels)[i]
    decreases |pixels|
  {
    if pixels != [] {
      var n := |pixels| - 1;
      BlackStreamIsZero(pixels[..n]);
      Pow2Values();
      LowBitsOfMod(pixels[n], 24, BitsPerPixel);
      var a := StreamBits(pixels[..n]);
      var b := PixelBits(pixels[n]);
      assert StreamBits(pixels) == a + b;
      forall i | 0 <= i < |a + b|
        ensures !(a + b)[i]
      {
        if i >= |a| {
          BitOfZero(i - |a|);
        }
      }
    }
  }

  /** An image whose pixels all have zero colour bits encodes to '0'
      characters only. */
  lemma BlackImageEncodesToZeros(enc: Encoder, pixels: seq<Word>)
    requires forall k :: 0 <= k < |pixels| ==> pixels[k] % 0x100_0000 == 0
    ensures IsZeroText(SerialEncode(enc, 0, StreamBits(pixels)))
  {
    BlackStreamIsZero(pixels);
    ZeroBitsEncodeToZeros(enc, StreamBits(pixels));
  }
}
