/** The plain (uncoded) encoder: every pixel of the image, row by row, as
    the binary digits of its colour, red first. */
module PlainEncoder {
  import opened JavaInt
  import opened BinaryText
  import opened Raster

  /** The digits one pixel contributes: toBinaryString of the pixel, less
      its first eight digits; a pixel with fewer than eight digits makes
      substring(8) throw StringIndexOutOfBoundsException. */
  function PixelText(rgb: Word): (r: Result<string>)
    ensures r.Ok? || r == Throws(IndexOutOfBounds)
    ensures r.Ok? ==> IsBinaryText(r.value)
  {
    var t := Binary(rgb);
    if |t| < 8 then Throws(IndexOutOfBounds) else Ok(t[8..])
  }

  /** The text of a sequence of pixels in turn; the first pixel whose digits
      cannot be cut ends it with the exception. */
  function PlainText(pixels: seq<Word>): (r: Result<string>)
    ensures r.Ok? || r == Throws(IndexOutOfBounds)
    ensures r.Ok? ==> IsBinaryText(r.value)
    decreases |pixels|
  {
    if pixels == [] then Ok([])
    else match PlainText(pixels[..|pixels| - 1])
      case Throws(e) => Throws(e)
      case Ok(t) =>
        match PixelText(pixels[|pixels| - 1])
        case Throws(e) => Throws(e)
        case Ok(p) => Ok(t + p)
  }

  /** encode: null is a NullPointerException; otherwise the pixels row by
      row, left to right, each as PixelText. */
  method Encode(inImg: Option<Image>) returns (r: Result<string>)
    requires inImg.Some? ==> inImg.value.Valid()
    ensures inImg.None? <==> r == Throws(NullPointer)
    ensures inImg.Some? ==> r == PlainText(inImg.value.pixels)
  {
    if inImg.None? {
      return Throws(NullPointer);
    }
    var img := inImg.value;
    var sb: string := [];
    var h := 0;
    while h < img.height
      invariant h <= img.height
      invariant PlainText(img.pixels[..h * img.width]) == Ok(sb)
    {
      RowInImage(h, img.width, img.height);
      var row := EncodeRow(img, h, sb);
      if row.Throws? {
        PlainTextThrowsExtends(img.pixels, (h + 1) * img.width);
        return row;
      }
      sb := row.value;
      h := h + 1;
    }
    assert img.pixels[..img.height * img.width] == img.pixels;
    r := Ok(sb);
  }

  /** The inner loop of encode: the pixels of row `h` appended to `sb0`. */
  method EncodeRow(img: Image, h: nat, sb0: string) returns (r: Result<string>)
    requires img.Valid() && h < img.height
    requires h * img.width + img.width <= |img.pixels|
    requires PlainText(img.pixels[..h * img.width]) == Ok(sb0)
    ensures r == PlainText(img.pixels[..h * img.width + img.width])
  {
    MulMonotone(h, 0, img.width);
    var start: nat := h * img.width;
    var sb := sb0;
    for w := 0 to img.width
      invariant PlainText(img.pixels[..start + w]) == Ok(sb)
    {
      var next := AppendPixel(img, h, w, start, sb);
      if next.Throws? {
        PrefixThrows(img.pixels, start + w + 1, start + img.width);
        return next;
      }
      sb := next.value;
    }
    r := Ok(sb);
  }

  /** The body of the inner loop of encode: the digits of the pixel in
      column `w` of row `h` appended. */
  method AppendPixel(img: Image, h: nat, w: nat, start: nat, sb0: string) returns (r: Result<string>)
    requires img.Valid() && h < img.height && w < img.width && start == h * img.width
    requires start + img.width <= |img.pixels|
    requires PlainText(img.pixels[..start + w]) == Ok(sb0)
    ensures r == PlainText(img.pixels[..start + w + 1])
  {
    var rgb := img.GetRgb(w, h);
    PlainTextSnoc(img.pixels, start + w, sb0);
    var binString := Binary(rgb);
    if |binString| < 8 {
      return Throws(IndexOutOfBounds);
    }
    r := Ok(sb0 + binString[8..]);
  }

  /** A prefix that throws makes every longer prefix throw. */
  lemma PrefixThrows(pixels: seq<Word>, n: nat, m: nat)
    requires n <= m <= |pixels| && PlainText(pixels[..n]).Throws?
    ensures PlainText(pixels[..m]) == Throws(IndexOutOfBounds)
  {
    assert pixels[..m][..n] == pixels[..n];
    PlainTextThrowsExtends(pixels[..m], n);
  }

  /** One more pixel: its text appended, or the exception. */
  lemma PlainTextSnoc(pixels: seq<Word>, k: nat, sb: string)
    requires k < |pixels| && PlainText(pixels[..k]) == Ok(sb)
    ensures PlainText(pixels[..k + 1])
         == match PixelText(pixels[k]) case Ok(p) => Ok(sb + p) case Throws(e) => Throws(e)
  {
    assert pixels[..k + 1][..k] == pixels[..k];
  }

  /** Once a prefix of the pixels throws, so do all of them. */
  lemma {:induction false} PlainTextThrowsExtends(pixels: seq<Word>, n: nat)
    requires n <= |pixels| && PlainText(pixels[..n]).Throws?
    ensures PlainText(pixels) == Throws(IndexOutOfBounds)
    decreases |pixels|
  {
    if n < |pixels| {
      var m := |pixels|;
      assert pixels[..m - 1][..n] == pixels[..n];
      PlainTextThrowsExtends(pixels[..m - 1], n);
    } else {
      assert pixels[..n] == pixels;
    }
  }

  lemma RowInImage(h: nat, width: nat, height: nat)
    requires h < height
    ensures h * width + width == (h + 1) * width <= width * height
  {
    MulMonotone(width, h + 1, height);
  }

  // ---------------------------------------------------------------------
  // What the text says about the pixels.

  /** The colour digits of opaque pixels (alpha bit 31 set), red first: the
      low 24 bits of each pixel in turn, most significant first. */
  function OpaqueText(pixels: seq<Word>): (t: string)
    ensures |t| == BitsPerPixel * |pixels| && IsBinaryText(t)
    decreases |pixels|
  {
    if pixels == [] then [] else Digits(pixels[0], BitsPerPixel) + OpaqueText(pixels[1..])
  }

  /** A pixel is opaque when the top bit of its alpha byte is set; every
      pixel of a BufferedImage without alpha reads back that way. */
  predicate Opaque(rgb: Word) {
    rgb >= 0x8000_0000
  }

  /** An opaque pixel contributes exactly its 24 colour digits. */
  lemma OpaquePixelText(rgb: Word)
    requires Opaque(rgb)
    ensures PixelText(rgb) == Ok(Digits(rgb, BitsPerPixel))
  {
    Pow2Values();
    BitLengthOfRange(rgb, 32);
    BinaryIsDigits(rgb);
    var t := Digits(rgb, 32);
    forall i | 0 <= i < BitsPerPixel
      ensures t[8..][i] == Digits(rgb, BitsPerPixel)[i]
    {
    }
    assert t[8..] == Digits(rgb, BitsPerPixel);
  }

  /** A pixel that is not opaque cannot give a full colour: with fewer than
      eight digits it throws, otherwise it gives fewer than 24 digits. */
  lemma TranslucentPixelText(rgb: Word)
    requires !Opaque(rgb)
    ensures PixelText(rgb).Throws? <==> rgb < 0x80
    ensures PixelText(rgb).Ok? ==> |PixelText(rgb).value| < BitsPerPixel
  {
    Pow2Values();
    assert Pow2(7) == 0x80;
    BinaryIsDigits(rgb);
    BitLengthAtMost(rgb, 31);
    if rgb < 0x80 {
      BitLengthAtMost(rgb, 7);
    } else {
      BitLengthAtLeast(rgb, 8);
    }
  }

  /** The text of two runs of opaque pixels is the text of each in turn. */
  lemma {:induction false} OpaqueTextAppend(a: seq<Word>, b: seq<Word>)
    ensures OpaqueText(a + b) == OpaqueText(a) + OpaqueText(b)
    decreases |a|
  {
    if a != [] {
      assert (a + b)[0] == a[0];
      assert (a + b)[1..] == a[1..] + b;
      OpaqueTextAppend(a[1..], b);
      var d := Digits(a[0], BitsPerPixel);
      assert OpaqueText(a + b) == d + (OpaqueText(a[1..]) + OpaqueText(b));
      assert d + (OpaqueText(a[1..]) + OpaqueText(b)) == (d + OpaqueText(a[1..])) + OpaqueText(b);
    } else {
      assert a + b == b;
    }
  }

  /** An image of opaque pixels encodes to their colour digits: 24 digits
      per pixel, in row-major order. */
  lemma {:induction false} PlainTextOfOpaque(pixels: seq<Word>)
    requires forall k :: 0 <= k < |pixels| ==> Opaque(pixels[k])
    ensures PlainText(pixels) == Ok(OpaqueText(pixels))
    decreases |pixels|
  {
    if pixels != [] {
      var n := |pixels|;
      var front := pixels[..n - 1];
      var last := pixels[n - 1];
      PlainTextOfOpaque(front);
      OpaquePixelText(last);
      assert PlainText(pixels) == Ok(OpaqueText(front) + Digits(last, BitsPerPixel));
      OpaqueTextAppend(front, [last]);
      assert front + [last] == pixels;
      assert [last][1..] == [];
      assert OpaqueText([last]) == Digits(last, BitsPerPixel) + OpaqueText([]);
      assert OpaqueText(pixels) == OpaqueText(front) + Digits(last, BitsPerPixel);
    }
  }

  /** The 24 digits at pixel `k` of the text are that pixel's colour. */
  lemma {:induction false} OpaqueTextChunk(pixels: seq<Word>, k: nat)
    requires k < |pixels|
    ensures 24 * k + 24 <= |OpaqueText(pixels)|
    ensures OpaqueText(pixels)[24 * k..24 * k + 24] == Digits(pixels[k], BitsPerPixel)
    decreases k
  {
    if k > 0 {
      OpaqueTextChunk(pixels[1..], k - 1);
      var t := OpaqueText(pixels[1..]);
      assert OpaqueText(pixels)[24..] == t;
      assert OpaqueText(pixels)[24 * k..24 * k + 24] == t[24 * (k - 1)..24 * (k - 1) + 24];
    }
  }

  /** The encoding fails exactly when some pixel has fewer than eight
      digits, that is, is below 0x80. */
  lemma {:induction false} PlainTextThrowsIff(pixels: seq<Word>)
    ensures PlainText(pixels).Throws? <==> exists k :: 0 <= k < |pixels| && pixels[k] < 0x80
    decreases |pixels|
  {
    if pixels != [] {
      var n := |pixels|;
      var front := pixels[..n - 1];
      PlainTextThrowsIff(front);
      PixelThrowsIff(pixels[n - 1]);
      if exists k :: 0 <= k < n && pixels[k] < 0x80 {
        var k :| 0 <= k < n && pixels[k] < 0x80;
        if k < n - 1 {
          assert front[k] == pixels[k];
        }
      }
      if exists k :: 0 <= k < n - 1 && front[k] < 0x80 {
        var k :| 0 <= k < n - 1 && front[k] < 0x80;
        assert pixels[k] < 0x80;
      }
    }
  }

  /** One pixel throws exactly when it is below 0x80. */
  lemma PixelThrowsIff(rgb: Word)
    ensures PixelText(rgb).Throws? <==> rgb < 0x80
  {
    if Opaque(rgb) {
      OpaquePixelText(rgb);
    } else {
      TranslucentPixelText(rgb);
    }
  }

  /** An image without pixels encodes to the empty text. */
  lemma EmptyImageText(img: Image)
    requires img.Valid() && (img.width == 0 || img.height == 0)
    ensures PlainText(img.pixels) == Ok([])
  {
  }
}
