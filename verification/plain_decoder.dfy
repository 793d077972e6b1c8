/** The plain decoder: the line end trimmed off the text file read back,
    and the image rebuilt from its digits, 24 to a pixel, row by row. */
module PlainDecoder {
  import opened JavaInt
  import opened BinaryText
  import opened Raster
  import opened PlainEncoder

  /** Carriage return and line feed. */
  const CR: Byte := 0x0D
  const LF: Byte := 0x0A

  // ---------------------------------------------------------------------
  // readAscii: trimming the line end.

  /** readAscii, given the bytes of the file: a last CR is dropped, else a
      last LF is dropped, else the test for a CR LF pair reads the byte
      before last and, when it passes, two bytes are dropped. An empty file,
      or a one-byte file whose byte is neither CR nor LF, indexes outside the
      array. The CR LF test can only pass when the last byte is LF, which the
      LF test before it has already taken, so in the last branch it always
      fails and nothing is dropped. */
  function ReadAscii(bytes: seq<Byte>): (r: Result<seq<Byte>>)
    ensures r.Throws? <==> |bytes| == 0 || (|bytes| == 1 && bytes[0] != CR && bytes[0] != LF)
    ensures r.Throws? ==> r.exception == IndexOutOfBounds
  {
    var n := |bytes|;
    if n == 0 then Throws(IndexOutOfBounds)
    else if bytes[n - 1] == CR then Ok(bytes[..n - 1])
    else if bytes[n - 1] == LF then Ok(bytes[..n - 1])
    else if n < 2 then Throws(IndexOutOfBounds)
    else Ok(bytes[..n - (if bytes[n - 2] == CR && bytes[n - 1] == LF then 2 else 0)])
  }

  /** readAscii removes at most one byte, and only a CR or an LF. */
  lemma ReadAsciiDropsOneByte(bytes: seq<Byte>)
    requires ReadAscii(bytes).Ok?
    ensures var t := ReadAscii(bytes).value;
      t <= bytes && |bytes| - 1 <= |t| &&
      (|t| < |bytes| <==> bytes[|bytes| - 1] == CR || bytes[|bytes| - 1] == LF)
  {
    var n := |bytes|;
    if bytes[n - 1] == CR || bytes[n - 1] == LF {
      assert ReadAscii(bytes).value == bytes[..n - 1];
    } else {
      assert ReadAscii(bytes).value == bytes;
    }
  }

  /** As written, a Windows line end loses its LF only: the CR stays. */
  lemma ReadAsciiKeepsCrOfCrLf(t: seq<Byte>)
    ensures ReadAscii(t + [CR, LF]) == Ok(t + [CR])
  {
    assert (t + [CR, LF])[..|t| + 1] == t + [CR];
  }

  /** The smallest case: the digit "0" followed by CR LF reads back as the
      digit and a CR. */
  lemma ReadAsciiCrLfExample()
    ensures ReadAscii([0x30, CR, LF]) == Ok([0x30, CR])
  {
    ReadAsciiKeepsCrOfCrLf([0x30]);
    assert [0x30] + [CR, LF] == [0x30, CR, LF];
    assert [0x30] + [CR] == [0x30, CR];
  }

  /** The line-end trimming as evidently intended: the CR LF pair is checked
      first (guarded by the length), then a lone CR or LF. */
  function TrimEol(bytes: seq<Byte>): (r: Result<seq<Byte>>)
    ensures r.Throws? <==> |bytes| == 0
    ensures r.Throws? ==> r.exception == IndexOutOfBounds
  {
    var n := |bytes|;
    if n == 0 then Throws(IndexOutOfBounds)
    else if n >= 2 && bytes[n - 2] == CR && bytes[n - 1] == LF then Ok(bytes[..n - 2])
    else if bytes[n - 1] == CR || bytes[n - 1] == LF then Ok(bytes[..n - 1])
    else Ok(bytes)
  }

  /** The corrected trimming removes exactly the line end, whichever of the
      three conventions the file uses, and leaves text without one alone. */
  lemma TrimEolRemovesLineEnd(t: seq<Byte>)
    ensures TrimEol(t + [CR, LF]) == Ok(t)
    ensures TrimEol(t + [CR]) == Ok(t)
    ensures (t == [] || t[|t| - 1] != CR) ==> TrimEol(t + [LF]) == Ok(t)
    ensures t != [] && t[|t| - 1] != CR && t[|t| - 1] != LF ==> TrimEol(t) == Ok(t)
  {
    assert (t + [CR, LF])[..|t|] == t;
    assert (t + [CR])[..|t|] == t;
    assert (t + [LF])[..|t|] == t;
    if t != [] {
      assert (t + [LF])[|t| - 1] == t[|t| - 1];
    }
  }

  /** Away from a CR LF ending, the source's trimming is the corrected one. */
  lemma ReadAsciiAgreesOffCrLf(bytes: seq<Byte>)
    requires |bytes| >= 2
    requires !(bytes[|bytes| - 2] == CR && bytes[|bytes| - 1] == LF)
    ensures ReadAscii(bytes) == TrimEol(bytes)
  {
    assert bytes[..|bytes| - 0] == bytes;
  }

  // ---------------------------------------------------------------------
  // outputBMP: rebuilding the image.

  /** The String of the bytes under a single-byte default charset
      (ISO-8859-1): each byte is the character of the same code. Under a
      UTF-8 default a multi-byte sequence would be one character instead. */
  function Text(bytes: seq<Byte>): (s: string)
    ensures |s| == |bytes|
    ensures forall i :: 0 <= i < |bytes| ==> s[i] as int == bytes[i]
  {
    seq(|bytes|, i requires 0 <= i < |bytes| => (bytes[i] as int) as char)
  }

  /** The bytes of a text of one-byte characters, as a text file holds it. */
  function Bytes(s: string): (b: seq<Byte>)
    requires forall i :: 0 <= i < |s| ==> (s[i] as int) < 0x100
    ensures |b| == |s|
  {
    seq(|s|, i requires 0 <= i < |s| => s[i] as int)
  }

  /** The parse loop of outputBMP: parseInt(radix 2) of every 24 bytes in
      turn. A parse that fails stops it with NumberFormatException, and a
      last run shorter than 24 bytes makes new String(bytes, i, 24) throw
      StringIndexOutOfBoundsException. */
  function ParseChunks(bytes: seq<Byte>): (r: Result<seq<int>>)
    ensures r.Ok? ==> |r.value| * BitsPerPixel == |bytes|
    ensures r.Ok? ==> forall k :: 0 <= k < |r.value| ==> -0x8000_0000 <= r.value[k] < 0x8000_0000
    ensures r.Throws? ==> r.exception == NumberFormat || r.exception == IndexOutOfBounds
    decreases |bytes|
  {
    if |bytes| == 0 then Ok([])
    else if |bytes| < BitsPerPixel then Throws(IndexOutOfBounds)
    else match ParseInt(Text(bytes[..BitsPerPixel]))
      case Throws(e) => Throws(e)
      case Ok(v) =>
        match ParseChunks(bytes[BitsPerPixel..])
        case Throws(e) => Throws(e)
        case Ok(vs) => Ok([v] + vs)
  }

  /** The pixels setRGB receives: the first `n` parsed values as `int`
      patterns. */
  function Pixels(values: seq<int>, n: nat): (ps: seq<Word>)
    requires n <= |values|
    requires forall k :: 0 <= k < |values| ==> -0x8000_0000 <= values[k] < 0x8000_0000
    ensures |ps| == n
  {
    seq(n, k requires 0 <= k < n => Pattern(values[k]))
  }

  /** What outputBMP returns: a width or height below one is refused by
      the BufferedImage constructor with IllegalArgumentException; a null
      array then fails on its length in the parse loop's test; then the
      parse; then each pixel, row by row, takes the next value, and a list
      that runs out makes poll() give null, a NullPointerException when
      unboxed. Values left over are ignored. */
  function OutputBmpResult(asciiBytes: Option<seq<Byte>>, width: int, height: int): Result<Image> {
    if width <= 0 || height <= 0 then Throws(IllegalArgument)
    else if asciiBytes.None? then Throws(NullPointer)
    else match ParseChunks(asciiBytes.value)
      case Throws(e) => Throws(e)
      case Ok(vs) =>
        if |vs| < width * height then Throws(NullPointer)
        else Ok(Image(width, height, Pixels(vs, width * height)))
  }

  /** A parse result with `list` before it. */
  function Prepend(list: seq<int>, r: Result<seq<int>>): Result<seq<int>> {
    match r
    case Throws(e) => Throws(e)
    case Ok(vs) => Ok(list + vs)
  }

  /** outputBMP: the parse loop filling the list, then the two loops over
      the rows and columns taking values from its front. */
  method OutputBmp(asciiBytes: Option<seq<Byte>>, width: int, height: int) returns (r: Result<Image>)
    ensures r == OutputBmpResult(asciiBytes, width, height)
    ensures r.Ok? ==> r.value.Valid()
  {
    if width <= 0 || height <= 0 {
      return Throws(IllegalArgument);
    }
    if asciiBytes.None? {
      return Throws(NullPointer);
    }
    var rgbList := ParseAll(asciiBytes.value);
    if rgbList.Throws? {
      return Throws(rgbList.exception);
    }
    r := FillImage(rgbList.value, width, height);
  }

  /** The parse loop of outputBMP: one value per 24 bytes, appended to the
      list in turn, until the bytes run out or a chunk fails. */
  method ParseAll(asciiBytes: seq<Byte>) returns (r: Result<seq<int>>)
    ensures r == ParseChunks(asciiBytes)
  {
    var rgbList: seq<int> := [];
    var i := 0;
    assert asciiBytes[i..] == asciiBytes;
    if ParseChunks(asciiBytes).Ok? {
      assert rgbList + ParseChunks(asciiBytes).value == ParseChunks(asciiBytes).value;
    }
    while i < |asciiBytes|
      invariant i <= |asciiBytes|
      invariant ParseChunks(asciiBytes) == Prepend(rgbList, ParseChunks(asciiBytes[i..]))
      decreases |asciiBytes| - i
    {
      if i + BitsPerPixel > |asciiBytes| {
        return Throws(IndexOutOfBounds);
      }
      var tempRgb := ParseInt(Text(asciiBytes[i..i + BitsPerPixel]));
      ParseStep(asciiBytes, i, rgbList);
      if tempRgb.Throws? {
        return Throws(tempRgb.exception);
      }
      rgbList := rgbList + [tempRgb.value];
      i := i + BitsPerPixel;
    }
    assert asciiBytes[i..] == [];
    assert rgbList + [] == rgbList;
    r := Ok(rgbList);
  }

  /** One pass of the parse loop, at byte `i`. */
  lemma ParseStep(bytes: seq<Byte>, i: nat, list: seq<int>)
    requires i + BitsPerPixel <= |bytes|
    ensures var p := ParseInt(Text(bytes[i..i + BitsPerPixel]));
      Prepend(list, ParseChunks(bytes[i..]))
        == if p.Throws? then Throws(p.exception)
           else Prepend(list + [p.value], ParseChunks(bytes[i + BitsPerPixel..]))
  {
    var rest := bytes[i..];
    assert rest[..BitsPerPixel] == bytes[i..i + BitsPerPixel];
    assert rest[BitsPerPixel..] == bytes[i + BitsPerPixel..];
    var p := ParseInt(Text(bytes[i..i + BitsPerPixel]));
    if p.Ok? {
      var tail := ParseChunks(bytes[i + BitsPerPixel..]);
      if tail.Ok? {
        assert list + ([p.value] + tail.value) == (list + [p.value]) + tail.value;
      }
    }
  }

  /** The two loops of outputBMP that set every pixel from the list. */
  method FillImage(rgbList: seq<int>, width: nat, height: nat) returns (r: Result<Image>)
    requires width > 0 && height > 0
    requires forall k :: 0 <= k < |rgbList| ==> -0x8000_0000 <= rgbList[k] < 0x8000_0000
    ensures r == if |rgbList| < width * height then Throws(NullPointer)
                 else Ok(Image(width, height, Pixels(rgbList, width * height)))
    ensures r.Ok? ==> r.value.Valid()
  {
    var pixels: seq<Word> := [];
    for h := 0 to height
      invariant |pixels| == h * width <= |rgbList|
      invariant pixels == Pixels(rgbList, |pixels|)
    {
      RowInImage(h, width, height);
      var row := FillRow(rgbList, width, pixels);
      if row.None? {
        return Throws(NullPointer);
      }
      pixels := row.value;
    }
    r := Ok(Image(width, height, pixels));
  }

  /** One row of outputBMP: `width` values polled after `pixels`; `None`
      when the list runs out. */
  method FillRow(rgbList: seq<int>, width: nat, pixels: seq<Word>) returns (r: Option<seq<Word>>)
    requires forall k :: 0 <= k < |rgbList| ==> -0x8000_0000 <= rgbList[k] < 0x8000_0000
    requires |pixels| <= |rgbList| && pixels == Pixels(rgbList, |pixels|)
    ensures r.None? <==> |rgbList| < |pixels| + width
    ensures r.Some? ==> r.value == Pixels(rgbList, |pixels| + width)
  {
    var ps := pixels;
    for w := 0 to width
      invariant |ps| == |pixels| + w <= |rgbList|
      invariant ps == Pixels(rgbList, |ps|)
    {
      if |ps| >= |rgbList| {
        return None;
      }
      ps := ps + [Pattern(rgbList[|ps|])];
    }
    r := Some(ps);
  }

  // ---------------------------------------------------------------------
  // The plain round trip.

  /** A text of one-byte characters read back from its bytes. */
  lemma TextOfBytes(s: string)
    requires forall i :: 0 <= i < |s| ==> (s[i] as int) < 0x100
    ensures Text(Bytes(s)) == s
  {
  }

  /** Bytes of digit texts, one after the other. */
  lemma BytesAppend(a: string, b: string)
    requires IsBinaryText(a) && IsBinaryText(b)
    ensures IsBinaryText(a + b)
    ensures Bytes(a + b) == Bytes(a) + Bytes(b)
  {
  }

  /** The colours of opaque pixels: their low 24 bits. */
  function Colours(pixels: seq<Word>): (cs: seq<int>)
    ensures |cs| == |pixels|
  {
    seq(|pixels|, k requires 0 <= k < |pixels| => pixels[k] % 0x100_0000)
  }

  /** The parse loop reads the plain text of opaque pixels back as their
      colours. */
  lemma {:induction false} ParseOpaqueText(pixels: seq<Word>)
    ensures ParseChunks(Bytes(OpaqueText(pixels))) == Ok(Colours(pixels))
    decreases |pixels|
  {
    if pixels != [] {
      var head := Digits(pixels[0], BitsPerPixel);
      var tail := OpaqueText(pixels[1..]);
      BytesAppend(head, tail);
      var b := Bytes(OpaqueText(pixels));
      assert b[..BitsPerPixel] == Bytes(head);
      assert b[BitsPerPixel..] == Bytes(tail);
      TextOfBytes(head);
      ParseDigits(pixels[0], BitsPerPixel);
      Pow2Values();
      ParseOpaqueText(pixels[1..]);
      assert Colours(pixels) == [pixels[0] % 0x100_0000] + Colours(pixels[1..]);
    }
  }

  /** Any text of '0'/'1' bytes whose length is a multiple of 24 parses:
      one value per 24 bytes, the unsigned value of their digits, below 2^24. */
  lemma {:induction false} ParseBinaryChunks(bytes: seq<Byte>)
    requires IsBinaryText(Text(bytes)) && |bytes| % BitsPerPixel == 0
    ensures ParseChunks(bytes).Ok?
    ensures forall k :: 0 <= k < |ParseChunks(bytes).value| ==>
      ParseChunks(bytes).value[k] == BinaryValue(Text(bytes[BitsPerPixel * k..BitsPerPixel * k + BitsPerPixel]))
    ensures forall k :: 0 <= k < |ParseChunks(bytes).value| ==> 0 <= ParseChunks(bytes).value[k] < 0x100_0000
    decreases |bytes|
  {
    if |bytes| > 0 {
      var head := bytes[..BitsPerPixel];
      var rest := bytes[BitsPerPixel..];
      assert Text(head) == Text(bytes)[..BitsPerPixel];
      assert Text(rest) == Text(bytes)[BitsPerPixel..];
      BinaryValueBound(Text(head));
      Pow2Values();
      ParseUnsigned(Text(head));
      ParseBinaryChunks(rest);
      var vs := ParseChunks(bytes).value;
      var ws := ParseChunks(rest).value;
      assert vs == [BinaryValue(Text(head))] + ws;
      forall k | 0 <= k < |vs|
        ensures vs[k] == BinaryValue(Text(bytes[BitsPerPixel * k..BitsPerPixel * k + BitsPerPixel]))
      {
        if k > 0 {
          assert vs[k] == ws[k - 1];
          assert bytes[BitsPerPixel * k..BitsPerPixel * k + BitsPerPixel]
              == rest[BitsPerPixel * (k - 1)..BitsPerPixel * (k - 1) + BitsPerPixel];
        }
      }
    }
  }

  /** The plain round trip: an image of opaque pixels, encoded, written as
      bytes and rebuilt with its width and height, has the colours of the
      original in every pixel. */
  lemma PlainRoundTrip(img: Image)
    requires img.Valid() && img.width > 0 && img.height > 0
    requires forall k :: 0 <= k < |img.pixels| ==> Opaque(img.pixels[k])
    ensures PlainText(img.pixels).Ok?
    ensures OutputBmpResult(Some(Bytes(PlainText(img.pixels).value)), img.width, img.height)
         == Ok(Image(img.width, img.height, Colours(img.pixels)))
  {
    PlainTextOfOpaque(img.pixels);
    ParseOpaqueText(img.pixels);
    var cs := Colours(img.pixels);
    assert Pixels(cs, img.width * img.height) == cs;
  }

  /** The text file of that round trip, with a line end: a Unix or old Mac
      line end is trimmed by readAscii and the image comes back. */
  lemma ReadAsciiOfPlainFile(t: string, eol: Byte)
    requires IsBinaryText(t) && eol in {CR, LF}
    ensures ReadAscii(Bytes(t) + [eol]) == Ok(Bytes(t))
  {
    assert (Bytes(t) + [eol])[..|t|] == Bytes(t);
  }

  /** With a Windows line end the CR left by readAscii is a last run of one
      byte, so outputBMP throws instead of rebuilding the image. */
  lemma CrLfFileFailsToDecode(img: Image)
    requires img.Valid() && img.width > 0 && img.height > 0
    requires forall k :: 0 <= k < |img.pixels| ==> Opaque(img.pixels[k])
    ensures PlainText(img.pixels).Ok?
    ensures var b := Bytes(PlainText(img.pixels).value);
      ReadAscii(b + [CR, LF]).Ok? &&
      OutputBmpResult(Some(ReadAscii(b + [CR, LF]).value), img.width, img.height)
        == Throws(IndexOutOfBounds)
  {
    PlainTextOfOpaque(img.pixels);
    var b := Bytes(OpaqueText(img.pixels));
    ReadAsciiKeepsCrOfCrLf(b);
    ParseWithTail(img.pixels, [CR]);
  }

  /** The parse of the plain text of opaque pixels followed by a run of
      fewer than 24 bytes fails on that run. */
  lemma {:induction false} ParseWithTail(pixels: seq<Word>, tail: seq<Byte>)
    requires 0 < |tail| < BitsPerPixel
    ensures ParseChunks(Bytes(OpaqueText(pixels)) + tail) == Throws(IndexOutOfBounds)
    decreases |pixels|
  {
    if pixels == [] {
      assert Bytes(OpaqueText(pixels)) + tail == tail;
    } else {
      var head := Digits(pixels[0], BitsPerPixel);
      var rest := OpaqueText(pixels[1..]);
      BytesAppend(head, rest);
      var b := Bytes(OpaqueText(pixels)) + tail;
      assert b[..BitsPerPixel] == Bytes(head);
      assert b[BitsPerPixel..] == Bytes(rest) + tail;
      TextOfBytes(head);
      ParseDigits(pixels[0], BitsPerPixel);
      Pow2Values();
      ParseWithTail(pixels[1..], tail);
    }
  }

  /** With the corrected trimming the Windows file comes back too. */
  lemma CrLfFileWithTrimEol(img: Image)
    requires img.Valid() && img.width > 0 && img.height > 0
    requires forall k :: 0 <= k < |img.pixels| ==> Opaque(img.pixels[k])
    ensures PlainText(img.pixels).Ok?
    ensures var b := Bytes(PlainText(img.pixels).value);
      TrimEol(b + [CR, LF]) == Ok(b) &&
      OutputBmpResult(Some(b), img.width, img.height) == Ok(Image(img.width, img.height, Colours(img.pixels)))
  {
    PlainRoundTrip(img);
    TrimEolRemovesLineEnd(Bytes(PlainText(img.pixels).value));
  }
}
