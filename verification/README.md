# ViterbiBMP coding core in Dafny

ViterbiBMP sends BMP images through a noisy channel. It protects the pixel
bits with the rate-1/3, constraint-length-9 convolutional code of the
TIA/EIA-95 (IS-95) reverse CDMA channel, section 6.1.3.1 (convolutional
encoding), with generator polynomials octal 557, 663 and 711. The
repository's encoder adds one deviation: because `WITH_OUTPUT_BITS` is true,
each step also emits the oldest window bit. So each input bit becomes four
characters `'0'`/`'1'`. A plain path writes the pixels without coding, as
24 binary digits for each opaque pixel, and reads such a text file back into
an image.

This project models that bit-level logic:

- `JavaInt` — Java `int` and `byte` as bit patterns (`Word` below 2^32,
  `Byte` below 2^8). It has explicit `<<` with 32-bit wrap-around, `>>>`,
  sign extension, narrowing, `&`, `|`, `Integer.bitCount`, and the exceptions
  as a `Result`.
- `BinaryText` — `Integer.toBinaryString`, `Integer.parseInt(s, 2)` with its
  sign and overflow rules, and fixed-width digit strings.
- `Raster` — an image as width, height and the row-major sequence of its
  ARGB pixels; `getRGB`.
- `EncoderIS95` — `g0`, `g1`, `g2`, `encode24bits` and the pixel walk of
  `encode` with the carried register `lsr`. All of it is proved equal to
  one reference bit-serial encoder (`SerialEncode`).
- `StateTransitionLUT` — the 256 × 2 table of (output symbol, next state),
  built by `fillLUT` in the source's operation order. It is proved to agree
  step for step with the encoder. Driving the table alone reproduces the
  encoder's text.
- `ViterbiDecoder` — the decoder's configuration and `setDecodingDepth`.
  The model also proves why the depth is clamped to the delay: `delay`
  steps reach every state from every state; fewer steps do not.
- `PlainEncoder` — `encode`: each pixel as `toBinaryString(rgb).substring(8)`.
- `PlainDecoder` — `readAscii`'s line-end trimming on the bytes of the file,
  and `outputBMP`'s parse of 24-byte chunks into pixels. The round trip is
  proved for opaque pixels. So is the Windows line-end defect described
  under Findings, together with a corrected trimming.

The exceptions the modelled code raises on its inputs are `Throws(...)`
results, not preconditions. Examples: a null image, byte array or encoder,
an index outside an array, a failed `parseInt`, an image of non-positive
size. Running out of memory is the exception: the limits of Java's `int`
lengths are listed under "## Left out". Java assertions
are taken as disabled, the JVM default; "## Left out" says what `-ea` would
change. `output` and `nextState` are pure functions of the table, so they
cannot change it.

The state convention is a *right* shift, as in the code's table:
`nextState = (s | b << 8) >>> 1`, so the input bit becomes bit 7 of the next
state. A trellis whose predecessors are formed by a left shift of the state
does not describe this table; the model follows the code.

## Model

| member | source | states |
|---|---|---|
| EncoderIS95.G0 | src/com/company/EncoderIS95.java:52-54 | g0 is a single bit, 0 or 1 |
| EncoderIS95.G1 | src/com/company/EncoderIS95.java:65-67 | g1 is a single bit, 0 or 1 |
| EncoderIS95.G2 | src/com/company/EncoderIS95.java:77-79 | g2 is a single bit, 0 or 1 |
| EncoderIS95.G0IsTapXor | src/com/company/EncoderIS95.java:54-61 | the popcount parity under mask 557 equals the XOR of window bits 8,6,5,3,2,1,0 (the commented-out form) |
| EncoderIS95.G1IsTapXor | src/com/company/EncoderIS95.java:67-73 | the parity under mask 663 equals the XOR of bits 8,7,5,4,1,0 |
| EncoderIS95.G2IsTapXor | src/com/company/EncoderIS95.java:79-84 | the parity under mask 711 equals the XOR of bits 8,7,6,3,0 |
| EncoderIS95.ParitiesSeeNineBits | src/com/company/EncoderIS95.java:52-79 | g0, g1, g2 depend only on the low nine bits of their argument |
| EncoderIS95.Group | src/com/company/EncoderIS95.java:94-97 | one step emits OutputLength (4 with output bits, 3 without) characters, all '0'/'1' |
| EncoderIS95.GroupSeesNineBits | src/com/company/EncoderIS95.java:94-97 | the characters of one step depend only on the nine window bits |
| EncoderIS95.Window | src/com/company/StateTransitionLUT.java:38 | the window holds the register in bits 0..7 and the input in bit 8 |
| EncoderIS95.NextRegister | src/com/company/EncoderIS95.java:98 | after a step the register keeps bits 1..7 as bits 0..6 and the input bit becomes bit 7 |
| EncoderIS95.SerialEncode | src/com/company/EncoderIS95.java:93-99 | the reference bit-serial encoder emits only '0'/'1' |
| EncoderIS95.SerialEncodeAppend | src/com/company/EncoderIS95.java:39-46 | encoding two streams in turn, carrying the register, equals encoding their concatenation |
| EncoderIS95.SerialRegisterAppend | src/com/company/EncoderIS95.java:44 | the register after two streams in turn is the register after their concatenation |
| EncoderIS95.SerialEncodeLength | src/com/company/EncoderIS95.java:93-99 | the encoder emits exactly one group of OutputLength characters per input bit |
| EncoderIS95.SerialStep | src/com/company/EncoderIS95.java:93-98 | one pass of the encode24bits loop is one step of the bit-serial encoder |
| EncoderIS95.RegisterIsShift | src/com/company/EncoderIS95.java:98 | after n passes the register is the low byte of the word shifted n places right |
| EncoderIS95.Encode24Bits | src/com/company/EncoderIS95.java:89-102 | encode24bits emits the bit-serial encoding of bits 8..31 of its argument, LSB first, starting from the register held in bits 0..7 |
| EncoderIS95.EncodeWindow | src/com/company/EncoderIS95.java:94-97 | the appends of one pass depend only on the nine window bits, and read as a binary number, MSB first, they are 8·g0 + 4·(oldest window bit) + 2·g1 + g2 with output bits and 4·g0 + 2·g1 + g2 without: the symbol fillLUT stores for that window |
| EncoderIS95.GroupValue | src/com/company/EncoderIS95.java:94-97 | the characters of one step, read MSB first, have the value 8·g0 + 4·(oldest window bit) + 2·g1 + g2 with output bits and 4·g0 + 2·g1 + g2 without |
| EncoderIS95.ShiftedPixel | src/com/company/EncoderIS95.java:42 | `rgb <<= 8` keeps the 24 colour bits moved up a byte; alpha is shifted out |
| EncoderIS95.PixelWord | src/com/company/EncoderIS95.java:43 | or-ing in the carried byte masked with 0xff puts it below the colour bits, its sign extension removed |
| EncoderIS95.PixelWordParts | src/com/company/EncoderIS95.java:42-43 | the word handed to encode24bits has the carried register as its low byte and the colour above it |
| EncoderIS95.CarriedByte | src/com/company/EncoderIS95.java:44 | the byte carried on is bits 16..23 of the pixel |
| EncoderIS95.PixelRegister | src/com/company/EncoderIS95.java:44 | the carried byte equals the bit-serial register after that pixel's 24 bits |
| EncoderIS95.ColourBits | src/com/company/EncoderIS95.java:42 | a pixel feeds the encoder its low 24 bits only |
| EncoderIS95.StreamBitsLength | src/com/company/EncoderIS95.java:39-46 | the input stream has 24 bits per pixel |
| EncoderIS95.StreamStep | src/com/company/EncoderIS95.java:40-44 | one more pixel extends the encoding of the stream by that pixel's bits, from the carried register |
| EncoderIS95.Encode | src/com/company/EncoderIS95.java:31-49 | null gives NullPointerException; otherwise the text is one bit-serial encoding, from register 0, of the row-major stream of every pixel's low 24 bits, LSB first |
| EncoderIS95.EncodeRow | src/com/company/EncoderIS95.java:40-45 | the inner loop extends the encoding and the register by one row of pixels |
| EncoderIS95.EncodePixel | src/com/company/EncoderIS95.java:41-44 | one pixel extends the encoding by that pixel and carries the bit-serial register on in `lsr` |
| EncoderIS95.TextLength | src/com/company/EncoderIS95.java:39-46 | the text has width × height × 24 × OutputLength characters |
| EncoderIS95.StreamSeesColourOnly | src/com/company/EncoderIS95.java:42 | images whose pixels agree in the low 24 bits have the same stream, whatever the alpha |
| EncoderIS95.ZeroBitsEncodeToZeros | src/com/company/EncoderIS95.java:93-99 | from register 0, zero input bits give only '0' characters and leave register 0 |
| EncoderIS95.BlackStreamIsZero | src/com/company/EncoderIS95.java:39-44 | pixels with zero colour bits give a stream of zero bits |
| EncoderIS95.BlackImageEncodesToZeros | src/com/company/EncoderIS95.java:37-46 | pixels with zero low 24 bits encode to '0' characters only |
| StateTransitionLUT.Symbol | src/com/company/StateTransitionLUT.java:40-48 | an output symbol is below 2^OutputLength (16 with output bits, 8 without) |
| StateTransitionLUT.New | src/com/company/StateTransitionLUT.java:14-20 | a null encoder gives NullPointerException, and only a null one; any other encoder always gives a table, with 256 states and a full table whose every cell is the encoder's step |
| StateTransitionLUT.FillLut | src/com/company/StateTransitionLUT.java:32-52 | fillLUT fills all 256 × 2 cells, each with the encoder's symbol and next register |
| StateTransitionLUT.FillRow | src/com/company/StateTransitionLUT.java:37-50 | the inner loop fills both input cells of one state |
| StateTransitionLUT.FillEntry | src/com/company/StateTransitionLUT.java:38-49 | one cell: the state or-ed with the input shifted to bit 8, then shifted right once, is the next register, and the built output is the symbol |
| StateTransitionLUT.FillOutput | src/com/company/StateTransitionLUT.java:40-48 | the shift-and-or sequence builds the symbol of the window |
| StateTransitionLUT.WindowOfOr | src/com/company/StateTransitionLUT.java:38 | the state or-ed with the input shifted left by delay is the window of that state and input |
| StateTransitionLUT.OrThenShift | src/com/company/StateTransitionLUT.java:43-47 | an `output \|= d; output <<= 1` pair on an even output below 2^30 appends the bit d: the result is 2·(output + d) |
| StateTransitionLUT.SymbolValue | src/com/company/StateTransitionLUT.java:40-48 | the symbol is 8·g0 + 4·(oldest window bit) + 2·g1 + g2 with output bits, 4·g0 + 2·g1 + g2 without |
| StateTransitionLUT.Output | src/com/company/StateTransitionLUT.java:22-25 | output is defined exactly for states below numStates and inputs 0, 1, and there is the symbol of the window; otherwise ArrayIndexOutOfBounds |
| StateTransitionLUT.NextState | src/com/company/StateTransitionLUT.java:27-30 | nextState is defined exactly on the table's range and is the encoder's next register; otherwise ArrayIndexOutOfBounds |
| StateTransitionLUT.NextStateShifts | src/com/company/StateTransitionLUT.java:38-39 | the next state is `s/2 + 128b`, again a state; the input is bit 7 |
| StateTransitionLUT.SuccessorsDiffer | src/com/company/StateTransitionLUT.java:38-39 | the two successors of a state differ in bit 7 only |
| StateTransitionLUT.OutputDigits | src/com/company/StateTransitionLUT.java:43 | a symbol fits OutputLength digits; with output bits its bit 2 is bit 0 of the state, not the input |
| StateTransitionLUT.OldestDigit | src/com/company/StateTransitionLUT.java:43 | with output bits, bit 2 of the symbol is the oldest window bit |
| StateTransitionLUT.ZeroIsFixedPoint | src/com/company/StateTransitionLUT.java:38-49 | state 0 with input 0 stays in state 0 and emits symbol 0 |
| StateTransitionLUT.TableAgreesWithPass | src/com/company/StateTransitionLUT.java:40-49 | the four characters each pass of encode24bits emits for word x are the digits, MSB first, of `output(x & 0xff, x>>8 & 1)` |
| StateTransitionLUT.TableAgreesWithShift | src/com/company/StateTransitionLUT.java:38-39 | the low byte of the word after that pass's `>>>= 1` is `nextState(x & 0xff, x>>8 & 1)` |
| StateTransitionLUT.TableEncodeIsSerial | src/com/company/StateTransitionLUT.java:22-30 | driving the table with any input from any state emits exactly the encoder's text |
| StateTransitionLUT.DelayStepsReachEveryState | src/com/company/ViterbiDecoder.java:21-22 | `delay` steps of the bit-serial register, which the table's nextState equals (NextStateShifts), lead from every state to every state |
| StateTransitionLUT.FewerStepsFixLowBit | src/com/company/ViterbiDecoder.java:20-22 | after fewer than `delay` steps the low bit of the state is fixed by the start state, so half the states are unreachable |
| ViterbiDecoder.NewDecoder | src/com/company/ViterbiDecoder.java:12-15 | the constructor sets the encoder, null included; the depth is 0 and the table null |
| ViterbiDecoder.SetDecodingDepth | src/com/company/ViterbiDecoder.java:18-29 | NullPointerException exactly when the encoder is null, and success for any other encoder; then the depth becomes max(d, delay): d exactly when d ≥ delay, else delay; the encoder and table are unchanged |
| ViterbiDecoder.SetDecodingDepthIdempotent | src/com/company/ViterbiDecoder.java:20-28 | repeating the request, or requesting the current depth, changes nothing; with a null encoder both throw alike |
| ViterbiDecoder.LastRequestWins | src/com/company/ViterbiDecoder.java:20-28 | the depth, or the exception, depends on the last request only |
| ViterbiDecoder.LastBitsDecideState | src/com/company/ViterbiDecoder.java:21-22 | the last `delay` input bits decide the state, whatever came before |
| ViterbiDecoder.DepthReachesEveryState | src/com/company/ViterbiDecoder.java:20-28 | after setDecodingDepth there is, from every state, an input of exactly decodingDepth bits to every state |
| ViterbiDecoder.ShortDepthMissesAState | src/com/company/ViterbiDecoder.java:20-22 | with fewer than `delay` bits, some state is out of reach |
| PlainEncoder.PixelText | src/com/company/PlainEncoder.java:16-17 | one pixel gives '0'/'1' text, or StringIndexOutOfBounds |
| PlainEncoder.PlainText | src/com/company/PlainEncoder.java:13-17 | the text of the pixels in turn is '0'/'1' only, or StringIndexOutOfBounds |
| PlainEncoder.Encode | src/com/company/PlainEncoder.java:8-22 | null gives NullPointerException; otherwise the text of the pixels row by row, h outer and w inner |
| PlainEncoder.EncodeRow | src/com/company/PlainEncoder.java:14-18 | the inner loop appends the text of one row, or throws |
| PlainEncoder.AppendPixel | src/com/company/PlainEncoder.java:15-17 | one pass appends the pixel's text, or throws |
| PlainEncoder.PlainTextThrowsExtends | src/com/company/PlainEncoder.java:17 | an exception on one pixel ends the whole encoding with that exception |
| PlainEncoder.OpaqueText | src/com/company/PlainEncoder.java:13-17 | the reference text of opaque pixels has 24 '0'/'1' characters per pixel |
| PlainEncoder.OpaquePixelText | src/com/company/PlainEncoder.java:16-17 | a pixel with bit 31 set gives exactly bits 23..0, MSB first |
| PlainEncoder.TranslucentPixelText | src/com/company/PlainEncoder.java:16-17 | with bit 31 clear, the pixel throws exactly when below 0x80, and otherwise gives fewer than 24 digits |
| PlainEncoder.PixelThrowsIff | src/com/company/PlainEncoder.java:16-17 | a pixel throws exactly when its pattern is below 0x80 |
| PlainEncoder.PlainTextThrowsIff | src/com/company/PlainEncoder.java:13-17 | the encoding throws exactly when some pixel is below 0x80 |
| PlainEncoder.OpaqueTextAppend | src/com/company/PlainEncoder.java:13-17 | the text of two runs of pixels is the text of each in turn |
| PlainEncoder.PlainTextOfOpaque | src/com/company/PlainEncoder.java:13-17 | opaque pixels encode to their 24 colour digits each, in row-major order |
| PlainEncoder.OpaqueTextChunk | src/com/company/PlainEncoder.java:13-17 | characters 24k..24k+23 of the text are the colour digits of pixel k |
| PlainEncoder.EmptyImageText | src/com/company/PlainEncoder.java:13-14 | an image without pixels encodes to the empty text |
| BinaryText.Binary | src/com/company/PlainEncoder.java:16 | toBinaryString gives a non-empty '0'/'1' text |
| BinaryText.BinaryIsDigits | src/com/company/PlainEncoder.java:16 | toBinaryString writes x with exactly its bit length of digits |
| BinaryText.BinaryRoundTrip | src/com/company/PlainEncoder.java:16 | the digits of toBinaryString read back as x, and start with '1' unless x is 0 |
| BinaryText.ParseInt | src/com/company/PlainDecoder.java:39 | parseInt(s, 2) gives an int-range value or NumberFormatException; the empty text fails |
| BinaryText.ParseUnsigned | src/com/company/PlainDecoder.java:39 | an unsigned digit text below 2^31 parses as its value |
| BinaryText.ParseNegative | src/com/company/PlainDecoder.java:39 | '-' and digits of value at most 2^31 parse as the negated value |
| BinaryText.ParseRejects | src/com/company/PlainDecoder.java:39 | a character other than a digit or a leading sign is NumberFormatException |
| BinaryText.ParseDigits | src/com/company/PlainDecoder.java:39 | parseInt undoes an n-digit binary rendering for n ≤ 31 |
| BinaryText.ValueOfDigits | src/com/company/PlainDecoder.java:39 | reading the n digits of v gives v mod 2^n |
| BinaryText.DigitsOfValue | src/com/company/StateTransitionLUT.java:40-48 | a '0'/'1' text is the digit rendering of its own value |
| PlainDecoder.ReadAscii | src/com/company/PlainDecoder.java:13-26 | readAscii throws exactly for an empty file or a one-byte file whose byte is neither CR nor LF, and always with ArrayIndexOutOfBounds |
| PlainDecoder.ReadAsciiDropsOneByte | src/com/company/PlainDecoder.java:17-25 | the result is a prefix at most one byte shorter, and shorter exactly when the last byte is CR or LF |
| PlainDecoder.ReadAsciiKeepsCrOfCrLf | src/com/company/PlainDecoder.java:20-23 | a CR LF ending loses only its LF |
| PlainDecoder.ReadAsciiCrLfExample | src/com/company/PlainDecoder.java:20-23 | "0" CR LF reads back as "0" CR |
| PlainDecoder.TrimEol | src/com/company/PlainDecoder.java:17-23 | the corrected trimming throws only on an empty file |
| PlainDecoder.TrimEolRemovesLineEnd | src/com/company/PlainDecoder.java:17-23 | the corrected trimming removes exactly a CR LF, CR or LF line end and leaves other text alone |
| PlainDecoder.ReadAsciiAgreesOffCrLf | src/com/company/PlainDecoder.java:17-23 | without a CR LF ending, readAscii and the corrected trimming agree |
| PlainDecoder.Text | src/com/company/PlainDecoder.java:39 | under a single-byte default charset, the String of the bytes has one character per byte, each with the code of its byte |
| PlainDecoder.ParseChunks | src/com/company/PlainDecoder.java:38-41 | the parse loop gives one int per 24 bytes, or NumberFormatException, or StringIndexOutOfBounds for a short last run |
| PlainDecoder.ParseBinaryChunks | src/com/company/PlainDecoder.java:38-41 | '0'/'1' text of length 24k parses to k values, value i being the unsigned value of chunk i, below 2^24 |
| PlainDecoder.ParseStep | src/com/company/PlainDecoder.java:38-41 | one pass of the parse loop appends the chunk's value or stops with its exception |
| PlainDecoder.OutputBmp | src/com/company/PlainDecoder.java:29-51 | outputBMP: IllegalArgument for a size below 1; then NullPointerException for a null array; then the parse; then NullPointerException when fewer than width × height values; else the image of the first width × height values in row-major order |
| PlainDecoder.ParseAll | src/com/company/PlainDecoder.java:37-41 | the parse loop fills the list with exactly the values of ParseChunks, or stops with its exception |
| PlainDecoder.FillImage | src/com/company/PlainDecoder.java:44-48 | the two fill loops set every pixel from the list in row-major order, or hit an empty poll() |
| PlainDecoder.FillRow | src/com/company/PlainDecoder.java:45-47 | one row takes the next width values, and fails exactly when the list runs out |
| PlainDecoder.ParseOpaqueText | src/com/company/PlainDecoder.java:38-41 | the plain text of opaque pixels parses back to their low 24 bits |
| PlainDecoder.PlainRoundTrip | src/com/company/PlainDecoder.java:29-51 | decoding the encoded text of opaque pixels, with the same size, gives every pixel's `rgb & 0xFFFFFF` |
| PlainDecoder.ReadAsciiOfPlainFile | src/com/company/PlainDecoder.java:18-21 | a plain text file ending in CR or LF reads back as exactly the text |
| PlainDecoder.ParseWithTail | src/com/company/PlainDecoder.java:38-39 | a stray run of 1..23 bytes after whole chunks makes the parse throw |
| PlainDecoder.CrLfFileFailsToDecode | src/com/company/PlainDecoder.java:20-23 | a plain file with a Windows line end fails in outputBMP with StringIndexOutOfBounds |
| PlainDecoder.CrLfFileWithTrimEol | src/com/company/PlainDecoder.java:22-23 | with the corrected trimming the Windows file decodes to the original colours |

## Left out

- The Viterbi trellis search, path metrics and backtrace: `ViterbiDecoder` implements only `setDecodingDepth`, and `decodeIS95` has no body, so there is no decode to model.
- NoiseGenerator, Main and ViterbiBMP are not part of this model: they are randomness, console output and file-path plumbing.
- Reading and writing files (`Files.readAllBytes`, `ImageIO`) is left out: readAscii is modelled on the bytes of the file, and outputBMP returns the pixel values as an image.
- `BufferedImage` internals are left out: an image is its width, height and row-major pixels. `getRGB` returns what is stored, and `setRGB` stores the value it is given; the colour model of `TYPE_INT_RGB` is not modelled.
- `Math.pow(2, delay)` is floating point: the model uses the integer 2^delay, the same value for delay 8.
- Java assertions are taken as disabled, the JVM default, so the `assert` statements of outputBMP (PlainDecoder.java:31-32, 42) are not evaluated and the model has no such preconditions. Under `-ea` outputBMP never returns an image: line 31 throws AssertionError on every call, because `equals(boolean)` is `Object.equals` on a boxed Boolean, which is false. The model follows the default.
- EncoderIS95.Encode: a Java `String` holds fewer than 2^31 characters, and the text has 96 characters per pixel, so encode fails with OutOfMemoryError for images above about 22.4 million pixels. The model returns the text for every size.
- PlainEncoder.Encode: for the same reason, with 24 characters per pixel, encode fails above about 89 million pixels; the model returns the text for every size.
- The diagnostic that setDecodingDepth prints is console output and is left out.
- PlainDecoder.Text: assumes a single-byte default charset such as ISO-8859-1, so each byte is one character. `new String(bytes, i, 24)` uses the platform default charset, which is UTF-8 since Java 18. Under UTF-8 a multi-byte sequence becomes one character, and the model diverges there: 22 bytes `0x30` followed by `0xD9 0xA1` decode to 22 '0's and U+0661 (ARABIC-INDIC DIGIT ONE), which Java parses as 1, while the model throws NumberFormatException.
- BinaryText.ParseInt: accepts only the ASCII digits '0' and '1'. Java's `Character.digit` also accepts other Unicode decimal digits of value 0 or 1, such as U+0660 and U+0661. Under a UTF-8 default charset these can come from the bytes of the file (see PlainDecoder.Text), and then Java parses text that the model rejects.
- PlainDecoder.OutputBmp: `width * height` is taken as an unbounded product; the `int` overflow for images of more than 2^31 pixels is not modelled.
- The interfaces (IEncoder, IDecoder, IPlainEncoder, IPlainDecoder, INoiseGenerator) hold declarations only; IEncoder's signature is the `Encoder` datatype with its `withOutputBits` flag.
- `readBMP` is declared in IPlainEncoder but implemented nowhere, so it is not part of this model.

## Findings

| source | as written | input that shows it | evidently intended | confidence | as-written member | corrected member |
|---|---|---|---|---|---|---|
| src/com/company/PlainDecoder.java:18-23 | the LF test comes before the CR LF test, so a CR LF ending loses only its LF and the CR LF branch is unreachable | the bytes `0x30 0x0D 0x0A` read back as `0x30 0x0D`; a plain text file with a Windows line end then fails in outputBMP with StringIndexOutOfBoundsException | remove the whole CR LF pair, as the branch's comment says; the corrected TrimEol also tests the length before reading the byte before last, so a one-byte file with no line end reads back unchanged, where the source throws ArrayIndexOutOfBoundsException at line 22 | not executed | PlainDecoder.ReadAsciiKeepsCrOfCrLf | PlainDecoder.CrLfFileWithTrimEol |
