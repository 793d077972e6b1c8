/** The state machine of the encoder as a look-up table: for every register
    state and input bit, the symbol the encoder emits (its group of output
    digits read as a binary number) and the state it moves to. The decoder
    reads its trellis from this table. */
module StateTransitionLUT {
  import opened JavaInt
  import opened BinaryText
  import opened EncoderIS95

  /** One cell of the table: `lut[state][input] = {output, nextState}`. */
  datatype Entry = Entry(output: Word, nextState: Word)

  /** The table of an encoder: `numStates` rows of two cells. */
  datatype Lut = Lut(encoder: Encoder, numStates: nat, table: seq<seq<Entry>>) {
    /** The table has a row for each of the 2^delay register states, two
        cells per row, and every cell is the step of the bit-serial encoder
        for that state and input bit. */
    ghost predicate Valid() {
      numStates == Pow2(Delay) && |table| == numStates
      && (forall s :: 0 <= s < numStates ==> |table[s]| == 2)
      && forall s, b :: 0 <= s < numStates && 0 <= b < 2 ==> table[s][b] == Cell(encoder, s, b)
    }
  }

  /** The symbol for the window `w`: the group of digits the encoder emits
      for it, read as a binary number, g0 first. */
  function Symbol(enc: Encoder, w: Word): (r: Word)
    ensures r < Pow2(enc.OutputLength())
  {
    BinaryValueBound(Group(enc, w));
    assert Pow2(3) == 8 && Pow2(4) == 16;
    BinaryValue(Group(enc, w))
  }

  /** The step of the bit-serial encoder from register `state` on the input
      bit `input`. */
  function Cell(enc: Encoder, state: Byte, input: nat): Entry
    requires input < 2
  {
    Entry(Symbol(enc, Window(state, input == 1)), NextRegister(state, input == 1))
  }

  // ---------------------------------------------------------------------
  // Construction.

  /** The constructor: a null encoder fails on its `delay()`; otherwise
      2^delay states, and the table filled. */
  method New(enc: Option<Encoder>) returns (r: Result<Lut>)
    ensures enc.None? <==> r == Throws(NullPointer)
    ensures enc.Some? <==> r.Ok?
    ensures r.Ok? ==> r.value.Valid() && r.value.encoder == enc.value
    ensures r.Ok? ==> r.value.numStates == 256
  {
    if enc.None? {
      return Throws(NullPointer);
    }
    Pow2Values();
    var numStates := Pow2(Delay);
    var table := FillLut(enc.value, numStates);
    r := Ok(Lut(enc.value, numStates, table));
  }

  /** fillLUT: every state in turn, and for each the inputs 0 and 1. */
  method FillLut(enc: Encoder, numStates: nat) returns (table: seq<seq<Entry>>)
    requires numStates == Pow2(Delay)
    ensures Lut(enc, numStates, table).Valid()
  {
    table := [];
    for currentState := 0 to numStates
      invariant |table| == currentState
      invariant forall s :: 0 <= s < currentState ==> |table[s]| == 2
      invariant forall s, b :: 0 <= s < currentState && 0 <= b < 2 ==> table[s][b] == Cell(enc, s, b)
    {
      var row := FillRow(enc, currentState);
      table := table + [row];
    }
  }

  /** The inner loop of fillLUT: the cells for inputs 0 and 1 of a state. */
  method FillRow(enc: Encoder, currentState: nat) returns (row: seq<Entry>)
    requires currentState < Pow2(Delay)
    ensures |row| == 2
    ensures forall b :: 0 <= b < 2 ==> row[b] == Cell(enc, currentState, b)
  {
    row := [];
    for input := 0 to 2
      invariant |row| == input
      invariant forall b :: 0 <= b < input ==> row[b] == Cell(enc, currentState, b)
    {
      var entry := FillEntry(enc, currentState, input);
      row := row + [entry];
    }
  }

  /** One cell of fillLUT: the window is the state with the input as bit 8,
      and the next state is the window moved one place right. */
  method FillEntry(enc: Encoder, state: nat, input: nat) returns (e: Entry)
    requires state < Pow2(Delay) && input < 2
    ensures e == Cell(enc, state, input)
  {
    WindowOfOr(state, input);
    var rgblsr: Word := Or(state, Shl(input, Delay));
    var next := Ushr(rgblsr, 1);
    assert Pow2(1) == 2;
    var output := FillOutput(enc, rgblsr);
    e := Entry(output, next);
  }

  /** The output of one cell of fillLUT: g0, then the oldest window bit when
      the encoder emits output bits, then g1 and g2, each shifted in from the
      right. */
  method FillOutput(enc: Encoder, rgblsr: Word) returns (output: Word)
    requires rgblsr < 512
    ensures output == Symbol(enc, rgblsr)
  {
    var g0 := G0(rgblsr);
    var g1 := G1(rgblsr);
    var g2 := G2(rgblsr);
    output := g0;
    ShlOne(output);
    output := Shl(output, 1);
    if enc.withOutputBits {
      AndOne(rgblsr);
      output := OrThenShift(output, And(rgblsr, 1));
    }
    output := OrThenShift(output, g1);
    OrLowDigit(output, g2);
    output := Or(output, g2);
    SymbolValue(enc, rgblsr);
  }

  /** `output |= d; output <<= 1;` for a digit `d` and an even `output`
      small enough not to lose a bit. */
  method OrThenShift(output: Word, d: nat) returns (r: Word)
    requires output % 2 == 0 && output < 0x4000_0000 && d < 2
    ensures r == 2 * (output + d)
  {
    OrLowDigit(output, d);
    var o := Or(output, d);
    ShlOne(o);
    r := Shl(o, 1);
  }

  /** `state | input << delay` is the window for the input above the state. */
  lemma WindowOfOr(state: nat, input: nat)
    requires state < Pow2(Delay) && input < 2
    ensures Or(state, Shl(input, Delay)) == Window(state, input == 1)
  {
    Pow2Values();
    if input == 1 {
      assert Shl(input, Delay) == 256;
      AndOfSeparated(256, state, 8);
      AndCommutes(256, state);
      OrOfDisjoint(state, 256);
    } else {
      assert Shl(input, Delay) == 0;
    }
  }

  /** Shifting a number below 2^31 one place left doubles it. */
  lemma ShlOne(v: Word)
    requires v < 0x8000_0000
    ensures Shl(v, 1) == 2 * v
  {
    Pow2Values();
    DivModOfMultiple(2 * v, TwoTo32, 0);
  }

  /** The symbol of a window as the sum of its digits' weights. */
  lemma SymbolValue(enc: Encoder, w: Word)
    ensures Symbol(enc, w) == if enc.withOutputBits
      then 8 * G0(w) + 4 * (w % 2) + 2 * G1(w) + G2(w)
      else 4 * G0(w) + 2 * G1(w) + G2(w)
  {
    GroupValue(enc, w);
  }

  // ---------------------------------------------------------------------
  // Look-ups.

  /** output(previousState, input): the symbol of that cell; an index outside
      the table is an ArrayIndexOutOfBoundsException. */
  function Output(lut: Lut, previousState: int, input: int): (r: Result<Word>)
    requires lut.Valid()
    ensures r.Ok? <==> 0 <= previousState < lut.numStates && 0 <= input < 2
    ensures r.Ok? ==> r.value == Symbol(lut.encoder, Window(previousState, input == 1))
    ensures r.Throws? ==> r.exception == IndexOutOfBounds
  {
    if 0 <= previousState < |lut.table| && 0 <= input < |lut.table[previousState]| then
      Ok(lut.table[previousState][input].output)
    else
      Throws(IndexOutOfBounds)
  }

  /** nextState(previousState, input): the state of that cell; an index
      outside the table is an ArrayIndexOutOfBoundsException. */
  function NextState(lut: Lut, previousState: int, input: int): (r: Result<Word>)
    requires lut.Valid()
    ensures r.Ok? <==> 0 <= previousState < lut.numStates && 0 <= input < 2
    ensures r.Ok? ==> r.value == NextRegister(previousState, input == 1)
    ensures r.Throws? ==> r.exception == IndexOutOfBounds
  {
    if 0 <= previousState < |lut.table| && 0 <= input < |lut.table[previousState]| then
      Ok(lut.table[previousState][input].nextState)
    else
      Throws(IndexOutOfBounds)
  }

  // ---------------------------------------------------------------------
  // Properties of the table.

  /** The next state keeps the state's bits 1..7 as its bits 0..6 and takes
      the input as bit 7, so it is again a state. */
  lemma NextStateShifts(lut: Lut, s: nat, b: nat)
    requires lut.Valid() && s < lut.numStates && b < 2
    ensures NextState(lut, s, b).value < lut.numStates
    ensures NextState(lut, s, b).value == s / 2 + 128 * b
  {
    Pow2Values();
  }

  /** The two successors of a state differ in bit 7 only. */
  lemma SuccessorsDiffer(lut: Lut, s: nat)
    requires lut.Valid() && s < lut.numStates
    ensures NextState(lut, s, 1).value == NextState(lut, s, 0).value + 128
  {
    NextStateShifts(lut, s, 0);
    NextStateShifts(lut, s, 1);
  }

  /** A symbol has as many digits as the encoder emits per input bit, and
      with output bits its digit of weight 4 is the oldest window bit, the
      low bit of the state. */
  lemma OutputDigits(lut: Lut, s: nat, b: nat)
    requires lut.Valid() && s < lut.numStates && b < 2
    ensures Output(lut, s, b).value < Pow2(lut.encoder.OutputLength())
    ensures lut.encoder.withOutputBits ==> (Output(lut, s, b).value / 4) % 2 == s % 2
  {
    Pow2Values();
    var w := Window(s, b == 1);
    if lut.encoder.withOutputBits {
      OldestDigit(lut.encoder, w);
      assert w % 2 == s % 2 by {
        DivModOfMultiple(s % 2, 2, s / 2 + 128 * b);
      }
    }
  }

  /** With output bits, the digit of weight 4 of a symbol is the oldest bit
      of its window. */
  lemma OldestDigit(enc: Encoder, w: Word)
    requires enc.withOutputBits
    ensures (Symbol(enc, w) / 4) % 2 == w % 2
  {
    SymbolValue(enc, w);
    var high := 2 * G0(w) + w % 2;
    assert Symbol(enc, w) == 4 * high + (2 * G1(w) + G2(w));
    DivModOfMultiple(2 * G1(w) + G2(w), 4, high);
    DivModOfMultiple(w % 2, 2, G0(w));
  }

  /** The all-zero state with input 0 stays put and emits the zero symbol. */
  lemma ZeroIsFixedPoint(lut: Lut)
    requires lut.Valid()
    ensures NextState(lut, 0, 0) == Ok(0)
    ensures Output(lut, 0, 0) == Ok(0)
  {
    Pow2Values();
    SymbolValue(lut.encoder, 0);
    G0IsTapXor(0);
    G1IsTapXor(0);
    G2IsTapXor(0);
    forall i: nat
      ensures BitValue(0, i) == 0
    {
      BitOfZero(i);
    }
  }

  /** One pass of encode24bits on the word `x` is the table cell for the
      register in its low byte and its bit 8 as input: the text it appends is
      the cell's symbol written with one digit per output bit. */
  lemma TableAgreesWithPass(lut: Lut, x: Word)
    requires lut.Valid()
    ensures Output(lut, x % 256, (x / 256) % 2).Ok?
    ensures Group(lut.encoder, x)
         == Digits(Output(lut, x % 256, (x / 256) % 2).value, lut.encoder.OutputLength())
  {
    Pow2Values();
    WindowOfWord(x);
    assert Bit(x / 256, 0) == ((x / 256) % 2 == 1);
    GroupSeesNineBits(lut.encoder, x);
    DigitsOfValue(Group(lut.encoder, x));
  }

  /** After that pass the word moved right holds the cell's next state in
      its low byte. */
  lemma TableAgreesWithShift(lut: Lut, x: Word)
    requires lut.Valid()
    ensures NextState(lut, x % 256, (x / 256) % 2) == Ok((x / 2) % 256)
  {
    Pow2Values();
    WindowOfWord(x);
    assert Bit(x / 256, 0) == ((x / 256) % 2 == 1);
  }

  /** The encoder driven by the table alone: from state `reg`, each input
      bit looks up its cell, writes the cell's symbol as digits and moves to
      the cell's next state. */
  function TableEncode(lut: Lut, reg: Byte, bits: seq<bool>): string
    requires lut.Valid()
    decreases |bits|
  {
    Pow2Values();
    if bits == [] then []
    else
      var b := if bits[0] then 1 else 0;
      Digits(Output(lut, reg, b).value, lut.encoder.OutputLength())
        + TableEncode(lut, NextState(lut, reg, b).value, bits[1..])
  }

  /** Driving the table gives the text of the bit-serial encoder, for every
      start state and input stream. */
  lemma {:induction false} TableEncodeIsSerial(lut: Lut, reg: Byte, bits: seq<bool>)
    requires lut.Valid()
    ensures TableEncode(lut, reg, bits) == SerialEncode(lut.encoder, reg, bits)
    decreases |bits|
  {
    Pow2Values();
    if bits != [] {
      var b := if bits[0] then 1 else 0;
      DigitsOfValue(Group(lut.encoder, Window(reg, bits[0])));
      TableEncodeIsSerial(lut, NextRegister(reg, bits[0]), bits[1..]);
    }
  }

  /** Any state reaches any other in `delay` steps: the eight bits of the
      target, least significant first, lead there from every state. */
  lemma DelayStepsReachEveryState(s: Byte, t: Byte)
    ensures SerialRegister(s, LowBits(t, Delay)) == t
  {
    Pow2Values();
    var x := 256 * t + s;
    DivModOfMultiple(s, 256, t);
    RegisterIsShift(x, Delay);
    DivModOfMultiple(t, 256, 0);
  }

  /** Fewer than `delay` steps do not reach every state: whatever the input,
      after `n < delay` steps the low bit of the state is bit `n` of the
      start state, so half of the states are out of reach. */
  lemma {:induction false} FewerStepsFixLowBit(s: Byte, bits: seq<bool>)
    requires |bits| < Delay
    ensures SerialRegister(s, bits) % 2 == BitValue(s, |bits|)
    decreases |bits|
  {
    if bits != [] {
      var n := |bits|;
      var r := NextRegister(s, bits[0]);
      FewerStepsFixLowBit(r, bits[1..]);
      assert Pow2(7) == 128;
      BitOfMod(r, 7, n - 1);
    }
  }
}
