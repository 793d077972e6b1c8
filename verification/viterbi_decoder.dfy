/** The configuration of the hard-decision Viterbi decoder: the encoder it
    decodes for, how many trellis steps it looks back (the decoding depth)
    and the table of encoder transitions. The trellis search itself is not
    part of this model. */
module ViterbiDecoder {
  import opened JavaInt
  import opened EncoderIS95
  import opened StateTransitionLUT

  /** The decoder's fields; the encoder may be null, and `transitions` is
      null until a table is built. */
  datatype Decoder = Decoder(encoder: Option<Encoder>, decodingDepth: int, transitions: Option<Lut>)

  /** The constructor sets the encoder only, null included; the other fields
      keep Java's defaults, 0 and null. */
  function NewDecoder(e: Option<Encoder>): (r: Decoder)
    ensures r.encoder == e && r.decodingDepth == 0 && r.transitions.None?
  {
    Decoder(e, 0, None)
  }

  /** setDecodingDepth: a null encoder fails on its `delay()`; otherwise a
      request below the encoder's delay is raised to the delay, since fewer
      steps do not reach every state of the encoder, and any other request
      is taken as it is. The warning it prints is left out. */
  function SetDecodingDepth(dec: Decoder, d: int): (r: Result<Decoder>)
    ensures dec.encoder.None? <==> r == Throws(NullPointer)
    ensures dec.encoder.Some? <==> r.Ok?
    ensures r.Ok? ==> r.value.decodingDepth >= Delay && r.value.decodingDepth >= d
    ensures r.Ok? ==> r.value.decodingDepth == d || r.value.decodingDepth == Delay
    ensures r.Ok? ==> (d >= Delay <==> r.value.decodingDepth == d)
    ensures r.Ok? ==> r.value.encoder == dec.encoder && r.value.transitions == dec.transitions
  {
    if dec.encoder.None? then Throws(NullPointer)
    else if d < Delay then Ok(dec.(decodingDepth := Delay))
    else Ok(dec.(decodingDepth := d))
  }

  /** A second request on the decoder a first one left, or the first one's
      exception. */
  function SetAgain(r: Result<Decoder>, d: int): Result<Decoder> {
    match r
    case Throws(e) => Throws(e)
    case Ok(dec) => SetDecodingDepth(dec, d)
  }

  /** Setting the depth again to the depth already set changes nothing, and
      setting the same request twice is setting it once. */
  lemma SetDecodingDepthIdempotent(dec: Decoder, d: int)
    ensures SetAgain(SetDecodingDepth(dec, d), d) == SetDecodingDepth(dec, d)
    ensures var r := SetDecodingDepth(dec, d);
      r.Ok? ==> SetDecodingDepth(r.value, r.value.decodingDepth) == r
  {
  }

  /** The last request decides the depth: an earlier one leaves no trace. */
  lemma LastRequestWins(dec: Decoder, d1: int, d2: int)
    ensures SetAgain(SetDecodingDepth(dec, d1), d2) == SetDecodingDepth(dec, d2)
  {
  }

  /** An input of `n >= delay` bits that leads from any state to the state
      `t`: anything, then the eight bits of `t`. */
  function PathTo(n: nat, t: Byte): (bits: seq<bool>)
    requires n >= Delay
    ensures |bits| == n
  {
    seq(n - Delay, i => false) + LowBits(t, Delay)
  }

  /** The last `delay` input bits decide the state, whatever came before. */
  lemma LastBitsDecideState(s: Byte, prefix: seq<bool>, t: Byte)
    ensures SerialRegister(s, prefix + LowBits(t, Delay)) == t
  {
    SerialRegisterAppend(s, prefix, LowBits(t, Delay));
    DelayStepsReachEveryState(SerialRegister(s, prefix), t);
  }

  /** Why the depth is at least the delay: after setDecodingDepth, from every
      state there is an input of exactly decodingDepth bits to every state. */
  lemma DepthReachesEveryState(dec: Decoder, d: int, s: Byte, t: Byte)
    ensures var r := SetDecodingDepth(dec, d);
      r.Ok? ==> SerialRegister(s, PathTo(r.value.decodingDepth, t)) == t
  {
    var r := SetDecodingDepth(dec, d);
    if r.Ok? {
      LastBitsDecideState(s, seq(r.value.decodingDepth - Delay, i => false), t);
    }
  }

  /** A depth below the delay would not do: after fewer steps the state's low
      bit is fixed by the start state, so the state with the other low bit is
      not reached by any input. */
  lemma ShortDepthMissesAState(s: Byte, bits: seq<bool>)
    requires |bits| < Delay
    ensures SerialRegister(s, bits) != (1 - BitValue(s, |bits|))
  {
    FewerStepsFixLowBit(s, bits);
  }
}
