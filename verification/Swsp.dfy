/** The SWSP frame codec: an eight-byte little-endian header and a payload. */
module Swsp {
  import opened Common

  const HEADER_LEN := 8
  const DEFAULT_MAX_PAYLOAD_LEN := 16 * 1024

  /** Validated flags: only the four known bits can be set. */
  type FrameFlags = b: int | 0 <= b < 16

  const SYN: FrameFlags := 1
  const MORE: FrameFlags := 2
  const FIN: FrameFlags := 4
  const DAT: FrameFlags := 8
  const DAT_MORE: FrameFlags := 10
  const DAT_FIN: FrameFlags := 12

  predicate IsSyn(f: FrameFlags) { f % 2 == 1 }
  predicate IsMore(f: FrameFlags) { f / 2 % 2 == 1 }
  predicate IsFin(f: FrameFlags) { f / 4 % 2 == 1 }
  predicate IsDat(f: FrameFlags) { f / 8 % 2 == 1 }

  datatype FrameError =
    | Incomplete(expected: nat, actual: nat)
    | UnknownFlags(bits: nat)
    | PayloadTooLarge(length: nat, maximum: nat)
    | LengthOverflow(overflow: nat)
    | InvalidMaximum

  datatype Frame = Frame(streamId: u32, flags: FrameFlags, payload: seq<byte>)

  datatype Decoded = Decoded(frame: Frame, consumed: nat)

  // ---- Header fields -------------------------------------------------------

  function Le16(n: int): (r: seq<byte>)
    requires 0 <= n <= U16_MAX
  {
    [n % 256, n / 256]
  }

  function Le32(n: u32): (r: seq<byte>) {
    [n % 256, n / 256 % 256, n / 256 / 256 % 256, n / 256 / 256 / 256]
  }

  function FromLe16(a: byte, b: byte): int { a + 256 * b }

  function FromLe32(a: byte, b: byte, c: byte, d: byte): u32 {
    a + 256 * b + 0x1_0000 * c + 0x100_0000 * d
  }

  /** Bits above the low four are unknown: `bits & !KNOWN_FLAGS` is `bits - bits % 16`. */
  function FlagsFromBits(bits: nat): (r: Result<FrameFlags, FrameError>)
    ensures r.Ok? <==> bits < 16
    ensures r.Ok? ==> r.value == bits
  {
    if bits < 16 then Ok(bits) else Err(UnknownFlags(bits / 16 * 16))
  }

  function Bit(on: bool, value: nat): nat { if on then value else 0 }

  function FlagBits(syn: bool, more: bool, fin: bool, dat: bool): nat {
    Bit(syn, SYN) + Bit(more, MORE) + Bit(fin, FIN) + Bit(dat, DAT)
  }

  /**
   * Flags are sets of the four known bits: every combination is accepted and each test reads back its
   * own bit, whatever is accepted is such a combination, and what is refused is reported without the
   * known bits it also carries.
   */
  lemma FlagsAreTheirBits(bits: nat, syn: bool, more: bool, fin: bool, dat: bool)
    ensures var r := FlagsFromBits(FlagBits(syn, more, fin, dat));
      r.Ok? && IsSyn(r.value) == syn && IsMore(r.value) == more && IsFin(r.value) == fin && IsDat(r.value) == dat
    ensures var r := FlagsFromBits(bits);
      if r.Ok? then bits == FlagBits(IsSyn(r.value), IsMore(r.value), IsFin(r.value), IsDat(r.value))
      else
        && r.error.UnknownFlags? && r.error.bits > 0 && r.error.bits % 16 == 0
        && FlagsFromBits(bits - r.error.bits).Ok?
  {
  }

  /** `validate_maximum` followed by `validate_payload_len`. */
  function LengthError(length: nat, maximum: nat): (r: Option<FrameError>)
    ensures r.None? <==> length <= maximum <= U16_MAX
    ensures r == Some(InvalidMaximum) <==> maximum > U16_MAX
    ensures r == Some(LengthOverflow(length)) <==> maximum <= U16_MAX < length
    ensures r == Some(PayloadTooLarge(length, maximum)) <==> maximum < length <= U16_MAX
  {
    if maximum > U16_MAX then Some(InvalidMaximum)
    else if length > U16_MAX then Some(LengthOverflow(length))
    else if length > maximum then Some(PayloadTooLarge(length, maximum))
    else None
  }

  function Header(f: Frame): (r: seq<byte>)
    requires |f.payload| <= U16_MAX
    ensures |r| == HEADER_LEN
  {
    Le32(f.streamId) + Le16(f.flags) + Le16(|f.payload|)
  }

  /** The bytes of a frame, as a value. */
  function Encoded(f: Frame, maximum: nat): Result<seq<byte>, FrameError> {
    match LengthError(|f.payload|, maximum)
    case Some(e) => Err(e)
    case None => Ok(Header(f) + f.payload)
  }

  /** The encoder: four successive extensions of a growing buffer. */
  method EncodeWithLimit(f: Frame, maximum: nat) returns (r: Result<seq<byte>, FrameError>)
    ensures r == Encoded(f, maximum)
    ensures r.Ok? <==> |f.payload| <= maximum <= U16_MAX
    ensures r.Ok? ==> |r.value| == HEADER_LEN + |f.payload|
  {
    var invalid := LengthError(|f.payload|, maximum);
    if invalid.Some? {
      return Err(invalid.value);
    }
    var encoded: seq<byte> := [];
    encoded := encoded + Le32(f.streamId);
    encoded := encoded + Le16(f.flags);
    encoded := encoded + Le16(|f.payload|);
    encoded := encoded + f.payload;
    assert encoded == Header(f) + f.payload;
    r := Ok(encoded);
  }

  /** Decodes the first frame of `input` and reports how many bytes it used. */
  function Decode(input: seq<byte>, maximum: nat): (r: Result<Decoded, FrameError>)
    ensures r.Ok? ==> HEADER_LEN <= r.value.consumed <= |input|
  {
    if maximum > U16_MAX then Err(InvalidMaximum)
    else if |input| < HEADER_LEN then Err(Incomplete(HEADER_LEN, |input|))
    else
      var flags := FlagsFromBits(FromLe16(input[4], input[5]));
      if flags.Err? then Err(flags.error)
      else
        var length := FromLe16(input[6], input[7]);
        var invalid := LengthError(length, maximum);
        if invalid.Some? then Err(invalid.value)
        else
          var end := HEADER_LEN + length;
          if |input| < end then Err(Incomplete(end, |input|))
          else
            var id := FromLe32(input[0], input[1], input[2], input[3]);
            Ok(Decoded(Frame(id, flags.value, input[HEADER_LEN..end]), end))
  }

  // ---- One frame -----------------------------------------------------------

  lemma Digit(q: int, r: byte)
    ensures (256 * q + r) % 256 == r && (256 * q + r) / 256 == q
  {
  }

  lemma FieldsHeader(a: byte, b: byte)
    ensures Le16(FromLe16(a, b)) == [a, b]
  {
  }

  /** An encoded frame is read back whatever bytes follow it. */
  lemma DecodeEncoded(f: Frame, maximum: nat, rest: seq<byte>)
    requires Encoded(f, maximum).Ok?
    ensures var bytes := Encoded(f, maximum).value;
      Decode(bytes + rest, maximum) == Ok(Decoded(f, |bytes|))
  {
  }

  lemma FieldsId(a: byte, b: byte, c: byte, d: byte)
    ensures Le32(FromLe32(a, b, c, d)) == [a, b, c, d]
  {
    var c' := 256 * d + c;
    var b' := 256 * c' + b;
    assert FromLe32(a, b, c, d) == 256 * b' + a;
    Digit(b', a);
    Digit(c', b);
    Digit(d, c);
  }

  /** Whatever decodes is the encoding of what it decodes to: exactly the bytes consumed. */
  lemma EncodeDecoded(input: seq<byte>, maximum: nat)
    requires Decode(input, maximum).Ok?
    ensures var d := Decode(input, maximum).value;
      Encoded(d.frame, maximum) == Ok(input[..d.consumed])
  {
    var d := Decode(input, maximum).value;
    var f := d.frame;
    assert Le32(f.streamId) == input[0..4] by {
      FieldsId(input[0], input[1], input[2], input[3]);
    }
    assert Le16(f.flags) == input[4..6] by { FieldsHeader(input[4], input[5]); }
    assert Le16(|f.payload|) == input[6..8] by { FieldsHeader(input[6], input[7]); }
    assert Header(f) == input[0..4] + input[4..6] + input[6..8] == input[..8];
    assert input[..8] + input[8..d.consumed] == input[..d.consumed];
  }

  /** Every proper prefix of an encoding asks for more bytes, and never for more than there are. */
  lemma ProperPrefixIncomplete(f: Frame, maximum: nat, n: nat)
    requires Encoded(f, maximum).Ok? && n < |Encoded(f, maximum).value|
    ensures var bytes := Encoded(f, maximum).value;
      var r := Decode(bytes[..n], maximum);
      && r.Err? && r.error.Incomplete?
      && r.error.actual == n < r.error.expected <= |bytes|
  {
  }

  /** More input changes nothing but `Incomplete`. */
  lemma DecodeStable(input: seq<byte>, more: seq<byte>, maximum: nat)
    requires var r := Decode(input, maximum); r.Err? ==> !r.error.Incomplete?
    ensures Decode(input + more, maximum) == Decode(input, maximum)
  {
    if |input| >= HEADER_LEN {
      forall k | 0 <= k < HEADER_LEN ensures (input + more)[k] == input[k] {}
      var r := Decode(input, maximum);
      if r.Ok? {
        assert (input + more)[HEADER_LEN..r.value.consumed] == input[HEADER_LEN..r.value.consumed];
      }
    }
  }

  /** No encoding is a prefix of the encoding of another frame. */
  lemma EncodingsPrefixFree(f: Frame, g: Frame, maximum: nat)
    requires Encoded(f, maximum).Ok? && Encoded(g, maximum).Ok?
    requires Encoded(f, maximum).value <= Encoded(g, maximum).value
    ensures f == g
  {
    var a, b := Encoded(f, maximum).value, Encoded(g, maximum).value;
    DecodeEncoded(f, maximum, b[|a|..]);
    DecodeEncoded(g, maximum, []);
    assert a + b[|a|..] == b == b + [];
  }

  // ---- A stream of frames --------------------------------------------------

  datatype Parse = Parse(frames: seq<Frame>, rest: seq<byte>, error: Option<FrameError>)

  /** Decodes frames until the input is incomplete or malformed. */
  function Drain(input: seq<byte>, maximum: nat): Parse
    decreases |input|
  {
    match Decode(input, maximum)
    case Err(e) => Parse([], input, if e.Incomplete? then None else Some(e))
    case Ok(d) =>
      var p := Drain(input[d.consumed..], maximum);
      Parse([d.frame] + p.frames, p.rest, p.error)
  }

  ghost predicate AllEncodable(frames: seq<Frame>, maximum: nat) {
    maximum <= U16_MAX && forall i :: 0 <= i < |frames| ==> |frames[i].payload| <= maximum
  }

  function EncodedAll(frames: seq<Frame>, maximum: nat): seq<byte>
    requires AllEncodable(frames, maximum)
  {
    if frames == [] then []
    else Encoded(frames[0], maximum).value + EncodedAll(frames[1..], maximum)
  }

  /** Repeated decoding of concatenated encodings returns exactly the frames that went in. */
  lemma {:induction false} DrainEncodedAll(frames: seq<Frame>, maximum: nat)
    requires AllEncodable(frames, maximum)
    ensures Drain(EncodedAll(frames, maximum), maximum) == Parse(frames, [], None)
  {
    if frames != [] {
      var head := Encoded(frames[0], maximum).value;
      var tail := EncodedAll(frames[1..], maximum);
      DecodeEncoded(frames[0], maximum, tail);
      assert (head + tail)[|head|..] == tail;
      DrainEncodedAll(frames[1..], maximum);
      assert [frames[0]] + frames[1..] == frames;
    }
  }

  lemma EncodedAllCons(f: Frame, frames: seq<Frame>, maximum: nat)
    requires Encoded(f, maximum).Ok? && AllEncodable(frames, maximum)
    ensures AllEncodable([f] + frames, maximum)
    ensures EncodedAll([f] + frames, maximum) == Encoded(f, maximum).value + EncodedAll(frames, maximum)
  {
  }

  /** What the frames and the rest of a parse spell out is the input itself. */
  lemma {:induction false} DrainKeepsBytes(input: seq<byte>, maximum: nat)
    requires maximum <= U16_MAX
    ensures var p := Drain(input, maximum);
      AllEncodable(p.frames, maximum) && EncodedAll(p.frames, maximum) + p.rest == input
    decreases |input|
  {
    var r := Decode(input, maximum);
    if r.Ok? {
      DrainKeepsBytesStep(input, r.value, maximum);
    }
  }

  lemma {:induction false} DrainKeepsBytesStep(input: seq<byte>, d: Decoded, maximum: nat)
    requires maximum <= U16_MAX && Decode(input, maximum) == Ok(d)
    ensures var p := Drain(input, maximum);
      AllEncodable(p.frames, maximum) && EncodedAll(p.frames, maximum) + p.rest == input
    decreases |input|, 0
  {
    hide Decode, Encoded;
    var tail := input[d.consumed..];
    var p := Drain(tail, maximum);
    assert Drain(input, maximum) == Parse([d.frame] + p.frames, p.rest, p.error);
    assert Encoded(d.frame, maximum) == Ok(input[..d.consumed]) by { EncodeDecoded(input, maximum); }
    DrainKeepsBytes(tail, maximum);
    EncodedAllCons(d.frame, p.frames, maximum);
    Glue(input, d.consumed, EncodedAll(p.frames, maximum), p.rest);
  }

  lemma Glue(input: seq<byte>, n: nat, middle: seq<byte>, rest: seq<byte>)
    requires n <= |input| && middle + rest == input[n..]
    ensures input[..n] + middle + rest == input
  {
  }

  function Resumed(p: Parse, more: seq<byte>, maximum: nat): Parse {
    if p.error.Some? then Parse(p.frames, p.rest + more, p.error)
    else var q := Drain(p.rest + more, maximum); Parse(p.frames + q.frames, q.rest, q.error)
  }

  lemma ResumedCons(f: Frame, p: Parse, more: seq<byte>, maximum: nat)
    ensures var q := Resumed(p, more, maximum);
      Resumed(Parse([f] + p.frames, p.rest, p.error), more, maximum) == Parse([f] + q.frames, q.rest, q.error)
  {
    hide Drain;
    if p.error.None? {
      var t := Drain(p.rest + more, maximum);
      assert [f] + (p.frames + t.frames) == [f] + p.frames + t.frames;
    }
  }

  /**
   * A reader that buffers an incomplete tail may cut the stream anywhere: parsing what has
   * arrived and resuming with the buffered rest is the same as parsing everything at once.
   */
  lemma {:induction false} DrainResumes(input: seq<byte>, more: seq<byte>, maximum: nat)
    ensures Drain(input + more, maximum) == Resumed(Drain(input, maximum), more, maximum)
    decreases |input|
  {
    var r := Decode(input, maximum);
    if r.Ok? {
      DrainResumesStep(input, r.value, more, maximum);
    } else if !r.error.Incomplete? {
      DecodeStable(input, more, maximum);
    } else {
      var q := Drain(input + more, maximum);
      assert [] + q.frames == q.frames;
    }
  }

  lemma {:induction false} DrainResumesStep(input: seq<byte>, d: Decoded, more: seq<byte>, maximum: nat)
    requires Decode(input, maximum) == Ok(d)
    ensures Drain(input + more, maximum) == Resumed(Drain(input, maximum), more, maximum)
    decreases |input|, 0
  {
    hide Decode, Resumed;
    var tail := input[d.consumed..];
    DecodeStable(input, more, maximum);
    assert (input + more)[d.consumed..] == tail + more;
    DrainResumes(tail, more, maximum);
    ResumedCons(d.frame, Drain(tail, maximum), more, maximum);
  }
}
