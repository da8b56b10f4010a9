/**
 Decoding one 13-nibble sensor frame (the second half of `Urica::measure`).

 Layout: nibbles 0-3 are the start marker 0xF; nibble 4 is the sign (0x8 means
 negative); nibbles 5-10 are six digits, most significant first; nibble 11 is
 the number of decimal places; nibble 12 is not read by the decoder.

 The firmware computes the value in single-precision floating point. The model
 decodes exactly into a `Reading` (sign, integer magnitude, decimal shift); the
 value it denotes is `+-magnitude / 10^decimalShift`.
 */
module Frame {
  import opened Decimal

  const FrameNibbles: nat := 13
  const StartNibbles: nat := 4
  const StartMarker: nat := 0xF
  const SignNibble: nat := 4
  const NegativeSign: nat := 0x8
  const FirstDigit: nat := 5
  const DigitCount: nat := 6
  const DecimalNibble: nat := 11
  const ReservedNibble: nat := 12

  /** The two ways a measurement can fail. */
  datatype MeasurementError = Timeout | InvalidStart

  /** An exactly decoded reading. */
  datatype Reading = Reading(negative: bool, magnitude: nat, decimalShift: nat)
  {
    /** The decimal value the reading denotes. */
    function Value(): real
    {
      (if negative then -1.0 else 1.0) * (magnitude as real) / (Pow10(decimalShift) as real)
    }
  }

  datatype Result<T> = Ok(value: T) | Err(error: MeasurementError)

  /** Every nibble in the frame fits in four bits. */
  predicate NibblesInRange(ns: seq<nat>)
  {
    forall i :: 0 <= i < |ns| ==> ns[i] < 16
  }

  /** Nibbles 0-3 all hold the start marker. */
  predicate HasStartMarker(ns: seq<nat>)
    requires |ns| == FrameNibbles
  {
    forall i :: 0 <= i < StartNibbles ==> ns[i] == StartMarker
  }

  /** The six digit nibbles, most significant first. */
  function DigitNibbles(ns: seq<nat>): (ds: seq<nat>)
    requires |ns| == FrameNibbles
    ensures |ds| == DigitCount
  {
    ns[FirstDigit..FirstDigit + DigitCount]
  }

  /** Decode a frame: fail with `InvalidStart` unless nibbles 0-3 are the start
      marker, otherwise read sign, digits and decimal shift. Digit nibbles are
      taken as they are, values 10-15 included. */
  function Decode(ns: seq<nat>): (r: Result<Reading>)
    requires |ns| == FrameNibbles
    ensures r.Err? <==> exists i :: 0 <= i < StartNibbles && ns[i] != StartMarker
    ensures r.Err? ==> r.error == InvalidStart
    ensures r.Ok? ==> (r.value.negative <==> ns[SignNibble] == NegativeSign)
    ensures r.Ok? ==> r.value.decimalShift == ns[DecimalNibble]
    ensures r.Ok? ==> r.value.Value() * (Pow10(ns[DecimalNibble]) as real)
                      == (if ns[SignNibble] == NegativeSign then -1.0 else 1.0)
                         * (ns[5] * 100000 + ns[6] * 10000 + ns[7] * 1000
                            + ns[8] * 100 + ns[9] * 10 + ns[10]) as real
  {
    if !HasStartMarker(ns) then
      Err(InvalidStart)
    else
      var magnitude := ns[5] * 100000 + ns[6] * 10000 + ns[7] * 1000
                       + ns[8] * 100 + ns[9] * 10 + ns[10];
      Ok(Reading(ns[SignNibble] == NegativeSign, magnitude, ns[DecimalNibble]))
  }

  /** The magnitude of a decoded frame is the positional value of its six digit
      nibbles, most significant first. */
  lemma DecodedMagnitude(ns: seq<nat>)
    requires |ns| == FrameNibbles
    ensures Decode(ns).Ok? ==> Decode(ns).value.magnitude == DigitValue(DigitNibbles(ns))
  {
    var ds := DigitNibbles(ns);
    assert ds[0] == ns[5] && ds[1] == ns[6] && ds[2] == ns[7];
    assert ds[3] == ns[8] && ds[4] == ns[9] && ds[5] == ns[10];
    SixDigits(ds);
  }

  /** The digit sum of a six-digit string written out term by term. */
  lemma SixDigits(ds: seq<nat>)
    requires |ds| == 6
    ensures DigitValue(ds) == ds[0] * 100000 + ds[1] * 10000 + ds[2] * 1000
                              + ds[3] * 100 + ds[4] * 10 + ds[5]
  {
    assert Pow10(1) == 10 && Pow10(2) == 100 && Pow10(3) == 1000;
    assert Pow10(4) == 10000 && Pow10(5) == 100000;
    assert DigitValue(ds[5..]) == ds[5] by { assert ds[5..][1..] == []; }
    assert DigitValue(ds[4..]) == ds[4] * 10 + DigitValue(ds[5..]) by { assert ds[4..][1..] == ds[5..]; }
    assert DigitValue(ds[3..]) == ds[3] * 100 + DigitValue(ds[4..]) by { assert ds[3..][1..] == ds[4..]; }
    assert DigitValue(ds[2..]) == ds[2] * 1000 + DigitValue(ds[3..]) by { assert ds[2..][1..] == ds[3..]; }
    assert DigitValue(ds[1..]) == ds[1] * 10000 + DigitValue(ds[2..]) by { assert ds[1..][1..] == ds[2..]; }
  }

  /** The frame a sensor sends for a reading whose magnitude has at most six
      digits and whose decimal shift fits in a nibble; `reserved` is nibble 12. */
  function EncodeFrame(r: Reading, reserved: nat): (ns: seq<nat>)
    requires r.magnitude < Pow10(DigitCount) && r.decimalShift < 16 && reserved < 16
    ensures |ns| == FrameNibbles
  {
    [StartMarker, StartMarker, StartMarker, StartMarker,
     if r.negative then NegativeSign else 0]
    + DecimalDigits(r.magnitude, DigitCount)
    + [r.decimalShift, reserved]
  }

  /** A frame as the sensor sends it: start marker, sign 0x0 or 0x8, decimal digits. */
  predicate SensorFrame(ns: seq<nat>)
  {
    && |ns| == FrameNibbles
    && NibblesInRange(ns)
    && HasStartMarker(ns)
    && (ns[SignNibble] == 0 || ns[SignNibble] == NegativeSign)
    && AllDecimal(DigitNibbles(ns))
  }

  /** Decoding an encoded reading gives the reading back, whatever nibble 12 holds. */
  lemma DecodeEncode(r: Reading, reserved: nat)
    requires r.magnitude < Pow10(DigitCount) && r.decimalShift < 16 && reserved < 16
    ensures SensorFrame(EncodeFrame(r, reserved))
    ensures Decode(EncodeFrame(r, reserved)) == Ok(r)
  {
    var ns := EncodeFrame(r, reserved);
    assert DigitNibbles(ns) == DecimalDigits(r.magnitude, DigitCount);
    DecimalDigitsRoundTrip(r.magnitude, DigitCount);
    DecodedMagnitude(ns);
  }

  /** Every frame the sensor can send decodes successfully, and encoding the
      result (with the same nibble 12) reproduces the frame. */
  lemma EncodeDecode(ns: seq<nat>)
    requires SensorFrame(ns)
    ensures Decode(ns).Ok?
    ensures Decode(ns).value.magnitude < Pow10(DigitCount)
    ensures EncodeFrame(Decode(ns).value, ns[ReservedNibble]) == ns
  {
    var ds := DigitNibbles(ns);
    DigitValueRoundTrip(ds);
    DecodedMagnitude(ns);
    var r := Decode(ns).value;
    var back := EncodeFrame(r, ns[ReservedNibble]);
    assert back[5..11] == ds;
    assert forall i :: 0 <= i < FrameNibbles ==> back[i] == ns[i];
  }

  /** Nibble 12 never affects the decoded result. */
  lemma DecodeIgnoresReserved(ns: seq<nat>, x: nat)
    requires |ns| == FrameNibbles
    ensures Decode(ns[ReservedNibble := x]) == Decode(ns)
  {
    assert DigitNibbles(ns[ReservedNibble := x]) == DigitNibbles(ns);
  }

  /** The integer magnitude of any frame is at most 1 666 665 (six digit nibbles
      of at most 15), so it is below 2^24. Only this integer bound is proved.
      That the firmware's single-precision sum is then exact also needs
      `10f32.powi(k)` to be exact for k <= 5 and every partial sum and product
      to stay below 2^24; that part of the argument is informal. */
  lemma MagnitudeExactInSingle(ns: seq<nat>)
    requires |ns| == FrameNibbles && NibblesInRange(ns)
    ensures Decode(ns).Ok? ==> Decode(ns).value.magnitude <= 1666665 < 0x100_0000
  {
    var ds := DigitNibbles(ns);
    assert forall i :: 0 <= i < |ds| ==> ds[i] < 16;
    DigitValueBound(ds);
    DecodedMagnitude(ns);
  }

  /** Digit nibbles 10-15 are accepted unchecked, so two different frames can
      denote the same reading: digits 0,0,0,0,1,10 read as 20, like 0,0,0,0,2,0. */
  lemma OutOfRangeDigitAccepted()
    ensures Decode([15, 15, 15, 15, 0, 0, 0, 0, 0, 1, 10, 0, 0]) == Ok(Reading(false, 20, 0))
    ensures Decode([15, 15, 15, 15, 0, 0, 0, 0, 0, 2, 0, 0, 0]) == Ok(Reading(false, 20, 0))
  {
    var a: seq<nat> := [15, 15, 15, 15, 0, 0, 0, 0, 0, 1, 10, 0, 0];
    var b: seq<nat> := [15, 15, 15, 15, 0, 0, 0, 0, 0, 2, 0, 0, 0];
    assert HasStartMarker(a) && HasStartMarker(b);
  }
}
