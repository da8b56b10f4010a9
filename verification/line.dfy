/**
 Reading a frame off the bit-serial line (the first half of `Urica::measure`).

 The sensor is the clock master. For each of the 13 * 4 bits the firmware waits
 while the clock is low, then while it is high, and then samples the data line.
 Each of the two half-waits re-reads the tick counter while waiting and gives up
 with `Timeout` as soon as more than 40 ticks have elapsed since the wait began.

 A pin cannot be sampled here, so one bit of the line is a `BitSample`: the
 elapsed ticks the firmware saw at the last tick read of each half-wait, and the
 level of the data line at the falling clock edge.
 */
module Line {
  import opened Bits
  import opened Frame

  const HalfWaitTimeout: nat := 40
  const BitsPerNibble: nat := 4
  const FrameBits: nat := 52

  /** One strobed bit: ticks seen elapsed in the clock-low wait and in the
      clock-high wait, and the data level sampled after the falling edge. */
  datatype BitSample = BitSample(lowWait: nat, highWait: nat, data: bool)

  /** A half-wait gives up when it sees strictly more than 40 ticks elapsed. */
  predicate Stalled(s: BitSample)
  {
    s.lowWait > HalfWaitTimeout || s.highWait > HalfWaitTimeout
  }

  /** The index of the first stalled bit, or `|samples|` when none stalls. */
  function FirstStall(samples: seq<BitSample>): (j: nat)
    ensures j <= |samples|
    ensures forall k :: 0 <= k < j ==> !Stalled(samples[k])
    ensures j < |samples| ==> Stalled(samples[j])
  {
    if |samples| == 0 then 0
    else if Stalled(samples[0]) then 0
    else 1 + FirstStall(samples[1..])
  }

  /** The data levels of a run of samples. */
  function DataBits(group: seq<BitSample>): (bits: seq<bool>)
    ensures |bits| == |group|
    ensures forall j :: 0 <= j < |group| ==> bits[j] == group[j].data
  {
    seq(|group|, j requires 0 <= j < |group| => group[j].data)
  }

  /** The value of nibble `n`: its four data bits, first sampled least significant. */
  function NibbleAt(samples: seq<BitSample>, n: nat): (v: nat)
    requires 4 * n + 4 <= |samples|
    ensures v < 16
  {
    LsbFirstValue(DataBits(samples[4 * n..4 * n + 4]))
  }

  /** What the line delivered: a whole frame, or a timeout during nibble `nibble`. */
  datatype LineOutcome = Complete(nibbles: seq<nat>) | TimedOutIn(nibble: nat)
  {
    predicate Valid()
    {
      match this
      case Complete(ns) => |ns| == FrameNibbles && NibblesInRange(ns)
      case TimedOutIn(k) => k < FrameNibbles
    }
  }

  /** The reference reading of a line: the nibble holding the first stalled bit if
      any bit stalls, otherwise the 13 assembled nibbles. */
  function ReadLine(samples: seq<BitSample>): (line: LineOutcome)
    requires |samples| == FrameBits
    ensures line.Valid()
    ensures line.TimedOutIn? <==> exists j :: 0 <= j < FrameBits && Stalled(samples[j])
    ensures line.TimedOutIn? ==>
              && (forall j :: 0 <= j < BitsPerNibble * line.nibble ==> !Stalled(samples[j]))
              && exists j :: BitsPerNibble * line.nibble <= j < BitsPerNibble * line.nibble + BitsPerNibble
                             && Stalled(samples[j])
    ensures line.Complete? ==> line.nibbles == AssembledNibbles(samples)
  {
    var j := FirstStall(samples);
    if j < FrameBits then TimedOutIn(j / BitsPerNibble) else Complete(AssembledNibbles(samples))
  }

  /** The 13 nibbles of a line, each assembled from its four samples. */
  function AssembledNibbles(samples: seq<BitSample>): (ns: seq<nat>)
    requires |samples| == FrameBits
    ensures |ns| == FrameNibbles && NibblesInRange(ns)
    ensures forall n :: 0 <= n < FrameNibbles ==> ns[n] == NibbleAt(samples, n)
  {
    seq(FrameNibbles, n requires 0 <= n < FrameNibbles => NibbleAt(samples, n))
  }

  /** The result of a measurement together with the level the request line is
      left at. */
  datatype Measurement = Measurement(result: Result<Reading>, requestHigh: bool)

  /** The measurement a line outcome produces. The request line goes high before
      nibble 0 and low once nibble 0 is complete, so only a timeout during
      nibble 0 leaves it high; a timeout is reported before any start-marker check. */
  function MeasureLine(line: LineOutcome): (m: Measurement)
    requires line.Valid()
    ensures m.result == Err(Timeout) <==> line.TimedOutIn?
    ensures m.requestHigh <==> line == TimedOutIn(0)
    ensures line.Complete? ==> m.result == Decode(line.nibbles)
  {
    match line
    case TimedOutIn(k) => Measurement(Err(Timeout), k == 0)
    case Complete(ns) => Measurement(Decode(ns), false)
  }

  /** The firmware's inner loop for nibble `i`: four bits, each waited for with
      both half-waits bounded by 40 ticks and shifted in from the top of an 8-bit
      accumulator. Reports whether a half-wait timed out instead. */
  method ReadNibble(samples: seq<BitSample>, i: nat) returns (k: bv8, timedOut: bool)
    requires 4 * i + 4 <= |samples|
    ensures timedOut <==> exists j :: 4 * i <= j < 4 * i + 4 && Stalled(samples[j])
    ensures timedOut ==> FirstStall(samples[4 * i..]) < 4
    ensures !timedOut ==> k as int == NibbleAt(samples, i)
  {
    var base := BitsPerNibble * i;
    ghost var group := samples[base..base + BitsPerNibble];
    ghost var bits := DataBits(group);
    k := 0;
    var b := 0;
    while b < BitsPerNibble
      invariant 0 <= b <= BitsPerNibble
      invariant forall j :: base <= j < base + b ==> !Stalled(samples[j])
      invariant k as int == LsbFirstValue(bits[..b]) * Pow2(BitsPerNibble - b)
    {
      var s := samples[base + b];
      if s.lowWait > HalfWaitTimeout || s.highWait > HalfWaitTimeout {
        ghost var rest := samples[base..];
        assert rest[b] == s && Stalled(rest[b]);
        return k, true;
      }
      assert bits[b] == s.data;
      ShiftInStep(k, bits, b);
      k := ShiftIn(k, s.data);
      b := b + 1;
    }
    assert bits[..BitsPerNibble] == bits;
    assert Pow2(0) == 1;
    timedOut := false;
  }

  /** If no bit before index `p` stalls and bit `p` does, `p` is the first stall. */
  lemma FirstStallAt(samples: seq<BitSample>, p: nat)
    requires p < |samples| && Stalled(samples[p])
    requires forall j :: 0 <= j < p ==> !Stalled(samples[j])
    ensures FirstStall(samples) == p
  {
  }

  /** The firmware's measurement loop: raise the request line, read 13 nibbles,
      drop the request line after nibble 0, then decode the frame. */
  method Measure(samples: seq<BitSample>) returns (m: Measurement)
    requires |samples| == FrameBits
    ensures m.result == Err(Timeout) <==> exists j :: 0 <= j < FrameBits && Stalled(samples[j])
    ensures m.requestHigh <==> exists j :: 0 <= j < BitsPerNibble && Stalled(samples[j])
    ensures (forall j :: 0 <= j < FrameBits ==> !Stalled(samples[j])) ==>
              m.result == Decode(AssembledNibbles(samples))
    ensures m == MeasureLine(ReadLine(samples))
  {
    var request := true;
    var data: seq<nat> := [];
    var i := 0;
    while i < FrameNibbles
      invariant 0 <= i <= FrameNibbles
      invariant |data| == i
      invariant forall j :: 0 <= j < BitsPerNibble * i ==> !Stalled(samples[j])
      invariant forall n :: 0 <= n < i ==> data[n] == NibbleAt(samples, n)
      invariant request <==> i == 0
    {
      var k, timedOut := ReadNibble(samples, i);
      if timedOut {
        ghost var p := 4 * i + FirstStall(samples[4 * i..]);
        assert samples[4 * i..][p - 4 * i] == samples[p];
        FirstStallAt(samples, p);
        assert p / BitsPerNibble == i;
        m := Measurement(Err(Timeout), request);
        return;
      }
      if i == 0 {
        request := false;
      }
      data := data + [k as nat];
      i := i + 1;
    }
    assert FirstStall(samples) == FrameBits;
    assert data == AssembledNibbles(samples);
    m := Measurement(Decode(data), request);
  }
}
