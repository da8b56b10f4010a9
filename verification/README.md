# Mitutoyo sensor channel — a Dafny model

This project models the sensor-channel logic of a firmware that reads Mitutoyo
digital indicators over their bit-serial protocol and publishes the readings
in a Modbus register table. The modelled type is `Urica` (`src/mitutoyo.rs`).
It has two parts:

- **`measure`.** It raises the request line and reads 13 four-bit nibbles off
  the clock/data pair. Every half clock period must end within 40 ticks,
  otherwise the result is `Timeout`. Nibbles 0–3 must be the start marker
  `0xF`, otherwise the result is `InvalidStart`. On success it decodes the
  sign (nibble 4), six digits (nibbles 5–10) and the decimal-point position
  (nibble 11).
- **`poll`.** A two-state machine (idle / setting origin) driven by one coil
  of the register table and the tick counter. A set coil drives the origin
  line high for more than 10 000 ticks, then drops it and clears the coil.
  While idle with the coil clear, it measures and stores the 32-bit pattern
  of the reading in two 16-bit input registers.

Modules, one per concept:

| file | module | contents |
|---|---|---|
| `bits.dfy` | `Bits` | the 8-bit shift-right/OR-into-bit-3 accumulation and its positional value |
| `decimal.dfy` | `Decimal` | the six-digit decimal sum, its inverse, its bound |
| `frame.dfy` | `Frame` | `MeasurementError`, `Reading`, `Decode`, the sensor-side `EncodeFrame` |
| `line.dfy` | `Line` | bit samples with half-wait times, `ReadLine`, the `Measure` loop |
| `network_endian.dfy` | `NetworkEndian` | `to_be_bytes` / `read_u16` and the 16/16 split |
| `registers.dfy` | `Registers` | the 8/8/8/8 register table |
| `urica.dfy` | `Urica` | channel state, `Poll`, runs of polls, the two channels of the main loop |

How the environment is modelled:

- **Tick counter.** The counter is incremented once per timer interrupt
  (`src/main.rs:224-230`). Here it is the `now` argument of `Poll`, and a run
  of polls takes a non-decreasing sequence of ticks.
- **Sensor line.** The line is a sequence of 52 `BitSample`s. Each sample
  holds the elapsed ticks seen by the clock-low wait and by the clock-high
  wait, plus the sampled data level. `Poll` takes the abstract outcome of
  that line: either a 13-nibble frame or "timed out during nibble k".
  `Line.Measure` ties the two together.
- **Pins.** The origin and request output lines are booleans in the channel
  state.
- **Register table.** `ModbusStorage<8,8,8,8>` (`src/main.rs:41`) is an
  immutable `Table`. Each critical section is one atomic read or write.
- **Float pattern.** `Poll` takes the bit pattern of the `f32` value as the
  function argument `floatBits: Reading -> Word32`.
  `Frame.MagnitudeExactInSingle` proves that the digit sum never exceeds
  1 666 665 < 2^24. From this, the firmware's float sum is argued to be exact,
  so the pattern is determined by the decoded `Reading`. That last step also
  needs `10f32.powi(k)` to be exact for k ≤ 5 and every partial product to stay
  below 2^24; it is argued informally, not proved.

Nibble bit order: each sample enters the accumulator at bit 3 and is moved
right by every later sample, so the first sample of a nibble becomes bit 0
(`src/mitutoyo.rs:93-95`). `Bits.FourShiftIns` states this.

## Model

| member | source | states |
|---|---|---|
| `Bits.ShiftIn` | src/mitutoyo.rs:93-95 | on an accumulator that fits in a nibble, one step halves it and adds 8 for a high sample, so the new sample lands in bit 3 and the result still fits in a nibble |
| `Bits.LsbFirstValue` | src/mitutoyo.rs:70-96 | a nibble assembled from n samples is below 2^n; the reference meaning of a sample run is the sum of b_j·2^j with the first sample as bit 0 |
| `Bits.ShiftInStep` | src/mitutoyo.rs:93-95 | one right-shift-then-OR-into-bit-3 step keeps the invariant "accumulator = value of the bits seen so far × 2^(4−b)" |
| `Bits.FourShiftIns` | src/mitutoyo.rs:70-96 | four shift-ins from 0 give exactly Σ b_j·2^j, where b_0 is the first bit sampled |
| `Bits.NibbleBitsRoundTrip` | src/mitutoyo.rs:70-96 | every nibble 0..15 is produced by its four bits sent least significant first |
| `Bits.LsbFirstValueRoundTrip` | src/mitutoyo.rs:70-96 | assembling four samples and splitting the nibble again returns the samples: no bit is lost or invented |
| `Decimal.DigitValue` | src/mitutoyo.rs:114-118 | the weighted digit sum of n decimal digits is below 10^n |
| `Decimal.DigitValueAppend` | src/mitutoyo.rs:114-118 | the weighted digit sum (digit i × 10^(n−1−i)) equals Horner evaluation: appending a digit multiplies by ten and adds it |
| `Decimal.DecimalDigitsRoundTrip` | src/mitutoyo.rs:114-118 | any magnitude below 10^n written as n decimal digits sums back to itself |
| `Decimal.DigitValueRoundTrip` | src/mitutoyo.rs:114-118 | a string of decimal digits is recovered from its sum, so decimal digit strings decode injectively |
| `Decimal.DigitValueBound` | src/mitutoyo.rs:114-118 | with every digit nibble at most 15, 9 × sum ≤ 15 × (10^n − 1) |
| `Frame.Decode` | src/mitutoyo.rs:105-126 | fails, and then only with `InvalidStart`, exactly when one of nibbles 0–3 is not 0xF, whatever nibbles 4–12 hold; on success the reading is negative iff nibble 4 is 0x8, its shift is nibble 11, and value × 10^nibble11 = ±Σ_{i<6} nibble[5+i]·10^(5−i) |
| `Frame.DecodeEncode` | src/mitutoyo.rs:105-126 | any reading with at most six digits and a shift below 16, sent by the sensor with any nibble 12, decodes back to itself |
| `Frame.EncodeDecode` | src/mitutoyo.rs:105-126 | every well-formed sensor frame (sign 0x0 or 0x8, decimal digits) decodes, and re-encoding the reading with the same nibble 12 reproduces the frame |
| `Frame.DecodedMagnitude` | src/mitutoyo.rs:112-118 | the magnitude of every decoded frame is the positional value of its six digit nibbles, most significant first |
| `Frame.DecodeIgnoresReserved` | src/mitutoyo.rs:111-124 | nibble 12 never affects the result |
| `Frame.MagnitudeExactInSingle` | src/mitutoyo.rs:112-118 | the magnitude of any accepted frame is at most 1 666 665 < 2^24 (the integer bound only; exactness of the float sum is argued informally) |
| `Frame.OutOfRangeDigitAccepted` | src/mitutoyo.rs:114-118 | digit nibbles 10–15 are not range-checked: digits 0,0,0,0,1,10 and 0,0,0,0,2,0 both decode as 20 |
| `Line.FirstStall` | src/mitutoyo.rs:72-91 | the index of the first bit whose low or high half-wait saw more than 40 ticks: no earlier bit stalled and that one did |
| `Line.ReadLine` | src/mitutoyo.rs:69-103 | the line times out iff some bit's half-wait exceeded 40 ticks; then the reported nibble is the one holding the first stalled bit (no bit of an earlier nibble stalled, one of its four did); otherwise the 13 nibbles are the assembled ones, each below 16 |
| `Line.ReadNibble` | src/mitutoyo.rs:70-96 | the inner bit loop times out iff one of the nibble's four bits had a half-wait above 40 ticks, and otherwise returns the nibble's four data samples valued first-sample-least-significant |
| `Line.MeasureLine` | src/mitutoyo.rs:63-127 | a measurement is `Timeout` exactly when the line timed out, before any start-marker check; the request line is left high exactly after a timeout inside nibble 0; a whole frame gives its `Decode` |
| `Line.Measure` | src/mitutoyo.rs:63-127 | the nested bit/nibble loop returns `Timeout` iff some bit's half-wait exceeded 40 ticks (strictly), leaves request high iff a bit of nibble 0 stalled, and otherwise returns the decode of the nibbles assembled first-sample-least-significant |
| `NetworkEndian.ToBeBytes` | src/mitutoyo.rs:158 | the four bytes are the base-256 digits of the word, most significant first: b0·2^24 + b1·2^16 + b2·2^8 + b3 = x |
| `NetworkEndian.ReadU16` | src/mitutoyo.rs:159-162 | the word read from two bytes has the first byte as its high byte and the second as its low byte |
| `NetworkEndian.BeBytesRoundTrip` | src/mitutoyo.rs:158-162 | reading back the four big-endian bytes of a word gives the word |
| `NetworkEndian.ReadU32RoundTrip` | src/mitutoyo.rs:158-162 | writing back a word read from four bytes gives the bytes |
| `NetworkEndian.SplitHalves` | src/mitutoyo.rs:158-162 | big-endian bytes 0–1 read as a u16 are bits / 65536, bytes 2–3 are bits % 65536, and high × 65536 + low = bits |
| `Registers.NewTable` | src/main.rs:41-42 | the start-up table has eight entries of each kind, every coil and discrete input off and every register zero |
| `Urica.NewChannel` | src/mitutoyo.rs:43-61 | a new channel keeps its coil and register bindings, is idle, has both output lines low and no origin-set start |
| `Urica.StartOrigin` | src/mitutoyo.rs:135-139 | with the coil set and no origin-set running, the channel starts setting origin, drives the origin line high and records `now` as the start, touching neither the table nor the request line; otherwise nothing changes |
| `Urica.HoldOrigin` | src/mitutoyo.rs:141-151 | with the coil set during an origin-set and strictly more than 10 000 ticks since its start, the channel stops setting origin, drives the origin line low and clears its coil; otherwise nothing changes; only the channel's own coil is ever written |
| `Urica.StorePattern` | src/mitutoyo.rs:155-163 | storing a pattern writes bits / 65536 to register reg+1 and bits % 65536 to register reg, which recombine into the pattern, and nothing else |
| `Urica.MeasureStep` | src/mitutoyo.rs:153-166 | measuring happens only with the coil clear and no origin-set running; a failed measurement leaves the table unchanged; a success writes the reading's pattern split 16/16; coils are never written |
| `Urica.Poll` | src/mitutoyo.rs:129-167 | coil set and idle: origin goes high, start = now, nothing else changes and nothing is measured; coil set while setting: origin low, setting cleared and coil cleared exactly when now − start > 10 000, otherwise nothing changes; coil clear while setting: nothing changes; both clear: measure and store; only the channel's coil and two registers are ever written |
| `Urica.PollRun` | src/mitutoyo.rs:129-167 | over any run of polls at non-decreasing ticks, the table changes only at the channel's coil and two registers, and the bindings stay put |
| `Urica.PollKeepsOriginTracking` | src/mitutoyo.rs:135-151 | a poll keeps the origin line high exactly while an origin-set runs |
| `Urica.PollRunKeepsOriginTracking` | src/mitutoyo.rs:129-167 | over any run of polls from a channel whose origin line tracks its origin-set state (as a new channel's does), the line stays high exactly while an origin-set runs |
| `Urica.OriginHeld` | src/mitutoyo.rs:141-151 | while the coil stays set, every poll within 10 000 ticks of the origin-set start leaves the whole state unchanged: origin stays high and nothing is measured |
| `Urica.OriginSequence` | src/mitutoyo.rs:130-166 | setting the coil of an idle channel drives origin high at tick t; polls up to t + 10 000 change nothing; the first poll after that drives origin low and clears the coil; the next poll measures and stores |
| `Urica.FirstPollMeasures` | src/mitutoyo.rs:43-61 | a new channel on the start-up table measures at its first poll and stores a successful reading's pattern in its two registers |
| `Urica.PollBoth` | src/main.rs:145-146 | one pass of the main loop over both channels keeps their bindings and changes the table only at the two channels' coils and registers |
| `Urica.ChannelsIndependent` | src/main.rs:121-146 | with bindings (coil 0, registers 0–1) and (coil 1, registers 2–3), each channel's coil, registers and state after one pass are what its own poll alone would produce |
| `Urica.PollDependsOnOwnEntries` | src/mitutoyo.rs:130-166 | a poll's effect depends only on its own coil and two registers of the table |

## Left out

- The TCP socket lifecycle and Modbus frame handling of the main loop (`src/main.rs:138-215`). They delegate to the network stack and the Modbus library, whose code is not part of this model.
- The Ethernet interrupt and its `ETH_PENDING` flag (`src/main.rs:232-240`). The flag is written but never read.
- Clock and GPIO bring-up (`src/setup.rs`). It is peripheral configuration only.
- Critical sections and interrupt preemption. Every table or tick access is one atomic step, so freedom from torn reads is not modelled.
- Floating-point arithmetic. The `f32` sum, `powi` and `to_be_bytes` of the value are replaced by the exact `Reading` and the `floatBits` argument. Only the 16/16 split of the pattern is modelled.
- `defmt` logging and the const-generic pin types.
- Urica.Poll: requires `originSetStart <= now` instead of modelling `u64` subtraction. The tick counter only grows and the start is an earlier reading of it, so the subtraction never underflows.
- Urica.Poll: `poll` reads the tick counter twice (lines 138 and 142); the model uses one `now` for both reads. With one tick value the hold check in the same poll sees zero elapsed ticks, so it never fires. The firmware's two reads are microseconds apart, far below the 10 000-tick hold.
- Line.Measure: each half-wait is reduced to the elapsed ticks seen at its last tick read. The individual clock samples inside the wait are not modelled.
- Urica.NewChannel: the initial low level of both output lines is assumed. `Urica::new` does not set the pins; they are low after configuration as push-pull outputs.
