/**
 One sensor channel (`Urica`) and its `poll` step.

 A channel is bound to one coil, which asks for an origin-set, and to two
 consecutive input registers, which receive each successful measurement. Each
 poll reads the coil once and then runs three phases in order, as the firmware
 does:
  - start: the coil is set and no origin-set is running, so drive the origin
    line high and remember the tick;
  - hold: the coil is set and an origin-set is running, so once strictly more
    than 10 000 ticks have passed drive the origin line low, stop, and clear
    the coil;
  - measure: the coil is clear and no origin-set is running, so read the line
    and, on success, store the 32-bit pattern of the reading in the two
    registers, high half in the upper register.

 Pins become booleans in the channel state. The tick counter becomes the `now`
 argument (the counter only grows, so `now` is never below a tick recorded
 earlier). The line becomes a `LineOutcome`. The single-precision pattern of a
 reading becomes the `floatBits` argument; the magnitude is exact in single
 precision (Frame.MagnitudeExactInSingle), so the pattern is a function of the
 `Reading`.
 */
module Urica {
  import opened NetworkEndian
  import opened Frame
  import opened Line
  import opened Registers

  const SetOriginTimeout: nat := 10000

  /** The state of one channel. `originHigh` and `requestHigh` are the levels
      of the two output lines. */
  datatype Channel = Channel(originCoil: nat, measurementRegister: nat,
                             settingOrigin: bool, originSetStart: nat,
                             originHigh: bool, requestHigh: bool)
  {
    /** The coil and both registers exist in an eight-entry table. */
    predicate Bound()
    {
      originCoil < Capacity && measurementRegister + 1 < Capacity
    }

    /** The origin line is high exactly while an origin-set is running. */
    predicate OriginTracksSetting()
    {
      originHigh == settingOrigin
    }
  }

  /** A channel together with the shared table it reads and writes. */
  datatype Station = Station(channel: Channel, table: Table)
  {
    predicate Valid()
    {
      table.Valid() && channel.Bound()
    }

    /** Valid, and `now` is no earlier than the last recorded origin-set start. */
    predicate Ready(now: nat)
    {
      Valid() && channel.originSetStart <= now
    }

    /** The coil this channel watches. */
    function Coil(): bool
      requires Valid()
    {
      table.coils[channel.originCoil]
    }
  }

  /** A freshly constructed channel: idle, both output lines low (their level
      after configuration as push-pull outputs), no origin-set recorded. */
  function NewChannel(originCoil: nat, measurementRegister: nat): (c: Channel)
    ensures c.originCoil == originCoil && c.measurementRegister == measurementRegister
    ensures !c.settingOrigin && !c.originHigh && !c.requestHigh
    ensures c.originSetStart == 0
    ensures c.OriginTracksSetting()
  {
    Channel(originCoil, measurementRegister, false, 0, false, false)
  }

  /** Phase 1: begin an origin-set. */
  function StartOrigin(s: Station, setOrigin: bool, now: nat): (r: Station)
    requires s.Ready(now)
    ensures r.Ready(now) && r.table == s.table
    ensures r.channel.originCoil == s.channel.originCoil
    ensures r.channel.measurementRegister == s.channel.measurementRegister
    ensures r.channel.requestHigh == s.channel.requestHigh
    ensures r.channel.settingOrigin <==> setOrigin || s.channel.settingOrigin
    ensures setOrigin && !s.channel.settingOrigin ==>
              r.channel.originHigh && r.channel.originSetStart == now
    ensures !(setOrigin && !s.channel.settingOrigin) ==> r == s
  {
    if setOrigin && !s.channel.settingOrigin then
      s.(channel := s.channel.(settingOrigin := true, originHigh := true, originSetStart := now))
    else
      s
  }

  /** Phase 2: end an origin-set once its hold time has passed. */
  function HoldOrigin(s: Station, setOrigin: bool, now: nat): (r: Station)
    requires s.Ready(now)
    ensures r.Ready(now)
    ensures r.channel.originCoil == s.channel.originCoil
    ensures r.channel.measurementRegister == s.channel.measurementRegister
    ensures r.channel.requestHigh == s.channel.requestHigh
    ensures r.channel.originSetStart == s.channel.originSetStart
    ensures r.table.inputs == s.table.inputs
    ensures TouchesOnly(s.table, r.table, s.channel.originCoil, s.channel.measurementRegister)
    ensures if setOrigin && s.channel.settingOrigin && now - s.channel.originSetStart > SetOriginTimeout then
              !r.channel.settingOrigin && !r.channel.originHigh && !r.table.coils[s.channel.originCoil]
            else
              r == s
  {
    if setOrigin && s.channel.settingOrigin && now - s.channel.originSetStart > SetOriginTimeout then
      Station(s.channel.(originHigh := false, settingOrigin := false),
              s.table.(coils := s.table.coils[s.channel.originCoil := false]))
    else
      s
  }

  /** Store a 32-bit pattern in registers `reg + 1` (first two big-endian bytes)
      and `reg` (last two). */
  function StorePattern(t: Table, reg: nat, bits: Word32): (u: Table)
    requires t.Valid() && reg + 1 < Capacity
    ensures u.Valid() && u.coils == t.coils
    ensures TouchesOnlyInputs(t, u, reg)
    ensures u.inputs[reg + 1] == bits / 0x1_0000 && u.inputs[reg] == bits % 0x1_0000
    ensures (u.inputs[reg + 1] as nat) * 0x1_0000 + u.inputs[reg] == bits
  {
    SplitHalves(bits);
    var bytes := ToBeBytes(bits);
    var inputs := t.inputs[reg + 1 := ReadU16(bytes[0..2])];
    t.(inputs := inputs[reg := ReadU16(bytes[2..4])])
  }

  /** Phase 3: measure while idle. */
  function MeasureStep(s: Station, setOrigin: bool, line: LineOutcome,
                       floatBits: Reading -> Word32): (r: Station)
    requires s.Valid() && line.Valid()
    ensures r.Valid() && r.table.coils == s.table.coils
    ensures r.channel == s.channel || r.channel == s.channel.(requestHigh := r.channel.requestHigh)
    ensures TouchesOnlyInputs(s.table, r.table, s.channel.measurementRegister)
    ensures setOrigin || s.channel.settingOrigin ==> r == s
    ensures !setOrigin && !s.channel.settingOrigin ==>
              && (r.channel.requestHigh <==> line == TimedOutIn(0))
              && (if line.Complete? && Decode(line.nibbles).Ok? then
                    var bits := floatBits(Decode(line.nibbles).value);
                    var reg := s.channel.measurementRegister;
                    && r.table.inputs[reg + 1] == bits / 0x1_0000
                    && r.table.inputs[reg] == bits % 0x1_0000
                    && (r.table.inputs[reg + 1] as nat) * 0x1_0000 + r.table.inputs[reg] == bits
                  else
                    r.table == s.table)
  {
    if !setOrigin && !s.channel.settingOrigin then
      var m := MeasureLine(line);
      var channel := s.channel.(requestHigh := m.requestHigh);
      match m.result
      case Ok(reading) =>
        Station(channel, StorePattern(s.table, s.channel.measurementRegister, floatBits(reading)))
      case Err(_) =>
        Station(channel, s.table)
    else
      s
  }

  /** One call of `poll` at tick `now`, with the line delivering `line`. */
  function Poll(s: Station, now: nat, line: LineOutcome, floatBits: Reading -> Word32): (r: Station)
    requires s.Ready(now) && line.Valid()
    ensures r.Ready(now)
    ensures r.channel.originCoil == s.channel.originCoil
    ensures r.channel.measurementRegister == s.channel.measurementRegister
    ensures TouchesOnly(s.table, r.table, s.channel.originCoil, s.channel.measurementRegister)
    // coil set, idle: start the origin-set and do nothing else
    ensures s.Coil() && !s.channel.settingOrigin ==>
              && r.channel.settingOrigin && r.channel.originHigh
              && r.channel.originSetStart == now
              && r.channel.requestHigh == s.channel.requestHigh
              && r.table == s.table
    // coil set, origin-set running: finish exactly when the hold time is exceeded
    ensures s.Coil() && s.channel.settingOrigin ==>
              if now - s.channel.originSetStart > SetOriginTimeout then
                && !r.channel.settingOrigin && !r.channel.originHigh
                && !r.Coil()
                && r.channel.requestHigh == s.channel.requestHigh
                && r.channel.originSetStart == s.channel.originSetStart
                && r.table.inputs == s.table.inputs
              else
                r == s
    // coil cleared while an origin-set runs: nothing happens
    ensures !s.Coil() && s.channel.settingOrigin ==> r == s
    // coil clear, idle: measure
    ensures !s.Coil() && !s.channel.settingOrigin ==>
              && !r.channel.settingOrigin
              && r.channel.originHigh == s.channel.originHigh
              && r.channel.originSetStart == s.channel.originSetStart
              && (r.channel.requestHigh <==> line == TimedOutIn(0))
              && r.table.coils == s.table.coils
              && (if line.Complete? && Decode(line.nibbles).Ok? then
                    var bits := floatBits(Decode(line.nibbles).value);
                    var reg := s.channel.measurementRegister;
                    && r.table.inputs[reg + 1] == bits / 0x1_0000
                    && r.table.inputs[reg] == bits % 0x1_0000
                    && (r.table.inputs[reg + 1] as nat) * 0x1_0000 + r.table.inputs[reg] == bits
                  else
                    r.table == s.table)
  {
    var setOrigin := s.Coil();
    var s1 := StartOrigin(s, setOrigin, now);
    var s2 := HoldOrigin(s1, setOrigin, now);
    MeasureStep(s2, setOrigin, line, floatBits)
  }

  /** Every tick in `nows` is at least the previous one. */
  predicate NonDecreasing(nows: seq<nat>)
  {
    forall i, j :: 0 <= i <= j < |nows| ==> nows[i] <= nows[j]
  }

  /** Every line outcome is well formed. */
  predicate AllValid(lines: seq<LineOutcome>)
  {
    forall i :: 0 <= i < |lines| ==> lines[i].Valid()
  }

  /** Polls at the ticks `nows`, the line delivering `lines`, with no other
      writer touching the table in between. */
  function PollRun(s: Station, nows: seq<nat>, lines: seq<LineOutcome>,
                   floatBits: Reading -> Word32): (r: Station)
    requires s.Valid() && |lines| == |nows| && NonDecreasing(nows) && AllValid(lines)
    requires forall i :: 0 <= i < |nows| ==> s.channel.originSetStart <= nows[i]
    ensures r.Valid()
    ensures r.channel.originCoil == s.channel.originCoil
    ensures r.channel.measurementRegister == s.channel.measurementRegister
    ensures TouchesOnly(s.table, r.table, s.channel.originCoil, s.channel.measurementRegister)
    decreases |nows|
  {
    if |nows| == 0 then
      s
    else
      PollRun(Poll(s, nows[0], lines[0], floatBits), nows[1..], lines[1..], floatBits)
  }

  /** A poll keeps the origin line high exactly while an origin-set runs. */
  lemma PollKeepsOriginTracking(s: Station, now: nat, line: LineOutcome,
                                floatBits: Reading -> Word32)
    requires s.Ready(now) && line.Valid() && s.channel.OriginTracksSetting()
    ensures Poll(s, now, line, floatBits).channel.OriginTracksSetting()
  {
  }

  /** Over any run of polls the origin line stays high exactly while an
      origin-set runs, as it is for a new channel. */
  lemma {:induction false} PollRunKeepsOriginTracking(s: Station, nows: seq<nat>,
                                                      lines: seq<LineOutcome>,
                                                      floatBits: Reading -> Word32)
    requires s.Valid() && |lines| == |nows| && NonDecreasing(nows) && AllValid(lines)
    requires forall i :: 0 <= i < |nows| ==> s.channel.originSetStart <= nows[i]
    requires s.channel.OriginTracksSetting()
    ensures PollRun(s, nows, lines, floatBits).channel.OriginTracksSetting()
    decreases |nows|
  {
    if |nows| != 0 {
      var next := Poll(s, nows[0], lines[0], floatBits);
      PollKeepsOriginTracking(s, nows[0], lines[0], floatBits);
      assert forall i :: 0 <= i < |nows[1..]| ==> next.channel.originSetStart <= nows[1..][i];
      PollRunKeepsOriginTracking(next, nows[1..], lines[1..], floatBits);
    }
  }

  /** While the coil stays set and the hold time has not passed, polling changes
      nothing at all: the origin line stays high and no measurement is made. */
  lemma {:induction false} OriginHeld(s: Station, nows: seq<nat>, lines: seq<LineOutcome>,
                                      floatBits: Reading -> Word32)
    requires s.Valid() && |lines| == |nows| && NonDecreasing(nows) && AllValid(lines)
    requires s.Coil() && s.channel.settingOrigin
    requires forall i :: 0 <= i < |nows| ==>
               s.channel.originSetStart <= nows[i] <= s.channel.originSetStart + SetOriginTimeout
    ensures PollRun(s, nows, lines, floatBits) == s
    decreases |nows|
  {
    if |nows| != 0 {
      assert Poll(s, nows[0], lines[0], floatBits) == s;
      OriginHeld(s, nows[1..], lines[1..], floatBits);
    }
  }

  /** The whole origin-set sequence. Setting the coil of an idle channel drives
      the origin line high at the next poll, at tick `start`; every later poll up
      to tick `start + 10000` leaves everything as it is; the first poll after
      that drives the line low and clears the coil; and the poll after that
      measures again. */
  lemma OriginSequence(s: Station, start: nat, line0: LineOutcome,
                       nows: seq<nat>, lines: seq<LineOutcome>,
                       release: nat, line1: LineOutcome, next: nat, line2: LineOutcome,
                       floatBits: Reading -> Word32)
    requires s.Ready(start) && s.Coil() && !s.channel.settingOrigin
    requires line0.Valid() && line1.Valid() && line2.Valid()
    requires |lines| == |nows| && NonDecreasing(nows) && AllValid(lines)
    requires forall i :: 0 <= i < |nows| ==> start <= nows[i] <= start + SetOriginTimeout
    requires release > start + SetOriginTimeout && next >= release
    ensures var held := Poll(s, start, line0, floatBits);
            && held.channel.originHigh && held.Coil()
            && held.table == s.table
            && PollRun(held, nows, lines, floatBits) == held
            && var released := Poll(held, release, line1, floatBits);
               && !released.channel.originHigh && !released.Coil()
               && released.table.inputs == s.table.inputs
               && var after := Poll(released, next, line2, floatBits);
                  && (after.channel.requestHigh <==> line2 == TimedOutIn(0))
                  && (line2.Complete? && Decode(line2.nibbles).Ok? ==>
                        var reg := s.channel.measurementRegister;
                        (after.table.inputs[reg + 1] as nat) * 0x1_0000 + after.table.inputs[reg]
                        == floatBits(Decode(line2.nibbles).value))
  {
    var held := Poll(s, start, line0, floatBits);
    OriginHeld(held, nows, lines, floatBits);
  }

  /** A new channel on the start-up table measures at its first poll. */
  lemma FirstPollMeasures(originCoil: nat, measurementRegister: nat, now: nat,
                          line: LineOutcome, floatBits: Reading -> Word32)
    requires originCoil < Capacity && measurementRegister + 1 < Capacity && line.Valid()
    ensures var s := Station(NewChannel(originCoil, measurementRegister), NewTable());
            var r := Poll(s, now, line, floatBits);
            && !r.channel.settingOrigin && !r.channel.originHigh
            && (r.channel.requestHigh <==> line == TimedOutIn(0))
            && (line.Complete? && Decode(line.nibbles).Ok? ==>
                  (r.table.inputs[measurementRegister + 1] as nat) * 0x1_0000 + r.table.inputs[measurementRegister]
                  == floatBits(Decode(line.nibbles).value))
  {
  }

  /** The firmware's two channels: coil 0 with registers 0-1, and coil 1 with
      registers 2-3. */
  function FirstChannel(): Channel { NewChannel(0, 0) }
  function SecondChannel(): Channel { NewChannel(1, 2) }

  /** One pass of the main loop over the sensors: poll channel 1, then channel 2,
      on the same table; channel 2 reads the tick counter no earlier than channel 1. */
  function PollBoth(c1: Channel, c2: Channel, t: Table, now1: nat, now2: nat,
                    line1: LineOutcome, line2: LineOutcome,
                    floatBits: Reading -> Word32): (r: (Channel, Channel, Table))
    requires Station(c1, t).Ready(now1) && Station(c2, t).Ready(now2)
    requires now1 <= now2 && line1.Valid() && line2.Valid()
    ensures r.2.Valid()
    ensures r.0.originCoil == c1.originCoil && r.0.measurementRegister == c1.measurementRegister
    ensures r.1.originCoil == c2.originCoil && r.1.measurementRegister == c2.measurementRegister
    ensures r.2.discreteInputs == t.discreteInputs && r.2.holdings == t.holdings
    ensures forall i :: 0 <= i < Capacity && i != c1.originCoil && i != c2.originCoil ==>
              r.2.coils[i] == t.coils[i]
    ensures forall i :: 0 <= i < Capacity
                        && i != c1.measurementRegister && i != c1.measurementRegister + 1
                        && i != c2.measurementRegister && i != c2.measurementRegister + 1 ==>
              r.2.inputs[i] == t.inputs[i]
  {
    var r1 := Poll(Station(c1, t), now1, line1, floatBits);
    var r2 := Poll(Station(c2, r1.table), now2, line2, floatBits);
    (r1.channel, r2.channel, r2.table)
  }

  /** With the firmware's bindings the two channels never overwrite each other:
      after one pass, coil 0 and registers 0-1 are what channel 1's poll left,
      and coil 1 and registers 2-3 are what channel 2's poll would have left
      had it run first. */
  lemma ChannelsIndependent(c1: Channel, c2: Channel, t: Table, now1: nat, now2: nat,
                            line1: LineOutcome, line2: LineOutcome,
                            floatBits: Reading -> Word32)
    requires c1.originCoil == 0 && c1.measurementRegister == 0
    requires c2.originCoil == 1 && c2.measurementRegister == 2
    requires Station(c1, t).Ready(now1) && Station(c2, t).Ready(now2)
    requires now1 <= now2 && line1.Valid() && line2.Valid()
    ensures var r := PollBoth(c1, c2, t, now1, now2, line1, line2, floatBits);
            var alone1 := Poll(Station(c1, t), now1, line1, floatBits);
            var alone2 := Poll(Station(c2, t), now2, line2, floatBits);
            && r.0 == alone1.channel && r.1 == alone2.channel
            && r.2.coils[0] == alone1.table.coils[0]
            && r.2.inputs[0] == alone1.table.inputs[0] && r.2.inputs[1] == alone1.table.inputs[1]
            && r.2.coils[1] == alone2.table.coils[1]
            && r.2.inputs[2] == alone2.table.inputs[2] && r.2.inputs[3] == alone2.table.inputs[3]
  {
    var alone1 := Poll(Station(c1, t), now1, line1, floatBits);
    var alone2 := Poll(Station(c2, t), now2, line2, floatBits);
    var both := Poll(Station(c2, alone1.table), now2, line2, floatBits);
    assert alone1.table.coils[1] == t.coils[1];
    assert alone1.table.inputs[2] == t.inputs[2] && alone1.table.inputs[3] == t.inputs[3];
    PollDependsOnOwnEntries(c2, t, alone1.table, now2, line2, floatBits);
  }

  /** A poll reads only its own coil, so two tables that agree on that coil and
      on the channel's two registers give polls that agree there too. */
  lemma PollDependsOnOwnEntries(c: Channel, t: Table, u: Table, now: nat,
                                line: LineOutcome, floatBits: Reading -> Word32)
    requires Station(c, t).Ready(now) && Station(c, u).Ready(now) && line.Valid()
    requires t.coils[c.originCoil] == u.coils[c.originCoil]
    requires t.inputs[c.measurementRegister] == u.inputs[c.measurementRegister]
    requires t.inputs[c.measurementRegister + 1] == u.inputs[c.measurementRegister + 1]
    ensures var a := Poll(Station(c, t), now, line, floatBits);
            var b := Poll(Station(c, u), now, line, floatBits);
            && a.channel == b.channel
            && a.table.coils[c.originCoil] == b.table.coils[c.originCoil]
            && a.table.inputs[c.measurementRegister] == b.table.inputs[c.measurementRegister]
            && a.table.inputs[c.measurementRegister + 1] == b.table.inputs[c.measurementRegister + 1]
  {
  }
}
