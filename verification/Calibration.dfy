/** Route calibration of a cluster: every fully connected lane is measured on its own, and the
    user's configuration is put back afterwards. */
module Calibration {
  import opened Blocks
  import opened Routing
  import Converter
  import IMatrix

  // One reading, with what the hardware was set to when it was taken.
  datatype Measurement = Measurement(output: nat, lane: nat, reading: real, u: UConfig, coefficients: seq<nat>,
                                     upscaling: seq<bool>, connected: set<IMatrix.Point>, sh: ShState,
                                     compensation: Compensation)

  predicate Usable(reading: real) { reading != 0.0 && GainInRange(1.0 / reading) }

  // The correction a reading leads to; an unusable one resets the lane to the default.
  function Correction(reading: real): (g: real)
    ensures GainInRange(g)
  {
    if Usable(reading) then 1.0 / reading else 1.0
  }

  function Corrected(gains: seq<real>, trace: seq<Measurement>): (g: seq<real>)
    ensures |g| == |gains|
  {
    if trace == [] then gains else
      var m := trace[|trace| - 1];
      var g := Corrected(gains, trace[..|trace| - 1]);
      if m.lane < |g| then g[m.lane := Correction(m.reading)] else g
  }

  /** Only measured lanes get a new gain, and it is within 0.1 of one. */
  lemma {:induction false} CorrectedLanes(gains: seq<real>, trace: seq<Measurement>, l: nat)
    requires l < |gains|
    ensures if exists k :: 0 <= k < |trace| && trace[k].lane == l
            then GainInRange(Corrected(gains, trace)[l])
            else Corrected(gains, trace)[l] == gains[l]
  {
    if trace != [] {
      var n := |trace| - 1;
      CorrectedLanes(gains, trace[..n], l);
      if exists k :: 0 <= k < |trace[..n]| && trace[..n][k].lane == l {
        var k :| 0 <= k < |trace[..n]| && trace[..n][k].lane == l;
        assert trace[k].lane == l;
      }
      if exists k :: 0 <= k < |trace| && trace[k].lane == l {
        var k :| 0 <= k < |trace| && trace[k].lane == l;
        if k < n { assert trace[..n][k].lane == l; }
      }
    }
  }

  // A reading of full scale that a correction within 0.1 of one makes up for.
  predicate Correctable(reading: real) { 1.0 / 1.1 <= reading <= 1.0 / 0.9 }

  // The gain makes the lane read exactly one, or is one if no admissible gain does.
  predicate MakesUpFor(gain: real, reading: real) {
    if Correctable(reading) then gain * reading == 1.0 else gain == 1.0
  }

  lemma InverseInRange(reading: real)
    ensures Usable(reading) <==> Correctable(reading)
    ensures MakesUpFor(Correction(reading), reading)
  {
    if reading != 0.0 {
      var g := 1.0 / reading;
      assert g * reading == 1.0;
      InverseBounds(g, reading);
    }
  }

  lemma InverseBounds(g: real, r: real)
    requires g * r == 1.0
    ensures 0.9 <= g <= 1.1 <==> 1.0 / 1.1 <= r <= 1.0 / 0.9
  {
    if r > 0.0 {
      Order(r, 0.9, g);
      Order(r, g, 1.1);
    } else {
      SignOfProduct(g, r);
    }
  }

  lemma Order(x: real, a: real, b: real)
    requires x > 0.0
    ensures a <= b <==> x * a <= x * b
  {
    assert x * (b - a) == x * b - x * a;
  }

  lemma SignOfProduct(g: real, r: real)
    requires r <= 0.0
    ensures g >= 0.0 ==> g * r <= 0.0
  {
  }

  // Reading k is the last one taken for its lane.
  predicate LastForLane(trace: seq<Measurement>, k: nat) {
    k < |trace| && forall j | k < j < |trace| :: trace[j].lane != trace[k].lane
  }

  /** In the end every measured lane's gain makes up for the last reading taken for it. */
  lemma {:induction false} GainMakesUpForLast(gains: seq<real>, trace: seq<Measurement>, k: nat)
    requires LastForLane(trace, k) && trace[k].lane < |gains|
    ensures MakesUpFor(Corrected(gains, trace)[trace[k].lane], trace[k].reading)
  {
    hide MakesUpFor, Correction;
    var n := |trace| - 1;
    InverseInRange(trace[k].reading);
    if k < n { GainMakesUpForLast(gains, trace[..n], k); }
  }

  lemma UsableIsCorrectable(trace: seq<Measurement>)
    ensures AllUsable(trace) <==> forall m | m in trace :: Correctable(m.reading)
  {
    hide Usable, Correctable;
    forall k | 0 <= k < |trace| ensures Usable(trace[k].reading) <==> Correctable(trace[k].reading) {
      InverseInRange(trace[k].reading);
    }
  }

  predicate FullyConnected(c: Circuit, o: nat, l: nat)
    requires c.Valid() && o < NUM_I_OUTPUTS && l < NUM_LANES
  {
    l in c.rows[o] && c.u.map_[l] >= 0
  }

  // The fully connected (output, lane) pairs before (o, l), output by output.
  function FullPairs(c: Circuit, o: nat, l: nat): seq<(nat, nat)>
    requires c.Valid() && o <= NUM_I_OUTPUTS && l <= NUM_LANES && (o == NUM_I_OUTPUTS ==> l == 0)
    decreases o, l
  {
    if l > 0 then FullPairs(c, o, l - 1) + (if FullyConnected(c, o, l - 1) then [(o, l - 1)] else [])
    else if o > 0 then FullPairs(c, o - 1, NUM_LANES)
    else []
  }

  /** Exactly the fully connected pairs occur. */
  lemma {:induction false} PairsAreFull(c: Circuit, o: nat, l: nat, p: nat, k: nat)
    requires c.Valid() && o <= NUM_I_OUTPUTS && l <= NUM_LANES && (o == NUM_I_OUTPUTS ==> l == 0)
    requires p < NUM_I_OUTPUTS && k < NUM_LANES
    ensures (p, k) in FullPairs(c, o, l) <==> (p < o || (p == o && k < l)) && FullyConnected(c, p, k)
    decreases o, l
  {
    if l > 0 { PairsAreFull(c, o, l - 1, p, k); }
    else if o > 0 { PairsAreFull(c, o - 1, NUM_LANES, p, k); }
  }

  predicate Before(p: (nat, nat), q: (nat, nat)) { p.0 < q.0 || (p.0 == q.0 && p.1 < q.1) }

  /** They come output by output, lanes ascending, each once. */
  lemma {:induction false} PairsInOrder(c: Circuit, o: nat, l: nat, i: nat, j: nat)
    requires c.Valid() && o <= NUM_I_OUTPUTS && l <= NUM_LANES && (o == NUM_I_OUTPUTS ==> l == 0)
    requires i < j < |FullPairs(c, o, l)|
    ensures Before(FullPairs(c, o, l)[i], FullPairs(c, o, l)[j]) && Before(FullPairs(c, o, l)[j], (o, l))
    decreases o, l
  {
    PairsBefore(c, o, l, j);
    if l > 0 {
      var n := |FullPairs(c, o, l - 1)|;
      if j < n { PairsInOrder(c, o, l - 1, i, j); } else { PairsBefore(c, o, l - 1, i); }
    } else if o > 0 {
      PairsInOrder(c, o - 1, NUM_LANES, i, j);
    }
  }

  lemma {:induction false} PairsBefore(c: Circuit, o: nat, l: nat, i: nat)
    requires c.Valid() && o <= NUM_I_OUTPUTS && l <= NUM_LANES && (o == NUM_I_OUTPUTS ==> l == 0)
    requires i < |FullPairs(c, o, l)|
    ensures Before(FullPairs(c, o, l)[i], (o, l))
    decreases o, l
  {
    if l > 0 {
      if i < |FullPairs(c, o, l - 1)| { PairsBefore(c, o, l - 1, i); }
    } else if o > 0 {
      PairsBefore(c, o - 1, NUM_LANES, i);
    }
  }

  // The converters' words with lane l at factor one and all others at zero.
  function OneAt(l: nat): (raw: seq<nat>)
    requires l < NUM_LANES
  {
    seq(NUM_LANES, i => Converter.RAW_ZERO)[l := Converter.RAW_ZERO + Converter.RAW_DELTA_ONE]
  }

  // Offsets are compensated with all lanes grounded.
  function WithLanesGrounded(map_: seq<int>, ref: Magnitude, coefficients: seq<nat>): Compensation {
    Compensation(UConfig(map_, Ground, Ground, ref), coefficients)
  }

  /** Then every output is zero, whatever coefficients, connections and inputs there are. */
  lemma GroundedIsZero(map_: seq<int>, ref: Magnitude, coefficients: seq<nat>, c: Circuit, o: nat, src: int -> real)
    requires c.Valid() && o < NUM_I_OUTPUTS && WithLanesGrounded(map_, ref, coefficients).u.Valid()
    ensures OutputValue(c.(u := WithLanesGrounded(map_, ref, coefficients).u), o, src) == 0.0
  {
    GroundedSum(c.(u := WithLanesGrounded(map_, ref, coefficients).u), o, NUM_LANES, src);
  }

  lemma {:induction false} GroundedSum(d: Circuit, o: nat, n: nat, src: int -> real)
    requires d.Valid() && o < NUM_I_OUTPUTS && n <= NUM_LANES && d.u.aSide == d.u.bSide == Ground
    ensures PartialSum(d, o, n, src) == 0.0
  {
    if n > 0 {
      GroundedSum(d, o, n - 1, src);
      assert SignalValue(LaneSignal(d.u, n - 1), src) == 0.0;
    }
  }

  // What has to hold whenever a reading is taken: the one lane is on at factor one, all others are
  // off, everything is fed with the full positive reference, nothing is upscaled.
  ghost predicate Isolated(c: Circuit, m: Measurement)
    requires c.Valid()
  {
    && m.lane < NUM_LANES && m.output < NUM_I_OUTPUTS
    && m.u == UConfig(c.u.map_, PosRef, PosRef, One)
    && m.coefficients == OneAt(m.lane)
    && m.upscaling == seq(NUM_LANES, i => false) && m.connected == IMatrix.Requested(c.rows)
    && m.sh == (if m.output < 8 then GainZeroToSeven else GainEightToFifteen)
    && m.compensation == WithLanesGrounded(c.u.map_, One, OneAt(m.lane))
  }

  // The channel an output is read on.
  function Channel(output: nat): nat { output % 8 }

  // The readings are the converter's, in order, from the measured output's channel.
  ghost predicate ReadingsFrom(adc: (nat, nat) -> real, trace: seq<Measurement>) {
    forall k | 0 <= k < |trace| :: trace[k].reading == adc(k, Channel(trace[k].output))
  }

  // The output that a channel shows while the SH block passes one group of eight.
  function ShownOn(sh: ShState, channel: nat): int {
    if sh == GainZeroToSeven then channel else if sh == GainEightToFifteen then channel + 8 else -1
  }

  /** What is read is the output that is measured. */
  lemma ReadsItsOutput(c: Circuit, m: Measurement)
    requires c.Valid() && Isolated(c, m)
    ensures 0 <= Channel(m.output) < 8 && ShownOn(m.sh, Channel(m.output)) == m.output
  {
  }

  function Pairs(trace: seq<Measurement>): (p: seq<(nat, nat)>)
    ensures |p| == |trace|
  {
    seq(|trace|, k requires 0 <= k < |trace| => (trace[k].output, trace[k].lane))
  }

  /** After a complete calibration the gain of a fully connected lane is within 0.1 of one, and the
      gain of any other lane is what it was. */
  lemma OnlyFullLanesChange(c: Circuit, gains: seq<real>, trace: seq<Measurement>, l: nat)
    requires c.Valid() && |gains| == NUM_LANES && l < NUM_LANES
    requires Pairs(trace) == FullPairs(c, NUM_I_OUTPUTS, 0)
    requires forall m | m in trace :: Isolated(c, m)
    ensures if exists o :: 0 <= o < NUM_I_OUTPUTS && FullyConnected(c, o, l)
            then GainInRange(Corrected(gains, trace)[l])
            else Corrected(gains, trace)[l] == gains[l]
  {
    hide FullyConnected, FullPairs, GainInRange, Corrected;
    CorrectedLanes(gains, trace, l);
    if o :| 0 <= o < NUM_I_OUTPUTS && FullyConnected(c, o, l) {
      PairsAreFull(c, NUM_I_OUTPUTS, 0, o, l);
      var k :| 0 <= k < |trace| && Pairs(trace)[k] == (o, l);
      assert trace[k].lane == l;
    } else if k :| 0 <= k < |trace| && trace[k].lane == l {
      assert trace[k] in trace && Pairs(trace)[k] == (trace[k].output, l);
      PairsAreFull(c, NUM_I_OUTPUTS, 0, trace[k].output, l);
    }
  }

  // Reading k is the last one taken for lane l.
  predicate LastOfLane(trace: seq<Measurement>, k: nat, l: nat) {
    LastForLane(trace, k) && trace[k].lane == l
  }

  // Fully connected lanes have gains that make up for their last reading, the others what they had.
  ghost predicate GainsCorrected(c: Circuit, before: seq<real>, after: seq<real>, trace: seq<Measurement>)
    requires c.Valid() && |before| == |after| == NUM_LANES
  {
    forall l | 0 <= l < NUM_LANES ::
      if exists o :: 0 <= o < 16 && l in c.rows[o] && c.u.map_[l] >= 0
      then exists k: nat :: LastOfLane(trace, k, l) && MakesUpFor(after[l], trace[k].reading)
      else after[l] == before[l]
  }

  lemma {:induction false} FindLast(trace: seq<Measurement>, l: nat) returns (k: nat)
    requires exists j :: 0 <= j < |trace| && trace[j].lane == l
    ensures LastOfLane(trace, k, l)
  {
    k := |trace| - 1;
    if trace[k].lane != l {
      var n := |trace| - 1;
      var j :| 0 <= j < |trace| && trace[j].lane == l;
      assert trace[..n][j].lane == l;
      k := FindLast(trace[..n], l);
    }
  }

  /** What a complete calibration does to the gains. */
  lemma CompleteCorrects(c: Circuit, gains: seq<real>, trace: seq<Measurement>)
    requires c.Valid() && |gains| == NUM_LANES
    requires Pairs(trace) == FullPairs(c, NUM_I_OUTPUTS, 0)
    requires forall m | m in trace :: Isolated(c, m)
    ensures GainsCorrected(c, gains, Corrected(gains, trace), trace)
  {
    hide Corrected, MakesUpFor, FullPairs, Isolated;
    forall l | 0 <= l < NUM_LANES
      ensures if exists o :: 0 <= o < 16 && l in c.rows[o] && c.u.map_[l] >= 0
              then exists k: nat :: LastOfLane(trace, k, l) && MakesUpFor(Corrected(gains, trace)[l], trace[k].reading)
              else Corrected(gains, trace)[l] == gains[l]
    {
      OnlyFullLanesChange(c, gains, trace, l);
      if o :| 0 <= o < 16 && l in c.rows[o] && c.u.map_[l] >= 0 {
        LastIsCorrected(c, gains, trace, o, l);
      } else {
        assert forall o | 0 <= o < 16 :: !FullyConnected(c, o, l);
      }
    }
  }

  lemma LastIsCorrected(c: Circuit, gains: seq<real>, trace: seq<Measurement>, o: nat, l: nat)
    requires c.Valid() && |gains| == NUM_LANES && o < 16 && l < NUM_LANES && FullyConnected(c, o, l)
    requires Pairs(trace) == FullPairs(c, NUM_I_OUTPUTS, 0)
    ensures exists k: nat :: LastOfLane(trace, k, l) && MakesUpFor(Corrected(gains, trace)[l], trace[k].reading)
  {
    hide FullPairs, Corrected, MakesUpFor;
    PairsAreFull(c, NUM_I_OUTPUTS, 0, o, l);
    var j :| 0 <= j < |trace| && Pairs(trace)[j] == (o, l);
    assert trace[j].lane == l;
    var k := FindLast(trace, l);
    GainMakesUpForLast(gains, trace, k);
  }

  // The circuit the hardware was when a reading was taken.
  function Measured(c: Circuit, m: Measurement): Circuit
    requires c.Valid() && |m.coefficients| == NUM_LANES
  {
    Circuit.Circuit(m.u, seq(NUM_LANES, i requires 0 <= i < NUM_LANES => Converter.RawToFloat(m.coefficients[i])),
                    c.rows, m.upscaling)
  }

  /** With ideal hardware the lane measured reads exactly one, whatever the inputs carry: it is fed
      with the full positive reference, and no other lane gets through. */
  lemma IsolatedReadsOne(c: Circuit, m: Measurement, src: int -> real)
    requires c.Valid() && Isolated(c, m) && FullyConnected(c, m.output, m.lane)
    ensures OutputValue(Measured(c, m), m.output, src) == 1.0
  {
    hide Measured;
    IsolatedCircuit(c, m);
    OneLaneSum(Measured(c, m), m.output, m.lane, NUM_LANES, src);
  }

  lemma IsolatedCircuit(c: Circuit, m: Measurement)
    requires c.Valid() && Isolated(c, m) && FullyConnected(c, m.output, m.lane)
    ensures var d := Measured(c, m);
            && d.Valid() && m.lane in d.rows[m.output] && LaneGain(d, m.lane) == 1.0
            && LaneSignal(d.u, m.lane) == Reference(true, One)
            && forall l | 0 <= l < NUM_LANES && l != m.lane :: LaneGain(d, l) == 0.0
  {
  }

  lemma {:induction false} OneLaneSum(d: Circuit, o: nat, l: nat, n: nat, src: int -> real)
    requires d.Valid() && o < NUM_I_OUTPUTS && l < NUM_LANES && n <= NUM_LANES && l in d.rows[o]
    requires LaneGain(d, l) == 1.0 && LaneSignal(d.u, l) == Reference(true, One)
    requires forall k | 0 <= k < NUM_LANES && k != l :: LaneGain(d, k) == 0.0
    ensures PartialSum(d, o, n, src) == if l < n then 1.0 else 0.0
  {
    hide LaneGain, LaneSignal;
    if n > 0 {
      OneLaneSum(d, o, l, n - 1, src);
      if n - 1 != l { TimesZero(SignalValue(LaneSignal(d.u, n - 1), src)); }
    }
  }

  predicate AllUsable(trace: seq<Measurement>) {
    forall k | 0 <= k < |trace| :: Usable(trace[k].reading)
  }

  // Hardware and memory of the four blocks agree.
  ghost predicate HardwareMatches(cluster: Cluster)
    requires cluster.Valid()
    reads cluster.ublock, cluster.cblock, cluster.iblock, cluster.iblock.device, cluster.shblock
  {
    && cluster.ublock.hardware == cluster.ublock.Config()
    && cluster.cblock.hardware == RawFactors(cluster.cblock.factors, cluster.cblock.gains)
    && cluster.iblock.upscalingRegister == cluster.iblock.scalingFactors
    && cluster.iblock.device.connected == IMatrix.Requested(cluster.iblock.outputs)
    && cluster.shblock.hardware == cluster.shblock.state
  }

  function Zeros(): (z: seq<real>)
    ensures |z| == NUM_LANES
  {
    seq(NUM_LANES, i => 0.0)
  }

  /** Grounds all lanes, lets the SH block compensate, and restores the transmission modes. */
  method CalibrateOffsets(cluster: Cluster, reliable: bool) returns (ok: bool)
    requires cluster.Valid()
    modifies cluster.ublock, cluster.shblock
    ensures cluster.Valid() && (reliable ==> ok) && cluster.ublock.outputInputMap == old(cluster.ublock.outputInputMap)
    ensures ok ==> && cluster.ublock.Config() == old(cluster.ublock.Config())
                   && cluster.ublock.hardware == cluster.ublock.Config()
                   && cluster.shblock.state == cluster.shblock.hardware == Inject
                   && cluster.shblock.history == old(cluster.shblock.history) + [Track, Inject]
                   && cluster.shblock.compensations == old(cluster.shblock.compensations)
                        + [WithLanesGrounded(cluster.ublock.outputInputMap, cluster.ublock.refMagnitude,
                                             cluster.cblock.hardware)]
  {
    var a, b := cluster.ublock.aSideMode, cluster.ublock.bSideMode;
    cluster.ublock.ChangeAllModes(Ground, Ground);
    ok := cluster.ublock.WriteToHardware(reliable);
    if !ok { return; }
    cluster.shblock.CompensateHardwareOffsets(cluster.ublock.hardware, cluster.cblock.hardware);
    cluster.ublock.ChangeAllModes(a, b);
    ok := cluster.ublock.WriteToHardware(reliable);
  }

  // All coefficients are zero, and the I block's hardware has the connections without upscaling.
  ghost predicate AllOff(cluster: Cluster)
    requires cluster.Valid()
    reads cluster.ublock, cluster.cblock, cluster.iblock, cluster.iblock.device
  {
    && cluster.cblock.factors == Zeros() && cluster.iblock.scalingFactors == seq(NUM_LANES, i => false)
    && cluster.iblock.upscalingRegister == cluster.iblock.scalingFactors
    && cluster.iblock.device.connected == IMatrix.Requested(cluster.iblock.outputs)
  }

  lemma OneLaneOn(gains: seq<real>, l: nat)
    requires |gains| == NUM_LANES && l < NUM_LANES
    ensures RawFactors(Zeros()[l := 1.0], gains[l := 1.0]) == OneAt(l)
    ensures Zeros()[l := 1.0][l := 0.0] == Zeros() && GainInRange(1.0)
  {
    Converter.OneAndZero(1.0);
    var raw := RawFactors(Zeros()[l := 1.0], gains[l := 1.0]);
    forall i | 0 <= i < NUM_LANES ensures raw[i] == OneAt(l)[i] {
      if i != l { TimesZero(gains[i]); }
    }
  }

  lemma TimesZero(g: real)
    ensures 0.0 * g == 0.0
  {
  }

  /** Sets everything up for the measurement of lane l at output o. */
  method SwitchLaneOn(cluster: Cluster, o: nat, l: nat, reliable: bool) returns (ok: bool)
    requires cluster.Valid() && o < NUM_I_OUTPUTS && l < NUM_LANES && AllOff(cluster)
    modifies cluster.ublock, cluster.cblock, cluster.shblock
    ensures cluster.Valid() && (reliable ==> ok) && cluster.ublock.outputInputMap == old(cluster.ublock.outputInputMap)
    ensures ok ==> && cluster.cblock.factors == Zeros()[l := 1.0]
                   && cluster.cblock.gains == old(cluster.cblock.gains)[l := 1.0]
                   && cluster.cblock.hardware == OneAt(l)
                   && cluster.ublock.hardware == UConfig(cluster.ublock.outputInputMap, PosRef, PosRef, One)
                   && cluster.shblock.hardware == (if o < 8 then GainZeroToSeven else GainEightToFifteen)
                   && cluster.shblock.compensations == old(cluster.shblock.compensations)
                        + [WithLanesGrounded(cluster.ublock.outputInputMap, One, OneAt(l))]
  {
    hide GainInRange, RawFactors, Zeros, OneAt;
    OneLaneOn(cluster.cblock.gains, l);
    var upscaled := cluster.iblock.scalingFactors[l];
    cluster.ublock.ChangeAllModes(PosRef, PosRef);
    cluster.ublock.refMagnitude := if upscaled then OneTenth else One;
    ok := cluster.ublock.WriteToHardware(reliable);
    if !ok { return; }
    var _ := cluster.cblock.SetFactor(l, 1.0);
    var _ := cluster.cblock.SetGainCorrection(l, 1.0);
    ok := cluster.cblock.WriteToHardware(reliable);
    if !ok { return; }
    ok := CalibrateOffsets(cluster, reliable);
    if !ok { return; }
    cluster.shblock.state := if o < 8 then GainZeroToSeven else GainEightToFifteen;
    cluster.shblock.WriteToHardware();
  }

  /** Measures one lane and corrects its gain; the lane is switched off again. */
  method CalibrateLane(cluster: Cluster, o: nat, l: nat, reading: real, reliable: bool)
    returns (ok: bool, usable: bool, ghost m: Measurement)
    requires cluster.Valid() && o < NUM_I_OUTPUTS && l < NUM_LANES && AllOff(cluster)
    modifies cluster.ublock, cluster.cblock, cluster.shblock
    ensures cluster.Valid() && (reliable ==> ok)
    ensures cluster.ublock.outputInputMap == old(cluster.ublock.outputInputMap)
    ensures ok ==> && cluster.cblock.factors == Zeros()
                   && cluster.cblock.gains == old(cluster.cblock.gains)[l := Correction(reading)]
                   && usable == Usable(reading) == Correctable(reading)
                   && MakesUpFor(cluster.cblock.gains[l], reading)
                   && m.output == o && m.lane == l && m.reading == reading
                   && Isolated(old(cluster.Config()), m)
                   && cluster.cblock.hardware == RawFactors(cluster.cblock.factors, cluster.cblock.gains)
  {
    hide GainInRange, Correctable, MakesUpFor;
    OneLaneOn(cluster.cblock.gains, l);
    InverseInRange(reading);
    m := Measurement(o, l, reading, ResetUConfig(), [], [], {}, Inject, Compensation(ResetUConfig(), []));
    usable := false;
    ok := SwitchLaneOn(cluster, o, l, reliable);
    if !ok { return; }
    m := Measurement(o, l, reading, cluster.ublock.hardware, cluster.cblock.hardware,
                     cluster.iblock.upscalingRegister, cluster.iblock.device.connected, cluster.shblock.hardware,
                     cluster.shblock.compensations[|cluster.shblock.compensations| - 1]);
    // The division by a zero reading gives an infinity, which is out of range like any bad gain.
    usable := reading != 0.0;
    if usable { usable := cluster.cblock.SetGainCorrection(l, 1.0 / reading); }
    if !usable {
      var _ := cluster.cblock.SetGainCorrection(l, 1.0);
    }
    var _ := cluster.cblock.SetFactor(l, 0.0);
    ok := cluster.cblock.WriteToHardware(reliable);
  }

  // What the measuring loop keeps, having treated the pairs before (o, l).
  ghost predicate Measuring(cluster: Cluster, c: Circuit, gains: seq<real>, adc: (nat, nat) -> real,
                            trace: seq<Measurement>, o: nat, l: nat)
    requires c.Valid() && |gains| == NUM_LANES && o <= NUM_I_OUTPUTS && l <= NUM_LANES
             && (o == NUM_I_OUTPUTS ==> l == 0)
    reads cluster.ublock, cluster.cblock, cluster.iblock, cluster.iblock.device
  {
    && cluster.Valid() && AllOff(cluster)
    && cluster.ublock.outputInputMap == c.u.map_ && cluster.iblock.outputs == c.rows
    && cluster.cblock.gains == Corrected(gains, trace)
    && Pairs(trace) == FullPairs(c, o, l) && ReadingsFrom(adc, trace)
    && forall m | m in trace :: Isolated(c, m)
  }

  lemma NothingMeasured(c: Circuit, gains: seq<real>, adc: (nat, nat) -> real)
    requires c.Valid()
    ensures Corrected(gains, []) == gains && Pairs([]) == FullPairs(c, 0, 0) && ReadingsFrom(adc, []) && AllUsable([])
  {
  }

  lemma PairsSoFar(c: Circuit, o: nat, l: nat)
    requires c.Valid() && o < NUM_I_OUTPUTS && l < NUM_LANES
    ensures FullPairs(c, o, l + 1) == FullPairs(c, o, l) + (if FullyConnected(c, o, l) then [(o, l)] else [])
  {
  }

  lemma RowDone(c: Circuit, o: nat)
    requires c.Valid() && o < NUM_I_OUTPUTS
    ensures FullPairs(c, o + 1, 0) == FullPairs(c, o, NUM_LANES)
  {
  }

  lemma SameConnections(c: Circuit, d: Circuit, m: Measurement)
    requires c.Valid() && d.Valid() && c.u.map_ == d.u.map_ && c.rows == d.rows && Isolated(c, m)
    ensures Isolated(d, m)
  {
  }

  lemma OnePairMore(trace: seq<Measurement>, m: Measurement)
    ensures Pairs(trace + [m]) == Pairs(trace) + [(m.output, m.lane)]
  {
  }

  lemma OneReadingMore(adc: (nat, nat) -> real, trace: seq<Measurement>, m: Measurement)
    requires ReadingsFrom(adc, trace) && m.reading == adc(|trace|, Channel(m.output))
    ensures ReadingsFrom(adc, trace + [m])
    ensures AllUsable(trace + [m]) <==> AllUsable(trace) && Usable(m.reading)
  {
    hide Usable;
    assert forall k | 0 <= k < |trace| :: (trace + [m])[k] == trace[k];
    assert (trace + [m])[|trace|] == m;
  }

  lemma MeasuredOne(gains: seq<real>, adc: (nat, nat) -> real, trace: seq<Measurement>, m: Measurement)
    requires m.lane < |gains| && ReadingsFrom(adc, trace) && m.reading == adc(|trace|, Channel(m.output))
    ensures Corrected(gains, trace + [m]) == Corrected(gains, trace)[m.lane := Correction(m.reading)]
    ensures Pairs(trace + [m]) == Pairs(trace) + [(m.output, m.lane)]
    ensures ReadingsFrom(adc, trace + [m])
    ensures AllUsable(trace + [m]) <==> AllUsable(trace) && Usable(m.reading)
  {
    hide Correction, Usable, Pairs, ReadingsFrom, AllUsable;
    OnePairMore(trace, m);
    OneReadingMore(adc, trace, m);
    assert (trace + [m])[..|trace|] == trace;
  }

  /** The measuring loop over all I-block connections. */
  method MeasureLanes(cluster: Cluster, adc: (nat, nat) -> real, reliable: bool, ghost c: Circuit)
    returns (completed: bool, usable: bool, ghost trace: seq<Measurement>)
    requires cluster.Valid() && AllOff(cluster) && c.Valid()
    requires cluster.ublock.outputInputMap == c.u.map_ && cluster.iblock.outputs == c.rows
    modifies cluster.ublock, cluster.cblock, cluster.shblock
    ensures cluster.Valid() && cluster.ublock.outputInputMap == c.u.map_ && (reliable ==> completed)
    ensures completed ==> && Measuring(cluster, c, old(cluster.cblock.gains), adc, trace, NUM_I_OUTPUTS, 0)
                          && (usable <==> AllUsable(trace))
  {
    hide Isolated, Corrected, Pairs, FullPairs, ReadingsFrom, AllUsable, GainInRange, Correction, Usable;
    ghost var gains := cluster.cblock.gains;
    NothingMeasured(c, gains, adc);
    completed, usable, trace := true, true, [];
    var measured := 0;
    for o := 0 to NUM_I_OUTPUTS
      invariant Measuring(cluster, c, gains, adc, trace, o, 0)
      invariant measured == |trace| && (usable <==> AllUsable(trace))
    {
      for l := 0 to NUM_LANES
        invariant Measuring(cluster, c, gains, adc, trace, o, l)
        invariant measured == |trace| && (usable <==> AllUsable(trace))
      {
        PairsSoFar(c, o, l);
        if !cluster.iblock.IsConnected(l, o) || !cluster.ublock.IsOutputConnected(l) { continue; }
        var reading := adc(measured, Channel(o));
        ghost var before := cluster.Config();
        var ok, good, m := CalibrateLane(cluster, o, l, reading, reliable);
        if !ok { return false, false, trace; }
        SameConnections(before, c, m);
        MeasuredOne(gains, adc, trace, m);
        trace := trace + [m];
        usable, measured := usable && good, measured + 1;
      }
      RowDone(c, o);
    }
  }

  // Puts the user's configuration back, coefficients with their new corrections.
  method Restore(cluster: Cluster, modeA: Mode, modeB: Mode, reference: Magnitude, factors: seq<real>,
                 upscales: seq<bool>, reliable: bool) returns (ok: bool)
    requires cluster.Valid() && |factors| == |upscales| == NUM_LANES
    modifies cluster.ublock, cluster.cblock, cluster.iblock, cluster.iblock.device, cluster.shblock
    ensures cluster.Valid() && (reliable ==> ok) && cluster.cblock.gains == old(cluster.cblock.gains)
    ensures ok ==>
              cluster.Config() == Circuit.Circuit(UConfig(old(cluster.ublock.outputInputMap), modeA, modeB, reference),
                                                  factors, old(cluster.iblock.outputs), upscales)
    ensures ok ==> && HardwareMatches(cluster) && cluster.shblock.state == Inject
                   && cluster.shblock.history == old(cluster.shblock.history) + [Track, Inject, Inject]
                   && cluster.shblock.compensations == old(cluster.shblock.compensations)
                        + [WithLanesGrounded(cluster.ublock.outputInputMap, old(cluster.ublock.refMagnitude),
                                             cluster.cblock.hardware)]
  {
    hide RawFactors, IMatrix.Requested;
    cluster.cblock.factors := factors;
    ok := cluster.cblock.WriteToHardware(reliable);
    if !ok { return; }
    ok := CalibrateOffsets(cluster, reliable);
    if !ok { return; }
    cluster.ublock.ChangeAllModes(modeA, modeB);
    cluster.ublock.refMagnitude := reference;
    ok := cluster.ublock.WriteToHardware(reliable);
    if !ok { return; }
    cluster.iblock.scalingFactors := upscales;
    ok := cluster.iblock.WriteToHardware(reliable);
    if !ok { return; }
    cluster.shblock.state := Inject;
    cluster.shblock.WriteToHardware();
  }

  /** Calibrates all fully connected lanes.  `adc(k, ch)` is the k-th averaged reading of channel ch.
      A run that is not cut short by a failing hardware write gives the user's configuration back,
      in memory and in hardware; only the gain corrections of the measured lanes change. */
  method CalibrateRoutes(cluster: Cluster, adc: (nat, nat) -> real, reliable: bool)
    returns (success: bool, ghost completed: bool, ghost trace: seq<Measurement>)
    requires cluster.Valid()
    modifies cluster.ublock, cluster.cblock, cluster.iblock, cluster.iblock.device, cluster.shblock
    ensures cluster.Valid() && (reliable ==> completed)
    ensures !completed ==> !success
    ensures completed ==> && cluster.Config() == old(cluster.Config())
                          && cluster.cblock.gains == Corrected(old(cluster.cblock.gains), trace)
                          && Pairs(trace) == FullPairs(old(cluster.Config()), NUM_I_OUTPUTS, 0)
                          && ReadingsFrom(adc, trace) && (success <==> AllUsable(trace))
                          && (forall m | m in trace :: Isolated(old(cluster.Config()), m))
                          && HardwareMatches(cluster) && cluster.shblock.state == Inject
    ensures completed ==> && GainsCorrected(old(cluster.Config()), old(cluster.cblock.gains), cluster.cblock.gains,
                                            trace)
                          && (success <==> forall m | m in trace :: Correctable(m.reading))
    ensures completed ==> exists ref :: cluster.shblock.compensations != [] &&
                            cluster.shblock.compensations[|cluster.shblock.compensations| - 1] ==
                            WithLanesGrounded(cluster.ublock.outputInputMap, ref, cluster.cblock.hardware)
  {
    hide GainsCorrected, Correctable;
    hide Isolated, Corrected, Pairs, FullPairs, ReadingsFrom, AllUsable, GainInRange, RawFactors, RawFactor, OneAt;
    hide IMatrix.Requested, Zeros, HardwareMatches;
    ghost var c := cluster.Config();
    completed, trace := false, [];
    var modeA, modeB, reference := cluster.ublock.aSideMode, cluster.ublock.bSideMode, cluster.ublock.refMagnitude;
    var factors := cluster.cblock.factors;
    cluster.cblock.factors := Zeros();
    success := cluster.cblock.WriteToHardware(reliable);
    if !success { return; }
    var upscales := cluster.iblock.scalingFactors;
    cluster.iblock.scalingFactors := seq(NUM_LANES, i => false);
    success := cluster.iblock.WriteToHardware(reliable);
    if !success { return; }
    var usable;
    success, usable, trace := MeasureLanes(cluster, adc, reliable, c);
    if !success { return; }
    success := Restore(cluster, modeA, modeB, reference, factors, upscales, reliable);
    if !success { return; }
    CompleteCorrects(c, old(cluster.cblock.gains), trace);
    UsableIsCorrectable(trace);
    return usable, true, trace;
  }
}
