/** The U, C, I and SH blocks: their configuration in memory and the writes to their hardware.

    A hardware write may fail at any point unless the bus is reliable. */
module Blocks {
  import Converter
  import IMatrix

  const NUM_LANES: nat := 32 // U outputs, C coefficients, I inputs
  const NUM_U_INPUTS: nat := 16
  const NUM_I_OUTPUTS: nat := 16

  datatype Mode = AnalogInput | PosRef | NegRef | Ground
  datatype Magnitude = One | OneTenth

  // One bus transfer; a reliable bus always acknowledges.
  method Acknowledge(reliable: bool) returns (ok: bool)
    ensures reliable ==> ok
  {
    ok := *;
    ok := ok || reliable;
  }

  // ---------------------------------------------------------------- U block

  datatype UConfig = UConfig(map_: seq<int>, aSide: Mode, bSide: Mode, ref: Magnitude)
  {
    predicate Valid() {
      |map_| == NUM_LANES && forall l | 0 <= l < NUM_LANES :: -1 <= map_[l] < NUM_U_INPUTS
    }
  }

  // Inputs 15 (lower half) and 14 (upper half) are the b side, where an alternative signal can be fed in.
  predicate Alternative(input: int, output: nat) {
    (output < 16 && input == 15) || (output >= 16 && input == 14)
  }

  // The mode of a side: the alternative (b) one or the regular (a) one.
  function SideMode(u: UConfig, bSide: bool): Mode { if bSide then u.bSide else u.aSide }

  // When a connect succeeds: unless forced, the output must be free, and a side that is switched away
  // from an alternative signal must not have this input in use anywhere.
  predicate CanConnect(u: UConfig, input: nat, output: nat, force: bool)
    requires u.Valid()
  {
    && input < NUM_U_INPUTS && output < NUM_LANES
    && (force || (u.map_[output] < 0 && (SideMode(u, Alternative(input, output)) == AnalogInput || input !in u.map_)))
  }

  // The configuration after it.
  function Connected(u: UConfig, input: int, output: nat): UConfig
    requires u.Valid() && 0 <= input < NUM_U_INPUTS && output < NUM_LANES
  {
    UConfig(u.map_[output := input],
            if Alternative(input, output) then u.aSide else AnalogInput,
            if Alternative(input, output) then AnalogInput else u.bSide, u.ref)
  }

  // When an alternative connect succeeds.
  predicate CanConnectAlternative(u: UConfig, signal: Mode, output: nat, force: bool, useASide: bool)
    requires u.Valid()
  {
    && output < NUM_LANES && signal != AnalogInput
    && (force || ((signal == Ground || u.ref == One) && u.map_[output] < 0
                  && (SideMode(u, !useASide) == signal || (!useASide && 14 !in u.map_ && 15 !in u.map_))))
  }

  // The input an alternative signal is taken from: input zero where the like-numbered one is on the
  // other side.
  function AlternativeInput(output: nat, useASide: bool): nat
    requires output < NUM_LANES
  {
    if !useASide then (if output < 16 then 15 else 14)
    else if output < 15 then output
    else if output == 15 || output == 30 then 0
    else output - 16
  }

  function AlternativelyConnected(u: UConfig, signal: Mode, output: nat, useASide: bool): UConfig
    requires u.Valid() && output < NUM_LANES
  {
    UConfig(u.map_[output := AlternativeInput(output, useASide)],
            if useASide then signal else u.aSide, if useASide then u.bSide else signal, u.ref)
  }

  /** The fallback keeps an alternative connection on its side. */
  lemma AlternativeInputOnSide(output: nat, useASide: bool)
    requires output < NUM_LANES
    ensures AlternativeInput(output, useASide) < NUM_U_INPUTS
    ensures Alternative(AlternativeInput(output, useASide), output) <==> !useASide
  {
  }

  /** A forced connect always succeeds; an unforced one takes no lane away, and switches a side only if
      this input is nowhere in use. */
  lemma ConnectsExactly(u: UConfig, input: nat, output: nat, force: bool)
    requires u.Valid()
    ensures var b := input == if output < 16 then 15 else 14;
            CanConnect(u, input, output, force) <==>
              && input < 16 && output < 32
              && (force || (u.map_[output] == -1 &&
                            ((if b then u.bSide else u.aSide) == AnalogInput || input !in u.map_)))
  {
  }

  /** A forced alternative connect always succeeds; an unforced one needs an undivided reference unless
      it grounds, a free lane, and a side that carries the signal already: the a side as it is, the b
      side also if neither of its inputs is in use. */
  lemma ConnectsAlternativeExactly(u: UConfig, signal: Mode, output: nat, force: bool, useASide: bool)
    requires u.Valid()
    ensures CanConnectAlternative(u, signal, output, force, useASide) <==>
              && output < 32 && signal != AnalogInput
              && (force || (u.map_[output] == -1 && (signal == Ground || u.ref == One) &&
                            if useASide then u.aSide == signal
                            else u.bSide == signal || (14 !in u.map_ && 15 !in u.map_)))
  {
  }

  function Disconnected(u: UConfig, output: nat): UConfig
    requires u.Valid() && output < NUM_LANES
  {
    u.(map_ := u.map_[output := -1])
  }

  /** Disconnecting undoes an unforced connect up to the side's mode, which stays switched. */
  lemma DisconnectUndoes(u: UConfig, input: nat, output: nat)
    requires u.Valid() && CanConnect(u, input, output, false)
    ensures var v := Disconnected(Connected(u, input, output), output);
            && v.map_ == u.map_ && v.ref == u.ref
            && (v == u <==> SideMode(u, Alternative(input, output)) == AnalogInput)
  {
    assert Disconnected(Connected(u, input, output), output).map_ == u.map_;
  }

  class UBlock {
    var outputInputMap: seq<int>
    var aSideMode: Mode
    var bSideMode: Mode
    var refMagnitude: Magnitude
    var hardware: UConfig // what the chips and the mode register hold

    predicate Valid()
      reads this
    {
      Config().Valid()
    }

    function Config(): UConfig
      reads this
    {
      UConfig(outputInputMap, aSideMode, bSideMode, refMagnitude)
    }

    constructor (hardware: UConfig)
      ensures Valid() && Config() == ResetUConfig() && this.hardware == hardware
    {
      outputInputMap := seq(NUM_LANES, i => -1);
      aSideMode, bSideMode, refMagnitude := AnalogInput, AnalogInput, One;
      this.hardware := hardware;
    }

    method Reset()
      modifies this
      ensures Valid() && Config() == ResetUConfig() && hardware == old(hardware)
    {
      aSideMode, bSideMode := AnalogInput, AnalogInput;
      outputInputMap := seq(NUM_LANES, i => -1);
      refMagnitude := One;
    }

    predicate IsOutputConnected(output: nat)
      requires Valid()
      reads this
    {
      output < NUM_LANES && outputInputMap[output] >= 0
    }

    predicate IsInputConnected(input: nat)
      requires Valid()
      reads this
    {
      input < NUM_U_INPUTS && input in outputInputMap
    }

    method ChangeAllModes(a: Mode, b: Mode)
      modifies this`aSideMode, this`bSideMode
      ensures aSideMode == a && bSideMode == b
    {
      aSideMode, bSideMode := a, b;
    }

    /** It may switch a side back to its analog inputs first. */
    method Connect(input: nat, output: nat, force: bool) returns (ok: bool)
      requires Valid()
      modifies this
      ensures Valid() && hardware == old(hardware)
      ensures ok == CanConnect(old(Config()), input, output, force)
      ensures Config() == if ok then Connected(old(Config()), input, output) else old(Config())
    {
      if !(input < NUM_U_INPUTS && output < NUM_LANES) { return false; }
      if !force && IsOutputConnected(output) { return false; }
      if aSideMode != AnalogInput && ((output < 16 && input != 15) || (output >= 16 && input != 14)) {
        if !force {
          if IsInputConnected(input) { return false; }
        }
        aSideMode := AnalogInput;
      }
      if bSideMode != AnalogInput && ((output < 16 && input == 15) || (output >= 16 && input == 14)) {
        if !force {
          if IsInputConnected(input) { return false; }
        }
        bSideMode := AnalogInput;
      }
      outputInputMap := outputInputMap[output := input];
      return true;
    }

    /** Connection of a side's alternative signal. */
    method ConnectAlternative(signal: Mode, output: nat, force: bool, useASide: bool) returns (ok: bool)
      requires Valid()
      modifies this
      ensures Valid() && hardware == old(hardware)
      ensures ok == CanConnectAlternative(old(Config()), signal, output, force, useASide)
      ensures Config() == if ok then AlternativelyConnected(old(Config()), signal, output, useASide) else old(Config())
    {
      if !(output < NUM_LANES) { return false; }
      if signal == AnalogInput { return false; }
      if (signal == PosRef || signal == NegRef) && refMagnitude != One && !force { return false; }
      if !force && IsOutputConnected(output) { return false; }
      if aSideMode != signal && useASide {
        if !force { return false; }
        aSideMode := signal;
      }
      if bSideMode != signal && !useASide {
        if !force {
          if IsInputConnected(14) || IsInputConnected(15) { return false; }
        }
        bSideMode := signal;
      }
      var input;
      if useASide {
        input := if output < 15 then output else if output == 15 then 0 else if output == 30 then 0 else output - 16;
      } else {
        input := if output < 16 then 15 else 14;
      }
      outputInputMap := outputInputMap[output := input];
      return true;
    }

    method Disconnect(input: nat, output: nat) returns (ok: bool)
      requires Valid()
      modifies this`outputInputMap
      ensures Valid() && ok == (input < NUM_U_INPUTS && output < NUM_LANES && old(outputInputMap)[output] == input)
      ensures Config() == if ok then Disconnected(old(Config()), output) else old(Config())
    {
      if !(input < NUM_U_INPUTS && output < NUM_LANES) { return false; }
      if outputInputMap[output] != input { return false; }
      outputInputMap := outputInputMap[output := -1];
      return true;
    }

    method WriteToHardware(reliable: bool) returns (ok: bool)
      modifies this`hardware
      ensures reliable ==> ok
      ensures ok ==> hardware == Config()
    {
      ok := Acknowledge(reliable);
      if !ok { return; }
      hardware := hardware.(map_ := outputInputMap);
      ok := Acknowledge(reliable);
      if !ok { return; }
      hardware := hardware.(aSide := aSideMode, bSide := bSideMode, ref := refMagnitude);
    }
  }

  function ResetUConfig(): UConfig {
    UConfig(seq(NUM_LANES, i => -1), AnalogInput, AnalogInput, One)
  }

  // ---------------------------------------------------------------- C block

  const MAX_FACTOR: real := 1.01
  const MIN_FACTOR: real := -1.01
  const MAX_GAIN_CORRECTION_ABS: real := 0.1

  function Abs(x: real): real { if x < 0.0 then -x else x }

  predicate GainInRange(g: real) { Abs(1.0 - g) <= MAX_GAIN_CORRECTION_ABS }

  // The converter word of a corrected factor.
  function RawFactor(factor: real, gain: real): nat { Converter.FloatToRaw(factor * gain) }

  function RawFactors(factors: seq<real>, gains: seq<real>): (raw: seq<nat>)
    requires |factors| == |gains|
    ensures |raw| == |factors|
  {
    seq(|factors|, i requires 0 <= i < |factors| => RawFactor(factors[i], gains[i]))
  }

  /** The largest factor with the largest correction: accepted by both setters, not reached by the
      converter. */
  lemma LargestProductIsClamped()
    ensures GainInRange(1.0 + MAX_GAIN_CORRECTION_ABS)
    ensures var product := MAX_FACTOR * (1.0 + MAX_GAIN_CORRECTION_ABS);
            && RawFactors([MAX_FACTOR], [1.0 + MAX_GAIN_CORRECTION_ABS]) == [Converter.RAW_MAX]
            && !Converter.WithinOneStep(Converter.RawToFloat(Converter.RAW_MAX), product)
  {
    Converter.ConvertsExactly(MAX_FACTOR * (1.0 + MAX_GAIN_CORRECTION_ABS));
  }

  class CBlock {
    var factors: seq<real>
    var gains: seq<real>
    var hardware: seq<nat> // the converters' words

    predicate Valid()
      reads this
    {
      |factors| == |gains| == |hardware| == NUM_LANES
    }

    constructor (hardware: seq<nat>)
      requires |hardware| == NUM_LANES
      ensures Valid() && this.hardware == hardware
      ensures factors == gains == seq(NUM_LANES, i => 1.0)
    {
      factors, gains := seq(NUM_LANES, i => 1.0), seq(NUM_LANES, i => 1.0);
      this.hardware := hardware;
    }

    method SetFactor(idx: nat, factor: real) returns (ok: bool)
      requires Valid()
      modifies this`factors
      ensures Valid() && ok == (idx < NUM_LANES && MIN_FACTOR <= factor <= MAX_FACTOR)
      ensures factors == if ok then old(factors)[idx := factor] else old(factors)
    {
      if idx >= NUM_LANES { return false; }
      if factor > MAX_FACTOR || factor < MIN_FACTOR { return false; }
      factors := factors[idx := factor];
      return true;
    }

    // The source lets index 32 through; no caller passes it.
    method SetGainCorrection(idx: nat, correction: real) returns (ok: bool)
      requires Valid() && idx < NUM_LANES
      modifies this`gains
      ensures Valid() && ok == GainInRange(correction)
      ensures gains == if ok then old(gains)[idx := correction] else old(gains)
    {
      if Abs(1.0 - correction) > MAX_GAIN_CORRECTION_ABS { return false; }
      gains := gains[idx := correction];
      return true;
    }

    method WriteToHardware(reliable: bool) returns (ok: bool)
      requires Valid()
      modifies this`hardware
      ensures Valid() && (reliable ==> ok)
      ensures ok ==> hardware == RawFactors(factors, gains)
    {
      hide RawFactor;
      var i := 0;
      while i < NUM_LANES
        invariant 0 <= i <= NUM_LANES && Valid()
        invariant forall k | 0 <= k < i :: hardware[k] == RawFactors(factors, gains)[k]
      {
        ok := Acknowledge(reliable);
        if !ok { return; }
        hardware := hardware[i := RawFactor(factors[i], gains[i])];
        i := i + 1;
      }
      return true;
    }

    /** A circuit reset resets the factors, a calibration reset the gains. */
    method Reset(circuit: bool, calibration: bool)
      requires Valid()
      modifies this`factors, this`gains
      ensures Valid()
      ensures factors == if circuit then seq(NUM_LANES, i => 1.0) else old(factors)
      ensures gains == if calibration then seq(NUM_LANES, i => 1.0) else old(gains)
    {
      if circuit {
        var i := 0;
        while i < NUM_LANES
          invariant 0 <= i <= NUM_LANES && Valid() && gains == old(gains)
          invariant forall k | 0 <= k < i :: factors[k] == 1.0
        {
          var _ := SetFactor(i, 1.0);
          i := i + 1;
        }
      }
      if calibration { gains := seq(NUM_LANES, i => 1.0); }
    }
  }

  // ---------------------------------------------------------------- I block

  // The input exists and feeds no other output.
  predicate CanJoin(rows: seq<IMatrix.Row>, input: nat, output: nat)
    requires |rows| == NUM_I_OUTPUTS
  {
    && input < NUM_LANES && output < NUM_I_OUTPUTS
    && forall o | 0 <= o < NUM_I_OUTPUTS && o != output :: !IMatrix.Bit(rows[o], input)
  }

  class IBlock {
    var outputs: seq<IMatrix.Row>
    var scalingFactors: seq<bool>
    const device: IMatrix.Device
    var upscalingRegister: seq<bool>

    predicate Valid()
      reads this
    {
      |outputs| == NUM_I_OUTPUTS && |scalingFactors| == NUM_LANES
    }

    constructor (device: IMatrix.Device)
      ensures Valid() && this.device == device
      ensures outputs == seq(NUM_I_OUTPUTS, i => {}) && scalingFactors == seq(NUM_LANES, i => false)
    {
      this.device := device;
      outputs, scalingFactors := seq(NUM_I_OUTPUTS, i => {}), seq(NUM_LANES, i => false);
      upscalingRegister := [];
    }

    method Reset()
      modifies this`outputs, this`scalingFactors
      ensures outputs == seq(NUM_I_OUTPUTS, i => {}) && scalingFactors == seq(NUM_LANES, i => false)
    {
      outputs, scalingFactors := seq(NUM_I_OUTPUTS, i => {}), seq(NUM_LANES, i => false);
    }

    predicate IsConnected(input: nat, output: nat)
      requires Valid()
      reads this
    {
      output < NUM_I_OUTPUTS && input < NUM_LANES && IMatrix.Bit(outputs[output], input)
    }

    /** Adds a connection, or makes it the output's only one; unless splitting is allowed, an input
        that already feeds another output is refused. */
    method Connect(input: nat, output: nat, exclusive: bool, allowSplitting: bool) returns (ok: bool)
      requires Valid()
      modifies this`outputs
      ensures Valid() && ok == (CanJoin(old(outputs), input, output) ||
                                   (allowSplitting && input < NUM_LANES && output < NUM_I_OUTPUTS))
      ensures outputs ==
              if ok then old(outputs)[output := (if exclusive then {} else old(outputs)[output]) + {input}]
              else old(outputs)
    {
      if output >= NUM_I_OUTPUTS || input >= NUM_LANES { return false; }
      if !allowSplitting {
        for other := 0 to NUM_I_OUTPUTS
          invariant forall o | 0 <= o < other && o != output :: !IMatrix.Bit(outputs[o], input)
        {
          if output == other { continue; }
          if IsConnected(input, other) { return false; }
        }
      }
      if exclusive {
        assert {} + {input} == {input};
        outputs := outputs[output := {input}];
      } else {
        outputs := outputs[output := outputs[output] + {input}];
      }
      return true;
    }

    method Disconnect(input: nat, output: nat) returns (ok: bool)
      requires Valid()
      modifies this`outputs
      ensures Valid() && ok == (output < NUM_I_OUTPUTS && input < NUM_LANES && IMatrix.Bit(old(outputs)[output], input))
      ensures outputs == if ok then old(outputs)[output := old(outputs)[output] - {input}] else old(outputs)
    {
      if !IsConnected(input, output) { return false; }
      outputs := outputs[output := outputs[output] - {input}];
      return true;
    }

    method SetUpscaling(input: nat, upscale: bool) returns (ok: bool)
      requires Valid()
      modifies this`scalingFactors
      ensures Valid() && ok == (input < NUM_LANES)
      ensures scalingFactors == if ok then old(scalingFactors)[input := upscale] else old(scalingFactors)
    {
      if input >= NUM_LANES { return false; }
      scalingFactors := scalingFactors[input := upscale];
      return true;
    }

    method WriteToHardware(reliable: bool) returns (ok: bool)
      requires Valid()
      modifies this`upscalingRegister, device
      ensures reliable ==> ok
      ensures ok ==> upscalingRegister == scalingFactors && device.connected == IMatrix.Requested(outputs)
    {
      ok := Acknowledge(reliable);
      if !ok { return; }
      upscalingRegister := scalingFactors;
      var acks: seq<bool> := *;
      if reliable { acks := []; }
      ok := IMatrix.WriteOutputs(device, outputs, acks);
    }
  }

  // ---------------------------------------------------------------- SH block

  datatype ShState = Track | TrackAtIc | Inject | GainZeroToSeven | GainEightToFifteen

  // What the U and C blocks' hardware held while offsets were compensated.
  datatype Compensation = Compensation(u: UConfig, coefficients: seq<nat>)

  class SHBlock {
    var state: ShState
    var hardware: ShState
    ghost var history: seq<ShState> // all states of the hardware since it was set up
    ghost var compensations: seq<Compensation>

    constructor (hardware: ShState)
      ensures state == Inject && this.hardware == hardware && history == [] && compensations == []
    {
      state, this.hardware, history, compensations := Inject, hardware, [], [];
    }

    method Reset()
      modifies this`state
      ensures state == Inject
    {
      state := Inject;
    }

    // Trigger lines; they always succeed.
    method WriteToHardware()
      modifies this`hardware, this`history
      ensures hardware == state && history == old(history) + [state]
    {
      hardware := state;
      history := history + [hardware];
    }

    // What the other blocks hold meanwhile is passed in for the record.
    method CompensateHardwareOffsets(ghost u: UConfig, ghost coefficients: seq<nat>)
      modifies this
      ensures state == Inject && hardware == Inject && history == old(history) + [Track, Inject]
      ensures compensations == old(compensations) + [Compensation(u, coefficients)]
    {
      hardware := Track;
      history := history + [hardware];
      compensations := compensations + [Compensation(u, coefficients)];
      hardware := Inject;
      history := history + [hardware];
      state := Inject;
    }
  }
}
