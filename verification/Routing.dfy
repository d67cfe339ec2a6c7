/** A cluster: routes through the U, C and I blocks, and the linear map they configure. */
module Routing {
  import opened Blocks
  import IMatrix

  // ---------------------------------------------------------------- what a configuration denotes

  datatype Circuit = Circuit(u: UConfig, factors: seq<real>, rows: seq<IMatrix.Row>, upscaling: seq<bool>)
  {
    predicate Valid() {
      u.Valid() && |factors| == |upscaling| == NUM_LANES && |rows| == NUM_I_OUTPUTS
    }
  }

  // What a U output carries.
  datatype Signal = Open | Input(input: int) | Reference(positive: bool, magnitude: Magnitude) | Grounded

  function ModeSignal(mode: Mode, input: int, ref: Magnitude): Signal {
    match mode
    case AnalogInput => Input(input)
    case PosRef => Reference(true, ref)
    case NegRef => Reference(false, ref)
    case Ground => Grounded
  }

  function LaneSignal(u: UConfig, l: nat): Signal
    requires u.Valid() && l < NUM_LANES
  {
    if u.map_[l] < 0 then Open
    else ModeSignal(if Alternative(u.map_[l], l) then u.bSide else u.aSide, u.map_[l], u.ref)
  }

  function SignalValue(s: Signal, src: int -> real): real {
    match s
    case Open => 0.0
    case Grounded => 0.0
    case Input(i) => src(i)
    case Reference(positive, magnitude) =>
      (if positive then 1.0 else -1.0) * (if magnitude == One then 1.0 else 0.1)
  }

  // Coefficient of a lane, with the upscaling at the I-block input.
  function LaneGain(c: Circuit, l: nat): real
    requires c.Valid() && l < NUM_LANES
  {
    c.factors[l] * (if c.upscaling[l] then 10.0 else 1.0)
  }

  function LaneTerm(c: Circuit, o: nat, l: nat, src: int -> real): real
    requires c.Valid() && o < NUM_I_OUTPUTS && l < NUM_LANES
  {
    if l in c.rows[o] then LaneGain(c, l) * SignalValue(LaneSignal(c.u, l), src) else 0.0
  }

  // The implicit sum over the first n lanes at output o.
  function PartialSum(c: Circuit, o: nat, n: nat, src: int -> real): real
    requires c.Valid() && o < NUM_I_OUTPUTS && n <= NUM_LANES
  {
    if n == 0 then 0.0 else PartialSum(c, o, n - 1, src) + LaneTerm(c, o, n - 1, src)
  }

  function OutputValue(c: Circuit, o: nat, src: int -> real): real
    requires c.Valid() && o < NUM_I_OUTPUTS
  {
    PartialSum(c, o, NUM_LANES, src)
  }

  // ---------------------------------------------------------------- the mode switch

  // A lane is connected on a side.
  predicate OnSide(u: UConfig, l: nat, bSide: bool)
    requires u.Valid() && l < NUM_LANES
  {
    u.map_[l] >= 0 && Alternative(u.map_[l], l) == bSide
  }

  ghost predicate OthersKeepSignal(u: UConfig, u': UConfig, l: nat)
    requires u.Valid() && u'.Valid()
  {
    forall k | 0 <= k < NUM_LANES && k != l :: LaneSignal(u', k) == LaneSignal(u, k)
  }

  // A side's mode switch leaves all lanes' signals alone if the side is already in that mode or
  // no connected lane is on it.
  predicate KeepsOtherSignals(u: UConfig, input: int, output: nat)
    requires u.Valid()
  {
    SideMode(u, Alternative(input, output)) == AnalogInput
    || forall k | 0 <= k < NUM_LANES :: !OnSide(u, k, Alternative(input, output))
  }

  /** A new connection leaves the signals of all other lanes alone if and only if the side it is on
      needs no switching or carries no lane yet; checking the one input, as the block does, is not
      enough. */
  lemma ConnectKeepsSignalsExactly(u: UConfig, input: int, output: nat)
    requires u.Valid() && 0 <= input < NUM_U_INPUTS && output < NUM_LANES && u.map_[output] < 0
    ensures OthersKeepSignal(u, Connected(u, input, output), output) <==> KeepsOtherSignals(u, input, output)
  {
    var u' := Connected(u, input, output);
    if !KeepsOtherSignals(u, input, output) {
      var k :| 0 <= k < NUM_LANES && OnSide(u, k, Alternative(input, output));
      assert k != output && LaneSignal(u', k) == Input(u.map_[k]) != LaneSignal(u, k);
    } else {
      forall k | 0 <= k < NUM_LANES && k != output ensures LaneSignal(u', k) == LaneSignal(u, k) {
        var alternative := Alternative(input, output);
        assert u'.map_[k] == u.map_[k] && (OnSide(u, k, alternative) ==> SideMode(u, alternative) == AnalogInput);
      }
    }
  }

  /** A lane just connected carries its input, and one connected to an alternative signal that signal,
      whatever the sides were set to before. */
  lemma ConnectedCarries(u: UConfig, input: nat, signal: Mode, output: nat, useASide: bool)
    requires u.Valid() && input < 16 && output < 32
    ensures LaneSignal(Connected(u, input, output), output) == Input(input)
    ensures var v := AlternativelyConnected(u, signal, output, useASide);
            v.Valid() && LaneSignal(v, output) == match signal
                                                  case AnalogInput => Input(v.map_[output])
                                                  case PosRef => Reference(true, u.ref)
                                                  case NegRef => Reference(false, u.ref)
                                                  case Ground => Grounded
  {
    AlternativeInputOnSide(output, useASide);
  }

  // ---------------------------------------------------------------- calls

  datatype Call =
    | RouteCall(uIn: nat, uOut: nat, factor: real, iOut: nat)
    | ConstantCall(signal: Mode, uOut: nat, factor: real, iOut: nat)

  // Large coefficients are stored scaled down by ten, with the lane's upscaling switched on.
  predicate Large(factor: real) { Abs(factor) > 1.0 }

  function Stored(factor: real): real { if Large(factor) then factor * 0.1 else factor }

  predicate UAccepts(u: UConfig, call: Call)
    requires u.Valid()
  {
    if call.RouteCall? then CanConnect(u, call.uIn, call.uOut, false)
    else CanConnectAlternative(u, call.signal, call.uOut, false, false)
  }

  function UAfter(u: UConfig, call: Call): (u': UConfig)
    requires u.Valid() && UAccepts(u, call)
    ensures u'.Valid()
  {
    if call.RouteCall? then Connected(u, call.uIn, call.uOut)
    else AlternativelyConnected(u, call.signal, call.uOut, false)
  }

  predicate InRange(factor: real) { MIN_FACTOR <= factor <= MAX_FACTOR }

  predicate Accepts(c: Circuit, call: Call)
    requires c.Valid()
  {
    UAccepts(c.u, call) && InRange(Stored(call.factor)) && CanJoin(c.rows, call.uOut, call.iOut)
  }

  // A call's effect, refused or not: it stops at the first block that refuses, and what was done
  // before stays.
  function After(c: Circuit, call: Call): (c': Circuit)
    requires c.Valid()
    ensures c'.Valid()
  {
    var c1 := if call.uOut < NUM_LANES then c.(upscaling := c.upscaling[call.uOut := Large(call.factor)]) else c;
    if !UAccepts(c.u, call) then c1 else
      var c2 := c1.(u := UAfter(c.u, call));
      if !InRange(Stored(call.factor)) then c2 else
        var c3 := c2.(factors := c.factors[call.uOut := Stored(call.factor)]);
        if !CanJoin(c.rows, call.uOut, call.iOut) then c3
        else c3.(rows := c.rows[call.iOut := c.rows[call.iOut] + {call.uOut}])
  }

  // The term a call asks for at its output.
  function CallValue(call: Call, src: int -> real): real {
    match call
    case RouteCall(uIn, _, factor, _) => factor * src(uIn)
    case ConstantCall(signal, _, factor, _) => factor * SignalValue(ModeSignal(signal, 0, One), src)
  }

  /** What calls ask for: the factor times the input, or times plus or minus one, or nothing. */
  lemma CallValues(call: Call, src: int -> real)
    ensures CallValue(call, src) == match call
                                    case RouteCall(uIn, _, factor, _) => factor * src(uIn)
                                    case ConstantCall(AnalogInput, _, factor, _) => factor * src(0)
                                    case ConstantCall(PosRef, _, factor, _) => factor
                                    case ConstantCall(NegRef, _, factor, _) => -factor
                                    case ConstantCall(Ground, _, _, _) => 0.0
    ensures SignalValue(Reference(true, OneTenth), src) == 0.1 && SignalValue(Reference(false, OneTenth), src) == -0.1
  {
  }

  // Lanes used in the I block are fed by the U block, and each feeds at most one output.
  ghost predicate LanesComplete(c: Circuit)
    requires c.Valid()
  {
    && (forall o, l | 0 <= o < NUM_I_OUTPUTS && l in c.rows[o] :: c.u.map_[l] >= 0)
    && (forall o, p, l | 0 <= o < NUM_I_OUTPUTS && 0 <= p < NUM_I_OUTPUTS && l in c.rows[o] && l in c.rows[p] :: o == p)
  }

  lemma StaysComplete(c: Circuit, call: Call)
    requires c.Valid() && LanesComplete(c)
    ensures LanesComplete(After(c, call))
  {
    var c' := After(c, call);
    assert c'.rows == c.rows || c'.rows == c.rows[call.iOut := c.rows[call.iOut] + {call.uOut}];
  }

  // ---------------------------------------------------------------- what one call does to the sums

  // A refused call is to change no output, an accepted one just its own.
  ghost predicate DoesWhatItSays(c: Circuit, call: Call)
    requires c.Valid()
  {
    forall o, src: int -> real | 0 <= o < NUM_I_OUTPUTS ::
      OutputValue(After(c, call), o, src) == OutputValue(c, o, src) + Asked(c, call, o, src)
  }

  function Asked(c: Circuit, call: Call, o: nat, src: int -> real): real
    requires c.Valid()
  {
    if Accepts(c, call) && call.iOut == o then CallValue(call, src) else 0.0
  }

  // The side whose mode the call switches, if it does.
  predicate Switches(u: UConfig, call: Call)
    requires u.Valid()
  {
    call.RouteCall? && SideMode(u, Alternative(call.uIn, call.uOut)) != AnalogInput
  }

  predicate Disturbed(u: UConfig, call: Call, l: nat)
    requires u.Valid() && l < NUM_LANES
  {
    Switches(u, call) && OnSide(u, l, Alternative(call.uIn, call.uOut))
  }

  // The disturbed lanes' gains that one input now reaches at output o, over the first n lanes.
  function DisturbedGain(c: Circuit, call: Call, o: nat, i: nat, n: nat): real
    requires c.Valid() && o < NUM_I_OUTPUTS && n <= NUM_LANES
  {
    if n == 0 then 0.0 else DisturbedGain(c, call, o, i, n - 1) + GainOf(c, call, o, i, n - 1)
  }

  function GainOf(c: Circuit, call: Call, o: nat, i: nat, l: nat): real
    requires c.Valid() && o < NUM_I_OUTPUTS && l < NUM_LANES
  {
    if l in c.rows[o] && Disturbed(c.u, call, l) && c.u.map_[l] == i then LaneGain(c, l) else 0.0
  }

  predicate SwitchCancels(c: Circuit, call: Call)
    requires c.Valid()
  {
    forall o, i | 0 <= o < NUM_I_OUTPUTS && 0 <= i < NUM_U_INPUTS :: DisturbedGain(c, call, o, i, NUM_LANES) == 0.0
  }

  // Changing the upscaling of a lane that is in use matters unless its coefficient or signal is zero.
  predicate RescalesInVain(c: Circuit, call: Call)
    requires c.Valid()
  {
    call.uOut >= NUM_LANES || c.upscaling[call.uOut] == Large(call.factor) || c.factors[call.uOut] == 0.0
    || LaneSignal(c.u, call.uOut) == Grounded || forall o | 0 <= o < NUM_I_OUTPUTS :: call.uOut !in c.rows[o]
  }

  /** What a caller can check before a call: if the U block will refuse, the lane's upscaling; if not,
      the lanes on the side that is switched. */
  predicate Harmless(c: Circuit, call: Call)
    requires c.Valid()
  {
    if UAccepts(c.u, call) then SwitchCancels(c, call) else RescalesInVain(c, call)
  }

  /** No other lane on the side means nothing is disturbed. */
  lemma {:induction false} KeepingIsCancelling(c: Circuit, call: Call, o: nat, i: nat, n: nat)
    requires c.Valid() && o < NUM_I_OUTPUTS && n <= NUM_LANES
    requires call.RouteCall? ==> KeepsOtherSignals(c.u, call.uIn, call.uOut)
    ensures DisturbedGain(c, call, o, i, n) == 0.0
  {
    if n > 0 { KeepingIsCancelling(c, call, o, i, n - 1); }
  }

  // The old and the new value of a disturbed lane's signal.
  function SwitchedValue(u: UConfig, call: Call): real
    requires u.Valid()
  {
    if call.RouteCall?
    then SignalValue(ModeSignal(SideMode(u, Alternative(call.uIn, call.uOut)), 0, u.ref), i => 0.0)
    else 0.0
  }

  function Change(c: Circuit, call: Call, o: nat, l: nat, src: int -> real): real
    requires c.Valid() && o < NUM_I_OUTPUTS && l < NUM_LANES
  {
    if l in c.rows[o] && Disturbed(c.u, call, l)
    then LaneGain(c, l) * (src(c.u.map_[l]) - SwitchedValue(c.u, call))
    else 0.0
  }

  function ChangeSum(c: Circuit, call: Call, o: nat, n: nat, src: int -> real): real
    requires c.Valid() && o < NUM_I_OUTPUTS && n <= NUM_LANES
  {
    if n == 0 then 0.0 else ChangeSum(c, call, o, n - 1, src) + Change(c, call, o, n - 1, src)
  }

  // The lane that is connected carries what was asked for.
  lemma NewLane(c: Circuit, call: Call, o: nat, src: int -> real)
    requires c.Valid() && LanesComplete(c) && UAccepts(c.u, call) && o < NUM_I_OUTPUTS
    ensures call.uOut < NUM_LANES && call.uOut !in c.rows[o]
    ensures LaneTerm(After(c, call), o, call.uOut, src) == Asked(c, call, o, src)
  {
  }

  // Every other lane keeps its gain, and its signal unless it is disturbed.
  lemma OtherLane(c: Circuit, call: Call, o: nat, l: nat, src: int -> real)
    requires c.Valid() && UAccepts(c.u, call) && o < NUM_I_OUTPUTS && l < NUM_LANES && l != call.uOut
    ensures LaneTerm(After(c, call), o, l, src) == LaneTerm(c, o, l, src) + Change(c, call, o, l, src)
  {
    hide After, LaneSignal, SignalValue, Disturbed, SwitchedValue, LaneGain;
    OtherUnchanged(c, call, o, l);
    OtherSignal(c.u, call, l, src);
  }

  lemma OtherUnchanged(c: Circuit, call: Call, o: nat, l: nat)
    requires c.Valid() && UAccepts(c.u, call) && o < NUM_I_OUTPUTS && l < NUM_LANES && l != call.uOut
    ensures var c' := After(c, call);
            (l in c'.rows[o] <==> l in c.rows[o]) && LaneGain(c', l) == LaneGain(c, l) && c'.u == UAfter(c.u, call)
  {
  }

  lemma OtherSignal(u: UConfig, call: Call, l: nat, src: int -> real)
    requires u.Valid() && UAccepts(u, call) && l < NUM_LANES && l != call.uOut
    ensures if Disturbed(u, call, l)
            then SignalValue(LaneSignal(UAfter(u, call), l), src) == src(u.map_[l])
                 && SignalValue(LaneSignal(u, l), src) == SwitchedValue(u, call)
            else LaneSignal(UAfter(u, call), l) == LaneSignal(u, l)
  {
    var side := if call.RouteCall? then Alternative(call.uIn, call.uOut) else true;
    assert OnSide(u, l, side) ==> u.map_[l] >= 0 && Alternative(u.map_[l], l) == side;
    assert UAfter(u, call).map_[l] == u.map_[l];
    if call.ConstantCall? && OnSide(u, l, true) { assert u.map_[l] in u.map_ && (u.map_[l] == 14 || u.map_[l] == 15); }
  }

  lemma {:induction false} SumAfter(c: Circuit, call: Call, o: nat, n: nat, src: int -> real)
    requires c.Valid() && LanesComplete(c) && UAccepts(c.u, call) && o < NUM_I_OUTPUTS && n <= NUM_LANES
    ensures PartialSum(After(c, call), o, n, src) ==
            PartialSum(c, o, n, src) + ChangeSum(c, call, o, n, src)
            + (if call.uOut < n then Asked(c, call, o, src) else 0.0)
  {
    hide LaneTerm, Change, Asked, After, LanesComplete, UAccepts;
    if n > 0 {
      SumAfter(c, call, o, n - 1, src);
      NewLane(c, call, o, src);
      NotYetThere(c, call, o, src);
      if n - 1 != call.uOut { OtherLane(c, call, o, n - 1, src); }
    }
  }

  lemma NotYetThere(c: Circuit, call: Call, o: nat, src: int -> real)
    requires c.Valid() && o < NUM_I_OUTPUTS && call.uOut < NUM_LANES && call.uOut !in c.rows[o]
    ensures LaneTerm(c, o, call.uOut, src) == 0.0 == Change(c, call, o, call.uOut, src)
  {
  }

  // ---------------------------------------------------------------- the change, input by input

  function ByInput(c: Circuit, call: Call, o: nat, n: nat, m: nat, src: int -> real): real
    requires c.Valid() && o < NUM_I_OUTPUTS && n <= NUM_LANES
  {
    if m == 0 then 0.0
    else
      ByInput(c, call, o, n, m - 1, src)
      + (src(m - 1) - SwitchedValue(c.u, call)) * DisturbedGain(c, call, o, m - 1, n)
  }

  lemma {:induction false} OneLaneByInput(c: Circuit, call: Call, o: nat, n: nat, m: nat, src: int -> real)
    requires c.Valid() && o < NUM_I_OUTPUTS && n < NUM_LANES
    ensures ByInput(c, call, o, n + 1, m, src) ==
            ByInput(c, call, o, n, m, src) + (if c.u.map_[n] < m then Change(c, call, o, n, src) else 0.0)
  {
    hide LaneGain, Disturbed, SwitchedValue, GainOf, Change;
    OnlyConnected(c, call, n);
    if m > 0 {
      OneLaneByInput(c, call, o, n, m - 1, src);
      OneInputMore(src(m - 1) - SwitchedValue(c.u, call), DisturbedGain(c, call, o, m - 1, n),
                   GainOf(c, call, o, m - 1, n));
      ChangeAtInput(c, call, o, n, m - 1, src);
    }
  }

  lemma OneInputMore(w: real, d: real, g: real)
    ensures w * (d + g) == w * d + w * g
  {
  }

  lemma ChangeAtInput(c: Circuit, call: Call, o: nat, l: nat, i: nat, src: int -> real)
    requires c.Valid() && o < NUM_I_OUTPUTS && l < NUM_LANES
    ensures (src(i) - SwitchedValue(c.u, call)) * GainOf(c, call, o, i, l) ==
            if c.u.map_[l] == i then Change(c, call, o, l, src) else 0.0
  {
    hide LaneGain, Disturbed, SwitchedValue;
  }

  lemma OnlyConnected(c: Circuit, call: Call, l: nat)
    requires c.Valid() && l < NUM_LANES
    ensures c.u.map_[l] < 0 ==> forall o, src: int -> real | 0 <= o < NUM_I_OUTPUTS :: Change(c, call, o, l, src) == 0.0
  {
  }

  lemma {:induction false} ChangeByInput(c: Circuit, call: Call, o: nat, n: nat, src: int -> real)
    requires c.Valid() && o < NUM_I_OUTPUTS && n <= NUM_LANES
    ensures ChangeSum(c, call, o, n, src) == ByInput(c, call, o, n, NUM_U_INPUTS, src)
  {
    hide Change, GainOf, SwitchedValue;
    if n > 0 {
      ChangeByInput(c, call, o, n - 1, src);
      OneLaneByInput(c, call, o, n - 1, NUM_U_INPUTS, src);
    } else {
      NoLanes(c, call, o, NUM_U_INPUTS, src);
    }
  }

  lemma {:induction false} NoLanes(c: Circuit, call: Call, o: nat, m: nat, src: int -> real)
    requires c.Valid() && o < NUM_I_OUTPUTS
    ensures ByInput(c, call, o, 0, m, src) == 0.0
  {
    if m > 0 {
      NoLanes(c, call, o, m - 1, src);
      assert (src(m - 1) - SwitchedValue(c.u, call)) * 0.0 == 0.0;
    }
  }

  // With only one input off the switched value, its disturbed gain shows.
  lemma {:induction false} OneInput(c: Circuit, call: Call, o: nat, i: nat, n: nat, m: nat, src: int -> real)
    requires c.Valid() && o < NUM_I_OUTPUTS && n <= NUM_LANES
    requires forall j :: src(j) == SwitchedValue(c.u, call) + (if j == i then 1.0 else 0.0)
    ensures ByInput(c, call, o, n, m, src) == if i < m then DisturbedGain(c, call, o, i, n) else 0.0
  {
    hide SwitchedValue, DisturbedGain;
    if m > 0 { OneInput(c, call, o, i, n, m - 1, src); }
  }

  lemma {:induction false} AllCancelled(c: Circuit, call: Call, o: nat, m: nat, src: int -> real)
    requires c.Valid() && o < NUM_I_OUTPUTS && m <= NUM_U_INPUTS && SwitchCancels(c, call)
    ensures ByInput(c, call, o, NUM_LANES, m, src) == 0.0
  {
    hide DisturbedGain, SwitchedValue;
    if m > 0 {
      AllCancelled(c, call, o, m - 1, src);
      assert DisturbedGain(c, call, o, m - 1, NUM_LANES) == 0.0;
      assert (src(m - 1) - SwitchedValue(c.u, call)) * 0.0 == 0.0;
    }
  }

  lemma ConnectedCallExactly(c: Circuit, call: Call)
    requires c.Valid() && LanesComplete(c) && UAccepts(c.u, call)
    ensures DoesWhatItSays(c, call) <==> SwitchCancels(c, call)
  {
    hide PartialSum, After, Asked, ChangeSum, ByInput, DisturbedGain, LanesComplete, SwitchedValue, UAccepts;
    NewLaneExists(c, call);
    forall o, src: int -> real | 0 <= o < NUM_I_OUTPUTS
      ensures OutputValue(After(c, call), o, src) ==
              OutputValue(c, o, src) + Asked(c, call, o, src) + ByInput(c, call, o, NUM_LANES, NUM_U_INPUTS, src)
    {
      SumAfter(c, call, o, NUM_LANES, src);
      ChangeByInput(c, call, o, NUM_LANES, src);
    }
    if SwitchCancels(c, call) {
      forall o, src: int -> real | 0 <= o < NUM_I_OUTPUTS
        ensures OutputValue(After(c, call), o, src) == OutputValue(c, o, src) + Asked(c, call, o, src)
      {
        AllCancelled(c, call, o, NUM_U_INPUTS, src);
      }
    } else {
      var o, i :| 0 <= o < NUM_I_OUTPUTS && 0 <= i < NUM_U_INPUTS && DisturbedGain(c, call, o, i, NUM_LANES) != 0.0;
      var v := SwitchedValue(c.u, call);
      var src: int -> real := j => v + (if j == i then 1.0 else 0.0);
      OneInput(c, call, o, i, NUM_LANES, NUM_U_INPUTS, src);
      assert OutputValue(After(c, call), o, src) != OutputValue(c, o, src) + Asked(c, call, o, src);
    }
  }

  lemma NewLaneExists(c: Circuit, call: Call)
    requires c.Valid() && UAccepts(c.u, call)
    ensures call.uOut < NUM_LANES
  {
  }

  // ---------------------------------------------------------------- refused by the U block

  lemma {:induction false} OneLaneChanges(c: Circuit, c': Circuit, o: nat, l: nat, n: nat, src: int -> real)
    requires c.Valid() && c'.Valid() && o < NUM_I_OUTPUTS && n <= NUM_LANES && l < NUM_LANES
    requires forall k | 0 <= k < NUM_LANES && k != l :: LaneTerm(c', o, k, src) == LaneTerm(c, o, k, src)
    ensures PartialSum(c', o, n, src) ==
            PartialSum(c, o, n, src) + (if l < n then LaneTerm(c', o, l, src) - LaneTerm(c, o, l, src) else 0.0)
  {
    hide LaneTerm;
    if n > 0 { OneLaneChanges(c, c', o, l, n - 1, src); }
  }

  lemma OnlyRescaled(c: Circuit, call: Call, o: nat, src: int -> real)
    requires c.Valid() && !UAccepts(c.u, call) && o < NUM_I_OUTPUTS
    ensures OutputValue(After(c, call), o, src) == OutputValue(c, o, src) +
              if call.uOut < NUM_LANES
              then LaneTerm(After(c, call), o, call.uOut, src) - LaneTerm(c, o, call.uOut, src)
              else 0.0
  {
    hide PartialSum;
    var c' := After(c, call);
    if call.uOut < NUM_LANES { OneLaneChanges(c, c', o, call.uOut, NUM_LANES, src); }
  }

  lemma RescaledInVain(c: Circuit, call: Call, o: nat, src: int -> real)
    requires c.Valid() && LanesComplete(c) && !UAccepts(c.u, call) && o < NUM_I_OUTPUTS
    requires RescalesInVain(c, call) && call.uOut < NUM_LANES
    ensures LaneTerm(After(c, call), o, call.uOut, src) == LaneTerm(c, o, call.uOut, src)
  {
  }

  lemma RescaledShows(c: Circuit, call: Call, o: nat, src: int -> real)
    requires c.Valid() && LanesComplete(c) && !UAccepts(c.u, call) && o < NUM_I_OUTPUTS
    requires !RescalesInVain(c, call) && call.uOut in c.rows[o] && forall i :: src(i) == 1.0
    ensures LaneTerm(After(c, call), o, call.uOut, src) != LaneTerm(c, o, call.uOut, src)
  {
    var l := call.uOut;
    UpscalingShows(c.factors[l], SignalValue(LaneSignal(c.u, l), src), c.upscaling[l]);
  }

  lemma RefusedCallExactly(c: Circuit, call: Call)
    requires c.Valid() && LanesComplete(c) && !UAccepts(c.u, call)
    ensures DoesWhatItSays(c, call) <==> RescalesInVain(c, call)
  {
    hide OutputValue, LaneTerm, After, UAccepts, LanesComplete, LaneSignal;
    if RescalesInVain(c, call) {
      forall o, src: int -> real | 0 <= o < NUM_I_OUTPUTS
        ensures OutputValue(After(c, call), o, src) == OutputValue(c, o, src) + Asked(c, call, o, src)
      {
        OnlyRescaled(c, call, o, src);
        if call.uOut < NUM_LANES { RescaledInVain(c, call, o, src); }
      }
    } else {
      var o :| 0 <= o < NUM_I_OUTPUTS && call.uOut in c.rows[o];
      var src: int -> real := i => 1.0;
      OnlyRescaled(c, call, o, src);
      RescaledShows(c, call, o, src);
      assert OutputValue(After(c, call), o, src) != OutputValue(c, o, src) + Asked(c, call, o, src);
    }
  }

  lemma UpscalingShows(factor: real, value: real, upscaled: bool)
    requires factor != 0.0 && value != 0.0
    ensures factor * (if upscaled then 10.0 else 1.0) * value != factor * (if upscaled then 1.0 else 10.0) * value
  {
    assert factor * value != 0.0;
    assert factor * 10.0 * value == 10.0 * (factor * value);
  }

  /** A call does what it says, for every assignment of values to the U inputs, if and only if it is
      harmless: an accepted one adds its term, a refused one leaves all outputs alone. */
  lemma OneCallExactly(c: Circuit, call: Call)
    requires c.Valid() && LanesComplete(c)
    ensures DoesWhatItSays(c, call) <==> Harmless(c, call)
  {
    hide DoesWhatItSays, SwitchCancels, RescalesInVain;
    if UAccepts(c.u, call) { ConnectedCallExactly(c, call); } else { RefusedCallExactly(c, call); }
  }

  // ---------------------------------------------------------------- whole runs

  function ResetCircuitValue(): Circuit {
    Circuit(ResetUConfig(), seq(NUM_LANES, i => 1.0), seq(NUM_I_OUTPUTS, i => {}), seq(NUM_LANES, i => false))
  }

  // The circuit after calls from reset.
  function CircuitAfter(calls: seq<Call>): (c: Circuit)
    ensures c.Valid()
  {
    if calls == [] then ResetCircuitValue() else After(CircuitAfter(calls[..|calls| - 1]), calls[|calls| - 1])
  }

  // Those of them that are accepted.
  function AcceptedOf(calls: seq<Call>): (accepted: seq<Call>)
    ensures |accepted| <= |calls|
  {
    if calls == [] then [] else
      var before, last := calls[..|calls| - 1], calls[|calls| - 1];
      AcceptedOf(before) + (if Accepts(CircuitAfter(before), last) then [last] else [])
  }

  // The intended map: the sum over the calls for output o.
  function Intended(calls: seq<Call>, o: nat, src: int -> real): real {
    if calls == [] then 0.0 else
      var last := calls[|calls| - 1];
      Intended(calls[..|calls| - 1], o, src) + (if last.iOut == o then CallValue(last, src) else 0.0)
  }

  // Every output carries the sum of what the accepted calls asked for, whatever the sources carry.
  ghost predicate Means(calls: seq<Call>) {
    forall o, src: int -> real | 0 <= o < NUM_I_OUTPUTS ::
      OutputValue(CircuitAfter(calls), o, src) == Intended(AcceptedOf(calls), o, src)
  }

  lemma {:induction false} RunStaysComplete(calls: seq<Call>)
    ensures LanesComplete(CircuitAfter(calls))
  {
    if calls != [] {
      RunStaysComplete(calls[..|calls| - 1]);
      StaysComplete(CircuitAfter(calls[..|calls| - 1]), calls[|calls| - 1]);
    }
  }

  lemma {:induction false} EmptySum(c: Circuit, o: nat, n: nat, src: int -> real)
    requires c.Valid() && o < NUM_I_OUTPUTS && n <= NUM_LANES && c.rows[o] == {}
    ensures PartialSum(c, o, n, src) == 0.0
  {
    if n > 0 { EmptySum(c, o, n - 1, src); }
  }

  lemma ResetMeans()
    ensures Means([])
  {
    forall o, src: int -> real | 0 <= o < NUM_I_OUTPUTS
      ensures OutputValue(CircuitAfter([]), o, src) == Intended(AcceptedOf([]), o, src)
    {
      EmptySum(ResetCircuitValue(), o, NUM_LANES, src);
    }
  }

  lemma IntendedAfter(calls: seq<Call>, call: Call, o: nat, src: int -> real)
    ensures CircuitAfter(calls + [call]) == After(CircuitAfter(calls), call)
    ensures Intended(AcceptedOf(calls + [call]), o, src) ==
            Intended(AcceptedOf(calls), o, src) + Asked(CircuitAfter(calls), call, o, src)
  {
    hide After, Accepts, CallValue;
    assert (calls + [call])[..|calls|] == calls;
    var accepted := AcceptedOf(calls);
    assert (accepted + [call])[..|accepted|] == accepted && accepted + [] == accepted;
  }

  /** One more call keeps the meaning if and only if it is harmless where it is made. */
  lemma OneMoreCall(calls: seq<Call>, call: Call)
    requires Means(calls)
    ensures Means(calls + [call]) <==> Harmless(CircuitAfter(calls), call)
  {
    hide OutputValue, CircuitAfter, AcceptedOf, After, Asked, Harmless, Intended, LanesComplete;
    var c := CircuitAfter(calls);
    RunStaysComplete(calls);
    OneCallExactly(c, call);
    forall o, src: int -> real | 0 <= o < NUM_I_OUTPUTS
      ensures OutputValue(CircuitAfter(calls + [call]), o, src) == Intended(AcceptedOf(calls + [call]), o, src)
              <==> OutputValue(After(c, call), o, src) == OutputValue(c, o, src) + Asked(c, call, o, src)
    {
      IntendedAfter(calls, call, o, src);
      assert OutputValue(c, o, src) == Intended(AcceptedOf(calls), o, src);
    }
    if Harmless(c, call) {
      forall o, src: int -> real | 0 <= o < NUM_I_OUTPUTS
        ensures OutputValue(CircuitAfter(calls + [call]), o, src) == Intended(AcceptedOf(calls + [call]), o, src)
      {
        assert OutputValue(After(c, call), o, src) == OutputValue(c, o, src) + Asked(c, call, o, src);
      }
    } else {
      var o, src: int -> real :| 0 <= o < NUM_I_OUTPUTS &&
        OutputValue(After(c, call), o, src) != OutputValue(c, o, src) + Asked(c, call, o, src);
      assert OutputValue(CircuitAfter(calls + [call]), o, src) != Intended(AcceptedOf(calls + [call]), o, src);
    }
  }

  // Every call is harmless where it is made.
  ghost predicate AllHarmless(calls: seq<Call>) {
    forall i | 0 <= i < |calls| :: Harmless(CircuitAfter(calls[..i]), calls[i])
  }

  /** Over every run, refused calls included: the circuit means its accepted calls at every moment if
      and only if every call is harmless where it is made. */
  lemma {:induction false} MeaningExactly(calls: seq<Call>)
    ensures (forall i | 0 <= i <= |calls| :: Means(calls[..i])) <==> AllHarmless(calls)
  {
    hide Means, Harmless, CircuitAfter;
    if calls == [] {
      ResetMeans();
    } else {
      var n := |calls| - 1;
      var before, last := calls[..n], calls[n];
      MeaningExactly(before);
      assert before + [last] == calls && calls[..|calls|] == calls;
      assert forall i | 0 <= i <= n :: before[..i] == calls[..i];
      assert forall i | 0 <= i < n :: before[i] == calls[i];
      assert AllHarmless(calls) <==> AllHarmless(before) && Harmless(CircuitAfter(before), last) by {
        assert calls[..n] == before;
      }
      if AllHarmless(before) {
        assert Means(before[..n]) && before[..n] == before;
        OneMoreCall(before, last);
      }
    }
  }

  // ---------------------------------------------------------------- runs in which every call succeeds

  // From reset the regular side is never switched; the other one is either never switched back, or
  // has its analog inputs in use.
  lemma {:induction false} SidesInARun(calls: seq<Call>)
    ensures var u := CircuitAfter(calls).u; u.aSide == AnalogInput && u.ref == One
  {
    if calls != [] { SidesInARun(calls[..|calls| - 1]); }
  }

  // An analog input of the switchable side is in use: only routes are accepted, and none switches.
  predicate Settled(u: UConfig)
    requires u.Valid()
  {
    u.aSide == u.bSide == AnalogInput && (14 in u.map_ || 15 in u.map_)
  }

  lemma SettledIsHarmless(c: Circuit, call: Call)
    requires c.Valid() && Settled(c.u) && Accepts(c, call)
    ensures Harmless(c, call) && Settled(After(c, call).u)
  {
    assert call.RouteCall? && !Switches(c.u, call);
    forall o, i | 0 <= o < NUM_I_OUTPUTS && 0 <= i < NUM_U_INPUTS
      ensures DisturbedGain(c, call, o, i, NUM_LANES) == 0.0
    {
      KeepingIsCancelling(c, call, o, i, NUM_LANES);
    }
    var m, m' := c.u.map_, After(c, call).u.map_;
    var k :| 0 <= k < NUM_LANES && (m[k] == 14 || m[k] == 15);
    assert k != call.uOut && m'[k] == m[k];
  }

  lemma HarmSettles(c: Circuit, call: Call)
    requires c.Valid() && c.u.aSide == AnalogInput && Accepts(c, call) && !Harmless(c, call)
    ensures Settled(After(c, call).u)
  {
    if call.ConstantCall? || !Switches(c.u, call) {
      forall o, i | 0 <= o < NUM_I_OUTPUTS && 0 <= i < NUM_U_INPUTS
        ensures DisturbedGain(c, call, o, i, NUM_LANES) == 0.0
      {
        NothingDisturbed(c, call, o, i, NUM_LANES);
      }
    } else {
      assert After(c, call).u.map_[call.uOut] == call.uIn;
    }
  }

  lemma {:induction false} NothingDisturbed(c: Circuit, call: Call, o: nat, i: nat, n: nat)
    requires c.Valid() && o < NUM_I_OUTPUTS && n <= NUM_LANES && !Switches(c.u, call)
    ensures DisturbedGain(c, call, o, i, n) == 0.0
  {
    if n > 0 { NothingDisturbed(c, call, o, i, n - 1); }
  }

  // Once something is wrong, a harmless call does not put it right.
  lemma WrongStaysWrong(calls: seq<Call>, call: Call)
    requires !Means(calls) && Harmless(CircuitAfter(calls), call)
    ensures !Means(calls + [call])
  {
    hide OutputValue, CircuitAfter, AcceptedOf, After, Asked, Harmless, Intended, LanesComplete;
    var c := CircuitAfter(calls);
    RunStaysComplete(calls);
    OneCallExactly(c, call);
    var o, src: int -> real :| 0 <= o < NUM_I_OUTPUTS && OutputValue(c, o, src) != Intended(AcceptedOf(calls), o, src);
    IntendedAfter(calls, call, o, src);
    assert OutputValue(After(c, call), o, src) == OutputValue(c, o, src) + Asked(c, call, o, src);
    assert OutputValue(CircuitAfter(calls + [call]), o, src) != Intended(AcceptedOf(calls + [call]), o, src);
  }

  /** If every call succeeds, the circuit means the calls in the end if and only if each was harmless
      where it was made: what one breaks no later one repairs. */
  lemma {:induction false} SuccessfulRunExactly(calls: seq<Call>)
    requires AcceptedOf(calls) == calls
    ensures Means(calls) <==> AllHarmless(calls)
    ensures Means(calls) || Settled(CircuitAfter(calls).u)
  {
    hide Means, Harmless, Accepts, Settled, After;
    if calls == [] {
      ResetMeans();
    } else {
      var n := |calls| - 1;
      var before, last := calls[..n], calls[n];
      var c := CircuitAfter(before);
      LastAccepted(calls);
      SuccessfulRunExactly(before);
      SidesInARun(before);
      assert before + [last] == calls;
      HarmlessSoFar(calls);
      if Means(before) {
        OneMoreCall(before, last);
        if !Harmless(c, last) { HarmSettles(c, last); }
      } else {
        SettledIsHarmless(c, last);
        WrongStaysWrong(before, last);
      }
    }
  }

  lemma LastAccepted(calls: seq<Call>)
    requires calls != [] && AcceptedOf(calls) == calls
    ensures var before := calls[..|calls| - 1];
            AcceptedOf(before) == before && Accepts(CircuitAfter(before), calls[|calls| - 1])
  {
    hide Accepts;
    var before := calls[..|calls| - 1];
    assert |AcceptedOf(before)| <= |before|;
    assert AcceptedOf(calls)[..|calls| - 1] == AcceptedOf(before);
  }

  lemma HarmlessSoFar(calls: seq<Call>)
    requires calls != []
    ensures var n := |calls| - 1;
            AllHarmless(calls) <==> AllHarmless(calls[..n]) && Harmless(CircuitAfter(calls[..n]), calls[n])
  {
    hide Harmless, CircuitAfter;
    var n := |calls| - 1;
    var before := calls[..n];
    assert forall i | 0 <= i < n :: before[..i] == calls[..i] && before[i] == calls[i];
  }

  predicate RegularOrConstant(call: Call) {
    call.RouteCall? ==> !Alternative(call.uIn, call.uOut)
  }

  /** Successful routes on the regular side and constants always mean what they ask for. */
  lemma RegularRunsMean(calls: seq<Call>)
    requires AcceptedOf(calls) == calls && forall k | 0 <= k < |calls| :: RegularOrConstant(calls[k])
    ensures Means(calls)
  {
    hide Means, AcceptedOf, DisturbedGain;
    forall i | 0 <= i < |calls| ensures Harmless(CircuitAfter(calls[..i]), calls[i]) {
      var c := CircuitAfter(calls[..i]);
      SidesInARun(calls[..i]);
      AcceptedEach(calls, i);
      assert RegularOrConstant(calls[i]);
      forall o, j | 0 <= o < NUM_I_OUTPUTS && 0 <= j < NUM_U_INPUTS
        ensures DisturbedGain(c, calls[i], o, j, NUM_LANES) == 0.0
      {
        NothingDisturbed(c, calls[i], o, j, NUM_LANES);
      }
    }
    SuccessfulRunExactly(calls);
  }

  lemma {:induction false} AcceptedEach(calls: seq<Call>, i: nat)
    requires AcceptedOf(calls) == calls && i < |calls|
    ensures Accepts(CircuitAfter(calls[..i]), calls[i])
  {
    hide Accepts;
    LastAccepted(calls);
    if i < |calls| - 1 {
      AcceptedEach(calls[..|calls| - 1], i);
      assert calls[..|calls| - 1][..i] == calls[..i];
    }
  }

  // ---------------------------------------------------------------- two runs that go wrong

  /** A refused call can change an output: the second route is refused, since lane 5 is taken, but
      leaves lane 5 scaled up by ten. */
  lemma RefusedCallChangesOutput()
    ensures var first, second := RouteCall(0, 5, 0.5, 0), RouteCall(1, 5, 2.0, 1);
            AcceptedOf([first, second]) == [first] && Means([first]) && !Means([first, second])
  {
    var first, second := RouteCall(0, 5, 0.5, 0), RouteCall(1, 5, 2.0, 1);
    FirstCall(first);
    var c := CircuitAfter([first]);
    assert c.u.map_[5] == 0 && c.rows[0] == {5} && c.factors[5] == 0.5 && !c.upscaling[5];
    assert 5 in c.rows[0] && LaneSignal(c.u, 5) == Input(0);
    assert [first, second][..1] == [first] && [first] + [second] == [first, second];
    assert !Harmless(c, second);
    OneMoreCall([first], second);
  }

  lemma FirstCall(call: Call)
    requires Accepts(ResetCircuitValue(), call)
    ensures CircuitAfter([call]) == After(ResetCircuitValue(), call) && AcceptedOf([call]) == [call] && Means([call])
  {
    hide Means, Accepts, After;
    assert [call][..0] == [] && [] + [call] == [call];
    ResetMeans();
    OneMoreCall([], call);
    FreshIsHarmless(call);
  }

  lemma FreshIsHarmless(call: Call)
    requires Accepts(ResetCircuitValue(), call)
    ensures Harmless(ResetCircuitValue(), call)
  {
    forall o, i | 0 <= o < NUM_I_OUTPUTS && 0 <= i < NUM_U_INPUTS
      ensures DisturbedGain(ResetCircuitValue(), call, o, i, NUM_LANES) == 0.0
    {
      NothingDisturbed(ResetCircuitValue(), call, o, i, NUM_LANES);
    }
  }

  /** A successful call can take a constant away: with +1 on lane 16, routing input 15 over lane 0
      turns lane 16 into input 14. */
  lemma AlternativeRouteDisturbs()
    ensures var first, second := ConstantCall(PosRef, 16, 1.0, 1), RouteCall(15, 0, 1.0, 0);
            AcceptedOf([first, second]) == [first, second] && Means([first]) && !Means([first, second])
  {
    var first, second := ConstantCall(PosRef, 16, 1.0, 1), RouteCall(15, 0, 1.0, 0);
    FirstCall(first);
    var c := CircuitAfter([first]);
    assert c.u.map_ == ResetUConfig().map_[16 := 14] && c.u.bSide == PosRef;
    assert c.rows[1] == {16} && c.rows[0] == {} && c.factors[16] == 1.0 && !c.upscaling[16];
    assert [first, second][..1] == [first] && [first] + [second] == [first, second];
    assert Accepts(c, second);
    OnlyLane(c, second, 1, 14, 16, NUM_LANES);
    assert DisturbedGain(c, second, 1, 14, NUM_LANES) != 0.0;
    OneMoreCall([first], second);
  }

  lemma {:induction false} OnlyLane(c: Circuit, call: Call, o: nat, i: nat, l: nat, n: nat)
    requires c.Valid() && o < NUM_I_OUTPUTS && n <= NUM_LANES && l < NUM_LANES && c.rows[o] == {l}
    ensures DisturbedGain(c, call, o, i, n) == if l < n then GainOf(c, call, o, i, l) else 0.0
  {
    if n > 0 { OnlyLane(c, call, o, i, l, n - 1); }
  }

  // ---------------------------------------------------------------- which calls succeed, in numbers

  // A factor up to ten, with the coefficient's one percent of headroom.
  predicate Routable(factor: real) { -10.1 <= factor <= 10.1 }

  // What the lane's coefficient and upscaling multiply to is the factor, with the coefficient within
  // its range and upscaled only if it has to be.
  predicate Carries(coefficient: real, upscaled: bool, factor: real) {
    upscaled == (factor < -1.0 || 1.0 < factor) && coefficient == if upscaled then factor / 10.0 else factor
  }

  predicate LaneIsFree(c: Circuit, uOut: nat, iOut: nat)
    requires c.Valid()
  {
    && uOut < 32 && iOut < 16 && c.u.map_[uOut] == -1
    && forall o | 0 <= o < 16 && o != iOut :: uOut !in c.rows[o]
  }

  // The circuit with one more connection over a lane, with the given input and side modes.
  predicate OneLaneMore(c: Circuit, c': Circuit, input: nat, uOut: nat, iOut: nat, factor: real, a: Mode, b: Mode)
    requires c.Valid() && c'.Valid() && uOut < 32 && iOut < 16
  {
    && c'.u == UConfig(c.u.map_[uOut := input], a, b, c.u.ref)
    && c'.rows == c.rows[iOut := c.rows[iOut] + {uOut}]
    && Carries(c'.factors[uOut], c'.upscaling[uOut], factor)
    && c'.factors == c.factors[uOut := c'.factors[uOut]] && c'.upscaling == c.upscaling[uOut := c'.upscaling[uOut]]
  }

  /** A route succeeds if and only if the input exists, the lane is free, the factor is at most 10.1 and
      either the side is at its analog inputs or this input is not in use; the side is then at its
      analog inputs.  Input 15 below lane 16 and input 14 above are the one side, all else the other. */
  lemma RouteSucceedsExactly(c: Circuit, uIn: nat, uOut: nat, factor: real, iOut: nat)
    requires c.Valid()
    ensures var call, b := RouteCall(uIn, uOut, factor, iOut), uIn == if uOut < 16 then 15 else 14;
            && (Accepts(c, call) <==>
                  && uIn < 16 && LaneIsFree(c, uOut, iOut) && Routable(factor)
                  && ((if b then c.u.bSide else c.u.aSide) == AnalogInput || uIn !in c.u.map_))
            && (Accepts(c, call) ==>
                  OneLaneMore(c, After(c, call), uIn, uOut, iOut, factor, if b then c.u.aSide else AnalogInput,
                              if b then AnalogInput else c.u.bSide))
  {
    StoredRange(factor);
  }

  /** A constant succeeds if and only if it is one, the lane is free, the factor is at most 10.1, the
      reference is not divided and the side has the signal already or carries no input. */
  lemma ConstantSucceedsExactly(c: Circuit, signal: Mode, uOut: nat, factor: real, iOut: nat)
    requires c.Valid()
    ensures var call := ConstantCall(signal, uOut, factor, iOut);
            && (Accepts(c, call) <==>
                  && signal != AnalogInput && LaneIsFree(c, uOut, iOut) && Routable(factor)
                  && (signal == Ground || c.u.ref == One)
                  && (c.u.bSide == signal || (14 !in c.u.map_ && 15 !in c.u.map_)))
            && (Accepts(c, call) ==>
                  OneLaneMore(c, After(c, call), if uOut < 16 then 15 else 14, uOut, iOut, factor, c.u.aSide, signal))
  {
    StoredRange(factor);
  }

  lemma StoredRange(factor: real)
    ensures InRange(Stored(factor)) <==> Routable(factor)
    ensures Carries(Stored(factor), Large(factor), factor)
  {
  }

  // ---------------------------------------------------------------- the cluster

  class Cluster {
    const ublock: UBlock
    const cblock: CBlock
    const iblock: IBlock
    const shblock: SHBlock

    constructor (u: UBlock, c: CBlock, i: IBlock, sh: SHBlock)
      ensures ublock == u && cblock == c && iblock == i && shblock == sh
    {
      ublock, cblock, iblock, shblock := u, c, i, sh;
    }

    predicate Valid()
      reads ublock, cblock, iblock
    {
      ublock.Valid() && cblock.Valid() && iblock.Valid()
    }

    function Config(): Circuit
      reads ublock, cblock, iblock
    {
      Circuit.Circuit(ublock.Config(), cblock.factors, iblock.outputs, iblock.scalingFactors)
    }

    /** A circuit reset, with or without resetting the calibration. */
    method Reset(calibration: bool)
      requires Valid()
      modifies ublock, cblock, iblock, shblock
      ensures Valid() && Config() == ResetCircuitValue() && shblock.state == Inject
      ensures cblock.gains == if calibration then seq(NUM_LANES, i => 1.0) else old(cblock.gains)
    {
      ublock.Reset();
      cblock.Reset(true, calibration);
      iblock.Reset();
      shblock.Reset();
    }

    method ScaleLane(uOut: nat, factor: real) returns (stored: real)
      requires Valid()
      modifies iblock`scalingFactors
      ensures Valid() && stored == Stored(factor)
      ensures iblock.scalingFactors ==
              if uOut < NUM_LANES then old(iblock.scalingFactors)[uOut := Large(factor)] else old(iblock.scalingFactors)
    {
      if Abs(factor) > 1.0 {
        stored := factor * 0.1;
        var _ := iblock.SetUpscaling(uOut, true);
      } else {
        stored := factor;
        var _ := iblock.SetUpscaling(uOut, false);
      }
    }

    /** Routes U input uIn over lane uOut to I output iOut.  The blocks are asked one after the other,
        and what was done when one refuses stays. */
    method Route(uIn: nat, uOut: nat, factor: real, iOut: nat) returns (ok: bool)
      requires Valid()
      modifies ublock, cblock, iblock
      ensures Valid() && Config() == After(old(Config()), RouteCall(uIn, uOut, factor, iOut))
      ensures ok == Accepts(old(Config()), RouteCall(uIn, uOut, factor, iOut))
      ensures cblock.gains == old(cblock.gains) && cblock.hardware == old(cblock.hardware)
      ensures ublock.hardware == old(ublock.hardware) && iblock.upscalingRegister == old(iblock.upscalingRegister)
      ensures var c, b := old(Config()), uIn == if uOut < 16 then 15 else 14;
              && (ok <==> && uIn < 16 && LaneIsFree(c, uOut, iOut) && Routable(factor)
                          && ((if b then c.u.bSide else c.u.aSide) == AnalogInput || uIn !in c.u.map_))
              && (ok ==> OneLaneMore(c, Config(), uIn, uOut, iOut, factor, if b then c.u.aSide else AnalogInput,
                                     if b then AnalogInput else c.u.bSide))
    {
      RouteSucceedsExactly(Config(), uIn, uOut, factor, iOut);
      var stored := ScaleLane(uOut, factor);
      ok := ublock.Connect(uIn, uOut, false);
      if !ok { return; }
      ok := cblock.SetFactor(uOut, stored);
      if !ok { return; }
      ok := iblock.Connect(uOut, iOut, false, false);
    }

    /** Feeds an alternative signal over lane uOut, in the same way. */
    method AddConstant(signal: Mode, uOut: nat, factor: real, iOut: nat) returns (ok: bool)
      requires Valid()
      modifies ublock, cblock, iblock
      ensures Valid() && Config() == After(old(Config()), ConstantCall(signal, uOut, factor, iOut))
      ensures ok == Accepts(old(Config()), ConstantCall(signal, uOut, factor, iOut))
      ensures cblock.gains == old(cblock.gains) && cblock.hardware == old(cblock.hardware)
      ensures ublock.hardware == old(ublock.hardware) && iblock.upscalingRegister == old(iblock.upscalingRegister)
      ensures var c := old(Config());
              && (ok <==> && signal != AnalogInput && LaneIsFree(c, uOut, iOut) && Routable(factor)
                          && (signal == Ground || c.u.ref == One)
                          && (c.u.bSide == signal || (14 !in c.u.map_ && 15 !in c.u.map_)))
              && (ok ==> OneLaneMore(c, Config(), if uOut < 16 then 15 else 14, uOut, iOut, factor, c.u.aSide, signal))
    {
      ConstantSucceedsExactly(Config(), signal, uOut, factor, iOut);
      var stored := ScaleLane(uOut, factor);
      ok := ublock.ConnectAlternative(signal, uOut, false, false);
      if !ok { return; }
      ok := cblock.SetFactor(uOut, stored);
      if !ok { return; }
      ok := iblock.Connect(uOut, iOut, false, false);
    }
  }

  method MakeCall(cluster: Cluster, call: Call) returns (ok: bool)
    requires cluster.Valid()
    modifies cluster.ublock, cluster.cblock, cluster.iblock
    ensures cluster.Valid() && cluster.Config() == After(old(cluster.Config()), call)
    ensures ok == Accepts(old(cluster.Config()), call) && cluster.cblock.gains == old(cluster.cblock.gains)
  {
    hide After, Accepts;
    match call {
      case RouteCall(uIn, uOut, factor, iOut) => ok := cluster.Route(uIn, uOut, factor, iOut);
      case ConstantCall(signal, uOut, factor, iOut) => ok := cluster.AddConstant(signal, uOut, factor, iOut);
    }
  }

  /** Makes calls from reset, refused ones included.  With all of them harmless, the cluster ends up
      with the sum of what the accepted ones asked for. */
  method ApplyCalls(cluster: Cluster, calls: seq<Call>) returns (accepted: seq<bool>)
    requires cluster.Valid()
    modifies cluster.ublock, cluster.cblock, cluster.iblock, cluster.shblock
    ensures cluster.Valid() && cluster.Config() == CircuitAfter(calls)
    ensures |accepted| == |calls|
    ensures forall k | 0 <= k < |calls| :: accepted[k] == Accepts(CircuitAfter(calls[..k]), calls[k])
    ensures AllHarmless(calls) ==> Means(calls)
    ensures cluster.cblock.gains == old(cluster.cblock.gains)
  {
    hide Means, AllHarmless, After, Accepts, CircuitAfter, Answered;
    cluster.Reset(false);
    NoCallYet(calls);
    accepted := [];
    var i := 0;
    while i < |calls|
      invariant 0 <= i <= |calls| && cluster.Valid() && cluster.Config() == CircuitAfter(calls[..i])
      invariant |accepted| == i && Answered(calls, accepted)
      invariant cluster.cblock.gains == old(cluster.cblock.gains)
    {
      var ok := MakeCall(cluster, calls[i]);
      OneCallMore(calls, accepted, ok);
      accepted := accepted + [ok];
      i := i + 1;
    }
    AllCallsMade(calls, accepted);
    MeaningExactly(calls);
    assert AllHarmless(calls) ==> Means(calls[..|calls|]);
  }

  // The first calls got the answers that fit the circuit they were made on.
  predicate Answered(calls: seq<Call>, accepted: seq<bool>) {
    && |accepted| <= |calls|
    && forall k | 0 <= k < |accepted| :: accepted[k] == Accepts(CircuitAfter(calls[..k]), calls[k])
  }

  lemma NoCallYet(calls: seq<Call>)
    ensures CircuitAfter(calls[..0]) == ResetCircuitValue() && Answered(calls, [])
  {
  }

  lemma OneCallMore(calls: seq<Call>, accepted: seq<bool>, ok: bool)
    requires Answered(calls, accepted) && |accepted| < |calls|
    requires ok == Accepts(CircuitAfter(calls[..|accepted|]), calls[|accepted|])
    ensures var i := |accepted|;
            && Answered(calls, accepted + [ok])
            && CircuitAfter(calls[..i + 1]) == After(CircuitAfter(calls[..i]), calls[i])
  {
    hide After, Accepts;
    var i := |accepted|;
    assert calls[..i + 1][..i] == calls[..i];
  }

  lemma AllCallsMade(calls: seq<Call>, accepted: seq<bool>)
    requires Answered(calls, accepted) && |accepted| == |calls|
    ensures calls[..|calls|] == calls
    ensures forall k | 0 <= k < |calls| :: accepted[k] == Accepts(CircuitAfter(calls[..k]), calls[k])
  {
    hide After, Accepts, CircuitAfter;
  }
}
