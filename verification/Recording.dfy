/** A whole run of the acquisition, for every interleaving of samples, interrupts, polls and reads.

    Samples are told apart by their number in the run.  Which numbers a run hands out, and in which
    order, depends on the interleaving alone (`TrailAfter`); what the handler reads are the values
    behind these numbers (`Record`). */
module Recording {
  import opened Arithmetic
  import opened DoubleBuffer

  // One thing that may happen during a run; a step that cannot happen now is passed over.
  datatype Step = NewSample(v: Vector) | ServeInterrupt | Poll | Handle

  function Samples(steps: seq<Step>): (v: seq<Vector>)
    ensures |v| <= |steps|
  {
    if steps == [] then [] else
      var last := steps[|steps| - 1];
      Samples(steps[..|steps| - 1]) + (if last.NewSample? then [last.v] else [])
  }

  // What a step does to registers and flags.
  function Effect(s: State, step: Step): (t: State)
    requires s.Shape()
    ensures t.Shape() && t.half == s.half
    ensures !t.taken ==> t.pointer == s.pointer && !s.taken
  {
    match step
    case NewSample(_) => s.Sampled()
    case ServeInterrupt => if s.raised then s.Served() else s
    case Poll => if s.active == Nothing then s.AfterTake(false) else s
    case Handle => if s.active.Part? && !Wild(s) then s.(active := Nothing) else s
  }

  function StateAfter(s: State, steps: seq<Step>): (t: State)
    requires s.Shape()
    ensures t.Shape() && t.half == s.half
    ensures !t.taken ==> t.pointer == s.pointer && !s.taken
  {
    if steps == [] then s else Effect(StateAfter(s, steps[..|steps| - 1]), steps[|steps| - 1])
  }

  // ---------------------------------------------------------------- sample numbers

  // The number of samples, which one every slot of the ring holds, and which ones were handed out.
  // A number below zero stands for what the slot -1 - number held before the run.
  datatype Trail = Trail(count: nat, slots: seq<int>, handed: seq<int>)
  {
    predicate Known(half: nat) {
      && |slots| == 2 * half && (forall j | 0 <= j < |slots| :: -2 * half <= slots[j] < count)
      && forall k | 0 <= k < |handed| :: -2 * half <= handed[k] < count
    }

    function Due(): nat { |handed| }
  }

  function TrailStep(t: Trail, s: State, step: Step): (t': Trail)
    requires s.Shape() && t.Known(s.half)
    ensures t'.Known(s.half)
  {
    match step
    case NewSample(_) => Trail(t.count + 1, t.slots[2 * s.half - s.citer := t.count], t.handed)
    case Handle => t.(handed := t.handed + Read(s, t.slots))
    case _ => t
  }

  function TrailAfter(s: State, steps: seq<Step>): (t: Trail)
    requires s.Shape()
    ensures t.Known(s.half)
  {
    if steps == [] then Trail(0, seq(2 * s.half, j => -1 - j), []) else
      var n := |steps| - 1;
      TrailStep(TrailAfter(s, steps[..n]), StateAfter(s, steps[..n]), steps[n])
  }

  // Everything handed out, the final call included.
  function Handed(s: State, steps: seq<Step>): seq<int>
    requires s.Shape()
  {
    var t := TrailAfter(s, steps);
    t.handed + Read(StateAfter(s, steps).AfterTake(true), t.slots)
  }

  // The same interleaving, possibly of other samples.
  predicate SameSchedule(steps: seq<Step>, steps': seq<Step>) {
    && |steps| == |steps'|
    && forall i | 0 <= i < |steps| :: steps'[i] == steps[i] || (steps[i].NewSample? && steps'[i].NewSample?)
  }

  /** The numbers handed out do not depend on what is sampled. */
  lemma {:induction false} ScheduleDecides(s: State, steps: seq<Step>, steps': seq<Step>)
    requires s.Shape() && SameSchedule(steps, steps')
    ensures StateAfter(s, steps') == StateAfter(s, steps) && TrailAfter(s, steps') == TrailAfter(s, steps)
    ensures Handed(s, steps') == Handed(s, steps) && |Samples(steps)| == TrailAfter(s, steps).count
  {
    hide Read, State.AfterTake;
    if steps == [] {
    } else {
      var n := |steps| - 1;
      ScheduleDecides(s, steps[..n], steps'[..n]);
    }
  }

  // The value behind a number.
  function Value(before: seq<Vector>, samples: seq<Vector>, i: int): Vector {
    if 0 <= i < |samples| then samples[i] else if 0 <= -1 - i < |before| then before[-1 - i] else []
  }

  function Values(before: seq<Vector>, samples: seq<Vector>, numbers: seq<int>): (v: seq<Vector>)
    ensures |v| == |numbers|
  {
    seq(|numbers|, k requires 0 <= k < |numbers| => Value(before, samples, numbers[k]))
  }

  function Ascending(from: nat, n: nat): (r: seq<int>)
    ensures |r| == n
  {
    seq(n, k => from + k)
  }

  /** The values come out right whatever they are if and only if the numbers ascend from zero without
      a gap.  Two different vectors are enough to tell. */
  lemma NumbersDecide(numbers: seq<int>, n: nat, m: nat, low: Vector, high: Vector)
    requires low != high && forall k | 0 <= k < |numbers| :: -(m as int) <= numbers[k] < n
    ensures (forall before, samples | |before| == m && |samples| == n :: Values(before, samples, numbers) == samples)
            <==> numbers == Ascending(0, n)
  {
    if numbers == Ascending(0, n) {
      forall before: seq<Vector>, samples | |before| == m && |samples| == n
        ensures Values(before, samples, numbers) == samples
      {
      }
    } else {
      var p := if |numbers| == n then FirstWrong(numbers) else 0;
      var before, samples := seq(m, j => low), seq(n, i => if i == p then high else low);
      if |numbers| == n {
        assert Values(before, samples, numbers)[p] != samples[p];
      }
      assert Values(before, samples, numbers) != samples;
    }
  }

  ghost function FirstWrong(numbers: seq<int>): (p: nat)
    requires numbers != Ascending(0, |numbers|)
    ensures p < |numbers| && numbers[p] != p
  {
    var p :| 0 <= p < |numbers| && numbers[p] != p;
    p
  }

  // ---------------------------------------------------------------- which halves are the right ones

  predicate AtPlace(half: nat, n: nat, p: nat)
    requires half > 0
  {
    n % (2 * half) == p
  }

  // With count samples taken and the next one going to slot p.
  ghost predicate Placed(half: nat, count: nat, p: nat, slots: seq<int>)
    requires half > 0
  {
    && p < 2 * half == |slots| && p <= count && AtPlace(half, count, p)
    && forall j | 0 <= j < |slots| :: slots[j] == SlotOf(half, count, p, j)
  }

  // Slots before p were filled in this lap, the others in the one before, if there was one.
  function SlotOf(half: nat, count: nat, p: nat, j: nat): int {
    if j < p then count - p + j else if count - p + j >= 2 * half then count - p + j - 2 * half else -1 - j
  }

  lemma NextPlace(half: nat, count: nat, p: nat)
    requires 0 < half && p < 2 * half && AtPlace(half, count, p)
    ensures AtPlace(half, count + 1, if p + 1 == 2 * half then 0 else p + 1)
  {
    var m := 2 * half;
    var q := count / m;
    DivMod(count, m);
    if p + 1 == m {
      assert (q + 1) * m == q * m + m;
      Division(count + 1, q + 1, 0, m);
    } else {
      Division(count + 1, q, p + 1, m);
    }
  }

  lemma SampleIsPlaced(half: nat, count: nat, p: nat, slots: seq<int>)
    requires half > 0 && Placed(half, count, p, slots)
    ensures Placed(half, count + 1, if p + 1 == 2 * half then 0 else p + 1, slots[p := count])
  {
    hide AtPlace;
    NextPlace(half, count, p);
  }

  lemma StartIsPlaced(half: nat)
    requires half > 0
    ensures Placed(half, 0, 0, seq(2 * half, j => -1 - j))
  {
  }

  lemma StepIsPlaced(s: State, t: Trail, step: Step)
    requires s.Shape() && t.Known(s.half) && Placed(s.half, t.count, 2 * s.half - s.citer, t.slots)
    ensures var s', t' := Effect(s, step), TrailStep(t, s, step);
            Placed(s.half, t'.count, 2 * s.half - s'.citer, t'.slots)
  {
    hide Placed;
    if step.NewSample? { SampleIsPlaced(s.half, t.count, 2 * s.half - s.citer, t.slots); }
  }

  /** Every sample goes to its number modulo the size of the ring. */
  lemma {:induction false} TrailIsPlaced(s: State, steps: seq<Step>)
    requires s.Shape() && s == s.Started()
    ensures var t := TrailAfter(s, steps);
            Placed(s.half, t.count, 2 * s.half - StateAfter(s, steps).citer, t.slots)
  {
    hide Placed, Effect, TrailStep;
    if steps == [] {
      StartIsPlaced(s.half);
    } else {
      var n := |steps| - 1;
      TrailIsPlaced(s, steps[..n]);
      StepIsPlaced(StateAfter(s, steps[..n]), TrailAfter(s, steps[..n]), steps[n]);
    }
  }

  // The next c samples due went to the slots from a on, have been taken, and are not yet written over.
  predicate HoldsDue(half: nat, a: nat, c: nat, due: nat, count: nat)
    requires half > 0
  {
    AtPlace(half, due, a) && due + c <= count <= due + 2 * half
  }

  lemma NearMultiples(x: nat, d: nat, q: nat, r: nat, m: nat)
    requires r < m && x == d * m + r && q * m - m <= x < q * m + m
    ensures d * m == q * m || d * m == q * m - m
  {
    if d < q {
      Apart(d, q, m);
      assert (q - 1) * m == q * m - m;
      if d < q - 1 { Apart(d, q - 1, m); }
    } else if q < d {
      Apart(q, d, m);
    }
  }

  lemma Digits(half: nat, n: nat, a: nat) returns (q: nat, r: nat)
    requires half > 0
    ensures n == q * (2 * half) + r && r < 2 * half && (AtPlace(half, n, a) <==> r == a)
  {
    q, r := n / (2 * half), n % (2 * half);
    DivMod(n, 2 * half);
  }

  lemma SameLap(half: nat, count: nat, p: nat, a: nat, due: nat)
    requires half > 0 && p < 2 * half && p <= count && AtPlace(half, count, p) && a < 2 * half
    requires count - p - 2 * half <= due < count - p + 2 * half
    ensures AtPlace(half, due, a) <==> due == count - p + a || due == count - p + a - 2 * half
  {
    hide AtPlace;
    var q, r := Digits(half, count, p);
    var d, e := Digits(half, due, a);
    NearMultiples(due, d, q, e, 2 * half);
  }

  /** A part of the ring is what is due if and only if it holds it by place and by count. */
  lemma PartIsDue(half: nat, count: nat, p: nat, slots: seq<int>, a: nat, c: nat, due: nat)
    requires half > 0 && Placed(half, count, p, slots) && 0 < c && a + c <= 2 * half
    ensures slots[a..a + c] == Ascending(due, c) <==> HoldsDue(half, a, c, due, count)
  {
    hide AtPlace;
    var part := slots[a..a + c];
    if HoldsDue(half, a, c, due, count) {
      SameLap(half, count, p, a, due);
    } else if part == Ascending(due, c) {
      assert part[0] == due && part[c - 1] == due + c - 1;
      assert slots[a] == due && slots[a + c - 1] == due + c - 1;
      SameLap(half, count, p, a, due);
    }
  }

  // Every part the handler read during the run was what was due then.
  predicate HalvesAreDue(s: State, steps: seq<Step>)
    requires s.Shape()
  {
    steps == [] ||
    var n := |steps| - 1;
    HalvesAreDue(s, steps[..n]) && ReadIsDue(StateAfter(s, steps[..n]), TrailAfter(s, steps[..n]), steps[n])
  }

  predicate ReadIsDue(s: State, t: Trail, step: Step)
    requires s.Shape()
  {
    step.Handle? && s.active.Part? ==> HoldsDue(s.half, s.active.start, s.active.count, t.Due(), t.count)
  }

  // The final call gets all that is left, in state s after its choice.
  predicate RestIsDue(s: State, t: Trail)
    requires s.Shape()
  {
    if s.active.Part?
    then
      && !Wild(s) && HoldsDue(s.half, s.active.start, s.active.count, t.Due(), t.count)
      && t.Due() + s.active.count == t.count
    else t.Due() == t.count
  }

  // What polling chooses is a half.
  predicate ChoseHalf(s: State) {
    s.active.Part? ==> !Wild(s) && s.active.count == s.half
  }

  lemma StepChoosesHalf(s: State, step: Step)
    requires s.Shape() && ChoseHalf(s)
    ensures ChoseHalf(Effect(s, step))
  {
  }

  lemma {:induction false} ChoosesHalves(s: State, steps: seq<Step>)
    requires s.Shape() && s == s.Started()
    ensures ChoseHalf(StateAfter(s, steps))
  {
    hide Effect;
    if steps == [] {
    } else {
      ChoosesHalves(s, steps[..|steps| - 1]);
      StepChoosesHalf(StateAfter(s, steps[..|steps| - 1]), steps[|steps| - 1]);
    }
  }

  lemma AscendingMore(handed: seq<int>, part: seq<int>)
    ensures handed + part == Ascending(0, |handed| + |part|) <==>
            handed == Ascending(0, |handed|) && part == Ascending(|handed|, |part|)
  {
    var all := Ascending(0, |handed| + |part|);
    assert all[..|handed|] == Ascending(0, |handed|) && all[|handed|..] == Ascending(|handed|, |part|);
    if handed + part == all {
      assert (handed + part)[..|handed|] == handed && (handed + part)[|handed|..] == part;
    }
  }

  lemma NothingMore(handed: seq<int>)
    ensures handed + [] == handed
  {
  }

  // One part more.
  lemma PartInOrder(half: nat, p: nat, t: Trail, a: nat, c: nat)
    requires half > 0 && Placed(half, t.count, p, t.slots) && 0 < c && a + c <= 2 * half == |t.slots|
    ensures var handed := t.handed + t.slots[a..a + c];
            handed == Ascending(0, |handed|) <==>
            t.handed == Ascending(0, |t.handed|) && HoldsDue(half, a, c, t.Due(), t.count)
  {
    hide Placed, Ascending, HoldsDue;
    PartIsDue(half, t.count, p, t.slots, a, c, t.Due());
    AscendingMore(t.handed, t.slots[a..a + c]);
  }

  lemma StepInOrder(s: State, t: Trail, step: Step)
    requires s.Shape() && t.Known(s.half) && Placed(s.half, t.count, 2 * s.half - s.citer, t.slots)
    requires ChoseHalf(s)
    ensures var t' := TrailStep(t, s, step);
            t'.handed == Ascending(0, |t'.handed|) <==> t.handed == Ascending(0, |t.handed|) && ReadIsDue(s, t, step)
  {
    hide Placed, Ascending, HoldsDue;
    NothingMore(t.handed);
    if step.Handle? && s.active.Part? {
      PartInOrder(s.half, 2 * s.half - s.citer, t, s.active.start, s.active.count);
    }
  }

  /** At every moment of a run, what has been handed out is the first samples in order if and only if
      every part was due when it was read. */
  lemma {:induction false} HandedInOrderExactly(s: State, steps: seq<Step>)
    requires s.Shape() && s == s.Started()
    ensures var handed := TrailAfter(s, steps).handed;
            handed == Ascending(0, |handed|) <==> HalvesAreDue(s, steps)
  {
    hide Placed, Ascending, ReadIsDue, Effect, TrailStep;
    if steps == [] {
      NoneHanded(s);
    } else {
      var n := |steps| - 1;
      HandedInOrderExactly(s, steps[..n]);
      TrailIsPlaced(s, steps[..n]);
      ChoosesHalves(s, steps[..n]);
      StepInOrder(StateAfter(s, steps[..n]), TrailAfter(s, steps[..n]), steps[n]);
    }
  }

  lemma NoneHanded(s: State)
    requires s.Shape()
    ensures TrailAfter(s, []).handed == [] == Ascending(0, 0)
  {
  }

  lemma RestInOrder(s: State, t: Trail)
    requires s.Shape() && t.Known(s.half) && Placed(s.half, t.count, 2 * s.half - s.citer, t.slots)
    requires s.active.Part? ==> s.active.count > 0
    ensures !Wild(s) && t.handed + Read(s, t.slots) == Ascending(0, t.count) <==>
            t.handed == Ascending(0, |t.handed|) && RestIsDue(s, t)
  {
    hide Placed, Ascending, HoldsDue;
    NothingMore(t.handed);
    if s.active.Part? && !Wild(s) {
      PartInOrder(s.half, 2 * s.half - s.citer, t, s.active.start, s.active.count);
    }
  }

  /** For every interleaving: a run with its final call delivers exactly its samples in order,
      whatever their values, if and only if every part was due when it was read and the final call
      gets the rest. */
  lemma DeliveryExactly(s: State, steps: seq<Step>, low: Vector, high: Vector)
    requires s.Shape() && s == s.Started() && StateAfter(s, steps).active == Nothing && low != high
    ensures var end, t := StateAfter(s, steps).AfterTake(true), TrailAfter(s, steps);
            (!Wild(end) && forall before, samples | |before| == 2 * s.half && |samples| == t.count ::
              Values(before, samples, Handed(s, steps)) == samples)
            <==> HalvesAreDue(s, steps) && RestIsDue(end, t)
  {
    hide Placed, Ascending, HalvesAreDue, RestIsDue, StateAfter, TrailAfter, Values;
    var last, t := StateAfter(s, steps), TrailAfter(s, steps);
    TrailIsPlaced(s, steps);
    HandedInOrderExactly(s, steps);
    RestInOrder(last.AfterTake(true), t);
    NumbersDecide(Handed(s, steps), t.count, 2 * s.half, low, high);
  }

  // ---------------------------------------------------------------- runs with an overflow

  // From a moment with overflow flagged on: the flag stays, and nothing new is chosen.
  ghost predicate Stopped(stop: State, before: Trail, last: State, t: Trail, steps: seq<Step>, s: State, n: nat)
    requires s.Shape() && stop.half == s.half && n <= |steps|
  {
    && last.overflow && (last.active == stop.active || last.active == Nothing)
    && if last.active == stop.active then t.handed == before.handed
       else HandedLater(s, steps, n, stop, before.handed, t.handed)
  }

  // Read at some step from n on, the part chosen in stop was what came to what had been handed out.
  ghost predicate HandedLater(s: State, steps: seq<Step>, n: nat, stop: State, before: seq<int>, handed: seq<int>)
    requires s.Shape() && stop.half == s.half
  {
    exists m: nat :: n <= m < |steps| && handed == before + Read(stop, TrailAfter(s, steps[..m]).slots)
  }

  lemma StoppedStep(s: State, t: Trail, step: Step)
    requires s.Shape() && s.overflow && t.Known(s.half)
    ensures var s', t' := Effect(s, step), TrailStep(t, s, step);
            && s'.overflow && s'.half == s.half
            && if s'.active == s.active then t'.handed == t.handed
               else step == Handle && s'.active == Nothing && t'.handed == t.handed + Read(s, t.slots)
  {
    NothingMore(t.handed);
  }

  lemma NothingWanted(s: State)
    requires s.Shape() && s.overflow && s.active == Nothing
    ensures s.AfterTake(true).active == Nothing && s.AfterTake(true).half == s.half
  {
  }

  /** Overflow is final, for every interleaving: once it is flagged, the flag stays, and what is handed
      out from then on is at most the part that had already been chosen, as the ring holds it when it
      is read.  The final call hands out nothing. */
  lemma {:induction false} OverflowStops(s: State, steps: seq<Step>, n: nat)
    requires s.Shape() && n <= |steps| && StateAfter(s, steps[..n]).overflow
    ensures Stopped(StateAfter(s, steps[..n]), TrailAfter(s, steps[..n]), StateAfter(s, steps), TrailAfter(s, steps),
                    steps, s, n)
    ensures StateAfter(s, steps).active == Nothing ==> Handed(s, steps) == TrailAfter(s, steps).handed
  {
    hide Effect, TrailStep, State.AfterTake, Read;
    if n == |steps| {
      assert steps[..n] == steps;
    } else {
      var k := |steps| - 1;
      assert steps[..k][..n] == steps[..n];
      OverflowStops(s, steps[..k], n);
      StoppedStep(StateAfter(s, steps[..k]), TrailAfter(s, steps[..k]), steps[k]);
      HandedLaterToo(s, steps, k, n, StateAfter(s, steps[..n]), TrailAfter(s, steps[..n]).handed,
                     TrailAfter(s, steps[..k]).handed);
      HandedNow(s, steps, k, n, StateAfter(s, steps[..n]), StateAfter(s, steps[..k]), TrailAfter(s, steps[..n]).handed);
    }
    if StateAfter(s, steps).active == Nothing {
      NothingWanted(StateAfter(s, steps));
      ReadNothing(StateAfter(s, steps).AfterTake(true), TrailAfter(s, steps).slots);
      NothingMore(TrailAfter(s, steps).handed);
    }
  }

  lemma ReadNothing(s: State, ring: seq<int>)
    requires |ring| == 2 * s.half && s.active == Nothing
    ensures Read(s, ring) == []
  {
  }

  lemma HandedNow(s: State, steps: seq<Step>, k: nat, n: nat, stop: State, r: State, before: seq<int>)
    requires s.Shape() && stop.half == r.half == s.half && n <= k < |steps|
    ensures r.active == stop.active ==>
              HandedLater(s, steps, n, stop, before, before + Read(r, TrailAfter(s, steps[..k]).slots))
  {
    hide TrailAfter;
  }

  lemma HandedLaterToo(s: State, steps: seq<Step>, k: nat, n: nat, stop: State, before: seq<int>, handed: seq<int>)
    requires s.Shape() && stop.half == s.half && k <= |steps|
    ensures HandedLater(s, steps[..k], n, stop, before, handed) ==> HandedLater(s, steps, n, stop, before, handed)
  {
    hide TrailAfter, Read;
    assert forall m | 0 <= m < k :: steps[..k][..m] == steps[..m];
  }

  // ---------------------------------------------------------------- runs in time

  // Samples come when they may, and no half waits when the next one is flagged.
  predicate StepInTime(s: State, step: Step) {
    if step.NewSample? then s.MaySample() else step.ServeInterrupt? && s.raised ==> !s.Waiting()
  }

  predicate InTime(s: State, steps: seq<Step>)
    requires s.Shape()
  {
    steps == [] ||
    (InTime(s, steps[..|steps| - 1]) && StepInTime(StateAfter(s, steps[..|steps| - 1]), steps[|steps| - 1]))
  }

  lemma OneMoreStep(s: State, steps: seq<Step>, i: nat)
    requires s.Shape() && i < |steps|
    ensures StateAfter(s, steps[..i + 1]) == Effect(StateAfter(s, steps[..i]), steps[i])
    ensures InTime(s, steps[..i + 1]) == (InTime(s, steps[..i]) && StepInTime(StateAfter(s, steps[..i]), steps[i]))
    ensures Samples(steps[..i + 1]) == Samples(steps[..i]) + (if steps[i].NewSample? then [steps[i].v] else [])
    ensures TrailAfter(s, steps[..i + 1]) == TrailStep(TrailAfter(s, steps[..i]), StateAfter(s, steps[..i]), steps[i])
  {
    hide Effect, StepInTime, TrailStep;
    assert steps[..i + 1][..i] == steps[..i];
  }

  // ---------------------------------------------------------------- the run on the ring

  // The ring holds, and the handler got, the values behind the numbers.
  ghost predicate Follows(before: seq<Vector>, t: Trail, buffer: seq<Vector>, log: Log) {
    && |log.acquired| == t.count && buffer == Values(before, log.acquired, t.slots)
    && log.delivered == Values(before, log.acquired, t.handed)
  }

  lemma ValuesKept(before: seq<Vector>, samples: seq<Vector>, v: Vector, numbers: seq<int>)
    requires forall k | 0 <= k < |numbers| :: numbers[k] < |samples|
    ensures Values(before, samples + [v], numbers) == Values(before, samples, numbers)
  {
  }

  lemma ValuesWritten(before: seq<Vector>, samples: seq<Vector>, v: Vector, slots: seq<int>, p: nat)
    requires p < |slots| && forall j | 0 <= j < |slots| :: slots[j] < |samples|
    ensures Values(before, samples + [v], slots[p := |samples|]) == Values(before, samples, slots)[p := v]
  {
  }

  lemma ValuesRead(before: seq<Vector>, samples: seq<Vector>, handed: seq<int>, s: State, slots: seq<int>)
    requires |slots| == 2 * s.half
    ensures Values(before, samples, handed + Read(s, slots)) ==
            Values(before, samples, handed) + Read(s, Values(before, samples, slots))
  {
  }

  lemma StepFollows(before: seq<Vector>, t: Trail, s: State, step: Step, buffer: seq<Vector>, buffer': seq<Vector>,
                    log: Log, log': Log)
    requires s.Shape() && t.Known(s.half) && |buffer| == 2 * s.half && Follows(before, t, buffer, log)
    requires log'.acquired == log.acquired + (if step.NewSample? then [step.v] else [])
    requires log'.delivered == log.delivered + (if step.Handle? then Read(s, buffer) else [])
    requires buffer' == if step.NewSample? then buffer[2 * s.half - s.citer := step.v] else buffer
    ensures Follows(before, TrailStep(t, s, step), buffer', log')
  {
    hide Values, Read;
    assert log.acquired + [] == log.acquired && log.delivered + [] == log.delivered;
    match step
    case NewSample(v) =>
      ValuesWritten(before, log.acquired, v, t.slots, 2 * s.half - s.citer);
      ValuesKept(before, log.acquired, v, t.handed);
    case Handle => ValuesRead(before, log.acquired, t.handed, s, t.slots);
    case _ =>
  }

  // A step in time keeps what is delivered and what is outstanding together everything sampled.
  lemma StepKeepsOrder(s: State, step: Step, buffer: seq<Vector>, acquired: seq<Vector>, delivered: seq<Vector>)
    requires InOrder(s, buffer, acquired, delivered) && StepInTime(s, step)
    ensures InOrder(Effect(s, step),
                    if step.NewSample? then buffer[2 * s.half - s.citer := step.v] else buffer,
                    acquired + (if step.NewSample? then [step.v] else []),
                    delivered + (if step.Handle? then Read(s, buffer) else []))
  {
    hide Outstanding, State.Sampled, State.Served, State.AfterTake, State.MaySample, State.Due, State.WaitingBase;
    assert acquired + [] == acquired && delivered + [] == delivered;
    match step
    case NewSample(v) => SampleInOrder(s, buffer, acquired, delivered, v);
    case ServeInterrupt => if s.raised { ServeInOrder(s, buffer, acquired, delivered); }
    case Poll => if s.active == Nothing { TakeInOrder(s, buffer, acquired, delivered, false); }
    case Handle => if s.active.Part? { DeliverInOrder(s, buffer, acquired, delivered); }
  }

  lemma NothingYet(s: State, before: seq<Vector>)
    requires s.Shape() && s == s.Started() && |before| == 2 * s.half
    ensures InOrder(s, before, [], [])
  {
    assert Outstanding(s, before) == [];
  }

  /** In a run in time, everything sampled is what has been delivered and what is outstanding. */
  lemma {:induction false} InTimeInOrder(s: State, steps: seq<Step>, before: seq<Vector>)
    requires s.Shape() && s == s.Started() && |before| == 2 * s.half && InTime(s, steps)
    ensures var t, xs := TrailAfter(s, steps), Samples(steps);
            && |xs| == t.count
            && InOrder(StateAfter(s, steps), Values(before, xs, t.slots), xs, Values(before, xs, t.handed))
  {
    hide InOrder, Effect, TrailStep, Values, StepInTime, Read;
    if steps == [] {
      NoStep(s, before, EmptyLog);
      NothingYet(s, before);
    } else {
      var n := |steps| - 1;
      InTimeInOrder(s, steps[..n], before);
      var r, t, xs := StateAfter(s, steps[..n]), TrailAfter(s, steps[..n]), Samples(steps[..n]);
      var buffer, delivered := Values(before, xs, t.slots), Values(before, xs, t.handed);
      StepKeepsOrder(r, steps[n], buffer, xs, delivered);
      StepFollows(before, t, r, steps[n], buffer,
                  if steps[n].NewSample? then buffer[2 * r.half - r.citer := steps[n].v] else buffer,
                  Log(xs, delivered, 0, 0, 0, 0),
                  Log(xs + (if steps[n].NewSample? then [steps[n].v] else []),
                      delivered + (if steps[n].Handle? then Read(r, buffer) else []), 0, 0, 0, 0));
    }
  }

  // Where a part chosen in time lies, by counting what is outstanding.
  lemma ActiveIsOldest(s: State, buffer: seq<Vector>, acquired: seq<Vector>, delivered: seq<Vector>)
    requires InOrder(s, buffer, acquired, delivered) && s.active.Part?
    ensures var due, lap := |delivered|, |acquired| - (2 * s.half - s.citer);
            && s.active.start < 2 * s.half && s.active.count == s.half
            && due + s.half <= |acquired| <= due + 2 * s.half
            && (due == lap + s.active.start || due == lap + s.active.start - 2 * s.half)
  {
    var parts := Outstanding(s, buffer);
    assert |parts| == s.half + (if s.raised then s.half else 0) + s.Fill();
  }

  /** In a run in time every part is due when it is read. */
  lemma {:induction false} InTimeIsDue(s: State, steps: seq<Step>, before: seq<Vector>)
    requires s.Shape() && s == s.Started() && |before| == 2 * s.half && InTime(s, steps)
    ensures HalvesAreDue(s, steps)
  {
    hide InOrder, Effect, TrailStep, Values, AtPlace;
    if steps == [] {
    } else {
      var n := |steps| - 1;
      InTimeIsDue(s, steps[..n], before);
      var r, t, xs := StateAfter(s, steps[..n]), TrailAfter(s, steps[..n]), Samples(steps[..n]);
      if steps[n].Handle? && r.active.Part? {
        InTimeInOrder(s, steps[..n], before);
        ActiveIsOldest(r, Values(before, xs, t.slots), xs, Values(before, xs, t.handed));
        TrailIsPlaced(s, steps[..n]);
        SameLap(s.half, t.count, 2 * s.half - r.citer, r.active.start, t.Due());
      }
    }
  }

  method Perform(ring: Ring, step: Step)
    requires ring.Valid()
    modifies ring, ring.buffer
    ensures ring.Valid() && ring.s == Effect(old(ring.s), step)
    ensures ring.log.acquired == old(ring.log).acquired + (if step.NewSample? then [step.v] else [])
    ensures ring.log.delivered ==
            old(ring.log).delivered + (if step.Handle? then Read(old(ring.s), old(ring.buffer[..])) else [])
    ensures ring.buffer[..] == if step.NewSample?
            then old(ring.buffer[..])[2 * ring.s.half - old(ring.s).citer := step.v]
                               else old(ring.buffer[..])
  {
    match step {
      case NewSample(v) => ring.Sample(v);
      case ServeInterrupt => if ring.s.raised { ring.Interrupt(); }
      case Poll => if ring.s.active == Nothing { var _ := ring.Take(false); }
      case Handle =>
        if ring.s.active.Part? && ring.s.active.start + ring.s.active.count <= 2 * ring.s.half {
          var _ := ring.Deliver();
        }
    }
  }

  /** The final `stream(true)`. */
  method Finish(ring: Ring) returns (ok: bool, wild: bool)
    requires ring.Valid() && ring.s.active == Nothing
    modifies ring
    ensures ring.log.acquired == old(ring.log.acquired) && ok == !old(ring.s).overflow
    ensures wild == Wild(old(ring.s).AfterTake(true))
    ensures ring.log.delivered == old(ring.log.delivered) + Read(old(ring.s).AfterTake(true), ring.buffer[..])
  {
    hide State.AfterTake, State.Waiting;
    wild := false;
    ok := ring.Take(true);
    if ring.s.active.Part? {
      if ring.s.active.start + ring.s.active.count <= 2 * ring.s.half {
        var _ := ring.Deliver();
      } else {
        wild := true;
      }
    }
  }

  /** A whole run: for every interleaving, what the handler got are the values behind the numbers
      that the interleaving alone determines.  If every step was in time and no interrupt is
      outstanding at the end, these are exactly the sampled vectors in order if and only if the
      pointer started at the first half or at least one half was filled; with a half still flagged,
      if and only if there is no tail. */
  method Record(ring: Ring, steps: seq<Step>) returns (ok: bool, wild: bool)
    requires ring.Valid()
    modifies ring, ring.buffer
    ensures ring.log.acquired == Samples(steps)
    ensures var start := old(ring.s).Started(); var last := StateAfter(start, steps);
            last.active == Nothing ==>
              && ok == !last.overflow && wild == Wild(last.AfterTake(true))
              && ring.log.delivered == Values(old(ring.buffer[..]), Samples(steps), Handed(start, steps))
    ensures var start := old(ring.s).Started(); var last := StateAfter(start, steps);
            last.active == Nothing && (exists n :: 0 <= n <= |steps| && StateAfter(start, steps[..n]).overflow) ==>
              !ok && ring.log.delivered == Values(old(ring.buffer[..]), Samples(steps), TrailAfter(start, steps).handed)
    ensures var start := old(ring.s).Started(); var last := StateAfter(start, steps);
            InTime(start, steps) && !last.raised && last.active == Nothing ==>
              ok && (!wild && ring.log.delivered == Samples(steps)
                     <==> if last.Waiting() then last.Fill() == 0
                          else start.pointer == 0 || |Samples(steps)| >= start.half)
  {
    hide InOrder, Effect, StepInTime, StateAfter, InTime, Samples, State.Fill, State.Waiting, TrailAfter, TrailStep;
    hide Follows, Values, Read;
    ghost var before := ring.buffer[..];
    ring.Restart();
    NoStep(ring.s, before, ring.log);
    ghost var start := ring.s;
    for i := 0 to |steps|
      invariant ring.Valid() && ring.log.acquired == Samples(steps[..i]) && ring.s == StateAfter(start, steps[..i])
      invariant Follows(before, TrailAfter(start, steps[..i]), ring.buffer[..], ring.log)
    {
      OneMoreStep(start, steps, i);
      ghost var s, buffer, log := ring.s, ring.buffer[..], ring.log;
      Perform(ring, steps[i]);
      StepFollows(before, TrailAfter(start, steps[..i]), s, steps[i], buffer, ring.buffer[..], log, ring.log);
    }
    assert steps[..|steps|] == steps;
    ok, wild := false, false;
    if ring.s.active == Nothing {
      LastFollows(before, TrailAfter(start, steps), ring.s, ring.buffer[..], ring.log);
      if InTime(start, steps) && !ring.s.raised {
        InTimeInOrder(start, steps, before);
        FinishExactly(ring.s, ring.buffer[..], ring.log.acquired, ring.log.delivered);
      }
      ok, wild := Finish(ring);
      if n :| 0 <= n <= |steps| && StateAfter(start, steps[..n]).overflow { OverflowStops(start, steps, n); }
    }
  }

  lemma NoStep(s: State, before: seq<Vector>, log: Log)
    requires s.Shape() && |before| == 2 * s.half && log == EmptyLog
    ensures StateAfter(s, []) == s && InTime(s, []) && Samples([]) == []
    ensures Follows(before, TrailAfter(s, []), before, log)
  {
  }

  lemma LastFollows(before: seq<Vector>, t: Trail, s: State, buffer: seq<Vector>, log: Log)
    requires s.Shape() && t.Known(s.half) && |buffer| == 2 * s.half && Follows(before, t, buffer, log)
    ensures var end := s.AfterTake(true);
            Values(before, log.acquired, t.handed + Read(end, t.slots)) == log.delivered + Read(end, buffer)
    ensures buffer == Values(before, log.acquired, t.slots) && log.delivered == Values(before, log.acquired, t.handed)
  {
    hide Values, Read;
    ValuesRead(before, log.acquired, t.handed, s.AfterTake(true), t.slots);
  }

  // Two samples, each with its interrupt, before the first poll.
  function LateSchedule(v: Vector, w: Vector): seq<Step> {
    [NewSample(v), ServeInterrupt, NewSample(w), ServeInterrupt, Poll, Handle, Poll, Handle]
  }

  // Registers and numbers after i steps.
  ghost predicate Reached(s: State, steps: seq<Step>, i: nat, r: State, t: Trail)
    requires s.Shape()
  {
    i <= |steps| && StateAfter(s, steps[..i]) == r && TrailAfter(s, steps[..i]) == t
  }

  lemma ReachedFirst(s: State, steps: seq<Step>)
    requires s.Shape() && s.half == 1
    ensures Reached(s, steps, 0, s, Trail(0, [-1, -2], []))
  {
  }

  lemma ReachedNext(s: State, steps: seq<Step>, i: nat, r: State, t: Trail)
    requires s.Shape() && r.Shape() && t.Known(r.half) && i < |steps| && Reached(s, steps, i, r, t)
    ensures Reached(s, steps, i + 1, Effect(r, steps[i]), TrailStep(t, r, steps[i]))
  {
    hide Effect, TrailStep;
    OneMoreStep(s, steps, i);
  }

  lemma FirstTwo(s: State, v: Vector, w: Vector)
    requires s.Shape() && s == s.Started() && s.half == 1
    ensures Reached(s, LateSchedule(v, w), 2, s.(citer := 1, first := true), Trail(1, [0, -2], []))
  {
    hide Reached;
    var steps := LateSchedule(v, w);
    ReachedFirst(s, steps);
    assert [-1, -2][0 := 0] == [0, -2];
    ReachedNext(s, steps, 0, s, Trail(0, [-1, -2], []));
    ReachedNext(s, steps, 1, s.(citer := 1, raised := true), Trail(1, [0, -2], []));
  }

  lemma FirstFour(s: State, v: Vector, w: Vector)
    requires s.Shape() && s == s.Started() && s.half == 1
    ensures Reached(s, LateSchedule(v, w), 3, s.(first := true, raised := true), Trail(2, [0, 1], []))
    ensures Reached(s, LateSchedule(v, w), 4, s.(first := true, last := true), Trail(2, [0, 1], []))
  {
    hide Reached;
    var steps := LateSchedule(v, w);
    FirstTwo(s, v, w);
    assert [0, -2][1 := 1] == [0, 1];
    ReachedNext(s, steps, 2, s.(citer := 1, first := true), Trail(1, [0, -2], []));
    ReachedNext(s, steps, 3, s.(first := true, raised := true), Trail(2, [0, 1], []));
  }

  lemma LastFour(s: State, v: Vector, w: Vector)
    requires s.Shape() && s == s.Started() && s.half == 1
    requires Reached(s, LateSchedule(v, w), 4, s.(first := true, last := true), Trail(2, [0, 1], []))
    ensures Reached(s, LateSchedule(v, w), 8, s.(taken := true, pointer := 0), Trail(2, [0, 1], [0, 1]))
  {
    hide Reached;
    var steps := LateSchedule(v, w);
    var t := s.(last := true, pointer := 1, taken := true);
    var u := s.(taken := true, pointer := 0);
    ReachedNext(s, steps, 4, s.(first := true, last := true), Trail(2, [0, 1], []));
    ReachedNext(s, steps, 5, t.(active := Part(0, 1)), Trail(2, [0, 1], []));
    assert [] + [0, 1][0..1] == [0];
    ReachedNext(s, steps, 6, t, Trail(2, [0, 1], [0]));
    ReachedNext(s, steps, 7, u.(active := Part(1, 1)), Trail(2, [0, 1], [0]));
    assert [0] + [0, 1][1..2] == [0, 1];
  }

  lemma {:induction false} InTimeSoFar(s: State, steps: seq<Step>, i: nat)
    requires s.Shape() && i <= |steps| && InTime(s, steps)
    ensures InTime(s, steps[..i])
  {
    if i < |steps| {
      InTimeSoFar(s, steps[..|steps| - 1], i);
      assert steps[..|steps| - 1][..i] == steps[..i];
    } else {
      assert steps[..i] == steps;
    }
  }

  lemma TooLate(s: State, v: Vector, w: Vector)
    requires s.Shape() && s == s.Started() && s.half == 1
    ensures !InTime(s, LateSchedule(v, w))
  {
    hide StateAfter, InTime, TrailAfter, Samples;
    var steps := LateSchedule(v, w);
    FirstFour(s, v, w);
    OneMoreStep(s, steps, 3);
    if InTime(s, steps) { InTimeSoFar(s, steps, 4); }
  }

  lemma AllHanded(s: State, steps: seq<Step>)
    requires s.Shape() && s == s.Started() && s.half == 1
    requires Reached(s, steps, |steps|, s.(taken := true, pointer := 0), Trail(2, [0, 1], [0, 1]))
    ensures TrailAfter(s, steps).handed == [0, 1] == Ascending(0, 2) && Handed(s, steps) == [0, 1]
  {
    assert steps[..|steps|] == steps;
    assert [0, 1] + [] == [0, 1];
  }

  /** Being in time is not necessary: with halves of one vector, polling only when both halves are
      flagged still gets them in order, starting from the first half. */
  lemma LateButInOrder(s: State, v: Vector, w: Vector)
    requires s.Shape() && s == s.Started() && s.half == 1
    ensures var steps := LateSchedule(v, w);
            !InTime(s, steps) && HalvesAreDue(s, steps) && Handed(s, steps) == [0, 1]
  {
    hide StateAfter, TrailAfter, InTime, HalvesAreDue, Handed, Reached, Ascending;
    var steps := LateSchedule(v, w);
    FirstFour(s, v, w);
    LastFour(s, v, w);
    TooLate(s, v, w);
    AllHanded(s, steps);
    HandedInOrderExactly(s, steps);
  }
}
