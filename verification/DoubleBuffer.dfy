/** Continuous acquisition: the DMA fills a ring of sampled vectors, an interrupt flags its halves,
    and the main loop streams flagged halves out.

    The interrupt may be served any time after it is raised, and the handler may read a half while
    sampling goes on, so each is a step of its own. */
module DoubleBuffer {
  const BUFFER_SIZE: nat := 256 // words

  // One sample of every channel, copied by one major loop of the DMA.
  type Vector = seq<bv32>

  // What the handler has been asked to read.
  datatype Part = Nothing | Part(start: nat, count: nat)

  // The registers and flags; citer is the number of major loops left before the ring is full.
  datatype State = State(half: nat, citer: nat, raised: bool, first: bool, last: bool, overflow: bool,
                         pointer: nat, active: Part, taken: bool)
  {
    predicate Shape() {
      0 < half <= BUFFER_SIZE / 2 && 0 < citer <= 2 * half && (pointer == 0 || pointer == half)
    }

    // The half being filled, the number of vectors already in it, and the other half.
    function Base(): nat { if citer > half then 0 else half }

    function Fill(): int { 2 * half - citer - Base() }

    function Other(): int { half - Base() }

    predicate Waiting() { first || last || active.Part? }

    function WaitingBase(): nat {
      if active.Part? then active.start else if first then 0 else half
    }

    // The half that has to be taken next.
    function Due(): int {
      if active.Part? then (if active.start == 0 then half else 0)
      else if Waiting() then WaitingBase()
      else if raised then Other()
      else Base()
    }

    // At most one half waits, the one before the half being filled or just completed.  The first
    // half's interrupt may be outstanding while the second half fills.
    predicate Scheduled() {
      && Shape() && !overflow && (raised ==> Fill() == 0 || (Base() == half && !Waiting()))
      && !(first && last) && (active.Part? ==> taken && !first && !last && active.count == half)
      && (Waiting() ==> WaitingBase() == if raised then Base() else Other())
      && Due() == if taken then pointer else 0
    }

    function Started(): State {
      State(half, 2 * half, false, false, false, false, pointer, Nothing, false)
    }

    // A sample may be taken with an interrupt outstanding only if it is the first half's, nothing
    // waits, and the second half does not get full: the interrupt for the ring's end would be taken
    // for the first half's once the iteration count has moved on.
    predicate MaySample() { raised ==> 1 < citer <= half && !Waiting() }

    function Sampled(): State
      requires Shape()
    {
      var left := if citer == 1 then 2 * half else citer - 1;
      this.(citer := left, raised := raised || left == half || left == 2 * half)
    }

    // The routine tells the halves apart by whether the iteration count has been reloaded.
    function Served(): State {
      if citer != 2 * half then this.(raised := false, first := true, overflow := overflow || first)
      else this.(raised := false, last := true, overflow := overflow || last)
    }

    // The tail count in size_t arithmetic.
    function TailCount(): nat
      requires Shape()
    {
      if pointer == 0 then 2 * half - citer else (half - citer) % 0x1_0000_0000
    }

    // The first half goes first; the tail goes only if nothing is flagged.
    function AfterTake(partial: bool): State
      requires Shape()
    {
      if overflow then this
      else if first then this.(active := Part(0, half), pointer := half, first := false, taken := true)
      else if last then this.(active := Part(half, half), pointer := 0, last := false, taken := true)
      else if partial && TailCount() != 0 then this.(active := Part(pointer, TailCount()))
      else this
    }
  }

  // The half at w if one waits, the half at o if one has just completed, then the fill at b.
  function Parts(buffer: seq<Vector>, half: nat, waiting: bool, w: nat, raised: bool, o: nat, b: nat,
                 fill: nat): seq<Vector>
    requires w <= half && o <= half && b <= half && fill <= half && |buffer| == 2 * half
  {
    (if waiting then buffer[w..w + half] else []) + (if raised then buffer[o..o + half] else []) + buffer[b..b + fill]
  }

  // What has been acquired but not delivered, oldest first.
  function Outstanding(s: State, buffer: seq<Vector>): seq<Vector>
    requires s.Scheduled() && |buffer| == 2 * s.half
  {
    Parts(buffer, s.half, s.Waiting(), if s.Waiting() then s.WaitingBase() else 0,
          s.raised, s.Other(), s.Base(), s.Fill())
  }

  ghost predicate InOrder(s: State, buffer: seq<Vector>, acquired: seq<Vector>, delivered: seq<Vector>) {
    && s.Scheduled() && |buffer| == 2 * s.half && (if s.taken then |acquired| >= s.half else delivered == [])
    && acquired == delivered + Outstanding(s, buffer)
  }

  // Where the sample's vector goes and what the new half is.
  lemma SampleScheduled(s: State)
    requires s.Scheduled() && s.MaySample()
    ensures var t := s.Sampled();
            && t.half == s.half && t.taken == s.taken && t.Scheduled() && s.Fill() < s.half
            && t.Waiting() == s.Waiting() && t.WaitingBase() == s.WaitingBase()
            && 2 * s.half - s.citer == s.Base() + s.Fill() && (s.Waiting() ==> s.WaitingBase() == s.Other())
            && if s.Fill() + 1 == s.half
               then !s.raised && t.raised && t.Fill() == 0 && t.Base() == s.Other() && t.Other() == s.Base()
               else t.raised == s.raised && t.Fill() == s.Fill() + 1 && t.Base() == s.Base() && t.Other() == s.Other()
  {
  }

  // A sample in time lands behind everything that still has to be delivered.
  lemma SampleInOrder(s: State, buffer: seq<Vector>, acquired: seq<Vector>, delivered: seq<Vector>, v: Vector)
    requires InOrder(s, buffer, acquired, delivered) && s.MaySample()
    ensures InOrder(s.Sampled(), buffer[2 * s.half - s.citer := v], acquired + [v], delivered)
  {
    hide State.Base, State.Fill, State.Other, State.Waiting, State.WaitingBase, State.Scheduled, State.Sampled;
    hide State.MaySample, Outstanding;
    Offsets(s);
    SampleScheduled(s);
    SampleOutstanding(s, buffer, v);
    assert delivered + Outstanding(s, buffer) + [v] == delivered + (Outstanding(s, buffer) + [v]);
  }

  // The same on plain offsets: b is the half being filled, o the other one, f the fill.
  lemma SliceAppends(buffer: seq<Vector>, v: Vector, b: nat, o: nat, f: nat, half: nat)
    requires f < half && |buffer| == 2 * half && (b == 0 || b == half) && o == half - b
    ensures buffer[b + f := v][b..b + f + 1] == buffer[b..b + f] + [v]
    ensures buffer[b + f := v][o..o + half] == buffer[o..o + half]
  {
  }

  lemma Regroup(w: seq<Vector>, r: seq<Vector>, x: seq<Vector>, v: Vector)
    ensures w + r + (x + [v]) == w + r + x + [v] && w + (x + [v]) + [] == w + [] + x + [v]
  {
  }

  lemma PartsAppended(buffer: seq<Vector>, v: Vector, b: nat, o: nat, f: nat, half: nat, waiting: bool, raised: bool)
    requires f < half && |buffer| == 2 * half && (b == 0 || b == half) && o == half - b
    ensures var after, w := buffer[b + f := v], if waiting then o else 0;
            var parts := Parts(buffer, half, waiting, w, raised, o, b, f) + [v];
            && Parts(after, half, waiting, w, raised, o, b, f + 1) == parts
            && (f + 1 == half && !raised ==> Parts(after, half, waiting, w, true, b, o, 0) == parts)
  {
    SliceAppends(buffer, v, b, o, f, half);
    var other := buffer[o..o + half];
    Regroup(if waiting then other else [], if raised then other else [], buffer[b..b + f], v);
    assert buffer[b + f := v][o..o + 0] == [];
  }

  lemma SampleOutstanding(s: State, buffer: seq<Vector>, v: Vector)
    requires s.Scheduled() && s.MaySample() && |buffer| == 2 * s.half && s.Sampled().Scheduled()
    ensures Outstanding(s.Sampled(), buffer[2 * s.half - s.citer := v]) == Outstanding(s, buffer) + [v]
  {
    hide State.Base, State.Fill, State.Other, State.Waiting, State.WaitingBase, State.Scheduled, State.Sampled;
    hide State.MaySample, Parts;
    Offsets(s);
    SampleScheduled(s);
    PartsAppended(buffer, v, s.Base(), s.Other(), s.Fill(), s.half, s.Waiting(), s.raised);
  }

  lemma Offsets(s: State)
    requires s.Scheduled()
    ensures s.Shape() && 0 <= s.Fill() <= s.half && (s.Base() == 0 || s.Base() == s.half)
            && s.Other() == s.half - s.Base()
  {
  }

  lemma ServeInOrder(s: State, buffer: seq<Vector>, acquired: seq<Vector>, delivered: seq<Vector>)
    requires InOrder(s, buffer, acquired, delivered) && s.raised && !s.Waiting()
    ensures InOrder(s.Served(), buffer, acquired, delivered)
  {
    var t := s.Served();
    assert t.Scheduled() && t.WaitingBase() == s.Other();
    assert Outstanding(t, buffer) == Outstanding(s, buffer);
  }

  lemma TakeInOrder(s: State, buffer: seq<Vector>, acquired: seq<Vector>, delivered: seq<Vector>, partial: bool)
    requires InOrder(s, buffer, acquired, delivered) && s.active.Nothing? && (partial ==> s.Waiting())
    ensures InOrder(s.AfterTake(partial), buffer, acquired, delivered)
  {
    var t := s.AfterTake(partial);
    assert t.Scheduled() && t.WaitingBase() == s.WaitingBase();
    assert Outstanding(t, buffer) == Outstanding(s, buffer);
  }

  lemma DeliverInOrder(s: State, buffer: seq<Vector>, acquired: seq<Vector>, delivered: seq<Vector>)
    requires InOrder(s, buffer, acquired, delivered) && s.active.Part?
    ensures s.active.start + s.active.count <= |buffer|
    ensures InOrder(s.(active := Nothing), buffer, acquired,
                    delivered + buffer[s.active.start..s.active.start + s.active.count])
  {
    var t, data := s.(active := Nothing), buffer[s.active.start..s.active.start + s.active.count];
    assert t.Scheduled();
    assert Outstanding(s, buffer) == data + Outstanding(t, buffer);
  }

  // What happened since the start.
  datatype Log = Log(acquired: seq<Vector>, delivered: seq<Vector>,
                     servedFirst: nat, servedLast: nat, takenFirst: nat, takenLast: nat)
  {
    // Interrupts are takes plus the pending flag, unless one found its flag still pending.
    predicate Counts(s: State) {
      var lostFirst := servedFirst - takenFirst - (if s.first then 1 else 0);
      var lostLast := servedLast - takenLast - (if s.last then 1 else 0);
      lostFirst >= 0 && lostLast >= 0 && (s.overflow <==> lostFirst > 0 || lostLast > 0)
    }
  }

  const EmptyLog := Log([], [], 0, 0, 0, 0)

  class Ring {
    const buffer: array<Vector>
    var s: State // pointer is the function's static variable
    ghost var log: Log

    ghost predicate Valid()
      reads this
    {
      s.Shape() && buffer.Length == 2 * s.half && log.Counts(s)
    }

    ghost predicate Fresh()
      reads this
    {
      s == s.Started() && log == EmptyLog
    }

    constructor (channels: nat, secondHalf: bool)
      requires channels in {1, 2, 4, 8, 16, 32, 64, 128}
      ensures Valid() && Fresh() && fresh(buffer)
      ensures 2 * s.half * channels == 256 && s.pointer == if secondHalf then s.half else 0
    {
      var half := BUFFER_SIZE / channels / 2;
      buffer := new Vector[2 * half](_ => []);
      s := State(half, 2 * half, false, false, false, false, if secondHalf then half else 0, Nothing, false);
      log := EmptyLog;
    }

    // A new run: flags and DMA start over, the static pointer does not.
    method Restart()
      requires Valid()
      modifies this
      ensures Valid() && Fresh() && s.half == old(s.half) && s.pointer == old(s.pointer)
    {
      s := s.Started();
      log := EmptyLog;
    }

    /** One major loop of the DMA. */
    method Sample(v: Vector)
      requires Valid()
      modifies this, buffer
      ensures Valid() && s == old(s).Sampled()
      ensures log == old(log).(acquired := old(log).acquired + [v])
      ensures buffer[..] == old(buffer[..])[2 * s.half - old(s).citer := v]
    {
      buffer[2 * s.half - s.citer] := v;
      var left := s.citer - 1;
      if left == 0 { left := 2 * s.half; }
      s := s.(citer := left, raised := s.raised || left == s.half || left == 2 * s.half);
      log := log.(acquired := log.acquired + [v]);
    }

    /** The interrupt service routine. */
    method Interrupt()
      requires Valid() && s.raised
      modifies this
      ensures Valid() && s == old(s).Served()
      ensures log.acquired == old(log).acquired && log.delivered == old(log).delivered
    {
      var isHalf := s.citer != 2 * s.half;
      if isHalf {
        s := s.(overflow := s.overflow || s.first, first := true, raised := false);
        log := log.(servedFirst := log.servedFirst + 1);
      } else {
        s := s.(overflow := s.overflow || s.last, last := true, raised := false);
        log := log.(servedLast := log.servedLast + 1);
      }
    }

    /** The first part of `stream`: choosing what to send. */
    method Take(partial: bool) returns (ok: bool)
      requires Valid() && s.active == Nothing
      modifies this
      ensures Valid() && ok == !old(s).overflow && s == old(s).AfterTake(partial)
      ensures !ok ==> s == old(s)
      ensures log.acquired == old(log).acquired && log.delivered == old(log).delivered
    {
      if s.overflow { return false; }
      if s.first {
        log := log.(takenFirst := log.takenFirst + 1);
        s := s.(first := false, pointer := s.half, taken := true, active := Part(0, s.half));
      } else if s.last {
        log := log.(takenLast := log.takenLast + 1);
        s := s.(last := false, pointer := 0, taken := true, active := Part(s.half, s.half));
      } else if partial {
        var outerCount := s.half;
        if s.pointer == 0 {
          outerCount := 2 * s.half - s.citer;
        } else {
          outerCount := (2 * s.half - s.citer - outerCount) % 0x1_0000_0000;
        }
        if outerCount == 0 { return true; }
        s := s.(active := Part(s.pointer, outerCount));
      }
      return true;
    }

    /** The second part of `stream`: the handler reads what was chosen. */
    method Deliver() returns (data: seq<Vector>)
      requires Valid() && s.active.Part? && s.active.start + s.active.count <= 2 * s.half
      modifies this
      ensures Valid() && s == old(s).(active := Nothing)
      ensures data == buffer[old(s).active.start..old(s).active.start + old(s).active.count]
      ensures log == old(log).(delivered := old(log).delivered + data)
    {
      data := buffer[s.active.start..s.active.start + s.active.count];
      log := log.(delivered := log.delivered + data);
      s := s.(active := Nothing);
    }
  }

  // What the tail looks like when nothing is flagged.
  lemma TailIsOutstanding(s: State, buffer: seq<Vector>, acquired: seq<Vector>, delivered: seq<Vector>)
    requires InOrder(s, buffer, acquired, delivered) && !s.raised && !s.Waiting()
    ensures s.AfterTake(true) == if s.TailCount() == 0 then s else s.(active := Part(s.pointer, s.TailCount()))
    ensures s.taken || s.pointer == 0 ==>
              && s.pointer + s.TailCount() <= |buffer|
              && acquired == delivered + buffer[s.pointer..s.pointer + s.TailCount()]
    ensures !s.taken ==> |acquired| < s.half
    ensures !s.taken && s.pointer != 0 ==> s.TailCount() > |buffer|
  {
    assert s.Base() == s.Due();
    assert Outstanding(s, buffer) == buffer[s.Base()..s.Base() + s.Fill()];
  }

  /** With the pointer left at the second half and less than a half in the buffer, the count of the tail
      is 2^32 less what is missing, which is past the end of any ring. */
  lemma LeftoverPointerWraps(s: State)
    requires s.Shape() && s.pointer == s.half && s.citer > s.half && !s.overflow && !s.first && !s.last
    ensures s.AfterTake(true).active == Part(s.half, 4294967296 - (s.citer - s.half)) && Wild(s.AfterTake(true))
  {
  }

  // A flagged half is taken first, whatever was asked for.
  lemma TakesFlagged(s: State)
    requires s.Scheduled() && s.active == Nothing && s.Waiting()
    ensures var t := s.AfterTake(true);
            && t.active == Part(s.WaitingBase(), s.half) && s.WaitingBase() <= s.half
            && t.raised == s.raised && t.half == s.half && !t.(active := Nothing).Waiting()
            && t.(active := Nothing).Fill() == s.Fill()
  {
  }

  lemma OnlyTheTailIsLeft(s: State, buffer: seq<Vector>, acquired: seq<Vector>, delivered: seq<Vector>)
    requires InOrder(s, buffer, acquired, delivered) && !s.raised && !s.Waiting()
    ensures delivered == acquired <==> s.Fill() == 0
  {
    assert Outstanding(s, buffer) == buffer[s.Base()..s.Base() + s.Fill()];
  }

  // Whether the part chosen leaves the buffer, and what the handler reads if it does not.
  predicate Wild(t: State) { t.active.Part? && t.active.start + t.active.count > 2 * t.half }

  function Read<T>(t: State, ring: seq<T>): (r: seq<T>)
    requires |ring| == 2 * t.half
  {
    if t.active.Part? && !Wild(t) then ring[t.active.start..t.active.start + t.active.count] else []
  }

  // All vectors get out if and only if a half still flagged leaves no tail behind, or, with nothing
  // flagged, the pointer is no leftover.
  predicate Complete(s: State) {
    if s.Waiting() then s.Fill() == 0 else s.taken || s.pointer == 0
  }

  lemma FinishExactly(s: State, buffer: seq<Vector>, acquired: seq<Vector>, delivered: seq<Vector>)
    requires InOrder(s, buffer, acquired, delivered) && s.active == Nothing && !s.raised
    ensures !s.overflow && (if s.taken then |acquired| >= s.half else s.Waiting() || |acquired| < s.half)
    ensures var t := s.AfterTake(true);
            !Wild(t) && delivered + Read(t, buffer) == acquired <==> Complete(s)
  {
    hide State.AfterTake, State.TailCount, State.Waiting, State.WaitingBase, State.Fill, State.Base, State.Due;
    hide Outstanding;
    var t := s.AfterTake(true);
    if s.Waiting() {
      TakesFlagged(s);
      TakeInOrder(s, buffer, acquired, delivered, true);
      DeliverInOrder(t, buffer, acquired, delivered);
      OnlyTheTailIsLeft(t.(active := Nothing), buffer, acquired, delivered + Read(t, buffer));
    } else {
      TailIsOutstanding(s, buffer, acquired, delivered);
    }
  }

  /** The bound at the ring's end is real: one sample late, its interrupt flags the first half. */
  lemma LateAtRingEnd(s: State)
    requires s.Shape() && s.half > 1 && s.raised && s.citer == 2 * s.half
    ensures s.Served().last && s.Served().first == s.first
    ensures s.Sampled().Served().first && s.Sampled().Served().last == s.last
  {
  }

  // n samples with no interrupt served in between.
  function Advance(s: State, n: nat): (t: State)
    requires s.Shape()
    ensures t.Shape() && t.half == s.half
  {
    if n == 0 then s else Advance(s, n - 1).Sampled()
  }

  lemma {:induction false} AdvanceWithinHalf(s: State, b: nat, n: nat)
    requires s.Shape() && !s.raised && n <= s.half && (b == 0 || b == s.half) && s.citer == 2 * s.half - b
    ensures Advance(s, n) == s.(citer := if n < s.half then 2 * s.half - b - n else s.half + b, raised := n == s.half)
  {
    if n > 0 { AdvanceWithinHalf(s, b, n - 1); }
  }

  /** Polling too slowly changes the order without an overflow: from the start of half b with nothing
      flagged, two halves pass, both interrupts served in time.  Both are flagged, and the first half
      goes out first, which is the older one if and only if b is the first half. */
  lemma SlowPolling(s: State, b: nat)
    requires s.Shape() && !s.raised && !s.Waiting() && !s.overflow
    requires (b == 0 || b == s.half) && s.citer == 2 * s.half - b
    ensures var t := Advance(Advance(s, s.half).Served(), s.half).Served();
            && t.first && t.last && !t.overflow
            && t.AfterTake(false).active == Part(0, s.half)
            && t.AfterTake(false).AfterTake(false).active == Part(s.half, s.half)
            && (t.AfterTake(false).active.start == b <==> b == 0)
  {
    AdvanceWithinHalf(s, b, s.half);
    AdvanceWithinHalf(Advance(s, s.half).Served(), s.half - b, s.half);
  }
}
