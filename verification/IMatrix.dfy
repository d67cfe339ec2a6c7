/** The command stream that programs the I-block matrix: four 16x8 crosspoint chips behind one
    32-bit shift register, rebuilt from reset on every write. */
module IMatrix {
  const NUM_INPUTS: nat := 32
  const NUM_OUTPUTS: nat := 16

  datatype Point = Point(input: nat, output: nat)

  // One output's 32-bit mask of inputs, as the set of its one bits.
  type Row = r: set<nat> | forall i | i in r :: i < NUM_INPUTS

  predicate Bit(row: Row, input: nat) { input in row }

  // From the top: connect or disconnect, three bits of output, four of input.
  function ChipCmdWord(input: bv8, output: bv8, connect: bool): bv8 {
    (if connect then 0x80 else 0) | ((output & 7) << 4) | (input & 0xF)
  }

  function ConnectWord(input: nat, output: nat): bv8
    requires input < NUM_INPUTS && output < NUM_OUTPUTS
  {
    ChipCmdWord(input as bv8, output as bv8, true)
  }

  // ---------------------------------------------------------------- the chips

  function Connects(b: bv8): bool { b & 0x80 != 0 }
  function XOf(b: bv8): nat { (b & 0xF) as nat }
  function YOf(b: bv8): nat { ((b >> 4) & 7) as nat }

  // Chips 0 and 1 serve outputs 0..7, chips 2 and 3 outputs 8..15; odd chips serve inputs 16..31.
  function Addressed(chip: nat, b: bv8): Point
    requires chip < 4
  {
    Point(XOf(b) + 16 * (chip % 2), YOf(b) + 8 * (chip / 2))
  }

  function ChipOf(p: Point): nat
    requires p.input < NUM_INPUTS && p.output < NUM_OUTPUTS
  {
    p.input / 16 + 2 * (p.output / 8)
  }

  function Strobe(s: set<Point>, chip: nat, b: bv8): set<Point>
    requires chip < 4
  {
    if Connects(b) then s + {Addressed(chip, b)} else s - {Addressed(chip, b)}
  }

  function ByteOf(command: bv32, chip: nat): bv8
    requires chip < 4
  {
    if chip == 0 then (command & 0xFF) as bv8
    else if chip == 1 then ((command >> 8) & 0xFF) as bv8
    else if chip == 2 then ((command >> 16) & 0xFF) as bv8
    else ((command >> 24) & 0xFF) as bv8
  }

  // The sync trigger strobes all four chips with their byte of the register.
  function Sync(s: set<Point>, command: bv32): set<Point> {
    var two := Strobe(Strobe(s, 0, ByteOf(command, 0)), 1, ByteOf(command, 1));
    Strobe(Strobe(two, 2, ByteOf(command, 2)), 3, ByteOf(command, 3))
  }

  class Device {
    var register: bv32
    var connected: set<Point>
    ghost var history: seq<set<Point>> // after reset and after every sync

    method Reset()
      modifies this
      ensures connected == {} && history == [{}]
    {
      connected, history := {}, [{}];
    }

    method Transfer32(command: bv32)
      modifies this`register
      ensures register == command
    {
      register := command;
    }

    method Trigger()
      modifies this`connected, this`history
      ensures connected == Sync(old(connected), register) && history == old(history) + [connected]
    {
      connected := Sync(connected, register);
      history := history + [connected];
    }
  }

  // ---------------------------------------------------------------- command words

  lemma WordBits(x: bv8, y: bv8)
    ensures var w := ChipCmdWord(x, y, true);
            w & 0xF == x & 0xF && (w >> 4) & 7 == y & 7 && w & 0x80 != 0
  {
  }

  lemma LowFour(i: nat)
    requires i < NUM_INPUTS
    ensures ((i as bv8) & 0xF) as nat == i % 16
  {
  }

  lemma LowThree(i: nat)
    requires i < NUM_INPUTS
    ensures ((i as bv8) & 7) as nat == i % 8
  {
  }

  lemma WordDecodes(i: nat, o: nat)
    requires i < NUM_INPUTS && o < NUM_OUTPUTS
    ensures var w := ConnectWord(i, o);
            Connects(w) && XOf(w) == i % 16 && YOf(w) == o % 8
  {
    WordBits(i as bv8, o as bv8);
    LowFour(i);
    LowThree(o);
  }

  /** The word of a point as a number: 128, the output modulo eight at weight 16, the input modulo 16. */
  lemma WordIsNumber(i: nat, o: nat)
    requires i < 32 && o < 16
    ensures ConnectWord(i, o) as nat == 128 + 16 * (o % 8) + i % 16
  {
    LowFour(i);
    LowThree(o);
    WordNumber((i as bv8) & 0xF, (o as bv8) & 7);
    assert ConnectWord(i, o) == 0x80 | (((o as bv8) & 7) << 4) | ((i as bv8) & 0xF);
  }

  lemma WordNumber(x: bv8, y: bv8)
    requires x < 16 && y < 8
    ensures (0x80 | (y << 4) | x) as nat == 128 + 16 * y as nat + x as nat
  {
    assert 0x80 | (y << 4) | x == 0x80 + 16 * y + x;
  }

  lemma ChipCoordinates(p: Point)
    requires p.input < NUM_INPUTS && p.output < NUM_OUTPUTS
    ensures var chip := ChipOf(p);
            chip < 4 && p.input % 16 + 16 * (chip % 2) == p.input && p.output % 8 + 8 * (chip / 2) == p.output
  {
  }

  // The command word of a point addresses that point on its chip.
  lemma WordAddresses(p: Point)
    requires p.input < NUM_INPUTS && p.output < NUM_OUTPUTS
    ensures var w := ConnectWord(p.input, p.output);
            ChipOf(p) < 4 && Connects(w) && Addressed(ChipOf(p), w) == p
  {
    hide ConnectWord, Connects, XOf, YOf, ChipOf;
    WordDecodes(p.input, p.output);
    ChipCoordinates(p);
  }

  // A byte moved to its chip's lane of the register, and the lane cut out of a register value.
  function InLane(b: bv8, chip: nat): bv32
    requires chip < 4
  {
    if chip == 0 then b as bv32 else if chip == 1 then (b as bv32) << 8
    else if chip == 2 then (b as bv32) << 16 else (b as bv32) << 24
  }

  function Masked(command: bv32, chip: nat): bv32
    requires chip < 4
  {
    if chip == 0 then command & 0xFF else if chip == 1 then command & 0xFF00
    else if chip == 2 then command & 0xFF_0000 else command & 0xFF00_0000
  }

  function Joined(a: bv32, b: bv32, c: bv32, d: bv32): bv32 { a | b | c | d }

  lemma LaneBytes(p0: bv32, p1: bv32, p2: bv32, p3: bv32, b: seq<bv8>)
    requires |b| == 4
    requires p0 == InLane(b[0], 0) && p1 == InLane(b[1], 1) && p2 == InLane(b[2], 2) && p3 == InLane(b[3], 3)
    ensures forall c | 0 <= c < 4 :: ByteOf(Joined(p0, p1, p2, p3), c) == b[c]
  {
    LanesSeparate(b[0], b[1], b[2], b[3]);
  }

  lemma LanesSeparate(a: bv8, b: bv8, c: bv8, d: bv8)
    ensures var w := Joined(InLane(a, 0), InLane(b, 1), InLane(c, 2), InLane(d, 3));
            ByteOf(w, 0) == a && ByteOf(w, 1) == b && ByteOf(w, 2) == c && ByteOf(w, 3) == d
  {
  }

  lemma MaskedLanes(w: bv32)
    ensures Masked(w, 0) == InLane(ByteOf(w, 0), 0) && Masked(w, 1) == InLane(ByteOf(w, 1), 1)
    ensures Masked(w, 2) == InLane(ByteOf(w, 2), 2) && Masked(w, 3) == InLane(ByteOf(w, 3), 3)
  {
  }

  // ---------------------------------------------------------------- the stream

  predicate Wanted(outputs: seq<Row>, p: Point)
    requires |outputs| == NUM_OUTPUTS
  {
    p.input < NUM_INPUTS && p.output < NUM_OUTPUTS && Bit(outputs[p.output], p.input)
  }

  function Requested(outputs: seq<Row>): (r: set<Point>)
    requires |outputs| == NUM_OUTPUTS
    ensures forall p :: p in r <==> Wanted(outputs, p)
  {
    set i: nat, o: nat | i < NUM_INPUTS && o < NUM_OUTPUTS && Bit(outputs[o], i) :: Point(i, o)
  }

  // The points reached before output index oi and input index ii of the loops.
  ghost function Done(outputs: seq<Row>, oi: nat, ii: nat): set<Point>
    requires |outputs| == NUM_OUTPUTS
  {
    set p | p in Requested(outputs) && (p.output % 8 < oi || (p.output % 8 == oi && p.input % 16 < ii))
  }

  // The point chip c can set in one turn of the inner loop.
  function Candidate(c: nat, oi: nat, ii: nat): Point
    requires c < 4
  {
    Point(ii + 16 * (c % 2), oi + 8 * (c / 2))
  }

  // Sending the byte again cannot change what the chip has connected.
  ghost predicate Harmless(s: set<Point>, chip: nat, b: bv8)
    requires chip < 4
  {
    if b == 0 then forall x, y | 0 <= x < 16 && 0 <= y < 8 :: Candidate(chip, y, x) !in s
    else Connects(b) && Addressed(chip, b) in s
  }

  // The byte the stream holds for a chip in one turn.
  function NextByte(outputs: seq<Row>, c: nat, oi: nat, ii: nat, remembered: bv8): bv8
    requires |outputs| == NUM_OUTPUTS && c < 4 && oi < 8 && ii < 16
  {
    var p := Candidate(c, oi, ii);
    if Bit(outputs[p.output], p.input) then ConnectWord(p.input, p.output) else remembered
  }

  // Every chip's byte of the command is its next one.
  predicate Assembled(outputs: seq<Row>, oi: nat, ii: nat, remembered: bv32, command: bv32)
    requires |outputs| == NUM_OUTPUTS && oi < 8 && ii < 16
  {
    forall c | 0 <= c < 4 :: ByteOf(command, c) == NextByte(outputs, c, oi, ii, ByteOf(remembered, c))
  }

  // A chip's byte in its lane of the command.
  predicate IsShare(outputs: seq<Row>, chip: nat, oi: nat, ii: nat, remembered: bv32, part: bv32)
    requires |outputs| == NUM_OUTPUTS && chip < 4 && oi < 8 && ii < 16
  {
    part == InLane(NextByte(outputs, chip, oi, ii, ByteOf(remembered, chip)), chip)
  }

  ghost function Added(outputs: seq<Row>, c: nat, oi: nat, ii: nat): set<Point>
    requires |outputs| == NUM_OUTPUTS && c < 4 && oi < 8 && ii < 16
  {
    var p := Candidate(c, oi, ii);
    if Bit(outputs[p.output], p.input) then {p} else {}
  }

  lemma CandidateChip(c: nat, oi: nat, ii: nat)
    requires c < 4 && oi < 8 && ii < 16
    ensures var p := Candidate(c, oi, ii);
            && p.input < NUM_INPUTS && p.output < NUM_OUTPUTS && ChipOf(p) == c
            && p.input % 16 == ii && p.output % 8 == oi
  {
  }

  lemma ZeroByte(chip: nat)
    requires chip < 4
    ensures !Connects(0) && Addressed(chip, 0) == Candidate(chip, 0, 0)
  {
  }

  lemma WordIsNotZero(x: bv8, y: bv8)
    ensures ChipCmdWord(x, y, true) != 0
  {
  }

  // One strobe connects the wanted candidate or nothing, and its byte is harmless afterwards.
  lemma StrobeAdds(outputs: seq<Row>, s: set<Point>, c: nat, oi: nat, ii: nat, remembered: bv8)
    requires |outputs| == NUM_OUTPUTS && c < 4 && oi < 8 && ii < 16 && Harmless(s, c, remembered)
    ensures var b := NextByte(outputs, c, oi, ii, remembered);
            Strobe(s, c, b) == s + Added(outputs, c, oi, ii) && Harmless(s + Added(outputs, c, oi, ii), c, b)
  {
    hide ConnectWord, Connects, Addressed;
    var p := Candidate(c, oi, ii);
    CandidateChip(c, oi, ii);
    WordAddresses(p);
    WordIsNotZero(p.input as bv8, p.output as bv8);
    ZeroByte(c);
    if Bit(outputs[p.output], p.input) {
      assert Strobe(s, c, ConnectWord(p.input, p.output)) == s + {p};
    } else {
      assert s + {} == s;
      assert remembered == 0 ==> Candidate(c, 0, 0) !in s;
      assert Strobe(s, c, remembered) == s;
    }
  }

  // Points on other chips do not matter.
  lemma StillHarmless(outputs: seq<Row>, s: set<Point>, c: nat, b: bv8, d: nat, oi: nat, ii: nat)
    requires |outputs| == NUM_OUTPUTS && c < 4 && d < 4 && c != d && oi < 8 && ii < 16 && Harmless(s, c, b)
    ensures Harmless(s + Added(outputs, d, oi, ii), c, b)
  {
    hide Connects, Addressed;
    CandidateChip(d, oi, ii);
    forall x, y | 0 <= x < 16 && 0 <= y < 8 ensures Candidate(c, y, x) != Candidate(d, oi, ii) {
      CandidateChip(c, y, x);
    }
  }

  ghost predicate AllHarmless(s: set<Point>, command: bv32) {
    forall c | 0 <= c < 4 :: Harmless(s, c, ByteOf(command, c))
  }

  ghost function TurnAdds(outputs: seq<Row>, oi: nat, ii: nat): set<Point>
    requires |outputs| == NUM_OUTPUTS && oi < 8 && ii < 16
  {
    Added(outputs, 0, oi, ii) + Added(outputs, 1, oi, ii) + Added(outputs, 2, oi, ii) + Added(outputs, 3, oi, ii)
  }

  // Three additions on other chips leave a byte harmless.
  lemma HarmlessAcross(outputs: seq<Row>, s: set<Point>, c: nat, b: bv8, d: seq<nat>, oi: nat, ii: nat)
    requires |outputs| == NUM_OUTPUTS && c < 4 && oi < 8 && ii < 16 && Harmless(s, c, b)
    requires |d| == 3 && d[0] < 4 && d[1] < 4 && d[2] < 4 && c !in d
    ensures Harmless(s + Added(outputs, d[0], oi, ii), c, b)
    ensures Harmless(s + Added(outputs, d[0], oi, ii) + Added(outputs, d[1], oi, ii), c, b)
    ensures Harmless(s + Added(outputs, d[0], oi, ii) + Added(outputs, d[1], oi, ii)
                     + Added(outputs, d[2], oi, ii), c, b)
  {
    hide Harmless, Added;
    StillHarmless(outputs, s, c, b, d[0], oi, ii);
    StillHarmless(outputs, s + Added(outputs, d[0], oi, ii), c, b, d[1], oi, ii);
    StillHarmless(outputs, s + Added(outputs, d[0], oi, ii) + Added(outputs, d[1], oi, ii), c, b, d[2], oi, ii);
  }

  /** One sync with the turn's command adds exactly the turn's wanted points. */
  lemma SyncAdds(outputs: seq<Row>, s: set<Point>, remembered: bv32, command: bv32, oi: nat, ii: nat)
    requires |outputs| == NUM_OUTPUTS && oi < 8 && ii < 16 && AllHarmless(s, remembered)
    requires Assembled(outputs, oi, ii, remembered, command)
    ensures Sync(s, command) == s + TurnAdds(outputs, oi, ii)
    ensures AllHarmless(s + TurnAdds(outputs, oi, ii), command)
  {
    hide Harmless, Added, NextByte, Strobe, ByteOf;
    var a0, a1 := Added(outputs, 0, oi, ii), Added(outputs, 1, oi, ii);
    var a2, a3 := Added(outputs, 2, oi, ii), Added(outputs, 3, oi, ii);
    HarmlessAcross(outputs, s, 1, ByteOf(remembered, 1), [0, 2, 3], oi, ii);
    HarmlessAcross(outputs, s, 2, ByteOf(remembered, 2), [0, 1, 3], oi, ii);
    HarmlessAcross(outputs, s, 3, ByteOf(remembered, 3), [0, 1, 2], oi, ii);
    StrobeAdds(outputs, s, 0, oi, ii, ByteOf(remembered, 0));
    StrobeAdds(outputs, s + a0, 1, oi, ii, ByteOf(remembered, 1));
    StrobeAdds(outputs, s + a0 + a1, 2, oi, ii, ByteOf(remembered, 2));
    StrobeAdds(outputs, s + a0 + a1 + a2, 3, oi, ii, ByteOf(remembered, 3));
    StillHarmless(outputs, s + a0, 0, ByteOf(command, 0), 1, oi, ii);
    StillHarmless(outputs, s + a0 + a1, 0, ByteOf(command, 0), 2, oi, ii);
    StillHarmless(outputs, s + a0 + a1 + a2, 0, ByteOf(command, 0), 3, oi, ii);
    StillHarmless(outputs, s + a0 + a1, 1, ByteOf(command, 1), 2, oi, ii);
    StillHarmless(outputs, s + a0 + a1 + a2, 1, ByteOf(command, 1), 3, oi, ii);
    StillHarmless(outputs, s + a0 + a1 + a2, 2, ByteOf(command, 2), 3, oi, ii);
    assert s + a0 + a1 + a2 + a3 == s + TurnAdds(outputs, oi, ii);
  }

  lemma AddedIsDone(outputs: seq<Row>, c: nat, oi: nat, ii: nat)
    requires |outputs| == NUM_OUTPUTS && c < 4 && oi < 8 && ii < 16
    ensures Added(outputs, c, oi, ii) <= Done(outputs, oi, ii + 1)
  {
    CandidateChip(c, oi, ii);
  }

  lemma AddedInTurn(outputs: seq<Row>, c: nat, oi: nat, ii: nat)
    requires |outputs| == NUM_OUTPUTS && c < 4 && oi < 8 && ii < 16
    ensures Added(outputs, c, oi, ii) <= TurnAdds(outputs, oi, ii)
  {
    hide Added;
    assert c == 0 || c == 1 || c == 2 || c == 3;
  }

  lemma NewlyDoneIsAdded(outputs: seq<Row>, oi: nat, ii: nat, p: Point)
    requires |outputs| == NUM_OUTPUTS && oi < 8 && ii < 16
    requires p in Done(outputs, oi, ii + 1) && p !in Done(outputs, oi, ii)
    ensures p in TurnAdds(outputs, oi, ii)
  {
    hide ChipOf, Requested, TurnAdds;
    assert p.output % 8 == oi && p.input % 16 == ii;
    ChipCoordinates(p);
    assert p == Candidate(ChipOf(p), oi, ii);
    AddedInTurn(outputs, ChipOf(p), oi, ii);
  }

  lemma DoneTurn(outputs: seq<Row>, oi: nat, ii: nat)
    requires |outputs| == NUM_OUTPUTS && oi < 8 && ii < 16
    ensures Done(outputs, oi, ii + 1) == Done(outputs, oi, ii) + TurnAdds(outputs, oi, ii)
    ensures TurnAdds(outputs, oi, ii) <= Requested(outputs)
  {
    hide Added, Requested;
    forall c: nat | c < 4 ensures Added(outputs, c, oi, ii) <= Done(outputs, oi, ii + 1) {
      AddedIsDone(outputs, c, oi, ii);
    }
    forall p | p in Done(outputs, oi, ii + 1) && p !in Done(outputs, oi, ii) ensures p in TurnAdds(outputs, oi, ii) {
      NewlyDoneIsAdded(outputs, oi, ii, p);
    }
  }

  lemma DoneRow(outputs: seq<Row>, oi: nat)
    requires |outputs| == NUM_OUTPUTS && oi < 8
    ensures Done(outputs, oi + 1, 0) == Done(outputs, oi, 16)
    ensures outputs[oi] == {} && outputs[oi + 8] == {} ==> Done(outputs, oi + 1, 0) == Done(outputs, oi, 0)
  {
    if outputs[oi] == {} && outputs[oi + 8] == {} {
      assert forall p | p in Requested(outputs) :: p.output != oi && p.output != oi + 8;
    }
  }

  lemma NextByteOf(outputs: seq<Row>, c: nat, oi: nat, ii: nat, remembered: bv8, input: nat, output: nat)
    requires |outputs| == NUM_OUTPUTS && c < 4 && oi < 8 && ii < 16
    requires input < NUM_INPUTS && output < NUM_OUTPUTS && Candidate(c, oi, ii) == Point(input, output)
    ensures NextByte(outputs, c, oi, ii, remembered) ==
            if Bit(outputs[output], input) then ConnectWord(input, output) else remembered
  {
  }

  lemma NothingToAdd(outputs: seq<Row>, oi: nat, ii: nat)
    requires |outputs| == NUM_OUTPUTS && oi < 8 && ii < 16
    requires !Bit(outputs[oi], ii) && !Bit(outputs[oi], ii + 16) && !Bit(outputs[oi + 8], ii)
             && !Bit(outputs[oi + 8], ii + 16)
    ensures TurnAdds(outputs, oi, ii) == {}
  {
  }

  // One chip's share of the command: a fresh command word, or what the register held before.
  method ChipShare(outputs: seq<Row>, chip: nat, input: nat, output: nat, remembered: bv32, ghost oi: nat,
                   ghost ii: nat)
    returns (part: bv32, fresh': bool)
    requires |outputs| == NUM_OUTPUTS && chip < 4 && oi < 8 && ii < 16
    requires input < NUM_INPUTS && output < NUM_OUTPUTS && Candidate(chip, oi, ii) == Point(input, output)
    ensures IsShare(outputs, chip, oi, ii, remembered, part)
    ensures fresh' == Bit(outputs[output], input)
  {
    hide ConnectWord, ByteOf, NextByte, InLane, Masked;
    NextByteOf(outputs, chip, oi, ii, ByteOf(remembered, chip), input, output);
    MaskedLanes(remembered);
    fresh' := Bit(outputs[output], input);
    if fresh' {
      part := InLane(ConnectWord(input, output), chip);
    } else {
      part := Masked(remembered, chip);
    }
  }

  lemma BytesOfShares(outputs: seq<Row>, oi: nat, ii: nat, remembered: bv32, p0: bv32, p1: bv32, p2: bv32, p3: bv32)
    requires |outputs| == NUM_OUTPUTS && oi < 8 && ii < 16
    requires IsShare(outputs, 0, oi, ii, remembered, p0) && IsShare(outputs, 1, oi, ii, remembered, p1)
    requires IsShare(outputs, 2, oi, ii, remembered, p2) && IsShare(outputs, 3, oi, ii, remembered, p3)
    ensures Assembled(outputs, oi, ii, remembered, Joined(p0, p1, p2, p3))
  {
    hide ByteOf, NextByte, InLane, Joined;
    LaneBytes(p0, p1, p2, p3, seq(4, c requires 0 <= c < 4 => NextByte(outputs, c, oi, ii, ByteOf(remembered, c))));
  }

  lemma Candidates(oi: nat, ii: nat)
    ensures Candidate(0, oi, ii) == Point(ii, oi) && Candidate(1, oi, ii) == Point(ii + 16, oi)
    ensures Candidate(2, oi, ii) == Point(ii, oi + 8) && Candidate(3, oi, ii) == Point(ii + 16, oi + 8)
  {
  }

  // The command's bytes from the lowest: inputs 0 to 15 and 16 to 31 of the lower output, then the same
  // of the upper output; a byte that is not asked for is the one sent before.
  predicate CommandBytes(outputs: seq<Row>, oi: nat, ii: nat, remembered: bv32, command: bv32)
    requires |outputs| == 16 && oi < 8 && ii < 16
  {
    && (command & 0xFF) as bv8 == (if ii in outputs[oi] then ConnectWord(ii, oi) else (remembered & 0xFF) as bv8)
    && ((command >> 8) & 0xFF) as bv8 ==
       (if ii + 16 in outputs[oi] then ConnectWord(ii + 16, oi) else ((remembered >> 8) & 0xFF) as bv8)
    && ((command >> 16) & 0xFF) as bv8 ==
       (if ii in outputs[oi + 8] then ConnectWord(ii, oi + 8) else ((remembered >> 16) & 0xFF) as bv8)
    && ((command >> 24) & 0xFF) as bv8 ==
       (if ii + 16 in outputs[oi + 8] then ConnectWord(ii + 16, oi + 8) else ((remembered >> 24) & 0xFF) as bv8)
  }

  lemma AssembledBytes(outputs: seq<Row>, oi: nat, ii: nat, remembered: bv32, command: bv32)
    requires |outputs| == NUM_OUTPUTS && oi < 8 && ii < 16 && Assembled(outputs, oi, ii, remembered, command)
    ensures CommandBytes(outputs, oi, ii, remembered, command)
  {
    hide ConnectWord;
    Candidates(oi, ii);
    assert ByteOf(command, 0) == NextByte(outputs, 0, oi, ii, ByteOf(remembered, 0));
    assert ByteOf(command, 1) == NextByte(outputs, 1, oi, ii, ByteOf(remembered, 1));
    assert ByteOf(command, 2) == NextByte(outputs, 2, oi, ii, ByteOf(remembered, 2));
    assert ByteOf(command, 3) == NextByte(outputs, 3, oi, ii, ByteOf(remembered, 3));
  }

  // The source's assembly by masking and or-ing gives every chip its byte.
  method AssembleCommand(outputs: seq<Row>, oi: nat, ii: nat, remembered: bv32)
      returns (command: bv32, actualData: bool)
    requires |outputs| == NUM_OUTPUTS && oi < 8 && ii < 16
    ensures Assembled(outputs, oi, ii, remembered, command) && CommandBytes(outputs, oi, ii, remembered, command)
    ensures !actualData ==> TurnAdds(outputs, oi, ii) == {}
  {
    hide IsShare, Assembled, Joined, TurnAdds, Bit, Candidate, CommandBytes;
    Candidates(oi, ii);
    var part0, new0 := ChipShare(outputs, 0, ii, oi, remembered, oi, ii);
    var part1, new1 := ChipShare(outputs, 1, ii + 16, oi, remembered, oi, ii);
    var part2, new2 := ChipShare(outputs, 2, ii, oi + 8, remembered, oi, ii);
    var part3, new3 := ChipShare(outputs, 3, ii + 16, oi + 8, remembered, oi, ii);
    command := Joined(part0, part1, part2, part3);
    BytesOfShares(outputs, oi, ii, remembered, part0, part1, part2, part3);
    AssembledBytes(outputs, oi, ii, remembered, command);
    actualData := new0 || new1 || new2 || new3;
    if !actualData { NothingToAdd(outputs, oi, ii); }
  }

  /** Programs the matrix from reset.  `acks` are the outcomes of the register transfers; transfers
      past its end succeed.  At no time is a point connected that was not asked for. */
  method WriteOutputs(device: Device, outputs: seq<Row>, acks: seq<bool>) returns (ok: bool)
    requires |outputs| == NUM_OUTPUTS
    modifies device
    ensures ok ==> device.connected == Requested(outputs)
    ensures forall s | s in device.history :: s <= Requested(outputs)
    ensures device.connected in device.history
    ensures (forall a | a in acks :: a) ==> ok
    ensures var n := |device.history| - 1;
            && (forall k | 0 <= k < n && k < |acks| :: acks[k])
            && (!ok ==> 0 <= n < |acks| && !acks[n])
  {
    hide Assembled, ByteOf, Requested, Sync, TurnAdds, Harmless, AllHarmless;
    device.Reset();
    var remembered: bv32 := 0;
    var sent := 0;
    NothingDone(outputs);
    for oi := 0 to NUM_OUTPUTS / 2
      invariant device.connected == Done(outputs, oi, 0) && AllHarmless(device.connected, remembered)
      invariant forall s | s in device.history :: s <= Requested(outputs)
      invariant device.connected in device.history && |device.history| == sent + 1
      invariant forall k | 0 <= k < sent && k < |acks| :: acks[k]
    {
      DoneRow(outputs, oi);
      if outputs[oi] == {} && outputs[oi + 8] == {} { continue; }
      for ii := 0 to NUM_INPUTS / 2
        invariant device.connected == Done(outputs, oi, ii) && AllHarmless(device.connected, remembered)
        invariant forall s | s in device.history :: s <= Requested(outputs)
        invariant device.connected in device.history && |device.history| == sent + 1
        invariant forall k | 0 <= k < sent && k < |acks| :: acks[k]
      {
        var command, actualData := AssembleCommand(outputs, oi, ii, remembered);
        DoneTurn(outputs, oi, ii);
        SyncAdds(outputs, device.connected, remembered, command, oi, ii);
        if actualData {
          remembered := command;
          if sent < |acks| && !acks[sent] {
            assert acks[sent] in acks;
            return false;
          }
          sent := sent + 1;
          device.Transfer32(command);
          device.Trigger();
        }
      }
    }
    AllDone(outputs);
    return true;
  }

  lemma NothingDone(outputs: seq<Row>)
    requires |outputs| == NUM_OUTPUTS
    ensures Done(outputs, 0, 0) == {} && AllHarmless({}, 0)
  {
    forall c: nat | c < 4 ensures ByteOf(0, c) == 0 { }
  }

  lemma AllDone(outputs: seq<Row>)
    requires |outputs| == NUM_OUTPUTS
    ensures Done(outputs, 8, 0) == Requested(outputs)
  {
  }
}
