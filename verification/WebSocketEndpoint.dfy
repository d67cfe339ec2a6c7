/** The WebSocket endpoints: the client's sending modes, the receiver that puts fragmented messages
    together, and what both do when connected. */
module WebSocketEndpoint {
  import opened WebSocketFrames

  datatype MessageType = Empty | Text | Binary | Ping | Pong | Close
  datatype MessageRole = Complete | First | Continuation | Last
  datatype Message = Message(ty: MessageType, data: seq<Byte>, role: MessageRole)
  datatype FragmentsPolicy = Aggregate | Notify

  const NoMessage := Message(Empty, [], Complete)

  const OPCODE_CONTINUATION: nat := 0
  const OPCODE_TEXT: nat := 1
  const OPCODE_BINARY: nat := 2
  const OPCODE_CLOSE: nat := 8
  const OPCODE_PING: nat := 9
  const OPCODE_PONG: nat := 10

  const CLOSE_NONE: int := -1
  const CLOSE_GOING_AWAY: int := 1001
  const CLOSE_PROTOCOL_ERROR: int := 1002

  function MessageTypeFromOpcode(opcode: nat): MessageType {
    if opcode == OPCODE_BINARY then Binary else if opcode == OPCODE_TEXT then Text
    else if opcode == OPCODE_PING then Ping else if opcode == OPCODE_PONG then Pong
    else if opcode == OPCODE_CLOSE then Close else Empty
  }

  predicate IsControlFrame(f: Frame) {
    f.fin && (f.opcode == OPCODE_CLOSE || f.opcode == OPCODE_PING || f.opcode == OPCODE_PONG)
  }

  predicate IsEmpty(f: Frame) { !f.fin && f.opcode == 0 && |f.payload| == 0 }
  predicate IsBeginningOfFragmentsStream(f: Frame) { !f.fin && f.opcode != 0 }
  predicate IsContinuesFragment(f: Frame) { !f.fin && f.opcode == 0 }
  predicate IsEndOfFragmentsStream(f: Frame) { f.fin && f.opcode == 0 }
  predicate IsNormalUnfragmentedMessage(f: Frame) { f.fin && f.opcode != 0 }

  function CreateFromFrame(f: Frame): Message {
    Message(MessageTypeFromOpcode(f.opcode), f.payload,
            if IsNormalUnfragmentedMessage(f) then Complete
            else if IsBeginningOfFragmentsStream(f) then First
            else if IsContinuesFragment(f) then Continuation
            else Last)
  }

  // ---------------------------------------------------------------- the intended receiver

  // What has been put together so far.
  datatype Assembly =
    | NoStream
    | Collecting(ty: MessageType, content: seq<Byte>)
    | Bad
    | Done(ty: MessageType, content: seq<Byte>)

  datatype Rx = Rx(streaming: bool, assembly: Assembly)
  {
    // An errored assembly is never taken up again.
    predicate Valid() {
      assembly.Bad? || if streaming then assembly.Collecting? else assembly.NoStream?
    }
  }

  const Start := Rx(false, NoStream)

  // What the endpoint does about a message or an error by itself.
  datatype Reaction = Quiet | PongWith(data: seq<Byte>) | CloseWith(reason: int)

  datatype Outcome = Outcome(next: Rx, message: Message, reaction: Reaction)

  function GetCloseReason(code: int): int {
    if code in {1000, 1001, 1002, 1003, 1005, 1006, 1007, 1008, 1009, 1011} then code else CLOSE_NONE
  }

  function ReactionTo(m: Message): Reaction {
    if m.ty == Ping then (if |m.data| <= 125 then PongWith(m.data) else Quiet)
    else if m.ty == Close then CloseWith(if |m.data| >= 2 then GetCloseReason(FromBigEndian(m.data[..2]))
                                         else CLOSE_GOING_AWAY)
    else Quiet
  }

  function ReplyTo(r: Reaction, mask: bool): seq<Frame> {
    match r
    case Quiet => []
    case PongWith(data) => [Frame(true, OPCODE_PONG, mask, data)]
    case CloseWith(code) => [Frame(true, OPCODE_CLOSE, mask, if code < 0 then [] else BigEndian(code, 2))]
  }

  function Partial(policy: FragmentsPolicy, m: Message): Message { if policy == Notify then m else NoMessage }

  function Kept(policy: FragmentsPolicy, data: seq<Byte>): seq<Byte> { if policy == Notify then [] else data }

  // The reaction to one frame.
  function Receive(rx: Rx, policy: FragmentsPolicy, f: Frame): Outcome {
    var ty := MessageTypeFromOpcode(f.opcode);
    if IsEmpty(f) then Outcome(rx, NoMessage, Quiet)
    else if IsControlFrame(f) || (!rx.streaming && IsNormalUnfragmentedMessage(f)) then
      var m := Message(ty, f.payload, Complete);
      Outcome(rx, m, ReactionTo(m))
    else if IsBeginningOfFragmentsStream(f) && rx.assembly.NoStream? then
      Outcome(Rx(true, if ty == Empty then Bad else Collecting(ty, Kept(policy, f.payload))),
              Partial(policy, Message(ty, f.payload, First)), Quiet)
    else if IsContinuesFragment(f) && rx.streaming && rx.assembly.Collecting? then
      Outcome(Rx(true, Collecting(rx.assembly.ty, rx.assembly.content + Kept(policy, f.payload))),
              Partial(policy, Message(rx.assembly.ty, f.payload, Continuation)), Quiet)
    else if IsEndOfFragmentsStream(f) && rx.streaming && rx.assembly.Collecting? then
      var m := Message(rx.assembly.ty, rx.assembly.content + f.payload, Complete);
      if policy == Notify then Outcome(Start, Message(rx.assembly.ty, f.payload, Last), Quiet)
      else Outcome(Start, m, ReactionTo(m))
    else
      // A protocol error.  The mode follows the frame, a started assembly stays.
      Outcome(Rx(if IsBeginningOfFragmentsStream(f) then true else if IsEndOfFragmentsStream(f) then false
                 else rx.streaming,
                 rx.assembly),
              NoMessage, CloseWith(CLOSE_PROTOCOL_ERROR))
  }

  /** What the first octet of a received frame means, with the numbers of section 5.2 of RFC 6455. */
  lemma DeliveredByFirstOctet(s: seq<Byte>, rx: Rx, policy: FragmentsPolicy)
    requires Parse(s).Some?
    ensures var f := Parse(s).value.frame; var o := Receive(rx, policy, f);
            && (s[0] == 0x88 ==> o.message == Message(Close, f.payload, Complete) && o.reaction.CloseWith?)
            && (s[0] == 0x89 ==> o.message == Message(Ping, f.payload, Complete))
            && (s[0] == 0x8A ==> o.message == Message(Pong, f.payload, Complete) && o.reaction == Quiet)
            && (s[0] == 0x81 ==> if rx.streaming then o.message == NoMessage && o.reaction == CloseWith(1002)
                                 else o.message == Message(Text, f.payload, Complete) && o.reaction == Quiet)
            && (s[0] == 0x82 ==> if rx.streaming then o.message == NoMessage && o.reaction == CloseWith(1002)
                                 else o.message == Message(Binary, f.payload, Complete) && o.reaction == Quiet)
            && (s[0] == 0x01 && rx == Start ==> o.next == Rx(true, Collecting(Text, Kept(policy, f.payload))))
            && (s[0] == 0x02 && rx == Start ==> o.next == Rx(true, Collecting(Binary, Kept(policy, f.payload))))
            && (s[0] == 0x80 && rx.streaming && rx.assembly.Collecting? && policy == Aggregate ==>
                  o.next == Start && o.message == Message(rx.assembly.ty, rx.assembly.content + f.payload, Complete))
            && (1 <= s[0] <= 2 && !rx.assembly.NoStream? ==>
                  o == Outcome(Rx(true, rx.assembly), NoMessage, CloseWith(1002)))
            && (s[0] == 0x80 && (!rx.streaming || !rx.assembly.Collecting?) ==>
                  o == Outcome(Rx(false, rx.assembly), NoMessage, CloseWith(1002)))
  {
    hide LengthOf, Masked, FromBigEndian;
  }

  /** What goes back for a message: a ping of at most 125 octets comes back as a pong with the same
      octets; a close is answered by a close with the same reason if it is a known one, with 1001 if it
      has none, and without a reason otherwise. */
  lemma RepliesInOctets(m: Message, mask: bool)
    ensures var fs := ReplyTo(ReactionTo(m), mask);
            && (m.ty == Ping ==> fs == if |m.data| <= 125 then [Frame(true, 10, mask, m.data)] else [])
            && (m.ty == Close ==>
                  |fs| == 1 && fs[0].fin && fs[0].opcode == 8 && fs[0].mask == mask &&
                  if |m.data| < 2 then fs[0].payload == [3, 233]
                  else
                    var code := Pair(m.data[0], m.data[1]);
                    fs[0].payload == if 1000 <= code <= 1003 || 1005 <= code <= 1009 || code == 1011 then m.data[..2]
                                     else [])
            && (m.ty != Ping && m.ty != Close ==> fs == [])
    ensures ReplyTo(CloseWith(CLOSE_PROTOCOL_ERROR), mask) == [Frame(true, 8, mask, [3, 234])]
  {
    hide BigEndian, FromBigEndian;
    TwoOctets(1001);
    TwoOctets(1002);
    if m.ty == Close && |m.data| >= 2 {
      ReasonOctets(m.data[0], m.data[1]);
      assert m.data[..2] == [m.data[0], m.data[1]];
    }
  }

  lemma ReasonOctets(a: Byte, b: Byte)
    ensures FromBigEndian([a, b]) == Pair(a, b) && BigEndian(Pair(a, b), 2) == [a, b]
  {
    hide BigEndian, Pair;
    PairSplits(a, b);
    TwoOctets(Pair(a, b));
    assert [a, b][..1] == [a] && [a][..0] == [];
    assert FromBigEndian([]) == 0 && FromBigEndian([a]) == a;
  }

  // ---------------------------------------------------------------- the stream builder

  class StreamBuilder {
    const dummyMode: bool
    var empty: bool
    var isComplete: bool
    var content: seq<Byte>
    var ty: MessageType
    var didErrored: bool

    // The type and the error flag are left uninitialised.
    constructor (dummyMode: bool)
      ensures State() == NoStream && this.dummyMode == dummyMode && content == []
    {
      this.dummyMode := dummyMode;
      empty, isComplete, content := true, false, [];
      ty, didErrored := *, *;
    }

    function State(): Assembly
      reads this
    {
      if empty then NoStream else if didErrored then Bad
      else if isComplete then Done(ty, content) else Collecting(ty, content)
    }

    method BadFragment()
      modifies this`didErrored, this`isComplete
      ensures didErrored && State() == if empty then NoStream else Bad
    {
      didErrored := true;
      isComplete := false;
    }

    method First(f: Frame)
      modifies this
      ensures !empty && (dummyMode ==> content == old(content))
      ensures var ty := MessageTypeFromOpcode(f.opcode);
              State() == if old(State()).NoStream? && IsBeginningOfFragmentsStream(f) && ty != Empty
                         then Collecting(ty, if dummyMode then old(content) else f.payload)
                         else Bad
      ensures old(State()).NoStream? && IsBeginningOfFragmentsStream(f) ==> ty == MessageTypeFromOpcode(f.opcode)
    {
      if !empty {
        BadFragment();
        return;
      }
      empty := false;
      if IsBeginningOfFragmentsStream(f) {
        isComplete, didErrored := false, false;
        if !dummyMode { content := f.payload; }
        ty := MessageTypeFromOpcode(f.opcode);
        if ty == Empty { BadFragment(); }
      } else {
        didErrored := true;
      }
    }

    /** On a builder that has seen no first frame this ends in an error whatever the uninitialised
        flag holds. */
    method Append(f: Frame)
      modifies this
      ensures ty == old(ty) && (dummyMode ==> content == old(content))
      ensures State() == match old(State())
                         case Collecting(t, c) =>
                           if IsContinuesFragment(f) then Collecting(t, if dummyMode then c else c + f.payload) else Bad
                         case NoStream => NoStream
                         case _ => Bad
      ensures didErrored <==> !State().Collecting?
    {
      if didErrored { return; }
      if empty || isComplete {
        BadFragment();
        return;
      }
      if IsContinuesFragment(f) {
        if !dummyMode { content := content + f.payload; }
      } else {
        BadFragment();
      }
    }

    method End(f: Frame)
      modifies this
      ensures ty == old(ty) && (dummyMode ==> content == old(content))
      ensures State() == match old(State())
                         case Collecting(t, c) =>
                           if IsEndOfFragmentsStream(f) then Done(t, if dummyMode then c else c + f.payload) else Bad
                         case NoStream => NoStream
                         case _ => Bad
      ensures didErrored <==> !State().Done?
    {
      if didErrored { return; }
      if empty || isComplete {
        BadFragment();
        return;
      }
      if IsEndOfFragmentsStream(f) {
        if !dummyMode { content := content + f.payload; }
        isComplete := true;
      } else {
        BadFragment();
      }
    }

    method Build() returns (m: Message)
      ensures m == Message(ty, content, Complete)
    {
      return Message(ty, content, Complete);
    }
  }

  // ---------------------------------------------------------------- the receiving endpoint

  class Endpoint {
    const policy: FragmentsPolicy
    const useMasking: bool
    var streaming: bool
    var builder: StreamBuilder
    var closeReason: int
    var replies: seq<Frame>  // what it sent by itself
    var stopped: bool        // it closed the socket

    constructor (policy: FragmentsPolicy, useMasking: bool)
      ensures fresh(builder) && Valid() && State() == Start && this.policy == policy && this.useMasking == useMasking
      ensures replies == [] && !stopped && closeReason == CLOSE_NONE
    {
      this.policy, this.useMasking := policy, useMasking;
      streaming, closeReason, replies, stopped := false, CLOSE_NONE, [], false;
      builder := new StreamBuilder(policy == Notify);
    }

    function State(): Rx
      reads this, builder
    {
      Rx(streaming, builder.State())
    }

    predicate Valid()
      reads this, builder
    {
      State().Valid() && builder.dummyMode == (policy == Notify) && (policy == Notify ==> builder.content == [])
    }

    // Replies go out as long as the socket has not been closed.
    ghost predicate Reacted(reaction: Reaction, replied: seq<Frame>, reason: int, wasStopped: bool)
      reads this
    {
      && replies == replied + (if wasStopped then [] else ReplyTo(reaction, useMasking))
      && closeReason == (if reaction.CloseWith? then reaction.reason else reason)
      && stopped == (wasStopped || reaction.CloseWith?)
    }

    method CloseConnection(reason: int)
      requires reason == CLOSE_NONE || 0 <= reason < 0x1_0000
      modifies this`closeReason, this`replies, this`stopped
      ensures Reacted(CloseWith(reason), old(replies), old(closeReason), old(stopped))
      ensures stopped && (old(stopped) ==> replies == old(replies))
    {
      hide LittleEndian, BigEndian, SwapEndianess16;
      closeReason := reason;
      if stopped { return; }
      if reason == CLOSE_NONE {
        replies := replies + [Frame(true, OPCODE_CLOSE, useMasking, [])];
      } else {
        Swap16Exact(reason);
        var reasonNum := SwapEndianess16(reason);
        replies := replies + [Frame(true, OPCODE_CLOSE, useMasking, LittleEndian(reasonNum, 2))];
      }
      stopped := true;
    }

    method HandleMessageInternally(m: Message)
      modifies this`closeReason, this`replies, this`stopped
      ensures Reacted(ReactionTo(m), old(replies), old(closeReason), old(stopped))
      ensures old(stopped) ==> stopped && replies == old(replies)
    {
      hide FromLittleEndian, FromBigEndian, SwapEndianess16, BigEndian;
      if m.ty == Ping {
        if |m.data| <= 125 && !stopped { replies := replies + [Frame(true, OPCODE_PONG, useMasking, m.data)]; }
      } else if m.ty == Close {
        if |m.data| >= 2 {
          SwapReads(m.data[..2]);
          var reason := SwapEndianess16(FromLittleEndian(m.data[..2]));
          CloseConnection(GetCloseReason(reason));
        } else {
          CloseConnection(CLOSE_GOING_AWAY);
        }
      }
    }

    method HandleFrameInStreamingMode(f: Frame) returns (m: Message)
      requires Valid() && !IsEmpty(f)
      requires streaming || IsBeginningOfFragmentsStream(f)
      modifies this`streaming, this`builder, this`closeReason, this`replies, this`stopped, builder
      ensures Valid() && (builder == old(builder) || fresh(builder))
      ensures var outcome := Receive(old(State()), policy, f);
              && State() == outcome.next && m == outcome.message
              && Reacted(outcome.reaction, old(replies), old(closeReason), old(stopped))
    {
      hide BigEndian, ReactionTo;
      if IsControlFrame(f) {
        m := CreateFromFrame(f);
        HandleMessageInternally(m);
        return;
      } else if IsBeginningOfFragmentsStream(f) {
        streaming := true;
        if builder.empty {
          builder.First(f);
          return if policy == Notify then Message(builder.ty, f.payload, First) else NoMessage;
        }
      } else if IsContinuesFragment(f) {
        builder.Append(f);
        if !builder.didErrored {
          return if policy == Notify then Message(builder.ty, f.payload, Continuation) else NoMessage;
        }
      } else if IsEndOfFragmentsStream(f) {
        streaming := false;
        builder.End(f);
        if !builder.didErrored {
          if policy == Aggregate {
            m := builder.Build();
            builder := new StreamBuilder(false);
            HandleMessageInternally(m);
            return;
          } else {
            var ty := builder.ty;
            builder := new StreamBuilder(true);
            return Message(ty, f.payload, Last);
          }
        }
      }
      CloseConnection(CLOSE_PROTOCOL_ERROR);
      return NoMessage;
    }

    method HandleFrameInStandardMode(f: Frame) returns (m: Message)
      requires Valid() && !IsEmpty(f) && !streaming
      modifies this`streaming, this`builder, this`closeReason, this`replies, this`stopped, builder
      ensures Valid() && (builder == old(builder) || fresh(builder))
      ensures var outcome := Receive(old(State()), policy, f);
              && State() == outcome.next && m == outcome.message
              && Reacted(outcome.reaction, old(replies), old(closeReason), old(stopped))
    {
      hide BigEndian, ReactionTo;
      if IsNormalUnfragmentedMessage(f) || IsControlFrame(f) {
        m := CreateFromFrame(f);
        HandleMessageInternally(m);
        return;
      } else if IsBeginningOfFragmentsStream(f) {
        m := HandleFrameInStreamingMode(f);
        return;
      }
      CloseConnection(CLOSE_PROTOCOL_ERROR);
      return NoMessage;
    }

    /** Takes one frame as the intended receiver does. */
    method HandleFrame(f: Frame) returns (m: Message)
      requires Valid()
      modifies this`streaming, this`builder, this`closeReason, this`replies, this`stopped, builder
      ensures Valid() && (builder == old(builder) || fresh(builder))
      ensures var outcome := Receive(old(State()), policy, f);
              && State() == outcome.next && m == outcome.message
              && Reacted(outcome.reaction, old(replies), old(closeReason), old(stopped))
      ensures old(stopped) ==> stopped && replies == old(replies)
      ensures f.fin && 8 <= f.opcode <= 10 ==>
                m == Message(if f.opcode == 8 then Close else if f.opcode == 9 then Ping else Pong, f.payload, Complete)
      ensures f.fin && 1 <= f.opcode <= 2 && !old(streaming) ==>
                m == Message(if f.opcode == 1 then Text else Binary, f.payload, Complete)
    {
      if IsEmpty(f) { return NoMessage; }
      if streaming { m := HandleFrameInStreamingMode(f); } else { m := HandleFrameInStandardMode(f); }
    }
  }
}
