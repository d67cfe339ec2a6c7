/** A whole conversation: what a client sends with its sending operations is what the other end's
    receiver makes of the bytes. */
module WebSocketConversation {
  import opened WebSocketFrames
  import opened Options
  import opened WebSocketEndpoint

  datatype Op =
    | Send(data: seq<Byte>)
    | SendBinary(data: seq<Byte>)
    | Stream(data: seq<Byte>)
    | StreamBinary(data: seq<Byte>)
    | End(data: seq<Byte>)
    | SendPing(data: seq<Byte>)
    | SendPong(data: seq<Byte>)

  // ---------------------------------------------------------------- what is meant

  // A streamed message on its way.
  datatype Pending = Idle | Open(ty: MessageType, content: seq<Byte>)

  datatype Effect = Effect(next: Pending, messages: seq<Message>)

  /** What an operation means to the application at the other end: ordinary sends are messages of
      their own, or further pieces of the streamed message; that one is complete at its end. */
  function Meaning(p: Pending, op: Op): Effect {
    match op
    case Send(d) => SendMeaning(p, Text, d)
    case SendBinary(d) => SendMeaning(p, Binary, d)
    case Stream(d) => Effect(if p.Idle? then Open(Text, d) else p, [])
    case StreamBinary(d) => Effect(if p.Idle? then Open(Binary, d) else p, [])
    case End(d) => if p.Idle? then Effect(p, []) else Effect(Idle, [Message(p.ty, p.content + d, Complete)])
    case SendPing(d) => Effect(p, if |d| <= 125 then [Message(Ping, d, Complete)] else [])
    case SendPong(d) => Effect(p, if |d| <= 125 then [Message(Pong, d, Complete)] else [])
  }

  function SendMeaning(p: Pending, ty: MessageType, d: seq<Byte>): Effect {
    if p.Idle? then Effect(p, [Message(ty, d, Complete)]) else Effect(Open(p.ty, p.content + d), [])
  }

  // The messages meant by operations, with p on its way when they begin.
  function Meant(p: Pending, ops: seq<Op>): seq<Message>
    decreases |ops|
  {
    if ops == [] then [] else
      var e := Meaning(p, ops[0]);
      e.messages + Meant(e.next, ops[1..])
  }

  // ---------------------------------------------------------------- the client

  class Client {
    const useMasking: bool
    var connectionOpen: bool
    var streaming: bool
    var wire: seq<Byte>          // what has gone out
    ghost var frames: seq<Frame> // the same as frames

    ghost predicate Valid()
      reads this
    {
      (forall f | f in frames :: f.Valid() && f.mask == useMasking) && wire == Bytes(frames)
    }

    constructor (useMasking: bool)
      ensures Valid() && this.useMasking == useMasking && connectionOpen && !streaming && frames == []
    {
      this.useMasking := useMasking;
      connectionOpen, streaming, wire, frames := true, false, [], [];
    }

    method Emit(data: seq<Byte>, opcode: nat, fin: bool) returns (ok: bool)
      requires Valid() && opcode < 16 && |data| < MAX_LENGTH
      modifies this`wire, this`frames
      ensures Valid() && ok && frames == old(frames) + [Frame(fin, opcode, useMasking, data)]
    {
      hide Sent;
      var message := WebSocketFrames.Send(data, opcode, fin, useMasking, DEFAULT_MASK);
      BytesOfLast(frames, Frame(fin, opcode, useMasking, data));
      wire := wire + message;
      frames := frames + [Frame(fin, opcode, useMasking, data)];
      return true;
    }

    // Text and binary data: a message, or a fragment while streaming.
    method SendData(data: seq<Byte>, opcode: nat) returns (ok: bool)
      requires Valid() && opcode < 16 && |data| < MAX_LENGTH
      modifies this`wire, this`frames
      ensures Valid() && ok == connectionOpen
      ensures frames == old(frames) + (if !ok then []
                                       else if streaming then [Frame(false, OPCODE_CONTINUATION, useMasking, data)]
                                       else [Frame(true, opcode, useMasking, data)])
    {
      if connectionOpen {
        if !streaming {
          ok := Emit(data, opcode, true);
          return;
        } else {
          ok := Emit(data, OPCODE_CONTINUATION, false);
          return;
        }
      }
      return false;
    }

    method StartStream(data: seq<Byte>, opcode: nat) returns (ok: bool)
      requires Valid() && opcode < 16 && |data| < MAX_LENGTH
      modifies this`wire, this`frames, this`streaming
      ensures Valid() && ok == (connectionOpen && !old(streaming)) && streaming == (ok || old(streaming))
      ensures frames == old(frames) + if ok then [Frame(false, opcode, useMasking, data)] else []
    {
      if connectionOpen && !streaming {
        streaming := true;
        ok := Emit(data, opcode, false);
        return;
      }
      return false;
    }

    method EndStream(data: seq<Byte>) returns (ok: bool)
      requires Valid() && |data| < MAX_LENGTH
      modifies this`wire, this`frames, this`streaming
      ensures Valid() && ok == (connectionOpen && old(streaming)) && streaming == (!ok && old(streaming))
      ensures frames == old(frames) + if ok then [Frame(true, OPCODE_CONTINUATION, useMasking, data)] else []
    {
      if connectionOpen && streaming {
        streaming := false;
        ok := Emit(data, OPCODE_CONTINUATION, true);
        return;
      }
      return false;
    }

    // Control frames carry at most 125 octets (section 5.5 of RFC 6455).
    method SendControl(data: seq<Byte>, opcode: nat) returns (ok: bool)
      requires Valid() && opcode < 16 && |data| < MAX_LENGTH
      modifies this`wire, this`frames
      ensures Valid() && ok == (connectionOpen && |data| <= 125)
      ensures frames == old(frames) + if ok then [Frame(true, opcode, useMasking, data)] else []
    {
      if connectionOpen {
        if |data| > 125 { return false; }
        ok := Emit(data, opcode, true);
        return;
      }
      return false;
    }

    /** One sending operation; what leaves starts with the octet that section 5.2 of RFC 6455 gives it. */
    method Perform(op: Op) returns (ok: bool)
      requires Valid() && |op.data| < MAX_LENGTH
      modifies this`wire, this`frames, this`streaming
      ensures Valid()
      ensures frames == old(frames) + if connectionOpen then FramesOf(old(streaming), useMasking, op) else []
      ensures streaming == if connectionOpen then StreamingAfter(old(streaming), op) else old(streaming)
      ensures old(wire) <= wire && (wire == old(wire) <==> !connectionOpen || FirstOctet(old(streaming), op) < 0)
      ensures wire != old(wire) ==>
                wire[|old(wire)|] == FirstOctet(old(streaming), op) && |wire| >= |old(wire)| + 2 + |op.data|
                && wire[|wire| - |op.data|..] == op.data
    {
      hide FramesOf, Bytes, FirstOctet, Sent;
      OperationOnWire(frames, streaming, useMasking, op);
      assert frames + [] == frames;
      ok := Dispatch(op);
    }

    method Dispatch(op: Op) returns (ok: bool)
      requires Valid() && |op.data| < MAX_LENGTH
      modifies this`wire, this`frames, this`streaming
      ensures Valid()
      ensures frames == old(frames) + if connectionOpen then FramesOf(old(streaming), useMasking, op) else []
      ensures streaming == if connectionOpen then StreamingAfter(old(streaming), op) else old(streaming)
    {
      match op {
        case Send(d) => ok := SendData(d, OPCODE_TEXT);
        case SendBinary(d) => ok := SendData(d, OPCODE_BINARY);
        case Stream(d) => ok := StartStream(d, OPCODE_TEXT);
        case StreamBinary(d) => ok := StartStream(d, OPCODE_BINARY);
        case End(d) => ok := EndStream(d);
        case SendPing(d) => ok := SendControl(d, OPCODE_PING);
        case SendPong(d) => ok := SendControl(d, OPCODE_PONG);
      }
    }
  }

  // The first octet of what an operation sends; negative if it sends nothing.
  function FirstOctet(streaming: bool, op: Op): int {
    match op
    case Send(_) => if streaming then 0x00 else 0x81
    case SendBinary(_) => if streaming then 0x00 else 0x82
    case Stream(_) => if streaming then -1 else 0x01
    case StreamBinary(_) => if streaming then -1 else 0x02
    case End(_) => if streaming then 0x80 else -1
    case SendPing(d) => if |d| <= 125 then 0x89 else -1
    case SendPong(d) => if |d| <= 125 then 0x8A else -1
  }

  lemma OperationOnWire(frames: seq<Frame>, streaming: bool, mask: bool, op: Op)
    requires (forall f | f in frames :: f.Valid()) && |op.data| < MAX_LENGTH
    ensures var fs := FramesOf(streaming, mask, op);
            && (fs == [] <==> FirstOctet(streaming, op) < 0) && |fs| <= 1
            && (fs == [] ==> frames + fs == frames)
            && (fs != [] ==>
                  fs[0].Valid() && var s := Sent(fs[0], DEFAULT_MASK);
                  && Bytes(frames + fs) == Bytes(frames) + s && |s| >= 2 + |op.data|
                  && s[0] == FirstOctet(streaming, op) && s[|s| - |op.data|..] == op.data)
  {
    hide Sent, Bytes;
    var fs := FramesOf(streaming, mask, op);
    if fs != [] {
      assert fs == [fs[0]];
      BytesOfLast(frames, fs[0]);
      SentOctets(fs[0]);
    }
  }

  lemma SentOctets(f: Frame)
    requires f.Valid()
    ensures var s := Sent(f, DEFAULT_MASK);
            && |s| >= 2 + |f.payload| && s[0] == f.opcode + (if f.fin then 0x80 else 0)
            && s[|s| - |f.payload|..] == f.payload
  {
    hide GetHeader, Masked;
    HeaderOctets(|f.payload|, f.opcode, f.fin, f.mask);
    ZeroMask(f.payload, DataStart(|f.payload|));
  }

  function Bytes(frames: seq<Frame>): seq<Byte>
    requires forall f | f in frames :: f.Valid()
  {
    if frames == [] then [] else (assert frames[0] in frames; Sent(frames[0], DEFAULT_MASK) + Bytes(frames[1..]))
  }

  lemma {:induction false} BytesOfLast(frames: seq<Frame>, f: Frame)
    requires f.Valid() && forall g | g in frames :: g.Valid()
    ensures Bytes(frames + [f]) == Bytes(frames) + Sent(f, DEFAULT_MASK)
  {
    hide Sent;
    if frames != [] {
      BytesOfLast(frames[1..], f);
      assert (frames + [f])[1..] == frames[1..] + [f];
    } else {
      assert ([] + [f])[1..] == [] && Bytes([f][1..]) == [];
    }
  }

  function StreamingAfter(streaming: bool, op: Op): bool {
    if op.Stream? || op.StreamBinary? then true else if op.End? then false else streaming
  }

  function FramesOf(streaming: bool, mask: bool, op: Op): seq<Frame> {
    match op
    case Send(d) => [if streaming then Frame(false, OPCODE_CONTINUATION, mask, d)
                     else Frame(true, OPCODE_TEXT, mask, d)]
    case SendBinary(d) => [if streaming then Frame(false, OPCODE_CONTINUATION, mask, d)
                           else Frame(true, OPCODE_BINARY, mask, d)]
    case Stream(d) => if streaming then [] else [Frame(false, OPCODE_TEXT, mask, d)]
    case StreamBinary(d) => if streaming then [] else [Frame(false, OPCODE_BINARY, mask, d)]
    case End(d) => if streaming then [Frame(true, OPCODE_CONTINUATION, mask, d)] else []
    case SendPing(d) => if |d| <= 125 then [Frame(true, OPCODE_PING, mask, d)] else []
    case SendPong(d) => if |d| <= 125 then [Frame(true, OPCODE_PONG, mask, d)] else []
  }

  // All frames that operations send.
  function AllFrames(streaming: bool, mask: bool, ops: seq<Op>): seq<Frame>
    decreases |ops|
  {
    if ops == [] then [] else
      FramesOf(streaming, mask, ops[0]) + AllFrames(StreamingAfter(streaming, ops[0]), mask, ops[1..])
  }

  // ---------------------------------------------------------------- the receiver over many frames

  // The receiver and whether its connection is still open.
  datatype Link = Link(rx: Rx, open: bool)

  const Connected := Link(Start, true)

  // A close, its own or the peer's, ends the connection, and nothing more is read.
  predicate Stops(o: Outcome) { o.reaction.CloseWith? || o.message.ty == Close }

  function Next(l: Link, policy: FragmentsPolicy, f: Frame): Link {
    var o := Receive(l.rx, policy, f);
    Link(o.next, !Stops(o))
  }

  function LinkAfter(l: Link, policy: FragmentsPolicy, frames: seq<Frame>): Link
    decreases |frames|
  {
    if frames == [] || !l.open then l else LinkAfter(Next(l, policy, frames[0]), policy, frames[1..])
  }

  // How many of the frames are taken up.
  function Taken(l: Link, policy: FragmentsPolicy, frames: seq<Frame>): (n: nat)
    ensures n <= |frames|
    decreases |frames|
  {
    if frames == [] || !l.open then 0 else 1 + Taken(Next(l, policy, frames[0]), policy, frames[1..])
  }

  function Shown(m: Message): seq<Message> { if m.ty == Empty then [] else [m] }

  // The messages that reach the application: up to and including the one that closes.
  function Received(l: Link, policy: FragmentsPolicy, frames: seq<Frame>): seq<Message>
    decreases |frames|
  {
    if frames == [] || !l.open then [] else
      Shown(Receive(l.rx, policy, frames[0]).message) + Received(Next(l, policy, frames[0]), policy, frames[1..])
  }

  // The frames sent back.
  function Replies(l: Link, policy: FragmentsPolicy, mask: bool, frames: seq<Frame>): seq<Frame>
    decreases |frames|
  {
    if frames == [] || !l.open then [] else
      ReplyTo(Receive(l.rx, policy, frames[0]).reaction, mask)
      + Replies(Next(l, policy, frames[0]), policy, mask, frames[1..])
  }

  /** A close ends it: after the peer's close frame, or a frame out of place, nothing more is taken up. */
  lemma CloseEndsIt(policy: FragmentsPolicy, mask: bool, data: seq<Byte>, rest: seq<Frame>)
    ensures Received(Connected, policy, [Frame(true, OPCODE_CLOSE, mask, data)] + rest) ==
            [Message(Close, data, Complete)]
    ensures data != [] ==> Received(Connected, policy, [Frame(false, OPCODE_CONTINUATION, mask, data)] + rest) == []
  {
    hide ReactionTo;
    var close := [Frame(true, OPCODE_CLOSE, mask, data)] + rest;
    var stray := [Frame(false, OPCODE_CONTINUATION, mask, data)] + rest;
    assert Stops(Receive(Start, policy, close[0]));
    assert Received(Next(Connected, policy, close[0]), policy, close[1..]) == [];
    if data != [] {
      assert Stops(Receive(Start, policy, stray[0]));
      assert Received(Next(Connected, policy, stray[0]), policy, stray[1..]) == [];
    }
  }

  // ---------------------------------------------------------------- both ends agree

  // Where the receiver stands while a message is on its way.
  function RxOf(p: Pending): Rx {
    match p
    case Idle => Start
    case Open(ty, content) => Rx(true, Collecting(ty, content))
  }

  predicate OfData(p: Pending) { p.Open? ==> p.ty == Text || p.ty == Binary }

  // The answers to the pings among messages.
  function PongFrames(messages: seq<Message>, mask: bool): seq<Frame> {
    if messages == [] then [] else
      (if messages[0].ty == Ping then [Frame(true, OPCODE_PONG, mask, messages[0].data)] else [])
      + PongFrames(messages[1..], mask)
  }

  // One frame takes the receiver along with the meaning of the operation that sent it.
  lemma OneOperation(p: Pending, mask: bool, op: Op)
    requires OfData(p)
    ensures var fs, e := FramesOf(p.Open?, mask, op), Meaning(p, op);
            && OfData(e.next) && e.next.Open? == StreamingAfter(p.Open?, op) && |fs| <= 1 && |e.messages| <= 1
            && if fs == [] then e == Effect(p, []) else
                 var o := Receive(RxOf(p), Aggregate, fs[0]);
                 o.next == RxOf(e.next) && Shown(o.message) == e.messages
  {
    hide ReactionTo;
    var fs := FramesOf(p.Open?, mask, op);
    if fs != [] && IsEmpty(fs[0]) { assert p.content + op.data == p.content; }
  }

  // Nothing but a ping is answered, and nothing closes.
  lemma OneReaction(p: Pending, mask: bool, replyMask: bool, op: Op)
    requires OfData(p)
    ensures var fs, ms := FramesOf(p.Open?, mask, op), Meaning(p, op).messages;
            fs != [] ==>
              var o := Receive(RxOf(p), Aggregate, fs[0]);
              !Stops(o) && ReplyTo(o.reaction, replyMask) == PongFrames(ms, replyMask)
  {
    hide PongFrames;
    var ms := Meaning(p, op).messages;
    NoPongs(replyMask);
    if ms != [] { OnePong(ms[0], replyMask); }
  }

  lemma NoPongs(mask: bool)
    ensures PongFrames([], mask) == []
  {
  }

  lemma OnePong(m: Message, mask: bool)
    ensures PongFrames([m], mask) == if m.ty == Ping then [Frame(true, OPCODE_PONG, mask, m.data)] else []
  {
    assert [m][1..] == [];
  }

  lemma PongsAppend(a: seq<Message>, b: seq<Message>, mask: bool)
    requires |a| <= 1
    ensures PongFrames(a + b, mask) == PongFrames(a, mask) + PongFrames(b, mask)
  {
    if a != [] {
      assert (a + b)[1..] == b && a[1..] == [] && PongFrames(a[1..], mask) == [];
    } else {
      assert a + b == b;
    }
  }

  lemma OneMoreFrame(l: Link, policy: FragmentsPolicy, mask: bool, f: Frame, rest: seq<Frame>)
    requires l.open
    ensures var o, fs, l' := Receive(l.rx, policy, f), [f] + rest, Next(l, policy, f);
            && LinkAfter(l, policy, fs) == LinkAfter(l', policy, rest)
            && Taken(l, policy, fs) == 1 + Taken(l', policy, rest)
            && Received(l, policy, fs) == Shown(o.message) + Received(l', policy, rest)
            && Replies(l, policy, mask, fs) == ReplyTo(o.reaction, mask) + Replies(l', policy, mask, rest)
  {
    hide Receive, ReplyTo, Next;
    assert ([f] + rest)[1..] == rest;
  }

  /** For any sequence of sending operations, the frames they send make the receiver deliver exactly
      the meant messages, in order, and answer exactly the pings; all of them are taken up. */
  lemma {:induction false} FramesMeanOperations(p: Pending, mask: bool, replyMask: bool, ops: seq<Op>)
    requires OfData(p)
    ensures var fs, l := AllFrames(p.Open?, mask, ops), Link(RxOf(p), true);
            && LinkAfter(l, Aggregate, fs).open && Taken(l, Aggregate, fs) == |fs|
            && Received(l, Aggregate, fs) == Meant(p, ops)
            && Replies(l, Aggregate, replyMask, fs) == PongFrames(Meant(p, ops), replyMask)
    decreases |ops|
  {
    hide Receive, Meaning, FramesOf, Shown, RxOf, ReplyTo, PongFrames, StreamingAfter, OfData;
    if ops == [] {
      NoPongs(replyMask);
    } else {
      hide LinkAfter, Received, Replies, Taken;
      var op, e, more := ops[0], Meaning(p, ops[0]), FramesOf(p.Open?, mask, ops[0]);
      OneOperation(p, mask, op);
      OneReaction(p, mask, replyMask, op);
      FramesMeanOperations(e.next, mask, replyMask, ops[1..]);
      PongsAppend(e.messages, Meant(e.next, ops[1..]), replyMask);
      var rest := AllFrames(e.next.Open?, mask, ops[1..]);
      if more != [] {
        assert more == [more[0]];
        OneMoreFrame(Link(RxOf(p), true), Aggregate, replyMask, more[0], rest);
      } else {
        assert more + rest == rest && e.messages + Meant(e.next, ops[1..]) == Meant(e.next, ops[1..]);
      }
    }
  }

  // ---------------------------------------------------------------- the two fragment policies

  // What an application that is notified of every fragment makes of the next message.
  function Glue(p: Pending, m: Message): Effect {
    match m.role
    case Complete => Effect(p, [m])
    case First => Effect(Open(m.ty, m.data), [])
    case Continuation => Effect(if p.Open? then Open(p.ty, p.content + m.data) else p, [])
    case Last => if p.Open? then Effect(Idle, [Message(p.ty, p.content + m.data, Complete)]) else Effect(p, [])
  }

  function Glued(p: Pending, ms: seq<Message>): seq<Message>
    decreases |ms|
  {
    if ms == [] then [] else
      var e := Glue(p, ms[0]);
      e.messages + Glued(e.next, ms[1..])
  }

  // The aggregating receiver a, the notifying one n, and the application's pending message p agree.
  predicate InStep(a: Rx, n: Rx, p: Pending) {
    && a.Valid() && a.streaming == n.streaming
    && match a.assembly
       case NoStream => n.assembly == NoStream && p == Idle
       case Collecting(t, c) => t != Empty && t != Close && n.assembly == Collecting(t, []) && p == Open(t, c)
       case Bad => n.assembly == Bad && p == Idle
       case Done(_, _) => false
  }

  // A fragmented message with the opcode of a close is begun.
  predicate BeginsClose(rx: Rx, f: Frame) { rx.assembly.NoStream? && !f.fin && f.opcode == OPCODE_CLOSE }

  // One frame, unless it begins such a message.
  lemma FrameInStep(a: Rx, n: Rx, p: Pending, f: Frame)
    requires InStep(a, n, p) && !BeginsClose(a, f)
    ensures var oa, on := Receive(a, Aggregate, f), Receive(n, Notify, f);
            && Stops(oa) == Stops(on)
            && if on.message.ty == Empty then InStep(oa.next, on.next, p) && oa.message.ty == Empty
               else InStep(oa.next, on.next, Glue(p, on.message).next)
                    && Shown(oa.message) == Glue(p, on.message).messages
  {
  }

  // While a close is being collected, something is shown as soon as a control frame or the end comes,
  // unless a frame out of place ends the connection first.
  predicate ShowsMore(frames: seq<Frame>) {
    frames != [] &&
    (if IsContinuesFragment(frames[0]) then ShowsMore(frames[1..])
     else IsControlFrame(frames[0]) || IsEndOfFragmentsStream(frames[0]))
  }

  lemma {:induction false} CollectingClose(l: Link, frames: seq<Frame>)
    requires l.open && l.rx.streaming && l.rx.assembly.Collecting? && l.rx.assembly.ty == Close
    ensures Received(l, Aggregate, frames) != [] <==> ShowsMore(frames)
    decreases |frames|
  {
    if frames != [] {
      var f, l' := frames[0], Next(l, Aggregate, frames[0]);
      if IsContinuesFragment(f) {
        assert Receive(l.rx, Aggregate, f).message.ty == Empty;
        CollectingClose(l', frames[1..]);
      } else if !IsControlFrame(f) && !IsEndOfFragmentsStream(f) {
        assert !l'.open && Received(l', Aggregate, frames[1..]) == [];
      }
    }
  }

  // The application can tell the policies apart: a fragmented close is begun, where the notified
  // application already stops, and the aggregating one is shown something after that.
  predicate TellsApart(l: Link, frames: seq<Frame>)
    decreases |frames|
  {
    frames != [] && l.open &&
    if BeginsClose(l.rx, frames[0]) then ShowsMore(frames[1..])
    else TellsApart(Next(l, Aggregate, frames[0]), frames[1..])
  }

  /** Gluing the notified fragments together gives what the aggregating receiver delivers, protocol
      errors included, if and only if no fragmented close comes in between. */
  lemma {:induction false} PoliciesAgreeExactly(a: Link, n: Link, p: Pending, frames: seq<Frame>)
    requires a.open == n.open && InStep(a.rx, n.rx, p)
    ensures Glued(p, Received(n, Notify, frames)) == Received(a, Aggregate, frames) <==> !TellsApart(a, frames)
    decreases |frames|
  {
    hide Receive, Glue, ShowsMore;
    if frames != [] && a.open {
      var f := frames[0];
      var oa, on := Receive(a.rx, Aggregate, f), Receive(n.rx, Notify, f);
      var a', n' := Next(a, Aggregate, f), Next(n, Notify, f);
      var ms := Received(n', Notify, frames[1..]);
      if BeginsClose(a.rx, f) {
        ClosesEarly(a.rx, n.rx, p, f);
        CollectingClose(a', frames[1..]);
        assert ms == [] && Glued(p, [on.message]) == [];
      } else {
        FrameInStep(a.rx, n.rx, p, f);
        if on.message.ty == Empty {
          assert [] + ms == ms && [] + Received(a', Aggregate, frames[1..]) == Received(a', Aggregate, frames[1..]);
          PoliciesAgreeExactly(a', n', p, frames[1..]);
        } else {
          PoliciesAgreeExactly(a', n', Glue(p, on.message).next, frames[1..]);
          assert ([on.message] + ms)[1..] == ms;
          SameTail(Shown(oa.message), Glued(Glue(p, on.message).next, ms), Received(a', Aggregate, frames[1..]));
        }
      }
    }
  }

  lemma SameTail(front: seq<Message>, a: seq<Message>, b: seq<Message>)
    ensures front + a == front + b <==> a == b
  {
    assert (front + a)[|front|..] == a && (front + b)[|front|..] == b;
  }

  lemma ClosesEarly(a: Rx, n: Rx, p: Pending, f: Frame)
    requires InStep(a, n, p) && BeginsClose(a, f)
    ensures var oa, on := Receive(a, Aggregate, f), Receive(n, Notify, f);
            && on.message == Message(Close, f.payload, First) && Stops(on)
            && oa.message == NoMessage && !Stops(oa) && oa.next == Rx(true, Collecting(Close, f.payload))
            && Glued(p, [on.message]) == []
  {
    var m := Message(Close, f.payload, First);
    assert [m][1..] == [] && Glue(p, m).messages == [];
  }

  lemma {:induction false} NoFragmentedClose(l: Link, frames: seq<Frame>)
    requires forall f | f in frames :: f.fin || f.opcode != OPCODE_CLOSE
    ensures !TellsApart(l, frames)
    decreases |frames|
  {
    hide Receive;
    if frames != [] && l.open {
      assert frames[0] in frames && forall f | f in frames[1..] :: f in frames;
      NoFragmentedClose(Next(l, Aggregate, frames[0]), frames[1..]);
    }
  }

  /** Without a non-final frame of opcode 8 the policies agree, whatever else is out of place. */
  lemma PoliciesAgree(frames: seq<Frame>)
    requires forall f | f in frames :: f.fin || f.opcode != OPCODE_CLOSE
    ensures Glued(Idle, Received(Connected, Notify, frames)) == Received(Connected, Aggregate, frames)
  {
    hide Receive;
    NoFragmentedClose(Connected, frames);
    PoliciesAgreeExactly(Connected, Connected, Idle, frames);
  }

  /** They do not agree on a fragmented close: aggregated it is delivered, notified it never gets whole. */
  lemma FragmentedCloseTellsApart(mask: bool, d: seq<Byte>, e: seq<Byte>, x: seq<Byte>)
    ensures var frames := [Frame(false, OPCODE_CLOSE, mask, d), Frame(true, OPCODE_CONTINUATION, mask, e),
                           Frame(true, OPCODE_TEXT, mask, x)];
            && Received(Connected, Aggregate, frames) == [Message(Close, d + e, Complete)]
            && Glued(Idle, Received(Connected, Notify, frames)) == []
  {
    hide ReactionTo;
    var f, g := Frame(false, OPCODE_CLOSE, mask, d), Frame(true, OPCODE_CONTINUATION, mask, e);
    var h := Frame(true, OPCODE_TEXT, mask, x);
    assert [f, g, h] == [f] + ([g] + [h]);
    ClosesEarly(Start, Start, Idle, f);
    OneMoreFrame(Connected, Aggregate, mask, f, [g] + [h]);
    OneMoreFrame(Next(Connected, Aggregate, f), Aggregate, mask, g, [h]);
    OneMoreFrame(Connected, Notify, mask, f, [g] + [h]);
    assert Stops(Receive(Rx(true, Collecting(Close, d)), Aggregate, g));
  }

  // ---------------------------------------------------------------- over the socket

  // The stream is exactly these frames, however they are masked.
  ghost predicate Parses(s: seq<Byte>, frames: seq<Frame>)
    decreases |frames|
  {
    if frames == [] then s == [] else
      Parse(s).Some? && var p := Parse(s).value; p.frame == frames[0] && Parses(s[p.size..], frames[1..])
  }

  lemma {:induction false} SentParses(frames: seq<Frame>)
    requires forall f | f in frames :: f.Valid()
    ensures Parses(Bytes(frames), frames)
  {
    hide Parse, Sent, Garbled, KeyFits;
    if frames != [] {
      assert frames[0] in frames;
      var first, rest := Sent(frames[0], DEFAULT_MASK), Bytes(frames[1..]);
      SendRoundTrip(frames[0], DEFAULT_MASK, rest);
      SentParses(frames[1..]);
      assert (first + rest)[|first|..] == rest;
    }
  }

  // What is still to come from a link, a stream and a plan.
  ghost predicate Ahead(l: Link, policy: FragmentsPolicy, s: seq<Byte>, plan: seq<int>, frames: seq<Frame>) {
    Parses(s, frames) && WholeHeads(s, plan, Taken(l, policy, frames))
  }

  /** Receives until the connection is closed or there is nothing more to read.  If the heads of the
      frames taken up will be read whole, this delivers their messages up to the one that closes,
      whatever failed or short reads of payload data do, and leaves the frames behind it unread. */
  method ReceiveAll(socket: Socket, endpoint: Endpoint, ghost frames: seq<Frame>)
    returns (messages: seq<Message>, connectionOpen: bool)
    requires socket.open && endpoint.Valid() && endpoint.State() == Start && endpoint.replies == [] && !endpoint.stopped
    requires Parses(socket.stream, frames)
    modifies socket, endpoint, endpoint.builder
    ensures WholeHeads(old(socket.stream), old(socket.plan), Taken(Connected, endpoint.policy, frames)) ==>
              && messages == Received(Connected, endpoint.policy, frames)
              && endpoint.replies == Replies(Connected, endpoint.policy, endpoint.useMasking, frames)
              && endpoint.Valid()
              && Link(endpoint.State(), connectionOpen) == LinkAfter(Connected, endpoint.policy, frames)
              && Parses(socket.stream, frames[Taken(Connected, endpoint.policy, frames)..])
  {
    hide Parse, Parses, Receive, LinkAfter, Received, Replies, Taken, Shown, WholeHeads, WholeHead, AfterFrame;
    hide OnCourse, Endpoint.Valid, Endpoint.State, ReplyTo;
    messages, connectionOpen := [], true;
    ghost var policy, mask, i := endpoint.policy, endpoint.useMasking, 0;
    ghost var whole := WholeHeads(socket.stream, socket.plan, Taken(Connected, policy, frames));
    if whole { CourseStarts(policy, mask, socket.stream, socket.plan, frames); }
    while connectionOpen && socket.stream != [] && socket.open
      invariant endpoint.Valid() && (endpoint.builder == old(endpoint.builder) || fresh(endpoint.builder))
      invariant connectionOpen ==> !endpoint.stopped
      invariant whole && connectionOpen ==> socket.open
      invariant whole ==> OnCourse(Link(endpoint.State(), connectionOpen), policy, mask, socket.stream, socket.plan,
                                   frames, i, messages, endpoint.replies)
      decreases socket.Progress()
    {
      var junk: Byte, junkMask, junkKey: Key := *, *, *;
      if whole {
        CourseGoesOn(endpoint.State(), policy, mask, socket.stream, socket.plan, frames, i, messages, endpoint.replies);
      }
      var frame := ReceiveFrame(socket, junk, junkMask, junkKey);
      var message := HandleNext(endpoint, frame);
      ShownIs(message);
      assert messages + [] == messages;
      if message.ty != Empty { messages := messages + [message]; }
      connectionOpen := message.ty != Close && !endpoint.stopped;
      i := i + 1;
    }
    if whole {
      CourseEnds(Link(endpoint.State(), connectionOpen), policy, mask, socket.stream, socket.plan, frames, i,
                 messages, endpoint.replies);
    }
  }

  // After i frames: what is ahead completes what has been delivered and replied.
  ghost predicate OnCourse(l: Link, policy: FragmentsPolicy, mask: bool, s: seq<Byte>, plan: seq<int>,
                           frames: seq<Frame>, i: int, messages: seq<Message>, replies: seq<Frame>)
  {
    && 0 <= i <= |frames|
    && Ahead(l, policy, s, plan, frames[i..])
    && messages + Received(l, policy, frames[i..]) == Received(Connected, policy, frames)
    && replies + Replies(l, policy, mask, frames[i..]) == Replies(Connected, policy, mask, frames)
    && LinkAfter(l, policy, frames[i..]) == LinkAfter(Connected, policy, frames)
    && i + Taken(l, policy, frames[i..]) == Taken(Connected, policy, frames)
  }

  lemma CourseStarts(policy: FragmentsPolicy, mask: bool, s: seq<Byte>, plan: seq<int>, frames: seq<Frame>)
    requires Ahead(Connected, policy, s, plan, frames)
    ensures OnCourse(Connected, policy, mask, s, plan, frames, 0, [], [])
  {
    hide Parses, LinkAfter, Received, Replies, Taken, WholeHeads;
    assert frames[0..] == frames;
    assert [] + Received(Connected, policy, frames) == Received(Connected, policy, frames);
    assert [] + Replies(Connected, policy, mask, frames) == Replies(Connected, policy, mask, frames);
  }

  lemma CourseGoesOn(rx: Rx, policy: FragmentsPolicy, mask: bool, s: seq<Byte>, plan: seq<int>, frames: seq<Frame>,
                     i: int, messages: seq<Message>, replies: seq<Frame>)
    requires s != [] && OnCourse(Link(rx, true), policy, mask, s, plan, frames, i, messages, replies)
    ensures i < |frames| && Parse(s).Some? && Parse(s).value.frame == frames[i] && WholeHead(s, plan)
    ensures var o := Receive(rx, policy, frames[i]);
            OnCourse(Link(o.next, !Stops(o)), policy, mask, s[Parse(s).value.size..], AfterFrame(s, plan), frames,
                     i + 1,
                     messages + Shown(o.message), replies + ReplyTo(o.reaction, mask))
  {
    hide Parse, Receive, WholeHead, AfterFrame, ReplyTo, Parses, LinkAfter, Received, Replies, Taken, WholeHeads, Shown;
    FrameAhead(Link(rx, true), policy, mask, s, plan, frames[i..]);
    assert frames[i..][1..] == frames[i + 1..];
  }

  lemma CourseEnds(l: Link, policy: FragmentsPolicy, mask: bool, s: seq<Byte>, plan: seq<int>, frames: seq<Frame>,
                   i: int, messages: seq<Message>, replies: seq<Frame>)
    requires (s == [] || !l.open) && OnCourse(l, policy, mask, s, plan, frames, i, messages, replies)
    ensures messages == Received(Connected, policy, frames) && replies == Replies(Connected, policy, mask, frames)
    ensures l == LinkAfter(Connected, policy, frames) && Parses(s, frames[Taken(Connected, policy, frames)..])
  {
    hide Parses, LinkAfter, Received, Replies, Taken, WholeHeads;
    NothingAhead(l, policy, mask, s, plan, frames[i..]);
  }

  // The next frame of an open link, and what is ahead behind it.
  lemma FrameAhead(l: Link, policy: FragmentsPolicy, mask: bool, s: seq<Byte>, plan: seq<int>, frames: seq<Frame>)
    requires l.open && s != [] && Ahead(l, policy, s, plan, frames)
    ensures frames != [] && Parse(s).Some? && Parse(s).value.frame == frames[0] && WholeHead(s, plan)
    ensures var o, l' := Receive(l.rx, policy, frames[0]), Next(l, policy, frames[0]);
            && Ahead(l', policy, s[Parse(s).value.size..], AfterFrame(s, plan), frames[1..])
            && LinkAfter(l, policy, frames) == LinkAfter(l', policy, frames[1..])
            && Taken(l, policy, frames) == 1 + Taken(l', policy, frames[1..])
            && Received(l, policy, frames) == Shown(o.message) + Received(l', policy, frames[1..])
            && Replies(l, policy, mask, frames) == ReplyTo(o.reaction, mask) + Replies(l', policy, mask, frames[1..])
  {
    hide Parse, Receive, WholeHead, AfterFrame, ReplyTo;
  }

  lemma NothingAhead(l: Link, policy: FragmentsPolicy, mask: bool, s: seq<Byte>, plan: seq<int>, frames: seq<Frame>)
    requires Ahead(l, policy, s, plan, frames) && (s == [] || !l.open)
    ensures Received(l, policy, frames) == [] && Replies(l, policy, mask, frames) == []
    ensures LinkAfter(l, policy, frames) == l && Taken(l, policy, frames) == 0 && Parses(s, frames)
  {
  }

  // The endpoint's handling, while it is connected.
  method HandleNext(endpoint: Endpoint, frame: Frame) returns (m: Message)
    requires endpoint.Valid() && !endpoint.stopped
    modifies endpoint, endpoint.builder
    ensures endpoint.Valid() && (endpoint.builder == old(endpoint.builder) || fresh(endpoint.builder))
    ensures var o := Receive(old(endpoint.State()), endpoint.policy, frame);
            && endpoint.State() == o.next && m == o.message && endpoint.stopped == o.reaction.CloseWith?
            && endpoint.replies == old(endpoint.replies) + ReplyTo(o.reaction, endpoint.useMasking)
  {
    hide Receive, ReplyTo;
    m := endpoint.HandleFrame(frame);
  }

  lemma ShownIs(m: Message)
    ensures Shown(m) == if m.ty != Empty then [m] else []
  {
  }

  /** End to end.  Whatever sending operations are made on an open connection, the other end's
      application gets exactly the meant messages in order, and every ping one pong, if the heads of
      all frames will be read whole; reads of payload data may fail or come short as they like. */
  method Converse(ops: seq<Op>, useMasking: bool, serverMasking: bool, plan: seq<int>)
    returns (messages: seq<Message>, replies: seq<Frame>)
    requires forall op | op in ops :: |op.data| < MAX_LENGTH
    ensures var frames := AllFrames(false, useMasking, ops);
            && (forall f | f in frames :: f.Valid())
            && (WholeHeads(Bytes(frames), plan, |frames|) ==>
                  messages == Meant(Idle, ops) && replies == PongFrames(Meant(Idle, ops), serverMasking))
  {
    hide Parse, Receive, LinkAfter, Received, Replies, Meant, FramesOf, Parses, Bytes, RxOf, WholeHeads, Taken;
    hide StreamingAfter, AllFrames;
    var client := SendAll(ops, useMasking);
    SentParses(client.frames);
    FramesMeanOperations(Idle, useMasking, serverMasking, ops);
    StartsIdle();
    var socket := new Socket(client.wire, plan);
    var endpoint := new Endpoint(Aggregate, serverMasking);
    var connectionOpen;
    messages, connectionOpen := ReceiveAll(socket, endpoint, client.frames);
    replies := endpoint.replies;
  }

  method SendAll(ops: seq<Op>, useMasking: bool) returns (client: Client)
    requires forall op | op in ops :: |op.data| < MAX_LENGTH
    ensures fresh(client) && client.Valid() && client.frames == AllFrames(false, useMasking, ops)
  {
    hide FramesOf, StreamingAfter, Bytes, AllFrames;
    NoneLeft(useMasking, ops);
    client := new Client(useMasking);
    var i := 0;
    while i < |ops|
      invariant 0 <= i <= |ops| && fresh(client) && client.Valid() && client.connectionOpen
                && client.useMasking == useMasking
      invariant client.frames + AllFrames(client.streaming, useMasking, ops[i..]) == AllFrames(false, useMasking, ops)
    {
      OneSent(client.streaming, useMasking, ops, i);
      ghost var streaming, sent := client.streaming, client.frames;
      var _ := client.Perform(ops[i]);
      Regrouped(sent, FramesOf(streaming, useMasking, ops[i]), AllFrames(client.streaming, useMasking, ops[i + 1..]));
      i := i + 1;
    }
    assert ops[..i] == ops;
    assert client.frames + [] == client.frames;
  }

  lemma NoneLeft(mask: bool, ops: seq<Op>)
    ensures ops[0..] == ops && forall streaming :: AllFrames(streaming, mask, ops[|ops|..]) == []
  {
  }

  lemma OneSent(streaming: bool, mask: bool, ops: seq<Op>, i: nat)
    requires i < |ops|
    ensures ops[i] in ops && AllFrames(streaming, mask, ops[i..]) ==
            FramesOf(streaming, mask, ops[i]) + AllFrames(StreamingAfter(streaming, ops[i]), mask, ops[i + 1..])
  {
    hide FramesOf, StreamingAfter;
    assert ops[i..][1..] == ops[i + 1..];
  }

  lemma Regrouped(a: seq<Frame>, b: seq<Frame>, c: seq<Frame>)
    ensures a + b + c == a + (b + c)
  {
  }

  lemma StartsIdle()
    ensures Link(RxOf(Idle), true) == Connected
  {
  }
}
