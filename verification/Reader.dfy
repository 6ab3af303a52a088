/** src/reader.c: two queues over a byte stream. */
module Reader {
  import opened Bytes
  import opened Types
  import opened Masking
  import opened Wire
  import opened Protocol
  import opened Sockets
  import opened Reassembly

  datatype RState = RState(frames: seq<Frame>, msgs: seq<Message>, isOpen: bool)

  const FRESH: RState := RState([], [], true)

  /** How one call of ws_reader_handle ends. Idle is a peek of nothing, which the code reports as
      success; Took is one event taken in. */
  datatype Outcome = Failed | Idle | Took(e: Event)

  function Absorb(st: RState, e: Event): RState {
    var (frames, out) := Step(st.frames, e);
    RState(frames, st.msgs + Untag(out), st.isOpen)
  }

  /** ws_reader_handle as a function of the reader, the stream and the environment. */
  function HandleSpec(env: Env, st: RState, net: Net): (Outcome, RState, Net) {
    var n := ReadCount(env, net, PEEK);
    if n <= -1 then (Failed, st, Tick(net))
    else if n == 0 then (Idle, st, Tick(net))
    else
      match DecodeHeader(net.unread[..n])
      case None => (Failed, st, Tick(net))
      case Some(h) => ReadFrameSpec(env, st, Tick(net), h)
  }

  function ReadFrameSpec(env: Env, st: RState, net: Net, h: Header): (Outcome, RState, Net) {
    var n := ReadCount(env, net, h.Extent());
    var net' := AfterRead(env, net, h.Extent());
    if n <= -1 && OpcodeOf(h.codes) == OPCODE_CLOSE then
      var (o, st') := TakeSpec(st, CloseLost);
      (o, st', net')
    else if n != h.Extent() then (Failed, st, net')
    else
      match DecodeBody(h, net.unread[h.BodyOffset()..h.Extent()])
      case None => (Failed, st, net')
      case Some(f) =>
        var (o, st') := TakeSpec(st, Received(f));
        (o, st', net')
  }

  /** A closed reader refuses every event. */
  function TakeSpec(st: RState, e: Event): (Outcome, RState) {
    if st.isOpen then (Outcome.Took(e), Absorb(st, e)) else (Failed, st)
  }

  function Taken(o: Outcome): seq<Event> {
    if o.Took? then [o.e] else []
  }

  function NextMsgSpec(st: RState): (Option<Message>, RState) {
    if !st.isOpen || st.msgs == [] then (None, st)
    else (Some(st.msgs[0]), st.(msgs := st.msgs[1..]))
  }

  /** The byte_array_insert loop. */
  method Insert(body: seq<byte>, bytes: array<byte>) returns (r: seq<byte>)
    ensures r == body + bytes[..]
  {
    r := body;
    for i := 0 to bytes.Length
      invariant r == body + bytes[..i]
    {
      r := r + [bytes[i]];
    }
    assert bytes[..bytes.Length] == bytes[..];
  }

  class FrameReader {
    var frameQueue: seq<WsFrame>
    var msgQueue: seq<Message>
    var isOpen: bool

    // The values of the queued frames, everything ever taken in, and everything handed out.
    ghost var pending: seq<Frame>
    ghost var history: seq<Event>
    ghost var handedOut: seq<Message>

    /** In every reachable state: the messages handed out, then those still queued, are the
        emissions of the whole history, and the frame queue holds the fragments left over. */
    ghost predicate Valid()
      reads this, frameQueue, set f | f in frameQueue :: f.payload
    {
      && |pending| == |frameQueue|
      && (forall i :: 0 <= i < |frameQueue| ==> frameQueue[i].View() == pending[i])
      && pending == After([], history)
      && handedOut + msgQueue == Untag(Emissions([], history))
    }

    ghost function State(): RState
      reads this
    {
      RState(pending, msgQueue, isOpen)
    }

    /** ws_reader_create */
    constructor ()
      ensures Valid() && State() == FRESH
      ensures history == [] && handedOut == []
    {
      frameQueue, msgQueue, isOpen := [], [], true;
      pending, history, handedOut := [], [], [];
    }

    /** construct_msg_from_frames: drain the frame queue into one message. */
    method ConstructMessage()
      requires |pending| == |frameQueue|
      requires forall i :: 0 <= i < |frameQueue| ==> frameQueue[i].View() == pending[i]
      modifies this`frameQueue, this`msgQueue, this`pending
      ensures !isOpen ==> State() == old(State()) && frameQueue == old(frameQueue)
      ensures isOpen ==> State() == RState([], old(msgQueue) + [Assemble(old(pending))], true) && frameQueue == []
    {
      if !isOpen {
        return;
      }
      var type_, body := OPCODE_CONT, [];
      var frameCount := |frameQueue|;
      ghost var queue := frameQueue;
      ghost var k := 0;
      while frameCount > 0
        invariant 0 <= k <= |queue| && frameCount == |queue| - k
        invariant frameQueue == queue[k..] && msgQueue == old(msgQueue) && pending == old(pending)
        invariant type_ == LastOpcode(pending[..k]) && body == Payloads(pending[..k])
      {
        var frame := frameQueue[0];
        frameQueue := frameQueue[1..];
        if OpcodeOf(frame.codes) != OPCODE_CONT {
          type_ := OpcodeOf(frame.codes);
        }
        body := Insert(body, frame.payload);
        assert frame.View() == pending[k];
        PayloadsSnoc(pending[..k], pending[k]);
        assert pending[..k + 1] == pending[..k] + [pending[k]];
        k := k + 1;
        frameCount := frameCount - 1;
      }
      assert pending[..k] == pending;
      msgQueue := msgQueue + [Message(type_, body)];
      pending := [];
    }

    /** ws_reader_handle */
    method Handle(net: Socket, simd: bool) returns (ok: bool, ghost o: Outcome)
      requires Valid()
      modifies this, net`clock, net`unread
      ensures Valid()
      ensures (o, State(), net.View()) == HandleSpec(net.env, old(State()), old(net.View()))
      ensures ok == !o.Failed?
      ensures history == old(history) + Taken(o) && handedOut == old(handedOut)
    {
      var header := new byte[PEEK](_ => 0);
      var n := net.Peek(header, PEEK);
      if n <= -1 {
        return false, Failed;
      } else if n == 0 {
        return true, Idle;
      }
      var frame := new WsFrame();
      var err := frame.ReadHeader(header, n);
      if err != FrameError.Success {
        return false, Failed;
      }
      ok, o := ReadFrame(net, frame, simd);
    }

    /** The second half of ws_reader_handle: read the whole frame, decode its body, route it. */
    method ReadFrame(net: Socket, frame: WsFrame, simd: bool) returns (ok: bool, ghost o: Outcome)
      requires Valid() && frame !in frameQueue
      requires frame.maskingKey == ZERO_KEY
      modifies this, net`clock, net`unread, frame
      ensures Valid()
      ensures (o, State(), net.View()) == ReadFrameSpec(net.env, old(State()), old(net.View()), old(frame.Head()))
      ensures ok == !o.Failed?
      ensures history == old(history) + Taken(o) && handedOut == old(handedOut)
    {
      var n, buffer, payloadOffset, msgLen := ReadWhole(net, frame);
      if n <= -1 && OpcodeOf(frame.codes) == OPCODE_CLOSE {
        ok, o := TakeLostClose();
        return;
      }
      if n != msgLen {
        return false, Failed;
      }
      ok, o := TakeBody(frame, buffer, payloadOffset, msgLen - payloadOffset, simd);
    }

    /** The read that asks for the whole frame. */
    method ReadWhole(net: Socket, frame: WsFrame)
      returns (n: int, buffer: array<byte>, payloadOffset: nat, msgLen: nat)
      modifies net`clock, net`unread
      ensures fresh(buffer) && payloadOffset == frame.Head().BodyOffset() <= msgLen <= buffer.Length
      ensures msgLen == frame.Head().Extent()
      ensures n == ReadCount(net.env, old(net.View()), msgLen)
      ensures net.View() == AfterRead(net.env, old(net.View()), msgLen)
      ensures n == msgLen ==> buffer[payloadOffset..msgLen] == old(net.unread)[payloadOffset..msgLen]
    {
      payloadOffset := 2 + ExtBytes(LengthCodeOf(frame.info));
      msgLen := payloadOffset + frame.payloadLen;
      if MaskOf(frame.info) {
        msgLen := msgLen + 4;
      }
      buffer := new byte[msgLen + 1];
      n := net.Read(buffer, msgLen);
      if n == msgLen {
        assert buffer[..msgLen][payloadOffset..] == old(net.unread)[..msgLen][payloadOffset..];
      }
    }

    /** Decode the body that was read and route the frame. */
    method TakeBody(frame: WsFrame, buffer: array<byte>, base: nat, len: nat, simd: bool)
      returns (ok: bool, ghost o: Outcome)
      requires Valid() && frame !in frameQueue
      requires frame.maskingKey == ZERO_KEY && base + len <= buffer.Length
      modifies this, frame
      ensures Valid()
      ensures (o, State()) ==
        match DecodeBody(old(frame.Head()), old(buffer[base..base + len]))
        case None => (Failed, old(State()))
        case Some(f) => TakeSpec(old(State()), Received(f))
      ensures ok == !o.Failed?
      ensures history == old(history) + Taken(o) && handedOut == old(handedOut)
    {
      ghost var decoded;
      var err;
      err, decoded := frame.ReadBody(buffer, base, len, simd);
      if err != FrameError.Success {
        return false, Failed;
      }
      ok, o := RouteFrame(frame);
    }

    /** The peer vanished in the middle of a CLOSE frame: queue a CLOSE message all the same. */
    method TakeLostClose() returns (ok: bool, ghost o: Outcome)
      requires Valid()
      modifies this`msgQueue, this`history
      ensures Valid()
      ensures (o, State()) == TakeSpec(old(State()), CloseLost)
      ensures ok == !o.Failed?
      ensures history == old(history) + Taken(o) && handedOut == old(handedOut)
    {
      if !isOpen {
        return false, Failed;
      }
      EventTaken(pending, history, handedOut, msgQueue, CloseLost);
      assert Untag(Step(pending, CloseLost).1) == [Message(OPCODE_CLOSE, [])];
      msgQueue := msgQueue + [Message(OPCODE_CLOSE, [])];
      history := history + [CloseLost];
      return true, Outcome.Took(CloseLost);
    }

    /** Control frames go straight to the message queue; data frames wait for the final one. */
    method RouteFrame(frame: WsFrame) returns (ok: bool, ghost o: Outcome)
      requires Valid() && frame !in frameQueue
      modifies this
      ensures Valid()
      ensures (o, State()) == TakeSpec(old(State()), Received(frame.View()))
      ensures ok == !o.Failed?
      ensures history == old(history) + Taken(o) && handedOut == old(handedOut)
    {
      if !isOpen {
        return false, Failed;
      }
      ghost var e := Received(frame.View());
      EventTaken(pending, history, handedOut, msgQueue, e);
      UntagStep(pending, frame.View());
      assert msgQueue + [] == msgQueue;
      if FinOf(frame.codes) {
        if OpcodeOf(frame.codes) >= OPCODE_CLOSE {
          msgQueue := msgQueue + [Message(OpcodeOf(frame.codes), frame.payload[..])];
        } else {
          frameQueue, pending := frameQueue + [frame], pending + [frame.View()];
          ConstructMessage();
        }
      } else {
        frameQueue, pending := frameQueue + [frame], pending + [frame.View()];
      }
      history := history + [e];
      return true, Outcome.Took(e);
    }

    /** ws_reader_next_msg */
    method NextMsg() returns (m: Option<Message>)
      requires Valid()
      modifies this`msgQueue, this`handedOut
      ensures Valid() && history == old(history)
      ensures (m, State()) == NextMsgSpec(old(State()))
      ensures handedOut == if m.Some? then old(handedOut) + [m.value] else old(handedOut)
    {
      if isOpen && msgQueue == [] {
        return None;
      }
      if !isOpen {
        return None;
      }
      m := Some(msgQueue[0]);
      handedOut, msgQueue := handedOut + [msgQueue[0]], msgQueue[1..];
    }
  }

  /** Queueing an event keeps the link between history and queues. */
  lemma {:induction false} EventTaken(p: seq<Frame>, hist: seq<Event>, out: seq<Message>, queue: seq<Message>, e: Event)
    requires p == After([], hist) && out + queue == Untag(Emissions([], hist))
    ensures Step(p, e).0 == After([], hist + [e])
    ensures out + (queue + Untag(Step(p, e).1)) == Untag(Emissions([], hist + [e]))
  {
    FoldAppend([], hist, [e]);
    FoldOne(p, e);
    UntagAppend(Emissions([], hist), Step(p, e).1);
    assert out + (queue + Untag(Step(p, e).1)) == (out + queue) + Untag(Step(p, e).1);
  }

  lemma {:induction false} UntagStep(p: seq<Frame>, f: Frame)
    ensures Untag(Step(p, Received(f)).1) ==
      if IsControl(f) then [Message(f.Opcode(), f.payload)]
      else if f.Final() then [Assemble(p + [f])]
      else []
  {}

  lemma {:induction false} UntagAppend(a: seq<Tagged>, b: seq<Tagged>)
    ensures Untag(a + b) == Untag(a) + Untag(b)
  {}
}
