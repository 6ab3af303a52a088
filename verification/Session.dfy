/** src/websocket.c after the connection is up: writing, pulling messages, the event loop. The
    functions here say what each call does to the reader and the stream; Client.dfy proves the
    methods against them and SessionLaws.dfy proves what they promise over whole runs. */
module Session {
  import opened Bytes
  import opened Types
  import opened Masking
  import opened Wire
  import opened Protocol
  import opened Sockets
  import opened Reassembly
  import opened Reader
  import opened ReaderLaws

  // ---- ws_client_write

  /** A client message is one final, masked frame. */
  function ClientFrame(opcode: byte, key: Key, body: seq<byte>): Frame {
    Frame(CodesByte(true, opcode), true, key, body)
  }

  /** The write fails for a body of exactly 65536 bytes, and when the socket reports -1; a short
      count is taken for success. */
  function WriteSpec(env: Env, net: Net, opcode: byte, body: seq<byte>): (bool, Net) {
    if |body| == TWO_TO_THE_16 then (false, net)
    else
      var blob := Encode(ClientFrame(opcode, env.keys(net.clock), body));
      (SendCount(env, net, |blob|) != -1, AfterWrite(env, net, blob))
  }

  // ---- ws_client_next_msg

  datatype Pull = NoPull | Pulled(m: Option<Message>)

  function PullSpec(env: Env, st: RState, net: Net): (Pull, RState, Net) {
    var (o, st', net') := HandleSpec(env, st, net);
    if o.Failed? then (NoPull, st', net')
    else
      var (m, st'') := NextMsgSpec(st');
      (Pulled(m), st'', net')
  }

  /** Between two calls no message waits: each call hands out what its own frame completed. */
  predicate Lockstep(st: RState) {
    st.isOpen && st.msgs == []
  }

  function FirstOf(ts: seq<Tagged>): Option<Message> {
    if ts == [] then None else Some(ts[0].m)
  }

  /** Lockstep is kept, and the message returned is the one completed by the event just taken in;
      no message means that nothing could be peeked or that the frame was not final. */
  lemma {:induction false} PullInLockstep(env: Env, st: RState, net: Net)
    requires Lockstep(st)
    ensures var (o, _, net1) := HandleSpec(env, st, net);
      var (p, st', net') := PullSpec(env, st, net);
      && net' == net1
      && Lockstep(st')
      && (p == NoPull <==> o == Failed)
      && (p == NoPull ==> st' == st)
      && (p != NoPull ==> p.m == FirstOf(Emissions(st.frames, Taken(o))) && st'.frames == After(st.frames, Taken(o)))
      && (p == Pulled(None) <==> o == Idle || (o.Took? && o.e.Received? && !o.e.frame.Final()))
      && Untag(Emissions(st.frames, Taken(o))) == (if p.Pulled? && p.m.Some? then [p.m.value] else [])
  {
    HandleFrame(env, st, net);
    var (o, st', net') := HandleSpec(env, st, net);
    if o.Took? {
      FoldOne(st.frames, o.e);
      UntagOne(Step(st.frames, o.e).1);
      assert st.msgs + Untag(Step(st.frames, o.e).1) == Untag(Step(st.frames, o.e).1);
    } else {
      assert Untag(Emissions(st.frames, [])) == [];
    }
  }

  lemma {:induction false} UntagOne(ts: seq<Tagged>)
    ensures ts == [] ==> Untag(ts) == []
    ensures |ts| == 1 ==> Untag(ts) == [ts[0].m]
  {}

  // ---- ws_client_on_msg

  /** What the user's callback does with one message: its answer, whether it also shuts the loop
      down, and whatever bytes it sends over the connection itself. */
  datatype Reaction = Reaction(keepGoing: bool, shutdown: bool, wrote: seq<byte>)

  /** A callback may depend on everything delivered to it so far. */
  type Callback = seq<Message> -> Reaction

  datatype Why = RecvFailed | NullMessage | CloseReceived | PongFailed | CallbackRefused | FlagCleared

  /** The loop's state: the reader, the stream, the flag, and what has happened so far. */
  datatype Loop = Loop(st: RState, net: Net, flag: bool,
                       events: seq<Event>, pulled: seq<Message>, delivered: seq<Message>)

  /** ws_client_shutdown_loop */
  function Shutdown(s: Loop): Loop {
    s.(flag := false, net := s.net.(open := false))
  }

  /** A moment at which another thread may shut the loop down. */
  function Interrupt(env: Env, s: Loop): Loop {
    var t := s.(net := Tick(s.net));
    if env.shutdowns(s.net.clock) then Shutdown(t) else t
  }

  predicate IsData(m: Message) {
    m.opcode == OPCODE_BIN || m.opcode == OPCODE_TEXT
  }

  /** The switch on the message type; the second result is the reason to stop, if there is one. */
  function Dispatch(env: Env, cb: Callback, s: Loop, m: Message): (Loop, Option<Why>) {
    if m.opcode == OPCODE_CLOSE then (s, Some(CloseReceived))
    else if m.opcode == OPCODE_PING then
      var (ok, net') := WriteSpec(env, s.net, OPCODE_PONG, m.body);
      (s.(net := net'), if ok then None else Some(PongFailed))
    else if IsData(m) then
      var delivered := s.delivered + [m];
      var r := cb(delivered);
      var s' := s.(delivered := delivered, net := s.net.(sent := s.net.sent + r.wrote));
      (if r.shutdown then Shutdown(s') else s', if r.keepGoing then None else Some(CallbackRefused))
    else (s, None)
  }

  /** The pull at the head of one turn of the loop. */
  function PullTurn(env: Env, s: Loop): (Loop, Pull) {
    var s0 := Interrupt(env, s);
    var (o, _, _) := HandleSpec(env, s0.st, s0.net);
    var (p, st', net') := PullSpec(env, s0.st, s0.net);
    var got := if p.Pulled? && p.m.Some? then [p.m.value] else [];
    (s0.(st := st', net := net', events := s0.events + Taken(o), pulled := s0.pulled + got), p)
  }

  /** What a turn does with the message it pulled: the switch, then the test of the flag. */
  function Respond(env: Env, cb: Callback, s: Loop, m: Message): (Loop, Option<Why>) {
    var (s2, why) := Dispatch(env, cb, s, m);
    if why.Some? then (s2, why)
    else
      var s3 := Interrupt(env, s2);
      (s3, if s3.flag then None else Some(FlagCleared))
  }

  /** What a turn does after its pull. */
  function AfterPull(env: Env, cb: Callback, s: Loop, p: Pull): (Loop, Option<Why>) {
    if p == NoPull then (s, Some(RecvFailed))
    else if p.m == None then (s, Some(NullMessage))
    else Respond(env, cb, s, p.m.value)
  }

  /** One turn of the loop. */
  function Turn(env: Env, cb: Callback, s: Loop): (Loop, Option<Why>) {
    var (s1, p) := PullTurn(env, s);
    AfterPull(env, cb, s1, p)
  }

  /** A turn that goes on has consumed a whole frame, at least two bytes. */
  lemma {:induction false} TurnProgress(env: Env, cb: Callback, s: Loop)
    requires Lockstep(s.st)
    ensures var (s', why) := Turn(env, cb, s);
      Lockstep(s'.st) && |s'.net.unread| <= |s.net.unread|
      && (why == None ==> |s'.net.unread| + 2 <= |s.net.unread|)
  {
    PullTurnProgress(env, s);
    var (s1, p) := PullTurn(env, s);
    if p.Pulled? && p.m.Some? {
      DispatchKeepsInput(env, cb, s1, p.m.value);
    }
  }

  lemma {:induction false} PullTurnProgress(env: Env, s: Loop)
    requires Lockstep(s.st)
    ensures var (s1, p) := PullTurn(env, s);
      && Lockstep(s1.st) && |s1.net.unread| <= |s.net.unread|
      && (p.Pulled? && p.m.Some? && p.m.value.opcode != OPCODE_CLOSE ==> |s1.net.unread| + 2 <= |s.net.unread|)
  {
    var s0 := Interrupt(env, s);
    PullInLockstep(env, s0.st, s0.net);
    PullConsumes(env, s0.st, s0.net);
  }

  /** Handling a message touches neither the reader nor the input. */
  lemma {:induction false} DispatchKeepsInput(env: Env, cb: Callback, s: Loop, m: Message)
    ensures var (s', why) := Dispatch(env, cb, s, m);
      && s'.st == s.st && s'.net.unread == s.net.unread && s'.events == s.events && s'.pulled == s.pulled
      && (m.opcode == OPCODE_CLOSE ==> why == Some(CloseReceived))
  {}

  lemma {:induction false} PullConsumes(env: Env, st: RState, net: Net)
    requires Lockstep(st)
    ensures var (p, _, net') := PullSpec(env, st, net);
      && |net'.unread| <= |net.unread|
      && (p.Pulled? && p.m.Some? && p.m.value.opcode != OPCODE_CLOSE ==> |net'.unread| + 2 <= |net.unread|)
  {
    PullInLockstep(env, st, net);
    AcceptedMeansDecoded(env, st, net);
    var (o, _, _) := HandleSpec(env, st, net);
    if o.Took? {
      FoldOne(st.frames, o.e);
      if o.e.Received? {
        DecodedIsLayout(net.unread);
      }
    }
  }

  /** All the bytes a run can still turn into message bodies. */
  function Load(st: RState, net: Net): nat {
    |Payloads(st.frames)| + |net.unread|
  }

  /** A message handed out is made of bytes that were pending or unread. */
  lemma {:induction false} PullWithinLoad(env: Env, st: RState, net: Net)
    requires Lockstep(st)
    ensures var (p, st', net') := PullSpec(env, st, net);
      && Load(st', net') <= Load(st, net)
      && (p.Pulled? && p.m.Some? ==> |p.m.value.body| + Load(st', net') <= Load(st, net))
  {
    PullInLockstep(env, st, net);
    AcceptedMeansDecoded(env, st, net);
    var (o, _, _) := HandleSpec(env, st, net);
    if o.Took? {
      FoldOne(st.frames, o.e);
      if o.e.Received? {
        DecodedIsLayout(net.unread);
        PayloadsSnoc(st.frames, o.e.frame);
      }
    }
  }

  /** The whole event loop. It terminates on every stream, in every environment. */
  function RunLoop(env: Env, cb: Callback, s: Loop): (Loop, Why)
    requires Lockstep(s.st)
    decreases |s.net.unread|
  {
    var (s', why) := Turn(env, cb, s);
    TurnProgress(env, cb, s);
    if why.Some? then (s', why.value) else RunLoop(env, cb, s')
  }
}
