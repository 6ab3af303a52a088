/** What src/websocket.c promises over whole runs, for every environment and every callback. */
module SessionLaws {
  import opened Bytes
  import opened Types
  import opened Masking
  import opened Wire
  import opened Protocol
  import opened Sockets
  import opened Reassembly
  import opened Reader
  import opened ReaderLaws
  import opened Session
  import opened Sequences

  // ---- End-to-end loopback.

  /** Writing a list of messages, one ws_client_write each; a failed one is skipped. */
  function SendAll(env: Env, net: Net, ms: seq<Message>): Net
    decreases |ms|
  {
    if ms == [] then net
    else SendAll(env, WriteSpec(env, net, ms[0].opcode, ms[0].body).1, ms[1..])
  }

  function Sendable(ms: seq<Message>): seq<Message> {
    if ms == [] then []
    else (if |ms[0].body| == TWO_TO_THE_16 then [] else [ms[0]]) + Sendable(ms[1..])
  }

  ghost predicate WellTyped(ms: seq<Message>) {
    forall m :: m in ms ==> m.opcode <= 0x0F && |m.body| < LENGTH_LIMIT
  }

  /** The client frames that carry messages under given keys. */
  function ClientFrames(ms: seq<Message>, keys: seq<Key>): (fs: seq<Frame>)
    requires |keys| == |ms|
    ensures |fs| == |ms|
  {
    seq(|ms|, i requires 0 <= i < |ms| => ClientFrame(ms[i].opcode, keys[i], ms[i].body))
  }

  lemma {:induction false} ClientFramesCons(m: Message, k: Key, ms: seq<Message>, keys: seq<Key>)
    requires |keys| == |ms|
    ensures ClientFrames([m] + ms, [k] + keys) == [ClientFrame(m.opcode, k, m.body)] + ClientFrames(ms, keys)
  {
    var a, b := ClientFrames([m] + ms, [k] + keys), [ClientFrame(m.opcode, k, m.body)] + ClientFrames(ms, keys);
    assert forall i :: 0 <= i < |a| ==> a[i] == b[i];
  }

  lemma {:induction false} EncodeAllCons(f: Frame, fs: seq<Frame>)
    ensures EncodeAll([f] + fs) == Encode(f) + EncodeAll(fs)
  {
    assert ([f] + fs)[1..] == fs;
  }

  /** What full writes put on the wire: the client frames of the sendable messages, in order. */
  lemma {:induction false} SentBytes(env: Env, net: Net, ms: seq<Message>) returns (keys: seq<Key>)
    requires FullSends(env) && net.open
    ensures |keys| == |Sendable(ms)|
    ensures SendAll(env, net, ms).sent == net.sent + EncodeAll(ClientFrames(Sendable(ms), keys))
    decreases |ms|
  {
    keys := [];
    if ms == [] {
      assert net.sent + [] == net.sent;
    } else {
      var m := ms[0];
      var net' := WriteSpec(env, net, m.opcode, m.body).1;
      keys := SentBytes(env, net', ms[1..]);
      if |m.body| == TWO_TO_THE_16 {
        assert Sendable(ms) == Sendable(ms[1..]);
      } else {
        var k := env.keys(net.clock);
        var blob := Encode(ClientFrame(m.opcode, k, m.body));
        FullWrite(env, net, blob);
        MoreFrames(m, k, Sendable(ms[1..]), keys);
        Assoc(net.sent, blob, EncodeAll(ClientFrames(Sendable(ms[1..]), keys)));
        keys := [k] + keys;
      }
    }
  }

  lemma {:induction false} MoreFrames(m: Message, k: Key, ms: seq<Message>, keys: seq<Key>)
    requires |keys| == |ms|
    ensures EncodeAll(ClientFrames([m] + ms, [k] + keys)) ==
      Encode(ClientFrame(m.opcode, k, m.body)) + EncodeAll(ClientFrames(ms, keys))
  {
    ClientFramesCons(m, k, ms, keys);
    EncodeAllCons(ClientFrame(m.opcode, k, m.body), ClientFrames(ms, keys));
  }

  lemma {:induction false} FullWrite(env: Env, net: Net, blob: seq<byte>)
    requires FullSends(env) && net.open
    ensures AfterWrite(env, net, blob).sent == net.sent + blob && AfterWrite(env, net, blob).open
  {
    assert env.sends(net.clock) == All;
    assert blob[..|blob|] == blob;
  }

  /** Repeated ws_client_next_msg, given up at the first failure. */
  datatype Pulls = Pulls(ok: bool, out: seq<Option<Message>>, st: RState, net: Net)

  function PullMany(env: Env, st: RState, net: Net, n: nat): Pulls
    decreases n
  {
    if n == 0 then Pulls(true, [], st, net)
    else
      var (p, st', net') := PullSpec(env, st, net);
      if p == NoPull then Pulls(false, [], st', net')
      else
        var r := PullMany(env, st', net', n - 1);
        r.(out := [p.m] + r.out)
  }

  function AllSome(ms: seq<Message>): (out: seq<Option<Message>>)
    ensures |out| == |ms|
  {
    seq(|ms|, i requires 0 <= i < |ms| => Some(ms[i]))
  }

  lemma {:induction false} ClientFrameFields(opcode: byte, key: Key, body: seq<byte>)
    requires opcode <= 0x0F && |body| < LENGTH_LIMIT
    ensures var f := ClientFrame(opcode, key, body);
      f.Final() && f.Opcode() == opcode && f.masked && Decodable(f, ShortestCode(|body|))
  {
    CodesFields(true, opcode);
    ShortestFits(|body|);
  }

  /** A final frame met in lockstep with nothing pending is handed out at once as its message. */
  lemma {:induction false} PullClientFrame(env: Env, net: Net, m: Message, key: Key, rest: seq<byte>)
    requires Full(env) && net.open
    requires m.opcode <= 0x0F && |m.body| < LENGTH_LIMIT
    requires net.unread == Encode(ClientFrame(m.opcode, key, m.body)) + rest
    ensures var (p, st', net') := PullSpec(env, FRESH, net);
      p == Pulled(Some(m)) && st' == FRESH && net'.unread == rest && net'.open
  {
    var f := ClientFrame(m.opcode, key, m.body);
    ClientFrameFields(m.opcode, key, m.body);
    FullStep(env, FRESH, net, Wired(f, ShortestCode(|m.body|)), rest);
    PullInLockstep(env, FRESH, net);
    FoldOne([], Received(f));
    PayloadsSnoc([], f);
    assert Payloads([]) + f.payload == f.payload;
    assert Taken(Took(Received(f))) == [Received(f)];
  }

  /** Pulls that handed out exactly these messages and left exactly this input. */
  ghost predicate AllPulled(r: Pulls, ms: seq<Message>, rest: seq<byte>) {
    r.ok && r.out == AllSome(ms) && r.st == FRESH && r.net.unread == rest
  }

  lemma {:induction false} PullClientFrames(env: Env, net: Net, ms: seq<Message>, keys: seq<Key>, rest: seq<byte>)
    requires Full(env) && net.open && WellTyped(ms) && |keys| == |ms|
    requires net.unread == EncodeAll(ClientFrames(ms, keys)) + rest
    ensures AllPulled(PullMany(env, FRESH, net, |ms|), ms, rest)
    decreases |ms|
  {
    if ms == [] {
      Empty(rest);
    } else {
      var net' := PullFirst(env, net, ms, keys, rest);
      assert WellTyped(ms[1..]);
      PullClientFrames(env, net', ms[1..], keys[1..], rest);
      OneMorePull(env, net, net', ms, rest);
    }
  }

  /** The first pull of a stream of client frames, and what it leaves to the others. */
  lemma {:induction false} PullFirst(env: Env, net: Net, ms: seq<Message>, keys: seq<Key>, rest: seq<byte>)
    returns (net': Net)
    requires Full(env) && net.open && WellTyped(ms) && |keys| == |ms| > 0
    requires net.unread == EncodeAll(ClientFrames(ms, keys)) + rest
    ensures net'.open && net'.unread == EncodeAll(ClientFrames(ms[1..], keys[1..])) + rest
    ensures PullSpec(env, FRESH, net) == (Pulled(Some(ms[0])), FRESH, net')
  {
    assert ms[0] in ms;
    FirstOnTheWire(ms, keys, rest);
    PullClientFrame(env, net, ms[0], keys[0], EncodeAll(ClientFrames(ms[1..], keys[1..])) + rest);
    net' := PullSpec(env, FRESH, net).2;
  }

  lemma {:induction false} OneMorePull(env: Env, net: Net, net': Net, ms: seq<Message>, rest: seq<byte>)
    requires ms != [] && PullSpec(env, FRESH, net) == (Pulled(Some(ms[0])), FRESH, net')
    requires AllPulled(PullMany(env, FRESH, net', |ms| - 1), ms[1..], rest)
    ensures AllPulled(PullMany(env, FRESH, net, |ms|), ms, rest)
  {
    AllSomeFirst(ms);
  }

  lemma {:induction false} AllSomeFirst(ms: seq<Message>)
    requires ms != []
    ensures AllSome(ms) == [Some(ms[0])] + AllSome(ms[1..])
  {}

  lemma {:induction false} FirstOnTheWire(ms: seq<Message>, keys: seq<Key>, rest: seq<byte>)
    requires |keys| == |ms| > 0
    ensures EncodeAll(ClientFrames(ms, keys)) + rest ==
      Encode(ClientFrame(ms[0].opcode, keys[0], ms[0].body)) + (EncodeAll(ClientFrames(ms[1..], keys[1..])) + rest)
  {
    assert ms == [ms[0]] + ms[1..] && keys == [keys[0]] + keys[1..];
    MoreFrames(ms[0], keys[0], ms[1..], keys[1..]);
    Assoc(Encode(ClientFrame(ms[0].opcode, keys[0], ms[0].body)), EncodeAll(ClientFrames(ms[1..], keys[1..])), rest);
  }

  lemma {:induction false} SendableWellTyped(ms: seq<Message>)
    requires WellTyped(ms)
    ensures WellTyped(Sendable(ms))
  {
    if ms != [] {
      assert ms[0] in ms;
      SendableWellTyped(ms[1..]);
    }
  }

  /** Everything written comes back: whatever messages are written, with whatever keys, a reader of
      those bytes pulls exactly the messages that could be written, in order, consumes every byte
      of them and ends as it began. */
  lemma {:induction false} Loopback(out: Env, back: Env, ms: seq<Message>, peer: Net, rest: seq<byte>)
    requires FullSends(out) && Full(back) && WellTyped(ms) && peer.open
    requires peer.unread == SendAll(out, Net([], [], 0, true), ms).sent + rest
    ensures var r := PullMany(back, FRESH, peer, |Sendable(ms)|);
      r.ok && r.out == AllSome(Sendable(ms)) && r.st == FRESH && r.net.unread == rest
  {
    var keys := SentBytes(out, Net([], [], 0, true), ms);
    SendableWellTyped(ms);
    var bytes := EncodeAll(ClientFrames(Sendable(ms), keys));
    assert [] + bytes == bytes;
    PullClientFrames(back, peer, Sendable(ms), keys, rest);
  }

  // ---- Short writes.

  /** A write reports success exactly when the stream is open and the environment's grant for that
      send is not an error. The whole frame went out exactly when, besides, the grant covers it:
      success does not say so. */
  lemma {:induction false} WriteCompleteIff(env: Env, net: Net, opcode: byte, body: seq<byte>)
    ensures var blob := Encode(ClientFrame(opcode, env.keys(net.clock), body));
      var grant := env.sends(net.clock);
      var (ok, net') := WriteSpec(env, net, opcode, body);
      && (ok <==> |body| != 65536 && net.open && grant != Fail)
      && (net'.sent == net.sent + blob <==>
            |body| != 65536 && net.open && (grant == All || (grant.Upto? && grant.n >= |blob|)))
      && (ok && grant.Upto? && grant.n < |blob| ==> net'.sent == net.sent + blob[..grant.n])
      && (!ok ==> net'.sent == net.sent)
  {
    var blob := Encode(ClientFrame(opcode, env.keys(net.clock), body));
    var n := SendCount(env, net, |blob|);
    assert |blob| >= 2;
    Empty(net.sent);
    assert blob[..|blob|] == blob;
    assert |net.sent + blob[..if n < 0 then 0 else n]| == |net.sent| + if n < 0 then 0 else n;
    assert |net.sent + blob| > |net.sent|;
  }

  /** One byte granted is enough for the client to report success. */
  lemma {:induction false} ShortWriteSucceeds(opcode: byte, body: seq<byte>, key: Key) returns (env: Env)
    requires |body| != TWO_TO_THE_16
    ensures var (ok, net') := WriteSpec(env, Net([], [], 0, true), opcode, body);
      ok && |net'.sent| == 1
  {
    env := Env((t: nat) => All, (t: nat) => Upto(1), (t: nat) => key, (t: nat) => false);
    WriteCompleteIff(env, Net([], [], 0, true), opcode, body);
    var blob := Encode(ClientFrame(opcode, key, body));
    assert [] + blob[..1] == blob[..1];
  }

  // ---- What a server may send that the client refuses.

  /** The pull succeeds on a well-formed frame exactly when it is masked or not empty. A server
      must not mask (section 5.1 of RFC 6455), so its empty frames are refused. */
  lemma {:induction false} PullAcceptsIff(env: Env, st: RState, net: Net, f: Frame, rest: seq<byte>)
    requires Full(env) && net.open && Lockstep(st)
    requires |f.payload| < TWO_TO_THE_64 && net.unread == Encode(f) + rest
    ensures PullSpec(env, st, net).0 != NoPull <==> f.masked || f.payload != []
  {
    EncodeDecodesIff(f, rest);
    FullHandle(env, st, net);
  }

  // ---- The event loop.

  /** The messages meant for the user: section 11.8 of RFC 6455 gives 1 to text and 2 to binary. */
  predicate ForUser(m: Message) {
    m.opcode == 0x1 || m.opcode == 0x2
  }

  function DataOnly(ms: seq<Message>): seq<Message> {
    if ms == [] then [] else (if ForUser(ms[0]) then [ms[0]] else []) + DataOnly(ms[1..])
  }

  lemma {:induction false} DataOnlyAppend(a: seq<Message>, b: seq<Message>)
    ensures DataOnly(a + b) == DataOnly(a) + DataOnly(b)
  {
    if a == [] {
      Empty(DataOnly(b));
      Empty(b);
    } else {
      Uncons(a, b);
      DataOnlyAppend(a[1..], b);
      Assoc(if ForUser(a[0]) then [a[0]] else [], DataOnly(a[1..]), DataOnly(b));
    }
  }

  /** The switch, opcode by opcode. 1 and 2 go to the callback, and nothing else does; 8 ends the loop;
      9 is answered by writing a message of opcode 0xA with the same body; every other opcode changes
      nothing and the loop goes on. */
  lemma {:induction false} DispatchByOpcode(env: Env, cb: Callback, s: Loop, m: Message)
    ensures var (t, why) := Dispatch(env, cb, s, m);
      var d := s.delivered + if m.opcode == 0x1 || m.opcode == 0x2 then [m] else [];
      && t.delivered == d && t.st == s.st && t.net.unread == s.net.unread
      && (m.opcode == 0x1 || m.opcode == 0x2 ==>
            && t.net.sent == s.net.sent + cb(d).wrote
            && t.flag == (s.flag && !cb(d).shutdown) && t.net.open == (s.net.open && !cb(d).shutdown)
            && why == if cb(d).keepGoing then None else Some(CallbackRefused))
      && (m.opcode == 0x9 ==>
            var (ok, net') := WriteSpec(env, s.net, 0xA, m.body);
            t == s.(net := net') && why == if ok then None else Some(PongFailed))
      && (m.opcode == 0x8 ==> t == s && why == Some(CloseReceived))
      && (m.opcode !in [0x1, 0x2, 0x8, 0x9] ==> t == s && why == None)
  {
    Empty(s.delivered);
  }

  /** What one turn adds: the events it took in, the message it pulled, the message it delivered. */
  ghost predicate Adds(s: Loop, t: Loop, es: seq<Event>, ps: seq<Message>) {
    && t.events == s.events + es && t.pulled == s.pulled + ps
    && t.delivered == s.delivered + DataOnly(ps)
    && t.st.frames == After(s.st.frames, es)
    && Untag(Emissions(s.st.frames, es)) == ps
  }

  lemma {:induction false} AddsTrans(s: Loop, t: Loop, u: Loop, es: seq<Event>, ps: seq<Message>,
      fs: seq<Event>, qs: seq<Message>)
    requires Adds(s, t, es, ps) && Adds(t, u, fs, qs)
    ensures Adds(s, u, es + fs, ps + qs)
  {
    FoldAppend(s.st.frames, es, fs);
    UntagAppend(Emissions(s.st.frames, es), Emissions(t.st.frames, fs));
    DataOnlyAppend(ps, qs);
    Assoc(s.delivered, DataOnly(ps), DataOnly(qs));
    Assoc(s.events, es, fs);
    Assoc(s.pulled, ps, qs);
  }

  /** A message after which the loop goes on, given what was delivered before it. */
  ghost predicate GoesOn(cb: Callback, delivered: seq<Message>, m: Message) {
    && m.opcode != OPCODE_CLOSE
    && (m.opcode == OPCODE_PING ==> |m.body| != TWO_TO_THE_16)
    && (ForUser(m) ==> cb(delivered + [m]).keepGoing && !cb(delivered + [m]).shutdown)
  }

  ghost predicate AllGoOn(cb: Callback, delivered: seq<Message>, ms: seq<Message>)
    decreases |ms|
  {
    ms == [] || (GoesOn(cb, delivered, ms[0]) && AllGoOn(cb, delivered + DataOnly([ms[0]]), ms[1..]))
  }

  /** Why a last message ended the loop. */
  ghost predicate Ends(cb: Callback, why: Why, end: Loop, m: Message) {
    match why
    case CloseReceived => m.opcode == OPCODE_CLOSE
    case PongFailed => m.opcode == OPCODE_PING
    case CallbackRefused =>
      ForUser(m) && end.delivered != [] && end.delivered[|end.delivered| - 1] == m && !cb(end.delivered).keepGoing
    case FlagCleared => m.opcode != OPCODE_CLOSE && !end.flag && (ForUser(m) ==> cb(end.delivered).keepGoing)
    case _ => false
  }

  ghost predicate EndsAfter(cb: Callback, s: Loop, end: Loop, why: Why, ps: seq<Message>) {
    if why == RecvFailed || why == NullMessage then AllGoOn(cb, s.delivered, ps)
    else ps != [] && AllGoOn(cb, s.delivered, ps[..|ps| - 1]) && Ends(cb, why, end, ps[|ps| - 1])
  }

  lemma {:induction false} PullTurnAdds(env: Env, s: Loop)
    requires Lockstep(s.st)
    ensures var (t, p) := PullTurn(env, s);
      var (o, _, _) := HandleSpec(env, Interrupt(env, s).st, Interrupt(env, s).net);
      var ps := if p.Pulled? && p.m.Some? then [p.m.value] else [];
      && t.events == s.events + Taken(o) && t.pulled == s.pulled + ps && t.delivered == s.delivered
      && t.st.frames == After(s.st.frames, Taken(o)) && Untag(Emissions(s.st.frames, Taken(o))) == ps
  {
    var s0 := Interrupt(env, s);
    PullInLockstep(env, s0.st, s0.net);
  }

  lemma {:induction false} DispatchAdds(env: Env, cb: Callback, s: Loop, m: Message)
    ensures var (t, why) := Dispatch(env, cb, s, m);
      && t.delivered == s.delivered + DataOnly([m])
      && (why == None ==> m.opcode != OPCODE_CLOSE && (m.opcode == OPCODE_PING ==> |m.body| != TWO_TO_THE_16)
                          && (ForUser(m) ==> cb(t.delivered).keepGoing && (cb(t.delivered).shutdown ==> !t.flag)))
      && (why.Some? ==> why.value != FlagCleared && why.value != RecvFailed && why.value != NullMessage
                        && Ends(cb, why.value, t, m))
  {
    assert [m][1..] == [];
    assert s.delivered + [] == s.delivered;
  }

  /** One turn, told as what it adds and why it stopped. */
  lemma {:induction false} TurnAdds(env: Env, cb: Callback, s: Loop) returns (es: seq<Event>, ps: seq<Message>)
    requires Lockstep(s.st)
    ensures var (t, why) := Turn(env, cb, s);
      && Adds(s, t, es, ps)
      && (why == None ==> |ps| == 1 && GoesOn(cb, s.delivered, ps[0]))
      && (why.Some? ==> EndsAfter(cb, s, t, why.value, ps))
  {
    PullTurnAdds(env, s);
    var (s1, p) := PullTurn(env, s);
    es := Taken(HandleSpec(env, Interrupt(env, s).st, Interrupt(env, s).net).0);
    if p == NoPull || p.m == None {
      ps := [];
      assert s.delivered + DataOnly([]) == s.delivered;
    } else {
      var m := p.m.value;
      ps := [m];
      DispatchKeepsInput(env, cb, s1, m);
      DispatchAdds(env, cb, s1, m);
      assert ps[..0] == [];
      assert ForUser(m) ==> DataOnly([m]) == [m];
    }
  }

  lemma {:induction false} AllGoOnCons(cb: Callback, d: seq<Message>, m: Message, ms: seq<Message>)
    requires GoesOn(cb, d, m) && AllGoOn(cb, d + DataOnly([m]), ms)
    ensures AllGoOn(cb, d, [m] + ms)
  {
    assert ([m] + ms)[1..] == ms;
  }

  /** A turn that goes on found the flag set and no shutdown at either of its two ticks. */
  lemma {:induction false} GoingOnMeansRunning(env: Env, cb: Callback, s: Loop)
    requires Turn(env, cb, s).1 == None
    ensures var t := Turn(env, cb, s).0;
      t.flag && t.net.open && t.net.clock > 0 && !env.shutdowns(s.net.clock) && !env.shutdowns(t.net.clock - 1)
  {
    HandleFrame(env, Interrupt(env, s).st, Interrupt(env, s).net);
  }

  /** Another thread's shutdown at the head of a turn ends the run there: the receive fails, and
      nothing more is pulled, delivered, read or sent. */
  lemma {:induction false} ShutdownEndsRun(env: Env, cb: Callback, s: Loop)
    requires Lockstep(s.st) && env.shutdowns(s.net.clock)
    ensures var (end, why) := RunLoop(env, cb, s);
      && why == RecvFailed && !end.flag && !end.net.open
      && end.pulled == s.pulled && end.delivered == s.delivered && end.st == s.st
      && end.net.unread == s.net.unread && end.net.sent == s.net.sent
  {
    assert s.pulled + [] == s.pulled;
  }

  /** The whole run of the event loop. The messages pulled are exactly the emissions of the frames
      taken in, in arrival order; the callback invocations are exactly the TEXT and BIN messages
      among them, in that order; and only the last message pulled can be one that ends the loop:
      nothing follows a CLOSE, a refusing callback, a shutdown or a failed PONG. */
  lemma {:induction false} RunTrace(env: Env, cb: Callback, s: Loop) returns (es: seq<Event>, ps: seq<Message>)
    requires Lockstep(s.st)
    ensures var (end, why) := RunLoop(env, cb, s);
      && Lockstep(end.st)
      && Adds(s, end, es, ps)
      && EndsAfter(cb, s, end, why, ps)
    decreases |s.net.unread|
  {
    TurnProgress(env, cb, s);
    es, ps := TurnAdds(env, cb, s);
    var (t, why) := Turn(env, cb, s);
    if why == None {
      var fs, qs := RunTrace(env, cb, t);
      var (end, w) := RunLoop(env, cb, t);
      AddsTrans(s, t, end, es, ps, fs, qs);
      ConsEnds(cb, s, t, end, w, ps[0], qs);
      assert ps == [ps[0]];
      es, ps := es + fs, ps + qs;
    }
  }

  lemma {:induction false} ConsEnds(cb: Callback, s: Loop, t: Loop, end: Loop, why: Why, m: Message, qs: seq<Message>)
    requires GoesOn(cb, s.delivered, m) && t.delivered == s.delivered + DataOnly([m])
    requires EndsAfter(cb, t, end, why, qs)
    ensures EndsAfter(cb, s, end, why, [m] + qs)
  {
    if why == RecvFailed || why == NullMessage {
      AllGoOnCons(cb, s.delivered, m, qs);
    } else {
      AllGoOnCons(cb, s.delivered, m, qs[..|qs| - 1]);
      assert ([m] + qs)[..|qs|] == [m] + qs[..|qs| - 1];
    }
  }

  /** The last peek came back empty-handed, on a stream that is still open. */
  predicate PeekedNothing(env: Env, net: Net) {
    net.open && net.clock > 0 && ReadCount(env, net.(clock := net.clock - 1), PEEK) == 0
  }

  predicate EndsOnFragment(es: seq<Event>) {
    es != [] && es[|es| - 1].Received? && !es[|es| - 1].frame.Final()
  }

  lemma {:induction false} NullMessageTurn(env: Env, cb: Callback, s: Loop) returns (es: seq<Event>)
    requires Lockstep(s.st) && Turn(env, cb, s).1 == Some(NullMessage)
    ensures var t := Turn(env, cb, s).0;
      && t.events == s.events + es && t.net.open
      && (if es == [] then PeekedNothing(env, t.net) else EndsOnFragment(es))
  {
    var t, why, s1, p := TurnShape(env, cb, s);
    NullMessageIsNone(env, cb, s);
    var s0 := Interrupt(env, s);
    PullInLockstep(env, s0.st, s0.net);
    HandleFrame(env, s0.st, s0.net);
    es := Taken(HandleSpec(env, s0.st, s0.net).0);
    IdleIsEmptyPeek(env, s0.st, s0.net);
  }

  lemma {:induction false} NullMessageIsNone(env: Env, cb: Callback, s: Loop)
    requires Lockstep(s.st) && Turn(env, cb, s).1 == Some(NullMessage)
    ensures PullTurn(env, s).1 == Pulled(None) && Turn(env, cb, s).0 == PullTurn(env, s).0
  {
    var (s1, p) := PullTurn(env, s);
    if p.Pulled? && p.m.Some? {
      DispatchAdds(env, cb, s1, p.m.value);
    }
  }

  lemma {:induction false} IdleIsEmptyPeek(env: Env, st: RState, net: Net)
    ensures var (o, _, net') := HandleSpec(env, st, net);
      && (o == Idle ==> net' == Tick(net) && ReadCount(env, net, PEEK) == 0)
      && (!o.Failed? ==> net.open)
  {}

  /** A loop that ended for want of a message did so on an open stream: its last peek moved nothing,
      or the last frame it took in was a fragment that is not final. */
  lemma {:induction false} NullMessageEnding(env: Env, cb: Callback, s: Loop) returns (es: seq<Event>)
    requires Lockstep(s.st) && RunLoop(env, cb, s).1 == NullMessage
    ensures var end := RunLoop(env, cb, s).0;
      end.events == s.events + es && end.net.open && (PeekedNothing(env, end.net) || EndsOnFragment(es))
    decreases |s.net.unread|
  {
    TurnProgress(env, cb, s);
    var (t, why) := Turn(env, cb, s);
    if why == None {
      var first, ps := TurnAdds(env, cb, s);
      var more := NullMessageEnding(env, cb, t);
      Assoc(s.events, first, more);
      es := first + more;
    } else {
      es := NullMessageTurn(env, cb, s);
    }
  }

  // ---- What a run of the loop consumes.

  lemma {:induction false} ReceivedFramesAppend(a: seq<Event>, b: seq<Event>)
    ensures ReceivedFrames(a + b) == ReceivedFrames(a) + ReceivedFrames(b)
  {
    if a == [] {
      Empty(b);
    } else {
      Uncons(a, b);
      ReceivedFramesAppend(a[1..], b);
      Assoc(if a[0].Received? then [a[0].frame] else [], ReceivedFrames(a[1..]), ReceivedFrames(b));
    }
  }

  lemma {:induction false} LayoutAllAppend(a: seq<Wired>, b: seq<Wired>)
    ensures LayoutAll(a + b) == LayoutAll(a) + LayoutAll(b)
  {
    if a == [] {
      Empty(b);
    } else {
      Uncons(a, b);
      LayoutAllAppend(a[1..], b);
      Assoc(Layout(a[0].frame, a[0].code), LayoutAll(a[1..]), LayoutAll(b));
    }
  }

  /** What a turn does to the histories is what its pull does. */
  lemma {:induction false} TurnShape(env: Env, cb: Callback, s: Loop)
    returns (t: Loop, why: Option<Why>, s1: Loop, p: Pull)
    ensures (t, why) == Turn(env, cb, s) && (s1, p) == PullTurn(env, s)
    ensures t.st == s1.st && t.net.unread == s1.net.unread && t.events == s1.events && t.pulled == s1.pulled
    ensures why == Some(RecvFailed) <==> p == NoPull
  {
    t, why := Turn(env, cb, s).0, Turn(env, cb, s).1;
    s1, p := PullTurn(env, s).0, PullTurn(env, s).1;
    if p.Pulled? && p.m.Some? {
      DispatchKeepsInput(env, cb, s1, p.m.value);
      DispatchStops(env, cb, s1, p.m.value);
    }
  }

  lemma {:induction false} DispatchStops(env: Env, cb: Callback, s: Loop, m: Message)
    ensures Dispatch(env, cb, s, m).1 != Some(RecvFailed)
  {}

  lemma {:induction false} PullTurnConsumes(env: Env, s: Loop)
    returns (es: seq<Event>, ws: seq<Wired>, rest: seq<byte>)
    requires Lockstep(s.st)
    ensures var (s1, p) := PullTurn(env, s);
      && AllDecodable(ws) && Frames(ws) == ReceivedFrames(es)
      && s1.events == s.events + es
      && s.net.unread == LayoutAll(ws) + rest
      && EndsIn(rest, s1.net.unread) && (p != NoPull ==> rest == s1.net.unread)
  {
    var s0 := Interrupt(env, s);
    var (o, st', net') := HandleSpec(env, s0.st, s0.net);
    es := Taken(o);
    PullInLockstep(env, s0.st, s0.net);
    ws, rest := RunDecomposes(env, s0.st, s0.net, 1);
    OneHandle(env, s0.st, s0.net);
  }

  lemma {:induction false} OneHandle(env: Env, st: RState, net: Net)
    ensures var (o, st', net') := HandleSpec(env, st, net);
      HandleMany(env, st, net, 1) == Run(!o.Failed?, Taken(o), st', net')
  {
    var (o, st', net') := HandleSpec(env, st, net);
    assert HandleMany(env, st', net', 0) == Run(true, [], st', net');
    assert Taken(o) + [] == Taken(o);
  }

  /** However the loop ended, the stream it began with is the layout of exactly the frames it took
      in, in order, and then what its last successful receive left; only a failed receive takes
      bytes beyond that, off the front. */
  lemma {:induction false} RunConsumes(env: Env, cb: Callback, s: Loop, es: seq<Event>)
    returns (ws: seq<Wired>, rest: seq<byte>)
    requires Lockstep(s.st)
    requires RunLoop(env, cb, s).0.events == s.events + es
    ensures var (end, why) := RunLoop(env, cb, s);
      && AllDecodable(ws) && Frames(ws) == ReceivedFrames(es)
      && s.net.unread == LayoutAll(ws) + rest
      && EndsIn(rest, end.net.unread) && (why != RecvFailed ==> rest == end.net.unread)
    decreases |s.net.unread|
  {
    TurnProgress(env, cb, s);
    var t, why, s1, p := TurnShape(env, cb, s);
    var first;
    first, ws, rest := PullTurnConsumes(env, s);
    if why == None {
      var fs, qs := RunTrace(env, cb, t);
      var vs;
      vs, rest := RunConsumes(env, cb, t, fs);
      Assoc(s.events, first, fs);
      Suffix(s.events, es, first + fs);
      JoinConsumed(first, fs, ws, vs);
      Assoc(LayoutAll(ws), LayoutAll(vs), rest);
      ws := ws + vs;
    } else {
      Suffix(s.events, es, first);
    }
  }

  lemma {:induction false} JoinConsumed(es: seq<Event>, fs: seq<Event>, ws: seq<Wired>, vs: seq<Wired>)
    requires Frames(ws) == ReceivedFrames(es) && Frames(vs) == ReceivedFrames(fs)
    requires AllDecodable(ws) && AllDecodable(vs)
    ensures Frames(ws + vs) == ReceivedFrames(es + fs) && AllDecodable(ws + vs)
    ensures LayoutAll(ws + vs) == LayoutAll(ws) + LayoutAll(vs)
  {
    ReceivedFramesAppend(es, fs);
    LayoutAllAppend(ws, vs);
    FramesAppend(ws, vs);
  }

  lemma {:induction false} FramesAppend(a: seq<Wired>, b: seq<Wired>)
    ensures Frames(a + b) == Frames(a) + Frames(b)
  {}

  /** Each message but the last cost at least two bytes of input. */
  lemma {:induction false} RunBound(env: Env, cb: Callback, s: Loop)
    requires Lockstep(s.st)
    ensures var (end, _) := RunLoop(env, cb, s);
      2 * |end.pulled| + |end.net.unread| <= 2 * |s.pulled| + |s.net.unread| + 2
    decreases |s.net.unread|
  {
    TurnProgress(env, cb, s);
    var es, ps := TurnAdds(env, cb, s);
    var (t, why) := Turn(env, cb, s);
    AtMostOne(env, cb, s);
    if why == None {
      RunBound(env, cb, t);
    }
  }

  lemma {:induction false} AtMostOne(env: Env, cb: Callback, s: Loop)
    ensures |Turn(env, cb, s).0.pulled| <= |s.pulled| + 1
  {
    var t, why, s1, p := TurnShape(env, cb, s);
  }

  /** Every body pulled is made of bytes that were pending or unread at the start. */
  lemma {:induction false} RunWithinLoad(env: Env, cb: Callback, s: Loop, ps: seq<Message>)
    requires Lockstep(s.st)
    requires RunLoop(env, cb, s).0.pulled == s.pulled + ps
    ensures forall m :: m in ps ==> |m.body| <= Load(s.st, s.net)
    decreases |s.net.unread|
  {
    TurnProgress(env, cb, s);
    var (t, why) := Turn(env, cb, s);
    var es1, ps1 := TurnAdds(env, cb, s);
    TurnWithinLoad(env, cb, s, ps1);
    if why == None {
      var fs, qs := RunTrace(env, cb, t);
      RunWithinLoad(env, cb, t, qs);
      Assoc(s.pulled, ps1, qs);
      Suffix(s.pulled, ps, ps1 + qs);
    } else {
      Suffix(s.pulled, ps, ps1);
    }
  }

  lemma {:induction false} TurnWithinLoad(env: Env, cb: Callback, s: Loop, ps: seq<Message>)
    requires Lockstep(s.st)
    requires Turn(env, cb, s).0.pulled == s.pulled + ps
    ensures Load(Turn(env, cb, s).0.st, Turn(env, cb, s).0.net) <= Load(s.st, s.net)
    ensures forall m :: m in ps ==> |m.body| <= Load(s.st, s.net)
  {
    var t, why, s1, p := TurnShape(env, cb, s);
    PullTurnWithinLoad(env, s, ps);
  }

  lemma {:induction false} PullTurnWithinLoad(env: Env, s: Loop, ps: seq<Message>)
    requires Lockstep(s.st)
    requires PullTurn(env, s).0.pulled == s.pulled + ps
    ensures Load(PullTurn(env, s).0.st, PullTurn(env, s).0.net) <= Load(s.st, s.net)
    ensures forall m :: m in ps ==> |m.body| <= Load(s.st, s.net)
  {
    var s0 := Interrupt(env, s);
    PullWithinLoad(env, s0.st, s0.net);
    var p := PullTurn(env, s).1;
    Suffix(s.pulled, ps, if p.Pulled? && p.m.Some? then [p.m.value] else []);
  }
}
