/** What the event loop of src/websocket.c writes: the answer to each message, in order. */
module LoopAnswers {
  import opened Bytes
  import opened Types
  import opened Masking
  import opened Wire
  import opened Protocol
  import opened Sockets
  import opened Reassembly
  import opened Reader
  import opened ReaderLaws
  import opened Session
  import opened SessionLaws
  import opened Sequences

  // ---- Answers, send by send.

  /** The part of a blob that an open stream takes in the send at tick `t`. */
  function Sent(env: Env, t: nat, blob: seq<byte>): seq<byte> {
    var n := Moved(env.sends(t), true, |blob|);
    if n < 0 then [] else blob[..n]
  }

  /** The answer at tick `t` to one message, given what was delivered before it: for a PING its PONG,
      under the key of that tick and as much of it as that send takes; for TEXT and BIN whatever the
      callback writes. */
  function Answer(env: Env, cb: Callback, delivered: seq<Message>, m: Message, t: nat): seq<byte> {
    if m.opcode == OPCODE_PING then Sent(env, t, Encode(ClientFrame(OPCODE_PONG, env.keys(t), m.body)))
    else if ForUser(m) then cb(delivered + [m]).wrote
    else []
  }

  function Answers(env: Env, cb: Callback, delivered: seq<Message>, ms: seq<Message>, ts: seq<nat>): seq<byte>
    requires |ts| == |ms|
    decreases |ms|
  {
    if ms == [] then []
    else
      Answer(env, cb, delivered, ms[0], ts[0])
      + Answers(env, cb, delivered + DataOnly([ms[0]]), ms[1..], ts[1..])
  }

  /** A PONG can be written at tick `t`: the body is not one that ws_client_write refuses, and the
      environment does not fail that send. */
  predicate Answerable(env: Env, m: Message, t: nat) {
    m.opcode == OPCODE_PING ==> |m.body| != TWO_TO_THE_16 && env.sends(t) != Fail
  }

  ghost predicate AllAnswerable(env: Env, ms: seq<Message>, ts: seq<nat>)
    requires |ts| == |ms|
  {
    forall i :: 0 <= i < |ms| ==> Answerable(env, ms[i], ts[i])
  }

  /** The messages that got their answer: all of them, unless the last PONG could not be written. */
  function Answered(ps: seq<Message>, why: Why): seq<Message> {
    if why == PongFailed && ps != [] then ps[..|ps| - 1] else ps
  }

  /** Ticks in order, after `from` and not after `to`. */
  ghost predicate Ticks(from: nat, ts: seq<nat>, to: nat) {
    && from <= to
    && (forall i :: 0 <= i < |ts| ==> from < ts[i] <= to)
    && (forall i, j :: 0 <= i < j < |ts| ==> ts[i] < ts[j])
  }

  // ---- One turn.

  /** One dispatched message on an open stream is answered exactly when it can be. */
  lemma {:induction false} DispatchWrites(env: Env, cb: Callback, s: Loop, m: Message)
    requires s.net.open
    ensures var (t, why) := Dispatch(env, cb, s, m);
      && (why == Some(PongFailed) <==> !Answerable(env, m, s.net.clock))
      && s.net.clock <= t.net.clock
      && t.net.sent == s.net.sent +
         if why == Some(PongFailed) then [] else Answer(env, cb, s.delivered, m, s.net.clock)
  {
    Empty(s.net.sent);
    if m.opcode == OPCODE_PING && |m.body| != TWO_TO_THE_16 {
      assert Encode(ClientFrame(OPCODE_PONG, env.keys(s.net.clock), m.body))[..0] == [];
    }
  }

  /** A message is only handed out while the stream is open, and pulling it sends nothing. */
  lemma {:induction false} PullNeedsOpen(env: Env, s: Loop)
    ensures var (s1, p) := PullTurn(env, s);
      && s.net.clock < s1.net.clock && s1.net.sent == s.net.sent && s1.delivered == s.delivered
      && (p != NoPull ==> s1.net.open)
  {
    HandleFrame(env, Interrupt(env, s).st, Interrupt(env, s).net);
  }

  /** After its dispatch a turn writes no more. */
  lemma {:induction false} DispatchDecides(env: Env, cb: Callback, s1: Loop, m: Message)
    ensures var (t, why) := Respond(env, cb, s1, m);
      var (d, w) := Dispatch(env, cb, s1, m);
      t.net.sent == d.net.sent && d.net.clock <= t.net.clock && (why == Some(PongFailed) <==> w == Some(PongFailed))
  {}

  /** One turn: the tick of its answer, and what it wrote. */
  lemma {:induction false} TurnWrites(env: Env, cb: Callback, s: Loop, ps: seq<Message>) returns (tick: nat)
    requires Turn(env, cb, s).0.pulled == s.pulled + ps
    ensures var (t, why) := Turn(env, cb, s);
      && |ps| <= 1
      && s.net.clock < tick <= t.net.clock
      && (why == Some(PongFailed) <==> ps != [] && !Answerable(env, ps[0], tick))
      && t.net.sent == s.net.sent +
         if ps == [] || why == Some(PongFailed) then [] else Answer(env, cb, s.delivered, ps[0], tick)
  {
    var t, why, s1, p := TurnShape(env, cb, s);
    PullNeedsOpen(env, s);
    Suffix(s.pulled, ps, if p.Pulled? && p.m.Some? then [p.m.value] else []);
    Empty(s.net.sent);
    tick := s1.net.clock;
    if p.Pulled? && p.m.Some? {
      DispatchWrites(env, cb, s1, p.m.value);
      DispatchDecides(env, cb, s1, p.m.value);
    }
  }

  // ---- Whole runs.

  /** What the messages `ps` had written between two states of the loop: the answer to each of the
      answered ones in order, each at its own tick `ts`, all of them answerable; and when a PONG
      failed, it is the answer to the last message, which at the tick `failed` is not answerable. */
  ghost predicate Wrote(env: Env, cb: Callback, s: Loop, end: Loop, why: Why, ps: seq<Message>, ts: seq<nat>,
      failed: nat)
  {
    var done := Answered(ps, why);
    && |ts| == |done|
    && end.net.sent == s.net.sent + Answers(env, cb, s.delivered, done, ts)
    && AllAnswerable(env, done, ts)
    && Ticks(s.net.clock, if why == PongFailed then ts + [failed] else ts, end.net.clock)
    && (why == PongFailed ==> ps != [] && !Answerable(env, ps[|ps| - 1], failed))
  }

  /** Whatever the run, what it wrote is the answer to each message in order: one PONG with the same
      body for each PING, under the key of its own send and cut only where the environment cut that
      send, and the callback's own bytes for each TEXT or BIN. Only the last message can have gone
      without its PONG, and only if it could not be written. */
  lemma {:induction false} RunWrites(env: Env, cb: Callback, s: Loop, ps: seq<Message>)
    returns (ts: seq<nat>, failed: nat)
    requires Lockstep(s.st)
    requires RunLoop(env, cb, s).0.pulled == s.pulled + ps
    ensures Wrote(env, cb, s, RunLoop(env, cb, s).0, RunLoop(env, cb, s).1, ps, ts, failed)
    decreases |s.net.unread|
  {
    TurnProgress(env, cb, s);
    var (t, stop) := Turn(env, cb, s);
    var es1, ps1 := TurnAdds(env, cb, s);
    var tick := TurnWrites(env, cb, s, ps1);
    if stop == None {
      var fs, qs := RunTrace(env, cb, t);
      var (end, why) := RunLoop(env, cb, t);
      var more;
      more, failed := RunWrites(env, cb, t, qs);
      assert ps1 == [ps1[0]];
      Assoc(s.pulled, ps1, qs);
      Suffix(s.pulled, ps, ps1 + qs);
      ts := [tick] + more;
      WroteFirst(env, cb, s, t, end, why, ps1[0], qs, tick, more, failed);
    } else {
      Suffix(s.pulled, ps, ps1);
      ts, failed := WroteLast(env, cb, s, t, stop.value, ps, tick);
    }
  }

  lemma {:induction false} WroteFirst(env: Env, cb: Callback, s: Loop, t: Loop, end: Loop, why: Why, m: Message,
      qs: seq<Message>, tick: nat, more: seq<nat>, failed: nat)
    requires s.net.clock < tick <= t.net.clock && Answerable(env, m, tick)
    requires t.delivered == s.delivered + DataOnly([m])
    requires t.net.sent == s.net.sent + Answer(env, cb, s.delivered, m, tick)
    requires Wrote(env, cb, t, end, why, qs, more, failed)
    ensures Wrote(env, cb, s, end, why, [m] + qs, [tick] + more, failed)
  {
    AnswersJoin(env, cb, s.delivered, m, qs, tick, more, why);
    Assoc(s.net.sent, Answer(env, cb, s.delivered, m, tick), Answers(env, cb, t.delivered, Answered(qs, why), more));
    Assoc([tick], more, [failed]);
    TicksJoin(s.net.clock, tick, t.net.clock, if why == PongFailed then more + [failed] else more, end.net.clock);
  }

  lemma {:induction false} TicksJoin(from: nat, tick: nat, mid: nat, more: seq<nat>, to: nat)
    requires from < tick <= mid && Ticks(mid, more, to)
    ensures Ticks(from, [tick] + more, to)
  {}

  lemma {:induction false} AnswersJoin(env: Env, cb: Callback, d: seq<Message>, m: Message, qs: seq<Message>, t: nat,
      more: seq<nat>, why: Why)
    requires why == PongFailed ==> qs != []
    requires |more| == |Answered(qs, why)|
    requires Answerable(env, m, t) && AllAnswerable(env, Answered(qs, why), more)
    ensures var done := Answered([m] + qs, why);
      && |[t] + more| == |done| && AllAnswerable(env, done, [t] + more)
      && Answers(env, cb, d, done, [t] + more) ==
         Answer(env, cb, d, m, t) + Answers(env, cb, d + DataOnly([m]), Answered(qs, why), more)
  {
    if why == PongFailed {
      assert ([m] + qs)[..|qs|] == [m] + qs[..|qs| - 1];
    }
    var done := Answered([m] + qs, why);
    assert done == [m] + Answered(qs, why);
    assert done[1..] == Answered(qs, why) && ([t] + more)[1..] == more;
  }

  lemma {:induction false} WroteLast(env: Env, cb: Callback, s: Loop, t: Loop, why: Why, ps: seq<Message>, tick: nat)
    returns (ts: seq<nat>, failed: nat)
    requires |ps| <= 1 && s.net.clock < tick <= t.net.clock
    requires why == PongFailed <==> ps != [] && !Answerable(env, ps[0], tick)
    requires t.net.sent == s.net.sent +
      if ps == [] || why == PongFailed then [] else Answer(env, cb, s.delivered, ps[0], tick)
    ensures Wrote(env, cb, s, t, why, ps, ts, failed)
  {
    failed := tick;
    if ps == [] || why == PongFailed {
      ts := [];
      assert Answered(ps, why) == [];
      assert [] + [failed] == [failed];
    } else {
      ts := [tick];
      Empty(Answer(env, cb, s.delivered, ps[0], tick));
    }
  }

  // ---- PING and PONG.

  /** Every send is taken whole or fails. Peeks and reads are not constrained. */
  ghost predicate WholeSends(env: Env) {
    forall t :: !env.sends(t).Upto?
  }

  /** Messages on the wire and the keys they are masked with. */
  datatype Spoken = Spoken(ms: seq<Message>, keys: seq<Key>)

  /** What a callback writes when it writes messages: for every history, those of its own
      ws_client_write calls that went out. */
  type Speech = seq<Message> -> Spoken

  ghost predicate WellSpoken(p: Spoken) {
    |p.keys| == |p.ms| && WellTyped(p.ms)
  }

  /** The callback's own bytes are the client frames of the messages it writes, if any. */
  ghost predicate Speaks(cb: Callback, say: Speech) {
    forall d :: WellSpoken(say(d)) && cb(d).wrote == EncodeAll(ClientFrames(say(d).ms, say(d).keys))
  }

  /** What a peer hears in reply to one message: a PONG with the same body for a PING, the callback's
      messages for TEXT and BIN, nothing for the rest. */
  function Reply(say: Speech, delivered: seq<Message>, m: Message): seq<Message> {
    if m.opcode == OPCODE_PING then [Message(OPCODE_PONG, m.body)]
    else if ForUser(m) then say(delivered + [m]).ms
    else []
  }

  function ReplyKeys(env: Env, say: Speech, delivered: seq<Message>, m: Message, t: nat): seq<Key> {
    if m.opcode == OPCODE_PING then [env.keys(t)]
    else if ForUser(m) then say(delivered + [m]).keys
    else []
  }

  /** The replies to all the messages, in order. */
  function Talk(say: Speech, delivered: seq<Message>, ms: seq<Message>): seq<Message>
    decreases |ms|
  {
    if ms == [] then []
    else Reply(say, delivered, ms[0]) + Talk(say, delivered + DataOnly([ms[0]]), ms[1..])
  }

  lemma {:induction false} EncodeAllAppend(a: seq<Frame>, b: seq<Frame>)
    ensures EncodeAll(a + b) == EncodeAll(a) + EncodeAll(b)
  {
    if a == [] {
      Empty(b);
      Empty(EncodeAll(b));
    } else {
      Uncons(a, b);
      EncodeAllAppend(a[1..], b);
      Assoc(Encode(a[0]), EncodeAll(a[1..]), EncodeAll(b));
    }
  }

  lemma {:induction false} ClientFramesAppend(a: seq<Message>, b: seq<Message>, ks: seq<Key>, js: seq<Key>)
    requires |ks| == |a| && |js| == |b|
    ensures ClientFrames(a + b, ks + js) == ClientFrames(a, ks) + ClientFrames(b, js)
  {
    var l, r := ClientFrames(a + b, ks + js), ClientFrames(a, ks) + ClientFrames(b, js);
    assert |l| == |r| && forall i :: 0 <= i < |l| ==> l[i] == r[i];
  }

  /** One answer is the client frames of its reply. */
  lemma {:induction false} AnswerIsReply(env: Env, cb: Callback, say: Speech, d: seq<Message>, m: Message, t: nat)
    requires Speaks(cb, say) && Answerable(env, m, t) && !env.sends(t).Upto?
    ensures |ReplyKeys(env, say, d, m, t)| == |Reply(say, d, m)|
    ensures Answer(env, cb, d, m, t) == EncodeAll(ClientFrames(Reply(say, d, m), ReplyKeys(env, say, d, m, t)))
  {
    if m.opcode == OPCODE_PING {
      var f := ClientFrame(OPCODE_PONG, env.keys(t), m.body);
      assert Encode(f)[..|Encode(f)|] == Encode(f);
      assert ClientFrames(Reply(say, d, m), ReplyKeys(env, say, d, m, t)) == [f];
      EncodeAllCons(f, []);
      Empty([f]);
      Empty(Encode(f));
    } else if ForUser(m) {
      assert WellSpoken(say(d + [m]));
    }
  }

  /** When no send is cut short, the answers are the client frames of the talk. */
  lemma {:induction false} AnswersAreTalk(env: Env, cb: Callback, say: Speech, d: seq<Message>, ms: seq<Message>,
      ts: seq<nat>) returns (ks: seq<Key>)
    requires Speaks(cb, say) && WholeSends(env) && |ts| == |ms| && AllAnswerable(env, ms, ts)
    ensures |ks| == |Talk(say, d, ms)|
    ensures Answers(env, cb, d, ms, ts) == EncodeAll(ClientFrames(Talk(say, d, ms), ks))
    decreases |ms|
  {
    ks := [];
    if ms != [] {
      var m, t := ms[0], ts[0];
      var d' := d + DataOnly([m]);
      assert Answerable(env, m, t);
      AllAnswerableRest(env, ms, ts);
      var more := AnswersAreTalk(env, cb, say, d', ms[1..], ts[1..]);
      AnswerIsReply(env, cb, say, d, m, t);
      var first := ReplyKeys(env, say, d, m, t);
      ClientFramesAppend(Reply(say, d, m), Talk(say, d', ms[1..]), first, more);
      EncodeAllAppend(ClientFrames(Reply(say, d, m), first), ClientFrames(Talk(say, d', ms[1..]), more));
      ks := first + more;
    }
  }

  lemma {:induction false} AllAnswerableRest(env: Env, ms: seq<Message>, ts: seq<nat>)
    requires |ts| == |ms| > 0 && AllAnswerable(env, ms, ts)
    ensures AllAnswerable(env, ms[1..], ts[1..])
  {
    forall i | 0 <= i < |ms[1..]|
      ensures Answerable(env, ms[1..][i], ts[1..][i])
    {
      assert Answerable(env, ms[i + 1], ts[i + 1]);
    }
  }

  lemma {:induction false} TalkWellTyped(cb: Callback, say: Speech, d: seq<Message>, ms: seq<Message>)
    requires Speaks(cb, say) && forall m :: m in ms ==> |m.body| < LENGTH_LIMIT
    ensures WellTyped(Talk(say, d, ms))
    decreases |ms|
  {
    if ms != [] {
      var m := ms[0];
      assert m in ms;
      assert WellSpoken(say(d + [m]));
      TalkWellTyped(cb, say, d + DataOnly([m]), ms[1..]);
    }
  }

  /** What the peer hears, for input that arrives in any pieces and a callback that writes any
      messages of its own: when no send is cut short, a peer that reads back what the loop wrote
      pulls, in order, one PONG with the same body for each answered PING and the callback's messages
      for each TEXT or BIN, and nothing else. */
  lemma {:induction false} PeerHears(env: Env, cb: Callback, say: Speech, s: Loop, ps: seq<Message>, back: Env,
      peer: Net, rest: seq<byte>)
    requires Lockstep(s.st) && WholeSends(env) && Speaks(cb, say) && s.net.sent == []
    requires Load(s.st, s.net) < LENGTH_LIMIT
    requires RunLoop(env, cb, s).0.pulled == s.pulled + ps
    requires Full(back) && peer.open && peer.unread == RunLoop(env, cb, s).0.net.sent + rest
    ensures var talk := Talk(say, s.delivered, Answered(ps, RunLoop(env, cb, s).1));
      var r := PullMany(back, FRESH, peer, |talk|);
      r.ok && r.out == AllSome(talk) && r.st == FRESH && r.net.unread == rest
  {
    var (end, why) := RunLoop(env, cb, s);
    var done := Answered(ps, why);
    var ts, failed := RunWrites(env, cb, s, ps);
    var ks := AnswersAreTalk(env, cb, say, s.delivered, done, ts);
    RunWithinLoad(env, cb, s, ps);
    assert forall m :: m in done ==> m in ps;
    TalkWellTyped(cb, say, s.delivered, done);
    var talk := Talk(say, s.delivered, done);
    Empty(EncodeAll(ClientFrames(talk, ks)));
    PullClientFrames(back, peer, talk, ks, rest);
  }

  // ---- Callbacks that write nothing.

  function PongsFor(ms: seq<Message>): seq<Message> {
    if ms == [] then []
    else (if ms[0].opcode == OPCODE_PING then [Message(OPCODE_PONG, ms[0].body)] else []) + PongsFor(ms[1..])
  }

  ghost predicate Silent(cb: Callback) {
    forall d :: cb(d).wrote == []
  }

  lemma {:induction false} SilentTalk(say: Speech, d: seq<Message>, ms: seq<Message>)
    requires forall h :: say(h).ms == []
    ensures Talk(say, d, ms) == PongsFor(ms)
    decreases |ms|
  {
    if ms != [] {
      SilentTalk(say, d + DataOnly([ms[0]]), ms[1..]);
    }
  }

  /** Section 5.5.3 of RFC 6455, end to end: when the callback writes nothing and no send is cut short,
      the peer pulls one PONG for each answered PING, in order, with the same body, and nothing else. */
  lemma {:induction false} PingsArePonged(env: Env, cb: Callback, s: Loop, ps: seq<Message>, back: Env,
      peer: Net, rest: seq<byte>)
    requires Lockstep(s.st) && WholeSends(env) && Silent(cb) && s.net.sent == []
    requires Load(s.st, s.net) < LENGTH_LIMIT
    requires RunLoop(env, cb, s).0.pulled == s.pulled + ps
    requires Full(back) && peer.open && peer.unread == RunLoop(env, cb, s).0.net.sent + rest
    ensures var pongs := PongsFor(Answered(ps, RunLoop(env, cb, s).1));
      var r := PullMany(back, FRESH, peer, |pongs|);
      r.ok && r.out == AllSome(pongs) && r.st == FRESH && r.net.unread == rest
  {
    var say := (d: seq<Message>) => Spoken([], []);
    PeerHears(env, cb, say, s, ps, back, peer, rest);
    SilentTalk(say, s.delivered, Answered(ps, RunLoop(env, cb, s).1));
  }
}
