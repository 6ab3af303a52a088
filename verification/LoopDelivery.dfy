/** What the event loop of src/websocket.c delivers when nothing outside interferes, for every byte
    stream a server may send and every callback. */
module LoopDelivery {
  import opened Bytes
  import opened Types
  import opened Masking
  import opened Wire
  import opened Protocol
  import opened Sockets
  import opened Reassembly
  import opened Reader
  import opened ReaderLaws
  import opened Session
  import opened SessionLaws
  import opened Sequences

  /** Full counts and no shutdown from another thread. The callback may do as it likes. */
  ghost predicate Undisturbed(env: Env) {
    Full(env) && FullSends(env) && forall t :: !env.shutdowns(t)
  }

  /** A loop that is running on an open connection, between two turns. */
  predicate Running(s: Loop) {
    Lockstep(s.st) && s.net.open && s.flag
  }

  // ---- One turn.

  /** Why the loop stops after a message, given what was delivered before it: a CLOSE, a PING whose
      PONG ws_client_write refuses, or a TEXT or BIN whose callback refuses or shuts the loop down. */
  function StopAt(cb: Callback, d: seq<Message>, m: Message): Option<Why> {
    if m.opcode == OPCODE_CLOSE then Some(CloseReceived)
    else if m.opcode == OPCODE_PING && |m.body| == TWO_TO_THE_16 then Some(PongFailed)
    else if ForUser(m) && !cb(d + [m]).keepGoing then Some(CallbackRefused)
    else if ForUser(m) && cb(d + [m]).shutdown then Some(FlagCleared)
    else None
  }

  /** Why it stops after a frame that completed these messages; completing none is a reason too. */
  function StopOf(cb: Callback, d: seq<Message>, out: seq<Tagged>): Option<Why> {
    if out == [] then Some(NullMessage) else StopAt(cb, d, out[0].m)
  }

  lemma {:induction false} UndisturbedPull(env: Env, s: Loop, w: Wired, rest: seq<byte>)
    requires Undisturbed(env) && Running(s)
    requires Decodable(w.frame, w.code) && s.net.unread == Layout(w.frame, w.code) + rest
    ensures var (s1, p) := PullTurn(env, s);
      var (frames, out) := Step(s.st.frames, Received(w.frame));
      && p == Pulled(FirstOf(out)) && Running(s1) && s1.net.unread == rest && s1.st.frames == frames
      && s1.delivered == s.delivered && s1.pulled == s.pulled + Untag(out)
  {
    assert !env.shutdowns(s.net.clock);
    var s0 := Interrupt(env, s);
    FullStep(env, s0.st, s0.net, w, rest);
    PullInLockstep(env, s0.st, s0.net);
    FoldOne(s.st.frames, Received(w.frame));
  }

  lemma {:induction false} UndisturbedRespond(env: Env, cb: Callback, s: Loop, m: Message)
    requires Undisturbed(env) && Running(s)
    ensures var (t, why) := Respond(env, cb, s, m);
      && t.st == s.st && t.net.unread == s.net.unread && t.pulled == s.pulled
      && t.delivered == s.delivered + DataOnly([m])
      && why == StopAt(cb, s.delivered, m) && (why == None ==> Running(t))
  {
    assert env.sends(s.net.clock) == All;
    DispatchKeepsInput(env, cb, s, m);
    DispatchAdds(env, cb, s, m);
    var s2 := Dispatch(env, cb, s, m).0;
    assert !env.shutdowns(s2.net.clock);
  }

  /** One undisturbed turn on any decodable frame, whatever was pending. */
  lemma {:induction false} UndisturbedTurn(env: Env, cb: Callback, s: Loop, w: Wired, rest: seq<byte>)
    requires Undisturbed(env) && Running(s)
    requires Decodable(w.frame, w.code) && s.net.unread == Layout(w.frame, w.code) + rest
    ensures var (t, why) := Turn(env, cb, s);
      var (frames, out) := Step(s.st.frames, Received(w.frame));
      && t.net.unread == rest && t.st.frames == frames && t.pulled == s.pulled + Untag(out)
      && t.delivered == s.delivered + DataOnly(Untag(out))
      && why == StopOf(cb, s.delivered, out) && (why == None ==> Running(t))
  {
    UndisturbedPull(env, s, w, rest);
    var (s1, p) := PullTurn(env, s);
    var out := Step(s.st.frames, Received(w.frame)).1;
    UntagOne(out);
    if p.m.Some? {
      UndisturbedRespond(env, cb, s1, p.m.value);
    } else {
      Empty(s.delivered);
    }
  }

  /** A fragment that is not the last of its message stops the loop, although the reader keeps it:
      the loop takes the absence of a message for the end of the connection. */
  lemma {:induction false} FragmentStopsLoop(env: Env, cb: Callback, s: Loop, w: Wired, rest: seq<byte>)
    requires Undisturbed(env) && Running(s)
    requires Decodable(w.frame, w.code) && s.net.unread == Layout(w.frame, w.code) + rest
    ensures Turn(env, cb, s).1 == Some(NullMessage) <==> !w.frame.Final()
    ensures !w.frame.Final() ==>
      var (end, why) := RunLoop(env, cb, s);
      why == NullMessage && end.delivered == s.delivered && end.net.unread == rest
      && end.st.frames == s.st.frames + [w.frame]
  {
    UndisturbedTurn(env, cb, s, w, rest);
    if !w.frame.Final() {
      StopEndsRun(env, cb, s);
      Empty(s.delivered);
    }
  }

  lemma {:induction false} StopEndsRun(env: Env, cb: Callback, s: Loop)
    requires Lockstep(s.st) && Turn(env, cb, s).1.Some?
    ensures RunLoop(env, cb, s) == (Turn(env, cb, s).0, Turn(env, cb, s).1.value)
  {}

  /** Nothing that decodes is left: the loop ends at the end of the stream, or on a failed receive. */
  lemma {:induction false} NothingDecodes(env: Env, cb: Callback, s: Loop)
    requires Undisturbed(env) && Running(s) && DecodeFrame(s.net.unread) == None
    ensures var (end, why) := RunLoop(env, cb, s);
      && end.pulled == s.pulled && end.st.frames == s.st.frames
      && why == if s.net.unread == [] then NullMessage else RecvFailed
  {
    assert !env.shutdowns(s.net.clock);
    var s0 := Interrupt(env, s);
    FullHandle(env, s0.st, s0.net);
    PullInLockstep(env, s0.st, s0.net);
    HandleFrame(env, s0.st, s0.net);
    Empty(s.pulled);
    assert Untag(Emissions(s.st.frames, [])) == [];
  }

  // ---- Whole streams.

  /** Every byte stream is some frames and then bytes that do not decode. */
  lemma {:induction false} EveryStream(bs: seq<byte>) returns (ws: seq<Wired>, rest: seq<byte>)
    ensures AllDecodable(ws) && bs == LayoutAll(ws) + rest && DecodeFrame(rest) == None
    decreases |bs|
  {
    ws, rest := [], bs;
    Empty(bs);
    if DecodeFrame(bs).Some? {
      DecodedIsLayout(bs);
      var (f, k) := DecodeFrame(bs).value;
      var w := Wired(f, LengthCodeOf(bs[1]));
      ws, rest := EveryStream(bs[k..]);
      LayoutAllCons(w, ws);
      Split(bs, k);
      Assoc(Layout(f, w.code), LayoutAll(ws), rest);
      assert forall v :: v in [w] + ws ==> v == w || v in ws;
      ws := [w] + ws;
    }
  }

  /** How far a stream of frames is followed: the messages they make up to the first frame that
      stops the loop, how many frames that takes, what is then pending, and why it stops there, if
      it does. */
  datatype Course = Course(pulled: seq<Message>, taken: nat, pending: seq<Frame>, stop: Option<Why>)

  function CourseOf(cb: Callback, d: seq<Message>, pending: seq<Frame>, ws: seq<Wired>): (c: Course)
    ensures c.taken <= |ws| && (c.stop == None ==> c.taken == |ws|)
    decreases |ws|
  {
    if ws == [] then Course([], 0, pending, None)
    else
      var (frames, out) := Step(pending, Received(ws[0].frame));
      var stop := StopOf(cb, d, out);
      if stop.Some? then Course(Untag(out), 1, frames, stop)
      else
        var c := CourseOf(cb, d + DataOnly(Untag(out)), frames, ws[1..]);
        c.(pulled := Untag(out) + c.pulled, taken := 1 + c.taken)
  }

  /** An undisturbed loop follows the course of its stream, whatever the stream and the callback: it
      pulls exactly those messages, stops for that reason and leaves what follows; if nothing stops
      it, it ends where decoding ends. With EveryStream this covers every input. */
  lemma {:induction false} UndisturbedRun(env: Env, cb: Callback, s: Loop, ws: seq<Wired>, rest: seq<byte>)
    requires Undisturbed(env) && Running(s)
    requires AllDecodable(ws) && s.net.unread == LayoutAll(ws) + rest && DecodeFrame(rest) == None
    ensures var (end, why) := RunLoop(env, cb, s);
      var c := CourseOf(cb, s.delivered, s.st.frames, ws);
      && end.pulled == s.pulled + c.pulled && end.st.frames == c.pending
      && (c.stop.Some? ==> why == c.stop.value && end.net.unread == LayoutAll(ws[c.taken..]) + rest)
      && (c.stop == None ==> why == if rest == [] then NullMessage else RecvFailed)
    decreases |ws|
  {
    if ws == [] {
      Empty(rest);
      Empty(s.pulled);
      NothingDecodes(env, cb, s);
    } else {
      var w, tail := ws[0], LayoutAll(ws[1..]) + rest;
      assert w in ws;
      Assoc(Layout(w.frame, w.code), LayoutAll(ws[1..]), rest);
      UndisturbedTurn(env, cb, s, w, tail);
      var (t, stop) := Turn(env, cb, s);
      if stop == None {
        UndisturbedRun(env, cb, t, ws[1..], rest);
        var (frames, out) := Step(s.st.frames, Received(w.frame));
        var c := CourseOf(cb, t.delivered, frames, ws[1..]);
        Assoc(s.pulled, Untag(out), c.pulled);
        DropDrop(ws, 1, c.taken);
      }
    }
  }

  // ---- What is delivered.

  function UpToClose(ms: seq<Message>): seq<Message> {
    if ms == [] then []
    else if ms[0].opcode == OPCODE_CLOSE then [ms[0]]
    else [ms[0]] + UpToClose(ms[1..])
  }

  /** All the messages that frames make, as a reader that never stops hands them out. */
  function MessagesOf(pending: seq<Frame>, ws: seq<Wired>): seq<Message> {
    Untag(Emissions(pending, Events(Frames(ws))))
  }

  lemma {:induction false} MessagesFirst(pending: seq<Frame>, ws: seq<Wired>)
    requires ws != []
    ensures var (frames, out) := Step(pending, Received(ws[0].frame));
      MessagesOf(pending, ws) == Untag(out) + MessagesOf(frames, ws[1..])
  {
    var (frames, out) := Step(pending, Received(ws[0].frame));
    EventsOfWired(ws);
    var es := Events(Frames(ws));
    assert es[1..] == Events(Frames(ws[1..]));
    UntagAppend(out, Emissions(frames, es[1..]));
  }

  /** A frame completes at most one message. */
  lemma {:induction false} UpToCloseFirst(cb: Callback, d: seq<Message>, out: seq<Tagged>, ms: seq<Message>)
    requires |out| <= 1
    ensures UpToClose(Untag(out) + ms) ==
      Untag(out) + if StopOf(cb, d, out) == Some(CloseReceived) then [] else UpToClose(ms)
  {
    UntagOne(out);
    if out == [] {
      Empty(ms);
      Empty(UpToClose(ms));
    } else {
      Uncons(Untag(out), ms);
      assert Untag(out)[1..] + ms == ms;
    }
  }

  /** The course is a first part of all the messages; it is the part up to the first CLOSE, or lacks
      what the remaining frames bring before that CLOSE. */
  lemma {:induction false} CourseSplits(cb: Callback, d: seq<Message>, pending: seq<Frame>, ws: seq<Wired>)
    ensures var c := CourseOf(cb, d, pending, ws);
      UpToClose(MessagesOf(pending, ws)) ==
      c.pulled + if c.stop == Some(CloseReceived) then [] else UpToClose(MessagesOf(c.pending, ws[c.taken..]))
    decreases |ws|
  {
    if ws != [] {
      var (frames, out) := Step(pending, Received(ws[0].frame));
      MessagesFirst(pending, ws);
      UpToCloseFirst(cb, d, out, MessagesOf(frames, ws[1..]));
      if StopOf(cb, d, out) == None {
        var d' := d + DataOnly(Untag(out));
        CourseSplits(cb, d', frames, ws[1..]);
        var c := CourseOf(cb, d', frames, ws[1..]);
        DropDrop(ws, 1, c.taken);
        Assoc(Untag(out), c.pulled,
              if c.stop == Some(CloseReceived) then [] else UpToClose(MessagesOf(c.pending, ws[1..][c.taken..])));
      }
    }
  }

  /** An undisturbed loop delivers, in order, a first part of the TEXT and BIN messages that precede
      the first CLOSE; and it delivers all of them if and only if a CLOSE stopped it or no TEXT or
      BIN message precedes the first CLOSE in the frames it left unread. */
  lemma {:induction false} UndisturbedDelivery(env: Env, cb: Callback, s: Loop, ws: seq<Wired>, rest: seq<byte>)
    requires Undisturbed(env) && Running(s)
    requires AllDecodable(ws) && s.net.unread == LayoutAll(ws) + rest && DecodeFrame(rest) == None
    ensures var end := RunLoop(env, cb, s).0;
      var c := CourseOf(cb, s.delivered, s.st.frames, ws);
      var wanted := s.delivered + DataOnly(UpToClose(MessagesOf(s.st.frames, ws)));
      && end.delivered <= wanted
      && (end.delivered == wanted <==>
            c.stop == Some(CloseReceived) || DataOnly(UpToClose(MessagesOf(c.pending, ws[c.taken..]))) == [])
  {
    RunDelivers(env, cb, s, ws, rest);
    var c := CourseOf(cb, s.delivered, s.st.frames, ws);
    CourseSplits(cb, s.delivered, s.st.frames, ws);
    var left := if c.stop == Some(CloseReceived) then [] else UpToClose(MessagesOf(c.pending, ws[c.taken..]));
    DataOnlyAppend(c.pulled, left);
    Assoc(s.delivered, DataOnly(c.pulled), DataOnly(left));
    var end := RunLoop(env, cb, s).0;
    assert end.delivered + DataOnly(left) == s.delivered + DataOnly(UpToClose(MessagesOf(s.st.frames, ws)));
  }

  lemma {:induction false} RunDelivers(env: Env, cb: Callback, s: Loop, ws: seq<Wired>, rest: seq<byte>)
    requires Undisturbed(env) && Running(s)
    requires AllDecodable(ws) && s.net.unread == LayoutAll(ws) + rest && DecodeFrame(rest) == None
    ensures RunLoop(env, cb, s).0.delivered ==
      s.delivered + DataOnly(CourseOf(cb, s.delivered, s.st.frames, ws).pulled)
  {
    UndisturbedRun(env, cb, s, ws, rest);
    var es, ps := RunTrace(env, cb, s);
    Suffix(s.pulled, ps, CourseOf(cb, s.delivered, s.st.frames, ws).pulled);
  }

  lemma {:induction false} TwoFragments(text: Frame, cont: Frame)
    requires text == Frame(0x01, false, ZERO_KEY, [0x48]) && cont == Frame(0x80, false, ZERO_KEY, [0x69])
    ensures Decodable(text, 1) && Decodable(cont, 1) && !text.Final()
    ensures MessagesOf([], [Wired(text, 1), Wired(cont, 1)]) == [Message(OPCODE_TEXT, [0x48, 0x69])]
  {
    assert Frames([Wired(text, 1), Wired(cont, 1)]) == [text, cont];
    assert [text, cont] == [text] + [cont];
    FragmentsMakeOneMessage([], [text, cont]);
    PayloadsSnoc([], text);
    PayloadsSnoc([text], cont);
    Empty([text, cont]);
    Empty([text]);
    assert Assemble([text, cont]) == Message(OPCODE_TEXT, [0x48, 0x69]);
    UntagOne([Whole(Assemble([text, cont]))]);
  }

  /** A message that is lost: TEXT in two fragments, sent to a fresh loop. Nothing is delivered,
      whatever the callback, although the two frames make one TEXT message. */
  lemma {:induction false} FragmentedTextIsLost(env: Env, cb: Callback, s: Loop) returns (ws: seq<Wired>)
    requires Undisturbed(env) && Running(s) && s.st.frames == []
    ensures AllDecodable(ws) && |ws| == 2
    ensures MessagesOf([], ws) == [Message(OPCODE_TEXT, [0x48, 0x69])]
    ensures s.net.unread == LayoutAll(ws) ==>
      RunLoop(env, cb, s).0.delivered == s.delivered && RunLoop(env, cb, s).1 == NullMessage
  {
    var text, cont := Frame(0x01, false, ZERO_KEY, [0x48]), Frame(0x80, false, ZERO_KEY, [0x69]);
    ws := [Wired(text, 1), Wired(cont, 1)];
    TwoFragments(text, cont);
    assert ws[1..] == [ws[1]];
    if s.net.unread == LayoutAll(ws) {
      assert ws[0] in ws;
      FragmentStopsLoop(env, cb, s, ws[0], LayoutAll(ws[1..]));
    }
  }

  // ---- Fresh readers, frame by frame.

  /** The message a final frame makes on its own. */
  function MessageOf(f: Frame): Message {
    Message(f.Opcode(), f.payload)
  }

  function OwnMessages(ws: seq<Wired>): (ms: seq<Message>)
    ensures |ms| == |ws|
  {
    seq(|ws|, i requires 0 <= i < |ws| => MessageOf(ws[i].frame))
  }

  /** Why a frame stops a loop with nothing pending, given what was delivered before it. */
  function StopAlone(cb: Callback, d: seq<Message>, f: Frame): Option<Why> {
    if f.Final() then StopAt(cb, d, MessageOf(f)) else Some(NullMessage)
  }

  /** What a fresh loop has delivered before its i-th frame, if it gets there. */
  function DeliveredBefore(d: seq<Message>, ws: seq<Wired>, i: nat): seq<Message>
    requires i <= |ws|
  {
    d + DataOnly(OwnMessages(ws[..i]))
  }

  /** The k-th frame is the first that stops a fresh loop, or there is none and k is their number. */
  ghost predicate FirstStop(cb: Callback, d: seq<Message>, ws: seq<Wired>, k: nat) {
    && k <= |ws|
    && (forall i :: 0 <= i < k ==> StopAlone(cb, DeliveredBefore(d, ws, i), ws[i].frame) == None)
    && (k < |ws| ==> StopAlone(cb, DeliveredBefore(d, ws, k), ws[k].frame).Some?)
  }

  lemma {:induction false} FrameAlone(cb: Callback, d: seq<Message>, f: Frame)
    ensures var (frames, out) := Step([], Received(f));
      && (f.Final() ==> frames == [] && Untag(out) == [MessageOf(f)])
      && (!f.Final() ==> frames == [f] && Untag(out) == [])
      && StopOf(cb, d, out) == StopAlone(cb, d, f)
  {
    PayloadsSnoc([], f);
    Empty(f.payload);
    Empty([f]);
  }

  /** With nothing pending the course is told frame by frame: each frame before the first one that
      stops the loop is a message of its own; that one still is, unless it is a fragment. */
  lemma {:induction false} FreshCourse(cb: Callback, d: seq<Message>, ws: seq<Wired>, k: nat)
    requires FirstStop(cb, d, ws, k)
    ensures var c := CourseOf(cb, d, [], ws);
      && (k == |ws| ==> c == Course(OwnMessages(ws), k, [], None))
      && (k < |ws| ==>
            var f := ws[k].frame;
            c == Course(OwnMessages(ws[..k]) + (if f.Final() then [MessageOf(f)] else []), k + 1,
                        if f.Final() then [] else [f], StopAlone(cb, DeliveredBefore(d, ws, k), f)))
    decreases |ws|
  {
    if ws != [] {
      FrameAlone(cb, d, ws[0].frame);
      NoneBefore(d, ws);
      if k > 0 {
        assert StopAlone(cb, DeliveredBefore(d, ws, 0), ws[0].frame) == None;
        var m := MessageOf(ws[0].frame);
        var d' := d + DataOnly([m]);
        FirstStopRest(cb, d, ws, k);
        FreshCourse(cb, d', ws[1..], k - 1);
        DeliveredFirst(d, ws, k);
        OwnMessagesFirst(ws);
        OwnMessagesFirst(ws[..k]);
        assert ws[..k][1..] == ws[1..][..k - 1];
        if k < |ws| {
          var f := ws[k].frame;
          Assoc([m], OwnMessages(ws[1..][..k - 1]), if f.Final() then [MessageOf(f)] else []);
        }
      } else {
        assert OwnMessages(ws[..0]) == [];
        Empty([MessageOf(ws[0].frame)]);
      }
    }
  }

  lemma {:induction false} NoneBefore(d: seq<Message>, ws: seq<Wired>)
    ensures DeliveredBefore(d, ws, 0) == d
  {
    Empty(d);
    assert OwnMessages(ws[..0]) == [];
  }

  lemma {:induction false} DeliveredFirst(d: seq<Message>, ws: seq<Wired>, i: nat)
    requires 0 < i <= |ws|
    ensures DeliveredBefore(d, ws, i) ==
      DeliveredBefore(d + DataOnly([MessageOf(ws[0].frame)]), ws[1..], i - 1)
  {
    var m := MessageOf(ws[0].frame);
    OwnMessagesFirst(ws[..i]);
    assert ws[..i][1..] == ws[1..][..i - 1];
    DataOnlyAppend([m], OwnMessages(ws[1..][..i - 1]));
    Assoc(d, DataOnly([m]), DataOnly(OwnMessages(ws[1..][..i - 1])));
  }

  lemma {:induction false} FirstStopRest(cb: Callback, d: seq<Message>, ws: seq<Wired>, k: nat)
    requires FirstStop(cb, d, ws, k) && k > 0
    ensures FirstStop(cb, d + DataOnly([MessageOf(ws[0].frame)]), ws[1..], k - 1)
  {
    var d' := d + DataOnly([MessageOf(ws[0].frame)]);
    forall i | 0 <= i < k - 1
      ensures StopAlone(cb, DeliveredBefore(d', ws[1..], i), ws[1..][i].frame) == None
    {
      DeliveredFirst(d, ws, i + 1);
      assert StopAlone(cb, DeliveredBefore(d, ws, i + 1), ws[i + 1].frame) == None;
    }
    DeliveredFirst(d, ws, k);
  }

  lemma {:induction false} OwnMessagesFirst(ws: seq<Wired>)
    requires ws != []
    ensures OwnMessages(ws) == [MessageOf(ws[0].frame)] + OwnMessages(ws[1..])
  {}

  /** A fresh undisturbed loop delivers exactly the TEXT and BIN frames up to the first frame that
      stops it, that frame included when it is one that the callback was asked about. */
  lemma {:induction false} FreshDelivery(env: Env, cb: Callback, s: Loop, ws: seq<Wired>, rest: seq<byte>, k: nat)
    requires Undisturbed(env) && Running(s) && s.st.frames == []
    requires AllDecodable(ws) && s.net.unread == LayoutAll(ws) + rest && DecodeFrame(rest) == None
    requires FirstStop(cb, s.delivered, ws, k)
    ensures RunLoop(env, cb, s).0.delivered == DeliveredBefore(s.delivered, ws, k) +
      if k < |ws| && ws[k].frame.Final() then DataOnly([MessageOf(ws[k].frame)]) else []
  {
    RunDelivers(env, cb, s, ws, rest);
    FreshCourse(cb, s.delivered, ws, k);
    if k < |ws| {
      var last := if ws[k].frame.Final() then [MessageOf(ws[k].frame)] else [];
      DataOnlyAppend(OwnMessages(ws[..k]), last);
      Assoc(s.delivered, DataOnly(OwnMessages(ws[..k])), DataOnly(last));
    } else {
      assert ws[..k] == ws;
      Empty(DeliveredBefore(s.delivered, ws, k));
    }
  }
}
