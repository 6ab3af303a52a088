/** What src/reader.c keeps over whole runs, for every environment. */
module ReaderLaws {
  import opened Bytes
  import opened Types
  import opened Masking
  import opened Wire
  import opened Protocol
  import opened Sockets
  import opened Reassembly
  import opened Reader
  import opened Sequences

  // ---- One call.

  /** A header read through a short window is the header of the stream. */
  lemma {:induction false} ShortWindow(bs: seq<byte>, n: nat)
    requires n <= |bs| && n <= PEEK
    requires DecodeHeader(bs[..n]).Some?
    ensures DecodeHeader(Window(bs)) == DecodeHeader(bs[..n])
  {
    var ext := ExtBytes(LengthCodeOf(bs[1]));
    assert bs[..n][1] == Window(bs)[1] == bs[1];
    assert bs[..n][2..2 + ext] == Window(bs)[2..2 + ext];
  }

  /** Stream synchronisation: whatever counts the calls were granted, and whatever later bytes
      fell into the peek window, an accepted frame is the first frame of the stream and exactly
      its extent was consumed. Nothing else that counts as success consumes anything. */
  lemma {:induction false} AcceptedMeansDecoded(env: Env, st: RState, net: Net)
    ensures var (o, _, net') := HandleSpec(env, st, net);
      match o
      case Took(Received(f)) =>
        DecodeFrame(net.unread).Some? && DecodeFrame(net.unread).value.0 == f
        && net'.unread == net.unread[DecodeFrame(net.unread).value.1..]
      case Took(CloseLost) => net'.unread == net.unread
      case Idle => net'.unread == net.unread
      case Failed => true
  {
    var n := ReadCount(env, net, PEEK);
    if n > 0 && DecodeHeader(net.unread[..n]).Some? {
      ShortWindow(net.unread, n);
      var h := DecodeHeader(net.unread[..n]).value;
      var m := ReadCount(env, Tick(net), h.Extent());
      if m == h.Extent() {
        assert net.unread[..m][h.BodyOffset()..h.Extent()] == net.unread[h.BodyOffset()..h.Extent()];
      }
    }
  }

  /** No call touches what was sent, and a failed one leaves both queues as they were. */
  lemma {:induction false} HandleFrame(env: Env, st: RState, net: Net)
    ensures var (o, st', net') := HandleSpec(env, st, net);
      && net'.sent == net.sent && net'.open == net.open && net'.clock > net.clock
      && st' == AbsorbAll(st, Taken(o))
  {
    var (o, st', net') := HandleSpec(env, st, net);
    if o.Took? {
      FoldOne(st.frames, o.e);
    } else {
      assert st.msgs + Untag([]) == st.msgs;
    }
  }

  /** The first `peek` bytes hold a whole header: two bytes and the extended length they announce. */
  predicate HeaderWithin(bs: seq<byte>, peek: int) {
    && 2 <= peek <= |bs|
    && var code := bs[1] & 0x7F;
       peek >= 2 + if code == 126 then 2 else if code == 127 then 8 else 0
  }

  lemma {:induction false} HeaderIff(bs: seq<byte>, n: nat)
    requires n <= |bs|
    ensures DecodeHeader(bs[..n]).Some? <==> HeaderWithin(bs, n)
    ensures DecodeHeader(bs[..n]).Some? ==> DecodeHeader(bs[..n]).value.codes == bs[0]
  {}

  lemma {:induction false} HandleIdle(env: Env, st: RState, net: Net)
    ensures var (o, st', _) := HandleSpec(env, st, net);
      && (o == Idle <==> ReadCount(env, net, 10) == 0)
      && (o.Failed? || o.Idle? ==> st' == st)
  {}

  lemma {:induction false} HandleClose(env: Env, st: RState, net: Net)
    ensures var (o, st', _) := HandleSpec(env, st, net);
      && (o == Outcome.Took(CloseLost) <==>
            && st.isOpen && HeaderWithin(net.unread, ReadCount(env, net, 10))
            && net.unread[0] & 0x0F == 0x8 && env.receives(net.clock + 1) == Fail)
      && (o == Outcome.Took(CloseLost) ==> st' == st.(msgs := st.msgs + [Message(0x8, [])]))
  {
    var n := ReadCount(env, net, PEEK);
    if n > 0 {
      HeaderIff(net.unread, n);
    }
  }

  lemma {:induction false} HandleTaken(env: Env, st: RState, net: Net, f: Frame)
    ensures HandleSpec(env, st, net).0 == Outcome.Took(Received(f)) <==>
      && st.isOpen && HeaderWithin(net.unread, ReadCount(env, net, 10))
      && exists k :: DecodeFrame(net.unread) == Some((f, k)) && ReadCount(env, Tick(net), k) == k
  {
    var n := ReadCount(env, net, PEEK);
    if n > 0 {
      HeaderIff(net.unread, n);
      if HeaderWithin(net.unread, n) {
        ShortWindow(net.unread, n);
        ReadIsDecode(env, st, Tick(net), DecodeHeader(net.unread[..n]).value, f);
      }
    }
  }

  /** The second half of a call takes in what decodes, if its read is whole. */
  lemma {:induction false} ReadIsDecode(env: Env, st: RState, net: Net, h: Header, f: Frame)
    requires DecodeHeader(Window(net.unread)) == Some(h)
    ensures ReadFrameSpec(env, st, net, h).0 == Outcome.Took(Received(f)) <==>
      && st.isOpen
      && exists k :: DecodeFrame(net.unread) == Some((f, k)) && ReadCount(env, net, k) == k
  {
    var n := ReadCount(env, net, h.Extent());
    if DecodeFrame(net.unread) == Some((f, h.Extent())) && n == h.Extent() {
      assert ReadCount(env, net, h.Extent()) == h.Extent();
    }
  }

  /** Every outcome of one call, under any grants. Idle is an empty peek. A frame is taken in exactly
      when the reader is open, the peek covered its header and the read returned its whole extent. A
      CLOSE is queued in place of a frame exactly when, instead, that read failed and the header's
      opcode is 8; every other call fails and leaves the reader as it was. */
  lemma {:induction false} HandleOutcomes(env: Env, st: RState, net: Net)
    ensures var (o, st', net') := HandleSpec(env, st, net);
      var peek := ReadCount(env, net, 10);
      && (o == Idle <==> peek == 0)
      && (o == Outcome.Took(CloseLost) <==>
            && st.isOpen && HeaderWithin(net.unread, peek)
            && net.unread[0] & 0x0F == 0x8 && env.receives(net.clock + 1) == Fail)
      && (forall f :: o == Outcome.Took(Received(f)) <==>
            && st.isOpen && HeaderWithin(net.unread, peek)
            && exists k :: DecodeFrame(net.unread) == Some((f, k)) && ReadCount(env, Tick(net), k) == k)
      && (o == Outcome.Took(CloseLost) ==> st' == st.(msgs := st.msgs + [Message(0x8, [])]))
      && (o.Failed? || o.Idle? ==> st' == st)
  {
    HandleIdle(env, st, net);
    HandleClose(env, st, net);
    forall f
      ensures HandleSpec(env, st, net).0 == Outcome.Took(Received(f)) <==>
        && st.isOpen && HeaderWithin(net.unread, ReadCount(env, net, 10))
        && exists k :: DecodeFrame(net.unread) == Some((f, k)) && ReadCount(env, Tick(net), k) == k
    {
      HandleTaken(env, st, net, f);
    }
  }

  /** When every count is full, one call is exactly the decoder. */
  lemma {:induction false} FullHandle(env: Env, st: RState, net: Net)
    requires Full(env) && net.open && st.isOpen
    ensures var (o, st', net') := HandleSpec(env, st, net);
      if net.unread == [] then o == Idle
      else match DecodeFrame(net.unread)
           case None => o == Failed
           case Some((f, k)) => o == Outcome.Took(Received(f)) && k <= |net.unread| && net'.unread == net.unread[k..]
  {
    assert env.receives(net.clock) == All && env.receives(net.clock + 1) == All;
    if net.unread != [] {
      var n := ReadCount(env, net, PEEK);
      assert net.unread[..n] == Window(net.unread);
    }
  }

  // ---- Many calls.

  function AbsorbAll(st: RState, es: seq<Event>): RState {
    RState(After(st.frames, es), st.msgs + Untag(Emissions(st.frames, es)), st.isOpen)
  }

  lemma {:induction false} AbsorbAppend(st: RState, a: seq<Event>, b: seq<Event>)
    ensures AbsorbAll(AbsorbAll(st, a), b) == AbsorbAll(st, a + b)
  {
    FoldAppend(st.frames, a, b);
    UntagAppend(Emissions(st.frames, a), Emissions(After(st.frames, a), b));
    Assoc(st.msgs, Untag(Emissions(st.frames, a)), Untag(Emissions(After(st.frames, a), b)));
  }

  datatype Run = Run(ok: bool, events: seq<Event>, st: RState, net: Net)

  /** `n` calls of ws_reader_handle, given up at the first failure. */
  function HandleMany(env: Env, st: RState, net: Net, n: nat): Run
    decreases n
  {
    if n == 0 then Run(true, [], st, net)
    else
      var (o, st', net') := HandleSpec(env, st, net);
      if o.Failed? then Run(false, [], st', net')
      else
        var r := HandleMany(env, st', net', n - 1);
        r.(events := Taken(o) + r.events)
  }

  /** A frame together with the length form it travels in. */
  datatype Wired = Wired(frame: Frame, code: byte)

  function LayoutAll(ws: seq<Wired>): seq<byte> {
    if ws == [] then [] else Layout(ws[0].frame, ws[0].code) + LayoutAll(ws[1..])
  }

  ghost predicate AllDecodable(ws: seq<Wired>) {
    forall w :: w in ws ==> Decodable(w.frame, w.code)
  }

  function Frames(ws: seq<Wired>): (fs: seq<Frame>)
    ensures |fs| == |ws|
  {
    seq(|ws|, i requires 0 <= i < |ws| => ws[i].frame)
  }

  /** The frames among the events, in order. */
  function ReceivedFrames(es: seq<Event>): seq<Frame> {
    if es == [] then []
    else (if es[0].Received? then [es[0].frame] else []) + ReceivedFrames(es[1..])
  }

  /** Any two ways to cut one byte string into frames are the same. */
  lemma {:induction false} DecompositionUnique(ws: seq<Wired>, vs: seq<Wired>)
    requires AllDecodable(ws) && AllDecodable(vs)
    requires LayoutAll(ws) == LayoutAll(vs)
    ensures ws == vs
  {
    if ws != [] && vs != [] {
      assert ws[0] in ws && vs[0] in vs;
      LayoutUnique(ws[0].frame, ws[0].code, LayoutAll(ws[1..]), vs[0].frame, vs[0].code, LayoutAll(vs[1..]));
      DecompositionUnique(ws[1..], vs[1..]);
      assert ws == [ws[0]] + ws[1..] && vs == [vs[0]] + vs[1..];
    }
  }

  lemma {:induction false} LayoutAllCons(w: Wired, ws: seq<Wired>)
    ensures LayoutAll([w] + ws) == Layout(w.frame, w.code) + LayoutAll(ws)
    ensures Frames([w] + ws) == [w.frame] + Frames(ws)
  {
    assert ([w] + ws)[1..] == ws;
  }

  /** A run of calls, under any counts, is the fold of its events and sends nothing. */
  lemma {:induction false} RunFolds(env: Env, st: RState, net: Net, n: nat)
    ensures var r := HandleMany(env, st, net, n);
      r.st == AbsorbAll(st, r.events) && r.net.sent == net.sent
    decreases n
  {
    AbsorbNothing(st);
    if n > 0 {
      HandleFrame(env, st, net);
      var (o, st', net') := HandleSpec(env, st, net);
      if !o.Failed? {
        RunFolds(env, st', net', n - 1);
        AbsorbAppend(st, Taken(o), HandleMany(env, st', net', n - 1).events);
      }
    }
  }

  /** A stream as a run found it: the layout of exactly the frames the run accepted, in order, and
      then what its last successful call left. Only a failed call takes bytes beyond that, and it
      takes them off the front. */
  ghost predicate Decomposes(unread: seq<byte>, r: Run, ws: seq<Wired>, rest: seq<byte>) {
    && AllDecodable(ws) && Frames(ws) == ReceivedFrames(r.events)
    && unread == LayoutAll(ws) + rest
    && EndsIn(rest, r.net.unread) && (r.ok ==> rest == r.net.unread)
  }

  /** Under any counts, and whether the run ended well or not. */
  lemma {:induction false} RunDecomposes(env: Env, st: RState, net: Net, n: nat)
    returns (ws: seq<Wired>, rest: seq<byte>)
    ensures Decomposes(net.unread, HandleMany(env, st, net, n), ws, rest)
    decreases n
  {
    if n == 0 {
      ws, rest := [], net.unread;
      NoFrames(net.unread, HandleMany(env, st, net, n));
    } else if HandleSpec(env, st, net).0.Failed? {
      ws, rest := [], net.unread;
      FirstFails(env, st, net, n);
    } else {
      ws, rest := RunDecomposes(env, HandleSpec(env, st, net).1, HandleSpec(env, st, net).2, n - 1);
      ws := OneMoreTaken(env, st, net, n, ws, rest);
    }
  }

  lemma {:induction false} FirstFails(env: Env, st: RState, net: Net, n: nat)
    requires n > 0 && HandleSpec(env, st, net).0.Failed?
    ensures Decomposes(net.unread, HandleMany(env, st, net, n), [], net.unread)
  {
    HandleTakesFront(env, st, net);
    var (_, st', net') := HandleSpec(env, st, net);
    NoFrames(net.unread, Run(false, [], st', net'));
  }

  lemma {:induction false} NoFrames(unread: seq<byte>, r: Run)
    requires r.events == [] && EndsIn(unread, r.net.unread) && (r.ok ==> unread == r.net.unread)
    ensures Decomposes(unread, r, [], unread)
  {
    Empty(unread);
  }

  /** One more successful call in front of a run. */
  lemma {:induction false} OneMoreTaken(env: Env, st: RState, net: Net, n: nat, ws: seq<Wired>, rest: seq<byte>)
    returns (vs: seq<Wired>)
    requires n > 0 && !HandleSpec(env, st, net).0.Failed?
    requires var (_, st', net') := HandleSpec(env, st, net);
      Decomposes(net'.unread, HandleMany(env, st', net', n - 1), ws, rest)
    ensures Decomposes(net.unread, HandleMany(env, st, net, n), vs, rest)
  {
    var (o, st', net') := HandleSpec(env, st, net);
    var r := HandleMany(env, st', net', n - 1);
    ReceivedCons(o, r.events);
    vs := FrontTaken(env, st, net, ReceivedFrames(r.events), ws, rest);
  }

  lemma {:induction false} FrontTaken(env: Env, st: RState, net: Net, fs: seq<Frame>, ws: seq<Wired>,
      rest: seq<byte>) returns (vs: seq<Wired>)
    requires !HandleSpec(env, st, net).0.Failed?
    requires AllDecodable(ws) && Frames(ws) == fs
    requires HandleSpec(env, st, net).2.unread == LayoutAll(ws) + rest
    ensures var o := HandleSpec(env, st, net).0;
      AllDecodable(vs) && Frames(vs) == (if o.Took? && o.e.Received? then [o.e.frame] else []) + fs
    ensures net.unread == LayoutAll(vs) + rest
  {
    var o := HandleSpec(env, st, net).0;
    AcceptedMeansDecoded(env, st, net);
    if o.Took? && o.e.Received? {
      vs := ExtendLayout(net, o.e.frame, ws, rest);
    } else {
      vs := ws;
      Empty(fs);
    }
  }

  predicate EndsIn(a: seq<byte>, b: seq<byte>) {
    |b| <= |a| && a[|a| - |b|..] == b
  }

  lemma {:induction false} HandleTakesFront(env: Env, st: RState, net: Net)
    ensures EndsIn(net.unread, HandleSpec(env, st, net).2.unread)
  {
    var want := HandleReads(env, st, net);
    ReadTakesFront(env, Tick(net), want);
  }

  /** One call takes from the stream at most what one read takes. */
  lemma {:induction false} HandleReads(env: Env, st: RState, net: Net) returns (want: nat)
    ensures var unread := HandleSpec(env, st, net).2.unread;
      unread == net.unread || unread == AfterRead(env, Tick(net), want).unread
  {
    var n := ReadCount(env, net, PEEK);
    want := 0;
    if n > 0 && DecodeHeader(net.unread[..n]).Some? {
      want := DecodeHeader(net.unread[..n]).value.Extent();
    }
  }

  lemma {:induction false} ReadTakesFront(env: Env, net: Net, want: nat)
    ensures EndsIn(net.unread, AfterRead(env, net, want).unread)
    ensures EndsIn(net.unread, net.unread)
  {}

  lemma {:induction false} AbsorbNothing(st: RState)
    ensures AbsorbAll(st, []) == st
  {
    assert st.msgs + Untag([]) == st.msgs;
  }

  lemma {:induction false} ReceivedCons(o: Outcome, es: seq<Event>)
    ensures ReceivedFrames(Taken(o) + es) ==
      (if o.Took? && o.e.Received? then [o.e.frame] else []) + ReceivedFrames(es)
  {
    if o.Took? {
      assert (Taken(o) + es)[1..] == es;
    } else {
      Empty(es);
    }
  }

  lemma {:induction false} ExtendLayout(net: Net, f: Frame, ws: seq<Wired>, rest: seq<byte>) returns (vs: seq<Wired>)
    requires DecodeFrame(net.unread).Some? && DecodeFrame(net.unread).value.0 == f
    requires DecodeFrame(net.unread).value.1 <= |net.unread|
    requires AllDecodable(ws)
    requires net.unread[DecodeFrame(net.unread).value.1..] == LayoutAll(ws) + rest
    ensures AllDecodable(vs) && Frames(vs) == [f] + Frames(ws)
    ensures net.unread == LayoutAll(vs) + rest
  {
    DecodedIsLayout(net.unread);
    var k := DecodeFrame(net.unread).value.1;
    var w := Wired(f, LengthCodeOf(net.unread[1]));
    vs := [w] + ws;
    LayoutAllCons(w, ws);
    Split(net.unread, k);
    Assoc(Layout(f, w.code), LayoutAll(ws), rest);
    assert AllDecodable(vs) by {
      assert forall v :: v in vs ==> v == w || v in ws;
    }
  }

  /** Two ways to cut frames off the front of one byte string agree as far as the shorter one goes. */
  lemma {:induction false} SameCuts(ws: seq<Wired>, rest: seq<byte>, vs: seq<Wired>, tail: seq<byte>)
    requires AllDecodable(ws) && AllDecodable(vs)
    requires LayoutAll(ws) + rest == LayoutAll(vs) + tail
    ensures ws <= vs || vs <= ws
  {
    if ws != [] && vs != [] {
      var w, v := ws[0], vs[0];
      assert w in ws && v in vs;
      Assoc(Layout(w.frame, w.code), LayoutAll(ws[1..]), rest);
      Assoc(Layout(v.frame, v.code), LayoutAll(vs[1..]), tail);
      LayoutUnique(w.frame, w.code, LayoutAll(ws[1..]) + rest, v.frame, v.code, LayoutAll(vs[1..]) + tail);
      SameCuts(ws[1..], rest, vs[1..], tail);
      assert ws == [w] + ws[1..] && vs == [v] + vs[1..];
    }
  }

  lemma {:induction false} FramesOfPrefix(ws: seq<Wired>, vs: seq<Wired>)
    requires ws <= vs
    ensures Frames(ws) <= Frames(vs)
  {}

  /** ... and no other frames: however the stream can be cut into decodable frames, the frames a run
      accepted are the first of that cut, or all of it and more; they are that cut when the run
      went well and left what the cut leaves. */
  lemma {:induction false} RunIsTheDecomposition(env: Env, st: RState, net: Net, n: nat, vs: seq<Wired>,
      tail: seq<byte>)
    requires AllDecodable(vs) && net.unread == LayoutAll(vs) + tail
    ensures var r := HandleMany(env, st, net, n);
      var fs := ReceivedFrames(r.events);
      && (fs <= Frames(vs) || Frames(vs) <= fs)
      && (r.ok && tail == r.net.unread ==> fs == Frames(vs))
  {
    var ws, rest := RunDecomposes(env, st, net, n);
    SameCuts(ws, rest, vs, tail);
    if ws <= vs {
      FramesOfPrefix(ws, vs);
    } else {
      FramesOfPrefix(vs, ws);
    }
    if HandleMany(env, st, net, n).ok && tail == HandleMany(env, st, net, n).net.unread {
      SameFront(LayoutAll(ws), LayoutAll(vs), tail);
      DecompositionUnique(ws, vs);
    }
  }

  lemma {:induction false} SameFront(a: seq<byte>, b: seq<byte>, c: seq<byte>)
    requires a + c == b + c
    ensures a == b
  {
    assert |a| == |b|;
    assert a == (a + c)[..|a|] == (b + c)[..|b|] == b;
  }

  /** Conversely, with full counts every stream of decodable frames is taken in, frame by frame. */
  lemma {:induction false} FullRun(env: Env, st: RState, net: Net, ws: seq<Wired>, rest: seq<byte>)
    requires Full(env) && net.open && st.isOpen
    requires AllDecodable(ws) && net.unread == LayoutAll(ws) + rest
    ensures var r := HandleMany(env, st, net, |ws|);
      && r.ok && r.events == Events(Frames(ws)) && r.net.unread == rest
      && r.st == AbsorbAll(st, Events(Frames(ws)))
    decreases |ws|
  {
    if ws == [] {
      AbsorbNothing(st);
      Empty(rest);
    } else {
      var w, tail := ws[0], LayoutAll(ws[1..]) + rest;
      assert w in ws;
      Assoc(Layout(w.frame, w.code), LayoutAll(ws[1..]), rest);
      FullStep(env, st, net, w, tail);
      var (o, st', net') := HandleSpec(env, st, net);
      FullRun(env, st', net', ws[1..], rest);
      EventsOfWired(ws);
      AbsorbAppend(st, [Received(w.frame)], Events(Frames(ws[1..])));
    }
  }

  lemma {:induction false} EventsOfWired(ws: seq<Wired>)
    requires ws != []
    ensures Events(Frames(ws)) == [Received(ws[0].frame)] + Events(Frames(ws[1..]))
  {
    SplitFirst(Frames(ws));
    assert Frames(ws)[1..] == Frames(ws[1..]);
  }

  lemma {:induction false} FullStep(env: Env, st: RState, net: Net, w: Wired, rest: seq<byte>)
    requires Full(env) && net.open && st.isOpen
    requires Decodable(w.frame, w.code) && net.unread == Layout(w.frame, w.code) + rest
    ensures var (o, st', net') := HandleSpec(env, st, net);
      && o == Outcome.Took(Received(w.frame)) && st' == AbsorbAll(st, [Received(w.frame)])
      && net'.unread == rest && net'.open && st'.isOpen
  {
    LayoutDecodes(w.frame, w.code, rest);
    FullHandle(env, st, net);
    HandleFrame(env, st, net);
    assert (Layout(w.frame, w.code) + rest)[|Layout(w.frame, w.code)|..] == rest;
  }

  // ---- Written frames.

  /** Frames whose shortest layout the reader reads back. The 65536-byte payload is among them,
      although ws_frame_write never gets to produce it. */
  ghost predicate Loopable(f: Frame) {
    f.Normal() && |f.payload| < LENGTH_LIMIT && (f.masked || f.payload != [])
  }

  ghost predicate AllLoopable(fs: seq<Frame>) {
    forall f :: f in fs ==> Loopable(f)
  }

  function InShortForm(fs: seq<Frame>): (ws: seq<Wired>)
    ensures |ws| == |fs|
  {
    seq(|fs|, i requires 0 <= i < |fs| => Wired(fs[i], ShortestCode(|fs[i].payload|)))
  }

  lemma {:induction false} EncodedIsWired(fs: seq<Frame>)
    requires AllLoopable(fs)
    ensures AllDecodable(InShortForm(fs))
    ensures LayoutAll(InShortForm(fs)) == EncodeAll(fs) && Frames(InShortForm(fs)) == fs
  {
    ShortFormsDecode(fs);
    if fs != [] {
      EncodedIsWired(fs[1..]);
      assert InShortForm(fs)[1..] == InShortForm(fs[1..]);
    }
  }

  lemma {:induction false} ShortFormsDecode(fs: seq<Frame>)
    requires AllLoopable(fs)
    ensures AllDecodable(InShortForm(fs)) && Frames(InShortForm(fs)) == fs
  {
    forall w | w in InShortForm(fs)
      ensures Decodable(w.frame, w.code)
    {
      assert w.frame in fs;
      ShortestFits(|w.frame.payload|);
    }
  }

  /** With full counts, written frames come out of the reader as the fold of the frames. */
  lemma {:induction false} EncodedRun(env: Env, st: RState, net: Net, fs: seq<Frame>, rest: seq<byte>)
    requires Full(env) && net.open && st.isOpen
    requires AllLoopable(fs) && net.unread == EncodeAll(fs) + rest
    ensures var r := HandleMany(env, st, net, |fs|);
      r.ok && r.events == Events(fs) && r.net.unread == rest && r.st == AbsorbAll(st, Events(fs))
  {
    EncodedIsWired(fs);
    FullRun(env, st, net, InShortForm(fs), rest);
  }

  // ---- Fragmentation, on the wire.

  /** One piece of a message body and how its frame is masked. */
  datatype Piece = Piece(masked: bool, key: Key, data: seq<byte>)

  function CodesByte(final: bool, opcode: byte): byte {
    if final then 0x80 | (opcode & 0x0F) else opcode & 0x0F
  }

  /** The first byte of a frame that the client writes, in full: FIN, three zero bits, the opcode. */
  lemma {:induction false} CodesByteIs(final: bool, opcode: byte)
    requires opcode <= 0x0F
    ensures CodesByte(final, opcode) == if final then 0x80 | opcode else opcode
  {}

  lemma {:induction false} CodesFields(final: bool, opcode: byte)
    requires opcode <= 0x0F
    ensures FinOf(CodesByte(final, opcode)) == final && OpcodeOf(CodesByte(final, opcode)) == opcode
  {}

  function FrameOf(final: bool, opcode: byte, p: Piece): Frame {
    Frame(CodesByte(final, opcode), p.masked, p.key, p.data).Normalised()
  }

  /** The frames of a message cut into pieces: the opcode on the first, FIN on the last. */
  function Fragments(opcode: byte, pieces: seq<Piece>): (fs: seq<Frame>)
    ensures |fs| == |pieces|
  {
    seq(|pieces|, i requires 0 <= i < |pieces| =>
      FrameOf(i == |pieces| - 1, if i == 0 then opcode else OPCODE_CONT, pieces[i]))
  }

  /** The first bytes of the fragments: the opcode on the first one, FIN on the last one, else zero. */
  lemma {:induction false} FragmentBytes(opcode: byte, pieces: seq<Piece>, i: nat)
    requires opcode <= 0x0F && i < |pieces|
    ensures var f := Fragments(opcode, pieces)[i];
      && f.codes == (if i == |pieces| - 1 then 0x80 else 0x00) | (if i == 0 then opcode else 0x0)
      && f.payload == pieces[i].data && f.masked == pieces[i].masked
  {
    CodesByteIs(i == |pieces| - 1, if i == 0 then opcode else 0x0);
  }

  function Joined(pieces: seq<Piece>): seq<byte> {
    if pieces == [] then [] else Joined(pieces[..|pieces| - 1]) + pieces[|pieces| - 1].data
  }

  lemma {:induction false} PayloadsAreJoined(fs: seq<Frame>, pieces: seq<Piece>)
    requires |fs| == |pieces|
    requires forall i :: 0 <= i < |fs| ==> fs[i].payload == pieces[i].data
    ensures Payloads(fs) == Joined(pieces)
  {
    if fs != [] {
      PayloadsAreJoined(fs[..|fs| - 1], pieces[..|fs| - 1]);
    }
  }

  lemma {:induction false} FragmentsAreWellFormed(opcode: byte, pieces: seq<Piece>)
    requires pieces != [] && opcode < OPCODE_CLOSE
    ensures IsFragmented(Fragments(opcode, pieces))
    ensures Assemble(Fragments(opcode, pieces)) == Message(opcode, Joined(pieces))
  {
    var fs := Fragments(opcode, pieces);
    forall i | 0 <= i < |fs|
      ensures fs[i].Final() == (i == |fs| - 1)
      ensures fs[i].Opcode() == if i == 0 then opcode else OPCODE_CONT
    {
      CodesFields(i == |fs| - 1, if i == 0 then opcode else OPCODE_CONT);
    }
    TypeIsFirstOpcodeIff(fs);
    PayloadsAreJoined(fs, pieces);
  }

  /** However a body is cut, masked and interleaved with final control frames, the reader delivers
      one data message with that body, the control frames beside it in order, and stays in step
      with the bytes that follow. */
  lemma {:induction false} FragmentationPreservesMeaning(env: Env, net: Net, opcode: byte, pieces: seq<Piece>,
      fs: seq<Frame>, rest: seq<byte>)
    requires Full(env) && net.open
    requires pieces != [] && opcode < OPCODE_CLOSE
    requires DropControl(fs) == Fragments(opcode, pieces)
    requires AllLoopable(fs) && net.unread == EncodeAll(fs) + rest
    ensures var r := HandleMany(env, FRESH, net, |fs|);
      var out := Emissions([], Events(fs));
      && r.ok && r.net.unread == rest
      && r.st == RState([], Untag(out), true)
      && Wholes(out) == [Whole(Message(opcode, Joined(pieces)))]
      && Controls(out) == AsControl(OnlyControl(fs))
  {
    EncodedRun(env, FRESH, net, fs, rest);
    InterleavedFold(opcode, pieces, fs);
  }

  lemma {:induction false} InterleavedFold(opcode: byte, pieces: seq<Piece>, fs: seq<Frame>)
    requires pieces != [] && opcode < OPCODE_CLOSE
    requires DropControl(fs) == Fragments(opcode, pieces)
    ensures var out := Emissions([], Events(fs));
      && AbsorbAll(FRESH, Events(fs)) == RState([], Untag(out), true)
      && Wholes(out) == [Whole(Message(opcode, Joined(pieces)))]
      && Controls(out) == AsControl(OnlyControl(fs))
  {
    FragmentsAreWellFormed(opcode, pieces);
    InterleavedFragmentsMakeOneMessage(fs);
    ControlInterleaving([], fs);
    FreshAbsorb(Events(fs));
  }

  lemma {:induction false} FreshAbsorb(es: seq<Event>)
    ensures AbsorbAll(FRESH, es) == RState(After([], es), Untag(Emissions([], es)), true)
  {
    assert FRESH.msgs + Untag(Emissions([], es)) == Untag(Emissions([], es));
  }

  lemma {:induction false} FragmentedRun(env: Env, net: Net, opcode: byte, pieces: seq<Piece>, rest: seq<byte>)
    requires Full(env) && net.open
    requires pieces != [] && opcode < OPCODE_CLOSE
    requires AllLoopable(Fragments(opcode, pieces))
    requires net.unread == EncodeAll(Fragments(opcode, pieces)) + rest
    ensures var r := HandleMany(env, FRESH, net, |pieces|);
      r.ok && r.net.unread == rest && r.st == RState([], [Message(opcode, Joined(pieces))], true)
  {
    EncodedRun(env, FRESH, net, Fragments(opcode, pieces), rest);
    FragmentsFold(opcode, pieces);
  }

  lemma {:induction false} FragmentsFold(opcode: byte, pieces: seq<Piece>)
    requires pieces != [] && opcode < OPCODE_CLOSE
    ensures AbsorbAll(FRESH, Events(Fragments(opcode, pieces))) == RState([], [Message(opcode, Joined(pieces))], true)
  {
    var fs := Fragments(opcode, pieces);
    FragmentsAreWellFormed(opcode, pieces);
    FragmentsMakeOneMessage([], fs);
    Empty(fs);
    FreshAbsorb(Events(fs));
  }

  /** A body in one frame and the same body in any number of frames leave the reader in the same
      state, with the same one message. */
  lemma {:induction false} FragmentedEqualsWhole(env: Env, a: Net, b: Net, opcode: byte, pieces: seq<Piece>,
      whole: Piece, rest: seq<byte>)
    requires Full(env) && a.open && b.open
    requires pieces != [] && opcode < OPCODE_CLOSE && whole.data == Joined(pieces)
    requires AllLoopable(Fragments(opcode, pieces)) && AllLoopable(Fragments(opcode, [whole]))
    requires a.unread == EncodeAll(Fragments(opcode, pieces)) + rest
    requires b.unread == EncodeAll(Fragments(opcode, [whole])) + rest
    ensures var ra, rb := HandleMany(env, FRESH, a, |pieces|), HandleMany(env, FRESH, b, 1);
      && ra.ok && rb.ok && ra.net.unread == rb.net.unread == rest
      && ra.st == rb.st == RState([], [Message(opcode, whole.data)], true)
  {
    FragmentedRun(env, a, opcode, pieces, rest);
    FragmentedRun(env, b, opcode, [whole], rest);
    JoinedOne(whole);
  }

  lemma {:induction false} JoinedOne(p: Piece)
    ensures Joined([p]) == p.data
  {
    assert [p][..0] == [];
    assert Joined([]) + p.data == p.data;
  }

  // ---- Conservation in every reachable state.

  /** The bodies of the messages of one kind, in order. */
  function BodiesOf(control: bool, ms: seq<Message>): seq<byte> {
    if ms == [] then []
    else (if (ms[0].opcode >= OPCODE_CLOSE) == control then ms[0].body else []) + BodiesOf(control, ms[1..])
  }

  lemma {:induction false} BodiesAppend(control: bool, a: seq<Message>, b: seq<Message>)
    ensures BodiesOf(control, a + b) == BodiesOf(control, a) + BodiesOf(control, b)
  {
    if a == [] {
      Empty(b);
    } else {
      Uncons(a, b);
      BodiesAppend(control, a[1..], b);
      Assoc(if (a[0].opcode >= OPCODE_CLOSE) == control then a[0].body else [],
            BodiesOf(control, a[1..]), BodiesOf(control, b));
    }
  }

  lemma {:induction false} BodiesByPath(ts: seq<Tagged>)
    requires forall t :: t in ts ==> (t.Control? <==> t.m.opcode >= OPCODE_CLOSE)
    ensures BodiesOf(false, Untag(ts)) == WholeBytes(ts)
    ensures BodiesOf(true, Untag(ts)) == ControlBytes(ts)
  {
    if ts != [] {
      assert ts[0] in ts;
      BodiesByPath(ts[1..]);
      assert Untag(ts)[1..] == Untag(ts[1..]);
    }
  }

  /** Every method of the reader keeps Valid, so in every reachable state the payload bytes taken
      in are those handed out, then those in the message queue, then those in the frame queue. */
  lemma {:induction false} ReachableConservation(r: FrameReader)
    requires r.Valid()
    ensures Untag(Emissions([], r.history)) == r.handedOut + r.msgQueue
    ensures AcceptedData(r.history) == WholeBytes(Emissions([], r.history)) + Payloads(r.pending)
    ensures AcceptedControl(r.history) == ControlBytes(Emissions([], r.history))
    ensures (forall e :: e in r.history && e.Received? && !e.frame.Final() ==> e.frame.Opcode() < OPCODE_CLOSE) ==>
      && AcceptedData(r.history) ==
         BodiesOf(false, r.handedOut) + BodiesOf(false, r.msgQueue) + Payloads(r.pending)
      && AcceptedControl(r.history) == BodiesOf(true, r.handedOut) + BodiesOf(true, r.msgQueue)
  {
    Conservation([], r.history);
    assert [] + AcceptedData(r.history) == AcceptedData(r.history);
    if forall e :: e in r.history && e.Received? && !e.frame.Final() ==> e.frame.Opcode() < OPCODE_CLOSE {
      TypeTellsPath([], r.history);
      BodiesByPath(Emissions([], r.history));
      BodiesAppend(false, r.handedOut, r.msgQueue);
      BodiesAppend(true, r.handedOut, r.msgQueue);
    }
  }
}
