/** src/websocket.c: the client object and its methods. */
module Client {
  import opened Bytes
  import opened Types
  import opened Masking
  import opened Wire
  import opened Protocol
  import opened Sockets
  import opened Reassembly
  import opened Reader
  import opened ReaderLaws
  import opened Session
  import opened Text
  import opened Url
  import opened Sequences
  import Handshake
  import Http

  /** struct __ws_client_internal_t */
  class Connection {
    const reader: FrameReader
    const info: Socket
    var loopFlag: bool

    constructor (info: Socket)
      ensures this.info == info && fresh(reader) && Valid() && !loopFlag
      ensures reader.State() == FRESH
    {
      this.info := info;
      reader := new FrameReader();
      loopFlag := false;
    }

    ghost predicate Valid()
      reads this, reader, reader.frameQueue, set f | f in reader.frameQueue :: f.payload
    {
      reader.Valid() && Lockstep(reader.State())
    }

    /** The connection is where the specification's loop state says it is. */
    ghost predicate At(s: Loop)
      reads this, reader, info
    {
      reader.State() == s.st && info.View() == s.net && loopFlag == s.flag
    }

    /** ws_client_write */
    method Write(opcode: byte, body: seq<byte>, simd: bool) returns (ok: bool)
      requires opcode <= 0x0F && |body| < LENGTH_LIMIT
      modifies info`clock, info`sent
      ensures (ok, info.View()) == WriteSpec(info.env, old(info.View()), opcode, body)
    {
      var frame := new WsFrame();
      frame.codes := CodesByte(true, opcode);
      frame.info := 0x80;
      frame.maskingKey := info.env.keys(info.clock);
      if |body| > 0 {
        frame.payload := new byte[|body|](i requires 0 <= i < |body| => body[i]);
      }
      assert frame.View() == ClientFrame(opcode, info.env.keys(info.clock), body);
      var err, out := frame.Write(simd);
      if err != FrameError.Success {
        return false;
      }
      var n := info.Write(out);
      ok := n != -1;
    }

    /** The body of ws_client_next_msg once the client is known to be connected. */
    method NextMsg(simd: bool) returns (ok: bool, out: Option<Message>, ghost o: Outcome)
      requires Valid()
      modifies reader, info`clock, info`unread
      ensures Valid()
      ensures var (p, st, net) := PullSpec(info.env, old(reader.State()), old(info.View()));
        && p == (if ok then Pulled(out) else NoPull)
        && reader.State() == st && info.View() == net
      ensures o == HandleSpec(info.env, old(reader.State()), old(info.View())).0
    {
      PullInLockstep(info.env, reader.State(), info.View());
      ok, o := reader.Handle(info, simd);
      if !ok {
        return false, None, o;
      }
      out := reader.NextMsg();
    }

    /** ws_client_shutdown_loop */
    method ShutdownLoop()
      modifies this`loopFlag, info`open
      ensures !loopFlag && info.View() == old(info.View()).(open := false)
    {
      loopFlag := false;
      info.Close();
    }

    /** A point at which the other thread's ws_client_shutdown_loop may take effect. */
    method Interleave(ghost s: Loop) returns (ghost t: Loop)
      requires At(s)
      modifies this`loopFlag, info`open, info`clock
      ensures At(t) && t == Interrupt(info.env, s)
    {
      var now := info.clock;
      info.clock := info.clock + 1;
      if info.env.shutdowns(now) {
        ShutdownLoop();
      }
      t := Interrupt(info.env, s);
    }

    /** The switch on the message type. */
    method Dispatch(cb: Callback, msg: Message, delivered: seq<Message>, simd: bool, ghost s: Loop)
      returns (running: bool, closeSock: bool, delivered': seq<Message>, ghost t: Loop, ghost why: Option<Why>)
      requires At(s) && delivered == s.delivered && |msg.body| < LENGTH_LIMIT
      modifies this`loopFlag, info`open, info`clock, info`sent
      ensures At(t) && delivered' == t.delivered
      ensures (t, why) == Session.Dispatch(info.env, cb, s, msg)
      ensures running == (why == None) && closeSock == (why == Some(CloseReceived))
    {
      running, closeSock, delivered' := true, false, delivered;
      if msg.opcode == OPCODE_CLOSE {
        running, closeSock := false, true;
      } else if msg.opcode == OPCODE_PING {
        running := Write(OPCODE_PONG, msg.body, simd);
      } else if msg.opcode == OPCODE_BIN || msg.opcode == OPCODE_TEXT {
        delivered' := delivered + [msg];
        var r := cb(delivered');
        info.sent := info.sent + r.wrote;
        if r.shutdown {
          ShutdownLoop();
        }
        running := r.keepGoing;
      }
      var d := Session.Dispatch(info.env, cb, s, msg);
      t, why := d.0, d.1;
    }

    /** One turn of the loop in ws_client_on_msg. */
    method Turn(cb: Callback, delivered: seq<Message>, simd: bool, ghost s: Loop)
      returns (running: bool, closeSock: bool, delivered': seq<Message>, ghost t: Loop, ghost why: Option<Why>)
      requires Valid() && At(s) && delivered == s.delivered
      requires Load(s.st, s.net) < LENGTH_LIMIT
      modifies this`loopFlag, reader, info`unread, info`open, info`clock, info`sent
      ensures Valid() && At(t) && delivered' == t.delivered
      ensures (t, why) == Session.Turn(info.env, cb, s)
      ensures running == (why == None) && closeSock == (why == Some(CloseReceived))
      ensures Load(t.st, t.net) <= Load(s.st, s.net)
    {
      ghost var s1, p;
      var ok, msg;
      ok, msg, s1, p := PullStep(simd, s);
      running, closeSock, delivered', t, why := AfterPull(cb, ok, msg, delivered, simd, s1);
    }

    /** What a turn does after its pull. */
    method AfterPull(cb: Callback, ok: bool, msg: Option<Message>, delivered: seq<Message>, simd: bool, ghost s: Loop)
      returns (running: bool, closeSock: bool, delivered': seq<Message>, ghost t: Loop, ghost why: Option<Why>)
      requires At(s) && delivered == s.delivered
      requires ok && msg.Some? ==> |msg.value.body| < LENGTH_LIMIT
      modifies this`loopFlag, info`open, info`clock, info`sent
      ensures At(t) && delivered' == t.delivered
      ensures (t, why) == Session.AfterPull(info.env, cb, s, if ok then Pulled(msg) else NoPull)
      ensures running == (why == None) && closeSock == (why == Some(CloseReceived))
      ensures t.st == s.st && t.net.unread == s.net.unread
    {
      running, closeSock, delivered', t := false, false, delivered, s;
      if !ok {
        why := Some(RecvFailed);
      } else if msg == None {
        why := Some(NullMessage);
      } else {
        running, closeSock, delivered', t, why := Respond(cb, msg.value, delivered, simd, s);
      }
    }

    /** What a turn does with its message; a turn that would go on still asks the flag. */
    method Respond(cb: Callback, msg: Message, delivered: seq<Message>, simd: bool, ghost s: Loop)
      returns (running: bool, closeSock: bool, delivered': seq<Message>, ghost t: Loop, ghost why: Option<Why>)
      requires At(s) && delivered == s.delivered && |msg.body| < LENGTH_LIMIT
      modifies this`loopFlag, info`open, info`clock, info`sent
      ensures At(t) && delivered' == t.delivered
      ensures (t, why) == Session.Respond(info.env, cb, s, msg)
      ensures running == (why == None) && closeSock == (why == Some(CloseReceived))
      ensures t.st == s.st && t.net.unread == s.net.unread
    {
      DispatchKeepsInput(info.env, cb, s, msg);
      running, closeSock, delivered', t, why := Dispatch(cb, msg, delivered, simd, s);
      if running {
        running, t, why := CheckFlag(t);
      }
    }

    method CheckFlag(ghost s: Loop) returns (running: bool, ghost t: Loop, ghost why: Option<Why>)
      requires At(s)
      modifies this`loopFlag, info`open, info`clock
      ensures At(t) && t == Interrupt(info.env, s)
      ensures running == t.flag && why == (if t.flag then None else Some(FlagCleared))
    {
      t := Interleave(s);
      running := loopFlag;
      why := if running then None else Some(FlagCleared);
    }

    /** The pull at the head of a turn. */
    method PullStep(simd: bool, ghost s: Loop) returns (ok: bool, msg: Option<Message>, ghost s1: Loop, ghost p: Pull)
      requires Valid() && At(s)
      modifies this`loopFlag, reader, info`unread, info`open, info`clock
      ensures Valid() && At(s1)
      ensures (s1, p) == PullTurn(info.env, s) && p == (if ok then Pulled(msg) else NoPull)
      ensures Load(s1.st, s1.net) <= Load(s.st, s.net)
      ensures ok && msg.Some? ==> |msg.value.body| <= Load(s.st, s.net)
    {
      ghost var s0 := Interleave(s);
      PullWithinLoad(info.env, s0.st, s0.net);
      ghost var o;
      ok, msg, o := NextMsg(simd);
      var r := PullTurn(info.env, s);
      s1, p := r.0, r.1;
    }

    /** The loop of ws_client_on_msg. */
    method Listen(cb: Callback, simd: bool)
      returns (closeSock: bool, delivered: seq<Message>, ghost end: Loop, ghost why: Why)
      requires Valid() && Load(reader.State(), info.View()) < LENGTH_LIMIT
      modifies this`loopFlag, reader, info`unread, info`open, info`clock, info`sent
      ensures Valid() && At(end) && delivered == end.delivered
      ensures Lockstep(old(reader.State()))
      ensures (end, why) == RunLoop(info.env, cb, Loop(old(reader.State()), old(info.View()), true, [], [], []))
      ensures closeSock == (why == CloseReceived)
    {
      loopFlag := true;
      ghost var start := Loop(reader.State(), info.View(), true, [], [], []);
      end, why := start, RecvFailed;
      delivered := [];
      var running := true;
      closeSock := false;
      while running
        invariant Valid() && At(end) && delivered == end.delivered
        invariant Load(end.st, end.net) < LENGTH_LIMIT
        invariant running ==> RunLoop(info.env, cb, end) == RunLoop(info.env, cb, start)
        invariant !running ==> RunLoop(info.env, cb, start) == (end, why) && closeSock == (why == CloseReceived)
        decreases running, |info.unread|
      {
        ghost var stop;
        TurnProgress(info.env, cb, end);
        running, closeSock, delivered, end, stop := Turn(cb, delivered, simd, end);
        if stop.Some? {
          why := stop.value;
        }
      }
    }
  }

  class WsClient {
    var inner: Connection?
    var host: Option<string>
    var path: Option<string>
    var port: nat
    var version: nat
    var useTls: bool

    /** ws_client_init */
    constructor ()
      ensures inner == null && host == None && path == None && port == 80 && version == 13 && !useTls
    {
      inner, host, path, port, version, useTls := null, None, None, 80, 13, false;
    }

    /** ws_client_from_str, with its running offset into the URL. `overrun` reports a port that does
        not fit the six-byte buffer, where the model stops. */
    method FromStr(url: string, ssl: bool) returns (ok: bool, overrun: bool)
      modifies this`host, this`path, this`port, this`version, this`useTls
      ensures ok == ParseUrl(url, ssl).Parsed? && overrun == ParseUrl(url, ssl).Overrun?
      ensures ok ==> host.Some? && ParseUrl(url, ssl) == Parsed(host.value, port, path, useTls)
      ensures !ok && !overrun ==> host == None && path == None
      ensures version == 13
    {
      host, path, port, version, useTls := None, None, 80, 13, false;
      overrun := false;
      var offset;
      ok, offset := ReadScheme(url, ssl);
      if !ok {
        return false, false;
      }
      ghost var t, r := UrlAt(url, ssl, offset, useTls);
      ok, overrun := ReadAuthority(url, offset, t);
    }

    /** The length checks and the prefix comparison. */
    method ReadScheme(url: string, ssl: bool) returns (ok: bool, offset: nat)
      requires !useTls
      modifies this`useTls
      ensures Scheme(url, ssl) == if ok then Some((offset, useTls)) else None
    {
      offset := |WS_PREFIX|;
      if |url| <= |WS_PREFIX| {
        return false, offset;
      }
      if |url| <= |WSS_PREFIX| {
        return false, offset;
      }
      if !(WS_PREFIX <= url) {
        if WSS_PREFIX <= url {
          if !ssl {
            return false, offset;
          }
          useTls := true;
          offset := |WSS_PREFIX|;
        } else {
          return false, offset;
        }
      }
      ok := true;
    }

    /** Host, port and path, from the offset after the scheme. */
    method ReadAuthority(url: string, start: nat, ghost t: Tail) returns (ok: bool, overrun: bool)
      requires |WS_PREFIX| <= start <= |WSS_PREFIX| <= |url|
      requires path == None && port == 80
      modifies this`host, this`path, this`port
      requires t == TailFrom(url, start + Strcspn(url[start..], ":/"))
      ensures host == Some(url[start..][..Strcspn(url[start..], ":/")])
      ensures overrun == t.LongPort() && ok == !overrun
      ensures ok ==> port == PortNumber(t.port) && path == t.path
    {
      var nextOffset := Strcspn(url[start..], ":/");
      host := Some(url[start..][..nextOffset]);
      if nextOffset + |WS_PREFIX| >= |url| {
        return true, false;
      }
      ok, overrun := ReadTail(url, start + nextOffset);
    }

    /** Port and path, from the offset after the host. */
    method ReadTail(url: string, at: nat) returns (ok: bool, overrun: bool)
      requires at <= |url| && path == None && port == 80
      modifies this`path, this`port
      ensures overrun == TailFrom(url, at).LongPort() && ok == !overrun
      ensures var t := TailFrom(url, at);
        ok ==> port == PortNumber(t.port) && path == t.path
    {
      var offset := at;
      if CharAt(url, offset) == ':' {
        overrun, offset := ReadPort(url, offset + 1);
        if overrun {
          return false, true;
        }
      }
      if offset != |url| && CharAt(url, offset) == '/' {
        path := Some(url[offset..]);
      }
      assert path == PathOf(url[offset..]);
      return true, false;
    }

    /** The digits after the colon, through a six-byte buffer. */
    method ReadPort(url: string, start: nat) returns (overrun: bool, offset: nat)
      requires start <= |url|
      modifies this`port
      ensures var n := Strcspn(url[start..], "/");
        && (overrun <==> n > 5)
        && (!overrun ==> port == PortOf(url[start..][..n]) && offset == start + n)
    {
      var nextOffset := Strcspn(url[start..], "/");
      if nextOffset > 5 {
        return true, start;
      }
      port := PortOf(url[start..][..nextOffset]);
      return false, start + nextOffset;
    }

    /** initial_handshake: GET with the path, or "/", and the four handshake headers; the Host header
        is added by the printer. The nonce is the base64 text the environment provides. */
    method InitialHandshake(nonce: string) returns (req: Option<string>, ghost order: seq<string>)
      ensures req == None <==> host == None || nonce == ""
      ensures req.Some? ==>
        var r := Handshake.HandshakeRequest(host.value, path, port, version, nonce);
        Http.Enumerates(order, r.WithHost()) && req.value == Http.PrintRequest(order, r)
    {
      if host == None {
        return None, [];
      }
      var r := new Http.HttpRequest();
      r.path := Some(Handshake.PathOrRoot(path));
      r.protocol := Some(Handshake.PROTOCOL);
      r.host := host;
      r.port := port % Handshake.PORT_RANGE;
      var ok := SetHandshakeHeaders(r, nonce);
      if !ok {
        return None, [];
      }
      assert r.View() == Handshake.HandshakeRequest(host.value, path, port, version, nonce);
      req, order := r.ToStr();
    }

    /** set_handshake_headers */
    method SetHandshakeHeaders(r: Http.HttpRequest, nonce: string) returns (ok: bool)
      requires r.Valid() && r.sets == []
      modifies r`headers, r`sets
      ensures r.Valid() && (ok <==> nonce != "")
      ensures ok ==> r.headers == Handshake.HandshakeFields(version, nonce)
    {
      r.Set("Upgrade", "websocket");
      r.Set("Connection", "Upgrade");
      if nonce == "" {
        return false;
      }
      r.Set("sec-websocket-key", nonce);
      r.Set("Sec-WebSocket-Version", Decimal(version));
      assert r.sets == [("Upgrade", "websocket"), ("Connection", "Upgrade"),
                        ("sec-websocket-key", nonce), ("Sec-WebSocket-Version", Decimal(version))];
      ok := true;
    }

    /** ws_client_shutdown_loop */
    method ShutdownLoop() returns (ok: bool)
      modifies if inner == null then {} else {inner, inner.info}
      ensures ok == (inner != null)
      ensures ok ==> !inner.loopFlag && inner.info.View() == old(inner.info.View()).(open := false)
    {
      if inner == null {
        return false;
      }
      inner.ShutdownLoop();
      ok := true;
    }

    /** ws_client_free */
    method Free()
      modifies this, if inner == null then {} else {inner.info}
      ensures inner == null && host == None && path == None
      ensures old(inner) != null ==> old(inner).info.View() == old(inner.info.View()).(open := false)
      ensures old(inner) != null ==> old(inner).reader.State() == old(inner.reader.State())
      ensures old(inner != null && inner.reader.Valid()) ==> old(inner).reader.Valid()
    {
      host, path := None, None;
      if inner != null {
        var local := inner;
        inner := null;
        local.info.Close();
      }
    }

    /** ws_client_on_msg. A client that is not connected is refused. Otherwise the call returns
        true in the state, and with the callback invocations, of the specified loop, and it has
        freed the client if and only if a CLOSE message ended the loop. */
    method OnMsg(cb: Callback, simd: bool) returns (ok: bool, delivered: seq<Message>, ghost end: Loop, ghost why: Why)
      requires inner != null ==> inner.Valid() && Load(inner.reader.State(), inner.info.View()) < LENGTH_LIMIT
      modifies this
      modifies if inner == null then {} else {inner, inner.reader, inner.info}
      ensures ok == (old(inner) != null)
      ensures !ok ==> delivered == [] && unchanged(this)
      ensures ok ==> Lockstep(old(inner.reader.State()))
      ensures ok ==>
        (end, why) == RunLoop(old(inner.info).env, cb,
                              Loop(old(inner.reader.State()), old(inner.info.View()), true, [], [], []))
      ensures ok ==> delivered == end.delivered
      ensures ok ==> old(inner.reader).Valid() && old(inner.reader).State() == end.st
      ensures ok ==> old(inner.info).View() == if why == CloseReceived then end.net.(open := false) else end.net
      ensures ok ==> inner == if why == CloseReceived then null else old(inner)
    {
      if inner == null {
        return false, [], Loop(FRESH, Net([], [], 0, false), false, [], [], []), RecvFailed;
      }
      delivered, end, why := ListenConnected(inner, cb, simd);
      ok := true;
    }

    /** The loop of a connected client, and the free after a CLOSE. */
    method ListenConnected(local: Connection, cb: Callback, simd: bool)
      returns (delivered: seq<Message>, ghost end: Loop, ghost why: Why)
      requires inner == local && local.Valid() && Load(local.reader.State(), local.info.View()) < LENGTH_LIMIT
      modifies this, local, local.reader, local.info
      ensures Lockstep(old(local.reader.State()))
      ensures (end, why) ==
        RunLoop(local.info.env, cb, Loop(old(local.reader.State()), old(local.info.View()), true, [], [], []))
      ensures delivered == end.delivered
      ensures local.reader.Valid() && local.reader.State() == end.st
      ensures local.info.View() == if why == CloseReceived then end.net.(open := false) else end.net
      ensures inner == if why == CloseReceived then null else local
    {
      var closeSock;
      closeSock, delivered, end, why := local.Listen(cb, simd);
      if closeSock {
        Free();
      }
    }

    /** ws_client_next_msg */
    method NextMsg(simd: bool) returns (ok: bool, out: Option<Message>)
      requires inner != null ==> inner.Valid()
      modifies if inner == null then {} else {inner.reader, inner.info}
      ensures inner == null ==> !ok
      ensures inner != null ==> inner.Valid()
      ensures inner != null ==>
        var (p, st, net) := PullSpec(inner.info.env, old(inner.reader.State()), old(inner.info.View()));
        p == (if ok then Pulled(out) else NoPull) && inner.reader.State() == st && inner.info.View() == net
    {
      if inner == null {
        return false, None;
      }
      ghost var o;
      ok, out, o := inner.NextMsg(simd);
    }
  }
}
