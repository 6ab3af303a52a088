/** The opening request of src/websocket.c and the text it becomes. */
module Handshake {
  import opened Types
  import opened Text
  import opened Http
  import opened Url
  import opened Sequences

  const PROTOCOL: string := "HTTP/1.1"
  const EMPTY_PATH: string := "/"
  const PORT_RANGE: int := 0x1_0000

  function PathOrRoot(path: Option<string>): string {
    if path.Some? then path.value else EMPTY_PATH
  }

  /** set_handshake_headers */
  function HandshakeFields(version: nat, nonce: string): map<string, string> {
    SetAll(map[], [("Upgrade", "websocket"), ("Connection", "Upgrade"),
                   ("sec-websocket-key", nonce), ("Sec-WebSocket-Version", Decimal(version))])
  }

  /** initial_handshake; the request keeps the port in 16 bits. */
  function HandshakeRequest(host: string, path: Option<string>, port: nat, version: nat, nonce: string): Request {
    Request(Get, PathOrRoot(path), PROTOCOL, host, port % PORT_RANGE, HandshakeFields(version, nonce), "")
  }

  /** Section 4.1 of RFC 6455: the fields of the opening handshake. */
  function HandshakeHeaders(host: string, port: nat, version: nat, nonce: string): map<string, string> {
    map["upgrade" := "websocket", "connection" := "Upgrade", "sec-websocket-key" := nonce,
        "sec-websocket-version" := Decimal(version), "host" := HostValue(host, port % PORT_RANGE)]
  }

  lemma {:induction false} LowerNames()
    ensures Lower("Upgrade") == "upgrade" && Lower("upgrade") == "upgrade"
    ensures Lower("Connection") == "connection" && Lower("connection") == "connection"
    ensures Lower("sec-websocket-key") == "sec-websocket-key"
    ensures Lower("Sec-WebSocket-Version") == "sec-websocket-version"
    ensures Lower("sec-websocket-version") == "sec-websocket-version"
  {}

  /** The four sets, one after the other. */
  lemma {:induction false} HandshakeSets(version: nat, nonce: string)
    ensures HandshakeFields(version, nonce) ==
      SetHeader(SetHeader(SetHeader(SetHeader(map[], "Upgrade", "websocket"), "Connection", "Upgrade"),
                          "sec-websocket-key", nonce), "Sec-WebSocket-Version", Decimal(version))
  {
    var a, b := ("Upgrade", "websocket"), ("Connection", "Upgrade");
    var c, d := ("sec-websocket-key", nonce), ("Sec-WebSocket-Version", Decimal(version));
    assert SetAll(map[], []) == map[];
    SetAllStep(map[], [], a.0, a.1);
    assert [] + [a] == [a];
    SetAllStep(map[], [a], b.0, b.1);
    assert [a] + [b] == [a, b];
    SetAllStep(map[], [a, b], c.0, c.1);
    assert [a, b] + [c] == [a, b, c];
    SetAllStep(map[], [a, b, c], d.0, d.1);
    assert [a, b, c] + [d] == [a, b, c, d];
  }

  lemma {:induction false} HandshakeMap(version: nat, nonce: string)
    ensures HandshakeFields(version, nonce) ==
      map["upgrade" := "websocket", "connection" := "Upgrade", "sec-websocket-key" := nonce,
          "sec-websocket-version" := Decimal(version)]
  {
    LowerNames();
    HandshakeSets(version, nonce);
  }

  /** Whatever order the header map is walked in, the printed opening handshake parses back to GET,
      the path, HTTP/1.1 and exactly the five header fields. */
  lemma {:induction false} HandshakeReparses(order: seq<string>, host: string, path: Option<string>, port: nat,
      version: nat, nonce: string)
    requires Clean(host, "\r\n") && Clean(PathOrRoot(path), " \n") && Clean(nonce, "\r\n")
    requires Enumerates(order, HandshakeRequest(host, path, port, version, nonce).WithHost())
    ensures ParseRequest(PrintRequest(order, HandshakeRequest(host, path, port, version, nonce)), map[]) ==
      ParsedRequest(Get, PathOrRoot(path), PROTOCOL, HandshakeHeaders(host, port, version, nonce), "")
  {
    var r := HandshakeRequest(host, path, port, version, nonce);
    HandshakeIsClean(host, path, port, version, nonce);
    HandshakeMap(version, nonce);
    RequestRoundTrip(order, r);
    assert r.headers["host" := HostValue(host, r.port)] == HandshakeHeaders(host, port, version, nonce);
  }

  lemma {:induction false} HandshakeIsClean(host: string, path: Option<string>, port: nat, version: nat, nonce: string)
    requires Clean(host, "\r\n") && Clean(PathOrRoot(path), " \n") && Clean(nonce, "\r\n")
    ensures CleanRequest(HandshakeRequest(host, path, port, version, nonce))
  {
    HandshakeMap(version, nonce);
    LowerNames();
    CleanLiterals();
    DecimalIsClean(version);
    var a := SetHeader(map[], "upgrade", "websocket");
    CleanSet(map[], "upgrade", "websocket");
    CleanSet(a, "connection", "Upgrade");
    var b := SetHeader(a, "connection", "Upgrade");
    CleanSet(b, "sec-websocket-key", nonce);
    CleanSet(SetHeader(b, "sec-websocket-key", nonce), "sec-websocket-version", Decimal(version));
  }

  lemma {:induction false} CleanLiterals()
    ensures Clean("upgrade", ":\n") && Clean("websocket", "\r\n")
    ensures Clean("connection", ":\n") && Clean("Upgrade", "\r\n")
    ensures Clean("sec-websocket-key", ":\n") && Clean("sec-websocket-version", ":\n") && Clean(PROTOCOL, "\r\n")
  {}

  lemma {:induction false} DecimalIsClean(n: nat)
    ensures Clean(Decimal(n), "\r\n")
  {
    var s := Decimal(n);
    assert forall i :: 0 <= i < |s| ==> IsDigit(s[i]);
  }

  /** An enumeration has as many names as the map. */
  lemma {:induction false} EnumeratesCount(order: seq<string>, keys: set<string>)
    requires forall i, j :: 0 <= i < j < |order| ==> order[i] != order[j]
    requires forall k :: k in keys <==> k in order
    ensures |order| == |keys|
    decreases |order|
  {
    if order == [] {
      assert keys == {};
    } else {
      var front, last := order[..|order| - 1], order[|order| - 1];
      assert order == front + [last];
      EnumeratesCount(front, keys - {last});
    }
  }

  /** The opening handshake as text, in full: the request line, the five header lines of section 4.1 of
      RFC 6455 in whatever order the map is walked, the port modulo 65536, and the empty line. */
  lemma {:induction false} HandshakeText(order: seq<string>, host: string, path: Option<string>, port: nat,
      version: nat, nonce: string)
    requires Enumerates(order, HandshakeRequest(host, path, port, version, nonce).WithHost())
    ensures var h := map["upgrade" := "websocket", "connection" := "Upgrade", "sec-websocket-key" := nonce,
                         "sec-websocket-version" := Decimal(version), "host" := host + ":" + Decimal(port % 65536)];
      && |order| == 5 && (forall k :: k in order <==> k in h)
      && PrintRequest(order, HandshakeRequest(host, path, port, version, nonce)) ==
         ("GET " + (if path.Some? then path.value else "/") + " HTTP/1.1\r\n")
         + ((order[0] + ": " + h[order[0]] + "\r\n") + ((order[1] + ": " + h[order[1]] + "\r\n")
         + ((order[2] + ": " + h[order[2]] + "\r\n") + ((order[3] + ": " + h[order[3]] + "\r\n")
         + (order[4] + ": " + h[order[4]] + "\r\n")))) + "\r\n")
  {
    var h := HandshakeHeaders(host, port, version, nonce);
    HandshakeWithHost(host, path, port, version, nonce);
    EnumeratesCount(order, h.Keys);
    FiveKeys(h, Decimal(version), nonce, HostValue(host, port % PORT_RANGE));
    FiveFields(order, h);
    FirstLine(PathOrRoot(path));
    Empty(PrintFields(order, h) + CRLF);
  }

  lemma {:induction false} HandshakeWithHost(host: string, path: Option<string>, port: nat, version: nat, nonce: string)
    ensures HandshakeRequest(host, path, port, version, nonce).WithHost() ==
      HandshakeHeaders(host, port, version, nonce)
  {
    HostName();
    HandshakeMap(version, nonce);
  }

  lemma {:induction false} FiveKeys(h: map<string, string>, version: string, nonce: string, host: string)
    requires h == map["upgrade" := "websocket", "connection" := "Upgrade", "sec-websocket-key" := nonce,
                      "sec-websocket-version" := version, "host" := host]
    ensures |h.Keys| == 5
  {
    assert h.Keys == {"upgrade", "connection", "sec-websocket-key", "sec-websocket-version", "host"};
    assert |"upgrade"| == 7 && |"connection"| == 10 && |"host"| == 4;
    assert |"sec-websocket-key"| == 17 && |"sec-websocket-version"| == 21;
  }

  lemma {:induction false} FiveFields(order: seq<string>, h: map<string, string>)
    requires |order| == 5 && forall k :: k in order ==> k in h
    ensures PrintFields(order, h) ==
      (order[0] + ": " + h[order[0]] + "\r\n") + ((order[1] + ": " + h[order[1]] + "\r\n")
      + ((order[2] + ": " + h[order[2]] + "\r\n") + ((order[3] + ": " + h[order[3]] + "\r\n")
      + (order[4] + ": " + h[order[4]] + "\r\n"))))
  {
    FirstField(order, h);
    FirstField(order[1..], h);
    FirstField(order[2..], h);
    FirstField(order[3..], h);
    assert order[4..] == [order[4]];
    OneField(order[4], h);
    DropDrop(order, 1, 1);
    DropDrop(order, 2, 1);
    DropDrop(order, 3, 1);
  }

  lemma {:induction false} FirstField(order: seq<string>, h: map<string, string>)
    requires |order| > 1 && forall k :: k in order ==> k in h
    ensures PrintFields(order, h) == (order[0] + ": " + h[order[0]] + "\r\n") + PrintFields(order[1..], h)
  {
    assert order == [order[0]] + order[1..];
    PrintFieldsSplit([order[0]], order[1..], h);
    OneField(order[0], h);
  }

  lemma {:induction false} FirstLine(path: string)
    ensures StartLine(Get, path, PROTOCOL) == "GET " + path + " HTTP/1.1\r\n"
  {
    assert "GET" + " " == "GET ";
    Assoc("GET " + path, " ", "HTTP/1.1");
    Assoc("GET " + path, " " + "HTTP/1.1", "\r\n");
    assert " " + "HTTP/1.1" + "\r\n" == " HTTP/1.1\r\n";
  }

  /** From the URL to the request, for every printable URL without line breaks or spaces where they
      would cut a line: unless the URL is refused or its port leaves the buffer, the handshake of
      the client made from it asks for the URL's path and names its host and port, the port cut to
      16 bits, whatever order the headers are walked in. */
  lemma {:induction false} UrlToHandshake(order: seq<string>, host: string, port: Option<string>, path: string,
      tls: bool, ssl: bool, version: nat, nonce: string)
    requires PrintableUrl(host, port, path)
    requires Clean(host, "\r\n") && Clean(path, " \n") && Clean(nonce, "\r\n")
    ensures match ParseUrl(PrintUrl(host, port, path, tls), ssl)
      case Rejected => |PrintUrl(host, port, path, tls)| < 7 || (tls && !ssl)
      case Overrun => port.Some? && |port.value| > 5
      case Parsed(h, p, q, t) =>
        var r := HandshakeRequest(h, q, p, version, nonce);
        && t == tls
        && (Enumerates(order, r.WithHost()) ==>
              ParseRequest(PrintRequest(order, r), map[]) ==
              ParsedRequest(Get, if path == "" then "/" else path, PROTOCOL,
                            HandshakeHeaders(host, if port.Some? then PortOf(port.value) else 80, version, nonce), ""))
  {
    UrlRoundTrip(host, port, path, tls, ssl);
    var q := if path == "" then None else Some(path);
    if Enumerates(order, HandshakeRequest(host, q, PortNumber(port), version, nonce).WithHost()) {
      HandshakeReparses(order, host, q, PortNumber(port), version, nonce);
    }
  }

  /** The 16-bit port agrees with the client's exactly for ports that fit. */
  lemma {:induction false} HostNamesPortIff(host: string, port: nat)
    ensures HostValue(host, port % PORT_RANGE) == HostValue(host, port) <==> port < PORT_RANGE
  {
    if HostValue(host, port % PORT_RANGE) == HostValue(host, port) {
      var a, b := Decimal(port % PORT_RANGE), Decimal(port);
      assert (host + ":" + a)[|host| + 1..] == a && (host + ":" + b)[|host| + 1..] == b;
      DecimalValue(port);
      DecimalValue(port % PORT_RANGE);
    }
  }
}
