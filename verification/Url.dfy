/** The URL grammar that ws_client_from_str accepts, src/websocket.c. */
module Url {
  import opened Types
  import opened Text
  import opened Sequences

  const WS_PREFIX: string := "ws://"
  const WSS_PREFIX: string := "wss://"
  const UINT_RANGE: int := 0x1_0000_0000

  /** Overrun marks a port of more than five characters, which does not fit the parser's buffer. */
  datatype UrlResult =
    | Rejected
    | Overrun
    | Parsed(host: string, port: nat, path: Option<string>, tls: bool)

  /** Where the authority starts, and whether the scheme asks for TLS. */
  function Scheme(url: string, ssl: bool): Option<(nat, bool)> {
    if |url| <= |WSS_PREFIX| then None
    else if WS_PREFIX <= url then Some((|WS_PREFIX|, false))
    else if WSS_PREFIX <= url && ssl then Some((|WSS_PREFIX|, true))
    else None
  }

  /** The URL read from left to right: scheme, host, optional port, optional path. */
  function ParseUrl(url: string, ssl: bool): UrlResult {
    match Scheme(url, ssl)
    case None => Rejected
    case Some((start, tls)) => ParseAuthority(url[start..], tls)
  }

  function ParseAuthority(rest: string, tls: bool): UrlResult {
    var h := Strcspn(rest, ":/");
    Finish(rest[..h], TailOf(rest[h..]), tls)
  }

  /** The text of the port, if there is one, and the path. */
  datatype Tail = Tail(port: Option<string>, path: Option<string>)
  {
    /** A port that does not fit the parser's buffer. */
    predicate LongPort() {
      port.Some? && |port.value| > 5
    }
  }

  function TailOf(t: string): Tail {
    if t != "" && t[0] == ':' then
      var n := Strcspn(t[1..], "/");
      Tail(Some(t[1..][..n]), PathOf(t[1..][n..]))
    else Tail(None, PathOf(t))
  }

  function Finish(host: string, t: Tail, tls: bool): UrlResult {
    if t.LongPort() then Overrun else Parsed(host, PortNumber(t.port), t.path, tls)
  }

  /** The client's port: 80 unless the URL names one. */
  function PortNumber(port: Option<string>): nat {
    if port.Some? then PortOf(port.value) else 80
  }

  /** atoi into an unsigned int. */
  function PortOf(digits: string): nat {
    Atoi(digits) % UINT_RANGE
  }

  function PathOf(t: string): Option<string> {
    if t != "" && t[0] == '/' then Some(t) else None
  }

  /** The same tail told by positions in the whole URL, as the parser walks it. */
  function TailFrom(url: string, at: nat): Tail
    requires at <= |url|
  {
    if CharAt(url, at) == ':' then
      var n := Strcspn(url[at + 1..], "/");
      Tail(Some(url[at + 1..][..n]), PathOf(url[at + 1 + n..]))
    else Tail(None, PathOf(url[at..]))
  }

  lemma {:induction false} TailAt(url: string, at: nat)
    requires at <= |url|
    ensures TailFrom(url, at) == TailOf(url[at..])
  {
    if CharAt(url, at) == ':' {
      DropDrop(url, at, 1);
      DropDrop(url, at + 1, Strcspn(url[at + 1..], "/"));
    }
  }

  lemma {:induction false} UrlAt(url: string, ssl: bool, start: nat, tls: bool) returns (t: Tail, r: UrlResult)
    requires start <= |url| && Scheme(url, ssl) == Some((start, tls))
    ensures t == TailFrom(url, start + Strcspn(url[start..], ":/"))
    ensures r == ParseUrl(url, ssl)
    ensures r == if t.LongPort() then Overrun
                 else Parsed(url[start..][..Strcspn(url[start..], ":/")], PortNumber(t.port), t.path, tls)
  {
    var h := Strcspn(url[start..], ":/");
    DropDrop(url, start, h);
    TailAt(url, start + h);
    t, r := TailFrom(url, start + h), ParseUrl(url, ssl);
  }

  // ---- Printing, and the round trip.

  function PortText(port: Option<string>): string {
    match port
    case None => ""
    case Some(digits) => ":" + digits
  }

  function PrintUrl(host: string, port: Option<string>, path: string, tls: bool): string {
    (if tls then "wss://" else "ws://") + (host + (PortText(port) + path))
  }

  /** Parts that can be told apart once printed. The port is any text. */
  predicate PrintableUrl(host: string, port: Option<string>, path: string) {
    && Clean(host, ":/")
    && (port.Some? ==> Clean(port.value, "/"))
    && (path == "" || path[0] == '/')
  }

  lemma {:induction false} SchemesDiffer(a: string, b: string)
    ensures WS_PREFIX <= WS_PREFIX + a && WSS_PREFIX <= WSS_PREFIX + a && !(WS_PREFIX <= WSS_PREFIX + b)
  {
    assert (WSS_PREFIX + b)[2] == 's' && WS_PREFIX[2] == ':';
  }

  lemma {:induction false} AuthorityRoundTrip(host: string, port: Option<string>, path: string, tls: bool)
    requires PrintableUrl(host, port, path)
    ensures ParseAuthority(host + (PortText(port) + path), tls) ==
      if port.Some? && |port.value| > 5 then Overrun else Parsed(host, PortNumber(port), PathOf(path), tls)
  {
    var t := PortText(port) + path;
    StrcspnSpans(host, t, ":/");
    TakeDrop(host, t);
    if port.Some? {
      PortSpans(port.value, path);
    } else {
      Empty(path);
    }
  }

  lemma {:induction false} PortSpans(port: string, path: string)
    requires Clean(port, "/") && (path == "" || path[0] == '/')
    ensures var t := PortText(Some(port)) + path;
      var n := Strcspn(t[1..], "/");
      t[0] == ':' && n == |port| && t[1..][..n] == port && t[1..][n..] == path
  {
    var t := PortText(Some(port)) + path;
    assert t[1..] == port + path;
    StrcspnSpans(port, path, "/");
    TakeDrop(port, path);
  }

  /** What becomes of every printable URL: it is refused when the whole URL is six characters or
      shorter or the build does not know its scheme; a port of more than five characters leaves the
      parser's buffer; every other URL parses back to its parts. */
  lemma {:induction false} UrlRoundTrip(host: string, port: Option<string>, path: string, tls: bool, ssl: bool)
    requires PrintableUrl(host, port, path)
    ensures ParseUrl(PrintUrl(host, port, path, tls), ssl) ==
      if |PrintUrl(host, port, path, tls)| < 7 || (tls && !ssl) then Rejected
      else if port.Some? && |port.value| > 5 then Overrun
      else Parsed(host, if port.Some? then PortOf(port.value) else 80, if path == "" then None else Some(path), tls)
  {
    var rest := host + (PortText(port) + path);
    AuthorityRoundTrip(host, port, path, tls);
    SchemeRead(rest, ssl);
  }

  lemma {:induction false} SchemeRead(rest: string, ssl: bool)
    ensures ParseUrl(WS_PREFIX + rest, ssl) == if |rest| <= 1 then Rejected else ParseAuthority(rest, false)
    ensures rest != "" ==> ParseUrl(WSS_PREFIX + rest, ssl) == if ssl then ParseAuthority(rest, true) else Rejected
  {
    SchemesDiffer(rest, rest);
    TakeDrop(WS_PREFIX, rest);
    TakeDrop(WSS_PREFIX, rest);
  }

  /** Every text with a scheme is some printable URL, so UrlRoundTrip speaks of all of them. */
  lemma {:induction false} EveryUrl(url: string, tls: bool) returns (host: string, port: Option<string>, path: string)
    requires Clean(url, "") && (if tls then WSS_PREFIX else WS_PREFIX) <= url
    ensures PrintableUrl(host, port, path) && url == PrintUrl(host, port, path, tls)
  {
    var start := if tls then |WSS_PREFIX| else |WS_PREFIX|;
    host, port, path := EveryAuthority(url[start..]);
    Split(url, start);
  }

  lemma {:induction false} EveryAuthority(rest: string) returns (host: string, port: Option<string>, path: string)
    requires Clean(rest, "")
    ensures PrintableUrl(host, port, path) && rest == host + (PortText(port) + path)
  {
    var t;
    host, t := WordOf(rest, ":/");
    if t != "" && t[0] == ':' {
      var word, after := WordOf(t[1..], "/");
      port, path := Some(word), after;
      assert t == ":" + t[1..];
      Assoc(":", word, after);
    } else {
      port, path := None, t;
      Empty(t);
    }
  }

  lemma {:induction false} WordOf(s: string, reject: string) returns (word: string, after: string)
    requires Clean(s, "")
    ensures s == word + after && Clean(word, reject) && Clean(after, "") && (after == "" || after[0] in reject)
  {
    var n := Strcspn(s, reject);
    StrcspnStops(s, reject);
    word, after := s[..n], s[n..];
  }

  /** A printable URL whose port does not fit the parser's buffer. */
  predicate LongPort(url: string, host: string, port: string, path: string, tls: bool) {
    PrintableUrl(host, Some(port), path) && |port| > 5 && url == PrintUrl(host, Some(port), path, tls)
  }

  /** The parser leaves its port buffer exactly on URLs of a known scheme whose port has more than
      five characters, whatever they are. */
  lemma {:induction false} PortOverrunIff(url: string, ssl: bool)
    requires Clean(url, "")
    ensures ParseUrl(url, ssl) == Overrun <==>
      exists host, port, path, tls :: LongPort(url, host, port, path, tls) && (tls ==> ssl)
  {
    forall host, port, path, tls | LongPort(url, host, port, path, tls) && (tls ==> ssl)
      ensures ParseUrl(url, ssl) == Overrun
    {
      UrlRoundTrip(host, Some(port), path, tls, ssl);
    }
    if ParseUrl(url, ssl) == Overrun {
      var tls := Scheme(url, ssl).value.1;
      var host, port, path := EveryUrl(url, tls);
      UrlRoundTrip(host, port, path, tls, ssl);
      assert LongPort(url, host, port.value, path, tls);
    }
  }

  /** Such a URL: ws://a:123456/ */
  lemma {:induction false} SixDigitPort(ssl: bool)
    ensures ParseUrl("ws://" + ("a" + (":" + "123456" + "/")), ssl) == Overrun
  {
    UrlRoundTrip("a", Some("123456"), "/", false, ssl);
  }

  /** Literal URLs: the default port, in either scheme and build. */
  lemma {:induction false} DefaultPortUrls()
    ensures ParseUrl("ws://" + ("h" + ("" + "/c")), false) == Parsed("h", 80, Some("/c"), false)
    ensures ParseUrl("wss://" + ("h" + ("" + "/c")), true) == Parsed("h", 80, Some("/c"), true)
    ensures ParseUrl("wss://" + ("h" + ("" + "/c")), false) == Rejected
  {
    UrlRoundTrip("h", None, "/c", false, false);
    UrlRoundTrip("h", None, "/c", true, true);
    UrlRoundTrip("h", None, "/c", true, false);
  }

  /** Literal URLs with a port: atoi reads what is no number as zero, a number as far as it goes, and a
      negative one modulo 2^32. */
  lemma {:induction false} LiteralPortUrls(port: string, number: nat)
    requires (port, number) in [("9001", 9001), ("", 0), ("7x", 7), ("-1", 4294967295)]
    ensures ParseUrl("ws://" + ("h" + (":" + port + "/")), false) == Parsed("h", number, Some("/"), false)
  {
    PortLiterals();
    PortUrl(port);
  }

  lemma {:induction false} PortUrl(port: string)
    requires Clean(port, "/") && |port| <= 5
    ensures ParseUrl("ws://" + ("h" + (":" + port + "/")), false) == Parsed("h", PortOf(port), Some("/"), false)
  {
    UrlRoundTrip("h", Some(port), "/", false, false);
  }

  lemma {:induction false} PortLiterals()
    ensures PortOf("9001") == 9001 && PortOf("") == 0 && PortOf("7x") == 7 && PortOf("-1") == 4294967295
  {
    SmallNumbers();
    AtoiReads("", "", "9001", "");
    AtoiReads("", "", "7", "x");
    AtoiReads("", "-", "1", "");
    assert "" + ("" + ("9001" + "")) == "9001" && "" + ("" + ("7" + "x")) == "7x" && "" + ("-" + ("1" + "")) == "-1";
  }

  lemma {:induction false} SmallNumbers()
    ensures DigitsValue("9001") == 9001 && DigitsValue("7") == 7 && DigitsValue("1") == 1
  {
    assert "9001"[..3] == "900" && "900"[..2] == "90" && "90"[..1] == "9" && "9"[..0] == "";
    assert "7"[..0] == "" && "1"[..0] == "";
  }

  /** The URLs with a host that are refused for their length alone: the plain scheme and a
      one-character host. */
  lemma {:induction false} ShortUrls(host: string, port: Option<string>, path: string, tls: bool)
    requires PrintableUrl(host, port, path) && host != ""
    ensures |PrintUrl(host, port, path, tls)| < 7 <==> !tls && |host| == 1 && port == None && path == ""
  {}

  lemma {:induction false} DecimalPort(port: nat)
    ensures |Decimal(port)| <= 5 <==> port < 100000
    ensures Clean(Decimal(port), "/")
    ensures port < UINT_RANGE ==> PortOf(Decimal(port)) == port
  {
    DecimalLength(port);
    DecimalValue(port);
    AtoiOfDigits(Decimal(port));
  }

  /** Every port number below 100000 comes back from its decimal text, and no larger one does. */
  lemma {:induction false} NumericPort(host: string, port: nat, path: string, tls: bool, ssl: bool)
    requires PrintableUrl(host, None, path) && (tls ==> ssl)
    ensures ParseUrl(PrintUrl(host, Some(Decimal(port)), path, tls), ssl) ==
      if port >= 100000 then Overrun
      else Parsed(host, port, if path == "" then None else Some(path), tls)
  {
    DecimalPort(port);
    UrlRoundTrip(host, Some(Decimal(port)), path, tls, ssl);
  }
}
