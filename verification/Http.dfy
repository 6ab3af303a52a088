/** src/http.c: the request text, printed and parsed over a map of lower-cased header names. */
module Http {
  import opened Types
  import opened Text
  import opened Sequences

  datatype Method = Get | Post | Put | Delete | Options | InvalidMethod

  const CRLF: string := "\r\n"

  /** http_method_get_string */
  function MethodString(m: Method): string {
    match m
    case Get => "GET"
    case Post => "POST"
    case Put => "PUT"
    case Delete => "DELETE"
    case Options => "OPTIONS"
    case InvalidMethod => ""
  }

  /** http_method_get_enum: the first method whose name starts the text. */
  function MethodEnum(s: string): Method {
    if "GET" <= s then Get
    else if "POST" <= s then Post
    else if "PUT" <= s then Put
    else if "DELETE" <= s then Delete
    else if "OPTIONS" <= s then Options
    else InvalidMethod
  }

  lemma {:induction false} MethodRoundTrip(m: Method)
    ensures MethodEnum(MethodString(m)) == m
    ensures Clean(MethodString(m), " \n")
  {
    var s := MethodString(m);
    assert m != InvalidMethod ==>
      s[0] == (match m case Get => 'G' case Delete => 'D' case Options => 'O' case _ => 'P');
    assert "GET"[0] == 'G' && "POST"[0] == 'P' && "PUT"[0] == 'P' && "DELETE"[0] == 'D' && "OPTIONS"[0] == 'O';
  }

  /** The parser knows a method by its name standing at the start of the text, and no text starts with
      two of them. */
  lemma {:induction false} MethodEnumIff(s: string, m: Method)
    requires m != InvalidMethod
    ensures MethodEnum(s) == m <==> MethodString(m) <= s
  {
    assert "GET"[0] == 'G' && "POST"[0] == 'P' && "PUT"[0] == 'P' && "DELETE"[0] == 'D' && "OPTIONS"[0] == 'O';
    assert "POST"[1] == 'O' && "PUT"[1] == 'U';
  }

  // ---- Header map.

  function SetHeader(headers: map<string, string>, key: string, value: string): map<string, string> {
    headers[Lower(key) := value]
  }

  function GetHeader(headers: map<string, string>, key: string): Option<string> {
    if Lower(key) in headers then Some(headers[Lower(key)]) else None
  }

  function SetAll(headers: map<string, string>, sets: seq<(string, string)>): map<string, string> {
    if sets == [] then headers
    else SetHeader(SetAll(headers, sets[..|sets| - 1]), sets[|sets| - 1].0, sets[|sets| - 1].1)
  }

  lemma {:induction false} SetAllStep(headers: map<string, string>, sets: seq<(string, string)>, key: string,
      value: string)
    ensures SetAll(headers, sets + [(key, value)]) == SetHeader(SetAll(headers, sets), key, value)
  {
    assert (sets + [(key, value)])[..|sets|] == sets;
  }

  /** The set that wins for a name: the last one that agrees with it after lower-casing. */
  ghost predicate LastFor(sets: seq<(string, string)>, key: string, i: nat) {
    && i < |sets| && Lower(sets[i].0) == Lower(key)
    && forall j :: i < j < |sets| ==> Lower(sets[j].0) != Lower(key)
  }

  /** After any sequence of sets, a get returns the value of the last set that agrees with its key
      up to case ... */
  lemma {:induction false} LastSetWins(headers: map<string, string>, sets: seq<(string, string)>, key: string, i: nat)
    requires LastFor(sets, key, i)
    ensures GetHeader(SetAll(headers, sets), key) == Some(sets[i].1)
    decreases |sets|
  {
    var front, last := sets[..|sets| - 1], sets[|sets| - 1];
    if i < |front| {
      assert Lower(sets[|front|].0) != Lower(key);
      assert forall j :: i < j < |front| ==> front[j] == sets[j];
      LastSetWins(headers, front, key, i);
    }
  }

  /** No set agrees with the name. */
  ghost predicate NeverSet(sets: seq<(string, string)>, key: string) {
    forall i :: 0 <= i < |sets| ==> Lower(sets[i].0) != Lower(key)
  }

  /** ... and what was there before when none does. */
  lemma {:induction false} OtherSetsKeep(headers: map<string, string>, sets: seq<(string, string)>, key: string)
    requires NeverSet(sets, key)
    ensures GetHeader(SetAll(headers, sets), key) == GetHeader(headers, key)
    decreases |sets|
  {
    if sets != [] {
      var front := sets[..|sets| - 1];
      assert forall i :: 0 <= i < |front| ==> front[i] == sets[i];
      OtherSetsKeep(headers, front, key);
    }
  }

  /** A value that a get may return after these sets: that of the last agreeing one, if any. */
  ghost predicate LastSetValue(value: Option<string>, sets: seq<(string, string)>, key: string) {
    && (NeverSet(sets, key) ==> value == None)
    && forall i: nat :: LastFor(sets, key, i) ==> value == Some(sets[i].1)
  }

  lemma {:induction false} GetAfterSets(sets: seq<(string, string)>, key: string)
    ensures LastSetValue(GetHeader(SetAll(map[], sets), key), sets, key)
  {
    if NeverSet(sets, key) {
      OtherSetsKeep(map[], sets, key);
    }
    forall i: nat | LastFor(sets, key, i)
      ensures GetHeader(SetAll(map[], sets), key) == Some(sets[i].1)
    {
      LastSetWins(map[], sets, key, i);
    }
  }

  // ---- Printing.

  /** One enumeration of the header map: every name once, in whatever order. */
  ghost predicate Enumerates(order: seq<string>, headers: map<string, string>) {
    && (forall i, j :: 0 <= i < j < |order| ==> order[i] != order[j])
    && (forall k :: k in headers <==> k in order)
  }

  function Field(key: string, value: string): string {
    key + ": " + value + CRLF
  }

  function PrintFields(order: seq<string>, headers: map<string, string>): string
    requires forall k :: k in order ==> k in headers
  {
    if order == [] then ""
    else PrintFields(order[..|order| - 1], headers) + Field(order[|order| - 1], headers[order[|order| - 1]])
  }

  function PrintBody(body: string): string {
    if body == "" then "" else body + CRLF
  }

  function PrintMessage(order: seq<string>, headers: map<string, string>, body: string): string
    requires forall k :: k in order ==> k in headers
  {
    PrintFields(order, headers) + CRLF + PrintBody(body)
  }

  function StartLine(m: Method, path: string, protocol: string): string {
    MethodString(m) + " " + path + " " + protocol + CRLF
  }

  function HostValue(host: string, port: nat): string {
    host + ":" + Decimal(port)
  }

  // ---- Parsing.

  /** Overrun marks a step past the terminator, where the C code would read out of bounds. */
  datatype FieldsResult = FieldsOverrun | Fields(headers: map<string, string>, body: string)

  /** The next line of a header block: the empty line, or one field and the text after it. */
  datatype Line = EmptyLine | LineOverrun | FieldLine(key: string, value: string, rest: string)

  function NextLine(t: string): (l: Line)
    requires t != ""
    ensures l.FieldLine? ==> |l.rest| < |t|
  {
    if Strcspn(t, "\n") == 1 then EmptyLine
    else
      var k := Strcspn(t, ":");
      if k + 2 > |t| then LineOverrun
      else
        var u := t[k + 2..];
        var v := Strcspn(u, "\r");
        FieldLine(t[..k], u[..v], Drop(u, v + 2))
  }

  /** http_message_from_str on the text that is left. */
  function ParseFields(t: string, headers: map<string, string>): FieldsResult
    decreases |t|
  {
    if t == "" then Fields(headers, "")
    else
      match NextLine(t)
      case EmptyLine => Fields(headers, Drop(t, 2))
      case LineOverrun => FieldsOverrun
      case FieldLine(key, value, rest) => ParseFields(rest, SetHeader(headers, key, value))
  }

  datatype StartResult = BadStart | StartOverrun | Start(m: Method, path: string, protocol: string)

  /** parse_request_start_line on the first line of the text. */
  function ParseStart(s: string, lineLen: nat): StartResult {
    var a := Strcspn(s, " ");
    if a > lineLen then BadStart
    else if a + 1 > |s| then StartOverrun
    else ParseTarget(MethodEnum(s[..a]), s[a + 1..], a + 1, lineLen)
  }

  /** The path and the protocol, in the text `t` that starts at `index`. */
  function ParseTarget(m: Method, t: string, index: nat, lineLen: nat): StartResult {
    var b := Strcspn(t, " ");
    if index + b > lineLen then BadStart
    else if b + 1 > |t| then StartOverrun
    else
      var u := t[b + 1..];
      var c := Strcspn(u, "\r");
      if index + b + 1 + c > lineLen then BadStart
      else Start(m, t[..b], u[..c])
  }

  // ---- Round trip.

  predicate CleanField(key: string, value: string) {
    Clean(key, ":\n") && Clean(value, "\r\n")
  }

  /** A printed field is read back as that field, whatever follows it. */
  lemma {:induction false} FieldParses(key: string, value: string, rest: string)
    requires CleanField(key, value)
    ensures Field(key, value) + rest != "" && NextLine(Field(key, value) + rest) == FieldLine(key, value, rest)
  {
    var t := Field(key, value) + rest;
    var u := value + (CRLF + rest);
    assert t == key + (": " + u);
    StrcspnSpans(key, ": " + u, ":");
    TakeDrop(key, ": " + u);
    assert t[|key| + 2..] == u;
    StrcspnSpans(value, CRLF + rest, "\r");
    TakeDrop(value, CRLF + rest);
    assert Drop(u, |value| + 2) == rest;
    LineIsLong(key, value, rest);
  }

  /** The line of a field is never mistaken for the empty line. */
  lemma {:induction false} LineIsLong(key: string, value: string, rest: string)
    requires CleanField(key, value)
    ensures Strcspn(Field(key, value) + rest, "\n") == |key| + 2 + |value| + 1
  {
    var line := key + ": " + value + "\r";
    assert Field(key, value) + rest == line + ("\n" + rest);
    StrcspnSpans(line, "\n" + rest, "\n");
  }

  /** The map after setting the printed fields in order. */
  function Overlay(acc: map<string, string>, order: seq<string>, headers: map<string, string>): map<string, string>
    requires forall k :: k in order ==> k in headers
  {
    if order == [] then acc
    else SetHeader(Overlay(acc, order[..|order| - 1], headers), order[|order| - 1], headers[order[|order| - 1]])
  }

  ghost predicate CleanHeaders(headers: map<string, string>) {
    forall k :: k in headers ==> CleanField(k, headers[k]) && Lower(k) == k
  }

  lemma {:induction false} CleanSet(headers: map<string, string>, key: string, value: string)
    requires CleanHeaders(headers) && CleanField(Lower(key), value)
    ensures CleanHeaders(SetHeader(headers, key, value))
  {
    LowerIdempotent(key);
  }

  lemma {:induction false} LowerIsClean(key: string)
    requires Clean(key, ":\n")
    ensures Clean(Lower(key), ":\n")
  {
    forall i | 0 <= i < |key|
      ensures Lower(key)[i] !in ":\n" && Lower(key)[i] != NUL
    {
      assert key[i] !in ":\n" && key[i] != NUL;
    }
  }

  ghost predicate CleanSets(sets: seq<(string, string)>) {
    forall i :: 0 <= i < |sets| ==> CleanField(sets[i].0, sets[i].1)
  }

  /** Any sequence of clean sets makes a map that can be printed and parsed. */
  lemma {:induction false} CleanSetsMakeCleanHeaders(sets: seq<(string, string)>)
    requires CleanSets(sets)
    ensures CleanHeaders(SetAll(map[], sets))
  {
    if sets != [] {
      var front, last := sets[..|sets| - 1], sets[|sets| - 1];
      assert forall i :: 0 <= i < |front| ==> front[i] == sets[i];
      CleanSetsMakeCleanHeaders(front);
      LowerIsClean(last.0);
      CleanSet(SetAll(map[], front), last.0, last.1);
    }
  }

  lemma {:induction false} FieldsParse(order: seq<string>, headers: map<string, string>, rest: string,
      acc: map<string, string>)
    requires CleanHeaders(headers) && forall k :: k in order ==> k in headers
    ensures ParseFields(PrintFields(order, headers) + rest, acc) == ParseFields(rest, Overlay(acc, order, headers))
    decreases |order|
  {
    if order == [] {
      assert "" + rest == rest;
    } else {
      var front, last := order[..|order| - 1], order[|order| - 1];
      var field := Field(last, headers[last]);
      assert last in order;
      assert PrintFields(order, headers) + rest == PrintFields(front, headers) + (field + rest);
      FieldsParse(front, headers, field + rest, acc);
      FieldParses(last, headers[last], rest);
    }
  }

  lemma {:induction false} OverlayIs(order: seq<string>, headers: map<string, string>)
    requires CleanHeaders(headers) && forall k :: k in order ==> k in headers
    ensures Overlay(map[], order, headers) == map k | k in order :: headers[k]
    decreases |order|
  {
    if order != [] {
      var front, last := order[..|order| - 1], order[|order| - 1];
      OverlayIs(front, headers);
      assert last in order;
      assert order == front + [last];
    }
  }

  /** A printed header block in front of any text. */
  lemma {:induction false} BlockParses(order: seq<string>, headers: map<string, string>, text: string)
    requires CleanHeaders(headers) && Enumerates(order, headers)
    ensures ParseFields(PrintFields(order, headers) + (CRLF + text), map[]) == Fields(headers, text)
  {
    FieldsParse(order, headers, CRLF + text, map[]);
    OverlayIs(order, headers);
    assert (map k | k in order :: headers[k]) == headers;
    BlankLineEnds(text, headers);
  }

  /** For every enumeration order, the printed header block and body parse back to the header map
      and the body, which gains a line end unless it is empty. */
  lemma {:induction false} MessageRoundTrip(order: seq<string>, headers: map<string, string>, body: string)
    requires CleanHeaders(headers) && Enumerates(order, headers)
    ensures ParseFields(PrintMessage(order, headers, body), map[]) == Fields(headers, PrintBody(body))
  {
    Assoc(PrintFields(order, headers), CRLF, PrintBody(body));
    BlockParses(order, headers, PrintBody(body));
  }

  lemma {:induction false} BlankLineEnds(body: string, headers: map<string, string>)
    ensures ParseFields(CRLF + body, headers) == Fields(headers, body)
  {
    var t := CRLF + body;
    assert t == "\r" + ("\n" + body);
    StrcspnSpans("\r", "\n" + body, "\n");
    assert NextLine(t) == EmptyLine && Drop(t, 2) == body;
  }

  lemma {:induction false} StartRoundTrip(m: Method, path: string, protocol: string, rest: string)
    requires m != InvalidMethod && Clean(path, " \n") && Clean(protocol, "\r\n")
    ensures var s := StartLine(m, path, protocol) + rest;
      var n := Strcspn(s, "\n");
      n + 1 == |StartLine(m, path, protocol)| && ParseStart(s, n) == Start(m, path, protocol)
  {
    var name := MethodString(m);
    var s, t, u := StartLineParts(name, path, protocol, rest);
    MethodRoundTrip(m);
    StartLineEnds(name, path, protocol, rest);
    WordThen(name, t, " \n");
    WordThen(path, u, " \n");
    ProtocolThen(protocol, rest);
    StartFrom(s, |name| + |path| + |protocol| + 3, |name|, |path|, |protocol|, t, u);
  }

  /** The text after each of the three words. */
  lemma {:induction false} StartLineParts(name: string, path: string, protocol: string, rest: string)
    returns (s: string, t: string, u: string)
    ensures s == name + " " + path + " " + protocol + CRLF + rest
    ensures s == name + (" " + t) && t == path + (" " + u) && u == protocol + (CRLF + rest)
  {
    u := protocol + (CRLF + rest);
    t := path + (" " + u);
    s := name + (" " + t);
  }

  lemma {:induction false} StartFrom(s: string, n: nat, a: nat, b: nat, c: nat, t: string, u: string)
    requires a == Strcspn(s, " ") <= n && a + 1 <= |s| && t == s[a + 1..]
    requires b == Strcspn(t, " ") && a + 1 + b <= n && b + 1 <= |t| && u == t[b + 1..]
    requires c == Strcspn(u, "\r") && a + 1 + b + 1 + c <= n
    ensures ParseStart(s, n) == Start(MethodEnum(s[..a]), t[..b], u[..c])
  {}

  lemma {:induction false} ProtocolThen(protocol: string, rest: string)
    requires Clean(protocol, "\r\n")
    ensures Strcspn(protocol + (CRLF + rest), "\r") == |protocol|
    ensures (protocol + (CRLF + rest))[..|protocol|] == protocol
  {
    StrcspnSpans(protocol, CRLF + rest, "\r");
    TakeDrop(protocol, CRLF + rest);
  }

  /** A word in front of a space is spanned, and what follows the space is left. */
  lemma {:induction false} WordThen(word: string, rest: string, delimiters: string)
    requires Clean(word, delimiters) && ' ' in delimiters
    ensures var s := word + (" " + rest);
      Strcspn(s, " ") == |word| && s[..|word|] == word && |word| + 1 <= |s| && s[|word| + 1..] == rest
  {
    StrcspnSpans(word, " " + rest, " ");
    TakeDrop(word, " " + rest);
  }

  lemma {:induction false} StartLineEnds(name: string, path: string, protocol: string, rest: string)
    requires Clean(name, " \n") && Clean(path, " \n") && Clean(protocol, "\r\n")
    ensures Strcspn(name + " " + path + " " + protocol + CRLF + rest, "\n") == |name| + |path| + |protocol| + 3
  {
    var line := name + " " + path + " " + protocol + "\r";
    assert name + " " + path + " " + protocol + CRLF + rest == line + ("\n" + rest);
    StrcspnSpans(line, "\n" + rest, "\n");
  }

  // ---- Whole requests.

  /** What a request says, as opposed to the object that holds it. */
  datatype Request = Request(m: Method, path: string, protocol: string, host: string, port: nat,
                             headers: map<string, string>, body: string)
  {
    /** http_request_to_str adds the Host header before printing. */
    function WithHost(): map<string, string> {
      SetHeader(headers, "Host", HostValue(host, port))
    }
  }

  function PrintRequest(order: seq<string>, r: Request): string
    requires forall k :: k in order ==> k in r.WithHost()
  {
    StartLine(r.m, r.path, r.protocol) + PrintMessage(order, r.WithHost(), r.body)
  }

  datatype RequestResult =
    | BadRequest
    | RequestOverrun
    | ParsedRequest(m: Method, path: string, protocol: string, headers: map<string, string>, body: string)

  /** http_request_from_str */
  function ParseRequest(s: string, headers: map<string, string>): RequestResult {
    var n := Strcspn(s, "\n");
    Combine(ParseStart(s, n), ParseFields(Drop(s, n + 1), headers))
  }

  function Combine(start: StartResult, fields: FieldsResult): RequestResult {
    match start
    case BadStart => BadRequest
    case StartOverrun => RequestOverrun
    case Start(m, path, protocol) =>
      match fields
      case FieldsOverrun => RequestOverrun
      case Fields(h, body) => ParsedRequest(m, path, protocol, h, body)
  }

  /** `r` is what the header grammar makes of the text from `offset` on. The quantifier only keeps
      proofs that pass this on from unfolding the grammar. */
  ghost predicate FieldsRead(s: string, offset: nat, headers: map<string, string>, r: FieldsResult) {
    forall t :: t == Drop(s, offset) ==> r == ParseFields(t, headers)
  }

  lemma {:induction false} CombineIsParse(s: string, headers: map<string, string>, start: StartResult,
      fields: FieldsResult)
    requires start == ParseStart(s, Strcspn(s, "\n"))
    requires start.Start? ==> FieldsRead(s, Strcspn(s, "\n") + 1, headers, fields)
    ensures Combine(start, fields) == ParseRequest(s, headers)
  {}

  ghost predicate CleanRequest(r: Request) {
    && r.m != InvalidMethod
    && Clean(r.path, " \n") && Clean(r.protocol, "\r\n") && Clean(r.host, "\r\n")
    && CleanHeaders(r.headers)
  }

  lemma {:induction false} HostIsClean(host: string, port: nat)
    requires Clean(host, "\r\n")
    ensures CleanField("host", HostValue(host, port)) && Lower("Host") == "host" && Lower("host") == "host"
  {
    var v := HostValue(host, port);
    forall i | 0 <= i < |v|
      ensures v[i] !in "\r\n" && v[i] != NUL
    {
      if i < |host| {
        assert v[i] == host[i];
      } else if i > |host| {
        assert v[i] == Decimal(port)[i - |host| - 1];
        assert IsDigit(v[i]);
      }
    }
  }

  // ---- Round trips of whole requests.

  /** Everything of a printed request in front of its body. */
  function PrintHead(order: seq<string>, r: Request): string
    requires forall k :: k in order ==> k in r.WithHost()
  {
    StartLine(r.m, r.path, r.protocol) + (PrintFields(order, r.WithHost()) + CRLF)
  }

  lemma {:induction false} HeadThenBody(order: seq<string>, r: Request)
    requires forall k :: k in order ==> k in r.WithHost()
    ensures PrintRequest(order, r) == PrintHead(order, r) + PrintBody(r.body)
  {
    var start, fields := StartLine(r.m, r.path, r.protocol), PrintFields(order, r.WithHost());
    Assoc(start, fields + CRLF, PrintBody(r.body));
  }

  lemma {:induction false} FieldsAreClean(order: seq<string>, headers: map<string, string>)
    requires CleanHeaders(headers) && forall k :: k in order ==> k in headers
    ensures Clean(PrintFields(order, headers), "")
  {
    if order != [] {
      var last := order[|order| - 1];
      assert last in order;
      FieldsAreClean(order[..|order| - 1], headers);
      FieldIsClean(last, headers[last]);
      CleanAppend(PrintFields(order[..|order| - 1], headers), Field(last, headers[last]));
    }
  }

  lemma {:induction false} FieldIsClean(key: string, value: string)
    requires CleanField(key, value)
    ensures Clean(Field(key, value), "")
  {
    CleanAppend(key, ": ");
    CleanAppend(key + ": ", value);
    CleanAppend(key + ": " + value, CRLF);
  }

  lemma {:induction false} CleanAppend(a: string, b: string)
    requires Clean(a, "") && Clean(b, "")
    ensures Clean(a + b, "")
  {}

  lemma {:induction false} StartIsClean(m: Method, path: string, protocol: string)
    requires Clean(path, " \n") && Clean(protocol, "\r\n")
    ensures Clean(StartLine(m, path, protocol), "")
  {
    MethodRoundTrip(m);
    CleanAppend(MethodString(m), " ");
    CleanAppend(MethodString(m) + " ", path);
    CleanAppend(MethodString(m) + " " + path, " ");
    CleanAppend(MethodString(m) + " " + path + " ", protocol);
    CleanAppend(MethodString(m) + " " + path + " " + protocol, CRLF);
  }

  lemma {:induction false} HeadIsClean(order: seq<string>, r: Request)
    requires CleanRequest(r) && Enumerates(order, r.WithHost())
    ensures Clean(PrintHead(order, r), "")
  {
    var start, fields := StartLine(r.m, r.path, r.protocol), PrintFields(order, r.WithHost());
    HostIsClean(r.host, r.port);
    assert CleanHeaders(r.WithHost());
    StartIsClean(r.m, r.path, r.protocol);
    FieldsAreClean(order, r.WithHost());
    CleanAppend(fields, CRLF);
    CleanAppend(start, fields + CRLF);
  }

  /** The head of a clean request parses back in front of any text. */
  lemma {:induction false} HeadParses(order: seq<string>, r: Request, text: string)
    requires CleanRequest(r) && Enumerates(order, r.WithHost())
    ensures ParseRequest(PrintHead(order, r) + text, map[]) ==
      ParsedRequest(r.m, r.path, r.protocol, r.headers["host" := HostValue(r.host, r.port)], text)
  {
    HostIsClean(r.host, r.port);
    var headers := r.WithHost();
    var start, rest := StartLine(r.m, r.path, r.protocol), PrintFields(order, headers) + (CRLF + text);
    Assoc(PrintFields(order, headers), CRLF, text);
    Assoc(start, PrintFields(order, headers) + CRLF, text);
    StartRoundTrip(r.m, r.path, r.protocol, rest);
    assert Drop(start + rest, |start|) == rest;
    assert CleanHeaders(headers);
    BlockParses(order, headers, text);
  }

  /** For every clean request and every enumeration order of its headers, parsing the printed text
      stays in bounds and restores method, path, protocol, the headers together with Host, and the
      body followed by a line end unless it is empty. */
  lemma {:induction false} RequestRoundTrip(order: seq<string>, r: Request)
    requires CleanRequest(r) && Enumerates(order, r.WithHost())
    ensures ParseRequest(PrintRequest(order, r), map[]) ==
      ParsedRequest(r.m, r.path, r.protocol, r.headers["host" := HostValue(r.host, r.port)], PrintBody(r.body))
  {
    HeadThenBody(order, r);
    HeadParses(order, r, PrintBody(r.body));
  }

  /** http_request_to_str hands out a C string without its length. Read as such, a clean request
      parses back to its parts, and its body, line end included, up to the first NUL; so the body
      comes back whole if and only if it holds no NUL. */
  lemma {:induction false} RequestAsCString(order: seq<string>, r: Request)
    requires CleanRequest(r) && Enumerates(order, r.WithHost())
    ensures ParseRequest(CString(PrintRequest(order, r)), map[]) ==
      ParsedRequest(r.m, r.path, r.protocol, r.headers["host" := HostValue(r.host, r.port)],
                    CString(PrintBody(r.body)))
    ensures CString(PrintBody(r.body)) == PrintBody(r.body) <==> Clean(r.body, "")
  {
    HeadThenBody(order, r);
    HeadParses(order, r, CString(PrintBody(r.body)));
    HeadIsClean(order, r);
    CStringAppend(PrintHead(order, r), PrintBody(r.body));
    CStringWhole(PrintBody(r.body));
    BodyIsClean(r.body);
  }

  lemma {:induction false} BodyIsClean(body: string)
    ensures Clean(PrintBody(body), "") <==> Clean(body, "")
  {
    if Clean(body, "") {
      CleanAppend(body, CRLF);
    }
    assert forall i :: 0 <= i < |body| ==> body[i] == PrintBody(body)[i];
  }

  /** The header law and the round trip joined: whatever clean sets made the headers, in whatever
      order they are printed, a get on the parsed request returns the value of the last set that
      agrees with its key up to case, nothing when none does, and for Host always the host. */
  lemma {:induction false} SetsSurviveTheWire(order: seq<string>, r: Request, sets: seq<(string, string)>, key: string)
    requires r.headers == SetAll(map[], sets) && CleanSets(sets)
    requires r.m != InvalidMethod && Clean(r.path, " \n") && Clean(r.protocol, "\r\n") && Clean(r.host, "\r\n")
    requires Enumerates(order, r.WithHost())
    ensures match ParseRequest(CString(PrintRequest(order, r)), map[])
      case ParsedRequest(_, _, _, headers, _) =>
        if Lower(key) == "host" then GetHeader(headers, key) == Some(HostValue(r.host, r.port))
        else LastSetValue(GetHeader(headers, key), sets, key)
      case _ => false
  {
    CleanSetsMakeCleanHeaders(sets);
    RequestAsCString(order, r);
    GetAfterSets(sets, key);
    OtherKey(r.headers, HostValue(r.host, r.port), key);
  }

  lemma {:induction false} OtherKey(headers: map<string, string>, host: string, key: string)
    ensures GetHeader(headers["host" := host], key) ==
      if Lower(key) == "host" then Some(host) else GetHeader(headers, key)
  {}

  /** A printed header block can be cut anywhere between two names. */
  lemma {:induction false} PrintFieldsSplit(a: seq<string>, b: seq<string>, headers: map<string, string>)
    requires forall k :: k in a + b ==> k in headers
    ensures (forall k :: k in a ==> k in headers) && (forall k :: k in b ==> k in headers)
    ensures PrintFields(a + b, headers) == PrintFields(a, headers) + PrintFields(b, headers)
    decreases |b|
  {
    assert forall k :: (k in a || k in b) ==> k in a + b;
    if b == [] {
      assert a + b == a;
      Empty(PrintFields(a, headers));
    } else {
      var front, last := b[..|b| - 1], b[|b| - 1];
      assert (a + b)[..|a + b| - 1] == a + front;
      PrintFieldsSplit(a, front, headers);
      Assoc(PrintFields(a, headers), PrintFields(front, headers), Field(last, headers[last]));
    }
  }

  lemma {:induction false} OneField(key: string, headers: map<string, string>)
    requires key in headers
    ensures PrintFields([key], headers) == key + ": " + headers[key] + "\r\n"
  {
    assert [key][..0] == [];
    Empty(Field(key, headers[key]));
  }

  /** The printed request, as text: the method's name, the path and the protocol on the first line; one
      line for each header, whatever name `i` stands for in the order; an empty line; and the body with
      a line end, or nothing. Host is among the headers, with the port after a colon. */
  lemma {:induction false} RequestText(order: seq<string>, r: Request, i: nat) returns (before: string, after: string)
    requires i < |order| && forall k :: k in order ==> k in r.WithHost()
    ensures r.WithHost() == r.headers["host" := r.host + ":" + Decimal(r.port)]
    ensures before == PrintFields(order[..i], r.WithHost()) && after == PrintFields(order[i + 1..], r.WithHost())
    ensures var name := match r.m
                        case Get => "GET" case Post => "POST" case Put => "PUT" case Delete => "DELETE"
                        case Options => "OPTIONS" case InvalidMethod => "";
      PrintRequest(order, r) ==
      (name + " " + r.path + " " + r.protocol + "\r\n")
      + (before + (order[i] + ": " + r.WithHost()[order[i]] + "\r\n" + after)
         + "\r\n" + (if r.body == "" then "" else r.body + "\r\n"))
  {
    HostName();
    var h := r.WithHost();
    var a, b := order[..i], order[i + 1..];
    assert order == a + ([order[i]] + b);
    assert forall k :: k in a || k in b || k == order[i] ==> k in order;
    PrintFieldsSplit(a, [order[i]] + b, h);
    PrintFieldsSplit([order[i]], b, h);
    OneField(order[i], h);
    before, after := PrintFields(a, h), PrintFields(b, h);
  }

  lemma {:induction false} HostName()
    ensures Lower("Host") == "host"
  {}

  // ---- When the parsers step past the end of the text.

  /** What the parser takes for the empty line: any one character and the end of the line. */
  predicate BlankLine(t: string) {
    t != "" && t[0] != '\n' && t[0] != NUL && (|t| == 1 || t[1] == '\n' || t[1] == NUL)
  }

  lemma {:induction false} BlankLineIff(t: string)
    requires t != ""
    ensures Strcspn(t, "\n") == 1 <==> BlankLine(t)
  {
    assert |t| > 1 ==> t[1..][0] == t[1];
  }

  /** Text from which the next line cannot be read within bounds: it is not the empty line and has
      no colon before its last character. */
  predicate LineOverruns(t: string) {
    t != "" && !BlankLine(t) && Clean(t[..|t| - 1], ":")
  }

  lemma {:induction false} LineOverrunIff(t: string)
    requires t != ""
    ensures NextLine(t) == LineOverrun <==> LineOverruns(t)
  {
    BlankLineIff(t);
    StrcspnStops(t, ":");
    var k, front := Strcspn(t, ":"), t[..|t| - 1];
    if k < |front| {
      assert front[k] == t[k];
    } else {
      assert forall i :: 0 <= i < |front| ==> front[i] == t[..k][i];
    }
  }

  /** One line as the parser steps over it: the characters after the key and after the value are
      skipped two by two, whatever the second ones are. */
  datatype RawLine = RawLine(key: string, colon: string, value: string, end: string)
  {
    function Text(): string { key + (colon + (value + end)) }

    predicate IsField() {
      && Clean(key, ":") && |colon| == 2 && colon[0] in [':', NUL]
      && Clean(value, "\r") && |end| == 2 && end[0] in ['\r', NUL]
      && !BlankLine(Text())
    }
  }

  function RawText(ls: seq<RawLine>): string {
    if ls == [] then "" else ls[0].Text() + RawText(ls[1..])
  }

  /** A header block that runs out of text after some fields. */
  ghost predicate RunsOut(t: string, ls: seq<RawLine>, u: string) {
    t == RawText(ls) + u && (forall l :: l in ls ==> l.IsField()) && LineOverruns(u)
  }

  lemma {:induction false} RawParses(l: RawLine, rest: string)
    requires l.IsField()
    ensures l.Text() + rest != "" && NextLine(l.Text() + rest) == FieldLine(l.key, l.value, rest)
  {
    var t, u := l.Text() + rest, l.value + (l.end + rest);
    RawParts(l, rest);
    SameStart(l.Text(), rest);
    BlankLineIff(t);
    StrcspnSpans(l.key, l.colon + u, ":");
    TakeDrop(l.key, l.colon + u);
    StrcspnSpans(l.value, l.end + rest, "\r");
    TakeDrop(l.value, l.end + rest);
    assert t[|l.key| + 2..] == u;
    assert Drop(u, |l.value| + 2) == rest;
  }

  lemma {:induction false} RawParts(l: RawLine, rest: string)
    ensures l.Text() + rest == l.key + (l.colon + (l.value + (l.end + rest)))
  {
    Assoc(l.value, l.end, rest);
    Assoc(l.colon, l.value + l.end, rest);
    Assoc(l.key, l.colon + (l.value + l.end), rest);
  }

  /** The line behind a field that did not reach the end of the text. */
  lemma {:induction false} RawOf(t: string) returns (l: RawLine)
    requires t != "" && NextLine(t).FieldLine? && NextLine(t).rest != ""
    ensures l.IsField() && t == l.Text() + NextLine(t).rest
  {
    var key, colon, u := WordAndTwo(t, ":");
    var value, end, rest := WordAndTwo(u, "\r");
    l := RawLine(key, colon, value, end);
    RawParts(l, rest);
    SameStart(l.Text(), rest);
    BlankLineIff(t);
  }

  /** Whether a line is blank shows in its first two characters. */
  lemma {:induction false} SameStart(line: string, rest: string)
    requires |line| >= 2
    ensures BlankLine(line + rest) <==> BlankLine(line)
  {}

  /** A word, the two characters the parser skips after it, and the rest. */
  lemma {:induction false} WordAndTwo(s: string, reject: string) returns (word: string, two: string, rest: string)
    requires Strcspn(s, reject) + 2 <= |s|
    ensures |word| == Strcspn(s, reject) && word == s[..|word|] && rest == s[|word| + 2..]
    ensures s == word + (two + rest) && |two| == 2
    ensures Clean(word, reject) && (two[0] in reject || two[0] == NUL)
  {
    var k := Strcspn(s, reject);
    StrcspnStops(s, reject);
    word, two, rest := s[..k], s[k..k + 2], s[k + 2..];
  }

  /** The header parser steps past the text exactly when, after some whole fields, what is left is
      not the empty line and has no colon before its last character. */
  lemma {:induction false} FieldsOverrunIff(t: string, headers: map<string, string>)
    ensures ParseFields(t, headers) == FieldsOverrun <==> exists ls, u :: RunsOut(t, ls, u)
  {
    forall ls, u | RunsOut(t, ls, u)
      ensures ParseFields(t, headers) == FieldsOverrun
    {
      RunningOut(t, ls, u, headers);
    }
    if ParseFields(t, headers) == FieldsOverrun {
      var ls, u := FindRunOut(t, headers);
    }
  }

  lemma {:induction false} RunningOut(t: string, ls: seq<RawLine>, u: string, headers: map<string, string>)
    requires RunsOut(t, ls, u)
    ensures ParseFields(t, headers) == FieldsOverrun
    decreases |ls|
  {
    if ls == [] {
      Empty(u);
      LineOverrunIff(t);
    } else {
      var l, rest := ls[0], RawText(ls[1..]) + u;
      assert l in ls;
      Assoc(l.Text(), RawText(ls[1..]), u);
      RawParses(l, rest);
      RunningOut(rest, ls[1..], u, SetHeader(headers, l.key, l.value));
    }
  }

  lemma {:induction false} FindRunOut(t: string, headers: map<string, string>) returns (ls: seq<RawLine>, u: string)
    requires ParseFields(t, headers) == FieldsOverrun
    ensures RunsOut(t, ls, u)
    decreases |t|
  {
    match NextLine(t)
    case EmptyLine =>
      assert false;
    case LineOverrun =>
      ls, u := [], t;
      Empty(t);
      LineOverrunIff(t);
    case FieldLine(key, value, rest) =>
      var l := RawOf(t);
      ls, u := FindRunOut(rest, SetHeader(headers, key, value));
      Assoc(l.Text(), RawText(ls), u);
      assert ([l] + ls)[1..] == ls;
      ls := [l] + ls;
  }

  /** The empty line ends the headers: the body is what follows its two characters. */
  lemma {:induction false} BlankLineStops(t: string, headers: map<string, string>)
    requires BlankLine(t)
    ensures ParseFields(t, headers) == Fields(headers, if |t| < 2 then "" else t[2..])
  {
    BlankLineIff(t);
  }

  /** A start line in its three words, as far as the parser looks at it. */
  ghost predicate StartCut(s: string, lineLen: nat, word: string, x: string, path: string, y: string,
      protocol: string, rest: string)
  {
    && s == word + (x + (path + (y + (protocol + rest))))
    && Clean(word, " ") && x in [" ", "\0"] && Clean(path, " ") && y in [" ", "\0"]
    && Clean(protocol, "\r") && (rest == "" || rest[0] == '\r' || rest[0] == '\0')
    && |word| + 1 + |path| + 1 + |protocol| <= lineLen
  }

  /** The start-line parser succeeds with these parts exactly on the lines made of them. */
  lemma {:induction false} StartIff(s: string, lineLen: nat, m: Method, path: string, protocol: string)
    ensures ParseStart(s, lineLen) == Start(m, path, protocol) <==>
      exists word, x, y, rest :: StartCut(s, lineLen, word, x, path, y, protocol, rest) && m == MethodEnum(word)
  {
    forall word, x, y, rest | StartCut(s, lineLen, word, x, path, y, protocol, rest)
      ensures ParseStart(s, lineLen) == Start(MethodEnum(word), path, protocol)
    {
      StartOfCut(s, lineLen, word, x, path, y, protocol, rest);
    }
    if ParseStart(s, lineLen) == Start(m, path, protocol) {
      var word, x, y, rest := CutOfStart(s, lineLen, m, path, protocol);
    }
  }

  lemma {:induction false} StartOfCut(s: string, lineLen: nat, word: string, x: string, path: string, y: string,
      protocol: string, rest: string)
    requires StartCut(s, lineLen, word, x, path, y, protocol, rest)
    ensures ParseStart(s, lineLen) == Start(MethodEnum(word), path, protocol)
  {
    var u := protocol + rest;
    var t := path + (y + u);
    WordAndOne(word, x, t);
    WordAndOne(path, y, u);
    StrcspnSpans(protocol, rest, "\r");
    TakeDrop(protocol, rest);
  }

  /** A word in front of a space, or of a terminator, is spanned, and what follows that is left. */
  lemma {:induction false} WordAndOne(word: string, x: string, rest: string)
    requires Clean(word, " ") && x in [" ", "\0"]
    ensures var s := word + (x + rest);
      Strcspn(s, " ") == |word| && s[..|word|] == word && |word| + 1 <= |s| && s[|word| + 1..] == rest
  {
    assert (x + rest)[0] == x[0];
    StrcspnSpans(word, x + rest, " ");
    TakeDrop(word, x + rest);
  }

  lemma {:induction false} CutOfStart(s: string, lineLen: nat, m: Method, path: string, protocol: string)
    returns (word: string, x: string, y: string, rest: string)
    requires ParseStart(s, lineLen) == Start(m, path, protocol)
    ensures StartCut(s, lineLen, word, x, path, y, protocol, rest) && m == MethodEnum(word)
  {
    var t, u;
    word, x, t := StartParts(s, lineLen, m, path, protocol);
    y, u := TargetParts(m, t, |word| + 1, lineLen, path, protocol);
    rest := CutOfPieces(s, lineLen, word, x, t, path, y, u, protocol);
  }

  lemma {:induction false} CutOfPieces(s: string, lineLen: nat, word: string, x: string, t: string, path: string,
      y: string, u: string, protocol: string) returns (rest: string)
    requires s == word + (x + t) && t == path + (y + u) && protocol <= u
    requires Clean(word, " ") && x in [" ", "\0"] && Clean(path, " ") && y in [" ", "\0"]
    requires Clean(protocol, "\r") && (|protocol| < |u| ==> u[|protocol|] in ['\r', '\0'])
    requires |word| + 1 + |path| + 1 + |protocol| <= lineLen
    ensures StartCut(s, lineLen, word, x, path, y, protocol, rest)
  {
    rest := u[|protocol|..];
    Split(u, |protocol|);
  }

  /** The first word of a line that parses, and what is left after it. */
  lemma {:induction false} StartParts(s: string, lineLen: nat, m: Method, path: string, protocol: string)
    returns (word: string, x: string, t: string)
    requires ParseStart(s, lineLen) == Start(m, path, protocol)
    ensures s == word + (x + t) && Clean(word, " ") && x in [" ", "\0"] && m == MethodEnum(word)
    ensures ParseTarget(m, t, |word| + 1, lineLen) == Start(m, path, protocol)
  {
    var a := FirstWord(s, lineLen, m, path, protocol);
    word, x, t := WordCut(s);
    TargetKeepsMethod(MethodEnum(word), t, |word| + 1, lineLen, m, path, protocol);
  }

  lemma {:induction false} FirstWord(s: string, lineLen: nat, m: Method, path: string, protocol: string)
    returns (a: nat)
    requires ParseStart(s, lineLen) == Start(m, path, protocol)
    ensures a == Strcspn(s, " ") < |s|
    ensures ParseTarget(MethodEnum(s[..a]), s[a + 1..], a + 1, lineLen) == Start(m, path, protocol)
  {
    a := Strcspn(s, " ");
  }

  lemma {:induction false} TargetKeepsMethod(known: Method, t: string, index: nat, lineLen: nat, m: Method,
      path: string, protocol: string)
    requires ParseTarget(known, t, index, lineLen) == Start(m, path, protocol)
    ensures m == known
  {}

  /** The second word, and what is left, which starts with the third. */
  lemma {:induction false} TargetParts(m: Method, t: string, index: nat, lineLen: nat, path: string, protocol: string)
    returns (y: string, u: string)
    requires ParseTarget(m, t, index, lineLen) == Start(m, path, protocol)
    ensures t == path + (y + u) && Clean(path, " ") && y in [" ", "\0"]
    ensures protocol <= u && Clean(protocol, "\r") && (|protocol| < |u| ==> u[|protocol|] in ['\r', '\0'])
    ensures index + |path| + 1 + |protocol| <= lineLen
  {
    u := TargetNumbers(m, t, index, lineLen, path, protocol);
    y := TargetPieces(t, path, u, protocol);
  }

  lemma {:induction false} TargetNumbers(m: Method, t: string, index: nat, lineLen: nat, path: string, protocol: string)
    returns (u: string)
    requires ParseTarget(m, t, index, lineLen) == Start(m, path, protocol)
    ensures var b := Strcspn(t, " ");
      b < |t| && path == t[..b] && u == t[b + 1..] && protocol == u[..Strcspn(u, "\r")]
      && index + b + 1 + Strcspn(u, "\r") <= lineLen
  {
    u := t[Strcspn(t, " ") + 1..];
  }

  lemma {:induction false} TargetPieces(t: string, path: string, u: string, protocol: string) returns (y: string)
    requires Strcspn(t, " ") < |t| && path == t[..Strcspn(t, " ")] && u == t[Strcspn(t, " ") + 1..]
    requires protocol == u[..Strcspn(u, "\r")]
    ensures t == path + (y + u) && Clean(path, " ") && y in [" ", "\0"]
    ensures protocol <= u && Clean(protocol, "\r") && (|protocol| < |u| ==> u[|protocol|] in ['\r', '\0'])
  {
    var p, u';
    p, y, u' := WordCut(t);
    StrcspnStops(u, "\r");
  }

  lemma {:induction false} WordCut(s: string) returns (word: string, x: string, rest: string)
    requires Strcspn(s, " ") < |s|
    ensures s == word + (x + rest) && Clean(word, " ") && x in [" ", "\0"]
    ensures |word| == Strcspn(s, " ") && word == s[..|word|] && rest == s[|word| + 1..]
  {
    var a := Strcspn(s, " ");
    StrcspnStops(s, " ");
    word, x, rest := s[..a], s[a..a + 1], s[a + 1..];
    assert x == [s[a]];
  }

  predicate StartOverruns(s: string) {
    Clean(s, "\n") && forall i, j :: 0 <= i < j < |s| ==> !(s[i] == ' ' && s[j] == ' ')
  }

  /** The start-line parser steps past the text exactly when the text has no line end and fewer
      than two spaces. */
  lemma {:induction false} StartOverrunIff(s: string)
    ensures ParseStart(s, Strcspn(s, "\n")) == StartOverrun <==> StartOverruns(s)
  {
    var n, a := Strcspn(s, "\n"), Strcspn(s, " ");
    StrcspnAll(s, "\n");
    StrcspnStops(s, " ");
    if a < |s| {
      TargetOverrunIff(MethodEnum(s[..a]), s[a + 1..], a + 1, n);
      OneSpace(s, a);
    } else {
      StrcspnAll(s, " ");
    }
  }

  lemma {:induction false} TargetOverrunIff(m: Method, t: string, index: nat, lineLen: nat)
    ensures ParseTarget(m, t, index, lineLen) == StartOverrun <==> Clean(t, " ") && index + |t| <= lineLen
  {
    StrcspnAll(t, " ");
  }

  /** A text whose first space is at `a` overruns exactly when the rest has no space. */
  lemma {:induction false} OneSpace(s: string, a: nat)
    requires a < |s| && Clean(s[..a], " ") && (s[a] == ' ' || s[a] == NUL)
    ensures StartOverruns(s) <==> Clean(s, "\n") && Clean(s[a + 1..], " ")
  {
    assert forall i :: 0 <= i < a ==> s[i] == s[..a][i];
    assert forall i :: a < i < |s| ==> s[i] == s[a + 1..][i - a - 1];
  }

  /** Text without a colon ... */
  lemma {:induction false} NoColonOverruns(headers: map<string, string>)
    ensures ParseFields("abc", headers) == FieldsOverrun
  {
    LineOverrunIff("abc");
  }

  /** ... and a request line that is only a method. */
  lemma {:induction false} BareMethodOverruns(headers: map<string, string>)
    ensures ParseRequest("GET", headers) == RequestOverrun
  {
    StartOverrunIff("GET");
    CombineIsParse("GET", headers, StartOverrun, FieldsOverrun);
  }

  // ---- The request object.

  class HttpRequest {
    var m: Method
    var path: Option<string>
    var protocol: Option<string>
    var host: Option<string>
    var port: nat
    var headers: map<string, string>
    var body: string
    /** Every set since the request was made, in order. */
    ghost var sets: seq<(string, string)>

    ghost predicate Valid()
      reads this
    {
      headers == SetAll(map[], sets)
    }

    /** http_request_init; the protocol is left as it happens to be. */
    constructor ()
      ensures m == Get && path == None && host == None && port == 80
      ensures Valid() && sets == [] && body == ""
    {
      m, path, host, port, headers, body := Get, None, None, 80, map[], "";
      protocol := *;
      sets := [];
    }

    /** The request that the object holds once its required parts are set. */
    ghost function View(): Request
      reads this
      requires path.Some? && protocol.Some? && host.Some?
    {
      Request(m, path.value, protocol.value, host.value, port, headers, body)
    }

    /** http_message_set_header */
    method Set(key: string, value: string)
      requires Valid()
      modifies this`headers, this`sets
      ensures Valid() && sets == old(sets) + [(key, value)]
      ensures headers == SetHeader(old(headers), key, value)
    {
      headers := headers[Lower(key) := value];
      sets := sets + [(key, value)];
      SetAllStep(map[], old(sets), key, value);
    }

    /** http_message_get_header: the value of the last set that agrees with the key up to case, or
        nothing when no set ever did. */
    method Lookup(key: string) returns (value: Option<string>)
      requires Valid()
      ensures LastSetValue(value, sets, key)
    {
      var normalized := Lower(key);
      value := if normalized in headers then Some(headers[normalized]) else None;
      GetAfterSets(sets, key);
    }

    /** http_message_from_str: `index` walks the text; `overrun` is a step past its end. */
    method MessageFromStr(s: string, offset: nat) returns (overrun: bool, ghost r: FieldsResult)
      requires Valid()
      modifies this`headers, this`sets, this`body
      ensures Valid()
      ensures FieldsRead(s, offset, old(headers), r)
      ensures overrun == r.FieldsOverrun?
      ensures !overrun ==> headers == r.headers && body == old(body) + r.body
    {
      r := ParseFields(Drop(s, offset), headers);
      var index: nat := offset;
      var inHeaders := true;
      while inHeaders && index < |s|
        invariant Valid() && body == old(body)
        invariant inHeaders ==> ParseFields(Drop(s, index), headers) == r
        invariant !inHeaders ==> r == Fields(headers, Drop(s, index))
        decreases inHeaders, |s| - index
      {
        assert Drop(s, index) == s[index..];
        if Strcspn(s[index..], "\n") == 1 {
          DropTwice(s, index, 2);
          index := index + 2;
          inHeaders := false;
        } else {
          overrun, index := ReadField(s, index);
          if overrun {
            return;
          }
        }
      }
      ReadBody(s, index);
      overrun := false;
    }

    /** One `key: value` line. */
    method ReadField(s: string, start: nat) returns (overrun: bool, index: nat)
      requires Valid() && start < |s| && Strcspn(s[start..], "\n") != 1
      modifies this`headers, this`sets
      ensures Valid()
      ensures match NextLine(s[start..])
              case LineOverrun => overrun
              case FieldLine(key, value, rest) =>
                !overrun && index > start && rest == Drop(s, index) && headers == SetHeader(old(headers), key, value)
              case EmptyLine => false
    {
      index := start;
      var line := s[index..];
      var keyLen := Strcspn(line, ":");
      if keyLen + 2 > |line| {
        return true, index;
      }
      DropDrop(s, index, keyLen + 2);
      index := index + keyLen + 2;
      var rest := s[index..];
      var valueLen := Strcspn(rest, "\r");
      Set(line[..keyLen], rest[..valueLen]);
      DropTwice(s, index, valueLen + 2);
      index := index + valueLen + 2;
      overrun := false;
    }

    /** Whatever is left of the text is the body. */
    method ReadBody(s: string, start: nat)
      modifies this`body
      ensures body == old(body) + Drop(s, start)
    {
      var index := start;
      while index < |s|
        invariant body + Drop(s, index) == old(body) + Drop(s, start)
      {
        DropOne(s, index);
        Assoc(body, [s[index]], Drop(s, index + 1));
        body := body + [s[index]];
        index := index + 1;
      }
      assert body + "" == body;
    }

    /** http_request_from_str */
    method FromStr(s: string) returns (ok: bool, overrun: bool, ghost r: RequestResult)
      requires Valid()
      modifies this`m, this`path, this`protocol, this`headers, this`sets, this`body
      ensures Valid()
      ensures r == ParseRequest(s, old(headers))
      ensures ok == r.ParsedRequest? && overrun == r.RequestOverrun?
      ensures ok ==> m == r.m && path == Some(r.path) && protocol == Some(r.protocol)
      ensures ok ==> headers == r.headers && body == old(body) + r.body
    {
      ghost var was, start, fields := headers, BadStart, FieldsOverrun;
      var lineLen := Strcspn(s, "\n");
      ok, overrun, start := StartFromStr(s, lineLen);
      if ok {
        overrun, fields := MessageFromStr(s, lineLen + 1);
        ok := !overrun;
      }
      r := Combine(start, fields);
      CombineIsParse(s, was, start, fields);
    }

    /** parse_request_start_line */
    method StartFromStr(s: string, len: nat) returns (ok: bool, overrun: bool, ghost r: StartResult)
      modifies this`m, this`path, this`protocol
      ensures r == ParseStart(s, len)
      ensures ok == r.Start? && overrun == r.StartOverrun?
      ensures ok ==> m == r.m && path == Some(r.path) && protocol == Some(r.protocol)
    {
      var index := 0;
      var wordLen := Strcspn(s, " ");
      if index + wordLen > len {
        return false, false, BadStart;
      }
      m := MethodEnum(s[..wordLen]);
      index := index + wordLen + 1;
      if index > |s| {
        return false, true, StartOverrun;
      }
      ok, overrun, r := TargetFromStr(s, index, len);
    }

    /** The second half of parse_request_start_line. */
    method TargetFromStr(s: string, start: nat, len: nat) returns (ok: bool, overrun: bool, ghost r: StartResult)
      requires start <= |s|
      modifies this`path, this`protocol
      ensures r == ParseTarget(m, s[start..], start, len)
      ensures ok == r.Start? && overrun == r.StartOverrun?
      ensures ok ==> path == Some(r.path) && protocol == Some(r.protocol)
    {
      r := ParseTarget(m, s[start..], start, len);
      var index := start;
      var wordLen := Strcspn(s[index..], " ");
      if index + wordLen > len {
        return false, false, r;
      }
      path := Some(s[index..][..wordLen]);
      if wordLen + 1 > |s[index..]| {
        return false, true, r;
      }
      DropDrop(s, index, wordLen + 1);
      index := index + wordLen + 1;
      wordLen := Strcspn(s[index..], "\r");
      if index + wordLen > len {
        return false, false, r;
      }
      protocol := Some(s[index..][..wordLen]);
      return true, false, r;
    }

    /** http_message_to_str: the map is walked in an order of its own. */
    method MessageToStr(start: string) returns (result: string, ghost order: seq<string>)
      ensures Enumerates(order, headers)
      ensures result == start + PrintMessage(order, headers, body)
    {
      result, order := start, [];
      var remaining := headers.Keys;
      while remaining != {}
        invariant remaining <= headers.Keys
        invariant forall k :: k in headers ==> (k in order <==> k !in remaining)
        invariant forall k :: k in order ==> k in headers
        invariant forall i, j :: 0 <= i < j < |order| ==> order[i] != order[j]
        invariant result == start + PrintFields(order, headers)
        decreases remaining
      {
        var key :| key in remaining;
        assert key !in order;
        result := result + key + ": " + headers[key] + "\r\n";
        FieldAppended(start, order, headers, key);
        order := order + [key];
        remaining := remaining - {key};
      }
      assert Enumerates(order, headers);
      result := result + "\r\n";
      if |body| > 0 {
        result := AppendBody(result);
      }
      assert PrintMessage(order, headers, body) == PrintFields(order, headers) + (CRLF + PrintBody(body));
    }

    method AppendBody(start: string) returns (result: string)
      ensures result == start + (body + CRLF)
    {
      result := start;
      for i := 0 to |body|
        invariant result == start + body[..i]
      {
        result := result + [body[i]];
      }
      assert body[..|body|] == body;
      result := result + "\r\n";
    }

    /** http_request_to_str: nothing is printed when a required part is missing; otherwise the Host
        header is set in the request itself and the whole request is printed. */
    method ToStr() returns (out: Option<string>, ghost order: seq<string>)
      requires Valid()
      modifies this`headers, this`sets
      ensures Valid()
      ensures out == None <==> m == InvalidMethod || path == None || protocol == None || host == None
      ensures out == None ==> headers == old(headers)
      ensures out.Some? ==> headers == old(View().WithHost()) && Enumerates(order, headers)
      ensures out.Some? ==> out.value == PrintRequest(order, old(View()))
    {
      if m == InvalidMethod || path == None || protocol == None || host == None {
        return None, [];
      }
      var result := MethodString(m) + " " + path.value + " " + protocol.value + "\r\n";
      Set("Host", host.value + ":" + Decimal(port));
      result, order := MessageToStr(result);
      out := Some(result);
    }
  }

  lemma {:induction false} FieldAppended(start: string, order: seq<string>, headers: map<string, string>, key: string)
    requires key in headers && forall k :: k in order ==> k in headers
    ensures start + PrintFields(order, headers) + key + ": " + headers[key] + "\r\n" ==
      start + PrintFields(order + [key], headers)
  {
    assert (order + [key])[..|order|] == order;
    assert PrintFields(order + [key], headers) == PrintFields(order, headers) + Field(key, headers[key]);
  }

  lemma {:induction false} DropOne(s: string, i: nat)
    requires i < |s|
    ensures Drop(s, i) == [s[i]] + Drop(s, i + 1)
  {}

  lemma {:induction false} DropTwice(s: string, a: nat, b: nat)
    requires a <= |s|
    ensures Drop(s[a..], b) == Drop(s, a + b)
    ensures Drop(s, a) == s[a..]
  {}
}
