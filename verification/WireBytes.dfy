/** Section 5.2 of RFC 6455, byte by byte, in numbers: what stands where in the frames that are read and
    in the messages that are written. */
module WireBytes {
  import opened Bytes
  import opened Types
  import opened Masking
  import opened Wire
  import opened Protocol
  import opened Sockets
  import opened Reassembly
  import opened Reader
  import opened ReaderLaws
  import opened Session
  import opened SessionLaws
  import opened Sequences

  // ---- Length digits.

  /** A number divided by 256 so many times. */
  function Shifted(n: nat, times: nat): nat
    decreases times
  {
    if times == 0 then n else Shifted(n / 256, times - 1)
  }

  /** Each digit is its power of 256, the most significant one first. */
  lemma {:induction false} DigitAt(n: nat, width: nat, j: nat)
    requires j < width
    ensures BigEndianDigits(n, width)[j] == (Shifted(n, width - 1 - j) % 256) as byte
    decreases width
  {
    if j < width - 1 {
      DigitAt(n / 256, width - 1, j);
    }
  }

  lemma {:induction false} DigitBytes(n: nat, width: nat) returns (bs: seq<byte>)
    ensures bs == BigEndianDigits(n, width) && |bs| == width
    ensures forall j :: 0 <= j < width ==> bs[j] == (Shifted(n, width - 1 - j) % 256) as byte
  {
    bs := BigEndianDigits(n, width);
    forall j | 0 <= j < |bs|
      ensures bs[j] == (Shifted(n, width - 1 - j) % 256) as byte
    {
      DigitAt(n, width, j);
    }
  }

  // ---- Frames.

  /** How many bytes of extended length a code announces. */
  function ExtendedBy(code: byte): nat {
    if code == 126 then 2 else if code == 127 then 8 else 0
  }

  /** A length may travel in the form of a code. */
  predicate LengthFor(n: nat, code: byte) {
    && code <= 127
    && (code <= 125 ==> n == code as nat)
    && (code == 126 ==> n < 65536)
    && (code == 127 ==> n < 0x1_0000_0000_0000_0000)
  }

  /** The bytes `bs` are those of a frame whose length travels in the form of `code`: the first byte
      `codes`; the mask bit and the code; the extended length, most significant byte first; the key, if
      there is one; and the payload, XORed with it. */
  ghost predicate IsFrame(bs: seq<byte>, codes: byte, masked: bool, key: Key, code: byte, payload: seq<byte>) {
    var n, at := |payload|, 2 + ExtendedBy(code);
    var start := at + if masked then 4 else 0;
    && LengthFor(n, code)
    && |bs| == start + n
    && bs[0] == codes
    && bs[1] == (if masked then 0x80 else 0x00) | code
    && (forall j :: 0 <= j < at - 2 ==> bs[2..at][j] == (Shifted(n, at - 3 - j) % 256) as byte)
    && (masked ==> bs[at..start] == key)
    && IsPayload(bs[start..], masked, key, payload)
  }

  /** Section 5.3: the data is the payload, byte by byte, XORed with the key in turn when there is one. */
  ghost predicate IsPayload(data: seq<byte>, masked: bool, key: Key, payload: seq<byte>) {
    && |data| == |payload|
    && forall i :: 0 <= i < |payload| ==> data[i] == if masked then payload[i] ^ key[i % 4] else payload[i]
  }

  /** The layout of a frame, byte by byte. */
  lemma {:induction false} LayoutBytes(f: Frame, code: byte)
    requires Fits(|f.payload|, code)
    ensures IsFrame(Layout(f, code), f.codes, f.masked, f.key, code, f.payload)
  {
    LengthFits(|f.payload|, code);
    var digits, data := LayoutCut(f, code);
    FrameOfParts(Layout(f, code), f, code, digits, data);
  }

  lemma {:induction false} FrameOfParts(bs: seq<byte>, f: Frame, code: byte, digits: seq<byte>, data: seq<byte>)
    requires LengthFor(|f.payload|, code)
    requires var at := 2 + ExtendedBy(code);
      var start := at + if f.masked then 4 else 0;
      && |bs| == start + |f.payload| && bs[0] == f.codes && bs[1] == (if f.masked then 0x80 else 0x00) | code
      && bs[2..at] == digits && (f.masked ==> bs[at..start] == f.key) && bs[start..] == data
      && forall j :: 0 <= j < at - 2 ==> digits[j] == (Shifted(|f.payload|, at - 3 - j) % 256) as byte
    requires IsPayload(data, f.masked, f.key, f.payload)
    ensures IsFrame(bs, f.codes, f.masked, f.key, code, f.payload)
  {}

  lemma {:induction false} DataBytes(f: Frame) returns (data: seq<byte>)
    ensures data == Data(f) && IsPayload(data, f.masked, f.key, f.payload)
  {
    data := Data(f);
  }

  lemma {:induction false} InfoLiteral(masked: bool, code: byte)
    requires code <= 127
    ensures InfoByte(masked, code) == (if masked then 0x80 else 0x00) | code
  {}

  /** The parts of a layout, and what they hold. */
  lemma {:induction false} LayoutCut(f: Frame, code: byte) returns (digits: seq<byte>, data: seq<byte>)
    requires code <= 127
    ensures var bs, at := Layout(f, code), 2 + ExtendedBy(code);
      var start := at + if f.masked then 4 else 0;
      && |bs| == start + |f.payload| && bs[0] == f.codes && bs[1] == (if f.masked then 0x80 else 0x00) | code
      && bs[2..at] == digits && (f.masked ==> bs[at..start] == f.key) && bs[start..] == data
      && forall j :: 0 <= j < at - 2 ==> digits[j] == (Shifted(|f.payload|, at - 3 - j) % 256) as byte
    ensures IsPayload(data, f.masked, f.key, f.payload)
  {
    digits := DigitBytes(|f.payload|, ExtBytes(code));
    data := DataBytes(f);
    InfoLiteral(f.masked, code);
    FrontBytes(f.codes, InfoByte(f.masked, code), digits, KeyBytes(f), data);
  }

  lemma {:induction false} FrontBytes(codes: byte, info: byte, digits: seq<byte>, key: seq<byte>, data: seq<byte>)
    ensures var bs, at := [codes, info] + digits + key + data, 2 + |digits|;
      && bs[0] == codes && bs[1] == info && bs[2..at] == digits
      && bs[at..at + |key|] == key && bs[at + |key|..] == data
  {}

  /** What decodes, byte by byte: the bytes consumed are those of the frame returned, in the length form
      that the low seven bits of the second byte announce; the frame is masked exactly when its top bit
      is set. */
  lemma {:induction false} DecodedBytes(bs: seq<byte>)
    requires DecodeFrame(bs).Some?
    ensures var (f, k) := DecodeFrame(bs).value;
      k <= |bs| && 2 <= k && IsFrame(bs[..k], bs[0], bs[1] & 0x80 != 0, f.key, bs[1] & 0x7F, f.payload)
  {
    DecodedIsLayout(bs);
    var (f, k) := DecodeFrame(bs).value;
    var code := LengthCodeOf(bs[1]);
    LayoutBytes(f, code);
    assert bs[..k][0] == bs[0] && bs[..k][1] == bs[1];
    InfoFields(bs[1], f.masked, code);
  }

  /** Conversely, bytes of this shape decode to that frame, whatever follows, unless they are unmasked
      and empty. */
  lemma {:induction false} BytesDecode(bs: seq<byte>, f: Frame, code: byte, rest: seq<byte>)
    requires IsFrame(bs, f.codes, f.masked, f.key, code, f.payload)
    requires f.masked || (f.key == [0, 0, 0, 0] && f.payload != [])
    ensures DecodeFrame(bs + rest) == Some((f, |bs|))
  {
    LengthFits(|f.payload|, code);
    LayoutBytes(f, code);
    SameBytes(bs, Layout(f, code), f, code);
    LayoutDecodes(f, code, rest);
  }

  lemma {:induction false} LengthFits(n: nat, code: byte)
    ensures LengthFor(n, code) <==> Fits(n, code)
  {
    if Fits(n, code) {
      CodeRange(n, code);
    }
  }

  lemma {:induction false} SameBytes(a: seq<byte>, b: seq<byte>, f: Frame, code: byte)
    requires IsFrame(a, f.codes, f.masked, f.key, code, f.payload)
    requires IsFrame(b, f.codes, f.masked, f.key, code, f.payload)
    ensures a == b
  {
    var at := 2 + ExtendedBy(code);
    var start := at + if f.masked then 4 else 0;
    assert a[..2] == [a[0], a[1]] && b[..2] == [b[0], b[1]];
    var p, q := a[2..at], b[2..at];
    assert forall j :: 0 <= j < |p| ==> p[j] == q[j];
    assert !f.masked ==> a[at..start] == [] && b[at..start] == [];
    SameData(a[start..], b[start..], f);
    FourParts(a, at, start);
    FourParts(b, at, start);
  }

  lemma {:induction false} SameData(x: seq<byte>, y: seq<byte>, f: Frame)
    requires IsPayload(x, f.masked, f.key, f.payload) && IsPayload(y, f.masked, f.key, f.payload)
    ensures x == y
  {}

  lemma {:induction false} FourParts(s: seq<byte>, a: nat, b: nat)
    requires 2 <= a <= b <= |s|
    ensures s == s[..2] + s[2..a] + s[a..b] + s[b..]
  {}

  // ---- Messages.

  /** What ws_client_write puts on the wire when the send is served in full: one frame with FIN set, the
      three reserved bits clear and the opcode given; masked, under the environment's key of that
      moment; its length in the shortest of the three forms. */
  lemma {:induction false} WrittenBytes(env: Env, net: Net, opcode: byte, body: seq<byte>)
    requires opcode <= 0x0F && |body| != 65536 && |body| < 0x1_0000_0000_0000_0000
    requires net.open && env.sends(net.clock) == All
    ensures var (ok, net') := WriteSpec(env, net, opcode, body);
      var code := if |body| <= 125 then |body| as byte else if |body| < 65536 then 126 else 127;
      && ok && net.sent <= net'.sent
      && IsFrame(net'.sent[|net.sent|..], 0x80 | opcode, true, env.keys(net.clock), code, body)
  {
    SentWhole(env, net, opcode, body);
    ClientFrameBytes(opcode, env.keys(net.clock), body);
  }

  lemma {:induction false} SentWhole(env: Env, net: Net, opcode: byte, body: seq<byte>)
    requires |body| != 65536 && net.open && env.sends(net.clock) == All
    ensures var (ok, net') := WriteSpec(env, net, opcode, body);
      && ok && net.sent <= net'.sent
      && net'.sent[|net.sent|..] == Encode(ClientFrame(opcode, env.keys(net.clock), body))
  {
    var blob := Encode(ClientFrame(opcode, env.keys(net.clock), body));
    assert blob[..|blob|] == blob;
    TakeDrop(net.sent, blob);
  }

  lemma {:induction false} ClientFrameBytes(opcode: byte, key: Key, body: seq<byte>)
    requires opcode <= 0x0F && |body| < 0x1_0000_0000_0000_0000
    ensures var code := if |body| <= 125 then |body| as byte else if |body| < 65536 then 126 else 127;
      IsFrame(Encode(ClientFrame(opcode, key, body)), 0x80 | opcode, true, key, code, body)
  {
    CodesByteIs(true, opcode);
    ShortestFits(|body|);
    LayoutBytes(ClientFrame(opcode, key, body), ShortestCode(|body|));
  }

  /** A PING is answered by these bytes: the first is 0x8A, the body is that of the PING. */
  lemma {:induction false} PongBytes(env: Env, cb: Callback, s: Loop, body: seq<byte>)
    requires |body| != 65536 && |body| < 0x1_0000_0000_0000_0000
    requires s.net.open && env.sends(s.net.clock) == All
    ensures var (t, why) := Dispatch(env, cb, s, Message(0x9, body));
      var code := if |body| <= 125 then |body| as byte else if |body| < 65536 then 126 else 127;
      && why == None && s.net.sent <= t.net.sent
      && IsFrame(t.net.sent[|s.net.sent|..], 0x8A, true, env.keys(s.net.clock), code, body)
  {
    DispatchByOpcode(env, cb, s, Message(0x9, body));
    WrittenBytes(env, s.net, 0xA, body);
    assert 0x80 | 0xA == 0x8A as byte;
  }
}
