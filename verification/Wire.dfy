/** The frame layout of section 5.2 of RFC 6455, and the decoding that src/protocol.c and
    src/reader.c perform between them, as functions on byte sequences. */
module Wire {
  import opened Bytes
  import opened Types
  import opened Masking
  import opened Sequences

  /** The value of a frame. An unmasked frame carries no key; `Normal` fixes the unused one. */
  datatype Frame = Frame(codes: byte, masked: bool, key: Key, payload: seq<byte>) {
    predicate Normal() { masked || key == ZERO_KEY }
    function Normalised(): Frame { if masked then this else this.(key := ZERO_KEY) }
    function Opcode(): byte { OpcodeOf(codes) }
    predicate Final() { FinOf(codes) }
  }

  // ---- The bit fields of headers/protocol.h.

  function OpcodeOf(codes: byte): byte { codes & 0x0F }
  predicate FinOf(codes: byte) { codes & 0x80 != 0 }
  predicate MaskOf(info: byte) { info & 0x80 != 0 }
  function LengthCodeOf(info: byte): byte { info & 0x7F }
  function InfoByte(masked: bool, code: byte): byte { if masked then 0x80 | (code & 0x7F) else code & 0x7F }

  lemma {:induction false} InfoFields(info: byte, masked: bool, code: byte)
    ensures InfoByte(MaskOf(info), LengthCodeOf(info)) == info
    ensures LengthCodeOf(info) <= 127
    ensures code <= 127 ==> MaskOf(InfoByte(masked, code)) == masked && LengthCodeOf(InfoByte(masked, code)) == code
  {}

  /** ws_frame_payload_byte_len */
  function ExtBytes(code: byte): nat {
    if code == 126 then 2 else if code == 127 then 8 else 0
  }

  /** The three length forms of section 5.2: the code itself, or 16 or 64 further bits. */
  predicate Fits(n: nat, code: byte) {
    if code == 126 then n < TWO_TO_THE_16
    else if code == 127 then n < TWO_TO_THE_64
    else code <= 125 && n == code as nat
  }

  /** The form ws_frame_write chooses. */
  function ShortestCode(n: nat): byte {
    if n <= 125 then n as byte else if n < TWO_TO_THE_16 then 126 else 127
  }

  /** ws_frame_output_size; its middle test is `<=`, one more than the writer's. */
  function OutputSize(masked: bool, n: nat): nat {
    var base := 2 + n + if masked then 4 else 0;
    if n <= 125 then base else if n <= TWO_TO_THE_16 then base + 2 else base + 8
  }

  function Data(f: Frame): seq<byte> {
    if f.masked then Masked(f.key, f.payload) else f.payload
  }

  function KeyBytes(f: Frame): seq<byte> {
    if f.masked then f.key else []
  }

  /** The bytes of a frame in a given length form. */
  function Layout(f: Frame, code: byte): (bs: seq<byte>)
    ensures |bs| == 2 + ExtBytes(code) + |KeyBytes(f)| + |f.payload|
  {
    [f.codes, InfoByte(f.masked, code)] + BigEndianDigits(|f.payload|, ExtBytes(code)) + KeyBytes(f) + Data(f)
  }

  /** Everything before the payload, in the form ws_frame_write chooses. */
  function HeadBytes(f: Frame): seq<byte> {
    var code := ShortestCode(|f.payload|);
    [f.codes, InfoByte(f.masked, code)] + BigEndianDigits(|f.payload|, ExtBytes(code)) + KeyBytes(f)
  }

  function Encode(f: Frame): seq<byte> {
    Layout(f, ShortestCode(|f.payload|))
  }

  lemma {:induction false} ShortestFits(n: nat)
    requires n < TWO_TO_THE_64
    ensures Fits(n, ShortestCode(n)) && ShortestCode(n) <= 127
  {
    if n <= 125 { ByteOfNat(n); }
  }

  // ---- Decoding.

  datatype Header = Header(codes: byte, info: byte, payloadLen: nat) {
    function BodyOffset(): nat { 2 + ExtBytes(LengthCodeOf(info)) }
    /** The whole extent of the frame, as ws_reader_handle computes it. */
    function Extent(): nat { BodyOffset() + payloadLen + if MaskOf(info) then 4 else 0 }
  }

  /** ws_frame_read_header on a window of the stream. */
  function DecodeHeader(w: seq<byte>): Option<Header> {
    if |w| < 2 then None
    else
      var code := LengthCodeOf(w[1]);
      var ext := ExtBytes(code);
      if |w| < ext + 2 then None
      else Some(Header(w[0], w[1], if ext == 0 then code as nat else BigEndianValue(w[2..2 + ext])))
  }

  /** ws_frame_read_body on the bytes after the extended length. */
  function DecodeBody(h: Header, body: seq<byte>): Option<Frame> {
    if |body| == 0 then None
    else if MaskOf(h.info) then
      if |body| < 4 + h.payloadLen then None
      else Some(Frame(h.codes, true, body[..4], Masked(body[..4], body[4..4 + h.payloadLen])))
    else if |body| < h.payloadLen then None
    else Some(Frame(h.codes, false, ZERO_KEY, body[..h.payloadLen]))
  }

  const PEEK: nat := 10

  function Window(bs: seq<byte>): seq<byte> {
    if |bs| <= PEEK then bs else bs[..PEEK]
  }

  /** The first frame of a byte string and its extent, when every read is served in full. */
  function DecodeFrame(bs: seq<byte>): Option<(Frame, nat)> {
    match DecodeHeader(Window(bs))
    case None => None
    case Some(h) =>
      if |bs| < h.Extent() then None
      else
        match DecodeBody(h, bs[h.BodyOffset()..h.Extent()])
        case None => None
        case Some(f) => Some((f, h.Extent()))
  }

  predicate Decodable(f: Frame, code: byte) {
    f.Normal() && Fits(|f.payload|, code) && (f.masked || f.payload != [])
  }

  // ---- Round trips.

  /** A window that covers the length field determines the header, whatever follows the frame. */
  lemma {:induction false} HeaderOfLayout(f: Frame, code: byte, rest: seq<byte>, n: nat)
    requires Fits(|f.payload|, code)
    requires 2 + ExtBytes(code) <= n <= |Layout(f, code) + rest|
    ensures DecodeHeader((Layout(f, code) + rest)[..n]) == Some(Header(f.codes, InfoByte(f.masked, code), |f.payload|))
  {
    CodeRange(|f.payload|, code);
    InfoFields(0, f.masked, code);
    WindowOfLayout(f, code, rest, n);
    var w := (Layout(f, code) + rest)[..n];
    assert w[0] == w[..2][0] && w[1] == w[..2][1];
    LengthField(|f.payload|, code);
  }

  lemma {:induction false} WindowOfLayout(f: Frame, code: byte, rest: seq<byte>, n: nat)
    requires 2 + ExtBytes(code) <= n <= |Layout(f, code) + rest|
    ensures var w := (Layout(f, code) + rest)[..n];
            w[..2] == [f.codes, InfoByte(f.masked, code)]
            && w[2..2 + ExtBytes(code)] == BigEndianDigits(|f.payload|, ExtBytes(code))
  {
    var front, digits := [f.codes, InfoByte(f.masked, code)], BigEndianDigits(|f.payload|, ExtBytes(code));
    var back := KeyBytes(f) + Data(f) + rest;
    assert Layout(f, code) + rest == front + digits + back;
    MiddleOfWindow(front, digits, back, n);
  }

  lemma {:induction false} MiddleOfWindow(a: seq<byte>, b: seq<byte>, c: seq<byte>, n: nat)
    requires |a| + |b| <= n <= |a + b + c|
    ensures (a + b + c)[..n][..|a|] == a
    ensures (a + b + c)[..n][|a|..|a| + |b|] == b
  {}

  lemma {:induction false} CodeRange(n: nat, code: byte)
    requires Fits(n, code)
    ensures code <= 127
  {}

  lemma {:induction false} LengthField(n: nat, code: byte)
    requires Fits(n, code)
    ensures n == if ExtBytes(code) == 0 then code as nat else BigEndianValue(BigEndianDigits(n, ExtBytes(code)))
  {
    PowersOf256();
    if ExtBytes(code) != 0 {
      DigitsThenValue(n, ExtBytes(code));
    }
  }

  lemma {:induction false} BodyOfLayout(f: Frame, code: byte)
    requires Decodable(f, code)
    ensures DecodeBody(Header(f.codes, InfoByte(f.masked, code), |f.payload|), KeyBytes(f) + Data(f)) == Some(f)
  {
    InfoFields(0, f.masked, code);
    var body := KeyBytes(f) + Data(f);
    if f.masked {
      assert body[..4] == f.key && body[4..4 + |f.payload|] == Data(f);
      MaskedTwice(f.key, f.payload);
    } else {
      assert body == f.payload && body[..|f.payload|] == f.payload;
    }
  }

  lemma {:induction false} LayoutParts(f: Frame, code: byte, rest: seq<byte>)
    requires code <= 127
    ensures var h := Header(f.codes, InfoByte(f.masked, code), |f.payload|);
            var bs := Layout(f, code) + rest;
            && h.BodyOffset() == 2 + ExtBytes(code)
            && h.Extent() == |Layout(f, code)|
            && bs[h.BodyOffset()..h.Extent()] == KeyBytes(f) + Data(f)
            && bs[h.Extent()..] == rest
  {
    InfoFields(0, f.masked, code);
    var front := [f.codes, InfoByte(f.masked, code)] + BigEndianDigits(|f.payload|, ExtBytes(code));
    assert Layout(f, code) == front + (KeyBytes(f) + Data(f));
  }

  /** Decoding the layout of a frame returns that frame and its extent, whatever follows. */
  lemma {:induction false} LayoutDecodes(f: Frame, code: byte, rest: seq<byte>)
    requires Decodable(f, code)
    ensures DecodeFrame(Layout(f, code) + rest) == Some((f, |Layout(f, code)|))
  {
    var bs := Layout(f, code) + rest;
    var n := if |bs| <= PEEK then |bs| else PEEK;
    assert Window(bs) == bs[..n];
    HeaderOfLayout(f, code, rest, n);
    LayoutParts(f, code, rest);
    BodyOfLayout(f, code);
  }

  /** Whatever decodes is a layout of section 5.2: its consumed prefix is exactly the layout of
      the returned frame in the form its second byte announces. */
  lemma {:induction false} DecodedIsLayout(bs: seq<byte>)
    requires DecodeFrame(bs).Some?
    ensures var (f, k) := DecodeFrame(bs).value;
            && k <= |bs|
            && Decodable(f, LengthCodeOf(bs[1]))
            && bs[..k] == Layout(f, LengthCodeOf(bs[1]))
  {
    var h := DecodeHeader(Window(bs)).value;
    var (f, k) := DecodeFrame(bs).value;
    HeaderLength(bs);
    var body := bs[h.BodyOffset()..h.Extent()];
    BodyIsData(h, body);
    AssembleLayout(bs, h, f);
  }

  lemma {:induction false} AssembleLayout(bs: seq<byte>, h: Header, f: Frame)
    requires h.Extent() <= |bs| && h.codes == bs[0] && h.info == bs[1]
    requires f.codes == h.codes && f.masked == MaskOf(h.info) && |f.payload| == h.payloadLen
    requires bs[2..h.BodyOffset()] == BigEndianDigits(h.payloadLen, ExtBytes(LengthCodeOf(h.info)))
    requires bs[h.BodyOffset()..h.Extent()] == KeyBytes(f) + Data(f)
    ensures bs[..h.Extent()] == Layout(f, LengthCodeOf(h.info))
  {
    InfoFields(h.info, f.masked, 0);
    var front, digits := [f.codes, InfoByte(f.masked, LengthCodeOf(h.info))], bs[2..h.BodyOffset()];
    assert bs[..2] == front;
    Glue(bs, h.BodyOffset(), h.Extent(), front, digits, KeyBytes(f), Data(f));
  }

  lemma {:induction false} Glue(bs: seq<byte>, a: nat, b: nat, front: seq<byte>, digits: seq<byte>, key: seq<byte>,
      data: seq<byte>)
    requires 2 <= a <= b <= |bs|
    requires bs[..2] == front && bs[2..a] == digits && bs[a..b] == key + data
    ensures bs[..b] == front + digits + key + data
  {
    TakeMore(bs, 2, a);
    TakeMore(bs, a, b);
    Assoc(front + digits, key, data);
  }

  lemma {:induction false} HeaderLength(bs: seq<byte>)
    requires DecodeHeader(Window(bs)).Some?
    ensures var h := DecodeHeader(Window(bs)).value;
            var code := LengthCodeOf(bs[1]);
            && |bs| >= 2 + ExtBytes(code)
            && h.codes == bs[0] && h.info == bs[1]
            && Fits(h.payloadLen, code)
            && bs[2..2 + ExtBytes(code)] == BigEndianDigits(h.payloadLen, ExtBytes(code))
  {
    var h := DecodeHeader(Window(bs)).value;
    var code := LengthCodeOf(bs[1]);
    var ext := ExtBytes(code);
    InfoFields(bs[1], false, code);
    assert Window(bs)[2..2 + ext] == bs[2..2 + ext];
    PowersOf256();
    if ext != 0 {
      ValueThenDigits(bs[2..2 + ext]);
    } else {
      assert bs[2..2] == [];
      CodeFits(code);
    }
  }

  lemma {:induction false} CodeFits(code: byte)
    requires code <= 127 && ExtBytes(code) == 0
    ensures Fits(code as nat, code)
  {}

  lemma {:induction false} BodyIsData(h: Header, body: seq<byte>)
    requires DecodeBody(h, body).Some?
    requires |body| == h.payloadLen + if MaskOf(h.info) then 4 else 0
    ensures var f := DecodeBody(h, body).value;
            && body == KeyBytes(f) + Data(f)
            && f.Normal() && f.codes == h.codes && f.masked == MaskOf(h.info) && |f.payload| == h.payloadLen
            && (f.masked || f.payload != [])
  {
    if MaskOf(h.info) {
      MaskedTwice(body[..4], body[4..4 + h.payloadLen]);
      assert body == body[..4] + body[4..4 + h.payloadLen];
    }
  }

  lemma {:induction false} LayoutDecodesAt(bs: seq<byte>, f: Frame, code: byte, k: nat)
    requires Decodable(f, code) && k <= |bs| && bs[..k] == Layout(f, code)
    ensures DecodeFrame(bs) == Some((f, k))
  {
    LayoutDecodes(f, code, bs[k..]);
    Split(bs, k);
  }

  ghost predicate IsFrameAt(bs: seq<byte>, f: Frame, k: nat) {
    exists code: byte :: Decodable(f, code) && k <= |bs| && bs[..k] == Layout(f, code)
  }

  /** The decoder, characterised by the printer: a prefix decodes to a frame if and only if it is
      one of the frame's layouts, in any length form that fits, and is not unmasked and empty. */
  lemma {:induction false} DecodesIffLayout(bs: seq<byte>, f: Frame, k: nat)
    ensures DecodeFrame(bs) == Some((f, k)) <==> IsFrameAt(bs, f, k)
  {
    if DecodeFrame(bs) == Some((f, k)) {
      DecodedIsLayout(bs);
    }
    if IsFrameAt(bs, f, k) {
      var code: byte :| Decodable(f, code) && k <= |bs| && bs[..k] == Layout(f, code);
      LayoutDecodesAt(bs, f, code, k);
    }
  }

  /** Exactly which written frames the reader takes back. */
  lemma {:induction false} EncodeDecodesIff(f: Frame, rest: seq<byte>)
    requires |f.payload| < TWO_TO_THE_64
    ensures DecodeFrame(Encode(f) + rest) ==
      if f.masked || f.payload != [] then Some((f.Normalised(), |Encode(f)|)) else None
  {
    var code := ShortestCode(|f.payload|);
    ShortestFits(|f.payload|);
    assert Layout(f.Normalised(), code) == Layout(f, code);
    if f.masked || f.payload != [] {
      LayoutDecodes(f.Normalised(), code, rest);
    } else {
      var bs := Encode(f) + rest;
      var n := if |bs| <= PEEK then |bs| else PEEK;
      assert Window(bs) == bs[..n];
      HeaderOfLayout(f, code, rest, n);
      LayoutParts(f, code, rest);
    }
  }

  // ---- Sizes.

  lemma {:induction false} HeadThenData(f: Frame)
    ensures Encode(f) == HeadBytes(f) + Data(f)
    ensures |HeadBytes(f)| + |f.payload| <= OutputSize(f.masked, |f.payload|) <==> |f.payload| != TWO_TO_THE_16
    ensures |HeadBytes(f)| <= OutputSize(f.masked, |f.payload|)
    ensures |f.payload| != TWO_TO_THE_16 ==> |Encode(f)| == OutputSize(f.masked, |f.payload|)
  {
    if |f.payload| <= 125 {
      ByteOfNat(|f.payload|);
    }
  }

  /** The two length classifications disagree on one length only. */
  lemma {:induction false} SizesAgree(f: Frame)
    ensures |Encode(f)| == OutputSize(f.masked, |f.payload|) <==> |f.payload| != TWO_TO_THE_16
    ensures |f.payload| == TWO_TO_THE_16 ==> |Encode(f)| == OutputSize(f.masked, |f.payload|) + 6
  {
    if |f.payload| <= 125 {
      ByteOfNat(|f.payload|);
    }
  }

  /** Section 5.2 of RFC 6455 asks for the minimal number of length bytes. */
  lemma {:induction false} EncodeIsShortest(f: Frame, code: byte)
    requires Fits(|f.payload|, code)
    ensures |Encode(f)| <= |Layout(f, code)|
    ensures |Encode(f)| == |Layout(f, code)| <==> code == ShortestCode(|f.payload|)
  {
    if |f.payload| <= 125 {
      ByteOfNat(|f.payload|);
      NatOfByte(code);
    }
  }

  // ---- Unique decodability.

  /** Layouts are prefix-free: if two frames start the same byte string, they are the same frame
      in the same form, and what follows is the same too. Unmasked empty frames are included. */
  lemma {:induction false} LayoutUnique(f: Frame, c: byte, r: seq<byte>, g: Frame, d: byte, s: seq<byte>)
    requires f.Normal() && g.Normal() && Fits(|f.payload|, c) && Fits(|g.payload|, d)
    requires Layout(f, c) + r == Layout(g, d) + s
    ensures f == g && c == d && r == s
  {
    var bs := Layout(f, c) + r;
    InfoFields(0, f.masked, c);
    InfoFields(0, g.masked, d);
    assert bs[0] == f.codes == g.codes;
    assert bs[1] == InfoByte(f.masked, c) == InfoByte(g.masked, d);
    HeaderOfLayout(f, c, r, 2 + ExtBytes(c));
    HeaderOfLayout(g, d, s, 2 + ExtBytes(d));
    assert |f.payload| == |g.payload|;
    LayoutParts(f, c, r);
    LayoutParts(g, d, s);
    var body := KeyBytes(f) + Data(f);
    assert body == KeyBytes(g) + Data(g);
    if f.masked {
      assert body[..4] == f.key == g.key;
      assert body[4..] == Data(f) == Data(g);
      MaskedTwice(f.key, f.payload);
      MaskedTwice(g.key, g.payload);
    }
  }

  function EncodeAll(fs: seq<Frame>): seq<byte> {
    if fs == [] then [] else Encode(fs[0]) + EncodeAll(fs[1..])
  }

  ghost predicate AllWritable(fs: seq<Frame>) {
    forall f :: f in fs ==> f.Normal() && |f.payload| < TWO_TO_THE_64
  }

  lemma {:induction false} EncodeUnique(f: Frame, r: seq<byte>, g: Frame, s: seq<byte>)
    requires f.Normal() && |f.payload| < TWO_TO_THE_64 && g.Normal() && |g.payload| < TWO_TO_THE_64
    requires Encode(f) + r == Encode(g) + s
    ensures f == g && r == s
  {
    ShortestFits(|f.payload|);
    ShortestFits(|g.payload|);
    LayoutUnique(f, ShortestCode(|f.payload|), r, g, ShortestCode(|g.payload|), s);
  }

  /** No written frame is a prefix of another, unless they are the same frame. */
  lemma {:induction false} EncodePrefixFree(f: Frame, g: Frame)
    requires AllWritable([f, g])
    requires Encode(f) <= Encode(g)
    ensures f == g
  {
    assert f in [f, g] && g in [f, g];
    var r := PrefixRest(Encode(f), Encode(g));
    EncodeUnique(f, r, g, []);
  }

  /** Equal concatenations of written frames come from equal lists of frames. */
  lemma {:induction false} EncodeAllInjective(fs: seq<Frame>, gs: seq<Frame>)
    requires AllWritable(fs) && AllWritable(gs)
    requires EncodeAll(fs) == EncodeAll(gs)
    ensures fs == gs
  {
    if fs == [] || gs == [] {
    } else {
      EncodeUnique(fs[0], EncodeAll(fs[1..]), gs[0], EncodeAll(gs[1..]));
      EncodeAllInjective(fs[1..], gs[1..]);
      assert fs == [fs[0]] + fs[1..] && gs == [gs[0]] + gs[1..];
    }
  }
}
