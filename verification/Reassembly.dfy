/** The reassembly of src/reader.c as a fold over what the reader accepts, and its laws. */
module Reassembly {
  import opened Bytes
  import opened Types
  import opened Wire
  import opened Sequences

  datatype Message = Message(opcode: byte, body: seq<byte>)

  /** The type of a reassembled message: the last opcode that is not a continuation. */
  function LastOpcode(fs: seq<Frame>): byte {
    if fs == [] then OPCODE_CONT
    else
      var last := fs[|fs| - 1].Opcode();
      if last != OPCODE_CONT then last else LastOpcode(fs[..|fs| - 1])
  }

  function Payloads(fs: seq<Frame>): seq<byte> {
    if fs == [] then [] else Payloads(fs[..|fs| - 1]) + fs[|fs| - 1].payload
  }

  function Assemble(fs: seq<Frame>): Message {
    Message(LastOpcode(fs), Payloads(fs))
  }

  /** What one call of ws_reader_handle takes in: a frame, or the loss of the connection while a
      CLOSE frame was being read. */
  datatype Event = Received(frame: Frame) | CloseLost

  /** A message together with the path by which it reached the queue. */
  datatype Tagged = Whole(m: Message) | Control(m: Message)

  predicate IsControl(f: Frame) {
    f.Final() && f.Opcode() >= OPCODE_CLOSE
  }

  function Step(pending: seq<Frame>, e: Event): (seq<Frame>, seq<Tagged>) {
    match e
    case CloseLost => (pending, [Control(Message(OPCODE_CLOSE, []))])
    case Received(f) =>
      if IsControl(f) then (pending, [Control(Message(f.Opcode(), f.payload))])
      else if f.Final() then ([], [Whole(Assemble(pending + [f]))])
      else (pending + [f], [])
  }

  function After(pending: seq<Frame>, es: seq<Event>): seq<Frame>
    decreases |es|
  {
    if es == [] then pending else After(Step(pending, es[0]).0, es[1..])
  }

  function Emissions(pending: seq<Frame>, es: seq<Event>): seq<Tagged>
    decreases |es|
  {
    if es == [] then [] else Step(pending, es[0]).1 + Emissions(Step(pending, es[0]).0, es[1..])
  }

  function Untag(ts: seq<Tagged>): (ms: seq<Message>)
    ensures |ms| == |ts|
  {
    seq(|ts|, i requires 0 <= i < |ts| => ts[i].m)
  }

  function Events(fs: seq<Frame>): (es: seq<Event>)
    ensures |es| == |fs|
  {
    seq(|fs|, i requires 0 <= i < |fs| => Received(fs[i]))
  }

  lemma {:induction false} FoldAppend(p: seq<Frame>, a: seq<Event>, b: seq<Event>)
    ensures After(p, a + b) == After(After(p, a), b)
    ensures Emissions(p, a + b) == Emissions(p, a) + Emissions(After(p, a), b)
    decreases |a|
  {
    if a == [] {
      Empty(b);
    } else {
      Uncons(a, b);
      var (q, out) := Step(p, a[0]);
      FoldAppend(q, a[1..], b);
      Assoc(out, Emissions(q, a[1..]), Emissions(After(p, a), b));
    }
  }

  lemma {:induction false} FoldOne(p: seq<Frame>, e: Event)
    ensures After(p, [e]) == Step(p, e).0
    ensures Emissions(p, [e]) == Step(p, e).1
  {
    assert [e][1..] == [];
  }

  lemma {:induction false} PayloadsSnoc(fs: seq<Frame>, f: Frame)
    ensures Payloads(fs + [f]) == Payloads(fs) + f.payload
    ensures LastOpcode(fs + [f]) == if f.Opcode() != OPCODE_CONT then f.Opcode() else LastOpcode(fs)
  {
    assert (fs + [f])[..|fs|] == fs;
  }

  // ---- Conservation.

  function WholeBytes(ts: seq<Tagged>): seq<byte> {
    if ts == [] then [] else (if ts[0].Whole? then ts[0].m.body else []) + WholeBytes(ts[1..])
  }

  function ControlBytes(ts: seq<Tagged>): seq<byte> {
    if ts == [] then [] else (if ts[0].Control? then ts[0].m.body else []) + ControlBytes(ts[1..])
  }

  function DataOf(e: Event): seq<byte> {
    if e.Received? && !IsControl(e.frame) then e.frame.payload else []
  }

  function ControlOf(e: Event): seq<byte> {
    if e.Received? && IsControl(e.frame) then e.frame.payload else []
  }

  /** The payload bytes accepted on either path, in order of arrival. */
  function AcceptedData(es: seq<Event>): seq<byte> {
    if es == [] then [] else DataOf(es[0]) + AcceptedData(es[1..])
  }

  function AcceptedControl(es: seq<Event>): seq<byte> {
    if es == [] then [] else ControlOf(es[0]) + AcceptedControl(es[1..])
  }

  lemma {:induction false} BytesAppend(a: seq<Tagged>, b: seq<Tagged>)
    ensures WholeBytes(a + b) == WholeBytes(a) + WholeBytes(b)
    ensures ControlBytes(a + b) == ControlBytes(a) + ControlBytes(b)
  {
    if a == [] {
      Empty(b);
    } else {
      Uncons(a, b);
      BytesAppend(a[1..], b);
      Assoc(if a[0].Whole? then a[0].m.body else [], WholeBytes(a[1..]), WholeBytes(b));
      Assoc(if a[0].Control? then a[0].m.body else [], ControlBytes(a[1..]), ControlBytes(b));
    }
  }

  lemma {:induction false} StepConserves(p: seq<Frame>, e: Event)
    ensures Payloads(p) + DataOf(e) == WholeBytes(Step(p, e).1) + Payloads(Step(p, e).0)
    ensures ControlOf(e) == ControlBytes(Step(p, e).1)
  {
    var out := Step(p, e).1;
    if out != [] {
      OneTagged(out[0]);
      assert out == [out[0]];
    }
    Empty(Payloads(p));
    if e.Received? {
      PayloadsSnoc(p, e.frame);
      Empty(Payloads(p + [e.frame]));
    }
  }

  lemma {:induction false} OneTagged(t: Tagged)
    ensures WholeBytes([t]) == if t.Whole? then t.m.body else []
    ensures ControlBytes([t]) == if t.Control? then t.m.body else []
  {
    assert [t][1..] == [];
    Empty(t.m.body);
  }

  /** Nothing is lost, duplicated or reordered on either path, from any state of the queue. */
  lemma {:induction false} Conservation(p: seq<Frame>, es: seq<Event>)
    ensures Payloads(p) + AcceptedData(es) == WholeBytes(Emissions(p, es)) + Payloads(After(p, es))
    ensures AcceptedControl(es) == ControlBytes(Emissions(p, es))
    decreases |es|
  {
    if es != [] {
      var (q, out) := Step(p, es[0]);
      StepConserves(p, es[0]);
      Conservation(q, es[1..]);
      BytesAppend(out, Emissions(q, es[1..]));
      Chain(Payloads(p), DataOf(es[0]), AcceptedData(es[1..]), WholeBytes(out), Payloads(q),
            WholeBytes(Emissions(q, es[1..])), Payloads(After(p, es)));
    }
  }

  lemma {:induction false} Chain(p: seq<byte>, a: seq<byte>, b: seq<byte>, w: seq<byte>, q: seq<byte>,
      x: seq<byte>, r: seq<byte>)
    requires p + a == w + q && q + b == x + r
    ensures p + (a + b) == (w + x) + r
  {
    assert p + (a + b) == (p + a) + b == w + (q + b) == (w + x) + r;
  }

  // ---- Control frames between fragments (section 5.4 of RFC 6455).

  function DropControl(fs: seq<Frame>): seq<Frame> {
    if fs == [] then []
    else (if IsControl(fs[0]) then [] else [fs[0]]) + DropControl(fs[1..])
  }

  function OnlyControl(fs: seq<Frame>): seq<Frame> {
    if fs == [] then []
    else (if IsControl(fs[0]) then [fs[0]] else []) + OnlyControl(fs[1..])
  }

  function Wholes(ts: seq<Tagged>): seq<Tagged> {
    if ts == [] then [] else (if ts[0].Whole? then [ts[0]] else []) + Wholes(ts[1..])
  }

  function Controls(ts: seq<Tagged>): seq<Tagged> {
    if ts == [] then [] else (if ts[0].Control? then [ts[0]] else []) + Controls(ts[1..])
  }

  function AsControl(fs: seq<Frame>): (ts: seq<Tagged>)
    ensures |ts| == |fs|
  {
    seq(|fs|, i requires 0 <= i < |fs| => Control(Message(fs[i].Opcode(), fs[i].payload)))
  }

  lemma {:induction false} SplitFirst(fs: seq<Frame>)
    requires fs != []
    ensures Events(fs) == [Received(fs[0])] + Events(fs[1..])
    ensures Events(fs)[0] == Received(fs[0]) && Events(fs)[1..] == Events(fs[1..])
  {}

  lemma {:induction false} EventsCons(f: Frame, fs: seq<Frame>)
    ensures Events([f] + fs) == [Received(f)] + Events(fs)
  {}

  /** Wherever control frames stand, the data messages are those of the sequence without them,
      the control messages are the control frames in order, and the pending fragments are the same. */
  lemma {:induction false} ControlInterleaving(p: seq<Frame>, fs: seq<Frame>)
    ensures Wholes(Emissions(p, Events(fs))) == Emissions(p, Events(DropControl(fs)))
    ensures Controls(Emissions(p, Events(fs))) == AsControl(OnlyControl(fs))
    ensures After(p, Events(fs)) == After(p, Events(DropControl(fs)))
    decreases |fs|
  {
    if fs != [] {
      SplitFirst(fs);
      var (q, out) := Step(p, Received(fs[0]));
      ControlInterleaving(q, fs[1..]);
      PathsOfStep(p, fs[0], Emissions(q, Events(fs[1..])));
      if IsControl(fs[0]) {
        Empty(DropControl(fs[1..]));
        AsControlCons(fs[0], OnlyControl(fs[1..]));
      } else {
        Empty(OnlyControl(fs[1..]));
        EventsCons(fs[0], DropControl(fs[1..]));
        Uncons([Received(fs[0])], Events(DropControl(fs[1..])));
        Empty(Events(DropControl(fs[1..])));
      }
    }
  }

  /** What one frame emits goes to the path of that frame. */
  lemma {:induction false} PathsOfStep(p: seq<Frame>, f: Frame, rest: seq<Tagged>)
    ensures var out := Step(p, Received(f)).1;
      && Wholes(out + rest) == (if IsControl(f) then [] else out) + Wholes(rest)
      && Controls(out + rest) == (if IsControl(f) then out else []) + Controls(rest)
  {
    var out := Step(p, Received(f)).1;
    Empty(rest);
    Empty(Wholes(rest));
    Empty(Controls(rest));
    if out != [] {
      Uncons(out, rest);
      assert out == [out[0]];
    }
  }

  lemma {:induction false} AsControlCons(f: Frame, fs: seq<Frame>)
    ensures AsControl([f] + fs) == [Control(Message(f.Opcode(), f.payload))] + AsControl(fs)
  {}

  /** A control frame comes out at the point where it went in, and disturbs nothing around it. */
  lemma {:induction false} ControlComesOutInPlace(p: seq<Frame>, a: seq<Event>, f: Frame, b: seq<Event>)
    requires IsControl(f)
    ensures Emissions(p, a + [Received(f)] + b) ==
      Emissions(p, a) + [Control(Message(f.Opcode(), f.payload))] + Emissions(After(p, a), b)
    ensures Emissions(p, a + b) == Emissions(p, a) + Emissions(After(p, a), b)
    ensures After(p, a + [Received(f)] + b) == After(p, a + b)
  {
    FoldAppend(p, a + [Received(f)], b);
    FoldAppend(p, a, [Received(f)]);
    FoldOne(After(p, a), Received(f));
    FoldAppend(p, a, b);
  }

  // ---- Fragmentation.

  /** Fragments of one data message: only the last frame is final, and it is not a control frame. */
  predicate IsFragmented(fs: seq<Frame>) {
    && fs != []
    && (forall i :: 0 <= i < |fs| - 1 ==> !fs[i].Final())
    && fs[|fs| - 1].Final() && fs[|fs| - 1].Opcode() < OPCODE_CLOSE
  }

  lemma {:induction false} NonFinalAccumulate(p: seq<Frame>, fs: seq<Frame>)
    requires forall i :: 0 <= i < |fs| ==> !fs[i].Final()
    ensures Emissions(p, Events(fs)) == [] && After(p, Events(fs)) == p + fs
    decreases |fs|
  {
    if fs == [] {
      assert p + fs == p;
    } else {
      SplitFirst(fs);
      NonFinalAccumulate(p + [fs[0]], fs[1..]);
      assert p + [fs[0]] + fs[1..] == p + fs;
    }
  }

  /** A fragmented message is delivered as one message, with all pieces in order, leaving nothing. */
  lemma {:induction false} FragmentsMakeOneMessage(p: seq<Frame>, fs: seq<Frame>)
    requires IsFragmented(fs)
    ensures Emissions(p, Events(fs)) == [Whole(Assemble(p + fs))]
    ensures After(p, Events(fs)) == []
  {
    var front, last := fs[..|fs| - 1], fs[|fs| - 1];
    NonFinalAccumulate(p, front);
    assert Events(fs) == Events(front) + [Received(last)];
    FoldAppend(p, Events(front), [Received(last)]);
    FoldOne(p + front, Received(last));
    assert p + front + [last] == p + fs;
  }

  /** Fragments interleaved with any control frames make the same message, and only that one. */
  lemma {:induction false} InterleavedFragmentsMakeOneMessage(fs: seq<Frame>)
    requires IsFragmented(DropControl(fs))
    ensures Wholes(Emissions([], Events(fs))) == [Whole(Assemble(DropControl(fs)))]
    ensures After([], Events(fs)) == []
  {
    ControlInterleaving([], fs);
    FragmentsMakeOneMessage([], DropControl(fs));
    assert [] + DropControl(fs) == DropControl(fs);
  }

  /** The step, told by the first byte of the frame: FIN is its top bit and the opcode its low four.
      A final frame of opcode 8 and more comes out at once and leaves the queue; any other final frame
      takes the queue with it; a frame that is not final joins the queue. */
  lemma {:induction false} StepByFirstByte(p: seq<Frame>, f: Frame)
    ensures f.codes & 0x80 == 0 ==> Step(p, Received(f)) == (p + [f], [])
    ensures f.codes & 0x80 != 0 && f.codes & 0x0F >= 8 ==>
      Step(p, Received(f)) == (p, [Control(Message(f.codes & 0x0F, f.payload))])
    ensures f.codes & 0x80 != 0 && f.codes & 0x0F < 8 ==>
      var (frames, out) := Step(p, Received(f));
      && frames == [] && |out| == 1 && out[0].Whole? && out[0].m.body == Payloads(p) + f.payload
      && (f.codes & 0x0F != 0 ==> out[0].m.opcode == f.codes & 0x0F)
      && (f.codes & 0x0F == 0 ==> out[0].m.opcode == LastOpcode(p))
    ensures Step(p, CloseLost) == (p, [Control(Message(0x8, []))])
  {
    PayloadsSnoc(p, f);
  }

  // ---- The type of a reassembled message.

  /** The i-th frame is the last one that is not a continuation. */
  predicate LastNamed(fs: seq<Frame>, i: nat) {
    i < |fs| && fs[i].Opcode() != OPCODE_CONT && forall j :: i < j < |fs| ==> fs[j].Opcode() == OPCODE_CONT
  }

  lemma {:induction false} LastOpcodeNamed(fs: seq<Frame>, i: nat)
    requires LastNamed(fs, i)
    ensures LastOpcode(fs) == fs[i].Opcode()
  {
    if i < |fs| - 1 {
      LastOpcodeNamed(fs[..|fs| - 1], i);
    }
  }

  lemma {:induction false} FindLastNamed(fs: seq<Frame>) returns (i: nat)
    requires LastOpcode(fs) != OPCODE_CONT
    ensures LastNamed(fs, i)
  {
    i := |fs| - 1;
    if fs[i].Opcode() == OPCODE_CONT {
      i := FindLastNamed(fs[..i]);
    }
  }

  lemma {:induction false} AllContinuation(fs: seq<Frame>)
    ensures LastOpcode(fs) == OPCODE_CONT <==> forall i :: 0 <= i < |fs| ==> fs[i].Opcode() == OPCODE_CONT
  {
    if fs != [] {
      var front := fs[..|fs| - 1];
      AllContinuation(front);
      assert forall i :: 0 <= i < |front| ==> front[i] == fs[i];
    }
  }

  /** Section 5.4 gives a message the opcode of its first frame. The reader takes the last opcode
      that is not a continuation. The two differ exactly when some later frame carries an opcode
      that is neither a continuation nor the first one, with only continuations after it. */
  lemma {:induction false} TypeIsFirstOpcodeIff(fs: seq<Frame>)
    requires fs != []
    ensures Assemble(fs).opcode != fs[0].Opcode() <==>
      exists i: nat :: 1 <= i && LastNamed(fs, i) && fs[i].Opcode() != fs[0].Opcode()
  {
    AllContinuation(fs);
    if LastOpcode(fs) != OPCODE_CONT {
      var i := FindLastNamed(fs);
      LastOpcodeNamed(fs, i);
    }
    forall i: nat | LastNamed(fs, i)
      ensures LastOpcode(fs) == fs[i].Opcode()
    {
      LastOpcodeNamed(fs, i);
    }
  }

  /** An ill-formed pair, TEXT then a final BIN, is delivered as BIN. */
  lemma {:induction false} TypeCanDiffer(body: seq<byte>)
    ensures var text, bin := Frame(0x01, false, [0, 0, 0, 0], body), Frame(0x82, false, [0, 0, 0, 0], body);
            IsFragmented([text, bin]) && Assemble([text, bin]) == Message(OPCODE_BIN, body + body)
            && text.Opcode() == OPCODE_TEXT
  {
    var text, bin := Frame(0x01, false, [0, 0, 0, 0], body), Frame(0x82, false, [0, 0, 0, 0], body);
    assert [text, bin] == [text] + [bin];
    PayloadsSnoc([], text);
    PayloadsSnoc([text], bin);
    assert [] + [text] == [text];
  }

  // ---- Paths and types.

  predicate NoFragmentedControl(fs: seq<Frame>) {
    forall f :: f in fs ==> f.Opcode() < OPCODE_CLOSE
  }

  lemma {:induction false} LastOpcodeIsData(fs: seq<Frame>)
    requires NoFragmentedControl(fs)
    ensures LastOpcode(fs) < OPCODE_CLOSE
  {
    if fs != [] {
      assert fs[|fs| - 1] in fs;
      LastOpcodeIsData(fs[..|fs| - 1]);
    }
  }

  /** When control frames are never fragmented (section 5.5 of RFC 6455), the type of a message
      alone tells by which path it came. */
  lemma {:induction false} TypeTellsPath(p: seq<Frame>, es: seq<Event>)
    requires NoFragmentedControl(p)
    requires forall e :: e in es && e.Received? && !e.frame.Final() ==> e.frame.Opcode() < OPCODE_CLOSE
    ensures forall t :: t in Emissions(p, es) ==> (t.Control? <==> t.m.opcode >= OPCODE_CLOSE)
    ensures NoFragmentedControl(After(p, es))
    decreases |es|
  {
    if es != [] {
      assert es[0] in es;
      var (q, out) := Step(p, es[0]);
      assert NoFragmentedControl(q);
      if es[0].Received? && es[0].frame.Final() && !IsControl(es[0].frame) {
        LastOpcodeIsData(p + [es[0].frame]);
      }
      TypeTellsPath(q, es[1..]);
    }
  }
}
