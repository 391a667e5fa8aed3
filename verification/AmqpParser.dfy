/** The incremental frame parser (rabbitMQ_C/amqp_connection.c, `amqp_handle_input`) as a machine that
    takes one byte at a time, for which the way the input was cut plainly cannot matter. Module
    AmqpConnection takes a piece at a time, as the source does, and is proved to do what this machine does
    on the same bytes. */
module AmqpParser {
  import opened Common
  import opened Octets
  import opened AmqpCodec
  import opened AmqpFrames

  datatype Phase = Initial | Idle | InHeader | InBody

  /** Waiting for `target` bytes, `acc` of them already here; or stopped by an error. */
  datatype State = Running(phase: Phase, acc: Bytes, target: nat) | Failed(error: Error)

  const FRESH: State := Running(Initial, [], 8)
  const IDLE: State := Running(Idle, [], 7)

  type Outcome = (State, seq<Frame>)

  const NOTHING: seq<Frame> := []

  /** The last byte of a frame has come. */
  function Finish(raw: Bytes): Outcome
    requires |raw| >= HEADER_SIZE + FOOTER_SIZE
  {
    match DecodeRaw(raw)
    case Err(e) => (Failed(e), [])
    case Ok(None) => (IDLE, [])
    case Ok(Some(f)) => (IDLE, [f])
  }

  /** The frame header is complete: its size field decides how many bytes to wait for. */
  function StartBody(frameMax: nat, acc: Bytes): Outcome
    requires 7 <= |acc| <= 8
  {
    var size := FromBigEndian(acc[3..7]);
    if size >= INT32_MAX || frameMax < size + HEADER_SIZE + FOOTER_SIZE then (Failed(BadAmqpData), [])
    else if |acc| < size + HEADER_SIZE + FOOTER_SIZE then (Running(InBody, acc, size + HEADER_SIZE + FOOTER_SIZE), [])
    else Finish(acc)
  }

  const AMQP: Bytes := [65, 77, 81, 80]

  /** `target` bytes are here. The first eight bytes of a connection may be the server's protocol header;
      if not, they count as a frame header, and only seven of them are copied to the new buffer. */
  function Complete(frameMax: nat, phase: Phase, acc: Bytes): (r: Outcome)
    requires if phase == Initial then |acc| == 8 else if phase == InBody then |acc| >= 8 else |acc| == 7
    ensures Sane(r.0) && (r.0.Running? && r.0.phase == InBody ==> r.1 == [])
  {
    match phase
    case Initial => if acc[..4] == AMQP then (IDLE, [ProtocolHeader(acc[4..])]) else StartBody(frameMax, acc[..7] + [0])
    case InBody => Finish(acc)
    case _ => StartBody(frameMax, acc)
  }

  predicate Sane(st: State) {
    st.Running? ==>
      && |st.acc| < st.target
      && (if st.phase == Initial then st.target == 8 else if st.phase == InBody then st.target >= 8 else st.target == 7)
      && (st.phase == Idle ==> st.acc == [])
  }

  function ByteStep(frameMax: nat, st: State, b: byte): (r: Outcome)
    requires Sane(st)
    ensures Sane(r.0)
  {
    if st.Failed? then (st, [])
    else
      var acc, phase := st.acc + [b], if st.phase == Idle then InHeader else st.phase;
      if |acc| < st.target then (Running(phase, acc, st.target), []) else Complete(frameMax, phase, acc)
  }

  /** One byte after the other; the frames delivered on the way. */
  function Run(frameMax: nat, st: State, data: Bytes): (r: Outcome)
    requires Sane(st)
    ensures Sane(r.0)
  {
    if data == [] then (st, [])
    else
      var (st1, out1) := Run(frameMax, st, data[..|data| - 1]);
      var (st2, out2) := ByteStep(frameMax, st1, data[|data| - 1]);
      (st2, out1 + out2)
  }

  /** Outcomes are compared piece by piece, so that the frame lists are compared as sequences. */
  predicate Same(a: Outcome, b: Outcome)
    ensures Same(a, b) ==> a == b
  {
    a.0 == b.0 && a.1 == b.1
  }

  /** A run over two pieces is a run over the first, then over the second. */
  lemma {:induction false} RunConcat(frameMax: nat, st: State, a: Bytes, b: Bytes)
    requires Sane(st)
    ensures var (st1, out1) := Run(frameMax, st, a);
      var (st2, out2) := Run(frameMax, st1, b);
      Same(Run(frameMax, st, a + b), (st2, out1 + out2))
  {
    hide ByteStep;
    var (st1, out1) := Run(frameMax, st, a);
    if b == [] {
      assert a + b == a && Run(frameMax, st1, b) == (st1, []);
    } else {
      var init, last := b[..|b| - 1], b[|b| - 1];
      RunConcat(frameMax, st, a, init);
      assert (a + b)[..|a + b| - 1] == a + init && (a + b)[|a + b| - 1] == last;
      var (st2, out2) := Run(frameMax, st1, init);
      var (st3, out3) := ByteStep(frameMax, st2, last);
      assert Run(frameMax, st1, b) == (st3, out2 + out3);
      assert out1 + out2 + out3 == out1 + (out2 + out3);
    }
  }

  /** Short of the target, bytes just accumulate. */
  lemma {:induction false} RunAppends(frameMax: nat, st: State, data: Bytes)
    requires Sane(st) && st.Running? && |st.acc| + |data| < st.target
    ensures Run(frameMax, st, data) == (Gathering(st, data), [])
  {
    if data == [] {
      assert st.acc + data == st.acc;
    } else {
      var init, last := data[..|data| - 1], data[|data| - 1];
      RunAppends(frameMax, st, init);
      assert st.acc + init + [last] == st.acc + data;
      var st1 := Gathering(st, init);
      assert ByteStep(frameMax, st1, last) == (Gathering(st, data), []);
      assert NOTHING + NOTHING == NOTHING;
    }
  }

  /** The state while the bytes of `data` are only being collected. */
  function Gathering(st: State, data: Bytes): State
    requires st.Running?
  {
    Running(if data == [] then st.phase else Awake(st.phase), st.acc + data, st.target)
  }

  function Awake(p: Phase): Phase {
    if p == Idle then InHeader else p
  }

  /** Exactly at the target, the state is completed. */
  lemma RunCompletes(frameMax: nat, st: State, data: Bytes)
    requires Sane(st) && st.Running? && |st.acc| + |data| == st.target
    ensures Run(frameMax, st, data) == Complete(frameMax, Awake(st.phase), st.acc + data)
  {
    var init, last := data[..|data| - 1], data[|data| - 1];
    RunAppends(frameMax, st, init);
    assert st.acc + init + [last] == st.acc + data;
    var r := Complete(frameMax, Awake(st.phase), st.acc + data);
    assert ByteStep(frameMax, Gathering(st, init), last) == r;
    assert NOTHING + r.1 == r.1;
  }

  lemma {:induction false} RunFailed(frameMax: nat, e: Error, data: Bytes)
    ensures Run(frameMax, Failed(e), data) == (Failed(e), [])
  {
    if data != [] {
      RunFailed(frameMax, e, data[..|data| - 1]);
      assert NOTHING + NOTHING == NOTHING;
    }
  }

  // ---- Any input ----

  /** Neither buffered nor awaited: more than `frameMax` bytes of one frame. */
  predicate Bounded(frameMax: nat, st: State) {
    st.Running? && st.phase == InBody ==> |st.acc| < st.target <= frameMax
  }

  predicate WithinMax(frameMax: nat, f: Frame) {
    f.Frame? && f.payload.Body? ==> |f.payload.fragment| + HEADER_SIZE + FOOTER_SIZE <= frameMax
  }

  lemma FinishWithinMax(frameMax: nat, raw: Bytes)
    requires 8 <= |raw| <= frameMax
    ensures Bounded(frameMax, Finish(raw).0)
    ensures forall f :: f in Finish(raw).1 ==> WithinMax(frameMax, f)
  {
  }

  lemma ByteStepWithinMax(frameMax: nat, st: State, b: byte)
    requires Sane(st) && Bounded(frameMax, st)
    ensures Bounded(frameMax, ByteStep(frameMax, st, b).0)
    ensures forall f :: f in ByteStep(frameMax, st, b).1 ==> WithinMax(frameMax, f)
  {
    hide Finish, DecodeRaw;
    if st.Running? && |st.acc| + 1 == st.target {
      var acc := st.acc + [b];
      match st.phase
      case Initial => if frameMax >= 8 { FinishWithinMax(frameMax, acc[..7] + [0]); }
      case InBody => FinishWithinMax(frameMax, acc);
      case _ =>
    }
  }

  /** Whatever bytes come, from idle or from the start of a connection: the parser never holds or waits
      for a frame of more than `frameMax` bytes, and no body it delivers comes from one. */
  lemma {:induction false} NeverAboveMax(frameMax: nat, st: State, data: Bytes)
    requires st == IDLE || st == FRESH
    ensures Bounded(frameMax, Run(frameMax, st, data).0)
    ensures forall f :: f in Run(frameMax, st, data).1 ==> WithinMax(frameMax, f)
  {
    hide ByteStep, WithinMax;
    if data != [] {
      var init, last := data[..|data| - 1], data[|data| - 1];
      NeverAboveMax(frameMax, st, init);
      ByteStepWithinMax(frameMax, Run(frameMax, st, init).0, last);
    }
  }

  /** A frame header that announces too much is refused at once. */
  lemma OversizeRefused(frameMax: nat, header: Bytes)
    requires |header| == 7 && FromBigEndian(header[3..7]) + 8 > frameMax
    ensures Run(frameMax, IDLE, header) == (Failed(BadAmqpData), [])
  {
    hide Run;
    assert [] + header == header;
    RunCompletes(frameMax, IDLE, header);
  }

  /** `size` more bytes and an end mark behind a frame header that announces `size`. */
  ghost predicate IsRaw(frameMax: nat, raw: Bytes) {
    |raw| >= 8 && FromBigEndian(raw[3..7]) + 8 == |raw| <= frameMax && FromBigEndian(raw[3..7]) < INT32_MAX
  }

  lemma RawRuns(frameMax: nat, raw: Bytes)
    requires IsRaw(frameMax, raw)
    ensures Run(frameMax, IDLE, raw) == Finish(raw)
  {
    hide Run, Finish;
    assert [] + raw[..7] == raw[..7] && raw == raw[..7] + raw[7..] && raw[..7][3..7] == raw[3..7];
    RunCompletes(frameMax, IDLE, raw[..7]);
    RunCompletes(frameMax, Running(InBody, raw[..7], |raw|), raw[7..]);
    RunConcat(frameMax, IDLE, raw[..7], raw[7..]);
    assert NOTHING + Finish(raw).1 == Finish(raw).1;
  }

  /** Without the end mark a frame is an error; with it, a type that is not known is skipped. */
  lemma OddFrames(frameMax: nat, raw: Bytes)
    requires IsRaw(frameMax, raw)
    ensures raw[|raw| - 1] != 206 ==> Run(frameMax, IDLE, raw) == (Failed(BadAmqpData), [])
    ensures raw[|raw| - 1] == 206 && raw[0] !in {1, 2, 3, 8} ==> Run(frameMax, IDLE, raw) == (IDLE, [])
  {
    hide Run;
    RawRuns(frameMax, raw);
  }

  // ---- Well-formed input ----

  predicate Fits(frameMax: nat, f: Frame) {
    WellFormed(f) && |WireFrame(f)| <= frameMax && |PayloadBytes(f.payload)| < INT32_MAX
  }

  predicate AllFit(frameMax: nat, fs: seq<Frame>) {
    forall i :: 0 <= i < |fs| ==> Fits(frameMax, fs[i])
  }

  /** A well-formed frame's header announces the frame's true size. */
  lemma HeaderOfFrame(frameMax: nat, f: Frame)
    requires Fits(frameMax, f)
    ensures StartBody(frameMax, WireFrame(f)[..7]) == (Running(InBody, WireFrame(f)[..7], |WireFrame(f)|), [])
  {
    var w := WireFrame(f);
    WireParts(f);
    RadixOf4And8();
    BigEndianRoundTrip(4, |PayloadBytes(f.payload)|);
    assert w[..7][3..7] == w[3..7];
  }

  /** The rest of a frame's bytes, once its header is known, delivers the frame. */
  lemma BodyDelivered(frameMax: nat, f: Frame)
    requires Fits(frameMax, f)
    ensures Run(frameMax, Running(InBody, WireFrame(f)[..7], |WireFrame(f)|), WireFrame(f)[7..])
        == (IDLE, [CanonFrame(f)])
  {
    hide DecodeRaw, WireFrame, Run;
    var w := WireFrame(f);
    assert w[..7] + w[7..] == w;
    RunCompletes(frameMax, Running(InBody, w[..7], |w|), w[7..]);
    FrameRoundTrip(f);
  }

  /** From idle, the bytes of one frame deliver that frame and end idle. */
  lemma FrameDelivered(frameMax: nat, f: Frame)
    requires Fits(frameMax, f)
    ensures Run(frameMax, IDLE, WireFrame(f)) == (IDLE, [CanonFrame(f)])
  {
    hide Run, StartBody, WireFrame, CanonFrame;
    var w := WireFrame(f);
    assert [] + w[..7] == w[..7] && w == w[..7] + w[7..];
    RunCompletes(frameMax, IDLE, w[..7]);
    HeaderOfFrame(frameMax, f);
    assert Run(frameMax, IDLE, w[..7]) == (Running(InBody, w[..7], |w|), []);
    BodyDelivered(frameMax, f);
    RunConcat(frameMax, IDLE, w[..7], w[7..]);
    assert NOTHING + [CanonFrame(f)] == [CanonFrame(f)];
  }

  predicate AllWellFormed(fs: seq<Frame>) {
    forall i :: 0 <= i < |fs| ==> WellFormed(fs[i])
  }

  function WireAll(fs: seq<Frame>): Bytes
    requires AllWellFormed(fs)
  {
    if fs == [] then [] else WireFrame(fs[0]) + WireAll(fs[1..])
  }

  function CanonFrames(fs: seq<Frame>): (r: seq<Frame>)
    ensures |r| == |fs|
  {
    if fs == [] then [] else [CanonFrame(fs[0])] + CanonFrames(fs[1..])
  }

  /** The frames of any list come out in order, and the parser ends idle. */
  lemma {:induction false} AllDelivered(frameMax: nat, fs: seq<Frame>)
    requires AllFit(frameMax, fs)
    ensures Run(frameMax, IDLE, WireAll(fs)) == (IDLE, CanonFrames(fs))
  {
    if fs != [] {
      FrameDelivered(frameMax, fs[0]);
      AllDelivered(frameMax, fs[1..]);
      RunConcat(frameMax, IDLE, WireFrame(fs[0]), WireAll(fs[1..]));
    }
  }

  // ---- Cuts ----

  function Flatten(pieces: seq<Bytes>): Bytes {
    if pieces == [] then [] else pieces[0] + Flatten(pieces[1..])
  }

  /** One piece after the other. */
  function RunPieces(frameMax: nat, st: State, pieces: seq<Bytes>): (r: Outcome)
    requires Sane(st)
    ensures Sane(r.0)
    decreases pieces
  {
    if pieces == [] then (st, [])
    else
      var (st1, out1) := Run(frameMax, st, pieces[0]);
      var (st2, out2) := RunPieces(frameMax, st1, pieces[1..]);
      (st2, out1 + out2)
  }

  /** How the bytes were cut does not matter. */
  lemma {:induction false} CutsDoNotMatter(frameMax: nat, st: State, pieces: seq<Bytes>)
    requires Sane(st)
    ensures RunPieces(frameMax, st, pieces) == Run(frameMax, st, Flatten(pieces))
    decreases pieces
  {
    hide ByteStep;
    if pieces != [] {
      var st1 := Run(frameMax, st, pieces[0]).0;
      CutsDoNotMatter(frameMax, st1, pieces[1..]);
      RunConcat(frameMax, st, pieces[0], Flatten(pieces[1..]));
    }
  }

  /** Any well-formed frames, cut anywhere: the pieces deliver exactly the frames, in order. */
  lemma AnyCutsDeliver(frameMax: nat, fs: seq<Frame>, pieces: seq<Bytes>)
    requires AllFit(frameMax, fs) && Flatten(pieces) == WireAll(fs)
    ensures RunPieces(frameMax, IDLE, pieces) == (IDLE, CanonFrames(fs))
  {
    AllDelivered(frameMax, fs);
    CutsDoNotMatter(frameMax, IDLE, pieces);
  }

  // ---- The first bytes of a connection ----

  /** A server that does not speak the client's version answers with a protocol header: "AMQP" and four
      octets, which are handed over. What follows is read as usual. */
  lemma VersionAnswer(frameMax: nat, version: Bytes, fs: seq<Frame>)
    requires |version| == 4 && AllFit(frameMax, fs)
    ensures Run(frameMax, FRESH, [65, 77, 81, 80] + version + WireAll(fs))
         == (IDLE, [ProtocolHeader(version)] + CanonFrames(fs))
  {
    hide Run, WireAll, StartBody;
    var start := [65, 77, 81, 80] + version;
    assert [] + start == start && start[..4] == [65, 77, 81, 80] && start[4..] == version;
    RunCompletes(frameMax, FRESH, start);
    AllDelivered(frameMax, fs);
    RunConcat(frameMax, FRESH, start, WireAll(fs));
  }

  lemma VersionAnswerInPieces(frameMax: nat, version: Bytes, fs: seq<Frame>, pieces: seq<Bytes>)
    requires |version| == 4 && AllFit(frameMax, fs) && Flatten(pieces) == [65, 77, 81, 80] + version + WireAll(fs)
    ensures RunPieces(frameMax, FRESH, pieces) == (IDLE, [ProtocolHeader(version)] + CanonFrames(fs))
  {
    VersionAnswer(frameMax, version, fs);
    CutsDoNotMatter(frameMax, FRESH, pieces);
  }


  /** The first frame survives unless it is a heartbeat, or a body that is empty or does not begin with a
      zero byte: its eighth byte is dropped. */
  predicate SurvivesFirst(f: Frame)
    requires f.Frame?
  {
    match f.payload
    case Heartbeat => false
    case Body(fragment) => fragment != [] && fragment[0] == 0
    case _ => true
  }

  /** The bytes as they end up in the parser's buffer. */
  function EighthLost(w: Bytes): Bytes
    requires |w| >= 8
  {
    w[7 := 0]
  }

  lemma FirstHeader(frameMax: nat, f: Frame)
    requires Fits(frameMax, f)
    ensures Complete(frameMax, Initial, WireFrame(f)[..8]) == StartBody(frameMax, EighthLost(WireFrame(f))[..8])
    ensures var w, b := WireFrame(f), EighthLost(WireFrame(f))[..8];
      StartBody(frameMax, b) == if |w| == 8 then Finish(b) else (Running(InBody, b, |w|), [])
  {
    hide Finish;
    var w := WireFrame(f);
    WireParts(f);
    RadixOf4And8();
    BigEndianRoundTrip(4, |PayloadBytes(f.payload)|);
    var b := EighthLost(w)[..8];
    assert b[3..7] == w[3..7] && w[..8][..7] + [0] == b;
    assert w[..8][..4][0] == w[0] && AMQP[0] == 65;
  }

  lemma FirstRun(frameMax: nat, f: Frame)
    requires Fits(frameMax, f)
    ensures Run(frameMax, FRESH, WireFrame(f)) == Finish(EighthLost(WireFrame(f)))
  {
    hide Run, StartBody, Finish, WireFrame, PayloadBytes, WellFormed;
    var w := WireFrame(f);
    var b := EighthLost(w);
    assert [] + w[..8] == w[..8] && w == w[..8] + w[8..];
    RunCompletes(frameMax, FRESH, w[..8]);
    FirstHeader(frameMax, f);
    if |w| == 8 {
      assert w[..8] == w && b[..8] == b;
    } else {
      RunCompletes(frameMax, Running(InBody, b[..8], |w|), w[8..]);
      assert b[..8] + w[8..] == b;
      RunConcat(frameMax, FRESH, w[..8], w[8..]);
      assert NOTHING + Finish(b).1 == Finish(b).1;
    }
  }

  lemma {:induction false} LeadingByte(k: nat, n: nat)
    requires 1 <= k && n < Radix(k - 1)
    ensures BigEndian(k, n)[0] == 0
  {
    if k > 1 { LeadingByte(k - 1, n / 256); }
  }

  lemma PayloadBegins(f: Frame)
    requires WellFormed(f) && (f.payload.Method? || f.payload.Header?)
    ensures |PayloadBytes(f.payload)| > 0 && PayloadBytes(f.payload)[0] == 0
  {
    RadixOf4And8();
    match f.payload
    case Method(id, args) => hide BigEndian, Wire; SmallMethodNumber(id); LeadingByte(4, id);
    case Header(c, size, flags, props) => hide BigEndian, Wire; LeadingByte(2, c);
  }

  /** Method numbers and class numbers begin with a zero byte. */
  lemma EighthByteZero(f: Frame)
    requires WellFormed(f) && (f.payload.Method? || f.payload.Header?)
    ensures EighthLost(WireFrame(f)) == WireFrame(f)
  {
    hide WireFrame, PayloadBytes;
    PayloadBegins(f);
    WireParts(f);
    var w, p := WireFrame(f), PayloadBytes(f.payload);
    assert w[7] == w[..|w| - 1][HEADER_SIZE..][0] == p[0];
  }

  lemma SmallMethodNumber(id: nat)
    requires Layout(id).Some?
    ensures id < 0x100_0000 == Radix(3)
  {
  }

  /** Exactly which first frames of a connection arrive as they were sent. */
  lemma FirstFrame(frameMax: nat, f: Frame)
    requires Fits(frameMax, f)
    ensures Run(frameMax, FRESH, WireFrame(f)) == (IDLE, [CanonFrame(f)]) <==> SurvivesFirst(f)
  {
    hide Run;
    FirstRun(frameMax, f);
    match f.payload
    case Method(_, _) => hide *; EighthByteZero(f); FrameRoundTrip(f);
    case Header(_, _, _, _) => hide *; EighthByteZero(f); FrameRoundTrip(f);
    case Body(fragment) => FirstBody(f);
    case Heartbeat =>
  }

  lemma FirstBody(f: Frame)
    requires WellFormed(f) && f.payload.Body?
    ensures Finish(EighthLost(WireFrame(f))) == (IDLE, [CanonFrame(f)]) <==> SurvivesFirst(f)
  {
    var w, b, fragment := WireFrame(f), EighthLost(WireFrame(f)), f.payload.fragment;
    WireParts(f);
    RadixOf4And8();
    BigEndianRoundTrip(2, f.channel);
    assert b[1..3] == w[1..3];
    if fragment != [] {
      assert b[..|b| - 1][HEADER_SIZE..] == fragment[0 := 0];
      assert fragment[0] == 0 <==> fragment[0 := 0] == fragment;
    }
  }
}
