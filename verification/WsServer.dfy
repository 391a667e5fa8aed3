/** The server's message loop (include/server_ws.hpp, `read_message` and `read_message_content`): frames
    come off the byte stream, fragments are put together, control frames may stand between them
    (RFC 6455 section 5.4). */
module WsServer {
  import opened Common
  import opened Octets
  import opened WsFrames

  datatype Message = Message(op: byte, body: Bytes)

  datatype Event =
    | OnMessage(message: Message)
    | Pong(op: byte)                          // an empty pong is sent
    | OnPong
    | OnClose(status: nat, reason: Bytes)
    | OnError

  /** What a connection has read so far. */
  datatype State = State(fragmented: Option<Message>, open: bool, events: seq<Event>)

  const START := State(None, true, [])

  predicate Final(op: byte) { op >= 128 }

  function Opcode(op: byte): nat { op as nat % 16 }

  function Finished(op: byte): byte { if Final(op) then op else op + 128 }

  function Pending(st: State): nat {
    if st.fragmented.Some? then |st.fragmented.value.body| else 0
  }

  /** `read_message_content` once mask and payload are read. */
  function Content(st: State, f: Frame): State {
    var fragment := !Final(f.op) || Opcode(f.op) == 0;
    var message :=
      if !fragment then Message(f.op, f.payload)
      else if st.fragmented.None? then Message(Finished(f.op), f.payload)
      else Message(st.fragmented.value.op, st.fragmented.value.body + f.payload);
    var st' := if fragment then st.(fragmented := Some(message)) else st;
    if Opcode(f.op) == 8 then
      var b := message.body;
      var close := if |f.payload| >= 2 then OnClose(b[0] as nat * 256 + b[1] as nat, b[2..]) else OnClose(0, b);
      st'.(open := false, events := st.events + [close])
    else if Opcode(f.op) == 9 then st'.(events := st.events + [Pong(f.op + 1)])
    else if Opcode(f.op) == 10 then st'.(events := st.events + [OnPong])
    else if !Final(f.op) then st'
    else st'.(fragmented := None, events := st.events + [OnMessage(message)])
  }

  /** One turn of the loop on the byte stream at `at`; the second value is where the next turn begins. */
  function Turn(st: State, max: nat, s: Bytes, at: nat): (r: (State, nat))
    requires at <= |s|
    ensures r.0.open ==> at < r.1 <= |s|
  {
    match ReadFrame(s, at, Pending(st), max)
    case Got(f, next) => FrameInside(s, at, Pending(st), max); (Content(st, f), next)
    case TooBig => (st.(open := false, events := st.events + [OnError, OnClose(1009, [])]), at)
    case Unmasked => (st.(open := false, events := st.events + [OnClose(1002, [])]), at)
    case EndOfStream => (st.(open := false, events := st.events + [OnError]), at)
    case Misread => (st.(open := false, events := st.events + [OnError]), at)
  }

  lemma FrameInside(s: Bytes, at: nat, pending: nat, max: nat)
    requires at <= |s|
    ensures var r := ReadFrame(s, at, pending, max); r.Got? ==> at < r.next <= |s|
  {
  }

  // ---- Well-formed streams and what they mean ----

  predicate IsControl(f: Frame) { 8 <= Opcode(f.op) <= 10 }

  /** Section 5.4: a message is one final frame, or a first frame, continuations and a final one; control
      frames are final and may come between. `within` tells whether a message has begun. */
  predicate WellFormed(fs: seq<Frame>, within: bool) {
    fs == [] ||
    var f := fs[0];
    if IsControl(f) then Final(f.op) && WellFormed(fs[1..], within)
    else if within then Opcode(f.op) == 0 && WellFormed(fs[1..], !Final(f.op))
    else 1 <= Opcode(f.op) <= 2 && WellFormed(fs[1..], !Final(f.op))
  }

  /** The messages of a well-formed stream. */
  function Messages(fs: seq<Frame>, pending: Option<Message>): seq<Message> {
    if fs == [] then []
    else
      var f := fs[0];
      if IsControl(f) then Messages(fs[1..], pending)
      else
        var m := if pending.Some? then Message(pending.value.op, pending.value.body + f.payload)
            else Message(Finished(f.op), f.payload);
        if Final(f.op) then [m] + Messages(fs[1..], None) else Messages(fs[1..], Some(m))
  }

  function Delivered(events: seq<Event>): seq<Message> {
    if events == [] then []
    else
      Delivered(events[..|events| - 1])
      + if events[|events| - 1].OnMessage? then [events[|events| - 1].message] else []
  }

  lemma {:induction false} DeliveredJoin(a: seq<Event>, b: seq<Event>)
    ensures Delivered(a + b) == Delivered(a) + Delivered(b)
  {
    if b == [] {
      assert a + b == a;
    } else {
      DeliveredJoin(a, b[..|b| - 1]);
      assert (a + b)[..|a + b| - 1] == a + b[..|b| - 1];
    }
  }

  /** The stream as a fold of `Content`. */
  function Serve(st: State, fs: seq<Frame>): State
    decreases fs
  {
    if fs == [] then st else Serve(Content(st, fs[0]), fs[1..])
  }

  predicate NoClose(fs: seq<Frame>) {
    forall i :: 0 <= i < |fs| ==> Opcode(fs[i].op) != 8
  }

  /** On a well-formed stream the loop delivers exactly its messages, in order, and keeps an unfinished
      one pending. */
  lemma {:induction false} ServesMessages(st: State, fs: seq<Frame>)
    requires WellFormed(fs, st.fragmented.Some?) && NoClose(fs)
    ensures Delivered(Serve(st, fs).events) == Delivered(st.events) + Messages(fs, st.fragmented)
    ensures Serve(st, fs).open == st.open
    decreases fs
  {
    hide Content, Opcode;
    if fs != [] {
      var st1 := Content(st, fs[0]);
      ContentStep(st, fs[0]);
      assert NoClose(fs[1..]);
      ServesMessages(st1, fs[1..]);
    }
  }

  /** One frame of a well-formed stream. */
  lemma ContentStep(st: State, f: Frame)
    requires Opcode(f.op) != 8 && (IsControl(f) ==> Final(f.op))
    requires (!IsControl(f) ==> (Opcode(f.op) == 0 <==> st.fragmented.Some?))
    ensures var st1 := Content(st, f);
      var m := if st.fragmented.Some? then Message(st.fragmented.value.op, st.fragmented.value.body + f.payload)
          else Message(Finished(f.op), f.payload);
      && st1.open == st.open
      && (IsControl(f) ==> st1.fragmented == st.fragmented && Delivered(st1.events) == Delivered(st.events))
      && (!IsControl(f) && Final(f.op) ==>
          st1.fragmented == None && Delivered(st1.events) == Delivered(st.events) + [m])
      && (!IsControl(f) && !Final(f.op) ==> st1.fragmented == Some(m) && st1.events == st.events)
  {
    var st1 := Content(st, f);
    if st1.events != st.events {
      assert st1.events[..|st1.events| - 1] == st.events;
    }
  }

  /** The payloads of the data frames, end to end. */
  function Data(fs: seq<Frame>): Bytes {
    if fs == [] then [] else (if IsControl(fs[0]) then [] else fs[0].payload) + Data(fs[1..])
  }

  function Bodies(ms: seq<Message>): Bytes {
    if ms == [] then [] else ms[0].body + Bodies(ms[1..])
  }

  lemma BodiesStep(m: Message, ms: seq<Message>)
    ensures Bodies([m] + ms) == m.body + Bodies(ms)
  {
    assert ([m] + ms)[1..] == ms;
  }

  lemma Regroup(a: Bytes, b: Bytes, c: Bytes)
    ensures (a + b) + c == a + (b + c) && [] + a == a
  {
  }

  /** What a complete stream delivers is, byte for byte, what its data frames carry. */
  lemma {:induction false} NothingLost(fs: seq<Frame>, pending: Option<Message>)
    requires WellFormed(fs, pending.Some?) && Complete(fs, pending.Some?)
    ensures Bodies(Messages(fs, pending)) == (if pending.Some? then pending.value.body else []) + Data(fs)
  {
    if fs != [] {
      var f, rest := fs[0], fs[1..];
      var m := if pending.Some? then Message(pending.value.op, pending.value.body + f.payload)
          else Message(Finished(f.op), f.payload);
      var next := if IsControl(f) then pending else if Final(f.op) then None else Some(m);
      assert WellFormed(rest, next.Some?) && Complete(rest, next.Some?);
      assert Data(fs) == (if IsControl(f) then [] else f.payload) + Data(rest);
      assert Messages(fs, pending) == if !IsControl(f) && Final(f.op) then [m] + Messages(rest, next)
          else Messages(rest, next);
      hide WellFormed, Complete, Data, Messages, Bodies, IsControl, Final, Finished;
      NothingLost(rest, next);
      BodiesStep(m, Messages(rest, next));
      if pending.Some? { Regroup(pending.value.body, f.payload, Data(rest)); }
      Regroup(Data(rest), [], []);
    }
  }

  /** The stream ends between messages. */
  predicate Complete(fs: seq<Frame>, within: bool) {
    if fs == [] then !within
    else if IsControl(fs[0]) then Complete(fs[1..], within)
    else Complete(fs[1..], !Final(fs[0].op))
  }

  predicate OneMessage(fs: seq<Frame>, within: bool) {
    if fs == [] then false
    else if IsControl(fs[0]) then OneMessage(fs[1..], within)
    else if Final(fs[0].op) then forall i :: 1 <= i < |fs| ==> IsControl(fs[i])
    else OneMessage(fs[1..], true)
  }

  lemma {:induction false} FragmentsJoin(fs: seq<Frame>, pending: Option<Message>)
    requires WellFormed(fs, pending.Some?) && OneMessage(fs, pending.Some?)
    ensures |Messages(fs, pending)| == 1
    ensures Messages(fs, pending)[0].body == (if pending.Some? then pending.value.body else []) + Data(fs)
    ensures pending.Some? ==> Messages(fs, pending)[0].op == pending.value.op
  {
    var f := fs[0];
    if IsControl(f) {
      FragmentsJoin(fs[1..], pending);
    } else {
      var m := if pending.Some? then Message(pending.value.op, pending.value.body + f.payload)
          else Message(Finished(f.op), f.payload);
      if Final(f.op) {
        OnlyControls(fs[1..]);
      } else {
        FragmentsJoin(fs[1..], Some(m));
      }
    }
  }

  /** A message cut into fragments, with control frames between them, arrives as one message: the
      concatenation of the fragments, with the first byte of the first one and its FIN bit (128) set. */
  lemma {:induction false} FragmentsConcatenate(fs: seq<Frame>) returns (first: nat)
    requires WellFormed(fs, false) && OneMessage(fs, false)
    ensures first < |fs| && !IsControl(fs[first]) && forall i :: 0 <= i < first ==> IsControl(fs[i])
    ensures var op := fs[first].op;
      Messages(fs, None) == [Message(if op < 128 then op + 128 else op, Data(fs))]
  {
    var f := fs[0];
    FragmentsJoin(fs, None);
    if IsControl(f) {
      var n := FragmentsConcatenate(fs[1..]);
      first := n + 1;
    } else {
      first := 0;
      if !Final(f.op) { FragmentsJoin(fs[1..], Some(Message(f.op + 128, f.payload))); }
    }
    assert Messages(fs, None)[0].body == Data(fs);
  }

  lemma {:induction false} OnlyControls(fs: seq<Frame>)
    requires forall i :: 0 <= i < |fs| ==> IsControl(fs[i])
    ensures Messages(fs, None) == [] && Data(fs) == []
  {
    if fs != [] { OnlyControls(fs[1..]); }
  }

  // ---- The loop on the byte stream ----

  /** Turns until the connection is closed or its bytes end. */
  function Turns(st: State, max: nat, s: Bytes, at: nat): State
    requires at <= |s|
    decreases |s| - at
  {
    if !st.open then st
    else
      var (st1, next) := Turn(st, max, s, at);
      if st1.open then Turns(st1, max, s, next) else st1
  }

  function WireAll(fs: seq<Frame>, masks: seq<Mask>): Bytes
    requires |fs| == |masks|
  {
    if fs == [] then [] else Wire(fs[0], masks[0]) + WireAll(fs[1..], masks[1..])
  }

  /** Every frame passes the size check when its turn comes. */
  predicate Accepted(st: State, max: nat, fs: seq<Frame>)
    decreases fs
  {
    fs == [] ||
    var n := |fs[0].payload|;
    n + Pending(st) <= max && n + Pending(st) < TWO64 && n < TWO64 - 4 && Content(st, fs[0]).open
        && Accepted(Content(st, fs[0]), max, fs[1..])
  }

  /** The frames a client wrote, with any masks, are served one after the other; then the loop stands
      before whatever bytes follow them. */
  lemma {:induction false} BytesServed(st: State, max: nat, fs: seq<Frame>, masks: seq<Mask>, tail: Bytes, s: Bytes,
                                       at: nat)
    requires |fs| == |masks| && at <= |s| && s[at..] == WireAll(fs, masks) + tail && st.open && Accepted(st, max, fs)
    ensures |tail| <= |s| && Turns(st, max, s, at) == Turns(Serve(st, fs), max, s, |s| - |tail|) && Serve(st, fs).open
    decreases fs
  {
    hide Wire, Content, ReadFrame, Stands;
    if fs == [] {
      assert WireAll(fs, masks) + tail == tail;
    } else {
      var w, rest := Wire(fs[0], masks[0]), WireAll(fs[1..], masks[1..]);
      assert s[at..] == w + (rest + tail);
      StandsAhead(s, at, w, rest + tail);
      ReadsWhatWasSent(fs[0], masks[0], s, at, Pending(st), max);
      FrameInside(s, at, Pending(st), max);
      BytesServed(Content(st, fs[0]), max, fs[1..], masks[1..], tail, s, at + |w|);
    }
  }

  lemma StandsAhead(s: Bytes, at: nat, w: Bytes, rest: Bytes)
    requires at <= |s| && s[at..] == w + rest
    ensures Stands(s, at, w) && at + |w| <= |s| && s[at + |w|..] == rest
  {
    assert s[at..at + |w|] == s[at..][..|w|] == w;
    assert s[at + |w|..] == s[at..][|w|..] == rest;
  }

  /** The messages of a well-formed stream without a close frame, sent as masked frames that pass the size
      check, are delivered exactly, in order. */
  lemma StreamDelivered(max: nat, fs: seq<Frame>, masks: seq<Mask>)
    requires |fs| == |masks| && WellFormed(fs, false) && NoClose(fs) && Accepted(START, max, fs)
    ensures Delivered(Turns(START, max, WireAll(fs, masks), 0).events) == Messages(fs, None)
  {
    hide Content, WireAll;
    var s := WireAll(fs, masks);
    assert s[0..] == s == s + [];
    BytesServed(START, max, fs, masks, [], s, 0);
    ServesMessages(START, fs);
    var end := Serve(START, fs);
    assert Turns(end, max, s, |s|) == end.(open := false, events := end.events + [OnError]);
    DeliveredJoin(end.events, [OnError]);
    assert Delivered([OnError]) == [];
  }

  predicate IsClosing(f: Frame) {
    Final(f.op) && Opcode(f.op) == 8
  }

  lemma ClosesWith(st: State, f: Frame)
    requires IsClosing(f)
    ensures var b := f.payload;
      var close := if |b| >= 2 then OnClose(b[0] as nat * 256 + b[1] as nat, b[2..]) else OnClose(0, b);
      Content(st, f) == st.(open := false, events := st.events + [close])
  {
  }

  lemma StreamEnds(max: nat, fs: seq<Frame>, masks: seq<Mask>, close: Frame, mask: Mask, rest: Bytes, told: Event)
    requires |fs| == |masks| && WellFormed(fs, false) && NoClose(fs) && Accepted(START, max, fs)
    requires var n := |close.payload| + Pending(Serve(START, fs)); n <= max && n < TWO64 && |close.payload| < TWO64 - 4
    requires var st := Serve(START, fs); Content(st, close) == st.(open := false, events := st.events + [told])
    ensures var end := Turns(START, max, WireAll(fs, masks) + (Wire(close, mask) + rest), 0);
      end.events == Serve(START, fs).events + [told] && !end.open
  {
    hide Content, WireAll, Wire, ReadFrame, Stands, Serve, Messages, WellFormed, NoClose, Accepted;
    var w := Wire(close, mask);
    var tail := w + rest;
    var s := WireAll(fs, masks) + tail;
    var end, at := Serve(START, fs), |s| - |tail|;
    assert s[0..] == s;
    BytesServed(START, max, fs, masks, tail, s, 0);
    assert s[at..] == tail;
    StandsAhead(s, at, w, rest);
    ReadsWhatWasSent(close, mask, s, at, Pending(end), max);
  }

  /** The same with the close frame that normally ends a connection, wherever it comes: the messages before
      it are delivered, then the application learns of the closing, and no byte after it is looked at. */
  lemma StreamClosed(max: nat, fs: seq<Frame>, masks: seq<Mask>, close: Frame, mask: Mask, rest: Bytes)
    requires |fs| == |masks| && WellFormed(fs, false) && NoClose(fs) && Accepted(START, max, fs) && IsClosing(close)
    requires var n := |close.payload| + Pending(Serve(START, fs)); n <= max && n < TWO64 && |close.payload| < TWO64 - 4
    ensures var end := Turns(START, max, WireAll(fs, masks) + (Wire(close, mask) + rest), 0);
      var b := close.payload;
      var told := if |b| >= 2 then OnClose(b[0] as nat * 256 + b[1] as nat, b[2..]) else OnClose(0, b);
      && Delivered(end.events) == Messages(fs, None) && !end.open
      && end.events == Serve(START, fs).events + [told]
  {
    hide Content, WireAll, Wire, Turns, Serve, Messages, WellFormed, Accepted, NoClose, IsClosing, Pending;
    var st, b := Serve(START, fs), close.payload;
    var told := if |b| >= 2 then OnClose(b[0] as nat * 256 + b[1] as nat, b[2..]) else OnClose(0, b);
    ClosesWith(st, close);
    StreamEnds(max, fs, masks, close, mask, rest, told);
    ServesMessages(START, fs);
    DeliveredJoin(st.events, [told]);
    assert Delivered(START.events) == [] && Delivered([told]) == [];
  }

  // ---- Single frames, by their first byte ----

  /** A ping (137) is answered with 138, a pong (138) is reported; nothing else changes. */
  lemma ControlServed(st: State, max: nat, f: Frame, mask: Mask, s: Bytes, at: nat)
    requires f.op in {137, 138} && at <= |s| && Stands(s, at, Wire(f, mask))
    requires |f.payload| < 126 && |f.payload| + Pending(st) <= max < TWO64
    ensures Turn(st, max, s, at)
         == (st.(events := st.events + [if f.op == 137 then Pong(138) else OnPong]), at + 6 + |f.payload|)
  {
    WireParts(f, mask);
    hide Wire, Stands, ReadFrame;
    ReadsWhatWasSent(f, mask, s, at, Pending(st), max);
  }

  /** A close frame (136) tells the status the client put into it in network order, and its reason. */
  lemma CloseServed(st: State, max: nat, f: Frame, mask: Mask, status: nat, reason: Bytes, s: Bytes, at: nat)
    requires f == Frame(136, BigEndian(2, status) + reason) && status < 65536
    requires at <= |s| && Stands(s, at, Wire(f, mask)) && |f.payload| + Pending(st) <= max < TWO64 - 4
    ensures Turn(st, max, s, at).0 == st.(open := false, events := st.events + [OnClose(status, reason)])
  {
    hide Wire, Stands, ReadFrame, BigEndian, Content;
    ReadsWhatWasSent(f, mask, s, at, Pending(st), max);
    TwoBytes(status);
    assert (BigEndian(2, status) + reason)[2..] == reason;
    ClosesWith(st, f);
  }

  /** A frame without mask ends the connection with 1002, one over the limit with 1009. */
  lemma Refused(st: State, max: nat, s: Bytes, at: nat)
    requires at + 2 <= |s|
    ensures s[at + 1] < 128 ==>
      Turn(st, max, s, at).0 == State(st.fragmented, false, st.events + [OnClose(1002, [])])
    ensures forall f: Frame, mask: Mask :: Stands(s, at, Wire(f, mask)) && max < |f.payload| + Pending(st) < TWO64 ==>
      Turn(st, max, s, at).0 == State(st.fragmented, false, st.events + [OnError, OnClose(1009, [])])
  {
    forall f: Frame, mask: Mask | Stands(s, at, Wire(f, mask)) && max < |f.payload| + Pending(st) < TWO64
      ensures ReadFrame(s, at, Pending(st), max) == TooBig
    {
      hide Wire, Stands, ReadFrame;
      ReadsWhatWasSent(f, mask, s, at, Pending(st), max);
    }
  }

  // ---- The size limit ----

  ghost predicate WithinLimit(st: State, max: nat) {
    Pending(st) <= max && forall m :: m in Delivered(st.events) ==> |m.body| <= max
  }

  lemma ContentWithinLimit(st: State, max: nat, f: Frame)
    requires WithinLimit(st, max) && |f.payload| + Pending(st) <= max
    ensures WithinLimit(Content(st, f), max) && Pending(Content(st, f)) <= Pending(st) + |f.payload|
  {
    var st1 := Content(st, f);
    if st1.events != st.events {
      assert st1.events[..|st1.events| - 1] == st.events;
    }
  }

  lemma TurnWithinLimit(st: State, max: nat, s: Bytes, at: nat)
    requires at <= |s| < TWO64 && WithinLimit(st, max) && Pending(st) <= at && st.open
    ensures var (st1, next) := Turn(st, max, s, at); WithinLimit(st1, max) && (st1.open ==> Pending(st1) <= next)
  {
    hide Content, Delivered;
    var r := ReadFrame(s, at, Pending(st), max);
    if r.Got? {
      GotFits(s, at, Pending(st), max);
      ContentWithinLimit(st, max, r.frame);
    } else {
      QuietEvents(st);
    }
  }

  lemma QuietEvents(st: State)
    ensures Delivered(st.events + [OnError, OnClose(1009, [])]) == Delivered(st.events)
    ensures Delivered(st.events + [OnClose(1002, [])]) == Delivered(st.events) == Delivered(st.events + [OnError])
  {
    DeliveredJoin(st.events, [OnError, OnClose(1009, [])]);
    DeliveredJoin(st.events, [OnClose(1002, [])]);
    DeliveredJoin(st.events, [OnError]);
    var two := [OnError, OnClose(1009, [])];
    assert two[..1] == [OnError] && [OnError][..0] == [] && Delivered([OnError]) == [];
  }

  lemma GotFits(s: Bytes, at: nat, pending: nat, max: nat)
    requires at <= |s| < TWO64 && pending <= at
    ensures var r := ReadFrame(s, at, pending, max);
      r.Got? ==> |r.frame.payload| + pending <= max && at + |r.frame.payload| < r.next <= |s|
  {
  }

  lemma {:induction false} TurnsWithinLimit(st: State, max: nat, s: Bytes, at: nat)
    requires at <= |s| < TWO64 && WithinLimit(st, max) && Pending(st) <= at
    ensures WithinLimit(Turns(st, max, s, at), max)
    decreases |s| - at
  {
    hide WithinLimit, Turn, Pending;
    if st.open {
      TurnWithinLimit(st, max, s, at);
      var (st1, next) := Turn(st, max, s, at);
      if st1.open { TurnsWithinLimit(st1, max, s, next); }
    }
  }

  /** Whatever bytes arrive, well-formed or not: no delivered message exceeds the limit. */
  lemma NeverTooBig(max: nat, s: Bytes, m: Message)
    requires |s| < TWO64 && m in Delivered(Turns(START, max, s, 0).events)
    ensures |m.body| <= max
  {
    TurnsWithinLimit(START, max, s, 0);
  }

  /** The limit also counts a control frame together with the fragments pending around it: a ping within
      the limit is refused exactly when the two together, in 64 bits, exceed it. */
  lemma PingCountsWithPending(st: State, max: nat, f: Frame, mask: Mask, s: Bytes, at: nat)
    requires st.open && Opcode(f.op) == 9 && Final(f.op) && Stands(s, at, Wire(f, mask)) && at <= |s|
    requires |f.payload| < 126
    ensures var (st1, _) := Turn(st, max, s, at);
      if (|f.payload| + Pending(st)) % TWO64 > max then !st1.open
          else st1 == st.(events := st.events + [Pong(f.op + 1)])
  {
    hide Wire, Stands, ReadFrame;
    ReadsWhatWasSent(f, mask, s, at, Pending(st), max);
  }

  // ---- The connection object ----

  class Session {
    const maxMessageSize: nat
    var input: Bytes                     // all bytes the client has sent
    var at: nat                          // bytes taken from it
    var fragmented: Option<Message>
    var open: bool
    var events: seq<Event>

    constructor (max: nat, bytes: Bytes)
      ensures maxMessageSize == max && input == bytes && at == 0 && Abs() == START
    {
      maxMessageSize, input, at := max, bytes, 0;
      fragmented, open, events := None, true, [];
    }

    ghost function Abs(): State
      reads this
    {
      State(fragmented, open, events)
    }

    /** `read_message`. */
    method ReadMessage()
      requires open && at <= |input|
      modifies this
      ensures input == old(input) && at <= |input|
      ensures (Abs(), at) == Turn(old(Abs()), maxMessageSize, input, old(at))
    {
      hide FromBigEndian, Content;
      if at + 2 > |input| {
        open, events := false, events + [OnError];
        return;
      }
      var op, second := input[at], input[at + 1];
      if second < 128 {
        open, events := false, events + [OnClose(1002, [])];
        return;
      }
      var length, begin := second as nat - 128, at + 2;
      if length == 126 || length == 127 {
        var numBytes := if length == 126 then 2 else 8;
        if begin + numBytes > |input| {
          open, events := false, events + [OnError];
          return;
        }
        length := DecodeLength(input[begin..begin + numBytes]);
        begin := begin + numBytes;
      }
      ReadMessageContent(op, length, begin);
    }

    method DecodeLength(bytes: Bytes) returns (length: nat)
      ensures length == FromBigEndian(bytes)
    {
      length := 0;
      var c := 0;
      assert bytes[..0] == [];
      while c < |bytes|
        invariant 0 <= c <= |bytes| && length == FromBigEndian(bytes[..c]) * Radix(|bytes| - c)
      {
        assert bytes[..c + 1][..c] == bytes[..c];
        NextDigit(FromBigEndian(bytes[..c]), bytes[c] as nat, Radix(|bytes| - 1 - c));
        length := length + bytes[c] as nat * Radix(|bytes| - 1 - c);
        c := c + 1;
      }
      assert bytes[..c] == bytes;
    }

    /** `read_message_content`. */
    method ReadMessageContent(op: byte, length: nat, begin: nat)
      requires open && at + 2 <= begin <= |input| && input[at] == op && input[at + 1] >= 128
      requires (length, begin) == ReadLength(input, at)
      modifies this
      ensures input == old(input) && at <= |input|
      ensures (Abs(), at) == Turn(old(Abs()), maxMessageSize, input, old(at))
    {
      hide FromBigEndian, ReadLength, Masked;
      var pending := if fragmented.Some? then |fragmented.value.body| else 0;
      if (length + pending) % TWO64 > maxMessageSize {
        open, events := false, events + [OnError, OnClose(1009, [])];
        return;
      }
      if ContentBytes(length) != 4 + length || begin + 4 + length > |input| {
        open, events := false, events + [OnError];
        return;
      }
      var mask := input[begin..begin + 4];
      var payload := MaskAll(input[begin + 4..begin + 4 + length], mask);
      at := begin + 4 + length;
      Handle(Frame(op, payload));
    }

    /** What is done with a frame read in full. */
    method Handle(f: Frame)
      modifies `fragmented, `open, `events
      ensures Abs() == Content(old(Abs()), f)
    {
      var message := Message(f.op, f.payload);
      if !Final(f.op) || Opcode(f.op) == 0 {
        if fragmented.None? {
          fragmented := Some(Message(Finished(f.op), f.payload));
        } else {
          fragmented := Some(fragmented.value.(body := fragmented.value.body + f.payload));
        }
        message := fragmented.value;
      }
      if Opcode(f.op) == 8 {
        var status, reason := 0, message.body;
        if |f.payload| >= 2 {
          status := reason[0] as nat * 256 + reason[1] as nat;
          reason := reason[2..];
        }
        open, events := false, events + [OnClose(status, reason)];
      } else if Opcode(f.op) == 9 {
        events := events + [Pong(f.op + 1)];
      } else if Opcode(f.op) == 10 {
        events := events + [OnPong];
      } else if Final(f.op) {
        events := events + [OnMessage(message)];
        fragmented := None;
      }
    }

    /** The whole life of the connection. */
    method Serve()
      requires at <= |input|
      modifies this
      ensures input == old(input) && Abs() == Turns(old(Abs()), maxMessageSize, input, old(at))
    {
      hide Turn;
      while open
        invariant at <= |input| && input == old(input)
        invariant Turns(Abs(), maxMessageSize, input, at) == Turns(old(Abs()), maxMessageSize, input, old(at))
        decreases open, |input| - at
      {
        ReadMessage();
      }
    }
  }

  lemma NextDigit(a: nat, d: nat, r: nat)
    ensures a * (256 * r) + d * r == (a * 256 + d) * r
  {
  }
}
