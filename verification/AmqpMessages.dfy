/** Messages over frames: `amqp_basic_publish` cuts a body into frames (rabbitMQ_C/amqp_api.c) and
    `amqp_read_message` puts it together again (rabbitMQ_C/amqp_consumer.c); AMQP 0-9-1 section 4.2.6. */
module AmqpMessages {
  import opened Common
  import opened Octets
  import opened AmqpCodec
  import opened AmqpFrames
  import opened AmqpParser
  import AmqpWriter
  import AmqpConnection
  import opened AmqpWire

  const BASIC_CLASS := 60
  const BASIC_PUBLISH := 0x003C0028
  const CHANNEL_CLOSE := 0x00140028
  const CONNECTION_CLOSE := 0x000A0032

  /** The body cut into pieces of the usable size, a last one shorter unless it comes out even. */
  ghost predicate Cut(chunks: seq<Bytes>, body: Bytes, usable: nat) {
    && Flatten(chunks) == body
    && (forall i :: 0 <= i < |chunks| ==> 1 <= |chunks[i]| <= usable)
    && (forall i :: 0 <= i < |chunks| - 1 ==> |chunks[i]| == usable)
  }

  /** There are exactly as many pieces as the body needs. */
  lemma CutCount(chunks: seq<Bytes>, body: Bytes, usable: nat)
    requires usable > 0 && Cut(chunks, body, usable)
    ensures |chunks| == (|body| + usable - 1) / usable
  {
    if chunks == [] {
      Quotient(usable - 1, usable, 0, usable - 1);
    } else {
      AllButLast(chunks, usable);
      hide Flatten;
      var k, last := |chunks| - 1, |chunks[|chunks| - 1]|;
      assert k * usable + last + usable - 1 == (k + 1) * usable + (last - 1);
      Quotient(|body| + usable - 1, usable, k + 1, last - 1);
    }
  }

  /** A frame handed to the socket; `more` says that further data follows at once. */
  datatype Sent = Sent(frame: Frame, more: bool)

  function FramesOf(sent: seq<Sent>): (fs: seq<Frame>)
    ensures |fs| == |sent| && forall i :: 0 <= i < |fs| ==> fs[i] == sent[i].frame
  {
    seq(|sent|, i requires 0 <= i < |sent| => sent[i].frame)
  }

  function BodySent(channel: nat, chunks: seq<Bytes>, usable: nat): (r: seq<Sent>)
    ensures |r| == |chunks|
  {
    seq(|chunks|, i requires 0 <= i < |chunks| => Sent(Frame(channel, Body(chunks[i])), |chunks[i]| >= usable))
  }

  /** What the application passes to `amqp_basic_publish`. */
  datatype Publication =
    Publication(channel: nat, exchange: Bytes, routingKey: Bytes, mandatory: int, immediate: int, flags: nat,
        props: seq<Field>, body: Bytes)

  function MethodFrame(p: Publication): Frame {
    Frame(p.channel, Method(BASIC_PUBLISH,
        [Int(0), Text(p.exchange), Text(p.routingKey), Booleans([p.mandatory, p.immediate])]))
  }

  function HeaderFrame(p: Publication): Frame {
    Frame(p.channel, Header(BASIC_CLASS, |p.body|, p.flags, p.props))
  }

  /** Everything one publication sends. */
  function Published(p: Publication, chunks: seq<Bytes>, usable: nat): seq<Sent> {
    [Sent(MethodFrame(p), true), Sent(HeaderFrame(p), |p.body| > 0)] + BodySent(p.channel, chunks, usable)
  }

  /** The C types of the arguments: a property for each flag that announces one; no header table (bit 13). */
  predicate Publishable(p: Publication) {
    && p.channel < 0x1_0000 && p.flags < 0x1_0000_0000 && Bit(p.flags, 13) == 0
    && AllTyped(PropertyKinds(60, p.flags), p.props) && |p.body| < 0x1_0000_0000_0000_0000
  }

  lemma PublishShape(p: Publication)
    requires Publishable(p)
    ensures AmqpWriter.Shaped(MethodFrame(p)) && AmqpWriter.Shaped(HeaderFrame(p))
  {
    assert Layout(BASIC_PUBLISH) == Some([U16, SHORT_STR, SHORT_STR, Bits(2)]);
    RadixOf4And8();
    FlagIsBit(p.flags, 13);
    hide PropertyKinds, HasFlag, Bit;
  }

  /** The names fit their length octets, and the method frame fits into frame_max. */
  predicate NamesFit(p: Publication, frameMax: nat) {
    |p.exchange| < 256 && |p.routingKey| < 256 && |p.exchange| + |p.routingKey| + 17 <= frameMax
  }

  /** The properties fit theirs, and so does the header frame: 20 bytes, a flag word or two, properties. */
  predicate PropertiesFit(p: Publication, frameMax: nat)
    requires Publishable(p)
  {
    var kinds := PropertyKinds(60, p.flags);
    && AllEncodable(kinds, p.props)
    && 20 + (if p.flags < 0x1_0000 then 2 else 4) + |Wire(kinds, p.props)| <= frameMax
  }

  lemma MethodEncodable(p: Publication)
    requires p.channel < 0x1_0000
    ensures WellFormed(MethodFrame(p)) <==> |p.exchange| < 256 && |p.routingKey| < 256
  {
    var kinds, args := [U16, SHORT_STR, SHORT_STR, Bits(2)], MethodFrame(p).payload.args;
    assert Layout(BASIC_PUBLISH) == Some(kinds);
    hide Layout;
    RadixOf1And2And4And8();
    assert AllTyped(kinds, args);
    assert Encodable(kinds[1], args[1]) <==> |p.exchange| < 256;
    assert Encodable(kinds[2], args[2]) <==> |p.routingKey| < 256;
    assert Encodable(kinds[0], args[0]) && Encodable(kinds[3], args[3]);
  }

  lemma MethodPayload(p: Publication)
    requires WellFormed(MethodFrame(p)) && |p.exchange| < 256 && |p.routingKey| < 256
    ensures PayloadBytes(MethodFrame(p).payload) == [0, 60, 0, 40, 0, 0] + Short(p.exchange) + Short(p.routingKey)
      + [B(Flag(p.mandatory) + 2 * Flag(p.immediate))]
  {
    PublishBytes(0, p.exchange, p.routingKey, p.mandatory, p.immediate);
    var w, d, e, f := PayloadBytes(MethodFrame(p).payload), Short(p.exchange), Short(p.routingKey),
        [B(Flag(p.mandatory) + 2 * Flag(p.immediate))];
    assert w == Octets2(60) + Octets2(40) + (Octets2(0) + d + e + f);
    hide WellFormed, PayloadBytes, Short, Flag, MethodIs, MethodFrame;
    assert Octets2(60) == [0, 60] && Octets2(40) == [0, 40] && Octets2(0) == [0, 0];
    hide Octets2, B;
    PutTogether([0, 60], [0, 40], [0, 0], d, e, f);
  }

  lemma PutTogether(a: Bytes, b: Bytes, c: Bytes, d: Bytes, e: Bytes, f: Bytes)
    requires a == [0, 60] && b == [0, 40] && c == [0, 0]
    ensures a + b + (c + d + e + f) == [0, 60, 0, 40, 0, 0] + d + e + f
  {
    assert a + b + c == [0, 60, 0, 40, 0, 0];
    assert a + b + (c + d + e + f) == a + b + c + d + e + f;
  }

  /** The bytes of the first frame, given in full. */
  lemma MethodOnTheWire(p: Publication, frameMax: nat)
    requires Publishable(p)
    ensures Sendable(MethodFrame(p), frameMax) <==> NamesFit(p, frameMax)
    ensures Sendable(MethodFrame(p), frameMax) ==>
      WireFrame(MethodFrame(p)) == [1] + Octets2(p.channel) + Octets4(|p.exchange| + |p.routingKey| + 9)
        + ([0, 60, 0, 40, 0, 0] + Short(p.exchange) + Short(p.routingKey)
          + [B(Flag(p.mandatory) + 2 * Flag(p.immediate))]) + [206]
  {
    MethodEncodable(p);
    var f := MethodFrame(p);
    assert f.payload.Method? && f.channel == p.channel;
    hide PayloadBytes, WellFormed, B, Octets2, Octets4, Publishable, MethodFrame, WireFrame, Flag;
    if WellFormed(f) {
      MethodPayload(p);
      FrameBytes(f);
      ShortSize(p.exchange);
      ShortSize(p.routingKey);
      hide Short;
      assert |PayloadBytes(f.payload)| == |p.exchange| + |p.routingKey| + 9;
    }
  }

  lemma ShortSize(s: Bytes)
    requires |s| < 256
    ensures |Short(s)| == |s| + 1
  {
  }

  /** And of the second. */
  lemma HeaderOnTheWire(p: Publication, frameMax: nat)
    requires Publishable(p)
    ensures Sendable(HeaderFrame(p), frameMax) <==> PropertiesFit(p, frameMax)
    ensures PropertiesFit(p, frameMax) ==>
      var w := [0, 60, 0, 0] + Octets8(|p.body|) + WordBytes(p.flags) + Wire(PropertyKinds(60, p.flags), p.props);
      WireFrame(HeaderFrame(p)) == [2] + Octets2(p.channel) + Octets4(|w|) + w + [206]
  {
    HeaderEncodable(p);
    if WellFormed(HeaderFrame(p)) {
      HeaderBytes(60, |p.body|, p.flags, p.props);
      FrameBytes(HeaderFrame(p));
    }
    assert |WordBytes(p.flags)| == if p.flags < 0x1_0000 then 2 else 4;
    hide WireFrame, PayloadBytes, WellFormed, WordBytes, PropertyKinds, Wire, AllEncodable, AllTyped, Bit, Octets4;
    assert Octets2(60) == [0, 60];
    hide B;
    assert [0, 60] + [0, 0] == [0, 60, 0, 0];
  }

  lemma HeaderEncodable(p: Publication)
    requires Publishable(p)
    ensures WellFormed(HeaderFrame(p)) <==> AllEncodable(PropertyKinds(60, p.flags), p.props)
    ensures WellFormed(HeaderFrame(p)) ==> WellFormed(Frame(0, HeaderFrame(p).payload))
  {
    FlagIsBit(p.flags, 13);
    hide PropertyKinds, HasFlag, Bit, AllTyped, AllEncodable;
  }

  class Publisher {
    const frameMax: nat
    const outbound: array<byte>
    var wire: Bytes              // bytes handed to the socket so far
    var log: seq<Sent>

    ghost predicate Valid()
      reads this
    {
      outbound.Length == frameMax && frameMax >= 20 && AllFramed(log) && wire == WireAll(FramesOf(log))
    }

    constructor (frameMax: nat)
      requires frameMax >= 20
      ensures Valid() && this.frameMax == frameMax && log == [] && fresh(outbound)
    {
      this.frameMax := frameMax;
      outbound := new byte[frameMax];
      wire, log := [], [];
    }

    /** `amqp_send_frame_inner`, with a socket that takes everything. */
    method SendFrame(f: Frame, more: bool) returns (e: Option<Error>)
      requires Valid() && AmqpWriter.Shaped(f) && (f.payload.Body? ==> |f.payload.fragment| + 8 <= frameMax)
      modifies this, outbound
      ensures Valid() && (e.None? <==> WellFormed(f) && |WireFrame(f)| <= frameMax)
      ensures log == if e.None? then old(log) + [Sent(f, more)] else old(log)
    {
      hide WireFrame, WireAll, WellFormed;
      var r := AmqpWriter.FrameToBytes(f, outbound);
      if r.Err? { return Some(r.error); }
      AllFramedSnoc(log, f, more);
      wire := wire + outbound[..r.value];
      log := log + [Sent(f, more)];
      e := None;
    }

    /** `amqp_basic_publish`. With frame_max below 20 the room for a header's properties would wrap around,
        and with 8 or less the loop would not end; the protocol's least frame_max is 4096. */
    method Publish(p: Publication) returns (e: Option<Error>, ghost chunks: seq<Bytes>)
      requires Valid() && Publishable(p)
      modifies this, outbound
      ensures Valid()
      ensures e.None? <==> NamesFit(p, frameMax) && PropertiesFit(p, frameMax)
      ensures var args := [Int(0), Text(p.exchange), Text(p.routingKey), Booleans([p.mandatory, p.immediate])];
        var m := Sent(Frame(p.channel, Method(0x003C0028, args)), true);
        var h := Sent(Frame(p.channel, Header(60, |p.body|, p.flags, p.props)), |p.body| > 0);
        log == old(log) + (if e.None? then [m, h] + BodySent(p.channel, chunks, frameMax - 8)
                           else if NamesFit(p, frameMax) then [m] else [])
      ensures e.None? ==> Cut(chunks, p.body, frameMax - 8) && log == old(log) + Published(p, chunks, frameMax - 8)
    {
      WhatIsPublished(p);
      hide WireFrame, WireAll, WellFormed, AmqpWriter.Shaped, MethodFrame, HeaderFrame, AllFramed, FramesOf, Cut,
          BodySent, Publishable, NamesFit, PropertiesFit;
      ghost var before := log;
      PublishShape(p);
      MethodOnTheWire(p, frameMax);
      HeaderOnTheWire(p, frameMax);
      chunks := [];
      FrameKinds(p);
      e := SendFrame(MethodFrame(p), true);
      if e.Some? { return; }
      e := SendFrame(HeaderFrame(p), |p.body| > 0);
      if e.Some? { return; }
      chunks := SendBody(p);
      JoinSent(before, Sent(MethodFrame(p), true), Sent(HeaderFrame(p), |p.body| > 0),
          BodySent(p.channel, chunks, frameMax - 8));
    }

    /** The loop of `amqp_basic_publish`. */
    method SendBody(p: Publication) returns (ghost chunks: seq<Bytes>)
      requires Valid() && p.channel < 65536
      modifies this, outbound
      ensures Valid() && Cut(chunks, p.body, frameMax - 8)
      ensures log == old(log) + BodySent(p.channel, chunks, frameMax - 8)
    {
      hide WireAll, Flatten;
      var usable := frameMax - (HEADER_SIZE + FOOTER_SIZE);
      chunks := [];
      FlattenNothing();
      var bodyOffset := 0;
      while bodyOffset < |p.body|
        invariant bodyOffset <= |p.body| && Valid()
        invariant Flatten(chunks) == p.body[..bodyOffset]
        invariant forall i :: 0 <= i < |chunks| ==> 1 <= |chunks[i]| <= usable
        invariant forall i :: 0 <= i < |chunks| ==> |chunks[i]| == usable || bodyOffset == |p.body|
        invariant log == old(log) + BodySent(p.channel, chunks, usable)
        invariant bodyOffset == |p.body| ==> Cut(chunks, p.body, usable)
      {
        var remaining := |p.body| - bodyOffset;
        var size := if remaining >= usable then usable else remaining;
        var more := remaining >= usable;
        var fragment := p.body[bodyOffset..bodyOffset + size];
        BodyFits(p.channel, fragment);
        var e := SendFrame(Frame(p.channel, Body(fragment)), more);
        FlattenSnoc(chunks, fragment);
        ghost var next := chunks + [fragment];
        assert BodySent(p.channel, next, usable)
            == BodySent(p.channel, chunks, usable) + [Sent(Frame(p.channel, Body(fragment)), more)];
        assert p.body[..bodyOffset] + fragment == p.body[..bodyOffset + size];
        chunks := next;
        bodyOffset := bodyOffset + size;
        assert p.body[..|p.body|] == p.body;
      }
      assert p.body[..|p.body|] == p.body;
    }
  }

  /** A body frame per piece, on the publication's channel; "more follows" stands on every full one. */
  lemma BodiesSent(channel: nat, chunks: seq<Bytes>, body: Bytes, usable: nat)
    requires Cut(chunks, body, usable)
    ensures forall i :: 0 <= i < |chunks| ==>
      BodySent(channel, chunks, usable)[i] == Sent(Frame(channel, Body(chunks[i])), |chunks[i]| == usable)
  {
  }

  lemma WhatIsPublished(p: Publication)
    ensures MethodFrame(p) == Frame(p.channel, Method(0x003C0028,
      [Int(0), Text(p.exchange), Text(p.routingKey), Booleans([p.mandatory, p.immediate])]))
    ensures HeaderFrame(p) == Frame(p.channel, Header(60, |p.body|, p.flags, p.props))
  {
  }

  lemma JoinSent(a: seq<Sent>, x: Sent, y: Sent, b: seq<Sent>)
    ensures a + [x] + [y] + b == a + ([x, y] + b)
  {
  }

  predicate Sendable(f: Frame, frameMax: nat) {
    WellFormed(f) && |WireFrame(f)| <= frameMax
  }

  ghost predicate AllFramed(log: seq<Sent>) {
    AllWellFormed(FramesOf(log))
  }

  /** What a receiver gets of the first two frames: no property is a boolean, so all come as published. */
  lemma WhatIsReceived(p: Publication)
    requires Publishable(p)
    ensures CanonFrame(MethodFrame(p)) == Frame(p.channel, Method(0x003C0028,
      [Int(0), Text(p.exchange), Text(p.routingKey), Booleans([Flag(p.mandatory), Flag(p.immediate)])]))
    ensures CanonFrame(HeaderFrame(p)) == Frame(p.channel, Header(60, |p.body|, Chained(p.flags), p.props))
  {
    CanonFour(Int(0), Text(p.exchange), Text(p.routingKey), Booleans([p.mandatory, p.immediate]));
    assert AmqpCodec.Normal([p.mandatory, p.immediate]) == [Flag(p.mandatory), Flag(p.immediate)];
    NoBooleans(p.flags, 15);
    NothingToNormalise(PropertyKinds(60, p.flags), p.props);
    hide PropertyKinds, AllTyped, CanonAll, AmqpCodec.Normal, Flag;
  }

  lemma CanonFour(a: Field, b: Field, c: Field, d: Field)
    ensures CanonAll([a, b, c, d]) == [Canon(a), Canon(b), Canon(c), Canon(d)]
  {
    hide Canon;
    var t0, t1, t2, t3 := [a, b, c, d], [b, c, d], [c, d], [d];
    assert t0[1..] == t1 && t1[1..] == t2 && t2[1..] == t3 && t3[1..] == [];
    assert CanonAll(t3) == [Canon(d)];
    assert CanonAll(t2) == [Canon(c), Canon(d)];
    assert CanonAll(t1) == [Canon(b), Canon(c), Canon(d)];
  }

  lemma {:induction false} NoBooleans(flags: nat, b: nat)
    requires b <= 15
    ensures forall i :: 0 <= i < |KindsFrom(flags, b)| ==> !KindsFrom(flags, b)[i].Bits?
  {
    if b >= 2 { NoBooleans(flags, b - 1); }
  }

  lemma {:induction false} NothingToNormalise(kinds: seq<Kind>, props: seq<Field>)
    requires AllTyped(kinds, props) && forall i :: 0 <= i < |kinds| ==> !kinds[i].Bits?
    ensures CanonAll(props) == props
  {
    if props != [] { NothingToNormalise(kinds[1..], props[1..]); }
  }

  lemma FrameKinds(p: Publication)
    ensures MethodFrame(p).Frame? && MethodFrame(p).payload.Method? && HeaderFrame(p).Frame?
    ensures HeaderFrame(p).payload.Header?
    ensures Publishable(p) ==> p.channel < 65536
  {
  }

  lemma BodyFits(channel: nat, fragment: Bytes)
    requires channel < 65536
    ensures var f := Frame(channel, Body(fragment));
      WellFormed(f) && AmqpWriter.Shaped(f) && |WireFrame(f)| == |fragment| + 8
  {
  }

  lemma FlattenNothing()
    ensures Flatten([]) == []
  {
  }

  lemma {:induction false} FlattenSnoc(chunks: seq<Bytes>, last: Bytes)
    ensures Flatten(chunks + [last]) == Flatten(chunks) + last
    decreases chunks
  {
    if chunks == [] {
      assert [last][1..] == [] && chunks + [last] == [last];
    } else {
      FlattenSnoc(chunks[1..], last);
      assert (chunks + [last])[1..] == chunks[1..] + [last];
    }
  }

  lemma {:induction false} WireAllSnoc(fs: seq<Frame>, f: Frame)
    requires WellFormed(f) && AllWellFormed(fs)
    ensures AllWellFormed(fs + [f]) && WireAll(fs + [f]) == WireAll(fs) + WireFrame(f)
  {
    hide WireFrame, WellFormed;
    if fs == [] {
      assert fs + [f] == [f];
    } else {
      var more, rest := fs + [f], fs[1..];
      assert more[1..] == rest + [f] && more[0] == fs[0];
      hide AllWellFormed;
      TailWellFormed(fs);
      WireAllSnoc(rest, f);
      HeadWellFormed(more);
      assert WireAll(more) == WireFrame(fs[0]) + WireAll(rest + [f]);
    }
  }

  lemma TailWellFormed(fs: seq<Frame>)
    requires fs != [] && AllWellFormed(fs)
    ensures WellFormed(fs[0]) && AllWellFormed(fs[1..])
  {
  }

  lemma HeadWellFormed(fs: seq<Frame>)
    requires fs != [] && WellFormed(fs[0]) && AllWellFormed(fs[1..])
    ensures AllWellFormed(fs)
  {
    forall i | 0 <= i < |fs| ensures WellFormed(fs[i]) {
      if i > 0 { assert fs[i] == fs[1..][i - 1]; }
    }
  }

  lemma AllFramedSnoc(log: seq<Sent>, f: Frame, more: bool)
    requires AllFramed(log) && WellFormed(f)
    ensures AllFramed(log + [Sent(f, more)])
    ensures WireAll(FramesOf(log + [Sent(f, more)])) == WireAll(FramesOf(log)) + WireFrame(f)
  {
    hide WireFrame, WireAll, WellFormed;
    assert FramesOf(log + [Sent(f, more)]) == FramesOf(log) + [f];
    WireAllSnoc(FramesOf(log), f);
  }

  /** The "more follows" mark of the last body frame: it is wrong, with nothing to follow, exactly when
      the body comes out even. */
  lemma LastMarkedMore(channel: nat, chunks: seq<Bytes>, body: Bytes, usable: nat)
    requires usable > 0 && Cut(chunks, body, usable) && body != []
    ensures chunks != [] && BodySent(channel, chunks, usable)[|chunks| - 1].more <==> |body| % usable == 0
  {
    FlattenNothing();
    hide Flatten;
    var k, last := |chunks| - 1, chunks[|chunks| - 1];
    AllButLast(chunks, usable);
    if |last| == usable {
      assert |body| == (k + 1) * usable + 0;
      Quotient(|body|, usable, k + 1, 0);
    } else {
      Quotient(|body|, usable, k, |last|);
    }
  }

  lemma {:induction false} AllButLast(chunks: seq<Bytes>, usable: nat)
    requires chunks != [] && forall i :: 0 <= i < |chunks| - 1 ==> |chunks[i]| == usable
    ensures |Flatten(chunks)| == (|chunks| - 1) * usable + |chunks[|chunks| - 1]|
    decreases chunks
  {
    if |chunks| > 1 {
      AllButLast(chunks[1..], usable);
    } else {
      assert Flatten(chunks[1..]) == [];
    }
  }

  // ---- Reading ----

  datatype ReadError =
    | WaitFailed                      // no further frame on the channel
    | ServerClosed(frame: Frame)
    | UnexpectedState(frame: Frame)   // the frame is put back
    | BadData

  datatype Message = Message(flags: nat, props: seq<Field>, body: Bytes)

  datatype Reply = Normal(message: Message) | Failure(error: ReadError)

  predicate IsClose(f: Frame) {
    f.Frame? && f.payload.Method? && (f.payload.id == CHANNEL_CLOSE || f.payload.id == CONNECTION_CLOSE)
  }

  predicate IsBody(f: Frame) {
    f.Frame? && f.payload.Body?
  }

  function Fragments(fs: seq<Frame>): seq<Bytes>
    requires forall i :: 0 <= i < |fs| ==> IsBody(fs[i])
  {
    seq(|fs|, i requires 0 <= i < |fs| && IsBody(fs[i]) => fs[i].payload.fragment)
  }

  /** The first `k` frames on a channel make up a whole message: a header, then bodies that reach the
      announced size with the last frame and not before, and never pass it. */
  ghost predicate WholeMessage(fs: seq<Frame>, k: nat) {
    && 1 <= k <= |fs| && IsHeader(fs[0])
    && (forall i :: 1 <= i < k ==> IsBody(fs[i]))
    && |Flatten(Fragments(fs[1..k]))| == fs[0].payload.bodySize
    && (k > 1 ==> |Flatten(Fragments(fs[1..k - 1]))| < fs[0].payload.bodySize)
  }

  predicate IsHeader(f: Frame) {
    f.Frame? && f.payload.Header?
  }

  /** The first `n` frames are a header and bodies that do not yet reach the announced size. */
  ghost predicate Unfinished(fs: seq<Frame>, n: nat) {
    && 1 <= n <= |fs| && IsHeader(fs[0]) && (forall i :: 1 <= i < n ==> IsBody(fs[i]))
    && |Flatten(Fragments(fs[1..n]))| < fs[0].payload.bodySize
  }

  /** `amqp_read_message` on the frames that arrive for the channel. */
  method ReadMessage(fs: seq<Frame>) returns (r: Reply, used: nat)
    ensures used <= |fs|
    ensures r.Normal? ==> WholeMessage(fs, used)
    ensures r.Normal? ==>
      r.message == Message(fs[0].payload.flags, fs[0].payload.props, Flatten(Fragments(fs[1..used])))
    ensures (exists k: nat :: WholeMessage(fs, k)) ==> r.Normal?
    ensures r == Failure(WaitFailed) <==> fs == [] || Unfinished(fs, |fs|)
    ensures r.Failure? && r.error.ServerClosed? ==> used > 0 && IsClose(fs[used - 1]) && r.error.frame == fs[used - 1]
    ensures r.Failure? && r.error.ServerClosed? ==> used == 1 || Unfinished(fs, used - 1)
    ensures r.Failure? && r.error.UnexpectedState? ==>
        used == 0 && fs != [] && !IsClose(fs[0]) && !IsHeader(fs[0]) && r.error.frame == fs[0]
    ensures fs != [] && fs[0].Frame? && fs[0].payload.Method? ==>
      r == Failure(if fs[0].payload.id in {0x00140028, 0x000A0032} then ServerClosed(fs[0]) else UnexpectedState(fs[0]))
    ensures r == Failure(BadData) ==> used > 1 && Unfinished(fs, used - 1) && !IsClose(fs[used - 1])
    ensures r == Failure(BadData) && IsBody(fs[used - 1]) ==> |Flatten(Fragments(fs[1..used]))| > fs[0].payload.bodySize
  {
    hide Flatten;
    if fs == [] { return Failure(WaitFailed), 0; }
    if !IsHeader(fs[0]) {
      if IsClose(fs[0]) { return Failure(ServerClosed(fs[0])), 1; }
      return Failure(UnexpectedState(fs[0])), 0;
    }
    used := 1;
    var size := fs[0].payload.bodySize;
    var body := new byte[size];
    var bodyRead := 0;
    FlattenNothing();
    assert Fragments(fs[1..1]) == [];
    while bodyRead < size
      invariant 1 <= used <= |fs| && 0 <= bodyRead <= size
      invariant forall i :: 1 <= i < used ==> IsBody(fs[i])
      invariant Flatten(Fragments(fs[1..used])) == body[..bodyRead]
      invariant used > 1 ==> |Flatten(Fragments(fs[1..used - 1]))| < size
      decreases |fs| - used
    {
      NotWholeYet(fs, used);
      if used == |fs| { return Failure(WaitFailed), used; }
      var frame := fs[used];
      used := used + 1;
      if !IsBody(frame) {
        return Failure(if IsClose(frame) then ServerClosed(frame) else BadData), used;
      }
      var fragment := frame.payload.fragment;
      OneMoreFragment(fs, used - 1);
      if bodyRead + |fragment| > size {
        NotWholeBeyond(fs, used);
        return Failure(BadData), used;
      }
      forall i | 0 <= i < |fragment| {
        body[bodyRead + i] := fragment[i];
      }
      bodyRead := bodyRead + |fragment|;
    }
    assert body[..bodyRead] == body[..];
    if Unfinished(fs, |fs|) { FragmentsGrow(fs, used, |fs|); }
    r := Normal(Message(fs[0].payload.flags, fs[0].payload.props, body[..]));
  }

  lemma OneMoreFragment(fs: seq<Frame>, n: nat)
    requires 1 <= n < |fs| && IsBody(fs[n]) && forall i :: 1 <= i < n ==> IsBody(fs[i])
    ensures Flatten(Fragments(fs[1..n + 1])) == Flatten(Fragments(fs[1..n])) + fs[n].payload.fragment
  {
    hide Flatten;
    assert Fragments(fs[1..n + 1]) == Fragments(fs[1..n]) + [fs[n].payload.fragment];
    FlattenSnoc(Fragments(fs[1..n]), fs[n].payload.fragment);
  }

  lemma {:induction false} FragmentsGrow(fs: seq<Frame>, m: nat, n: nat)
    requires 1 <= m <= n <= |fs| && forall i :: 1 <= i < n ==> IsBody(fs[i])
    ensures |Flatten(Fragments(fs[1..m]))| <= |Flatten(Fragments(fs[1..n]))|
    decreases n
  {
    hide Flatten;
    if m < n {
      FragmentsGrow(fs, m, n - 1);
      OneMoreFragment(fs, n - 1);
    }
  }

  /** While the size is not reached, no shorter prefix is a whole message. */
  lemma NotWholeYet(fs: seq<Frame>, n: nat)
    requires Unfinished(fs, n)
    ensures forall k: nat :: WholeMessage(fs, k) ==> k > n
    ensures forall k: nat :: Unfinished(fs, k) && k > n ==> forall i :: 1 <= i < k ==> IsBody(fs[i])
  {
    hide Flatten;
    forall k: nat | WholeMessage(fs, k) ensures k > n {
      if k <= n { FragmentsGrow(fs, k, n); }
    }
  }

  /** Once the size is passed, no prefix is. */
  lemma NotWholeBeyond(fs: seq<Frame>, n: nat)
    requires 2 <= n <= |fs| && Unfinished(fs, n - 1) && IsBody(fs[n - 1])
    requires fs[0].payload.bodySize < |Flatten(Fragments(fs[1..n]))|
    ensures forall k: nat :: !WholeMessage(fs, k)
    ensures forall k: nat :: k >= n ==> !Unfinished(fs, k)
  {
    hide Flatten;
    NotWholeYet(fs, n - 1);
    forall k: nat | k >= n ensures !Unfinished(fs, k) {
      if Unfinished(fs, k) { FragmentsGrow(fs, n, k); }
    }
    forall k: nat ensures !WholeMessage(fs, k) {
      if WholeMessage(fs, k) { FragmentsGrow(fs, n, k); }
    }
  }

  // ---- There and back ----

  lemma CanonBodies(fs: seq<Frame>)
    requires forall i :: 0 <= i < |fs| ==> IsBody(fs[i])
    ensures CanonFrames(fs) == fs
  {
    if fs != [] {
      CanonBodies(fs[1..]);
      assert fs == [fs[0]] + fs[1..];
    }
  }

  lemma BodiesFit(frameMax: nat, channel: nat, chunks: seq<Bytes>, body: Bytes)
    requires 8 < frameMax <= INT32_MAX && channel < 65536 && Cut(chunks, body, frameMax - 8)
    ensures var bodies := FramesOf(BodySent(channel, chunks, frameMax - 8));
      AllFit(frameMax, bodies) && (forall i :: 0 <= i < |bodies| ==> IsBody(bodies[i])) && Fragments(bodies) == chunks
  {
    hide WireFrame, WellFormed;
    var bodies := FramesOf(BodySent(channel, chunks, frameMax - 8));
    forall i | 0 <= i < |bodies| ensures Fits(frameMax, bodies[i]) {
      BodyFits(channel, chunks[i]);
    }
    assert Fragments(bodies) == chunks;
  }

  /** Whatever `Publish` sends, a parser with the same frame_max accepts. */
  lemma PublishedFits(p: Publication, chunks: seq<Bytes>, frameMax: nat)
    requires 8 < frameMax <= INT32_MAX && p.channel < 65536 && Cut(chunks, p.body, frameMax - 8)
    requires Sendable(MethodFrame(p), frameMax) && Sendable(HeaderFrame(p), frameMax)
    ensures AllFit(frameMax, FramesOf(Published(p, chunks, frameMax - 8)))
  {
    hide WireFrame, WellFormed;
    BodiesFit(frameMax, p.channel, chunks, p.body);
    var bodies := FramesOf(BodySent(p.channel, chunks, frameMax - 8));
    var sent := FramesOf(Published(p, chunks, frameMax - 8));
    var first := [MethodFrame(p), HeaderFrame(p)];
    assert AllFit(frameMax, first) by { hide MethodFrame, HeaderFrame; }
    assert sent == first + bodies;
    AllFitConcat(frameMax, first, bodies);
  }

  lemma AllFitConcat(frameMax: nat, a: seq<Frame>, b: seq<Frame>)
    requires AllFit(frameMax, a) && AllFit(frameMax, b)
    ensures AllFit(frameMax, a + b)
  {
    hide Fits;
  }

  /** The header and the bodies are a whole message. */
  lemma WholeBody(h: Frame, chunks: seq<Bytes>, body: Bytes, usable: nat, bodies: seq<Frame>)
    requires IsHeader(h) && h.payload.bodySize == |body| && Cut(chunks, body, usable)
    requires (forall i :: 0 <= i < |bodies| ==> IsBody(bodies[i])) && Fragments(bodies) == chunks
    ensures WholeMessage([h] + bodies, |bodies| + 1)
  {
    hide Flatten;
    var got := [h] + bodies;
    assert got[1..|bodies| + 1] == bodies;
    if chunks != [] {
      FlattenLast(chunks);
      assert Fragments(got[1..|got| - 1]) == chunks[..|chunks| - 1];
    }
    assert Fragments(got[1..|bodies| + 1]) == chunks;
  }

  /** Only one prefix of the frames is a whole message. */
  lemma WholeUnique(fs: seq<Frame>, j: nat, k: nat)
    requires WholeMessage(fs, j) && WholeMessage(fs, k)
    ensures j == k
  {
    hide Flatten;
    if j < k {
      FragmentsGrow(fs, j, k - 1);
    } else if k < j {
      FragmentsGrow(fs, k, j - 1);
    }
  }

  /** The frames a publication arrives as. */
  predicate Arrived(fs: seq<Frame>, p: Publication, chunks: seq<Bytes>) {
    && |fs| == |chunks| + 2
    && fs[0] == Frame(p.channel, Method(0x003C0028,
         [Int(0), Text(p.exchange), Text(p.routingKey), Booleans([Flag(p.mandatory), Flag(p.immediate)])]))
    && fs[1] == Frame(p.channel, Header(60, |p.body|, Chained(p.flags), p.props))
    && forall i :: 0 <= i < |chunks| ==> fs[i + 2] == Frame(p.channel, Body(chunks[i]))
  }

  /** The pieces are the bytes of a publication, cut somehow. */
  ghost predicate CarriesPublication(pieces: seq<Bytes>, p: Publication, chunks: seq<Bytes>, frameMax: nat) {
    && 8 < frameMax <= INT32_MAX && Publishable(p) && Cut(chunks, p.body, frameMax - 8)
    && NamesFit(p, frameMax) && PropertiesFit(p, frameMax)
    && AllWellFormed(FramesOf(Published(p, chunks, frameMax - 8)))
    && Flatten(pieces) == WireAll(FramesOf(Published(p, chunks, frameMax - 8)))
  }

  /** A method, then a whole message with the published properties and body. */
  ghost predicate ReadsAs(fs: seq<Frame>, p: Publication, chunks: seq<Bytes>) {
    Arrived(fs, p, chunks) && WholeMessage(fs[1..], |chunks| + 1) && Fragments(fs[2..]) == chunks
  }

  /** Frames as `Publish` sends them, cut anywhere on their way, come out of the parser as published. */
  lemma PublishedIsRead(p: Publication, chunks: seq<Bytes>, frameMax: nat, pieces: seq<Bytes>)
    requires CarriesPublication(pieces, p, chunks, frameMax)
    ensures RunPieces(frameMax, IDLE, pieces).0 == IDLE
    ensures ReadsAs(RunPieces(frameMax, IDLE, pieces).1, p, chunks)
  {
    var sent := FramesOf(Published(p, chunks, frameMax - 8));
    MethodOnTheWire(p, frameMax);
    HeaderOnTheWire(p, frameMax);
    hide WireFrame, WireAll, RunPieces, Flatten, FramesOf, Published, NamesFit, PropertiesFit, MethodFrame, HeaderFrame,
        Sendable, AllWellFormed, AllFit, ReadsAs;
    PublishedFits(p, chunks, frameMax);
    AnyCutsDeliver(frameMax, sent, pieces);
    CanonPublished(p, chunks, frameMax - 8);
    hide Cut, Publishable;
    WholeDelivered(p, chunks, frameMax - 8, RunPieces(frameMax, IDLE, pieces).1);
  }

  lemma WholeDelivered(p: Publication, chunks: seq<Bytes>, usable: nat, fs: seq<Frame>)
    requires Publishable(p) && Cut(chunks, p.body, usable)
    requires var bodies := FramesOf(BodySent(p.channel, chunks, usable));
      fs == [CanonFrame(MethodFrame(p))] + ([CanonFrame(HeaderFrame(p))] + bodies)
    ensures ReadsAs(fs, p, chunks)
  {
    var m, h, bodies := CanonFrame(MethodFrame(p)), CanonFrame(HeaderFrame(p)),
        FramesOf(BodySent(p.channel, chunks, usable));
    BodiesAre(p.channel, chunks, usable);
    HeaderReceived(p);
    BodiesArrive(p, chunks, usable, fs);
    hide WholeMessage, Cut, Publishable, CanonFrame, BodySent, FramesOf, Arrived, MethodFrame, HeaderFrame;
    WholeBody(h, chunks, p.body, usable, bodies);
    assert fs[1..] == [h] + bodies && fs[2..] == bodies;
  }

  lemma BodiesAre(channel: nat, chunks: seq<Bytes>, usable: nat)
    ensures var bodies := FramesOf(BodySent(channel, chunks, usable));
      (forall i :: 0 <= i < |bodies| ==> IsBody(bodies[i])) && |bodies| == |chunks| && Fragments(bodies) == chunks
  {
  }

  lemma HeaderReceived(p: Publication)
    ensures IsHeader(CanonFrame(HeaderFrame(p))) && CanonFrame(HeaderFrame(p)).payload.bodySize == |p.body|
  {
  }

  lemma BodiesArrive(p: Publication, chunks: seq<Bytes>, usable: nat, fs: seq<Frame>)
    requires Publishable(p)
    requires var bodies := FramesOf(BodySent(p.channel, chunks, usable));
      fs == [CanonFrame(MethodFrame(p))] + ([CanonFrame(HeaderFrame(p))] + bodies)
    ensures Arrived(fs, p, chunks)
  {
    WhatIsReceived(p);
    hide MethodFrame, HeaderFrame, Publishable, CanonFrame, Chained, Flag;
    var bodies := FramesOf(BodySent(p.channel, chunks, usable));
    forall i | 0 <= i < |chunks| ensures fs[i + 2] == Frame(p.channel, Body(chunks[i])) {
      assert fs[i + 2] == bodies[i];
    }
  }

  lemma CanonPublished(p: Publication, chunks: seq<Bytes>, usable: nat)
    ensures var bodies := FramesOf(BodySent(p.channel, chunks, usable));
      CanonFrames(FramesOf(Published(p, chunks, usable)))
        == [CanonFrame(MethodFrame(p))] + ([CanonFrame(HeaderFrame(p))] + bodies)
  {
    var m, h, bodies := MethodFrame(p), HeaderFrame(p), FramesOf(BodySent(p.channel, chunks, usable));
    hide MethodFrame, HeaderFrame;
    assert FramesOf(Published(p, chunks, usable)) == [m, h] + bodies;
    CanonBodies(bodies);
    CanonTwoMore(m, h, bodies);
  }

  /** A whole message is read in full, and no more than it. */
  method ReadWhole(fs: seq<Frame>, ghost k: nat) returns (r: Reply, used: nat)
    requires WholeMessage(fs, k)
    ensures used == k && r == Normal(AsRead(fs[0], Flatten(Fragments(fs[1..k]))))
  {
    hide Flatten;
    r, used := ReadMessage(fs);
    WholeUnique(fs, used, k);
  }

  function AsRead(h: Frame, body: Bytes): Message
    requires IsHeader(h)
  {
    Message(h.payload.flags, h.payload.props, body)
  }

  lemma PublicationRuns(p: Publication, chunks: seq<Bytes>, frameMax: nat, pieces: seq<Bytes>) returns (fs: seq<Frame>)
    requires CarriesPublication(pieces, p, chunks, frameMax)
    ensures Run(frameMax, IDLE, Flatten(pieces)) == (IDLE, fs)
    ensures Arrived(fs, p, chunks) && WholeMessage(fs[1..], |chunks| + 1)
    ensures Flatten(Fragments(fs[1..][1..|chunks| + 1])) == p.body
  {
    PublishedIsRead(p, chunks, frameMax, pieces);
    assert Flatten(chunks) == p.body && frameMax <= INT32_MAX;
    hide RunPieces, Run, CarriesPublication, WholeMessage, Flatten;
    CutsDoNotMatter(frameMax, IDLE, pieces);
    fs := RunPieces(frameMax, IDLE, pieces).1;
    assert fs[1..][1..|chunks| + 1] == fs[2..];
  }

  /** Publishing and reading a message on one channel, end to end: whatever the cuts, the reader gets the
      published properties and body, and the parser is idle again. */
  method ReadPublished(p: Publication, ghost chunks: seq<Bytes>, conn: AmqpConnection.Connection, pieces: seq<Bytes>)
    returns (r: Reply, used: nat)
    requires conn.Valid() && conn.Abstract() == IDLE && CarriesPublication(pieces, p, chunks, conn.frameMax)
    modifies conn, conn.headerBuffer, conn.inbound
    ensures conn.Valid() && conn.Abstract() == IDLE
    ensures r == Normal(Message(Chained(p.flags), p.props, p.body)) && used == |chunks| + 1
  {
    hide WireAll, Run, Flatten, CarriesPublication, Chained;
    ghost var fs := PublicationRuns(p, chunks, conn.frameMax, pieces);
    var frames := conn.Feed(pieces);
    hide WholeMessage, AmqpConnection.Connection.Valid, AmqpConnection.Connection.Abstract;
    r, used := ReadWhole(frames[1..], |chunks| + 1);
  }

  lemma CanonTwoMore(m: Frame, h: Frame, bodies: seq<Frame>)
    ensures CanonFrames([m, h] + bodies) == [CanonFrame(m)] + ([CanonFrame(h)] + CanonFrames(bodies))
  {
    hide CanonFrame;
    var all := [m, h] + bodies;
    assert all[1..] == [h] + bodies && all[1..][1..] == bodies;
  }

  lemma FlattenLast(chunks: seq<Bytes>)
    requires chunks != []
    ensures |Flatten(chunks)| == |Flatten(chunks[..|chunks| - 1])| + |chunks[|chunks| - 1]|
  {
    hide Flatten;
    var init, last := chunks[..|chunks| - 1], chunks[|chunks| - 1];
    assert init + [last] == chunks;
    FlattenSnoc(init, last);
  }
}
