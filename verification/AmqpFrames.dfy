/** AMQP frames as bytes: type, channel, size, payload, end mark (AMQP 0-9-1 section 4.2.3), as written by
    `amqp_frame_to_bytes` and taken apart once complete by `amqp_handle_input`
    (rabbitMQ_C/amqp_connection.c). */
module AmqpFrames {
  import opened Common
  import opened Octets
  import opened AmqpCodec

  const HEADER_SIZE := 7
  const FOOTER_SIZE := 1
  const FRAME_METHOD: byte := 1
  const FRAME_HEADER: byte := 2
  const FRAME_BODY: byte := 3
  const FRAME_HEARTBEAT: byte := 8
  const FRAME_END: byte := 206
  const INT32_MAX := 0x7FFFFFFF

  datatype Payload =
    | Method(id: nat, args: seq<Field>)
    | Header(classId: nat, bodySize: nat, flags: nat, props: seq<Field>)
    | Body(fragment: Bytes)
    | Heartbeat

  datatype Frame = Frame(channel: nat, payload: Payload) | ProtocolHeader(version: Bytes)

  datatype Error = BadAmqpData | UnknownMethod | UnknownClass | TableNotModelled

  datatype Result<T> = Ok(value: T) | Err(error: Error)

  /** Bit 13 of the Basic flags announces a header table. */
  predicate HasTable(classId: nat, flags: nat) {
    classId == 60 && HasFlag(flags, 13)
  }

  /** The frame's members have their C types and every string fits its length prefix. */
  predicate WellFormed(f: Frame) {
    f.Frame? && f.channel < 65536 &&
    match f.payload
    case Method(id, args) =>
      id < 0x1_0000_0000 && Layout(id).Some? && AllTyped(Layout(id).value, args) && AllEncodable(Layout(id).value, args)
    case Header(c, size, flags, props) =>
      && KnownClass(c) && size < 0x1_0000_0000_0000_0000 && flags < 0x1_0000_0000 && !HasTable(c, flags)
      && AllTyped(PropertyKinds(c, flags), props) && AllEncodable(PropertyKinds(c, flags), props)
    case Body(_) => true
    case Heartbeat => true
  }

  function TypeOf(p: Payload): byte {
    match p
    case Method(_, _) => FRAME_METHOD
    case Header(_, _, _, _) => FRAME_HEADER
    case Body(_) => FRAME_BODY
    case Heartbeat => FRAME_HEARTBEAT
  }

  function PayloadBytes(p: Payload): Bytes
    requires WellFormed(Frame(0, p))
  {
    match p
    case Method(id, args) => BigEndian(4, id) + Wire(Layout(id).value, args)
    case Header(c, size, flags, props) =>
      BigEndian(2, c) + BigEndian(2, 0) + BigEndian(8, size) + FlagWords(flags) + Wire(PropertyKinds(c, flags), props)
    case Body(fragment) => fragment
    case Heartbeat => []
  }

  function WireFrame(f: Frame): (w: Bytes)
    requires WellFormed(f)
    ensures |w| == |PayloadBytes(f.payload)| + HEADER_SIZE + FOOTER_SIZE
  {
    var p := PayloadBytes(f.payload);
    [TypeOf(f.payload)] + BigEndian(2, f.channel) + BigEndian(4, |p|) + p + [FRAME_END]
  }

  /** What the receiver gets: booleans as 0 or 1 and each flag word's low bit as the chain mark. */
  function CanonFrame(f: Frame): Frame {
    match f
    case Frame(ch, Method(id, args)) => Frame(ch, Method(id, CanonAll(args)))
    case Frame(ch, Header(c, size, flags, props)) => Frame(ch, Header(c, size, Chained(flags), CanonAll(props)))
    case _ => f
  }

  /** The end of `amqp_handle_input`: a complete frame is taken apart; an unknown type is ignored. */
  function DecodeRaw(raw: Bytes): Result<Option<Frame>>
    requires |raw| >= HEADER_SIZE + FOOTER_SIZE
  {
    if raw[|raw| - 1] != FRAME_END then Err(BadAmqpData)
    else
      var ch, data := FromBigEndian(raw[1..3]), raw[..|raw| - 1];
      if raw[0] == FRAME_METHOD then DecodeMethod(ch, data)
      else if raw[0] == FRAME_HEADER then DecodeHeader(ch, data)
      else if raw[0] == FRAME_BODY then Ok(Some(Frame(ch, Body(data[HEADER_SIZE..]))))
      else if raw[0] == FRAME_HEARTBEAT then Ok(Some(Frame(ch, Heartbeat)))
      else Ok(None)
  }

  function DecodeMethod(ch: nat, data: Bytes): Result<Option<Frame>> {
    var id := DecodeInt(4, data, HEADER_SIZE);
    if id.None? then Err(BadAmqpData)
    else if Layout(id.value).None? then Err(UnknownMethod)
    else
      var args := Decode(Layout(id.value).value, data, HEADER_SIZE + 4);
      if args.None? then Err(BadAmqpData) else Ok(Some(Frame(ch, Method(id.value, args.value.0))))
  }

  function DecodeHeader(ch: nat, data: Bytes): Result<Option<Frame>> {
    var c, size, flags := DecodeInt(2, data, HEADER_SIZE), DecodeInt(8, data, HEADER_SIZE + 4),
        DecodeFlags(data, HEADER_SIZE + 12);
    if c.None? || size.None? || flags.None? then Err(BadAmqpData)
    else if !KnownClass(c.value) then Err(UnknownClass)
    else if HasTable(c.value, flags.value.0) then Err(TableNotModelled)
    else
      var props := Decode(PropertyKinds(c.value, flags.value.0), data, flags.value.1);
      if props.None? then Err(BadAmqpData)
      else Ok(Some(Frame(ch, Header(c.value, size.value, flags.value.0, props.value.0))))
  }

  lemma RadixOf4And8()
    ensures Radix(2) == 65536 && Radix(4) == 0x1_0000_0000 && Radix(8) == 0x1_0000_0000_0000_0000
  {
    assert Radix(2) == 65536;
    assert Radix(4) == 256 * Radix(3) && Radix(3) == 256 * Radix(2);
    assert Radix(6) == 256 * Radix(5) && Radix(5) == 256 * Radix(4);
    assert Radix(8) == 256 * Radix(7) && Radix(7) == 256 * Radix(6);
  }

  /** Where the parts of a frame's bytes stand. */
  lemma WireParts(f: Frame)
    requires WellFormed(f)
    ensures var p, w := PayloadBytes(f.payload), WireFrame(f);
      && w[0] == TypeOf(f.payload) && w[1..3] == BigEndian(2, f.channel) && w[3..7] == BigEndian(4, |p|)
      && w[|w| - 1] == FRAME_END && Stands(w[..|w| - 1], HEADER_SIZE, p) && w[..|w| - 1][HEADER_SIZE..] == p
  {
    var p, w := PayloadBytes(f.payload), WireFrame(f);
    assert w[..|w| - 1] == [TypeOf(f.payload)] + BigEndian(2, f.channel) + BigEndian(4, |p|) + p;
  }

  lemma MethodRoundTrip(ch: nat, id: nat, args: seq<Field>, data: Bytes)
    requires WellFormed(Frame(0, Method(id, args))) && Stands(data, HEADER_SIZE, PayloadBytes(Method(id, args)))
    ensures DecodeMethod(ch, data) == Ok(Some(Frame(ch, Method(id, CanonAll(args)))))
  {
    var kinds := Layout(id).value;
    RadixOf4And8();
    StandsParts(data, HEADER_SIZE, BigEndian(4, id), Wire(kinds, args));
    IntRoundTrip(4, id, data, HEADER_SIZE);
    FieldsRoundTrip(kinds, args, data, HEADER_SIZE + 4);
  }

  lemma HeaderParts(c: nat, size: nat, flags: nat, props: seq<Field>, data: Bytes)
    requires WellFormed(Frame(0, Header(c, size, flags, props)))
    requires Stands(data, HEADER_SIZE, PayloadBytes(Header(c, size, flags, props)))
    ensures Stands(data, HEADER_SIZE, BigEndian(2, c)) && Stands(data, HEADER_SIZE + 4, BigEndian(8, size))
    ensures Stands(data, HEADER_SIZE + 12, FlagWords(flags))
    ensures Stands(data, HEADER_SIZE + 12 + |FlagWords(flags)|, Wire(PropertyKinds(c, flags), props))
  {
    var a, b, d, e := BigEndian(2, c), BigEndian(2, 0), BigEndian(8, size), FlagWords(flags);
    StandsParts(data, HEADER_SIZE, a + b + d + e, Wire(PropertyKinds(c, flags), props));
    StandsParts(data, HEADER_SIZE, a + b + d, e);
    StandsParts(data, HEADER_SIZE, a + b, d);
    StandsParts(data, HEADER_SIZE, a, b);
  }

  /** The fixed part and the flags of a content header. */
  lemma HeaderNumbers(c: nat, size: nat, flags: nat, data: Bytes)
    requires KnownClass(c) && size < 0x1_0000_0000_0000_0000
    requires Stands(data, HEADER_SIZE, BigEndian(2, c)) && Stands(data, HEADER_SIZE + 4, BigEndian(8, size))
    requires Stands(data, HEADER_SIZE + 12, FlagWords(flags))
    ensures DecodeInt(2, data, HEADER_SIZE) == Some(c) && DecodeInt(8, data, HEADER_SIZE + 4) == Some(size)
    ensures DecodeFlags(data, HEADER_SIZE + 12) == Some((Chained(flags), HEADER_SIZE + 12 + |FlagWords(flags)|))
  {
    RadixOf4And8();
    IntRoundTrip(2, c, data, HEADER_SIZE);
    IntRoundTrip(8, size, data, HEADER_SIZE + 4);
    FlagsRoundTrip(flags, data, HEADER_SIZE + 12);
  }

  lemma HeaderRoundTrip(ch: nat, c: nat, size: nat, flags: nat, props: seq<Field>, data: Bytes)
    requires WellFormed(Frame(0, Header(c, size, flags, props)))
    requires Stands(data, HEADER_SIZE, PayloadBytes(Header(c, size, flags, props)))
    ensures DecodeHeader(ch, data) == Ok(Some(Frame(ch, Header(c, size, Chained(flags), CanonAll(props)))))
  {
    HeaderParts(c, size, flags, props, data);
    HeaderNumbers(c, size, flags, data);
    SameProperties(c, flags);
    SameFlag(flags, 13);
    FieldsRoundTrip(PropertyKinds(c, flags), props, data, HEADER_SIZE + 12 + |FlagWords(flags)|);
  }

  /** A complete frame decodes to what was sent, in canonical form. */
  lemma FrameRoundTrip(f: Frame)
    requires WellFormed(f)
    ensures DecodeRaw(WireFrame(f)) == Ok(Some(CanonFrame(f)))
  {
    WireParts(f);
    RadixOf4And8();
    BigEndianRoundTrip(2, f.channel);
    var w := WireFrame(f);
    match f.payload
    case Method(id, args) => MethodRoundTrip(f.channel, id, args, w[..|w| - 1]);
    case Header(c, size, flags, props) => HeaderRoundTrip(f.channel, c, size, flags, props, w[..|w| - 1]);
    case Body(_) =>
    case Heartbeat =>
  }
}
