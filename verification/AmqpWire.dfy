/** AMQP bytes written out (AMQP 0-9-1 sections 2.3.5, 4.2.3, 4.2.5 and 4.2.6), for frames, for the methods
    that carry messages, and for content headers. Nothing here speaks of an encoder: each lemma gives the
    octets themselves. */
module AmqpWire {
  import opened Common
  import opened Octets
  import opened AmqpCodec
  import opened AmqpFrames

  // ---- Integers and strings ----

  function B(n: nat): byte {
    (n % 256) as byte
  }

  function Octets2(n: nat): Bytes {
    [B(n / 256), B(n)]
  }

  function Octets4(n: nat): Bytes {
    [B(n / 0x100_0000), B(n / 0x1_0000), B(n / 256), B(n)]
  }

  function Octets8(n: nat): Bytes {
    Octets4(n / 0x1_0000_0000) + Octets4(n)
  }

  lemma BigEndianSteps(k: nat, n: nat)
    ensures BigEndian(k + 2, n) == BigEndian(k, n / 0x1_0000) + Octets2(n)
    ensures BigEndian(0, n) == [] && BigEndian(1, n) == [B(n)]
  {
    assert BigEndian(k + 1, n / 256) == BigEndian(k, n / 256 / 256) + [B(n / 256)];
    assert n / 256 / 256 == n / 0x1_0000;
  }

  lemma BigEndian2(n: nat)
    ensures BigEndian(2, n) == Octets2(n)
  {
    BigEndianSteps(0, n);
  }

  lemma BigEndian4(n: nat)
    ensures BigEndian(4, n) == Octets4(n)
  {
    BigEndianSteps(2, n);
    BigEndian2(n / 0x1_0000);
    assert n / 0x1_0000 / 256 == n / 0x100_0000;
  }

  lemma BigEndian8(n: nat)
    ensures BigEndian(8, n) == Octets8(n)
  {
    var m := n / 0x1_0000;
    BigEndianSteps(6, n);
    BigEndianSteps(4, m);
    assert m / 0x1_0000 == n / 0x1_0000_0000;
    BigEndian4(n / 0x1_0000_0000);
    assert m / 256 == n / 0x100_0000;
  }

  /** A string behind its length in one octet. */
  function Short(s: Bytes): Bytes
    requires |s| < 256
  {
    [|s| as byte] + s
  }

  lemma TextBytes(s: Bytes)
    requires |s| < 256
    ensures WireField(SHORT_STR, Text(s)) == Short(s)
  {
    BigEndianSteps(0, |s|);
  }

  /** Up to four booleans in one octet, the first in the lowest bit. */
  function Flag(b: int): nat {
    if b != 0 then 1 else 0
  }

  lemma BooleanBytes(a: int, b: int)
    ensures WireField(Bits(1), Booleans([a])) == [B(Flag(a))]
    ensures WireField(Bits(2), Booleans([a, b])) == [B(Flag(a) + 2 * Flag(b))]
  {
    assert PackBits([]) == 0;
    assert [a][1..] == [] && [a, b][1..] == [b] && [b][1..] == [];
    assert PackBits([b]) == Flag(b) && PackBits([a]) == Flag(a);
    assert PackBits([a, b]) == Flag(a) + 2 * Flag(b);
  }

  // ---- Arguments one after the other ----

  lemma WireCons(kind: Kind, f: Field, kinds: seq<Kind>, fields: seq<Field>)
    requires Typed(kind, f) && AllTyped(kinds, fields)
    ensures AllTyped([kind] + kinds, [f] + fields)
    ensures Wire([kind] + kinds, [f] + fields) == WireField(kind, f) + Wire(kinds, fields)
  {
    assert ([kind] + kinds)[1..] == kinds && ([f] + fields)[1..] == fields;
  }

  lemma WireOne(kind: Kind, f: Field)
    requires Typed(kind, f)
    ensures AllTyped([kind], [f]) && Wire([kind], [f]) == WireField(kind, f)
  {
    assert Wire([], []) == [];
    assert [kind] + [] == [kind] && [f] + [] == [f];
    WireCons(kind, f, [], []);
  }

  lemma WireTwo(k1: Kind, f1: Field, k2: Kind, f2: Field)
    requires Typed(k1, f1) && Typed(k2, f2)
    ensures AllTyped([k1, k2], [f1, f2]) && Wire([k1, k2], [f1, f2]) == WireField(k1, f1) + WireField(k2, f2)
  {
    hide Wire, WireField, Typed;
    WireOne(k2, f2);
    assert [k1] + [k2] == [k1, k2] && [f1] + [f2] == [f1, f2];
    WireCons(k1, f1, [k2], [f2]);
  }

  lemma WireThree(k1: Kind, f1: Field, k2: Kind, f2: Field, k3: Kind, f3: Field)
    requires Typed(k1, f1) && Typed(k2, f2) && Typed(k3, f3)
    ensures AllTyped([k1, k2, k3], [f1, f2, f3])
    ensures Wire([k1, k2, k3], [f1, f2, f3]) == WireField(k1, f1) + WireField(k2, f2) + WireField(k3, f3)
  {
    hide Wire, WireField, Typed;
    WireTwo(k2, f2, k3, f3);
    assert [k1] + [k2, k3] == [k1, k2, k3] && [f1] + [f2, f3] == [f1, f2, f3];
    WireCons(k1, f1, [k2, k3], [f2, f3]);
    Regroup(WireField(k1, f1), WireField(k2, f2), WireField(k3, f3));
  }

  lemma Regroup(a: Bytes, b: Bytes, c: Bytes)
    ensures a + (b + c) == a + b + c
  {
  }

  lemma WireFour(k1: Kind, f1: Field, k2: Kind, f2: Field, k3: Kind, f3: Field, k4: Kind, f4: Field)
    requires Typed(k1, f1) && Typed(k2, f2) && Typed(k3, f3) && Typed(k4, f4)
    ensures AllTyped([k1, k2, k3, k4], [f1, f2, f3, f4])
    ensures Wire([k1, k2, k3, k4], [f1, f2, f3, f4])
         == WireField(k1, f1) + WireField(k2, f2) + WireField(k3, f3) + WireField(k4, f4)
  {
    hide Wire, WireField, Typed;
    WireThree(k2, f2, k3, f3, k4, f4);
    assert [k1] + [k2, k3, k4] == [k1, k2, k3, k4] && [f1] + [f2, f3, f4] == [f1, f2, f3, f4];
    WireCons(k1, f1, [k2, k3, k4], [f2, f3, f4]);
    Regroup(WireField(k1, f1), WireField(k2, f2) + WireField(k3, f3), WireField(k4, f4));
    Regroup(WireField(k1, f1), WireField(k2, f2), WireField(k3, f3));
  }

  lemma WireFive(k1: Kind, f1: Field, k2: Kind, f2: Field, k3: Kind, f3: Field, k4: Kind, f4: Field,
                 k5: Kind, f5: Field)
    requires Typed(k1, f1) && Typed(k2, f2) && Typed(k3, f3) && Typed(k4, f4) && Typed(k5, f5)
    ensures AllTyped([k1, k2, k3, k4, k5], [f1, f2, f3, f4, f5])
    ensures Wire([k1, k2, k3, k4, k5], [f1, f2, f3, f4, f5])
         == WireField(k1, f1) + WireField(k2, f2) + WireField(k3, f3) + WireField(k4, f4) + WireField(k5, f5)
  {
    hide Wire, WireField, Typed;
    WireFour(k2, f2, k3, f3, k4, f4, k5, f5);
    assert [k1] + [k2, k3, k4, k5] == [k1, k2, k3, k4, k5] && [f1] + [f2, f3, f4, f5] == [f1, f2, f3, f4, f5];
    WireCons(k1, f1, [k2, k3, k4, k5], [f2, f3, f4, f5]);
    var a, b, c, d, e := WireField(k1, f1), WireField(k2, f2), WireField(k3, f3), WireField(k4, f4), WireField(k5, f5);
    Regroup(a, b + c + d, e);
    Regroup(a, b + c, d);
    Regroup(a, b, c);
  }

  // ---- Methods ----

  /** The payload of a method frame: class, method, arguments. */
  ghost predicate MethodIs(classId: nat, methodId: nat, args: seq<Field>, w: Bytes)
    requires classId < 65536 && methodId < 65536
  {
    var m := Method(classId * 65536 + methodId, args);
    WellFormed(Frame(0, m)) && PayloadBytes(m) == Octets2(classId) + Octets2(methodId) + w
  }

  lemma MethodBytes(classId: nat, methodId: nat, kinds: seq<Kind>, args: seq<Field>)
    requires classId < 65536 && methodId < 65536 && Layout(classId * 65536 + methodId) == Some(kinds)
    requires AllTyped(kinds, args) && AllEncodable(kinds, args)
    ensures MethodIs(classId, methodId, args, Wire(kinds, args))
  {
    hide Layout, Wire, AllTyped, AllEncodable, BigEndian;
    BigEndian4(classId * 65536 + methodId);
    NumberBytes(classId, methodId);
  }

  lemma NumberBytes(classId: nat, methodId: nat)
    requires classId < 65536 && methodId < 65536
    ensures Octets4(classId * 65536 + methodId) == Octets2(classId) + Octets2(methodId)
    ensures classId * 65536 + methodId < 0x1_0000_0000
  {
    var id := classId * 65536 + methodId;
    assert id / 0x1_0000 == classId && id % 0x1_0000 == methodId;
    assert id / 256 == classId * 256 + methodId / 256;
    assert id / 0x100_0000 == classId / 256;
  }

  /** basic.publish: a reserved ticket, exchange, routing key, and the bits mandatory and immediate. */
  lemma PublishBytes(ticket: nat, exchange: Bytes, key: Bytes, mandatory: int, immediate: int)
    requires ticket < 65536 && |exchange| < 256 && |key| < 256
    ensures MethodIs(60, 40, [Int(ticket), Text(exchange), Text(key), Booleans([mandatory, immediate])],
      Octets2(ticket) + Short(exchange) + Short(key) + [B(Flag(mandatory) + 2 * Flag(immediate))])
  {
    RadixOf1And2And4And8();
    var kinds := [U16, SHORT_STR, SHORT_STR, Bits(2)];
    var args := [Int(ticket), Text(exchange), Text(key), Booleans([mandatory, immediate])];
    assert Layout(60 * 65536 + 40) == Some(kinds);
    BigEndian2(ticket);
    TextBytes(exchange);
    TextBytes(key);
    BooleanBytes(mandatory, immediate);
    hide Layout, PackBits, BigEndian;
    WireFour(U16, args[0], SHORT_STR, args[1], SHORT_STR, args[2], Bits(2), args[3]);
    MethodBytes(60, 40, kinds, args);
  }

  /** basic.deliver: consumer tag, delivery tag, redelivered, exchange, routing key. */
  lemma DeliverBytes(consumer: Bytes, tag: nat, redelivered: int, exchange: Bytes, key: Bytes)
    requires |consumer| < 256 && tag < 0x1_0000_0000_0000_0000 && |exchange| < 256 && |key| < 256
    ensures MethodIs(60, 60, [Text(consumer), Int(tag), Booleans([redelivered]), Text(exchange), Text(key)],
      Short(consumer) + Octets8(tag) + [B(Flag(redelivered))] + Short(exchange) + Short(key))
  {
    RadixOf1And2And4And8();
    var kinds := [SHORT_STR, U64, Bits(1), SHORT_STR, SHORT_STR];
    var args := [Text(consumer), Int(tag), Booleans([redelivered]), Text(exchange), Text(key)];
    assert Layout(60 * 65536 + 60) == Some(kinds);
    BigEndian8(tag);
    TextBytes(consumer);
    TextBytes(exchange);
    TextBytes(key);
    BooleanBytes(redelivered, 0);
    hide Layout, PackBits, BigEndian;
    WireFive(SHORT_STR, args[0], U64, args[1], Bits(1), args[2], SHORT_STR, args[3], SHORT_STR, args[4]);
    MethodBytes(60, 60, kinds, args);
  }

  /** basic.get-ok: delivery tag, redelivered, exchange, routing key, messages left. */
  lemma GetOkBytes(tag: nat, redelivered: int, exchange: Bytes, key: Bytes, left: nat)
    requires tag < 0x1_0000_0000_0000_0000 && |exchange| < 256 && |key| < 256 && left < 0x1_0000_0000
    ensures MethodIs(60, 71, [Int(tag), Booleans([redelivered]), Text(exchange), Text(key), Int(left)],
      Octets8(tag) + [B(Flag(redelivered))] + Short(exchange) + Short(key) + Octets4(left))
  {
    RadixOf1And2And4And8();
    var kinds := [U64, Bits(1), SHORT_STR, SHORT_STR, U32];
    var args := [Int(tag), Booleans([redelivered]), Text(exchange), Text(key), Int(left)];
    assert Layout(60 * 65536 + 71) == Some(kinds);
    BigEndian8(tag);
    BigEndian4(left);
    TextBytes(exchange);
    TextBytes(key);
    BooleanBytes(redelivered, 0);
    hide Layout, PackBits, BigEndian;
    WireFive(U64, args[0], Bits(1), args[1], SHORT_STR, args[2], SHORT_STR, args[3], U32, args[4]);
    MethodBytes(60, 71, kinds, args);
  }

  /** basic.return: reply code and text, exchange, routing key. */
  lemma ReturnBytes(code: nat, text: Bytes, exchange: Bytes, key: Bytes)
    requires code < 65536 && |text| < 256 && |exchange| < 256 && |key| < 256
    ensures MethodIs(60, 50, [Int(code), Text(text), Text(exchange), Text(key)],
      Octets2(code) + Short(text) + Short(exchange) + Short(key))
  {
    RadixOf1And2And4And8();
    var kinds := [U16, SHORT_STR, SHORT_STR, SHORT_STR];
    var args := [Int(code), Text(text), Text(exchange), Text(key)];
    assert Layout(60 * 65536 + 50) == Some(kinds);
    BigEndian2(code);
    TextBytes(text);
    TextBytes(exchange);
    TextBytes(key);
    hide Layout, BigEndian;
    WireFour(U16, args[0], SHORT_STR, args[1], SHORT_STR, args[2], SHORT_STR, args[3]);
    MethodBytes(60, 50, kinds, args);
  }

  /** A delivery tag and a boolean. */
  lemma TagAndBit(tag: nat, b: int)
    requires tag < 0x1_0000_0000_0000_0000
    ensures AllTyped([U64, Bits(1)], [Int(tag), Booleans([b])])
    ensures Wire([U64, Bits(1)], [Int(tag), Booleans([b])]) == Octets8(tag) + [B(Flag(b))]
  {
    RadixOf1And2And4And8();
    BigEndian8(tag);
    BooleanBytes(b, 0);
    hide PackBits, BigEndian;
    WireTwo(U64, Int(tag), Bits(1), Booleans([b]));
  }

  /** basic.ack: delivery tag, multiple. basic.reject: delivery tag, requeue. */
  lemma AckBytes(tag: nat, multiple: int, requeue: int)
    requires tag < 0x1_0000_0000_0000_0000
    ensures MethodIs(60, 80, [Int(tag), Booleans([multiple])], Octets8(tag) + [B(Flag(multiple))])
    ensures MethodIs(60, 90, [Int(tag), Booleans([requeue])], Octets8(tag) + [B(Flag(requeue))])
  {
    var kinds := [U64, Bits(1)];
    assert Layout(60 * 65536 + 80) == Some(kinds) == Layout(60 * 65536 + 90);
    hide Layout, Wire, WireField, MethodIs;
    TagAndBit(tag, multiple);
    TagAndBit(tag, requeue);
    MethodBytes(60, 80, kinds, [Int(tag), Booleans([multiple])]);
    MethodBytes(60, 90, kinds, [Int(tag), Booleans([requeue])]);
  }

  /** basic.nack: delivery tag, multiple, requeue. */
  lemma NackBytes(tag: nat, multiple: int, requeue: int)
    requires tag < 0x1_0000_0000_0000_0000
    ensures MethodIs(60, 120, [Int(tag), Booleans([multiple, requeue])],
      Octets8(tag) + [B(Flag(multiple) + 2 * Flag(requeue))])
  {
    RadixOf1And2And4And8();
    assert Layout(60 * 65536 + 120) == Some([U64, Bits(2)]);
    BigEndian8(tag);
    BooleanBytes(multiple, requeue);
    hide Layout, PackBits, BigEndian, MethodIs;
    WireTwo(U64, Int(tag), Bits(2), Booleans([multiple, requeue]));
    MethodBytes(60, 120, [U64, Bits(2)], [Int(tag), Booleans([multiple, requeue])]);
  }

  /** connection.tune and tune-ok: channel-max, frame-max, heartbeat. */
  lemma TuneBytes(channels: nat, frame: nat, heartbeat: nat, m: nat)
    requires channels < 65536 && frame < 0x1_0000_0000 && heartbeat < 65536 && m in {30, 31}
    ensures MethodIs(10, m, [Int(channels), Int(frame), Int(heartbeat)],
      Octets2(channels) + Octets4(frame) + Octets2(heartbeat))
  {
    RadixOf1And2And4And8();
    assert Layout(10 * 65536 + m) == Some([U16, U32, U16]);
    BigEndian2(channels);
    BigEndian4(frame);
    BigEndian2(heartbeat);
    hide Layout, BigEndian, MethodIs;
    WireThree(U16, Int(channels), U32, Int(frame), U16, Int(heartbeat));
    MethodBytes(10, m, [U16, U32, U16], [Int(channels), Int(frame), Int(heartbeat)]);
  }

  /** connection.close and channel.close: reply code and text, and the class and method that failed. */
  lemma CloseBytes(code: nat, text: Bytes, class': nat, method': nat)
    requires code < 65536 && |text| < 256 && class' < 65536 && method' < 65536
    ensures var args := [Int(code), Text(text), Int(class'), Int(method')];
      var w := Octets2(code) + Short(text) + Octets2(class') + Octets2(method');
      MethodIs(10, 50, args, w) && MethodIs(20, 40, args, w)
  {
    RadixOf1And2And4And8();
    var kinds, args := [U16, SHORT_STR, U16, U16], [Int(code), Text(text), Int(class'), Int(method')];
    assert Layout(10 * 65536 + 50) == Some(kinds) == Layout(20 * 65536 + 40);
    BigEndian2(code);
    TextBytes(text);
    BigEndian2(class');
    BigEndian2(method');
    hide Layout, BigEndian, MethodIs;
    WireFour(U16, args[0], SHORT_STR, args[1], U16, args[2], U16, args[3]);
    MethodBytes(10, 50, kinds, args);
    MethodBytes(20, 40, kinds, args);
  }

  // ---- Frames ----

  /** Type, channel, size, payload, end mark. */
  lemma FrameBytes(f: Frame)
    requires WellFormed(f)
    ensures var p := PayloadBytes(f.payload);
      WireFrame(f) == [FrameType(f.payload)] + Octets2(f.channel) + Octets4(|p|) + p + [206]
    ensures f.payload.Body? ==> PayloadBytes(f.payload) == f.payload.fragment
    ensures f.payload.Heartbeat? ==> PayloadBytes(f.payload) == []
  {
    BigEndian2(f.channel);
    BigEndian4(|PayloadBytes(f.payload)|);
    hide BigEndian;
  }

  function FrameType(p: Payload): byte {
    if p.Method? then 1 else if p.Header? then 2 else if p.Body? then 3 else 8
  }

  /** A content header: class, weight 0, body size, one flag word or two, and the properties. Bit 0 of the
      first word says whether there is a second. */
  lemma HeaderBytes(c: nat, size: nat, flags: nat, props: seq<Field>)
    requires WellFormed(Frame(0, Header(c, size, flags, props)))
    ensures PayloadBytes(Header(c, size, flags, props))
         == Octets2(c) + [0, 0] + Octets8(size) + WordBytes(flags) + Wire(PropertyKinds(c, flags), props)
  {
    BigEndian2(c);
    BigEndian2(0);
    BigEndian8(size);
    WordsWrittenOut(flags);
    hide BigEndian, FlagWords, WordBytes, Wire, PropertyKinds, AllTyped;
    assert Octets2(0) == [0, 0];
  }

  function WordBytes(flags: nat): Bytes {
    if flags < 0x1_0000 then Octets2(flags / 2 * 2)
    else Octets2(flags % 0x1_0000 / 2 * 2 + 1) + Octets2(flags / 0x1_0000 / 2 * 2)
  }

  lemma WordsWrittenOut(flags: nat)
    requires flags < 0x1_0000_0000
    ensures FlagWords(flags) == WordBytes(flags)
  {
    var rest := flags / 0x1_0000;
    BigEndian2(FirstWord(flags));
    OneWord(rest);
    if rest == 0 {
      OneWord(flags);
    } else {
      assert FlagWords(flags) == BigEndian(2, FirstWord(flags)) + FlagWords(rest);
      hide BigEndian, FlagWords;
    }
  }

  lemma OneWord(flags: nat)
    requires flags < 0x1_0000
    ensures FlagWords(flags) == Octets2(flags / 2 * 2)
  {
    BigEndian2(FirstWord(flags));
    hide BigEndian;
    assert FirstWord(flags) == flags / 2 * 2;
    assert FlagWords(flags) == BigEndian(2, FirstWord(flags)) + [];
  }

  // ---- The order of properties ----

  lemma {:induction false} FlagIsBit(flags: nat, b: nat)
    ensures HasFlag(flags, b) <==> Bit(flags, b) == 1
  {
    BitBelow(flags, b);
    if b > 0 { FlagIsBit(flags / 2, b - 1); }
  }

  predicate Present(flags: nat, b: nat) {
    b <= 15 && Bit(flags, b) == 1 && PropertyKind(b).Some?
  }

  /** How many properties have a flag above bit `b` and at most bit `top`. */
  function PresentBetween(flags: nat, b: nat, top: nat): nat
    decreases top
  {
    if top <= b then 0 else PresentBetween(flags, b, top - 1) + if Present(flags, top) then 1 else 0
  }

  lemma {:induction false} PlaceFrom(flags: nat, b: nat, top: nat)
    requires 2 <= b <= top <= 15 && Present(flags, b)
    ensures var i := PresentBetween(flags, b, top);
      i < |KindsFrom(flags, top)| && KindsFrom(flags, top)[i] == PropertyKind(b).value
  {
    hide Bit;
    FlagIsBit(flags, top);
    if b < top {
      PlaceFrom(flags, b, top - 1);
    }
  }

  /** A property stands behind exactly those with a higher flag bit. */
  lemma PropertyPlace(flags: nat, b: nat)
    requires 2 <= b && Present(flags, b)
    ensures var i := PresentBetween(flags, b, 15);
      i < |PropertyKinds(60, flags)| && PropertyKinds(60, flags)[i] == PropertyKind(b).value
  {
    PlaceFrom(flags, b, 15);
  }

  /** So of two properties the one with the higher flag bit stands first. */
  lemma {:induction false} HigherComesFirst(flags: nat, b: nat, c: nat, top: nat)
    requires 2 <= b < c <= top && Present(flags, c)
    ensures PresentBetween(flags, c, top) < PresentBetween(flags, b, top)
    decreases top
  {
    if c < top {
      HigherComesFirst(flags, b, c, top - 1);
    } else {
      assert PresentBetween(flags, c, top) == 0;
    }
  }

  lemma Powers()
    ensures Pow2(2) == 4 && Pow2(3) == 8 && Pow2(4) == 16 && Pow2(5) == 32 && Pow2(6) == 64 && Pow2(7) == 128
    ensures Pow2(8) == 256 && Pow2(9) == 512 && Pow2(10) == 1024 && Pow2(11) == 2048 && Pow2(12) == 4096
    ensures Pow2(13) == 8192 && Pow2(14) == 16384 && Pow2(15) == 32768
  {
  }

  lemma OneMoreKind(flags: nat, b: nat)
    requires 2 <= b <= 15
    ensures KindsFrom(flags, b) == (if Present(flags, b) then [PropertyKind(b).value] else []) + KindsFrom(flags, b - 1)
  {
    FlagIsBit(flags, b);
    hide Bit, HasFlag;
  }

  /** 0xDFFC: every flag but the header table's. */
  lemma EveryFlag(b: nat)
    requires 2 <= b <= 15
    ensures Present(0xDFFC, b) <==> b != 13
  {
    Powers();
    hide Pow2;
  }

  /** Timestamp, type, user, application, cluster. */
  lemma LowerProperties()
    ensures KindsFrom(0xDFFC, 6) == [U64, SHORT_STR, SHORT_STR, SHORT_STR, SHORT_STR]
  {
    hide HasFlag, Bit, Present;
    var n := 0xDFFC;
    assert KindsFrom(n, 1) == [];
    EveryFlag(2); EveryFlag(3); EveryFlag(4); EveryFlag(5); EveryFlag(6);
    OneMoreKind(n, 2); OneMoreKind(n, 3); OneMoreKind(n, 4); OneMoreKind(n, 5); OneMoreKind(n, 6);
    hide KindsFrom;
  }

  /** Before them: delivery mode, priority, correlation id, reply-to, expiration, message id. */
  lemma MiddleProperties()
    ensures KindsFrom(0xDFFC, 12) == [U8, U8, SHORT_STR, SHORT_STR, SHORT_STR, SHORT_STR] + KindsFrom(0xDFFC, 6)
  {
    hide HasFlag, Bit, Present;
    var n := 0xDFFC;
    EveryFlag(7); EveryFlag(8); EveryFlag(9); EveryFlag(10); EveryFlag(11); EveryFlag(12);
    OneMoreKind(n, 7); OneMoreKind(n, 8); OneMoreKind(n, 9); OneMoreKind(n, 10); OneMoreKind(n, 11); OneMoreKind(n, 12);
    hide KindsFrom;
  }

  /** And first content type and content encoding: all properties but the table, in their order. */
  lemma EveryProperty()
    ensures PropertyKinds(60, 0xDFFC)
         == [SHORT_STR, SHORT_STR, U8, U8, SHORT_STR, SHORT_STR, SHORT_STR, SHORT_STR, U64, SHORT_STR, SHORT_STR,
             SHORT_STR, SHORT_STR]
  {
    hide HasFlag, Bit, Present;
    var n := 0xDFFC;
    LowerProperties();
    MiddleProperties();
    EveryFlag(13); EveryFlag(14); EveryFlag(15);
    OneMoreKind(n, 13); OneMoreKind(n, 14); OneMoreKind(n, 15);
    hide KindsFrom;
  }

  lemma RadixOf1And2And4And8()
    ensures Radix(1) == 256
    ensures Radix(2) == 65536 && Radix(4) == 0x1_0000_0000 && Radix(8) == 0x1_0000_0000_0000_0000
  {
    RadixOf4And8();
    assert Radix(1) == 256 * Radix(0);
  }
}
