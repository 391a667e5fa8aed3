/** WebSocket frames from client to server (RFC 6455 sections 5.2 and 5.3): written with mask and length by
    include/client_ws.hpp, `send`, taken apart by include/server_ws.hpp, `read_message` and
    `read_message_content`. */
module WsFrames {
  import opened Common
  import opened Octets

  const TWO64 := 0x1_0000_0000_0000_0000

  type Mask = m: Bytes | |m| == 4 witness [0, 0, 0, 0]

  /** First byte (FIN, reserved bits, opcode) and unmasked payload. */
  datatype Frame = Frame(op: byte, payload: Bytes)

  // ---- Masking ----

  /** Bitwise exclusive or of `bits` bits. */
  function XorBits(a: nat, b: nat, bits: nat): (x: nat)
    ensures x < Pow2(bits)
  {
    if bits == 0 then 0 else (if a % 2 == b % 2 then 0 else 1) + 2 * XorBits(a / 2, b / 2, bits - 1)
  }

  lemma {:induction false} XorTwice(a: nat, b: nat, bits: nat)
    requires a < Pow2(bits)
    ensures XorBits(XorBits(a, b, bits), b, bits) == a
  {
    if bits > 0 {
      var x, y := a / 2, b / 2;
      XorTwice(x, y, bits - 1);
      var d, r := if a % 2 == b % 2 then 0 else 1, XorBits(x, y, bits - 1);
      LastBit(XorBits(a, b, bits), d, r);
      hide XorBits, Pow2;
      assert (if d == b % 2 then 0 else 1) == a % 2;
    }
  }

  lemma LastBit(n: nat, d: nat, r: nat)
    requires d <= 1
    ensures n == d + 2 * r ==> n % 2 == d && n / 2 == r
  {
  }

  /** Every bit of the result is the sum of the two bits, modulo 2. */
  lemma {:induction false} XorBit(a: nat, b: nat, bits: nat, i: nat)
    requires i < bits
    ensures Bit(XorBits(a, b, bits), i) == (Bit(a, i) + Bit(b, i)) % 2
  {
    hide Bit;
    var x, y := a / 2, b / 2;
    var n, d, r := XorBits(a, b, bits), if a % 2 == b % 2 then 0 else 1, XorBits(x, y, bits - 1);
    LastBit(n, d, r);
    BitBelow(n, i);
    BitBelow(a, i);
    BitBelow(b, i);
    if i > 0 { XorBit(x, y, bits - 1, i - 1); }
  }

  lemma Pow2Of8()
    ensures Pow2(8) == 256
  {
    assert Pow2(4) == 16;
  }

  function Xor(a: byte, b: byte): byte {
    Pow2Of8();
    XorBits(a as nat, b as nat, 8) as byte
  }

  lemma XorUndone(a: byte, b: byte)
    ensures Xor(Xor(a, b), b) == a
  {
    Pow2Of8();
    XorTwice(a as nat, b as nat, 8);
  }

  /** `put(get() ^ mask[c % 4])` for every byte. */
  function Masked(payload: Bytes, mask: Mask): (m: Bytes)
    ensures |m| == |payload|
  {
    seq(|payload|, i requires 0 <= i < |payload| => Xor(payload[i], mask[i % 4]))
  }

  lemma MaskTwice(payload: Bytes, mask: Mask)
    ensures Masked(Masked(payload, mask), mask) == payload
  {
    forall i | 0 <= i < |payload| ensures Masked(Masked(payload, mask), mask)[i] == payload[i] {
      XorUndone(payload[i], mask[i % 4]);
    }
  }

  lemma MaskedBit(payload: Bytes, mask: Mask, j: nat, i: nat)
    requires j < |payload| && i < 8
    ensures Bit(Masked(payload, mask)[j] as nat, i) == (Bit(payload[j] as nat, i) + Bit(mask[j % 4] as nat, i)) % 2
  {
    hide Bit;
    Pow2Of8();
    XorBit(payload[j] as nat, mask[j % 4] as nat, 8, i);
  }

  // ---- Length forms ----

  /** How many bytes of extended length follow the second byte. */
  function ExtraBytes(length: nat): nat {
    if length < 126 then 0 else if length <= 0xffff then 2 else 8
  }

  function LengthMark(length: nat): (m: nat)
    ensures m < 128
  {
    if length < 126 then length else if length <= 0xffff then 126 else 127
  }

  /** What the client writes for one frame. */
  function Wire(f: Frame, mask: Mask): Bytes {
    var n := |f.payload|;
    [f.op, (LengthMark(n) + 128) as byte] + BigEndian(ExtraBytes(n), n) + mask + Masked(f.payload, mask)
  }

  /** Where the mask begins. */
  function HeaderSize(n: nat): nat {
    if n < 126 then 2 else if n < 65536 then 4 else 10
  }

  /** The parts of a frame's bytes. */
  lemma WireParts(f: Frame, mask: Mask)
    ensures var w, n, h := Wire(f, mask), |f.payload|, HeaderSize(|f.payload|);
      && |w| == h + 4 + n && w[0] == f.op && w[1] as nat == 128 + LengthMark(n)
      && w[2..h] == BigEndian(h - 2, n) && w[h..h + 4] == mask && w[h + 4..] == Masked(f.payload, mask)
  {
    hide Masked, BigEndian;
    var n, masked := |f.payload|, Masked(f.payload, mask);
    var head, ext := [f.op, (LengthMark(n) + 128) as byte], BigEndian(ExtraBytes(n), n);
    assert Wire(f, mask) == head + ext + mask + masked;
  }

  lemma TwoBytes(n: nat)
    requires n < 65536
    ensures BigEndian(2, n) == [(n / 256) as byte, (n % 256) as byte]
  {
    assert BigEndian(1, n / 256) == BigEndian(0, n / 256 / 256) + [(n / 256 % 256) as byte];
  }

  /** The header written out: opcode byte, mask bit and length in one of its three forms. */
  lemma HeaderWrittenOut(f: Frame, mask: Mask)
    requires |f.payload| < TWO64
    ensures var w, n := Wire(f, mask), |f.payload|;
      && (n < 126 ==> w[..2] == [f.op, (128 + n) as byte])
      && (126 <= n < 65536 ==> w[..4] == [f.op, 254, (n / 256) as byte, (n % 256) as byte])
      && (65536 <= n ==> w[..2] == [f.op, 255])
      && (65536 <= n ==> forall k :: 0 <= k < 8 ==> w[2..10][k] as nat == n / Radix(7 - k) % 256)
  {
    WireParts(f, mask);
    var w, n, h := Wire(f, mask), |f.payload|, HeaderSize(|f.payload|);
    hide Wire, Masked;
    assert w[..2] == [w[0], w[1]] && w[..h] == w[..2] + w[2..h];
    if 126 <= n < 65536 {
      TwoBytes(n);
    } else if 65536 <= n {
      forall k | 0 <= k < 8 ensures w[2..10][k] as nat == n / Radix(7 - k) % 256 {
        BigEndianAt(8, n, k);
      }
    }
  }

  /** Behind header and mask stands every payload byte with the bits of its mask byte added. */
  lemma MaskWrittenOut(f: Frame, mask: Mask, j: nat, i: nat)
    requires j < |f.payload| && i < 8
    ensures var w, h := Wire(f, mask), HeaderSize(|f.payload|);
      && h + 4 + j < |w| && w[h..h + 4] == mask
      && Bit(w[h + 4 + j] as nat, i) == (Bit(f.payload[j] as nat, i) + Bit(mask[j % 4] as nat, i)) % 2
  {
    hide Bit;
    WireParts(f, mask);
    MaskedBit(f.payload, mask, j, i);
    var w, h := Wire(f, mask), HeaderSize(|f.payload|);
    assert w[h + 4..][j] == w[h + 4 + j];
  }

  lemma {:induction false} BigEndianAt(k: nat, n: nat, i: nat)
    requires i < k
    ensures BigEndian(k, n)[i] as nat == n / Radix(k - 1 - i) % 256
  {
    if i < k - 1 {
      BigEndianAt(k - 1, n / 256, i);
      DivTwice(n, 256, Radix(k - 2 - i));
    }
  }

  lemma DivTwice(n: nat, a: nat, b: nat)
    requires a > 0 && b > 0
    ensures n / a / b == n / (a * b)
  {
    var x, s := n / a, n % a;
    var q, r := x / b, x % b;
    NestedQuotient(n, a, b, x, s, q, r);
  }

  lemma NestedQuotient(n: nat, a: nat, b: nat, x: nat, s: nat, q: nat, r: nat)
    requires n == x * a + s && x == q * b + r && r < b && s < a
    ensures n / (a * b) == q
  {
    Regroup(q, a, b, r, s);
    Below(r, b, a, s);
    Quotient(n, a * b, q, r * a + s);
  }

  lemma Regroup(q: nat, a: nat, b: nat, r: nat, s: nat)
    ensures (q * b + r) * a + s == q * (a * b) + (r * a + s)
  {
    assert (q * b + r) * a == q * b * a + r * a;
  }

  lemma Below(r: nat, b: nat, a: nat, s: nat)
    requires r < b && s < a
    ensures r * a + s < a * b
  {
    assert (r + 1) * a <= b * a;
  }

  /** The header and masking of the client's `send`. */
  method Encode(op: byte, payload: Bytes, mask: Mask) returns (out: Bytes)
    requires |payload| < TWO64
    ensures out == Wire(Frame(op, payload), mask)
    ensures var n := |payload|;
      && |out| == HeaderSize(n) + 4 + n
      && (n < 126 ==> out[..2] == [op, (128 + n) as byte])
      && (126 <= n < 65536 ==> out[..4] == [op, 254, (n / 256) as byte, (n % 256) as byte])
      && (65536 <= n ==> out[..2] == [op, 255])
      && (65536 <= n ==> forall k :: 0 <= k < 8 ==> out[2..10][k] as nat == n / Radix(7 - k) % 256)
    ensures out[HeaderSize(|payload|)..HeaderSize(|payload|) + 4] == mask
    ensures forall j, i: nat {:trigger Bit(payload[j] as nat, i)} :: 0 <= j < |payload| && i < 8 ==>
      Bit(out[HeaderSize(|payload|) + 4 + j] as nat, i) == (Bit(payload[j] as nat, i) + Bit(mask[j % 4] as nat, i)) % 2
  {
    hide Wire, Masked, BigEndian, Bit, Radix;
    out := EncodeFrame(op, payload, mask);
    WireParts(Frame(op, payload), mask);
    HeaderWrittenOut(Frame(op, payload), mask);
    forall j, i: nat {:trigger Bit(payload[j] as nat, i)} | 0 <= j < |payload| && i < 8
      ensures Bit(out[HeaderSize(|payload|) + 4 + j] as nat, i)
           == (Bit(payload[j] as nat, i) + Bit(mask[j % 4] as nat, i)) % 2
    {
      MaskWrittenOut(Frame(op, payload), mask, j, i);
    }
  }

  method EncodeFrame(op: byte, payload: Bytes, mask: Mask) returns (out: Bytes)
    requires |payload| < TWO64
    ensures out == Wire(Frame(op, payload), mask)
  {
    hide BigEndian, Masked;
    var length := |payload|;
    out := [op];
    if length >= 126 {
      var numBytes: nat;
      if length > 0xffff {
        numBytes := 8;
        out := out + [255];
      } else {
        numBytes := 2;
        out := out + [254];
      }
      ghost var head := out;
      var c := numBytes;
      assert BigEndian(numBytes, length)[..0] == [];
      while c > 0
        invariant 0 <= c <= numBytes && out == head + BigEndian(numBytes, length)[..numBytes - c]
      {
        c := c - 1;
        BigEndianAt(numBytes, length, numBytes - 1 - c);
        out := out + [(length / Radix(c) % 256) as byte];
      }
    } else {
      out := out + [(length + 128) as byte];
      assert BigEndian(0, length) == [];
    }
    assert out == [op, (LengthMark(length) + 128) as byte] + BigEndian(ExtraBytes(length), length);
    out := out + mask;
    var masked := MaskAll(payload, mask);
    out := out + masked;
  }

  method MaskAll(payload: Bytes, mask: Mask) returns (out: Bytes)
    ensures out == Masked(payload, mask)
  {
    out := [];
    var c := 0;
    while c < |payload|
      invariant 0 <= c <= |payload| && out == Masked(payload, mask)[..c]
    {
      out := out + [Xor(payload[c], mask[c % 4])];
      c := c + 1;
    }
  }

  // ---- Reading ----

  /** The byte stream as read by the server: how the bytes arrive is up to `async_read`, which waits for
      exactly as many as it is asked for. */
  datatype Read =
    | Got(frame: Frame, next: nat)     // a frame, and where the next one begins
    | Unmasked                         // protocol error
    | TooBig                           // refused before its content is read
    | EndOfStream                      // the connection ends inside a frame
    | Misread                          // `4 + length` wraps: too few bytes are awaited

  /** `4 + length` in 64 bits: what is read for mask and payload. */
  function ContentBytes(length: nat): nat {
    (4 + length) % TWO64
  }

  /** Every length but the last four below 2^64 is read in full. */
  lemma OneFrameConsumed(length: nat)
    requires length < TWO64
    ensures ContentBytes(length) == 4 + length <==> length < TWO64 - 4
  {
  }

  /** The length announced at `at`, and where mask and payload begin. */
  function ReadLength(s: Bytes, at: nat): (r: (nat, nat))
    requires at + 2 <= |s| && s[at + 1] >= 128
    ensures r.1 <= |s| ==> at + 2 <= r.1
  {
    var mark := s[at + 1] as nat - 128;
    if mark < 126 then (mark, at + 2)
    else
      var k := if mark == 126 then 2 else 8;
      if at + 2 + k > |s| then (0, |s| + 1) else (FromBigEndian(s[at + 2..at + 2 + k]), at + 2 + k)
  }

  /** One frame at `at`; `pending` bytes of a fragmented message count towards the size limit. */
  function ReadFrame(s: Bytes, at: nat, pending: nat, max: nat): Read
    requires at <= |s|
  {
    if at + 2 > |s| then EndOfStream
    else if s[at + 1] < 128 then Unmasked
    else
      var (length, content) := ReadLength(s, at);
      if content > |s| then EndOfStream
      else if (length + pending) % TWO64 > max then TooBig
      else if ContentBytes(length) != 4 + length then Misread
      else if content + 4 + length > |s| then EndOfStream
      else Got(Frame(s[at], Masked(s[content + 4..content + 4 + length], s[content..content + 4])),
          content + 4 + length)
  }

  /** Any frame, any mask, anywhere in the stream: opcode and payload come back and exactly the frame's
      bytes are consumed, unless the frame is over the size limit or its length one of the last four below
      2^64. */
  lemma ReadsWhatWasSent(f: Frame, mask: Mask, s: Bytes, at: nat, pending: nat, max: nat)
    requires |f.payload| < TWO64 && Stands(s, at, Wire(f, mask))
    ensures ReadFrame(s, at, pending, max)
         == if (|f.payload| + pending) % TWO64 > max then TooBig
            else if |f.payload| >= TWO64 - 4 then Misread
            else Got(f, at + |Wire(f, mask)|)
  {
    OneFrameConsumed(|f.payload|);
    hide BigEndian, Masked, FromBigEndian, Xor, Wire, Stands;
    var n := |f.payload|;
    var content := at + 2 + ExtraBytes(n);
    PartsStand(f, mask, s, at);
    LengthComesBack(n);
    assert ReadLength(s, at) == (n, content);
    MaskTwice(f.payload, mask);
  }

  /** Where the parts of a frame's bytes are. */
  lemma PartsStand(f: Frame, mask: Mask, s: Bytes, at: nat)
    requires Stands(s, at, Wire(f, mask))
    ensures var n, ext := |f.payload|, ExtraBytes(|f.payload|);
      var content := at + 2 + ext;
      && |Wire(f, mask)| == 2 + ext + 4 + n && content + 4 + n <= |s|
      && s[at] == f.op && s[at + 1] as nat == LengthMark(n) + 128 && s[at + 2..at + 2 + ext] == BigEndian(ext, n)
      && s[content..content + 4] == mask && s[content + 4..content + 4 + n] == Masked(f.payload, mask)
  {
    hide BigEndian, Masked;
    var n := |f.payload|;
    var head, ext, masked := [f.op, (LengthMark(n) + 128) as byte], BigEndian(ExtraBytes(n), n),
        Masked(f.payload, mask);
    StandsParts(s, at, head + ext + mask, masked);
    StandsParts(s, at, head + ext, mask);
    StandsParts(s, at, head, ext);
    assert s[at..at + 2] == head;
    assert s[at] == s[at..at + 2][0] && s[at + 1] == s[at..at + 2][1];
  }

  lemma LengthComesBack(n: nat)
    requires n < TWO64
    ensures FromBigEndian(BigEndian(ExtraBytes(n), n)) == n || n < 126
  {
    if n >= 126 {
      assert Radix(2) == 65536;
      assert Radix(4) == 65536 * 65536;
      assert Radix(6) == 65536 * Radix(4);
      assert Radix(8) == 65536 * Radix(6);
      BigEndianRoundTrip(ExtraBytes(n), n);
    }
  }
}
