/** The encoders in their own form (rabbitMQ_C/amqp_framing.c, `amqp_encode_method` and
    `amqp_encode_properties`; rabbitMQ_C/amqp_connection.c, `amqp_frame_to_bytes`): an offset advances
    through a buffer of limited size. They are proved to write exactly the bytes of AmqpFrames, and to
    fail exactly when a string is too long for its length prefix or the buffer is too small. */
module AmqpWriter {
  import opened Common
  import opened Octets
  import opened AmqpCodec
  import opened AmqpFrames

  /** `buf` differs from `before` at most in the range, where `w` now stands. */
  ghost predicate Wrote(before: Bytes, now: Bytes, offset: nat, w: Bytes) {
    && |now| == |before| && offset + |w| <= |now| && now[offset..offset + |w|] == w
    && now[..offset] == before[..offset] && now[offset + |w|..] == before[offset + |w|..]
  }

  /** One piece written behind the other. */
  lemma WroteBoth(s0: Bytes, s1: Bytes, s2: Bytes, offset: nat, a: Bytes, b: Bytes)
    requires Wrote(s0, s1, offset, a) && Wrote(s1, s2, offset + |a|, b)
    ensures Wrote(s0, s2, offset, a + b)
  {
    assert s2[..offset] == s2[..offset + |a|][..offset] && s1[..offset] == s1[..offset + |a|][..offset];
    assert s2[offset..offset + |a|] == s2[..offset + |a|][offset..] == s1[..offset + |a|][offset..] == a;
    assert s1[offset + |a| + |b|..] == s1[offset + |a|..][|b|..] == s0[offset + |a|..][|b|..];
    assert s2[offset..offset + |a| + |b|] == s2[offset..offset + |a|] + s2[offset + |a|..offset + |a| + |b|];
  }

  /** Before the range nothing changes; and writing nothing changes nothing. */
  lemma WroteKeeps(before: Bytes, now: Bytes, offset: nat, w: Bytes)
    requires offset <= |before|
    ensures Wrote(before, now, offset, w) ==> |now| == |before| && now[..offset] == before[..offset]
    ensures Wrote(before, before, offset, [])
  {
  }

  /** `amqp_encode_bytes`. */
  method EncodeBytes(buf: array<byte>, offset: nat, limit: nat, b: Bytes) returns (ok: bool)
    requires offset <= limit <= buf.Length
    modifies buf
    ensures ok <==> offset + |b| <= limit
    ensures if ok then Wrote(old(buf[..]), buf[..], offset, b) else buf[..] == old(buf[..])
  {
    ok := offset + |b| <= limit;
    if ok {
      forall i | 0 <= i < |b| {
        buf[offset + i] := b[i];
      }
    }
  }

  /** `amqp_encode_8` to `amqp_encode_64`. */
  method EncodeInt(width: nat, buf: array<byte>, offset: nat, limit: nat, n: nat) returns (ok: bool)
    requires offset <= limit <= buf.Length
    modifies buf
    ensures ok <==> offset + width <= limit
    ensures if ok then Wrote(old(buf[..]), buf[..], offset, BigEndian(width, n)) else buf[..] == old(buf[..])
  {
    ok := EncodeBytes(buf, offset, limit, BigEndian(width, n));
  }

  /** `bit_buffer = 0; if (m->x) bit_buffer |= (1 << i); ...` */
  method PackInto(flags: seq<int>) returns (bits: nat)
    ensures bits == PackBits(flags)
    ensures forall i :: 0 <= i < |flags| ==> Bit(bits, i) == if flags[i] != 0 then 1 else 0
  {
    hide Bit;
    forall k | 0 <= k < |flags| ensures Bit(PackBits(flags), k) == if flags[k] != 0 then 1 else 0 {
      PackedBit(flags, k);
    }
    bits := 0;
    var i, weight := 0, 1;
    while i < |flags|
      invariant i <= |flags| && weight == Pow2(i)
      invariant PackBits(flags) == bits + weight * PackBits(flags[i..])
    {
      assert flags[i..][1..] == flags[i + 1..];
      var bit := if flags[i] != 0 then 1 else 0;
      ShiftedBit(weight, bit, PackBits(flags[i + 1..]));
      bits := bits + weight * bit;
      weight, i := 2 * weight, i + 1;
    }
  }

  lemma ShiftedBit(weight: nat, bit: nat, rest: nat)
    ensures weight * (bit + 2 * rest) == weight * bit + 2 * weight * rest
  {
  }

  /** One argument; a string goes behind its length if that fits its prefix. */
  method EncodeField(kind: Kind, f: Field, buf: array<byte>, offset: nat, limit: nat) returns (ok: bool)
    requires Typed(kind, f) && offset <= limit <= buf.Length
    modifies buf
    ensures ok <==> Encodable(kind, f) && offset + |WireField(kind, f)| <= limit
    ensures ok ==> Wrote(old(buf[..]), buf[..], offset, WireField(kind, f))
    ensures buf[..offset] == old(buf[..offset])
  {
    hide BigEndian, PackBits;
    match kind
    case Num(w) => ok := EncodeInt(w, buf, offset, limit, f.n);
    case Str(p) =>
      if |f.s| >= Radix(p) { return false; }
      ghost var s0 := buf[..];
      ok := EncodeInt(p, buf, offset, limit, |f.s|);
      if !ok { return; }
      ghost var s1 := buf[..];
      ok := EncodeBytes(buf, offset + p, limit, f.s);
      if ok { WroteBoth(s0, s1, buf[..], offset, BigEndian(p, |f.s|), f.s); }
    case Bits(_) =>
      var bits := PackInto(f.flags);
      PackFitsByte(f.flags);
      ok := EncodeBytes(buf, offset, limit, [bits as byte]);
  }

  lemma {:induction false} WireSnoc(kinds: seq<Kind>, fields: seq<Field>, n: nat)
    requires AllTyped(kinds, fields) && n < |kinds|
    ensures Wire(kinds[..n + 1], fields[..n + 1]) == Wire(kinds[..n], fields[..n]) + WireField(kinds[n], fields[n])
    decreases n
  {
    hide WireField, Typed;
    if n > 0 {
      WireSnoc(kinds[1..], fields[1..], n - 1);
      assert kinds[1..][..n] == kinds[..n + 1][1..] && kinds[1..][..n - 1] == kinds[..n][1..];
      assert fields[1..][..n] == fields[..n + 1][1..] && fields[1..][..n - 1] == fields[..n][1..];
    }
  }

  lemma {:induction false} WireGrows(kinds: seq<Kind>, fields: seq<Field>, n: nat)
    requires AllTyped(kinds, fields) && n <= |kinds|
    ensures |Wire(kinds[..n], fields[..n])| <= |Wire(kinds, fields)|
    decreases |kinds| - n
  {
    if n == |kinds| {
      assert kinds[..n] == kinds && fields[..n] == fields;
    } else {
      WireSnoc(kinds, fields, n);
      WireGrows(kinds, fields, n + 1);
    }
  }

  /** All arguments, one after the other; `size` is the number of bytes written. */
  method EncodeFields(kinds: seq<Kind>, fields: seq<Field>, buf: array<byte>, start: nat, limit: nat)
    returns (ok: bool, end: nat)
    requires AllTyped(kinds, fields) && start <= limit <= buf.Length
    modifies buf
    ensures ok <==> AllEncodable(kinds, fields) && start + |Wire(kinds, fields)| <= limit
    ensures ok ==> end == start + |Wire(kinds, fields)| && Wrote(old(buf[..]), buf[..], start, Wire(kinds, fields))
    ensures buf[..][..start] == old(buf[..])[..start]
  {
    hide WireField, Typed, Encodable;
    ghost var before := buf[..];
    end := start;
    var n := 0;
    while n < |kinds|
      invariant n <= |kinds| && end == start + |Wire(kinds[..n], fields[..n])| <= limit
      invariant forall i :: 0 <= i < n ==> Encodable(kinds[i], fields[i])
      invariant Wrote(before, buf[..], start, Wire(kinds[..n], fields[..n]))
    {
      ghost var s1 := buf[..];
      WireSnoc(kinds, fields, n);
      WireGrows(kinds, fields, n + 1);
      ok := EncodeField(kinds[n], fields[n], buf, end, limit);
      if !ok {
        assert buf[..start] == buf[..end][..start];
        return;
      }
      WroteBoth(before, s1, buf[..], start, Wire(kinds[..n], fields[..n]), WireField(kinds[n], fields[n]));
      end := end + |WireField(kinds[n], fields[n])|;
      n := n + 1;
    }
    assert kinds[..n] == kinds && fields[..n] == fields;
    ok := true;
  }

  lemma FlagWordsStep(flags: nat)
    ensures var rest := flags / 65536;
      FlagWords(flags) == BigEndian(2, FirstWord(flags)) + if rest != 0 then FlagWords(rest) else []
  {
  }

  /** The flag words: a do-while over what remains of the flags. */
  method EncodeFlags(flags: nat, buf: array<byte>, start: nat, limit: nat) returns (ok: bool, end: nat)
    requires start <= limit <= buf.Length
    modifies buf
    ensures ok <==> start + |FlagWords(flags)| <= limit
    ensures ok ==> end == start + |FlagWords(flags)| && Wrote(old(buf[..]), buf[..], start, FlagWords(flags))
    ensures buf[..][..start] == old(buf[..])[..start]
  {
    hide BigEndian, FirstWord, FlagWords, Wrote;
    ghost var before := buf[..];
    WroteKeeps(before, before, start, []);
    ghost var written: Bytes := [];
    end := start;
    var remaining, more := flags, true;
    while more
      invariant end == start + |written| <= limit && Wrote(before, buf[..], start, written)
      invariant FlagWords(flags) == if more then written + FlagWords(remaining) else written
      decreases more, remaining
    {
      var remainder, w := remaining / 65536, FirstWord(remaining);
      ghost var s1 := buf[..];
      FlagWordsStep(remaining);
      ok := EncodeInt(2, buf, end, limit, w);
      if !ok {
        WroteKeeps(before, s1, start, written);
        return;
      }
      WroteBoth(before, s1, buf[..], start, written, BigEndian(2, w));
      if remainder != 0 {
        assert written + FlagWords(remaining) == written + BigEndian(2, w) + FlagWords(remainder);
      } else {
        assert FlagWords(remaining) == BigEndian(2, w);
      }
      written := written + BigEndian(2, w);
      end := end + 2;
      remaining, more := remainder, remainder != 0;
    }
    WroteKeeps(before, buf[..], start, written);
    ok := true;
  }

  // ---- Frames ----

  /** The C types of a frame to be sent: a known method has its arguments, a known class its properties.
      Strings may be of any length. */
  predicate Shaped(f: Frame) {
    f.Frame? && f.channel < 65536 &&
    match f.payload
    case Method(id, args) => id < 0x1_0000_0000 && (Layout(id).Some? ==> AllTyped(Layout(id).value, args))
    case Header(c, size, flags, props) =>
      && c < 65536 && size < 0x1_0000_0000_0000_0000 && flags < 0x1_0000_0000 && !HasTable(c, flags)
      && AllTyped(PropertyKinds(c, flags), props)
    case Body(_) => true
    case Heartbeat => true
  }

  /** `amqp_encode_method`. */
  method EncodeMethod(id: nat, args: seq<Field>, buf: array<byte>, start: nat, limit: nat) returns (r: Result<nat>)
    requires start <= limit <= buf.Length && Shaped(Frame(0, Method(id, args)))
    modifies buf
    ensures Layout(id).None? ==> r == Err(UnknownMethod)
    ensures Layout(id).Some? ==> var w := Wire(Layout(id).value, args);
      r == if AllEncodable(Layout(id).value, args) && start + |w| <= limit then Ok(|w|) else Err(BadAmqpData)
    ensures r.Ok? ==> Wrote(old(buf[..]), buf[..], start, Wire(Layout(id).value, args))
  {
    hide Wire, AllTyped;
    if Layout(id).None? { return Err(UnknownMethod); }
    var ok, end := EncodeFields(Layout(id).value, args, buf, start, limit);
    return if ok then Ok(end - start) else Err(BadAmqpData);
  }

  /** `amqp_encode_properties`. */
  method EncodeProperties(c: nat, flags: nat, props: seq<Field>, buf: array<byte>, start: nat, limit: nat)
    returns (r: Result<nat>)
    requires start <= limit <= buf.Length && AllTyped(PropertyKinds(c, flags), props)
    modifies buf
    ensures var kinds, words := PropertyKinds(c, flags), FlagWords(flags);
      r == if start + |words| > limit then Err(BadAmqpData)
           else if !KnownClass(c) then Err(UnknownClass)
           else if AllEncodable(kinds, props) && start + |words| + |Wire(kinds, props)| <= limit then
             Ok(|words| + |Wire(kinds, props)|)
           else Err(BadAmqpData)
    ensures r.Ok? ==> Wrote(old(buf[..]), buf[..], start, FlagWords(flags) + Wire(PropertyKinds(c, flags), props))
  {
    hide Wire, AllTyped, PropertyKinds, FlagWords;
    ghost var s0 := buf[..];
    var ok, end := EncodeFlags(flags, buf, start, limit);
    if !ok { return Err(BadAmqpData); }
    if !KnownClass(c) { return Err(UnknownClass); }
    ghost var s1 := buf[..];
    var kinds, from := PropertyKinds(c, flags), end;
    ok, end := EncodeFields(kinds, props, buf, from, limit);
    if !ok { return Err(BadAmqpData); }
    WroteBoth(s0, s1, buf[..], start, FlagWords(flags), Wire(kinds, props));
    return Ok(end - start);
  }

  /** The payload part of `amqp_frame_to_bytes`: the answer is the payload's length. */
  method EncodePayload(p: Payload, buf: array<byte>) returns (r: Result<nat>)
    requires buf.Length >= 20 && Shaped(Frame(0, p)) && (p.Body? ==> |p.fragment| + 8 <= buf.Length)
    modifies buf
    ensures r.Ok? <==> WellFormed(Frame(0, p)) && |PayloadBytes(p)| + 8 <= buf.Length
    ensures r.Ok? ==> r.value == |PayloadBytes(p)| && Wrote(old(buf[..]), buf[..], HEADER_SIZE, PayloadBytes(p))
    ensures p.Method? && Layout(p.id).None? ==> r == Err(UnknownMethod)
    ensures r == Err(UnknownMethod) ==> p.Method? && Layout(p.id).None?
    ensures r == Err(UnknownClass) ==> p.Header? && !KnownClass(p.classId)
  {
    hide Wire, AllTyped, PropertyKinds, FlagWords, BigEndian;
    var limit := buf.Length - 1;
    ghost var s0 := buf[..];
    match p
    case Method(id, args) =>
      var _ := EncodeInt(4, buf, 7, limit, id);
      ghost var s1 := buf[..];
      r := EncodeMethod(id, args, buf, 11, limit);
      if r.Ok? {
        WroteBoth(s0, s1, buf[..], 7, BigEndian(4, id), Wire(Layout(id).value, args));
        r := Ok(r.value + 4);
      }
    case Header(c, size, flags, props) =>
      EncodeHeaderStart(c, size, buf);
      ghost var s1 := buf[..];
      r := EncodeProperties(c, flags, props, buf, 19, limit);
      if r.Ok? {
        ghost var fixed := BigEndian(2, c) + BigEndian(2, 0) + BigEndian(8, size);
        ghost var words, wire := FlagWords(flags), Wire(PropertyKinds(c, flags), props);
        WroteBoth(s0, s1, buf[..], 7, fixed, words + wire);
        assert fixed + (words + wire) == fixed + words + wire;
        r := Ok(r.value + 12);
      }
    case Body(fragment) =>
      var _ := EncodeBytes(buf, 7, limit, fragment);
      r := Ok(|fragment|);
    case Heartbeat =>
      r := Ok(0);
  }

  /** Class number, the unused weight field and the body size. */
  method EncodeHeaderStart(c: nat, size: nat, buf: array<byte>)
    requires buf.Length >= 20
    modifies buf
    ensures Wrote(old(buf[..]), buf[..], 7, BigEndian(2, c) + BigEndian(2, 0) + BigEndian(8, size))
  {
    hide BigEndian;
    ghost var s0 := buf[..];
    var _ := EncodeInt(2, buf, 7, buf.Length, c);
    ghost var s1 := buf[..];
    var _ := EncodeInt(2, buf, 9, buf.Length, 0);
    WroteBoth(s0, s1, buf[..], 7, BigEndian(2, c), BigEndian(2, 0));
    ghost var s2 := buf[..];
    var _ := EncodeInt(8, buf, 11, buf.Length, size);
    WroteBoth(s0, s2, buf[..], 7, BigEndian(2, c) + BigEndian(2, 0), BigEndian(8, size));
  }

  /** The parts of a frame in their places make up the frame. */
  lemma FrameAssembled(s: Bytes, f: Frame)
    requires WellFormed(f) && |s| >= |PayloadBytes(f.payload)| + 8
    requires var p := PayloadBytes(f.payload);
      s[0] == TypeOf(f.payload) && s[1..3] == BigEndian(2, f.channel) && s[3..7] == BigEndian(4, |p|)
      && s[7..7 + |p|] == p && s[7 + |p|] == FRAME_END
    ensures s[..|PayloadBytes(f.payload)| + 8] == WireFrame(f)
  {
    hide PayloadBytes, BigEndian;
    var n := |PayloadBytes(f.payload)|;
    assert s[..n + 8] == [s[0]] + s[1..3] + s[3..7] + s[7..7 + n] + [s[7 + n]];
  }

  /** `amqp_frame_to_bytes`: the frame's bytes stand at the start of the buffer, or an error comes back
      exactly when a string is too long, the buffer too small, or the method or class unknown. */
  method FrameToBytes(f: Frame, buf: array<byte>) returns (r: Result<nat>)
    requires buf.Length >= 20 && Shaped(f) && (f.payload.Body? ==> |f.payload.fragment| + 8 <= buf.Length)
    modifies buf
    ensures r.Ok? <==> WellFormed(f) && |WireFrame(f)| <= buf.Length
    ensures r.Ok? ==> r.value == |WireFrame(f)| && buf[..r.value] == WireFrame(f)
    ensures r == Err(UnknownMethod) <==> f.payload.Method? && Layout(f.payload.id).None?
    ensures r == Err(UnknownClass) ==> f.payload.Header? && !KnownClass(f.payload.classId)
  {
    hide BigEndian, PayloadBytes, Wire, AllTyped, PropertyKinds, FlagWords;
    buf[0] := TypeOf(f.payload);
    var _ := EncodeInt(2, buf, 1, buf.Length, f.channel);
    ghost var s1 := buf[..];
    r := EncodePayload(f.payload, buf);
    if r.Err? { return; }
    var size := r.value;
    ghost var p := PayloadBytes(f.payload);
    ghost var s2 := buf[..];
    assert s2[1..3] == s2[..7][1..3] == s1[1..3];
    var _ := EncodeInt(4, buf, 3, buf.Length, size);
    ghost var s3 := buf[..];
    buf[7 + size] := FRAME_END;
    ghost var s4 := buf[..];
    assert s3[7..] == s2[7..] && s3[..3] == s2[..3] && s4[..7 + size] == s3[..7 + size];
    assert s4[7..7 + size] == s3[7..][..size] == s2[7..7 + size];
    assert s4[1..3] == s3[..3][1..] && s4[3..7] == s3[3..7] && s4[0] == s2[..7][0] == s1[..7][0];
    FrameAssembled(s4, f);
    r := Ok(size + HEADER_SIZE + FOOTER_SIZE);
  }
}
