/** Method arguments and content properties on the wire (rabbitMQ_C/amqp_framing.c; AMQP 0-9-1 sections
    4.2.5 and 4.2.6.1). The source spells the same few steps out for every method; here a method is
    the list of its argument kinds, one step per kind. Methods carrying a field table are not included. */
module AmqpCodec {
  import opened Common
  import opened Octets

  /** An unsigned integer of so many bytes, a string behind a length of so many bytes, or so many
      consecutive booleans packed into one byte. */
  datatype Kind = Num(width: nat) | Str(prefix: nat) | Bits(count: nat)

  const U8 := Num(1)
  const U16 := Num(2)
  const U32 := Num(4)
  const U64 := Num(8)
  const SHORT_STR := Str(1)
  const LONG_STR := Str(4)

  /** Booleans are C integers: any non-zero value counts as true. */
  datatype Field = Int(n: nat) | Text(s: Bytes) | Booleans(flags: seq<int>)

  /** The field has the C type the kind calls for. */
  predicate Typed(kind: Kind, f: Field) {
    match kind
    case Num(w) => f.Int? && f.n < Radix(w)
    case Str(_) => f.Text?
    case Bits(c) => f.Booleans? && |f.flags| == c <= 8
  }

  predicate AllTyped(kinds: seq<Kind>, fields: seq<Field>) {
    |kinds| == |fields| && forall i :: 0 <= i < |kinds| ==> Typed(kinds[i], fields[i])
  }

  /** `if (m->x) bit_buffer |= (1 << i)`, the first boolean in the lowest bit. */
  function PackBits(flags: seq<int>): (n: nat)
    ensures n < Pow2(|flags|)
  {
    if flags == [] then 0 else (if flags[0] != 0 then 1 else 0) + 2 * PackBits(flags[1..])
  }

  /** `(bit_buffer & (1 << i)) ? 1 : 0`. */
  function UnpackBits(n: nat, count: nat): (flags: seq<int>)
    ensures |flags| == count
  {
    if count == 0 then [] else [n % 2] + UnpackBits(n / 2, count - 1)
  }

  /** Boolean number `i` is bit number `i` of the byte. */
  lemma {:induction false} PackedBit(flags: seq<int>, i: nat)
    requires i < |flags|
    ensures Bit(PackBits(flags), i) == if flags[i] != 0 then 1 else 0
  {
    hide Bit, Pow2;
    var n, rest, d := PackBits(flags), PackBits(flags[1..]), if flags[0] != 0 then 1 else 0;
    BitBelow(n, i);
    Halves(n, d, rest);
    if i > 0 { PackedBit(flags[1..], i - 1); }
  }

  lemma Halves(n: nat, d: nat, r: nat)
    requires n == d + 2 * r && d <= 1
    ensures n % 2 == d && n / 2 == r
  {
  }

  lemma {:induction false} UnpackedBit(n: nat, count: nat, i: nat)
    requires i < count
    ensures UnpackBits(n, count)[i] == Bit(n, i)
  {
    hide Bit;
    BitBelow(n, i);
    if i > 0 { UnpackedBit(n / 2, count - 1, i - 1); }
  }

  function Normal(flags: seq<int>): seq<int> {
    seq(|flags|, i requires 0 <= i < |flags| => if flags[i] != 0 then 1 else 0)
  }

  lemma {:induction false} BitsRoundTrip(flags: seq<int>)
    ensures UnpackBits(PackBits(flags), |flags|) == Normal(flags)
  {
    if flags != [] {
      BitsRoundTrip(flags[1..]);
      assert Normal(flags) == [if flags[0] != 0 then 1 else 0] + Normal(flags[1..]);
    }
  }

  /** What decoding gives back: booleans as 0 or 1, all else unchanged. */
  function Canon(f: Field): Field {
    if f.Booleans? then Booleans(Normal(f.flags)) else f
  }

  function CanonAll(fields: seq<Field>): (r: seq<Field>)
    ensures |r| == |fields|
  {
    if fields == [] then [] else [Canon(fields[0])] + CanonAll(fields[1..])
  }

  // ---- Encoding ----

  /** The only field that has no encoding: a string too long for its length prefix. */
  predicate Encodable(kind: Kind, f: Field) {
    kind.Str? && f.Text? ==> |f.s| < Radix(kind.prefix)
  }

  predicate AllEncodable(kinds: seq<Kind>, fields: seq<Field>)
    requires |kinds| == |fields|
  {
    forall i :: 0 <= i < |kinds| ==> Encodable(kinds[i], fields[i])
  }

  lemma PackFitsByte(flags: seq<int>)
    requires |flags| <= 8
    ensures PackBits(flags) < 256
  {
    Pow2Monotone(|flags|, 8);
  }

  function WireField(kind: Kind, f: Field): Bytes
    requires Typed(kind, f)
  {
    match kind
    case Num(w) => BigEndian(w, f.n)
    case Str(p) => BigEndian(p, |f.s|) + f.s
    case Bits(_) => PackFitsByte(f.flags); [PackBits(f.flags) as byte]
  }

  function Wire(kinds: seq<Kind>, fields: seq<Field>): Bytes
    requires AllTyped(kinds, fields)
  {
    if kinds == [] then [] else WireField(kinds[0], fields[0]) + Wire(kinds[1..], fields[1..])
  }

  // ---- Decoding ----

  /** `amqp_decode_8` to `amqp_decode_64`: fails when the input ends too early. */
  function DecodeInt(width: nat, s: Bytes, offset: nat): Option<nat> {
    if offset + width <= |s| then Some(FromBigEndian(s[offset..offset + width])) else None
  }

  /** One argument at `offset`, with the offset behind it. */
  function DecodeField(kind: Kind, s: Bytes, offset: nat): (r: Option<(Field, nat)>)
    ensures r.Some? ==> offset <= r.value.1 <= |s| || r.value.1 == offset
  {
    match kind
    case Num(w) =>
      var n := DecodeInt(w, s, offset);
      if n.None? then None else Some((Int(n.value), offset + w))
    case Str(p) =>
      var len := DecodeInt(p, s, offset);
      if len.None? || offset + p + len.value > |s| then None
      else Some((Text(s[offset + p..offset + p + len.value]), offset + p + len.value))
    case Bits(c) =>
      var b := DecodeInt(1, s, offset);
      if b.None? then None else Some((Booleans(UnpackBits(b.value, c)), offset + 1))
  }

  /** All arguments from `offset` on; `None` is AMQP_STATUS_BAD_AMQP_DATA. */
  function Decode(kinds: seq<Kind>, s: Bytes, offset: nat): Option<(seq<Field>, nat)> {
    if kinds == [] then Some(([], offset))
    else
      var head := DecodeField(kinds[0], s, offset);
      if head.None? then None
      else
        var rest := Decode(kinds[1..], s, head.value.1);
        if rest.None? then None else Some(([head.value.0] + rest.value.0, rest.value.1))
  }

  lemma IntRoundTrip(width: nat, n: nat, s: Bytes, offset: nat)
    requires n < Radix(width) && Stands(s, offset, BigEndian(width, n))
    ensures DecodeInt(width, s, offset) == Some(n)
  {
    BigEndianRoundTrip(width, n);
  }

  lemma TextRoundTrip(p: nat, t: Bytes, s: Bytes, offset: nat)
    requires |t| < Radix(p) && Stands(s, offset, BigEndian(p, |t|) + t)
    ensures DecodeField(Str(p), s, offset) == Some((Text(t), offset + p + |t|))
  {
    StandsParts(s, offset, BigEndian(p, |t|), t);
    IntRoundTrip(p, |t|, s, offset);
    TextAfterLength(p, t, s, offset, DecodeInt(p, s, offset));
  }

  lemma TextAfterLength(p: nat, t: Bytes, s: Bytes, offset: nat, len: Option<nat>)
    requires len == DecodeInt(p, s, offset) == Some(|t|) && Stands(s, offset + p, t)
    ensures DecodeField(Str(p), s, offset) == Some((Text(t), offset + p + |t|))
  {
  }

  lemma ByteIsBigEndian(n: nat)
    requires n < 256
    ensures BigEndian(1, n) == [n as byte] && Radix(1) == 256
  {
    assert Radix(1) == 256 * Radix(0);
    assert BigEndian(1, n) == BigEndian(0, n / 256) + [n as byte];
  }

  lemma BooleansRoundTrip(flags: seq<int>, s: Bytes, offset: nat)
    requires |flags| <= 8
    requires PackBits(flags) < 256 && Stands(s, offset, [PackBits(flags) as byte])
    ensures DecodeField(Bits(|flags|), s, offset) == Some((Booleans(Normal(flags)), offset + 1))
  {
    PackFitsByte(flags);
    ByteIsBigEndian(PackBits(flags));
    IntRoundTrip(1, PackBits(flags), s, offset);
    BitsRoundTrip(flags);
  }

  /** A field's encoding, met anywhere in the input, decodes to the field and is consumed exactly. */
  lemma FieldRoundTrip(kind: Kind, f: Field, s: Bytes, offset: nat)
    requires Typed(kind, f) && Encodable(kind, f) && Stands(s, offset, WireField(kind, f))
    ensures DecodeField(kind, s, offset) == Some((Canon(f), offset + |WireField(kind, f)|))
  {
    match kind
    case Num(w) => IntRoundTrip(w, f.n, s, offset);
    case Str(p) => TextRoundTrip(p, f.s, s, offset);
    case Bits(c) => PackFitsByte(f.flags); BooleansRoundTrip(f.flags, s, offset);
  }

  /** Decoding undoes encoding for every list of kinds, hence for every method of `Layout`. */
  lemma {:induction false} FieldsRoundTrip(kinds: seq<Kind>, fields: seq<Field>, s: Bytes, offset: nat)
    requires AllTyped(kinds, fields) && AllEncodable(kinds, fields) && Stands(s, offset, Wire(kinds, fields))
    ensures Decode(kinds, s, offset) == Some((CanonAll(fields), offset + |Wire(kinds, fields)|))
  {
    hide DecodeField, WireField, Typed, Encodable, Canon;
    if kinds != [] {
      var w, rest := WireField(kinds[0], fields[0]), Wire(kinds[1..], fields[1..]);
      StandsParts(s, offset, w, rest);
      FieldRoundTrip(kinds[0], fields[0], s, offset);
      FieldsRoundTrip(kinds[1..], fields[1..], s, offset + |w|);
    }
  }

  lemma {:induction false} PackedAgain(n: nat, count: nat)
    ensures PackBits(UnpackBits(n, count)) == n % Pow2(count)
  {
    if count > 0 {
      PackedAgain(n / 2, count - 1);
      var p := Pow2(count - 1);
      assert UnpackBits(n, count)[1..] == UnpackBits(n / 2, count - 1);
      var r := n / 2 % p;
      assert PackBits(UnpackBits(n, count)) == n % 2 + 2 * r;
      hide PackBits, UnpackBits, Pow2;
      LowPart(n, p, r);
    }
  }

  lemma LowPart(n: nat, p: nat, r: nat)
    requires p > 0 && r == n / 2 % p
    ensures n % (2 * p) == n % 2 + 2 * r
  {
    var q := n / 2 / p;
    DoubledParts(n / 2, p, q, r);
    Quotient(n, 2 * p, q, 2 * r + n % 2);
  }

  lemma DecodedInt(width: nat, s: Bytes, offset: nat, n: nat)
    requires DecodeInt(width, s, offset) == Some(n)
    ensures n < Radix(width) && Stands(s, offset, BigEndian(width, n))
  {
    BytesAreBigEndian(s[offset..offset + width]);
  }

  lemma DecodedText(p: nat, s: Bytes, offset: nat, f: Field, end: nat)
    requires DecodeField(Str(p), s, offset) == Some((f, end))
    ensures f.Text? && |f.s| < Radix(p) && end == offset + p + |f.s| <= |s|
    ensures Stands(s, offset, BigEndian(p, |f.s|) + f.s)
  {
    hide DecodeInt, BigEndian, Stands;
    var len := DecodeInt(p, s, offset);
    assert len.Some? && offset + p + len.value <= |s| && f == Text(s[offset + p..offset + p + len.value]);
    hide DecodeField;
    DecodedInt(p, s, offset, len.value);
    TextStands(s, offset + p, f.s);
    StandsParts(s, offset, BigEndian(p, |f.s|), f.s);
  }

  lemma TextStands(s: Bytes, at: nat, w: Bytes)
    ensures at + |w| <= |s| && w == s[at..at + |w|] ==> Stands(s, at, w)
  {
  }

  lemma DecodedBits(c: nat, s: Bytes, offset: nat, f: Field, end: nat)
    requires DecodeField(Bits(c), s, offset) == Some((f, end))
    ensures f.Booleans? && |f.flags| == c && end == offset + 1 <= |s|
    ensures PackBits(f.flags) == s[offset] as nat % Pow2(c)
  {
    hide DecodeInt, PackBits, UnpackBits, Pow2;
    var b := DecodeInt(1, s, offset);
    assert b.Some? && f == Booleans(UnpackBits(b.value, c)) && end == offset + 1;
    hide DecodeField;
    OneByte(s, offset, b.value);
    PackedAgain(b.value, c);
  }

  lemma OneByte(s: Bytes, offset: nat, n: nat)
    requires DecodeInt(1, s, offset) == Some(n)
    ensures offset < |s| && n == s[offset] as nat
  {
    var b := s[offset..offset + 1];
    assert b[..0] == [] && FromBigEndian([]) == 0;
    assert FromBigEndian(b) == FromBigEndian(b[..0]) * 256 + b[0] as nat;
  }

  /** Whatever bytes decode to an argument are its encoding, but for bits of a boolean octet that no
      argument claims. */
  lemma DecodedField(kind: Kind, s: Bytes, offset: nat, f: Field, end: nat)
    requires DecodeField(kind, s, offset) == Some((f, end)) && (kind.Bits? ==> kind.count <= 8)
    ensures Typed(kind, f) && Encodable(kind, f) && end == offset + |WireField(kind, f)| <= |s|
    ensures !kind.Bits? ==> Stands(s, offset, WireField(kind, f))
    ensures kind.Bits? ==> PackBits(f.flags) == s[offset] as nat % Pow2(kind.count)
  {
    hide DecodeInt, BigEndian, PackBits, Pow2;
    match kind
    case Num(w) => DecodedInt(w, s, offset, f.n);
    case Str(p) => DecodedText(p, s, offset, f, end);
    case Bits(c) => DecodedBits(c, s, offset, f, end);
  }

  /** So decoding never reads past the input, and without booleans it accepts nothing but encodings. */
  lemma {:induction false} DecodedWasEncoded(kinds: seq<Kind>, s: Bytes, offset: nat)
    requires offset <= |s| && Decode(kinds, s, offset).Some?
    requires forall i :: 0 <= i < |kinds| && kinds[i].Bits? ==> kinds[i].count <= 8
    ensures var (fields, end) := Decode(kinds, s, offset).value;
      && AllTyped(kinds, fields) && AllEncodable(kinds, fields) && end == offset + |Wire(kinds, fields)| <= |s|
      && ((forall i :: 0 <= i < |kinds| ==> !kinds[i].Bits?) ==> Stands(s, offset, Wire(kinds, fields)))
  {
    hide DecodeField, WireField, Typed, Encodable;
    if kinds != [] {
      var (f, next) := DecodeField(kinds[0], s, offset).value;
      DecodedField(kinds[0], s, offset, f, next);
      DecodedWasEncoded(kinds[1..], s, next);
      var (rest, end) := Decode(kinds[1..], s, next).value;
      assert ([f] + rest)[1..] == rest;
      StandsParts(s, offset, WireField(kinds[0], f), Wire(kinds[1..], rest));
    }
  }

  // ---- The methods ----

  /** Argument kinds by method number. */
  function Layout(id: nat): Option<seq<Kind>> {
    if id == 0x000A0014 || id == 0x000A0015 || id == 0x0014000B then Some([LONG_STR])
    else if id == 0x000A001E || id == 0x000A001F then Some([U16, U32, U16])
    else if id == 0x000A0028 then Some([SHORT_STR, SHORT_STR, Bits(1)])
    else if id in {0x000A0029, 0x000A003C, 0x0014000A, 0x003C0015, 0x003C001F, 0x003C0048} then Some([SHORT_STR])
    else if id == 0x000A0032 || id == 0x00140028 then Some([U16, SHORT_STR, U16, U16])
    else if id in {0x000A0033, 0x000A003D, 0x00140029, 0x0028000B, 0x00280015, 0x0028001F, 0x00280033, 0x00320015,
                   0x00320033, 0x003C000B, 0x003C006F, 0x005A000A, 0x005A000B, 0x005A0014, 0x005A0015, 0x005A001E,
                   0x005A001F, 0x0055000B} then Some([])
    else if id in {0x00140014, 0x00140015, 0x003C0064, 0x003C006E, 0x0055000A} then Some([Bits(1)])
    else if id == 0x001E000A then Some([SHORT_STR, Bits(5)])
    else if id == 0x001E000B then Some([U16])
    else if id == 0x00280014 then Some([U16, SHORT_STR, Bits(2)])
    else if id == 0x0032000B then Some([SHORT_STR, U32, U32])
    else if id == 0x0032001E || id == 0x003C0046 then Some([U16, SHORT_STR, Bits(1)])
    else if id == 0x0032001F || id == 0x00320029 then Some([U32])
    else if id == 0x00320028 then Some([U16, SHORT_STR, Bits(3)])
    else if id == 0x003C000A then Some([U32, U16, Bits(1)])
    else if id == 0x003C001E then Some([SHORT_STR, Bits(1)])
    else if id == 0x003C0028 then Some([U16, SHORT_STR, SHORT_STR, Bits(2)])
    else if id == 0x003C0032 then Some([U16, SHORT_STR, SHORT_STR, SHORT_STR])
    else if id == 0x003C003C then Some([SHORT_STR, U64, Bits(1), SHORT_STR, SHORT_STR])
    else if id == 0x003C0047 then Some([U64, Bits(1), SHORT_STR, SHORT_STR, U32])
    else if id == 0x003C0050 || id == 0x003C005A then Some([U64, Bits(1)])
    else if id == 0x003C0078 then Some([U64, Bits(2)])
    else None
  }

  // ---- Content properties ----

  /** The kind of the Basic property announced by flag bit `b`; bit 13 announces a field table. */
  function PropertyKind(b: nat): Option<Kind> {
    if b in {15, 14, 10, 9, 8, 7, 5, 4, 3, 2} then Some(SHORT_STR)
    else if b == 12 || b == 11 then Some(U8)
    else if b == 6 then Some(U64)
    else None
  }

  predicate HasFlag(flags: nat, b: nat) {
    if b == 0 then flags % 2 == 1 else HasFlag(flags / 2, b - 1)
  }

  /** Properties present, from flag bit `b` down to bit 2. */
  function KindsFrom(flags: nat, b: nat): seq<Kind> {
    if b < 2 then []
    else (if HasFlag(flags, b) && PropertyKind(b).Some? then [PropertyKind(b).value] else []) + KindsFrom(flags, b - 1)
  }

  /** Class 60 is Basic; the other classes have no properties. */
  function PropertyKinds(classId: nat, flags: nat): seq<Kind> {
    if classId == 60 then KindsFrom(flags, 15) else []
  }

  predicate KnownClass(classId: nat) {
    classId in {10, 20, 30, 40, 50, 60, 85, 90}
  }

  /** The chain of flag words: 15 flags a word, the low bit says that another word follows. */
  function FlagWords(flags: nat): Bytes
    decreases flags
  {
    var remainder := flags / 65536;
    BigEndian(2, FirstWord(flags)) + if remainder != 0 then FlagWords(remainder) else []
  }

  /** The low 16 bits without bit 0, which says instead whether higher bits remain. */
  function FirstWord(flags: nat): (w: nat)
    ensures w < 65536
  {
    flags % 65536 / 2 * 2 + if flags / 65536 != 0 then 1 else 0
  }

  /** Reads words until one without the continuation bit; word `index` fills bits 16*index and up. */
  function DecodeFlags(s: Bytes, offset: nat): Option<(nat, nat)>
    decreases |s| - offset
  {
    var w := DecodeInt(2, s, offset);
    if w.None? then None
    else if w.value % 2 == 0 then Some((w.value, offset + 2))
    else
      var rest := DecodeFlags(s, offset + 2);
      if rest.None? then None else Some((w.value + 65536 * rest.value.0, rest.value.1))
  }

  /** The chain of words is consumed exactly and gives the flags back up to each word's low bit. */
  lemma {:induction false} FlagsRoundTrip(flags: nat, s: Bytes, offset: nat)
    requires Stands(s, offset, FlagWords(flags))
    ensures DecodeFlags(s, offset) == Some((Chained(flags), offset + |FlagWords(flags)|))
    decreases flags
  {
    var rest := flags / 65536;
    RadixOfTwo();
    StandsParts(s, offset, BigEndian(2, FirstWord(flags)), if rest != 0 then FlagWords(rest) else []);
    IntRoundTrip(2, FirstWord(flags), s, offset);
    if rest != 0 { FlagsRoundTrip(rest, s, offset + 2); }
    FlagStep(flags, s, offset, DecodeInt(2, s, offset));
  }

  lemma FlagStep(flags: nat, s: Bytes, offset: nat, w: Option<nat>)
    requires w == DecodeInt(2, s, offset) == Some(FirstWord(flags))
    requires var rest := flags / 65536; rest != 0 ==>
      DecodeFlags(s, offset + 2) == Some((Chained(rest), offset + 2 + |FlagWords(rest)|))
    ensures DecodeFlags(s, offset) == Some((Chained(flags), offset + |FlagWords(flags)|))
  {
    hide DecodeInt;
    assert FirstWord(flags) % 2 == if flags / 65536 != 0 then 1 else 0;
  }

  lemma RadixOfTwo()
    ensures Radix(1) == 256 && Radix(2) == 65536
  {
    assert Radix(1) == 256 * Radix(0) && Radix(2) == 256 * Radix(1);
  }

  /** The flags after a round trip: the low bit of each word is replaced by "another word follows". */
  function Chained(flags: nat): nat
    decreases flags
  {
    var remainder := flags / 65536;
    flags % 65536 / 2 * 2 + if remainder != 0 then 1 + 65536 * Chained(remainder) else 0
  }

  /** Flags come back unchanged exactly when the caller already used the low bit of each word that way. */
  lemma {:induction false} FlagsExact(flags: nat)
    ensures Chained(flags) == flags <==> LowBitsChain(flags)
    decreases flags
  {
    if flags / 65536 != 0 { FlagsExact(flags / 65536); }
  }

  predicate LowBitsChain(flags: nat)
    decreases flags
  {
    var remainder := flags / 65536;
    (flags % 2 == if remainder != 0 then 1 else 0) && (remainder != 0 ==> LowBitsChain(remainder))
  }

  lemma SameProperties(classId: nat, flags: nat)
    ensures PropertyKinds(classId, Chained(flags)) == PropertyKinds(classId, flags)
  {
    SameKinds(flags, 15);
  }

  lemma {:induction false} SameKinds(flags: nat, b: nat)
    requires b <= 15
    ensures KindsFrom(Chained(flags), b) == KindsFrom(flags, b)
  {
    if b >= 2 {
      SameKinds(flags, b - 1);
      SameFlag(flags, b);
    }
  }

  lemma SameFlag(flags: nat, b: nat)
    requires 1 <= b <= 15
    ensures HasFlag(Chained(flags), b) == HasFlag(flags, b)
  {
    hide Pow2, Chained;
    var low, high, high' := flags % 65536 / 2, flags / 65536, Chained(flags) / 65536;
    Pow2Of15();
    ChainedHalf(flags);
    assert flags / 2 == low + 32768 * high;
    HighPartIrrelevant(low, high', 15, b - 1);
    HighPartIrrelevant(low, high, 15, b - 1);
  }

  lemma ChainedHalf(flags: nat)
    ensures Chained(flags) / 2 == flags % 65536 / 2 + 32768 * (Chained(flags) / 65536)
  {
    var low := flags % 65536 / 2;
    var rest := if flags / 65536 != 0 then Chained(flags / 65536) else 0;
    var one := if flags / 65536 != 0 then 1 else 0;
    assert Chained(flags) == 2 * low + one + 65536 * rest;
    assert Chained(flags) / 65536 == rest;
  }

  lemma Pow2Of15()
    ensures Pow2(15) == 32768
  {
    assert Pow2(4) == 16;
    assert Pow2(8) == 256;
    assert Pow2(12) == 4096;
  }

  lemma HalfOf(low: nat, p: nat)
    ensures (low + 2 * p) / 2 == low / 2 + p && (low + 2 * p) % 2 == low % 2
  {
  }

  lemma {:induction false} HighPartIrrelevant(low: nat, high: nat, k: nat, b: nat)
    requires b < k
    ensures HasFlag(low + Pow2(k) * high, b) == HasFlag(low, b)
  {
    var p := Pow2(k - 1) * high;
    assert low + Pow2(k) * high == low + 2 * p;
    HalfOf(low, p);
    if b > 0 { HighPartIrrelevant(low / 2, high, k - 1, b - 1); }
  }
}
