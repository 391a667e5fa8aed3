/** Bytes, and integers as big-endian bytes, as both AMQP 0-9-1 (section 4.2.5.1) and RFC 6455 (section 5.2)
    put them on the wire. */
module Octets {

  newtype byte = b: int | 0 <= b < 256

  type Bytes = seq<byte>

  /** 256 to the power k. */
  function Radix(k: nat): (r: nat)
    ensures r >= 1
  {
    if k == 0 then 1 else 256 * Radix(k - 1)
  }

  /** `n` in `k` bytes, most significant first, cut to width as the C types are. */
  function BigEndian(k: nat, n: nat): (s: Bytes)
    ensures |s| == k
  {
    if k == 0 then [] else BigEndian(k - 1, n / 256) + [(n % 256) as byte]
  }

  function FromBigEndian(s: Bytes): (n: nat)
    ensures n < Radix(|s|)
  {
    if s == [] then 0 else FromBigEndian(s[..|s| - 1]) * 256 + s[|s| - 1] as nat
  }

  lemma {:induction false} BigEndianRoundTrip(k: nat, n: nat)
    requires n < Radix(k)
    ensures FromBigEndian(BigEndian(k, n)) == n
  {
    if k > 0 {
      BigEndianRoundTrip(k - 1, n / 256);
      assert BigEndian(k, n)[..k - 1] == BigEndian(k - 1, n / 256);
    }
  }

  /** Any bytes are the big-endian form of the number they give. */
  lemma {:induction false} BytesAreBigEndian(s: Bytes)
    ensures BigEndian(|s|, FromBigEndian(s)) == s
  {
    if s != [] {
      BytesAreBigEndian(s[..|s| - 1]);
      var n, last := FromBigEndian(s[..|s| - 1]), s[|s| - 1] as nat;
      assert (n * 256 + last) / 256 == n && (n * 256 + last) % 256 == last;
    }
  }

  /** `w` stands in `s` at this offset. */
  ghost predicate Stands(s: Bytes, offset: nat, w: Bytes) {
    offset + |w| <= |s| && s[offset..offset + |w|] == w
  }

  lemma StandsParts(s: Bytes, offset: nat, x: Bytes, y: Bytes)
    ensures Stands(s, offset, x + y) <==> Stands(s, offset, x) && Stands(s, offset + |x|, y)
  {
    if offset + |x| + |y| <= |s| {
      var m := s[offset..offset + |x| + |y|];
      assert m[..|x|] == s[offset..offset + |x|] && m[|x|..] == s[offset + |x|..offset + |x| + |y|];
      assert m == m[..|x|] + m[|x|..];
      assert (x + y)[..|x|] == x && (x + y)[|x|..] == y;
    }
  }
}
