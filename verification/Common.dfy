/** What several modules need. */
module Common {

  datatype Option<T> = None | Some(value: T)

  function Pow2(n: nat): (p: nat)
    ensures p >= 1
  {
    if n == 0 then 1 else 2 * Pow2(n - 1)
  }

  lemma {:induction false} Pow2Monotone(a: nat, b: nat)
    requires a <= b
    ensures Pow2(a) <= Pow2(b)
  {
    if a < b { Pow2Monotone(a, b - 1); }
  }

  lemma Multiples(k: int, d: int)
    requires d >= 0
    ensures k >= 1 ==> k * d >= d
    ensures k <= -1 ==> k * d <= -d
  {
  }

  /** Quotient and remainder are unique. */
  lemma Quotient(a: nat, d: nat, q: nat, r: nat)
    requires a == q * d + r && r < d
    ensures a / d == q && a % d == r
  {
    var k := a / d - q;
    assert k * d == r - a % d;
    Multiples(k, d);
  }

  /** Dividing by `2 * p` is halving, then dividing by `p`. */
  lemma HalfFirst(n: nat, p: nat)
    requires p > 0
    ensures n / (2 * p) == n / 2 / p
  {
    var h, q, r := n / 2, n / 2 / p, n / 2 % p;
    DoubledParts(h, p, q, r);
    Quotient(n, 2 * p, q, 2 * r + n % 2);
  }

  /** A part is smaller unless it is the whole. */
  lemma SubsetSize<T>(a: set<T>, b: set<T>)
    requires a <= b
    ensures |a| <= |b| && (|a| == |b| ==> a == b)
  {
    assert b == a + (b - a);
  }

  /** Bit number `i`, the lowest being number 0. */
  function Bit(n: nat, i: nat): nat {
    n / Pow2(i) % 2
  }

  lemma BitBelow(n: nat, i: nat)
    ensures Bit(n, 0) == n % 2
    ensures i > 0 ==> Bit(n, i) == Bit(n / 2, i - 1)
  {
    assert Pow2(0) == 1;
    if i > 0 {
      var p := Pow2(i - 1);
      assert Pow2(i) == 2 * p;
      hide Pow2;
      HalfFirst(n, p);
    }
  }

  lemma DoubledParts(h: nat, p: nat, q: nat, r: nat)
    requires h == q * p + r
    ensures 2 * h == q * (2 * p) + 2 * r
  {
  }
}
