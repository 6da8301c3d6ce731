/** Byte strings, big-endian integers and the uninterpreted hash. */
module Bytes {
  newtype Byte = n: int | 0 <= n < 256
  type Bytes = seq<Byte>
  newtype Nibble = n: int | 0 <= n < 16
  type Nibbles = seq<Nibble>

  /** A 256-bit hash value. */
  type Digest = b: Bytes | |b| == 32 witness seq(32, _ => 0)

  /** The hash: any function from byte strings to 32 bytes.  Nothing is
      assumed about it; in particular it is not assumed to be injective. */
  const Sha3: Bytes -> Digest

  datatype Option<T> = None | Some(value: T)

  function Zeros(n: nat): (b: Bytes)
    ensures |b| == n
  {
    seq(n, _ => 0)
  }

  /** The shortest big-endian form of n; empty for zero. */
  function BigEndian(n: nat): (b: Bytes)
    ensures n > 0 ==> |b| > 0 && b[0] != 0
    ensures n == 0 ==> b == []
  {
    if n == 0 then [] else BigEndian(n / 256) + [(n % 256) as Byte]
  }

  /** The number a big-endian string denotes: fold of (r << 8) | byte. */
  function FromBigEndian(b: Bytes): nat {
    if b == [] then 0 else 256 * FromBigEndian(b[..|b| - 1]) + b[|b| - 1] as nat
  }

  ghost function Pow256(k: nat): (p: nat)
    ensures p > 0
  {
    if k == 0 then 1 else 256 * Pow256(k - 1)
  }

  lemma {:induction false} FromBigEndianInverts(n: nat)
    ensures FromBigEndian(BigEndian(n)) == n
  {
    if n > 0 {
      FromBigEndianInverts(n / 256);
      assert BigEndian(n)[..|BigEndian(n)| - 1] == BigEndian(n / 256);
    }
  }

  lemma {:induction false} BigEndianInverts(b: Bytes)
    requires b == [] || b[0] != 0
    ensures BigEndian(FromBigEndian(b)) == b
    ensures b != [] ==> FromBigEndian(b) > 0
  {
    if |b| > 0 {
      var front := b[..|b| - 1];
      BigEndianInverts(front);
      assert b == front + [b[|b| - 1]];
    }
  }

  /** n fits in k bytes exactly when its shortest form has at most k bytes. */
  lemma {:induction false} BigEndianLength(n: nat, k: nat)
    ensures |BigEndian(n)| <= k <==> n < Pow256(k)
  {
    if n > 0 && k > 0 { BigEndianLength(n / 256, k - 1); }
  }

  lemma MulMonotone(d: nat, a: nat, b: nat)
    requires a <= b
    ensures d * a <= d * b
  {
    assert d * b == d * a + d * (b - a);
  }

  lemma Span(a: nat, d: nat)
    requires d > 0
    ensures d * (a / d) <= a < d * (a / d) + d
  {
  }

  /** At most one quotient fits. */
  lemma OneQuotient(n: nat, d: nat, x: nat, q: nat)
    requires d * x <= n < d * x + d && d * q <= n < d * q + d
    ensures x == q
  {
    if x < q { MulMonotone(d, x + 1, q); }
    if q < x { MulMonotone(d, q + 1, x); }
  }

  function Quotient(a: nat, d: nat): nat
    requires d > 0
  {
    a / d
  }

  /** Dividing by 256 and then by p. */
  lemma DivTwice(n: nat, p: nat)
    requires p > 0
    ensures Quotient(n / 256, p) == Quotient(n, 256 * p)
  {
    var k, q := n / 256, Quotient(n / 256, p);
    Span(k, p);
    Span(n, 256 * p);
    hide Quotient;
    assert (256 * p) * q == 256 * (p * q);
    OneQuotient(n, 256 * p, Quotient(n, 256 * p), q);
  }

  /** Digit k of n to the base 256, digit 0 being the lowest. */
  ghost function Digit(n: nat, k: nat): nat { Quotient(n, Pow256(k)) % 256 }

  lemma NoDigit(n: nat, k: nat)
    requires n < Pow256(k)
    ensures Digit(n, k) == 0
  {
    hide Pow256;
    Span(n, Pow256(k));
  }

  /** The bytes of n, most significant first. */
  lemma {:induction false} BigEndianAt(n: nat, i: nat)
    requires i < |BigEndian(n)|
    ensures BigEndian(n)[i] as nat == Digit(n, |BigEndian(n)| - 1 - i)
  {
    var b, k := BigEndian(n), |BigEndian(n)| - 1 - i;
    if k > 0 {
      BigEndianAt(n / 256, i);
      assert b == BigEndian(n / 256) + [b[|b| - 1]] && Pow256(k) == 256 * Pow256(k - 1);
      hide BigEndian, Pow256, Quotient;
      DivTwice(n, Pow256(k - 1));
    } else {
      assert b[i] as nat == n % 256 && Pow256(0) == 1;
      hide BigEndian, Pow256;
    }
  }

  /** And of the number that b denotes, the bytes are the digits. */
  lemma {:induction false} DigitsOf(b: Bytes, i: nat)
    requires i < |b|
    ensures Digit(FromBigEndian(b), |b| - 1 - i) == b[i] as nat
  {
    var front, last, k := b[..|b| - 1], b[|b| - 1], |b| - 1 - i;
    var n := FromBigEndian(front);
    assert FromBigEndian(b) == 256 * n + last as nat;
    if k > 0 {
      DigitsOf(front, i);
      assert Pow256(k) == 256 * Pow256(k - 1);
      hide FromBigEndian, Pow256, Quotient;
      DivTwice(256 * n + last as nat, Pow256(k - 1));
      assert (256 * n + last as nat) / 256 == n;
    } else {
      assert Pow256(0) == 1;
      hide FromBigEndian, Pow256;
    }
  }

  lemma {:induction false} Bounded(b: Bytes)
    ensures FromBigEndian(b) < Pow256(|b|)
  {
    if b != [] { Bounded(b[..|b| - 1]); }
  }

  lemma Pow256Of8()
    ensures Pow256(8) == 0x1_0000_0000_0000_0000
  {
    assert Pow256(2) == 0x1_0000;
    assert Pow256(4) == 0x1_0000_0000;
    assert Pow256(6) == 0x1_0000_0000_0000;
  }
}
