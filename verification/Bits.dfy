/** Exclusive or of bytes, bit by bit. */
module Bits {
  import opened Bytes

  function Pow2(k: nat): (p: nat)
    ensures p > 0
  {
    if k == 0 then 1 else 2 * Pow2(k - 1)
  }

  /** The exclusive or of the low `k` bits. */
  function Xor(a: nat, b: nat, k: nat): (r: nat)
    ensures r < Pow2(k)
    decreases k
  {
    if k == 0 then 0 else (a + b) % 2 + 2 * Xor(a / 2, b / 2, k - 1)
  }

  lemma XorBits(a: nat, b: nat, k: nat)
    requires k > 0
    ensures Xor(a, b, k) % 2 == (a + b) % 2 && Xor(a, b, k) / 2 == Xor(a / 2, b / 2, k - 1)
  {}

  lemma LastBit(a: nat, b: nat, x: nat)
    requires x % 2 == (a + b) % 2
    ensures (x + b) % 2 == a % 2
  {}

  /** A second exclusive or with the same bits undoes the first. */
  lemma {:induction false} XorUndoes(a: nat, b: nat, k: nat)
    requires a < Pow2(k)
    ensures Xor(Xor(a, b, k), b, k) == a
  {
    if k > 0 {
      XorUndoes(a / 2, b / 2, k - 1);
      Recompose(a, b, k);
    }
  }

  lemma Recompose(a: nat, b: nat, k: nat)
    requires k > 0 && Xor(Xor(a / 2, b / 2, k - 1), b / 2, k - 1) == a / 2
    ensures Xor(Xor(a, b, k), b, k) == a
  {
    hide Xor;
    var x := Xor(a, b, k);
    XorBits(a, b, k);
    XorBits(x, b, k);
    LastBit(a, b, x);
  }

  lemma ByteRange()
    ensures Pow2(BYTE_BITS) == 256
  {
    assert Pow2(2) == 4 && Pow2(4) == 16 && Pow2(6) == 64;
  }

  function XorByte(a: byte, b: byte): byte {
    ByteRange();
    Xor(a as nat, b as nat, BYTE_BITS) as byte
  }

  lemma XorTwice(a: byte, b: byte)
    ensures XorByte(XorByte(a, b), b) == a
  {
    hide Xor;
    ByteRange();
    XorUndoes(a as nat, b as nat, BYTE_BITS);
  }

  /** Each bit of the result says whether the two bits differ. */
  lemma {:induction false} BitOf(a: nat, b: nat, k: nat, i: nat)
    requires i < k
    ensures Xor(a, b, k) / Pow2(i) % 2 == if a / Pow2(i) % 2 == b / Pow2(i) % 2 then 0 else 1
  {
    if i > 0 {
      BitOf(a / 2, b / 2, k - 1, i - 1);
      Halved(a, Pow2(i - 1));
      Halved(b, Pow2(i - 1));
      Halved(Xor(a, b, k), Pow2(i - 1));
      XorBits(a, b, k);
    } else {
      assert Pow2(0) == 1;
    }
  }

  lemma Halved(a: nat, p: nat)
    requires p > 0
    ensures a / (2 * p) == (a / 2) / p
  {
    var q, r := (a / 2) / p, (a / 2) % p;
    assert a == 2 * (p * q + r) + a % 2;
    assert a == (2 * p) * q + (2 * r + a % 2);
    QuotientIs(a, 2 * p, q, 2 * r + a % 2);
  }

  lemma QuotientIs(a: nat, m: nat, q: nat, r: nat)
    requires r < m && a == m * q + r
    ensures a / m == q
  {
    var p, s := a / m, a % m;
    assert a == m * p + s;
    Distribute(m, p, q);
    if p > q { AtLeastOnce(m, p - q); } else if p < q { Distribute(m, q, p); AtLeastOnce(m, q - p); }
  }

  lemma Distribute(m: int, p: int, q: int)
    ensures m * p - m * q == m * (p - q)
  {}

  lemma AtLeastOnce(m: nat, x: nat)
    requires x >= 1
    ensures m * x >= m
  {}

  /** The exclusive or of two bytes, bit by bit. */
  lemma ByteBits(a: byte, b: byte, i: nat)
    requires i < 8
    ensures (XorByte(a, b) as nat) / Pow2(i) % 2 ==
              if (a as nat) / Pow2(i) % 2 == (b as nat) / Pow2(i) % 2 then 0 else 1
  {
    hide Xor, Pow2;
    BitOf(a as nat, b as nat, BYTE_BITS, i);
  }
}
