/** The operators on words, bit by bit, and the order of bits and bytes. */
module WordLaws {
  import opened Words
  import opened BitStrings
  import opened ByteView
  import Arithmetic

  lemma Constants(w: nat, i: nat)
    requires i < w
    ensures |Zero(w)| == |One(w)| == w && !Zero(w)[i] && (One(w)[i] <==> i == 0)
  {}

  lemma Operators(a: Word, b: Word, k: nat, i: nat)
    requires i < |a|
    ensures |Xor(a, b)| == |And(a, b)| == |Or(a, b)| == |Not(a)| == |Shl(a, k)| == |Shr(a, k)| == |a|
    ensures Xor(a, b)[i] == (a[i] != (i < |b| && b[i]))
    ensures And(a, b)[i] == (a[i] && i < |b| && b[i])
    ensures Or(a, b)[i] == (a[i] || (i < |b| && b[i]))
    ensures Not(a)[i] == !a[i]
    ensures Shl(a, k)[i] == (i >= k && a[i - k])
    ensures Shr(a, k)[i] == (i + k < |a| && a[i + k])
  {}

  // Bits move up.
  lemma RotationIsLeft(a: Lane, k: nat, z: nat)
    requires k < 64 && z < 64
    ensures Rol64(a, k)[(z + k) % 64] == a[z] && Rol64(a, k)[z] == a[(z + 64 - k) % 64]
  {
    hide Rol64;
    RolAt(a, k, z);
    RolAt(a, k, (z + k) % 64);
  }

  // Bit i of n is its binary digit of weight 2^i.
  lemma {:induction false} BinaryDigit(n: nat, w: nat, i: nat)
    requires i < w
    ensures Pow2(0) == 1 && Pow2(i + 1) == 2 * Pow2(i)
    ensures BitsOf(n, w)[i] == (n / Pow2(i) % 2 == 1)
  {
    if i > 0 {
      BinaryDigit(n / 2, w - 1, i - 1);
      HalfFirst(n, Pow2(i - 1));
    } else {
      assert n / 1 == n;
    }
  }

  lemma HalfFirst(n: nat, p: nat)
    requires p > 0
    ensures n / 2 / p == n / (2 * p)
  {
    var q := n / 2 / p;
    var m := n / 2;
    assert m == q * p + m % p;
    assert n == q * (2 * p) + (2 * (m % p) + n % 2);
    Arithmetic.DivisionIs(n, 2 * p, q, 2 * (m % p) + n % 2);
  }

  lemma Narrowing(n: nat)
    ensures Uint8(n) == BitsOf(n, 8) && Uint64(n) == BitsOf(n, 64)
  {}

  // The first byte comes first, and of a byte the least significant bit.
  lemma BitOfBytes(b: seq<Byte>, j: nat, i: nat)
    requires j < |b| && i < 8
    ensures |Bits(b)| == 8 * |b| && Bits(b)[8 * j + i] == b[j][i]
  {
    hide Bits;
    ByteAt(b, j);
    assert Bits(b)[8 * j..8 * j + 8][i] == Bits(b)[8 * j + i];
  }

  lemma BitOfLanes(a: seq<Lane>, j: nat, i: nat)
    requires j < |a| && i < 64
    ensures |LaneBits(a)| == 64 * |a| && LaneBits(a)[64 * j + i] == a[j][i]
  {
    hide LaneBits;
    LaneAt(a, j);
  }

  lemma XorAtBit(s: Word, p: nat, d: Word, i: nat)
    requires p + |d| <= |s| && i < |s|
    ensures XorAt(s, p, d)[i] == if p <= i < p + |d| then s[i] != d[i - p] else s[i]
  {}

  lemma ZeroBytesAre(n: nat, j: nat)
    requires j < n
    ensures |ZeroFill(n)| == n && ZeroFill(n)[j] == [false, false, false, false] + [false, false, false, false]
  {}

  lemma Widths(b: Byte, a: Lane, s: StateBits)
    ensures |b| == 8 && |a| == 64 && |s| == 1600
  {}

  lemma AllOfWidth(u: Word, v: Word, w: Word) returns (b: Byte, a: Lane, s: StateBits)
    requires |u| == 8 && |v| == 64 && |w| == 1600
    ensures b == u && a == v && s == w
  {
    b, a, s := u, v, w;
  }
}
