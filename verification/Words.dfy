/** Unsigned machine words as their bits, least significant bit first, with C's operators on them. */
module Words {
  type Word = seq<bool>

  function Zero(w: nat): (r: Word)
    ensures |r| == w
  {
    seq(w, _ => false)
  }

  function One(w: nat): (r: Word)
    ensures |r| == w
  {
    seq(w, i => i == 0)
  }

  // Bit i of a; zero above its width.
  function BitAt(a: Word, i: nat): bool
  {
    i < |a| && a[i]
  }

  // Binary operators give a word as wide as their first operand; the second is extended with zeros or cut.
  function Xor(a: Word, b: Word): (r: Word)
    ensures |r| == |a|
  {
    seq(|a|, i requires 0 <= i < |a| => a[i] != BitAt(b, i))
  }

  function And(a: Word, b: Word): (r: Word)
    ensures |r| == |a|
  {
    seq(|a|, i requires 0 <= i < |a| => a[i] && BitAt(b, i))
  }

  function Or(a: Word, b: Word): (r: Word)
    ensures |r| == |a|
  {
    seq(|a|, i requires 0 <= i < |a| => a[i] || BitAt(b, i))
  }

  function Not(a: Word): (r: Word)
    ensures |r| == |a|
  {
    seq(|a|, i requires 0 <= i < |a| => !a[i])
  }

  function Shl(a: Word, k: nat): (r: Word)
    ensures |r| == |a|
  {
    seq(|a|, i requires 0 <= i < |a| => i >= k && a[i - k])
  }

  function Shr(a: Word, k: nat): (r: Word)
    ensures |r| == |a|
  {
    seq(|a|, i requires 0 <= i < |a| => i + k < |a| && a[i + k])
  }

  type Lane = a: Word | |a| == 64 witness Zero(64)

  type Byte = a: Word | |a| == 8 witness Zero(8)

  function Rol(a: Lane, offset: nat): Lane
    requires 0 < offset < 64
  {
    Xor(Shl(a, offset), Shr(a, 64 - offset))
  }

  function Rol64(a: Lane, offset: nat): Lane
    requires offset < 64
  {
    if offset != 0 then Rol(a, offset) else a
  }

  // The bit position from which a rotation by k brings bit z.
  function Back(z: nat, k: nat): (r: nat)
    requires z < 64 && k < 64
    ensures r < 64
  {
    if z < k then z + 64 - k else z - k
  }

  lemma RolAt(a: Lane, k: nat, z: nat)
    requires k < 64 && z < 64
    ensures Rol64(a, k)[z] == a[Back(z, k)]
  {}

  lemma BackAndForth(z: nat, k: nat, k': nat)
    requires z < 64 && k < 64 && k' == (if k == 0 then 0 else 64 - k)
    ensures Back(Back(z, k'), k) == z
  {}

  lemma RolUndo(a: Lane, k: nat, k': nat)
    requires k < 64 && k' == (if k == 0 then 0 else 64 - k)
    ensures Rol64(Rol64(a, k), k') == a
  {
    hide Rol64, Back;
    forall z: nat | z < 64
      ensures Rol64(Rol64(a, k), k')[z] == a[z]
    {
      RolAt(Rol64(a, k), k', z);
      RolAt(a, k, Back(z, k'));
      BackAndForth(z, k, k');
    }
  }

  // The low w bits of a natural number.
  function BitsOf(n: nat, w: nat): (r: Word)
    ensures |r| == w
    decreases w
  {
    if w == 0 then [] else [n % 2 == 1] + BitsOf(n / 2, w - 1)
  }

  function Uint64(n: nat): Lane
  {
    BitsOf(n, 64)
  }

  function Uint8(n: nat): Byte
  {
    BitsOf(n, 8)
  }

  lemma NextBit(b: bool, m: nat, w: nat)
    ensures BitsOf((if b then 1 else 0) + 2 * m, w + 1) == [b] + BitsOf(m, w)
  {}

  lemma {:induction false} NoBits(w: nat)
    ensures BitsOf(0, w) == Zero(w)
  {
    if w > 0 {
      NoBits(w - 1);
      assert Zero(w) == [false] + Zero(w - 1);
    }
  }

  function Pow2(k: nat): (p: nat)
    ensures p >= 1
  {
    if k == 0 then 1 else 2 * Pow2(k - 1)
  }

  lemma {:induction false} LowZeros(k: nat, m: nat, w: nat)
    requires k <= w
    ensures BitsOf(Pow2(k) * m, w) == Zero(k) + BitsOf(m, w - k)
  {
    if k > 0 {
      var n := Pow2(k - 1) * m;
      assert Pow2(k) * m == 2 * n;
      LowZeros(k - 1, m, w - 1);
      assert Zero(k) == [false] + Zero(k - 1);
    }
  }

  // A number whose binary digits 1 to g - 1 are zero.
  lemma SparseBits(b: bool, g: nat, m: nat, w: nat)
    requires 0 < g <= w
    ensures BitsOf((if b then 1 else 0) + Pow2(g) * m, w) == [b] + Zero(g - 1) + BitsOf(m, w - g)
  {
    assert Pow2(g) * m == 2 * (Pow2(g - 1) * m);
    LowZeros(g - 1, m, w - 1);
  }
}
