/** Digit sets encoded as bitmasks, as the solver keeps them for every row, column and box:
    bit `n` of a mask is set when digit `n` (1..9) is in use. The source stores a mask in a
    C++ `int`; it is modelled as a 32-bit vector. Each operation the source performs on masks
    has a name here (`With` for `|= bit`, `Toggle` for `^= bit`, `Test` for `& bit`,
    `Union` for the `|` of three masks), and the facts about them are proved once, on plain
    mask values, by the `...Bits` lemmas. */
module Masks {

  type Mask = bv32

  /** The bits no digit 1..9 uses: bit 0 and bits 10..31. */
  const Unused: Mask := 0xFFFF_FC01

  /** The single-bit mask for digit `n`, written `1 << n` in the source. */
  function Bit(n: nat): Mask
    requires n <= 9
  {
    (1 as Mask) << n
  }

  /** The mask with the bit of digit `n` set, `m | (1 << n)`: the `|=` of a placement. */
  function With(m: Mask, n: nat): (r: Mask)
    requires n <= 9
    ensures Test(r, n) == Bit(n)
  {
    m | Bit(n)
  }

  /** The mask with the bit of digit `n` flipped, `m ^ (1 << n)`: the `^=` of an undo. */
  function Toggle(m: Mask, n: nat): (r: Mask)
    requires n <= 9
    ensures Test(r, n) == 0 <==> Test(m, n) != 0
  {
    ToggleFlipsCore(m, n);
    m ^ Bit(n)
  }

  /** The bit of digit `n` in `m`, `m & (1 << n)`: non-zero exactly when `n` is in the set. */
  function Test(m: Mask, n: nat): (r: Mask)
    requires n <= 9
    ensures r == 0 || r == Bit(n)
  {
    m & Bit(n)
  }

  /** The bits of `m` that no digit uses. */
  function Stray(m: Mask): Mask {
    m & Unused
  }

  /** The union of three masks, `x | y | z`. */
  function Union(x: Mask, y: Mask, z: Mask): (r: Mask)
    ensures r & Unused == 0 <==> x & Unused == 0 && y & Unused == 0 && z & Unused == 0
  {
    x | y | z
  }

  /** The bits of the nine digits, as constants. */
  lemma BitValues()
    ensures Bit(1) == 0x2 && Bit(2) == 0x4 && Bit(3) == 0x8 && Bit(4) == 0x10 && Bit(5) == 0x20
    ensures Bit(6) == 0x40 && Bit(7) == 0x80 && Bit(8) == 0x100 && Bit(9) == 0x200
  {
  }

  /** The all-zero mask (the `fill(0)` of the source) holds no digit and no stray bit. */
  lemma ZeroBits(n: nat)
    requires n <= 9
    ensures Test(0, n) == 0 && Stray(0) == 0
  {
  }

  lemma AddBitsCore(x: Mask, n: nat, m: nat)
    requires n <= 9 && m <= 9
    ensures (x | Bit(n)) & Bit(m) != 0 <==> x & Bit(m) != 0 || m == n
  {
  }

  /** Setting the bit of `n` (the `|=` of the source) adds exactly `n` to the set. */
  lemma AddBits(x: Mask, n: nat, m: nat)
    requires n <= 9 && m <= 9
    ensures Test(With(x, n), m) != 0 <==> Test(x, m) != 0 || m == n
  {
    AddBitsCore(x, n, m);
  }

  lemma UnionBitsCore(x: Mask, y: Mask, z: Mask, n: nat)
    requires n <= 9
    ensures (x | y | z) & Bit(n) != 0 <==> x & Bit(n) != 0 || y & Bit(n) != 0 || z & Bit(n) != 0
  {
  }

  /** The union of three masks holds exactly the digits of any of them. */
  lemma UnionBits(x: Mask, y: Mask, z: Mask, n: nat)
    requires n <= 9
    ensures Test(Union(x, y, z), n) != 0 <==> Test(x, n) != 0 || Test(y, n) != 0 || Test(z, n) != 0
  {
    var b := Bit(n);
    assert Test(Union(x, y, z), n) == (x | y | z) & b;
    assert Test(x, n) == x & b && Test(y, n) == y & b && Test(z, n) == z & b;
    UnionBitsCore(x, y, z, n);
  }

  lemma AddKeepsStrayCore(x: Mask, n: nat)
    requires 1 <= n <= 9 && x & Unused == 0
    ensures (x | Bit(n)) & Unused == 0
  {
  }

  /** Adding a digit 1..9 to a mask of digits 1..9 keeps it free of stray bits: bit 0 is
      never set, because the source skips empty cells. */
  lemma AddKeepsStray(x: Mask, n: nat)
    requires 1 <= n <= 9 && Stray(x) == 0
    ensures Stray(With(x, n)) == 0
  {
    AddKeepsStrayCore(x, n);
  }

  lemma ToggleFlipsCore(x: Mask, n: nat)
    requires n <= 9
    ensures (x ^ Bit(n)) & Bit(n) == 0 <==> x & Bit(n) != 0
  {
  }

  lemma ToggleUndoCore(x: Mask, n: nat)
    requires n <= 9 && x & Bit(n) == 0
    ensures (x | Bit(n)) ^ Bit(n) == x
  {
  }

  /** XOR-ing the bit back off (the `^=` of the undo) restores the mask exactly, provided
      the bit was clear before it was set. */
  lemma ToggleUndo(x: Mask, n: nat)
    requires n <= 9 && Test(x, n) == 0
    ensures Toggle(With(x, n), n) == x
  {
    ToggleUndoCore(x, n);
  }

  lemma ToggleNeedsClearBitCore(x: Mask, n: nat)
    requires n <= 9 && x & Bit(n) != 0
    ensures (x | Bit(n)) ^ Bit(n) != x
  {
  }

  /** When the bit was already set, the XOR clears it instead of restoring the mask: the undo
      depends on the bit having been clear. */
  lemma ToggleNeedsClearBit(x: Mask, n: nat)
    requires n <= 9 && Test(x, n) != 0
    ensures Toggle(With(x, n), n) != x
  {
    ToggleNeedsClearBitCore(x, n);
  }
}
