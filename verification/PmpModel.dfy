/**
 Physical memory protection: decoding of the address registers, the first-match decision, the enclave
 split, and the byte lanes of the configuration registers (RISC-V Privileged Specification, section 3.7).
 */
module PmpModel {
  import opened Bits

  const MASK64 := 0x1_0000_0000_0000_0000

  // ---- NAPOT ----

  /** The number of consecutive ones from bit 0. */
  function TrailingOnes(v: nat): nat {
    if v % 2 == 1 then 1 + TrailingOnes(v / 2) else 0
  }

  const ADDRESS_BITS := 54

  /** The 54 bits of an address register that count. */
  function Field(v: nat): nat {
    v % 0x40_0000_0000_0000
  }

  datatype Region = Region(base: int, size: int)

  function DecodeNapot(v: nat): Region {
    if TrailingOnes(Field(v)) >= ADDRESS_BITS then Region(0, MASK64)
    else Region((Field(v) - Field(v) % Pow2(TrailingOnes(Field(v)))) * 4, 8 * Pow2(TrailingOnes(Field(v))))
  }

  /** The address register for the region of `8 * 2^k` bytes at `base`. */
  function EncodeNapot(base: nat, k: nat): nat {
    base / 4 + Pow2(k) - 1
  }

  /** A number with at least `k` trailing ones leaves `2^k - 1` modulo `2^k`, and a zero follows the last one. */
  lemma {:induction false} TrailingOnesShape(v: nat)
    ensures var k := TrailingOnes(v); v % Pow2(k) == Pow2(k) - 1 && v / Pow2(k) % 2 == 0
  {
    if v % 2 == 1 {
      TrailingOnesShape(v / 2);
      var k := TrailingOnes(v / 2);
      HalveRemainder(v, Pow2(k));
      DivDiv(v, 2, Pow2(k));
    } else {
      DivModUnique(v, 1, v, 0);
    }
  }

  lemma {:induction false} TrailingOnesOf(q: nat, k: nat)
    ensures TrailingOnes(2 * q * Pow2(k) + Pow2(k) - 1) == k
  {
    var v := 2 * q * Pow2(k) + Pow2(k) - 1;
    if k > 0 {
      assert 2 * q * Pow2(k) == 2 * (2 * q * Pow2(k - 1));
      assert v / 2 == 2 * q * Pow2(k - 1) + Pow2(k - 1) - 1 && v % 2 == 1;
      TrailingOnesOf(q, k - 1);
    }
  }

  lemma FieldIs54Bits()
    ensures Pow2(54) == 0x40_0000_0000_0000
  {
    PowerSum(27, 27);
    assert Pow2(27) == 0x800_0000 by { PowerSum(9, 18); PowerSum(9, 9); assert Pow2(9) == 512 by { PowerSum(4, 5); } }
  }

  /** The shape of an encoded register, for any power `p`. */
  lemma EncodedShape(base: nat, p: nat, q: nat)
    requires p > 0 && base == 8 * (p * q)
    ensures var v := base / 4 + p - 1; v == 2 * (p * q) + p - 1 && v % p == p - 1
  {
    var v := base / 4 + p - 1;
    MulAssociate(p, 2, q);
    assert p * (2 * q) == 2 * (p * q);
    DivModUnique(v, p, 2 * q, p - 1);
  }

  lemma AlignedIsMultiple(base: nat, p: nat) returns (q: nat)
    requires p > 0 && base % (8 * p) == 0
    ensures base == 8 * (p * q)
  {
    q := base / (8 * p);
    MulAssociate(8, p, q);
  }

  /** Decoding undoes encoding for every aligned region of 8 to 2^56 bytes within the 56-bit space. */
  lemma NapotRoundTrip(base: nat, k: nat)
    requires k <= 53 && base % (8 * Pow2(k)) == 0 && base < 4 * 0x40_0000_0000_0000
    ensures EncodeNapot(base, k) < 0x40_0000_0000_0000
    ensures DecodeNapot(EncodeNapot(base, k)) == Region(base, 8 * Pow2(k))
  {
    hide Pow2, TrailingOnes, DecodeNapot;
    var q := AlignedIsMultiple(base, Pow2(k));
    EncodedShape(base, Pow2(k), q);
    FieldIs54Bits();
    WithinField(q, k);
    TrailingOnesOf(q, k);
    assert 2 * q * Pow2(k) == 2 * (Pow2(k) * q) by { MulAssociate(2, q, Pow2(k)); }
    DecodesTo(EncodeNapot(base, k), k, base);
  }

  lemma DecodesTo(v: nat, k: nat, base: nat)
    requires v < 0x40_0000_0000_0000 && TrailingOnes(v) == k < 54 && v % Pow2(k) == Pow2(k) - 1
    requires base % 4 == 0 && v == base / 4 + Pow2(k) - 1
    ensures DecodeNapot(v) == Region(base, 8 * Pow2(k))
  {
    hide Pow2, TrailingOnes;
    assert Field(v) == v;
  }

  /** A block of `2^(k+1)` that starts below 2^54 ends there at the latest. */
  lemma WithinField(q: nat, k: nat)
    requires k <= 53 && 2 * (Pow2(k) * q) < Pow2(54)
    ensures 2 * q * Pow2(k) + Pow2(k) - 1 < Pow2(54)
  {
    var p, n := Pow2(k), Pow2(53 - k);
    PowerSum(k, 53 - k);
    assert Pow2(54) == 2 * (p * n);
    if q >= n {
      MulMonotone(p, n, q);
    }
    MulMonotone(p, q + 1, n);
    assert p * (q + 1) == p * q + p;
    MulAssociate(2, q, p);
  }

  /** Whatever the register holds, the region is aligned to its size, and encoding gives the 54 bits back. */
  lemma NapotIsAligned(v: nat)
    ensures var r := DecodeNapot(v); r.size > 0 && r.base >= 0 && r.base % r.size == 0 && r.base + r.size <= MASK64
    ensures TrailingOnes(Field(v)) < 54 ==> EncodeNapot(DecodeNapot(v).base, TrailingOnes(Field(v))) == Field(v)
  {
    hide Pow2, TrailingOnes;
    var f := Field(v);
    var k := TrailingOnes(f);
    if k < 54 {
      TrailingOnesShape(f);
      HalfField(k);
      DecodedShape(f, Pow2(k));
      assert DecodeNapot(v) == Region((f - f % Pow2(k)) * 4, 8 * Pow2(k));
    }
  }

  lemma HalfField(k: nat)
    requires k < 54
    ensures Pow2(k) <= 0x20_0000_0000_0000
  {
    hide Pow2;
    PowerMonotone(k, 53);
    FieldIs54Bits();
    PowerSum(1, 53);
    PowerOfOne();
  }

  lemma PowerOfOne()
    ensures Pow2(1) == 2
  {
    assert Pow2(0) == 1;
  }

  /** Clearing the trailing ones leaves an address aligned to the region. */
  lemma DecodedShape(f: nat, p: nat)
    requires 0 < p <= 0x20_0000_0000_0000 && f < 0x40_0000_0000_0000 && f % p == p - 1 && f / p % 2 == 0
    ensures var r := Region((f - f % p) * 4, 8 * p);
      r.size > 0 && r.base >= 0 && r.base % r.size == 0 && r.base + r.size <= MASK64 && r.base / 4 + p - 1 == f
  {
    var q := f / p / 2;
    EvenQuotient(f, p, q);
    EightTimes(p, q);
  }

  lemma EvenQuotient(f: nat, p: nat, q: nat)
    requires p > 0 && f % p == p - 1 && f / p == 2 * q
    ensures f - f % p == 2 * (p * q)
  {
    MulAssociate(p, 2, q);
    assert f == p * (f / p) + f % p;
    assert p * (2 * q) == 2 * (p * q);
  }

  lemma EightTimes(p: nat, q: nat)
    requires p > 0
    ensures 8 * (p * q) % (8 * p) == 0
  {
    MulAssociate(8, p, q);
    DivModUnique(8 * (p * q), 8 * p, q, 0);
  }

  /** All ones stand for the whole address space. */
  lemma AllOnes()
    ensures DecodeNapot(0x3F_FFFF_FFFF_FFFF) == Region(0, MASK64)
  {
    FieldIs54Bits();
    TrailingOnesOf(0, 54);
    assert 2 * 0 * Pow2(54) == 0;
  }
}
