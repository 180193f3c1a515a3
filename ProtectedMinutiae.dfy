/**
 * What the protected minutiae template (ProtectedMinutiaeTemplate.cpp)
 * and the protected minutiae record (ProtectedMinutiaeRecord.cpp) share:
 * the ten-byte header of their serialized form (three letters, six
 * version digits and a zero byte), their one- and two-byte big-endian
 * fields, the quantisation of a minutia's cell, and the hexagonal grid,
 * whose size updateGrid computes in floating point and which the model
 * takes as a given function of width, height and grid distance.
 */
module ProtectedMinutiae {
  import opened MathTools
  import opened BigIntegerBytes
  import opened FuzzyVaultTools
  import opened Vaults
  import FuzzyVaults

  /**
   * The number of points updateGrid keeps for a width, a height and a
   * grid distance: the points of a hexagonal grid within the circle
   * around the image. It is computed in floating point, outside this
   * model.
   */
  type GridCount = (int, int, int) -> nat

  // ---------------------------------------------------------------------
  // Header and fields

  /** isdigit on a byte: '0' .. '9'. */
  predicate IsDigit(b: Byte)
  {
    48 <= b <= 57
  }

  /**
   * The header check of fromBytes: 'P', 'M' and the letter c, six
   * version digits and a terminating zero byte.
   */
  predicate HeaderAccepted(data: seq<Byte>, c: Byte)
    requires |data| >= 10
  {
    && data[0] == 80 && data[1] == 77 && data[2] == c && data[9] == 0
    && forall j :: 3 <= j < 9 ==> IsDigit(data[j])
  }

  /** The two low bytes of x as uint32_t, most significant first: a 16-bit field of toBytes. */
  function Short(x: int): (r: seq<Byte>)
    ensures |r| == 2
  {
    BigEndian(Uint32(x), 2)
  }

  /** (uint8_t)x: a one-byte field of toBytes. */
  function Octet(x: int): Byte
  {
    Uint32(x) % 256
  }

  /** The 16-bit field at the offset: `(int)data[o] << 8` plus `data[o + 1]`. */
  function ReadShort(data: seq<Byte>, o: nat): (x: nat)
    requires o + 2 <= |data|
    ensures x < 65536
  {
    FuzzyVaults.ReadBigEndianBelow(data[o..o + 2]);
    ReadBigEndian(data[o..o + 2])
  }

  /** A 16-bit field read back. */
  lemma ShortBack(x: int)
    requires 0 <= x < 65536
    ensures ReadBigEndian(Short(x)) == x
  {
    assert Pow256(2) == 65536 by {
      assert Pow256(1) == 256;
    }
    ReadBackWithin(x, 2);
  }

  /** The 16-bit field at an offset that holds Short(x). */
  lemma ShortAt(r: seq<Byte>, o: nat, x: int)
    requires o + 2 <= |r| && r[o..o + 2] == Short(x) && 0 <= x < 65536
    ensures ReadShort(r, o) == x
  {
    ShortBack(x);
  }

  /** A one-byte field read back. */
  lemma OctetBackWithin(x: int)
    requires 0 <= x < 256
    ensures Octet(x) == x
  {
  }

  /** The slice of a concatenation that is its middle part. */
  lemma MiddleOf(r: seq<Byte>, a: seq<Byte>, b: seq<Byte>, c: seq<Byte>)
    requires r == a + b + c
    ensures r[|a|..|a| + |b|] == b && r[..|a|] == a && r[|a| + |b|..] == c
  {
  }

  /** (int)getCardinality() for the field of the defining polynomial rep: 2^d as uint32_t, read as int. */
  function SignedCardinality(rep: nat): int
    requires AcceptedField(rep)
  {
    Int32(Pow2(FieldDegree(rep)))
  }

  /** A cardinality that passes the check of fromBytes is the true cardinality. */
  lemma SignedCardinalityBound(rep: nat, bound: int)
    requires AcceptedField(rep) && SignedCardinality(rep) >= bound >= 0
    ensures Pow2(FieldDegree(rep)) >= bound
  {
  }

  /** The default grid distance of a resolution: 29/569 of the dpi, rounded to the nearest integer. */
  function DefaultGridDist(dpi: int): (g: int)
    requires dpi >= 0
    ensures dpi >= 10 ==> g >= 1
  {
    (58 * dpi + 569) / 1138
  }

  /**
   * The default grid distance is within one half of 29/569 of the dpi
   * (for an integer dpi the quotient is never halfway between two), and
   * for 300 .. 1000 dpi it lies between 15 and 51.
   */
  lemma DefaultGridDistNearest(dpi: int)
    requires dpi >= 0
    ensures var g := DefaultGridDist(dpi); 2 * 569 * g - 569 <= 2 * 29 * dpi < 2 * 569 * g + 569
    ensures 300 <= dpi <= 1000 ==> 15 <= DefaultGridDist(dpi) <= 51
  {
  }

  // ---------------------------------------------------------------------
  // Quantisation with de-duplication, as both containers do it

  /**
   * quantize(array, view, tmax): the quantisations qs of a view's
   * minutiae, in order of decreasing quality, go to array from start on,
   * each only once, while fewer than tmax are kept. The result t is at
   * most tmax, the t values are pairwise distinct quantisations of the
   * view, and when fewer than tmax are kept every quantisation is kept.
   */
  method QuantizeView(a: array<nat>, start: nat, qs: seq<nat>, tmax: int) returns (t: nat)
    requires tmax >= 0 && start + |Kept([], qs, tmax)| <= a.Length
    modifies a
    ensures t <= tmax && t == |Kept([], qs, tmax)| && a[start..start + t] == Kept([], qs, tmax)
    ensures Unique(a[start..start + t]) && forall q :: q in a[start..start + t] ==> q in qs
    ensures t < tmax ==> forall q :: q in qs ==> q in a[start..start + t]
    ensures a[..start] == old(a[..start]) && a[start + t..] == old(a[start + t..])
  {
    KeptGrows([], qs, tmax);
    t := QuantizeDistinct(a, start, qs, tmax);
    KeptDistinct([], qs, tmax);
    if t < tmax {
      KeptComplete([], qs, tmax);
    }
  }
}
