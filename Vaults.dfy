/**
 * What the three vault containers (FuzzyVault, ProtectedMinutiaeTemplate
 * and ProtectedMinutiaeRecord) share: their byte buffers and field, the
 * big-endian integer fields of their serialisation, the field-size loop
 * of updateField, the de-duplicating quantisation loop, the packing and
 * encryption of the vault polynomial (packVaultPolynomial and
 * unpackVaultPolynomial), the unlocking set that open builds and the
 * list-decoding step of decode.
 *
 * The serialised bytes and the buffers are bytes (naturals below 256);
 * AES works on uint8_t (bv8) and the conversion happens at its calls. SHA-1 is a
 * parameter `sha`; the key derivation hashes the slow-down value, and its
 * digest is a parameter `digestOf`.
 */
module Vaults {
  import opened MathTools
  import Aes
  import BigIntegerLimbs
  import opened BigIntegerBytes
  import opened BitPacking
  import opened SmallBinaryFieldPolynomials
  import opened FuzzyVaultTools
  import opened Features

  // ---------------------------------------------------------------------
  // Buffers, fields, the decoders' results

  /** A buffer the container allocated with malloc, or NULL. */
  datatype Buffer = Null | Data(bytes: seq<Byte>)

  /** The container's finite field: none yet (NULL), or the field defined by the binary polynomial rep. */
  datatype Gf = NoField | Gf(rep: nat)

  datatype Option<T> = None | Some(value: T)

  /** The degree of the field that the polynomial with bits rep defines. */
  function FieldDegree(rep: nat): int
  {
    Digits(rep) - 1
  }

  /** SmallBinaryField accepts a defining polynomial of degree 1 .. 31 only. */
  predicate AcceptedField(rep: nat)
  {
    1 <= FieldDegree(rep) <= 31
  }

  // ---------------------------------------------------------------------
  // Big-endian fields

  /** The w low bytes of x, most significant first: the `>> 24`, `>> 16`, ... stores. */
  function BigEndian(x: nat, w: nat): (r: seq<Byte>)
    ensures |r| == w
  {
    if w == 0 then [] else BigEndian(x / 256, w - 1) + [x % 256]
  }

  /** The value of bytes read most significant first: the `<<= 8` and `|=` loads. */
  function ReadBigEndian(s: seq<Byte>): nat
  {
    if |s| == 0 then 0 else 256 * ReadBigEndian(s[..|s| - 1]) + s[|s| - 1]
  }

  /** C's conversion of an int to uint32_t: two's complement, modulo 2^32. */
  function Uint32(x: int): (u: nat)
    ensures u < WORD32
  {
    x % WORD32
  }

  /** The int whose two's complement bits a 32-bit word holds. */
  function Int32(u: nat): int
  {
    if u < 0x8000_0000 then u else u - WORD32
  }

  lemma {:induction false} DivModNest(x: nat, b: nat)
    requires b > 0
    ensures x % (256 * b) == 256 * ((x / 256) % b) + x % 256
  {
    var q, r := x / 256, x % 256;
    var q2, r2 := q / b, q % b;
    assert q == b * q2 + r2;
    assert x == 256 * q + r;
    assert x == (256 * b) * q2 + (256 * r2 + r);
    assert 256 * r2 + r < 256 * b;
    BigIntegerLimbs.DivModUnique(x, 256 * b, q2, 256 * r2 + r);
  }

  /** Reading back w big-endian bytes gives x modulo 256^w. */
  lemma {:induction false} BigEndianRoundTrip(x: nat, w: nat)
    ensures ReadBigEndian(BigEndian(x, w)) == x % Pow256(w)
    decreases w
  {
    if w > 0 {
      var r := BigEndian(x, w);
      assert r[..w - 1] == BigEndian(x / 256, w - 1);
      BigEndianRoundTrip(x / 256, w - 1);
      DivModNest(x, Pow256(w - 1));
    }
  }

  /** An int written as its uint32 bits and read back as an int is unchanged. */
  lemma Int32RoundTrip(x: int)
    requires -0x8000_0000 <= x < 0x8000_0000
    ensures Int32(ReadBigEndian(BigEndian(Uint32(x), 4))) == x
  {
    BigEndianRoundTrip(Uint32(x), 4);
    assert Pow256(4) == WORD32 by {
      assert Pow256(1) == 256 && Pow256(2) == 65536 && Pow256(3) == 0x100_0000;
    }
  }

  /** A value below 256^w survives the round trip. */
  lemma ReadBackWithin(x: nat, w: nat)
    requires x < Pow256(w)
    ensures ReadBigEndian(BigEndian(x, w)) == x
  {
    BigEndianRoundTrip(x, w);
  }

  // ---------------------------------------------------------------------
  // Bytes as numbers and as uint8_t

  function AsOctets(s: seq<Byte>): (r: seq<bv8>)
    ensures |r| == |s|
  {
    seq(|s|, i requires 0 <= i < |s| => s[i] as bv8)
  }

  function AsBytes(s: seq<bv8>): (r: seq<Byte>)
    ensures |r| == |s|
  {
    seq(|s|, i requires 0 <= i < |s| => s[i] as nat)
  }

  lemma ByteModulo(b: nat)
    requires b < 256
    ensures ((b as bv8) as nat) % 256 == b % 256
  {
  }

  lemma OctetBelow(c: bv8)
    ensures c as nat < 256
  {
  }

  lemma EqualBelow(x: nat, b: nat)
    requires x % 256 == b % 256 && x < 256 && b < 256
    ensures x == b
  {
  }

  /** A byte converted to uint8_t and back is unchanged. */
  lemma ByteBack(b: Byte)
    ensures (b as bv8) as nat == b
  {
    ByteModulo(b);
    OctetBelow(b as bv8);
    EqualBelow((b as bv8) as nat, b);
  }

  lemma OctetBack(b: bv8)
    ensures ((b as nat) as bv8) == b
  {
  }

  lemma BytesOctets(s: seq<Byte>)
    ensures AsBytes(AsOctets(s)) == s
  {
    forall i | 0 <= i < |s|
      ensures AsBytes(AsOctets(s))[i] == s[i]
    {
      ByteBack(s[i]);
    }
  }

  lemma OctetsBytes(s: seq<bv8>)
    ensures AsOctets(AsBytes(s)) == s
  {
    forall i | 0 <= i < |s|
      ensures AsOctets(AsBytes(s))[i] == s[i]
    {
      OctetBack(s[i]);
    }
  }

  // ---------------------------------------------------------------------
  // AES on whole buffers

  /** The bytes AES-128 in CBC mode makes of the bytes p under the key schedule ws. */
  function Encrypted(gf: (bv8, bv8) -> bv8, ws: seq<bv32>, p: seq<Byte>): (c: seq<Byte>)
    requires |ws| == 44 && |p| % 16 == 0
    ensures |c| == |p|
  {
    AsBytes(Aes.CbcEncrypted(gf, ws, AsOctets(p)))
  }

  function Decrypted(gf: (bv8, bv8) -> bv8, ws: seq<bv32>, c: seq<Byte>): (p: seq<Byte>)
    requires |ws| == 44 && |c| % 16 == 0
    ensures |p| == |c|
  {
    AsBytes(Aes.CbcDecrypted(gf, ws, AsOctets(c)))
  }

  /** Decryption undoes encryption on bytes as on uint8_t. */
  lemma BytesRoundTrip(gf: (bv8, bv8) -> bv8, ws: seq<bv32>, p: seq<Byte>)
    requires |ws| == 44 && |p| % 16 == 0 && Aes.MixColumnInvertible(gf)
    ensures Decrypted(gf, ws, Encrypted(gf, ws, p)) == p
  {
    OctetsBytes(Aes.CbcEncrypted(gf, ws, AsOctets(p)));
    Aes.CbcRoundTrip(gf, ws, AsOctets(p));
    BytesOctets(p);
  }

  /** Encryption under a fresh copy of the key, which leaves the key as it is. */
  method SealCopy(key: Aes.Aes128, p: seq<Byte>) returns (c: seq<Byte>)
    requires key.Valid() && |p| % 16 == 0
    ensures c == Encrypted(key.gf, key.w[..], p)
  {
    var aes := new Aes.Aes128.Copy(key);
    c := Seal(aes, p);
  }

  /** Decryption under a fresh copy of the key, which leaves the key as it is. */
  method UnsealCopy(key: Aes.Aes128, c: seq<Byte>) returns (p: seq<Byte>)
    requires key.Valid() && |c| % 16 == 0
    ensures p == Decrypted(key.gf, key.w[..], c)
  {
    var aes := new Aes.Aes128.Copy(key);
    p := Unseal(aes, c);
  }

  /** `aes.encrypt(buf, buf, n)` on a copy of the n bytes p. */
  method Seal(aes: Aes.Aes128, p: seq<Byte>) returns (c: seq<Byte>)
    requires aes.Valid() && |p| % 16 == 0
    modifies aes.state
    ensures c == Encrypted(aes.gf, aes.w[..], p)
  {
    var o := AsOctets(p);
    ghost var ws := aes.w[..];
    var buf := new bv8[|o|](i requires 0 <= i < |o| => o[i]);
    assert buf[..] == o;
    assert buf[..|o|] == buf[..] && buf[|o|..] == [];
    var ok := aes.Encrypt(buf, buf, |o|);
    assert aes.w[..] == ws;
    var e := buf[..];
    if |o| > 0 {
      assert e == Aes.CbcEncrypted(aes.gf, ws, o) + [];
    }
    assert e == Aes.CbcEncrypted(aes.gf, ws, o);
    c := AsBytes(e);
  }

  /** `aes.decrypt(out, data, n)`: the n bytes c decrypted into a buffer of their own. */
  method Unseal(aes: Aes.Aes128, c: seq<Byte>) returns (p: seq<Byte>)
    requires aes.Valid() && |c| % 16 == 0
    modifies aes.state
    ensures p == Decrypted(aes.gf, aes.w[..], c)
  {
    var o := AsOctets(c);
    ghost var ws := aes.w[..];
    var buf := new bv8[|o|](i requires 0 <= i < |o| => o[i]);
    assert buf[..] == o;
    assert buf[..|o|] == buf[..] && buf[|o|..] == [];
    var ok := aes.Decrypt(buf, buf, |o|);
    assert aes.w[..] == ws;
    var e := buf[..];
    if |o| > 0 {
      assert e == Aes.CbcDecrypted(aes.gf, ws, o) + [];
    }
    assert e == Aes.CbcDecrypted(aes.gf, ws, o);
    p := AsBytes(e);
  }

  // ---------------------------------------------------------------------
  // updateField

  /**
   * The degree updateField picks for n features: one more than the
   * binary digits of n, so that the field has room for n features and as
   * many blending elements.
   */
  method MinimalDegree(n: int) returns (degree: nat)
    requires n >= 0
    ensures degree == Digits(n) + 1
    ensures 2 * n < Pow2(degree) && (n == 0 || Pow2(degree - 2) <= n)
  {
    degree := 0;
    var tmp := n;
    while tmp != 0
      invariant tmp >= 0 && degree + Digits(tmp) == Digits(n)
      decreases tmp
    {
      degree := degree + 1;
      tmp := tmp / 2;
    }
    degree := degree + 1;
    DigitsIsLeastPower(n);
  }

  /** SmallBinaryField(degree) defines its field by some binary polynomial of that degree. */
  lemma DefiningPolynomialExists(degree: nat)
    ensures FieldDegree(Pow2(degree)) == degree
    decreases degree
  {
    if degree > 0 {
      DefiningPolynomialExists(degree - 1);
      assert Pow2(degree) / 2 == Pow2(degree - 1);
    }
  }

  // ---------------------------------------------------------------------
  // Quantisation with de-duplication

  /**
   * What the quantisation loop keeps: walking the quantisations qs in
   * order while fewer than tmax are kept, each one not yet kept is
   * appended to acc.
   */
  function Kept(acc: seq<nat>, qs: seq<nat>, tmax: int): seq<nat>
    decreases |qs|
  {
    if |qs| == 0 || |acc| >= tmax then acc
    else if qs[0] in acc then Kept(acc, qs[1..], tmax)
    else Kept(acc + [qs[0]], qs[1..], tmax)
  }

  /** Keeping only appends, and never beyond tmax. */
  lemma {:induction false} KeptGrows(acc: seq<nat>, qs: seq<nat>, tmax: int)
    ensures |Kept(acc, qs, tmax)| >= |acc| && Kept(acc, qs, tmax)[..|acc|] == acc
    ensures |acc| <= tmax ==> |Kept(acc, qs, tmax)| <= tmax
    decreases |qs|
  {
    if |qs| > 0 && |acc| < tmax {
      if qs[0] in acc {
        KeptGrows(acc, qs[1..], tmax);
      } else {
        KeptGrows(acc + [qs[0]], qs[1..], tmax);
        assert (acc + [qs[0]])[..|acc|] == acc;
      }
    }
  }

  /** The kept quantisations are pairwise distinct and each comes from qs or acc. */
  lemma {:induction false} KeptDistinct(acc: seq<nat>, qs: seq<nat>, tmax: int)
    requires Unique(acc)
    ensures Unique(Kept(acc, qs, tmax))
    ensures forall q :: q in Kept(acc, qs, tmax) ==> q in acc || q in qs
    decreases |qs|
  {
    if |qs| > 0 && |acc| < tmax {
      if qs[0] in acc {
        KeptDistinct(acc, qs[1..], tmax);
      } else {
        var acc' := acc + [qs[0]];
        assert Unique(acc') by {
          forall a, b | 0 <= a < b < |acc'|
            ensures acc'[a] != acc'[b]
          {
            if b == |acc| {
              assert acc'[a] == acc[a];
            }
          }
        }
        KeptDistinct(acc', qs[1..], tmax);
      }
    }
  }

  /** When fewer than tmax are kept, every quantisation was kept. */
  lemma {:induction false} KeptComplete(acc: seq<nat>, qs: seq<nat>, tmax: int)
    requires |Kept(acc, qs, tmax)| < tmax
    ensures forall q :: q in qs ==> q in Kept(acc, qs, tmax)
    decreases |qs|
  {
    if |qs| > 0 {
      var rest := qs[1..];
      var acc' := if qs[0] in acc then acc else acc + [qs[0]];
      KeptComplete(acc', rest, tmax);
      KeptGrows(acc', rest, tmax);
      assert qs[0] in acc' by {
        if qs[0] !in acc {
          assert acc'[|acc|] == qs[0];
        }
      }
      assert qs[0] in Kept(acc', rest, tmax)[..|acc'|];
      assert qs == [qs[0]] + rest;
    }
  }

  /** The search of the inner loop: is q among the t entries from start on? */
  method Contained(a: array<nat>, start: nat, t: nat, q: nat) returns (found: bool)
    requires start + t <= a.Length
    ensures found <==> q in a[start..start + t]
  {
    var j := 0;
    while j < t
      invariant 0 <= j <= t
      invariant q !in a[start..start + j]
    {
      if a[start + j] == q {
        assert a[start..start + t][j] == q;
        return true;
      }
      assert a[start..start + j + 1] == a[start..start + j] + [a[start + j]];
      j := j + 1;
    }
    return false;
  }

  /**
   * quantize(array, view, tmax): the quantisations qs of the view's
   * minutiae in quality order are appended to array from start on, each
   * only once, while fewer than tmax are kept; the result is their number.
   */
  method QuantizeDistinct(a: array<nat>, start: nat, qs: seq<nat>, tmax: int) returns (t: nat)
    requires tmax >= 0
    requires start + |Kept([], qs, tmax)| <= a.Length
    modifies a
    ensures t == |Kept([], qs, tmax)| && a[start..start + t] == Kept([], qs, tmax)
    ensures a[..start] == old(a[..start]) && a[start + t..] == old(a[start + t..])
  {
    ghost var final := Kept([], qs, tmax);
    t := 0;
    var j := 0;
    while j < |qs| && t < tmax
      invariant 0 <= j <= |qs| && t <= |final|
      invariant Kept(a[start..start + t], qs[j..], tmax) == final
      invariant a[..start] == old(a[..start]) && a[start + t..] == old(a[start + t..])
    {
      ghost var acc := a[start..start + t];
      var q := qs[j];
      var found := Contained(a, start, t, q);
      assert qs[j..][1..] == qs[j + 1..];
      if !found {
        KeptGrows(acc + [q], qs[j + 1..], tmax);
        a[start + t] := q;
        assert a[start..start + t + 1] == acc + [q];
        t := t + 1;
      }
      j := j + 1;
    }
    if j < |qs| {
      assert Kept(a[start..start + t], qs[j..], tmax) == a[start..start + t];
    }
  }

  // ---------------------------------------------------------------------
  // Packing the vault polynomial

  /** The coefficients of X^0 .. X^(t-1), as packVaultPolynomial collects them with getCoeff. */
  function LowCoefficients(v: seq<nat>, t: nat): (r: seq<nat>)
    ensures |r| == t && forall j :: 0 <= j < t ==> r[j] == Coeff(v, j)
  {
    seq(t, j => Coeff(v, j))
  }

  /**
   * The vault data packVaultPolynomial stores for the vault polynomial v:
   * its t low coefficients as d-bit vectors packed into
   * vaultDataSize(t, d) bytes as concat_bit_vectors writes them (the byte
   * after a stream that ends on a byte boundary stays zero), encrypted by
   * AES-128 in CBC mode under the key schedule ws.
   */
  function SealedVault(gf: (bv8, bv8) -> bv8, ws: seq<bv32>, v: seq<nat>, t: nat, d: nat,
                       bitDraws: seq<Byte>, byteDraws: seq<Byte>): (c: seq<Byte>)
    requires |ws| == 44 && |bitDraws| >= 7 && |byteDraws| >= VaultDataSize(t, d)
    ensures |c| == VaultDataSize(t, d)
  {
    VaultDataSizeFits(t, d);
    Encrypted(gf, ws, PackedAsWritten(Stream(LowCoefficients(v, t), d), bitDraws, byteDraws, VaultDataSize(t, d)))
  }

  /**
   * The vault polynomial unpackVaultPolynomial reads from the data:
   * decrypted, split into t d-bit coefficients, with leading coefficient
   * 1 at X^t.
   */
  function OpenedVault(gf: (bv8, bv8) -> bv8, ws: seq<bv32>, data: seq<Byte>, t: nat, d: nat): (v: seq<nat>)
    requires |ws| == 44 && |data| % 16 == 0 && BitCount(t, d) <= 8 * |data|
    ensures |v| == t + 1 && v[t] == 1
  {
    BitCountIsProduct(t, d);
    Unpacked(BitsOf(Decrypted(gf, ws, data)), d, t) + [1]
  }

  /**
   * Unpacking returns the packed vault polynomial: for every monic v of
   * degree t whose coefficients fit d bits, and whatever the random
   * supplement of the packing.
   */
  lemma VaultRoundTrip(gf: (bv8, bv8) -> bv8, ws: seq<bv32>, v: seq<nat>, t: nat, d: nat,
                       bitDraws: seq<Byte>, byteDraws: seq<Byte>)
    requires Aes.MixColumnInvertible(gf) && |ws| == 44
    requires |bitDraws| >= 7 && |byteDraws| >= VaultDataSize(t, d)
    requires |v| == t + 1 && v[t] == 1 && forall j :: 0 <= j < t ==> v[j] < Pow2(d)
    ensures OpenedVault(gf, ws, SealedVault(gf, ws, v, t, d, bitDraws, byteDraws), t, d) == v
  {
    var n := VaultDataSize(t, d);
    VaultDataSizeFits(t, d);
    var vecs := LowCoefficients(v, t);
    var bytes := PackedAsWritten(Stream(vecs, d), bitDraws, byteDraws, n);
    var sealed := SealedVault(gf, ws, v, t, d, bitDraws, byteDraws);
    assert sealed == Encrypted(gf, ws, bytes);
    assert Decrypted(gf, ws, sealed) == bytes by {
      BytesRoundTrip(gf, ws, bytes);
    }
    assert Unpacked(BitsOf(bytes), d, t) == vecs by {
      SplitPackedAsWritten(vecs, d, n, bitDraws, byteDraws);
    }
    VectorsAndOne(v, vecs, t);
  }

  lemma VectorsAndOne(v: seq<nat>, vecs: seq<nat>, t: nat)
    requires |v| == t + 1 && v[t] == 1 && vecs == LowCoefficients(v, t)
    ensures vecs + [1] == v
  {
    assert vecs == v[..t];
  }

  /** The loop of packVaultPolynomial: coeffs[j] = V.getCoeff(j) for j < t. */
  method CollectCoefficients(V: SmallBinaryFieldPolynomial, t: nat) returns (coeffs: seq<nat>)
    requires V.Sized()
    ensures coeffs == LowCoefficients(V.Value(), t)
  {
    coeffs := [];
    var j := 0;
    while j < t
      invariant 0 <= j <= t && |coeffs| == j
      invariant forall i :: 0 <= i < j ==> coeffs[i] == Coeff(V.Value(), i)
    {
      coeffs := coeffs + [V.GetCoeff(j)];
      j := j + 1;
    }
  }

  /**
   * packVaultPolynomial after the slow-down value is drawn and its key
   * derived: the t low coefficients of V packed as d-bit vectors into
   * vaultDataSize(t, d) bytes, then encrypted in place.
   */
  method PackVault(V: SmallBinaryFieldPolynomial, t: nat, d: nat, aes: Aes.Aes128,
                   bitDraws: seq<Byte>, byteDraws: seq<Byte>) returns (data: seq<Byte>)
    requires V.Sized() && aes.Valid()
    requires |bitDraws| >= 7 && |byteDraws| >= VaultDataSize(t, d)
    modifies aes.state
    ensures data == SealedVault(aes.gf, aes.w[..], V.Value(), t, d, bitDraws, byteDraws)
  {
    var n := VaultDataSize(t, d);
    VaultDataSizeFits(t, d);
    var coeffs := CollectCoefficients(V, t);
    var bits := new Byte[n];
    ConcatBitVectorsAsWritten(bits, coeffs, d, bitDraws, byteDraws);
    data := Seal(aes, bits[..]);
  }

  /** The loop of unpackVaultPolynomial: V.setCoeff(j, coeffs[j]) for j < t, after V.setCoeff(t, 1). */
  method SetLowCoefficients(V: SmallBinaryFieldPolynomial, coeffs: seq<nat>)
    requires V.Valid() && V.Value() == LowCoefficients([], |coeffs|) + [1]
    modifies V
    ensures V.Valid() && V.Value() == coeffs + [1]
  {
    var t := |coeffs|;
    var j := 0;
    while j < t
      invariant 0 <= j <= t && V.Valid()
      invariant forall i :: Coeff(V.Value(), i) == Coeff(coeffs[..j] + LowCoefficients([], t - j) + [1], i)
    {
      V.SetCoeff(j, coeffs[j]);
      ghost var before := coeffs[..j] + LowCoefficients([], t - j) + [1];
      ghost var after := coeffs[..j + 1] + LowCoefficients([], t - j - 1) + [1];
      forall i
        ensures Coeff(after, i) == (if i == j then coeffs[j] else Coeff(before, i))
      {
      }
      j := j + 1;
    }
    assert coeffs[..t] + LowCoefficients([], 0) + [1] == coeffs + [1];
    NormalizedUnique(V.Value(), coeffs + [1]);
  }

  /**
   * unpackVaultPolynomial after the key is derived: the data decrypted,
   * split into t d-bit coefficients and set into a fresh polynomial with
   * leading coefficient 1 at X^t.
   */
  method UnpackVault(data: seq<Byte>, t: nat, d: nat, aes: Aes.Aes128) returns (V: SmallBinaryFieldPolynomial)
    requires aes.Valid() && d <= 32 && |data| % 16 == 0 && BitCount(t, d) <= 8 * |data|
    modifies aes.state
    ensures fresh(V) && V.Valid() && V.Value() == OpenedVault(aes.gf, aes.w[..], data, t, d)
  {
    BitCountIsProduct(t, d);
    var plain := Unseal(aes, data);
    var coeffs := new nat[t];
    SplitIntoBitVectors(coeffs, plain, d);
    V := new SmallBinaryFieldPolynomial();
    V.SetCoeff(t, 1);
    assert V.Value() == LowCoefficients([], t) + [1] by {
      NormalizedUnique(V.Value(), LowCoefficients([], t) + [1]);
    }
    SetLowCoefficients(V, coeffs[..]);
  }

  // ---------------------------------------------------------------------
  // The unlocking set

  /**
   * The unlocking set of open for the vault polynomial V: x[j] is the
   * query feature B[j] through the permutation and y[j] = V(x[j]).
   */
  method UnlockingSet(F: Field, permutation: seq<nat>, query: seq<nat>, V: SmallBinaryFieldPolynomial)
    returns (x: seq<nat>, y: seq<nat>)
    requires V.Sized() && Below(query, |permutation|)
    ensures |x| == |query| && |y| == |query|
    ensures forall j :: 0 <= j < |query| ==> x[j] == permutation[query[j]] && y[j] == Horner(F, V.Value(), x[j])
  {
    x, y := [], [];
    var j := 0;
    while j < |query|
      invariant 0 <= j <= |query| && |x| == j && |y| == j
      invariant forall i :: 0 <= i < j ==> x[i] == permutation[query[i]] && y[i] == Horner(F, V.Value(), x[i])
    {
      var a := permutation[query[j]];
      var b := V.Eval(F, a);
      x, y := x + [a], y + [b];
      j := j + 1;
    }
  }

  /** Distinct query features give distinct abscissas through a permutation. */
  lemma AbscissasDistinct(permutation: seq<nat>, query: seq<nat>, x: seq<nat>)
    requires IsPermutation(permutation) && Unique(query) && Below(query, |permutation|)
    requires |x| == |query| && forall j :: 0 <= j < |query| ==> x[j] == permutation[query[j]]
    ensures Unique(x)
  {
  }

  // ---------------------------------------------------------------------
  // Decoding with candidate lists

  /**
   * The decoders decode calls: the Reed-Solomon decoder, which may find a
   * polynomial for (x, y, u, k), and the Guruswami-Sudan decoder, which
   * lists candidates for multiplicity m0. Both are outside this model.
   */
  datatype Decoders = Decoders(rs: (seq<nat>, seq<nat>, int, int) -> Option<seq<nat>>,
                               gs: (seq<nat>, seq<nat>, int, int, int) -> seq<seq<nat>>)

  /** The candidate RS decoding finds whose hash is the vault's. */
  predicate RsMatches(dec: Decoders, x: seq<nat>, y: seq<nat>, u: int, k: int, m: int,
                      hash: seq<bv8>, sha: seq<nat> -> seq<bv8>)
  {
    m >= 0 && dec.rs(x, y, u, k).Some? && sha(Trim(dec.rs(x, y, u, k).value)) == hash
  }

  /** Some candidate of the lists for multiplicities 1 .. m hashes to the vault's hash. */
  predicate ListMatches(dec: Decoders, x: seq<nat>, y: seq<nat>, u: int, k: int, m: int,
                        hash: seq<bv8>, sha: seq<nat> -> seq<bv8>)
  {
    exists m0, j :: 1 <= m0 <= m && 0 <= j < |dec.gs(x, y, u, k, m0)| && sha(Trim(dec.gs(x, y, u, k, m0)[j])) == hash
  }

  /** f = _f: the candidate's normalized coefficients. */
  method AssignCandidate(f: SmallBinaryFieldPolynomial, c: seq<nat>)
    modifies f
    ensures f.Valid() && f.Value() == Trim(c)
  {
    var v := Trim(c);
    f.coefficients := v;
    f.degree := |v| - 1;
    assert f.Value() == v;
  }

  /** The Guruswami-Sudan list for one multiplicity, searched for a candidate with the hash. */
  method SearchList(f: SmallBinaryFieldPolynomial, list: seq<seq<nat>>, hash: seq<bv8>, sha: seq<nat> -> seq<bv8>)
    returns (success: bool)
    modifies f
    ensures success ==> f.Valid() && sha(f.Value()) == hash && exists j :: 0 <= j < |list| && f.Value() == Trim(list[j])
    ensures !success ==> unchanged(f) && forall j :: 0 <= j < |list| ==> sha(Trim(list[j])) != hash
  {
    var j := 0;
    while j < |list|
      invariant 0 <= j <= |list|
      invariant forall i :: 0 <= i < j ==> sha(Trim(list[i])) != hash
    {
      if sha(Trim(list[j])) == hash {
        AssignCandidate(f, list[j]);
        return true;
      }
      j := j + 1;
    }
    return false;
  }

  /**
   * decode with Guruswami-Sudan multiplicity m: false when k > u;
   * otherwise the Reed-Solomon candidate, then the list candidates for
   * multiplicities 1 .. m, are hashed, and f is assigned the first whose
   * hash is the vault's. f is unchanged unless one matches.
   */
  method ListDecode(f: SmallBinaryFieldPolynomial, x: seq<nat>, y: seq<nat>, u: int, k: int,
                    hash: seq<bv8>, m: int, sha: seq<nat> -> seq<bv8>, dec: Decoders) returns (success: bool)
    modifies f
    ensures k > u ==> !success
    ensures success ==> f.Valid() && sha(f.Value()) == hash
    ensures !success ==> unchanged(f)
    ensures k <= u ==> (success <==> RsMatches(dec, x, y, u, k, m, hash, sha) || ListMatches(dec, x, y, u, k, m, hash, sha))
  {
    if k > u {
      return false;
    }
    if m >= 0 {
      var r := dec.rs(x, y, u, k);
      if r.Some? && sha(Trim(r.value)) == hash {
        AssignCandidate(f, r.value);
        return true;
      }
    }
    var m0 := 1;
    while m0 <= m
      invariant 1 <= m0 && (m >= 0 ==> m0 <= m + 1) && unchanged(f)
      invariant forall m1, j :: 1 <= m1 < m0 && 0 <= j < |dec.gs(x, y, u, k, m1)| ==> sha(Trim(dec.gs(x, y, u, k, m1)[j])) != hash
    {
      success := SearchList(f, dec.gs(x, y, u, k, m0), hash, sha);
      if success {
        return;
      }
      m0 := m0 + 1;
    }
    return false;
  }
}
