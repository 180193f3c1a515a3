/**
 * The general fuzzy vault of FuzzyVault.cpp: a vault of size n hides up to
 * tmax genuine features of {0, .., n-1}, reordered by a permutation seeded
 * with the hash of a secret polynomial of size k, among chaff points of
 * {n, .., card-1}. The vault polynomial is packed and encrypted with a key
 * derived from a random slow-down value; opening tries every slow-down
 * value. A vault is serialized as an "FVR" record.
 */
module FuzzyVaults {
  import opened MathTools
  import Aes
  import BigIntegerLimbs
  import opened BigIntegerBytes
  import opened BigIntegers
  import opened BitPacking
  import opened SmallBinaryFieldPolynomials
  import opened FuzzyVaultTools
  import opened Features
  import opened Vaults

  // ---------------------------------------------------------------------
  // int arithmetic of vaultDataSize

  /** C's int division, which truncates toward zero. */
  function CDiv(a: int, b: int): int
    requires b > 0
  {
    if a >= 0 then a / b else -((-a) / b)
  }

  /** C's int remainder, which takes the sign of the dividend. */
  function CMod(a: int, b: int): (r: int)
    requires b > 0
    ensures -b < r < b && (a >= 0 ==> r == a % b) && (a < 0 ==> r <= 0)
  {
    a - b * CDiv(a, b)
  }

  /**
   * vaultDataSize() as the int code computes it for any tmax t and
   * degree d, with C's truncating division and remainder.
   */
  function DataSizeAsComputed(t: int, d: int): int
  {
    var b := t * d;
    var n := CDiv(b, 8) + (if CMod(b, 8) != 0 then 1 else 0);
    if CMod(n, 16) != 0 then n + 16 - CMod(n, 16) else n
  }

  /** For a non-negative tmax it is the byte count of the packing. */
  lemma DataSizeAgrees(t: nat, d: nat)
    ensures DataSizeAsComputed(t, d) == VaultDataSize(t, d)
  {
    var b := t * d;
    BitCountIsProduct(t, d);
    assert CDiv(b, 8) == b / 8 && CMod(b, 8) == b % 8;
    var n := b / 8 + (if b % 8 != 0 then 1 else 0);
    assert CMod(n, 16) == n % 16;
  }

  // ---------------------------------------------------------------------
  // The FVR record

  /** The record header: "FVR" with its terminating zero byte. */
  const Magic: seq<Byte> := [70, 86, 82, 0]

  /** A 32-bit field: the value as uint32, most significant byte first. */
  function Word(x: int): (w: seq<Byte>)
    ensures |w| == 4
  {
    BigEndian(Uint32(x), 4)
  }

  /** The unsigned 32-bit field at the offset. */
  function ReadWord(data: seq<Byte>, offset: nat): (x: nat)
    requires offset + 4 <= |data|
    ensures x < WORD32
  {
    ReadBigEndianBelow(data[offset..offset + 4]);
    Pow256Word();
    ReadBigEndian(data[offset..offset + 4])
  }

  lemma {:induction false} ReadBigEndianBelow(s: seq<Byte>)
    ensures ReadBigEndian(s) < Pow256(|s|)
    decreases |s|
  {
    if |s| > 0 {
      ReadBigEndianBelow(s[..|s| - 1]);
    }
  }

  /**
   * The record toBytes writes: header, record size, flag byte (1 for an
   * encrypted vault), n, tmax, k, the field's defining polynomial, the
   * size and bytes of the slow-down factor, the vault data and the hash.
   */
  function Record(encrypted: bool, n: int, tmax: int, k: int, rep: nat,
                  sdf: seq<Byte>, vault: seq<Byte>, hash: seq<Byte>): (r: seq<Byte>)
    ensures |r| == 29 + |sdf| + |vault| + |hash|
  {
    Header(29 + |sdf| + |vault| + |hash|, encrypted, n, tmax, k, rep, |sdf|) + sdf + vault + hash
  }

  /** The 29 bytes before the slow-down factor's bytes. */
  function Header(size: int, encrypted: bool, n: int, tmax: int, k: int, rep: nat, sdfSize: int): (h: seq<Byte>)
    ensures |h| == 29
  {
    Magic + Word(size) + [if encrypted then 1 else 0] + Word(n) + Word(tmax) + Word(k) + Word(rep) + Word(sdfSize)
  }

  /** The fields of a record fromBytes accepts. */
  datatype Fields = Fields(encrypted: bool, n: int, tmax: int, k: int, rep: nat,
                           sdf: seq<Byte>, vault: seq<Byte>, hash: seq<Byte>)

  /** fromBytes returns false, exits the process, or reads a vault. */
  datatype Parsing = Rejected | Halts | Parsed(fields: Fields)

  /** The parameters the constructor FuzzyVault(n, tmax, k) accepts. */
  predicate ValidParameters(n: int, tmax: int, k: int)
  {
    0 < k <= tmax <= n
  }

  /**
   * fromBytes(data, dataSize), step by step. The 32-bit fields are read
   * as int (the record size, n, tmax, k and the slow-down factor's size)
   * or as uint32 (the defining polynomial). A defining polynomial of
   * degree below 1 makes the field constructor exit; so do a negative
   * slow-down factor size (BigInteger::fromBytes), a negative vault data
   * size (malloc) and a negative n (Permutation::setDimension).
   * strict adds the check of the constructor's parameters after k is read.
   */
  function Parse(data: seq<Byte>, dataSize: int, strict: bool): (p: Parsing)
    requires dataSize <= |data|
    ensures p.Parsed? ==> AcceptedField(p.fields.rep) && p.fields.n >= 0 && |p.fields.hash| == 20
    ensures p.Parsed? ==> |p.fields.vault| == DataSizeAsComputed(p.fields.tmax, FieldDegree(p.fields.rep))
    ensures p.Parsed? ==> Uint32(p.fields.n + p.fields.n) <= Pow2(FieldDegree(p.fields.rep))
    ensures p.Parsed? ==> p.fields.n < 0x8000_0000
    ensures p.Parsed? && strict ==> ValidParameters(p.fields.n, p.fields.tmax, p.fields.k)
  {
    if dataSize < 16 || data[..4] != Magic then Rejected
    else
      var size := Int32(ReadWord(data, 4));
      if size > dataSize || size < 9 then Rejected
      else ParseParameters(data, size, strict)
  }

  /** The flag byte, n, tmax and k of a record of the given size. */
  function ParseParameters(data: seq<Byte>, size: int, strict: bool): (p: Parsing)
    requires 9 <= size <= |data|
    ensures p.Parsed? ==> AcceptedField(p.fields.rep) && p.fields.n >= 0 && |p.fields.hash| == 20
    ensures p.Parsed? ==> |p.fields.vault| == DataSizeAsComputed(p.fields.tmax, FieldDegree(p.fields.rep))
    ensures p.Parsed? ==> Uint32(p.fields.n + p.fields.n) <= Pow2(FieldDegree(p.fields.rep))
    ensures p.Parsed? ==> p.fields.n < 0x8000_0000
    ensures p.Parsed? && strict ==> ValidParameters(p.fields.n, p.fields.tmax, p.fields.k)
  {
    var encrypted := data[8] % 2 == 1;
    if size < 13 then Rejected
    else
      var n := Int32(ReadWord(data, 9));
      if size < 17 then Rejected
      else
        var tmax := Int32(ReadWord(data, 13));
        if size < 21 then Rejected
        else
          var k := Int32(ReadWord(data, 17));
          if strict && !ValidParameters(n, tmax, k) then Rejected
          else if size < 25 then Rejected
          else ParseField(data, size, encrypted, n, tmax, k)
  }

  /** The defining polynomial, checked against the vault size. */
  function ParseField(data: seq<Byte>, size: int, encrypted: bool, n: int, tmax: int, k: int): (p: Parsing)
    requires 25 <= size <= |data|
    ensures p.Parsed? ==> AcceptedField(p.fields.rep) && p.fields.n >= 0 && |p.fields.hash| == 20
    ensures p.Parsed? ==> |p.fields.vault| == DataSizeAsComputed(p.fields.tmax, FieldDegree(p.fields.rep))
    ensures p.Parsed? ==> Uint32(p.fields.n + p.fields.n) <= Pow2(FieldDegree(p.fields.rep))
    ensures p.Parsed? ==> p.fields.n == n && p.fields.tmax == tmax && p.fields.k == k
  {
    var rep := ReadWord(data, 21);
    if !AcceptedField(rep) then Halts
    else if Pow2(FieldDegree(rep)) < Uint32(n + n) then Rejected
    else if size < 29 then Rejected
    else ParseData(data, size, encrypted, n, tmax, k, rep)
  }

  /** The slow-down factor, the vault data and the hash. */
  function ParseData(data: seq<Byte>, size: int, encrypted: bool, n: int, tmax: int, k: int, rep: nat): (p: Parsing)
    requires 29 <= size <= |data|
    ensures p.Parsed? ==> p.fields == Fields(encrypted, n, tmax, k, rep, p.fields.sdf, p.fields.vault, p.fields.hash)
    ensures p.Parsed? ==> n >= 0 && |p.fields.hash| == 20
    ensures p.Parsed? ==> |p.fields.vault| == DataSizeAsComputed(tmax, FieldDegree(rep))
  {
    var sdfSize := Int32(ReadWord(data, 25));
    if size < 29 + sdfSize then Rejected
    else if sdfSize < 0 then Halts
    else
      var offset := 29 + sdfSize;
      var vds := DataSizeAsComputed(tmax, FieldDegree(rep));
      if size < offset + vds then Rejected
      else if vds < 0 then Halts
      else if size < offset + vds + 20 then Rejected
      else if n < 0 then Halts
      else Parsed(Fields(encrypted, n, tmax, k, rep, data[29..offset],
                         data[offset..offset + vds], data[offset + vds..offset + vds + 20]))
  }

  /** Where each field of a record sits. */
  lemma RecordLayout(encrypted: bool, n: int, tmax: int, k: int, rep: nat,
                     sdf: seq<Byte>, vault: seq<Byte>, hash: seq<Byte>)
    ensures var r := Record(encrypted, n, tmax, k, rep, sdf, vault, hash);
            var o := 29 + |sdf|;
            && r[..4] == Magic && r[4..8] == Word(29 + |sdf| + |vault| + |hash|)
            && r[8] == (if encrypted then 1 else 0)
            && r[9..13] == Word(n) && r[13..17] == Word(tmax) && r[17..21] == Word(k)
            && r[21..25] == Word(rep) && r[25..29] == Word(|sdf|)
            && r[29..o] == sdf && r[o..o + |vault|] == vault && r[o + |vault|..] == hash
  {
    var r := Record(encrypted, n, tmax, k, rep, sdf, vault, hash);
    var h := Header(29 + |sdf| + |vault| + |hash|, encrypted, n, tmax, k, rep, |sdf|);
    assert r == h + sdf + vault + hash;
    assert r[..29] == h;
    var o := 29 + |sdf|;
    assert r[29..o] == sdf;
    assert r[o..o + |vault|] == vault;
    assert r[o + |vault|..] == hash;
  }

  /** A defining polynomial the field accepts fits 32 bits. */
  lemma AcceptedFits(rep: nat)
    requires AcceptedField(rep)
    ensures rep < WORD32
  {
    DigitsIsLeastPower(rep);
    Pow2Monotone(Digits(rep), 32);
    Pow2Is64();
  }

  /** A signed 32-bit field read back. */
  lemma WordBack(x: int)
    requires -0x8000_0000 <= x < 0x8000_0000
    ensures Int32(ReadBigEndian(Word(x))) == x
  {
    Int32RoundTrip(x);
  }

  /** The signed 32-bit field at an offset that holds Word(x). */
  lemma WordAt(r: seq<Byte>, offset: nat, x: int)
    requires offset + 4 <= |r| && r[offset..offset + 4] == Word(x)
    requires -0x8000_0000 <= x < 0x8000_0000
    ensures Int32(ReadWord(r, offset)) == x
  {
    WordBack(x);
  }

  /** Bit 0 of the flag byte toBytes writes. */
  lemma FlagBit(b: Byte, encrypted: bool)
    requires b == if encrypted then 1 else 0
    ensures b % 2 == 1 <==> encrypted
  {
  }

  /** An unsigned 32-bit field read back. */
  lemma UnsignedWordBack(x: nat)
    requires x < WORD32
    ensures ReadBigEndian(Word(x)) == x
  {
    assert Uint32(x) == x;
    ReadBackWithin(x, 4);
  }

  lemma Uint32Small(x: int)
    requires 0 <= x < WORD32
    ensures Uint32(x) == x
  {
  }

  lemma Pow2Is31()
    ensures Pow2(31) == 0x8000_0000
  {
    Pow2Is64();
  }

  lemma Pow2Is30()
    ensures Pow2(30) == 0x4000_0000
  {
    Pow2Is31();
  }

  /** The last stage of fromBytes on bytes laid out as a record. */
  lemma ParseDataAt(r: seq<Byte>, encrypted: bool, n: int, tmax: int, k: int, rep: nat,
                    sdf: seq<Byte>, vault: seq<Byte>, hash: seq<Byte>)
    requires |r| == 29 + |sdf| + |vault| + |hash| && |hash| == 20 && n >= 0
    requires |vault| == DataSizeAsComputed(tmax, FieldDegree(rep))
    requires Int32(ReadWord(r, 25)) == |sdf| && r[29..29 + |sdf|] == sdf
    requires r[29 + |sdf|..29 + |sdf| + |vault|] == vault && r[29 + |sdf| + |vault|..] == hash
    ensures ParseData(r, |r|, encrypted, n, tmax, k, rep) == Parsed(Fields(encrypted, n, tmax, k, rep, sdf, vault, hash))
  {
  }

  /** The stages of fromBytes from the defining polynomial on. */
  lemma ParseFieldAt(r: seq<Byte>, encrypted: bool, n: int, tmax: int, k: int, rep: nat,
                     sdf: seq<Byte>, vault: seq<Byte>, hash: seq<Byte>)
    requires |r| == 29 + |sdf| + |vault| + |hash| && |hash| == 20 && n >= 0
    requires AcceptedField(rep) && Uint32(n + n) <= Pow2(FieldDegree(rep))
    requires |vault| == DataSizeAsComputed(tmax, FieldDegree(rep))
    requires ReadWord(r, 21) == rep
    requires Int32(ReadWord(r, 25)) == |sdf| && r[29..29 + |sdf|] == sdf
    requires r[29 + |sdf|..29 + |sdf| + |vault|] == vault && r[29 + |sdf| + |vault|..] == hash
    ensures ParseField(r, |r|, encrypted, n, tmax, k) == Parsed(Fields(encrypted, n, tmax, k, rep, sdf, vault, hash))
  {
    ParseDataAt(r, encrypted, n, tmax, k, rep, sdf, vault, hash);
  }

  /** All of fromBytes on bytes laid out as a record. */
  lemma ParseAt(r: seq<Byte>, encrypted: bool, n: int, tmax: int, k: int, rep: nat,
                sdf: seq<Byte>, vault: seq<Byte>, hash: seq<Byte>, strict: bool)
    requires |r| == 29 + |sdf| + |vault| + |hash| && |hash| == 20
    requires (strict ==> ValidParameters(n, tmax, k)) && n >= 0
    requires AcceptedField(rep) && Uint32(n + n) <= Pow2(FieldDegree(rep))
    requires |vault| == DataSizeAsComputed(tmax, FieldDegree(rep))
    requires r[..4] == Magic && Int32(ReadWord(r, 4)) == |r| && (r[8] % 2 == 1 <==> encrypted)
    requires Int32(ReadWord(r, 9)) == n && Int32(ReadWord(r, 13)) == tmax && Int32(ReadWord(r, 17)) == k
    requires ReadWord(r, 21) == rep
    requires Int32(ReadWord(r, 25)) == |sdf| && r[29..29 + |sdf|] == sdf
    requires r[29 + |sdf|..29 + |sdf| + |vault|] == vault && r[29 + |sdf| + |vault|..] == hash
    ensures Parse(r, |r|, strict) == Parsed(Fields(encrypted, n, tmax, k, rep, sdf, vault, hash))
  {
    ParseFieldAt(r, encrypted, n, tmax, k, rep, sdf, vault, hash);
  }

  /** The fields of a record of 32-bit parameters, as fromBytes reads them. */
  lemma RecordFields(encrypted: bool, n: int, tmax: int, k: int, rep: nat,
                     sdf: seq<Byte>, vault: seq<Byte>, hash: seq<Byte>)
    requires -0x8000_0000 <= n < 0x8000_0000 && -0x8000_0000 <= tmax < 0x8000_0000
    requires -0x8000_0000 <= k < 0x8000_0000 && rep < WORD32
    requires 29 + |sdf| + |vault| + |hash| < 0x8000_0000
    ensures var r := Record(encrypted, n, tmax, k, rep, sdf, vault, hash);
            && r[..4] == Magic && Int32(ReadWord(r, 4)) == |r| && (r[8] % 2 == 1 <==> encrypted)
            && Int32(ReadWord(r, 9)) == n && Int32(ReadWord(r, 13)) == tmax && Int32(ReadWord(r, 17)) == k
            && ReadWord(r, 21) == rep && Int32(ReadWord(r, 25)) == |sdf| && r[29..29 + |sdf|] == sdf
            && r[29 + |sdf|..29 + |sdf| + |vault|] == vault && r[29 + |sdf| + |vault|..] == hash
  {
    var r := Record(encrypted, n, tmax, k, rep, sdf, vault, hash);
    RecordLayout(encrypted, n, tmax, k, rep, sdf, vault, hash);
    WordAt(r, 4, |r|);
    WordAt(r, 9, n);
    WordAt(r, 13, tmax);
    WordAt(r, 17, k);
    WordAt(r, 25, |sdf|);
    assert ReadWord(r, 21) == rep by { UnsignedWordBack(rep); }
    FlagBit(r[8], encrypted);
  }

  /**
   * fromBytes reads back what toBytes writes: a record of parameters the
   * constructor accepts, a field with at least 2n elements, vault data of
   * vaultDataSize() bytes and a 20-byte hash is parsed into those very
   * fields, with or without the strict parameter check.
   */
  lemma RecordRoundTrip(encrypted: bool, n: int, tmax: int, k: int, rep: nat,
                        sdf: seq<Byte>, vault: seq<Byte>, hash: seq<Byte>, strict: bool)
    requires ValidParameters(n, tmax, k) && AcceptedField(rep) && 2 * n <= Pow2(FieldDegree(rep))
    requires |vault| == VaultDataSize(tmax, FieldDegree(rep)) && |hash| == 20
    requires 49 + |sdf| + |vault| < 0x8000_0000
    ensures var r := Record(encrypted, n, tmax, k, rep, sdf, vault, hash);
            Parse(r, |r|, strict) == Parsed(Fields(encrypted, n, tmax, k, rep, sdf, vault, hash))
  {
    FieldFits(n, rep);
    RecordFields(encrypted, n, tmax, k, rep, sdf, vault, hash);
    DataSizeAgrees(tmax, FieldDegree(rep));
    ParseAt(Record(encrypted, n, tmax, k, rep, sdf, vault, hash), encrypted, n, tmax, k, rep, sdf, vault, hash, strict);
  }

  /** A vault size whose double fits the field is a 32-bit int, and so is the defining polynomial. */
  lemma FieldFits(n: int, rep: nat)
    requires 0 <= n && AcceptedField(rep) && 2 * n <= Pow2(FieldDegree(rep))
    ensures n < 0x8000_0000 && rep < WORD32 && Uint32(n + n) == n + n
  {
    assert n + n <= 0x8000_0000 by {
      Pow2Monotone(FieldDegree(rep), 31);
      Pow2Is31();
    }
    Uint32Small(n + n);
    AcceptedFits(rep);
  }

  // ---------------------------------------------------------------------
  // Finding: fromBytes does not check the vault parameters

  /** A record with tmax = -1, which the constructor would refuse. */
  function NegativeTmaxRecord(): seq<Byte>
  {
    Record(false, 1, -1, 1, 2, [1], seq(16, _ => 0), seq(20, _ => 0))
  }

  /** The field of degree 1 and the vault data size for tmax = -1. */
  lemma NegativeTmaxSizes()
    ensures AcceptedField(2) && FieldDegree(2) == 1 && Uint32(2) == 2 && Pow2(1) == 2
    ensures DataSizeAsComputed(-1, 1) == 16
  {
  }

  /**
   * fromBytes as written accepts the record: it reads a vault with
   * tmax = -1 < k, whose unpacking then asks malloc for -4 bytes.
   */
  lemma NegativeTmaxAccepted()
    ensures var r := NegativeTmaxRecord();
            Parse(r, |r|, false) == Parsed(Fields(false, 1, -1, 1, 2, [1], seq(16, _ => 0), seq(20, _ => 0)))
  {
    RecordFields(false, 1, -1, 1, 2, [1], seq(16, _ => 0), seq(20, _ => 0));
    NegativeTmaxSizes();
    ParseAt(NegativeTmaxRecord(), false, 1, -1, 1, 2, [1], seq(16, _ => 0), seq(20, _ => 0), false);
  }

  /** With the constructor's check after k, the same record is refused. */
  lemma NegativeTmaxRejected()
    ensures var r := NegativeTmaxRecord(); Parse(r, |r|, true) == Rejected
  {
    RecordFields(false, 1, -1, 1, 2, [1], seq(16, _ => 0), seq(20, _ => 0));
  }

  // ---------------------------------------------------------------------
  // The vault object

  /** The coefficient list of the sum of two polynomials over GF(2^d): coefficient-wise exclusive or. */
  ghost function Sum(a: seq<nat>, b: seq<nat>): (s: seq<nat>)
    ensures Normalized(s)
    ensures forall i :: Coeff(s, i) == Xor(Coeff(a, i), Coeff(b, i))
  {
    var m := if |a| < |b| then |b| else |a|;
    var c := seq(m, i requires 0 <= i < m => Xor(Coeff(a, i), Coeff(b, i)));
    TrimCoeff(c);
    XorZero(0);
    Trim(c)
  }

  /** A normalized list with the coefficients of the sum is the sum. */
  lemma SumOf(h: seq<nat>, a: seq<nat>, b: seq<nat>)
    requires Normalized(h) && forall i :: Coeff(h, i) == Xor(Coeff(a, i), Coeff(b, i))
    ensures h == Sum(a, b)
  {
    NormalizedUnique(h, Sum(a, b));
  }

  /** The 44 words of an AES-128 key schedule. */
  const ScheduleWords: int := 44

  /**
   * The unlocking set of the query under the vault polynomial V, its
   * abscissas the query features through the permutation, decodes to a
   * polynomial whose hash is the given one: by the Reed-Solomon decoder
   * or by list decoding with multiplicity 1.
   */
  ghost predicate Unlocks(F: Field, V: seq<nat>, permutation: seq<nat>, query: seq<nat>, k: int,
                          hash: seq<bv8>, sha: seq<nat> -> seq<bv8>, dec: Decoders)
    requires Below(query, |permutation|)
  {
    var x := UnlockingX(permutation, query);
    var y := UnlockingY(F, V, x);
    RsMatches(dec, x, y, |query|, k, 1, hash, sha) || ListMatches(dec, x, y, |query|, k, 1, hash, sha)
  }

  /** Writes the roots r over the front of features, keeping the rest of its first tmax entries. */
  method CopyRoots(features: array<nat>, r: seq<nat>, tmax: nat)
    requires |r| <= tmax <= features.Length
    modifies features
    ensures features[..tmax] == r + old(features[..tmax])[|r|..]
  {
    ghost var before := features[..tmax];
    forall i | 0 <= i < |r| {
      features[i] := r[i];
    }
    assert features[..tmax] == r + before[|r|..];
  }

  /** One more slow-down value that does not open the vault extends the range of those that do not. */
  lemma NoneBelow(F: Field, bytes: seq<Byte>, t: nat, d: nat, perm: seq<nat>, q: seq<nat>, k: int, h: seq<bv8>,
              sha: seq<nat> -> seq<bv8>, dec: Decoders, digestOf: int -> seq<bv8>, w: nat)
    requires forall x :: |digestOf(x)| == 20
    requires |bytes| % 16 == 0 && BitCount(t, d) <= 8 * |bytes| && Below(q, |perm|)
    requires forall u :: 0 <= u < w ==> !Unlocks(F, OpenedVault(Aes.FieldMul, KeyOf(digestOf, u), bytes, t, d), perm, q, k, h, sha, dec)
    requires !Unlocks(F, OpenedVault(Aes.FieldMul, KeyOf(digestOf, w), bytes, t, d), perm, q, k, h, sha, dec)
    ensures forall u :: 0 <= u <= w ==> !Unlocks(F, OpenedVault(Aes.FieldMul, KeyOf(digestOf, u), bytes, t, d), perm, q, k, h, sha, dec)
  {
  }

  /** The key schedule of AES-128 keyed by the first 16 bytes of a SHA-1 digest. */
  ghost function Key(digest: seq<bv8>): (ws: seq<bv32>)
    requires |digest| == 20
    ensures |ws| == 44
  {
    Aes.Expansion(digest[..16], ScheduleWords)
  }

  /** The key schedule deriveKey makes of the slow-down value v. */
  ghost function KeyOf(digestOf: int -> seq<bv8>, v: int): (ws: seq<bv32>)
    requires |digestOf(v)| == 20
    ensures |ws| == 44
  {
    Key(digestOf(v))
  }

  /** The abscissas of the unlocking set: the query features through the permutation. */
  function UnlockingX(permutation: seq<nat>, query: seq<nat>): (x: seq<nat>)
    requires Below(query, |permutation|)
    ensures |x| == |query|
  {
    seq(|query|, j requires 0 <= j < |query| => permutation[query[j]])
  }

  /** The ordinates of the unlocking set: the vault polynomial v at each abscissa. */
  function UnlockingY(F: Field, v: seq<nat>, x: seq<nat>): (y: seq<nat>)
    ensures |y| == |x|
  {
    seq(|x|, j requires 0 <= j < |x| => Horner(F, v, x[j]))
  }

  /**
   * A fuzzy vault over the feature universe 0 .. n-1: up to tmax genuine
   * features, supplemented by blending elements, are the roots of a
   * polynomial to which the secret polynomial of fewer than k
   * coefficients is added; the sum is stored packed and encrypted under
   * a key derived from a random slow-down value.
   */
  class FuzzyVault {
    var n: int
    var tmax: int
    var k: int
    /** The field GF(2^d), by its defining polynomial, once one is chosen. */
    var gf: Gf
    const slowDownFactor: BigInteger
    /** The vault data as packed and encrypted under the slow-down key: vaultPolynomialData. */
    var plain: Buffer
    /** The vault data encrypted once more under a user key: encryptedVaultPolynomialData. */
    var encrypted: Buffer
    /** The SHA-1 hash of the secret polynomial's coefficients. */
    var hash: seq<bv8>
    /** The feature permutation drawn from a generator seeded by the hash. */
    var permutation: seq<nat>

    predicate IsInitialized()
      reads this
    {
      n > 0 && tmax > 0 && k > 0
    }

    predicate IsEnrolled()
      reads this
    {
      plain.Data? || encrypted.Data?
    }

    predicate IsEncrypted()
      reads this
    {
      encrypted.Data?
    }

    predicate IsDecrypted()
      reads this
    {
      plain.Data?
    }

    /** The field has room for size features and as many blending elements. */
    ghost predicate FieldFor(size: int)
      reads this
    {
      gf.Gf? && AcceptedField(gf.rep) && 2 * size <= Pow2(FieldDegree(gf.rep))
    }

    /** getField().getDegree(). */
    function Degree(): nat
      reads this
      requires gf.Gf? && AcceptedField(gf.rep)
    {
      FieldDegree(gf.rep)
    }

    /** getField().getCardinality(): the number of field elements. */
    function Cardinality(): nat
      reads this
      requires gf.Gf? && AcceptedField(gf.rep)
    {
      Pow2(Degree())
    }

    /** vaultDataSize(). */
    function DataSize(): nat
      reads this
      requires gf.Gf? && AcceptedField(gf.rep) && tmax >= 0
    {
      VaultDataSize(tmax, Degree())
    }

    /** What a vault that protects a feature set holds: sound parameters and data of the right size. */
    ghost predicate Protects()
      reads this
    {
      && ValidParameters(n, tmax, k) && FieldFor(n) && |permutation| == n
      && (plain.Data? ==> |plain.bytes| == DataSize())
      && (encrypted.Data? ==> |encrypted.bytes| == DataSize())
    }

    ghost predicate Valid()
      reads this, slowDownFactor
    {
      && slowDownFactor.Valid() && |hash| == 20 && IsPermutation(permutation)
      && (gf.Gf? ==> AcceptedField(gf.rep))
      && (n > 0 ==> FieldFor(n))
      && (IsEnrolled() ==> Protects())
    }

    /** The slow-down factor's value. */
    function SlowDown(): (v: int)
      reads this, slowDownFactor
      requires slowDownFactor.Valid()
      ensures v == slowDownFactor.Value()
    {
      var m: int := BigIntegerLimbs.Mag(slowDownFactor.Words());
      if slowDownFactor.size < 0 then -m else m
    }

    /** FuzzyVault(): first_init. */
    constructor Empty()
      ensures Valid() && fresh(slowDownFactor) && !IsEnrolled() && !IsInitialized()
      ensures n == 0 && tmax == 0 && k == 0 && gf == NoField && slowDownFactor.Value() == 1
      ensures hash == seq(20, _ => 0) && permutation == []
    {
      n, tmax, k := 0, 0, 0;
      gf := NoField;
      slowDownFactor := new BigInteger(1);
      plain, encrypted := Null, Null;
      hash := seq(20, _ => 0);
      permutation := [];
    }

    /** FuzzyVault(n, tmax, k): a vault of these parameters in the smallest field that fits n. */
    constructor (n: int, tmax: int, k: int)
      requires ValidParameters(n, tmax, k) && n < 0x4000_0000
      ensures Valid() && fresh(slowDownFactor) && !IsEnrolled() && IsInitialized()
      ensures this.n == n && this.tmax == tmax && this.k == k && slowDownFactor.Value() == 1
      ensures FieldFor(n) && Degree() == Digits(n) + 1
    {
      this.n, this.tmax, this.k := 0, 0, 0;
      gf := NoField;
      slowDownFactor := new BigInteger(1);
      plain, encrypted := Null, Null;
      hash := seq(20, _ => 0);
      permutation := [];
      new;
      SetVaultSize(n);
      SetMaxGenuineFeatures(tmax);
      SetSecretSize(k);
    }

    /**
     * updateField: the field of degree one more than the binary digits
     * of n, kept when the current field already has that degree.
     */
    method UpdateField()
      requires 0 < n < 0x4000_0000 && (gf.Gf? ==> AcceptedField(gf.rep))
      modifies this
      ensures n == old(n) && tmax == old(tmax) && k == old(k) && plain == old(plain) && encrypted == old(encrypted)
      ensures hash == old(hash) && permutation == old(permutation)
      ensures FieldFor(n) && Degree() == Digits(n) + 1
      ensures old(gf).Gf? && FieldDegree(old(gf).rep) == Digits(n) + 1 ==> gf == old(gf)
    {
      var degree := MinimalDegree(n);
      if gf.NoField? || FieldDegree(gf.rep) != degree {
        DefiningPolynomialExists(degree);
        var rep: nat :| rep <= Pow2(degree) && FieldDegree(rep) == degree;
        gf := Gf(rep);
      }
      assert degree <= 31 by {
        if degree > 31 {
          Pow2Monotone(30, degree - 2);
          Pow2Is30();
        }
      }
    }

    /** setVaultSize(n): only before enrolment, for a positive n. */
    method SetVaultSize(size: int)
      requires Valid() && !IsEnrolled() && 0 < size < 0x4000_0000
      modifies this
      ensures Valid() && !IsEnrolled() && n == size && FieldFor(size) && Degree() == Digits(size) + 1
      ensures tmax == old(tmax) && k == old(k) && hash == old(hash) && permutation == old(permutation)
    {
      n := size;
      UpdateField();
    }

    /** setMaxGenuineFeatures(tmax): only before enrolment, for a positive tmax. */
    method SetMaxGenuineFeatures(t: int)
      requires Valid() && !IsEnrolled() && t > 0
      modifies this
      ensures Valid() && !IsEnrolled() && tmax == t
      ensures n == old(n) && k == old(k) && gf == old(gf) && hash == old(hash) && permutation == old(permutation)
    {
      tmax := t;
    }

    /** setSecretSize(k): only before enrolment, for a positive k. */
    method SetSecretSize(size: int)
      requires Valid() && !IsEnrolled() && size > 0
      modifies this
      ensures Valid() && !IsEnrolled() && k == size
      ensures n == old(n) && tmax == old(tmax) && gf == old(gf) && hash == old(hash) && permutation == old(permutation)
    {
      k := size;
    }

    /** setSlowDownFactor(x): only before enrolment, for a positive x. */
    method SetSlowDownFactor(x: BigInteger)
      requires Valid() && !IsEnrolled() && x.Valid() && x.Value() > 0
      modifies slowDownFactor
      ensures Valid() && slowDownFactor.Value() == old(x.Value())
    {
      slowDownFactor.Assign(x);
    }

    /** clear(): the vault data is dropped; parameters, field and hash stay. */
    method Clear()
      requires Valid()
      modifies this
      ensures Valid() && !IsEnrolled()
      ensures n == old(n) && tmax == old(tmax) && k == old(k) && gf == old(gf)
      ensures hash == old(hash) && permutation == old(permutation)
    {
      plain, encrypted := Null, Null;
    }

    /** swap(vault): the two vaults exchange their parameters, field, data, hash and permutation. */
    method Swap(other: FuzzyVault)
      modifies this, other, slowDownFactor, other.slowDownFactor
      ensures n == old(other.n) && tmax == old(other.tmax) && k == old(other.k) && gf == old(other.gf)
      ensures plain == old(other.plain) && encrypted == old(other.encrypted)
      ensures hash == old(other.hash) && permutation == old(other.permutation)
      ensures slowDownFactor.data == old(other.slowDownFactor.data) && slowDownFactor.size == old(other.slowDownFactor.size)
      ensures other.n == old(n) && other.tmax == old(tmax) && other.k == old(k) && other.gf == old(gf)
      ensures other.plain == old(plain) && other.encrypted == old(encrypted)
      ensures other.hash == old(hash) && other.permutation == old(permutation)
      ensures other.slowDownFactor.data == old(slowDownFactor.data) && other.slowDownFactor.size == old(slowDownFactor.size)
    {
      n, other.n := other.n, n;
      tmax, other.tmax := other.tmax, tmax;
      k, other.k := other.k, k;
      gf, other.gf := other.gf, gf;
      plain, other.plain := other.plain, plain;
      encrypted, other.encrypted := other.encrypted, encrypted;
      hash, other.hash := other.hash, hash;
      permutation, other.permutation := other.permutation, permutation;
      slowDownFactor.Swap(other.slowDownFactor);
    }

    /**
     * encrypt(key): the vault data is encrypted by AES-128 in CBC mode
     * under the key and kept only encrypted.
     */
    method Encrypt(key: Aes.Aes128)
      requires Valid() && IsEnrolled() && !IsEncrypted() && key.Valid()
      modifies this
      ensures Valid() && IsEnrolled() && IsEncrypted() && !IsDecrypted()
      ensures encrypted == Data(Encrypted(key.gf, key.w[..], old(plain).bytes))
      ensures n == old(n) && tmax == old(tmax) && k == old(k) && gf == old(gf)
      ensures hash == old(hash) && permutation == old(permutation)
    {
      var aes := new Aes.Aes128.Copy(key);
      var c := Seal(aes, plain.bytes);
      encrypted := Data(c);
      plain := Null;
    }

    /**
     * decrypt(key): the encrypted data decrypted under the key becomes the
     * vault data; the encrypted data stays.
     */
    method Decrypt(key: Aes.Aes128)
      requires Valid() && IsEncrypted() && key.Valid()
      modifies this
      ensures Valid() && IsEncrypted() && IsDecrypted()
      ensures plain == Data(Decrypted(key.gf, key.w[..], encrypted.bytes))
      ensures n == old(n) && tmax == old(tmax) && k == old(k) && gf == old(gf) && encrypted == old(encrypted)
      ensures hash == old(hash) && permutation == old(permutation)
    {
      var aes := new Aes.Aes128.Copy(key);
      var p := Unseal(aes, encrypted.bytes);
      plain := Data(p);
    }

    /** Decrypting with the key that encrypted gives the vault data back. */
    method EncryptThenDecrypt(key: Aes.Aes128)
      requires Valid() && IsDecrypted() && !IsEncrypted() && key.Valid() && Aes.MixColumnInvertible(key.gf)
      modifies this
      ensures Valid() && plain == old(plain) && IsEncrypted()
    {
      ghost var p := plain.bytes;
      Encrypt(key);
      Decrypt(key);
      BytesRoundTrip(key.gf, key.w[..], p);
    }

    /** reorder(a): the feature a through the permutation, for an a of the universe. */
    method Reorder(a: int) returns (b: nat)
      requires Valid() && IsEnrolled() && 0 <= a < n
      ensures b < n && b == permutation[a]
      ensures forall c :: 0 <= c < n && c != a ==> permutation[c] != b
    {
      b := permutation[a];
    }

    /**
     * updatePermutation: the identity on 0 .. n-1 with position x0
     * exchanged with gen.rand() % n, for x0 = 0 .. n-1 in turn, from a
     * generator seeded by the hash.
     */
    method UpdatePermutation(generator: seq<bv8> -> (nat -> nat))
      requires n >= 0
      modifies this
      ensures n == old(n) && tmax == old(tmax) && k == old(k) && gf == old(gf) && plain == old(plain)
      ensures encrypted == old(encrypted) && hash == old(hash)
      ensures permutation == Shuffled(n, generator(hash), n) && |permutation| == n && IsPermutation(permutation)
    {
      permutation := Shuffle(n, generator(hash));
    }

    /**
     * What enroll leaves in the vault: the secret polynomial has fewer
     * than k coefficients, all field elements, and its hash is stored;
     * the permutation is drawn from that hash; the plain vault data is
     * the vault polynomial, the product of X - roots[j] plus the secret,
     * sealed under the key of the slow-down value v, which lies below
     * the slow-down factor.
     */
    ghost predicate Locks(F: Field, features: seq<nat>, sha: seq<nat> -> seq<bv8>,
                          generator: seq<bv8> -> (nat -> nat), digestOf: int -> seq<bv8>,
                          chaffDraws: seq<nat>, bitDraws: seq<Byte>, byteDraws: seq<Byte>,
                          secret: seq<nat>, roots: seq<nat>, v: int)
      reads this, slowDownFactor
    {
      && gf.Gf? && AcceptedField(gf.rep) && n >= 0 && tmax >= 0 && slowDownFactor.Valid()
      && |secret| <= k && Below(secret, Cardinality()) && hash == sha(secret)
      && permutation == Shuffled(n, generator(hash), n)
      && |roots| == tmax && RootsOf(roots, features, n, permutation, chaffDraws, Cardinality())
      && 0 <= v < SlowDown() && |digestOf(v)| == 20 && |bitDraws| >= 7 && |byteDraws| >= DataSize()
      && plain == Data(SealedVault(Aes.FieldMul, KeyOf(digestOf, v), Sum(FromRoots(F, roots), secret),
                                   tmax, Degree(), bitDraws, byteDraws))
    }

    /**
     * enroll(features, t): false when fewer than k features are given.
     * Otherwise a random secret polynomial of fewer than k coefficients
     * is hashed, the permutation is drawn from the hash, and the vault
     * polynomial, the monic polynomial whose roots are the first tmax
     * features through the permutation followed by the blending elements
     * n + chaffDraws[j] % (2^d - n), plus the secret polynomial, is
     * packed and encrypted under the key of a slow-down value v below the
     * slow-down factor.
     */
    method Enroll(F: Field, features: array<nat>, t: int, sha: seq<nat> -> seq<bv8>,
                  generator: seq<bv8> -> (nat -> nat), digestOf: int -> seq<bv8>,
                  chaffDraws: seq<nat>, bitDraws: seq<Byte>, byteDraws: seq<Byte>)
      returns (ok: bool, ghost secret: seq<nat>, ghost roots: seq<nat>, ghost v: int)
      requires Valid() && IsInitialized() && tmax <= n && k <= tmax
      requires 0 <= t <= features.Length && FeatureSet(features[..t], n)
      requires SlowDown() > 0
      requires forall c :: |sha(c)| == 20
      requires forall x :: |digestOf(x)| == 20
      requires |chaffDraws| >= tmax && |bitDraws| >= 7 && |byteDraws| >= DataSize()
      modifies this
      ensures Valid()
      ensures ok <==> t >= k
      ensures !ok ==> unchanged(this)
      ensures ok ==> && IsEnrolled() && IsDecrypted()
                     && n == old(n) && tmax == old(tmax) && k == old(k) && gf == old(gf) && encrypted == old(encrypted)
                     && Locks(F, features[..t], sha, generator, digestOf, chaffDraws, bitDraws, byteDraws, secret, roots, v)
    {
      if t < k {
        return false, [], [], 0;
      }
      assert forall i :: 0 <= i < t ==> features[..t][i] == features[i];
      secret, roots, v := Lock(F, features, t, sha, generator, digestOf, chaffDraws, bitDraws, byteDraws);
      ok := true;
    }

    /** enroll(features, t) once t >= k is known: the secret, the permutation and the vault data. */
    method Lock(F: Field, features: array<nat>, t: int, sha: seq<nat> -> seq<bv8>,
                generator: seq<bv8> -> (nat -> nat), digestOf: int -> seq<bv8>,
                chaffDraws: seq<nat>, bitDraws: seq<Byte>, byteDraws: seq<Byte>)
      returns (ghost secret: seq<nat>, ghost roots: seq<nat>, ghost v: int)
      requires Valid() && IsInitialized() && k <= tmax <= n && k <= t <= features.Length
      requires forall i :: 0 <= i < t ==> features[i] < n
      requires SlowDown() > 0
      requires forall c :: |sha(c)| == 20
      requires forall x :: |digestOf(x)| == 20
      requires |chaffDraws| >= tmax && |bitDraws| >= 7 && |byteDraws| >= DataSize()
      modifies this
      ensures Valid() && IsEnrolled() && IsDecrypted()
      ensures n == old(n) && tmax == old(tmax) && k == old(k) && gf == old(gf) && encrypted == old(encrypted)
      ensures Locks(F, features[..t], sha, generator, digestOf, chaffDraws, bitDraws, byteDraws, secret, roots, v)
    {
      var f;
      f, secret := Commit(sha, generator);
      var A := VaultRoots(features, t, tmax, n, permutation, chaffDraws, Cardinality());
      roots := A;
      v := SealVault(F, A, f, digestOf, bitDraws, byteDraws);
    }

    /**
     * The secret polynomial f, of fewer than k random coefficients, its
     * hash, and the permutation drawn from the hash.
     */
    method Commit(sha: seq<nat> -> seq<bv8>, generator: seq<bv8> -> (nat -> nat))
      returns (f: SmallBinaryFieldPolynomial, ghost secret: seq<nat>)
      requires gf.Gf? && AcceptedField(gf.rep) && n >= 0 && k > 0
      modifies this
      ensures n == old(n) && tmax == old(tmax) && k == old(k) && gf == old(gf)
      ensures plain == old(plain) && encrypted == old(encrypted)
      ensures fresh(f) && f.Valid() && f.Value() == secret
      ensures |secret| <= k && Below(secret, Cardinality()) && hash == sha(secret)
      ensures permutation == Shuffled(n, generator(hash), n)
    {
      f := RandomPolynomial(Cardinality(), k);
      secret := f.Value();
      hash := sha(f.coefficients[..f.degree + 1]);
      UpdatePermutation(generator);
    }

    /**
     * The vault polynomial of the roots and the secret polynomial f,
     * packed under the key of a slow-down value v into the plain data.
     */
    method SealVault(F: Field, roots: seq<nat>, f: SmallBinaryFieldPolynomial, digestOf: int -> seq<bv8>,
                bitDraws: seq<Byte>, byteDraws: seq<Byte>) returns (ghost v: int)
      requires gf.Gf? && AcceptedField(gf.rep) && tmax >= 0 && f.Valid()
      requires slowDownFactor.Valid() && SlowDown() > 0
      requires forall x :: |digestOf(x)| == 20
      requires |bitDraws| >= 7 && |byteDraws| >= DataSize()
      modifies this
      ensures n == old(n) && tmax == old(tmax) && k == old(k) && gf == old(gf) && encrypted == old(encrypted)
      ensures hash == old(hash) && permutation == old(permutation)
      ensures 0 <= v < SlowDown()
      ensures plain == Data(SealedVault(Aes.FieldMul, KeyOf(digestOf, v), Sum(FromRoots(F, roots), old(f.Value())),
                                        tmax, Degree(), bitDraws, byteDraws))
    {
      var V := HideSecret(F, roots, f);
      v := PackVaultPolynomial(V, digestOf, bitDraws, byteDraws);
    }

    /**
     * packVaultPolynomial(V): a random slow-down value v below the
     * slow-down factor keys AES-128; the tmax low coefficients of V,
     * packed as d-bit vectors, encrypted under that key become the vault
     * data.
     */
    method PackVaultPolynomial(V: SmallBinaryFieldPolynomial, digestOf: int -> seq<bv8>,
                               bitDraws: seq<Byte>, byteDraws: seq<Byte>) returns (ghost v: int)
      requires gf.Gf? && AcceptedField(gf.rep) && tmax >= 0 && V.Sized()
      requires slowDownFactor.Valid() && SlowDown() > 0
      requires forall x :: |digestOf(x)| == 20
      requires |bitDraws| >= 7 && |byteDraws| >= DataSize()
      modifies this
      ensures n == old(n) && tmax == old(tmax) && k == old(k) && gf == old(gf) && encrypted == old(encrypted)
      ensures hash == old(hash) && permutation == old(permutation)
      ensures 0 <= v < SlowDown()
      ensures plain == Data(SealedVault(Aes.FieldMul, KeyOf(digestOf, v), V.Value(), tmax, Degree(), bitDraws, byteDraws))
    {
      assert 0 < SlowDown();
      var value: nat :| value < SlowDown();
      v := value;
      var data := PackUnder(V, tmax, Degree(), digestOf(value), bitDraws, byteDraws);
      plain := Data(data);
    }

    /** deriveKey(v) and the packing and encryption under that key. */
    static method PackUnder(V: SmallBinaryFieldPolynomial, t: nat, d: nat, digest: seq<bv8>,
                            bitDraws: seq<Byte>, byteDraws: seq<Byte>) returns (data: seq<Byte>)
      requires V.Sized() && |digest| == 20 && |bitDraws| >= 7 && |byteDraws| >= VaultDataSize(t, d)
      ensures data == SealedVault(Aes.FieldMul, Key(digest), V.Value(), t, d, bitDraws, byteDraws)
    {
      var aes := new Aes.Aes128.FromDigest(digest);
      data := PackVault(V, t, d, aes, bitDraws, byteDraws);
    }

    /**
     * unpackVaultPolynomial(v): the vault data decrypted under the key of
     * the slow-down value v and unpacked into the monic vault polynomial
     * of degree tmax; v must lie in 0 .. slowDownFactor - 1.
     */
    method UnpackVaultPolynomial(v: int, digestOf: int -> seq<bv8>) returns (V: SmallBinaryFieldPolynomial)
      requires Valid() && IsDecrypted() && 0 <= v < SlowDown() && |digestOf(v)| == 20
      ensures fresh(V) && V.Valid()
      ensures V.Value() == OpenedVault(Aes.FieldMul, KeyOf(digestOf, v), plain.bytes, tmax, Degree())
      ensures |V.Value()| == tmax + 1 && V.Value()[tmax] == 1
    {
      V := UnpackUnder(plain.bytes, tmax, Degree(), digestOf(v));
    }

    /** deriveKey(v) and the decryption and unpacking under that key. */
    static method UnpackUnder(data: seq<Byte>, t: nat, d: nat, digest: seq<bv8>) returns (V: SmallBinaryFieldPolynomial)
      requires |digest| == 20 && d <= 32 && |data| % 16 == 0 && BitCount(t, d) <= 8 * |data|
      ensures fresh(V) && V.Valid() && V.Value() == OpenedVault(Aes.FieldMul, Key(digest), data, t, d)
    {
      var aes := new Aes.Aes128.FromDigest(digest);
      V := UnpackVault(data, t, d, aes);
    }

    /**
     * The decoding attempt of open succeeds for the slow-down value whose
     * key is key: the unlocking set of the query features through the
     * permutation, on the vault polynomial unpacked under key, decodes
     * (Reed-Solomon, or Guruswami-Sudan with multiplicity 1) to a
     * polynomial with the vault's hash.
     */
    ghost predicate OpensAt(F: Field, key: seq<bv32>, query: seq<nat>, sha: seq<nat> -> seq<bv8>, dec: Decoders)
      reads this
      requires Protects() && plain.Data? && |key| == 44 && Below(query, |permutation|)
    {
      Unlocks(F, OpenedVault(Aes.FieldMul, key, plain.bytes, tmax, Degree()), permutation, query, k, hash, sha, dec)
    }

    /** One pass of the loop of open: unpack under the slow-down value v, build the unlocking set, decode. */
    method TryValue(F: Field, f: SmallBinaryFieldPolynomial, v: int, query: seq<nat>,
                    sha: seq<nat> -> seq<bv8>, digestOf: int -> seq<bv8>, dec: Decoders)
      returns (success: bool, V: SmallBinaryFieldPolynomial)
      requires Valid() && IsEnrolled() && IsDecrypted() && 0 <= v < SlowDown() && |digestOf(v)| == 20
      requires FeatureSet(query, n) && k <= |query|
      modifies f
      ensures fresh(V) && V.Valid()
      ensures V.Value() == OpenedVault(Aes.FieldMul, KeyOf(digestOf, v), plain.bytes, tmax, Degree())
      ensures success <==> Unlocks(F, V.Value(), permutation, query, k, hash, sha, dec)
      ensures success ==> f.Valid() && sha(f.Value()) == hash
      ensures !success ==> unchanged(f)
    {
      V := UnpackVaultPolynomial(v, digestOf);
      var x, y := UnlockingSet(F, permutation, query, V);
      assert x == UnlockingX(permutation, query);
      assert y == UnlockingY(F, V.Value(), x);
      success := ListDecode(f, x, y, |query|, k, hash, 1, sha, dec);
    }

    /**
     * open(f, features, featureSizePtr, query, s): the slow-down values
     * 0, 1, ... below the slow-down factor are tried in turn until the
     * unlocking set of the query decodes to a polynomial with the vault's
     * hash, which is assigned to f. On success, and when features is
     * given, the roots of V - f below n, taken back through the inverse
     * permutation, are written sorted to features and their number is
     * returned.
     */
    method Open(F: Field, f: SmallBinaryFieldPolynomial, features: array?<nat>, query: array<nat>, s: int,
                sha: seq<nat> -> seq<bv8>, digestOf: int -> seq<bv8>, dec: Decoders,
                findRoots: seq<nat> -> seq<nat>)
      returns (success: bool, size: nat, ghost v: int, ghost roots: seq<nat>, ghost inv: seq<nat>)
      requires Valid() && IsEnrolled() && IsDecrypted()
      requires 0 <= s <= query.Length && FeatureSet(query[..s], n)
      requires forall x :: |digestOf(x)| == 20
      requires features != null ==> tmax <= features.Length && forall p :: |findRoots(p)| <= tmax
      modifies f, features
      ensures s < k ==> !success
      ensures success ==> f.Valid() && sha(f.Value()) == hash
      ensures success ==> 0 <= v < SlowDown() && OpensAt(F, KeyOf(digestOf, v), old(query[..s]), sha, dec)
      ensures !success ==> unchanged(f)
      ensures !success && k <= s ==>
                forall w :: 0 <= w < SlowDown() ==> !OpensAt(F, KeyOf(digestOf, w), old(query[..s]), sha, dec)
      ensures features != null && !success ==> unchanged(features)
      ensures features != null && success ==>
                && roots == findRoots(Sum(OpenedVault(Aes.FieldMul, KeyOf(digestOf, v), plain.bytes, tmax, Degree()), f.Value()))
                && |inv| == n && (forall x :: 0 <= x < n ==> inv[permutation[x]] == x)
                && size <= tmax
                && features[..size] == SortedCopy(Recovered(inv, roots + old(features[..tmax])[|roots|..], n))
                && Sorted(features[..size]) && Below(features[..size], n)
    {
      if s < k {
        return false, 0, 0, [], [];
      }
      var q := query[..s];
      var V;
      success, V, v := Search(F, f, q, sha, digestOf, dec);
      size, roots, inv := 0, [], [];
      if success && features != null {
        size, roots, inv := RecoverFeaturesOf(features, V, f, findRoots);
      }
      assert q == old(query[..s]);
    }

    /**
     * The loop of open: the slow-down values 0, 1, ... below the
     * slow-down factor are tried in turn until one opens the vault for
     * the query q; V is the vault polynomial unpacked under the last one.
     */
    method Search(F: Field, f: SmallBinaryFieldPolynomial, q: seq<nat>,
                  sha: seq<nat> -> seq<bv8>, digestOf: int -> seq<bv8>, dec: Decoders)
      returns (success: bool, V: SmallBinaryFieldPolynomial, ghost v: int)
      requires Valid() && IsEnrolled() && IsDecrypted()
      requires FeatureSet(q, n) && k <= |q|
      requires forall x :: |digestOf(x)| == 20
      modifies f
      ensures fresh(V) && V.Valid()
      ensures success ==> && 0 <= v < SlowDown() && OpensAt(F, KeyOf(digestOf, v), q, sha, dec)
                          && f.Valid() && sha(f.Value()) == hash
                          && V.Value() == OpenedVault(Aes.FieldMul, KeyOf(digestOf, v), plain.bytes, tmax, Degree())
      ensures !success ==> unchanged(f)
      ensures !success ==> forall w :: 0 <= w < SlowDown() ==> !OpensAt(F, KeyOf(digestOf, w), q, sha, dec)
    {
      var bound := SlowDown();
      success, v := false, 0;
      V := new SmallBinaryFieldPolynomial();
      var w := 0;
      ghost var bytes, t, d, perm, k0, h0 := plain.bytes, tmax, Degree(), permutation, k, hash;
      while w < bound
        invariant 0 <= w && (w <= bound || w == 0) && unchanged(f) && fresh(V) && V.Valid()
        invariant forall u :: 0 <= u < w ==> !Unlocks(F, OpenedVault(Aes.FieldMul, KeyOf(digestOf, u), bytes, t, d), perm, q, k0, h0, sha, dec)
      {
        var ok, W := TryValue(F, f, w, q, sha, digestOf, dec);
        V := W;
        if ok {
          success, v := true, w;
          return;
        }
        assert !Unlocks(F, OpenedVault(Aes.FieldMul, KeyOf(digestOf, w), bytes, t, d), perm, q, k0, h0, sha, dec);
        NoneBelow(F, bytes, t, d, perm, q, k0, h0, sha, dec, digestOf, w);
        w := w + 1;
      }
    }

    /**
     * The feature recovery of open: the roots of V - f, those below n
     * taken back through the inverse permutation, are written sorted to
     * features and their number is returned.
     */
    method RecoverFeaturesOf(features: array<nat>, V: SmallBinaryFieldPolynomial, f: SmallBinaryFieldPolynomial,
                             findRoots: seq<nat> -> seq<nat>)
      returns (size: nat, ghost roots: seq<nat>, ghost inv: seq<nat>)
      requires Valid() && IsEnrolled() && V.Valid() && f.Valid()
      requires tmax <= features.Length && forall p :: |findRoots(p)| <= tmax
      modifies features
      ensures roots == findRoots(Sum(V.Value(), f.Value()))
      ensures |inv| == n && (forall x :: 0 <= x < n ==> inv[permutation[x]] == x)
      ensures size <= tmax
      ensures features[..size] == SortedCopy(Recovered(inv, roots + old(features[..tmax])[|roots|..], n))
      ensures Sorted(features[..size]) && Below(features[..size], n)
    {
      var p := Invert(permutation);
      inv := p;
      var r := RootsOfSum(V, f, findRoots);
      roots := r;
      ghost var before := features[..tmax];
      CopyRoots(features, r, tmax);
      size := RecoverFeatures(features, tmax, n, p);
      RecoveredFeatures(p, r + before[|r|..], n);
    }

    /** The roots findRoots reports for V + f, computed on a fresh polynomial. */
    static method RootsOfSum(V: SmallBinaryFieldPolynomial, f: SmallBinaryFieldPolynomial,
                             findRoots: seq<nat> -> seq<nat>) returns (r: seq<nat>)
      requires V.Valid() && f.Valid()
      ensures r == findRoots(Sum(V.Value(), f.Value()))
    {
      var diff := new SmallBinaryFieldPolynomial();
      Add(diff, V, f);
      SumOf(diff.Value(), V.Value(), f.Value());
      r := findRoots(diff.coefficients[..diff.degree + 1]);
    }

    /** The byte count of the slow-down factor: slowDownFactor.getSizeInBytes(). */
    ghost function SdfSize(): nat
      reads this, slowDownFactor
      requires slowDownFactor.Valid()
    {
      ByteCount(Digits(BigIntegerLimbs.Mag(slowDownFactor.Words())))
    }

    /** The vault data toBytes writes: the encrypted data when there is some. */
    function Stored(): seq<Byte>
      reads this
      requires IsEnrolled()
    {
      if encrypted.Data? then encrypted.bytes else plain.bytes
    }

    /** getSizeInBytes(): the length of the record toBytes writes. */
    method GetSizeInBytes() returns (size: nat)
      requires Valid() && IsEnrolled()
      ensures size == 29 + SdfSize() + |Stored()| + 20
    {
      var sb := slowDownFactor.GetSizeInBytes();
      size := 4 + 4 + 1 + 4 + 4 + 4 + 4 + 4 + sb + DataSize() + 20;
    }

    /**
     * toBytes(data): the record of this vault, whose slow-down factor
     * bytes decode to the slow-down factor, written at the start of data.
     */
    method ToBytes(data: array<Byte>)
      requires slowDownFactor.Valid() && IsEnrolled() && gf.Gf? && |hash| == 20
      requires 49 + SdfSize() + |Stored()| <= data.Length
      modifies data
      ensures var s := SdfSize(); var m := 29 + s + |Stored()| + |AsBytes(hash)|;
              && data[..m] == Record(IsEncrypted(), n, tmax, k, gf.rep, data[29..29 + s], Stored(), AsBytes(hash))
              && DecodeBytes(data[29..29 + s]) == slowDownFactor.Value()
              && data[m..] == old(data[m..])
    {
      WriteWithFactor(data, IsEncrypted(), n, tmax, k, gf.rep, slowDownFactor, SdfSize(), Stored(), AsBytes(hash));
    }

    /** The state fromBytes leaves after reading the fields f. */
    ghost predicate Holds(f: Fields, generator: seq<bv8> -> (nat -> nat))
      reads this, slowDownFactor
      requires slowDownFactor.Valid()
    {
      && n == f.n && tmax == f.tmax && k == f.k && gf == Gf(f.rep)
      && slowDownFactor.Value() == DecodeBytes(f.sdf) && hash == AsOctets(f.hash)
      && (if f.encrypted then encrypted == Data(f.vault) && plain == Null else plain == Data(f.vault) && encrypted == Null)
      && f.n >= 0 && permutation == Shuffled(f.n, generator(hash), f.n)
    }

    /**
     * fromBytes(data, dataSize): on a record that parses, the vault read
     * from it replaces this one; otherwise this vault is left as it is.
     * The record's parameters are checked as the constructor checks them.
     */
    method FromBytes(data: seq<Byte>, dataSize: int, generator: seq<bv8> -> (nat -> nat)) returns (ok: bool)
      requires Valid() && dataSize <= |data| && !Parse(data, dataSize, true).Halts?
      modifies this, slowDownFactor
      ensures Valid()
      ensures ok <==> Parse(data, dataSize, true).Parsed?
      ensures !ok ==> unchanged(this) && unchanged(slowDownFactor)
      ensures ok ==> IsEnrolled() && Holds(Parse(data, dataSize, true).fields, generator)
    {
      var p := Parse(data, dataSize, true);
      if !p.Parsed? {
        return false;
      }
      ParsedReadable(data, dataSize);
      var tmp := new FuzzyVault.Read(p.fields, generator);
      Adopt(tmp, p.fields, generator);
      ok := true;
    }

    /** swap(tmpVault) at the end of fromBytes: this vault takes over the vault read into other. */
    method Adopt(other: FuzzyVault, ghost f: Fields, generator: seq<bv8> -> (nat -> nat))
      requires other != this && other.slowDownFactor != slowDownFactor
      requires other.Valid() && other.IsEnrolled() && other.Holds(f, generator)
      modifies this, slowDownFactor, other, other.slowDownFactor
      ensures Valid() && IsEnrolled() && Holds(f, generator)
    {
      Swap(other);
    }

    /** The vault fromBytes reads into tmpVault from the fields of a record. */
    constructor Read(f: Fields, generator: seq<bv8> -> (nat -> nat))
      requires Readable(f)
      ensures Valid() && IsEnrolled() && Holds(f, generator) && fresh(slowDownFactor)
    {
      n, tmax, k := f.n, f.tmax, f.k;
      gf := Gf(f.rep);
      var x := new BigInteger(1);
      x.FromBytes(f.sdf, |f.sdf|);
      assert f.sdf[..|f.sdf|] == f.sdf;
      slowDownFactor := x;
      if f.encrypted {
        plain, encrypted := Null, Data(f.vault);
      } else {
        plain, encrypted := Data(f.vault), Null;
      }
      hash := AsOctets(f.hash);
      permutation := [];
      new;
      UpdatePermutation(generator);
    }
  }

  /**
   * The roots of a vault polynomial: the features, as far as they go,
   * through the permutation, then the blending elements
   * n + chaffDraws[j] % (card - n).
   */
  ghost predicate RootsOf(roots: seq<nat>, features: seq<nat>, n: int, permutation: seq<nat>,
                          chaffDraws: seq<nat>, card: int)
  {
    && (forall j :: 0 <= j < |roots| && j < |features| ==>
          features[j] < |permutation| && roots[j] == permutation[features[j]])
    && (forall j :: |features| <= j < |roots| ==>
          j < |chaffDraws| && n < card && roots[j] == n + chaffDraws[j] % (card - n))
  }

  /**
   * The tmax roots of the vault polynomial: the first features (at most
   * tmax of the t given) through the permutation, then the blending
   * elements n + chaffDraws[j] % (card - n).
   */
  method VaultRoots(features: array<nat>, t: nat, tmax: nat, n: nat, permutation: seq<nat>,
                    chaffDraws: seq<nat>, card: nat) returns (roots: seq<nat>)
    requires t <= features.Length && |chaffDraws| >= tmax && card > n
    requires forall i :: 0 <= i < t ==> features[i] < |permutation|
    ensures |roots| == tmax && RootsOf(roots, features[..t], n, permutation, chaffDraws, card)
  {
    var genuine := if t > tmax then tmax else t;
    var a := new nat[tmax];
    var j := 0;
    while j < genuine
      invariant 0 <= j <= genuine
      invariant forall i :: 0 <= i < j ==> a[i] == permutation[features[i]]
    {
      a[j] := permutation[features[j]];
      j := j + 1;
    }
    while j < tmax
      invariant genuine <= j <= tmax
      invariant forall i :: 0 <= i < genuine ==> a[i] == permutation[features[i]]
      invariant forall i :: genuine <= i < j ==> a[i] == n + chaffDraws[i] % (card - n)
    {
      a[j] := n + chaffDraws[j] % (card - n);
      j := j + 1;
    }
    roots := a[..];
    assert RootsOf(roots, features[..t], n, permutation, chaffDraws, card);
  }

  /** The vault polynomial (X - roots[0]) ... (X - roots[tmax-1]) + f. */
  method HideSecret(F: Field, roots: seq<nat>, f: SmallBinaryFieldPolynomial) returns (V: SmallBinaryFieldPolynomial)
    requires f.Valid()
    ensures fresh(V) && V.Valid() && V.Value() == Sum(FromRoots(F, roots), f.Value())
  {
    V := new SmallBinaryFieldPolynomial();
    V.BuildFromRoots(F, roots, |roots|);
    assert roots[..|roots|] == roots;
    Add(V, V, f);
    SumOf(V.Value(), FromRoots(F, roots), f.Value());
  }

  /** What fromBytes has checked of the fields of a record before it reads them into a vault. */
  ghost predicate Readable(f: Fields)
  {
    && ValidParameters(f.n, f.tmax, f.k) && AcceptedField(f.rep)
    && 2 * f.n <= Pow2(FieldDegree(f.rep)) && |f.hash| == 20
    && |f.vault| == VaultDataSize(f.tmax, FieldDegree(f.rep))
  }

  /** The fields of a record fromBytes accepts are readable. */
  lemma ParsedReadable(data: seq<Byte>, dataSize: int)
    requires dataSize <= |data| && Parse(data, dataSize, true).Parsed?
    ensures Readable(Parse(data, dataSize, true).fields)
  {
    var f := Parse(data, dataSize, true).fields;
    Uint32Small(f.n + f.n);
    DataSizeAgrees(f.tmax, FieldDegree(f.rep));
  }

  /** The record with the bytes of the slow-down factor x written in data. */
  method WriteWithFactor(data: array<Byte>, encrypted: bool, n: int, tmax: int, k: int, rep: nat,
                         x: BigInteger, ghost s: nat, vault: seq<Byte>, hash: seq<Byte>)
    requires x.Valid() && s == ByteCount(Digits(BigIntegerLimbs.Mag(x.Words())))
    requires 29 + s + |vault| + |hash| <= data.Length
    modifies data
    ensures data[..29 + s + |vault| + |hash|] == Record(encrypted, n, tmax, k, rep, data[29..29 + s], vault, hash)
    ensures DecodeBytes(data[29..29 + s]) == x.Value()
    ensures data[29 + s + |vault| + |hash|..] == old(data[29 + s + |vault| + |hash|..])
  {
    var sdf := FactorBytes(x);
    WriteRecord(data, encrypted, n, tmax, k, rep, sdf, vault, hash);
    assert data[29..29 + s] == sdf;
  }

  /** slowDownFactor.toBytes(): the getSizeInBytes() bytes that decode to the slow-down factor. */
  method FactorBytes(x: BigInteger) returns (sdf: seq<Byte>)
    requires x.Valid()
    ensures |sdf| == ByteCount(Digits(BigIntegerLimbs.Mag(x.Words()))) && DecodeBytes(sdf) == x.Value()
  {
    var sb := x.GetSizeInBytes();
    sdf := x.ToBytes(seq(sb, _ => 0));
    assert sdf[..sb] == sdf;
  }

  /** BigInteger::fromBytes on a fresh factor: the slow-down factor the bytes sdf encode. */
  method FactorOf(sdf: seq<Byte>) returns (x: BigInteger)
    ensures fresh(x) && x.Valid() && x.Value() == DecodeBytes(sdf)
  {
    x := new BigInteger(1);
    x.FromBytes(sdf, |sdf|);
    assert sdf[..|sdf|] == sdf;
  }

  method WriteRecord(data: array<Byte>, encrypted: bool, n: int, tmax: int, k: int, rep: nat,
                     sdf: seq<Byte>, vault: seq<Byte>, hash: seq<Byte>)
    requires 29 + |sdf| + |vault| + |hash| <= data.Length
    modifies data
    ensures data[..29 + |sdf| + |vault| + |hash|] == Record(encrypted, n, tmax, k, rep, sdf, vault, hash)
    ensures data[29..29 + |sdf|] == sdf
    ensures data[29 + |sdf| + |vault| + |hash|..] == old(data[29 + |sdf| + |vault| + |hash|..])
  {
    // The header, the slow-down factor, the vault data and the hash, one after the other.
    var header := Header(29 + |sdf| + |vault| + |hash|, encrypted, n, tmax, k, rep, |sdf|);
    var r := header + sdf + vault + hash;
    Put(data, 0, r);
    RecordParts(encrypted, n, tmax, k, rep, sdf, vault, hash);
    MiddlePart(data[..|r|], header, sdf, vault + hash);
    assert data[29..29 + |sdf|] == data[..|r|][29..29 + |sdf|];
  }

  lemma RecordParts(encrypted: bool, n: int, tmax: int, k: int, rep: nat,
                    sdf: seq<Byte>, vault: seq<Byte>, hash: seq<Byte>)
    ensures Record(encrypted, n, tmax, k, rep, sdf, vault, hash)
            == Header(29 + |sdf| + |vault| + |hash|, encrypted, n, tmax, k, rep, |sdf|) + sdf + vault + hash
  {
  }

  lemma MiddlePart(r: seq<Byte>, a: seq<Byte>, b: seq<Byte>, c: seq<Byte>)
    requires r == a + b + c
    ensures r[|a|..|a| + |b|] == b
  {
  }

  /** memcpy(data + offset, bytes, |bytes|). */
  method Put(data: array<Byte>, offset: nat, bytes: seq<Byte>)
    requires offset + |bytes| <= data.Length
    modifies data
    ensures data[..offset] == old(data[..offset]) && data[offset..offset + |bytes|] == bytes
    ensures data[offset + |bytes|..] == old(data[offset + |bytes|..])
  {
    var i := 0;
    while i < |bytes|
      invariant 0 <= i <= |bytes|
      invariant forall j :: 0 <= j < data.Length ==>
                  data[j] == if offset <= j < offset + i then bytes[j - offset] else old(data[j])
    {
      data[offset + i] := bytes[i];
      i := i + 1;
    }
  }
}
