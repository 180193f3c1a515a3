/**
 * The protected minutiae record object of ProtectedMinutiaeRecord.cpp:
 * its parameters, grid and field, the vault data it holds plain or
 * encrypted, and the operations that enrol, quantize, open, encrypt and
 * serialize it.
 */
module ProtectedRecords {
  import opened MathTools
  import Aes
  import BigIntegerLimbs
  import opened BigIntegerBytes
  import opened BigIntegers
  import opened BitPacking
  import opened SmallBinaryFieldPolynomials
  import opened FuzzyVaultTools
  import opened Features
  import opened Vaults
  import opened ProtectedMinutiae
  import FuzzyVaults
  import opened Records

  class ProtectedMinutiaeRecord {
    var width: int
    var height: int
    var dpi: int
    var gridDist: int
    /** The number of angle quanta. */
    var s: int
    /** The size of the secret polynomial. */
    var k: int
    /** The bound on the number of genuine features per finger. */
    var tmax: int
    /** The largest Guruswami-Sudan multiplicity decode tries. */
    var m: int
    /** grid.size(): the number of points of the hexagonal grid. */
    var gridSize: nat
    /** The field GF(2^d), by its defining polynomial, once one is chosen. */
    var gf: Gf
    /** The number of vault points, -1 before enrolment. */
    var t: int
    const slowDownFactor: BigInteger
    /** vaultPolynomialData: the vault data as packed and encrypted under the slow-down key. */
    var plain: Buffer
    /** encryptedVaultPolynomialData: the vault data encrypted once more under a user key. */
    var encrypted: Buffer
    /** The SHA-1 hash of the secret polynomial's coefficients. */
    var hash: seq<bv8>
    /** The feature permutation drawn from a generator seeded by the hash. */
    var permutation: seq<nat>

    /** isInitialized(): positive width, height, grid distance and s. */
    predicate IsInitialized()
      reads this
    {
      width > 0 && height > 0 && gridDist > 0 && s > 0
    }

    /** isEnrolled(): some vault data, plain or encrypted. */
    predicate IsEnrolled()
      reads this
    {
      plain.Data? || encrypted.Data?
    }

    predicate IsEncrypted()
      reads this
    {
      encrypted.Data? && plain.Null?
    }

    predicate IsDecrypted()
      reads this
    {
      plain.Data?
    }

    predicate ContainsEncryptedData()
      reads this
    {
      encrypted.Data?
    }

    /** getVaultSize(): ten fingers, each with the grid points times the angle quanta. */
    function VaultSize(): int
      reads this
    {
      10 * gridSize * s
    }

    /** getField().getDegree(). */
    function Degree(): nat
      reads this
      requires gf.Gf? && AcceptedField(gf.rep)
    {
      FieldDegree(gf.rep)
    }

    /** getField().getCardinality(). */
    function Cardinality(): nat
      reads this
      requires gf.Gf? && AcceptedField(gf.rep)
    {
      Pow2(Degree())
    }

    /** vaultDataSize(): t coefficients of d bits each, in whole AES blocks. */
    function DataSize(): nat
      reads this
      requires gf.Gf? && AcceptedField(gf.rep) && t >= 0
    {
      VaultDataSize(t, Degree())
    }

    /** What an enrolled record holds: a field with room for the vault and data of the right size. */
    ghost predicate Protects()
      reads this
    {
      && gf.Gf? && AcceptedField(gf.rep) && t >= 0
      && VaultSize() <= Cardinality() && |permutation| == VaultSize()
      && (plain.Data? ==> |plain.bytes| == DataSize())
      && (encrypted.Data? ==> |encrypted.bytes| == DataSize())
    }

    ghost predicate Valid()
      reads this, slowDownFactor
    {
      && slowDownFactor.Valid() && |hash| == 20 && IsPermutation(permutation)
      && s > 0 && k > 0 && tmax > 0
      && (gf.Gf? ==> AcceptedField(gf.rep))
      && (IsEnrolled() ==> Protects())
    }

    /** The slow-down factor's value. */
    function SlowDown(): (v: int)
      reads this, slowDownFactor
      requires slowDownFactor.Valid()
      ensures v == slowDownFactor.Value()
    {
      var x: int := BigIntegerLimbs.Mag(slowDownFactor.Words());
      if slowDownFactor.size < 0 then -x else x
    }

    /**
     * ProtectedMinutiaeRecord() by first_init(): no dimension, resolution
     * or grid distance, s = 6, k = 25, tmax = 44, m = 3, slow-down factor
     * 1, no field and no data.
     */
    constructor ()
      ensures Valid() && fresh(slowDownFactor) && !IsEnrolled() && !IsInitialized()
      ensures width == -1 && height == -1 && dpi == -1 && gridDist == -1
      ensures s == 6 && k == 25 && tmax == 44 && m == 3 && slowDownFactor.Value() == 1
      ensures gridSize == 0 && gf == NoField && t == -1 && hash == seq(20, _ => 0)
    {
      width, height, dpi, gridDist := -1, -1, -1, -1;
      s, k, tmax, m := 6, 25, 44, 3;
      slowDownFactor := new BigInteger(1);
      gridSize, gf, t := 0, NoField, -1;
      plain, encrypted := Null, Null;
      hash := seq(20, _ => 0);
      permutation := [];
    }

    /** The grid distance initialize keeps: the default for the resolution unless one is set. */
    function NextGridDist(dpi: int): int
      reads this
      requires dpi >= 0
    {
      if gridDist <= 0 then DefaultGridDist(dpi) else gridDist
    }

    /**
     * initialize(width, height, dpi) as written: its argument check tests
     * the width twice and never the height, so a height of 0 or less is
     * taken and leaves the record uninitialized. Nothing changes when the
     * dimension and resolution are the ones held; otherwise they are
     * taken, the default grid distance is set unless one is, and grid and
     * field follow.
     */
    method InitializeAsWritten(width: int, height: int, dpi: int, gridOf: GridCount)
      requires Valid() && !IsEnrolled()
      requires !(width <= 0 || width <= 0 || dpi <= 0)
      requires this.width != width || this.height != height || this.dpi != dpi ==>
                 0 <= 10 * gridOf(width, height, NextGridDist(dpi)) * s < 0x4000_0000
      modifies this`width, this`height, this`dpi, this`gridDist, this`gridSize, this`gf
      ensures Valid() && !IsEnrolled()
      ensures old(this.width) == width && old(this.height) == height && old(this.dpi) == dpi ==>
                gridDist == old(gridDist) && gridSize == old(gridSize) && gf == old(gf)
      ensures this.width == width && this.height == height && this.dpi == dpi
      ensures old(this.width) != width || old(this.height) != height || old(this.dpi) != dpi ==>
                && gridDist == old(NextGridDist(dpi)) && gridSize == gridOf(width, height, gridDist)
                && gf.Gf? && AcceptedField(gf.rep) && Degree() == Digits(VaultSize()) + 1
      ensures height <= 0 ==> !IsInitialized()
    {
      if this.width == width && this.height == height && this.dpi == dpi {
        return;
      }
      Reinitialize(width, height, dpi, gridOf);
    }

    /** The part of initialize that takes a new dimension and resolution and rebuilds grid and field. */
    method Reinitialize(width: int, height: int, dpi: int, gridOf: GridCount)
      requires Valid() && !IsEnrolled() && dpi > 0
      requires 0 <= 10 * gridOf(width, height, NextGridDist(dpi)) * s < 0x4000_0000
      modifies this`width, this`height, this`dpi, this`gridDist, this`gridSize, this`gf
      ensures Valid() && !IsEnrolled()
      ensures this.width == width && this.height == height && this.dpi == dpi
      ensures gridDist == old(NextGridDist(dpi)) && gridSize == gridOf(width, height, gridDist)
      ensures gf.Gf? && AcceptedField(gf.rep) && Degree() == Digits(VaultSize()) + 1
    {
      var g := NextGridDist(dpi);
      SetGeometry(width, height, dpi, g);
      UpdateGrid(gridOf);
      UpdateField();
    }

    /**
     * initialize(width, height, dpi) with the height checked as the width
     * is: the record is initialized exactly when it has a positive grid
     * distance, which the default distance of 10 dpi or more is.
     */
    method Initialize(width: int, height: int, dpi: int, gridOf: GridCount)
      requires Valid() && !IsEnrolled()
      requires width > 0 && height > 0 && dpi > 0
      requires this.width != width || this.height != height || this.dpi != dpi ==>
                 0 <= 10 * gridOf(width, height, NextGridDist(dpi)) * s < 0x4000_0000
      modifies this`width, this`height, this`dpi, this`gridDist, this`gridSize, this`gf
      ensures Valid() && !IsEnrolled()
      ensures this.width == width && this.height == height && this.dpi == dpi
      ensures IsInitialized() <==> gridDist > 0
      ensures old(this.width) != width || old(this.height) != height || old(this.dpi) != dpi ==>
                && gridDist == old(NextGridDist(dpi)) && gridSize == gridOf(width, height, gridDist)
                && gf.Gf? && AcceptedField(gf.rep) && Degree() == Digits(VaultSize()) + 1
      ensures old(gridDist) <= 0 && old(this.width) != width && dpi >= 10 ==> IsInitialized()
    {
      InitializeAsWritten(width, height, dpi, gridOf);
    }

    /** The assignments of initialize: the new dimension, resolution and grid distance. */
    method SetGeometry(width: int, height: int, dpi: int, gridDist: int)
      requires Valid() && !IsEnrolled()
      modifies this`width, this`height, this`dpi, this`gridDist
      ensures Valid() && !IsEnrolled()
      ensures this.width == width && this.height == height && this.dpi == dpi && this.gridDist == gridDist
    {
      this.width, this.height, this.dpi, this.gridDist := width, height, dpi, gridDist;
    }

    /** updateGrid(): the grid of the current width, height and grid distance. */
    method UpdateGrid(gridOf: GridCount)
      requires Valid() && !IsEnrolled()
      modifies this`gridSize
      ensures Valid() && !IsEnrolled()
      ensures gridSize == gridOf(width, height, gridDist)
    {
      gridSize := gridOf(width, height, gridDist);
    }

    /**
     * updateField(): the field of degree one more than the binary digits
     * of the vault size, kept when the current field already has that
     * degree.
     */
    method UpdateField()
      requires Valid() && !IsEnrolled() && 0 <= VaultSize() < 0x4000_0000
      modifies this`gf
      ensures Valid() && !IsEnrolled()
      ensures gf.Gf? && AcceptedField(gf.rep) && Degree() == Digits(VaultSize()) + 1
      ensures 2 * VaultSize() < Cardinality()
      ensures old(gf).Gf? && FieldDegree(old(gf).rep) == Digits(VaultSize()) + 1 ==> gf == old(gf)
    {
      var degree := MinimalDegree(VaultSize());
      if gf.NoField? || FieldDegree(gf.rep) != degree {
        DefiningPolynomialExists(degree);
        var rep: nat :| rep <= Pow2(degree) && FieldDegree(rep) == degree;
        gf := Gf(rep);
      }
      assert degree <= 31 by {
        if degree > 31 {
          Pow2Monotone(30, degree - 2);
          FuzzyVaults.Pow2Is30();
        }
      }
    }

    /** setGridDist(gridDist): only before enrolment, for a positive distance; grid and field are not rebuilt. */
    method SetGridDist(gridDist: int)
      requires Valid() && !IsEnrolled() && gridDist > 0
      modifies this`gridDist
      ensures Valid() && !IsEnrolled() && this.gridDist == gridDist
    {
      this.gridDist := gridDist;
    }

    /** setNumAngleQuanta(s): only before enrolment, for a positive s; the field follows once initialized. */
    method SetNumAngleQuanta(s: int)
      requires Valid() && !IsEnrolled() && s > 0
      requires width > 0 && height > 0 && gridDist > 0 ==> 10 * gridSize * s < 0x4000_0000
      modifies this`s, this`gf
      ensures Valid() && !IsEnrolled() && this.s == s
      ensures IsInitialized() ==> gf.Gf? && AcceptedField(gf.rep) && Degree() == Digits(VaultSize()) + 1
      ensures !IsInitialized() ==> gf == old(gf)
    {
      this.s := s;
      if IsInitialized() {
        UpdateField();
      }
    }

    /** setSecretSize(k): only before enrolment, for a positive k. */
    method SetSecretSize(k: int)
      requires Valid() && !IsEnrolled() && k > 0
      modifies this`k
      ensures Valid() && !IsEnrolled() && this.k == k
    {
      this.k := k;
    }

    /** setMaxGenuineFeaturesPerFinger(tmax): only before enrolment, for a positive tmax. */
    method SetMaxGenuineFeaturesPerFinger(tmax: int)
      requires Valid() && !IsEnrolled() && tmax > 0
      modifies this`tmax
      ensures Valid() && !IsEnrolled() && this.tmax == tmax
    {
      this.tmax := tmax;
    }

    /** setMultiplicity(m): any positive m, enrolled or not. */
    method SetMultiplicity(m: int)
      requires Valid() && m > 0
      modifies this`m
      ensures Valid() && this.m == m
    {
      this.m := m;
    }

    /** clear(): the vault data is dropped, t reset to -1 and the hash zeroed; the parameters stay. */
    method Clear()
      requires Valid()
      modifies this`plain, this`encrypted, this`t, this`hash
      ensures Valid() && !IsEnrolled() && plain == Null && encrypted == Null && t == -1 && hash == seq(20, _ => 0)
    {
      plain, encrypted := Null, Null;
      t := -1;
      hash := seq(20, _ => 0);
    }

    /** swap(record1, record2): the two records exchange all their members. */
    method Swap(other: ProtectedMinutiaeRecord)
      modifies this, other, slowDownFactor, other.slowDownFactor
      ensures width == old(other.width) && other.width == old(width)
      ensures height == old(other.height) && other.height == old(height)
      ensures dpi == old(other.dpi) && other.dpi == old(dpi)
      ensures gridDist == old(other.gridDist) && other.gridDist == old(gridDist)
      ensures s == old(other.s) && other.s == old(s)
      ensures k == old(other.k) && other.k == old(k)
      ensures tmax == old(other.tmax) && other.tmax == old(tmax)
      ensures m == old(other.m) && other.m == old(m)
      ensures gridSize == old(other.gridSize) && other.gridSize == old(gridSize)
      ensures gf == old(other.gf) && other.gf == old(gf)
      ensures t == old(other.t) && other.t == old(t)
      ensures plain == old(other.plain) && other.plain == old(plain)
      ensures encrypted == old(other.encrypted) && other.encrypted == old(encrypted)
      ensures hash == old(other.hash) && other.hash == old(hash)
      ensures permutation == old(other.permutation) && other.permutation == old(permutation)
      ensures slowDownFactor.data == old(other.slowDownFactor.data) && slowDownFactor.size == old(other.slowDownFactor.size)
      ensures other.slowDownFactor.data == old(slowDownFactor.data) && other.slowDownFactor.size == old(slowDownFactor.size)
      ensures old(other.slowDownFactor.Valid()) ==>
                slowDownFactor.Valid() && slowDownFactor.Value() == old(other.slowDownFactor.Value())
      ensures old(slowDownFactor.Valid()) ==>
                other.slowDownFactor.Valid() && other.slowDownFactor.Value() == old(slowDownFactor.Value())
    {
      SwapParameters(other);
      SwapState(other);
      slowDownFactor.Swap(other.slowDownFactor);
    }

    /** The parameter half of swap. */
    method SwapParameters(other: ProtectedMinutiaeRecord)
      modifies this`width, this`height, this`dpi, this`gridDist, this`s, this`k, this`tmax, this`m, other`width, other`height, other`dpi, other`gridDist, other`s, other`k, other`tmax, other`m
      ensures width == old(other.width) && other.width == old(width)
      ensures height == old(other.height) && other.height == old(height)
      ensures dpi == old(other.dpi) && other.dpi == old(dpi)
      ensures gridDist == old(other.gridDist) && other.gridDist == old(gridDist)
      ensures s == old(other.s) && other.s == old(s)
      ensures k == old(other.k) && other.k == old(k)
      ensures tmax == old(other.tmax) && other.tmax == old(tmax)
      ensures m == old(other.m) && other.m == old(m)
    {
      width, other.width := other.width, width;
      height, other.height := other.height, height;
      dpi, other.dpi := other.dpi, dpi;
      gridDist, other.gridDist := other.gridDist, gridDist;
      s, other.s := other.s, s;
      k, other.k := other.k, k;
      tmax, other.tmax := other.tmax, tmax;
      m, other.m := other.m, m;
    }

    /** The grid, field and vault half of swap. */
    method SwapState(other: ProtectedMinutiaeRecord)
      modifies this`gridSize, this`gf, this`t, this`plain, this`encrypted, this`hash, this`permutation, other`gridSize, other`gf, other`t, other`plain, other`encrypted, other`hash, other`permutation
      ensures gridSize == old(other.gridSize) && other.gridSize == old(gridSize)
      ensures gf == old(other.gf) && other.gf == old(gf)
      ensures t == old(other.t) && other.t == old(t)
      ensures plain == old(other.plain) && other.plain == old(plain)
      ensures encrypted == old(other.encrypted) && other.encrypted == old(encrypted)
      ensures hash == old(other.hash) && other.hash == old(hash)
      ensures permutation == old(other.permutation) && other.permutation == old(permutation)
    {
      gridSize, other.gridSize := other.gridSize, gridSize;
      gf, other.gf := other.gf, gf;
      t, other.t := other.t, t;
      plain, other.plain := other.plain, plain;
      encrypted, other.encrypted := other.encrypted, encrypted;
      hash, other.hash := other.hash, hash;
      permutation, other.permutation := other.permutation, permutation;
    }

    /**
     * encrypt(key): only for an enrolled record that is not encrypted;
     * the vault data is encrypted by AES-128 in CBC mode under the key
     * and kept only encrypted.
     */
    method Encrypt(key: Aes.Aes128)
      requires Valid() && IsEnrolled() && !IsEncrypted() && key.Valid()
      modifies this`plain, this`encrypted
      ensures Valid() && IsEnrolled() && IsEncrypted() && !IsDecrypted()
      ensures encrypted == Data(Encrypted(key.gf, key.w[..], old(plain).bytes))
    {
      var c := SealCopy(key, plain.bytes);
      encrypted, plain := Data(c), Null;
    }

    /**
     * decrypt(key): only with encrypted data, which stays; the data
     * decrypted under the key becomes the vault data.
     */
    method Decrypt(key: Aes.Aes128)
      requires Valid() && ContainsEncryptedData() && key.Valid()
      modifies this`plain
      ensures Valid() && ContainsEncryptedData() && IsDecrypted() && !IsEncrypted()
      ensures plain == Data(Decrypted(key.gf, key.w[..], encrypted.bytes))
    {
      var p := UnsealCopy(key, encrypted.bytes);
      plain := Data(p);
    }

    /** Decrypting with the key that encrypted gives the vault data back. */
    method EncryptThenDecrypt(key: Aes.Aes128)
      requires Valid() && IsDecrypted() && !IsEncrypted() && key.Valid() && Aes.MixColumnInvertible(key.gf)
      modifies this`plain, this`encrypted
      ensures Valid() && plain == old(plain) && ContainsEncryptedData()
    {
      ghost var p := plain.bytes;
      Encrypt(key);
      Decrypt(key);
      BytesRoundTrip(key.gf, key.w[..], p);
    }

    /**
     * getVaultDataSize(): 0 before enrolment, otherwise vaultDataSize():
     * whole 16-byte blocks, the fewest that hold t coefficients of d bits.
     */
    function GetVaultDataSize(): (n: nat)
      reads this, slowDownFactor
      requires Valid()
      ensures n % 16 == 0
      ensures !IsEnrolled() ==> n == 0
      ensures IsEnrolled() ==> t * Degree() <= 8 * n && (n == 0 || 8 * (n - 16) < t * Degree())
    {
      if !IsEnrolled() then 0
      else
        VaultDataSizeFits(t, Degree());
        DataSize()
    }

    /** reorder(a): the feature a through the permutation, for an enrolled record and a feature of the vault. */
    method Reorder(a: int) returns (b: nat)
      requires Valid() && IsEnrolled() && 0 <= a < VaultSize()
      ensures b < VaultSize() && b == permutation[a]
      ensures forall c :: 0 <= c < VaultSize() && c != a ==> permutation[c] != b
    {
      b := permutation[a];
    }

    /**
     * updatePermutation(): the identity on the vault's features with
     * position x0 exchanged with gen.rand() % n for x0 = 0 .. n-1 in
     * turn, from a generator seeded by the hash.
     */
    method UpdatePermutation(generator: seq<bv8> -> (nat -> nat))
      requires VaultSize() >= 0
      modifies this`permutation
      ensures permutation == Shuffled(VaultSize(), generator(hash), VaultSize()) && |permutation| == VaultSize()
      ensures IsPermutation(permutation)
    {
      permutation := Shuffle(VaultSize(), generator(hash));
    }

    /**
     * quantize(A, view): the quantisations of the view's minutiae in
     * order of quality go to A from start on, each only once, while fewer
     * than tmax are kept. Quantizing a minutia needs an initialized record
     * and a known finger.
     */
    method QuantizeView(A: array<nat>, start: nat, v: View) returns (u: nat)
      requires Valid() && (|v.cells| > 0 ==> IsInitialized() && v.finger != 0)
      requires start + |Kept([], ViewQuantizations(v, gridSize), tmax)| <= A.Length
      modifies A
      ensures u <= tmax && u == |Kept([], ViewQuantizations(v, gridSize), tmax)|
      ensures A[start..start + u] == Kept([], ViewQuantizations(v, gridSize), tmax)
      ensures Unique(A[start..start + u])
      ensures forall q :: q in A[start..start + u] ==> q in ViewQuantizations(v, gridSize)
      ensures u < tmax ==> forall q :: q in ViewQuantizations(v, gridSize) ==> q in A[start..start + u]
      ensures A[..start] == old(A[..start]) && A[start + u..] == old(A[start + u..])
    {
      u := ProtectedMinutiae.QuantizeView(A, start, ViewQuantizations(v, gridSize), tmax);
    }

    /**
     * quantize(A, record): the record must have equal horizontal and
     * vertical resolution and no two views of one finger; each view's
     * kept quantisations follow the previous view's, at most tmax per
     * view. A has room for tmax per view.
     */
    method QuantizeRecord(A: array<nat>, c: Capture) returns (u: nat)
      requires Valid() && c.hres == c.vres && FingersDistinct(c.views)
      requires forall i :: 0 <= i < |c.views| && |c.views[i].cells| > 0 ==> IsInitialized() && c.views[i].finger != 0
      requires tmax * |c.views| <= A.Length
      modifies A
      ensures u <= tmax * |c.views| && A[..u] == RecordQuantizations(c.views, gridSize, tmax)
      ensures A[u..] == old(A[u..])
    {
      u := 0;
      var i := 0;
      while i < |c.views|
        invariant 0 <= i <= |c.views| && u == |RecordQuantizations(c.views[..i], gridSize, tmax)| <= A.Length
        invariant A[..u] == RecordQuantizations(c.views[..i], gridSize, tmax)
        invariant A[u..] == old(A[u..])
      {
        RecordQuantizationsStep(c.views, i, gridSize, tmax, A.Length);
        var w := QuantizeView(A, u, c.views[i]);
        assert A[..u + w] == A[..u] + A[u..u + w];
        u, i := u + w, i + 1;
      }
      assert c.views[..i] == c.views;
      RecordQuantizationsBound(c.views, gridSize, tmax);
    }

    /**
     * unpackVaultPolynomial(v): only for decrypted data and a slow-down
     * value 0 <= v < slowDownFactor; the vault data decrypted under the
     * key of v and unpacked into the monic vault polynomial of degree t.
     */
    method UnpackVaultPolynomial(v: int, digestOf: int -> seq<bv8>) returns (V: SmallBinaryFieldPolynomial)
      requires Valid() && IsDecrypted() && 0 <= v < SlowDown() && |digestOf(v)| == 20
      ensures fresh(V) && V.Valid()
      ensures V.Value() == OpenedVault(Aes.FieldMul, FuzzyVaults.KeyOf(digestOf, v), plain.bytes, t, Degree())
      ensures |V.Value()| == t + 1 && V.Value()[t] == 1
    {
      V := FuzzyVaults.FuzzyVault.UnpackUnder(plain.bytes, t, Degree(), digestOf(v));
    }

    /** One pass of the loop of open: unpack under the slow-down value v, build the unlocking set, decode. */
    method TryValue(f: SmallBinaryFieldPolynomial, F: Field, v: int, query: seq<nat>,
                    sha: seq<nat> -> seq<bv8>, digestOf: int -> seq<bv8>, dec: Decoders)
      returns (success: bool)
      requires Valid() && IsDecrypted() && 0 <= v < SlowDown() && |digestOf(v)| == 20
      requires Below(query, |permutation|)
      modifies f
      ensures |query| < k ==> !success
      ensures success ==> f.Valid() && sha(f.Value()) == hash
      ensures !success ==> unchanged(f)
    {
      var V := UnpackVaultPolynomial(v, digestOf);
      var x, y := UnlockingSet(F, permutation, query, V);
      success := Decode(f, x, y, |query|, k, hash, m, sha, dec);
    }

    /**
     * open(f, B, t): only for an enrolled record that is not encrypted.
     * The slow-down values 0, 1, ... below the slow-down factor are tried
     * in turn: the unlocking set x[j] = reorder(B[j]), y[j] = V(x[j]) of
     * the vault polynomial V unpacked under each is decoded until a
     * polynomial with the record's hash is found and assigned to f.
     * Fewer than k features never open the record.
     */
    method Open(f: SmallBinaryFieldPolynomial, F: Field, B: array<nat>, tq: int,
                sha: seq<nat> -> seq<bv8>, digestOf: int -> seq<bv8>, dec: Decoders)
      returns (success: bool, ghost v: int)
      requires Valid() && IsEnrolled() && !IsEncrypted()
      requires 0 <= tq <= B.Length && Below(B[..tq], |permutation|)
      requires forall x :: |digestOf(x)| == 20
      modifies f
      ensures tq < k ==> !success
      ensures success ==> f.Valid() && sha(f.Value()) == hash && 0 <= v < SlowDown()
      ensures !success ==> unchanged(f)
    {
      var query := B[..tq];
      var bound := SlowDown();
      success, v := false, 0;
      var w := 0;
      while w < bound
        invariant 0 <= w && unchanged(f)
      {
        success := TryValue(f, F, w, query, sha, digestOf, dec);
        if success {
          v := w;
          return;
        }
        w := w + 1;
      }
    }

    /**
     * open(f, record): the record's views quantized into a buffer of
     * 10 * tmax features, then opened with them. Views of distinct known
     * fingers whose cells and angles lie within the grid give distinct
     * features of the vault.
     */
    method OpenRecord(f: SmallBinaryFieldPolynomial, F: Field, c: Capture,
                      sha: seq<nat> -> seq<bv8>, digestOf: int -> seq<bv8>, dec: Decoders)
      returns (success: bool, ghost features: seq<nat>)
      requires Valid() && IsEnrolled() && !IsEncrypted()
      requires c.hres == c.vres && FingersDistinct(c.views) && |c.views| <= 10
      requires forall i :: 0 <= i < |c.views| ==> WithinVault(c.views[i], gridSize, s)
      requires forall i :: 0 <= i < |c.views| && |c.views[i].cells| > 0 ==> IsInitialized()
      requires forall x :: |digestOf(x)| == 20
      modifies f
      ensures features == RecordQuantizations(c.views, gridSize, tmax) && Unique(features)
      ensures |features| < k ==> !success
      ensures success ==> f.Valid() && sha(f.Value()) == hash
      ensures !success ==> unchanged(f)
    {
      Pow2Monotone(Degree(), 31);
      RecordQuery(c.views, gridSize, s, tmax, Cardinality());
      var B := new nat[10 * tmax];
      var u := QuantizeRecord(B, c);
      features := B[..u];
      ghost var w;
      success, w := Open(f, F, B, u, sha, digestOf, dec);
    }

    /** The byte count of the slow-down factor: slowDownFactor.getSizeInBytes(). */
    ghost function SdfSize(): nat
      reads this, slowDownFactor
      requires slowDownFactor.Valid()
    {
      ByteCount(Digits(BigIntegerLimbs.Mag(slowDownFactor.Words())))
    }

    /** The vault data toBytes writes: the encrypted data when there is some. */
    function Stored(): seq<Byte>
      reads this
      requires IsEnrolled()
    {
      if encrypted.Data? then encrypted.bytes else plain.bytes
    }

    /** The fields of the serialized form of this record, with sdf as the slow-down factor's bytes. */
    function FieldsOf(sdf: seq<Byte>): RecordFields
      reads this
      requires gf.Gf? && IsEnrolled()
    {
      RecordFields(RecordParameters(width, height, dpi, gridDist, s, k, tmax, m), sdf, gf.rep, t,
                   ContainsEncryptedData(), Stored(), AsBytes(hash))
    }

    /** getSizeInBytes(): only when enrolled; the length of the record toBytes writes. */
    method GetSizeInBytes() returns (size: nat)
      requires Valid() && IsEnrolled()
      ensures size == 55 + SdfSize() + |Stored()|
      ensures size == |ProtectedRecord(FieldsOf(seq(SdfSize(), _ => 0)))|
    {
      var sb := slowDownFactor.GetSizeInBytes();
      size := 10 + 2 + 2 + 2 + 1 + 1 + 1 + 1 + 4 + 4 + sb + 4 + 2 + 1 + DataSize() + 20;
    }

    /**
     * toBytes(data): only when enrolled; the serialized form of this
     * record, whose slow-down factor bytes decode to the slow-down factor,
     * is written at the start of data and its length returned.
     */
    method ToBytes(data: array<Byte>) returns (size: nat)
      requires Valid() && IsEnrolled() && 55 + SdfSize() + |Stored()| <= data.Length
      modifies data
      ensures size == 55 + SdfSize() + |Stored()|
      ensures data[..size] == ProtectedRecord(FieldsOf(data[28..28 + SdfSize()]))
      ensures DecodeBytes(data[28..28 + SdfSize()]) == SlowDown()
      ensures data[size..] == old(data[size..])
    {
      var sdf := FuzzyVaults.FactorBytes(slowDownFactor);
      var f := FieldsOf(sdf);
      size := WriteRecord(data, f);
      assert FieldsOf(data[28..28 + SdfSize()]) == f;
    }

    /** The state fromBytes leaves after reading the fields f of a serialized record. */
    ghost predicate Holds(f: RecordFields, gridOf: GridCount, generator: seq<bv8> -> (nat -> nat))
      reads this, slowDownFactor
      requires slowDownFactor.Valid()
    {
      && width == f.params.width && height == f.params.height && dpi == f.params.dpi
      && gridDist == f.params.gridDist && s == f.params.s && k == f.params.k && tmax == f.params.tmax
      && m == f.params.m && gridSize == RecordGrid(gridOf, f.params)
      && slowDownFactor.Value() == DecodeBytes(f.sdf) && gf == Gf(f.rep) && t == f.t && hash == AsOctets(f.hash)
      && (if f.encrypted then encrypted == Data(f.vault) && plain == Null else plain == Data(f.vault) && encrypted == Null)
      && VaultSize() >= 0 && permutation == Shuffled(VaultSize(), generator(hash), VaultSize())
    }

    /**
     * fromBytes(data, size): on a serialized record that parses, the
     * record read from it replaces this one and the number of bytes read
     * is returned; otherwise -1 is returned and this record is left as it
     * is. The field is checked against the serialized record's own s.
     */
    method FromBytes(data: seq<Byte>, size: int, gridOf: GridCount, generator: seq<bv8> -> (nat -> nat))
      returns (r: int)
      requires Valid() && size <= |data| && !ParseRecord(data, size, gridOf, s, false).Halts?
      modifies this, slowDownFactor
      ensures Valid()
      ensures var p := ParseRecord(data, size, gridOf, old(s), false);
              && (r == -1 <==> !p.Parsed?)
              && (p.Parsed? ==> r == 55 + |p.fields.sdf| + |p.fields.vault| && r <= size)
              && (p.Parsed? ==> IsEnrolled() && Holds(p.fields, gridOf, generator))
      ensures r == -1 ==> unchanged(this) && unchanged(slowDownFactor)
    {
      var p := ParseRecord(data, size, gridOf, s, false);
      if !p.Parsed? {
        return -1;
      }
      var tmp := new ProtectedMinutiaeRecord.Read(p.fields, gridOf, generator);
      Adopt(tmp, p.fields, gridOf, generator);
      r := 55 + |p.fields.sdf| + |p.fields.vault|;
    }

    /** swap(*this, tmp) at the end of fromBytes: this record takes over the one read into other. */
    method Adopt(other: ProtectedMinutiaeRecord, ghost f: RecordFields, gridOf: GridCount,
                 generator: seq<bv8> -> (nat -> nat))
      requires other != this && other.slowDownFactor != slowDownFactor
      requires other.Valid() && other.IsEnrolled() && other.Holds(f, gridOf, generator)
      modifies this, slowDownFactor, other, other.slowDownFactor
      ensures Valid() && IsEnrolled() && Holds(f, gridOf, generator)
    {
      Swap(other);
    }

    /** 10 * s * grid features, as fromBytes checks them, are 10 * grid * s, the vault size. */
    static lemma VaultSizeOrder(grid: nat, s: nat)
      ensures 10 * grid * s == 10 * s * grid
    {
    }

    /** The record fromBytes reads into tmp from the fields of a serialized record. */
    constructor Read(f: RecordFields, gridOf: GridCount, generator: seq<bv8> -> (nat -> nat))
      requires RecordSound(f) && RecordFits(f, gridOf)
      ensures Valid() && IsEnrolled() && Holds(f, gridOf, generator) && fresh(slowDownFactor)
    {
      var p := f.params;
      var grid := RecordGrid(gridOf, p);
      var n := 10 * grid * p.s;
      VaultSizeOrder(grid, p.s);
      var h := AsOctets(f.hash);
      var x := FuzzyVaults.FactorOf(f.sdf);
      // updatePermutation() on the record read.
      var shuffled := Shuffle(n, generator(h));
      width, height, dpi, gridDist := p.width, p.height, p.dpi, p.gridDist;
      s, k, tmax, m := p.s, p.k, p.tmax, p.m;
      slowDownFactor := x;
      gridSize, gf, t := grid, Gf(f.rep), f.t;
      plain := if f.encrypted then Null else Data(f.vault);
      encrypted := if f.encrypted then Data(f.vault) else Null;
      hash, permutation := h, shuffled;
    }
  }
}
