/**
 * The protected minutiae template of ProtectedMinutiaeTemplate.cpp: a
 * fuzzy vault whose features are the cells of a hexagonal grid around an
 * absolutely pre-aligned fingerprint, crossed with s angle quanta. The
 * vault of gridSize * s features hides the quantised minutiae; it is
 * opened by the randomized brute-force decoder and serialized as a
 * "PMT" record.
 */
module Templates {
  import opened MathTools
  import Aes
  import BigIntegerLimbs
  import opened BigIntegerBytes
  import opened BigIntegers
  import opened BitPacking
  import opened SmallBinaryFieldPolynomials
  import opened FuzzyVaultTools
  import opened Features
  import opened Vaults
  import opened ProtectedMinutiae
  import FuzzyVaults

  // ---------------------------------------------------------------------
  // The PMT record

  /** The record header: "PMT140818" with its terminating zero byte. */
  const TemplateMagic: seq<Byte> := [80, 77, 84, 49, 52, 48, 56, 49, 56, 0]

  /** The parameters of a template, as the record stores them before its field. */
  datatype Parameters = Parameters(width: int, height: int, finger: int, dpi: int, gridDist: int,
                                   s: int, k: int, tmax: int, D: int)

  /** The fields of a record: parameters, field, t, slow-down factor, vault data and hash. */
  datatype TemplateFields = TemplateFields(params: Parameters, rep: nat, t: int, sdf: seq<Byte>,
                                           encrypted: bool, vault: seq<Byte>, hash: seq<Byte>)

  /** fromBytes returns -1, exits the process, or reads a template. */
  datatype Parsing = Rejected | Halts | Parsed(fields: TemplateFields)

  /**
   * The first 25 bytes toBytes writes: header, width and height (two
   * bytes each), finger position, dpi (two bytes), grid distance, s, k
   * and tmax (one byte each) and D (four bytes).
   */
  function Front(p: Parameters): (r: seq<Byte>)
    ensures |r| == 25
  {
    TemplateMagic + Short(p.width) + Short(p.height) + [Octet(p.finger)] + Short(p.dpi)
    + [Octet(p.gridDist), Octet(p.s), Octet(p.k), Octet(p.tmax)] + FuzzyVaults.Word(p.D)
  }

  /** The nine bytes after them: the defining polynomial, t, and the slow-down factor's size. */
  function Middle(rep: nat, t: int, sdfSize: int): (r: seq<Byte>)
    ensures |r| == 9
  {
    FuzzyVaults.Word(rep) + [Octet(t)] + FuzzyVaults.Word(sdfSize)
  }

  /**
   * The record toBytes writes: front and middle, the slow-down factor's
   * bytes, a flag byte (1 for encrypted vault data), the vault data and
   * the hash.
   */
  function TemplateRecord(f: TemplateFields): (r: seq<Byte>)
    ensures |r| == 35 + |f.sdf| + |f.vault| + |f.hash|
  {
    Front(f.params) + Middle(f.rep, f.t, |f.sdf|) + f.sdf + [if f.encrypted then 1 else 0] + f.vault + f.hash
  }

  /** The parameters fromBytes reads from the first 25 bytes. */
  function ReadParameters(data: seq<Byte>): (p: Parameters)
    requires |data| >= 25
    ensures 0 <= p.width < 65536 && 0 <= p.height < 65536 && 0 <= p.dpi < 65536
    ensures 0 <= p.finger < 256 && 0 <= p.gridDist < 256 && 0 <= p.s < 256 && 0 <= p.k < 256 && 0 <= p.tmax < 256
    ensures -0x8000_0000 <= p.D < 0x8000_0000
  {
    Parameters(ReadShort(data, 10), ReadShort(data, 12), data[14], ReadShort(data, 15),
               data[17], data[18], data[19], data[20], Int32(FuzzyVaults.ReadWord(data, 21)))
  }

  /**
   * The checks fromBytes makes of the parameters: nonzero width and
   * height, a finger position of at most 10, a resolution of 300 .. 1000
   * dpi, nonzero grid distance, s, k and tmax, and k at most tmax.
   */
  predicate Accepted(p: Parameters)
  {
    && p.width != 0 && p.height != 0 && p.finger <= 10 && 300 <= p.dpi <= 1000
    && p.gridDist != 0 && p.s != 0 && p.k != 0 && p.tmax != 0 && p.k <= p.tmax
  }

  /** Parameters the record can hold and fromBytes accepts. */
  predicate Encodable(p: Parameters)
  {
    && 0 < p.width < 65536 && 0 < p.height < 65536 && 0 <= p.finger <= 10 && 300 <= p.dpi <= 1000
    && 0 < p.gridDist < 256 && 0 < p.s < 256 && 0 < p.k <= p.tmax < 256
    && -0x8000_0000 <= p.D < 0x8000_0000
  }

  /** The fields of a well-formed record. */
  predicate Sound(f: TemplateFields)
  {
    && Encodable(f.params) && AcceptedField(f.rep) && 0 <= f.t < 256
    && |f.vault| == VaultDataSize(f.t, FieldDegree(f.rep)) && |f.hash| == 20 && |f.sdf| < 0x8000_0000
  }

  /** The number of grid points of the parameters. */
  function GridOf(gridOf: GridCount, p: Parameters): nat
  {
    gridOf(p.width, p.height, p.gridDist)
  }

  /** The vault of the fields has no more features than the field has elements. */
  predicate Fits(f: TemplateFields, gridOf: GridCount)
    requires AcceptedField(f.rep)
  {
    f.params.s * GridOf(gridOf, f.params) <= Pow2(FieldDegree(f.rep))
  }

  /**
   * fromBytes(data, size), step by step. Every failed check before the
   * defining polynomial returns -1, so the first 25 bytes are checked at
   * once. A defining polynomial of degree below 1 makes the field
   * constructor exit, and so does a negative slow-down factor size
   * (BigInteger::fromBytes). The cardinality check compares with s times
   * the grid size: as written (asWritten) with the s of the template
   * fromBytes is called on, as two 32-bit ints; otherwise with the s of
   * the record.
   */
  function ParseTemplate(data: seq<Byte>, size: int, gridOf: GridCount, receiverS: int, asWritten: bool): (p: Parsing)
    requires size <= |data|
    ensures p.Parsed? ==> Sound(p.fields) && 55 + |p.fields.sdf| + |p.fields.vault| <= size
    ensures p.Parsed? && !asWritten ==> Fits(p.fields, gridOf)
    ensures !p.Rejected? ==> size >= 29 && HeaderAccepted(data, 84) && Accepted(ReadParameters(data))
  {
    if size < 25 || !HeaderAccepted(data, 84) || !Accepted(ReadParameters(data)) then Rejected
    else ParseVault(data, size, ReadParameters(data), gridOf, receiverS, asWritten)
  }

  /** The defining polynomial, checked against the vault size. */
  function ParseVault(data: seq<Byte>, size: int, p: Parameters, gridOf: GridCount, receiverS: int,
                      asWritten: bool): (r: Parsing)
    requires 25 <= size <= |data| && Encodable(p)
    ensures r.Parsed? ==> Sound(r.fields) && r.fields.params == p && 55 + |r.fields.sdf| + |r.fields.vault| <= size
    ensures r.Parsed? && !asWritten ==> Fits(r.fields, gridOf)
    ensures !r.Rejected? ==> size >= 29
  {
    if size < 29 then Rejected
    else
      var rep := FuzzyVaults.ReadWord(data, 25);
      if !AcceptedField(rep) then Halts
      else
        var grid := GridOf(gridOf, p);
        if asWritten && SignedCardinality(rep) < Int32(Uint32(receiverS * grid)) then Rejected
        else if !asWritten && Pow2(FieldDegree(rep)) < p.s * grid then Rejected
        else ParseData(data, size, p, rep)
  }

  /** t, the slow-down factor, the flag byte, the vault data and the hash. */
  function ParseData(data: seq<Byte>, size: int, p: Parameters, rep: nat): (r: Parsing)
    requires 29 <= size <= |data| && Encodable(p) && AcceptedField(rep)
    ensures r.Parsed? ==> Sound(r.fields) && r.fields.params == p && r.fields.rep == rep
    ensures r.Parsed? ==> 55 + |r.fields.sdf| + |r.fields.vault| <= size
  {
    if size < 30 then Rejected
    else
      var t: nat := data[29];
      if size < 34 then Rejected
      else
        var sdfSize := Int32(FuzzyVaults.ReadWord(data, 30));
        if size < 34 + sdfSize then Rejected
        else if sdfSize < 0 then Halts
        else
          var offset := 34 + sdfSize;
          var n := VaultDataSize(t, FieldDegree(rep));
          if size < offset + n + 1 then Rejected
          else if size < offset + n + 21 then Rejected
          else Parsed(TemplateFields(p, rep, t, data[34..offset], data[offset] != 0,
                                     data[offset + 1..offset + 1 + n], data[offset + 1 + n..offset + n + 21]))
  }

  /** Where each part of the front sits. */
  lemma FrontLayout(p: Parameters)
    ensures var r := Front(p);
            && r[..10] == TemplateMagic && r[10..12] == Short(p.width) && r[12..14] == Short(p.height)
            && r[14] == Octet(p.finger) && r[15..17] == Short(p.dpi) && r[17] == Octet(p.gridDist)
            && r[18] == Octet(p.s) && r[19] == Octet(p.k) && r[20] == Octet(p.tmax)
            && r[21..25] == FuzzyVaults.Word(p.D)
  {
    var a := TemplateMagic + Short(p.width) + Short(p.height) + [Octet(p.finger)] + Short(p.dpi);
    var b := [Octet(p.gridDist), Octet(p.s), Octet(p.k), Octet(p.tmax)];
    var r := Front(p);
    assert r == a + b + FuzzyVaults.Word(p.D);
    assert r[..17] == a;
    assert a[..10] == TemplateMagic;
    assert a[10..12] == Short(p.width);
    assert a[12..14] == Short(p.height);
    assert a[15..17] == Short(p.dpi);
  }

  /** The header check passes on the header toBytes writes. */
  lemma MagicAccepted(r: seq<Byte>)
    requires |r| >= 10 && r[..10] == TemplateMagic
    ensures HeaderAccepted(r, 84)
  {
    assert forall j :: 0 <= j < 10 ==> r[j] == TemplateMagic[j];
  }

  /** The parameters of a front read back. */
  lemma FrontRead(p: Parameters)
    requires Encodable(p)
    ensures HeaderAccepted(Front(p), 84) && ReadParameters(Front(p)) == p
  {
    var q := Front(p);
    FrontLayout(p);
    MagicAccepted(q);
    ShortAt(q, 10, p.width);
    ShortAt(q, 12, p.height);
    ShortAt(q, 15, p.dpi);
    FuzzyVaults.WordAt(q, 21, p.D);
    OctetBackWithin(p.finger);
    OctetBackWithin(p.gridDist);
    OctetBackWithin(p.s);
    OctetBackWithin(p.k);
    OctetBackWithin(p.tmax);
  }

  /** The header and the parameters depend on the first 25 bytes only. */
  lemma PrefixRead(r: seq<Byte>)
    requires |r| >= 25
    ensures ReadParameters(r) == ReadParameters(r[..25])
    ensures HeaderAccepted(r, 84) == HeaderAccepted(r[..25], 84)
  {
    var q := r[..25];
    assert r[10..12] == q[10..12] && r[12..14] == q[12..14] && r[15..17] == q[15..17];
    assert r[21..25] == q[21..25];
  }

  /** fromBytes reads back the parameters of a front. */
  lemma FrontBack(r: seq<Byte>, p: Parameters)
    requires |r| >= 25 && r[..25] == Front(p) && Encodable(p)
    ensures HeaderAccepted(r, 84) && ReadParameters(r) == p && Accepted(p)
  {
    FrontRead(p);
    PrefixRead(r);
  }

  /** Where each part of a record sits. */
  lemma RecordLayout(f: TemplateFields)
    ensures var r := TemplateRecord(f); var o := 34 + |f.sdf|;
            && r[..25] == Front(f.params) && r[25..29] == FuzzyVaults.Word(f.rep) && r[29] == Octet(f.t)
            && r[30..34] == FuzzyVaults.Word(|f.sdf|) && r[34..o] == f.sdf
            && r[o] == (if f.encrypted then 1 else 0)
            && r[o + 1..o + 1 + |f.vault|] == f.vault && r[o + 1 + |f.vault|..] == f.hash
  {
    var r := TemplateRecord(f);
    var h := Front(f.params) + Middle(f.rep, f.t, |f.sdf|);
    var o := 34 + |f.sdf|;
    var flag: seq<Byte> := [if f.encrypted then 1 else 0];
    assert r == h + f.sdf + flag + f.vault + f.hash;
    assert r[..34] == h;
    assert h[..25] == Front(f.params);
    assert h[25..29] == FuzzyVaults.Word(f.rep);
    assert h[30..34] == FuzzyVaults.Word(|f.sdf|);
    assert r[34..o] == f.sdf;
    assert r[o + 1..o + 1 + |f.vault|] == f.vault;
    assert r[o + 1 + |f.vault|..] == f.hash;
  }

  /** The fields after the front, as fromBytes reads them from a record. */
  lemma RecordTail(f: TemplateFields)
    requires Sound(f)
    ensures var r := TemplateRecord(f); var o := 34 + |f.sdf|;
            && FuzzyVaults.ReadWord(r, 25) == f.rep && r[29] == f.t
            && Int32(FuzzyVaults.ReadWord(r, 30)) == |f.sdf| && r[34..o] == f.sdf
            && (r[o] != 0 <==> f.encrypted)
            && r[o + 1..o + 1 + |f.vault|] == f.vault && r[o + 1 + |f.vault|..] == f.hash
  {
    var r := TemplateRecord(f);
    RecordLayout(f);
    FuzzyVaults.AcceptedFits(f.rep);
    assert FuzzyVaults.ReadWord(r, 25) == f.rep by { FuzzyVaults.UnsignedWordBack(f.rep); }
    FuzzyVaults.WordAt(r, 30, |f.sdf|);
    OctetBackWithin(f.t);
  }

  /** The last stage of fromBytes on a record. */
  lemma ParseDataAt(f: TemplateFields)
    requires Sound(f)
    ensures var r := TemplateRecord(f); ParseData(r, |r|, f.params, f.rep) == Parsed(f)
  {
    RecordTail(f);
  }

  /**
   * fromBytes on a record up to the cardinality check: the front is read
   * back and the defining polynomial reached.
   */
  lemma ParseTemplateAt(f: TemplateFields, gridOf: GridCount, receiverS: int, asWritten: bool)
    requires Sound(f)
    ensures var r := TemplateRecord(f);
            ParseTemplate(r, |r|, gridOf, receiverS, asWritten)
            == ParseVault(r, |r|, f.params, gridOf, receiverS, asWritten)
    ensures FuzzyVaults.ReadWord(TemplateRecord(f), 25) == f.rep
  {
    var r := TemplateRecord(f);
    RecordLayout(f);
    FrontBack(r, f.params);
    RecordTail(f);
  }

  /**
   * fromBytes reads back what toBytes writes: the record of sound fields
   * whose vault fits the field is parsed into those very fields.
   */
  lemma TemplateRoundTrip(f: TemplateFields, gridOf: GridCount, receiverS: int)
    requires Sound(f) && Fits(f, gridOf)
    ensures var r := TemplateRecord(f); ParseTemplate(r, |r|, gridOf, receiverS, false) == Parsed(f)
  {
    ParseTemplateAt(f, gridOf, receiverS, false);
    ParseDataAt(f);
  }

  // ---------------------------------------------------------------------
  // Finding: fromBytes checks the field against the wrong s

  /** A record of s = 4 angle quanta over one grid point in GF(2), which has 2 elements. */
  function WideFields(): TemplateFields
  {
    TemplateFields(Parameters(1, 1, 0, 500, 1, 4, 1, 1, 0), 2, 0, [1], false, [], seq(20, _ => 0))
  }

  /** A grid of one point whatever the dimension. */
  function OnePoint(): GridCount
  {
    (w: int, h: int, g: int) => 1
  }

  lemma WideFieldsSound()
    ensures Sound(WideFields()) && FieldDegree(2) == 1 && Pow2(1) == 2
  {
    assert VaultDataSize(0, 1) == 0;
  }

  /**
   * fromBytes as written, on a template whose own s is 1, accepts the
   * record: it reads a template of 4 features in a field of 2 elements,
   * whose permutation then sends features outside the field.
   */
  lemma WideRecordAccepted()
    ensures var r := TemplateRecord(WideFields());
            && ParseTemplate(r, |r|, OnePoint(), 1, true) == Parsed(WideFields())
            && !Fits(WideFields(), OnePoint())
  {
    WideFieldsSound();
    ParseTemplateAt(WideFields(), OnePoint(), 1, true);
    ParseDataAt(WideFields());
  }

  /** Checked against the record's own s, the same record is refused. */
  lemma WideRecordRejected()
    ensures var r := TemplateRecord(WideFields()); ParseTemplate(r, |r|, OnePoint(), 1, false) == Rejected
  {
    WideFieldsSound();
    ParseTemplateAt(WideFields(), OnePoint(), 1, false);
  }

  /** toBytes's writes: the record of the fields f at the start of data. */
  method WriteTemplate(data: array<Byte>, f: TemplateFields) returns (size: nat)
    requires 35 + |f.sdf| + |f.vault| + |f.hash| <= data.Length
    modifies data
    ensures size == 35 + |f.sdf| + |f.vault| + |f.hash| && data[..size] == TemplateRecord(f)
    ensures data[34..34 + |f.sdf|] == f.sdf && data[size..] == old(data[size..])
  {
    var r := TemplateRecord(f);
    FuzzyVaults.Put(data, 0, r);
    size := |r|;
    RecordLayout(f);
    assert data[..size][34..34 + |f.sdf|] == f.sdf;
  }

  // ---------------------------------------------------------------------
  // The template object

  /** bfattack's iteration bound: D converted to uint64_t. */
  function Iterations(D: int): (n: nat)
    ensures n < 0x1_0000_0000_0000_0000
    ensures 0 <= D < 0x1_0000_0000_0000_0000 ==> n == D
    ensures -0x1_0000_0000_0000_0000 <= D < 0 ==> n == D + 0x1_0000_0000_0000_0000
  {
    D % 0x1_0000_0000_0000_0000
  }

  /**
   * decode(f, x, y, t, k, hash, D): false for an unlocking set of fewer
   * than k points; otherwise the first D iterations of the randomized
   * brute-force attack, which assign to f a polynomial of at most k
   * coefficients with the hash when they find one.
   */
  method Decode(F: Field, f: SmallBinaryFieldPolynomial, x: seq<nat>, y: seq<nat>, u: int, k: int,
                hash: seq<bv8>, D: int, sha: seq<nat> -> seq<bv8>, draws: seq<nat>) returns (success: bool)
    requires IsField(F) && f.Valid()
    requires u >= k ==> 0 < k && u <= RAND_MAX && u <= |x| && u <= |y| && Unique(x[..u])
    modifies f
    ensures u < k ==> !success
    ensures success ==> f.Valid() && sha(f.Value()) == hash && |f.Value()| <= k
    ensures !success ==> unchanged(f)
  {
    if u < k {
      return false;
    }
    var r, its := BfAttack(F, f, x, y, u, k, hash, Iterations(D), sha, draws);
    success := r == Returns(true);
  }

  class ProtectedMinutiaeTemplate {
    var width: int
    var height: int
    var fingerPosition: int
    var dpi: int
    var gridDist: int
    /** The number of angle quanta. */
    var s: int
    /** The size of the secret polynomial. */
    var k: int
    /** The bound on the number of genuine features. */
    var tmax: int
    /** The number of iterations of the randomized decoder. */
    var D: int
    /** grid.size(): the number of points of the hexagonal grid. */
    var gridSize: nat
    /** The field GF(2^d), by its defining polynomial, once one is chosen. */
    var gf: Gf
    /** The number of genuine features protected, -1 before enrolment. */
    var t: int
    const slowDownFactor: BigInteger
    /** The vault data as packed and encrypted under the slow-down key: vaultPolynomialData. */
    var plain: Buffer
    /** The vault data encrypted once more under a user key: encryptedVaultPolynomialData. */
    var encrypted: Buffer
    /** The SHA-1 hash of the secret polynomial's coefficients. */
    var hash: seq<bv8>
    /** The feature permutation drawn from a generator seeded by the hash. */
    var permutation: seq<nat>
    /** is_initialized. */
    var initialized: bool

    predicate IsInitialized()
      reads this
    {
      initialized
    }

    predicate IsEnrolled()
      reads this
    {
      t >= 0
    }

    predicate IsEncrypted()
      reads this
    {
      encrypted.Data? && plain.Null?
    }

    predicate IsDecrypted()
      reads this
    {
      plain.Data?
    }

    predicate ContainsEncryptedData()
      reads this
    {
      encrypted.Data?
    }

    /** getVaultSize(): the grid points times the angle quanta. */
    function VaultSize(): int
      reads this
    {
      gridSize * s
    }

    /** getField().getDegree(). */
    function Degree(): nat
      reads this
      requires gf.Gf? && AcceptedField(gf.rep)
    {
      FieldDegree(gf.rep)
    }

    /** getField().getCardinality(). */
    function Cardinality(): nat
      reads this
      requires gf.Gf? && AcceptedField(gf.rep)
    {
      Pow2(Degree())
    }

    /** vaultDataSize(): t coefficients of d bits each, in whole AES blocks. */
    function DataSize(): nat
      reads this
      requires gf.Gf? && AcceptedField(gf.rep) && t >= 0
    {
      VaultDataSize(t, Degree())
    }

    /** What a template that protects a feature set holds: sound parameters and data of the right size. */
    ghost predicate Protects()
      reads this
    {
      && gf.Gf? && AcceptedField(gf.rep) && t >= 0 && s > 0 && k > 0
      && VaultSize() <= Cardinality() && |permutation| == VaultSize()
      && (plain.Data? ==> |plain.bytes| == DataSize())
      && (encrypted.Data? ==> |encrypted.bytes| == DataSize())
    }

    ghost predicate Valid()
      reads this, slowDownFactor
    {
      && slowDownFactor.Valid() && |hash| == 20 && IsPermutation(permutation)
      && (gf.Gf? ==> AcceptedField(gf.rep))
      && (IsEnrolled() <==> plain.Data? || encrypted.Data?)
      && (IsEnrolled() ==> Protects())
    }

    /** The slow-down factor's value. */
    function SlowDown(): (v: int)
      reads this, slowDownFactor
      requires slowDownFactor.Valid()
      ensures v == slowDownFactor.Value()
    {
      var m: int := BigIntegerLimbs.Mag(slowDownFactor.Words());
      if slowDownFactor.size < 0 then -m else m
    }

    /** ProtectedMinutiaeTemplate(): every parameter -1, no field, no grid, no data. */
    constructor Empty()
      ensures Valid() && fresh(slowDownFactor) && !IsEnrolled() && !IsInitialized()
      ensures width == -1 && height == -1 && fingerPosition == 0 && dpi == -1 && gridDist == -1
      ensures s == -1 && k == -1 && tmax == -1 && D == -1 && gridSize == 0 && gf == NoField
      ensures hash == seq(20, _ => 0) && slowDownFactor.Value() == 0
    {
      width, height, fingerPosition, dpi, gridDist := -1, -1, 0, -1, -1;
      s, k, tmax, D := -1, -1, -1, -1;
      gridSize, gf, t := 0, NoField, -1;
      slowDownFactor := new BigInteger(0);
      plain, encrypted := Null, Null;
      hash := seq(20, _ => 0);
      permutation := [];
      initialized := false;
    }

    /**
     * ProtectedMinutiaeTemplate(width, height, dpi, fingerPosition): the
     * standard parameters for the resolution (a grid distance of 29/569
     * of the dpi, 6 angle quanta, k = 10, tmax = 44, D = 2^16), the grid
     * and the smallest field with room for the vault and as many
     * blending elements.
     */
    constructor (width: int, height: int, dpi: int, fingerPosition: int, gridOf: GridCount)
      requires width > 0 && height > 0 && 300 <= dpi <= 1000
      requires 6 * gridOf(width, height, DefaultGridDist(dpi)) < 0x4000_0000
      ensures Valid() && fresh(slowDownFactor) && IsInitialized() && !IsEnrolled()
      ensures this.width == width && this.height == height && this.dpi == dpi
      ensures this.fingerPosition == fingerPosition && gridDist == DefaultGridDist(dpi)
      ensures s == 6 && k == 10 && tmax == 44 && D == 65536 && slowDownFactor.Value() == 1
      ensures gridSize == gridOf(width, height, gridDist) && hash == seq(20, _ => 0)
      ensures gf.Gf? && AcceptedField(gf.rep) && Degree() == Digits(VaultSize()) + 1
      ensures 2 * VaultSize() < Cardinality()
    {
      this.width, this.height, this.dpi, this.fingerPosition := width, height, dpi, fingerPosition;
      gridDist := DefaultGridDist(dpi);
      s, k, tmax, D := 6, 10, 44, 65536;
      gridSize, gf, t := 0, NoField, -1;
      slowDownFactor := new BigInteger(1);
      plain, encrypted := Null, Null;
      hash := seq(20, _ => 0);
      permutation := [];
      initialized := true;
      new;
      UpdateGrid(gridOf);
      UpdateField();
    }

    /** updateGrid(): the grid of the current width, height and grid distance. */
    method UpdateGrid(gridOf: GridCount)
      modifies this
      ensures gridSize == gridOf(width, height, gridDist)
      ensures width == old(width) && height == old(height) && gridDist == old(gridDist) && s == old(s)
      ensures k == old(k) && tmax == old(tmax) && D == old(D) && dpi == old(dpi) && fingerPosition == old(fingerPosition)
      ensures gf == old(gf) && t == old(t) && plain == old(plain) && encrypted == old(encrypted)
      ensures hash == old(hash) && permutation == old(permutation) && initialized == old(initialized)
    {
      gridSize := gridOf(width, height, gridDist);
    }

    /**
     * updateField(): the field of degree one more than the binary digits
     * of the vault size, kept when the current field already has that
     * degree.
     */
    method UpdateField()
      requires 0 <= VaultSize() < 0x4000_0000 && (gf.Gf? ==> AcceptedField(gf.rep))
      modifies this
      ensures width == old(width) && height == old(height) && gridDist == old(gridDist) && s == old(s)
      ensures k == old(k) && tmax == old(tmax) && D == old(D) && dpi == old(dpi) && fingerPosition == old(fingerPosition)
      ensures gridSize == old(gridSize) && t == old(t) && plain == old(plain) && encrypted == old(encrypted)
      ensures hash == old(hash) && permutation == old(permutation) && initialized == old(initialized)
      ensures gf.Gf? && AcceptedField(gf.rep) && Degree() == Digits(VaultSize()) + 1
      ensures 2 * VaultSize() < Cardinality()
      ensures old(gf).Gf? && FieldDegree(old(gf).rep) == Digits(VaultSize()) + 1 ==> gf == old(gf)
    {
      var degree := MinimalDegree(VaultSize());
      if gf.NoField? || FieldDegree(gf.rep) != degree {
        DefiningPolynomialExists(degree);
        var rep: nat :| rep <= Pow2(degree) && FieldDegree(rep) == degree;
        gf := Gf(rep);
      }
      assert degree <= 31 by {
        if degree > 31 {
          Pow2Monotone(30, degree - 2);
          FuzzyVaults.Pow2Is30();
        }
      }
    }

    /**
     * setDimension(width, height) as written: it rebuilds grid and field
     * but never stores the new dimension, so width and height stay as
     * they were.
     */
    method SetDimensionAsWritten(width: int, height: int, gridOf: GridCount)
      requires Valid() && !IsEnrolled()
      requires 0 <= gridOf(this.width, this.height, gridDist) * s < 0x4000_0000
      modifies this
      ensures Valid() && !IsEnrolled()
      ensures this.width == old(this.width) && this.height == old(this.height)
      ensures gridSize == gridOf(old(this.width), old(this.height), gridDist) && s == old(s)
    {
      UpdateGrid(gridOf);
      UpdateField();
    }

    /**
     * setDimension(width, height), as its documentation describes it: the
     * dimension changes, and with it the grid and, when need be, the field.
     */
    method SetDimension(width: int, height: int, gridOf: GridCount)
      requires Valid() && !IsEnrolled()
      requires 0 <= gridOf(width, height, gridDist) * s < 0x4000_0000
      modifies this
      ensures Valid() && !IsEnrolled()
      ensures this.width == width && this.height == height && gridSize == gridOf(width, height, gridDist)
      ensures gridDist == old(gridDist) && s == old(s) && k == old(k) && tmax == old(tmax) && D == old(D)
      ensures gf.Gf? && AcceptedField(gf.rep) && Degree() == Digits(VaultSize()) + 1
      ensures 2 * VaultSize() < Cardinality()
    {
      this.width, this.height := width, height;
      UpdateGrid(gridOf);
      UpdateField();
    }

    /** setResolution(dpi): any resolution of 300 .. 1000 dpi, enrolled or not. */
    method SetResolution(dpi: int)
      requires Valid() && 300 <= dpi <= 1000
      modifies this
      ensures Valid() && this.dpi == dpi
      ensures width == old(width) && height == old(height) && gridDist == old(gridDist) && s == old(s)
      ensures k == old(k) && tmax == old(tmax) && D == old(D) && gridSize == old(gridSize) && gf == old(gf)
      ensures t == old(t) && plain == old(plain) && encrypted == old(encrypted) && hash == old(hash)
      ensures permutation == old(permutation)
    {
      this.dpi := dpi;
    }

    /** setGridDist(gridDist): only before enrolment, for a positive distance; grid and field follow. */
    method SetGridDist(gridDist: int, gridOf: GridCount)
      requires Valid() && !IsEnrolled() && gridDist > 0
      requires 0 <= gridOf(width, height, gridDist) * s < 0x4000_0000
      modifies this
      ensures Valid() && !IsEnrolled() && this.gridDist == gridDist && gridSize == gridOf(width, height, gridDist)
      ensures width == old(width) && height == old(height) && s == old(s) && k == old(k) && tmax == old(tmax)
      ensures gf.Gf? && AcceptedField(gf.rep) && Degree() == Digits(VaultSize()) + 1
      ensures 2 * VaultSize() < Cardinality()
    {
      this.gridDist := gridDist;
      UpdateGrid(gridOf);
      UpdateField();
    }

    /** setNumAngleQuanta(s): only before enrolment, for a positive s; the field follows. */
    method SetNumAngleQuanta(s: int)
      requires Valid() && !IsEnrolled() && s > 0 && gridSize * s < 0x4000_0000
      modifies this
      ensures Valid() && !IsEnrolled() && this.s == s && gridSize == old(gridSize)
      ensures width == old(width) && height == old(height) && gridDist == old(gridDist) && k == old(k)
      ensures gf.Gf? && AcceptedField(gf.rep) && Degree() == Digits(VaultSize()) + 1
      ensures 2 * VaultSize() < Cardinality()
    {
      this.s := s;
      UpdateField();
    }

    /** setSecretSize(k): only before enrolment, for a positive k. */
    method SetSecretSize(k: int)
      requires Valid() && !IsEnrolled() && k > 0
      modifies this
      ensures Valid() && !IsEnrolled() && this.k == k
      ensures s == old(s) && tmax == old(tmax) && gridSize == old(gridSize) && gf == old(gf) && hash == old(hash)
    {
      this.k := k;
    }

    /** setMaxGenuineFeatures(tmax): only before enrolment, for a positive tmax. */
    method SetMaxGenuineFeatures(tmax: int)
      requires Valid() && !IsEnrolled() && tmax > 0
      modifies this
      ensures Valid() && !IsEnrolled() && this.tmax == tmax
      ensures s == old(s) && k == old(k) && gridSize == old(gridSize) && gf == old(gf) && hash == old(hash)
    {
      this.tmax := tmax;
    }

    /** setNumberOfDecodingIterations(D): any positive D, enrolled or not. */
    method SetNumberOfDecodingIterations(D: int)
      requires Valid() && D > 0
      modifies this
      ensures Valid() && this.D == D
      ensures s == old(s) && k == old(k) && t == old(t) && gf == old(gf) && plain == old(plain)
      ensures encrypted == old(encrypted) && hash == old(hash) && permutation == old(permutation)
    {
      this.D := D;
    }

    /** clear(): the vault data is dropped, the hash zeroed and t reset to -1; the parameters stay. */
    method Clear()
      requires Valid()
      modifies this
      ensures Valid() && !IsEnrolled() && plain == Null && encrypted == Null && hash == seq(20, _ => 0)
      ensures width == old(width) && height == old(height) && gridDist == old(gridDist) && s == old(s)
      ensures k == old(k) && tmax == old(tmax) && D == old(D) && gridSize == old(gridSize) && gf == old(gf)
      ensures permutation == old(permutation) && initialized == old(initialized)
    {
      plain, encrypted := Null, Null;
      hash := seq(20, _ => 0);
      t := -1;
    }

    /** swap(vault1, vault2): the two templates exchange all their members. */
    method Swap(other: ProtectedMinutiaeTemplate)
      modifies this, other, slowDownFactor, other.slowDownFactor
      ensures width == old(other.width) && height == old(other.height) && fingerPosition == old(other.fingerPosition)
      ensures dpi == old(other.dpi) && gridDist == old(other.gridDist) && s == old(other.s) && k == old(other.k)
      ensures tmax == old(other.tmax) && D == old(other.D) && gridSize == old(other.gridSize) && gf == old(other.gf)
      ensures t == old(other.t) && plain == old(other.plain) && encrypted == old(other.encrypted)
      ensures initialized == old(other.initialized) && hash == old(other.hash) && permutation == old(other.permutation)
      ensures slowDownFactor.data == old(other.slowDownFactor.data) && slowDownFactor.size == old(other.slowDownFactor.size)
      ensures other.width == old(width) && other.height == old(height) && other.fingerPosition == old(fingerPosition)
      ensures other.dpi == old(dpi) && other.gridDist == old(gridDist) && other.s == old(s) && other.k == old(k)
      ensures other.tmax == old(tmax) && other.D == old(D) && other.gridSize == old(gridSize) && other.gf == old(gf)
      ensures other.t == old(t) && other.plain == old(plain) && other.encrypted == old(encrypted)
      ensures other.initialized == old(initialized) && other.hash == old(hash) && other.permutation == old(permutation)
      ensures other.slowDownFactor.data == old(slowDownFactor.data) && other.slowDownFactor.size == old(slowDownFactor.size)
    {
      SwapParameters(other);
      SwapState(other);
      slowDownFactor.Swap(other.slowDownFactor);
    }

    /** The parameter half of swap. */
    method SwapParameters(other: ProtectedMinutiaeTemplate)
      modifies this`width, this`height, this`fingerPosition, this`dpi, this`gridDist, this`s, this`k, this`tmax, this`D, other`width, other`height, other`fingerPosition, other`dpi, other`gridDist, other`s, other`k, other`tmax, other`D
      ensures width == old(other.width) && other.width == old(width)
      ensures height == old(other.height) && other.height == old(height)
      ensures fingerPosition == old(other.fingerPosition) && other.fingerPosition == old(fingerPosition)
      ensures dpi == old(other.dpi) && other.dpi == old(dpi)
      ensures gridDist == old(other.gridDist) && other.gridDist == old(gridDist)
      ensures s == old(other.s) && other.s == old(s)
      ensures k == old(other.k) && other.k == old(k)
      ensures tmax == old(other.tmax) && other.tmax == old(tmax)
      ensures D == old(other.D) && other.D == old(D)
    {
      width, other.width := other.width, width;
      height, other.height := other.height, height;
      fingerPosition, other.fingerPosition := other.fingerPosition, fingerPosition;
      dpi, other.dpi := other.dpi, dpi;
      gridDist, other.gridDist := other.gridDist, gridDist;
      s, other.s := other.s, s;
      k, other.k := other.k, k;
      tmax, other.tmax := other.tmax, tmax;
      D, other.D := other.D, D;
    }

    /** The grid, field and vault half of swap. */
    method SwapState(other: ProtectedMinutiaeTemplate)
      modifies this`gridSize, this`gf, this`t, this`plain, this`encrypted, this`initialized, this`hash, this`permutation, other`gridSize, other`gf, other`t, other`plain, other`encrypted, other`initialized, other`hash, other`permutation
      ensures gridSize == old(other.gridSize) && other.gridSize == old(gridSize)
      ensures gf == old(other.gf) && other.gf == old(gf)
      ensures t == old(other.t) && other.t == old(t)
      ensures plain == old(other.plain) && other.plain == old(plain)
      ensures encrypted == old(other.encrypted) && other.encrypted == old(encrypted)
      ensures initialized == old(other.initialized) && other.initialized == old(initialized)
      ensures hash == old(other.hash) && other.hash == old(hash)
      ensures permutation == old(other.permutation) && other.permutation == old(permutation)
    {
      gridSize, other.gridSize := other.gridSize, gridSize;
      gf, other.gf := other.gf, gf;
      t, other.t := other.t, t;
      plain, other.plain := other.plain, plain;
      encrypted, other.encrypted := other.encrypted, encrypted;
      initialized, other.initialized := other.initialized, initialized;
      hash, other.hash := other.hash, hash;
      permutation, other.permutation := other.permutation, permutation;
    }

    /**
     * encrypt(key): only for an enrolled template that is not encrypted;
     * the vault data is encrypted by AES-128 in CBC mode under the key
     * and kept only encrypted.
     */
    method Encrypt(key: Aes.Aes128)
      requires Valid() && IsEnrolled() && !IsEncrypted() && key.Valid()
      modifies this
      ensures Valid() && IsEnrolled() && IsEncrypted() && !IsDecrypted()
      ensures encrypted == Data(Encrypted(key.gf, key.w[..], old(plain).bytes))
      ensures t == old(t) && s == old(s) && k == old(k) && gridSize == old(gridSize) && gf == old(gf)
      ensures hash == old(hash) && permutation == old(permutation)
    {
      var c := SealCopy(key, plain.bytes);
      encrypted, plain := Data(c), Null;
    }

    /**
     * decrypt(key): only with encrypted data, which stays; the data
     * decrypted under the key becomes the vault data.
     */
    method Decrypt(key: Aes.Aes128)
      requires Valid() && ContainsEncryptedData() && key.Valid()
      modifies this
      ensures Valid() && ContainsEncryptedData() && IsDecrypted() && !IsEncrypted()
      ensures plain == Data(Decrypted(key.gf, key.w[..], encrypted.bytes)) && encrypted == old(encrypted)
      ensures t == old(t) && s == old(s) && k == old(k) && gridSize == old(gridSize) && gf == old(gf)
      ensures hash == old(hash) && permutation == old(permutation)
    {
      var p := UnsealCopy(key, encrypted.bytes);
      plain := Data(p);
    }

    /** Decrypting with the key that encrypted gives the vault data back. */
    method EncryptThenDecrypt(key: Aes.Aes128)
      requires Valid() && IsDecrypted() && !IsEncrypted() && key.Valid() && Aes.MixColumnInvertible(key.gf)
      modifies this
      ensures Valid() && plain == old(plain) && ContainsEncryptedData()
    {
      ghost var p := plain.bytes;
      Encrypt(key);
      Decrypt(key);
      BytesRoundTrip(key.gf, key.w[..], p);
    }

    /**
     * getVaultDataSize(): 0 before enrolment, otherwise vaultDataSize():
     * whole 16-byte blocks, the fewest that hold t coefficients of d bits.
     */
    function GetVaultDataSize(): (n: nat)
      reads this, slowDownFactor
      requires Valid()
      ensures n % 16 == 0
      ensures !IsEnrolled() ==> n == 0
      ensures IsEnrolled() ==> t * Degree() <= 8 * n && (n == 0 || 8 * (n - 16) < t * Degree())
    {
      if !IsEnrolled() then 0
      else
        VaultDataSizeFits(t, Degree());
        DataSize()
    }

    /** reorder(a): the feature a through the permutation, for an enrolled template and a feature of the vault. */
    method Reorder(a: int) returns (b: nat)
      requires Valid() && IsEnrolled() && 0 <= a < VaultSize()
      ensures b < VaultSize() && b == permutation[a]
      ensures forall c :: 0 <= c < VaultSize() && c != a ==> permutation[c] != b
    {
      b := permutation[a];
    }

    /**
     * updatePermutation(): the identity on the vault's features with
     * position x0 exchanged with gen.rand() % n for x0 = 0 .. n-1 in
     * turn, from a generator seeded by the hash.
     */
    method UpdatePermutation(generator: seq<bv8> -> (nat -> nat))
      requires VaultSize() >= 0
      modifies this
      ensures width == old(width) && height == old(height) && fingerPosition == old(fingerPosition)
      ensures dpi == old(dpi) && gridDist == old(gridDist) && s == old(s) && k == old(k) && tmax == old(tmax)
      ensures D == old(D) && gridSize == old(gridSize) && gf == old(gf) && t == old(t)
      ensures plain == old(plain) && encrypted == old(encrypted) && hash == old(hash) && initialized == old(initialized)
      ensures permutation == Shuffled(VaultSize(), generator(hash), VaultSize()) && |permutation| == VaultSize()
      ensures IsPermutation(permutation)
    {
      permutation := Shuffle(VaultSize(), generator(hash));
    }

    /**
     * unpackVaultPolynomial(v): only for decrypted data and a slow-down
     * value 0 <= v < slowDownFactor; the vault data decrypted under the
     * key of v and unpacked into the monic vault polynomial of degree t.
     */
    method UnpackVaultPolynomial(v: int, digestOf: int -> seq<bv8>) returns (V: SmallBinaryFieldPolynomial)
      requires Valid() && IsDecrypted() && 0 <= v < SlowDown() && |digestOf(v)| == 20
      ensures fresh(V) && V.Valid()
      ensures V.Value() == OpenedVault(Aes.FieldMul, FuzzyVaults.KeyOf(digestOf, v), plain.bytes, t, Degree())
      ensures |V.Value()| == t + 1 && V.Value()[t] == 1
    {
      V := FuzzyVaults.FuzzyVault.UnpackUnder(plain.bytes, t, Degree(), digestOf(v));
    }

    /** One pass of the loop of open: unpack under the slow-down value v, build the unlocking set, decode. */
    method TryValue(F: Field, f: SmallBinaryFieldPolynomial, v: int, query: seq<nat>,
                    sha: seq<nat> -> seq<bv8>, digestOf: int -> seq<bv8>, draws: seq<nat>)
      returns (success: bool)
      requires Valid() && IsDecrypted() && 0 <= v < SlowDown() && |digestOf(v)| == 20
      requires IsField(F) && f.Valid() && FeatureSet(query, |permutation|)
      requires k <= |query| ==> |query| <= RAND_MAX
      modifies f
      ensures |query| < k ==> !success
      ensures success ==> f.Valid() && sha(f.Value()) == hash && |f.Value()| <= k
      ensures !success ==> unchanged(f)
    {
      var V := UnpackVaultPolynomial(v, digestOf);
      var x, y := UnlockingSet(F, permutation, query, V);
      AbscissasDistinct(permutation, query, x);
      assert x[..|query|] == x;
      success := Decode(F, f, x, y, |query|, k, hash, D, sha, draws);
    }

    /**
     * open(f, B, t): only for an enrolled template that is not
     * encrypted. The slow-down values 0, 1, ... below the slow-down
     * factor are tried in turn: the vault polynomial V unpacked under
     * each, the unlocking set x[j] = reorder(B[j]), y[j] = V(x[j]) is
     * decoded until a polynomial with the template's hash is found and
     * assigned to f. Fewer than k features never open the template.
     */
    method Open(F: Field, f: SmallBinaryFieldPolynomial, B: array<nat>, tq: int,
                sha: seq<nat> -> seq<bv8>, digestOf: int -> seq<bv8>, drawsOf: int -> seq<nat>)
      returns (success: bool, ghost v: int)
      requires Valid() && IsEnrolled() && !IsEncrypted() && IsField(F) && f.Valid()
      requires 0 <= tq <= B.Length && FeatureSet(B[..tq], |permutation|)
      requires k <= tq ==> tq <= RAND_MAX
      requires forall x :: |digestOf(x)| == 20
      modifies f
      ensures tq < k ==> !success
      ensures success ==> f.Valid() && sha(f.Value()) == hash && |f.Value()| <= k && 0 <= v < SlowDown()
      ensures !success ==> unchanged(f)
    {
      var query := B[..tq];
      var bound := SlowDown();
      success, v := false, 0;
      var w := 0;
      while w < bound
        invariant 0 <= w && unchanged(f)
      {
        success := TryValue(F, f, w, query, sha, digestOf, drawsOf(w));
        if success {
          v := w;
          return;
        }
        w := w + 1;
      }
    }

    /** The byte count of the slow-down factor: slowDownFactor.getSizeInBytes(). */
    ghost function SdfSize(): nat
      reads this, slowDownFactor
      requires slowDownFactor.Valid()
    {
      ByteCount(Digits(BigIntegerLimbs.Mag(slowDownFactor.Words())))
    }

    /** The vault data toBytes writes: the encrypted data when there is some. */
    function Stored(): seq<Byte>
      reads this
      requires plain.Data? || encrypted.Data?
    {
      if encrypted.Data? then encrypted.bytes else plain.bytes
    }

    /** The fields of the record of this template, with sdf as the slow-down factor's bytes. */
    function FieldsOf(sdf: seq<Byte>): TemplateFields
      reads this
      requires gf.Gf? && (plain.Data? || encrypted.Data?)
    {
      TemplateFields(Parameters(width, height, fingerPosition, dpi, gridDist, s, k, tmax, D), gf.rep, t, sdf,
                     ContainsEncryptedData(), Stored(), AsBytes(hash))
    }

    /** getSizeInBytes(): only when enrolled; the length of the record toBytes writes. */
    method GetSizeInBytes() returns (size: nat)
      requires Valid() && IsEnrolled()
      ensures size == 55 + SdfSize() + |Stored()|
      ensures size == |TemplateRecord(FieldsOf(seq(SdfSize(), _ => 0)))|
    {
      var sb := slowDownFactor.GetSizeInBytes();
      size := 10 + 2 + 2 + 1 + 2 + 1 + 1 + 1 + 1 + 4 + 4 + 1 + 1 + 4 + sb + DataSize() + 20;
    }

    /**
     * toBytes(data): only when enrolled; the record of this template,
     * whose slow-down factor bytes decode to the slow-down factor, is
     * written at the start of data and its length returned.
     */
    method ToBytes(data: array<Byte>) returns (size: nat)
      requires Valid() && IsEnrolled() && 55 + SdfSize() + |Stored()| <= data.Length
      modifies data
      ensures size == 55 + SdfSize() + |Stored()|
      ensures data[..size] == TemplateRecord(FieldsOf(data[34..34 + SdfSize()]))
      ensures DecodeBytes(data[34..34 + SdfSize()]) == SlowDown()
      ensures data[size..] == old(data[size..])
    {
      var sdf := FuzzyVaults.FactorBytes(slowDownFactor);
      size := WriteTemplate(data, FieldsOf(sdf));
    }

    /** The state fromBytes leaves after reading the fields f of a record. */
    ghost predicate Holds(f: TemplateFields, gridOf: GridCount, generator: seq<bv8> -> (nat -> nat))
      reads this, slowDownFactor
      requires slowDownFactor.Valid()
    {
      && width == f.params.width && height == f.params.height && fingerPosition == f.params.finger
      && dpi == f.params.dpi && gridDist == f.params.gridDist && s == f.params.s && k == f.params.k
      && tmax == f.params.tmax && D == f.params.D && gridSize == GridOf(gridOf, f.params)
      && gf == Gf(f.rep) && t == f.t && slowDownFactor.Value() == DecodeBytes(f.sdf) && hash == AsOctets(f.hash)
      && (if f.encrypted then encrypted == Data(f.vault) && plain == Null else plain == Data(f.vault) && encrypted == Null)
      && VaultSize() >= 0 && permutation == Shuffled(VaultSize(), generator(hash), VaultSize())
      && !initialized
    }

    /**
     * fromBytes(data, size): on a record that parses, the template read
     * from it replaces this one and the number of bytes read is returned;
     * otherwise -1 is returned and this template is left as it is. The
     * field is checked against the record's own s.
     */
    method FromBytes(data: seq<Byte>, size: int, gridOf: GridCount, generator: seq<bv8> -> (nat -> nat))
      returns (r: int)
      requires Valid() && size <= |data| && !ParseTemplate(data, size, gridOf, s, false).Halts?
      modifies this, slowDownFactor
      ensures Valid()
      ensures var p := ParseTemplate(data, size, gridOf, old(s), false);
              && (r == -1 <==> !p.Parsed?)
              && (p.Parsed? ==> r == 55 + |p.fields.sdf| + |p.fields.vault| && r <= size)
              && (p.Parsed? ==> IsEnrolled() && Holds(p.fields, gridOf, generator))
      ensures r == -1 ==> unchanged(this) && unchanged(slowDownFactor)
    {
      var p := ParseTemplate(data, size, gridOf, s, false);
      if !p.Parsed? {
        return -1;
      }
      var tmp := new ProtectedMinutiaeTemplate.Read(p.fields, gridOf, generator);
      Adopt(tmp, p.fields, gridOf, generator);
      r := 55 + |p.fields.sdf| + |p.fields.vault|;
    }

    /** swap(*this, tmp) at the end of fromBytes: this template takes over the one read into other. */
    method Adopt(other: ProtectedMinutiaeTemplate, ghost f: TemplateFields, gridOf: GridCount,
                 generator: seq<bv8> -> (nat -> nat))
      requires other != this && other.slowDownFactor != slowDownFactor
      requires other.Valid() && other.IsEnrolled() && other.Holds(f, gridOf, generator)
      modifies this, slowDownFactor, other, other.slowDownFactor
      ensures Valid() && IsEnrolled() && Holds(f, gridOf, generator)
    {
      Swap(other);
    }

    /** The template fromBytes reads into tmp from the fields of a record. */
    constructor Read(f: TemplateFields, gridOf: GridCount, generator: seq<bv8> -> (nat -> nat))
      requires Sound(f) && Fits(f, gridOf)
      ensures Valid() && IsEnrolled() && Holds(f, gridOf, generator) && fresh(slowDownFactor)
    {
      var p := f.params;
      width, height, fingerPosition, dpi, gridDist := p.width, p.height, p.finger, p.dpi, p.gridDist;
      s, k, tmax, D := p.s, p.k, p.tmax, p.D;
      gridSize := GridOf(gridOf, p);
      gf, t := Gf(f.rep), f.t;
      var x := new BigInteger(1);
      x.FromBytes(f.sdf, |f.sdf|);
      assert f.sdf[..|f.sdf|] == f.sdf;
      slowDownFactor := x;
      if f.encrypted {
        plain, encrypted := Null, Data(f.vault);
      } else {
        plain, encrypted := Data(f.vault), Null;
      }
      hash := AsOctets(f.hash);
      permutation := [];
      initialized := false;
      new;
      UpdatePermutation(generator);
    }
  }
}
