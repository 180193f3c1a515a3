/**
 * The protected minutiae record of ProtectedMinutiaeRecord.cpp: a fuzzy
 * vault that protects up to ten fingers of one subject at once. Its
 * features are grid cell, angle quantum and finger position together,
 * 10 * gridSize * s of them; the vault is opened by the Reed-Solomon and
 * Guruswami-Sudan decoders and serialized as a "PMR" record.
 */
module Records {
  import opened MathTools
  import Aes
  import BigIntegerLimbs
  import opened BigIntegerBytes
  import opened BigIntegers
  import opened BitPacking
  import opened SmallBinaryFieldPolynomials
  import opened FuzzyVaultTools
  import opened Features
  import opened Vaults
  import opened ProtectedMinutiae
  import FuzzyVaults

  // ---------------------------------------------------------------------
  // Quantisation of minutiae from several fingers

  /**
   * quantize(minutia, L): the minutia's nearest grid point i and angle
   * quantum j combine to a = i + j * gridSize, and the finger position
   * L to (L - 1) + 10 * a, all as uint32_t. The nearest grid point and
   * the angle quantum are computed in floating point and are inputs here.
   */
  function Quantization(cell: int, angle: int, L: int, gridSize: nat): (q: nat)
    ensures q < WORD32
  {
    Uint32((L - 1) + 10 * Uint32(cell + angle * gridSize))
  }

  /** A cell below gridSize and an angle quantum below s make a cell index below gridSize * s. */
  lemma CellIndexBound(cell: int, angle: int, g: nat, s: nat)
    requires 0 <= cell < g && 0 <= angle < s
    ensures cell + angle * g < g * s
  {
    assert angle * g <= (s - 1) * g;
  }

  /**
   * For a known finger (1 .. 10) and a cell and angle within the grid and
   * the angle quanta, no wrap-around occurs: the quantisation is a vault
   * feature below 10 * gridSize * s whose last decimal digit is L - 1.
   */
  lemma QuantizationInVault(cell: int, angle: int, L: int, g: nat, s: nat)
    requires 1 <= L <= 10 && 0 <= cell < g && 0 <= angle < s && 10 * g * s <= WORD32
    ensures Quantization(cell, angle, L, g) == (L - 1) + 10 * (cell + angle * g)
    ensures Quantization(cell, angle, L, g) < 10 * g * s
    ensures Quantization(cell, angle, L, g) % 10 == L - 1
  {
    CellIndexBound(cell, angle, g, s);
    var a := cell + angle * g;
    var n := g * s;
    assert 10 * g * s == 10 * n;
    FingerAppended(a, L, n);
  }

  /** The finger digit appended to a cell index below n: below 10 * n and with last digit L - 1. */
  lemma FingerAppended(a: nat, L: int, n: nat)
    requires 1 <= L <= 10 && a < n && 10 * n <= WORD32
    ensures Uint32(a) == a && Uint32((L - 1) + 10 * a) == (L - 1) + 10 * a
    ensures (L - 1) + 10 * a < 10 * n && ((L - 1) + 10 * a) % 10 == L - 1
  {
  }

  /** Different fingers, cells or angles within the vault give different quantisations. */
  lemma QuantizationInjective(c1: int, a1: int, L1: int, c2: int, a2: int, L2: int, g: nat, s: nat)
    requires 1 <= L1 <= 10 && 0 <= c1 < g && 0 <= a1 < s
    requires 1 <= L2 <= 10 && 0 <= c2 < g && 0 <= a2 < s
    requires 10 * g * s <= WORD32
    requires Quantization(c1, a1, L1, g) == Quantization(c2, a2, L2, g)
    ensures c1 == c2 && a1 == a2 && L1 == L2
  {
    QuantizationInVault(c1, a1, L1, g, s);
    QuantizationInVault(c2, a2, L2, g, s);
    assert L1 == L2;
    CellIndexInjective(c1, a1, c2, a2, g);
  }

  /** A cell index determines its cell and angle quantum. */
  lemma CellIndexInjective(c1: int, a1: int, c2: int, a2: int, g: nat)
    requires 0 <= c1 < g && 0 <= a1 && 0 <= c2 < g && 0 <= a2
    requires c1 + a1 * g == c2 + a2 * g
    ensures c1 == c2 && a1 == a2
  {
    if a1 < a2 {
      CellIndexGap(c1, a1, c2, a2, g);
    } else if a2 < a1 {
      CellIndexGap(c2, a2, c1, a1, g);
    }
  }

  /** A larger angle quantum makes a cell index at least gridSize larger. */
  lemma CellIndexGap(c1: int, a1: int, c2: int, a2: int, g: nat)
    requires 0 <= c1 < g && 0 <= a1 < a2 && 0 <= c2 < g
    ensures c1 + a1 * g < c2 + a2 * g
  {
    var d := a2 - a1;
    assert a2 * g == a1 * g + d * g;
    assert d * g == g + (d - 1) * g;
    assert (d - 1) * g >= 0;
  }

  /**
   * A minutiae view: the finger position and, for each minutia in order
   * of decreasing quality (sortWithRespectToMinutiaeQuality), its nearest
   * grid point and its angle quantum.
   */
  datatype View = View(finger: int, cells: seq<(int, int)>)

  /**
   * A minutiae record: horizontal and vertical resolution and the views,
   * one per finger.
   */
  datatype Capture = Capture(hres: int, vres: int, views: seq<View>)

  /** The quantisations of a view's minutiae, in order. */
  function ViewQuantizations(v: View, g: nat): (qs: seq<nat>)
    ensures |qs| == |v.cells|
  {
    seq(|v.cells|, n requires 0 <= n < |v.cells| => Quantization(v.cells[n].0, v.cells[n].1, v.finger, g))
  }

  /** What quantize(A, record) writes: each view's kept quantisations, the views one after the other. */
  function RecordQuantizations(views: seq<View>, g: nat, tmax: int): seq<nat>
  {
    if |views| == 0 then []
    else RecordQuantizations(views[..|views| - 1], g, tmax) + Kept([], ViewQuantizations(views[|views| - 1], g), tmax)
  }

  /** No two views of the record are of the same finger. */
  predicate FingersDistinct(views: seq<View>)
  {
    forall i, j :: 0 <= i < j < |views| ==> views[i].finger != views[j].finger
  }

  /** The view's finger is known and its cells and angles lie within the grid and the angle quanta. */
  predicate WithinVault(v: View, g: nat, s: nat)
  {
    && 1 <= v.finger <= 10
    && forall n :: 0 <= n < |v.cells| ==> 0 <= v.cells[n].0 < g && 0 <= v.cells[n].1 < s
  }

  /** Every quantisation of a view within the vault is a feature of its finger. */
  lemma ViewFeatures(v: View, g: nat, s: nat)
    requires WithinVault(v, g, s) && 10 * g * s <= WORD32
    ensures forall q :: q in ViewQuantizations(v, g) ==> q < 10 * g * s && q % 10 == v.finger - 1
  {
    var qs := ViewQuantizations(v, g);
    forall q | q in qs
      ensures q < 10 * g * s && q % 10 == v.finger - 1
    {
      var n :| 0 <= n < |qs| && qs[n] == q;
      QuantizationInVault(v.cells[n].0, v.cells[n].1, v.finger, g, s);
    }
  }

  /**
   * Views of distinct known fingers within the vault give pairwise
   * distinct features, all below the vault size 10 * gridSize * s, each
   * of one of the views' fingers: the feature set a record protects.
   */
  lemma {:induction false} RecordFeatures(views: seq<View>, g: nat, s: nat, tmax: int)
    requires FingersDistinct(views) && 10 * g * s <= WORD32
    requires forall i :: 0 <= i < |views| ==> WithinVault(views[i], g, s)
    ensures Unique(RecordQuantizations(views, g, tmax))
    ensures forall q :: q in RecordQuantizations(views, g, tmax) ==>
              q < 10 * g * s && exists i :: 0 <= i < |views| && q % 10 == views[i].finger - 1
    decreases |views|
  {
    if |views| > 0 {
      var front := views[..|views| - 1];
      var last := views[|views| - 1];
      var a := RecordQuantizations(front, g, tmax);
      var b := Kept([], ViewQuantizations(last, g), tmax);
      RecordFeatures(front, g, s, tmax);
      KeptDistinct([], ViewQuantizations(last, g), tmax);
      ViewFeatures(last, g, s);
      forall q | q in a
        ensures q !in b && q % 10 != last.finger - 1
      {
        var i :| 0 <= i < |front| && q % 10 == front[i].finger - 1;
        assert front[i] == views[i];
      }
      forall q | q in a + b
        ensures q < 10 * g * s && exists i :: 0 <= i < |views| && q % 10 == views[i].finger - 1
      {
        if q in a {
          var i :| 0 <= i < |front| && q % 10 == front[i].finger - 1;
          assert views[i] == front[i];
        } else {
          assert q % 10 == views[|views| - 1].finger - 1;
        }
      }
      UniqueConcat(a, b);
    }
  }

  /** Two duplicate-free sequences with no element in common concatenate to a duplicate-free one. */
  lemma UniqueConcat(a: seq<nat>, b: seq<nat>)
    requires Unique(a) && Unique(b) && forall q :: q in a ==> q !in b
    ensures Unique(a + b)
  {
    var c := a + b;
    forall i, j | 0 <= i < j < |c|
      ensures c[i] != c[j]
    {
      if i < |a| && j >= |a| {
        assert c[i] in a && c[j] == b[j - |a|];
      } else if j < |a| {
        assert c[i] == a[i] && c[j] == a[j];
      } else {
        assert c[i] == b[i - |a|] && c[j] == b[j - |a|];
      }
    }
  }

  /**
   * The features open(f, record) queries: for at most ten views of
   * distinct fingers within a vault of no more than 2^31 features, a
   * buffer of 10 * tmax has room for them, and they are pairwise distinct
   * features of the vault.
   */
  lemma RecordQuery(views: seq<View>, g: nat, s: nat, tmax: int, card: nat)
    requires FingersDistinct(views) && |views| <= 10 && tmax >= 0
    requires forall i :: 0 <= i < |views| ==> WithinVault(views[i], g, s)
    requires 10 * g * s <= card <= Pow2(31)
    ensures tmax * |views| <= 10 * tmax
    ensures Unique(RecordQuantizations(views, g, tmax)) && Below(RecordQuantizations(views, g, tmax), 10 * g * s)
  {
    FuzzyVaults.Pow2Is31();
    RecordFeatures(views, g, s, tmax);
    var qs := RecordQuantizations(views, g, tmax);
    forall a | 0 <= a < |qs|
      ensures qs[a] < 10 * g * s
    {
      assert qs[a] in qs;
    }
    MulMonotone(|views|, 10, tmax);
    assert |views| * tmax == tmax * |views|;
  }

  /** Each view contributes at most tmax features. */
  lemma {:induction false} RecordQuantizationsBound(views: seq<View>, g: nat, tmax: int)
    requires tmax >= 0
    ensures |RecordQuantizations(views, g, tmax)| <= tmax * |views|
    decreases |views|
  {
    if |views| > 0 {
      RecordQuantizationsBound(views[..|views| - 1], g, tmax);
      KeptGrows([], ViewQuantizations(views[|views| - 1], g), tmax);
      assert tmax * (|views| - 1) + tmax == tmax * |views|;
    }
  }

  /** The quantisations of the first i + 1 views: those of the first i, then the kept ones of view i. */
  lemma RecordQuantizationsStep(views: seq<View>, i: nat, g: nat, tmax: int, room: int)
    requires i < |views| && tmax >= 0 && tmax * |views| <= room
    ensures RecordQuantizations(views[..i + 1], g, tmax)
            == RecordQuantizations(views[..i], g, tmax) + Kept([], ViewQuantizations(views[i], g), tmax)
    ensures |RecordQuantizations(views[..i + 1], g, tmax)| <= room
  {
    assert views[..i + 1][..i] == views[..i];
    RecordQuantizationsBound(views[..i + 1], g, tmax);
    MulMonotone(i + 1, |views|, tmax);
    assert (i + 1) * tmax == tmax * (i + 1) && |views| * tmax == tmax * |views|;
  }

  // ---------------------------------------------------------------------
  // Decoding

  /**
   * decode(f, x, y, t, k, hash, m): false when k > t; otherwise the
   * Reed-Solomon candidate and then the Guruswami-Sudan candidates for
   * multiplicities 1 .. m are hashed, and f is assigned the first whose
   * SHA-1 hash is the record's. f is changed only on a match.
   */
  method Decode(f: SmallBinaryFieldPolynomial, x: seq<nat>, y: seq<nat>, t: int, k: int,
                hash: seq<bv8>, m: int, sha: seq<nat> -> seq<bv8>, dec: Decoders) returns (success: bool)
    modifies f
    ensures k > t ==> !success
    ensures success ==> f.Valid() && sha(f.Value()) == hash
    ensures !success ==> unchanged(f)
    ensures k <= t ==> (success <==> RsMatches(dec, x, y, t, k, 0, hash, sha) || ListMatches(dec, x, y, t, k, m, hash, sha))
  {
    var m' := if m < 0 then 0 else m;
    success := ListDecode(f, x, y, t, k, hash, m', sha, dec);
    assert ListMatches(dec, x, y, t, k, m', hash, sha) == ListMatches(dec, x, y, t, k, m, hash, sha);
  }

  // ---------------------------------------------------------------------
  // The PMR record

  /** The record header: "PMR140822" with its terminating zero byte. */
  const RecordMagic: seq<Byte> := [80, 77, 82, 49, 52, 48, 56, 50, 50, 0]

  /** The parameters of a protected record, as its serialized form stores them. */
  datatype RecordParameters = RecordParameters(width: int, height: int, dpi: int, gridDist: int,
                                               s: int, k: int, tmax: int, m: int)

  /** The fields of a record: parameters, slow-down factor, field, t, vault data and hash. */
  datatype RecordFields = RecordFields(params: RecordParameters, sdf: seq<Byte>, rep: nat, t: int,
                                       encrypted: bool, vault: seq<Byte>, hash: seq<Byte>)

  /** fromBytes returns -1, exits the process, or reads a record. */
  datatype RecordParsing = Rejected | Halts | Parsed(fields: RecordFields)

  /**
   * The first 28 bytes toBytes writes: header, width, height and dpi (two
   * bytes each), grid distance, s, k and tmax (one byte each), m and the
   * slow-down factor's size (four bytes each).
   */
  function RecordFront(p: RecordParameters, sdfSize: int): (r: seq<Byte>)
    ensures |r| == 28
  {
    RecordMagic + Short(p.width) + Short(p.height) + Short(p.dpi)
    + [Octet(p.gridDist), Octet(p.s), Octet(p.k), Octet(p.tmax)] + FuzzyVaults.Word(p.m) + FuzzyVaults.Word(sdfSize)
  }

  /**
   * The record toBytes writes: the front, the slow-down factor's bytes,
   * the defining polynomial (four bytes), t (two bytes), a flag byte (1
   * for encrypted vault data), the vault data and the hash.
   */
  function ProtectedRecord(f: RecordFields): (r: seq<Byte>)
    ensures |r| == 35 + |f.sdf| + |f.vault| + |f.hash|
  {
    RecordFront(f.params, |f.sdf|) + f.sdf + FuzzyVaults.Word(f.rep) + Short(f.t)
    + [if f.encrypted then 1 else 0] + f.vault + f.hash
  }

  /** The parameters fromBytes reads from the first 24 bytes. */
  function ReadRecordParameters(data: seq<Byte>): (p: RecordParameters)
    requires |data| >= 24
    ensures 0 <= p.width < 65536 && 0 <= p.height < 65536 && 0 <= p.dpi < 65536
    ensures 0 <= p.gridDist < 256 && 0 <= p.s < 256 && 0 <= p.k < 256 && 0 <= p.tmax < 256
    ensures -0x8000_0000 <= p.m < 0x8000_0000
  {
    RecordParameters(ReadShort(data, 10), ReadShort(data, 12), ReadShort(data, 14),
                     data[16], data[17], data[18], data[19], Int32(FuzzyVaults.ReadWord(data, 20)))
  }

  /**
   * The checks fromBytes makes of the parameters: nonzero width and
   * height, a resolution of 300 .. 1000 dpi, nonzero grid distance, s, k
   * and tmax, and k at most tmax.
   */
  predicate RecordAccepted(p: RecordParameters)
  {
    && p.width != 0 && p.height != 0 && 300 <= p.dpi <= 1000
    && p.gridDist != 0 && p.s != 0 && p.k != 0 && p.tmax != 0 && p.k <= p.tmax
  }

  /** Parameters the record can hold and fromBytes accepts. */
  predicate RecordEncodable(p: RecordParameters)
  {
    && 0 < p.width < 65536 && 0 < p.height < 65536 && 300 <= p.dpi <= 1000
    && 0 < p.gridDist < 256 && 0 < p.s < 256 && 0 < p.k <= p.tmax < 256
    && -0x8000_0000 <= p.m < 0x8000_0000
  }

  /** The fields of a well-formed record. */
  predicate RecordSound(f: RecordFields)
  {
    && RecordEncodable(f.params) && AcceptedField(f.rep) && 0 <= f.t < 65536
    && |f.vault| == VaultDataSize(f.t, FieldDegree(f.rep)) && |f.hash| == 20 && |f.sdf| < 0x8000_0000
  }

  /** The number of grid points of the parameters. */
  function RecordGrid(gridOf: GridCount, p: RecordParameters): nat
  {
    gridOf(p.width, p.height, p.gridDist)
  }

  /** The vault of the fields has no more features than the field has elements. */
  predicate RecordFits(f: RecordFields, gridOf: GridCount)
    requires AcceptedField(f.rep)
  {
    10 * f.params.s * RecordGrid(gridOf, f.params) <= Pow2(FieldDegree(f.rep))
  }

  /**
   * fromBytes(data, size), step by step. Every failed check of the first
   * 28 bytes returns -1, so they are checked at once. A negative
   * slow-down factor size makes BigInteger::fromBytes exit, and so does a
   * defining polynomial of degree below 1 the field constructor. The
   * cardinality check compares with 10 * s times the grid size: as
   * written (asWritten) with the s of the record fromBytes is called on,
   * as 32-bit ints; otherwise with the s read.
   */
  function ParseRecord(data: seq<Byte>, size: int, gridOf: GridCount, receiverS: int, asWritten: bool)
    : (r: RecordParsing)
    requires size <= |data|
    ensures r.Parsed? ==> RecordSound(r.fields) && 55 + |r.fields.sdf| + |r.fields.vault| <= size
    ensures r.Parsed? && !asWritten ==> RecordFits(r.fields, gridOf)
    ensures !r.Rejected? ==> size >= 28 && HeaderAccepted(data, 82) && RecordAccepted(ReadRecordParameters(data))
  {
    if size < 28 || !HeaderAccepted(data, 82) || !RecordAccepted(ReadRecordParameters(data)) then Rejected
    else ParseFactor(data, size, ReadRecordParameters(data), gridOf, receiverS, asWritten)
  }

  /** The slow-down factor: its size, then its bytes. */
  function ParseFactor(data: seq<Byte>, size: int, p: RecordParameters, gridOf: GridCount, receiverS: int,
                       asWritten: bool): (r: RecordParsing)
    requires 28 <= size <= |data| && RecordEncodable(p)
    ensures r.Parsed? ==> RecordSound(r.fields) && r.fields.params == p && 55 + |r.fields.sdf| + |r.fields.vault| <= size
    ensures r.Parsed? && !asWritten ==> RecordFits(r.fields, gridOf)
  {
    var sdfSize := Int32(FuzzyVaults.ReadWord(data, 24));
    if size < 28 + sdfSize then Rejected
    else if sdfSize < 0 then Halts
    else ParseField(data, size, p, 28 + sdfSize, gridOf, receiverS, asWritten)
  }

  /** The defining polynomial after the slow-down factor, checked against the vault size. */
  function ParseField(data: seq<Byte>, size: int, p: RecordParameters, o: nat, gridOf: GridCount,
                      receiverS: int, asWritten: bool): (r: RecordParsing)
    requires 28 <= o <= size <= |data| && RecordEncodable(p) && o - 28 < 0x8000_0000
    ensures r.Parsed? ==> RecordSound(r.fields) && r.fields.params == p && r.fields.sdf == data[28..o]
    ensures r.Parsed? ==> 55 + |r.fields.sdf| + |r.fields.vault| <= size
    ensures r.Parsed? && !asWritten ==> RecordFits(r.fields, gridOf)
  {
    if size < o + 4 then Rejected
    else
      var rep := FuzzyVaults.ReadWord(data, o);
      if !AcceptedField(rep) then Halts
      else
        var grid := RecordGrid(gridOf, p);
        if asWritten && SignedCardinality(rep) < Int32(Uint32(10 * receiverS * grid)) then Rejected
        else if !asWritten && Pow2(FieldDegree(rep)) < 10 * p.s * grid then Rejected
        else ParseVaultData(data, size, p, o, rep)
  }

  /** t, the flag byte, the vault data and the hash. */
  function ParseVaultData(data: seq<Byte>, size: int, p: RecordParameters, o: nat, rep: nat): (r: RecordParsing)
    requires 28 <= o && o + 4 <= size <= |data| && RecordEncodable(p) && AcceptedField(rep) && o - 28 < 0x8000_0000
    ensures r.Parsed? ==> RecordSound(r.fields) && r.fields.params == p && r.fields.rep == rep && r.fields.sdf == data[28..o]
    ensures r.Parsed? ==> 55 + |r.fields.sdf| + |r.fields.vault| <= size
  {
    if size < o + 6 then Rejected
    else
      var t := ReadShort(data, o + 4);
      var n := VaultDataSize(t, FieldDegree(rep));
      if size < o + 6 + n + 1 then Rejected
      else if size < o + 7 + n + 20 then Rejected
      else Parsed(RecordFields(p, data[28..o], rep, t, data[o + 6] != 0,
                               data[o + 7..o + 7 + n], data[o + 7 + n..o + 27 + n]))
  }

  /** Where each part of the front sits. */
  lemma RecordFrontLayout(p: RecordParameters, sdfSize: int)
    ensures var r := RecordFront(p, sdfSize);
            && r[..10] == RecordMagic && r[10..12] == Short(p.width) && r[12..14] == Short(p.height)
            && r[14..16] == Short(p.dpi) && r[16] == Octet(p.gridDist) && r[17] == Octet(p.s)
            && r[18] == Octet(p.k) && r[19] == Octet(p.tmax)
            && r[20..24] == FuzzyVaults.Word(p.m) && r[24..28] == FuzzyVaults.Word(sdfSize)
  {
    var a := RecordMagic + Short(p.width) + Short(p.height) + Short(p.dpi);
    var b := [Octet(p.gridDist), Octet(p.s), Octet(p.k), Octet(p.tmax)];
    var r := RecordFront(p, sdfSize);
    assert r == a + b + FuzzyVaults.Word(p.m) + FuzzyVaults.Word(sdfSize);
    assert r[..16] == a;
    assert a[..10] == RecordMagic;
    assert a[10..12] == Short(p.width);
    assert a[12..14] == Short(p.height);
    assert a[14..16] == Short(p.dpi);
  }

  /** The header check passes on the header toBytes writes. */
  lemma RecordMagicAccepted(r: seq<Byte>)
    requires |r| >= 10 && r[..10] == RecordMagic
    ensures HeaderAccepted(r, 82)
  {
    assert forall j :: 0 <= j < 10 ==> r[j] == RecordMagic[j];
  }

  /** The parameters and the slow-down factor's size of a front read back. */
  lemma RecordFrontRead(p: RecordParameters, sdfSize: int)
    requires RecordEncodable(p) && 0 <= sdfSize < 0x8000_0000
    ensures var q := RecordFront(p, sdfSize);
            && HeaderAccepted(q, 82) && ReadRecordParameters(q) == p
            && Int32(FuzzyVaults.ReadWord(q, 24)) == sdfSize
  {
    var q := RecordFront(p, sdfSize);
    RecordFrontLayout(p, sdfSize);
    RecordMagicAccepted(q);
    ShortAt(q, 10, p.width);
    ShortAt(q, 12, p.height);
    ShortAt(q, 14, p.dpi);
    FuzzyVaults.WordAt(q, 20, p.m);
    FuzzyVaults.WordAt(q, 24, sdfSize);
    OctetBackWithin(p.gridDist);
    OctetBackWithin(p.s);
    OctetBackWithin(p.k);
    OctetBackWithin(p.tmax);
  }

  /** The header, the parameters and the slow-down factor's size depend on the first 28 bytes only. */
  lemma RecordPrefixRead(r: seq<Byte>)
    requires |r| >= 28
    ensures ReadRecordParameters(r) == ReadRecordParameters(r[..28])
    ensures HeaderAccepted(r, 82) == HeaderAccepted(r[..28], 82)
    ensures FuzzyVaults.ReadWord(r, 24) == FuzzyVaults.ReadWord(r[..28], 24)
  {
    var q := r[..28];
    assert r[10..12] == q[10..12] && r[12..14] == q[12..14] && r[14..16] == q[14..16];
    assert r[20..24] == q[20..24] && r[24..28] == q[24..28];
  }

  /** Where each part of a record sits. */
  lemma ProtectedRecordLayout(f: RecordFields)
    ensures var r := ProtectedRecord(f); var o := 28 + |f.sdf|;
            && r[..28] == RecordFront(f.params, |f.sdf|) && r[28..o] == f.sdf
            && r[o..o + 4] == FuzzyVaults.Word(f.rep) && r[o + 4..o + 6] == Short(f.t)
            && r[o + 6] == (if f.encrypted then 1 else 0)
            && r[o + 7..o + 7 + |f.vault|] == f.vault && r[o + 7 + |f.vault|..] == f.hash
  {
    var r := ProtectedRecord(f);
    var o := 28 + |f.sdf|;
    var h := RecordFront(f.params, |f.sdf|) + f.sdf;
    var mid := FuzzyVaults.Word(f.rep) + Short(f.t) + [if f.encrypted then 1 else 0];
    assert r == h + mid + f.vault + f.hash;
    assert r[..o] == h;
    assert h[..28] == RecordFront(f.params, |f.sdf|);
    assert r[o..o + 7] == mid;
    assert mid[..4] == FuzzyVaults.Word(f.rep);
    assert mid[4..6] == Short(f.t);
    assert r[o + 7..o + 7 + |f.vault|] == f.vault;
    assert r[o + 7 + |f.vault|..] == f.hash;
  }

  /** The fields after the slow-down factor, as fromBytes reads them from a record. */
  lemma RecordTailRead(f: RecordFields)
    requires RecordSound(f)
    ensures var r := ProtectedRecord(f); var o := 28 + |f.sdf|;
            && FuzzyVaults.ReadWord(r, o) == f.rep && ReadShort(r, o + 4) == f.t
            && (r[o + 6] != 0 <==> f.encrypted)
            && r[o + 7..o + 7 + |f.vault|] == f.vault && r[o + 7 + |f.vault|..] == f.hash
  {
    var r := ProtectedRecord(f);
    var o := 28 + |f.sdf|;
    ProtectedRecordLayout(f);
    FuzzyVaults.AcceptedFits(f.rep);
    assert FuzzyVaults.ReadWord(r, o) == f.rep by { FuzzyVaults.UnsignedWordBack(f.rep); }
    ShortAt(r, o + 4, f.t);
  }

  /** The last stage of fromBytes on a record. */
  lemma ParseVaultDataAt(f: RecordFields)
    requires RecordSound(f)
    ensures var r := ProtectedRecord(f);
            ParseVaultData(r, |r|, f.params, 28 + |f.sdf|, f.rep) == Parsed(f)
  {
    RecordTailRead(f);
    ProtectedRecordLayout(f);
  }

  /**
   * fromBytes on a record up to the cardinality check: the front is read
   * back, the slow-down factor skipped and the defining polynomial reached.
   */
  lemma ParseRecordAt(f: RecordFields, gridOf: GridCount, receiverS: int, asWritten: bool)
    requires RecordSound(f)
    ensures var r := ProtectedRecord(f);
            ParseRecord(r, |r|, gridOf, receiverS, asWritten)
            == ParseField(r, |r|, f.params, 28 + |f.sdf|, gridOf, receiverS, asWritten)
    ensures FuzzyVaults.ReadWord(ProtectedRecord(f), 28 + |f.sdf|) == f.rep
  {
    var r := ProtectedRecord(f);
    ProtectedRecordLayout(f);
    RecordFrontRead(f.params, |f.sdf|);
    RecordPrefixRead(r);
    RecordTailRead(f);
  }

  /**
   * fromBytes reads back what toBytes writes: the record of sound fields
   * whose vault fits the field is parsed into those very fields.
   */
  lemma RecordRoundTrip(f: RecordFields, gridOf: GridCount, receiverS: int)
    requires RecordSound(f) && RecordFits(f, gridOf)
    ensures var r := ProtectedRecord(f); ParseRecord(r, |r|, gridOf, receiverS, false) == Parsed(f)
  {
    ParseRecordAt(f, gridOf, receiverS, false);
    ParseVaultDataAt(f);
  }

  // ---------------------------------------------------------------------
  // Finding: fromBytes checks the field against the wrong s

  /** A record of s = 4 angle quanta over one grid point in GF(2^4), which has 16 elements. */
  function WideRecordFields(): RecordFields
  {
    RecordFields(RecordParameters(1, 1, 500, 1, 4, 1, 1, 0), [1], 16, 0, false, [], seq(20, _ => 0))
  }

  lemma WideRecordFieldsSound()
    ensures RecordSound(WideRecordFields()) && FieldDegree(16) == 4 && Pow2(4) == 16
  {
    assert Digits(16) == 5 by {
      assert Digits(16) == 1 + Digits(8) && Digits(8) == 1 + Digits(4);
      assert Digits(4) == 1 + Digits(2) && Digits(2) == 1 + Digits(1) && Digits(1) == 1 + Digits(0);
    }
    assert Pow2(4) == 16 by {
      assert Pow2(4) == 2 * Pow2(3) && Pow2(3) == 2 * Pow2(2) && Pow2(2) == 2 * Pow2(1);
    }
    assert VaultDataSize(0, 4) == 0;
  }

  /** A grid of one point whatever the dimension. */
  function SinglePoint(): GridCount
  {
    (w: int, h: int, g: int) => 1
  }

  /**
   * fromBytes as written, on a record whose own s is 1, accepts the
   * record: it reads a vault of 10 * 4 = 40 features in a field of 16
   * elements.
   */
  lemma WideProtectedRecordAccepted()
    ensures var r := ProtectedRecord(WideRecordFields());
            && ParseRecord(r, |r|, SinglePoint(), 1, true) == Parsed(WideRecordFields())
            && !RecordFits(WideRecordFields(), SinglePoint())
  {
    WideRecordFieldsSound();
    var f := WideRecordFields();
    assert RecordGrid(SinglePoint(), f.params) == 1;
    assert SignedCardinality(f.rep) == 16;
    AsWrittenCheckPassed(f, SinglePoint(), 1);
  }

  /** Checked against the record's own s, the same record is refused. */
  lemma WideProtectedRecordRejected()
    ensures var r := ProtectedRecord(WideRecordFields()); ParseRecord(r, |r|, SinglePoint(), 1, false) == Rejected
  {
    WideRecordFieldsSound();
    var f := WideRecordFields();
    assert RecordGrid(SinglePoint(), f.params) == 1;
    CorrectedCheckFailed(f, SinglePoint(), 1);
  }

  /** A sound record whose field passes the check as written is parsed, whether its vault fits or not. */
  lemma AsWrittenCheckPassed(f: RecordFields, gridOf: GridCount, receiverS: int)
    requires RecordSound(f)
    requires SignedCardinality(f.rep) >= Int32(Uint32(10 * receiverS * RecordGrid(gridOf, f.params)))
    ensures var r := ProtectedRecord(f); ParseRecord(r, |r|, gridOf, receiverS, true) == Parsed(f)
  {
    ParseRecordAt(f, gridOf, receiverS, true);
    ParseVaultDataAt(f);
  }

  /** A sound record whose vault does not fit its field is refused by the corrected check. */
  lemma CorrectedCheckFailed(f: RecordFields, gridOf: GridCount, receiverS: int)
    requires RecordSound(f) && !RecordFits(f, gridOf)
    ensures var r := ProtectedRecord(f); ParseRecord(r, |r|, gridOf, receiverS, false) == Rejected
  {
    ParseRecordAt(f, gridOf, receiverS, false);
  }

  /** toBytes's writes: the record of the fields f at the start of data. */
  method WriteRecord(data: array<Byte>, f: RecordFields) returns (size: nat)
    requires 35 + |f.sdf| + |f.vault| + |f.hash| <= data.Length
    modifies data
    ensures size == 35 + |f.sdf| + |f.vault| + |f.hash| && data[..size] == ProtectedRecord(f)
    ensures data[28..28 + |f.sdf|] == f.sdf && data[size..] == old(data[size..])
  {
    var r := ProtectedRecord(f);
    FuzzyVaults.Put(data, 0, r);
    size := |r|;
    ProtectedRecordLayout(f);
    assert data[..size][28..28 + |f.sdf|] == f.sdf;
  }
}
