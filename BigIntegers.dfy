/**
 * BigInteger: a signed integer of arbitrary size held as an array of
 * 32-bit words, least significant first. The field size counts the
 * relevant words and is negative for a negative integer; the words of
 * the array above the relevant ones are spare capacity.
 */
module BigIntegers {
  import opened MathTools
  import opened BigIntegerLimbs
  import opened BigIntegerBits
  import opened BigIntegerBytes

  /** The sign of x: -1, 0 or 1. */
  function Sgn(x: int): int
  {
    if x > 0 then 1 else if x < 0 then -1 else 0
  }

  function Abs(x: int): nat
  {
    if x < 0 then -x else x
  }

  class BigInteger {
    /** The allocated words; |data| is the capacity. */
    var data: seq<nat>
    /** The number of relevant words, negated for a negative integer. */
    var size: int

    function NumWords(): nat
      reads this
    {
      if size < 0 then -size else size
    }

    /** The allocation holds words and at least the relevant ones. */
    ghost predicate WellFormed()
      reads this
    {
      1 <= |data| && NumWords() <= |data| && IsWords(data)
    }

    /** The relevant words. */
    function Words(): seq<nat>
      reads this
      requires NumWords() <= |data|
    {
      data[..NumWords()]
    }

    /**
     * A normalized integer: at least one relevant word, a nonzero top
     * word unless the integer is the single word 0, and no negative zero.
     */
    ghost predicate Valid()
      reads this
    {
      WellFormed() && Normal(Words()) && (size < 0 ==> !(size == -1 && data[0] == 0))
    }

    ghost function Value(): int
      reads this
      requires Valid()
    {
      var m: int := Mag(Words());
      if size < 0 then -m else m
    }

    /** sign(): -1, 0 or 1. */
    function Sign(): (r: int)
      reads this
      requires WellFormed()
      ensures Valid() ==> r == Sgn(Value())
    {
      NormalZero(Words());
      if size < 0 then -1 else if size == 1 && data[0] == 0 then 0 else 1
    }

    /** isZero(). */
    function IsZero(): (r: bool)
      reads this
      requires WellFormed()
      ensures Valid() ==> (r <==> Value() == 0)
    {
      NormalZero(Words());
      size == 1 && data[0] == 0
    }

    /** BigInteger(v): a one-word integer; |v| above 2^32 - 1 is an error. */
    constructor (v: int)
      requires -0xFFFF_FFFF <= v <= 0xFFFF_FFFF
      ensures Valid() && Value() == v && |data| == 1
    {
      data := [if v < 0 then -v else v];
      size := if v < 0 then -1 else 1;
      new;
      MagSingle(data[0]);
      assert Words() == data;
    }

    /** clear(): the integer 0. */
    method Clear()
      requires WellFormed()
      modifies this
      ensures WellFormed() && size == 1 && data == old(data)[0 := 0]
      ensures Valid() && Value() == 0
    {
      size := 1;
      data := data[0 := 0];
      assert Words() == [0];
      MagSingle(0);
    }

    /**
     * ensureCapacity(k): at least k words allocated, the relevant words
     * kept and every word above them zero; a negative k is an error.
     */
    method EnsureCapacity(k: int)
      requires k >= 0 && WellFormed()
      modifies this
      ensures WellFormed() && size == old(size)
      ensures |data| == if k > |old(data)| then k else |old(data)|
      ensures Words() == old(Words())
      ensures forall t :: NumWords() <= t < |data| ==> data[t] == 0
    {
      if k > |data| {
        data := data + Zeros(k - |data|);
      }
      data := data[..NumWords()] + Zeros(|data| - NumWords());
    }

    /**
     * normalize(): drops zero top words (keeping at least one) and keeps
     * the sign of size.
     */
    method Normalize()
      requires WellFormed() && NumWords() >= 1
      modifies this
      ensures WellFormed() && data == old(data) && (size < 0 <==> old(size) < 0)
      ensures Normal(Words()) && NumWords() <= old(NumWords())
      ensures Mag(Words()) == old(Mag(Words()))
      ensures old(size) > 0 || old(Mag(Words())) != 0 ==> Valid()
    {
      ghost var w := Words();
      var l := NumWords() - 1;
      while l > 0 && data[l] == 0
        invariant 0 <= l < |w|
        invariant forall t :: l < t < |w| ==> w[t] == 0
      {
        l := l - 1;
      }
      l := l + 1;
      MagZeroTail(w, l);
      assert w[..l] == data[..l];
      if Sign() < 0 {
        l := -l;
      }
      size := l;
      if size < 0 && size == -1 && data[0] == 0 {
        MagSingle(0);
        assert Words() == [0];
      }
    }

    /** operator=: a copy of z's relevant words and size. */
    method Assign(z: BigInteger)
      requires z.Valid() && WellFormed()
      modifies this
      ensures Valid() && size == old(z.size) && Words() == old(z.Words())
    {
      if this == z {
        return;
      }
      var zw, zs := z.Words(), z.size;
      EnsureCapacity(|zw|);
      size := zs;
      data := zw + data[|zw|..];
      assert Words() == zw;
    }

    /** swap(a): exchanges the words and sizes of the two integers. */
    method Swap(a: BigInteger)
      modifies this, a
      ensures data == old(a.data) && size == old(a.size)
      ensures a.data == old(data) && a.size == old(size)
      ensures old(a.Valid()) ==> Valid() && Value() == old(a.Value())
      ensures old(Valid()) ==> a.Valid() && a.Value() == old(Value())
    {
      var d, s := data, size;
      data, size := a.data, a.size;
      a.data, a.size := d, s;
    }

    /** negate(a, b): a becomes -b; zero stays zero. */
    static method Negate(a: BigInteger, b: BigInteger)
      requires b.Valid() && a.WellFormed()
      modifies a
      ensures a.Valid() && a.Value() == -old(b.Value())
    {
      a.Assign(b);
      if !a.IsZero() {
        a.size := -a.size;
      }
    }

    /**
     * absCompare(a, b): the sign of |a| - |b|. More relevant words mean a
     * larger absolute value; equal counts go to the word comparison.
     */
    static method AbsCompare(a: BigInteger, b: BigInteger) returns (r: int)
      requires a.Valid() && b.Valid()
      ensures r == Sgn(Abs(a.Value()) - Abs(b.Value()))
    {
      var m, n := a.NumWords(), b.NumWords();
      NormalBounds(a.Words());
      NormalBounds(b.Words());
      if m > n {
        WPowMonotone(n, m - 1);
        return 1;
      } else if m < n {
        WPowMonotone(m, n - 1);
        return -1;
      }
      r := LimbCompare(a.Words(), b.Words());
    }

    /** compare(a, b): the sign of a - b, from the signs first. */
    static method Compare(a: BigInteger, b: BigInteger) returns (r: int)
      requires a.Valid() && b.Valid()
      ensures r == Sgn(a.Value() - b.Value())
    {
      if a.Sign() > 0 && b.Sign() < 0 {
        return 1;
      }
      if a.Sign() < 0 && b.Sign() > 0 {
        return -1;
      }
      if a.Sign() == 0 && b.Sign() == 0 {
        return 0;
      }
      if a.Sign() == 0 {
        return -b.Sign();
      }
      if b.Sign() == 0 {
        return a.Sign();
      }
      var s := a.Sign();
      var ac := AbsCompare(a, b);
      r := s * ac;
    }

    /**
     * The sum or difference of magnitudes stored as the relevant words of
     * c, normalized, with sign s; every caller has a nonzero result when s
     * is negative.
     */
    method SetMagnitude(w: seq<nat>, s: int)
      requires WellFormed() && IsWords(w) && |w| >= 1 && (s < 0 ==> Mag(w) != 0)
      modifies this
      ensures Valid() && Value() == if s < 0 then -(Mag(w) as int) else Mag(w)
    {
      EnsureCapacity(|w|);
      size := |w|;
      data := w + data[|w|..];
      assert Words() == w;
      Normalize();
      if s < 0 {
        size := -size;
        NormalZero(Words());
      }
    }

    /** The magnitude and the sign of a valid integer. */
    lemma AbsValue()
      requires Valid()
      ensures Abs(Value()) == Mag(Words()) && (Value() < 0 <==> size < 0)
    {
    }

    /**
     * add(c, a, b): c = a + b. Equal signs add the magnitudes; different
     * signs subtract the smaller magnitude from the larger and take the
     * sign of the larger. Opposite integers give zero.
     */
    static method Add(c: BigInteger, a: BigInteger, b: BigInteger)
      requires a.Valid() && b.Valid() && c.WellFormed()
      modifies c
      ensures c.Valid() && c.Value() == old(a.Value()) + old(b.Value())
    {
      var sa, sb := a.Sign(), b.Sign();
      if sb == 0 {
        c.Assign(a);
        return;
      } else if sa == 0 {
        c.Assign(b);
        return;
      }
      var aw, bw := a.Words(), b.Words();
      ghost var va, vb := a.Value(), b.Value();
      a.AbsValue();
      b.AbsValue();
      NormalBounds(aw);
      NormalBounds(bw);
      if (sa >= 0 && sb >= 0) || (sa < 0 && sb < 0) {
        var s := sa;
        SameSignsSum(va, vb, Mag(aw), Mag(bw));
        SetSum(c, aw, bw, s);
      } else {
        var ac := AbsCompare(a, b);
        if ac != 0 {
          var s := sa * ac;
          OppositeSignsSum(va, vb, Mag(aw), Mag(bw));
          SetDifference(c, aw, bw, s, ac);
        } else {
          c.Clear();
        }
      }
    }

    /**
     * sub(c, a, b): c = a - b. Equal signs subtract the magnitudes;
     * different signs add them and keep the sign of a.
     */
    static method Sub(c: BigInteger, a: BigInteger, b: BigInteger)
      requires a.Valid() && b.Valid() && c.WellFormed()
      modifies c
      ensures c.Valid() && c.Value() == old(a.Value()) - old(b.Value())
    {
      var sa, sb := a.Sign(), b.Sign();
      if sa == 0 {
        Negate(c, b);
        return;
      } else if sb == 0 {
        c.Assign(a);
        return;
      }
      var aw, bw := a.Words(), b.Words();
      ghost var va, vb := a.Value(), b.Value();
      a.AbsValue();
      b.AbsValue();
      NormalBounds(aw);
      NormalBounds(bw);
      if (sa > 0 && sb > 0) || (sa < 0 && sb < 0) {
        var ac := AbsCompare(a, b);
        if ac != 0 {
          var s := ac * sa;
          OppositeSignsSum(va, -vb, Mag(aw), Mag(bw));
          SetDifference(c, aw, bw, s, ac);
        } else {
          c.Clear();
        }
      } else {
        var s := sa;
        SameSignsSum(va, -vb, Mag(aw), Mag(bw));
        SetSum(c, aw, bw, s);
      }
    }

    /** mul(c, a, b): c = a * b, with the sign of the product of the signs. */
    static method Mul(c: BigInteger, a: BigInteger, b: BigInteger)
      requires a.Valid() && b.Valid() && c.WellFormed()
      modifies c
      ensures c.Valid() && c.Value() == old(a.Value()) * old(b.Value())
    {
      var s := a.Sign() * b.Sign();
      var aw, bw := a.Words(), b.Words();
      ghost var va, vb := a.Value(), b.Value();
      a.AbsValue();
      b.AbsValue();
      SignedProduct(va, vb, Mag(aw), Mag(bw));
      var prod := LimbMul(aw, bw);
      c.Clear();
      c.SetMagnitude(prod, s);
    }

    /**
     * leftShift(a, b, n): a = b * 2^n for n >= 0; a negative n shifts
     * right by -n. The words of b are shifted by k = n / 32 places and
     * m = n % 32 bits into k + |b| + 1 cleared words.
     */
    static method LeftShift(a: BigInteger, b: BigInteger, n: int)
      requires b.Valid() && a.WellFormed()
      modifies a
      ensures a.Valid()
      ensures n >= 0 ==> a.Value() == old(b.Value()) * Pow2(n)
      ensures n < 0 ==> a.Value() == Sgn(old(b.Value())) * (Abs(old(b.Value())) / Pow2(-n))
      decreases if n < 0 then 1 else 0
    {
      if n < 0 {
        RightShift(a, b, -n);
        return;
      }
      var s := b.Sign();
      var bw := b.Words();
      ghost var vb := b.Value();
      b.AbsValue();
      var k, m := n / 32, n % 32;
      var l := k + |bw| + 1;
      a.Clear();
      a.EnsureCapacity(l);
      a.size := l;
      var d := ShiftWordsLeft(bw, k, m, a.data[..l]);
      MagShiftLeft(Mag(bw), k, m);
      SignedProduct(vb, Pow2(n), Mag(bw), Pow2(n));
      a.SetMagnitude(d, s);
    }

    /**
     * rightShift(a, b, n): a = b / 2^n rounded toward zero for n >= 0; a
     * negative n shifts left by -n. Word i - k of the result takes word i
     * of b shifted right by m = n % 32 bits and the low m bits of word
     * i + 1 on top, for k = n / 32.
     */
    static method RightShift(a: BigInteger, b: BigInteger, n: int)
      requires b.Valid() && a.WellFormed()
      modifies a
      ensures a.Valid()
      ensures n >= 0 ==> a.Value() == Sgn(old(b.Value())) * (Abs(old(b.Value())) / Pow2(n))
      ensures n < 0 ==> a.Value() == old(b.Value()) * Pow2(-n)
      decreases if n < 0 then 1 else 0
    {
      if n < 0 {
        LeftShift(a, b, -n);
        return;
      }
      var s := b.Sign();
      var bw := b.Words();
      ghost var vb := b.Value();
      b.AbsValue();
      ShiftMagnitudeRight(a, bw, n);
      ghost var q := a.Value();
      if s < 0 {
        Negate(a, a);
      }
      SignedQuotient(s, vb, Pow2(n), q, a.Value());
    }

    /**
     * div(c, a, b): c = floor(a / b); b = 0 is an error. Positive a and b
     * with fewer words in a give 0 at once; a one-word b is shifted up
     * together with a by 32 bits first.
     */
    static method Div(c: BigInteger, a: BigInteger, b: BigInteger)
      requires a.Valid() && b.Valid() && c.WellFormed() && b.Value() != 0
      modifies c
      ensures c.Valid() && c.Value() == FloorDiv(old(a.Value()), old(b.Value()))
      decreases if b.NumWords() == 1 then 1 else 0
    {
      ghost var va, vb := a.Value(), b.Value();
      a.AbsValue();
      b.AbsValue();
      if a.Sign() > 0 && b.Sign() > 0 && a.NumWords() < b.NumWords() {
        ShorterQuotient(a.Words(), b.Words());
        c.Clear();
        return;
      } else if b.NumWords() == 1 {
        var ta := ShiftedUp(a);
        var tb := ShiftedUp(b);
        tb.AbsValue();
        ShiftedDivisor(tb.Words(), vb);
        FloorDivScale(va, vb, W);
        Div(c, ta, tb);
        return;
      }
      DivCore(c, a, b);
    }

    /** a shifted up by 32 bits into a fresh integer, as div does for a one-word divisor. */
    static method ShiftedUp(a: BigInteger) returns (t: BigInteger)
      requires a.Valid()
      ensures fresh(t) && t.Valid() && t.Value() == a.Value() * W
    {
      t := new BigInteger(0);
      LeftShift(t, a, 32);
      Pow2Is64();
    }

    /**
     * The long division part of div, for a b of at least two words: the
     * magnitudes are divided, and a negative quotient with a nonzero
     * remainder is moved one down, to the floor.
     */
    static method DivCore(c: BigInteger, a: BigInteger, b: BigInteger)
      requires a.Valid() && b.Valid() && c.WellFormed() && b.Value() != 0 && b.NumWords() >= 2
      modifies c
      ensures c.Valid() && c.Value() == FloorDiv(old(a.Value()), old(b.Value()))
    {
      var aw, bw := a.Words(), b.Words();
      ghost var va, vb := a.Value(), b.Value();
      a.AbsValue();
      b.AbsValue();
      var s := a.Sign() * b.Sign();
      FloorDivSigned(va, vb, Mag(aw), Mag(bw));
      var one := new BigInteger(1);
      var isZero := c.SetQuotient(aw, bw);
      if s < 0 {
        if !isZero {
          Add(c, c, one);
        }
        Negate(c, c);
      }
    }

    /**
     * The quotient of the magnitudes aw / bw as this integer, and whether
     * the division leaves no remainder.
     */
    method SetQuotient(aw: seq<nat>, bw: seq<nat>) returns (isZero: bool)
      requires WellFormed() && IsWords(aw) && Normal(aw) && IsWords(bw) && Normal(bw) && Mag(bw) != 0
      requires |bw| >= 2
      modifies this
      ensures Valid() && Value() == Mag(aw) / Mag(bw)
      ensures isZero <==> Mag(aw) % Mag(bw) == 0
    {
      NormalBounds(aw);
      if |aw| < |bw| {
        // The source goes on with m = |a| - |b| < 0 words here.
        ShorterQuotient(aw, bw);
        Clear();
        NormalZero(aw);
        isZero := aw[0] == 0 && |aw| == 1;
      } else {
        var q;
        q, isZero := DivideWords(aw, bw);
        Clear();
        SetMagnitude(q, 1);
      }
    }

    /**
     * divRem(q, r, a, b): q = floor(a / b) and r = a - q b, so r lies
     * between 0 and b; q and r must be different integers. An a that is
     * q or r, or a b that is q, is copied first.
     */
    static method DivRem(q: BigInteger, r: BigInteger, a: BigInteger, b: BigInteger)
      requires q != r && a.Valid() && b.Valid() && q.WellFormed() && r.WellFormed()
      requires b.Value() != 0
      modifies q, r
      ensures q.Valid() && r.Valid()
      ensures q.Value() == FloorDiv(old(a.Value()), old(b.Value()))
      ensures r.Value() == old(a.Value()) - q.Value() * old(b.Value())
      ensures old(b.Value()) > 0 ==> 0 <= r.Value() < old(b.Value())
      ensures old(b.Value()) < 0 ==> old(b.Value()) < r.Value() <= 0
    {
      var x, y := a, b;
      if q == a || r == a {
        x := Copy(a);
      }
      if q == b {
        y := Copy(b);
      }
      DivRemSeparate(q, r, x, y);
    }

    /** A fresh integer with the value of a (the copies divRem makes). */
    static method Copy(a: BigInteger) returns (t: BigInteger)
      requires a.Valid()
      ensures fresh(t) && t.Valid() && t.Value() == a.Value()
    {
      t := new BigInteger(0);
      t.Assign(a);
    }

    /** divRem once a is neither q nor r and b is not q: q = a / b, then r = a - q * b. */
    static method DivRemSeparate(q: BigInteger, r: BigInteger, a: BigInteger, b: BigInteger)
      requires q != r && q != a && r != a && q != b
      requires a.Valid() && b.Valid() && q.WellFormed() && r.WellFormed() && b.Value() != 0
      modifies q, r
      ensures q.Valid() && r.Valid()
      ensures q.Value() == FloorDiv(old(a.Value()), old(b.Value()))
      ensures r.Value() == old(a.Value()) - q.Value() * old(b.Value())
      ensures old(b.Value()) > 0 ==> 0 <= r.Value() < old(b.Value())
      ensures old(b.Value()) < 0 ==> old(b.Value()) < r.Value() <= 0
    {
      ghost var va, vb := a.Value(), b.Value();
      Div(q, a, b);
      ghost var vq := q.Value();
      Mul(r, q, b);
      Sub(r, a, r);
      FloorDivRemainder(va, vb);
      assert q.Value() == vq;
    }

    /**
     * numBits(): the number of binary digits of the absolute value, the
     * least l with |this| < 2^l: 32 per word below the top one plus the
     * digits of the top word.
     */
    method NumBits() returns (l: nat)
      requires Valid()
      ensures l == Digits(Mag(Words()))
      ensures Mag(Words()) < Pow2(l) && (l == 0 || Pow2(l - 1) <= Mag(Words()))
    {
      l := (NumWords() - 1) * 32;
      var lw := data[NumWords() - 1];
      ghost var l0, top := l, lw;
      while lw != 0
        invariant l0 + Digits(top) == l + Digits(lw)
        decreases lw
      {
        l := l + 1;
        lw := lw / 2;
      }
      NumBitsBound(Words());
      DigitsIsLeastPower(Mag(Words()));
    }

    /**
     * getSizeInBytes(): the number of bytes holding the absolute value
     * and one more bit for the sign.
     */
    method GetSizeInBytes() returns (s: nat)
      requires Valid()
      ensures s == ByteCount(Digits(Mag(Words())))
      ensures 8 * s > Digits(Mag(Words())) && 8 * (s - 1) <= Digits(Mag(Words()))
    {
      var nb := NumBits();
      var tmp := nb + 1;
      s := tmp / 8 + (if tmp % 8 != 0 then 1 else 0);
    }

    /**
     * toBytes(array): writes the absolute value into the first
     * getSizeInBytes() bytes, least significant first, and adds 128 to
     * the last of them for a negative integer; decoding those bytes gives
     * the integer back, and the bytes after them are kept.
     */
    method ToBytes(buf: seq<Byte>) returns (r: seq<Byte>)
      requires Valid() && |buf| >= ByteCount(Digits(Mag(Words())))
      ensures |r| == |buf|
      ensures DecodeBytes(r[..ByteCount(Digits(Mag(Words())))]) == Value()
      ensures r[ByteCount(Digits(Mag(Words())))..] == buf[ByteCount(Digits(Mag(Words())))..]
    {
      var sizeInBytes := GetSizeInBytes();
      var w := Words();
      r := WriteSigned(w, buf, sizeInBytes, size < 0);
    }

    /**
     * fromBytes(array, n): the integer whose absolute value is held in
     * the first n bytes, least significant first, with the top bit of the
     * last byte cleared, and which is negative when that bit is set; no
     * bytes give zero, and a negative n is an error.
     */
    method FromBytes(bytes: seq<Byte>, n: int)
      requires WellFormed() && 0 <= n <= |bytes|
      modifies this
      ensures Valid() && Value() == DecodeBytes(bytes[..n])
    {
      Clear();
      if n != 0 {
        var numWords := n / 4 + (if n % 4 != 0 then 1 else 0);
        ghost var c := Masked(bytes[..n]);
        MagGroup(c);
        EnsureCapacity(numWords);
        size := numWords;
        var d := GroupWords(bytes, n, data);
        data := d;
        assert Words() == Group(c);
        Normalize();
        ghost var m: int := BytesValue(c);
        assert Value() == m;
        assert bytes[..n][n - 1] == bytes[n - 1];
        assert DecodeBytes(bytes[..n]) == if bytes[n - 1] >= 128 then -m else m;
        if bytes[n - 1] >= 128 {
          Negate(this, this);
        }
      } else {
        assert bytes[..n] == [];
      }
    }

    /**
     * fromBytes is the inverse of toBytes: the getSizeInBytes() bytes
     * that x exports give y the value of x.
     */
    static method BytesRoundTrip(x: BigInteger, y: BigInteger)
      requires x.Valid() && y.WellFormed()
      modifies y
      ensures y.Valid() && y.Value() == old(x.Value())
    {
      var s := x.GetSizeInBytes();
      var bytes := x.ToBytes(seq(s, _ => 0));
      y.FromBytes(bytes, s);
    }
  }

  /**
   * The magnitude part of div: aw with a zero word on top divided by bw
   * (|aw| >= |bw| >= 2), and whether the words of what div leaves in the
   * numerator below its top word are all zero. Those words hold d times
   * the remainder, for the factor d >= 1 that div returns.
   */
  method DivideWords(aw: seq<nat>, bw: seq<nat>) returns (q: seq<nat>, isZero: bool)
    requires IsWords(aw) && IsWords(bw) && Normal(bw) && Mag(bw) != 0 && |bw| >= 2 && |aw| >= |bw|
    ensures |q| == |aw| - |bw| + 1 && IsWords(q)
    ensures Mag(q) == Mag(aw) / Mag(bw)
    ensures isZero <==> Mag(aw) % Mag(bw) == 0
  {
    NormalBounds(bw);
    var n := |bw|;
    var m := |aw| - n;
    var u := aw + [0];
    MagSnoc(aw, 0);
    var rem, v, d;
    q, rem, v, d := LongDivide(u, bw, m);
    isZero := true;
    var i := 0;
    while i < m + n
      invariant 0 <= i <= m + n
      invariant forall t :: 0 <= t < i ==> rem[t] == 0
    {
      if rem[i] != 0 {
        isZero := false;
        break;
      }
      i := i + 1;
    }
    MagBound(v);
    WPowMonotone(n, m + n);
    RemainderZeroTest(rem, m + n, Mag(v), isZero, i);
    if Mag(u) % Mag(bw) != 0 {
      MulAtLeast(Mag(u) % Mag(bw), d);
    }
  }

  /** Fewer normalized words in a than in b: the quotient is 0 and the remainder a. */
  lemma ShorterQuotient(aw: seq<nat>, bw: seq<nat>)
    requires IsWords(aw) && Normal(aw) && IsWords(bw) && Normal(bw) && |aw| < |bw|
    ensures Mag(aw) < Mag(bw) && Mag(aw) / Mag(bw) == 0 && Mag(aw) % Mag(bw) == Mag(aw)
  {
    NormalBounds(aw);
    NormalBounds(bw);
    WPowMonotone(|aw|, |bw| - 1);
    DivModUnique(Mag(aw), Mag(bw), 0, Mag(aw));
  }

  /** floor(a / b) for b != 0. */
  function FloorDiv(a: int, b: int): int
    requires b != 0
  {
    if b > 0 then a / b else (-a) / (-b)
  }

  /** The remainder a - floor(a / b) b lies between 0 and b. */
  lemma FloorDivRemainder(a: int, b: int)
    requires b != 0
    ensures b > 0 ==> 0 <= a - FloorDiv(a, b) * b < b
    ensures b < 0 ==> b < a - FloorDiv(a, b) * b <= 0
  {
    if b < 0 {
      var q := (-a) / (-b);
      assert -a == q * (-b) + (-a) % (-b);
      assert a - q * b == -((-a) % (-b));
    }
  }

  /** x = q y + r with 0 <= r < y determines the quotient q. */
  lemma IntDivUnique(x: int, y: int, q: int, r: int)
    requires y > 0 && x == q * y + r && 0 <= r < y
    ensures q == x / y
  {
    var q', r' := x / y, x % y;
    assert x == q' * y + r';
    assert (q - q') * y == r' - r;
    if q > q' {
      MulAtLeast(y, q - q');
    } else if q < q' {
      MulAtLeast(y, q' - q);
    }
  }

  /**
   * floor(a / b) from the magnitudes: their quotient, negated and moved
   * one down when the signs differ and the division leaves a remainder.
   */
  lemma FloorDivSigned(a: int, b: int, ma: nat, mb: nat)
    requires Abs(a) == ma && Abs(b) == mb && b != 0
    ensures Sgn(a) * Sgn(b) >= 0 ==> FloorDiv(a, b) == ma / mb
    ensures Sgn(a) * Sgn(b) < 0 ==> ma != 0 && FloorDiv(a, b) == -(ma / mb + (if ma % mb == 0 then 0 else 1))
  {
    var q, r := ma / mb, ma % mb;
    DivModSplit(ma, mb);
    if Sgn(a) * Sgn(b) < 0 {
      var ima: int := ma;
      var nma := -ima;
      assert FloorDiv(a, b) == nma / mb;
      if r == 0 {
        IntDivUnique(nma, mb, -q, 0);
      } else {
        IntDivUnique(nma, mb, -(q + 1), mb - r);
      }
    } else if a == 0 {
      assert FloorDiv(a, b) == 0 by {
        IntDivUnique(0, mb, 0, 0);
      }
    } else {
      assert FloorDiv(a, b) == ma / mb;
    }
  }

  /** Scaling both operands by p >= 1 keeps floor(a / b). */
  lemma FloorDivScale(a: int, b: int, p: int)
    requires b != 0 && p >= 1
    ensures b * p != 0 && FloorDiv(a * p, b * p) == FloorDiv(a, b)
  {
    if b > 0 {
      MulStrictInt(0, b, p);
      PositiveScale(a, b, p);
    } else {
      MulStrictInt(0, -b, p);
      assert -(b * p) == (-b) * p && -(a * p) == (-a) * p;
      PositiveScale(-a, -b, p);
    }
  }

  lemma PositiveScale(a: int, b: int, p: int)
    requires b > 0 && p >= 1
    ensures (a * p) / (b * p) == a / b
  {
    var q, r := a / b, a % b;
    ScaleSplitInt(a, q, r, p, b);
    MulStrictInt(r, b, p);
    IntDivUnique(a * p, b * p, q, r * p);
  }

  lemma ScaleSplitInt(x: int, q: int, r: int, p: int, y: int)
    requires x == q * y + r
    ensures x * p == q * (y * p) + r * p
  {
  }

  lemma MulStrictInt(r: int, y: int, p: int)
    requires 0 <= r < y && p >= 1
    ensures 0 <= r * p < y * p
  {
  }

  /** A nonzero one-word divisor shifted by 32 bits has at least two words. */
  lemma ShiftedDivisor(w: seq<nat>, v: int)
    requires IsWords(w) && Normal(w) && v != 0 && Mag(w) == Abs(v * W)
    ensures |w| >= 2
  {
    assert Abs(v * W) == Abs(v) * W;
    MulAtLeast(W, Abs(v));
    NormalBounds(w);
  }

  /**
   * The remainder test of div: the words below m + n are zero exactly
   * when the remainder is, since the remainder is below the divisor and
   * its word m + n is zero too.
   */
  lemma RemainderZeroTest(rem: seq<nat>, l: nat, mb: nat, isZero: bool, i: nat)
    requires |rem| == l + 1 && IsWords(rem) && Mag(rem) < mb <= WPow(l) && i <= l
    requires forall t :: 0 <= t < i ==> rem[t] == 0
    requires isZero ==> i == l
    requires !isZero ==> i < l && rem[i] != 0
    ensures isZero <==> Mag(rem) == 0
  {
    if isZero {
      ZeroAbove(rem, l);
      assert rem == Zeros(l + 1);
      MagZeros(l + 1);
    } else {
      MagAtLeastWord(rem, i);
      MulAtLeast(WPow(i), rem[i]);
    }
  }

  /** The number of words of the normalized form of magnitude x. */
  function WordCount(x: nat): (r: nat)
    ensures r >= 1
  {
    if x < W then 1 else 1 + WordCount(x / W)
  }

  lemma WordCountShift(x: nat)
    requires x >= 1
    ensures WordCount(x * W) == WordCount(x) + 1
  {
    MulAtLeast(W, x);
    DivModUnique(x * W, W, x, 0);
  }

  /**
   * div(c, a, b) as written, for b != 0: how many relevant words it gives
   * the quotient before normalizing. Positive a and b with fewer words in
   * a give one word (zero); a one-word b shifts both up by 32 bits and
   * starts over; otherwise the quotient gets m + 1 words for m the
   * difference of the word counts, which leaves no word when m = -1, and
   * makes ensureCapacity exit when m < -1.
   */
  function DivWordsAsWritten(a: int, b: int): Outcome
    requires b != 0
    decreases if WordCount(Abs(b)) == 1 then 1 else 0
  {
    if a > 0 && b > 0 && WordCount(Abs(a)) < WordCount(Abs(b)) then Relevant(1)
    else if WordCount(Abs(b)) == 1 then
      assert Abs(b * W) == Abs(b) * W;
      WordCountShift(Abs(b));
      DivWordsAsWritten(a * W, b * W)
    else
      var m := WordCount(Abs(a)) - WordCount(Abs(b));
      if m + 1 < 0 then Exit else Relevant(m + 1)
  }

  /**
   * 0 / 1 leaves a quotient without words (after the shift by 32 bits it
   * is 0 / 2^32), and 0 / 2^64 exits; both quotients are 0.
   */
  lemma DivAsWrittenLosesQuotient()
    ensures DivWordsAsWritten(0, 1) == Relevant(0) && FloorDiv(0, 1) == 0
    ensures DivWordsAsWritten(0, W * W) == Exit && FloorDiv(0, W * W) == 0
  {
    assert WordCount(W) == 2 by {
      assert W / W == 1;
    }
    assert WordCount(W * W) == 3 by {
      assert (W * W) / W == W;
    }
  }

  /** The magnitude with words bw, shifted right by n bits, into a (the non-negative part of rightShift). */
  method ShiftMagnitudeRight(a: BigInteger, bw: seq<nat>, n: nat)
    requires a.WellFormed() && IsWords(bw) && |bw| >= 1
    modifies a
    ensures a.Valid() && a.Value() == Mag(bw) / Pow2(n)
  {
    var blen := |bw|;
    var k, m := n / 32, n % 32;
    if k >= blen {
      // Every word is shifted out (the source leaves no relevant word).
      ShiftedOut(bw, k, m);
      a.Clear();
      return;
    }
    a.Clear();
    a.EnsureCapacity(blen - k);
    a.size := blen - k;
    var d := ShiftWordsRight(bw, k, m, a.data);
    a.data := d;
    assert a.Words() == RightWords(bw[k..], m);
    MagShiftRight(bw, k, m);
    a.Normalize();
  }

  /** The signed result of rightShift: the shifted magnitude, negated for a negative b. */
  lemma SignedQuotient(s: int, vb: int, p: int, q: int, r: int)
    requires p > 0 && s == Sgn(vb) && q == Abs(vb) / p && (s < 0 ==> r == -q) && (s >= 0 ==> r == q)
    ensures r == Sgn(vb) * (Abs(vb) / p)
  {
    if vb == 0 {
      assert Abs(vb) / p == 0 / p == 0;
    } else if vb < 0 {
      assert Sgn(vb) * q == -q;
    } else {
      assert Sgn(vb) * q == q;
    }
  }

  lemma ShiftedOut(bw: seq<nat>, k: nat, m: nat)
    requires IsWords(bw) && k >= |bw| && m < 32
    ensures Mag(bw) / Pow2(32 * k + m) == 0
  {
    MagBound(bw);
    WPowMonotone(|bw|, k);
    WPowIsPow2(k);
    Pow2Monotone(32 * k, 32 * k + m);
    DivModUnique(Mag(bw), Pow2(32 * k + m), 0, Mag(bw));
  }

  /**
   * The number of relevant words rightShift as written gives b >> n for
   * n >= 0 when b has blen words: blen - n / 32, which is 0 when exactly
   * every word is shifted out (an integer without words, whose sign()
   * is 1), and below 0 when more are, so ensureCapacity exits.
   */
  function RightShiftWordsAsWritten(blen: nat, n: nat): Outcome
  {
    if blen < n / 32 then Exit else Relevant(blen - n / 32)
  }

  /** A one-word integer shifted by 32 bits has no words; by 64 the call exits. */
  lemma RightShiftAsWrittenLosesWords()
    ensures RightShiftWordsAsWritten(1, 32) == Relevant(0)
    ensures RightShiftWordsAsWritten(1, 64) == Exit
  {
  }
  /**
   * The binary digits of a normalized magnitude: 32 per word below the
   * top one plus the digits of the top word.
   */
  lemma NumBitsBound(w: seq<nat>)
    requires IsWords(w) && Normal(w)
    ensures 32 * (|w| - 1) + Digits(w[|w| - 1]) == Digits(Mag(w))
  {
    var k := |w| - 1;
    var t := w[k];
    var d := Digits(t);
    var low := Mag(w[..k]);
    assert Mag(w) == low + t * WPow(k);
    MagBound(w[..k]);
    WPowIsPow2(k);
    DigitsIsLeastPower(t);
    Pow2Add(32 * k, d);
    BitsUpper(low, t, Pow2(32 * k), Pow2(d));
    if t == 0 {
      assert |w| == 1;
      DigitsUnique(Mag(w), 0);
    } else {
      Pow2Add(32 * k, d - 1);
      BitsLower(low, t, Pow2(32 * k), Pow2(d - 1));
      DigitsUnique(Mag(w), 32 * k + d);
    }
  }

  lemma BitsUpper(low: nat, t: nat, p: nat, q: nat)
    requires low < p && t < q
    ensures low + t * p < p * q
  {
    MulMonotone(t + 1, q, p);
  }

  lemma BitsLower(low: nat, t: nat, p: nat, q: nat)
    requires q <= t
    ensures p * q <= low + t * p
  {
    MulMonotone(q, t, p);
  }

  /** A value below 2^b has at most b binary digits. */
  lemma {:induction false} DigitsAtMost(m: nat, b: nat)
    requires m < Pow2(b)
    ensures Digits(m) <= b
    decreases b
  {
    if m > 0 {
      assert b >= 1;
      DigitsAtMost(m / 2, b - 1);
    }
  }

  /**
   * The bytes toBytes writes for the magnitude Mag(w): the magnitude in
   * the s low bytes, and the top bit of the last of them set for a
   * negative integer.
   */
  method WriteSigned(w: seq<nat>, buf: seq<Byte>, s: nat, negative: bool) returns (r: seq<Byte>)
    requires IsWords(w) && Normal(w) && s == ByteCount(Digits(Mag(w))) && |buf| >= s
    ensures |r| == |buf| && r[s..] == buf[s..]
    ensures DecodeBytes(r[..s]) == if negative then -(Mag(w) as int) else Mag(w)
  {
    SizeFacts(w, s);
    r := WriteMagnitude(w, buf, s);
    ghost var top := r[..s];
    SignedBytes(top, Mag(w), negative);
    if negative {
      r := r[s - 1 := r[s - 1] + 128];
      assert r[..s] == top[s - 1 := top[s - 1] + 128];
    }
  }

  lemma SizeFacts(w: seq<nat>, s: nat)
    requires IsWords(w) && Normal(w) && s == ByteCount(Digits(Mag(w)))
    ensures 1 <= s <= 4 * |w| + 1
    ensures Mag(w) < Pow2(8 * s - 1)
  {
    var nb := Digits(Mag(w));
    MagBound(w);
    WPowIsPow2(|w|);
    DigitsAtMost(Mag(w), 32 * |w|);
    DigitsIsLeastPower(Mag(w));
    Pow2Monotone(nb, 8 * s - 1);
  }


  /**
   * The loops of toBytes: the magnitude of the words w, least
   * significant byte first, into the first sizeInBytes bytes of buf,
   * enough for it with a bit to spare; the rest of buf is kept.
   */
  method WriteMagnitude(w: seq<nat>, buf: seq<Byte>, sizeInBytes: nat) returns (r: seq<Byte>)
    requires IsWords(w) && 1 <= sizeInBytes <= |buf| && sizeInBytes <= 4 * |w| + 1
    requires Mag(w) < Pow2(8 * sizeInBytes - 1)
    ensures |r| == |buf| && r[sizeInBytes..] == buf[sizeInBytes..]
    ensures BytesValue(r[..sizeInBytes]) == Mag(w)
  {
    ghost var M := Mag(w);
    r := buf[sizeInBytes - 1 := 0];
    var k := 0;
    ghost var R := M;
    var i := 0;
    assert w[0..] == w && r[..0] == [];
    assert BytesValue(r[..0]) + Pow256(0) * R == M;
    while i < |w|
      invariant 0 <= i <= |w| && 0 <= k <= sizeInBytes && |r| == |buf|
      invariant r[sizeInBytes..] == buf[sizeInBytes..]
      invariant k < sizeInBytes ==> r[sizeInBytes - 1] == 0 && k == 4 * i && R == Mag(w[i..])
      invariant BytesValue(r[..k]) + Pow256(k) * R == M
    {
      ghost var rest := 0;
      if k < sizeInBytes {
        MagFront(w[i..]);
        assert w[i..][1..] == w[i + 1..];
        rest := Mag(w[i + 1..]);
      }
      ghost var r0 := r;
      r, k, R := PutWordBytes(r, k, w[i], sizeInBytes, M, R, rest);
      assert r[sizeInBytes..] == r0[sizeInBytes..];
      i := i + 1;
    }
    assert w[|w|..] == [];
    WrittenValue(r, k, sizeInBytes, R, M);
  }

  /** Once every word is written, the first s bytes of r hold M. */
  lemma {:induction false} WrittenValue(r: seq<Byte>, k: nat, s: nat, R: nat, M: nat)
    requires 1 <= s <= |r| && k <= s && M < Pow2(8 * s - 1)
    requires BytesValue(r[..k]) + Pow256(k) * R == M
    requires k < s ==> k == s - 1 && r[s - 1] == 0 && R == 0
    ensures BytesValue(r[..s]) == M
  {
    if k == s {
      Pow256IsPow2(s);
      Pow2Monotone(8 * s - 1, 8 * s);
      NothingLeft(BytesValue(r[..k]), Pow256(k), R, M);
    } else {
      BytesSnoc(r[..k], 0);
      assert r[..k] + [0] == r[..s];
    }
  }

  /**
   * The inner loop of toBytes: the bytes of the word v0, least
   * significant first, into r0 from position k0 on, at most four and
   * none at or above position s. M is the magnitude being written and R0
   * its part not yet written, v0 plus W times the words above.
   */
  method PutWordBytes(r0: seq<Byte>, k0: nat, v0: nat, s: nat, ghost M: nat, ghost R0: nat, ghost rest: nat)
    returns (r: seq<Byte>, k: nat, ghost R: nat)
    requires k0 <= s <= |r0| && v0 < W
    requires k0 < s ==> R0 == v0 + W * rest
    requires BytesValue(r0[..k0]) + Pow256(k0) * R0 == M
    ensures |r| == |r0| && k0 <= k <= s
    ensures forall t :: k <= t < |r| ==> r[t] == r0[t]
    ensures k < s ==> k == k0 + 4 && R == rest
    ensures BytesValue(r[..k]) + Pow256(k) * R == M
  {
    Pow256Word();
    r, k, R := r0, k0, R0;
    var v: nat := v0;
    var j := 0;
    while j < 4 && k < s
      invariant 0 <= j <= 4 && k0 <= k <= s && |r| == |r0| && k == k0 + j
      invariant forall t :: k <= t < |r| ==> r[t] == r0[t]
      invariant k < s ==> R == v + Pow256(4 - j) * rest && v < Pow256(4 - j)
      invariant BytesValue(r[..k]) + Pow256(k) * R == M
    {
      r, v, R := PutByte(r, k, v, R, j, rest, M);
      j := j + 1;
      k := k + 1;
    }
    assert Pow256(0) == 1;
  }

  /** One pass of the inner loop of toBytes: the low byte of v goes to position k. */
  method PutByte(r0: seq<Byte>, k: nat, v0: nat, ghost R0: nat, j: nat, ghost rest: nat, ghost M: nat)
    returns (r: seq<Byte>, v: nat, ghost R: nat)
    requires j < 4 && k < |r0| && R0 == v0 + Pow256(4 - j) * rest && v0 < Pow256(4 - j)
    requires BytesValue(r0[..k]) + Pow256(k) * R0 == M
    ensures |r| == |r0| && r == r0[k := r[k]] && R == v + Pow256(3 - j) * rest && v < Pow256(3 - j)
    ensures BytesValue(r[..k + 1]) + Pow256(k + 1) * R == M
  {
    assert Pow256(4 - j) == 256 * Pow256(3 - j);
    assert Pow256(k + 1) == 256 * Pow256(k);
    ByteOut(BytesValue(r0[..k]), Pow256(k), v0, Pow256(3 - j), rest, M);
    BytesSnoc(r0[..k], v0 % 256);
    assert r0[k := v0 % 256][..k + 1] == r0[..k] + [v0 % 256];
    r := r0[k := v0 % 256];
    v := v0 / 256;
    R := R0 / 256;
  }

  /** The loop of fromBytes: the words of the grouped bytes stored into d0 from the start. */
  method GroupWords(bytes: seq<Byte>, n: nat, d0: seq<nat>) returns (d: seq<nat>)
    requires 1 <= n <= |bytes| && n / 4 + (if n % 4 != 0 then 1 else 0) <= |d0| && IsWords(d0)
    ensures |d| == |d0| && d[..n / 4 + (if n % 4 != 0 then 1 else 0)] == Group(Masked(bytes[..n]))
    ensures IsWords(d) && d[n / 4 + (if n % 4 != 0 then 1 else 0)..] == d0[n / 4 + (if n % 4 != 0 then 1 else 0)..]
  {
    var numWords := n / 4 + (if n % 4 != 0 then 1 else 0);
    assert numWords == (n + 3) / 4;
    MagGroup(Masked(bytes[..n]));
    d := d0;
    var i := 0;
    while i < numWords
      invariant 0 <= i <= numWords && |d| == |d0| && IsWords(d) && d[numWords..] == d0[numWords..]
      invariant forall t :: 0 <= t < i ==> d[t] == Group(Masked(bytes[..n]))[t]
    {
      var x := GroupWord(bytes, n, i);
      d := d[i := x];
      i := i + 1;
    }
  }

  /**
   * The inner loop of fromBytes: word i of the integer, built from its
   * up to four bytes, most significant first, with 128 taken off the
   * last byte of all.
   */
  method GroupWord(bytes: seq<Byte>, n: nat, i: nat) returns (x: nat)
    requires 1 <= n <= |bytes| && i < (n + 3) / 4
    ensures x == Group(Masked(bytes[..n]))[i]
  {
    ghost var c := Masked(bytes[..n]);
    GroupAt(c, i);
    ghost var e := GroupEnd(n, i);
    x := 0;
    var j := 3;
    while j >= 0
      invariant -1 <= j <= 3
      invariant x == BytesValue(c[(if 4 * i + j + 1 < n then 4 * i + j + 1 else n)..e])
    {
      if i * 4 + j < n {
        x := PrependByte(bytes, n, i, j, x);
      }
      j := j - 1;
    }
  }

  /** One byte of a word, taken below the bytes above it: x * 256 + b. */
  method PrependByte(bytes: seq<Byte>, n: nat, i: nat, j: nat, x: nat) returns (x': nat)
    requires 1 <= n <= |bytes| && j <= 3 && 4 * i + j < n
    requires x == BytesValue(Masked(bytes[..n])[4 * i + j + 1..GroupEnd(n, i)])
    ensures x' == BytesValue(Masked(bytes[..n])[4 * i + j..GroupEnd(n, i)])
  {
    var b := if i * 4 + j == n - 1 then bytes[i * 4 + j] % 128 else bytes[i * 4 + j];
    ghost var c, e := Masked(bytes[..n]), GroupEnd(n, i);
    MaskedAt(bytes, n, 4 * i + j);
    BytesCons(b, c[4 * i + j + 1..e]);
    ConsSlice(c, 4 * i + j, e);
    x' := x * 256 + b;
  }


  /** How a call as written ends: it exits, or leaves that many relevant words. */
  datatype Outcome = Exit | Relevant(words: int)

  /** c = the sum of the magnitudes aw and bw, negated when s is negative. */
  method SetSum(c: BigInteger, aw: seq<nat>, bw: seq<nat>, s: int)
    requires c.WellFormed() && IsWords(aw) && IsWords(bw) && (s < 0 ==> Mag(aw) + Mag(bw) != 0)
    modifies c
    ensures c.Valid() && c.Value() == if s < 0 then -(Mag(aw) + Mag(bw)) else Mag(aw) + Mag(bw)
  {
    var sum, carry := LimbAdd(aw, bw);
    MagSnoc(sum, carry);
    c.SetMagnitude(sum + [carry], s);
  }

  /**
   * c = the larger of the magnitudes aw and bw less the smaller, negated
   * when s is negative; ac is the sign of Mag(aw) - Mag(bw).
   */
  method SetDifference(c: BigInteger, aw: seq<nat>, bw: seq<nat>, s: int, ac: int)
    requires c.WellFormed() && IsWords(aw) && Normal(aw) && IsWords(bw) && Normal(bw)
    requires ac == Sgn(Mag(aw) - Mag(bw)) && ac != 0
    modifies c
    ensures c.Valid() && c.Value() == if s < 0 then -(Abs(Mag(aw) - Mag(bw)) as int) else Abs(Mag(aw) - Mag(bw))
  {
    var d;
    if ac > 0 {
      NormalLengthOrder(aw, bw);
      d := LimbSub(aw, bw);
    } else {
      NormalLengthOrder(bw, aw);
      d := LimbSub(bw, aw);
    }
    c.SetMagnitude(d, s);
  }

  lemma SameSignsSum(a: int, b: int, ma: nat, mb: nat)
    requires Abs(a) == ma && Abs(b) == mb && a != 0
    requires (a >= 0 && b >= 0) || (a < 0 && b < 0)
    ensures a < 0 ==> ma + mb != 0 && a + b == -(ma + mb)
    ensures a >= 0 ==> a + b == ma + mb
  {
  }

  /**
   * a + b for a and b of opposite signs and different magnitudes: the
   * difference of the magnitudes with the sign of the larger one.
   */
  lemma OppositeSignsSum(a: int, b: int, ma: nat, mb: nat)
    requires Abs(a) == ma && Abs(b) == mb && ma != mb
    requires (a > 0 && b < 0) || (a < 0 && b > 0)
    ensures ma > mb ==> (Sgn(a) * Sgn(ma - mb) < 0 <==> a < 0)
    ensures ma > mb ==> a + b == if a < 0 then -(ma - mb) else ma - mb
    ensures ma < mb ==> (Sgn(a) * Sgn(ma - mb) < 0 <==> a > 0)
    ensures ma < mb ==> a + b == if a > 0 then -(mb - ma) else mb - ma
  {
  }

  /** a * b from the magnitudes and the signs. */
  lemma SignedProduct(a: int, b: int, ma: nat, mb: nat)
    requires Abs(a) == ma && Abs(b) == mb
    ensures Sgn(a) * Sgn(b) < 0 ==> ma * mb != 0 && a * b == -(ma * mb)
    ensures Sgn(a) * Sgn(b) >= 0 ==> a * b == ma * mb
  {
    if a < 0 && b > 0 {
      assert a * b == -(ma * mb);
    } else if a > 0 && b < 0 {
      assert a * b == -(ma * mb);
    } else if a < 0 && b < 0 {
      assert a * b == ma * mb;
    }
  }

  /**
   * add(c, a, b) as written: when the signs differ and the magnitudes are
   * equal, the branch for a zero sum does nothing and c keeps its value.
   */
  function AddAsWritten(c: int, a: int, b: int): int
  {
    if b == 0 then a
    else if a == 0 then b
    else if (a >= 0 && b >= 0) || (a < 0 && b < 0) then a + b
    else if Abs(a) != Abs(b) then a + b
    else c
  }

  /** add(c, 5, -5) leaves c = 7 in place of 0. */
  lemma AddAsWrittenKeepsOutput()
    ensures AddAsWritten(7, 5, -5) == 7 != 5 + -5
  {
  }
}
