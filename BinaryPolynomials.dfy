/**
 * Polynomials over GF(2) (BinaryPolynomial.cpp). The source packs the
 * coefficients into 32-bit words `data` and keeps a `degree` field; the
 * coefficient of X^i is bit i % 32 of word i / 32. Here `data` is the
 * sequence of all bits of all allocated words (its length is a multiple of
 * 32), and the mathematical value of a polynomial is the finite set of
 * exponents whose coefficient is one.
 */
module BinaryPolynomials {

  // ---------------------------------------------------------------------
  // GF(2)[X] as finite sets of exponents

  /** Sum (and difference) of polynomials: symmetric difference of exponents. */
  ghost function Plus(a: set<nat>, b: set<nat>): set<nat>
  {
    (a - b) + (b - a)
  }

  /** Multiplication by X^e. */
  ghost function Shift(a: set<nat>, e: nat): set<nat>
  {
    set i | i in a :: i + e
  }

  /** Division by X^e, dropping the terms of degree below e. */
  ghost function Unshift(a: set<nat>, e: nat): set<nat>
  {
    set i | i in a && i >= e :: i - e
  }

  ghost function Max(a: set<nat>): (m: nat)
    requires a != {}
    ensures m in a && forall i :: i in a ==> i <= m
  {
    var x :| x in a;
    var rest := a - {x};
    assert forall i :: i in a ==> i == x || i in rest;
    if rest == {} then x
    else
      var y := Max(rest);
      if x > y then x else y
  }

  /** Degree, -1 for the zero polynomial. */
  ghost function Deg(a: set<nat>): int
  {
    if a == {} then -1 else Max(a)
  }

  lemma DegIsTop(a: set<nat>, d: int)
    requires (d == -1 && a == {}) || (d >= 0 && d in a && forall i :: i in a ==> i <= d)
    ensures Deg(a) == d
  {
  }

  /** Product: the shifted copies of b, one per term of a, added up. */
  ghost function Times(a: set<nat>, b: set<nat>): set<nat>
    decreases |a|
  {
    if a == {} then {}
    else
      var m := Max(a);
      Plus(Shift(b, m), Times(a - {m}, b))
  }

  lemma PlusAssocComm(a: set<nat>, b: set<nat>, c: set<nat>)
    ensures Plus(Plus(a, b), c) == Plus(a, Plus(b, c))
    ensures Plus(a, b) == Plus(b, a)
  {
  }

  /** Any term of a, not only the highest, can be split off the product. */
  lemma {:induction false} TimesSplit(a: set<nat>, b: set<nat>, i: nat)
    requires i in a
    ensures Times(a, b) == Plus(Shift(b, i), Times(a - {i}, b))
    decreases |a|
  {
    var m := Max(a);
    if i != m {
      var rest := a - {m};
      assert i in rest;
      TimesSplit(rest, b, i);
      assert rest - {i} == (a - {i}) - {m};
      assert Max(a - {i}) == m;
      PlusAssocComm(Shift(b, m), Shift(b, i), Times(rest - {i}, b));
      PlusAssocComm(Shift(b, i), Shift(b, m), Times(rest - {i}, b));
    }
  }

  /** Adding X^j (j not yet present) to a factor adds b * X^j to the product. */
  lemma TimesAddTerm(a: set<nat>, b: set<nat>, j: nat)
    requires j !in a
    ensures Times(a + {j}, b) == Plus(Times(a, b), Shift(b, j))
  {
    TimesSplit(a + {j}, b, j);
    assert (a + {j}) - {j} == a;
  }

  /** Every term of a product lies at or below the sum of the degrees. */
  lemma {:induction false} TimesBound(a: set<nat>, b: set<nat>)
    requires a != {} && b != {}
    ensures forall i :: i in Times(a, b) ==> i <= Max(a) + Max(b)
    decreases |a|
  {
    var m := Max(a);
    if a - {m} != {} {
      TimesBound(a - {m}, b);
    }
  }

  /** Over GF(2) the degree of a product of nonzero factors is the sum of the degrees. */
  lemma TimesDegree(a: set<nat>, b: set<nat>)
    requires a != {} && b != {}
    ensures Deg(Times(a, b)) == Deg(a) + Deg(b)
  {
    var m := Max(a);
    var top := m + Max(b);
    assert top in Shift(b, m);
    assert Times(a, b) == Plus(Shift(b, m), Times(a - {m}, b));
    if a - {m} != {} {
      TimesBound(a - {m}, b);
      assert Max(a - {m}) < m;
      assert top !in Times(a - {m}, b);
    }
    assert top in Times(a, b);
    TimesBound(a, b);
    DegIsTop(Times(a, b), top);
  }

  lemma UnshiftShift(a: set<nat>, e: nat)
    ensures Unshift(Shift(a, e), e) == a
  {
    assert forall i :: i in a ==> i + e in Shift(a, e);
  }

  /** Reversal of the coefficient order for an assumed degree d. */
  ghost function Reversed(a: set<nat>, d: nat): set<nat>
  {
    set i | i in a && i <= d :: d - i
  }

  /** The terms of a below X^j. */
  ghost function Below(a: set<nat>, j: int): set<nat>
  {
    set i | i in a && i < j
  }

  lemma ReverseTwice(a: set<nat>, d: nat)
    requires forall i :: i in a ==> i <= d
    ensures Reversed(Reversed(a, d), d) == a
  {
    assert forall i :: i in a ==> d - i in Reversed(a, d);
  }

  // ---------------------------------------------------------------------
  // Bits of the packed storage

  /** The exponents whose bit is set. */
  ghost function BitsOf(s: seq<bool>): set<nat>
  {
    set i: nat | i < |s| && s[i]
  }

  function Zeros(n: nat): seq<bool>
  {
    seq(n, _ => false)
  }

  /** Words needed for the coefficients 0..d (as in the source's size computations). */
  function Words(d: int): nat
  {
    if d < 0 then 0 else (d + 1) / 32 + (if (d + 1) % 32 != 0 then 1 else 0)
  }

  lemma WordsCover(d: int)
    ensures d < 32 * Words(d)
    ensures d >= 0 ==> 32 * Words(d) < d + 33
  {
  }

  function XorSeq(s: seq<bool>, t: seq<bool>): (r: seq<bool>)
    requires |s| == |t|
    ensures |r| == |s| && forall i :: 0 <= i < |r| ==> r[i] == (s[i] != t[i])
  {
    seq(|s|, i requires 0 <= i < |s| => s[i] != t[i])
  }

  /** The bitwise sum of s and t, both padded with zeros to n bits. */
  function PaddedXor(s: seq<bool>, t: seq<bool>, n: nat): (r: seq<bool>)
    requires |s| <= n && |t| <= n
    ensures |r| == n && BitsOf(r) == Plus(BitsOf(s), BitsOf(t))
  {
    BitsOfPadded(s, n - |s|);
    BitsOfPadded(t, n - |t|);
    BitsOfXor(s + Zeros(n - |s|), t + Zeros(n - |t|));
    XorSeq(s + Zeros(n - |s|), t + Zeros(n - |t|))
  }

  lemma BitsOfXor(s: seq<bool>, t: seq<bool>)
    requires |s| == |t|
    ensures BitsOf(XorSeq(s, t)) == Plus(BitsOf(s), BitsOf(t))
  {
  }

  lemma BitsOfShift(s: seq<bool>, e: nat)
    ensures BitsOf(Zeros(e) + s) == Shift(BitsOf(s), e)
  {
    var l := BitsOf(Zeros(e) + s);
    forall i | i in Shift(BitsOf(s), e)
      ensures i in l
    {
      var j :| j in BitsOf(s) && i == j + e;
      assert (Zeros(e) + s)[i] == s[j];
    }
    forall i | i in l
      ensures i in Shift(BitsOf(s), e)
    {
      assert i >= e;
      assert (Zeros(e) + s)[i] == s[i - e];
      var j: nat := i - e;
      assert j in BitsOf(s);
    }
  }

  lemma BitsOfUnshift(s: seq<bool>, e: nat)
    requires e <= |s|
    ensures BitsOf(s[e..] + Zeros(e)) == Unshift(BitsOf(s), e)
  {
    var l := BitsOf(s[e..] + Zeros(e));
    forall i | i in l
      ensures i in Unshift(BitsOf(s), e)
    {
      assert (s[e..] + Zeros(e))[i] == s[i + e];
      assert i + e in BitsOf(s);
    }
  }

  lemma BitsOfUpdate(s: seq<bool>, i: nat, c: bool)
    requires i < |s|
    ensures BitsOf(s[i := c]) == if c then BitsOf(s) + {i} else BitsOf(s) - {i}
  {
  }

  lemma BitsOfPadded(s: seq<bool>, n: nat)
    ensures BitsOf(s + Zeros(n)) == BitsOf(s)
  {
  }

  lemma BitsOfPrefix(s: seq<bool>, n: nat)
    requires n <= |s|
    requires forall i :: n <= i < |s| ==> !s[i]
    ensures BitsOf(s[..n]) == BitsOf(s)
  {
  }

  lemma BitsOfSnoc(s: seq<bool>, j: nat)
    requires j < |s|
    ensures BitsOf(s[..j + 1]) == BitsOf(s[..j]) + (if s[j] then {j} else {})
    ensures j !in BitsOf(s[..j])
  {
  }

  lemma WordsWithin(d: int, n: nat)
    requires d < n && n % 32 == 0
    ensures 32 * Words(d) <= n
  {
  }

  // ---------------------------------------------------------------------
  // Stored form: the bits of all allocated words and the degree field

  /**
   * The representation invariant the source relies on: a whole number of
   * words, at least one, the degree field names the leading coefficient
   * (-1 for zero) and every bit above it is clear.
   */
  ghost predicate Canonical(s: seq<bool>, d: int)
  {
    |s| >= 32 && |s| % 32 == 0 && -1 <= d < |s| && (d >= 0 ==> s[d]) &&
    forall i :: d < i < |s| ==> !s[i]
  }

  lemma CanonicalDegree(s: seq<bool>, d: int)
    requires Canonical(s, d)
    ensures Deg(BitsOf(s)) == d
    ensures forall i :: i in BitsOf(s) ==> i <= d
  {
    if d >= 0 {
      assert d in BitsOf(s);
    } else {
      assert BitsOf(s) == {};
    }
    DegIsTop(BitsOf(s), d);
  }

  lemma CanonicalFromDegree(s: seq<bool>, d: int)
    requires |s| >= 32 && |s| % 32 == 0 && -1 <= d < |s|
    requires Deg(BitsOf(s)) == d
    ensures Canonical(s, d)
  {
    if d >= 0 {
      assert d in BitsOf(s);
    }
    forall i | d < i < |s|
      ensures !s[i]
    {
      assert s[i] ==> i in BitsOf(s);
    }
  }

  /** Highest set bit below n, or -1: what the source's degree scan finds. */
  function DegreeScan(s: seq<bool>, n: nat): (r: int)
    requires n <= |s|
    ensures -1 <= r < n
    ensures r >= 0 ==> s[r]
    ensures forall i :: r < i < n ==> !s[i]
  {
    if n == 0 then -1
    else if s[n - 1] then n - 1
    else DegreeScan(s, n - 1)
  }

  /** Scanning every allocated word recovers the canonical degree. */
  lemma ScanCanonical(s: seq<bool>)
    requires |s| >= 32 && |s| % 32 == 0
    ensures Canonical(s, DegreeScan(s, |s|))
  {
  }

  datatype Stored = Stored(data: seq<bool>, degree: int)

  /** The source's setZero on a stored value: clears the words up to the degree. */
  function ZeroedAsWritten(f: Stored): Stored
    requires 0 <= 32 * Words(f.degree) <= |f.data|
  {
    var n := 32 * Words(f.degree);
    Stored(Zeros(n) + f.data[n..], -1)
  }

  /** The source's ensureDegree: grows the storage with cleared words. */
  function Grown(s: seq<bool>, d: int): (r: seq<bool>)
    ensures |r| >= |s| && |r| >= 32 * Words(d) && r[..|s|] == s
    ensures forall i :: |s| <= i < |r| ==> !r[i]
    ensures |s| % 32 == 0 ==> |r| % 32 == 0
  {
    if 32 * Words(d) > |s| then s + Zeros(32 * Words(d) - |s|) else s
  }

  /**
   * add(f, g, h) as written: when g and h are distinct, only the first
   * Words(d) words of f are overwritten with g XOR h (d the larger degree),
   * the degree field is set to d + 1 and the degree scan then reads
   * Words(d + 1) words of f, including any word of f above the result that
   * still holds f's old coefficients.
   */
  function AddAsWritten(f: Stored, g: Stored, h: Stored, same: bool): (r: Stored)
    requires Canonical(f.data, f.degree) && Canonical(g.data, g.degree) && Canonical(h.data, h.degree)
    requires 32 * Words(if g.degree > h.degree then g.degree else h.degree) <= |g.data|
    requires 32 * Words(if g.degree > h.degree then g.degree else h.degree) <= |h.data|
    ensures |r.data| >= |f.data|
  {
    if same then
      WordsWithin(f.degree, |f.data|);
      ZeroedAsWritten(f)
    else
      var d := if g.degree > h.degree then g.degree else h.degree;
      var w := 32 * Words(d);
      var fd := Grown(f.data, d + 1);
      var nd := XorSeq(g.data[..w], h.data[..w]) + fd[w..];
      Stored(nd, DegreeScan(nd, 32 * Words(d + 1)))
  }

  /**
   * With f = X^32, g = X^31 and h = 1 the sum should be X^31 + 1, but the
   * stale word of f survives: the result still has the coefficient of X^32.
   */
  lemma AddAsWrittenKeepsStaleWord()
    ensures var f := Stored(Zeros(32) + [true] + Zeros(31), 32);
            var g := Stored(Zeros(31) + [true], 31);
            var h := Stored([true] + Zeros(31), 0);
            var r := AddAsWritten(f, g, h, false);
            32 !in Plus(BitsOf(g.data), BitsOf(h.data)) &&
            r.degree == 32 && r.data[32]
  {
    var f := Stored(Zeros(32) + [true] + Zeros(31), 32);
    var g := Stored(Zeros(31) + [true], 31);
    var h := Stored([true] + Zeros(31), 0);
    assert Canonical(f.data, f.degree);
    assert Canonical(g.data, g.degree);
    assert Canonical(h.data, h.degree);
    var r := AddAsWritten(f, g, h, false);
    assert Grown(f.data, 32) == f.data;
    assert r.data[32] == f.data[32];
    assert forall i :: 32 < i < 64 ==> !r.data[i];
    assert r.degree >= 32;
    assert 32 !in BitsOf(g.data);
  }

  /** The source's word move of rightShift: word j receives word j + e1 for j < size - e1. */
  function WordMoveAsWritten(s: seq<bool>, size: nat, e1: nat): (r: seq<bool>)
    requires 32 * size <= |s|
    ensures |r| == |s|
  {
    seq(|s|, i requires 0 <= i < |s| =>
      var w := i / 32;
      if w < size - e1 then s[i + 32 * e1]
      else if e1 <= w < size then false
      else s[i])
  }

  /** The source's bit move of rightShift: the first size words shifted down by e0 bits. */
  function BitMove(s: seq<bool>, size: nat, e0: nat): (r: seq<bool>)
    requires e0 <= 32 * size <= |s|
    ensures |r| == |s|
  {
    s[e0..32 * size] + Zeros(e0) + s[32 * size..]
  }

  /**
   * rightShift(e) as written: the degree field is lowered by 32 * (e / 32)
   * only, and the word move leaves words between size - e1 and e1 untouched.
   */
  function RightShiftAsWritten(f: Stored, e: nat): Stored
    requires Canonical(f.data, f.degree)
  {
    WordsWithin(f.degree, |f.data|);
    if e > f.degree then ZeroedAsWritten(f)
    else if e == 0 then f
    else
      var e1 := e / 32;
      var e0 := e % 32;
      var s1 := if e1 != 0 then WordMoveAsWritten(f.data, Words(f.degree), e1) else f.data;
      var d1 := f.degree - 32 * e1;
      WordsWithin(d1, |s1|);
      var s2 := if e0 != 0 then BitMove(s1, Words(d1), e0) else s1;
      Stored(s2, d1)
  }

  /** X shifted right by one keeps degree 1 although its coefficient of X is now zero. */
  lemma RightShiftAsWrittenKeepsDegree()
    ensures var f := Stored([false, true] + Zeros(30), 1);
            var r := RightShiftAsWritten(f, 1);
            Canonical(f.data, f.degree) && r.degree == 1 && !r.data[1] && !Canonical(r.data, r.degree)
  {
    var f := Stored([false, true] + Zeros(30), 1);
    assert Canonical(f.data, f.degree);
    var r := RightShiftAsWritten(f, 1);
    assert r.data == BitMove(f.data, 1, 1);
    assert r.data[1] == f.data[2];
  }

  /** X^64 + X^32 shifted right by 64 keeps the coefficient of X^32 above the new degree 0. */
  lemma RightShiftAsWrittenKeepsStaleWord()
    ensures var f := Stored(Zeros(32) + [true] + Zeros(31) + [true] + Zeros(31), 64);
            var r := RightShiftAsWritten(f, 64);
            Canonical(f.data, f.degree) && r.degree == 0 && r.data[32] && !Canonical(r.data, r.degree)
  {
    var f := Stored(Zeros(32) + [true] + Zeros(31) + [true] + Zeros(31), 64);
    assert Canonical(f.data, f.degree);
    var r := RightShiftAsWritten(f, 64);
    assert r.data == WordMoveAsWritten(f.data, 3, 2);
    assert r.data[32] == f.data[32];
  }

  // ---------------------------------------------------------------------
  // The polynomial object

  class BinaryPolynomial {
    var data: seq<bool>
    var degree: int

    ghost predicate Valid()
      reads this
    {
      Canonical(data, degree)
    }

    /** The polynomial as a set of exponents. */
    ghost function Value(): set<nat>
      reads this
    {
      BitsOf(data)
    }

    /** Zero polynomial with room for the coefficients up to d (at least one word). */
    constructor (d: int)
      ensures Valid() && Value() == {} && degree == -1
      ensures |data| == 32 * (if d >= 0 then Words(d) else 1)
    {
      data := Zeros(32 * (if d >= 0 then Words(d) else 1));
      degree := -1;
    }

    /** Copy constructor: copies exactly the words holding f's coefficients. */
    constructor Copy(f: BinaryPolynomial)
      requires f.Valid()
      ensures Valid() && Value() == f.Value() && degree == f.degree
      ensures |data| == 32 * (if f.degree >= 0 then Words(f.degree) else 1)
    {
      var n := if f.degree >= 0 then Words(f.degree) else 1;
      WordsWithin(f.degree, |f.data|);
      data := f.data[..32 * n];
      degree := f.degree;
      BitsOfPrefix(f.data, 32 * n);
    }

    method SetZero()
      requires Valid()
      modifies this
      ensures Valid() && Value() == {} && degree == -1 && |data| == old(|data|)
    {
      var n := 32 * Words(degree);
      WordsWithin(degree, |data|);
      data := Zeros(n) + data[n..];
      degree := -1;
    }

    /** Grows the storage, with cleared words, to hold coefficients up to d. */
    method EnsureDegree(d: int)
      requires Valid()
      modifies this
      ensures Valid() && Value() == old(Value()) && degree == old(degree)
      ensures data == Grown(old(data), d)
    {
      BitsOfPadded(data, if 32 * Words(d) > |data| then 32 * Words(d) - |data| else 0);
      data := Grown(data, d);
    }

    method Assign(f: BinaryPolynomial)
      requires Valid() && f.Valid()
      modifies this
      ensures Valid() && Value() == old(f.Value()) && degree == old(f.degree)
    {
      if this != f {
        SetZero();
        if f.degree >= 0 {
          var n := 32 * Words(f.degree);
          EnsureDegree(f.degree);
          WordsWithin(f.degree, |f.data|);
          data := f.data[..n] + data[n..];
          degree := f.degree;
          assert forall i :: n <= i < |data| ==> !data[i];
          assert forall i :: 0 <= i < n ==> data[i] == f.data[i];
          BitsOfPrefix(f.data, n);
          BitsOfPrefix(data, n);
          assert data[..n] == f.data[..n];
        }
      }
    }

    /** Coefficient of X^i; zero above the degree. */
    function GetCoeff(i: int): (c: bool)
      reads this
      requires Valid() && i >= 0
      ensures c <==> i in Value()
    {
      if i > degree then false else data[i]
    }

    method SetCoeff(i: int)
      requires Valid() && i >= 0
      modifies this
      ensures Valid() && Value() == old(Value()) + {i}
      ensures degree == if i > old(degree) then i else old(degree)
    {
      if i > degree {
        EnsureDegree(i);
        WordsCover(i);
        degree := i;
      }
      BitsOfUpdate(data, i, true);
      data := data[i := true];
    }

    /** Recomputes the degree by scanning the words that hold coefficients up to the old degree. */
    method DegreeCouldBeSmaller()
      requires |data| >= 32 && |data| % 32 == 0 && -1 <= degree < |data|
      modifies this
      ensures data == old(data)
      ensures 32 * Words(old(degree)) <= |data|
      ensures degree == DegreeScan(data, 32 * Words(old(degree)))
    {
      var n := 32 * Words(degree);
      WordsWithin(degree, |data|);
      var i := n;
      while i > 0 && !data[i - 1]
        invariant 0 <= i <= n
        invariant DegreeScan(data, n) == DegreeScan(data, i)
      {
        i := i - 1;
      }
      degree := i - 1;
    }

    method ClearCoeff(i: int)
      requires Valid() && i >= 0
      modifies this
      ensures Valid() && Value() == old(Value()) - {i}
      ensures degree == Deg(Value())
    {
      if i > degree {
        assert i !in Value();
        CanonicalDegree(data, degree);
        return;
      }
      BitsOfUpdate(data, i, false);
      data := data[i := false];
      if i == degree {
        WordsCover(degree);
        DegreeCouldBeSmaller();
        assert Canonical(data, degree);
      }
      CanonicalDegree(data, degree);
    }

    /** Sets or clears the coefficient of X^i. */
    method SetCoeffTo(i: int, c: bool)
      requires Valid() && i >= 0
      modifies this
      ensures Valid() && Value() == if c then old(Value()) + {i} else old(Value()) - {i}
    {
      if c {
        SetCoeff(i);
      } else {
        ClearCoeff(i);
      }
    }

    /** Multiplication by X^e; a negative e is an error. */
    method LeftShift(e: int)
      requires Valid() && e >= 0
      modifies this
      ensures Valid() && Value() == Shift(old(Value()), e)
      ensures degree == if old(degree) < 0 then -1 else old(degree) + e
    {
      if e > 0 && degree >= 0 {
        EnsureDegree(degree + e + 32);
        WordsCover(degree + e + 32);
        var n := |data| - e;
        BitsOfPrefix(data, n);
        BitsOfShift(data[..n], e);
        data := Zeros(e) + data[..n];
        degree := degree + e;
      } else if e == 0 {
        assert Shift(Value(), 0) == Value();
      } else {
        assert Value() == {} by { CanonicalDegree(data, degree); }
      }
    }

    /** Division by X^e, dropping the terms below X^e; a negative e is an error. */
    method RightShift(e: int)
      requires Valid() && e >= 0
      modifies this
      ensures Valid() && Value() == Unshift(old(Value()), e)
      ensures degree == if e > old(degree) then -1 else old(degree) - e
    {
      CanonicalDegree(data, degree);
      if e > degree {
        assert Unshift(Value(), e) == {};
        SetZero();
      } else {
        BitsOfUnshift(data, e);
        data := data[e..] + Zeros(e);
        degree := degree - e;
      }
    }

    /**
     * The reversal of the coefficients for an assumed degree d: coefficient
     * j moves to d - j. d must be non-negative and at least the degree.
     */
    method Reverse(d: int) returns (h: BinaryPolynomial)
      requires Valid() && 0 <= d && degree <= d
      ensures fresh(h) && h.Valid() && h.Value() == Reversed(Value(), d)
    {
      CanonicalDegree(data, degree);
      h := new BinaryPolynomial(d);
      var j := 0;
      while j <= degree
        invariant 0 <= j <= degree + 1 || (degree < 0 && j == 0)
        invariant h.Valid() && fresh(h)
        invariant h.Value() == Reversed(Below(Value(), j), d)
      {
        var c := GetCoeff(j);
        ghost var before := Below(Value(), j);
        h.SetCoeffTo(d - j, c);
        assert Below(Value(), j + 1) == before + (if c then {j} else {});
        assert d - j !in Reversed(before, d);
        j := j + 1;
      }
      assert Below(Value(), j) == Value();
    }
  }

  /** f := g + h, coefficient by coefficient; add(f, g, g) gives zero. */
  method Add(f: BinaryPolynomial, g: BinaryPolynomial, h: BinaryPolynomial)
    requires f.Valid() && g.Valid() && h.Valid()
    modifies f
    ensures f.Valid() && f.Value() == Plus(old(g.Value()), old(h.Value()))
  {
    if g == h {
      f.SetZero();
      return;
    }
    var gd := g.data;
    var hd := h.data;
    var n := |f.data|;
    if |gd| > n { n := |gd|; }
    if |hd| > n { n := |hd|; }
    f.data := PaddedXor(gd, hd, n);
    f.degree := n - 1;
    f.DegreeCouldBeSmaller();
    ScanCanonical(f.data);
  }

  /**
   * Schoolbook product of the stored bits gd (degree gdeg) and hd (degree
   * hdeg) into l bits: one shifted copy of h per set coefficient of g. The
   * source does the same word by word with a carry-less 32-bit multiply.
   */
  method PlainMul(gd: seq<bool>, gdeg: int, hd: seq<bool>, hdeg: int, l: nat) returns (acc: seq<bool>)
    requires Canonical(gd, gdeg) && Canonical(hd, hdeg) && gdeg >= 0 && hdeg >= 0
    requires gdeg + hdeg < l
    ensures |acc| == l && BitsOf(acc) == Times(BitsOf(gd), BitsOf(hd))
  {
    var hv := hd[..hdeg + 1];
    BitsOfPrefix(hd, hdeg + 1);
    acc := Zeros(l);
    MulStart(gd, hd, l);
    var j := 0;
    while j <= gdeg
      invariant 0 <= j <= gdeg + 1
      invariant |acc| == l
      invariant BitsOf(acc) == Times(BitsOf(gd[..j]), BitsOf(hd))
    {
      acc := AddRow(acc, gd, hd, hv, j);
      j := j + 1;
    }
    BitsOfPrefix(gd, gdeg + 1);
  }

  /** Round j of the schoolbook product: h shifted by j is added when coefficient j of g is set. */
  method AddRow(acc: seq<bool>, gd: seq<bool>, hd: seq<bool>, hv: seq<bool>, j: nat) returns (acc': seq<bool>)
    requires j < |gd| && j + |hv| <= |acc| && BitsOf(hv) == BitsOf(hd)
    requires BitsOf(acc) == Times(BitsOf(gd[..j]), BitsOf(hd))
    ensures |acc'| == |acc| && BitsOf(acc') == Times(BitsOf(gd[..j + 1]), BitsOf(hd))
  {
    if gd[j] {
      var row := Zeros(j) + hv + Zeros(|acc| - j - |hv|);
      MulStep(acc, row, hv, gd, hd, j);
      acc' := XorSeq(acc, row);
    } else {
      BitsOfSnoc(gd, j);
      assert BitsOf(gd[..j + 1]) == BitsOf(gd[..j]);
      acc' := acc;
    }
  }

  lemma MulStart(gd: seq<bool>, hd: seq<bool>, l: nat)
    ensures BitsOf(Zeros(l)) == {} == Times(BitsOf(gd[..0]), BitsOf(hd))
  {
    assert BitsOf(gd[..0]) == {};
  }

  lemma MulStep(acc: seq<bool>, row: seq<bool>, hv: seq<bool>, gd: seq<bool>, hd: seq<bool>, j: nat)
    requires j < |gd| && gd[j] && |acc| == |row| && j + |hv| <= |row| && BitsOf(hv) == BitsOf(hd)
    requires BitsOf(acc) == Times(BitsOf(gd[..j]), BitsOf(hd))
    requires row == Zeros(j) + hv + Zeros(|row| - j - |hv|)
    ensures BitsOf(XorSeq(acc, row)) == Times(BitsOf(gd[..j + 1]), BitsOf(hd))
  {
    BitsOfSnoc(gd, j);
    BitsOfPadded(Zeros(j) + hv, |row| - j - |hv|);
    BitsOfShift(hv, j);
    BitsOfXor(acc, row);
    TimesAddTerm(BitsOf(gd[..j]), BitsOf(hd), j);
  }

  /** f := g * h; f may be g or h. Nonzero factors give degree deg g + deg h. */
  method Mul(f: BinaryPolynomial, g: BinaryPolynomial, h: BinaryPolynomial)
    requires f.Valid() && g.Valid() && h.Valid()
    modifies f
    ensures f.Valid() && f.Value() == Times(old(g.Value()), old(h.Value()))
    ensures old(g.degree) >= 0 && old(h.degree) >= 0 ==> f.degree == old(g.degree) + old(h.degree)
    ensures old(g.degree) < 0 || old(h.degree) < 0 ==> f.degree == -1
  {
    var gd, gdeg, hd, hdeg := g.data, g.degree, h.data, h.degree;
    f.SetZero();
    if gdeg >= 0 && hdeg >= 0 {
      var m, n := Words(gdeg), Words(hdeg);
      f.EnsureDegree(32 * (m + n + 1));
      WordsCover(gdeg);
      WordsCover(hdeg);
      WordsCover(32 * (m + n + 1));
      var acc := Product(gd, gdeg, hd, hdeg, |f.data|);
      f.data := acc;
      f.degree := gdeg + hdeg;
    } else {
      ProductWithZero(gd, gdeg, hd, hdeg);
    }
  }

  /** The product of nonzero g and h into l bits, l a whole number of words beyond deg g + deg h. */
  method Product(gd: seq<bool>, gdeg: int, hd: seq<bool>, hdeg: int, l: nat) returns (acc: seq<bool>)
    requires Canonical(gd, gdeg) && Canonical(hd, hdeg) && gdeg >= 0 && hdeg >= 0
    requires l % 32 == 0 && gdeg + hdeg < l
    ensures Canonical(acc, gdeg + hdeg) && BitsOf(acc) == Times(BitsOf(gd), BitsOf(hd)) && |acc| == l
  {
    CanonicalDegree(gd, gdeg);
    CanonicalDegree(hd, hdeg);
    acc := PlainMul(gd, gdeg, hd, hdeg, l);
    TimesDegree(BitsOf(gd), BitsOf(hd));
    CanonicalFromDegree(acc, gdeg + hdeg);
  }

  /** A zero factor gives the zero product. */
  lemma ProductWithZero(gd: seq<bool>, gdeg: int, hd: seq<bool>, hdeg: int)
    requires Canonical(gd, gdeg) && Canonical(hd, hdeg) && (gdeg < 0 || hdeg < 0)
    ensures Times(BitsOf(gd), BitsOf(hd)) == {}
  {
    CanonicalDegree(gd, gdeg);
    CanonicalDegree(hd, hdeg);
    assert BitsOf(gd) == {} || BitsOf(hd) == {};
    if BitsOf(hd) == {} {
      TimesByZero(BitsOf(gd));
    }
  }

  lemma {:induction false} TimesByZero(a: set<nat>)
    ensures Times(a, {}) == {}
    decreases |a|
  {
    if a != {} {
      TimesByZero(a - {Max(a)});
    }
  }

  lemma SubtractAlgebra(av: set<nat>, q0: set<nat>, r0: set<nat>, bv: set<nat>, j: nat)
    requires av == Plus(Times(q0, bv), r0) && j !in q0
    ensures av == Plus(Times(q0 + {j}, bv), Plus(r0, Shift(bv, j)))
  {
    var s := Shift(bv, j);
    TimesAddTerm(q0, bv, j);
    PlusAssocComm(Times(q0, bv), s, Plus(r0, s));
    PlusAssocComm(s, r0, s);
    assert Plus(s, Plus(s, r0)) == r0;
  }

  /** One step of the division: the leading term X^(m+j) of r is removed by subtracting c * X^j. */
  method SubtractShifted(q: BinaryPolynomial, r: BinaryPolynomial, c: BinaryPolynomial, tmp: BinaryPolynomial,
                         j: int, ghost av: set<nat>, ghost bv: set<nat>)
    requires q != r && q != c && q != tmp && r != c && r != tmp && c != tmp
    requires q.Valid() && r.Valid() && c.Valid() && tmp.Valid()
    requires c.Value() == bv && c.degree >= 0 && j >= 0 && r.degree == c.degree + j
    requires av == Plus(Times(q.Value(), bv), r.Value())
    requires forall i :: i in q.Value() ==> i > j
    modifies q, r, tmp
    ensures q.Valid() && r.Valid() && tmp.Valid()
    ensures av == Plus(Times(q.Value(), bv), r.Value())
    ensures r.degree < c.degree + j
    ensures forall i :: i in q.Value() ==> i >= j
  {
    ghost var q0, r0 := q.Value(), r.Value();
    CanonicalTop(r.data, r.degree);
    q.SetCoeff(j);
    ShiftedCopy(tmp, c, j);
    CanonicalTop(tmp.data, tmp.degree);
    Add(r, r, tmp);
    SubtractAlgebra(av, q0, r0, bv, j);
    SumBelowTop(r0, tmp.Value(), c.degree + j, r.data, r.degree);
  }

  /** tmp := c * X^j. */
  method ShiftedCopy(tmp: BinaryPolynomial, c: BinaryPolynomial, j: int)
    requires tmp != c && tmp.Valid() && c.Valid() && c.degree >= 0 && j >= 0
    modifies tmp
    ensures tmp.Valid() && tmp.Value() == Shift(c.Value(), j) && tmp.degree == c.degree + j
  {
    tmp.Assign(c);
    tmp.LeftShift(j);
  }

  /** The degree of a nonzero stored polynomial is its top exponent. */
  lemma CanonicalTop(s: seq<bool>, d: int)
    requires Canonical(s, d) && d >= 0
    ensures d in BitsOf(s) && forall i :: i in BitsOf(s) ==> i <= d
  {
  }

  /** Two polynomials with the same top exponent t sum to one of degree below t. */
  lemma SumBelowTop(x: set<nat>, y: set<nat>, t: nat, s: seq<bool>, d: int)
    requires t in x && t in y
    requires forall i :: i in x ==> i <= t
    requires forall i :: i in y ==> i <= t
    requires Canonical(s, d) && BitsOf(s) == Plus(x, y)
    ensures d < t
  {
    PlusDropsTop(x, y, t);
    if d >= 0 {
      CanonicalTop(s, d);
    }
  }

  lemma PlusDropsTop(x: set<nat>, y: set<nat>, t: nat)
    requires t in x && t in y
    requires forall i :: i in x ==> i <= t
    requires forall i :: i in y ==> i <= t
    ensures forall i :: i in Plus(x, y) ==> i < t
  {
  }

  /**
   * Schoolbook division: a = q * b + r over GF(2) with deg r < deg b. A
   * zero divisor and q and r being the same object are errors; a and b may
   * be q or r.
   */
  method DivRem(q: BinaryPolynomial, r: BinaryPolynomial, a: BinaryPolynomial, b: BinaryPolynomial)
    requires q != r
    requires q.Valid() && r.Valid() && a.Valid() && b.Valid()
    requires b.degree >= 0
    modifies q, r
    ensures q.Valid() && r.Valid()
    ensures old(a.Value()) == Plus(Times(q.Value(), old(b.Value())), r.Value())
    ensures Deg(r.Value()) < old(b.degree)
  {
    ghost var av := a.Value();
    var c := new BinaryPolynomial.Copy(b);
    var tmp := new BinaryPolynomial(0);
    ghost var bv := c.Value();
    var n := a.degree;
    var m := c.degree;
    CanonicalDegree(c.data, c.degree);
    r.Assign(a);
    q.SetZero();
    assert Times({}, bv) == {};
    var j := n - m;
    while j >= 0
      invariant q.Valid() && r.Valid() && c.Valid() && tmp.Valid()
      invariant c.Value() == bv && c.degree == m
      invariant av == Plus(Times(q.Value(), bv), r.Value())
      invariant r.degree <= m + j
      invariant forall i :: i in q.Value() ==> i > j
      invariant fresh(c) && fresh(tmp)
      decreases j
    {
      if r.degree == m + j {
        SubtractShifted(q, r, c, tmp, j, av, bv);
      }
      j := j - 1;
    }
    CanonicalDegree(r.data, r.degree);
    WordsCover(r.degree);
    r.DegreeCouldBeSmaller();
  }
}
