/**
 * Polynomials over a small binary field GF(2^k)
 * (SmallBinaryFieldPolynomial.cpp). The source keeps a coefficient array
 * with a capacity and a degree field; entries above the degree are not
 * part of the polynomial. The field itself is given by its multiplication
 * and inversion (the source's lookup tables); its addition is the XOR of
 * the element representations.
 */
module SmallBinaryFieldPolynomials {
  import opened MathTools

  // ---------------------------------------------------------------------
  // The coefficient field

  /** Multiplication and inversion of the field; addition is Xor. */
  datatype Field = Field(mul: (nat, nat) -> nat, inv: nat -> nat)

  /**
   * Instantiation handles for the field laws below: each law is used only
   * where a proof names it through the lemmas that follow, which keeps the
   * commutative and associative laws from rewriting each other forever.
   */
  ghost predicate Two(a: nat, b: nat) { true }
  ghost predicate Three(a: nat, b: nat, c: nat) { true }
  ghost predicate Spread(a: nat, b: nat, c: nat) { true }

  /** The field laws the polynomial arithmetic relies on. */
  ghost predicate IsField(F: Field)
  {
    (forall a, b {:trigger Two(a, b)} :: F.mul(a, b) == F.mul(b, a)) &&
    (forall a, b, c {:trigger Three(a, b, c)} :: F.mul(F.mul(a, b), c) == F.mul(a, F.mul(b, c))) &&
    (forall a :: F.mul(a, 1) == a) &&
    (forall a :: F.mul(a, 0) == 0) &&
    (forall a, b, c {:trigger Spread(a, b, c)} :: F.mul(a, Xor(b, c)) == Xor(F.mul(a, b), F.mul(a, c))) &&
    (forall a, b :: F.mul(a, b) == 0 ==> a == 0 || b == 0) &&
    (forall a :: a != 0 ==> F.mul(a, F.inv(a)) == 1)
  }

  lemma MulComm(F: Field, a: nat, b: nat)
    requires IsField(F)
    ensures F.mul(a, b) == F.mul(b, a)
  {
    assert Two(a, b);
  }

  lemma MulAssoc(F: Field, a: nat, b: nat, c: nat)
    requires IsField(F)
    ensures F.mul(F.mul(a, b), c) == F.mul(a, F.mul(b, c))
  {
    assert Three(a, b, c);
  }

  lemma MulDistrib(F: Field, a: nat, b: nat, c: nat)
    requires IsField(F)
    ensures F.mul(a, Xor(b, c)) == Xor(F.mul(a, b), F.mul(a, c))
  {
    assert Spread(a, b, c);
  }

  // ---------------------------------------------------------------------
  // Coefficient lists

  /** Coefficient of X^i of the list s, zero outside it. */
  function Coeff(s: seq<nat>, i: int): nat
  {
    if 0 <= i < |s| then s[i] else 0
  }

  /** No zero leading coefficient: the list is the polynomial's exact coefficient list. */
  ghost predicate Normalized(s: seq<nat>)
  {
    |s| == 0 || s[|s| - 1] != 0
  }

  /** Drops zero leading coefficients. */
  function Trim(s: seq<nat>): (r: seq<nat>)
    ensures Normalized(r) && |r| <= |s| && r == s[..|r|]
    ensures forall k :: |r| <= k < |s| ==> s[k] == 0
  {
    if |s| == 0 || s[|s| - 1] != 0 then s else Trim(s[..|s| - 1])
  }

  /** Trimming does not change any coefficient. */
  lemma TrimCoeff(s: seq<nat>)
    ensures forall k :: Coeff(Trim(s), k) == Coeff(s, k)
  {
  }

  /** A normalized list is determined by its coefficients. */
  lemma NormalizedUnique(s: seq<nat>, t: seq<nat>)
    requires Normalized(s) && Normalized(t)
    requires forall k :: Coeff(s, k) == Coeff(t, k)
    ensures s == t
  {
    if |t| > 0 {
      assert Coeff(s, |t| - 1) == Coeff(t, |t| - 1);
    }
    if |s| > 0 {
      assert Coeff(s, |s| - 1) == Coeff(t, |s| - 1);
    }
    forall k | 0 <= k < |s|
      ensures k < |t| && s[k] == t[k]
    {
      assert Coeff(s, k) == Coeff(t, k);
    }
  }

  function Zeros(n: nat): (r: seq<nat>)
    ensures |r| == n && forall i :: 0 <= i < n ==> r[i] == 0
  {
    seq(n, _ => 0)
  }

  /** Horner's rule from the leading coefficient down, as eval runs it. */
  function Horner(F: Field, c: seq<nat>, x: nat): nat
  {
    if |c| == 0 then 0
    else if |c| == 1 then c[0]
    else Xor(F.mul(Horner(F, c[1..], x), x), c[0])
  }

  function Power(F: Field, x: nat, k: nat): nat
  {
    if k == 0 then 1 else F.mul(x, Power(F, x, k - 1))
  }

  /** The sum of c[i] * x^(i + k): the polynomial's value by its definition. */
  function PowerSum(F: Field, c: seq<nat>, x: nat, k: nat): nat
  {
    if |c| == 0 then 0 else Xor(F.mul(c[0], Power(F, x, k)), PowerSum(F, c[1..], x, k + 1))
  }

  lemma {:induction false} HornerScaled(F: Field, c: seq<nat>, x: nat, k: nat)
    requires IsField(F)
    ensures F.mul(Horner(F, c, x), Power(F, x, k)) == PowerSum(F, c, x, k)
    decreases |c|
  {
    if |c| == 0 {
      MulComm(F, 0, Power(F, x, k));
    } else if |c| == 1 {
      XorZero(F.mul(c[0], Power(F, x, k)));
    } else {
      var h := Horner(F, c[1..], x);
      var p := Power(F, x, k);
      HornerScaled(F, c[1..], x, k + 1);
      calc {
        F.mul(Horner(F, c, x), p);
        F.mul(Xor(F.mul(h, x), c[0]), p);
        { MulComm(F, Xor(F.mul(h, x), c[0]), p); }
        F.mul(p, Xor(F.mul(h, x), c[0]));
        { MulDistrib(F, p, F.mul(h, x), c[0]); }
        Xor(F.mul(p, F.mul(h, x)), F.mul(p, c[0]));
        { MulComm(F, p, F.mul(h, x)); MulComm(F, p, c[0]); MulAssoc(F, h, x, p); }
        Xor(F.mul(h, F.mul(x, p)), F.mul(c[0], p));
        { XorComm(F.mul(h, F.mul(x, p)), F.mul(c[0], p)); }
        Xor(F.mul(c[0], p), F.mul(h, Power(F, x, k + 1)));
      }
    }
  }

  /** Horner's rule computes the polynomial's value. */
  lemma HornerIsPowerSum(F: Field, c: seq<nat>, x: nat)
    requires IsField(F)
    ensures Horner(F, c, x) == PowerSum(F, c, x, 0)
  {
    HornerScaled(F, c, x, 0);
  }

  /**
   * g * X^n for n >= 0 and the quotient of g by X^-n for n < 0, on
   * normalized lists.
   */
  function MulXPower(s: seq<nat>, n: int): seq<nat>
  {
    if n >= 0 then (if |s| == 0 then [] else Zeros(n) + s)
    else if -n >= |s| then [] else s[-n..]
  }

  lemma MulXPowerCoeff(s: seq<nat>, n: int)
    ensures forall k :: k >= 0 ==> Coeff(MulXPower(s, n), k) == Coeff(s, k - n)
    ensures Normalized(s) ==> Normalized(MulXPower(s, n))
  {
  }

  /** Dividing by X^n undoes multiplying by X^n. */
  lemma ShiftRoundTrip(s: seq<nat>, n: nat)
    ensures MulXPower(MulXPower(s, n), -(n as int)) == s
  {
    if |s| > 0 {
      assert (Zeros(n) + s)[n..] == s;
    }
  }

  // ---------------------------------------------------------------------
  // Shifts as written

  /** leftShift as written: a negative n is handed to rightShift with -n. */
  function LeftShiftAsWritten(s: seq<nat>, n: int): seq<nat>
    decreases if n < 0 then 2 else 0
  {
    if n < 0 then RightShiftAsWritten(s, -n)
    else MulXPower(s, n)
  }

  /** rightShift as written: a negative n is handed to leftShift with n itself, still negative. */
  function RightShiftAsWritten(s: seq<nat>, n: int): seq<nat>
    decreases if n < 0 then 3 else 1
  {
    if n < 0 then LeftShiftAsWritten(s, n)
    else MulXPower(s, -n)
  }

  /**
   * A right shift by -1 of the polynomial 1 should give X, but the
   * delegation goes back to a right shift by 1 and gives zero.
   */
  lemma RightShiftNegativeAsWritten()
    ensures RightShiftAsWritten([1], -1) == []
    ensures MulXPower([1], 1) == [0, 1]
  {
    assert Zeros(1) + [1] == [0, 1];
  }

  // ---------------------------------------------------------------------
  // The polynomial object

  class SmallBinaryFieldPolynomial {
    var coefficients: seq<nat>
    var degree: int

    ghost predicate Sized()
      reads this
    {
      -1 <= degree < |coefficients|
    }

    ghost predicate Valid()
      reads this
    {
      Sized() && (degree >= 0 ==> coefficients[degree] != 0)
    }

    /** The coefficient list up to the degree. */
    ghost function Value(): seq<nat>
      reads this
      requires Sized()
    {
      coefficients[..degree + 1]
    }

    /** The zero polynomial without storage. */
    constructor ()
      ensures Valid() && Value() == [] && coefficients == []
    {
      coefficients := [];
      degree := -1;
    }

    /** Lowers the degree past zero leading coefficients. */
    method Normalize()
      requires Sized()
      modifies this
      ensures Valid() && coefficients == old(coefficients)
      ensures Value() == Trim(old(Value()))
    {
      ghost var v := Value();
      while degree >= 0 && coefficients[degree] == 0
        invariant Sized() && coefficients == old(coefficients)
        invariant Trim(Value()) == Trim(v)
      {
        assert Value()[..degree] == coefficients[..degree];
        degree := degree - 1;
      }
    }

    /** The polynomial with coefficient list V, in storage grown as needed. */
    method Store(V: seq<nat>)
      requires Sized() && Normalized(V)
      modifies this
      ensures Valid() && Value() == V
    {
      EnsureCapacity(|V|);
      coefficients := V + coefficients[|V|..];
      degree := |V| - 1;
      assert Value() == V;
    }

    /** Grows the storage to n entries; new entries are zero. */
    method EnsureCapacity(n: int)
      requires Sized()
      modifies this
      ensures Sized() && degree == old(degree) && Value() == old(Value())
      ensures |coefficients| >= n && |coefficients| >= old(|coefficients|)
      ensures coefficients[..old(|coefficients|)] == old(coefficients)
      ensures Valid() == old(Valid())
    {
      if n > |coefficients| {
        coefficients := coefficients + Zeros(n - |coefficients|);
      }
    }

    /** Coefficient of X^i; zero outside 0..degree. */
    function GetCoeff(i: int): (c: nat)
      reads this
      requires Sized()
      ensures c == Coeff(Value(), i)
    {
      if i < 0 || i > degree then 0 else coefficients[i]
    }

    method SetZero()
      requires Sized()
      modifies this
      ensures Valid() && Value() == []
    {
      EnsureCapacity(1);
      coefficients := coefficients[0 := 0];
      degree := -1;
    }

    method SetOne()
      requires Sized()
      modifies this
      ensures Valid() && Value() == [1]
    {
      EnsureCapacity(1);
      coefficients := coefficients[0 := 1];
      degree := 0;
    }

    method SetX()
      requires Sized()
      modifies this
      ensures Valid() && Value() == [0, 1]
    {
      EnsureCapacity(2);
      coefficients := coefficients[0 := 0][1 := 1];
      degree := 1;
    }

    method Assign(f: SmallBinaryFieldPolynomial)
      requires Valid() && f.Valid()
      modifies this
      ensures Valid() && Value() == old(f.Value())
    {
      if this == f {
        return;
      }
      if f.degree < 0 {
        SetZero();
        return;
      }
      EnsureCapacity(f.degree + 1);
      coefficients := f.coefficients[..f.degree + 1] + coefficients[f.degree + 1..];
      degree := f.degree;
      assert Value() == f.coefficients[..f.degree + 1];
    }

    /**
     * Sets the coefficient of X^i to c; a negative i is an error. Only
     * that coefficient changes, and the degree is renormalized.
     */
    method SetCoeff(i: int, c: nat)
      requires Valid() && i >= 0
      modifies this
      ensures Valid()
      ensures forall k :: Coeff(Value(), k) == if k == i then c else Coeff(old(Value()), k)
    {
      var d := degree;
      if d < i {
        EnsureCapacity(i + 1);
        coefficients := coefficients[..d + 1] + Zeros(i - d - 1) + coefficients[i..];
        degree := i;
      }
      coefficients := coefficients[i := c];
      if d <= i {
        ghost var before := Value();
        Normalize();
        TrimCoeff(before);
      }
    }

    /** The polynomial's value at x by Horner's rule; zero for the zero polynomial. */
    method Eval(F: Field, x: nat) returns (y: nat)
      requires Sized()
      ensures y == Horner(F, Value(), x)
    {
      var cs, d := coefficients, degree;
      if d < 0 {
        return 0;
      }
      y := cs[d];
      var i := d - 1;
      while i >= 0
        invariant -1 <= i < d
        invariant y == Horner(F, cs[i + 1..d + 1], x)
      {
        ghost var c := cs[i..d + 1];
        assert c[1..] == cs[i + 1..d + 1] && c[0] == cs[i] && |c| >= 2;
        y := Xor(F.mul(y, x), cs[i]);
        i := i - 1;
      }
      assert cs[0..d + 1] == cs[..d + 1];
    }

    /** Exchanges the contents of two polynomials. */
    method Swap(other: SmallBinaryFieldPolynomial)
      modifies this, other
      ensures coefficients == old(other.coefficients) && degree == old(other.degree)
      ensures other.coefficients == old(coefficients) && other.degree == old(degree)
    {
      var c, d := coefficients, degree;
      coefficients, degree := other.coefficients, other.degree;
      other.coefficients, other.degree := c, d;
    }

    /** Replaces the polynomial by the product of the linear factors X - a[i], i < n. */
    method BuildFromRoots(F: Field, a: seq<nat>, n: int)
      requires Valid() && n <= |a|
      modifies this
      ensures Valid() && Value() == FromRoots(F, a[..if n < 0 then 0 else n])
    {
      var tmp := new SmallBinaryFieldPolynomial();
      tmp.EnsureCapacity(n + 1);
      EnsureCapacity(n + 1);
      SetOne();
      var x := new SmallBinaryFieldPolynomial();
      x.SetX();
      var i := 0;
      ghost var m := if n < 0 then 0 else n;
      while i < n
        invariant 0 <= i <= m
        invariant Valid() && tmp.Valid() && x.Valid() && x.degree == 1 && x.coefficients[1] == 1
        invariant this != tmp && this != x && tmp != x
        invariant Value() == FromRoots(F, a[..i])
      {
        MulByRoot(F, tmp, x, a[..i], a[i]);
        assert a[..i] + [a[i]] == a[..i + 1];
        i := i + 1;
      }
      assert i == m;
    }

    /** One factor of fromRoots: the polynomial is multiplied by X + r, through tmp. */
    method MulByRoot(F: Field, tmp: SmallBinaryFieldPolynomial, x: SmallBinaryFieldPolynomial, s: seq<nat>, r: nat)
      requires this != tmp && this != x && tmp != x
      requires Valid() && tmp.Valid() && x.Valid() && x.degree == 1 && x.coefficients[1] == 1
      requires Value() == FromRoots(F, s)
      modifies this, tmp, x
      ensures Valid() && tmp.Valid() && x.Valid() && x.degree == 1 && x.coefficients[1] == 1
      ensures Value() == FromRoots(F, s + [r])
    {
      x.coefficients := x.coefficients[0 := r];
      assert x.Value() == [r, 1];
      Mul(F, tmp, this, x);
      assert (s + [r])[..|s|] == s;
      Swap(tmp);
    }

    /** The temporaries of interpolate: X, the product l of the X - a[i], and two scratch polynomials. */
    static method InterpolationWorkspace(F: Field, a: seq<nat>, n: int)
      returns (linear: SmallBinaryFieldPolynomial, l: SmallBinaryFieldPolynomial,
               li: SmallBinaryFieldPolynomial, tmp: SmallBinaryFieldPolynomial)
      requires IsField(F) && n <= |a|
      ensures fresh(linear) && fresh(l) && fresh(li) && fresh(tmp)
      ensures linear != l && linear != li && linear != tmp && l != li && l != tmp && li != tmp
      ensures linear.Valid() && l.Valid() && li.Valid() && tmp.Valid()
      ensures |linear.Value()| == 2 && linear.coefficients[1] == 1
      ensures n > 0 ==> l.degree == n && l.Value() == FromRoots(F, a[..n])
    {
      linear := Monomial();
      l := Vanishing(F, a, n);
      li := Scratch(n + 1);
      tmp := Scratch(n + 1);
    }

    /** A fresh polynomial X. */
    static method Monomial() returns (p: SmallBinaryFieldPolynomial)
      ensures fresh(p) && p.Valid() && |p.Value()| == 2 && p.coefficients[1] == 1
    {
      p := new SmallBinaryFieldPolynomial();
      p.SetX();
    }

    /** A fresh polynomial (X - a[0]) ... (X - a[n-1]), of degree n when n is positive. */
    static method Vanishing(F: Field, a: seq<nat>, n: int) returns (p: SmallBinaryFieldPolynomial)
      requires IsField(F) && n <= |a|
      ensures fresh(p) && p.Valid() && (n > 0 ==> p.degree == n && p.Value() == FromRoots(F, a[..n]))
    {
      p := new SmallBinaryFieldPolynomial();
      p.BuildFromRoots(F, a, n);
      FromRootsMonic(F, a[..if n < 0 then 0 else n]);
    }

    /** A fresh zero polynomial with room for n coefficients. */
    static method Scratch(n: int) returns (p: SmallBinaryFieldPolynomial)
      ensures fresh(p) && p.Valid()
    {
      p := new SmallBinaryFieldPolynomial();
      p.EnsureCapacity(n);
    }

    /**
     * Replaces the polynomial by the Lagrange interpolation polynomial of
     * the pairs (a[i], b[i]), i < n; the locators a[i] must be distinct.
     */
    method Interpolate(F: Field, a: seq<nat>, b: seq<nat>, n: int)
      requires IsField(F) && Valid() && n <= |a| && n <= |b|
      requires Distinct(a, n)
      modifies this
      ensures Valid() && |Value()| <= if n < 0 then 0 else n
      ensures forall j :: 0 <= j < n ==> Horner(F, Value(), a[j]) == b[j]
    {
      EnsureCapacity(n + 1);
      SetZero();
      var linear, l, li, tmp := InterpolationWorkspace(F, a, n);
      var i := 0;
      while i < n
        invariant 0 <= i <= if n < 0 then 0 else n
        invariant Valid() && linear.Valid() && l.Valid() && li.Valid() && tmp.Valid()
        invariant |linear.Value()| == 2 && linear.coefficients[1] == 1
        invariant n > 0 ==> l.degree == n && l.Value() == FromRoots(F, a[..n])
        invariant |Value()| <= if n < 0 then 0 else n
        invariant forall j :: 0 <= j < n ==> Horner(F, Value(), a[j]) == if j < i then b[j] else 0
      {
        ghost var before := Value();
        AddLagrangeTerm(F, this, a, b, n, i, l, linear, li, tmp);
        LagrangeSumStep(F, a, b, n, i, before, Value());
        i := i + 1;
      }
    }
  }
  /** h := f + g: coefficients are XORed and the result is normalized. */
  method Add(h: SmallBinaryFieldPolynomial, f: SmallBinaryFieldPolynomial, g: SmallBinaryFieldPolynomial)
    requires h.Valid() && f.Valid() && g.Valid()
    modifies h
    ensures h.Valid()
    ensures forall k :: Coeff(h.Value(), k) == Xor(Coeff(old(f.Value()), k), Coeff(old(g.Value()), k))
  {
    var fv, gv := f.coefficients[..f.degree + 1], g.coefficients[..g.degree + 1];
    var b, c := gv, fv;
    if f.degree < g.degree {
      b, c := fv, gv;
    }
    var m, n := |b| - 1, |c| - 1;
    h.EnsureCapacity(n + 1);
    var low := XorWords(b, c[..m + 1]);
    h.coefficients := low + c[m + 1..] + h.coefficients[n + 1..];
    h.degree := n;
    ghost var sum := h.Value();
    assert forall k :: Coeff(sum, k) == Xor(Coeff(b, k), Coeff(c, k)) by {
      forall k
        ensures Coeff(sum, k) == Xor(Coeff(b, k), Coeff(c, k))
      {
        if k < 0 || k > n {
          XorZero(0);
        } else if k > m {
          XorZero(c[k]);
        }
      }
    }
    h.Normalize();
    TrimCoeff(sum);
    forall k
      ensures Xor(Coeff(b, k), Coeff(c, k)) == Xor(Coeff(fv, k), Coeff(gv, k))
    {
      XorComm(Coeff(b, k), Coeff(c, k));
    }
  }

  /** f := g * X^n; a negative n divides by X^-n instead. */
  method LeftShift(f: SmallBinaryFieldPolynomial, g: SmallBinaryFieldPolynomial, n: int)
    requires f.Valid() && g.Valid()
    modifies f
    ensures f.Valid() && f.Value() == MulXPower(old(g.Value()), n)
    decreases if n < 0 then 1 else 0
  {
    if n < 0 {
      RightShift(f, g, -n);
      return;
    }
    if g.degree >= 0 && n > 0 {
      var d := g.degree;
      var gv := g.coefficients[..d + 1];
      f.EnsureCapacity(d + n + 1);
      f.coefficients := Zeros(n) + gv + f.coefficients[d + n + 1..];
      f.degree := d + n;
      assert f.Value() == Zeros(n) + gv;
    } else {
      f.Assign(g);
    }
  }

  /**
   * f := the quotient of g by X^n; a negative n multiplies by X^-n, as the
   * source documents (see RightShiftAsWritten for what it does instead).
   */
  method RightShift(f: SmallBinaryFieldPolynomial, g: SmallBinaryFieldPolynomial, n: int)
    requires f.Valid() && g.Valid()
    modifies f
    ensures f.Valid() && f.Value() == MulXPower(old(g.Value()), -n)
    decreases if n < 0 then 1 else 0
  {
    if n < 0 {
      LeftShift(f, g, -n);
      return;
    }
    f.Assign(g);
    var m := f.degree;
    var c := ShiftDown(f.coefficients, n, m);
    f.coefficients := c;
    f.degree := if m - n < 0 then -1 else m - n;
  }

  /** The loop of rightShift: coefficient i + n moves to i for every i + n <= m. */
  method ShiftDown(a: seq<nat>, n: nat, m: int) returns (c: seq<nat>)
    requires m < |a|
    ensures |c| == |a|
    ensures m >= n ==> c[..m - n + 1] == a[n..m + 1]
  {
    c := a;
    var i := 0;
    while i + n <= m
      invariant 0 <= i && (i <= m - n + 1 || i == 0)
      invariant |c| == |a|
      invariant forall k :: 0 <= k < i ==> c[k] == a[k + n]
      invariant forall k :: i <= k < |a| ==> c[k] == a[k]
    {
      c := c[i := c[i + n]];
      i := i + 1;
    }
  }

  // ---------------------------------------------------------------------
  // Products

  /** Coefficient k of s * b * X^i. */
  function ScaledShift(F: Field, s: nat, b: seq<nat>, i: int, k: int): nat
  {
    if i <= k < i + |b| then F.mul(s, b[k - i]) else 0
  }

  /** Coefficient k of row i of the schoolbook product a * b: a[i] * b * X^i. */
  function Row(F: Field, a: seq<nat>, b: seq<nat>, i: int, k: int): nat
  {
    if 0 <= i < |a| then ScaledShift(F, a[i], b, i, k) else 0
  }

  /** XOR of rows lo..hi-1 at coefficient k. */
  function Rows(F: Field, a: seq<nat>, b: seq<nat>, k: int, lo: int, hi: int): nat
    decreases hi - lo
  {
    if hi <= lo then 0 else Xor(Rows(F, a, b, k, lo, hi - 1), Row(F, a, b, hi - 1, k))
  }

  /** Rows only depend on the entries of a they use. */
  lemma {:induction false} RowsFrame(F: Field, a: seq<nat>, a': seq<nat>, b: seq<nat>, k: int, lo: int, hi: int)
    requires 0 <= lo && hi <= |a| && hi <= |a'|
    requires forall i :: lo <= i < hi ==> a[i] == a'[i]
    ensures Rows(F, a, b, k, lo, hi) == Rows(F, a', b, k, lo, hi)
    decreases hi - lo
  {
    if lo < hi {
      RowsFrame(F, a, a', b, k, lo, hi - 1);
    }
  }

  /** The lowest row can be split off as well as the highest. */
  lemma {:induction false} RowsLow(F: Field, a: seq<nat>, b: seq<nat>, k: int, lo: int, hi: int)
    requires lo < hi
    ensures Rows(F, a, b, k, lo, hi) == Xor(Row(F, a, b, lo, k), Rows(F, a, b, k, lo + 1, hi))
    decreases hi - lo
  {
    if lo + 1 == hi {
      XorZero(Row(F, a, b, lo, k));
    } else {
      RowsLow(F, a, b, k, lo, hi - 1);
      XorAssoc(Row(F, a, b, lo, k), Rows(F, a, b, k, lo + 1, hi - 1), Row(F, a, b, hi - 1, k));
    }
  }

  /** Rows that all vanish at k add up to zero. */
  lemma {:induction false} RowsVanish(F: Field, a: seq<nat>, b: seq<nat>, k: int, lo: int, hi: int)
    requires forall i :: lo <= i < hi ==> Row(F, a, b, i, k) == 0
    ensures Rows(F, a, b, k, lo, hi) == 0
    decreases hi - lo
  {
    if lo < hi {
      RowsVanish(F, a, b, k, lo, hi - 1);
      XorZero(0);
    }
  }

  /** The coefficients of a * b, rows taken over a as TradMul does. */
  function ProductCoeffs(F: Field, a: seq<nat>, b: seq<nat>): (c: seq<nat>)
    requires |a| > 0 && |b| > 0
    ensures |c| == |a| + |b| - 1
  {
    seq(|a| + |b| - 1, k => Rows(F, a, b, k, 0, |a|))
  }

  /**
   * The normalized product of f and g, with the factor of smaller degree
   * as the outer factor (rows), as mulUncheck orders them.
   */
  function Product(F: Field, f: seq<nat>, g: seq<nat>): seq<nat>
  {
    if |f| == 0 || |g| == 0 then []
    else if |f| < |g| then Trim(ProductCoeffs(F, f, g))
    else Trim(ProductCoeffs(F, g, f))
  }

  /** The top coefficient of a * b is the product of the leading coefficients. */
  lemma ProductTop(F: Field, a: seq<nat>, b: seq<nat>)
    requires |a| > 0 && |b| > 0
    ensures ProductCoeffs(F, a, b)[|a| + |b| - 2] == F.mul(a[|a| - 1], b[|b| - 1])
  {
    var k := |a| + |b| - 2;
    RowsVanish(F, a, b, k, 0, |a| - 1);
    XorComm(0, Row(F, a, b, |a| - 1, k));
    XorZero(Row(F, a, b, |a| - 1, k));
  }

  /** Over a field, nonzero factors of degrees m and n give a product of degree m + n. */
  lemma ProductDegree(F: Field, f: seq<nat>, g: seq<nat>)
    requires IsField(F) && Normalized(f) && Normalized(g) && |f| > 0 && |g| > 0
    ensures |Product(F, f, g)| == |f| + |g| - 1
    ensures Product(F, f, g)[|f| + |g| - 2] == F.mul(f[|f| - 1], g[|g| - 1])
  {
    ProductTop(F, f, g);
    ProductTop(F, g, f);
    MulComm(F, f[|f| - 1], g[|g| - 1]);
  }

  /** The schoolbook product of TradMul: coefficient i + j accumulates a[i] * b[j]. */
  method TradMul(F: Field, a: seq<nat>, b: seq<nat>) returns (c: seq<nat>)
    requires |a| > 0 && |b| > 0
    ensures c == ProductCoeffs(F, a, b)
  {
    var l := |a| + |b| - 1;
    c := Zeros(l);
    var i := 0;
    while i < |a|
      invariant 0 <= i <= |a| && |c| == l
      invariant forall k :: 0 <= k < l ==> c[k] == Rows(F, a, b, k, 0, i)
    {
      var j := 0;
      while j < |b|
        invariant 0 <= j <= |b| && |c| == l
        invariant forall k :: 0 <= k < l ==>
          c[k] == if i <= k < i + j then Rows(F, a, b, k, 0, i + 1) else Rows(F, a, b, k, 0, i)
      {
        forall k | 0 <= k < l && !(i <= k < i + |b|)
          ensures Rows(F, a, b, k, 0, i + 1) == Rows(F, a, b, k, 0, i)
        {
          XorZero(Rows(F, a, b, k, 0, i));
        }
        c := c[i + j := Xor(c[i + j], F.mul(a[i], b[j]))];
        j := j + 1;
      }
      forall k | 0 <= k < l && !(i <= k < i + |b|)
        ensures Rows(F, a, b, k, 0, i + 1) == Rows(F, a, b, k, 0, i)
      {
        XorZero(Rows(F, a, b, k, 0, i));
      }
      i := i + 1;
    }
  }

  /** h := f * g for nonzero f and g, h distinct from both. */
  method MulUncheck(F: Field, h: SmallBinaryFieldPolynomial, fv: seq<nat>, gv: seq<nat>)
    requires h.Sized() && |fv| > 0 && |gv| > 0
    modifies h
    ensures h.Valid() && h.Value() == Product(F, fv, gv)
  {
    var a, b := gv, fv;
    if |fv| < |gv| {
      a, b := fv, gv;
    }
    var m, n := |a| - 1, |b| - 1;
    h.EnsureCapacity(m + n + 1);
    var c := TradMul(F, a, b);
    h.coefficients := c + h.coefficients[m + n + 1..];
    h.degree := m + n;
    assert h.Value() == c;
    h.Normalize();
  }

  /** h := f * g; h may be f or g. A zero factor gives zero. */
  method Mul(F: Field, h: SmallBinaryFieldPolynomial, f: SmallBinaryFieldPolynomial, g: SmallBinaryFieldPolynomial)
    requires h.Valid() && f.Valid() && g.Valid()
    modifies h
    ensures h.Valid() && h.Value() == Product(F, old(f.Value()), old(g.Value()))
  {
    if f.degree < 0 || g.degree < 0 {
      h.SetZero();
      return;
    }
    var fv, gv := f.coefficients[..f.degree + 1], g.coefficients[..g.degree + 1];
    MulUncheck(F, h, fv, gv);
  }

  /** The coefficient list multiplied by the scalar s. */
  function Scaled(F: Field, f: seq<nat>, s: nat): (r: seq<nat>)
    ensures |r| == |f| && forall i :: 0 <= i < |f| ==> r[i] == F.mul(f[i], s)
  {
    seq(|f|, i requires 0 <= i < |f| => F.mul(f[i], s))
  }

  /** Scaling by a nonzero element keeps the degree. */
  lemma ScaledNormalized(F: Field, f: seq<nat>, s: nat)
    requires IsField(F) && Normalized(f) && s != 0
    ensures Normalized(Scaled(F, f, s))
  {
  }

  /**
   * mul(h, f, s) as written: the coefficients are scaled and the degree
   * of f is kept, whatever s is.
   */
  function MulScalarAsWritten(F: Field, f: seq<nat>, s: nat): (r: (seq<nat>, int))
    ensures r.1 == |f| - 1
  {
    (Scaled(F, f, s), |f| - 1)
  }

  /** The polynomial 1 times the scalar 0 keeps degree 0 with a zero leading coefficient. */
  lemma MulScalarAsWrittenByZero(F: Field)
    requires IsField(F)
    ensures var r := MulScalarAsWritten(F, [1], 0);
            r.1 == 0 && r.0[0] == 0 && !Normalized(r.0)
  {
  }

  /** h := f * s; the result is normalized, so s = 0 gives the zero polynomial. */
  method MulScalar(F: Field, h: SmallBinaryFieldPolynomial, f: SmallBinaryFieldPolynomial, s: nat)
    requires h.Valid() && f.Valid()
    modifies h
    ensures h.Valid() && h.Value() == Trim(Scaled(F, old(f.Value()), s))
  {
    h.Assign(f);
    ghost var v := h.Value();
    var i := 0;
    while i < h.degree + 1
      invariant 0 <= i <= h.degree + 1 && h.Sized()
      invariant |h.Value()| == |v|
      invariant forall k :: 0 <= k < |v| ==> h.coefficients[k] == if k < i then F.mul(v[k], s) else v[k]
    {
      h.coefficients := h.coefficients[i := F.mul(h.coefficients[i], s)];
      i := i + 1;
    }
    assert h.Value() == Scaled(F, v, s);
    h.Normalize();
  }

  // ---------------------------------------------------------------------
  // Euclidean division

  /** R with s * B * X^i added, coefficient by coefficient, as divRem's inner loop does. */
  method SubtractScaled(F: Field, R: seq<nat>, B: seq<nat>, s: nat, i: nat) returns (R': seq<nat>)
    requires i + |B| <= |R|
    ensures |R'| == |R|
    ensures forall k :: 0 <= k < |R| ==> R'[k] == Xor(R[k], ScaledShift(F, s, B, i, k))
  {
    R' := R;
    var j := 0;
    while j < |B|
      invariant 0 <= j <= |B| && |R'| == |R|
      invariant forall k :: 0 <= k < |R| ==>
        R'[k] == if i <= k < i + j then Xor(R[k], ScaledShift(F, s, B, i, k)) else R[k]
    {
      R' := R'[i + j := Xor(R'[i + j], F.mul(s, B[j]))];
      j := j + 1;
    }
    forall k | 0 <= k < |R| && !(i <= k < i + |B|)
      ensures R'[k] == Xor(R[k], ScaledShift(F, s, B, i, k))
    {
      XorZero(R[k]);
    }
  }

  /** The quotient coefficient s = R[m+i] / B[m] cancels the coefficient of X^(m+i). */
  lemma LeadingCancels(F: Field, r: nat, b: nat)
    requires IsField(F) && b != 0
    ensures Xor(r, F.mul(F.mul(r, F.inv(b)), b)) == 0
    ensures r != 0 ==> F.mul(r, F.inv(b)) != 0
  {
    MulAssoc(F, r, F.inv(b), b);
    MulComm(F, F.inv(b), b);
    XorSelf(r);
  }

  /** Moving a summand from the remainder into the quotient keeps the sum. */
  lemma XorMove(a: nat, rest: nat, r: nat, r': nat, row: nat)
    requires a == Xor(rest, r) && r' == Xor(r, row)
    ensures a == Xor(Xor(row, rest), r')
  {
    calc {
      Xor(Xor(row, rest), r');
      { XorComm(row, rest); }
      Xor(Xor(rest, row), r');
      { XorAssoc(rest, row, r'); }
      Xor(rest, Xor(row, r'));
      { XorComm(row, r'); XorCancel(r, row); }
      Xor(rest, r);
    }
  }

  /** Adding row i to the remainder moves it from the remainder into the quotient's rows. */
  lemma DivisionInvariantStep(F: Field, A: seq<nat>, Q: seq<nat>, Q': seq<nat>, B: seq<nat>,
                              R: seq<nat>, R': seq<nat>, i: int, d: int)
    requires 0 <= i <= d && |Q| == |Q'| == d + 1
    requires forall j :: 0 <= j < |Q| && j != i ==> Q[j] == Q'[j]
    requires forall k :: Coeff(A, k) == Xor(Rows(F, Q, B, k, i + 1, d + 1), Coeff(R, k))
    requires forall k :: Coeff(R', k) == Xor(Coeff(R, k), Row(F, Q', B, i, k))
    ensures forall k :: Coeff(A, k) == Xor(Rows(F, Q', B, k, i, d + 1), Coeff(R', k))
  {
    forall k
      ensures Coeff(A, k) == Xor(Rows(F, Q', B, k, i, d + 1), Coeff(R', k))
    {
      RowsFrame(F, Q, Q', B, k, i + 1, d + 1);
      RowsLow(F, Q', B, k, i, d + 1);
      XorMove(Coeff(A, k), Rows(F, Q, B, k, i + 1, d + 1), Coeff(R, k), Coeff(R', k), Row(F, Q', B, i, k));
    }
  }

  /**
   * One step of divRem where the remainder has degree m + i: the quotient
   * coefficient of X^i cancels the remainder's leading coefficient.
   */
  method ReduceStep(F: Field, A: seq<nat>, Q: seq<nat>, B: seq<nat>, R: seq<nat>, i: int, d: int)
    returns (Q': seq<nat>, R'': seq<nat>)
    requires IsField(F) && Normalized(B) && |B| > 0
    requires 0 <= i <= d && |Q| == d + 1 && |R| == |B| + i
    requires forall k :: Coeff(A, k) == Xor(Rows(F, Q, B, k, i + 1, d + 1), Coeff(R, k))
    ensures |Q'| == d + 1 && Q'[i] == F.mul(R[|R| - 1], F.inv(B[|B| - 1]))
    ensures forall j :: 0 <= j < |Q| && j != i ==> Q[j] == Q'[j]
    ensures Normalized(R'') && |R''| < |R|
    ensures forall k :: Coeff(A, k) == Xor(Rows(F, Q', B, k, i, d + 1), Coeff(R'', k))
  {
    var m := |B| - 1;
    LeadingCancels(F, R[m + i], B[m]);
    Q' := Q[i := F.mul(R[m + i], F.inv(B[m]))];
    var R' := SubtractScaled(F, R, B, Q'[i], i);
    forall k
      ensures Coeff(R', k) == Xor(Coeff(R, k), Row(F, Q', B, i, k))
    {
      if !(0 <= k < |R|) {
        XorZero(0);
      }
    }
    DivisionInvariantStep(F, A, Q, Q', B, R, R', i, d);
    assert R'[m + i] == 0;
    TrimCoeff(R');
    R'' := Trim(R');
  }

  /**
   * Quotient and remainder of A by a nonzero B over a field: A is the sum of
   * the rows of Q times B and R, and R has smaller degree than B.
   */
  method DivRemCoeffs(F: Field, A: seq<nat>, B: seq<nat>) returns (Q: seq<nat>, R: seq<nat>)
    requires IsField(F) && Normalized(A) && Normalized(B) && |B| > 0
    ensures Normalized(Q) && Normalized(R) && |R| < |B|
    ensures |Q| == if |A| >= |B| then |A| - |B| + 1 else 0
    ensures forall k :: Coeff(A, k) == Xor(Rows(F, Q, B, k, 0, |Q|), Coeff(R, k))
  {
    var m, n := |B| - 1, |A| - 1;
    R := A;
    var u := F.inv(B[m]);
    var d := n - m;
    if d < 0 {
      d := -1;
    }
    Q := Zeros(d + 1);
    forall k
      ensures Coeff(A, k) == Xor(Rows(F, Q, B, k, d + 1, d + 1), Coeff(R, k))
    {
      XorZero(Coeff(A, k));
    }
    var i := d;
    while i >= 0
      invariant -1 <= i <= d && |Q| == d + 1
      invariant Normalized(R) && |R| <= m + i + 1
      invariant i < d ==> Q[d] != 0
      invariant i == d ==> R == A
      invariant d >= 0 ==> d == n - m
      invariant forall k :: Coeff(A, k) == Xor(Rows(F, Q, B, k, i + 1, d + 1), Coeff(R, k))
    {
      var Q' := Q;
      if |R| - 1 == m + i {
        Q', R := ReduceStep(F, A, Q, B, R, i, d);
      } else {
        Q' := Q[i := 0];
        forall k
          ensures Coeff(R, k) == Xor(Coeff(R, k), Row(F, Q', B, i, k))
        {
          if i <= k < i + |B| {
            MulComm(F, 0, B[k - i]);
          }
          XorZero(Coeff(R, k));
        }
        DivisionInvariantStep(F, A, Q, Q', B, R, R, i, d);
      }
      Q := Q';
      i := i - 1;
    }
  }

  /**
   * divRem(q, r, a, b): q and r become the quotient and remainder of a by
   * b. q and r must be distinct and b nonzero; either may be a or b.
   */
  method DivRem(F: Field, q: SmallBinaryFieldPolynomial, r: SmallBinaryFieldPolynomial,
                a: SmallBinaryFieldPolynomial, b: SmallBinaryFieldPolynomial)
    requires IsField(F) && q != r
    requires q.Valid() && r.Valid() && a.Valid() && b.Valid() && b.degree >= 0
    modifies q, r
    ensures q.Valid() && r.Valid()
    ensures |r.Value()| < |old(b.Value())|
    ensures |q.Value()| == if old(a.degree) >= old(b.degree) then old(a.degree) - old(b.degree) + 1 else 0
    ensures forall k ::
      Coeff(old(a.Value()), k) == Xor(Rows(F, q.Value(), old(b.Value()), k, 0, |q.Value()|), Coeff(r.Value(), k))
  {
    var A, B := a.coefficients[..a.degree + 1], b.coefficients[..b.degree + 1];
    var Q, R := DivRemCoeffs(F, A, B);
    q.Store(Q);
    r.Store(R);
  }

  /**
   * The product of a[i] - a[j] over j < n, j != i, as interpolate's inner
   * loop computes it.
   */
  method LagrangeDenominator(F: Field, a: seq<nat>, i: int, n: int) returns (u: nat)
    requires 0 <= i < |a| && n <= |a|
    ensures u == LocatorProduct(F, a, i, n)
  {
    u := 1;
    var j := 0;
    while j < n
      invariant 0 <= j <= if n < 0 then 0 else n
      invariant u == LocatorProduct(F, a, i, j)
    {
      if i != j {
        u := F.mul(u, Xor(a[i], a[j]));
      }
      j := j + 1;
    }
  }

  /**
   * One pass of interpolate's loop: f += b[i] / u * l / (X - a[i]), where l
   * is the product of all linear factors and u the Lagrange denominator.
   */
  method AddLagrangeTerm(F: Field, f: SmallBinaryFieldPolynomial, a: seq<nat>, b: seq<nat>, n: int, i: int,
                         l: SmallBinaryFieldPolynomial, linear: SmallBinaryFieldPolynomial,
                         li: SmallBinaryFieldPolynomial, tmp: SmallBinaryFieldPolynomial)
    requires IsField(F) && 0 <= i < n && n <= |a| && n <= |b| && Distinct(a, n)
    requires f.Valid() && linear.Valid() && l.Valid() && li.Valid() && tmp.Valid()
    requires f != linear && f != l && f != li && f != tmp && linear != l && linear != li
    requires linear != tmp && l != li && l != tmp && li != tmp
    requires |linear.Value()| == 2 && linear.coefficients[1] == 1 && l.degree == n && |f.Value()| <= n
    requires l.Value() == FromRoots(F, a[..n])
    modifies f, linear, li, tmp
    ensures f.Valid() && linear.Valid() && l.Valid() && li.Valid() && tmp.Valid()
    ensures |linear.Value()| == 2 && linear.coefficients[1] == 1 && l.degree == n && |f.Value()| <= n
    ensures forall j :: 0 <= j < n ==>
      Horner(F, f.Value(), a[j]) == Xor(Horner(F, old(f.Value()), a[j]), if j == i then b[i] else 0)
  {
    var u := LagrangeScale(F, a, b, n, i);
    LagrangeBasis(F, a, n, i, l, linear, li, tmp);
    MulScalar(F, li, li, u);
    ghost var t := li.Value();
    ghost var f0 := f.Value();
    LagrangeTermValues(F, a, b, n, i, t);
    Add(f, f, li);
    forall j | 0 <= j < n
      ensures Horner(F, f.Value(), a[j]) == Xor(Horner(F, f0, a[j]), if j == i then b[i] else 0)
    {
      HornerXor(F, f0, t, f.Value(), a[j]);
    }
    forall k | k >= n
      ensures Coeff(f.Value(), k) == 0
    {
      assert Coeff(t, k) == 0 && Coeff(f0, k) == 0;
      XorZero(0);
    }
    NormalizedLength(f.Value(), n);
  }

  /** The factor b[i] / u of the i-th Lagrange term, u its denominator. */
  method LagrangeScale(F: Field, a: seq<nat>, b: seq<nat>, n: int, i: int) returns (u: nat)
    requires 0 <= i < n && n <= |a| && n <= |b|
    ensures u == F.mul(F.inv(LocatorProduct(F, a, i, n)), b[i])
  {
    u := LagrangeDenominator(F, a, i, n);
    u := F.mul(F.inv(u), b[i]);
  }

  /**
   * li := l / (X - a[i]) through linear := X - a[i]: the product of the
   * linear factors of the other locators, the division leaving no remainder.
   */
  method LagrangeBasis(F: Field, a: seq<nat>, n: int, i: int, l: SmallBinaryFieldPolynomial,
                       linear: SmallBinaryFieldPolynomial, li: SmallBinaryFieldPolynomial,
                       tmp: SmallBinaryFieldPolynomial)
    requires IsField(F) && 0 <= i < n && n <= |a|
    requires linear.Valid() && l.Valid() && li.Valid() && tmp.Valid()
    requires linear != l && linear != li && linear != tmp && l != li && l != tmp && li != tmp
    requires |linear.Value()| == 2 && linear.coefficients[1] == 1
    requires l.Value() == FromRoots(F, a[..n])
    modifies linear, li, tmp
    ensures linear.Valid() && li.Valid() && tmp.Valid()
    ensures |linear.Value()| == 2 && linear.coefficients[1] == 1
    ensures li.Value() == FromRoots(F, Others(a, i, n)) && |li.Value()| == n
  {
    OthersLength(a, i, n);
    SetLinear(linear, a[i]);
    FromRootsSplit(F, a, i, n);
    FromRootsMonic(F, Others(a, i, n));
    DivRem(F, li, tmp, l, linear);
    DivideByRoot(F, FromRoots(F, Others(a, i, n)), a[i], li.Value(), tmp.Value());
  }

  /** linear := X + c, from a polynomial X + d. */
  method SetLinear(linear: SmallBinaryFieldPolynomial, c: nat)
    requires linear.Valid() && |linear.Value()| == 2 && linear.coefficients[1] == 1
    modifies linear
    ensures linear.Valid() && linear.Value() == [c, 1] && linear.coefficients[1] == 1
  {
    linear.SetCoeff(0, c);
    assert Coeff(linear.Value(), 1) == 1;
    NormalizedLength(linear.Value(), 2);
    NormalizedUnique(linear.Value(), [c, 1]);
  }

  // ---------------------------------------------------------------------
  // Roots and interpolation

  /** The product (X - r[0]) * ... * (X - r[|r|-1]), built left to right. */
  function FromRoots(F: Field, r: seq<nat>): seq<nat>
  {
    if |r| == 0 then [1] else Product(F, FromRoots(F, r[..|r| - 1]), [r[|r| - 1], 1])
  }

  /** Over a field the product of n linear factors is monic of degree n. */
  lemma {:induction false} FromRootsMonic(F: Field, r: seq<nat>)
    requires IsField(F)
    ensures |FromRoots(F, r)| == |r| + 1 && FromRoots(F, r)[|r|] == 1
  {
    if |r| > 0 {
      FromRootsMonic(F, r[..|r| - 1]);
      ProductDegree(F, FromRoots(F, r[..|r| - 1]), [r[|r| - 1], 1]);
    }
  }

  /** A normalized list whose coefficients vanish from n on has at most n entries. */
  lemma NormalizedLength(s: seq<nat>, n: int)
    requires Normalized(s) && forall k :: k >= n ==> Coeff(s, k) == 0
    ensures |s| <= if n < 0 then 0 else n
  {
    assert |s| > 0 ==> Coeff(s, |s| - 1) == s[|s| - 1];
  }

  /** The first n locators are pairwise distinct. */
  ghost predicate Distinct(a: seq<nat>, n: int)
    requires n <= |a|
  {
    forall i, j :: 0 <= i < j < n ==> a[i] != a[j]
  }

  /** The product of a[i] - a[j] over j < k, j != i: the denominator of the i-th Lagrange polynomial. */
  function LocatorProduct(F: Field, a: seq<nat>, i: int, k: int): nat
    requires 0 <= i < |a| && k <= |a|
    decreases k
  {
    if k <= 0 then 1
    else if k - 1 == i then LocatorProduct(F, a, i, k - 1)
    else F.mul(LocatorProduct(F, a, i, k - 1), Xor(a[i], a[k - 1]))
  }

  /** The denominator is zero exactly when some other locator below k repeats a[i]. */
  lemma {:induction false} LocatorProductZero(F: Field, a: seq<nat>, i: int, k: int)
    requires IsField(F) && 0 <= i < |a| && k <= |a|
    ensures LocatorProduct(F, a, i, k) == 0 <==> exists j :: 0 <= j < k && j != i && a[j] == a[i]
    decreases k
  {
    if k > 0 {
      LocatorProductZero(F, a, i, k - 1);
      var p := LocatorProduct(F, a, i, k - 1);
      if k - 1 != i {
        var x := Xor(a[i], a[k - 1]);
        XorZeroIff(a[i], a[k - 1]);
        MulComm(F, p, x);
        assert F.mul(p, x) == 0 <==> p == 0 || x == 0;
        if a[k - 1] == a[i] {
          assert k - 1 != i && a[k - 1] == a[i];
        }
      }
    }
  }

  // ---------------------------------------------------------------------
  // Values of polynomials

  /** Multiplication distributes over Xor from the right as well. */
  lemma MulXorLeft(F: Field, a: nat, b: nat, x: nat)
    requires IsField(F)
    ensures F.mul(Xor(a, b), x) == Xor(F.mul(a, x), F.mul(b, x))
  {
    MulComm(F, Xor(a, b), x);
    MulDistrib(F, x, a, b);
    MulComm(F, x, a);
    MulComm(F, x, b);
  }

  /** Zero times anything is zero. */
  lemma MulZeroLeft(F: Field, x: nat)
    requires IsField(F)
    ensures F.mul(0, x) == 0
  {
    MulComm(F, 0, x);
  }

  /** The two right factors of a product may be exchanged. */
  lemma MulSwapRight(F: Field, s: nat, c: nat, d: nat)
    requires IsField(F)
    ensures F.mul(F.mul(s, c), d) == F.mul(F.mul(s, d), c)
  {
    MulAssoc(F, s, c, d);
    MulComm(F, c, d);
    MulAssoc(F, s, d, c);
  }

  /** Equal Xor with the same left operand means equal right operands. */
  lemma XorLeftCancel(m: nat, a: nat, b: nat)
    requires Xor(m, a) == Xor(m, b)
    ensures a == b
  {
    XorComm(m, a);
    XorComm(m, b);
    XorCancel(a, m);
    XorCancel(b, m);
  }

  /** One step of Horner's rule, also for a single coefficient. */
  lemma HornerCons(F: Field, c: seq<nat>, x: nat)
    requires IsField(F) && |c| >= 1
    ensures Horner(F, c, x) == Xor(F.mul(Horner(F, c[1..], x), x), c[0])
  {
    if |c| == 1 {
      MulZeroLeft(F, x);
      XorZero(c[0]);
    }
  }

  /** A zero leading coefficient does not change the value. */
  lemma {:induction false} HornerPad(F: Field, s: seq<nat>, x: nat)
    requires IsField(F)
    ensures Horner(F, s + [0], x) == Horner(F, s, x)
    decreases |s|
  {
    if |s| > 0 {
      assert (s + [0])[1..] == s[1..] + [0];
      HornerCons(F, s + [0], x);
      HornerCons(F, s, x);
      HornerPad(F, s[1..], x);
    }
  }

  /** Trimming does not change the value. */
  lemma {:induction false} HornerTrim(F: Field, s: seq<nat>, x: nat)
    requires IsField(F)
    ensures Horner(F, Trim(s), x) == Horner(F, s, x)
    decreases |s|
  {
    if |s| > 0 && s[|s| - 1] == 0 {
      var s' := s[..|s| - 1];
      HornerTrim(F, s', x);
      assert s == s' + [0];
      HornerPad(F, s', x);
    }
  }

  /** Lists with the same coefficients have the same value. */
  lemma HornerCoeffs(F: Field, s: seq<nat>, t: seq<nat>, x: nat)
    requires IsField(F) && forall k :: Coeff(s, k) == Coeff(t, k)
    ensures Horner(F, s, x) == Horner(F, t, x)
  {
    TrimCoeff(s);
    TrimCoeff(t);
    NormalizedUnique(Trim(s), Trim(t));
    HornerTrim(F, s, x);
    HornerTrim(F, t, x);
  }

  /** The value of an entrywise sum of lists of one length is the sum of the values. */
  lemma {:induction false} HornerXorWords(F: Field, s: seq<nat>, t: seq<nat>, x: nat)
    requires IsField(F) && |s| == |t|
    ensures Horner(F, XorWords(s, t), x) == Xor(Horner(F, s, x), Horner(F, t, x))
    decreases |s|
  {
    if |s| == 0 {
      XorZero(0);
    } else {
      var h := XorWords(s, t);
      assert h[1..] == XorWords(s[1..], t[1..]);
      HornerXorWords(F, s[1..], t[1..], x);
      HornerCons(F, h, x);
      HornerCons(F, s, x);
      HornerCons(F, t, x);
      var A, B := Horner(F, s[1..], x), Horner(F, t[1..], x);
      MulXorLeft(F, A, B, x);
      XorShuffle(F.mul(A, x), F.mul(B, x), s[0], t[0]);
    }
  }

  /** The value of a coefficient-wise sum is the sum of the values. */
  lemma HornerXor(F: Field, s: seq<nat>, t: seq<nat>, h: seq<nat>, x: nat)
    requires IsField(F) && forall k :: Coeff(h, k) == Xor(Coeff(s, k), Coeff(t, k))
    ensures Horner(F, h, x) == Xor(Horner(F, s, x), Horner(F, t, x))
  {
    var N := |s| + |t|;
    var s', t' := s + Zeros(N - |s|), t + Zeros(N - |t|);
    assert forall k :: Coeff(s', k) == Coeff(s, k);
    assert forall k :: Coeff(t', k) == Coeff(t, k);
    HornerCoeffs(F, s', s, x);
    HornerCoeffs(F, t', t, x);
    var w := XorWords(s', t');
    forall k
      ensures Coeff(w, k) == Coeff(h, k)
    {
      if !(0 <= k < N) {
        XorZero(0);
      }
    }
    HornerCoeffs(F, w, h, x);
    HornerXorWords(F, s', t', x);
  }

  /** Scaling the coefficients scales the value. */
  lemma {:induction false} HornerTimesScalar(F: Field, s: seq<nat>, u: nat, x: nat)
    requires IsField(F)
    ensures Horner(F, Scaled(F, s, u), x) == F.mul(Horner(F, s, x), u)
    decreases |s|
  {
    if |s| == 0 {
      MulZeroLeft(F, u);
    } else {
      var t := Scaled(F, s, u);
      assert t[1..] == Scaled(F, s[1..], u);
      HornerTimesScalar(F, s[1..], u, x);
      HornerCons(F, t, x);
      HornerCons(F, s, x);
      var H := Horner(F, s[1..], x);
      MulXorLeft(F, F.mul(H, x), s[0], u);
      MulSwapRight(F, H, x, u);
    }
  }

  /** The coefficients of s * (X + c). */
  function LinMul(F: Field, s: seq<nat>, c: nat): (r: seq<nat>)
    ensures |r| == |s| + 1
  {
    seq(|s| + 1, k => LinCoeff(F, s, c, k))
  }

  function LinCoeff(F: Field, s: seq<nat>, c: nat, k: int): nat
  {
    Xor(F.mul(Coeff(s, k), c), Coeff(s, k - 1))
  }

  /** Coefficient k of s * (X + c) is c * s[k] + s[k-1], for every k. */
  lemma LinMulCoeff(F: Field, s: seq<nat>, c: nat)
    requires IsField(F)
    ensures forall k :: Coeff(LinMul(F, s, c), k) == Xor(F.mul(Coeff(s, k), c), Coeff(s, k - 1))
  {
    MulZeroLeft(F, c);
    XorZero(0);
  }

  /** Multiplying by X + c multiplies the value by x + c. */
  lemma HornerLinMul(F: Field, s: seq<nat>, c: nat, x: nat)
    requires IsField(F)
    ensures Horner(F, LinMul(F, s, c), x) == F.mul(Horner(F, s, x), Xor(x, c))
  {
    var H := Horner(F, s, x);
    var sh := [0] + s;
    LinMulCoeff(F, s, c);
    forall k
      ensures Coeff(LinMul(F, s, c), k) == Xor(Coeff(Scaled(F, s, c), k), Coeff(sh, k))
    {
      if !(0 <= k < |s|) {
        MulZeroLeft(F, c);
      }
    }
    HornerXor(F, Scaled(F, s, c), sh, LinMul(F, s, c), x);
    HornerTimesScalar(F, s, c, x);
    assert sh[1..] == s;
    HornerCons(F, sh, x);
    XorZero(F.mul(H, x));
    MulDistrib(F, H, x, c);
    MulComm(F, H, x);
    XorComm(F.mul(H, c), F.mul(H, x));
  }

  /** Over a field, multiplying a nonzero list by X + c is its product with the list [c, 1]. */
  lemma LinMulIsProduct(F: Field, f: seq<nat>, c: nat)
    requires IsField(F) && Normalized(f) && |f| > 0
    ensures Product(F, f, [c, 1]) == LinMul(F, f, c)
  {
    var L := LinMul(F, f, c);
    LinMulCoeff(F, f, c);
    assert Coeff(L, |f|) == L[|f|];
    MulZeroLeft(F, c);
    XorZero(f[|f| - 1]);
    if |f| < 2 {
      RowsByLinear(F, f, c, 0, |f|);
      RowsByLinear(F, f, c, 1, |f|);
      assert f[..|f|] == f;
      assert ProductCoeffs(F, f, [c, 1]) == L;
    } else {
      var P := ProductCoeffs(F, [c, 1], f);
      forall k | 0 <= k < |L|
        ensures P[k] == L[k]
      {
        assert Coeff(L, k) == L[k];
        XorZero(Row(F, [c, 1], f, 0, k));
        MulComm(F, c, Coeff(f, k));
        if 1 <= k {
          MulComm(F, 1, f[k - 1]);
        }
        if k == 0 || k == |f| {
          XorZero(Xor(0, Row(F, [c, 1], f, 0, k)));
        }
      }
      assert P == L;
    }
  }

  /** Rows of a product with [c, 1]: coefficient k collects c * q[k] and q[k-1] over the first hi rows. */
  lemma {:induction false} RowsByLinear(F: Field, q: seq<nat>, c: nat, k: int, hi: int)
    requires IsField(F) && 0 <= hi <= |q|
    ensures Rows(F, q, [c, 1], k, 0, hi) == Xor(F.mul(Coeff(q[..hi], k), c), Coeff(q[..hi], k - 1))
    decreases hi
  {
    MulZeroLeft(F, c);
    if hi == 0 {
      XorZero(0);
    } else {
      RowsByLinear(F, q, c, k, hi - 1);
      var p, g := q[..hi - 1], q[..hi];
      var row := Row(F, q, [c, 1], hi - 1, k);
      if k == hi - 1 {
        XorZero(Coeff(p, k - 1));
        XorComm(Coeff(p, k - 1), row);
        assert Coeff(g, k - 1) == Coeff(p, k - 1);
      } else if k == hi {
        MulComm(F, q[hi - 1], 1);
        XorZero(0);
        XorZero(row);
      } else {
        assert Coeff(g, k) == Coeff(p, k) && Coeff(g, k - 1) == Coeff(p, k - 1);
        XorZero(Rows(F, q, [c, 1], k, 0, hi - 1));
      }
    }
  }

  /** Multiplications by two linear factors commute. */
  lemma LinMulCommute(F: Field, s: seq<nat>, c: nat, d: nat)
    requires IsField(F)
    ensures LinMul(F, LinMul(F, s, c), d) == LinMul(F, LinMul(F, s, d), c)
  {
    var A, B := LinMul(F, LinMul(F, s, c), d), LinMul(F, LinMul(F, s, d), c);
    LinMulCoeff(F, s, c);
    LinMulCoeff(F, s, d);
    forall k | 0 <= k < |A|
      ensures A[k] == B[k]
    {
      var s0, s1, s2 := Coeff(s, k), Coeff(s, k - 1), Coeff(s, k - 2);
      MulXorLeft(F, F.mul(s0, c), s1, d);
      MulXorLeft(F, F.mul(s0, d), s1, c);
      MulSwapRight(F, s0, c, d);
      XorShuffle(F.mul(F.mul(s0, c), d), F.mul(s1, d), F.mul(s1, c), s2);
    }
  }

  /** (x + r[0]) * ... * (x + r[|r|-1]), in the order FromRoots multiplies. */
  function RootProduct(F: Field, r: seq<nat>, x: nat): nat
  {
    if |r| == 0 then 1 else F.mul(RootProduct(F, r[..|r| - 1], x), Xor(x, r[|r| - 1]))
  }

  /** The product of the linear factors takes the value of the product of x + r[j]. */
  lemma {:induction false} HornerFromRoots(F: Field, r: seq<nat>, x: nat)
    requires IsField(F)
    ensures Horner(F, FromRoots(F, r), x) == RootProduct(F, r, x)
    decreases |r|
  {
    if |r| > 0 {
      var r' := r[..|r| - 1];
      HornerFromRoots(F, r', x);
      FromRootsMonic(F, r');
      LinMulIsProduct(F, FromRoots(F, r'), r[|r| - 1]);
      HornerLinMul(F, FromRoots(F, r'), r[|r| - 1], x);
    }
  }

  /** The locators below k other than a[i], in order. */
  function Others(a: seq<nat>, i: int, k: int): seq<nat>
    requires k <= |a|
    decreases k
  {
    if k <= 0 then []
    else if k - 1 == i then Others(a, i, k - 1)
    else Others(a, i, k - 1) + [a[k - 1]]
  }

  lemma {:induction false} OthersBelow(a: seq<nat>, i: int, k: int)
    requires 0 <= k <= |a| && k <= i
    ensures Others(a, i, k) == a[..k]
    decreases k
  {
    if k > 0 {
      OthersBelow(a, i, k - 1);
      assert a[..k] == a[..k - 1] + [a[k - 1]];
    }
  }

  lemma {:induction false} OthersLength(a: seq<nat>, i: int, k: int)
    requires 0 <= i < k <= |a|
    ensures |Others(a, i, k)| == k - 1
    decreases k
  {
    if k - 1 != i {
      OthersLength(a, i, k - 1);
    } else if k - 1 > 0 {
      OthersBelow(a, i, k - 1);
    }
  }

  /** The Lagrange denominator is the product of a[i] + a[j] over the other locators. */
  lemma {:induction false} LocatorIsRootProduct(F: Field, a: seq<nat>, i: int, k: int)
    requires 0 <= i < |a| && k <= |a|
    ensures LocatorProduct(F, a, i, k) == RootProduct(F, Others(a, i, k), a[i])
    decreases k
  {
    if k > 0 {
      LocatorIsRootProduct(F, a, i, k - 1);
      if k - 1 != i {
        var o := Others(a, i, k - 1);
        assert (o + [a[k - 1]])[..|o|] == o;
      }
    }
  }

  /** Every other locator below k is a root of the product over the other locators. */
  lemma {:induction false} OthersVanish(F: Field, a: seq<nat>, i: int, k: int, j: int)
    requires IsField(F) && 0 <= j < k <= |a| && j != i
    ensures RootProduct(F, Others(a, i, k), a[j]) == 0
    decreases k
  {
    if k - 1 == i {
      OthersVanish(F, a, i, k - 1, j);
    } else {
      var o := Others(a, i, k - 1);
      assert (o + [a[k - 1]])[..|o|] == o;
      if k - 1 == j {
        XorSelf(a[j]);
      } else {
        OthersVanish(F, a, i, k - 1, j);
        MulZeroLeft(F, Xor(a[j], a[k - 1]));
      }
    }
  }

  /** The product of the first k linear factors is the product of the others, times X + a[i]. */
  lemma {:induction false} FromRootsSplit(F: Field, a: seq<nat>, i: int, k: int)
    requires IsField(F) && 0 <= i < k <= |a|
    ensures FromRoots(F, a[..k]) == LinMul(F, FromRoots(F, Others(a, i, k)), a[i])
    decreases k
  {
    var p := a[..k - 1];
    assert a[..k][..k - 1] == p;
    FromRootsMonic(F, p);
    LinMulIsProduct(F, FromRoots(F, p), a[k - 1]);
    if k - 1 == i {
      OthersBelow(a, i, i);
    } else {
      FromRootsSplit(F, a, i, k - 1);
      var o := Others(a, i, k - 1);
      var P := FromRoots(F, o);
      LinMulCommute(F, P, a[i], a[k - 1]);
      FromRootsMonic(F, o);
      LinMulIsProduct(F, P, a[k - 1]);
      assert (o + [a[k - 1]])[..|o|] == o;
    }
  }

  /** Adding the i-th Lagrange term fixes the value at a[i] and keeps the values already fixed. */
  lemma LagrangeSumStep(F: Field, a: seq<nat>, b: seq<nat>, n: int, i: int, f: seq<nat>, f': seq<nat>)
    requires 0 <= i < n <= |a| && n <= |b|
    requires forall j :: 0 <= j < n ==> Horner(F, f, a[j]) == if j < i then b[j] else 0
    requires forall j :: 0 <= j < n ==> Horner(F, f', a[j]) == Xor(Horner(F, f, a[j]), if j == i then b[i] else 0)
    ensures forall j :: 0 <= j < n ==> Horner(F, f', a[j]) == if j < i + 1 then b[j] else 0
  {
    forall j | 0 <= j < n
      ensures Horner(F, f', a[j]) == if j < i + 1 then b[j] else 0
    {
      XorZero(Horner(F, f, a[j]));
      XorZero(b[j]);
    }
  }

  /**
   * The i-th Lagrange term b[i] / u * prod_{j != i} (X + a[j]) takes the
   * value b[i] at a[i] and zero at every other locator.
   */
  lemma LagrangeTermValues(F: Field, a: seq<nat>, b: seq<nat>, n: int, i: int, t: seq<nat>)
    requires IsField(F) && 0 <= i < n && n <= |a| && n <= |b| && Distinct(a, n)
    requires t == Trim(Scaled(F, FromRoots(F, Others(a, i, n)), F.mul(F.inv(LocatorProduct(F, a, i, n)), b[i])))
    ensures forall j :: 0 <= j < n ==> Horner(F, t, a[j]) == if j == i then b[i] else 0
  {
    var p := FromRoots(F, Others(a, i, n));
    var d := LocatorProduct(F, a, i, n);
    var u := F.mul(F.inv(d), b[i]);
    forall j | 0 <= j < n
      ensures Horner(F, t, a[j]) == if j == i then b[i] else 0
    {
      HornerTrim(F, Scaled(F, p, u), a[j]);
      HornerTimesScalar(F, p, u, a[j]);
      HornerFromRoots(F, Others(a, i, n), a[j]);
      if j == i {
        LocatorIsRootProduct(F, a, i, n);
        LocatorProductZero(F, a, i, n);
        MulAssoc(F, d, F.inv(d), b[i]);
        MulComm(F, 1, b[i]);
      } else {
        OthersVanish(F, a, i, n, j);
        MulZeroLeft(F, u);
      }
    }
  }

  /**
   * Division by X + c is exact on a multiple of X + c: if p * (X + c) is
   * q * (X + c) + r with r of degree below one, q is p.
   */
  lemma DivideByRoot(F: Field, p: seq<nat>, c: nat, q: seq<nat>, r: seq<nat>)
    requires IsField(F) && Normalized(p) && Normalized(q) && |r| < 2
    requires forall k :: Coeff(LinMul(F, p, c), k) == Xor(Rows(F, q, [c, 1], k, 0, |q|), Coeff(r, k))
    ensures q == p
  {
    LinMulCoeff(F, p, c);
    forall k
      ensures Coeff(LinMul(F, p, c), k) == Xor(Xor(F.mul(Coeff(q, k), c), Coeff(q, k - 1)), Coeff(r, k))
    {
      RowsByLinear(F, q, c, k, |q|);
      assert q[..|q|] == q;
    }
    AgreeDown(F, p, c, q, r, 0);
    NormalizedUnique(q, p);
  }

  /** Coefficients of q and p agree from k up, by descent from above both lengths. */
  lemma {:induction false} AgreeDown(F: Field, p: seq<nat>, c: nat, q: seq<nat>, r: seq<nat>, k: int)
    requires IsField(F) && |r| < 2 && 0 <= k
    requires forall k :: Xor(F.mul(Coeff(p, k), c), Coeff(p, k - 1)) ==
                         Xor(Xor(F.mul(Coeff(q, k), c), Coeff(q, k - 1)), Coeff(r, k))
    ensures forall j :: j >= k ==> Coeff(q, j) == Coeff(p, j)
    decreases |p| + |q| - k
  {
    if k < |p| + |q| {
      AgreeDown(F, p, c, q, r, k + 1);
      var m := F.mul(Coeff(p, k + 1), c);
      assert Xor(m, Coeff(p, k)) == Xor(Xor(F.mul(Coeff(q, k + 1), c), Coeff(q, k)), Coeff(r, k + 1));
      XorZero(Xor(F.mul(Coeff(q, k + 1), c), Coeff(q, k)));
      XorLeftCancel(m, Coeff(p, k), Coeff(q, k));
    }
  }

  // ---------------------------------------------------------------------
  // Uniqueness of interpolation

  /**
   * Synthetic division by X + c: the cofactor q of p = (X + c) * q + p(c),
   * one coefficient shorter than p and with the same leading coefficient.
   */
  function Deflate(F: Field, p: seq<nat>, c: nat): (q: seq<nat>)
    ensures |q| == if |p| == 0 then 0 else |p| - 1
    ensures |p| >= 2 ==> q[|q| - 1] == p[|p| - 1]
  {
    if |p| <= 1 then [] else [Horner(F, p[1..], c)] + Deflate(F, p[1..], c)
  }

  /** The factor theorem: p(x) = (x + c) * q(x) + p(c) for the cofactor q of synthetic division. */
  lemma {:induction false} FactorTheorem(F: Field, p: seq<nat>, c: nat, x: nat)
    requires IsField(F)
    ensures Horner(F, p, x) == Xor(F.mul(Horner(F, Deflate(F, p, c), x), Xor(x, c)), Horner(F, p, c))
    decreases |p|
  {
    var e := Xor(x, c);
    if |p| <= 1 {
      MulComm(F, 0, e);
      XorZero(Horner(F, p, c));
    } else {
      var p', p0 := p[1..], p[0];
      var r, q' := Horner(F, p', c), Deflate(F, p', c);
      var Q := Horner(F, q', x);
      FactorTheorem(F, p', c, x);
      var M := F.mul(F.mul(Q, e), x);
      var rx, rc := F.mul(r, x), F.mul(r, c);
      // The left side: (Q e + r) x + p0.
      MulComm(F, Xor(F.mul(Q, e), r), x);
      MulDistrib(F, x, F.mul(Q, e), r);
      MulComm(F, x, F.mul(Q, e));
      MulComm(F, x, r);
      assert Horner(F, p, x) == Xor(Xor(M, rx), p0);
      // The right side: (Q x + r) e + (r c + p0).
      assert Deflate(F, p, c) == [r] + q' && ([r] + q')[1..] == q';
      HornerCons(F, [r] + q', x);
      MulComm(F, Xor(F.mul(Q, x), r), e);
      MulDistrib(F, e, F.mul(Q, x), r);
      MulComm(F, e, F.mul(Q, x));
      MulComm(F, e, r);
      MulDistrib(F, r, x, c);
      MulAssoc(F, Q, x, e);
      MulComm(F, x, e);
      MulAssoc(F, Q, e, x);
      MulComm(F, r, c);
      assert Horner(F, p, c) == Xor(rc, p0);
      assert F.mul(Horner(F, Deflate(F, p, c), x), e) == Xor(M, Xor(rx, rc));
      XorAssoc(M, rx, rc);
      XorAssoc(Xor(M, rx), rc, Xor(rc, p0));
      XorAssoc(rc, rc, p0);
      XorSelf(rc);
      XorZero(p0);
    }
  }

  /** A normalized polynomial with fewer coefficients than it has distinct roots is zero. */
  lemma {:induction false} VanishingIsZero(F: Field, p: seq<nat>, a: seq<nat>, n: int)
    requires IsField(F) && 0 <= n <= |a| && Distinct(a, n)
    requires Normalized(p) && |p| <= n
    requires forall j :: 0 <= j < n ==> Horner(F, p, a[j]) == 0
    ensures p == []
    decreases n
  {
    if p != [] {
      var c := a[n - 1];
      var q := Deflate(F, p, c);
      forall j | 0 <= j < n - 1
        ensures Horner(F, q, a[j]) == 0
      {
        FactorTheorem(F, p, c, a[j]);
        XorZero(F.mul(Horner(F, q, a[j]), Xor(a[j], c)));
        XorZeroIff(a[j], c);
      }
      VanishingIsZero(F, q, a, n - 1);
    }
  }

  /**
   * Interpolation is unique: two normalized polynomials with at most n
   * coefficients that take the same values at n distinct locators are
   * the same polynomial.
   */
  lemma InterpolationUnique(F: Field, p: seq<nat>, q: seq<nat>, a: seq<nat>, b: seq<nat>, n: int)
    requires IsField(F) && 0 <= n <= |a| && n <= |b| && Distinct(a, n)
    requires Normalized(p) && Normalized(q) && |p| <= n && |q| <= n
    requires forall j :: 0 <= j < n ==> Horner(F, p, a[j]) == b[j] && Horner(F, q, a[j]) == b[j]
    ensures p == q
  {
    var h := CoefficientSum(p, q, n);
    forall j | 0 <= j < n
      ensures Horner(F, h, a[j]) == 0
    {
      HornerXor(F, p, q, h, a[j]);
      XorSelf(b[j]);
    }
    VanishingIsZero(F, h, a, n);
    forall k
      ensures Coeff(p, k) == Coeff(q, k)
    {
      XorZeroIff(Coeff(p, k), Coeff(q, k));
    }
    NormalizedUnique(p, q);
  }

  /** The normalized coefficient-wise sum of two lists of at most n coefficients. */
  lemma CoefficientSum(p: seq<nat>, q: seq<nat>, n: nat) returns (h: seq<nat>)
    requires |p| <= n && |q| <= n
    ensures Normalized(h) && |h| <= n
    ensures forall k :: Coeff(h, k) == Xor(Coeff(p, k), Coeff(q, k))
  {
    var p', q' := p + Zeros(n - |p|), q + Zeros(n - |q|);
    var w := XorWords(p', q');
    h := Trim(w);
    TrimCoeff(w);
    forall k
      ensures Coeff(h, k) == Xor(Coeff(p, k), Coeff(q, k))
    {
      if 0 <= k < n {
        assert Coeff(p', k) == Coeff(p, k) && Coeff(q', k) == Coeff(q, k);
      } else {
        XorZero(0);
      }
    }
  }
}
