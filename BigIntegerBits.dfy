/**
 * The word loops of BigInteger's leftShift and rightShift: a shift by
 * n = 32k + m bits moves words by k places and bits by m places.
 */
module BigIntegerBits {
  import opened MathTools
  import opened BigIntegerLimbs

  lemma {:induction false} WPowIsPow2(k: nat)
    ensures WPow(k) == Pow2(32 * k)
    decreases k
  {
    if k > 0 {
      WPowIsPow2(k - 1);
      Pow2Add(32, 32 * (k - 1));
      Pow2Is64();
    }
  }

  /** 2^m * 2^(32 - m) is the range of a word. */
  lemma WordSplit(m: nat)
    requires m <= 32
    ensures Pow2(m) * Pow2(32 - m) == W
  {
    Pow2Add(m, 32 - m);
    Pow2Is64();
  }

  lemma ScaleSplit(x: int, d: int, r: int, p: int, q: int)
    requires x == d * q + r
    ensures p * x == d * (p * q) + p * r
  {
  }

  lemma ScaleBelow(r: nat, p: nat, q: nat)
    requires p >= 1 && r < q
    ensures p * r < p * q
  {
  }

  /** Scaling by p scales the modulus: (p x) mod (p q) = p (x mod q). */
  lemma ScaledMod(x: nat, p: nat, q: nat)
    requires p >= 1 && q >= 1
    ensures (p * x) % (p * q) == p * (x % q) && (p * x) / (p * q) == x / q
  {
    DivModSplit(x, q);
    ScaleSplit(x, x / q, x % q, p, q);
    ScaleBelow(x % q, p, q);
    DivModUnique(p * x, p * q, x / q, p * (x % q));
  }

  lemma DivBelow(x: nat, p: nat, q: nat)
    requires q >= 1 && x < p * q
    ensures x / q < p
  {
    DivModSplit(x, q);
    if x / q >= p {
      MulMonotone(p, x / q, q);
    }
  }

  /** A multiple of p below p q leaves room for one more number below p. */
  lemma MultipleRoom(y: nat, h: nat, p: nat, q: nat)
    requires p >= 1 && y % p == 0 && y < p * q && h < p
    ensures y + h < p * q
  {
    DivModSplit(y, p);
    var c := y / p;
    assert y == c * p;
    if c >= q {
      MulMonotone(q, c, p);
    }
    assert c + 1 <= q;
    MulMonotone(c + 1, q, p);
  }

  lemma ModShift(x: nat, p: nat, q: nat, r: nat)
    requires p >= 1
    ensures (x + p * (q * r)) % p == x % p
  {
    var t: nat := q * r;
    DivModSplit(x, p);
    DivModUnique(x + p * t, p, x / p + t, x % p);
  }

  lemma ShiftAlgebra(p: int, q: int, x: int, r: int, md: int, u: int)
    requires md == p * ((W * q) * r) && u == x * p
    ensures md + q * u == p * (q * (x + W * r))
  {
  }

  // ---------------------------------------------------------------------
  // leftShift

  /**
   * One word of leftShift: x * 2^m is split into its high part, or'ed
   * into word p + 1, and its low part, or'ed into the still zero word p.
   */
  lemma LeftShiftStep(d: seq<nat>, p: nat, x: nat, m: nat)
    requires m < 32 && x < W && p + 1 < |d| && IsWords(d)
    requires d[p] == 0 && d[p + 1] % Pow2(m) == 0
    ensures var u := x * Pow2(m);
            var d' := d[p + 1 := Or(d[p + 1], u / W)][p := Or(d[p], u % W)];
            IsWords(d') && d'[p] % Pow2(m) == 0
            && Mag(d') == Mag(d) + WPow(p) * u
  {
    var u := x * Pow2(m);
    var hi, lo := u / W, u % W;
    WordSplit(m);
    WordParts(x, d[p + 1], Pow2(m), Pow2(32 - m), W);
    OrDisjoint(d[p + 1], hi, m);
    assert Or(d[p], lo) == lo;
    PlaceWords(d, p, hi, lo, u, Pow2(m));
  }

  /** Adding hi at word p + 1 and setting the zero word p to lo adds (hi W + lo) W^p. */
  lemma PlaceWords(d: seq<nat>, p: nat, hi: nat, lo: nat, u: nat, P: nat)
    requires p + 1 < |d| && IsWords(d) && d[p] == 0 && d[p + 1] + hi < W && lo < W
    requires u == hi * W + lo && P >= 1 && lo % P == 0
    ensures var d' := d[p + 1 := d[p + 1] + hi][p := lo];
            IsWords(d') && d'[p] % P == 0 && Mag(d') == Mag(d) + WPow(p) * u
  {
    var d1 := d[p + 1 := d[p + 1] + hi];
    var d2 := d1[p := lo];
    MagUpdate(d, p + 1, d[p + 1] + hi);
    MagUpdate(d1, p, lo);
    assert WPow(p + 1) == W * WPow(p);
    LeftStepAlgebra(Mag(d), Mag(d1), Mag(d2), WPow(p), WPow(p + 1), d[p + 1], d1[p], hi, lo, u);
  }

  /**
   * x * P for a word x split at the word boundary w = P * Q: the high part
   * is below P and fits on top of a multiple y of P; the low part is a
   * multiple of P.
   */
  lemma WordParts(x: nat, y: nat, P: nat, Q: nat, w: nat)
    requires P >= 1 && Q >= 1 && P * Q == w && x < w && y % P == 0 && y < w
    ensures (x * P) / w < P && ((x * P) % w) % P == 0 && y + (x * P) / w < w
    ensures x * P == ((x * P) / w) * w + (x * P) % w
  {
    ScaledMod(x, P, Q);
    assert P * x == x * P;
    DivBelow(x, P, Q);
    MultipleMod(x % Q, P);
    MultipleRoom(y, (x * P) / w, P, Q);
    DivModSplit(x * P, w);
  }

  lemma LeftStepAlgebra(md: int, md1: int, md2: int, q: int, q1: int, y: int, e: int,
                        hi: int, lo: int, u: int)
    requires md1 + q1 * y == md + q1 * (y + hi) && q1 == W * q
    requires md2 + q * e == md1 + q * lo && e == 0
    requires u == hi * W + lo
    ensures md2 == md + q * u
  {
  }

  /**
   * One turn of leftShift's loop: b[i] * 2^m is or'ed into words k + i
   * and k + i + 1.
   */
  method LeftShiftWord(b: seq<nat>, k: nat, m: nat, d: seq<nat>, i: nat) returns (d': seq<nat>)
    requires IsWords(b) && m < 32 && i < |b| && |d| == k + |b| + 1 && IsWords(d)
    requires forall t :: 0 <= t <= k + i ==> d[t] == 0
    requires d[k + i + 1] % Pow2(m) == 0
    requires Mag(d) == Pow2(m) * (WPow(k + i + 1) * Mag(b[i + 1..]))
    ensures |d'| == |d| && IsWords(d') && d'[k + i] % Pow2(m) == 0
    ensures forall t :: 0 <= t < k + i ==> d'[t] == 0
    ensures Mag(d') == Pow2(m) * (WPow(k + i) * Mag(b[i..]))
  {
    var u: nat := b[i] * Pow2(m);
    LeftShiftStep(d, k + i, b[i], m);
    d' := d[k + i + 1 := Or(d[k + i + 1], u / W)];
    d' := d'[k + i := Or(d'[k + i], u % W)];
    MagFront(b[i..]);
    assert b[i..][1..] == b[i + 1..];
    ShiftAlgebra(Pow2(m), WPow(k + i), b[i], Mag(b[i + 1..]), Mag(d), u);
  }

  /**
   * The word loop of leftShift: d starts as zeros and receives b shifted
   * left by k words and m bits, from the top word of b down.
   */
  method ShiftWordsLeft(b: seq<nat>, k: nat, m: nat, d0: seq<nat>) returns (d: seq<nat>)
    requires IsWords(b) && m < 32 && |d0| == k + |b| + 1
    requires forall t :: 0 <= t < |d0| ==> d0[t] == 0
    ensures |d| == |d0| && IsWords(d)
    ensures Mag(d) == Pow2(m) * (WPow(k) * Mag(b))
  {
    d := d0;
    assert d0 == Zeros(|d0|);
    MagZeros(|d0|);
    assert b[|b|..] == [];
    var i := |b| - 1;
    while i >= 0
      invariant -1 <= i < |b|
      invariant |d| == |d0| && IsWords(d)
      invariant forall t :: 0 <= t <= k + i ==> d[t] == 0
      invariant d[k + i + 1] % Pow2(m) == 0
      invariant Mag(d) == Pow2(m) * (WPow(k + i + 1) * Mag(b[i + 1..]))
    {
      d := LeftShiftWord(b, k, m, d, i);
      i := i - 1;
    }
    assert b[0..] == b;
  }

  // ---------------------------------------------------------------------
  // rightShift

  /**
   * Word j of rightShift's result: the high 32 - m bits of x, which is
   * b[j], with the low m bits of y, which is b[j + 1] or 0 at the top.
   */
  function RightWord(x: nat, y: nat, m: nat): nat
    requires m < 32
  {
    x / Pow2(m) + (y % Pow2(m)) * Pow2(32 - m)
  }

  /** The words of b shifted right by m < 32 bits. */
  function RightWords(b: seq<nat>, m: nat): (r: seq<nat>)
    requires m < 32
    ensures |r| == |b|
  {
    seq(|b|, j requires 0 <= j < |b| => RightWord(b[j], if j + 1 < |b| then b[j + 1] else 0, m))
  }

  lemma RightWordBound(x: nat, y: nat, m: nat)
    requires m < 32 && x < W
    ensures RightWord(x, y, m) < W
  {
    WordSplit(m);
    RightWordParts(x, y, Pow2(m), Pow2(32 - m), W);
  }

  lemma RightWordParts(x: nat, y: nat, P: nat, Q: nat, w: nat)
    requires P >= 1 && Q >= 1 && P * Q == w && x < w
    ensures x / P + (y % P) * Q < w
  {
    DivBelow(x, Q, P);
    assert y % P <= P - 1;
    MulMonotone(y % P, P - 1, Q);
    assert (P - 1) * Q == w - Q;
  }

  /** The shifted words are words. */
  lemma RightWordsAreWords(b: seq<nat>, m: nat)
    requires m < 32 && IsWords(b)
    ensures IsWords(RightWords(b, m))
  {
    var r := RightWords(b, m);
    forall j | 0 <= j < |b|
      ensures r[j] < W
    {
      RightWordBound(b[j], if j + 1 < |b| then b[j + 1] else 0, m);
    }
  }

  /** The value of the shifted words is Mag(b) / 2^m. */
  lemma {:induction false} MagRightWords(b: seq<nat>, m: nat)
    requires m < 32
    ensures Mag(RightWords(b, m)) == Mag(b) / Pow2(m)
    decreases |b|
  {
    var P, Q := Pow2(m), Pow2(32 - m);
    var r := RightWords(b, m);
    if |b| == 0 {
      assert Mag(b) == 0;
    } else if |b| == 1 {
      MagRightWord(b[0], m);
      assert b == [b[0]];
    } else {
      MagRightWords(b[1..], m);
      MagRightWordsFront(b, m);
    }
  }

  lemma MagRightWord(x: nat, m: nat)
    requires m < 32
    ensures Mag(RightWords([x], m)) == Mag([x]) / Pow2(m)
  {
    assert RightWords([x], m) == [RightWord(x, 0, m)];
    MagSingle(RightWord(x, 0, m));
    MagSingle(x);
    assert 0 % Pow2(m) == 0;
  }

  /** The step of MagRightWords for at least two words, given it for b[1..]. */
  lemma MagRightWordsFront(b: seq<nat>, m: nat)
    requires m < 32 && |b| >= 2
    requires Mag(RightWords(b[1..], m)) == Mag(b[1..]) / Pow2(m)
    ensures Mag(RightWords(b, m)) == Mag(b) / Pow2(m)
  {
    var b' := b[1..];
    RightWordsCons(b, m);
    MagFront(b);
    MagFront(b');
    RightShiftAlgebra(b[0], b'[0], Mag(b'), Mag(b'[1..]), m);
  }

  lemma RightWordsCons(b: seq<nat>, m: nat)
    requires m < 32 && |b| >= 2
    ensures Mag(RightWords(b, m)) == RightWord(b[0], b[1], m) + W * Mag(RightWords(b[1..], m))
  {
    var r, r' := RightWords(b, m), RightWords(b[1..], m);
    assert r == [r[0]] + r';
    MagCons(r[0], r');
  }

  lemma MagFront(b: seq<nat>)
    requires |b| >= 1
    ensures Mag(b) == b[0] + W * Mag(b[1..])
  {
    assert b == [b[0]] + b[1..];
    MagCons(b[0], b[1..]);
  }

  /**
   * Front step of MagRightWords: with x the low word and M the value of
   * the words above it, whose low word is y, (x + W M) / 2^m is word 0 of
   * the shifted words plus W (M / 2^m).
   */
  lemma RightShiftAlgebra(x: nat, y: nat, M: nat, R: nat, m: nat)
    requires m < 32 && M == y + W * R
    ensures (x + W * M) / Pow2(m) == RightWord(x, y, m) + W * (M / Pow2(m))
  {
    WordSplit(m);
    ModShift(y, Pow2(m), Pow2(32 - m), R);
    ShiftDivAlgebra(x, y, M, R, Pow2(m), Pow2(32 - m));
  }

  lemma ShiftDivAlgebra(x: nat, y: nat, M: nat, R: nat, P: nat, Q: nat)
    requires P >= 1 && Q >= 1 && P * Q == W
    requires M == y + W * R && (y + P * (Q * R)) % P == y % P
    ensures (x + W * M) / P == x / P + (y % P) * Q + W * (M / P)
  {
    assert W * R == P * (Q * R);
    assert M % P == y % P;
    DivModSplit(M, P);
    DivModSplit(x, P);
    var t := x / P + (y % P) * Q + W * (M / P);
    assert x + W * M == t * P + x % P by {
      assert W * M == P * Q * ((M / P) * P + M % P);
    }
    DivModUnique(x + W * M, P, t, x % P);
  }

  /** Dropping the low k words divides by W^k. */
  lemma MagDropWords(b: seq<nat>, k: nat)
    requires k <= |b| && IsWords(b)
    ensures Mag(b[k..]) == Mag(b) / WPow(k)
  {
    MagSplit(b, k);
    MagBound(b[..k]);
    SplitDiv(Mag(b), WPow(k), Mag(b[k..]), Mag(b[..k]));
  }

  lemma SplitDiv(x: nat, p: nat, q: nat, r: nat)
    requires p >= 1 && x == r + p * q && r < p
    ensures x / p == q
  {
    DivModUnique(x, p, q, r);
  }

  lemma DivDiv(x: nat, a: nat, b: nat)
    requires a >= 1 && b >= 1
    ensures (x / a) / b == x / (a * b)
  {
    DivModSplit(x, a);
    DivModSplit(x / a, b);
    var q1, r1 := x / a, x % a;
    var q2, r2 := q1 / b, q1 % b;
    assert x == q2 * (a * b) + (a * r2 + r1) by {
      assert x == q1 * a + r1;
      assert q1 == q2 * b + r2;
      Distrib3(q2 * b, r2, 0, a);
      MulRotate(q2, a, b);
    }
    MulMonotone(r2, b - 1, a);
    DivModUnique(x, a * b, q2, a * r2 + r1);
  }

  /**
   * The word loop of rightShift, for k < |b| words to drop: word i - k of
   * the result is b[i] shifted right by m, plus the low m bits of b[i + 1]
   * on top.
   */
  method ShiftWordsRight(b: seq<nat>, k: nat, m: nat, d0: seq<nat>) returns (d: seq<nat>)
    requires m < 32 && k < |b| && |d0| >= |b| - k
    ensures |d| == |d0| && d[..|b| - k] == RightWords(b[k..], m)
    ensures d[|b| - k..] == d0[|b| - k..]
  {
    d := d0;
    var i := k;
    while i < |b|
      invariant k <= i <= |b| && |d| == |d0|
      invariant forall j :: 0 <= j < i - k ==> d[j] == RightWords(b[k..], m)[j]
      invariant d[|b| - k..] == d0[|b| - k..]
    {
      var x := ShiftedWord(b, k, m, i);
      d := d[i - k := x];
      i := i + 1;
    }
    assert d[..|b| - k] == RightWords(b[k..], m);
  }

  /** Word i - k of rightShift's result: b[i] >> m, with b[i + 1] << (32 - m) ORed in below the top word. */
  method ShiftedWord(b: seq<nat>, k: nat, m: nat, i: nat) returns (x: nat)
    requires m < 32 && k <= i < |b|
    ensures x == RightWords(b[k..], m)[i - k]
  {
    x := RightWord(b[i], if i + 1 < |b| then b[i + 1] else 0, m);
    WordOfSuffix(b, k, i);
  }

  /** Word i - k of b[k..] and the word above it are those at i in b. */
  lemma WordOfSuffix(b: seq<nat>, k: nat, i: nat)
    requires k <= i < |b|
    ensures b[k..][i - k] == b[i]
    ensures i + 1 < |b| ==> b[k..][i - k + 1] == b[i + 1]
  {
  }

  /** The value of rightShift's words: Mag(b) / 2^(32k + m). */
  lemma MagShiftRight(b: seq<nat>, k: nat, m: nat)
    requires m < 32 && k <= |b| && IsWords(b)
    ensures IsWords(RightWords(b[k..], m))
    ensures Mag(RightWords(b[k..], m)) == Mag(b) / Pow2(32 * k + m)
  {
    RightWordsAreWords(b[k..], m);
    MagRightWords(b[k..], m);
    MagDropWords(b, k);
    DivDiv(Mag(b), WPow(k), Pow2(m));
    WPowIsPow2(k);
    Pow2Add(32 * k, m);
  }

  /** The value of leftShift's words: Mag(b) * 2^(32k + m). */
  lemma MagShiftLeft(mb: nat, k: nat, m: nat)
    ensures Pow2(m) * (WPow(k) * mb) == mb * Pow2(32 * k + m)
  {
    WPowIsPow2(k);
    Pow2Add(32 * k, m);
    MulRotate(Pow2(m), WPow(k), mb);
  }
}
