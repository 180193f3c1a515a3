/**
 * Bit tools of the library (MathTools): bit counting on 64-bit words,
 * carry-less multiplication of 32-bit words and the word-array helpers
 * mxor32, zeroTest32 and hd32.
 *
 * A machine word is a natural number below 2^32 or 2^64; the bitwise
 * operators `^` and `&` are defined bit by bit on naturals (Xor, And), so
 * that the proofs reason by induction on the binary digits.
 */
module MathTools {

  const WORD32: nat := 0x1_0000_0000
  const WORD64: nat := 0x1_0000_0000_0000_0000

  /** An 8-bit unsigned integer. */
  type Byte = x: nat | x < 256

  function Pow2(e: nat): (r: nat)
    ensures r >= 1
  {
    if e == 0 then 1 else 2 * Pow2(e - 1)
  }

  lemma {:induction false} Pow2Monotone(a: nat, b: nat)
    requires a <= b
    ensures Pow2(a) <= Pow2(b)
    decreases b
  {
    if a < b {
      Pow2Monotone(a, b - 1);
    }
  }

  lemma {:induction false} Pow2Add(a: nat, b: nat)
    ensures Pow2(a + b) == Pow2(a) * Pow2(b)
    decreases a
  {
    if a > 0 {
      Pow2Add(a - 1, b);
    }
  }

  lemma Pow2Is64()
    ensures Pow2(32) == WORD32
    ensures Pow2(64) == WORD64
  {
    assert Pow2(8) == 256;
    Pow2Add(8, 8);
    Pow2Add(16, 16);
    Pow2Add(32, 32);
  }

  /** Number of set bits (population count) of n. */
  function Weight(n: nat): nat
  {
    if n == 0 then 0 else n % 2 + Weight(n / 2)
  }

  /** Bitwise exclusive or of two naturals. */
  function Xor(a: nat, b: nat): nat
    decreases a + b
  {
    if a == 0 && b == 0 then 0
    else 2 * Xor(a / 2, b / 2) + (a % 2 + b % 2) % 2
  }

  /** Bitwise and of two naturals. */
  function And(a: nat, b: nat): nat
    decreases a + b
  {
    if a == 0 || b == 0 then 0
    else 2 * And(a / 2, b / 2) + (if a % 2 == 1 && b % 2 == 1 then 1 else 0)
  }

  /** Bitwise or of two naturals. */
  function Or(a: nat, b: nat): nat
    decreases a + b
  {
    if a == 0 then b
    else if b == 0 then a
    else 2 * Or(a / 2, b / 2) + (if a % 2 == 1 || b % 2 == 1 then 1 else 0)
  }

  // ---------------------------------------------------------------------
  // Algebra of Xor and And

  lemma {:induction false} XorZero(a: nat)
    ensures Xor(a, 0) == a && Xor(0, a) == a
    decreases a
  {
    if a != 0 {
      XorZero(a / 2);
    }
  }

  lemma {:induction false} XorSelf(a: nat)
    ensures Xor(a, a) == 0
    decreases a
  {
    if a != 0 {
      XorSelf(a / 2);
    }
  }

  /** Equal words are exactly those whose Xor is zero. */
  lemma {:induction false} XorZeroIff(a: nat, b: nat)
    ensures Xor(a, b) == 0 <==> a == b
    decreases a + b
  {
    if a == b {
      XorSelf(a);
    } else if a + b > 0 {
      XorZeroIff(a / 2, b / 2);
    }
  }

  lemma {:induction false} XorComm(a: nat, b: nat)
    ensures Xor(a, b) == Xor(b, a)
    decreases a + b
  {
    if a != 0 || b != 0 {
      XorComm(a / 2, b / 2);
    }
  }

  lemma XorDigits(a: nat, b: nat)
    ensures Xor(a, b) % 2 == (a % 2 + b % 2) % 2
    ensures Xor(a, b) / 2 == Xor(a / 2, b / 2)
  {
    if a == 0 && b == 0 {
      XorZero(0);
    } else {
      var x := Xor(a / 2, b / 2);
      var d := (a % 2 + b % 2) % 2;
      assert Xor(a, b) == 2 * x + d;
    }
  }

  lemma {:induction false} XorAssoc(a: nat, b: nat, c: nat)
    ensures Xor(Xor(a, b), c) == Xor(a, Xor(b, c))
    decreases a + b + c
  {
    if a == 0 && b == 0 {
      XorZero(c);
    } else {
      var ab := Xor(a, b);
      var bc := Xor(b, c);
      XorDigits(a, b);
      XorDigits(b, c);
      XorDigits(ab, c);
      XorDigits(a, bc);
      XorAssoc(a / 2, b / 2, c / 2);
      ParityAssoc(a % 2, b % 2, c % 2);
      DigitsEqual(Xor(ab, c), Xor(a, bc));
    }
  }

  lemma ParityAssoc(x: nat, y: nat, z: nat)
    requires x < 2 && y < 2 && z < 2
    ensures ((x + y) % 2 + z) % 2 == (x + (y + z) % 2) % 2
  {
  }

  lemma DigitsEqual(l: nat, r: nat)
    requires l % 2 == r % 2 && l / 2 == r / 2
    ensures l == r
  {
  }

  /** Doubling is a left shift by one, which distributes over Xor. */
  lemma XorDouble(a: nat, b: nat)
    ensures Xor(2 * a, 2 * b) == 2 * Xor(a, b)
  {
    if a == 0 && b == 0 {
      XorZero(0);
    }
  }

  /** Xor with a single low bit sets that bit of an even number. */
  lemma XorLowBit(m: nat, c: nat)
    requires c < 2
    ensures Xor(2 * m, c) == 2 * m + c
  {
    if m == 0 {
      XorZero(c);
    } else {
      XorZero(m);
    }
  }

  lemma XorShuffle(a: nat, b: nat, c: nat, d: nat)
    ensures Xor(Xor(a, b), Xor(c, d)) == Xor(Xor(a, c), Xor(b, d))
  {
    XorAssoc(a, b, Xor(c, d));
    XorAssoc(b, c, d);
    XorComm(b, c);
    XorAssoc(c, b, d);
    XorAssoc(a, c, Xor(b, d));
  }

  /** Xor-ing the same word twice undoes it. */
  lemma XorCancel(a: nat, b: nat)
    ensures Xor(Xor(a, b), b) == a
  {
    XorAssoc(a, b, b);
    XorSelf(b);
    XorZero(a);
  }

  /**
   * Or of a multiple of 2^m and a number below 2^m: the bits do not
   * overlap, so the or is the sum.
   */
  lemma {:induction false} OrDisjoint(x: nat, y: nat, m: nat)
    requires x % Pow2(m) == 0 && y < Pow2(m)
    ensures Or(x, y) == x + y
    decreases m
  {
    if x != 0 && y != 0 {
      assert m > 0;
      var q := x / Pow2(m);
      assert x == 2 * (Pow2(m - 1) * q);
      assert x / 2 == Pow2(m - 1) * q;
      MultipleMod(q, Pow2(m - 1));
      OrDisjoint(x / 2, y / 2, m - 1);
    }
  }

  lemma MultipleMod(q: nat, p: nat)
    requires p >= 1
    ensures (p * q) % p == 0
  {
    var d, r := (p * q) / p, (p * q) % p;
    assert p * (q - d) == r;
    if q - d >= 1 {
      AtLeastOnce(p, q - d);
    } else if q - d <= -1 {
      AtLeastOnce(p, d - q);
    }
  }

  lemma AtLeastOnce(p: nat, e: int)
    requires e >= 1
    ensures p * e >= p
  {
  }

  lemma {:induction false} AndSelf(a: nat)
    ensures And(a, a) == a
    decreases a
  {
    if a != 0 {
      AndSelf(a / 2);
    }
  }

  lemma {:induction false} WeightDouble(m: nat)
    ensures Weight(2 * m) == Weight(m)
  {
  }

  /**
   * Kernighan's step: `n & (n - 1)` clears the lowest set bit of a nonzero
   * n, so it has exactly one set bit fewer.
   */
  lemma {:induction false} ClearLowestBit(n: nat)
    requires n > 0
    ensures Weight(And(n, n - 1)) + 1 == Weight(n)
    ensures And(n, n - 1) < n
    decreases n
  {
    if n % 2 == 1 {
      assert (n - 1) / 2 == n / 2;
      AndSelf(n / 2);
      assert And(n, n - 1) == n - 1;
    } else {
      var m := n / 2;
      assert (n - 1) / 2 == m - 1;
      ClearLowestBit(m);
      assert And(n, n - 1) == 2 * And(m, m - 1);
      WeightDouble(And(m, m - 1));
    }
  }

  /** A number below 2^k has at most k set bits. */
  lemma {:induction false} WeightBound(n: nat, k: nat)
    requires n < Pow2(k)
    ensures Weight(n) <= k
    decreases k
  {
    if k > 0 && n > 0 {
      WeightBound(n / 2, k - 1);
    }
  }

  // ---------------------------------------------------------------------
  // numBits and hammingWeight (MathTools.cpp:108-155)

  /** Number of binary digits of n, digit by digit. */
  function Digits(n: nat): nat
  {
    if n == 0 then 0 else 1 + Digits(n / 2)
  }

  /** Digits(n) is the least b with n < 2^b. */
  lemma {:induction false} DigitsIsLeastPower(n: nat)
    ensures n < Pow2(Digits(n))
    ensures n == 0 || Pow2(Digits(n) - 1) <= n
    decreases n
  {
    if n > 0 {
      DigitsIsLeastPower(n / 2);
    }
  }

  /** numBits: the number of binary digits of n, the least b with n < 2^b. */
  method NumBits(n0: nat) returns (b: nat)
    requires n0 < WORD64
    ensures b == Digits(n0)
    ensures n0 < Pow2(b)
    ensures b == 0 || Pow2(b - 1) <= n0
    ensures b <= 64
  {
    var n := n0;
    b := 0;
    while n != 0
      invariant b + Digits(n) == Digits(n0)
      decreases n
    {
      n := n / 2;
      b := b + 1;
    }
    DigitsIsLeastPower(n0);
    if b > 64 {
      Pow2Monotone(64, b - 1);
      Pow2Is64();
    }
  }

  /** Brian Kernighan's population count. */
  method HammingWeight(n0: nat) returns (w: nat)
    requires n0 < WORD64
    ensures w == Weight(n0)
    ensures w <= 64
  {
    var n := n0;
    w := 0;
    while n != 0
      invariant w + Weight(n) == Weight(n0)
      decreases n
    {
      ClearLowestBit(n);
      n := And(n, n - 1);
      w := w + 1;
    }
    Pow2Is64();
    WeightBound(n0, 64);
  }

  // ---------------------------------------------------------------------
  // clmul (MathTools.cpp:177-196)

  /** Carry-less (GF(2)[X]) product: b is added for each set bit of a. */
  function ClProduct(a: nat, b: nat): nat
  {
    if a == 0 then 0
    else Xor(if a % 2 == 1 then b else 0, ClProduct(a / 2, 2 * b))
  }

  lemma {:induction false} ClProductShift(a: nat, b: nat)
    ensures ClProduct(a, 2 * b) == 2 * ClProduct(a, b)
    decreases a
  {
    if a != 0 {
      ClProductShift(a / 2, 2 * b);
      XorDouble(if a % 2 == 1 then b else 0, ClProduct(a / 2, 2 * b));
    }
  }

  lemma {:induction false} ClProductXor(a: nat, b: nat, c: nat)
    ensures ClProduct(a, Xor(b, c)) == Xor(ClProduct(a, b), ClProduct(a, c))
    decreases a
  {
    if a == 0 {
      XorZero(0);
    } else {
      ClProductXor(a / 2, 2 * b, 2 * c);
      XorDouble(b, c);
      if a % 2 == 1 {
        XorShuffle(b, c, ClProduct(a / 2, 2 * b), ClProduct(a / 2, 2 * c));
      } else {
        XorZero(ClProduct(a / 2, 2 * b));
        XorZero(ClProduct(a / 2, 2 * c));
        XorZero(ClProduct(a / 2, 2 * Xor(b, c)));
      }
    }
  }

  lemma {:induction false} ClProductOne(a: nat)
    ensures ClProduct(a, 1) == a
    decreases a
  {
    if a != 0 {
      ClProductShift(a / 2, 1);
      ClProductOne(a / 2);
      XorComm(if a % 2 == 1 then 1 else 0, 2 * (a / 2));
      XorLowBit(a / 2, if a % 2 == 1 then 1 else 0);
    }
  }

  /** The carry-less product is symmetric in its arguments. */
  lemma {:induction false} ClProductComm(a: nat, b: nat)
    ensures ClProduct(a, b) == ClProduct(b, a)
    decreases b
  {
    if b == 0 {
      if a != 0 {
        ClProductZero(a);
      }
    } else {
      var b0: nat := if b % 2 == 1 then 1 else 0;
      XorLowBit(b / 2, b0);
      assert b == Xor(2 * (b / 2), b0);
      ClProductXor(a, 2 * (b / 2), b0);
      ClProductShift(a, b / 2);
      ClProductComm(a, b / 2);
      ClProductShift(b / 2, a);
      if b0 == 1 {
        ClProductOne(a);
      } else {
        ClProductZero(a);
      }
      XorComm(2 * ClProduct(b / 2, a), if b % 2 == 1 then a else 0);
    }
  }

  lemma {:induction false} ClProductZero(a: nat)
    ensures ClProduct(a, 0) == 0
    decreases a
  {
    if a != 0 {
      ClProductZero(a / 2);
      XorZero(0);
    }
  }

  /** clmul: carry-less product of two 32-bit words, smaller operand driving the loop. */
  method Clmul(a: nat, b: nat) returns (c: nat)
    requires a < WORD32 && b < WORD32
    ensures c == ClProduct(a, b)
    ensures c == ClProduct(b, a)
  {
    var x, y;
    if a < b {
      x, y := a, b;
    } else {
      x, y := b, a;
    }
    ClProductComm(a, b);
    c := 0;
    XorZero(ClProduct(x, y));
    while x != 0
      invariant Xor(c, ClProduct(x, y)) == ClProduct(a, b)
      decreases x
    {
      if x % 2 == 1 {
        XorAssoc(c, y, ClProduct(x / 2, 2 * y));
        c := Xor(c, y);
      } else {
        XorZero(ClProduct(x / 2, 2 * y));
      }
      y := 2 * y;
      x := x / 2;
    }
    XorZero(c);
  }

  // ---------------------------------------------------------------------
  // Word-array helpers (MathTools.cpp:575-585, 731-739, 872-886)

  /** Entrywise Xor of two word sequences. */
  function XorWords(v: seq<nat>, w: seq<nat>): (r: seq<nat>)
    requires |v| == |w|
    ensures |r| == |v|
    ensures forall i :: 0 <= i < |r| ==> r[i] == Xor(v[i], w[i])
  {
    if |v| == 0 then [] else XorWords(v[..|v| - 1], w[..|w| - 1]) + [Xor(v[|v| - 1], w[|w| - 1])]
  }

  /** Number of differing bits between two word sequences. */
  function Distance(v: seq<nat>, w: seq<nat>): nat
    requires |v| == |w|
  {
    if |v| == 0 then 0
    else Distance(v[..|v| - 1], w[..|w| - 1]) + Weight(Xor(v[|v| - 1], w[|w| - 1]))
  }

  lemma {:induction false} DistanceSelf(v: seq<nat>)
    ensures Distance(v, v) == 0
    decreases |v|
  {
    if |v| > 0 {
      DistanceSelf(v[..|v| - 1]);
      XorSelf(v[|v| - 1]);
    }
  }

  lemma {:induction false} DistanceSymmetric(v: seq<nat>, w: seq<nat>)
    requires |v| == |w|
    ensures Distance(v, w) == Distance(w, v)
    decreases |v|
  {
    if |v| > 0 {
      DistanceSymmetric(v[..|v| - 1], w[..|w| - 1]);
      XorComm(v[|v| - 1], w[|w| - 1]);
    }
  }

  /** mxor32: out[i] = in1[i] ^ in2[i] for i < n; out may be one of the inputs. */
  method Mxor32(output: array<nat>, in1: array<nat>, in2: array<nat>, n: nat)
    requires n <= output.Length && n <= in1.Length && n <= in2.Length
    modifies output
    ensures output[..n] == XorWords(old(in1[..n]), old(in2[..n]))
    ensures output[n..] == old(output[n..])
  {
    ghost var a := in1[..n];
    ghost var b := in2[..n];
    var i := 0;
    while i < n
      invariant 0 <= i <= n
      invariant forall j :: 0 <= j < i ==> output[j] == Xor(a[j], b[j])
      invariant forall j :: i <= j < n ==> in1[j] == a[j] && in2[j] == b[j]
      invariant output[n..] == old(output[n..])
    {
      output[i] := Xor(in1[i], in2[i]);
      i := i + 1;
    }
  }

  /** zeroTest32: true iff the first n words are all zero. */
  method ZeroTest32(v: array<nat>, n: nat) returns (z: bool)
    requires n <= v.Length
    ensures z <==> forall j :: 0 <= j < n ==> v[j] == 0
  {
    var i := 0;
    while i < n
      invariant 0 <= i <= n
      invariant forall j :: 0 <= j < i ==> v[j] == 0
    {
      if v[i] != 0 {
        return false;
      }
      i := i + 1;
    }
    return true;
  }

  /** hd32: number of bit positions in which the first n words differ. */
  method Hd32(v: array<nat>, w: array<nat>, n: nat) returns (hd: nat)
    requires n <= v.Length && n <= w.Length
    ensures hd == Distance(v[..n], w[..n])
  {
    hd := 0;
    var i := 0;
    while i < n
      invariant 0 <= i <= n
      invariant hd == Distance(v[..i], w[..i])
    {
      assert v[..i + 1][..i] == v[..i] && w[..i + 1][..i] == w[..i];
      hd := hd + Weight(Xor(v[i], w[i]));
      i := i + 1;
    }
    assert v[..n] == v[..i] && w[..n] == w[..i];
  }
}
