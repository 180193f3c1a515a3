/**
 * The word-array arithmetic under BigInteger (the file-local functions
 * compare, add, sub, mul and div of BigInteger.cpp). A magnitude is an
 * array of 32-bit words, least significant first; its value is Mag.
 */
module BigIntegerLimbs {

  const W: nat := 0x1_0000_0000

  /** W^n, the weight of word n. */
  function WPow(n: nat): (r: nat)
    ensures r >= 1
  {
    if n == 0 then 1 else W * WPow(n - 1)
  }

  /** Every entry is a 32-bit word. */
  ghost predicate IsWords(a: seq<nat>)
  {
    forall i :: 0 <= i < |a| ==> a[i] < W
  }

  /** The value of a word array, least significant word first. */
  function Mag(a: seq<nat>): nat
  {
    if |a| == 0 then 0 else Mag(a[..|a| - 1]) + a[|a| - 1] * WPow(|a| - 1)
  }

  function Zeros(n: nat): (r: seq<nat>)
    ensures |r| == n && forall i :: 0 <= i < n ==> r[i] == 0
  {
    seq(n, _ => 0)
  }

  // ---------------------------------------------------------------------
  // Arithmetic facts about Mag

  lemma {:induction false} WPowAdd(a: nat, b: nat)
    ensures WPow(a + b) == WPow(a) * WPow(b)
    decreases a
  {
    if a > 0 {
      WPowAdd(a - 1, b);
      assert WPow(a + b) == W * WPow(a - 1 + b);
    }
  }

  lemma WPowMonotone(a: nat, b: nat)
    requires a <= b
    ensures WPow(a) <= WPow(b)
  {
    WPowAdd(a, b - a);
    MulAtLeast(WPow(a), WPow(b - a));
  }

  lemma MulAtLeast(x: nat, y: nat)
    requires y >= 1
    ensures x * y >= x && y * x >= x
  {
  }

  lemma MulMonotone(x: nat, y: nat, p: nat)
    requires x <= y
    ensures x * p <= y * p
  {
  }

  lemma Distrib(x: int, y: int, z: int)
    ensures x * (y + z) == x * y + x * z
  {
  }

  lemma Distrib3(x: int, y: int, z: int, p: int)
    ensures (x + y + z) * p == x * p + y * p + z * p
  {
  }

  lemma SuccMul(x: int, w: int)
    ensures (x + 1) * w == x * w + w
  {
  }

  lemma MulRotate(x: int, y: int, z: int)
    ensures x * (y * z) == y * (x * z)
  {
  }

  /** Dropping the top word: the definition read the other way. */
  lemma MagSnoc(a: seq<nat>, x: nat)
    ensures Mag(a + [x]) == Mag(a) + x * WPow(|a|)
  {
    assert (a + [x])[..|a|] == a;
  }

  /** A word array of length n is below W^n. */
  lemma {:induction false} MagBound(a: seq<nat>)
    requires IsWords(a)
    ensures Mag(a) < WPow(|a|)
    decreases |a|
  {
    if |a| > 0 {
      var k := |a| - 1;
      MagBound(a[..k]);
      MulMonotone(a[k], W - 1, WPow(k));
      assert (W - 1) * WPow(k) == WPow(k + 1) - WPow(k);
    }
  }

  /** A word array is at least any one of its words times that word's weight. */
  lemma {:induction false} MagAtLeastWord(a: seq<nat>, i: nat)
    requires i < |a|
    ensures Mag(a) >= a[i] * WPow(i)
    decreases |a|
  {
    var k := |a| - 1;
    assert Mag(a) == Mag(a[..k]) + a[k] * WPow(k);
    if i < k {
      MagAtLeastWord(a[..k], i);
      assert a[..k][i] == a[i];
    }
  }

  /** Concatenation: the upper part counts W^|a| times. */
  lemma {:induction false} MagAppend(a: seq<nat>, b: seq<nat>)
    ensures Mag(a + b) == Mag(a) + WPow(|a|) * Mag(b)
    decreases |b|
  {
    if |b| > 0 {
      var k := |b| - 1;
      var p := WPow(|a|);
      assert (a + b)[..|a| + k] == a + b[..k];
      assert Mag(a + b) == Mag(a + b[..k]) + b[k] * WPow(|a| + k);
      assert Mag(b) == Mag(b[..k]) + b[k] * WPow(k);
      MagAppend(a, b[..k]);
      WPowAdd(|a|, k);
      MulRotate(b[k], p, WPow(k));
      Distrib(p, Mag(b[..k]), b[k] * WPow(k));
    } else {
      assert a + b == a;
    }
  }

  /** Splitting a word array at i. */
  lemma MagSplit(a: seq<nat>, i: nat)
    requires i <= |a|
    ensures Mag(a) == Mag(a[..i]) + WPow(i) * Mag(a[i..])
  {
    assert a == a[..i] + a[i..];
    MagAppend(a[..i], a[i..]);
  }

  lemma {:induction false} MagZeros(n: nat)
    ensures Mag(Zeros(n)) == 0
    decreases n
  {
    if n > 0 {
      assert Zeros(n)[..n - 1] == Zeros(n - 1);
      MagZeros(n - 1);
    }
  }

  /** Zero words above i do not count. */
  lemma MagZeroTail(a: seq<nat>, i: nat)
    requires i <= |a| && forall k :: i <= k < |a| ==> a[k] == 0
    ensures Mag(a) == Mag(a[..i])
  {
    MagSplit(a, i);
    assert a[i..] == Zeros(|a| - i);
    MagZeros(|a| - i);
  }

  /** The lowest word and the rest. */
  lemma MagCons(x: nat, a: seq<nat>)
    ensures Mag([x] + a) == x + W * Mag(a)
  {
    MagAppend([x], a);
    assert [x][..0] == [];
  }

  /** A word array whose value is below W^i has zero words from i on. */
  lemma ZeroAbove(a: seq<nat>, i: nat)
    requires IsWords(a) && i <= |a| && Mag(a) < WPow(i)
    ensures forall k :: i <= k < |a| ==> a[k] == 0
  {
    forall k | i <= k < |a|
      ensures a[k] == 0
    {
      MagAtLeastWord(a, k);
      WPowMonotone(i, k);
      if a[k] != 0 {
        MulAtLeast(WPow(k), a[k]);
      }
    }
  }

  /** e split into its low word and its carry, scaled by p. */
  lemma CarrySplit(e: int, p: int)
    ensures (e % W) * p + (e / W) * (W * p) == e * p
  {
    var q, r := e / W, e % W;
    assert e == q * W + r;
    calc {
      e * p;
      (q * W + r) * p;
      q * W * p + r * p;
      { assert q * W * p == q * (W * p); }
      q * (W * p) + r * p;
    }
  }

  /** A normalized word array: a single word or a nonzero top word. */
  predicate Normal(a: seq<nat>)
  {
    |a| >= 1 && (|a| == 1 || a[|a| - 1] != 0)
  }

  lemma MagSingle(x: nat)
    ensures Mag([x]) == x
  {
    assert [x][..0] == [];
  }

  /** The value of a normalized word array of n words needs all n words. */
  lemma NormalBounds(a: seq<nat>)
    requires IsWords(a) && Normal(a)
    ensures |a| > 1 ==> Mag(a) >= WPow(|a| - 1)
    ensures Mag(a) < WPow(|a|)
    ensures Mag(a) == 0 <==> |a| == 1 && a[0] == 0
  {
    MagBound(a);
    if |a| > 1 {
      MagAtLeastWord(a, |a| - 1);
      MulAtLeast(WPow(|a| - 1), a[|a| - 1]);
    } else {
      assert a == [a[0]];
      MagSingle(a[0]);
    }
  }

  lemma NormalZero(a: seq<nat>)
    ensures IsWords(a) && Normal(a) ==> (Mag(a) == 0 <==> |a| == 1 && a[0] == 0)
  {
    if IsWords(a) && Normal(a) {
      NormalBounds(a);
    }
  }

  /** Of two normalized word sequences, the larger value has at least as many words. */
  lemma NormalLengthOrder(a: seq<nat>, b: seq<nat>)
    requires IsWords(a) && Normal(a) && IsWords(b) && Normal(b)
    requires Mag(a) > Mag(b)
    ensures |a| >= |b|
  {
    if |a| < |b| {
      NormalBounds(a);
      NormalBounds(b);
      WPowMonotone(|a|, |b| - 1);
    }
  }

  // ---------------------------------------------------------------------
  // compare

  /**
   * compare(a, m, b, n) for m >= n: the sign of Mag(a) - Mag(b). Words of
   * a above n must be zero for equality; then the highest differing word
   * decides.
   */
  method LimbCompare(a: seq<nat>, b: seq<nat>) returns (r: int)
    requires IsWords(a) && IsWords(b) && |a| >= |b|
    ensures r == (if Mag(a) > Mag(b) then 1 else if Mag(a) < Mag(b) then -1 else 0)
  {
    var m, n := |a|, |b|;
    var i := m - 1;
    while i >= n
      invariant n - 1 <= i <= m - 1
      invariant forall k :: i < k < m ==> a[k] == 0
    {
      if a[i] != 0 {
        HighWordDecides(a, b, i);
        return 1;
      }
      i := i - 1;
    }
    MagZeroTail(a, n);
    assert b[..n] == b;
    i := n - 1;
    while i >= 0
      invariant -1 <= i <= n - 1
      invariant a[i + 1..n] == b[i + 1..n]
    {
      if a[i] > b[i] {
        TopWordDecides(a[..n], b, i);
        return 1;
      } else if a[i] < b[i] {
        TopWordDecides(b, a[..n], i);
        return -1;
      }
      i := i - 1;
    }
    assert a[..n] == b;
    return 0;
  }

  /** Equal upper words, and a larger word i: the larger word array. */
  lemma TopWordDecides(a: seq<nat>, b: seq<nat>, i: nat)
    requires IsWords(a) && IsWords(b) && |a| == |b| && i < |a|
    requires a[i + 1..] == b[i + 1..] && a[i] > b[i]
    ensures Mag(a) > Mag(b)
  {
    MagSplit(a, i + 1);
    MagSplit(b, i + 1);
    MagPrefixStep(a, i);
    MagPrefixStep(b, i);
    assert IsWords(b[..i]);
    MagBound(b[..i]);
    WordDecides(Mag(a[..i]), Mag(b[..i]), a[i], b[i], WPow(i), WPow(i + 1) * Mag(a[i + 1..]));
  }

  /** The linear core of TopWordDecides. */
  lemma WordDecides(la: nat, lb: nat, xa: nat, xb: nat, w: nat, top: int)
    requires lb < w && xa > xb
    ensures la + xa * w + top > lb + xb * w + top
  {
    MulMonotone(xb + 1, xa, w);
    SuccMul(xb, w);
  }

  /** A nonzero word at or above the length of b: a is the larger. */
  lemma HighWordDecides(a: seq<nat>, b: seq<nat>, i: nat)
    requires IsWords(b) && |b| <= i < |a| && a[i] != 0
    ensures Mag(a) > Mag(b)
  {
    var w := WPow(i);
    MagAtLeastWord(a, i);
    MulAtLeast(w, a[i]);
    assert Mag(a) >= w;
    MagBound(b);
    WPowMonotone(|b|, i);
  }

  // ---------------------------------------------------------------------
  // add and sub

  /** The prefix of length i + 1 adds word i. */
  lemma MagPrefixStep(a: seq<nat>, i: nat)
    requires i < |a|
    ensures Mag(a[..i + 1]) == Mag(a[..i]) + a[i] * WPow(i)
  {
    assert a[..i + 1][..i] == a[..i];
  }

  /** One column of the addition: the invariant moves to the next word. */
  lemma AddStep(c: seq<nat>, carry: nat, x: nat, y: nat, ma: int, mb: int)
    requires Mag(c) + carry * WPow(|c|) == ma + mb
    ensures Mag(c + [(x + y + carry) % W]) + ((x + y + carry) / W) * WPow(|c| + 1)
            == (ma + x * WPow(|c|)) + (mb + y * WPow(|c|))
  {
    var p, e := WPow(|c|), x + y + carry;
    MagSnoc(c, e % W);
    CarrySplit(e, p);
    Distrib3(x, y, carry, p);
    assert WPow(|c| + 1) == W * p;
  }

  /**
   * add(c, a, m, b, n): the max(m, n) words of the sum and the carry out
   * of the top word.
   */
  method LimbAdd(a: seq<nat>, b: seq<nat>) returns (c: seq<nat>, carry: nat)
    requires IsWords(a) && IsWords(b)
    ensures |c| == (if |a| < |b| then |b| else |a|) && IsWords(c) && carry <= 1
    ensures Mag(c) + carry * WPow(|c|) == Mag(a) + Mag(b)
  {
    carry := 0;
    c := [];
    var l := if |a| < |b| then |a| else |b|;
    var i := 0;
    while i < l
      invariant 0 <= i <= l && |c| == i && IsWords(c) && carry <= 1
      invariant Mag(c) + carry * WPow(i) == Mag(a[..i]) + Mag(b[..i])
    {
      c, carry := AddWordStep(a, b, i, c, carry);
      i := i + 1;
    }
    MagSplit(a, l);
    MagSplit(b, l);
    if l < |a| {
      assert b[l..] == [];
      c, carry := PropagateCarry(c, carry, a[l..]);
    } else {
      assert a[l..] == [];
      c, carry := PropagateCarry(c, carry, b[l..]);
    }
  }

  /** One pass of the first loop of add: words a[i] and b[i] and the carry. */
  method AddWordStep(a: seq<nat>, b: seq<nat>, i: nat, c: seq<nat>, carry: nat) returns (c': seq<nat>, carry': nat)
    requires IsWords(a) && IsWords(b) && i < |a| && i < |b| && |c| == i && IsWords(c) && carry <= 1
    requires Mag(c) + carry * WPow(i) == Mag(a[..i]) + Mag(b[..i])
    ensures |c'| == i + 1 && IsWords(c') && carry' <= 1
    ensures Mag(c') + carry' * WPow(i + 1) == Mag(a[..i + 1]) + Mag(b[..i + 1])
  {
    var e := a[i] + b[i] + carry;
    MagPrefixStep(a, i);
    MagPrefixStep(b, i);
    AddStep(c, carry, a[i], b[i], Mag(a[..i]), Mag(b[..i]));
    c' := c + [e % W];
    carry' := e / W;
  }

  /** The carry loops of add: the words of t added to the carry alone. */
  method PropagateCarry(c0: seq<nat>, carry0: nat, t: seq<nat>) returns (c: seq<nat>, carry: nat)
    requires IsWords(c0) && IsWords(t) && carry0 <= 1
    ensures |c| == |c0| + |t| && IsWords(c) && carry <= 1
    ensures Mag(c) + carry * WPow(|c|) == Mag(c0) + carry0 * WPow(|c0|) + WPow(|c0|) * Mag(t)
  {
    c, carry := c0, carry0;
    ghost var m0 := Mag(c0) + carry0 * WPow(|c0|);
    var j := 0;
    while j < |t|
      invariant 0 <= j <= |t| && |c| == |c0| + j && IsWords(c) && carry <= 1
      invariant Mag(c) + carry * WPow(|c|) == m0 + WPow(|c0|) * Mag(t[..j])
    {
      var e := t[j] + carry;
      MagPrefixStep(t, j);
      TailStep(WPow(|c0|), Mag(t[..j]), t[j], WPow(j));
      WPowAdd(|c0|, j);
      AddStep(c, carry, t[j], 0, m0 + WPow(|c0|) * Mag(t[..j]), 0);
      c := c + [e % W];
      carry := e / W;
      j := j + 1;
    }
    assert t[..|t|] == t;
  }

  lemma TailStep(p: int, m: int, x: int, q: int)
    ensures p * (m + x * q) == p * m + x * (p * q)
  {
  }

  /** One column of the subtraction with borrow. */
  lemma SubStep(c: seq<nat>, carry: int, x: nat, y: nat, ma: int, mb: int)
    requires Mag(c) + carry * WPow(|c|) == ma - mb && -1 <= carry <= 0 && x < W && y < W
    ensures var t := x - y + carry;
            var t' := if t < 0 then t + W else t;
            var carry' := if t < 0 then -1 else 0;
            0 <= t' < W &&
            Mag(c + [t']) + carry' * WPow(|c| + 1) == (ma + x * WPow(|c|)) - (mb + y * WPow(|c|))
  {
    var p, t := WPow(|c|), x - y + carry;
    var t' := if t < 0 then t + W else t;
    MagSnoc(c, t');
    assert WPow(|c| + 1) == W * p;
    SubColumn(x, y, carry, p);
    BorrowSplit(t, p);
  }

  lemma SubColumn(x: int, y: int, carry: int, p: int)
    ensures (x - y + carry) * p == x * p - y * p + carry * p
  {
  }

  /** A negative column borrows W from the next word. */
  lemma BorrowSplit(t: int, p: int)
    ensures (if t < 0 then t + W else t) * p + (if t < 0 then -1 else 0) * (W * p) == t * p
  {
    if t < 0 {
      assert (t + W) * p == t * p + W * p;
    }
  }

  /**
   * sub(c, a, m, b, n) for m >= n: the m low words of Mag(a) - Mag(b);
   * when the subtrahend is larger, the result is off by W^m, which the
   * source's callers avoid.
   */
  method LimbSub(a: seq<nat>, b: seq<nat>) returns (c: seq<nat>)
    requires IsWords(a) && IsWords(b) && |a| >= |b|
    ensures |c| == |a| && IsWords(c)
    ensures Mag(c) == Mag(a) - Mag(b) + (if Mag(a) < Mag(b) then WPow(|a|) else 0)
  {
    var carry: int := 0;
    c := [];
    var j := 0;
    while j < |b|
      invariant 0 <= j <= |b| && |c| == j && IsWords(c) && -1 <= carry <= 0
      invariant Mag(c) + carry * WPow(j) == Mag(a[..j]) - Mag(b[..j])
    {
      var tmp := a[j] - b[j] + carry;
      MagPrefixStep(a, j);
      MagPrefixStep(b, j);
      SubStep(c, carry, a[j], b[j], Mag(a[..j]), Mag(b[..j]));
      if tmp < 0 {
        carry := -1;
        tmp := tmp + W;
      } else {
        carry := 0;
      }
      c := c + [tmp];
      j := j + 1;
    }
    assert b[..|b|] == b;
    MagSplit(a, j);
    c, carry := PropagateBorrow(c, carry, a[j..]);
    assert a[..|a|] == a;
    MagBound(c);
    BorrowOut(Mag(c), carry, WPow(|a|), Mag(a), Mag(b));
  }

  /** The final borrow: set exactly when the subtrahend was larger. */
  lemma BorrowOut(mc: int, carry: int, p: int, ma: int, mb: int)
    requires mc + carry * p == ma - mb && -1 <= carry <= 0 && 0 <= mc < p
    ensures mc == ma - mb + (if ma < mb then p else 0)
  {
    if carry == -1 {
      assert carry * p == -p;
    }
  }

  /** The borrow loop of sub: the words of t less the borrow alone. */
  method PropagateBorrow(c0: seq<nat>, carry0: int, t: seq<nat>) returns (c: seq<nat>, carry: int)
    requires IsWords(c0) && IsWords(t) && -1 <= carry0 <= 0
    ensures |c| == |c0| + |t| && IsWords(c) && -1 <= carry <= 0
    ensures Mag(c) + carry * WPow(|c|) == Mag(c0) + carry0 * WPow(|c0|) + WPow(|c0|) * Mag(t)
  {
    c, carry := c0, carry0;
    ghost var m0 := Mag(c0) + carry0 * WPow(|c0|);
    var j := 0;
    while j < |t|
      invariant 0 <= j <= |t| && |c| == |c0| + j && IsWords(c) && -1 <= carry <= 0
      invariant Mag(c) + carry * WPow(|c|) == m0 + WPow(|c0|) * Mag(t[..j])
    {
      var tmp := t[j] + carry;
      MagPrefixStep(t, j);
      TailStep(WPow(|c0|), Mag(t[..j]), t[j], WPow(j));
      WPowAdd(|c0|, j);
      SubStep(c, carry, t[j], 0, m0 + WPow(|c0|) * Mag(t[..j]), 0);
      if tmp < 0 {
        carry := -1;
        tmp := tmp + W;
      } else {
        carry := 0;
      }
      c := c + [tmp];
      j := j + 1;
    }
    assert t[..|t|] == t;
  }

  // ---------------------------------------------------------------------
  // mul

  /** One column of the multiplication by a word. */
  lemma MulColumn(mc: int, carry: int, x: nat, w: nat, ma: int, p: nat)
    requires mc + carry * p == ma * w
    ensures mc + ((x * w + carry) % W) * p + ((x * w + carry) / W) * (W * p) == (ma + x * p) * w
  {
    CarrySplit(x * w + carry, p);
    assert (x * w + carry) * p == x * w * p + carry * p;
    assert (ma + x * p) * w == ma * w + x * p * w;
    assert x * w * p == x * p * w;
  }

  /** The carry of a word product plus a carry stays a word. */
  lemma WordProductCarry(x: nat, w: nat, carry: nat)
    requires x < W && w < W && carry < W
    ensures (x * w + carry) / W < W
  {
    MulMonotone(x, W - 1, w);
    MulMonotone(w, W - 1, W - 1);
    assert x * w <= (W - 1) * (W - 1);
  }

  /** mul(c, a, b, n): the n low words of Mag(a) * w and the carry word. */
  method LimbMulWord(a: seq<nat>, w: nat) returns (c: seq<nat>, carry: nat)
    requires IsWords(a) && w < W
    ensures |c| == |a| && IsWords(c) && carry < W
    ensures Mag(c) + carry * WPow(|a|) == Mag(a) * w
  {
    carry := 0;
    c := [];
    var i := 0;
    while i < |a|
      invariant 0 <= i <= |a| && |c| == i && IsWords(c) && carry < W
      invariant Mag(c) + carry * WPow(i) == Mag(a[..i]) * w
    {
      c, carry := MulWordStep(a, w, i, c, carry);
      i := i + 1;
    }
    assert a[..|a|] == a;
  }

  /** One column of mul(c, a, b, n): word i of the product and the next carry. */
  method MulWordStep(a: seq<nat>, w: nat, i: nat, c: seq<nat>, carry: nat) returns (c': seq<nat>, carry': nat)
    requires IsWords(a) && w < W && i < |a| && |c| == i && IsWords(c) && carry < W
    requires Mag(c) + carry * WPow(i) == Mag(a[..i]) * w
    ensures |c'| == i + 1 && IsWords(c') && carry' < W
    ensures Mag(c') + carry' * WPow(i + 1) == Mag(a[..i + 1]) * w
  {
    var e := a[i] * w + carry;
    WordProductCarry(a[i], w, carry);
    c' := c + [e % W];
    carry' := e / W;
    MagSnoc(c, e % W);
    MagSnoc(a[..i], a[i]);
    assert a[..i + 1] == a[..i] + [a[i]];
    MulColumn(Mag(c), carry, a[i], w, Mag(a[..i]), WPow(i));
  }

  /** x < X and y < Y bound the product. */
  lemma MulStrict(x: nat, y: nat, bx: nat, bound: nat)
    requires x < bx && y < bound
    ensures x * y < bx * bound
  {
    MulMonotone(x, bx, y);
    assert bx * y < bx * bound;
  }

  /** Three consecutive parts of a word array. */
  lemma MagThree(x: seq<nat>, w: seq<nat>, y: seq<nat>, t: int)
    requires t == WPow(|w|) * Mag(y)
    ensures Mag(x + w + y) == Mag(x) + WPow(|x|) * (Mag(w) + t)
  {
    assert x + w + y == x + (w + y);
    MagAppend(w, y);
    MagAppend(x, w + y);
  }

  /** Replacing the l words at i changes the value by their difference times W^i. */
  lemma MagReplace(c: seq<nat>, i: nat, l: nat, s: seq<nat>)
    requires i + l <= |c| && |s| == l
    ensures Mag(c[..i] + s + c[i + l..]) + WPow(i) * Mag(c[i..i + l])
            == Mag(c) + WPow(i) * Mag(s)
  {
    var x, w, y := c[..i], c[i..i + l], c[i + l..];
    assert c == x + w + y;
    var t := WPow(l) * Mag(y);
    MagThree(x, w, y, t);
    MagThree(x, s, y, t);
    var p := WPow(i);
    assert |x| == i;
    var mc, mc' := Mag(c), Mag(x + s + y);
    assert mc == Mag(x) + p * (Mag(w) + t);
    assert mc' == Mag(x) + p * (Mag(s) + t);
    ReplaceAlgebra(Mag(x), p, Mag(w), Mag(s), t);
    assert mc' + p * Mag(w) == mc + p * Mag(s);
  }

  /** Replacing word i changes the value by the difference times W^i. */
  lemma MagUpdate(c: seq<nat>, i: nat, v: nat)
    requires i < |c|
    ensures Mag(c[i := v]) + WPow(i) * c[i] == Mag(c) + WPow(i) * v
  {
    MagReplace(c, i, 1, [v]);
    assert c[..i] + [v] + c[i + 1..] == c[i := v];
    assert c[i..i + 1] == [c[i]];
    MagSingle(v);
    MagSingle(c[i]);
  }

  lemma ReplaceAlgebra(mx: int, p: int, mw: int, ms: int, t: int)
    ensures mx + p * (ms + t) + p * mw == mx + p * (mw + t) + p * ms
  {
    Distrib(p, mw, t);
    Distrib(p, ms, t);
  }

  /**
   * One row of the school multiplication, accumulated at word i: the
   * word above the row is still zero, so the carry out of the row lands
   * there without wrapping.
   */
  method AddRow(c0: seq<nat>, i: nat, t: seq<nat>) returns (c: seq<nat>)
    requires IsWords(c0) && IsWords(t) && i + |t| < |c0| && c0[i + |t|] == 0
    ensures |c| == |c0| && IsWords(c)
    ensures Mag(c) == Mag(c0) + WPow(i) * Mag(t)
  {
    var l := |t|;
    var window := c0[i..i + l];
    var sum, carry := LimbAdd(window, t);
    var top := (c0[i + l] + carry) % W;
    var s2 := sum + [top];
    c := c0[..i] + s2 + c0[i + l + 1..];
    assert top == carry;
    assert c0[i..i + l + 1] == window + [0];
    MagSnoc(window, 0);
    MagSnoc(sum, carry);
    var p, mw, mt := WPow(i), Mag(window), Mag(t);
    assert Mag(s2) == mw + mt;
    MagReplace(c0, i, l + 1, s2);
    assert Mag(c) + p * mw == Mag(c0) + p * Mag(s2);
    Distrib(p, mw, mt);
  }

  /**
   * mul(c, a, m, b, n) with the rows taken from the lowest word of b up:
   * the m + n + 1 words of the product.
   */
  method LimbMul(a: seq<nat>, b: seq<nat>) returns (c: seq<nat>)
    requires IsWords(a) && IsWords(b)
    ensures |c| == |a| + |b| + 1 && IsWords(c)
    ensures Mag(c) == Mag(a) * Mag(b)
  {
    var m, n := |a|, |b|;
    c := Zeros(m + n + 1);
    MagZeros(m + n + 1);
    var i := 0;
    while i < n
      invariant 0 <= i <= n && |c| == m + n + 1 && IsWords(c)
      invariant Mag(c) == Mag(a) * Mag(b[..i])
    {
      var tmp, top := LimbMulWord(a, b[i]);
      MagSnoc(tmp, top);
      MagBound(a);
      assert IsWords(b[..i]);
      MagBound(b[..i]);
      MulStrict(Mag(a), Mag(b[..i]), WPow(m), WPow(i));
      WPowAdd(m, i);
      ZeroAbove(c, m + i);
      c := AddRow(c, i, tmp + [top]);
      MagPrefixStep(b, i);
      RowSum(Mag(a), Mag(b[..i]), b[i], WPow(i));
      i := i + 1;
    }
    assert b[..n] == b;
  }

  lemma RowSum(x: int, y: int, z: int, p: int)
    ensures x * y + p * (x * z) == x * (y + z * p)
  {
  }

  /** The low words of x, least significant first. */
  function ToWords(x: nat, k: nat): (r: seq<nat>)
    ensures |r| == k
  {
    if k == 0 then [] else [x % W] + ToWords(x / W, k - 1)
  }

  /**
   * One row of mul(c, a, m, b, n) as written: the row value t is added
   * into the l words at i, and the carry is added to word i + l modulo W
   * without going further.
   */
  function RowAsWritten(c: seq<nat>, i: nat, t: nat, l: nat): (r: seq<nat>)
    requires i + l < |c|
    ensures |r| == |c|
  {
    var s := Mag(c[i..i + l]) + t;
    c[..i] + ToWords(s % WPow(l), l) + [(c[i + l] + s / WPow(l)) % W] + c[i + l + 1..]
  }

  /** mul(c, a, m, b, n) as written: rows from word j = |b| - 1 down to i. */
  function MulAsWritten(a: seq<nat>, b: seq<nat>, i: nat): (c: seq<nat>)
    requires i <= |b|
    ensures |c| == |a| + |b| + 1
    decreases |b| - i
  {
    if i == |b| then Zeros(|a| + |b| + 1)
    else RowAsWritten(MulAsWritten(a, b, i + 1), i, Mag(a) * b[i], |a| + 1)
  }

  /**
   * Taking the rows from the top down, a carry out of a lower row lands
   * on a word that an upper row has already filled and is lost: with
   * a = [W - 1] and b = [2, 1, 1] the product W^3 + W - 2 comes out as W - 2.
   */
  lemma MulAsWrittenLosesCarry()
    ensures Mag(MulAsWritten([W - 1], [2, 1, 1], 0)) == W - 2
    ensures Mag([W - 1]) * Mag([2, 1, 1]) == W * W * W + W - 2
  {
    var a, b := [W - 1], [2, 1, 1];
    assert Mag(a) == W - 1 by { assert a[..0] == []; }
    assert MulAsWritten(a, b, 3) == [0, 0, 0, 0, 0];
    TopRow();
    assert MulAsWritten(a, b, 2) == [0, 0, W - 1, 0, 0];
    MiddleRow();
    assert MulAsWritten(a, b, 1) == [0, W - 1, W - 1, 0, 0];
    BottomRow();
    var c0 := MulAsWritten(a, b, 0);
    assert c0 == [W - 2, 0, 0, 0, 0];
    MagZeroTail(c0, 1);
    assert c0[..1] == [W - 2] && [W - 2][..0] == [];
    ExampleProduct();
  }

  lemma ExampleProduct()
    ensures Mag([W - 1]) * Mag([2, 1, 1]) == W * W * W + W - 2
  {
    var b := [2, 1, 1];
    assert [W - 1][..0] == [];
    assert b[..2] == [2, 1] && [2, 1][..1] == [2] && [2][..0] == [];
    assert Mag([2]) == 2;
    assert Mag([2, 1]) == 2 + W;
    assert WPow(2) == W * W;
    assert Mag(b) == 2 + W + W * W;
  }

  lemma TopRow()
    ensures RowAsWritten([0, 0, 0, 0, 0], 2, W - 1, 2) == [0, 0, W - 1, 0, 0]
  {
    var c := [0, 0, 0, 0, 0];
    assert c[2..4] == [0, 0];
    assert Mag([0, 0]) == 0 by { MagZeros(2); assert Zeros(2) == [0, 0]; }
    assert ToWords(W - 1, 2) == [W - 1, 0];
  }

  lemma MiddleRow()
    ensures RowAsWritten([0, 0, W - 1, 0, 0], 1, W - 1, 2) == [0, W - 1, W - 1, 0, 0]
  {
    var c := [0, 0, W - 1, 0, 0];
    assert c[1..3] == [0, W - 1];
    assert Mag([0, W - 1]) == (W - 1) * W by { assert [0, W - 1][..1] == [0]; assert [0][..0] == []; }
    assert ToWords(W * W - 1, 2) == [W - 1, W - 1];
  }

  lemma BottomRow()
    ensures RowAsWritten([0, W - 1, W - 1, 0, 0], 0, 2 * (W - 1), 2) == [W - 2, 0, 0, 0, 0]
  {
    var c := [0, W - 1, W - 1, 0, 0];
    assert c[0..2] == [0, W - 1];
    assert Mag([0, W - 1]) == (W - 1) * W by { assert [0, W - 1][..1] == [0]; assert [0][..0] == []; }
    assert ToWords(W - 2, 2) == [W - 2, 0];
  }

  // ---------------------------------------------------------------------
  // div

  /** x = q * y + r with 0 <= r < y determines q and r. */
  lemma DivModUnique(x: nat, y: nat, q: nat, r: nat)
    requires y > 0 && x == q * y + r && r < y
    ensures q == x / y && r == x % y
  {
    var q', r' := x / y, x % y;
    assert x == q' * y + r';
    if q < q' {
      MulMonotone(q + 1, q', y);
      SuccMul(q, y);
    } else if q' < q {
      MulMonotone(q' + 1, q, y);
      SuccMul(q', y);
    }
  }

  lemma DivModSplit(x: nat, y: nat)
    requires y > 0
    ensures x == (x / y) * y + x % y && x % y < y
  {
  }

  /** A quotient digit: x below W * y gives x / y below W. */
  lemma DigitBound(x: nat, y: nat)
    requires y > 0 && x < W * y
    ensures x / y < W
  {
    var d := x / y;
    assert d * y <= x;
    if d >= W {
      MulMonotone(W, d, y);
    }
  }

  /**
   * Before a digit step at p: the words of a from p + 1 on are below b,
   * so the n + 1 words at p carry all of a[p..], which is below W * b.
   */
  lemma {:induction false} DivisionWindow(a: seq<nat>, b: seq<nat>, p: nat)
    requires IsWords(a) && IsWords(b) && |b| >= 1 && p + |b| + 1 <= |a|
    requires Mag(a[p + 1..]) < Mag(b)
    ensures Mag(a[p..p + |b| + 1]) == Mag(a[p..]) < W * Mag(b)
    ensures forall i :: p + |b| + 1 <= i < |a| ==> a[i] == 0
  {
    var n := |b|;
    MagBound(b);
    assert IsWords(a[p + 1..]);
    ZeroAbove(a[p + 1..], n);
    assert a[p..] == [a[p]] + a[p + 1..];
    MagCons(a[p], a[p + 1..]);
    MulMonotone(Mag(a[p + 1..]) + 1, Mag(b), W);
    SuccMul(Mag(a[p + 1..]), W);
    assert forall i :: n + 1 <= i < |a[p..]| ==> a[p..][i] == 0;
    MagZeroTail(a[p..], n + 1);
    assert a[p..][..n + 1] == a[p..p + n + 1];
  }

  lemma DivisionAlgebra(ma: int, ma': int, p: int, mw: int, mr: int, dq: int, mb: int, mq: int,
                        mq': int, p': int)
    requires ma' + p * mw == ma + p * mr && mr == mw - dq * mb
    requires mq' == dq + W * mq && p' == W * p
    ensures ma' + p * (mq' * mb) == ma + p' * (mq * mb)
  {
    assert p * mr == p * mw - p * (dq * mb);
    assert (dq + W * mq) * mb == dq * mb + W * (mq * mb);
    assert p * (dq * mb + W * (mq * mb)) == p * (dq * mb) + p * (W * (mq * mb));
    assert p * (W * (mq * mb)) == (W * p) * (mq * mb);
  }

  /** x = q y + r, stated for the scaled pair d x and d y: the quotient is kept and the remainder scaled. */
  lemma ScaledDivision(x: nat, y: nat, d: nat)
    requires y > 0 && d >= 1
    ensures (d * x) / (d * y) == x / y && (d * x) % (d * y) == d * (x % y)
  {
    var q, r := x / y, x % y;
    assert d * x == q * (d * y) + d * r by {
      assert x == q * y + r;
      Distrib(d, q * y, r);
      MulRotate(d, q, y);
    }
    MulMonotone(r + 1, y, d);
    SuccMul(r, d);
    assert d * r < d * y;
    DivModUnique(d * x, d * y, q, d * r);
  }

  /** A digit dq with dq y <= x < (dq + 1) y is the quotient, and x - dq y the remainder. */
  lemma DigitIsQuotient(x: nat, y: nat, dq: nat)
    requires y > 0 && dq * y <= x < (dq + 1) * y
    ensures dq == x / y && x - dq * y == x % y < y
  {
    SuccMul(dq, y);
    DivModUnique(x, y, dq, x - dq * y);
  }

  /**
   * div(q, a, b, m, n) (Knuth's Algorithm D, words least significant
   * first): the m + 1 quotient words of a by b. D1 scales a and b by the
   * returned d; each step k then takes the digit of the n + 1 words of a
   * at m - k by the scaled b and subtracts b times it, so a is left
   * holding d times the remainder. The top word of a is zero, which keeps
   * each partial remainder below W * b.
   */
  method LongDivide(a0: seq<nat>, b0: seq<nat>, m: nat) returns (q: seq<nat>, a: seq<nat>, b: seq<nat>, d: nat)
    requires IsWords(a0) && IsWords(b0) && |b0| >= 2 && b0[|b0| - 1] != 0
    requires |a0| == m + |b0| + 1 && a0[m + |b0|] == 0
    ensures |q| == m + 1 && IsWords(q) && |a| == |a0| && IsWords(a) && |b| == |b0| && IsWords(b)
    ensures d == W / (b0[|b0| - 1] + 1) && 1 <= d && Mag(b) == d * Mag(b0)
    ensures Mag(q) == Mag(a0) / Mag(b0) && Mag(a) == d * (Mag(a0) % Mag(b0)) < Mag(b)
  {
    a, b, d := Normalize(a0, b0, m);
    ghost var a1 := a;
    TopWordWeight(b0);
    TopWordWeight(b);
    q := Zeros(m + 1);
    assert Mag(q[m + 1..]) == 0 by {
      assert q[m + 1..] == [];
    }
    var k := 0;
    while k <= m
      invariant 0 <= k <= m + 1 && |q| == m + 1 && IsWords(q) && |a| == |a0| && IsWords(a)
      invariant Mag(a) + WPow(m + 1 - k) * (Mag(q[m + 1 - k..]) * Mag(b)) == Mag(a1)
      invariant Mag(a[m + 1 - k..]) < Mag(b)
    {
      a, q := DigitStep(a, q, b, m - k);
      k := k + 1;
    }
    assert a[0..] == a && q[0..] == q;
    DivModUnique(Mag(a1), Mag(b), Mag(q), Mag(a));
    ScaledDivision(Mag(a0), Mag(b0), d);
  }

  // D1. [Normalize]

  /** d = 2^32 / (v + 1) for a nonzero word v: d (v + 1) <= W and d v >= W / 2. */
  lemma NormalizingFactor(v: nat, d: nat)
    requires 0 < v < W && d == W / (v + 1)
    ensures 1 <= d <= W / 2 && d * (v + 1) <= W && 2 * (d * v) >= W
  {
    var r := W % (v + 1);
    assert W == d * (v + 1) + r && r <= v;
    MulMonotone(2, v + 1, d);
    FactorBound(W, v, d, r);
  }

  /** x = d (v + 1) + r with r <= v: 2 d v >= x - 1. */
  lemma FactorBound(x: int, v: int, d: int, r: int)
    requires v >= 1 && d >= 1 && 0 <= r <= v && x == d * (v + 1) + r
    ensures 2 * (d * v) >= x - 1
  {
    assert d * (v + 1) == d * v + d;
    MulMonotone(0, d - 1, v - 1);
    assert (d - 1) * (v - 1) == d * v - d - v + 1;
  }

  /** b times d fits its n words, and its top word is at least half a word. */
  lemma ScaledDivisor(b0: seq<nat>, d: nat, b: seq<nat>, carry: nat)
    requires IsWords(b0) && |b0| >= 1 && b0[|b0| - 1] != 0 && d == W / (b0[|b0| - 1] + 1)
    requires IsWords(b) && |b| == |b0| && Mag(b) + carry * WPow(|b0|) == Mag(b0) * d
    ensures carry == 0 && Mag(b) == d * Mag(b0) && 2 * b[|b| - 1] >= W
  {
    var n := |b0|;
    NormalizingFactor(b0[n - 1], d);
    MagTop(b0);
    MagTop(b);
    assert WPow(n) == W * WPow(n - 1);
    DivisorArith(Mag(b0), Mag(b0[..n - 1]), b0[n - 1], WPow(n - 1), WPow(n), d, Mag(b), Mag(b[..n - 1]), b[n - 1], carry);
  }

  /** The arithmetic of ScaledDivisor, over the top words of b and of b d (weight p). */
  lemma DivisorArith(mb0: nat, lo0: nat, v: nat, p: nat, big: nat, d: nat, mb: nat, lo: nat, top: nat,
                     carry: nat)
    requires mb0 == lo0 + v * p && lo0 < p && d >= 1 && d * (v + 1) <= W && 2 * (d * v) >= W
    requires mb + carry * big == mb0 * d && big == W * p && mb == lo + top * p && lo < p
    ensures carry == 0 && mb == d * mb0 && 2 * top >= W
  {
    SuccMul(v, p);
    ScaledFits(mb0, v, p, d);
    if carry > 0 {
      MulAtLeast(big, carry);
    }
    MulMonotone(v * p, mb0, d);
    assert v * p * d == (d * v) * p;
    MulMonotone(W, 2 * (d * v), p);
    HalfTop(mb, lo, top, p);
  }

  /** x below (v + 1) p, times d with d (v + 1) <= W, is below W p. */
  lemma ScaledFits(x: nat, v: nat, p: nat, d: nat)
    requires x < (v + 1) * p && d >= 1 && d * (v + 1) <= W
    ensures x * d < W * p
  {
    MulMonotone(x + 1, (v + 1) * p, d);
    SuccMul(x, d);
    assert (v + 1) * p * d == (d * (v + 1)) * p;
    MulMonotone(d * (v + 1), W, p);
  }

  /** A value of at least half W p has a top word (of weight p) of at least half a word. */
  lemma HalfTop(x: nat, lo: nat, top: nat, p: nat)
    requires x == lo + top * p && lo < p && 2 * x >= W * p
    ensures 2 * top >= W
  {
    SuccMul(top, p);
    if 2 * (top + 1) <= W {
      MulMonotone(2 * (top + 1), W, p);
    }
  }

  /**
   * The numerator's top word is zero: a is below W^(m + n) = W^(m + 1)
   * W^(n - 1), and W^(n - 1) is at most b.
   */
  lemma NumeratorBounds(a0: seq<nat>, b0: seq<nat>, m: nat)
    requires IsWords(a0) && IsWords(b0) && |b0| >= 1 && b0[|b0| - 1] != 0
    requires |a0| == m + |b0| + 1 && a0[m + |b0|] == 0
    ensures Mag(a0) < WPow(m + |b0|) && WPow(|a0|) == W * WPow(m + |b0|)
    ensures WPow(m + |b0|) == WPow(m + 1) * WPow(|b0| - 1) && WPow(|b0| - 1) <= Mag(b0)
  {
    WPowAdd(m + 1, |b0| - 1);
    ZeroTopBound(a0, m + |b0|);
    TopWordWeight(b0);
  }

  /** The top word over the words below it. */
  lemma MagTop(a: seq<nat>)
    requires IsWords(a) && |a| >= 1
    ensures Mag(a) == Mag(a[..|a| - 1]) + a[|a| - 1] * WPow(|a| - 1) && Mag(a[..|a| - 1]) < WPow(|a| - 1)
  {
    assert IsWords(a[..|a| - 1]);
    MagBound(a[..|a| - 1]);
  }

  /** A word array with zero words from k on is below W^k. */
  lemma ZeroTopBound(a: seq<nat>, k: nat)
    requires IsWords(a) && k <= |a| && forall i :: k <= i < |a| ==> a[i] == 0
    ensures Mag(a) < WPow(k)
  {
    MagZeroTail(a, k);
    assert IsWords(a[..k]);
    MagBound(a[..k]);
  }

  /** A nonzero top word: the value is at least the top word's weight. */
  lemma TopWordWeight(b: seq<nat>)
    requires |b| >= 1 && b[|b| - 1] != 0
    ensures Mag(b) >= WPow(|b| - 1)
  {
    MagAtLeastWord(b, |b| - 1);
    MulAtLeast(WPow(|b| - 1), b[|b| - 1]);
  }

  /**
   * a times d (below W) fits its n + m + 1 words, and its words from
   * m + 1 on stay below b times d: a is below W^(m + n) = W^(m + 1)
   * W^(n - 1), which is at most W^(m + 1) b.
   */
  lemma NumeratorArith(ma0: nat, top: nat, big: nat, d: nat, ma: nat, carry: nat, p1: nat, pn: nat,
                       mb0: nat, lo: nat, hi: nat)
    requires ma0 < top && big == W * top && top == p1 * pn && pn <= mb0 && 1 <= d < W
    requires ma + carry * big == ma0 * d && ma == lo + p1 * hi
    ensures carry == 0 && ma == d * ma0 && hi < d * mb0
  {
    MulMonotone(ma0 + 1, top, d);
    MulMonotone(d, W, top);
    if carry > 0 {
      MulAtLeast(big, carry);
    }
    MulMonotone(pn, mb0, p1);
    MulMonotone(ma0 + 1, p1 * mb0, d);
    MulRotate(d, p1, mb0);
    if hi >= d * mb0 {
      MulMonotone(d * mb0, hi, p1);
    }
  }

  /**
   * D1 of div: a and b multiplied by d = 2^32 / (b[n - 1] + 1) in place,
   * dropping the carries, which are zero. Afterwards the top word of b
   * is at least 2^31 and the words of a above m are below b.
   */
  method Normalize(a0: seq<nat>, b0: seq<nat>, m: nat) returns (a: seq<nat>, b: seq<nat>, d: nat)
    requires IsWords(a0) && IsWords(b0) && |b0| >= 1 && b0[|b0| - 1] != 0
    requires |a0| == m + |b0| + 1 && a0[m + |b0|] == 0
    ensures d == W / (b0[|b0| - 1] + 1) && 1 <= d
    ensures |a| == |a0| && IsWords(a) && Mag(a) == d * Mag(a0)
    ensures |b| == |b0| && IsWords(b) && Mag(b) == d * Mag(b0) && 2 * b[|b| - 1] >= W
    ensures Mag(a[m + 1..]) < Mag(b)
  {
    var n := |b0|;
    d := W / (b0[n - 1] + 1);
    NormalizingFactor(b0[n - 1], d);
    var carry;
    a, carry := LimbMulWord(a0, d);
    NumeratorBounds(a0, b0, m);
    MagSplit(a, m + 1);
    NumeratorArith(Mag(a0), WPow(m + |b0|), WPow(|a0|), d, Mag(a), carry, WPow(m + 1), WPow(n - 1), Mag(b0),
                   Mag(a[..m + 1]), Mag(a[m + 1..]));
    b, carry := LimbMulWord(b0, d);
    ScaledDivisor(b0, d, b, carry);
  }

  // D3. [Calculate dq]

  /**
   * The window w (n + 1 words) and b (n words) as their top words over
   * W^(n - 2): u2 u1 u0 and v1 v0.
   */
  lemma TopWords(w: seq<nat>, b: seq<nat>, u2: nat, u1: nat, u0: nat, v1: nat, v0: nat)
    requires IsWords(w) && IsWords(b) && |b| >= 2 && |w| == |b| + 1
    requires u2 == w[|b|] && u1 == w[|b| - 1] && u0 == w[|b| - 2] && v1 == b[|b| - 1] && v0 == b[|b| - 2]
    ensures Mag(w) == ((u2 * W + u1) * W + u0) * WPow(|b| - 2) + Mag(w[..|b| - 2])
    ensures Mag(b) == (v1 * W + v0) * WPow(|b| - 2) + Mag(b[..|b| - 2])
    ensures Mag(w[..|b| - 2]) < WPow(|b| - 2) && Mag(b[..|b| - 2]) < WPow(|b| - 2)
  {
    var k := |b| - 2;
    TopThree(w, k, u2, u1, u0);
    TopTwo(b, k, v1, v0);
    assert IsWords(w[..k]) && IsWords(b[..k]);
    MagBound(w[..k]);
    MagBound(b[..k]);
  }

  /** The top three words of w over the k below them. */
  lemma TopThree(w: seq<nat>, k: nat, x2: nat, x1: nat, x0: nat)
    requires |w| == k + 3 && w[k + 2] == x2 && w[k + 1] == x1 && w[k] == x0
    ensures Mag(w) == ((x2 * W + x1) * W + x0) * WPow(k) + Mag(w[..k])
  {
    var p := WPow(k);
    MagPrefixStep(w, k);
    MagPrefixStep(w, k + 1);
    assert w[..k + 3] == w;
    MagPrefixStep(w, k + 2);
    assert WPow(k + 1) == W * p && WPow(k + 2) == W * (W * p);
    assert ((x2 * W + x1) * W + x0) * p == x0 * p + x1 * (W * p) + x2 * (W * (W * p));
  }

  /** The top two words of b over the k below them. */
  lemma TopTwo(b: seq<nat>, k: nat, x1: nat, x0: nat)
    requires |b| == k + 2 && b[k + 1] == x1 && b[k] == x0
    ensures Mag(b) == (x1 * W + x0) * WPow(k) + Mag(b[..k])
  {
    var p := WPow(k);
    MagPrefixStep(b, k);
    assert b[..k + 2] == b;
    MagPrefixStep(b, k + 1);
    assert WPow(k + 1) == W * p;
    assert (x1 * W + x0) * p == x0 * p + x1 * (W * p);
  }

  /** A window below W * b has a top word no larger than the top word of b. */
  lemma TopWordBound(u: nat, v: nat, p: nat, ul: nat, vl: nat, u2: nat, u1: nat, u0: nat, v1: nat, v0: nat)
    requires u == ((u2 * W + u1) * W + u0) * p + ul && v == (v1 * W + v0) * p + vl
    requires vl < p && v0 < W && u < W * v
    ensures u2 <= v1
  {
    if u2 > v1 {
      var x, v2 := (v1 + 1) * W * W, v1 * W + v0;
      assert x <= (u2 * W + u1) * W + u0;
      MulMonotone(x, (u2 * W + u1) * W + u0, p);
      SuccMul(v2, p);
      MulMonotone(v2 + 1, (v1 + 1) * W, p);
    }
  }

  /** The first estimate is not below the digit: u < (e + 1) v. */
  lemma TrialNotBelow(u: nat, v: nat, p: nat, ul: nat, vl: nat, u2: nat, u1: nat, u0: nat,
                      v1: nat, v0: nat, e: nat)
    requires u == ((u2 * W + u1) * W + u0) * p + ul && v == (v1 * W + v0) * p + vl
    requires ul < p && u0 < W && 0 < v1 && u < W * v
    requires e == (if u2 == v1 then W - 1 else (u2 * W + u1) / v1)
    ensures u < (e + 1) * v
  {
    if u2 != v1 {
      var t := u2 * W + u1;
      assert t + 1 <= (e + 1) * v1;
      WindowBelow(u, t, u0, p, ul);
      MulMonotone(v1 * W, v1 * W + v0, p);
      ChainBelow(u, t + 1, e + 1, v1, W * p, v);
    }
  }

  /** A window t, u0 over p is below t + 1 units of W p. */
  lemma WindowBelow(u: nat, t: nat, u0: nat, p: nat, ul: nat)
    requires u == (t * W + u0) * p + ul && ul < p && u0 < W
    ensures u < (t + 1) * (W * p)
  {
    assert u == t * (W * p) + u0 * p + ul;
    MulMonotone(u0 + 1, W, p);
  }

  /** u < s P, s <= c v1 and v1 P <= v give u < c v. */
  lemma ChainBelow(u: nat, s: nat, c: nat, v1: nat, P: nat, v: nat)
    requires u < s * P && s <= c * v1 && v1 * P <= v
    ensures u < c * v
  {
    MulMonotone(s, c * v1, P);
    assert c * v1 * P == c * (v1 * P);
    MulMonotone(v1 * P, v, c);
  }

  /** A digit x whose top-word product exceeds the window's top words is too large: x v > u. */
  lemma TopTooLarge(u: nat, v: nat, p: nat, ul: nat, vl: nat, u3: nat, v2: nat, x: nat)
    requires u == u3 * p + ul && v == v2 * p + vl && ul < p
    requires x * v2 > u3
    ensures x * v > u
  {
    MulMonotone(u3 + 1, x * v2, p);
    SuccMul(u3, p);
    assert x * v == x * v2 * p + x * vl;
  }

  /** A digit x (below W) whose top-word product fits the window's top words is at most one too large. */
  lemma TopFits(u: nat, v: nat, p: nat, ul: nat, vl: nat, u3: nat, v2: nat, x: nat)
    requires u == u3 * p + ul && v == v2 * p + vl && vl < p && W <= v2
    requires x * v2 <= u3 && x < W
    ensures x * v < u + v
  {
    MulMonotone(x * v2, u3, p);
    assert x * v == x * v2 * p + x * vl;
    MulMonotone(x, W, vl);
    MulMonotone(vl, p, W);
    MulMonotone(W, v2, p);
    if vl == p - 1 {
      assert W * vl < W * p;
    }
  }

  /**
   * Knuth's Theorem B: for a normalized b (top word at least W / 2) the
   * first estimate e, with e v1 <= u2 u1 and e < W, is at most two above
   * the digit: (e - 2) v <= u.
   */
  lemma TrialAtMostTwoAbove(u: nat, v: nat, p: nat, ul: nat, vl: nat, t: nat, v1: nat, e: nat)
    requires u == t * p + ul && v == v1 * p + vl && vl < p && W <= 2 * v1
    requires e * v1 <= t && e < W
    ensures e < 2 || (e - 2) * v <= u
  {
    if e >= 2 && (e - 2) * v > u {
      MulMonotone(e * v1, t, p);
      assert e * v == e * v1 * p + e * vl;
      MulMonotone(vl, p, e);
      assert (e - 2) * v == e * v - 2 * v;
      assert 2 * v < e * p;
      MulMonotone(W, 2 * v1, p);
      MulMonotone(e, W, p);
    }
  }

  /** The state after D3's loop: each lowering was called for, and the loop stopped for a reason. */
  ghost predicate Refined(dq: nat, e: nat, u3: nat, v2: nat)
  {
    (dq == e || (dq + 1) * v2 > u3) && (dq * v2 <= u3 || dq + 2 == e)
  }

  /**
   * D3 of div: the trial digit of the n + 1 window words w by b from the
   * top two words of w and the top word of b (2^32 - 1 when the top
   * words agree), then lowered by RefineDigit. For a normalized b it is
   * the digit of w by b or one above it. The first quotient fits a word,
   * so the cast to 32 bits keeps it.
   */
  method EstimateDigit(w: seq<nat>, b: seq<nat>) returns (dq: nat)
    requires IsWords(w) && IsWords(b) && |b| >= 2 && |w| == |b| + 1 && 2 * b[|b| - 1] >= W
    requires Mag(w) < W * Mag(b)
    ensures dq < W
    ensures Mag(w) < (dq + 1) * Mag(b) && dq * Mag(b) < Mag(w) + Mag(b)
  {
    var n := |b|;
    var u2, u1, u0, v1, v0 := w[n], w[n - 1], w[n - 2], b[n - 1], b[n - 2];
    WindowTop(w, b, u2, u1, u0, v1, v0);
    var cmpr: nat := u2 * W + u1;
    if u2 == v1 {
      dq := W - 1;
    } else {
      dq := cmpr / v1;
    }
    TrialDigit(u2, u1, v1, dq);
    ghost var e := dq;
    dq := RefineDigit(cmpr, u0, v1, v0, dq);
    EstimateBounds(w, b, u2, u1, u0, v1, v0, cmpr, e, dq);
  }

  /** The top word of a window below W * b is at most the top word of b. */
  lemma WindowTop(w: seq<nat>, b: seq<nat>, u2: nat, u1: nat, u0: nat, v1: nat, v0: nat)
    requires IsWords(w) && IsWords(b) && |b| >= 2 && |w| == |b| + 1 && Mag(w) < W * Mag(b)
    requires u2 == w[|b|] && u1 == w[|b| - 1] && u0 == w[|b| - 2] && v1 == b[|b| - 1] && v0 == b[|b| - 2]
    ensures u2 <= v1
  {
    var k := |b| - 2;
    TopWords(w, b, u2, u1, u0, v1, v0);
    TopWordBound(Mag(w), Mag(b), WPow(k), Mag(w[..k]), Mag(b[..k]), u2, u1, u0, v1, v0);
  }

  /**
   * The loop of D3: while b's top two words v1 v0 times dq exceed the
   * window's top three t u0 (t = u2 u1), dq is lowered, at most twice.
   * The 64-bit intermediate values never wrap: t - v1 dq never goes below
   * zero, and it is shifted up by 32 bits only when it fits a word.
   */
  method RefineDigit(t: nat, u0: nat, v1: nat, v0: nat, e: nat) returns (dq: nat)
    requires u0 < W && v0 < W && e < W && e * v1 <= t
    ensures Refined(dq, e, t * W + u0, v1 * W + v0) && dq <= e
  {
    dq := e;
    var cmpr: nat := t;
    var i := 0;
    while true
      invariant 0 <= i <= 1 && dq + i == e
      invariant cmpr == t && dq * v1 <= t
      invariant i == 1 ==> (dq + 1) * (v1 * W + v0) > t * W + u0
      decreases 2 - i
    {
      var cmpl := v0 * dq;
      var tmp := v1 * dq;
      cmpr := cmpr - tmp;
      if cmpr > W - 1 {
        LoopStops(t, u0, v1, v0, dq, e, i);
        break;
      }
      cmpr := cmpr * W + u0;
      if cmpl <= cmpr {
        LoopStops(t, u0, v1, v0, dq, e, i);
        break;
      }
      Lowered(t, u0, v1, v0, dq);
      dq := dq - 1;
      i := i + 1;
      if i == 2 {
        break;
      }
      cmpr := t;
      MulMonotone(dq, dq + 1, v1);
    }
  }

  /** The first trial digit: e v1 <= u2 u1 and e < W. */
  lemma TrialDigit(u2: nat, u1: nat, v1: nat, e: nat)
    requires u2 <= v1 && 0 < v1 < W && u1 < W
    requires e == (if u2 == v1 then W - 1 else (u2 * W + u1) / v1)
    ensures e * v1 <= u2 * W + u1 && e < W
  {
    if u2 == v1 {
      assert (W - 1) * v1 == v1 * W - v1;
    } else {
      MulMonotone(u2 + 1, v1, W);
      DigitBound(u2 * W + u1, v1);
    }
  }

  /** The loop of D3 stops with the digit's top-word product within the window's top words. */
  lemma LoopStops(t: nat, u0: nat, v1: nat, v0: nat, dq: nat, e: nat, i: nat)
    requires v0 < W && dq < W && dq * v1 <= t && dq + i == e && i <= 1
    requires i == 1 ==> (dq + 1) * (v1 * W + v0) > t * W + u0
    requires t - dq * v1 > W - 1 || v0 * dq <= (t - dq * v1) * W + u0
    ensures Refined(dq, e, t * W + u0, v1 * W + v0)
  {
    assert dq * (v1 * W + v0) == (dq * v1) * W + dq * v0;
    assert (t - dq * v1) * W == t * W - (dq * v1) * W;
    if t - dq * v1 > W - 1 {
      MulMonotone(W, t - dq * v1, W);
      MulStrict(v0, dq, W, W);
    }
  }

  /** D3 lowers the digit exactly when its top-word product exceeds the window's top words. */
  lemma Lowered(t: nat, u0: nat, v1: nat, v0: nat, x: nat)
    requires x * v1 <= t && t - x * v1 <= W - 1 && v0 * x > (t - x * v1) * W + u0
    ensures x * (v1 * W + v0) > t * W + u0
  {
    assert x * (v1 * W + v0) == (x * v1) * W + x * v0;
    assert (t - x * v1) * W == t * W - (x * v1) * W;
  }

  /** After D3, the digit is the true one or one above it. */
  lemma EstimateBounds(w: seq<nat>, b: seq<nat>, u2: nat, u1: nat, u0: nat, v1: nat, v0: nat, t: nat,
                       e: nat, dq: nat)
    requires IsWords(w) && IsWords(b) && |b| >= 2 && |w| == |b| + 1 && Mag(w) < W * Mag(b)
    requires u2 == w[|b|] && u1 == w[|b| - 1] && u0 == w[|b| - 2] && v1 == b[|b| - 1] && v0 == b[|b| - 2]
    requires W <= 2 * v1 && t == u2 * W + u1 && e == (if u2 == v1 then W - 1 else t / v1)
    requires Refined(dq, e, t * W + u0, v1 * W + v0) && dq < W
    ensures Mag(w) < (dq + 1) * Mag(b) && dq * Mag(b) < Mag(w) + Mag(b)
  {
    var k := |b| - 2;
    TopWords(w, b, u2, u1, u0, v1, v0);
    DigitArith(Mag(w), Mag(b), WPow(k), Mag(w[..k]), Mag(b[..k]), u2, u1, u0, v1, v0, t, e, dq);
  }

  /** EstimateBounds over the top words: u = u2 u1 u0 over p, v = v1 v0 over p, t = u2 u1. */
  lemma DigitArith(u: nat, v: nat, p: nat, ul: nat, vl: nat, u2: nat, u1: nat, u0: nat, v1: nat, v0: nat,
                   t: nat, e: nat, dq: nat)
    requires u == ((u2 * W + u1) * W + u0) * p + ul && v == (v1 * W + v0) * p + vl
    requires ul < p && vl < p && u0 < W && u1 < W && v0 < W && v1 < W && W <= 2 * v1
    requires u < W * v && dq < W
    requires t == u2 * W + u1 && e == (if u2 == v1 then W - 1 else t / v1)
    requires Refined(dq, e, t * W + u0, v1 * W + v0)
    ensures u < (dq + 1) * v && dq * v < u + v
  {
    var v2 := v1 * W + v0;
    var u3 := t * W + u0;
    TopWordBound(u, v, p, ul, vl, u2, u1, u0, v1, v0);
    if dq == e {
      TrialNotBelow(u, v, p, ul, vl, u2, u1, u0, v1, v0, e);
    } else {
      TopTooLarge(u, v, p, ul, vl, u3, v2, dq + 1);
    }
    if dq * v2 <= u3 {
      TopFits(u, v, p, ul, vl, u3, v2, dq);
    } else {
      TrialDigit(u2, u1, v1, e);
      Regroup(u, v, p, ul, vl, t, u0, v1, v0);
      TrialAtMostTwoAbove(u, v, W * p, u0 * p + ul, v0 * p + vl, t, v1, e);
    }
  }

  /** The top three words over p as the top two over W p. */
  lemma Regroup(u: nat, v: nat, p: nat, ul: nat, vl: nat, t: nat, u0: nat, v1: nat, v0: nat)
    requires u == (t * W + u0) * p + ul && v == (v1 * W + v0) * p + vl && vl < p && v0 < W
    ensures u == t * (W * p) + (u0 * p + ul) && v == v1 * (W * p) + (v0 * p + vl)
    ensures 0 <= u0 * p && 0 <= v0 * p && v0 * p + vl < W * p
  {
    MulMonotone(v0 + 1, W, p);
  }

  // D4. [Multiply and subtract]

  /**
   * D3 and D4 of div on the n + 1 words w by a normalized b (w below
   * W * b): the trial digit, lowered once more when b times it exceeds
   * w, is the digit of w by b, and rest is w less b times it.
   */
  method SubtractDigit(w: seq<nat>, b: seq<nat>) returns (dq: nat, rest: seq<nat>)
    requires IsWords(w) && IsWords(b) && |b| >= 2 && |w| == |b| + 1 && 2 * b[|b| - 1] >= W
    requires Mag(w) < W * Mag(b)
    ensures dq == Mag(w) / Mag(b) && dq < W && |rest| == |w| && IsWords(rest)
    ensures Mag(rest) == Mag(w) - dq * Mag(b) == Mag(w) % Mag(b)
  {
    var mb, mw := Mag(b), Mag(w);
    MagAtLeastWord(b, |b| - 1);
    MulAtLeast(WPow(|b| - 1), b[|b| - 1]);
    dq := EstimateDigit(w, b);
    var db, top := LimbMulWord(b, dq);
    MagSnoc(db, top);
    var c := LimbCompare(w, db + [top]);
    if c < 0 {
      dq := dq - 1;
      SuccMul(dq, mb);
      db, top := LimbMulWord(b, dq);
      MagSnoc(db, top);
    }
    DigitIsQuotient(mw, mb, dq);
    rest := LimbSub(w, db + [top]);
  }

  /**
   * One step of div: the quotient digit at p, b times it subtracted from
   * the n + 1 words of a at p.
   */
  method DigitStep(a0: seq<nat>, q0: seq<nat>, b: seq<nat>, p: nat) returns (a: seq<nat>, q: seq<nat>)
    requires IsWords(a0) && IsWords(q0) && IsWords(b) && |b| >= 2 && 2 * b[|b| - 1] >= W
    requires p + |b| + 1 <= |a0| && p < |q0| && Mag(a0[p + 1..]) < Mag(b)
    ensures |a| == |a0| && |q| == |q0| && IsWords(a) && IsWords(q)
    ensures Mag(a) + WPow(p) * (Mag(q[p..]) * Mag(b))
            == Mag(a0) + WPow(p + 1) * (Mag(q0[p + 1..]) * Mag(b))
    ensures Mag(a[p..]) < Mag(b)
  {
    DivisionWindow(a0, b, p);
    var window := a0[p..p + |b| + 1];
    var dq, rest := SubtractDigit(window, b);
    a := a0[..p] + rest + a0[p + |b| + 1..];
    q := q0[p := dq];
    StepAlgebra(a0, q0, b, p, dq, rest);
    StepBound(a0, b, p, rest);
  }

  /** The quotient digit dq and the window remainder rest keep a + W^p * q * b. */
  lemma {:induction false} StepAlgebra(a0: seq<nat>, q0: seq<nat>, b: seq<nat>, p: nat, dq: nat, rest: seq<nat>)
    requires p + |b| + 1 <= |a0| && p < |q0| && |rest| == |b| + 1
    requires Mag(rest) == Mag(a0[p..p + |b| + 1]) - dq * Mag(b)
    ensures Mag(a0[..p] + rest + a0[p + |b| + 1..]) + WPow(p) * (Mag(q0[p := dq][p..]) * Mag(b))
            == Mag(a0) + WPow(p + 1) * (Mag(q0[p + 1..]) * Mag(b))
  {
    var n := |b|;
    var a, q := a0[..p] + rest + a0[p + n + 1..], q0[p := dq];
    MagReplace(a0, p, n + 1, rest);
    assert q[p..] == [dq] + q0[p + 1..];
    MagCons(dq, q0[p + 1..]);
    assert WPow(p + 1) == W * WPow(p);
    DivisionAlgebra(Mag(a0), Mag(a), WPow(p), Mag(a0[p..p + n + 1]), Mag(rest), dq, Mag(b),
                    Mag(q0[p + 1..]), Mag(q[p..]), WPow(p + 1));
  }

  /** After the step, the part of a from word p on is the window remainder. */
  lemma {:induction false} StepBound(a0: seq<nat>, b: seq<nat>, p: nat, rest: seq<nat>)
    requires p + |b| + 1 <= |a0| && |rest| == |b| + 1 && Mag(rest) < Mag(b)
    requires forall i :: p + |b| + 1 <= i < |a0| ==> a0[i] == 0
    ensures Mag((a0[..p] + rest + a0[p + |b| + 1..])[p..]) < Mag(b)
  {
    var n := |b|;
    var a := a0[..p] + rest + a0[p + n + 1..];
    assert a[p..] == rest + a0[p + n + 1..];
    assert forall i :: n + 1 <= i < |a[p..]| ==> a[p..][i] == 0;
    MagZeroTail(a[p..], n + 1);
    assert a[p..][..n + 1] == rest;
  }
}
