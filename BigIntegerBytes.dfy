/**
 * The byte format of BigInteger's toBytes and fromBytes: the absolute
 * value in little-endian bytes, with the top bit of the last byte holding
 * the sign.
 */
module BigIntegerBytes {
  import opened MathTools
  import opened BigIntegerLimbs

  /** 256^k, the weight of byte k. */
  function Pow256(k: nat): (r: nat)
    ensures r >= 1
  {
    if k == 0 then 1 else 256 * Pow256(k - 1)
  }

  /** The value of little-endian bytes. */
  function BytesValue(bs: seq<Byte>): nat
  {
    if |bs| == 0 then 0 else BytesValue(bs[..|bs| - 1]) + bs[|bs| - 1] * Pow256(|bs| - 1)
  }

  /** The bytes with the top bit of the last byte cleared. */
  function Masked(bs: seq<Byte>): (r: seq<Byte>)
    requires |bs| >= 1
    ensures |r| == |bs|
  {
    bs[..|bs| - 1] + [bs[|bs| - 1] % 128]
  }

  /**
   * The integer that bytes stand for: the value of the masked bytes,
   * negative when the top bit of the last byte is set; no bytes stand
   * for 0.
   */
  function DecodeBytes(bs: seq<Byte>): int
  {
    if |bs| == 0 then 0
    else
      var m: int := BytesValue(Masked(bs));
      if bs[|bs| - 1] >= 128 then -m else m
  }

  /**
   * getSizeInBytes for an integer of nb bits: the bytes that hold nb + 1
   * bits, one for the sign.
   */
  function ByteCount(nb: nat): (s: nat)
    ensures 8 * s >= nb + 1 && 8 * (s - 1) < nb + 1
  {
    var tmp := nb + 1;
    tmp / 8 + (if tmp % 8 != 0 then 1 else 0)
  }

  // ---------------------------------------------------------------------
  // Facts about the byte value

  lemma {:induction false} Pow256IsPow2(k: nat)
    ensures Pow256(k) == Pow2(8 * k)
    decreases k
  {
    if k > 0 {
      Pow256IsPow2(k - 1);
      Pow2Add(8, 8 * (k - 1));
      assert Pow2(8) == 256;
    }
  }

  lemma Pow256Word()
    ensures Pow256(4) == W
  {
  }

  lemma {:induction false} Pow256Add(a: nat, b: nat)
    ensures Pow256(a + b) == Pow256(a) * Pow256(b)
    decreases a
  {
    if a > 0 {
      Pow256Add(a - 1, b);
      assert Pow256(a + b) == 256 * Pow256(a - 1 + b);
    }
  }

  lemma {:induction false} BytesBound(bs: seq<Byte>)
    ensures BytesValue(bs) < Pow256(|bs|)
    decreases |bs|
  {
    if |bs| > 0 {
      var k := |bs| - 1;
      BytesBound(bs[..k]);
      ByteStep(BytesValue(bs[..k]), bs[k], Pow256(k));
    }
  }

  lemma ByteStep(v: int, x: int, p: int)
    requires 0 <= v < p && 0 <= x <= 255
    ensures v + x * p < 256 * p
  {
  }

  /** One byte more on top. */
  lemma BytesSnoc(bs: seq<Byte>, x: Byte)
    ensures BytesValue(bs + [x]) == BytesValue(bs) + x * Pow256(|bs|)
  {
    assert (bs + [x])[..|bs|] == bs;
  }

  /** Concatenation: the upper part counts 256^|a| times. */
  lemma {:induction false} BytesAppend(a: seq<Byte>, b: seq<Byte>)
    ensures BytesValue(a + b) == BytesValue(a) + Pow256(|a|) * BytesValue(b)
    decreases |b|
  {
    if |b| > 0 {
      var k := |b| - 1;
      assert (a + b)[..|a| + k] == a + b[..k];
      assert (a + b)[|a| + k] == b[k];
      assert BytesValue(a + b) == BytesValue(a + b[..k]) + b[k] * Pow256(|a| + k);
      assert BytesValue(b) == BytesValue(b[..k]) + b[k] * Pow256(k);
      BytesAppend(a, b[..k]);
      Pow256Add(|a|, k);
      BytesAppendAlgebra(BytesValue(a), Pow256(|a|), BytesValue(b[..k]), b[k], Pow256(k));
    } else {
      assert a + b == a;
    }
  }

  lemma BytesAppendAlgebra(va: int, p: int, vb: int, x: int, q: int)
    ensures va + p * vb + x * (p * q) == va + p * (vb + x * q)
  {
  }

  /** One byte more at the bottom. */
  lemma BytesCons(x: Byte, bs: seq<Byte>)
    ensures BytesValue([x] + bs) == x + 256 * BytesValue(bs)
  {
    BytesAppend([x], bs);
    assert BytesValue([x]) == BytesValue([]) + x * Pow256(0);
  }

  /** The top byte of a value below 2^(8s - 1) is below 128. */
  lemma TopByteBound(bs: seq<Byte>)
    requires |bs| >= 1 && BytesValue(bs) < Pow2(8 * |bs| - 1)
    ensures bs[|bs| - 1] < 128
  {
    var k := |bs| - 1;
    Pow256IsPow2(k);
    Pow2Add(8 * k, 7);
    assert Pow2(7) == 128;
    assert 8 * |bs| - 1 == 8 * k + 7;
    assert BytesValue(bs) >= bs[k] * Pow256(k);
    if bs[k] >= 128 {
      MulMonotone(128, bs[k], Pow256(k));
    }
  }

  /** Digits(m) is the only b with m < 2^b and 2^(b - 1) <= m for b > 0. */
  lemma DigitsUnique(m: nat, b: nat)
    requires m < Pow2(b) && (b == 0 || Pow2(b - 1) <= m)
    ensures b == Digits(m)
  {
    DigitsIsLeastPower(m);
    var d := Digits(m);
    if b < d {
      Pow2Monotone(b, d - 1);
    } else if b > d {
      Pow2Monotone(d, b - 1);
    }
  }

  // ---------------------------------------------------------------------
  // Grouping bytes into words

  /** The bytes taken four at a time as words, the last group possibly short. */
  function Group(c: seq<Byte>): (r: seq<nat>)
    requires |c| >= 1
    ensures |r| == (|c| + 3) / 4
    decreases |c|
  {
    if |c| <= 4 then [BytesValue(c)] else [BytesValue(c[..4])] + Group(c[4..])
  }

  /** Word i of the grouping holds bytes 4i up to 4i + 3. */
  lemma {:induction false} GroupAt(c: seq<Byte>, i: nat)
    requires |c| >= 1 && i < (|c| + 3) / 4
    ensures 4 * i < |c|
    ensures Group(c)[i] == BytesValue(c[4 * i..GroupEnd(|c|, i)])
    decreases i
  {
    if i > 0 {
      var c' := c[4..];
      GroupAt(c', i - 1);
      assert Group(c)[i] == Group(c')[i - 1];
      assert GroupEnd(|c|, i) == GroupEnd(|c'|, i - 1) + 4;
      assert c'[4 * (i - 1)..GroupEnd(|c'|, i - 1)] == c[4 * i..GroupEnd(|c|, i)];
    } else if |c| <= 4 {
      assert c[0..|c|] == c;
    } else {
      assert c[0..4] == c[..4];
    }
  }

  /** Byte p of the masked bytes: the top bit is cleared in the last one only. */
  lemma MaskedAt(bytes: seq<Byte>, n: nat, p: nat)
    requires 1 <= n <= |bytes| && p < n
    ensures Masked(bytes[..n])[p] == if p == n - 1 then bytes[p] % 128 else bytes[p]
  {
  }

  /** A slice is its first element followed by the rest. */
  lemma ConsSlice(c: seq<Byte>, a: nat, e: nat)
    requires a < e <= |c|
    ensures [c[a]] + c[a + 1..e] == c[a..e]
  {
  }

  /** The end of the bytes of word i: 4i + 4, or the end of the bytes. */
  function GroupEnd(n: nat, i: nat): nat
  {
    if 4 * i + 4 < n then 4 * i + 4 else n
  }

  /** The grouped words are words and have the value of the bytes. */
  lemma {:induction false} MagGroup(c: seq<Byte>)
    requires |c| >= 1
    ensures IsWords(Group(c)) && Mag(Group(c)) == BytesValue(c)
    decreases |c|
  {
    Pow256Word();
    if |c| <= 4 {
      BytesBound(c);
      Pow256Monotone(|c|, 4);
      MagSingle(BytesValue(c));
    } else {
      MagGroup(c[4..]);
      BytesBound(c[..4]);
      assert c == c[..4] + c[4..];
      BytesAppend(c[..4], c[4..]);
      MagCons(BytesValue(c[..4]), Group(c[4..]));
    }
  }

  lemma Pow256Monotone(a: nat, b: nat)
    requires a <= b
    ensures Pow256(a) <= Pow256(b)
  {
    Pow256Add(a, b - a);
    MulAtLeast(Pow256(a), Pow256(b - a));
  }

  /** Masking leaves bytes whose top bit is clear as they are. */
  lemma MaskedClear(bs: seq<Byte>)
    requires |bs| >= 1 && bs[|bs| - 1] < 128
    ensures Masked(bs) == bs
  {
    assert bs[..|bs| - 1] + [bs[|bs| - 1]] == bs;
  }

  /** Masking undoes setting the top bit of the last byte. */
  lemma MaskedSet(bs: seq<Byte>)
    requires |bs| >= 1 && bs[|bs| - 1] < 128
    ensures Masked(bs[|bs| - 1 := bs[|bs| - 1] + 128]) == bs
  {
    var t := bs[|bs| - 1 := bs[|bs| - 1] + 128];
    TopBitCleared(bs[|bs| - 1]);
    assert t[..|t| - 1] == bs[..|bs| - 1];
    assert bs[..|bs| - 1] + [bs[|bs| - 1]] == bs;
  }

  lemma TopBitCleared(b: nat)
    requires b < 128
    ensures (b + 128) % 128 == b
  {
  }

  lemma DecodeNonnegative(bs: seq<Byte>)
    requires |bs| >= 1 && bs[|bs| - 1] < 128
    ensures DecodeBytes(bs) == BytesValue(bs)
  {
    MaskedClear(bs);
  }

  /** Setting the top bit of the last byte negates the decoded value. */
  lemma DecodeNegative(bs: seq<Byte>)
    requires |bs| >= 1 && bs[|bs| - 1] < 128
    ensures DecodeBytes(bs[|bs| - 1 := bs[|bs| - 1] + 128]) == -(BytesValue(bs) as int)
  {
    MaskedSet(bs);
  }

  /**
   * One byte out of the word v: with M = b + p * (v + 256 q rest), the
   * low byte of v at weight p and the rest of the value at weight 256 p.
   */
  lemma ByteOut(b: nat, p: nat, v: nat, q: nat, rest: nat, M: nat)
    requires b + p * (v + (256 * q) * rest) == M && v < 256 * q
    ensures (v + (256 * q) * rest) / 256 == v / 256 + q * rest
    ensures b + (v % 256) * p + (256 * p) * (v / 256 + q * rest) == M
    ensures v / 256 < q
  {
    var x := q * rest;
    assert (256 * q) * rest == 256 * x;
    assert v == 256 * (v / 256) + v % 256;
    assert p * (v + 256 * x) == (v % 256) * p + (256 * p) * (v / 256 + x);
  }

  /** Once the bytes written hold the whole value, nothing is left over. */
  lemma NothingLeft(b: nat, p: nat, R: nat, M: nat)
    requires b + p * R == M && M < p
    ensures R == 0 && b == M
  {
    if R != 0 {
      MulAtLeast(p, R);
    }
  }

  /**
   * The bytes of a magnitude M with a free top bit, that bit set for a
   * negative integer, decode to M or -M.
   */
  lemma SignedBytes(bs: seq<Byte>, M: nat, neg: bool)
    requires |bs| >= 1 && BytesValue(bs) == M && M < Pow2(8 * |bs| - 1)
    ensures bs[|bs| - 1] < 128
    ensures DecodeBytes(if neg then bs[|bs| - 1 := bs[|bs| - 1] + 128] else bs)
         == if neg then -(M as int) else M
  {
    TopByteBound(bs);
    if neg {
      DecodeNegative(bs);
    } else {
      DecodeNonnegative(bs);
    }
  }
}
