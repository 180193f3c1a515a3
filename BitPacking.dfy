/**
 * Packing of t d-bit vectors into a byte array and back
 * (concat_bit_vectors, split_into_bit_vectors) and the size of the packed
 * vault data (vaultDataSize). ProtectedMinutiaeTemplate and FuzzyVault
 * carry identical copies of these three routines; both use this model.
 *
 * A byte is a natural below 256 and a 32-bit word a natural below 2^32;
 * bits are read and written most significant first. The random bits and
 * bytes the packing supplements are the values the generator returned,
 * given as sequences of draws.
 */
module BitPacking {
  import opened MathTools

  // ---------------------------------------------------------------------
  // Bit strings

  /** Bit j of v: the test `v & (1 << j)`. */
  function Bit(v: nat, j: nat): bool
  {
    if j == 0 then v % 2 == 1 else Bit(v / 2, j - 1)
  }

  /** The low d bits of v, most significant first. */
  function VecBits(v: nat, d: nat): (r: seq<bool>)
    ensures |r| == d
  {
    if d == 0 then [] else VecBits(v / 2, d - 1) + [v % 2 == 1]
  }

  /** Position m of VecBits(v, d) is bit d - 1 - m of v. */
  lemma {:induction false} VecBitsAt(v: nat, d: nat, m: nat)
    requires m < d
    ensures VecBits(v, d)[m] == Bit(v, d - 1 - m)
    decreases d
  {
    if m < d - 1 {
      VecBitsAt(v / 2, d - 1, m);
    }
  }

  /** The bits of v from bit d - 1 down to bit j, one more than down to bit j + 1. */
  lemma VecBitsStep(v: nat, d: nat, j: int, W: seq<bool>)
    requires 0 <= j < d && W == VecBits(v, d)[..d - 1 - j]
    ensures W + [Bit(v, j)] == VecBits(v, d)[..d - 1 - (j - 1)]
  {
    VecBitsAt(v, d, d - 1 - j);
    assert VecBits(v, d)[..d - j] == W + [VecBits(v, d)[d - 1 - j]];
  }

  /** The value of a bit string read most significant bit first. */
  function Num(bs: seq<bool>): nat
  {
    if |bs| == 0 then 0 else 2 * Num(bs[..|bs| - 1]) + (if bs[|bs| - 1] then 1 else 0)
  }

  /** A string of k bits has a value below 2^k. */
  lemma {:induction false} NumBound(bs: seq<bool>)
    ensures Num(bs) < Pow2(|bs|)
    decreases |bs|
  {
    if |bs| > 0 {
      NumBound(bs[..|bs| - 1]);
    }
  }

  /** Appending a bit doubles the value and adds the bit. */
  lemma NumSnoc(bs: seq<bool>, b: bool)
    ensures Num(bs + [b]) == 2 * Num(bs) + (if b then 1 else 0)
  {
    assert (bs + [b])[..|bs|] == bs;
  }

  /** Reading back the d bits of a value below 2^d gives the value. */
  lemma {:induction false} NumVecBits(v: nat, d: nat)
    requires v < Pow2(d)
    ensures Num(VecBits(v, d)) == v
    decreases d
  {
    if d > 0 {
      NumVecBits(v / 2, d - 1);
      NumSnoc(VecBits(v / 2, d - 1), v % 2 == 1);
    }
  }

  /** The bits of the value of a bit string are the string. */
  lemma {:induction false} VecBitsNum(bs: seq<bool>)
    ensures VecBits(Num(bs), |bs|) == bs
    decreases |bs|
  {
    if |bs| > 0 {
      var init := bs[..|bs| - 1];
      VecBitsNum(init);
      assert Num(bs) / 2 == Num(init);
      assert bs == init + [bs[|bs| - 1]];
    }
  }

  // ---------------------------------------------------------------------
  // Bytes and bit strings

  /** The bytes of a bit string of whole bytes, eight bits each. */
  function Octets(bs: seq<bool>): (r: seq<Byte>)
    requires |bs| % 8 == 0
    ensures |r| == |bs| / 8
  {
    if |bs| == 0 then []
    else
      NumBound(bs[|bs| - 8..]);
      assert Pow2(8) == 256;
      Octets(bs[..|bs| - 8]) + [Num(bs[|bs| - 8..])]
  }

  /** The bits of a byte string, eight per byte. */
  function BitsOf(bytes: seq<Byte>): (r: seq<bool>)
    ensures |r| == 8 * |bytes|
  {
    if |bytes| == 0 then [] else BitsOf(bytes[..|bytes| - 1]) + VecBits(bytes[|bytes| - 1], 8)
  }

  /** Bit k of byte m sits at position 8m + 7 - k of the bit string. */
  lemma {:induction false} BitsOfAt(bytes: seq<Byte>, m: nat, k: nat)
    requires m < |bytes| && k < 8
    ensures BitsOf(bytes)[8 * m + 7 - k] == Bit(bytes[m], k)
    decreases |bytes|
  {
    var init := bytes[..|bytes| - 1];
    if m < |bytes| - 1 {
      BitsOfAt(init, m, k);
      assert bytes[m] == init[m];
    } else {
      VecBitsAt(bytes[m], 8, 7 - k);
    }
  }

  /** Bytes made of a bit string give the bit string back. */
  lemma {:induction false} BitsOfOctets(bs: seq<bool>)
    requires |bs| % 8 == 0
    ensures BitsOf(Octets(bs)) == bs
    decreases |bs|
  {
    if |bs| > 0 {
      var o := Octets(bs);
      BitsOfOctets(bs[..|bs| - 8]);
      assert o[..|o| - 1] == Octets(bs[..|bs| - 8]);
      VecBitsNum(bs[|bs| - 8..]);
      assert bs == bs[..|bs| - 8] + bs[|bs| - 8..];
    }
  }

  /** The bytes of a concatenation, the first part whole bytes. */
  lemma {:induction false} OctetsAppend(a: seq<bool>, b: seq<bool>)
    requires |a| % 8 == 0 && |b| % 8 == 0
    ensures Octets(a + b) == Octets(a) + Octets(b)
    decreases |b|
  {
    if |b| == 0 {
      assert a + b == a;
    } else {
      var b' := b[..|b| - 8];
      OctetsAppend(a, b');
      assert (a + b)[..|a + b| - 8] == a + b';
      assert (a + b)[|a + b| - 8..] == b[|b| - 8..];
    }
  }

  // ---------------------------------------------------------------------
  // Vectors and bit strings

  /** The concatenation of the low d bits of each vector, the first vector first. */
  function Stream(vecs: seq<nat>, d: nat): (r: seq<bool>)
    ensures |r| == |vecs| * d
  {
    if |vecs| == 0 then [] else Stream(vecs[..|vecs| - 1], d) + VecBits(vecs[|vecs| - 1], d)
  }

  lemma MulStep(t: nat, d: nat)
    ensures (t + 1) * d == t * d + d
  {
  }

  lemma {:induction false} MulMonotone(i: nat, t: nat, d: nat)
    requires i <= t
    ensures i * d <= t * d
    decreases t - i
  {
    if i < t {
      MulMonotone(i + 1, t, d);
      MulStep(i, d);
    }
  }

  /** The first t d-bit vectors read from a bit string, the first one from its start. */
  function Unpacked(bs: seq<bool>, d: nat, t: nat): (r: seq<nat>)
    requires t * d <= |bs|
    ensures |r| == t
  {
    if t == 0 then []
    else
      MulStep(t - 1, d);
      Unpacked(bs, d, t - 1) + [Num(bs[(t - 1) * d..t * d])]
  }

  /** Unpacking reads only the first t * d bits. */
  lemma {:induction false} UnpackedPrefix(bs: seq<bool>, cs: seq<bool>, d: nat, t: nat)
    requires t * d <= |bs| && t * d <= |cs| && bs[..t * d] == cs[..t * d]
    ensures Unpacked(bs, d, t) == Unpacked(cs, d, t)
    decreases t
  {
    if t > 0 {
      MulStep(t - 1, d);
      assert bs[..(t - 1) * d] == bs[..t * d][..(t - 1) * d];
      assert cs[..(t - 1) * d] == cs[..t * d][..(t - 1) * d];
      UnpackedPrefix(bs, cs, d, t - 1);
      assert bs[(t - 1) * d..t * d] == bs[..t * d][(t - 1) * d..];
      assert cs[(t - 1) * d..t * d] == cs[..t * d][(t - 1) * d..];
    }
  }

  /**
   * The round trip of the packing at the level of bits: the vectors are
   * read back from their concatenation, whatever bits follow it, when
   * every vector has at most d bits.
   */
  lemma {:induction false} UnpackedStream(vecs: seq<nat>, d: nat, rest: seq<bool>)
    requires forall i :: 0 <= i < |vecs| ==> vecs[i] < Pow2(d)
    ensures Unpacked(Stream(vecs, d) + rest, d, |vecs|) == vecs
    decreases |vecs|
  {
    if |vecs| > 0 {
      var t := |vecs|;
      var init, last := vecs[..t - 1], vecs[t - 1];
      MulStep(t - 1, d);
      assert vecs == init + [last];
      UnpackedStream(init, d, VecBits(last, d) + rest);
      Middle(Stream(init, d), VecBits(last, d), rest);
      NumVecBits(last, d);
    }
  }

  /** Appending to a concatenation appends to its second part. */
  lemma Snoc<T>(x: seq<T>, y: seq<T>, b: T)
    ensures (x + y) + [b] == x + (y + [b])
  {
  }

  /** The middle part of a three-part concatenation. */
  lemma Middle<T>(x: seq<T>, y: seq<T>, z: seq<T>)
    ensures x + (y + z) == (x + y) + z
    ensures ((x + y) + z)[|x|..|x| + |y|] == y
  {
  }

  // ---------------------------------------------------------------------
  // vaultDataSize

  /**
   * vaultDataSize: the bytes t d-bit vectors occupy, rounded up to whole
   * 16-byte blocks of the cipher; the least such multiple of 16.
   */
  function VaultDataSize(t: nat, d: nat): (n: nat)
    ensures n % 16 == 0
  {
    var b := BitCount(t, d);
    var n := b / 8 + (if b % 8 != 0 then 1 else 0);
    if n % 16 != 0 then n + 16 - n % 16 else n
  }

  /** The t * d bits of t vectors of d bits, counted vector by vector. */
  function BitCount(t: nat, d: nat): nat
  {
    if t == 0 then 0 else BitCount(t - 1, d) + d
  }

  lemma {:induction false} BitCountIsProduct(t: nat, d: nat)
    ensures BitCount(t, d) == t * d
  {
    if t > 0 {
      BitCountIsProduct(t - 1, d);
    }
  }

  /** The vault data holds the t * d bits, and one block less would not. */
  lemma VaultDataSizeFits(t: nat, d: nat)
    ensures t * d <= 8 * VaultDataSize(t, d)
    ensures VaultDataSize(t, d) == 0 || t * d > 8 * (VaultDataSize(t, d) - 16)
  {
    BitCountIsProduct(t, d);
  }

  // ---------------------------------------------------------------------
  // concat_bit_vectors

  /**
   * The bytes hold the bit string P written so far: its whole bytes, its
   * incomplete last byte as a number, and zero bytes after it.
   */
  ghost predicate Holds(bytes: seq<Byte>, P: seq<bool>)
  {
    var m := |P| / 8;
    m <= |bytes| &&
    bytes[..m] == Octets(P[..8 * m]) &&
    (m < |bytes| ==> bytes[m] == Num(P[8 * m..])) &&
    (forall i :: m < i < |bytes| ==> bytes[i] == 0)
  }

  /** The pad bits of a string of L bits up to a whole byte: the low bit of each draw. */
  function PadBits(L: nat, draws: seq<Byte>): (r: seq<bool>)
    requires |draws| >= 7
    ensures (L + |r|) % 8 == 0 && |r| < 8
  {
    seq((8 - L % 8) % 8, i requires 0 <= i < (8 - L % 8) % 8 => draws[i] % 2 == 1)
  }

  /**
   * What concat_bit_vectors writes into the n bytes, as written: the bytes
   * of the stream completed by pad bits, then, when the stream ended on a
   * byte boundary, one byte left at zero, then random bytes.
   */
  function PackedAsWritten(S: seq<bool>, bitDraws: seq<Byte>, byteDraws: seq<Byte>, n: nat): (r: seq<Byte>)
    requires |S| <= 8 * n && |bitDraws| >= 7 && |byteDraws| >= n
    ensures |r| == n
  {
    var body := Octets(S + PadBits(|S|, bitDraws));
    var gap: seq<Byte> := if |S| % 8 == 0 && |S| / 8 < n then [0] else [];
    body + gap + byteDraws[..n - |body| - |gap|]
  }

  /** The intended packing: the padded stream's bytes, then random bytes up to n. */
  function Packed(S: seq<bool>, bitDraws: seq<Byte>, byteDraws: seq<Byte>, n: nat): (r: seq<Byte>)
    requires |S| <= 8 * n && |bitDraws| >= 7 && |byteDraws| >= n
    ensures |r| == n
  {
    var body := Octets(S + PadBits(|S|, bitDraws));
    body + byteDraws[..n - |body|]
  }

  /** Nothing written yet: n zero bytes hold the empty string. */
  lemma HoldsEmpty(bytes: seq<Byte>)
    requires forall i :: 0 <= i < |bytes| ==> bytes[i] == 0
    ensures Holds(bytes, [])
  {
  }

  /** Shifting bit b into the incomplete byte makes the bytes hold P + [b]. */
  lemma HoldsPush(bytes: seq<Byte>, P: seq<bool>, b: bool, x: nat)
    requires Holds(bytes, P) && |P| / 8 < |bytes|
    requires x == 2 * (bytes[|P| / 8] as nat) + (if b then 1 else 0)
    ensures x < 256 && Holds(bytes[|P| / 8 := x], P + [b])
  {
    var m := |P| / 8;
    DivBounds(|P|);
    DivStep(|P|);
    var tail := P[8 * m..];
    NumBound(tail);
    Pow2Monotone(|tail|, 7);
    assert Pow2(7) == 128;
    NumSnoc(tail, b);
    Snoc(P[..8 * m], tail, b);
    assert P[..8 * m] + tail == P;
    if (|P| + 1) % 8 == 0 {
      PushCompletes(bytes, P[..8 * m], tail, b, x, m);
    } else {
      PushInside(bytes, P[..8 * m], tail, b, x, m);
    }
  }

  lemma DivBounds(c: nat)
    ensures 8 * (c / 8) <= c < 8 * (c / 8) + 8
  {
  }

  /** The bit completes byte m: the bytes hold its whole bytes and no incomplete one. */
  lemma PushCompletes(bytes: seq<Byte>, W: seq<bool>, tail: seq<bool>, b: bool, x: nat, m: nat)
    requires |W| == 8 * m && m < |bytes| && |tail| == 7 && bytes[..m] == Octets(W)
    requires x == Num(tail + [b]) < 256 && forall i :: m < i < |bytes| ==> bytes[i] == 0
    ensures Holds(bytes[m := x], W + (tail + [b]))
  {
    var Q := W + (tail + [b]);
    assert |Q| / 8 == m + 1;
    assert Q[..8 * m] == W && Q[8 * m..] == tail + [b];
    assert Q[..8 * (m + 1)] == Q && Q[8 * (m + 1)..] == [];
    assert bytes[m := x][..m + 1] == bytes[..m] + [x];
  }

  /** The bit stays in the incomplete byte m. */
  lemma PushInside(bytes: seq<Byte>, W: seq<bool>, tail: seq<bool>, b: bool, x: nat, m: nat)
    requires |W| == 8 * m && m < |bytes| && |tail| < 7 && bytes[..m] == Octets(W)
    requires x == Num(tail + [b]) < 256 && forall i :: m < i < |bytes| ==> bytes[i] == 0
    ensures Holds(bytes[m := x], W + (tail + [b]))
  {
    var Q := W + (tail + [b]);
    assert |Q| / 8 == m;
    assert Q[..8 * m] == W && Q[8 * m..] == tail + [b];
    assert bytes[m := x][..m] == bytes[..m];
  }

  /** Bytes holding a string of whole bytes start with its bytes. */
  lemma HoldsWhole(bytes: seq<Byte>, P: seq<bool>)
    requires Holds(bytes, P) && |P| % 8 == 0
    ensures bytes[..|P| / 8] == Octets(P)
  {
    var m := |P| / 8;
    WholeEight(|P|);
    assert P[..8 * m] == P;
  }

  /** Bytes holding a string of whole bytes have no active byte: the next one is zero. */
  lemma HoldsWholeNext(bytes: seq<Byte>, P: seq<bool>)
    requires Holds(bytes, P) && |P| % 8 == 0
    ensures |P| / 8 < |bytes| ==> bytes[|P| / 8] == 0
  {
    var m := |P| / 8;
    WholeEight(|P|);
    assert P[8 * m..] == [];
  }

  lemma WholeEight(c: nat)
    requires c % 8 == 0
    ensures 8 * (c / 8) == c
  {
  }

  /** bits[idx] <<= 1, then plus one when b: one bit shifted into the active byte. */
  method ShiftIn(bits: array<Byte>, idx: nat, b: bool, ghost P: seq<bool>)
    requires Holds(bits[..], P) && idx == |P| / 8 < bits.Length
    modifies bits
    ensures Holds(bits[..], P + [b])
  {
    HoldsPush(bits[..], P, b, 2 * (bits[idx] as nat) + (if b then 1 else 0));
    bits[idx] := (2 * bits[idx]) % 256;
    if b {
      bits[idx] := bits[idx] + 1;
    }
    assert bits[..] == old(bits[..])[idx := 2 * (old(bits[idx]) as nat) + (if b then 1 else 0)];
  }

  /** Sets every byte to zero (memset). */
  method Zero(bits: array<Byte>)
    modifies bits
    ensures forall i :: 0 <= i < bits.Length ==> bits[i] == 0
  {
    var z := 0;
    while z < bits.Length
      invariant 0 <= z <= bits.Length
      invariant forall i :: 0 <= i < z ==> bits[i] == 0
    {
      bits[z] := 0;
      z := z + 1;
    }
  }

  /** Writes the bits of the vectors, d bits each, into zeroed bytes. */
  method PushVectors(bits: array<Byte>, vecs: seq<nat>, d: nat) returns (idx: nat, count: nat)
    requires |vecs| * d <= 8 * bits.Length
    requires forall i :: 0 <= i < bits.Length ==> bits[i] == 0
    modifies bits
    ensures count == |vecs| * d && idx == count / 8
    ensures Holds(bits[..], Stream(vecs, d))
  {
    idx, count := 0, 0;
    HoldsEmpty(bits[..]);
    var i := 0;
    while i < |vecs|
      invariant 0 <= i <= |vecs| && count == i * d && idx == count / 8
      invariant Holds(bits[..], Stream(vecs[..i], d))
    {
      MulMonotone(i + 1, |vecs|, d);
      MulStep(i, d);
      assert vecs[..i + 1][..i] == vecs[..i];
      idx, count := PushVector(bits, vecs[i], d, idx, count, Stream(vecs[..i], d));
      i := i + 1;
    }
    assert vecs[..i] == vecs;
  }

  /** Writes the low d bits of v, most significant first, after the string P the bytes hold. */
  method PushVector(bits: array<Byte>, v: nat, d: nat, idx: nat, count: nat, ghost P: seq<bool>)
    returns (idx': nat, count': nat)
    requires Holds(bits[..], P) && count == |P| && idx == count / 8 && count + d <= 8 * bits.Length
    modifies bits
    ensures count' == count + d && idx' == count' / 8
    ensures Holds(bits[..], P + VecBits(v, d))
  {
    idx', count' := idx, count;
    ghost var W: seq<bool> := [];
    assert P + W == P;
    var j := d - 1;
    while j >= 0
      invariant -1 <= j < d && W == VecBits(v, d)[..d - 1 - j]
      invariant count' == |P + W| == count + d - 1 - j && idx' == count' / 8
      invariant Holds(bits[..], P + W)
    {
      var b := Bit(v, j);
      VecBitsStep(v, d, j, W);
      Snoc(P, W, b);
      DivBelow(count', bits.Length);
      ShiftIn(bits, idx', b, P + W);
      W := W + [b];
      DivStep(count');
      count' := count' + 1;
      if count' % 8 == 0 {
        idx' := idx' + 1;
      }
      j := j - 1;
    }
    assert W == VecBits(v, d);
  }

  lemma DivBelow(c: nat, n: nat)
    requires c < 8 * n
    ensures c / 8 < n
  {
  }

  lemma DivStep(c: nat)
    ensures (c + 1) / 8 == c / 8 + (if (c + 1) % 8 == 0 then 1 else 0)
  {
  }

  /** Completes the active byte with the low bits of draws (the supplement loop). */
  method PadByte(bits: array<Byte>, idx: nat, count: nat, bitDraws: seq<Byte>, ghost S: seq<bool>)
    returns (count': nat)
    requires |bitDraws| >= 7 && Holds(bits[..], S) && count == |S| && idx == |S| / 8
    requires count % 8 != 0 ==> idx < bits.Length
    modifies bits
    ensures count' == |S + PadBits(|S|, bitDraws)|
    ensures Holds(bits[..], S + PadBits(|S|, bitDraws))
  {
    ghost var W: seq<bool> := [];
    assert S + W == S;
    count' := count;
    var r := 0;
    while count' % 8 != 0
      invariant 0 <= r <= |PadBits(|S|, bitDraws)| && W == PadBits(|S|, bitDraws)[..r]
      invariant count' == |S + W| == count + r && Holds(bits[..], S + W)
      decreases |PadBits(|S|, bitDraws)| - r
    {
      W := PadOne(bits, idx, bitDraws, S, W, r);
      count' := count' + 1;
      r := r + 1;
    }
    PadDone(|S|, bitDraws, r, W);
  }

  /** One pass of the supplement loop: the low bit of draw r shifted into the active byte. */
  method PadOne(bits: array<Byte>, idx: nat, bitDraws: seq<Byte>, ghost S: seq<bool>, ghost W: seq<bool>, r: nat)
    returns (ghost W': seq<bool>)
    requires |bitDraws| >= 7 && idx == |S| / 8 && (|S| + r) % 8 != 0 && idx < bits.Length
    requires r <= |PadBits(|S|, bitDraws)| && W == PadBits(|S|, bitDraws)[..r] && Holds(bits[..], S + W)
    modifies bits
    ensures r < |PadBits(|S|, bitDraws)| && W' == PadBits(|S|, bitDraws)[..r + 1] && Holds(bits[..], S + W')
  {
    PadStep(|S|, bitDraws, r, W);
    var b := bitDraws[r] % 2 == 1;
    Snoc(S, W, b);
    ShiftIn(bits, idx, b, S + W);
    W' := W + [b];
  }

  /** While the byte is incomplete there is one more pad bit, the low bit of the next draw. */
  lemma {:induction false} PadStep(L: nat, draws: seq<Byte>, r: nat, W: seq<bool>)
    requires |draws| >= 7 && (L + r) % 8 != 0 && r <= |PadBits(L, draws)| && W == PadBits(L, draws)[..r]
    ensures r < |PadBits(L, draws)| && r < |draws|
    ensures W + [draws[r] % 2 == 1] == PadBits(L, draws)[..r + 1]
  {
    var pad := PadBits(L, draws);
    assert r != |pad|;
    assert pad[..r + 1] == pad[..r] + [pad[r]];
  }

  /** Once the byte is complete all pad bits are written. */
  lemma {:induction false} PadDone(L: nat, draws: seq<Byte>, r: nat, W: seq<bool>)
    requires |draws| >= 7 && (L + r) % 8 == 0 && r <= |PadBits(L, draws)| && W == PadBits(L, draws)[..r]
    ensures W == PadBits(L, draws)
  {
    var pad := PadBits(L, draws);
    assert r == |pad|;
    assert pad[..r] == pad;
  }

  /** Overwrites the bytes from start on with the draws, in order. */
  method FillRandom(bits: array<Byte>, start: nat, byteDraws: seq<Byte>)
    requires start <= bits.Length && bits.Length - start <= |byteDraws|
    modifies bits
    ensures bits[..] == old(bits[..start]) + byteDraws[..bits.Length - start]
  {
    var idx := start;
    while idx < bits.Length
      invariant start <= idx <= bits.Length
      invariant bits[..start] == old(bits[..start]) && bits[start..idx] == byteDraws[..idx - start]
    {
      bits[idx] := byteDraws[idx - start];
      idx := idx + 1;
    }
    assert bits[..] == bits[..start] + bits[start..idx];
  }

  /**
   * concat_bit_vectors as written, into a buffer of n bytes: after the
   * loops the active byte index is incremented once more, so when t * d is
   * a multiple of 8 the byte after the stream stays zero instead of being
   * random.
   */
  method ConcatBitVectorsAsWritten(bits: array<Byte>, vecs: seq<nat>, d: nat,
                                   bitDraws: seq<Byte>, byteDraws: seq<Byte>)
    requires |vecs| * d <= 8 * bits.Length && |bitDraws| >= 7 && |byteDraws| >= bits.Length
    modifies bits
    ensures bits[..] == PackedAsWritten(Stream(vecs, d), bitDraws, byteDraws, bits.Length)
  {
    ghost var S := Stream(vecs, d);
    Zero(bits);
    var idx, count := PushVectors(bits, vecs, d);
    count := PadByte(bits, idx, count, bitDraws, S);
    ghost var P := S + PadBits(|S|, bitDraws);
    PadWhole(S, bitDraws);
    HoldsWhole(bits[..], P);
    HoldsWholeNext(bits[..], P);
    PaddedLength(|S|, |P| - |S|);
    idx := idx + 1;
    if idx <= bits.Length {
      GapAsWritten(bits[..], Octets(P), idx, |S| % 8 == 0);
      FillRandom(bits, idx, byteDraws);
    }
  }

  /** The bytes before the random ones, as written: the padded stream, then the zero byte if any. */
  lemma GapAsWritten(bytes: seq<Byte>, body: seq<Byte>, idx: nat, whole: bool)
    requires |body| <= |bytes| && bytes[..|body|] == body
    requires |body| < |bytes| ==> bytes[|body|] == 0
    requires idx <= |bytes| && idx == |body| + (if whole then 1 else 0)
    ensures bytes[..idx] == body + (if whole then [0] else [])
  {
    if whole {
      assert bytes[..idx] == bytes[..|body|] + [bytes[|body|]];
    }
  }

  /** A string of L bits padded to whole bytes spans one more byte than L / 8 unless L is whole. */
  lemma PaddedLength(L: nat, k: nat)
    requires (L + k) % 8 == 0 && k < 8
    ensures (L + k) / 8 == L / 8 + (if L % 8 == 0 then 0 else 1)
    ensures L % 8 == 0 ==> k == 0
  {
  }

  /**
   * concat_bit_vectors as its documentation states it: the last 8n - t*d
   * bits are random, so the random bytes start right after the byte that
   * holds the end of the stream.
   */
  method ConcatBitVectors(bits: array<Byte>, vecs: seq<nat>, d: nat,
                          bitDraws: seq<Byte>, byteDraws: seq<Byte>)
    requires |vecs| * d <= 8 * bits.Length && |bitDraws| >= 7 && |byteDraws| >= bits.Length
    modifies bits
    ensures bits[..] == Packed(Stream(vecs, d), bitDraws, byteDraws, bits.Length)
  {
    ghost var S := Stream(vecs, d);
    Zero(bits);
    var idx, count := PushVectors(bits, vecs, d);
    var padded := count % 8 != 0;
    count := PadByte(bits, idx, count, bitDraws, S);
    ghost var P := S + PadBits(|S|, bitDraws);
    PadWhole(S, bitDraws);
    HoldsWhole(bits[..], P);
    HoldsWholeNext(bits[..], P);
    if padded {
      idx := idx + 1;
    }
    assert idx == |P| / 8;
    FillRandom(bits, idx, byteDraws);
  }

  /** The byte left zero: for 2 vectors of 8 bits in 16 bytes, byte 2 is always 0. */
  lemma PackedAsWrittenLeavesZero(bitDraws: seq<Byte>, byteDraws: seq<Byte>)
    requires |bitDraws| >= 7 && |byteDraws| >= 16 && byteDraws[0] != 0
    ensures PackedAsWritten(Stream([0xA5, 0x3C], 8), bitDraws, byteDraws, 16)[2] == 0
    ensures Packed(Stream([0xA5, 0x3C], 8), bitDraws, byteDraws, 16)[2] == byteDraws[0]
  {
    var S := Stream([0xA5, 0x3C], 8);
    assert |S| == 16;
    var body := Octets(S + PadBits(|S|, bitDraws));
    assert |body| == 2;
  }

  // ---------------------------------------------------------------------
  // split_into_bit_vectors

  /** Shifts one bit into a 32-bit word: `v <<= 1`, plus one when b. */
  lemma WordPush(bs: seq<bool>, b: bool)
    requires |bs| < 32
    ensures (2 * Num(bs)) % WORD32 + (if b then 1 else 0) == Num(bs + [b]) < WORD32
  {
    var v := Num(bs);
    NumBound(bs);
    Pow2Monotone(|bs|, 31);
    HalfWord();
    ModBelow(2 * v, WORD32);
    NumSnoc(bs, b);
  }

  lemma ModBelow(x: nat, m: nat)
    requires x < m
    ensures x % m == x
  {
  }

  lemma HalfWord()
    ensures 2 * Pow2(31) == WORD32
  {
    Pow2Is64();
  }

  /**
   * split_into_bit_vectors, into an array of t vectors: vector i is read
   * from bits i*d .. i*d + d - 1 of the bytes, most significant first.
   */
  method SplitIntoBitVectors(vecs: array<nat>, bits: seq<Byte>, d: nat)
    requires d <= 32 && vecs.Length * d <= 8 * |bits|
    modifies vecs
    ensures vecs[..] == Unpacked(BitsOf(bits), d, vecs.Length)
  {
    var idx := 0;
    var l := 7;
    var i := 0;
    while i < vecs.Length
      invariant 0 <= i <= vecs.Length && i * d == 8 * idx + 7 - l && 0 <= l <= 7
      invariant vecs[..i] == Unpacked(BitsOf(bits), d, i)
    {
      MulMonotone(i + 1, vecs.Length, d);
      MulStep(i, d);
      vecs[i], idx, l := ReadVector(bits, d, idx, l);
      UnpackedStep(BitsOf(bits), d, i, vecs[..i], vecs[i]);
      assert vecs[..i + 1] == vecs[..i] + [vecs[i]];
      i := i + 1;
    }
    assert vecs[..i] == vecs[..];
  }

  /**
   * The inner loop of split_into_bit_vectors: d bits read from bit l of
   * byte idx on, each shifted into a 32-bit word.
   */
  method ReadVector(bits: seq<Byte>, d: nat, idx: nat, l: nat) returns (v: nat, idx': nat, l': nat)
    requires d <= 32 && l <= 7 && 8 * idx + 7 - l + d <= 8 * |bits|
    ensures v == Num(BitsOf(bits)[8 * idx + 7 - l..8 * idx + 7 - l + d])
    ensures l' <= 7 && 8 * idx' + 7 - l' == 8 * idx + 7 - l + d
  {
    ghost var B := BitsOf(bits);
    ghost var start := 8 * idx + 7 - l;
    v, idx', l' := 0, idx, l;
    var j := d - 1;
    while j >= 0
      invariant -1 <= j < d && 0 <= l' <= 7 && 8 * idx' + 7 - l' == start + (d - 1 - j)
      invariant v == Num(B[start..8 * idx' + 7 - l'])
    {
      BitsOfAt(bits, idx', l');
      ReadStep(B, start, 8 * idx' + 7 - l', v);
      v := (2 * v) % WORD32;
      if Bit(bits[idx'], l') {
        v := v + 1;
      }
      if l' == 0 {
        idx' := idx' + 1;
        l' := 7;
      } else {
        l' := l' - 1;
      }
      j := j - 1;
    }
  }

  /** Reading bit pos into the word that holds bits s .. pos - 1. */
  lemma ReadStep(B: seq<bool>, s: nat, pos: nat, x: nat)
    requires s <= pos < |B| && pos - s < 32 && x == Num(B[s..pos])
    ensures (2 * x) % WORD32 + (if B[pos] then 1 else 0) == Num(B[s..pos + 1]) < WORD32
  {
    assert B[s..pos + 1] == B[s..pos] + [B[pos]];
    WordPush(B[s..pos], B[pos]);
  }

  /** One more vector read. */
  lemma UnpackedStep(B: seq<bool>, d: nat, i: nat, U: seq<nat>, x: nat)
    requires i * d + d <= |B| && U == Unpacked(B, d, i) && x == Num(B[i * d..i * d + d])
    ensures (i + 1) * d <= |B| && U + [x] == Unpacked(B, d, i + 1)
  {
    MulStep(i, d);
  }

  /**
   * Splitting the packed bytes returns the vectors: for every t vectors of
   * at most d bits, whatever the random supplement.
   */
  lemma SplitPacked(vecs: seq<nat>, d: nat, n: nat, bitDraws: seq<Byte>, byteDraws: seq<Byte>)
    requires |vecs| * d <= 8 * n && |bitDraws| >= 7 && |byteDraws| >= n
    requires forall i :: 0 <= i < |vecs| ==> vecs[i] < Pow2(d)
    ensures Unpacked(BitsOf(Packed(Stream(vecs, d), bitDraws, byteDraws, n)), d, |vecs|) == vecs
  {
    var S := Stream(vecs, d);
    PadWhole(S, bitDraws);
    var pad := PadBits(|S|, bitDraws);
    var tail := PackedTail(S, bitDraws, byteDraws, n);
    UnpackedBody(vecs, d, pad, tail);
  }

  /** The random bytes that follow the padded stream in the intended packing. */
  lemma PackedTail(S: seq<bool>, bitDraws: seq<Byte>, byteDraws: seq<Byte>, n: nat) returns (tail: seq<Byte>)
    requires |S| <= 8 * n && |bitDraws| >= 7 && |byteDraws| >= n
    ensures |S + PadBits(|S|, bitDraws)| % 8 == 0
    ensures Packed(S, bitDraws, byteDraws, n) == Octets(S + PadBits(|S|, bitDraws)) + tail
  {
    PadWhole(S, bitDraws);
    tail := byteDraws[..n - |Octets(S + PadBits(|S|, bitDraws))|];
  }

  /** The same holds of the bytes as written, the zero byte included. */
  lemma SplitPackedAsWritten(vecs: seq<nat>, d: nat, n: nat, bitDraws: seq<Byte>, byteDraws: seq<Byte>)
    requires |vecs| * d <= 8 * n && |bitDraws| >= 7 && |byteDraws| >= n
    requires forall i :: 0 <= i < |vecs| ==> vecs[i] < Pow2(d)
    ensures Unpacked(BitsOf(PackedAsWritten(Stream(vecs, d), bitDraws, byteDraws, n)), d, |vecs|) == vecs
  {
    var S := Stream(vecs, d);
    PadWhole(S, bitDraws);
    var pad := PadBits(|S|, bitDraws);
    var tail := WrittenTail(S, bitDraws, byteDraws, n);
    UnpackedBody(vecs, d, pad, tail);
  }

  /** The zero byte and the random bytes that follow the padded stream as written. */
  lemma WrittenTail(S: seq<bool>, bitDraws: seq<Byte>, byteDraws: seq<Byte>, n: nat) returns (tail: seq<Byte>)
    requires |S| <= 8 * n && |bitDraws| >= 7 && |byteDraws| >= n
    ensures |S + PadBits(|S|, bitDraws)| % 8 == 0
    ensures PackedAsWritten(S, bitDraws, byteDraws, n) == Octets(S + PadBits(|S|, bitDraws)) + tail
  {
    PadWhole(S, bitDraws);
    var body := Octets(S + PadBits(|S|, bitDraws));
    var gap: seq<Byte> := if |S| % 8 == 0 && |S| / 8 < n then [0] else [];
    var rest := byteDraws[..n - |body| - |gap|];
    Middle(body, gap, rest);
    tail := gap + rest;
  }

  lemma PadWhole(S: seq<bool>, bitDraws: seq<Byte>)
    requires |bitDraws| >= 7
    ensures |S + PadBits(|S|, bitDraws)| % 8 == 0
  {
  }

  /** The vectors are read back from the bytes of their padded stream, whatever bytes follow. */
  lemma UnpackedBody(vecs: seq<nat>, d: nat, pad: seq<bool>, tail: seq<Byte>)
    requires |Stream(vecs, d) + pad| % 8 == 0
    requires forall i :: 0 <= i < |vecs| ==> vecs[i] < Pow2(d)
    ensures Unpacked(BitsOf(Octets(Stream(vecs, d) + pad) + tail), d, |vecs|) == vecs
  {
    var P := Stream(vecs, d) + pad;
    BitsOfOctets(P);
    BitsAppend(Octets(P), tail);
    Middle(Stream(vecs, d), pad, BitsOf(tail));
    UnpackedStream(vecs, d, pad + BitsOf(tail));
  }

  /** The bits of concatenated bytes are the concatenated bits. */
  lemma {:induction false} BitsAppend(a: seq<Byte>, b: seq<Byte>)
    ensures BitsOf(a + b) == BitsOf(a) + BitsOf(b)
    decreases |b|
  {
    if |b| == 0 {
      assert a + b == a;
    } else {
      BitsAppend(a, b[..|b| - 1]);
      assert (a + b)[..|a + b| - 1] == a + b[..|b| - 1];
    }
  }
}
