/**
 * Binary vectors (BinaryVector.cpp): a vector of `length` bits over GF(2).
 * The source packs the bits into 32-bit words and keeps the unused high
 * bits of the last word zero; here the vector is its sequence of bits, so
 * that packing invariant is what makes newly exposed entries read as zero.
 */
module BinaryVectors {

  /** Number of set entries (Hamming weight). */
  function Count(s: seq<bool>): nat
  {
    if |s| == 0 then 0 else Count(s[..|s| - 1]) + (if s[|s| - 1] then 1 else 0)
  }

  /** Entrywise sum over GF(2). */
  function XorBits(a: seq<bool>, b: seq<bool>): (r: seq<bool>)
    requires |a| == |b|
    ensures |r| == |a|
    ensures forall j :: 0 <= j < |r| ==> r[j] == (a[j] != b[j])
  {
    seq(|a|, j requires 0 <= j < |a| => a[j] != b[j])
  }

  /** The set entries, if any, form one block that ends at the last position. */
  predicate OnesAtTop(s: seq<bool>)
  {
    forall p, q :: 0 <= p < q < |s| && s[p] ==> s[q]
  }

  /** Number of zero entries below the first set one. */
  function LowZeros(s: seq<bool>): (z: nat)
    ensures z <= |s| && (z < |s| ==> s[z])
    ensures forall t :: 0 <= t < z ==> !s[t]
  {
    if |s| == 0 || s[0] then 0 else 1 + LowZeros(s[1..])
  }

  /** Length of the block of set entries at the bottom. */
  function LowOnes(s: seq<bool>): (o: nat)
    ensures o <= |s| && (o < |s| ==> !s[o])
    ensures forall t :: 0 <= t < o ==> s[t]
  {
    if |s| == 0 || !s[0] then 0 else 1 + LowOnes(s[1..])
  }

  /** n entries equal to v. */
  function Uniform(n: nat, v: bool): (r: seq<bool>)
    ensures |r| == n && forall j :: 0 <= j < n ==> r[j] == v
  {
    seq(n, _ => v)
  }

  /**
   * Whether s has a successor of the same weight in the order of
   * combinations: its lowest block of set entries ends below the top.
   */
  predicate Moves(s: seq<bool>)
  {
    var z := LowZeros(s);
    z + LowOnes(s[z..]) < |s|
  }

  /**
   * The combination bnext steps to, written by blocks: the lowest block of
   * o set entries, after z zero entries, becomes o - 1 set entries at the
   * bottom and one set entry just above the old block. When the block
   * already reaches the top, the o - 1 entries still move to the bottom
   * while the top entry stays; a vector without set entries is kept.
   */
  function NextCombination(s: seq<bool>): (r: seq<bool>)
    ensures |r| == |s|
  {
    var z := LowZeros(s);
    var o := LowOnes(s[z..]);
    if z == |s| then s
    else if z + o == |s| then Uniform(o - 1, true) + Uniform(|s| - o, false) + [true]
    else Uniform(o - 1, true) + Uniform(z + 1, false) + [true] + s[z + o + 1..]
  }

  /** The successor exists exactly when the set entries are not all at the top. */
  lemma MovesIffNotAtTop(s: seq<bool>)
    ensures Moves(s) <==> !OnesAtTop(s)
  {
    var z := LowZeros(s);
    var o := LowOnes(s[z..]);
    if Moves(s) {
      assert s[z..][0] == s[z] && s[z..][o] == s[z + o];
    } else {
      forall p, q | 0 <= p < q < |s| && s[p]
        ensures s[q]
      {
        assert s[z..][q - z] == s[q];
      }
    }
  }

  /** Stepping to the next combination keeps the weight. */
  lemma NextCombinationCount(s: seq<bool>)
    ensures Count(NextCombination(s)) == Count(s)
  {
    var z := LowZeros(s);
    var o := LowOnes(s[z..]);
    if z < |s| {
      assert s[z..][0] == s[z];
      var low, block := s[..z], s[z..z + o];
      assert forall t :: 0 <= t < o ==> block[t] == s[z..][t];
      CountUniform(low, false);
      CountUniform(block, true);
      CountConcat(low, block);
      if z + o == |s| {
        assert s == low + block;
        TopBlockCount(s, z, o);
      } else {
        assert s[z..][o] == s[z + o];
        MovedBlockCount(s, z, o, low + block);
      }
    }
  }

  /** The weight when the lowest block of o ones reaches the top. */
  lemma TopBlockCount(s: seq<bool>, z: nat, o: nat)
    requires z == LowZeros(s) < |s| && o == LowOnes(s[z..]) && z + o == |s| && Count(s) == o
    ensures Count(NextCombination(s)) == Count(s)
  {
    assert s[z..][0] == s[z];
    var r := Uniform(o - 1, true) + Uniform(|s| - o, false) + [true];
    assert NextCombination(s) == r + [];
    CountBlocks(o - 1, |s| - o, []);
  }

  /** The weight when the lowest block of o ones ends below the top, s starting with the entries of front. */
  lemma MovedBlockCount(s: seq<bool>, z: nat, o: nat, front: seq<bool>)
    requires z == LowZeros(s) && o == LowOnes(s[z..]) && z + o < |s| && 0 < o
    requires front == s[..z + o] && Count(front) == o && !s[z + o]
    ensures Count(NextCombination(s)) == Count(s)
  {
    var rest := s[z + o + 1..];
    assert s[..z + o + 1] == front + [false];
    CountSplit(s, z + o + 1);
    CountConcat(front, [false]);
    MovedShape(s, z, o);
    CountBlocks(o - 1, z + 1, rest);
  }

  /** The successor when the lowest block of o ones ends below the top. */
  lemma MovedShape(s: seq<bool>, z: nat, o: nat)
    requires z == LowZeros(s) && o == LowOnes(s[z..]) && z + o < |s| && 0 < o
    ensures NextCombination(s) == Uniform(o - 1, true) + Uniform(z + 1, false) + [true] + s[z + o + 1..]
  {
  }

  /** The weight of a vector is that of its two parts at any index. */
  lemma CountSplit(s: seq<bool>, i: nat)
    requires i <= |s|
    ensures Count(s) == Count(s[..i]) + Count(s[i..])
  {
    assert s == s[..i] + s[i..];
    CountConcat(s[..i], s[i..]);
  }

  /** The weight of a block of ones, a block of zeros, one set entry and a tail. */
  lemma CountBlocks(m: nat, k: nat, rest: seq<bool>)
    ensures Count(Uniform(m, true) + Uniform(k, false) + [true] + rest) == m + 1 + Count(rest)
  {
    CountUniform(Uniform(m, true), true);
    CountUniform(Uniform(k, false), false);
    CountConcat(Uniform(m, true), Uniform(k, false));
    CountConcat(Uniform(m, true) + Uniform(k, false), [true]);
    CountConcat(Uniform(m, true) + Uniform(k, false) + [true], rest);
  }

  lemma {:induction false} CountConcat(a: seq<bool>, b: seq<bool>)
    ensures Count(a + b) == Count(a) + Count(b)
    decreases |b|
  {
    if |b| > 0 {
      assert (a + b)[..|a + b| - 1] == a + b[..|b| - 1];
      CountConcat(a, b[..|b| - 1]);
    } else {
      assert a + b == a;
    }
  }

  lemma {:induction false} CountUniform(s: seq<bool>, v: bool)
    requires forall j :: 0 <= j < |s| ==> s[j] == v
    ensures Count(s) == if v then |s| else 0
    decreases |s|
  {
    if |s| > 0 {
      CountUniform(s[..|s| - 1], v);
    }
  }

  lemma {:induction false} CountZeroIffNoneSet(s: seq<bool>)
    ensures Count(s) == 0 <==> forall j :: 0 <= j < |s| ==> !s[j]
    decreases |s|
  {
    if |s| > 0 {
      CountZeroIffNoneSet(s[..|s| - 1]);
      if Count(s) == 0 {
        assert forall j :: 0 <= j < |s| - 1 ==> s[..|s| - 1][j] == s[j];
      }
    }
  }

  lemma CountBound(s: seq<bool>)
    ensures Count(s) <= |s|
  {
  }

  /** Adding a vector twice gives back the original. */
  lemma XorBitsInvolution(a: seq<bool>, b: seq<bool>)
    requires |a| == |b|
    ensures XorBits(XorBits(a, b), b) == a
  {
  }

  /** The Hamming distance is zero exactly for equal vectors, and symmetric. */
  lemma DistanceZeroIffEqual(a: seq<bool>, b: seq<bool>)
    requires |a| == |b|
    ensures Count(XorBits(a, b)) == 0 <==> a == b
    ensures Count(XorBits(a, b)) == Count(XorBits(b, a))
  {
    CountZeroIffNoneSet(XorBits(a, b));
    assert XorBits(a, b) == XorBits(b, a);
  }

  class BinaryVector {
    var bits: seq<bool>

    function Length(): nat
      reads this
    {
      |bits|
    }

    /** A new vector of length n with all entries zero; a negative n aborts. */
    constructor(n: int)
      requires n >= 0
      ensures bits == seq(n, _ => false)
    {
      bits := seq(n, _ => false);
    }

    /** setLength: keeps the entries below the new length and zero-fills the rest. */
    method SetLength(newLength: int)
      requires newLength >= 0
      modifies this
      ensures |bits| == newLength
      ensures forall j :: 0 <= j < newLength ==> bits[j] == (j < |old(bits)| && old(bits)[j])
    {
      if newLength <= |bits| {
        bits := bits[..newLength];
      } else {
        bits := bits + seq(newLength - |bits|, _ => false);
      }
    }

    /** getAt: entry j; an index outside [0, length) aborts. */
    function GetAt(j: int): bool
      requires 0 <= j < |bits|
      reads this
    {
      bits[j]
    }

    method SetAt(j: int)
      requires 0 <= j < |bits|
      modifies this
      ensures bits == old(bits)[j := true]
    {
      bits := bits[j := true];
    }

    method ClearAt(j: int)
      requires 0 <= j < |bits|
      modifies this
      ensures bits == old(bits)[j := false]
    {
      bits := bits[j := false];
    }

    method SetAtTo(j: int, c: bool)
      requires 0 <= j < |bits|
      modifies this
      ensures bits == old(bits)[j := c]
    {
      if c {
        SetAt(j);
      } else {
        ClearAt(j);
      }
    }

    /** isZero: no entry is set. */
    method IsZero() returns (z: bool)
      ensures z <==> forall j :: 0 <= j < |bits| ==> !bits[j]
    {
      var j := 0;
      while j < |bits|
        invariant 0 <= j <= |bits|
        invariant forall t :: 0 <= t < j ==> !bits[t]
      {
        if bits[j] {
          return false;
        }
        j := j + 1;
      }
      return true;
    }

    method SetZero()
      modifies this
      ensures bits == seq(|old(bits)|, _ => false)
    {
      bits := seq(|bits|, _ => false);
    }

    /** exchange: swaps entries j0 and j1; indices outside the vector abort. */
    method Exchange(j0: int, j1: int)
      requires 0 <= j0 < |bits| && 0 <= j1 < |bits|
      modifies this
      ensures |bits| == |old(bits)|
      ensures bits[j0] == old(bits)[j1] && bits[j1] == old(bits)[j0]
      ensures forall j :: 0 <= j < |bits| && j != j0 && j != j1 ==> bits[j] == old(bits)[j]
    {
      if j0 != j1 {
        var c0 := GetAt(j0);
        var c1 := GetAt(j1);
        SetAtTo(j0, c1);
        SetAtTo(j1, c0);
      }
    }

    method HammingWeight() returns (hw: nat)
      ensures hw == Count(bits)
      ensures hw <= |bits|
    {
      hw := 0;
      var j := 0;
      while j < |bits|
        invariant 0 <= j <= |bits|
        invariant hw == Count(bits[..j])
      {
        assert bits[..j + 1][..j] == bits[..j];
        if bits[j] {
          hw := hw + 1;
        }
        j := j + 1;
      }
      assert bits[..j] == bits;
      CountBound(bits);
    }

    /** binit: the first combination of weight k, entries 0..k-1 set. */
    method Binit(k: int)
      requires 0 <= k <= |bits|
      modifies this
      ensures |bits| == |old(bits)|
      ensures forall j :: 0 <= j < |bits| ==> bits[j] == (j < k)
      ensures Count(bits) == k
    {
      SetZero();
      var j := 0;
      while j < k
        invariant 0 <= j <= k && |bits| == |old(bits)|
        invariant forall t :: 0 <= t < |bits| ==> bits[t] == (t < j)
      {
        SetAt(j);
        j := j + 1;
      }
      assert bits == bits[..k] + bits[k..];
      CountUniform(bits[..k], true);
      CountUniform(bits[k..], false);
      CountConcat(bits[..k], bits[k..]);
    }

    /**
     * bnext: steps to the next combination of the same weight. The lowest
     * block of set entries is cleared, all but one of its entries move to
     * the bottom and the last moves up by one. It reports false, after
     * possibly rearranging the entries, when that block already ends at
     * the last position (the final combination).
     */
    method Bnext() returns (more: bool)
      modifies this
      ensures |bits| == |old(bits)|
      ensures bits == NextCombination(old(bits))
      ensures more <==> Moves(old(bits))
      ensures Count(bits) == Count(old(bits))
      ensures more <==> !OnesAtTop(old(bits))
    {
      ghost var s := bits;
      var n := |bits|;
      var i := 0;
      var j := 0;
      while j < n
        invariant 0 <= i <= j <= n && |bits| == n
        invariant forall t :: 0 <= t < i ==> bits[t]
        invariant forall t :: i <= t < j ==> !bits[t]
        invariant bits[j..] == s[j..]
        invariant forall t :: 0 <= t < j - i ==> !s[t]
        invariant forall t :: j - i <= t < j ==> s[t]
        invariant i > 0 ==> j < n && s[j]
      {
        if bits[j] {
          if j + 1 >= n {
            BnextLast(s, bits, i, j);
            return false;
          }
          bits := bits[j := false];
          if bits[j + 1] {
            bits := bits[i := true];
            i := i + 1;
          } else {
            bits := bits[j + 1 := true];
            BnextMoved(s, bits, i, j);
            return true;
          }
        }
        j := j + 1;
      }
      assert bits == s && LowZeros(s) == |s|;
      NextCombinationCount(s);
      MovesIffNotAtTop(s);
      return false;
    }

    /** next: the next combination, moving on to weight + 1 after the last one. */
    method Next() returns (more: bool)
      modifies this
      ensures |bits| == |old(bits)|
      ensures !OnesAtTop(old(bits)) ==> more && bits == NextCombination(old(bits)) && Count(bits) == Count(old(bits))
      ensures OnesAtTop(old(bits)) && Count(old(bits)) < |old(bits)| ==>
                more && forall j :: 0 <= j < |bits| ==> bits[j] == (j < Count(old(bits)) + 1)
      ensures OnesAtTop(old(bits)) && Count(old(bits)) == |old(bits)| ==> !more && bits == NextCombination(old(bits))
    {
      var b := Bnext();
      if b {
        return true;
      }
      var k := HammingWeight();
      k := k + 1;
      if k > |bits| {
        return false;
      }
      Binit(k);
      return true;
    }

    /** operator==: same length and same entries. */
    method Equals(v: BinaryVector) returns (eq: bool)
      ensures eq <==> bits == v.bits
    {
      if |bits| != |v.bits| {
        return false;
      }
      var j := 0;
      while j < |bits|
        invariant 0 <= j <= |bits|
        invariant bits[..j] == v.bits[..j]
      {
        if bits[j] != v.bits[j] {
          return false;
        }
        j := j + 1;
      }
      assert bits == bits[..j] && v.bits == v.bits[..j];
      return true;
    }

    /** swap: exchanges the contents of two vectors. */
    static method Swap(v: BinaryVector, w: BinaryVector)
      modifies v, w
      ensures v.bits == old(w.bits) && w.bits == old(v.bits)
    {
      var tmp := v.bits;
      v.bits := w.bits;
      w.bits := tmp;
    }

    /** add: c = a + b; different lengths abort. c may be a or b. */
    static method Add(c: BinaryVector, a: BinaryVector, b: BinaryVector)
      requires |a.bits| == |b.bits|
      modifies c
      ensures c.bits == XorBits(old(a.bits), old(b.bits))
    {
      c.bits := XorBits(a.bits, b.bits);
    }

    /** hammingDistance: number of differing entries; different lengths abort. */
    static method HammingDistance(a: BinaryVector, b: BinaryVector) returns (d: nat)
      requires |a.bits| == |b.bits|
      ensures d == Count(XorBits(a.bits, b.bits))
      ensures d == 0 <==> a.bits == b.bits
    {
      d := 0;
      var j := 0;
      ghost var x := XorBits(a.bits, b.bits);
      while j < |a.bits|
        invariant 0 <= j <= |a.bits|
        invariant d == Count(x[..j])
      {
        assert x[..j + 1][..j] == x[..j];
        if a.bits[j] != b.bits[j] {
          d := d + 1;
        }
        j := j + 1;
      }
      assert x[..j] == x;
      DistanceZeroIffEqual(a.bits, b.bits);
    }
  }

  /** z zero entries, then a block of o set entries ended by a zero or by the top. */
  lemma LowBlock(s: seq<bool>, z: nat, o: nat)
    requires 0 < o && z + o <= |s|
    requires forall t :: 0 <= t < z ==> !s[t]
    requires forall t :: z <= t < z + o ==> s[t]
    requires z + o < |s| ==> !s[z + o]
    ensures LowZeros(s) == z && LowOnes(s[z..]) == o
  {
    var u := s[z..];
    assert s[z];
    var z' := LowZeros(s);
    assert z' <= z && !(z' < z);
    assert forall t :: 0 <= t < o ==> u[t] == s[z + t];
    var o' := LowOnes(u);
    if z + o < |s| {
      assert u[o] == s[z + o];
      assert o' <= o;
    }
    assert !(o' < o);
  }

  /** The final case of bnext: the lowest block of ones reaches the top. */
  lemma BnextLast(s: seq<bool>, bits: seq<bool>, i: nat, j: nat)
    requires |s| == |bits| == j + 1 && i <= j
    requires forall t :: 0 <= t < i ==> bits[t]
    requires forall t :: i <= t < j ==> !bits[t]
    requires bits[j..] == s[j..] && bits[j]
    requires forall t :: 0 <= t < j - i ==> !s[t]
    requires forall t :: j - i <= t < j ==> s[t]
    ensures bits == NextCombination(s) && !Moves(s)
    ensures Count(bits) == Count(s) && OnesAtTop(s)
  {
    assert s[j] == bits[j];
    LowBlock(s, j - i, i + 1);
    var r := Uniform(i, true) + Uniform(j - i, false) + [true];
    assert NextCombination(s) == r;
    assert bits == r;
    NextCombinationCount(s);
    MovesIffNotAtTop(s);
  }

  /** The ordinary case of bnext: the top entry of the block moves up by one. */
  lemma BnextMoved(s: seq<bool>, bits: seq<bool>, i: nat, j: nat)
    requires |s| == |bits| && i <= j && j + 1 < |s|
    requires forall t :: 0 <= t < i ==> bits[t]
    requires forall t :: i <= t <= j ==> !bits[t]
    requires bits[j + 1] && !s[j + 1] && s[j]
    requires bits[j + 2..] == s[j + 2..]
    requires forall t :: 0 <= t < j - i ==> !s[t]
    requires forall t :: j - i <= t < j ==> s[t]
    ensures bits == NextCombination(s) && Moves(s)
    ensures Count(bits) == Count(s) && !OnesAtTop(s)
  {
    LowBlock(s, j - i, i + 1);
    var r := Uniform(i, true) + Uniform(j - i + 1, false) + [true] + s[j + 2..];
    assert NextCombination(s) == r;
    MovedBits(s, bits, i, j);
    NextCombinationCount(s);
    MovesIffNotAtTop(s);
  }

  /** The entries bnext leaves when the top entry of the block moves up. */
  lemma MovedBits(s: seq<bool>, bits: seq<bool>, i: nat, j: nat)
    requires |s| == |bits| && i <= j && j + 1 < |s|
    requires forall t :: 0 <= t < i ==> bits[t]
    requires forall t :: i <= t <= j ==> !bits[t]
    requires bits[j + 1] && bits[j + 2..] == s[j + 2..]
    ensures bits == Uniform(i, true) + Uniform(j - i + 1, false) + [true] + s[j + 2..]
  {
    var r := Uniform(i, true) + Uniform(j - i + 1, false) + [true] + s[j + 2..];
    forall t | 0 <= t < |s|
      ensures bits[t] == r[t]
    {
      if t >= j + 2 {
        assert bits[t] == bits[j + 2..][t - j - 2];
      }
    }
  }
}
