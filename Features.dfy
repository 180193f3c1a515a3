/*
 * Feature sets of a fuzzy vault: the feature permutation, the validity
 * check of a feature set, the overlap count, and the recovery of the
 * enrolled features from the roots of V - f after a successful opening.
 */
module Features {
  import opened FuzzyVaultTools

  // ---------------------------------------------------------------------
  // Sorting (CTools::sort on the recovered features)

  ghost predicate Sorted(s: seq<nat>)
  {
    forall a, b :: 0 <= a < b < |s| ==> s[a] <= s[b]
  }

  /** x inserted into s before the first entry not below it. */
  function Insert(s: seq<nat>, x: nat): (r: seq<nat>)
    ensures |r| == |s| + 1 && multiset(r) == multiset(s) + multiset{x}
  {
    if |s| == 0 then [x]
    else if x <= s[0] then [x] + s
    else
      assert s == [s[0]] + s[1..];
      [s[0]] + Insert(s[1..], x)
  }

  /** Inserting into a sorted sequence keeps it sorted. */
  lemma {:induction false} InsertSorted(s: seq<nat>, x: nat)
    requires Sorted(s)
    ensures Sorted(Insert(s, x))
    decreases |s|
  {
    if |s| > 0 && x > s[0] {
      var t := Insert(s[1..], x);
      InsertSorted(s[1..], x);
      forall i | 0 <= i < |t|
        ensures s[0] <= t[i]
      {
        LeastOfInsert(s, x, t, i);
      }
      SortedCons(s[0], t);
    }
  }

  /** Every entry of t = Insert(s[1..], x) is x or a later entry of the sorted s. */
  lemma LeastOfInsert(s: seq<nat>, x: nat, t: seq<nat>, i: nat)
    requires Sorted(s) && |s| > 0 && x > s[0] && t == Insert(s[1..], x) && i < |t|
    ensures s[0] <= t[i]
  {
    assert t[i] in multiset(t);
    if t[i] != x {
      assert t[i] in multiset(s[1..]);
      var j :| 0 <= j < |s[1..]| && s[1..][j] == t[i];
      assert s[j + 1] == t[i];
    }
  }

  /** A sorted sequence with a first entry below all its entries in front stays sorted. */
  lemma SortedCons(h: nat, t: seq<nat>)
    requires Sorted(t) && forall i :: 0 <= i < |t| ==> h <= t[i]
    ensures Sorted([h] + t)
  {
    var r := [h] + t;
    forall a, b | 0 <= a < b < |r|
      ensures r[a] <= r[b]
    {
      if a == 0 {
        assert r[b] == t[b - 1];
      } else {
        assert r[a] == t[a - 1] && r[b] == t[b - 1];
      }
    }
  }

  /** The entries of s in ascending order (insertion sort). */
  function SortedCopy(s: seq<nat>): (r: seq<nat>)
    ensures Sorted(r) && multiset(r) == multiset(s) && |r| == |s|
  {
    if |s| == 0 then []
    else
      assert s == s[..|s| - 1] + [s[|s| - 1]];
      InsertSorted(SortedCopy(s[..|s| - 1]), s[|s| - 1]);
      Insert(SortedCopy(s[..|s| - 1]), s[|s| - 1])
  }

  /** CTools::sort(a, len): the first len entries in ascending order, the rest kept. */
  method SortPrefix(a: array<nat>, len: nat)
    requires len <= a.Length
    modifies a
    ensures a[..len] == SortedCopy(old(a[..len])) && a[len..] == old(a[len..])
  {
    var r := SortedCopy(a[..len]);
    forall i | 0 <= i < len {
      a[i] := r[i];
    }
  }

  // ---------------------------------------------------------------------
  // Permutations of 0 .. n-1, given by their images (Permutation's data)

  ghost predicate IsPermutation(p: seq<nat>)
  {
    Below(p, |p|) && Unique(p)
  }

  /** setDimension(n): the identity on n elements. */
  function Identity(n: nat): (p: seq<nat>)
    ensures |p| == n && IsPermutation(p)
  {
    seq(n, x => x)
  }

  /** exchange(x0, x1): the images of x0 and x1 trade places. */
  function Exchanged(p: seq<nat>, x0: nat, x1: nat): (q: seq<nat>)
    requires x0 < |p| && x1 < |p|
    ensures |q| == |p| && q[x0] == p[x1] && q[x1] == p[x0]
    ensures forall x :: 0 <= x < |p| && x != x0 && x != x1 ==> q[x] == p[x]
  {
    p[x0 := p[x1]][x1 := p[x0]]
  }

  /** An exchange only moves elements around. */
  lemma ExchangedElements(p: seq<nat>, x0: nat, x1: nat)
    requires x0 < |p| && x1 < |p|
    ensures multiset(Exchanged(p, x0, x1)) == multiset(p)
  {
  }

  /** An exchange keeps a permutation a permutation, and undoes itself. */
  lemma ExchangedPermutation(p: seq<nat>, x0: nat, x1: nat)
    requires x0 < |p| && x1 < |p| && IsPermutation(p)
    ensures IsPermutation(Exchanged(p, x0, x1))
    ensures Exchanged(Exchanged(p, x0, x1), x0, x1) == p
  {
    var q := Exchanged(p, x0, x1);
    forall a, b | 0 <= a < b < |q|
      ensures q[a] != q[b]
    {
      var a' := if a == x0 then x1 else if a == x1 then x0 else a;
      var b' := if b == x0 then x1 else if b == x1 then x0 else b;
      assert q[a] == p[a'] && q[b] == p[b'] && a' != b';
    }
  }

  /**
   * updatePermutation: the identity on n elements, then x0 exchanged with
   * gen(x0) % n for x0 = 0 .. n-1, where gen(i) is the i-th output of the
   * generator seeded with the hash.
   */
  method Shuffle(n: nat, gen: nat -> nat) returns (p: seq<nat>)
    ensures p == Shuffled(n, gen, n) && |p| == n && IsPermutation(p)
  {
    p := Identity(n);
    var x0 := 0;
    while x0 < n
      invariant 0 <= x0 <= n && p == Shuffled(n, gen, x0)
    {
      var x1 := Partner(gen, x0, n);
      p := Exchanged(p, x0, x1);
      x0 := x0 + 1;
    }
  }

  /** The permutation after the exchanges for x0 = 0 .. i-1. */
  function Shuffled(n: nat, gen: nat -> nat, i: nat): (p: seq<nat>)
    requires i <= n
    ensures |p| == n && IsPermutation(p)
  {
    if i == 0 then Identity(n)
    else
      var q := Shuffled(n, gen, i - 1);
      var x1 := Partner(gen, i - 1, n);
      ExchangedPermutation(q, i - 1, x1);
      Exchanged(q, i - 1, x1)
  }

  /** The element x0 is exchanged with: the generator's output reduced modulo n. */
  function Partner(gen: nat -> nat, x0: nat, n: nat): (x1: nat)
    requires x0 < n
    ensures x1 < n
  {
    gen(x0) % n
  }

  /** inv(R, P): R.data[P(x)] = x for every x. */
  method Invert(p: seq<nat>) returns (q: seq<nat>)
    requires IsPermutation(p)
    ensures |q| == |p| && forall x :: 0 <= x < |p| ==> q[p[x]] == x
    ensures Below(q, |p|)
  {
    q := seq(|p|, _ => 0);
    var x := 0;
    while x < |p|
      invariant 0 <= x <= |p| && |q| == |p| && Below(q, |p|)
      invariant forall z :: 0 <= z < x ==> q[p[z]] == z
    {
      q := q[p[x] := x];
      x := x + 1;
    }
  }

  // ---------------------------------------------------------------------
  // checkFeatureSet

  /** A feature set: pairwise distinct elements of 0 .. n-1. */
  ghost predicate FeatureSet(s: seq<nat>, n: nat)
  {
    Below(s, n) && Unique(s)
  }

  /** The inner loop of checkFeatureSet: features[i] differs from every later one. */
  method DistinctFromLater(features: array<nat>, i: nat, t: nat) returns (ok: bool)
    requires i < t <= features.Length
    ensures ok <==> forall b :: i < b < t ==> features[i] != features[b]
  {
    var j := i + 1;
    while j < t
      invariant i < j <= t
      invariant forall b :: i < b < j ==> features[i] != features[b]
    {
      if features[i] == features[j] {
        return false;
      }
      j := j + 1;
    }
    return true;
  }

  /**
   * checkFeatureSet(features, t): false where the source exits, on a
   * negative size, an element not below n or an element that occurs twice.
   */
  method CheckFeatureSet(features: array<nat>, t: int, n: nat) returns (ok: bool)
    requires t <= features.Length
    ensures ok <==> t >= 0 && FeatureSet(features[..t], n)
  {
    if t < 0 {
      return false;
    }
    var i := 0;
    while i < t
      invariant 0 <= i <= t
      invariant forall a :: 0 <= a < i ==> features[a] < n
      invariant forall a, b :: 0 <= a < i && a < b < t ==> features[a] != features[b]
    {
      if features[i] >= n {
        assert features[..t][i] == features[i];
        return false;
      }
      ok := DistinctFromLater(features, i, t);
      if !ok {
        var b :| i < b < t && features[i] == features[b];
        assert features[..t][i] == features[..t][b];
        return false;
      }
      i := i + 1;
    }
    ok := true;
  }

  // ---------------------------------------------------------------------
  // numOverlap

  /** The number of entries of b equal to x. */
  function Occurrences(b: seq<nat>, x: nat): nat
  {
    if |b| == 0 then 0 else Occurrences(b[..|b| - 1], x) + (if b[|b| - 1] == x then 1 else 0)
  }

  /** The number of pairs (i, j) with a[i] == b[j]. */
  function Overlap(a: seq<nat>, b: seq<nat>): nat
  {
    if |a| == 0 then 0 else Overlap(a[..|a| - 1], b) + Occurrences(b, a[|a| - 1])
  }

  /** The inner loop of numOverlap: omega plus the entries of b[..t] equal to x. */
  method CountEqual(b: array<nat>, t: nat, x: nat, omega: nat) returns (omega': nat)
    requires t <= b.Length
    ensures omega' == omega + Occurrences(b[..t], x)
  {
    omega' := omega;
    var j := 0;
    while j < t
      invariant 0 <= j <= t && omega' == omega + Occurrences(b[..j], x)
    {
      assert b[..j + 1][..j] == b[..j];
      if b[j] == x {
        omega' := omega' + 1;
      }
      j := j + 1;
    }
  }

  /** numOverlap(A, s, B, t): the equal pairs of the two arrays; a negative size counts as empty. */
  method NumOverlap(a: array<nat>, s: int, b: array<nat>, t: int) returns (omega: nat)
    requires s <= a.Length && t <= b.Length
    ensures omega == Overlap(a[..if s < 0 then 0 else s], b[..if t < 0 then 0 else t])
  {
    omega := 0;
    var s', t' := if s < 0 then 0 else s, if t < 0 then 0 else t;
    var i := 0;
    while i < s'
      invariant 0 <= i <= s'
      invariant omega == Overlap(a[..i], b[..t'])
    {
      assert a[..i + 1][..i] == a[..i];
      omega := CountEqual(b, t', a[i], omega);
      i := i + 1;
    }
  }

  /** In a sequence without repetition x occurs once or not at all. */
  lemma {:induction false} OccurrencesUnique(b: seq<nat>, x: nat)
    requires Unique(b)
    ensures Occurrences(b, x) == if x in b then 1 else 0
    decreases |b|
  {
    if |b| > 0 {
      var c := b[..|b| - 1];
      assert Unique(c);
      OccurrencesUnique(c, x);
      assert b == c + [b[|b| - 1]];
      if b[|b| - 1] == x {
        assert x !in c;
      }
    }
  }

  /** The elements that a and b have in common. */
  function Common(a: seq<nat>, b: seq<nat>): set<nat>
  {
    set x | x in a && x in b
  }

  /** For feature sets numOverlap is the number of common elements. */
  lemma {:induction false} OverlapCommon(a: seq<nat>, b: seq<nat>)
    requires Unique(a) && Unique(b)
    ensures Overlap(a, b) == |Common(a, b)|
    decreases |a|
  {
    if |a| == 0 {
      assert Common(a, b) == {};
    } else {
      var c, y := a[..|a| - 1], a[|a| - 1];
      assert a == c + [y];
      assert Unique(c) && y !in c;
      OverlapCommon(c, b);
      OccurrencesUnique(b, y);
      assert y !in Common(c, b);
      if y in b {
        assert Common(a, b) == Common(c, b) + {y};
      } else {
        assert Common(a, b) == Common(c, b);
      }
    }
  }

  // ---------------------------------------------------------------------
  // Feature recovery after a successful opening

  /**
   * The features that roots r stand for: the roots below n (the others
   * are blending elements), each mapped through the inverse permutation inv.
   */
  function Recovered(inv: seq<nat>, r: seq<nat>, n: nat): (f: seq<nat>)
    requires |inv| == n
    ensures |f| <= |r|
  {
    if |r| == 0 then []
    else
      Recovered(inv, r[..|r| - 1], n) + (if r[|r| - 1] < n then [inv[r[|r| - 1]]] else [])
  }

  /** Through the inverse of a permutation of 0 .. n-1 every recovered feature is below n. */
  lemma {:induction false} RecoveredBelow(inv: seq<nat>, r: seq<nat>, n: nat)
    requires |inv| == n && Below(inv, n)
    ensures Below(Recovered(inv, r, n), n)
    decreases |r|
  {
    if |r| > 0 {
      RecoveredBelow(inv, r[..|r| - 1], n);
    }
  }

  /** The shift of the recovery loop: entry i leaves features[..len], the entry at len - 1 stays. */
  method RemoveWithin(a: array<nat>, i: nat, len: nat)
    requires i < len <= a.Length
    modifies a
    ensures a[..len - 1] == old(a[..i]) + old(a[i + 1..len])
    ensures a[len - 1..] == old(a[len - 1..])
  {
    ghost var s := a[..];
    var j := i + 1;
    while j < len
      invariant i + 1 <= j <= len
      invariant a[..j - 1] == s[..i] + s[i + 1..j]
      invariant a[j - 1..] == s[j - 1..]
    {
      assert a[j] == a[j - 1..][1] == s[j];
      ghost var prefix := a[..j - 1];
      a[j - 1] := a[j];
      assert a[..j] == prefix + [s[j]];
      assert a[j..] == s[j..];
      j := j + 1;
    }
  }

  /**
   * The recovery loop of open: features[..tmax] holds the roots of V - f;
   * a root below n is replaced by its preimage under the permutation and a
   * larger one is removed, then the kept features are sorted. The result
   * is the number of features kept.
   */
  method RecoverFeatures(features: array<nat>, tmax: nat, n: nat, inv: seq<nat>) returns (size: nat)
    requires tmax <= features.Length && |inv| == n
    modifies features
    ensures size <= tmax
    ensures features[..size] == SortedCopy(Recovered(inv, old(features[..tmax]), n))
  {
    size := CompactRoots(features, tmax, n, inv);
    SortPrefix(features, size);
  }

  /** The loop over the roots in open, before the sort. */
  method CompactRoots(features: array<nat>, tmax: nat, n: nat, inv: seq<nat>) returns (size: nat)
    requires tmax <= features.Length && |inv| == n
    modifies features
    ensures size <= tmax && features[..size] == Recovered(inv, old(features[..tmax]), n)
  {
    ghost var r := features[..tmax];
    ghost var c := 0;
    size := tmax;
    var i := 0;
    while i < size
      invariant 0 <= i <= size <= tmax && 0 <= c <= tmax && c - i == tmax - size
      invariant features[..i] == Recovered(inv, r[..c], n)
      invariant features[i..size] == r[c..]
      decreases size - i
    {
      ghost var F := features[..];
      if features[i] < n {
        features[i] := inv[features[i]];
        KeepStep(F, features[..], i, size, inv, r, c, n);
        i := i + 1;
      } else {
        RemoveWithin(features, i, size);
        DropStep(F, features[..], i, size, inv, r, c, n);
        size := size - 1;
      }
      c := c + 1;
    }
    assert r[..c] == r;
  }

  /** A root below n: its preimage joins the recovered features. */
  lemma KeepStep(F: seq<nat>, F': seq<nat>, i: nat, size: nat, inv: seq<nat>, r: seq<nat>, c: nat, n: nat)
    requires i < size <= |F| && c < |r| && |inv| == n
    requires F[..i] == Recovered(inv, r[..c], n) && F[i..size] == r[c..]
    requires F[i] < n && F' == F[i := inv[F[i]]]
    ensures F'[..i + 1] == Recovered(inv, r[..c + 1], n) && F'[i + 1..size] == r[c + 1..]
  {
    assert F[i] == r[c];
    assert r[..c + 1][..c] == r[..c];
    assert F'[..i + 1] == F[..i] + [inv[r[c]]];
    assert F'[i + 1..size] == F[i..size][1..];
  }

  /** A root of n or more: a blending element, dropped. */
  lemma DropStep(F: seq<nat>, F': seq<nat>, i: nat, size: nat, inv: seq<nat>, r: seq<nat>, c: nat, n: nat)
    requires i < size <= |F| == |F'| && c < |r| && |inv| == n
    requires F[..i] == Recovered(inv, r[..c], n) && F[i..size] == r[c..]
    requires F[i] >= n && F'[..size - 1] == F[..i] + F[i + 1..size]
    ensures F'[..i] == Recovered(inv, r[..c + 1], n) && F'[i..size - 1] == r[c + 1..]
  {
    assert F[i] == r[c];
    assert r[..c + 1][..c] == r[..c];
    assert F'[..i] == F'[..size - 1][..i];
    assert F'[i..size - 1] == F'[..size - 1][i..];
    assert F[i + 1..size] == F[i..size][1..];
  }

  /** What opening recovers: sorted, below n through a permutation's inverse, and distinct when the roots are. */
  lemma RecoveredFeatures(inv: seq<nat>, r: seq<nat>, n: nat)
    requires |inv| == n && Below(inv, n)
    ensures Sorted(SortedCopy(Recovered(inv, r, n)))
    ensures Below(SortedCopy(Recovered(inv, r, n)), n)
    ensures Unique(inv) && Unique(r) ==> Unique(SortedCopy(Recovered(inv, r, n)))
  {
    var f := Recovered(inv, r, n);
    RecoveredBelow(inv, r, n);
    var g := SortedCopy(f);
    forall a | 0 <= a < |g|
      ensures g[a] < n
    {
      assert g[a] in multiset(f);
    }
    if Unique(inv) && Unique(r) {
      RecoveredUnique(inv, r, n);
      UniquePermutation(g, f);
    }
  }

  /** Distinct roots give distinct features, each the inverse image of a root below n. */
  lemma {:induction false} RecoveredUnique(inv: seq<nat>, r: seq<nat>, n: nat)
    requires |inv| == n && Unique(inv) && Unique(r)
    ensures Unique(Recovered(inv, r, n))
    ensures forall x :: 0 <= x < n && inv[x] in Recovered(inv, r, n) ==> x in r
    decreases |r|
  {
    if |r| > 0 {
      var c := r[..|r| - 1];
      var x := r[|r| - 1];
      assert Unique(c);
      RecoveredUnique(inv, c, n);
      var f := Recovered(inv, c, n);
      assert r == c + [x];
      if x < n {
        assert x !in c;
        var f' := f + [inv[x]];
        assert Unique(f') by {
          forall a, b | 0 <= a < b < |f'|
            ensures f'[a] != f'[b]
          {
            if b == |f| {
              assert f'[a] == f[a];
            }
          }
        }
      }
    }
  }

  /** A sequence without repetition holds each value at most once. */
  lemma {:induction false} UniqueCount(s: seq<nat>, x: nat)
    requires Unique(s)
    ensures multiset(s)[x] <= 1
    decreases |s|
  {
    if |s| > 0 {
      var last := |s| - 1;
      assert s == s[..last] + [s[last]];
      assert Unique(s[..last]);
      UniqueCount(s[..last], x);
      if s[last] == x {
        assert x !in s[..last];
      }
    }
  }

  /** A rearrangement of a sequence without repetition has none either. */
  lemma UniquePermutation(s: seq<nat>, u: seq<nat>)
    requires multiset(s) == multiset(u) && Unique(u)
    ensures Unique(s)
  {
    forall a, b | 0 <= a < b < |s|
      ensures s[a] != s[b]
    {
      if s[a] == s[b] {
        assert s == s[..b] + [s[b]] + s[b + 1..];
        assert s[a] in multiset(s[..b]);
        UniqueCount(u, s[b]);
      }
    }
  }
}
