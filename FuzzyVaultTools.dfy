/*
 * FuzzyVaultTools: drawing distinct indices and field elements at random,
 * random vault instances, and the brute-force decoders that accept a
 * candidate polynomial only when its SHA-1 hash matches.
 *
 * Randomness is nondeterministic choice (`:|`) where any outcome of the
 * draw is allowed, and a finite stream of draws where the source retries
 * until a draw is fresh (fastChooseIndicesAtRandom), so that every loop
 * terminates. SHA-1 is a function parameter.
 */
module FuzzyVaultTools {
  import opened MathTools
  import opened SmallBinaryFieldPolynomials

  /** RAND_MAX of the C library whose rand() the attack uses (glibc). */
  const RAND_MAX: nat := 0x7FFF_FFFF

  /** How a call ends: the program exits, the model's draws ran out, or it returns. */
  datatype Ending = Exits | OutOfDraws | Returns(state: bool)

  // ---------------------------------------------------------------------
  // Index sets

  ghost predicate Unique(s: seq<nat>)
  {
    forall a, b :: 0 <= a < b < |s| ==> s[a] != s[b]
  }

  ghost predicate Below(s: seq<nat>, bound: int)
  {
    forall a :: 0 <= a < |s| ==> s[a] < bound
  }

  ghost predicate Increasing(s: seq<nat>)
  {
    forall a, b :: 0 <= a < b < |s| ==> s[a] < s[b]
  }

  ghost predicate Disjoint(s: seq<nat>, t: seq<nat>)
  {
    forall v :: v in s ==> v !in t
  }

  /**
   * The shift `for (; j + 1 < size; j++) e[j] = e[j + 1]`: entry j leaves
   * the array, the entries after it move down by one and the last entry
   * stays where it was.
   */
  method RemoveAt(e: array<nat>, j: nat)
    requires j < e.Length
    modifies e
    ensures e[..] == old(e[..j]) + old(e[j + 1..]) + [old(e[e.Length - 1])]
  {
    ghost var s := e[..];
    var m := j;
    while m + 1 < e.Length
      invariant j <= m < e.Length
      invariant e[..m] == s[..j] + s[j + 1..m + 1]
      invariant e[m..] == s[m..]
    {
      e[m] := e[m + 1];
      m := m + 1;
      assert e[..m] == e[..m - 1] + [s[m]];
    }
    assert e[..] == e[..m] + e[m..];
  }

  /**
   * Taking entry j of the increasing pool P: the rest of the pool stays
   * increasing and apart from the taken elements, which stay distinct.
   */
  lemma Withdraw(P: seq<nat>, j: nat, X: seq<nat>, bound: nat)
    requires j < |P| && Increasing(P) && Below(P, bound)
    requires Unique(X) && Below(X, bound) && Disjoint(X, P)
    ensures Increasing(P[..j] + P[j + 1..]) && Below(P[..j] + P[j + 1..], bound)
    ensures Unique(X + [P[j]]) && Below(X + [P[j]], bound)
    ensures Disjoint(X + [P[j]], P[..j] + P[j + 1..])
  {
    var R := P[..j] + P[j + 1..];
    forall a, b | 0 <= a < b < |R|
      ensures R[a] < R[b]
    {
      var a', b' := if a < j then a else a + 1, if b < j then b else b + 1;
      assert R[a] == P[a'] && R[b] == P[b'];
    }
    forall c | 0 <= c < |R|
      ensures R[c] != P[j] && R[c] !in X
    {
      var c' := if c < j then c else c + 1;
      assert R[c] == P[c'] && c' != j;
    }
    assert P[j] !in X;
  }

  /** The pool 0, 1, ..., size - 1 the source starts from. */
  method Iota(size: nat) returns (e: array<nat>)
    ensures fresh(e) && e.Length == size
    ensures Increasing(e[..]) && Below(e[..], size)
  {
    e := new nat[size];
    var i := 0;
    while i < size
      invariant 0 <= i <= size
      invariant forall a :: 0 <= a < i ==> e[a] == a
    {
      e[i] := i;
      i := i + 1;
    }
  }

  /**
   * chooseFiniteFieldSetAtRandom and chooseIndicesAtRandom: k pairwise
   * distinct values below size are drawn without replacement, entry
   * rand32() % (size - i) of the remaining pool in round i. Both functions
   * run this algorithm, the first with size the field's cardinality.
   */
  method ChooseAtRandom(x: array<nat>, size: nat, k: nat)
    requires k <= size && k <= x.Length
    modifies x
    ensures Unique(x[..k]) && Below(x[..k], size)
    ensures x[k..] == old(x[k..])
  {
    var e := Iota(size);
    var i := 0;
    while i < k
      invariant 0 <= i <= k
      invariant Pool(x[..i], e[..size - i], size)
      invariant x[k..] == old(x[k..])
    {
      var r: nat :| r < WORD32;
      TakeFromPool(x, e, i, size, k, r % (size - i));
      i := i + 1;
    }
  }

  /** The chosen values X and the remaining pool P of chooseIndicesAtRandom. */
  ghost predicate Pool(X: seq<nat>, P: seq<nat>, bound: nat)
  {
    Increasing(P) && Below(P, bound) && Unique(X) && Below(X, bound) && Disjoint(X, P)
  }

  /** Round i of chooseIndicesAtRandom: entry j of the pool is chosen and leaves the pool. */
  method TakeFromPool(x: array<nat>, e: array<nat>, i: nat, size: nat, k: nat, j: nat)
    requires x != e && i < k <= size && k <= x.Length && e.Length == size && j < size - i
    requires Pool(x[..i], e[..size - i], size)
    modifies x, e
    ensures Pool(x[..i + 1], e[..size - (i + 1)], size)
    ensures x[k..] == old(x[k..])
  {
    ghost var P := e[..size - i];
    ghost var X := x[..i];
    Withdraw(P, j, X, size);
    x[i] := e[j];
    assert x[..i + 1] == X + [P[j]];
    RemoveAt(e, j);
    assert e[..size - (i + 1)] == P[..j] + P[j + 1..];
  }

  // ---------------------------------------------------------------------
  // fastChooseIndicesAtRandom

  /** The scan of the first i chosen indices for index, stopping at a hit. */
  method AlreadyChosen(indices: array<nat>, i: nat, index: nat) returns (chosen: bool)
    requires i <= indices.Length
    ensures chosen <==> index in indices[..i]
  {
    chosen := false;
    var j := 0;
    while j < i
      invariant 0 <= j <= i && index !in indices[..j]
    {
      if indices[j] == index {
        assert indices[..i][j] == index;
        chosen := true;
        break;
      }
      assert indices[..j + 1] == indices[..j] + [indices[j]];
      j := j + 1;
    }
  }

  /**
   * fastChooseIndicesAtRandom: index i is drawn as rand() % n until it
   * differs from the indices before it. The draws are the stream of rand()
   * results; when the stream runs out the call reports it (the source
   * would draw on, and never ends when k > n).
   */
  method FastChooseIndicesAtRandom(indices: array<nat>, n: nat, k: nat, draws: seq<nat>)
    returns (ok: bool, used: nat)
    requires n > 0 && k <= indices.Length
    modifies indices
    ensures used <= |draws| && (!ok ==> used == |draws|)
    ensures ok ==> Unique(indices[..k]) && Below(indices[..k], n)
    ensures indices[k..] == old(indices[k..])
  {
    used := 0;
    var i := 0;
    while i < k
      invariant 0 <= i <= k && used <= |draws|
      invariant Unique(indices[..i]) && Below(indices[..i], n)
      invariant indices[k..] == old(indices[k..])
      decreases |draws| - used
    {
      var drawn, index, used' := DrawFresh(indices, i, n, draws, used);
      if !drawn {
        return false, used';
      }
      used := used';
      ghost var I := indices[..i];
      indices[i] := index;
      assert indices[..i + 1] == I + [index];
      i := i + 1;
    }
    ok := true;
  }

  /**
   * The do-while of fastChooseIndicesAtRandom: draws from position used on
   * until rand() % n is not among the first i indices.
   */
  method DrawFresh(indices: array<nat>, i: nat, n: nat, draws: seq<nat>, used: nat)
    returns (drawn: bool, index: nat, used': nat)
    requires n > 0 && i <= indices.Length && used <= |draws|
    ensures if drawn then used < used' <= |draws| else used' == |draws|
    ensures drawn ==> index < n && index !in indices[..i]
  {
    used' := used;
    index := 0;
    var chosen := true;
    while chosen
      invariant used <= used' <= |draws| && index < n
      invariant used' == used ==> chosen
      invariant !chosen ==> index !in indices[..i]
      decreases |draws| - used', if chosen then 1 else 0
    {
      if used' == |draws| {
        return false, index, used';
      }
      index := draws[used'] % n;
      used' := used' + 1;
      chosen := AlreadyChosen(indices, i, index);
    }
    drawn := true;
  }

  // ---------------------------------------------------------------------
  // Random instances

  /**
   * f.random(size): a polynomial of degree below size whose coefficients
   * are random field elements, normalized.
   */
  method RandomPolynomial(card: nat, size: int) returns (f: SmallBinaryFieldPolynomial)
    requires card > 0
    ensures fresh(f) && f.Valid() && |f.Value()| <= (if size < 0 then 0 else size)
    ensures Below(f.Value(), card)
  {
    f := new SmallBinaryFieldPolynomial();
    f.EnsureCapacity(size);
    if size <= 0 {
      f.SetZero();
      return;
    }
    f.degree := size - 1;
    var i := 0;
    while i < size
      invariant 0 <= i <= size && f.Sized() && f.degree == size - 1
      invariant Below(f.coefficients[..i], card)
    {
      var c: nat :| c < card;
      f.coefficients := f.coefficients[i := c];
      i := i + 1;
    }
    ghost var before := f.Value();
    f.Normalize();
  }

  /** The exits createRandomInstance documents: n, t, k positive, t <= n, k <= t and n within the field. */
  predicate InstanceRejected(n: int, t: int, k: int, card: nat)
  {
    n <= 0 || t <= 0 || k <= 0 || t > n || k > t || n > card
  }

  /** The one check createRandomInstance makes: (uint64_t)n above the cardinality. */
  predicate InstanceRejectedAsWritten(n: int, t: int, k: int, card: nat)
  {
    (if n < 0 then n + 0x1_0000_0000_0000_0000 else n) > card
  }

  /**
   * As written, createRandomInstance lets t > n through: with n = 2 and
   * t = 3 the third round of chooseIndicesAtRandom reduces modulo n - 2 = 0.
   * The documented checks refuse it, and drawing t indices from n is
   * possible exactly when t <= n.
   */
  lemma InstanceAsWrittenAdmitsTooManyGenuine()
    ensures !InstanceRejectedAsWritten(2, 3, 1, 16) && 2 - 2 == 0
    ensures InstanceRejected(2, 3, 1, 16)
    ensures forall n: int, t: int, k: int, card: nat :: !InstanceRejected(n, t, k, card) ==> 0 < t <= n
  {
  }

  /** Ordinates that miss f: y[a] differs from f(x[a]) for every a < n. */
  method ChaffOrdinates(F: Field, card: nat, f: SmallBinaryFieldPolynomial, x: array<nat>, y: array<nat>, n: nat)
    requires card >= 2 && f.Sized() && n <= x.Length && n <= y.Length && x != y
    modifies y
    ensures forall a :: 0 <= a < n ==> y[a] < card && y[a] != Horner(F, f.Value(), x[a])
  {
    var i := 0;
    while i < n
      invariant 0 <= i <= n
      invariant forall a :: 0 <= a < i ==> y[a] < card && y[a] != Horner(F, f.Value(), x[a])
    {
      var z := f.Eval(F, x[i]);
      assert (if z == 0 then 1 else 0) != z;
      var v: nat :| v < card && v != z;
      y[i] := v;
      i := i + 1;
    }
  }

  /** Puts the genuine points on f: y[g[i]] := f(x[g[i]]) for i < |g|. */
  method GenuineOrdinates(F: Field, f: SmallBinaryFieldPolynomial, x: array<nat>, y: array<nat>, n: nat,
                          g: array<nat>)
    requires f.Sized() && n <= x.Length && n <= y.Length && x != y && g != y
    requires Unique(g[..]) && Below(g[..], n)
    requires forall a :: 0 <= a < n ==> y[a] != Horner(F, f.Value(), x[a])
    modifies y
    ensures forall a :: 0 <= a < n ==> (y[a] == Horner(F, f.Value(), x[a]) <==> a in g[..])
    ensures forall a :: 0 <= a < n && a !in g[..] ==> y[a] == old(y[a])
  {
    var i := 0;
    while i < g.Length
      invariant 0 <= i <= g.Length
      invariant forall a :: 0 <= a < n ==> (y[a] == Horner(F, f.Value(), x[a]) <==> a in g[..i])
      invariant forall a :: 0 <= a < n && a !in g[..i] ==> y[a] == old(y[a])
    {
      var j := g[i];
      assert g[..i + 1] == g[..i] + [j];
      var z := f.Eval(F, x[j]);
      y[j] := z;
      i := i + 1;
    }
    assert g[..i] == g[..];
  }

  /**
   * createRandomInstance(x, y, n, t, k), with the exits its documentation
   * lists: n distinct field elements as abscissas, a random f of degree
   * below k, ordinates off f except at t distinct genuine indices, where
   * they are f(x). The genuine indices are not returned by the source.
   */
  method CreateRandomInstance(F: Field, card: nat, x: array<nat>, y: array<nat>, n: int, t: int, k: int)
    returns (f: SmallBinaryFieldPolynomial?, ghost genuine: seq<nat>)
    requires card >= 2 && x != y && n <= x.Length && n <= y.Length
    modifies x, y
    ensures f == null <==> InstanceRejected(n, t, k, card)
    ensures f != null ==> fresh(f) && f.Valid() && |f.Value()| <= k && Below(f.Value(), card)
    ensures f != null ==> Unique(x[..n]) && Below(x[..n], card)
    ensures f != null ==> |genuine| == t && Unique(genuine) && Below(genuine, n)
    ensures f != null ==> forall a :: 0 <= a < n ==> (y[a] == Horner(F, f.Value(), x[a]) <==> a in genuine)
  {
    if InstanceRejected(n, t, k, card) {
      return null, [];
    }
    ChooseAtRandom(x, card, n);
    f := RandomPolynomial(card, k);
    ChaffOrdinates(F, card, f, x, y, n);
    var g := new nat[t];
    ChooseAtRandom(g, n, t);
    assert g[..t] == g[..];
    GenuineOrdinates(F, f, x, y, n, g);
    genuine := g[..];
  }

  /**
   * createRandomInstance(V, t, k): f of degree below k is hidden in
   * V = (X - x[0]) ... (X - x[t-1]) + f for t distinct random field
   * elements; k < 0, t < 0, k >= t and t above the cardinality exit.
   */
  method CreateRandomVaultPolynomial(F: Field, card: nat, V: SmallBinaryFieldPolynomial, t: int, k: int)
    returns (f: SmallBinaryFieldPolynomial?, ghost roots: seq<nat>)
    requires card > 0 && V.Valid()
    modifies V
    ensures V.Valid()
    ensures f == null <==> k < 0 || t < 0 || k >= t || t > card
    ensures f == null ==> V.Value() == old(V.Value())
    ensures f != null ==> fresh(f) && f.Valid() && |f.Value()| <= k && Below(f.Value(), card)
    ensures f != null ==> |roots| == t && Unique(roots) && Below(roots, card)
    ensures f != null ==> V.Valid()
    ensures f != null ==>
      forall i :: Coeff(V.Value(), i) == Xor(Coeff(FromRoots(F, roots), i), Coeff(f.Value(), i))
  {
    if k < 0 || t < 0 {
      return null, [];
    }
    if k >= t {
      return null, [];
    }
    if t > card {
      return null, [];
    }
    f := RandomPolynomial(card, k);
    var x := new nat[t];
    ChooseAtRandom(x, card, t);
    var xs := x[..];
    roots := xs;
    assert xs[..t] == xs;
    V.BuildFromRoots(F, xs, t);
    Add(V, V, f);
  }

  // ---------------------------------------------------------------------
  // Brute-force decoders

  /** a[i] = x[indices[i]]: distinct indices of distinct abscissas give distinct locators. */
  lemma SelectedDistinct(x: seq<nat>, n: nat, idx: seq<nat>, a: seq<nat>)
    requires n <= |x| && Unique(x[..n]) && Unique(idx) && Below(idx, n)
    requires |a| == |idx| && forall i :: 0 <= i < |a| ==> a[i] == x[idx[i]]
    ensures Distinct(a, |a|)
  {
    forall i, j | 0 <= i < j < |a|
      ensures a[i] != a[j]
    {
      assert x[..n][idx[i]] == a[i] && x[..n][idx[j]] == a[j];
    }
  }

  /** a[i] = x[idx[i]] and b[i] = y[idx[i]] for i < |idx|. */
  method Select(x: seq<nat>, y: seq<nat>, idx: seq<nat>, n: nat) returns (a: seq<nat>, b: seq<nat>)
    requires n <= |x| && n <= |y| && Below(idx, n)
    ensures |a| == |b| == |idx|
    ensures forall i :: 0 <= i < |idx| ==> a[i] == x[idx[i]] && b[i] == y[idx[i]]
  {
    a, b := [], [];
    var i := 0;
    while i < |idx|
      invariant 0 <= i <= |idx| && |a| == |b| == i
      invariant forall m :: 0 <= m < i ==> a[m] == x[idx[m]] && b[m] == y[idx[m]]
    {
      var j := idx[i];
      a, b := a + [x[j]], b + [y[j]];
      i := i + 1;
    }
  }

  /**
   * The interpolation polynomial of the selected points and whether its
   * SHA-1 hash is the given one.
   */
  method TryCandidate(F: Field, candidate: SmallBinaryFieldPolynomial, x: seq<nat>, y: seq<nat>, n: nat,
                      idx: seq<nat>, hash: seq<bv8>, sha: seq<nat> -> seq<bv8>) returns (hit: bool)
    requires IsField(F) && candidate.Valid() && n <= |x| && n <= |y| && Unique(x[..n])
    requires Unique(idx) && Below(idx, n)
    modifies candidate
    ensures candidate.Valid() && |candidate.Value()| <= |idx|
    ensures forall i :: 0 <= i < |idx| ==> Horner(F, candidate.Value(), x[idx[i]]) == y[idx[i]]
    ensures hit <==> sha(candidate.Value()) == hash
  {
    var a, b := Select(x, y, idx, n);
    SelectedDistinct(x, n, idx, a);
    candidate.Interpolate(F, a, b, |idx|);
    hit := sha(candidate.coefficients[..candidate.degree + 1]) == hash;
  }

  /**
   * bfattack: up to maxIts rounds of k random distinct points, each
   * interpolated; f is assigned only when the candidate's hash matches.
   * The abscissas of the n vault points are distinct.
   */
  method BfAttack(F: Field, f: SmallBinaryFieldPolynomial, x: seq<nat>, y: seq<nat>, n: int, k: int,
                  hash: seq<bv8>, maxIts: nat, sha: seq<nat> -> seq<bv8>, draws: seq<nat>)
    returns (r: Ending, its: nat)
    requires IsField(F) && f.Valid() && n <= |x| && n <= |y| && (n > 0 ==> Unique(x[..n]))
    modifies f
    ensures r == Exits <==> n > RAND_MAX || n <= 0 || k <= 0 || k > n
    ensures its <= maxIts
    ensures r == Returns(true) ==> f.Valid() && sha(f.Value()) == hash && |f.Value()| <= k
    ensures r != Returns(true) ==> unchanged(f)
  {
    its := 0;
    if n > RAND_MAX {
      return Exits, its;
    }
    if n <= 0 || k <= 0 || k > n {
      return Exits, its;
    }
    var candidate := new SmallBinaryFieldPolynomial();
    candidate.EnsureCapacity(k);
    var indices := new nat[k];
    var used: nat := 0;
    while its < maxIts
      invariant its <= maxIts && used <= |draws|
      invariant candidate.Valid() && fresh(candidate) && fresh(indices)
      invariant unchanged(f)
    {
      var ok, u := FastChooseIndicesAtRandom(indices, n, k, draws[used..]);
      if !ok {
        return OutOfDraws, its;
      }
      used := used + u;
      assert indices[..k] == indices[..];
      var hit := TryCandidate(F, candidate, x, y, n, indices[..], hash, sha);
      if hit {
        f.Assign(candidate);
        return Returns(true), its;
      }
      its := its + 1;
    }
    r := Returns(false);
  }

  /** The polynomial p takes the value y[i] at x[i] for every index i of idx. */
  ghost predicate Interpolates(F: Field, p: seq<nat>, x: seq<nat>, y: seq<nat>, idx: seq<nat>)
  {
    forall i :: 0 <= i < |idx| ==> idx[i] < |x| && idx[i] < |y| && Horner(F, p, x[idx[i]]) == y[idx[i]]
  }

  /**
   * The candidate of a subset is determined by it: two normalized
   * polynomials with at most as many coefficients as the subset has
   * points, both through the selected points, are equal.
   */
  lemma CandidateUnique(F: Field, x: seq<nat>, y: seq<nat>, n: nat, idx: seq<nat>, p: seq<nat>, q: seq<nat>)
    requires IsField(F) && n <= |x| && n <= |y| && Unique(x[..n]) && Unique(idx) && Below(idx, n)
    requires Normalized(p) && Normalized(q) && |p| <= |idx| && |q| <= |idx|
    requires Interpolates(F, p, x, y, idx) && Interpolates(F, q, x, y, idx)
    ensures p == q
  {
    var a := seq(|idx|, i requires 0 <= i < |idx| => x[idx[i]]);
    var b := seq(|idx|, i requires 0 <= i < |idx| => y[idx[i]]);
    SelectedDistinct(x, n, idx, a);
    InterpolationUnique(F, p, q, a, b, |idx|);
  }

  /**
   * bfdecode: every k-subset of the n points, in the order of the binomial
   * iterator (the subsets parameter), is interpolated until a hash
   * matches; k > n returns false and k = 0 compares the hash of f itself.
   */
  method BfDecode(F: Field, f: SmallBinaryFieldPolynomial, x: seq<nat>, y: seq<nat>, n: int, k: int,
                  hash: seq<bv8>, sha: seq<nat> -> seq<bv8>, subsets: seq<seq<nat>>)
    returns (r: Ending, tried: nat)
    requires IsField(F) && f.Valid() && n <= |x| && n <= |y| && (n > 0 ==> Unique(x[..n]))
    requires 0 < k <= n ==> |subsets| > 0
    requires forall s :: s in subsets ==> |s| == k && Unique(s) && Below(s, n)
    requires forall s :: |s| == k && Increasing(s) && Below(s, n) ==> s in subsets
    modifies f
    ensures f.Valid()
    ensures r == Exits <==> n < 0 || k < 0
    ensures r != Exits && k > n ==> r == Returns(false)
    ensures r != Exits && k == 0 ==> r == Returns(sha(f.Value()) == hash)
    ensures r == Returns(true) && k > 0 ==> sha(f.Value()) == hash && |f.Value()| <= k
    ensures r != Returns(true) || k == 0 ==> unchanged(f)
    ensures r == Returns(false) && 0 < k <= n ==> tried == |subsets|
    ensures r == Returns(false) && 0 < k <= n ==>
              forall s, p :: s in subsets && Normalized(p) && |p| <= k && Interpolates(F, p, x, y, s) ==> sha(p) != hash
    ensures r == Returns(false) && 0 < k <= n ==>
              forall s, p ::
                |s| == k && Increasing(s) && Below(s, n) &&
                Normalized(p) && |p| <= k && Interpolates(F, p, x, y, s) ==>
                sha(p) != hash
    ensures tried <= |subsets|
  {
    tried := 0;
    if n < 0 || k < 0 {
      return Exits, tried;
    }
    if k > n {
      return Returns(false), tried;
    }
    if k == 0 {
      return Returns(sha(f.coefficients[..f.degree + 1]) == hash), tried;
    }
    var hit;
    hit, tried := TrySubsets(F, f, x, y, n, k, hash, sha, subsets);
    if hit {
      return Returns(true), tried;
    }
    EveryCandidateMissed(F, x, y, n, k, hash, sha, subsets);
    r := Returns(false);
  }

  /**
   * The loop of bfdecode: the candidates of the subsets in order until
   * one hashes to the given hash; f is assigned only on a hit.
   */
  method TrySubsets(F: Field, f: SmallBinaryFieldPolynomial, x: seq<nat>, y: seq<nat>, n: nat, k: nat,
                    hash: seq<bv8>, sha: seq<nat> -> seq<bv8>, subsets: seq<seq<nat>>)
    returns (hit: bool, tried: nat)
    requires IsField(F) && f.Valid() && n <= |x| && n <= |y| && Unique(x[..n])
    requires forall s :: s in subsets ==> |s| == k && Unique(s) && Below(s, n)
    modifies f
    ensures f.Valid() && tried <= |subsets|
    ensures hit ==> sha(f.Value()) == hash && |f.Value()| <= k
    ensures !hit ==> unchanged(f) && tried == |subsets|
    ensures !hit ==> forall t, p :: 0 <= t < |subsets| && Normalized(p) && |p| <= k && Interpolates(F, p, x, y, subsets[t]) ==>
                       sha(p) != hash
  {
    tried := 0;
    var candidate := new SmallBinaryFieldPolynomial();
    while tried < |subsets|
      invariant tried <= |subsets|
      invariant candidate.Valid() && fresh(candidate)
      invariant unchanged(f)
      invariant MissedBelow(F, x, y, k, hash, sha, subsets, tried)
    {
      hit := TryCandidate(F, candidate, x, y, n, subsets[tried], hash, sha);
      if hit {
        f.Assign(candidate);
        return true, tried;
      }
      Missed(F, x, y, n, k, subsets[tried], candidate.Value(), hash, sha);
      MissedOneMore(F, x, y, k, hash, sha, subsets, tried);
      tried := tried + 1;
    }
    hit := false;
  }

  /** No polynomial of at most k coefficients through the points of one of the first t subsets has the hash. */
  ghost predicate MissedBelow(F: Field, x: seq<nat>, y: seq<nat>, k: nat, hash: seq<bv8>, sha: seq<nat> -> seq<bv8>,
                              subsets: seq<seq<nat>>, t: nat)
    requires t <= |subsets|
  {
    forall i, p :: 0 <= i < t && Normalized(p) && |p| <= k && Interpolates(F, p, x, y, subsets[i]) ==> sha(p) != hash
  }

  /** A miss on subset t extends the misses on the subsets before it. */
  lemma MissedOneMore(F: Field, x: seq<nat>, y: seq<nat>, k: nat, hash: seq<bv8>, sha: seq<nat> -> seq<bv8>,
                      subsets: seq<seq<nat>>, t: nat)
    requires t < |subsets| && MissedBelow(F, x, y, k, hash, sha, subsets, t)
    requires forall p :: Normalized(p) && |p| <= k && Interpolates(F, p, x, y, subsets[t]) ==> sha(p) != hash
    ensures MissedBelow(F, x, y, k, hash, sha, subsets, t + 1)
  {
  }

  /** No candidate of the enumerated subsets hits, and the enumeration holds every k-subset. */
  lemma EveryCandidateMissed(F: Field, x: seq<nat>, y: seq<nat>, n: nat, k: nat, hash: seq<bv8>,
                             sha: seq<nat> -> seq<bv8>, subsets: seq<seq<nat>>)
    requires forall t, p :: 0 <= t < |subsets| && Normalized(p) && |p| <= k && Interpolates(F, p, x, y, subsets[t]) ==>
               sha(p) != hash
    requires forall s :: |s| == k && Increasing(s) && Below(s, n) ==> s in subsets
    ensures forall s, p :: s in subsets && Normalized(p) && |p| <= k && Interpolates(F, p, x, y, s) ==> sha(p) != hash
    ensures forall s, p ::
              |s| == k && Increasing(s) && Below(s, n) && Normalized(p) && |p| <= k && Interpolates(F, p, x, y, s) ==>
              sha(p) != hash
  {
  }

  /** A candidate that missed the hash rules out every polynomial through the same points. */
  lemma Missed(F: Field, x: seq<nat>, y: seq<nat>, n: nat, k: int, idx: seq<nat>, c: seq<nat>,
               hash: seq<bv8>, sha: seq<nat> -> seq<bv8>)
    requires IsField(F) && n <= |x| && n <= |y| && Unique(x[..n]) && Unique(idx) && Below(idx, n) && |idx| == k
    requires Normalized(c) && |c| <= k && sha(c) != hash
    requires forall i :: 0 <= i < |idx| ==> Horner(F, c, x[idx[i]]) == y[idx[i]]
    ensures forall p :: Normalized(p) && |p| <= k && Interpolates(F, p, x, y, idx) ==> sha(p) != hash
  {
    forall p | Normalized(p) && |p| <= k && Interpolates(F, p, x, y, idx)
      ensures sha(p) != hash
    {
      CandidateUnique(F, x, y, n, idx, p, c);
    }
  }
}
