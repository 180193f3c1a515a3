/**
 * Binary matrices (BinaryMatrix.cpp): an m x n matrix over GF(2). The
 * source stores each row in ceil(n/32) words; here a row is its sequence
 * of bits. Invalid dimensions or positions make the source abort, so they
 * are preconditions here.
 */
module BinaryMatrices {

  /** Well-formed m x n bit rows. */
  predicate Shaped(rows: seq<seq<bool>>, m: nat, n: nat)
  {
    |rows| == m && forall i :: 0 <= i < m ==> |rows[i]| == n
  }

  /** The transpose of an m x n matrix. */
  function Transposed(rows: seq<seq<bool>>, m: nat, n: nat): (t: seq<seq<bool>>)
    requires Shaped(rows, m, n)
    ensures Shaped(t, n, m)
    ensures forall j, i :: 0 <= j < n && 0 <= i < m ==> t[j][i] == rows[i][j]
  {
    seq(n, j requires 0 <= j < n => seq(m, i requires 0 <= i < m => rows[i][j]))
  }

  /** Transposing twice gives back the matrix. */
  lemma TransposeTwice(rows: seq<seq<bool>>, m: nat, n: nat)
    requires Shaped(rows, m, n)
    ensures Transposed(Transposed(rows, m, n), n, m) == rows
  {
    var t := Transposed(Transposed(rows, m, n), n, m);
    forall i | 0 <= i < m
      ensures t[i] == rows[i]
    {
    }
  }

  /** The entrywise sum over GF(2). */
  function Sum(a: seq<seq<bool>>, b: seq<seq<bool>>, m: nat, n: nat): (c: seq<seq<bool>>)
    requires Shaped(a, m, n) && Shaped(b, m, n)
    ensures Shaped(c, m, n)
    ensures forall i, j :: 0 <= i < m && 0 <= j < n ==> c[i][j] == (a[i][j] != b[i][j])
  {
    seq(m, i requires 0 <= i < m => seq(n, j requires 0 <= j < n => a[i][j] != b[i][j]))
  }

  /** Adding the same matrix twice gives back the first summand. */
  lemma SumTwice(a: seq<seq<bool>>, b: seq<seq<bool>>, m: nat, n: nat)
    requires Shaped(a, m, n) && Shaped(b, m, n)
    ensures Sum(Sum(a, b, m, n), b, m, n) == a
  {
    var c := Sum(Sum(a, b, m, n), b, m, n);
    forall i | 0 <= i < m
      ensures c[i] == a[i]
    {
    }
  }

  /**
   * The row echelon shape gauss leaves behind with rank k: unit diagonal in
   * the first k columns, zeros below it, and zero rows from row k on.
   */
  predicate Echelon(rows: seq<seq<bool>>, m: nat, n: nat, k: nat)
    requires Shaped(rows, m, n)
  {
    k <= m && k <= n
    && (forall r :: 0 <= r < k ==> rows[r][r])
    && (forall i, c :: 0 <= c < k && c < i < m ==> !rows[i][c])
    && (forall i, c :: k <= i < m && 0 <= c < n ==> !rows[i][c])
  }

  /** Invariant of gauss after k pivot steps. */
  predicate Reduced(rows: seq<seq<bool>>, m: nat, n: nat, k: nat)
    requires Shaped(rows, m, n)
  {
    k <= m && k <= n
    && (forall r :: 0 <= r < k ==> rows[r][r])
    && (forall i, c :: 0 <= c < k && c < i < m ==> !rows[i][c])
  }

  /**
   * The elementary operations gauss is built from: exchanging two rows,
   * exchanging two columns, and adding one row to another.
   */
  datatype Elementary = RowSwap(i0: nat, i1: nat) | ColSwap(j0: nat, j1: nat) | RowAdd(src: nat, dst: nat)

  /** op fits an m x n matrix; a row is never added to itself. */
  predicate Allowed(op: Elementary, m: nat, n: nat)
  {
    match op
    case RowSwap(i0, i1) => i0 < m && i1 < m
    case ColSwap(j0, j1) => j0 < n && j1 < n
    case RowAdd(src, dst) => src < m && dst < m && src != dst
  }

  predicate AllAllowed(log: seq<Elementary>, m: nat, n: nat)
  {
    forall t :: 0 <= t < |log| ==> Allowed(log[t], m, n)
  }

  /** The matrix after the operation op. */
  function Perform(op: Elementary, rows: seq<seq<bool>>, m: nat, n: nat): (r: seq<seq<bool>>)
    requires Shaped(rows, m, n) && Allowed(op, m, n)
    ensures Shaped(r, m, n)
  {
    match op
    case RowSwap(i0, i1) => rows[i0 := rows[i1]][i1 := rows[i0]]
    case ColSwap(j0, j1) =>
      seq(m, i requires 0 <= i < m => seq(n, c requires 0 <= c < n => rows[i][if c == j0 then j1 else if c == j1 then j0 else c]))
    case RowAdd(src, dst) => rows[dst := seq(n, c requires 0 <= c < n => rows[dst][c] != rows[src][c])]
  }

  /** The matrix after the operations of log, first to last. */
  function Apply(log: seq<Elementary>, rows: seq<seq<bool>>, m: nat, n: nat): (r: seq<seq<bool>>)
    requires Shaped(rows, m, n) && AllAllowed(log, m, n)
    ensures Shaped(r, m, n)
    decreases |log|
  {
    if log == [] then rows else Perform(log[|log| - 1], Apply(log[..|log| - 1], rows, m, n), m, n)
  }

  function Backwards(log: seq<Elementary>): (r: seq<Elementary>)
    ensures |r| == |log| && forall t :: 0 <= t < |log| ==> r[t] == log[|log| - 1 - t]
    decreases |log|
  {
    if log == [] then [] else [log[|log| - 1]] + Backwards(log[..|log| - 1])
  }

  /**
   * addRow(k, i, k) adds row k to row i from the word holding column k on;
   * when row k is zero before column k that is the whole row.
   */
  lemma AddRowWhole(before: seq<seq<bool>>, after: seq<seq<bool>>, m: nat, n: nat, k: nat, i: nat)
    requires Shaped(before, m, n) && Shaped(after, m, n) && k < i < m && k < n
    requires forall c :: 0 <= c < k ==> !before[k][c]
    requires forall r :: 0 <= r < m && r != i ==> after[r] == before[r]
    requires forall c :: 0 <= c < n ==>
               after[i][c] == if c >= 32 * (k / 32) then before[i][c] != before[k][c] else before[i][c]
    ensures after == Perform(RowAdd(k, i), before, m, n)
  {
    assert after[i] == Perform(RowAdd(k, i), before, m, n)[i];
  }

  /** exchangeCols(j0, j1) is the column exchange of the log. */
  lemma ColSwapPerformed(before: seq<seq<bool>>, after: seq<seq<bool>>, m: nat, n: nat, j0: nat, j1: nat)
    requires Shaped(before, m, n) && Shaped(after, m, n) && j0 < n && j1 < n
    requires forall i, c :: 0 <= i < m && 0 <= c < n ==>
               after[i][c] == before[i][if c == j0 then j1 else if c == j1 then j0 else c]
    ensures after == Perform(ColSwap(j0, j1), before, m, n)
  {
    assert forall i :: 0 <= i < m ==> after[i] == Perform(ColSwap(j0, j1), before, m, n)[i];
  }

  /** Every elementary operation undoes itself. */
  lemma PerformTwice(op: Elementary, rows: seq<seq<bool>>, m: nat, n: nat)
    requires Shaped(rows, m, n) && Allowed(op, m, n)
    ensures Perform(op, Perform(op, rows, m, n), m, n) == rows
  {
    var once := Perform(op, rows, m, n);
    var twice := Perform(op, once, m, n);
    forall i | 0 <= i < m
      ensures twice[i] == rows[i]
    {
      if op.RowAdd? {
        assert forall c :: 0 <= c < n ==> twice[i][c] == rows[i][c];
      }
    }
  }

  lemma {:induction false} ApplyPrefixed(op: Elementary, log: seq<Elementary>, rows: seq<seq<bool>>, m: nat, n: nat)
    requires Shaped(rows, m, n) && Allowed(op, m, n) && AllAllowed(log, m, n)
    ensures AllAllowed([op] + log, m, n)
    ensures Apply([op] + log, rows, m, n) == Apply(log, Perform(op, rows, m, n), m, n)
    decreases |log|
  {
    if log != [] {
      var front := log[..|log| - 1];
      assert ([op] + log)[..|log|] == [op] + front;
      ApplyPrefixed(op, front, rows, m, n);
    }
  }

  lemma ApplyExtended(log: seq<Elementary>, op: Elementary, rows: seq<seq<bool>>, m: nat, n: nat)
    requires Shaped(rows, m, n) && AllAllowed(log, m, n) && Allowed(op, m, n)
    ensures AllAllowed(log + [op], m, n)
    ensures Apply(log + [op], rows, m, n) == Perform(op, Apply(log, rows, m, n), m, n)
  {
    assert (log + [op])[..|log|] == log;
  }

  lemma {:induction false} ApplyJoined(a: seq<Elementary>, b: seq<Elementary>, rows: seq<seq<bool>>, m: nat, n: nat)
    requires Shaped(rows, m, n) && AllAllowed(a, m, n) && AllAllowed(b, m, n)
    ensures AllAllowed(a + b, m, n)
    ensures Apply(a + b, rows, m, n) == Apply(b, Apply(a, rows, m, n), m, n)
    decreases |b|
  {
    if b != [] {
      var front := b[..|b| - 1];
      assert (a + b)[..|a + b| - 1] == a + front;
      ApplyJoined(a, front, rows, m, n);
    } else {
      assert a + b == a;
    }
  }

  /**
   * The operations of a log, undone in reverse order, give the matrix
   * back: whatever gauss does can be undone, so it loses no information.
   */
  lemma {:induction false} ApplyUndone(log: seq<Elementary>, rows: seq<seq<bool>>, m: nat, n: nat)
    requires Shaped(rows, m, n) && AllAllowed(log, m, n)
    ensures AllAllowed(Backwards(log), m, n)
    ensures Apply(Backwards(log), Apply(log, rows, m, n), m, n) == rows
    decreases |log|
  {
    if log != [] {
      var last, front := log[|log| - 1], log[..|log| - 1];
      assert Backwards(log) == [last] + Backwards(front);
      var before := Apply(front, rows, m, n);
      ApplyUndone(front, rows, m, n);
      ApplyPrefixed(last, Backwards(front), Perform(last, before, m, n), m, n);
      PerformTwice(last, before, m, n);
    }
  }

  class BinaryMatrix {
    var m: nat
    var n: nat
    var rows: seq<seq<bool>>

    predicate Valid()
      reads this
    {
      Shaped(rows, m, n)
    }

    /** A zero matrix; negative dimensions abort. */
    constructor(m0: int, n0: int)
      requires m0 >= 0 && n0 >= 0
      ensures Valid() && m == m0 && n == n0
      ensures forall i, j :: 0 <= i < m && 0 <= j < n ==> !rows[i][j]
    {
      m := m0;
      n := n0;
      rows := seq(m0, _ => seq(n0, _ => false));
    }

    /** getAt: a position outside the m x n range aborts. */
    function GetAt(i: int, j: int): bool
      requires Valid() && 0 <= i < m && 0 <= j < n
      reads this
    {
      rows[i][j]
    }

    method SetAt(i: int, j: int, c: bool)
      requires Valid() && 0 <= i < m && 0 <= j < n
      modifies this
      ensures Valid() && m == old(m) && n == old(n)
      ensures rows == old(rows)[i := old(rows)[i][j := c]]
    {
      rows := rows[i := rows[i][j := c]];
    }

    /** setIdentity: a non-square matrix aborts. */
    method SetIdentity()
      requires Valid() && m == n
      modifies this
      ensures Valid() && m == old(m) && n == old(n)
      ensures forall i, j :: 0 <= i < m && 0 <= j < n ==> rows[i][j] == (i == j)
    {
      var m0, n0 := m, n;
      rows := seq(m0, i => seq(n0, j => i == j));
    }

    /** exchangeRows: swaps rows i0 and i1 and nothing else. */
    method ExchangeRows(i0: int, i1: int)
      requires Valid() && 0 <= i0 < m && 0 <= i1 < m
      modifies this
      ensures Valid() && m == old(m) && n == old(n)
      ensures rows == old(rows)[i0 := old(rows)[i1]][i1 := old(rows)[i0]]
    {
      if i0 != i1 {
        var tmp := rows[i0];
        rows := rows[i0 := rows[i1]][i1 := tmp];
      }
    }

    /** exchangeCols: swaps columns j0 and j1 row by row and nothing else. */
    method ExchangeCols(j0: int, j1: int)
      requires Valid() && 0 <= j0 < n && 0 <= j1 < n
      modifies this
      ensures Valid() && m == old(m) && n == old(n)
      ensures forall i, c :: 0 <= i < m && 0 <= c < n ==>
                rows[i][c] == old(rows)[i][if c == j0 then j1 else if c == j1 then j0 else c]
    {
      if j0 != j1 {
        ghost var o := rows;
        var i := 0;
        while i < m
          invariant 0 <= i <= m && Valid() && m == old(m) && n == old(n)
          invariant o == old(rows) && Shaped(o, m, n)
          invariant forall r, c :: 0 <= r < i && 0 <= c < n ==>
                      rows[r][c] == old(rows)[r][if c == j0 then j1 else if c == j1 then j0 else c]
          invariant forall r :: i <= r < m ==> rows[r] == old(rows)[r]
        {
          var c := rows[i][j0];
          rows := rows[i := rows[i][j0 := rows[i][j1]][j1 := c]];
          i := i + 1;
        }
      }
    }

    /**
     * addRow: adds row i0 to row i1, starting at the word that holds
     * column j; columns before that word are left alone.
     */
    method AddRow(i0: int, i1: int, j: int)
      requires Valid() && 0 <= i0 < m && 0 <= i1 < m && 0 <= j < n
      modifies this
      ensures Valid() && m == old(m) && n == old(n)
      ensures forall i :: 0 <= i < m && i != i1 ==> rows[i] == old(rows)[i]
      ensures forall c :: 0 <= c < n ==>
                rows[i1][c] == if c >= 32 * (j / 32) then old(rows)[i1][c] != old(rows)[i0][c] else old(rows)[i1][c]
    {
      var w := 32 * (j / 32);
      var target, source, n0 := rows[i1], rows[i0], n;
      var r := seq(n0, c requires 0 <= c < n0 => if c >= w then target[c] != source[c] else target[c]);
      rows := rows[i1 := r];
    }

    /** The pivot search of gauss: the first set entry, column by column, in rows and columns k.. */
    method FindPivot(k: nat) returns (found: bool, i0: nat, j0: nat)
      requires Valid() && k <= m && k <= n
      ensures found ==> k <= i0 < m && k <= j0 < n && rows[i0][j0]
      ensures !found ==> forall i, c :: k <= i < m && k <= c < n ==> !rows[i][c]
    {
      found, i0, j0 := false, k, k;
      var j := k;
      while j < n && !found
        invariant k <= j <= n
        invariant !found ==> forall i, c :: k <= i < m && k <= c < j ==> !rows[i][c]
        invariant found ==> k <= i0 < m && k <= j0 < n && rows[i0][j0]
        decreases n - j, if found then 0 else 1
      {
        var i := k;
        while i < m && !found
          invariant k <= i <= m
          invariant !found ==> forall r :: k <= r < i ==> !rows[r][j]
          invariant found ==> k <= i0 < m && k <= j0 < n && rows[i0][j0]
          decreases m - i, if found then 0 else 1
        {
          if rows[i][j] {
            found, i0, j0 := true, i, j;
          } else {
            i := i + 1;
          }
        }
        if !found {
          j := j + 1;
        }
      }
    }

    /** Moves the pivot found at (i0, j0) to (k, k) by a column and a row exchange. */
    method MovePivot(k: nat, i0: nat, j0: nat) returns (ghost ops: seq<Elementary>)
      requires Valid() && Reduced(rows, m, n, k)
      requires k <= i0 < m && k <= j0 < n && rows[i0][j0]
      modifies this
      ensures Valid() && m == old(m) && n == old(n)
      ensures AllAllowed(ops, m, n) && rows == Apply(ops, old(rows), m, n)
      ensures Reduced(rows, m, n, k)
      ensures rows[k][k]
      ensures forall c :: 0 <= c < k ==> !rows[k][c]
    {
      ops := [];
      if k != j0 {
        ghost var before := rows;
        ExchangeCols(k, j0);
        ColSwapPerformed(before, rows, m, n, k, j0);
        ApplyExtended(ops, ColSwap(k, j0), old(rows), m, n);
        ops := ops + [ColSwap(k, j0)];
      }
      if k != i0 {
        ghost var before := rows;
        ExchangeRows(k, i0);
        ApplyExtended(ops, RowSwap(k, i0), old(rows), m, n);
        ops := ops + [RowSwap(k, i0)];
      }
    }

    /** Clears column k below the pivot by adding row k to each row with a one there. */
    method EliminateBelow(k: nat) returns (ghost ops: seq<Elementary>)
      requires Valid() && Reduced(rows, m, n, k) && k < m && k < n
      requires rows[k][k] && forall c :: 0 <= c < k ==> !rows[k][c]
      modifies this
      ensures Valid() && m == old(m) && n == old(n)
      ensures AllAllowed(ops, m, n) && rows == Apply(ops, old(rows), m, n)
      ensures Reduced(rows, m, n, k + 1)
    {
      ops := [];
      var i := k + 1;
      while i < m
        invariant k + 1 <= i <= m
        invariant Valid() && m == old(m) && n == old(n)
        invariant AllAllowed(ops, m, n) && rows == Apply(ops, old(rows), m, n)
        invariant Reduced(rows, m, n, k)
        invariant rows[k][k]
        invariant forall c :: 0 <= c < k ==> !rows[k][c]
        invariant forall r :: k < r < i ==> !rows[r][k]
      {
        if rows[i][k] {
          ghost var before := rows;
          AddRow(k, i, k);
          AddRowWhole(before, rows, m, n, k, i);
          ApplyExtended(ops, RowAdd(k, i), old(rows), m, n);
          ops := ops + [RowAdd(k, i)];
        }
        i := i + 1;
      }
    }

    /**
     * gauss: Gaussian elimination with full pivoting. Returns the rank and
     * leaves the matrix in row echelon form, reached from the old matrix
     * by the elementary operations of log.
     */
    method Gauss() returns (k: nat, ghost log: seq<Elementary>)
      requires Valid()
      modifies this
      ensures Valid() && m == old(m) && n == old(n)
      ensures AllAllowed(log, m, n) && rows == Apply(log, old(rows), m, n)
      ensures Echelon(rows, m, n, k)
    {
      log := [];
      var bound := if m < n then m else n;
      k := 0;
      while k < bound
        invariant Valid() && m == old(m) && n == old(n)
        invariant AllAllowed(log, m, n) && rows == Apply(log, old(rows), m, n)
        invariant Reduced(rows, m, n, k)
        invariant k <= bound
      {
        var p, i0, j0 := FindPivot(k);
        if !p {
          return;
        }
        ghost var moved := MovePivot(k, i0, j0);
        ApplyJoined(log, moved, old(rows), m, n);
        log := log + moved;
        ghost var cleared := EliminateBelow(k);
        ApplyJoined(log, cleared, old(rows), m, n);
        log := log + cleared;
        k := k + 1;
      }
    }

    /**
     * rank: Gaussian elimination on a copy; the matrix itself is unchanged.
     * The rank is that of an echelon form reached from the matrix by
     * elementary operations.
     */
    method Rank() returns (r: nat)
      requires Valid()
      ensures r <= m && r <= n
      ensures exists log :: AllAllowed(log, m, n) && Echelon(Apply(log, rows, m, n), m, n, r)
    {
      var tmp := new BinaryMatrix(m, n);
      tmp.rows := rows;
      ghost var log;
      r, log := tmp.Gauss();
      assert Echelon(Apply(log, rows, m, n), m, n, r);
    }

    /** add: c = a + b; mismatched dimensions abort; c may alias a or b. */
    static method Add(c: BinaryMatrix, a: BinaryMatrix, b: BinaryMatrix)
      requires a.Valid() && b.Valid() && a.m == b.m && a.n == b.n
      modifies c
      ensures c.Valid() && c.m == old(a.m) && c.n == old(a.n)
      ensures c.rows == Sum(old(a.rows), old(b.rows), old(a.m), old(a.n))
    {
      var s := Sum(a.rows, b.rows, a.m, a.n);
      c.m, c.n := a.m, a.n;
      c.rows := s;
    }

    /** transpose: b becomes the transpose of a; b may be a itself. */
    static method Transpose(b: BinaryMatrix, a: BinaryMatrix)
      requires a.Valid()
      modifies b
      ensures b.Valid() && b.m == old(a.n) && b.n == old(a.m)
      ensures b.rows == Transposed(old(a.rows), old(a.m), old(a.n))
    {
      var t := Transposed(a.rows, a.m, a.n);
      b.m, b.n := a.n, a.m;
      b.rows := t;
    }

    /** submatrix: the m0 x n0 block of a at (i0, j0); a block outside a aborts. */
    static method Submatrix(a0: BinaryMatrix, a: BinaryMatrix, i0: int, j0: int, m0: int, n0: int)
      requires a.Valid()
      requires 0 <= i0 && 0 <= j0 && 0 <= m0 && 0 <= n0 && i0 + m0 <= a.m && j0 + n0 <= a.n
      modifies a0
      ensures a0.Valid() && a0.m == m0 && a0.n == n0
      ensures forall i, j :: 0 <= i < m0 && 0 <= j < n0 ==> a0.rows[i][j] == old(a.rows)[i0 + i][j0 + j]
    {
      var src := a.rows;
      var block: seq<seq<bool>> := [];
      var i := 0;
      while i < m0
        invariant 0 <= i <= m0 && |block| == i
        invariant forall r :: 0 <= r < i ==> |block[r]| == n0
        invariant forall r, c :: 0 <= r < i && 0 <= c < n0 ==> block[r][c] == src[i0 + r][j0 + c]
      {
        block := block + [src[i0 + i][j0..j0 + n0]];
        i := i + 1;
      }
      a0.m, a0.n := m0, n0;
      a0.rows := block;
    }
  }
}
