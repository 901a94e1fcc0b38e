/** Square matrices over the reals as values. */
module MatrixAlgebra {

  type Mat = seq<seq<real>>

  predicate Square(a: Mat, n: nat) {
    |a| == n && forall i :: 0 <= i < n ==> |a[i]| == n
  }

  /** The entry in row i and column j; 0 outside the matrix. */
  function At(a: Mat, i: nat, j: nat): (r: real) {
    if i < |a| && j < |a[i]| then a[i][j] else 0.0
  }

  function Tabulate(n: nat, f: (nat, nat) -> real): (a: Mat)
    ensures Square(a, n)
    ensures forall i: nat, j: nat :: i < n && j < n ==> At(a, i, j) == f(i, j)
  {
    seq(n, i requires 0 <= i < n => seq(n, j requires 0 <= j < n => f(i, j)))
  }

  /** Square matrices with the same entries are the same. */
  lemma Extensional(a: Mat, b: Mat, n: nat)
    requires Square(a, n) && Square(b, n)
    requires forall i: nat, j: nat :: i < n && j < n ==> At(a, i, j) == At(b, i, j)
    ensures a == b
  {
    forall i | 0 <= i < n ensures a[i] == b[i] {
      forall j | 0 <= j < n ensures a[i][j] == b[i][j] {
        assert At(a, i, j) == At(b, i, j);
      }
    }
  }

  // ---------------------------------------------------------------- sums

  function Sum(f: nat -> real, n: nat): (r: real) {
    if n == 0 then 0.0 else Sum(f, n - 1) + f(n - 1)
  }

  lemma {:induction false} SumAgrees(f: nat -> real, g: nat -> real, n: nat)
    requires forall k: nat :: k < n ==> f(k) == g(k)
    ensures Sum(f, n) == Sum(g, n)
  {
    if n > 0 { SumAgrees(f, g, n - 1); }
  }

  lemma {:induction false} SumMinus(f: nat -> real, g: nat -> real, h: nat -> real, c: real, n: nat)
    requires forall k: nat :: k < n ==> h(k) == f(k) - c * g(k)
    ensures Sum(h, n) == Sum(f, n) - c * Sum(g, n)
  {
    if n > 0 { SumMinus(f, g, h, c, n - 1); }
  }

  lemma {:induction false} SumZero(f: nat -> real, n: nat)
    requires forall k: nat :: k < n ==> f(k) == 0.0
    ensures Sum(f, n) == 0.0
  {
    if n > 0 { SumZero(f, n - 1); }
  }

  /** A sum with one term that matters. */
  lemma {:induction false} SumSingle(f: nat -> real, n: nat, m: nat)
    requires m < n && forall k: nat :: k < n && k != m ==> f(k) == 0.0
    ensures Sum(f, n) == f(m)
  {
    if m == n - 1 { SumZero(f, n - 1); } else { SumSingle(f, n - 1, m); }
  }

  lemma {:induction false} SumPlus(f: nat -> real, g: nat -> real, h: nat -> real, n: nat)
    requires forall k: nat :: k < n ==> h(k) == f(k) + g(k)
    ensures Sum(h, n) == Sum(f, n) + Sum(g, n)
  {
    if n > 0 { SumPlus(f, g, h, n - 1); }
  }

  lemma {:induction false} SumScale(f: nat -> real, h: nat -> real, c: real, n: nat)
    requires forall k: nat :: k < n ==> h(k) == c * f(k)
    ensures Sum(h, n) == c * Sum(f, n)
  {
    if n > 0 { SumScale(f, h, c, n - 1); }
  }

  /** Summing a table by rows and by columns. */
  lemma {:induction false} SumSwap(t: (nat, nat) -> real, rows: nat -> real, cols: nat -> real, n: nat, m: nat)
    requires forall i: nat :: i < n ==> rows(i) == Sum((j: nat) => t(i, j), m)
    requires forall j: nat :: j < m ==> cols(j) == Sum((i: nat) => t(i, j), n)
    ensures Sum(rows, n) == Sum(cols, m)
  {
    if n == 0 {
      SumZero(cols, m);
    } else {
      var cols' := (j: nat) => Sum((i: nat) => t(i, j), n - 1);
      SumSwap(t, rows, cols', n - 1, m);
      SumPlus(cols', (j: nat) => t(n - 1, j), cols, m);
    }
  }

  // ---------------------------------------------------------------- products

  function One(n: nat): (r: Mat) {
    Tabulate(n, (i: nat, j: nat) => if i == j then 1.0 else 0.0)
  }

  function Term(a: Mat, b: Mat, i: nat, j: nat): (r: nat -> real) {
    (k: nat) => At(a, i, k) * At(b, k, j)
  }

  function Mul(a: Mat, b: Mat, n: nat): (c: Mat)
    ensures Square(c, n)
  {
    Tabulate(n, (i: nat, j: nat) => Sum(Term(a, b, i, j), n))
  }

  lemma MulAt(a: Mat, b: Mat, n: nat, i: nat, j: nat)
    requires i < n && j < n
    ensures At(Mul(a, b, n), i, j) == Sum(Term(a, b, i, j), n)
  {
  }

  lemma OneLeft(a: Mat, n: nat)
    requires Square(a, n)
    ensures Mul(One(n), a, n) == a
  {
    forall i: nat, j: nat | i < n && j < n ensures At(Mul(One(n), a, n), i, j) == At(a, i, j) {
      MulAt(One(n), a, n, i, j);
      SumSingle(Term(One(n), a, i, j), n, i);
    }
    Extensional(Mul(One(n), a, n), a, n);
  }

  lemma OneRight(a: Mat, n: nat)
    requires Square(a, n)
    ensures Mul(a, One(n), n) == a
  {
    forall i: nat, j: nat | i < n && j < n ensures At(Mul(a, One(n), n), i, j) == At(a, i, j) {
      MulAt(a, One(n), n, i, j);
      SumSingle(Term(a, One(n), i, j), n, j);
    }
    Extensional(Mul(a, One(n), n), a, n);
  }

  lemma MulAssocAt(a: Mat, b: Mat, c: Mat, n: nat, i: nat, j: nat)
    requires i < n && j < n
    ensures At(Mul(Mul(a, b, n), c, n), i, j) == At(Mul(a, Mul(b, c, n), n), i, j)
  {
    var t := (k: nat, l: nat) => At(a, i, l) * At(b, l, k) * At(c, k, j);
    var rows := Term(Mul(a, b, n), c, i, j);
    var cols := Term(a, Mul(b, c, n), i, j);
    forall k: nat | k < n ensures rows(k) == Sum((l: nat) => t(k, l), n) {
      MulAt(a, b, n, i, k);
      SumScale(Term(a, b, i, k), (l: nat) => t(k, l), At(c, k, j), n);
    }
    forall l: nat | l < n ensures cols(l) == Sum((k: nat) => t(k, l), n) {
      MulAt(b, c, n, l, j);
      SumScale(Term(b, c, l, j), (k: nat) => t(k, l), At(a, i, l), n);
    }
    SumSwap(t, rows, cols, n, n);
    MulAt(Mul(a, b, n), c, n, i, j);
    MulAt(a, Mul(b, c, n), n, i, j);
  }

  lemma MulAssoc(a: Mat, b: Mat, c: Mat, n: nat)
    ensures Mul(Mul(a, b, n), c, n) == Mul(a, Mul(b, c, n), n)
  {
    forall i: nat, j: nat | i < n && j < n
      ensures At(Mul(Mul(a, b, n), c, n), i, j) == At(Mul(a, Mul(b, c, n), n), i, j)
    {
      MulAssocAt(a, b, c, n, i, j);
    }
    Extensional(Mul(Mul(a, b, n), c, n), Mul(a, Mul(b, c, n), n), n);
  }

  ghost predicate Inverses(a: Mat, b: Mat, n: nat) {
    Square(a, n) && Square(b, n) && Mul(a, b, n) == One(n) && Mul(b, a, n) == One(n)
  }

  ghost predicate Invertible(a: Mat, n: nat) {
    exists b :: Inverses(a, b, n)
  }

  // ---------------------------------------------------------------- triangular matrices

  ghost predicate UpperTriangular(a: Mat, n: nat) {
    Square(a, n) && forall i: nat, j: nat :: j < i < n ==> At(a, i, j) == 0.0
  }

  ghost predicate Diagonal(a: Mat, n: nat) {
    Square(a, n) && forall i: nat, j: nat :: i < n && j < n && i != j ==> At(a, i, j) == 0.0
  }

  ghost predicate NonzeroDiagonal(a: Mat, n: nat) {
    forall i: nat :: i < n ==> At(a, i, i) != 0.0
  }

  /** A left inverse forces an upper triangular matrix to have no zero on its diagonal: by columns,
      the left inverse is upper triangular too. */
  lemma {:induction false} LeftInverseOfUpper(b: Mat, u: Mat, n: nat, j: nat)
    requires Square(b, n) && UpperTriangular(u, n) && Mul(b, u, n) == One(n) && j <= n
    ensures forall c: nat :: c < j ==> At(u, c, c) != 0.0
    ensures forall i: nat, c: nat :: c < j && c < i < n ==> At(b, i, c) == 0.0
  {
    if j > 0 {
      var c := j - 1;
      LeftInverseOfUpper(b, u, n, c);
      forall i: nat | c <= i < n ensures At(b, i, c) * At(u, c, c) == if i == c then 1.0 else 0.0 {
        MulAt(b, u, n, i, c);
        SumSingle(Term(b, u, i, c), n, c);
      }
      assert At(b, c, c) * At(u, c, c) == 1.0;
      assert At(u, c, c) != 0.0;
      forall i: nat | c < i < n ensures At(b, i, c) == 0.0 {
        assert At(b, i, c) * At(u, c, c) == 0.0;
      }
    }
  }

  function DiagonalInverse(d: Mat, n: nat): (r: Mat)
    requires forall i: nat :: i < n ==> At(d, i, i) != 0.0
    ensures Square(r, n)
  {
    Tabulate(n, (i: nat, j: nat) => if i == j && At(d, i, i) != 0.0 then 1.0 / At(d, i, i) else At(d, i, j))
  }

  lemma DiagonalTimesInverse(d: Mat, r: Mat, n: nat)
    requires Diagonal(d, n) && Diagonal(r, n)
    requires forall i: nat :: i < n ==> At(d, i, i) * At(r, i, i) == 1.0
    ensures Mul(d, r, n) == One(n)
  {
    forall i: nat, j: nat | i < n && j < n ensures At(Mul(d, r, n), i, j) == At(One(n), i, j) {
      MulAt(d, r, n, i, j);
      SumSingle(Term(d, r, i, j), n, i);
    }
    Extensional(Mul(d, r, n), One(n), n);
  }

  lemma DiagonalInverts(d: Mat, n: nat)
    requires Diagonal(d, n) && NonzeroDiagonal(d, n)
    ensures Inverses(d, DiagonalInverse(d, n), n)
  {
    DiagonalTimesInverse(d, DiagonalInverse(d, n), n);
    DiagonalTimesInverse(DiagonalInverse(d, n), d, n);
  }
}
