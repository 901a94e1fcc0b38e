/** The determinant of a square matrix, expanded along the first column, and what row operations do to it. */
module Determinants {
  import opened MatrixAlgebra
  import opened Elementary

  /** The index of the i-th of the rows that are left when row `gone` is taken out. */
  function Skip(gone: nat, i: nat): (r: nat) { if i < gone then i else i + 1 }

  /** Without row i and the first column; n is the order of what is left. */
  function Minor(a: Mat, i: nat, n: nat): (r: Mat)
    ensures Square(r, n)
  {
    Tabulate(n, (r: nat, c: nat) => At(a, Skip(i, r), c + 1))
  }

  function Signed(k: nat, x: real): (r: real) { if k % 2 == 0 then x else -x }

  function Times(x: real, y: real): (r: real) { x * y }

  /** The i-th term of the expansion along the first column. */
  function Summand(a: Mat, n: nat, i: nat): (r: real)
    requires n > 0
    decreases n, 0
  {
    Signed(i, Times(At(a, i, 0), Det(Minor(a, i, n - 1), n - 1)))
  }

  function Cofactor(a: Mat, n: nat): (r: nat -> real)
    requires n > 0
    decreases n, 1
  {
    (i: nat) => Summand(a, n, i)
  }

  function Det(a: Mat, n: nat): (r: real)
    decreases n, 2
  {
    if n == 0 then 1.0 else Sum(Cofactor(a, n), n)
  }

  lemma DetTwo(a: Mat)
    ensures Det(a, 2) == Times(At(a, 0, 0), At(a, 1, 1)) - Times(At(a, 1, 0), At(a, 0, 1))
  {
    TermOfTwo(a, 0);
    TermOfTwo(a, 1);
    var f := Cofactor(a, 2);
    assert Sum(f, 1) == Sum(f, 0) + f(0) && Sum(f, 2) == Sum(f, 1) + f(1);
  }

  lemma TermOfTwo(a: Mat, i: nat)
    requires i < 2
    ensures Cofactor(a, 2)(i) == Signed(i, Times(At(a, i, 0), At(a, 1 - i, 1)))
  {
    var m := Minor(a, i, 1);
    DetSingle(m);
    assert At(m, 0, 0) == At(a, 1 - i, 1);
    assert Summand(a, 2, i) == Signed(i, Times(At(a, i, 0), Det(m, 1)));
  }

  lemma DetSingle(a: Mat)
    ensures Det(a, 1) == At(a, 0, 0)
  {
    assert Summand(a, 1, 0) == Times(At(a, 0, 0), Det(Minor(a, 0, 0), 0));
    assert Sum(Cofactor(a, 1), 1) == Sum(Cofactor(a, 1), 0) + Cofactor(a, 1)(0);
  }

  // ---------------------------------------------------------------- linear in every row

  /** One term of the expansion: its entry, or its minor's determinant, is such a difference. */
  lemma EntryMinus(i: nat, k: real, x: real, y: real, z: real, d: real)
    requires z == Reduce(x, k, y)
    ensures Signed(i, Times(z, d)) == Reduce(Signed(i, Times(x, d)), k, Signed(i, Times(y, d)))
  {
    assert z * d == x * d - k * (y * d);
  }

  lemma MinorMinus(i: nat, k: real, x: real, y: real, z: real, e: real)
    requires z == Reduce(x, k, y)
    ensures Signed(i, Times(e, z)) == Reduce(Signed(i, Times(e, x)), k, Signed(i, Times(e, y)))
  {
    assert e * z == e * x - k * (e * y);
  }

  /** Row m of c is that of a minus k times that of b; the other rows are the same. */
  ghost predicate RowDiffers(a: Mat, b: Mat, c: Mat, m: nat, k: real, n: nat) {
    && (forall i: nat, j: nat :: i < n && j < n && i != m ==> At(a, i, j) == At(b, i, j) == At(c, i, j))
    && (forall j: nat :: j < n ==> At(c, m, j) == Reduce(At(a, m, j), k, At(b, m, j)))
  }

  lemma {:induction false} DetLinear(a: Mat, b: Mat, c: Mat, m: nat, k: real, n: nat)
    requires m < n && RowDiffers(a, b, c, m, k, n)
    ensures Det(c, n) == Reduce(Det(a, n), k, Det(b, n))
    decreases n, 1
  {
    var f, g, h := Cofactor(a, n), Cofactor(b, n), Cofactor(c, n);
    forall i: nat | i < n ensures h(i) == Reduce(f(i), k, g(i)) {
      CofactorLinear(a, b, c, m, k, n, i);
    }
    SumMinus(f, g, h, k, n);
  }

  lemma {:induction false} CofactorLinear(a: Mat, b: Mat, c: Mat, m: nat, k: real, n: nat, i: nat)
    requires m < n && i < n && RowDiffers(a, b, c, m, k, n)
    ensures Cofactor(c, n)(i) == Reduce(Cofactor(a, n)(i), k, Cofactor(b, n)(i))
    decreases n, 0
  {
    var p, q, r := Minor(a, i, n - 1), Minor(b, i, n - 1), Minor(c, i, n - 1);
    if i == m {
      MinorSame(a, b, i, n - 1);
      MinorSame(a, c, i, n - 1);
      EntryMinus(i, k, At(a, i, 0), At(b, i, 0), At(c, i, 0), Det(p, n - 1));
    } else {
      MinorDiffers(a, b, c, m, k, n, i);
      DetLinear(p, q, r, if m < i then m else m - 1, k, n - 1);
      MinorMinus(i, k, Det(p, n - 1), Det(q, n - 1), Det(r, n - 1), At(a, i, 0));
    }
  }

  lemma MinorSame(a: Mat, b: Mat, i: nat, n: nat)
    requires forall r: nat, c: nat :: r <= n && c <= n && r != i ==> At(a, r, c) == At(b, r, c)
    ensures Minor(a, i, n) == Minor(b, i, n)
  {
    forall r: nat, c: nat | r < n && c < n ensures At(Minor(a, i, n), r, c) == At(Minor(b, i, n), r, c) {
      assert At(a, Skip(i, r), c + 1) == At(b, Skip(i, r), c + 1);
    }
    Extensional(Minor(a, i, n), Minor(b, i, n), n);
  }

  lemma MinorDiffers(a: Mat, b: Mat, c: Mat, m: nat, k: real, n: nat, i: nat)
    requires m < n && i < n && i != m && RowDiffers(a, b, c, m, k, n)
    ensures RowDiffers(Minor(a, i, n - 1), Minor(b, i, n - 1), Minor(c, i, n - 1), if m < i then m else m - 1, k, n - 1)
  {
    var p, q, r := Minor(a, i, n - 1), Minor(b, i, n - 1), Minor(c, i, n - 1);
    var m' := if m < i then m else m - 1;
    forall l: nat, j: nat | l < n - 1 && j < n - 1
      ensures l != m' ==> At(p, l, j) == At(q, l, j) == At(r, l, j)
      ensures l == m' ==> At(r, l, j) == Reduce(At(p, l, j), k, At(q, l, j))
    {
      assert At(p, l, j) == At(a, Skip(i, l), j + 1) && At(q, l, j) == At(b, Skip(i, l), j + 1);
      assert At(r, l, j) == At(c, Skip(i, l), j + 1);
    }
  }

  // ---------------------------------------------------------------- exchanges

  /** Two neighbouring terms are exchanged, and all are negated. */
  lemma {:induction false} SumExchange(f: nat -> real, g: nat -> real, p: nat, n: nat)
    requires p + 1 < n && g(p) == -f(p + 1) && g(p + 1) == -f(p)
    requires forall i: nat :: i < n && i != p && i != p + 1 ==> g(i) == -f(i)
    ensures Sum(g, n) == -Sum(f, n)
  {
    if n == p + 2 {
      SumScale(f, g, -1.0, p);
      assert Sum(g, p + 1) == Sum(g, p) + g(p) && Sum(f, p + 1) == Sum(f, p) + f(p);
    } else {
      SumExchange(f, g, p, n - 1);
    }
  }

  lemma {:induction false} DetNext(a: Mat, p: nat, n: nat)
    requires p + 1 < n
    ensures Det(ExchangeRows(a, p, p + 1, n), n) == -Det(a, n)
    decreases n, 1
  {
    var b := ExchangeRows(a, p, p + 1, n);
    var f, g := Cofactor(a, n), Cofactor(b, n);
    TermMoved(a, p, p, n);
    TermMoved(a, p, p + 1, n);
    forall i: nat | i < n && i != p && i != p + 1 ensures g(i) == -f(i) {
      TermKept(a, p, i, n);
    }
    SumExchange(f, g, p, n);
  }

  lemma {:induction false} TermKept(a: Mat, p: nat, i: nat, n: nat)
    requires p + 1 < n && i < n && i != p && i != p + 1
    ensures Cofactor(ExchangeRows(a, p, p + 1, n), n)(i) == -Cofactor(a, n)(i)
    decreases n, 0
  {
    ExchangeAt(a, p, p + 1, n, i, 0);
    MinorKept(a, p, i, n - 1);
    TermNegated(a, ExchangeRows(a, p, p + 1, n), i, n);
  }

  lemma SignedNext(k: nat, x: real)
    ensures Signed(k + 1, x) == -Signed(k, x)
  {
  }

  /** The terms of the two rows exchanged change places, and their signs. */
  lemma TermMoved(a: Mat, p: nat, i: nat, n: nat)
    requires p + 1 < n && (i == p || i == p + 1)
    ensures Cofactor(ExchangeRows(a, p, p + 1, n), n)(i) == -Cofactor(a, n)(if i == p then p + 1 else p)
  {
    var i' := if i == p then p + 1 else p;
    ExchangeAt(a, p, p + 1, n, i, 0);
    MinorOfExchanged(a, p, n - 1, i);
    SignedNext(p, Times(At(a, i', 0), Det(Minor(a, i', n - 1), n - 1)));
  }

  /** The minors' determinants of the other terms change their signs, and so do the terms. */
  lemma {:induction false} MinorKept(a: Mat, p: nat, i: nat, n: nat)
    requires p < n && i <= n && i != p && i != p + 1
    ensures Det(Minor(ExchangeRows(a, p, p + 1, n + 1), i, n), n) == -Det(Minor(a, i, n), n)
    decreases n, 2
  {
    var m, q := Minor(a, i, n), if p < i then p else p - 1;
    DetNext(m, q, n);
    MinorExchanged(a, p, q, n, i);
  }

  lemma TermNegated(a: Mat, b: Mat, i: nat, n: nat)
    requires i < n && At(b, i, 0) == At(a, i, 0) && Det(Minor(b, i, n - 1), n - 1) == -Det(Minor(a, i, n - 1), n - 1)
    ensures Cofactor(b, n)(i) == -Cofactor(a, n)(i)
  {
    MinorNegated(i, At(a, i, 0), Det(Minor(a, i, n - 1), n - 1), Det(Minor(b, i, n - 1), n - 1));
  }

  lemma MinorNegated(i: nat, e: real, x: real, z: real)
    requires z == -x
    ensures Signed(i, Times(e, z)) == -Signed(i, Times(e, x))
  {
    assert e * z == -(e * x);
  }

  lemma ExchangeAt(a: Mat, p: nat, q: nat, n: nat, i: nat, j: nat)
    requires i < n && j < n
    ensures At(ExchangeRows(a, p, q, n), i, j) == At(a, Exchange(p, q, i), j)
  {
  }

  lemma MinorAt(a: Mat, i: nat, n: nat, r: nat, c: nat)
    requires r < n && c < n
    ensures At(Minor(a, i, n), r, c) == At(a, Skip(i, r), c + 1)
  {
  }

  /** One of the two rows exchanged is taken out: what is left is as without the other. */
  lemma MinorOfExchanged(a: Mat, p: nat, n: nat, i: nat)
    requires p < n && (i == p || i == p + 1)
    ensures Minor(ExchangeRows(a, p, p + 1, n + 1), i, n) == Minor(a, if i == p then p + 1 else p, n)
  {
    var b, i' := ExchangeRows(a, p, p + 1, n + 1), if i == p then p + 1 else p;
    var x, y := Minor(b, i, n), Minor(a, i', n);
    forall r: nat, c: nat | r < n && c < n ensures At(x, r, c) == At(y, r, c) {
      MinorAt(b, i, n, r, c);
      MinorAt(a, i', n, r, c);
      ExchangeAt(a, p, p + 1, n + 1, Skip(i, r), c + 1);
      assert Exchange(p, p + 1, Skip(i, r)) == Skip(i', r);
    }
    Extensional(x, y, n);
  }

  /** Another row is taken out: the two are neighbours in what is left. */
  lemma MinorExchanged(a: Mat, p: nat, q: nat, n: nat, i: nat)
    requires p < n && i <= n && if p < i then q == p && i != p + 1 else q == p - 1 && i != p
    ensures Minor(ExchangeRows(a, p, p + 1, n + 1), i, n) == ExchangeRows(Minor(a, i, n), q, q + 1, n)
  {
    var b, m := ExchangeRows(a, p, p + 1, n + 1), Minor(a, i, n);
    var x, y := Minor(b, i, n), ExchangeRows(m, q, q + 1, n);
    forall r: nat, c: nat | r < n && c < n ensures At(x, r, c) == At(y, r, c) {
      MinorAt(b, i, n, r, c);
      ExchangeAt(a, p, p + 1, n + 1, Skip(i, r), c + 1);
      ExchangeAt(m, q, q + 1, n, r, c);
      MinorAt(a, i, n, Exchange(q, q + 1, r), c);
      assert Exchange(p, p + 1, Skip(i, r)) == Skip(i, Exchange(q, q + 1, r));
    }
    Extensional(x, y, n);
  }

  /** An exchange made of three: two with the row behind the first, and one nearer by. */
  lemma ExchangeNearer(a: Mat, p: nat, q: nat, n: nat)
    requires p + 1 < q < n
    ensures ExchangeRows(ExchangeRows(ExchangeRows(a, p, p + 1, n), p + 1, q, n), p, p + 1, n)
            == ExchangeRows(a, p, q, n)
  {
    var b := ExchangeRows(a, p, p + 1, n);
    var c := ExchangeRows(b, p + 1, q, n);
    var d := ExchangeRows(c, p, p + 1, n);
    forall i: nat, j: nat | i < n && j < n ensures At(d, i, j) == At(ExchangeRows(a, p, q, n), i, j) {
      var k := Exchange(p, p + 1, i);
      ExchangeAt(c, p, p + 1, n, i, j);
      ExchangeAt(b, p + 1, q, n, k, j);
      ExchangeAt(a, p, p + 1, n, Exchange(p + 1, q, k), j);
      ExchangeAt(a, p, q, n, i, j);
    }
    Extensional(d, ExchangeRows(a, p, q, n), n);
  }

  /** Exchanging two rows changes the sign. */
  lemma {:induction false} DetExchange(a: Mat, p: nat, q: nat, n: nat)
    requires Square(a, n) && p < q < n
    ensures Det(ExchangeRows(a, p, q, n), n) == -Det(a, n)
    decreases q - p
  {
    DetNext(a, p, n);
    if q > p + 1 {
      var b := ExchangeRows(a, p, p + 1, n);
      var c := ExchangeRows(b, p + 1, q, n);
      DetExchange(b, p + 1, q, n);
      DetNext(c, p, n);
      ExchangeNearer(a, p, q, n);
    }
  }

  lemma DetEqualRows(a: Mat, p: nat, q: nat, n: nat)
    requires Square(a, n) && p < q < n && forall j: nat :: j < n ==> At(a, p, j) == At(a, q, j)
    ensures Det(a, n) == 0.0
  {
    Extensional(ExchangeRows(a, p, q, n), a, n);
    DetExchange(a, p, q, n);
  }

  /** Row m replaced by row s. */
  function WithRow(a: Mat, m: nat, s: nat, n: nat): (r: Mat)
    ensures Square(r, n)
  {
    Tabulate(n, (i: nat, j: nat) => At(a, if i == m then s else i, j))
  }

  lemma WithRowEqual(a: Mat, m: nat, s: nat, n: nat)
    requires m < n && s < n && m != s
    ensures Det(WithRow(a, m, s, n), n) == 0.0
  {
    DetEqualRows(WithRow(a, m, s, n), if m < s then m else s, if m < s then s else m, n);
  }

  lemma SubRowDiffers(a: Mat, m: nat, s: nat, c: real, n: nat)
    requires m < n && s < n && m != s
    ensures RowDiffers(a, WithRow(a, m, s, n), SubRow(a, m, s, c, n), m, c, n)
  {
  }

  /** Subtracting a multiple of another row changes nothing. */
  lemma DetSubRow(a: Mat, m: nat, s: nat, c: real, n: nat)
    requires m < n && s < n && m != s
    ensures Det(SubRow(a, m, s, c, n), n) == Det(a, n)
  {
    WithRowEqual(a, m, s, n);
    SubRowDiffers(a, m, s, c, n);
    DetLinear(a, WithRow(a, m, s, n), SubRow(a, m, s, c, n), m, c, n);
  }

  // ---------------------------------------------------------------- recorded operations

  /** The recorded operation exchanges two different rows. */
  predicate IsExchange(e: Etrans) {
    e.scale == 0.0 && e.minuend < 0 && e.subtractor < 0 && e.minuend != e.subtractor
  }

  /** A recorded row operation changes the sign when it is an exchange, and nothing else. */
  lemma DetRow(e: Etrans, a: Mat, n: nat)
    requires Square(a, n) && Fits(e, n)
    ensures Det(ApplyRow(e, a, n), n) == if IsExchange(e) then -Det(a, n) else Det(a, n)
  {
    var m, s := Line(e.minuend), Line(e.subtractor);
    if e.scale != 0.0 {
      DetSubRow(a, m, s, e.scale, n);
    } else if e.minuend < 0 && e.subtractor < 0 {
      if m == s {
        Extensional(ExchangeRows(a, m, s, n), a, n);
      } else if m < s {
        DetExchange(a, m, s, n);
      } else {
        Extensional(ExchangeRows(a, m, s, n), ExchangeRows(a, s, m, n), n);
        DetExchange(a, s, m, n);
      }
    }
  }

  // ---------------------------------------------------------------- upper triangular matrices

  function DiagonalProduct(a: Mat, k: nat): (r: real) {
    if k == 0 then 1.0 else Times(DiagonalProduct(a, k - 1), At(a, k - 1, k - 1))
  }

  lemma {:induction false} DiagonalProductMinor(a: Mat, k: nat, n: nat)
    requires k < n
    ensures DiagonalProduct(a, k + 1) == Times(At(a, 0, 0), DiagonalProduct(Minor(a, 0, n - 1), k))
  {
    var m := Minor(a, 0, n - 1);
    if k == 0 {
      assert DiagonalProduct(a, 1) == Times(DiagonalProduct(a, 0), At(a, 0, 0));
    } else {
      DiagonalProductMinor(a, k - 1, n);
      assert At(m, k - 1, k - 1) == At(a, k, k);
      TimesAssoc(At(a, 0, 0), DiagonalProduct(m, k - 1), At(a, k, k));
    }
  }

  lemma TimesAssoc(x: real, y: real, z: real)
    ensures Times(Times(x, y), z) == Times(x, Times(y, z))
  {
  }

  /** The determinant of an upper triangular matrix is the product of its diagonal. */
  lemma {:induction false} DetUpper(a: Mat, n: nat)
    requires UpperTriangular(a, n)
    ensures Det(a, n) == DiagonalProduct(a, n)
    decreases n
  {
    if n > 0 {
      var m := Minor(a, 0, n - 1);
      forall i: nat | 0 < i < n ensures Cofactor(a, n)(i) == 0.0 {
        assert Summand(a, n, i) == Signed(i, Times(0.0, Det(Minor(a, i, n - 1), n - 1)));
      }
      SumSingle(Cofactor(a, n), n, 0);
      assert Summand(a, n, 0) == Times(At(a, 0, 0), Det(m, n - 1));
      forall i: nat, j: nat | j < i < n - 1 ensures At(m, i, j) == 0.0 {
        assert At(m, i, j) == At(a, i + 1, j + 1);
      }
      DetUpper(m, n - 1);
      DiagonalProductMinor(a, n - 1, n);
    }
  }

  lemma {:induction false} DiagonalProductZero(a: Mat, k: nat)
    ensures DiagonalProduct(a, k) != 0.0 <==> forall i: nat :: i < k ==> At(a, i, i) != 0.0
  {
    if k > 0 {
      DiagonalProductZero(a, k - 1);
      assert DiagonalProduct(a, k) == DiagonalProduct(a, k - 1) * At(a, k - 1, k - 1);
    }
  }
}
