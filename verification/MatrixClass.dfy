/** A square matrix object over a flat data array, and the operations that change it in place. */
module MatrixClass {
  import opened Common
  import opened MatrixAlgebra
  import opened Elementary

  /** The matrix stored row by row in `s`. */
  function Of(s: seq<real>, n: nat): (a: Mat)
    ensures Square(a, n)
  {
    Tabulate(n, (i: nat, j: nat) => if i * n + j < |s| then s[i * n + j] else 0.0)
  }

  function Put(a: Mat, n: nat, r: nat, c: nat, v: real): (b: Mat)
    requires Square(a, n)
    ensures Square(b, n)
  {
    if r < n && c < n then a[r := a[r][c := v]] else a
  }

  lemma PutAt(a: Mat, n: nat, r: nat, c: nat, v: real)
    requires Square(a, n) && r < n && c < n
    ensures forall i: nat, j: nat :: i < n && j < n ==>
      At(Put(a, n, r, c, v), i, j) == if i == r && j == c then v else At(a, i, j)
  {
  }

  lemma IndexInside(n: nat, r: nat, c: nat)
    requires r < n && c < n
    ensures 0 <= r * n + c < n * n
  {
    RowsApart(r, n, n);
  }

  lemma IndexInjective(n: nat, r: nat, c: nat, i: nat, j: nat)
    requires c < n && j < n && i * n + j == r * n + c
    ensures i == r && j == c
  {
    if i < r { RowsApart(i, r, n); }
    if r < i { RowsApart(r, i, n); }
  }

  lemma OfAt(s: seq<real>, n: nat, r: nat, c: nat)
    requires |s| == n * n && r < n && c < n
    ensures r * n + c < |s| && At(Of(s, n), r, c) == s[r * n + c]
  {
    IndexInside(n, r, c);
  }

  lemma OfUpdateAt(s: seq<real>, n: nat, r: nat, c: nat, v: real, i: nat, j: nat)
    requires |s| == n * n && r < n && c < n && i < n && j < n && r * n + c < |s|
    ensures At(Of(s[r * n + c := v], n), i, j) == if i == r && j == c then v else At(Of(s, n), i, j)
  {
    var p, q := r * n + c, i * n + j;
    OfAt(s[p := v], n, i, j);
    OfAt(s, n, i, j);
    if q == p {
      IndexInjective(n, r, c, i, j);
    } else {
      assert s[p := v][q] == s[q];
    }
  }

  /** Writing one element of the array writes one entry of the matrix. */
  lemma OfUpdate(s: seq<real>, n: nat, r: nat, c: nat, v: real)
    requires |s| == n * n && r < n && c < n
    ensures r * n + c < |s| && Of(s[r * n + c := v], n) == Put(Of(s, n), n, r, c, v)
  {
    IndexInside(n, r, c);
    var l, p := Of(s[r * n + c := v], n), Put(Of(s, n), n, r, c, v);
    PutAt(Of(s, n), n, r, c, v);
    forall i: nat, j: nat | i < n && j < n ensures At(l, i, j) == At(p, i, j) {
      OfUpdateAt(s, n, r, c, v, i, j);
    }
    Extensional(l, p, n);
  }

  // ---------------------------------------------------------------- what the loops leave, step by step

  ghost function SubRowTo(a: Mat, m: nat, s: nat, c: real, n: nat, k: nat): (b: Mat)
    requires Square(a, n)
    ensures Square(b, n)
  {
    if k == 0 then a else
    var b := SubRowTo(a, m, s, c, n, k - 1);
    Put(b, n, m, k - 1, Reduce(At(b, m, k - 1), c, At(b, s, k - 1)))
  }

  lemma {:induction false} SubRowToAt(a: Mat, m: nat, s: nat, c: real, n: nat, k: nat)
    requires Square(a, n) && m < n && s < n && m != s && k <= n
    ensures forall i: nat, j: nat :: i < n && j < n ==>
      At(SubRowTo(a, m, s, c, n, k), i, j)
      == if i == m && j < k then Reduce(At(a, i, j), c, At(a, s, j)) else At(a, i, j)
  {
    if k > 0 {
      SubRowToAt(a, m, s, c, n, k - 1);
      var b := SubRowTo(a, m, s, c, n, k - 1);
      PutAt(b, n, m, k - 1, Reduce(At(b, m, k - 1), c, At(b, s, k - 1)));
    }
  }

  lemma SubRowDone(a: Mat, m: nat, s: nat, c: real, n: nat)
    requires Square(a, n) && m < n && s < n && m != s
    ensures SubRowTo(a, m, s, c, n, n) == SubRow(a, m, s, c, n)
  {
    SubRowToAt(a, m, s, c, n, n);
    Extensional(SubRowTo(a, m, s, c, n, n), SubRow(a, m, s, c, n), n);
  }

  ghost function SubColumnTo(a: Mat, m: nat, s: nat, c: real, n: nat, k: nat): (b: Mat)
    requires Square(a, n)
    ensures Square(b, n)
  {
    if k == 0 then a else
    var b := SubColumnTo(a, m, s, c, n, k - 1);
    Put(b, n, k - 1, m, Reduce(At(b, k - 1, m), c, At(b, k - 1, s)))
  }

  lemma {:induction false} SubColumnToAt(a: Mat, m: nat, s: nat, c: real, n: nat, k: nat)
    requires Square(a, n) && m < n && s < n && m != s && k <= n
    ensures forall i: nat, j: nat :: i < n && j < n ==>
      At(SubColumnTo(a, m, s, c, n, k), i, j)
      == if j == m && i < k then Reduce(At(a, i, j), c, At(a, i, s)) else At(a, i, j)
  {
    if k > 0 {
      SubColumnToAt(a, m, s, c, n, k - 1);
      var b := SubColumnTo(a, m, s, c, n, k - 1);
      PutAt(b, n, k - 1, m, Reduce(At(b, k - 1, m), c, At(b, k - 1, s)));
    }
  }

  lemma SubColumnDone(a: Mat, m: nat, s: nat, c: real, n: nat)
    requires Square(a, n) && m < n && s < n && m != s
    ensures SubColumnTo(a, m, s, c, n, n) == SubColumn(a, m, s, c, n)
  {
    SubColumnToAt(a, m, s, c, n, n);
    Extensional(SubColumnTo(a, m, s, c, n, n), SubColumn(a, m, s, c, n), n);
  }

  ghost function SwapRowsTo(a: Mat, p: nat, q: nat, n: nat, k: nat): (b: Mat)
    requires Square(a, n)
    ensures Square(b, n)
  {
    if k == 0 then a else
    var b := SwapRowsTo(a, p, q, n, k - 1);
    Put(Put(b, n, p, k - 1, At(b, q, k - 1)), n, q, k - 1, At(b, p, k - 1))
  }

  lemma {:induction false} SwapRowsToAt(a: Mat, p: nat, q: nat, n: nat, k: nat)
    requires Square(a, n) && p < n && q < n && k <= n
    ensures forall i: nat, j: nat :: i < n && j < n ==>
      At(SwapRowsTo(a, p, q, n, k), i, j) == if j < k then At(a, Exchange(p, q, i), j) else At(a, i, j)
  {
    if k > 0 {
      SwapRowsToAt(a, p, q, n, k - 1);
      var b := SwapRowsTo(a, p, q, n, k - 1);
      PutAt(b, n, p, k - 1, At(b, q, k - 1));
      PutAt(Put(b, n, p, k - 1, At(b, q, k - 1)), n, q, k - 1, At(b, p, k - 1));
    }
  }

  lemma SwapRowsDone(a: Mat, p: nat, q: nat, n: nat)
    requires Square(a, n) && p < n && q < n
    ensures SwapRowsTo(a, p, q, n, n) == ExchangeRows(a, p, q, n)
  {
    SwapRowsToAt(a, p, q, n, n);
    Extensional(SwapRowsTo(a, p, q, n, n), ExchangeRows(a, p, q, n), n);
  }

  ghost function SwapColumnsTo(a: Mat, p: nat, q: nat, n: nat, k: nat): (b: Mat)
    requires Square(a, n)
    ensures Square(b, n)
  {
    if k == 0 then a else
    var b := SwapColumnsTo(a, p, q, n, k - 1);
    Put(Put(b, n, k - 1, p, At(b, k - 1, q)), n, k - 1, q, At(b, k - 1, p))
  }

  lemma {:induction false} SwapColumnsToAt(a: Mat, p: nat, q: nat, n: nat, k: nat)
    requires Square(a, n) && p < n && q < n && k <= n
    ensures forall i: nat, j: nat :: i < n && j < n ==>
      At(SwapColumnsTo(a, p, q, n, k), i, j) == if i < k then At(a, i, Exchange(p, q, j)) else At(a, i, j)
  {
    if k > 0 {
      SwapColumnsToAt(a, p, q, n, k - 1);
      var b := SwapColumnsTo(a, p, q, n, k - 1);
      PutAt(b, n, k - 1, p, At(b, k - 1, q));
      PutAt(Put(b, n, k - 1, p, At(b, k - 1, q)), n, k - 1, q, At(b, k - 1, p));
    }
  }

  lemma SwapColumnsDone(a: Mat, p: nat, q: nat, n: nat)
    requires Square(a, n) && p < n && q < n
    ensures SwapColumnsTo(a, p, q, n, n) == ExchangeColumns(a, p, q, n)
  {
    SwapColumnsToAt(a, p, q, n, n);
    Extensional(SwapColumnsTo(a, p, q, n, n), ExchangeColumns(a, p, q, n), n);
  }

  /** The entries of `t` written over `a` in reading order, up to row r, column c. */
  ghost function FillTo(a: Mat, t: Mat, n: nat, r: nat, c: nat): (b: Mat)
    requires Square(a, n)
    ensures Square(b, n)
    decreases r, c
  {
    if c > 0 then Put(FillTo(a, t, n, r, c - 1), n, r, c - 1, At(t, r, c - 1))
    else if r > 0 then FillTo(a, t, n, r - 1, n)
    else a
  }

  lemma {:induction false} FillToAt(a: Mat, t: Mat, n: nat, r: nat, c: nat)
    requires Square(a, n) && c <= n
    ensures forall i: nat, j: nat :: i < n && j < n ==>
      At(FillTo(a, t, n, r, c), i, j) == if i < r || (i == r && j < c) then At(t, i, j) else At(a, i, j)
    decreases r, c
  {
    if c > 0 {
      FillToAt(a, t, n, r, c - 1);
      if r < n { PutAt(FillTo(a, t, n, r, c - 1), n, r, c - 1, At(t, r, c - 1)); }
    } else if r > 0 {
      FillToAt(a, t, n, r - 1, n);
    }
  }

  lemma FillDone(a: Mat, t: Mat, n: nat)
    requires Square(a, n) && Square(t, n)
    ensures FillTo(a, t, n, n, 0) == t
  {
    FillToAt(a, t, n, n, 0);
    Extensional(FillTo(a, t, n, n, 0), t, n);
  }

  /** Ones put on the diagonal of `a`, up to line k. */
  ghost function OnesTo(a: Mat, n: nat, k: nat): (b: Mat)
    requires Square(a, n)
    ensures Square(b, n)
  {
    if k == 0 then a else Put(OnesTo(a, n, k - 1), n, k - 1, k - 1, 1.0)
  }

  lemma {:induction false} OnesToAt(a: Mat, n: nat, k: nat)
    requires Square(a, n) && k <= n
    ensures forall i: nat, j: nat :: i < n && j < n ==>
      At(OnesTo(a, n, k), i, j) == if i == j && i < k then 1.0 else At(a, i, j)
  {
    if k > 0 {
      OnesToAt(a, n, k - 1);
      PutAt(OnesTo(a, n, k - 1), n, k - 1, k - 1, 1.0);
    }
  }

  /** The number of elements of k rows of n. */
  function Area(n: nat, k: nat): (r: nat) {
    if k == 0 then 0 else Area(n, k - 1) + n
  }

  lemma {:induction false} AreaIs(n: nat, k: nat)
    ensures Area(n, k) == k * n
  {
    if k > 0 { AreaIs(n, k - 1); }
  }

  class Matrix {
    const order: nat
    const data: array<real>

    ghost predicate Valid() { data.Length == Area(order, order) }

    ghost function Value(): (a: Mat)
      reads data
      ensures Square(a, order)
    {
      Of(data[..], order)
    }

    /** A matrix whose elements have not been set. */
    constructor (n: nat)
      ensures Valid() && order == n && fresh(data)
    {
      order := n;
      AreaIs(n, n);
      data := new real[n * n];
    }

    /** The elements stand row by row. */
    lemma RowByRow(r: nat, c: nat)
      requires Valid() && r < order && c < order
      ensures data.Length == order * order && 0 <= r * order + c < data.Length
      ensures At(Value(), r, c) == data[r * order + c]
    {
      AreaIs(order, order);
      OfAt(data[..], order, r, c);
    }

    method Get(r: nat, c: nat) returns (v: real)
      requires Valid() && r < order && c < order
      ensures v == At(Value(), r, c)
    {
      AreaIs(order, order);
      OfAt(data[..], order, r, c);
      v := data[r * order + c];
    }

    method Set(r: nat, c: nat, v: real)
      requires Valid() && r < order && c < order
      modifies data
      ensures Value() == Put(old(Value()), order, r, c, v)
    {
      AreaIs(order, order);
      OfUpdate(data[..], order, r, c, v);
      ghost var s := data[..];
      data[r * order + c] := v;
      assert data[..] == s[r * order + c := v];
    }
  }

  /** Matrix_copy. */
  method Copy(source: Matrix) returns (m: Matrix)
    requires source.Valid()
    ensures fresh(m) && fresh(m.data) && m.Valid() && m.order == source.order && m.Value() == source.Value()
  {
    m := new Matrix(source.order);
    forall i | 0 <= i < m.data.Length {
      m.data[i] := source.data[i];
    }
    assert m.data[..] == source.data[..];
  }

  function Zero(n: nat): (a: Mat)
    ensures Square(a, n)
  {
    Tabulate(n, (i: nat, j: nat) => 0.0)
  }

  lemma OnesDone(n: nat)
    ensures OnesTo(Zero(n), n, n) == One(n)
  {
    OnesToAt(Zero(n), n, n);
    Extensional(OnesTo(Zero(n), n, n), One(n), n);
  }

  lemma AllZero(s: seq<real>, n: nat)
    requires |s| == n * n && forall i :: 0 <= i < |s| ==> s[i] == 0.0
    ensures Of(s, n) == Zero(n)
  {
    forall r: nat, c: nat | r < n && c < n ensures At(Of(s, n), r, c) == At(Zero(n), r, c) {
      OfAt(s, n, r, c);
    }
    Extensional(Of(s, n), Zero(n), n);
  }

  /** M_I. */
  method Identity(n: nat) returns (m: Matrix)
    ensures fresh(m) && fresh(m.data) && m.Valid() && m.order == n && m.Value() == One(n)
  {
    m := new Matrix(n);
    for i := 0 to m.data.Length
      invariant forall k :: 0 <= k < i ==> m.data[k] == 0.0
    {
      m.data[i] := 0.0;
    }
    AreaIs(n, n);
    AllZero(m.data[..], n);
    for k := 0 to n
      invariant m.Value() == OnesTo(Zero(n), n, k)
    {
      m.Set(k, k, 1.0);
    }
    OnesDone(n);
  }

  lemma SumNext(a: Mat, b: Mat, i: nat, j: nat, k: nat, x: real, y: real)
    requires x == At(a, i, k) && y == At(b, k, j)
    ensures Sum(Term(a, b, i, j), k + 1) == Sum(Term(a, b, i, j), k) + x * y
  {
  }

  /** One entry of a product: the innermost loop of M_mul. */
  method Element(left: Matrix, right: Matrix, i: nat, j: nat) returns (temp: real)
    requires left.Valid() && right.Valid() && left.order == right.order && i < left.order && j < left.order
    ensures temp == At(Mul(left.Value(), right.Value(), left.order), i, j)
  {
    ghost var a, b := left.Value(), right.Value();
    temp := 0.0;
    for k := 0 to left.order
      invariant temp == Sum(Term(a, b, i, j), k)
    {
      var x := left.Get(i, k);
      var y := right.Get(k, j);
      SumNext(a, b, i, j, k, x, y);
      temp := temp + x * y;
    }
    MulAt(a, b, left.order, i, j);
  }

  /** One row of a product. */
  method MultiplyRow(left: Matrix, right: Matrix, m: Matrix, i: nat, ghost z: Mat)
    requires left.Valid() && right.Valid() && m.Valid() && left.order == right.order == m.order && i < m.order
    requires m.data != left.data && m.data != right.data && Square(z, m.order)
    requires m.Value() == FillTo(z, Mul(left.Value(), right.Value(), m.order), m.order, i, 0)
    modifies m.data
    ensures m.Value() == FillTo(z, Mul(left.Value(), right.Value(), m.order), m.order, i + 1, 0)
  {
    ghost var t, n := Mul(left.Value(), right.Value(), m.order), m.order;
    for j := 0 to m.order
      invariant t == Mul(left.Value(), right.Value(), n) && m.Value() == FillTo(z, t, n, i, j)
    {
      var temp := Element(left, right, i, j);
      m.Set(i, j, temp);
    }
  }

  /** M_mul; None where the orders do not fit. */
  method Multiply(left: Matrix, right: Matrix) returns (r: Option<Matrix>)
    requires left.Valid() && right.Valid()
    ensures r.Some? <==> left.order == right.order
    ensures r.Some? ==> fresh(r.value) && fresh(r.value.data) && r.value.Valid() && r.value.order == left.order
                        && r.value.Value() == Mul(left.Value(), right.Value(), left.order)
  {
    if left.order != right.order { return None; }
    var n := left.order;
    var m := new Matrix(n);
    ghost var t, z := Mul(left.Value(), right.Value(), n), m.Value();
    for i := 0 to n
      invariant left.Value() == old(left.Value()) && right.Value() == old(right.Value())
      invariant m.Value() == FillTo(z, t, n, i, 0)
    {
      MultiplyRow(left, right, m, i, z);
    }
    FillDone(z, t, n);
    r := Some(m);
  }

  /** M_Swap on two rows or two columns, 1-based; false, and nothing done, where a line does not exist. */
  method Swap(m: Matrix, line1: nat, line2: nat, setting: Setting) returns (ok: bool)
    requires m.Valid() && 1 <= line1 && 1 <= line2
    modifies m.data
    ensures ok <==> line1 <= m.order && line2 <= m.order
    ensures !ok ==> m.Value() == old(m.Value())
    ensures ok && setting == Row ==> m.Value() == ExchangeRows(old(m.Value()), line1 - 1, line2 - 1, m.order)
    ensures ok && setting == Column ==> m.Value() == ExchangeColumns(old(m.Value()), line1 - 1, line2 - 1, m.order)
  {
    ok := line1 - 1 < m.order && line2 - 1 < m.order;
    if ok {
      if setting == Row {
        SwapRows(m, line1 - 1, line2 - 1);
      } else {
        SwapColumns(m, line1 - 1, line2 - 1);
      }
    }
  }

  method SwapEntries(m: Matrix, i: nat, j: nat, k: nat, l: nat)
    requires m.Valid() && i < m.order && j < m.order && k < m.order && l < m.order
    modifies m.data
    ensures var a := old(m.Value());
      m.Value() == Put(Put(a, m.order, i, j, At(a, k, l)), m.order, k, l, At(a, i, j))
  {
    var temp := m.Get(i, j);
    var other := m.Get(k, l);
    m.Set(i, j, other);
    m.Set(k, l, temp);
  }

  method SwapRows(m: Matrix, p: nat, q: nat)
    requires m.Valid() && p < m.order && q < m.order
    modifies m.data
    ensures m.Value() == ExchangeRows(old(m.Value()), p, q, m.order)
  {
    var n := m.order;
    ghost var a := m.Value();
    for i := 0 to n
      invariant m.Value() == SwapRowsTo(a, p, q, n, i)
    {
      SwapEntries(m, p, i, q, i);
    }
    SwapRowsDone(a, p, q, n);
  }

  method SwapColumns(m: Matrix, p: nat, q: nat)
    requires m.Valid() && p < m.order && q < m.order
    modifies m.data
    ensures m.Value() == ExchangeColumns(old(m.Value()), p, q, m.order)
  {
    var n := m.order;
    ghost var a := m.Value();
    for i := 0 to n
      invariant m.Value() == SwapColumnsTo(a, p, q, n, i)
    {
      SwapEntries(m, i, p, i, q);
    }
    SwapColumnsDone(a, p, q, n);
  }

  method SubtractEntry(m: Matrix, i: nat, j: nat, k: nat, l: nat, scale: real)
    requires m.Valid() && i < m.order && j < m.order && k < m.order && l < m.order
    modifies m.data
    ensures var a := old(m.Value()); m.Value() == Put(a, m.order, i, j, Reduce(At(a, i, j), scale, At(a, k, l)))
  {
    var x := m.Get(i, j);
    var y := m.Get(k, l);
    m.Set(i, j, Reduce(x, scale, y));
  }

  method SubtractRow(m: Matrix, minuend: nat, subtractor: nat, scale: real)
    requires m.Valid() && minuend < m.order && subtractor < m.order && minuend != subtractor
    modifies m.data
    ensures m.Value() == SubRow(old(m.Value()), minuend, subtractor, scale, m.order)
  {
    var n := m.order;
    ghost var a := m.Value();
    for i := 0 to n
      invariant m.Value() == SubRowTo(a, minuend, subtractor, scale, n, i)
    {
      SubtractEntry(m, minuend, i, subtractor, i, scale);
    }
    SubRowDone(a, minuend, subtractor, scale, n);
  }

  method SubtractColumn(m: Matrix, minuend: nat, subtractor: nat, scale: real)
    requires m.Valid() && minuend < m.order && subtractor < m.order && minuend != subtractor
    modifies m.data
    ensures m.Value() == SubColumn(old(m.Value()), minuend, subtractor, scale, m.order)
  {
    var n := m.order;
    ghost var a := m.Value();
    for i := 0 to n
      invariant m.Value() == SubColumnTo(a, minuend, subtractor, scale, n, i)
    {
      SubtractEntry(m, i, minuend, i, subtractor, scale);
    }
    SubColumnDone(a, minuend, subtractor, scale, n);
  }

  /** The row operation: a subtraction, an exchange, or nothing. */
  method RowTransform(m: Matrix, e: Etrans)
    requires m.Valid() && Fits(e, m.order)
    modifies m.data
    ensures m.Value() == ApplyRow(e, old(m.Value()), m.order)
  {
    if e.scale != 0.0 {
      SubtractRow(m, e.minuend - 1, e.subtractor - 1, e.scale);
    } else if e.minuend < 0 && e.subtractor < 0 {
      var ok := Swap(m, -e.minuend, -e.subtractor, Row);
    }
  }

  method ColumnTransform(m: Matrix, e: Etrans)
    requires m.Valid() && Fits(e, m.order)
    modifies m.data
    ensures m.Value() == ApplyColumn(e, old(m.Value()), m.order)
  {
    if e.scale != 0.0 {
      SubtractColumn(m, e.minuend - 1, e.subtractor - 1, e.scale);
    } else if e.minuend < 0 && e.subtractor < 0 {
      var ok := Swap(m, -e.minuend, -e.subtractor, Column);
    }
  }

  /** M_E_trans: one recorded operation, in place. */
  method ElementaryTransform(m: Matrix, e: Etrans, setting: Setting)
    requires m.Valid() && Fits(e, m.order)
    modifies m.data
    ensures m.Value() == Apply(setting, e, old(m.Value()), m.order)
  {
    if setting == Row { RowTransform(m, e); } else { ColumnTransform(m, e); }
  }
}
