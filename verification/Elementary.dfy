/** Recorded elementary row and column operations, and what replaying them does. */
module Elementary {
  import opened MatrixAlgebra

  datatype Setting = Row | Column

  /** `minuend -= scale * subtractor` on 1-based lines when `scale` is not 0; an exchange of the two
      lines when both are negative; nothing otherwise. */
  datatype Etrans = Etrans(minuend: int, subtractor: int, scale: real)

  predicate Fits(e: Etrans, n: nat) {
    if e.scale != 0.0 then 1 <= e.minuend <= n && 1 <= e.subtractor <= n && e.minuend != e.subtractor
    else e.minuend < 0 && e.subtractor < 0 ==> 0 <= e.minuend + n && 0 <= e.subtractor + n
  }

  predicate AllFit(ops: seq<Etrans>, n: nat) {
    forall i :: 0 <= i < |ops| ==> Fits(ops[i], n)
  }

  /** The 0-based line of a 1-based or negated one. */
  function Line(x: int): (r: nat) {
    if x >= 1 then x - 1 else if x <= -1 then -x - 1 else 0
  }

  function Exchange(p: nat, q: nat, i: nat): (r: nat) {
    if i == p then q else if i == q then p else i
  }

  function Reduce(x: real, c: real, y: real): (r: real) { x - c * y }

  function SubRow(a: Mat, m: nat, s: nat, c: real, n: nat): (r: Mat)
    ensures Square(r, n)
  {
    Tabulate(n, (i: nat, j: nat) => if i == m then Reduce(At(a, i, j), c, At(a, s, j)) else At(a, i, j))
  }

  function SubColumn(a: Mat, m: nat, s: nat, c: real, n: nat): (r: Mat)
    ensures Square(r, n)
  {
    Tabulate(n, (i: nat, j: nat) => if j == m then Reduce(At(a, i, j), c, At(a, i, s)) else At(a, i, j))
  }

  function ExchangeRows(a: Mat, p: nat, q: nat, n: nat): (r: Mat)
    ensures Square(r, n)
  {
    Tabulate(n, (i: nat, j: nat) => At(a, Exchange(p, q, i), j))
  }

  function ExchangeColumns(a: Mat, p: nat, q: nat, n: nat): (r: Mat)
    ensures Square(r, n)
  {
    Tabulate(n, (i: nat, j: nat) => At(a, i, Exchange(p, q, j)))
  }

  function ApplyRow(e: Etrans, a: Mat, n: nat): (r: Mat)
    requires Square(a, n)
    ensures Square(r, n)
  {
    var m, s := Line(e.minuend), Line(e.subtractor);
    if e.scale != 0.0 then SubRow(a, m, s, e.scale, n)
    else if e.minuend < 0 && e.subtractor < 0 then ExchangeRows(a, m, s, n)
    else a
  }

  function ApplyColumn(e: Etrans, a: Mat, n: nat): (r: Mat)
    requires Square(a, n)
    ensures Square(r, n)
  {
    var m, s := Line(e.minuend), Line(e.subtractor);
    if e.scale != 0.0 then SubColumn(a, m, s, e.scale, n)
    else if e.minuend < 0 && e.subtractor < 0 then ExchangeColumns(a, m, s, n)
    else a
  }

  function Apply(setting: Setting, e: Etrans, a: Mat, n: nat): (r: Mat)
    requires Square(a, n)
    ensures Square(r, n)
  {
    match setting case Row => ApplyRow(e, a, n) case Column => ApplyColumn(e, a, n)
  }

  /** What the operation does to an entry: the scaled entry of the other line is subtracted in the first line, whose
      numbers count from 1, or the two lines of negative numbers are exchanged. */
  lemma OperationAt(e: Etrans, a: Mat, n: nat, i: nat, j: nat)
    requires Square(a, n) && Fits(e, n) && i < n && j < n
    ensures e.scale != 0.0 ==>
      && At(ApplyRow(e, a, n), i, j)
         == At(a, i, j) - (if i + 1 == e.minuend then e.scale * At(a, e.subtractor - 1, j) else 0.0)
      && At(ApplyColumn(e, a, n), i, j)
         == At(a, i, j) - (if j + 1 == e.minuend then e.scale * At(a, i, e.subtractor - 1) else 0.0)
    ensures e.scale == 0.0 && e.minuend < 0 && e.subtractor < 0 ==>
      var p, q := -e.minuend - 1, -e.subtractor - 1;
      && At(ApplyRow(e, a, n), i, j) == At(a, if i == p then q else if i == q then p else i, j)
      && At(ApplyColumn(e, a, n), i, j) == At(a, i, if j == p then q else if j == q then p else j)
    ensures e.scale == 0.0 && !(e.minuend < 0 && e.subtractor < 0) ==> ApplyRow(e, a, n) == ApplyColumn(e, a, n) == a
  {
    if e.scale == 0.0 && e.minuend < 0 && e.subtractor < 0 {
      var p, q := Line(e.minuend), Line(e.subtractor);
      assert At(ApplyRow(e, a, n), i, j) == At(a, Exchange(p, q, i), j);
      assert At(ApplyColumn(e, a, n), i, j) == At(a, i, Exchange(p, q, j));
    }
  }

  /** The operation with its scale negated. */
  function Opposite(e: Etrans): (r: Etrans) { e.(scale := -e.scale) }

  lemma Cancel(x: real, y: real, c: real)
    ensures (x - c * y) - (-c) * y == x
  {
  }

  lemma SubRowUndone(a: Mat, m: nat, s: nat, c: real, n: nat)
    requires Square(a, n) && m < n && s < n && m != s
    ensures SubRow(SubRow(a, m, s, c, n), m, s, -c, n) == a
  {
    var r := SubRow(SubRow(a, m, s, c, n), m, s, -c, n);
    forall i: nat, j: nat | i < n && j < n ensures At(r, i, j) == At(a, i, j) {
      Cancel(At(a, m, j), At(a, s, j), c);
    }
    Extensional(r, a, n);
  }

  lemma SubColumnUndone(a: Mat, m: nat, s: nat, c: real, n: nat)
    requires Square(a, n) && m < n && s < n && m != s
    ensures SubColumn(SubColumn(a, m, s, c, n), m, s, -c, n) == a
  {
    var r := SubColumn(SubColumn(a, m, s, c, n), m, s, -c, n);
    forall i: nat, j: nat | i < n && j < n ensures At(r, i, j) == At(a, i, j) {
      Cancel(At(a, i, m), At(a, i, s), c);
    }
    Extensional(r, a, n);
  }

  lemma ExchangeUndone(a: Mat, p: nat, q: nat, n: nat)
    requires Square(a, n) && p < n && q < n
    ensures ExchangeRows(ExchangeRows(a, p, q, n), p, q, n) == a
    ensures ExchangeColumns(ExchangeColumns(a, p, q, n), p, q, n) == a
  {
    Extensional(ExchangeRows(ExchangeRows(a, p, q, n), p, q, n), a, n);
    Extensional(ExchangeColumns(ExchangeColumns(a, p, q, n), p, q, n), a, n);
  }

  /** The operation with its scale negated takes the operation back. */
  lemma OppositeUndoes(setting: Setting, e: Etrans, a: Mat, n: nat)
    requires Square(a, n) && Fits(e, n)
    ensures Apply(setting, Opposite(e), Apply(setting, e, a, n), n) == a
  {
    var m, s := Line(e.minuend), Line(e.subtractor);
    if e.scale != 0.0 {
      if setting == Row { SubRowUndone(a, m, s, e.scale, n); } else { SubColumnUndone(a, m, s, e.scale, n); }
    } else if e.minuend < 0 && e.subtractor < 0 {
      ExchangeUndone(a, m, s, n);
    }
  }

  lemma OppositeRedoes(setting: Setting, e: Etrans, a: Mat, n: nat)
    requires Square(a, n) && Fits(e, n)
    ensures Apply(setting, e, Apply(setting, Opposite(e), a, n), n) == a
  {
    assert Opposite(Opposite(e)) == e;
    OppositeUndoes(setting, Opposite(e), a, n);
  }

  lemma Distribute(x: real, y: real, c: real, z: real)
    ensures (x - c * y) * z == x * z - c * (y * z)
  {
  }

  /** A sum of products, one factor of which is a difference. */
  lemma SumDistributes(u: nat -> real, v: nat -> real, w: nat -> real, t: nat -> real, f: nat -> real, g: nat -> real,
                       c: real, n: nat)
    requires forall k: nat :: k < n ==> t(k) == (u(k) - c * v(k)) * w(k) && f(k) == u(k) * w(k) && g(k) == v(k) * w(k)
    ensures Sum(t, n) == Sum(f, n) - c * Sum(g, n)
  {
    forall k: nat | k < n ensures t(k) == f(k) - c * g(k) {
      Distribute(u(k), v(k), c, w(k));
    }
    SumMinus(f, g, t, c, n);
  }

  lemma SubRowSum(x: Mat, y: Mat, m: nat, s: nat, c: real, n: nat, j: nat)
    requires Square(x, n) && Square(y, n) && m < n && s < n && j < n
    ensures Sum(Term(SubRow(x, m, s, c, n), y, m, j), n) == Sum(Term(x, y, m, j), n) - c * Sum(Term(x, y, s, j), n)
  {
    SumDistributes((k: nat) => At(x, m, k), (k: nat) => At(x, s, k), (k: nat) => At(y, k, j),
                   Term(SubRow(x, m, s, c, n), y, m, j), Term(x, y, m, j), Term(x, y, s, j), c, n);
  }

  lemma SubRowOfProductAt(x: Mat, y: Mat, m: nat, s: nat, c: real, n: nat, i: nat, j: nat)
    requires Square(x, n) && Square(y, n) && m < n && s < n && i < n && j < n
    ensures At(SubRow(Mul(x, y, n), m, s, c, n), i, j) == At(Mul(SubRow(x, m, s, c, n), y, n), i, j)
  {
    if i == m {
      SubRowSum(x, y, m, s, c, n, j);
    } else {
      SumAgrees(Term(SubRow(x, m, s, c, n), y, i, j), Term(x, y, i, j), n);
    }
  }

  lemma SubRowOfProduct(x: Mat, y: Mat, m: nat, s: nat, c: real, n: nat)
    requires Square(x, n) && Square(y, n) && m < n && s < n
    ensures SubRow(Mul(x, y, n), m, s, c, n) == Mul(SubRow(x, m, s, c, n), y, n)
  {
    var l, r := SubRow(Mul(x, y, n), m, s, c, n), Mul(SubRow(x, m, s, c, n), y, n);
    forall i: nat, j: nat | i < n && j < n ensures At(l, i, j) == At(r, i, j) {
      SubRowOfProductAt(x, y, m, s, c, n, i, j);
    }
    Extensional(l, r, n);
  }

  lemma SubColumnSum(x: Mat, y: Mat, m: nat, s: nat, c: real, n: nat, i: nat)
    requires Square(x, n) && Square(y, n) && m < n && s < n && i < n
    ensures Sum(Term(x, SubColumn(y, m, s, c, n), i, m), n) == Sum(Term(x, y, i, m), n) - c * Sum(Term(x, y, i, s), n)
  {
    SumDistributes((k: nat) => At(y, k, m), (k: nat) => At(y, k, s), (k: nat) => At(x, i, k),
                   Term(x, SubColumn(y, m, s, c, n), i, m), Term(x, y, i, m), Term(x, y, i, s), c, n);
  }

  lemma SubColumnOfProductAt(x: Mat, y: Mat, m: nat, s: nat, c: real, n: nat, i: nat, j: nat)
    requires Square(x, n) && Square(y, n) && m < n && s < n && i < n && j < n
    ensures At(SubColumn(Mul(x, y, n), m, s, c, n), i, j) == At(Mul(x, SubColumn(y, m, s, c, n), n), i, j)
  {
    if j == m {
      SubColumnSum(x, y, m, s, c, n, i);
    } else {
      SumAgrees(Term(x, SubColumn(y, m, s, c, n), i, j), Term(x, y, i, j), n);
    }
  }

  lemma SubColumnOfProduct(x: Mat, y: Mat, m: nat, s: nat, c: real, n: nat)
    requires Square(x, n) && Square(y, n) && m < n && s < n
    ensures SubColumn(Mul(x, y, n), m, s, c, n) == Mul(x, SubColumn(y, m, s, c, n), n)
  {
    var l, r := SubColumn(Mul(x, y, n), m, s, c, n), Mul(x, SubColumn(y, m, s, c, n), n);
    forall i: nat, j: nat | i < n && j < n ensures At(l, i, j) == At(r, i, j) {
      SubColumnOfProductAt(x, y, m, s, c, n, i, j);
    }
    Extensional(l, r, n);
  }

  lemma ExchangeRowsOfProduct(x: Mat, y: Mat, p: nat, q: nat, n: nat)
    requires Square(x, n) && Square(y, n) && p < n && q < n
    ensures ExchangeRows(Mul(x, y, n), p, q, n) == Mul(ExchangeRows(x, p, q, n), y, n)
  {
    var x' := ExchangeRows(x, p, q, n);
    forall i: nat, j: nat | i < n && j < n
      ensures At(ExchangeRows(Mul(x, y, n), p, q, n), i, j) == At(Mul(x', y, n), i, j)
    {
      SumAgrees(Term(x', y, i, j), Term(x, y, Exchange(p, q, i), j), n);
    }
    Extensional(ExchangeRows(Mul(x, y, n), p, q, n), Mul(x', y, n), n);
  }

  lemma ExchangeColumnsOfProduct(x: Mat, y: Mat, p: nat, q: nat, n: nat)
    requires Square(x, n) && Square(y, n) && p < n && q < n
    ensures ExchangeColumns(Mul(x, y, n), p, q, n) == Mul(x, ExchangeColumns(y, p, q, n), n)
  {
    var y' := ExchangeColumns(y, p, q, n);
    forall i: nat, j: nat | i < n && j < n
      ensures At(ExchangeColumns(Mul(x, y, n), p, q, n), i, j) == At(Mul(x, y', n), i, j)
    {
      SumAgrees(Term(x, y', i, j), Term(x, y, i, Exchange(p, q, j)), n);
    }
    Extensional(ExchangeColumns(Mul(x, y, n), p, q, n), Mul(x, y', n), n);
  }

  /** Row operations act on the left factor of a product, column operations on the right one. */
  lemma RowOfProduct(e: Etrans, x: Mat, y: Mat, n: nat)
    requires Square(x, n) && Square(y, n) && Fits(e, n)
    ensures ApplyRow(e, Mul(x, y, n), n) == Mul(ApplyRow(e, x, n), y, n)
  {
    var m, s := Line(e.minuend), Line(e.subtractor);
    if e.scale != 0.0 {
      SubRowOfProduct(x, y, m, s, e.scale, n);
    } else if e.minuend < 0 && e.subtractor < 0 {
      ExchangeRowsOfProduct(x, y, m, s, n);
    }
  }

  lemma ColumnOfProduct(e: Etrans, x: Mat, y: Mat, n: nat)
    requires Square(x, n) && Square(y, n) && Fits(e, n)
    ensures ApplyColumn(e, Mul(x, y, n), n) == Mul(x, ApplyColumn(e, y, n), n)
  {
    var m, s := Line(e.minuend), Line(e.subtractor);
    if e.scale != 0.0 {
      SubColumnOfProduct(x, y, m, s, e.scale, n);
    } else if e.minuend < 0 && e.subtractor < 0 {
      ExchangeColumnsOfProduct(x, y, m, s, n);
    }
  }

  // ---------------------------------------------------------------- replaying a list

  /** The first k operations, in order. */
  function Replay(setting: Setting, ops: seq<Etrans>, k: nat, a: Mat, n: nat): (r: Mat)
    requires k <= |ops| && Square(a, n)
    ensures Square(r, n)
  {
    if k == 0 then a else Apply(setting, ops[k - 1], Replay(setting, ops, k - 1, a, n), n)
  }

  /** The opposites of the operations from the last one down to operation k. */
  function Unwind(setting: Setting, ops: seq<Etrans>, k: nat, a: Mat, n: nat): (r: Mat)
    requires k <= |ops| && Square(a, n)
    ensures Square(r, n)
    decreases |ops| - k
  {
    if k == |ops| then a else Apply(setting, Opposite(ops[k]), Unwind(setting, ops, k + 1, a, n), n)
  }

  lemma {:induction false} ReplayAppend(setting: Setting, ops: seq<Etrans>, e: Etrans, k: nat, a: Mat, n: nat)
    requires k <= |ops| && Square(a, n)
    ensures Replay(setting, ops + [e], k, a, n) == Replay(setting, ops, k, a, n)
  {
    if k > 0 { ReplayAppend(setting, ops, e, k - 1, a, n); }
  }

  lemma {:induction false} UnwindReplay(setting: Setting, ops: seq<Etrans>, k: nat, a: Mat, n: nat)
    requires k <= |ops| && Square(a, n) && AllFit(ops, n)
    ensures Unwind(setting, ops, k, Replay(setting, ops, |ops|, a, n), n) == Replay(setting, ops, k, a, n)
    decreases |ops| - k
  {
    if k < |ops| {
      UnwindReplay(setting, ops, k + 1, a, n);
      var e, r := ops[k], Replay(setting, ops, k, a, n);
      OppositeUndoes(setting, e, r, n);
      assert Replay(setting, ops, k + 1, a, n) == Apply(setting, e, r, n);
    }
  }

  lemma {:induction false} ReplayUnwind(setting: Setting, ops: seq<Etrans>, k: nat, a: Mat, n: nat)
    requires k <= |ops| && Square(a, n) && AllFit(ops, n)
    ensures Replay(setting, ops, k, Unwind(setting, ops, 0, a, n), n) == Unwind(setting, ops, k, a, n)
  {
    if k > 0 {
      ReplayUnwind(setting, ops, k - 1, a, n);
      OppositeRedoes(setting, ops[k - 1], Unwind(setting, ops, k, a, n), n);
    }
  }

  lemma {:induction false} ReplayRowProduct(ops: seq<Etrans>, k: nat, x: Mat, y: Mat, n: nat)
    requires k <= |ops| && Square(x, n) && Square(y, n) && AllFit(ops, n)
    ensures Replay(Row, ops, k, Mul(x, y, n), n) == Mul(Replay(Row, ops, k, x, n), y, n)
  {
    if k > 0 {
      ReplayRowProduct(ops, k - 1, x, y, n);
      RowOfProduct(ops[k - 1], Replay(Row, ops, k - 1, x, n), y, n);
    }
  }

  lemma {:induction false} UnwindRowProduct(ops: seq<Etrans>, k: nat, x: Mat, y: Mat, n: nat)
    requires k <= |ops| && Square(x, n) && Square(y, n) && AllFit(ops, n)
    ensures Unwind(Row, ops, k, Mul(x, y, n), n) == Mul(Unwind(Row, ops, k, x, n), y, n)
    decreases |ops| - k
  {
    if k < |ops| {
      UnwindRowProduct(ops, k + 1, x, y, n);
      RowOfProduct(Opposite(ops[k]), Unwind(Row, ops, k + 1, x, n), y, n);
    }
  }

  lemma {:induction false} ReplayColumnProduct(ops: seq<Etrans>, k: nat, x: Mat, y: Mat, n: nat)
    requires k <= |ops| && Square(x, n) && Square(y, n) && AllFit(ops, n)
    ensures Replay(Column, ops, k, Mul(x, y, n), n) == Mul(x, Replay(Column, ops, k, y, n), n)
  {
    if k > 0 {
      ReplayColumnProduct(ops, k - 1, x, y, n);
      ColumnOfProduct(ops[k - 1], x, Replay(Column, ops, k - 1, y, n), n);
    }
  }

  lemma {:induction false} UnwindColumnProduct(ops: seq<Etrans>, k: nat, x: Mat, y: Mat, n: nat)
    requires k <= |ops| && Square(x, n) && Square(y, n) && AllFit(ops, n)
    ensures Unwind(Column, ops, k, Mul(x, y, n), n) == Mul(x, Unwind(Column, ops, k, y, n), n)
    decreases |ops| - k
  {
    if k < |ops| {
      UnwindColumnProduct(ops, k + 1, x, y, n);
      ColumnOfProduct(Opposite(ops[k]), x, Unwind(Column, ops, k + 1, y, n), n);
    }
  }

  /** The matrices that Etrans_2_Inverse and Etrans_2_Matrix build from a list. */
  function Forward(setting: Setting, ops: seq<Etrans>, n: nat): (r: Mat)
    ensures Square(r, n)
  {
    Replay(setting, ops, |ops|, One(n), n)
  }

  function Backward(setting: Setting, ops: seq<Etrans>, n: nat): (r: Mat)
    ensures Square(r, n)
  {
    Unwind(setting, ops, 0, One(n), n)
  }

  /** They are inverse to each other. */
  lemma ForwardBackward(setting: Setting, ops: seq<Etrans>, n: nat)
    requires AllFit(ops, n)
    ensures Inverses(Forward(setting, ops, n), Backward(setting, ops, n), n)
  {
    var i, f, b := One(n), Forward(setting, ops, n), Backward(setting, ops, n);
    UnwindReplay(setting, ops, 0, i, n);
    ReplayUnwind(setting, ops, |ops|, i, n);
    OneLeft(f, n);
    OneLeft(b, n);
    OneRight(f, n);
    OneRight(b, n);
    if setting == Row {
      ReplayRowProduct(ops, |ops|, i, b, n);
      UnwindRowProduct(ops, 0, i, f, n);
    } else {
      ReplayColumnProduct(ops, |ops|, b, i, n);
      UnwindColumnProduct(ops, 0, f, i, n);
    }
  }

  /** Replaying row operations is multiplying from the left, and the backward matrix restores. */
  lemma RowReplayIsProduct(ops: seq<Etrans>, a: Mat, n: nat)
    requires AllFit(ops, n) && Square(a, n)
    ensures Mul(Forward(Row, ops, n), a, n) == Replay(Row, ops, |ops|, a, n)
    ensures Mul(Backward(Row, ops, n), Replay(Row, ops, |ops|, a, n), n) == a
  {
    var u := Replay(Row, ops, |ops|, a, n);
    OneLeft(a, n);
    OneLeft(u, n);
    ReplayRowProduct(ops, |ops|, One(n), a, n);
    UnwindRowProduct(ops, 0, One(n), u, n);
    UnwindReplay(Row, ops, 0, a, n);
  }

  lemma ColumnReplayIsProduct(ops: seq<Etrans>, a: Mat, n: nat)
    requires AllFit(ops, n) && Square(a, n)
    ensures Mul(a, Forward(Column, ops, n), n) == Replay(Column, ops, |ops|, a, n)
    ensures Mul(Replay(Column, ops, |ops|, a, n), Backward(Column, ops, n), n) == a
  {
    var d := Replay(Column, ops, |ops|, a, n);
    OneRight(a, n);
    OneRight(d, n);
    ReplayColumnProduct(ops, |ops|, a, One(n), n);
    UnwindColumnProduct(ops, 0, d, One(n), n);
    UnwindReplay(Column, ops, 0, a, n);
  }
}
