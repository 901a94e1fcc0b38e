/** Triangularisation with recorded operations, and the inverse and determinant built on it. */
module Elimination {
  import opened Common
  import opened MatrixAlgebra
  import opened Elementary
  import opened MatrixClass
  import opened Determinants

  // ---------------------------------------------------------------- one step of elimination

  /** The first i columns are zero below the diagonal. */
  ghost predicate ColumnsDone(a: Mat, i: nat, n: nat) {
    Square(a, n) && forall r: nat, c: nat :: c < i && c < r < n ==> At(a, r, c) == 0.0
  }

  /** ... and so is column i down to row j, its pivot not being zero. */
  ghost predicate ColumnPartly(a: Mat, i: nat, j: nat, n: nat) {
    ColumnsDone(a, i, n) && forall r: nat :: i < r < j && r < n ==> At(a, r, i) == 0.0
  }

  /** The two matrices have the same first k pivots. */
  ghost predicate SamePivots(a: Mat, b: Mat, k: nat) {
    forall r: nat :: r < k ==> At(a, r, r) == At(b, r, r)
  }

  /** Column c is zero from the diagonal down. */
  ghost predicate NoPivot(a: Mat, c: nat, n: nat) {
    forall r: nat :: c <= r < n ==> At(a, r, c) == 0.0
  }

  /** Every column but the last is zero from the diagonal down: there is nothing to eliminate with. */
  ghost predicate Unpivoted(a: Mat, n: nat) {
    forall c: nat :: c + 1 < n ==> NoPivot(a, c, n)
  }

  lemma Eliminates(x: real, p: real)
    requires p != 0.0
    ensures Reduce(x, x / p, p) == 0.0
  {
  }

  lemma TakesZero(x: real, c: real)
    ensures Reduce(x, c, 0.0) == x
  {
  }

  /** The row operation that eliminates entry (j, i). */
  function RowElimination(a: Mat, i: nat, j: nat): (r: Etrans)
    requires At(a, i, i) != 0.0
  {
    Etrans(j + 1, i + 1, At(a, j, i) / At(a, i, i))
  }

  lemma RowStep(a: Mat, i: nat, j: nat, n: nat)
    requires ColumnPartly(a, i, j, n) && i < j < n && At(a, i, i) != 0.0
    ensures Fits(RowElimination(a, i, j), n)
    ensures ColumnPartly(ApplyRow(RowElimination(a, i, j), a, n), i, j + 1, n)
    ensures SamePivots(ApplyRow(RowElimination(a, i, j), a, n), a, i + 1)
  {
    var e := RowElimination(a, i, j);
    var b := ApplyRow(e, a, n);
    Eliminates(At(a, j, i), At(a, i, i));
    if e.scale == 0.0 {
      assert At(a, j, i) == 0.0 by { assert Reduce(At(a, j, i), 0.0, At(a, i, i)) == 0.0; }
    } else {
      forall r: nat, c: nat | c < i && c < r < n ensures At(b, r, c) == 0.0 {
        TakesZero(At(a, r, c), e.scale);
      }
    }
  }

  /** The exchange of rows i and k. */
  function RowExchange(i: nat, k: nat): (r: Etrans) {
    Etrans(-(i + 1), -(k + 1), 0.0)
  }

  lemma ExchangeStep(a: Mat, i: nat, k: nat, n: nat)
    requires ColumnsDone(a, i, n) && i < k < n
    ensures Fits(RowExchange(i, k), n) && ColumnsDone(ApplyRow(RowExchange(i, k), a, n), i, n)
    ensures At(ApplyRow(RowExchange(i, k), a, n), i, i) == At(a, k, i)
    ensures SamePivots(ApplyRow(RowExchange(i, k), a, n), a, i)
  {
    var b := ApplyRow(RowExchange(i, k), a, n);
    assert b == ExchangeRows(a, i, k, n);
    forall r: nat, c: nat | c < i && c < r < n ensures At(b, r, c) == 0.0 {
      assert At(b, r, c) == At(a, Exchange(i, k, r), c);
    }
    assert At(b, i, i) == At(a, Exchange(i, k, i), i);
    forall r: nat | r < i ensures At(b, r, r) == At(a, r, r) {
      assert At(b, r, r) == At(a, Exchange(i, k, r), r);
    }
  }

  /** The first k entries of the diagonal are zero. */
  ghost predicate ZeroPivots(a: Mat, k: int) {
    forall r: nat :: r < k ==> At(a, r, r) == 0.0
  }

  // ---------------------------------------------------------------- what becomes of a column

  /** The first row from k on with a nonzero entry in column i, or n when there is none. */
  ghost function FirstBelow(a: Mat, i: nat, k: nat, n: nat): (r: nat)
    requires k <= n
    ensures k <= r <= n && (r < n ==> At(a, r, i) != 0.0)
    decreases n - k
  {
    if k == n || At(a, k, i) != 0.0 then k else FirstBelow(a, i, k + 1, n)
  }

  /** Column i is eliminated below its pivot down to, but not including, row j. */
  ghost function Eliminated(a: Mat, i: nat, j: nat, n: nat): (r: Mat)
    requires Square(a, n) && i < n && j <= n && At(a, i, i) != 0.0
    ensures Square(r, n) && At(r, i, i) == At(a, i, i)
    decreases j, 0
  {
    if j <= i + 1 then a else RowEliminated(a, i, j - 1, n)
  }

  /** ... and row j is, too. */
  ghost function RowEliminated(a: Mat, i: nat, j: nat, n: nat): (r: Mat)
    requires Square(a, n) && i < j < n && At(a, i, i) != 0.0
    ensures Square(r, n) && At(r, i, i) == At(a, i, i)
    decreases j, 1
  {
    var b := Eliminated(a, i, j, n);
    ApplyRow(RowElimination(b, i, j), b, n)
  }

  /** The pivot of column i is zero, and there is an entry to bring up into it. */
  ghost predicate Swapped(a: Mat, i: nat, n: nat)
    requires i < n
  {
    At(a, i, i) == 0.0 && FirstBelow(a, i, i + 1, n) < n
  }

  /** What one turn of the loop over the columns leaves. */
  ghost function Cleared(a: Mat, i: nat, n: nat): (r: Mat)
    requires Square(a, n) && i < n
    ensures Square(r, n)
  {
    if At(a, i, i) != 0.0 then Eliminated(a, i, n, n)
    else if Swapped(a, i, n) then ApplyRow(RowExchange(i, FirstBelow(a, i, i + 1, n)), a, n)
    else a
  }

  lemma {:induction false} EliminatedDone(a: Mat, i: nat, j: nat, n: nat)
    requires ColumnsDone(a, i, n) && i < j <= n && At(a, i, i) != 0.0
    ensures ColumnPartly(Eliminated(a, i, j, n), i, j, n) && SamePivots(Eliminated(a, i, j, n), a, i + 1)
  {
    if j > i + 1 {
      EliminatedDone(a, i, j - 1, n);
      RowStep(Eliminated(a, i, j - 1, n), i, j - 1, n);
    }
  }

  lemma {:induction false} NothingBelow(a: Mat, i: nat, k: nat, n: nat)
    requires k <= n && FirstBelow(a, i, k, n) == n
    ensures forall r: nat :: k <= r < n ==> At(a, r, i) == 0.0
    decreases n - k
  {
    if k < n { NothingBelow(a, i, k + 1, n); }
  }

  /** The turn finishes the column, or brings a nonzero entry up into its pivot, which was zero; earlier columns
      and pivots stay as they are. */
  lemma ClearedDone(a: Mat, i: nat, n: nat)
    requires ColumnsDone(a, i, n) && i < n
    ensures var b := Cleared(a, i, n);
      && SamePivots(b, a, if At(a, i, i) != 0.0 then i + 1 else i)
      && (if Swapped(a, i, n) then ColumnsDone(b, i, n) && At(b, i, i) != 0.0 else ColumnsDone(b, i + 1, n))
      && (NoPivot(a, i, n) ==> b == a)
  {
    if At(a, i, i) != 0.0 {
      EliminatedDone(a, i, n, n);
    } else if Swapped(a, i, n) {
      ExchangeStep(a, i, FirstBelow(a, i, i + 1, n), n);
    } else {
      NothingBelow(a, i, i + 1, n);
    }
  }

  /** How often rows are exchanged from column i on. */
  ghost function Swaps(a: Mat, i: nat, n: nat): (r: nat)
    requires Square(a, n)
    decreases n - i, 1
  {
    if i >= n then 0 else SwapsIn(a, i, n)
  }

  ghost function SwapsIn(a: Mat, i: nat, n: nat): (r: nat)
    requires Square(a, n) && i < n
    decreases n - i, 0
  {
    if Swapped(a, i, n) then 1 + Swaps(Cleared(Cleared(a, i, n), i, n), i + 1, n)
    else Swaps(Cleared(a, i, n), i + 1, n)
  }

  lemma {:induction false} EliminatedDet(a: Mat, i: nat, j: nat, n: nat)
    requires Square(a, n) && i < n && j <= n && At(a, i, i) != 0.0
    ensures Det(Eliminated(a, i, j, n), n) == Det(a, n)
  {
    if j > i + 1 {
      EliminatedDet(a, i, j - 1, n);
      var b := Eliminated(a, i, j - 1, n);
      DetRow(RowElimination(b, i, j - 1), b, n);
      assert Eliminated(a, i, j, n) == RowEliminated(a, i, j - 1, n);
    }
  }

  /** One turn negates the determinant exactly when it exchanges rows. */
  lemma ClearedFinal(a: Mat, i: nat, n: nat)
    requires ColumnsDone(a, i, n) && i < n
    ensures Final(Cleared(a, i, n), if Swapped(a, i, n) then i else i + 1, n) == Final(a, i, n)
  {
    var b := Cleared(a, i, n);
    assert Swaps(a, i, n) == SwapsIn(a, i, n) && Swaps(b, i, n) == SwapsIn(b, i, n);
    if At(a, i, i) != 0.0 {
      EliminatedDet(a, i, n, n);
    } else if Swapped(a, i, n) {
      DetRow(RowExchange(i, FirstBelow(a, i, i + 1, n)), a, n);
      ClearedDone(a, i, n);
      SignedNext(Swaps(b, i, n), Det(b, n));
    }
  }

  // ---------------------------------------------------------------- upper triangular form

  predicate Whole(ops: seq<Etrans>, k: nat) { k == |ops| }

  /** The operations recorded so far turn `was` into what the matrix now is. */
  ghost predicate Records(setting: Setting, ops: seq<Etrans>, was: Mat, now: Mat, n: nat) {
    && Square(was, n) && Square(now, n) && AllFit(ops, n)
    && forall k: nat {:trigger Whole(ops, k)} :: Whole(ops, k) ==> now == Replay(setting, ops, k, was, n)
  }

  lemma Recorded(setting: Setting, ops: seq<Etrans>, was: Mat, now: Mat, n: nat)
    requires Records(setting, ops, was, now, n)
    ensures now == Replay(setting, ops, |ops|, was, n)
  {
    assert Whole(ops, |ops|);
  }

  lemma Record(setting: Setting, ops: seq<Etrans>, e: Etrans, was: Mat, now: Mat, n: nat)
    requires Records(setting, ops, was, now, n) && Fits(e, n)
    ensures Square(now, n) && Records(setting, ops + [e], was, Apply(setting, e, now, n), n)
  {
    Recorded(setting, ops, was, now, n);
    ReplayAppend(setting, ops, e, |ops|, was, n);
  }

  /** Row k > i with a nonzero entry in column i, or n when there is none. */
  method FindPivot(m: Matrix, i: nat) returns (k: nat)
    requires m.Valid() && i < m.order
    ensures i < k <= m.order
    ensures forall r: nat :: i < r < k ==> At(m.Value(), r, i) == 0.0
    ensures k == FirstBelow(m.Value(), i, i + 1, m.order)
  {
    k := i + 1;
    while k < m.order
      invariant i < k <= m.order && forall r: nat :: i < r < k ==> At(m.Value(), r, i) == 0.0
      invariant FirstBelow(m.Value(), i, i + 1, m.order) == FirstBelow(m.Value(), i, k, m.order)
    {
      var x := m.Get(k, i);
      if x != 0.0 { break; }
      k := k + 1;
    }
  }

  method Perform(m: Matrix, e: Etrans, setting: Setting, ops: seq<Etrans>, ghost was: Mat) returns (ops': seq<Etrans>)
    requires m.Valid() && Fits(e, m.order) && Records(setting, ops, was, m.Value(), m.order)
    modifies m.data
    ensures ops' == ops + [e] && m.Value() == Apply(setting, e, old(m.Value()), m.order)
    ensures Records(setting, ops', was, m.Value(), m.order)
  {
    Record(setting, ops, e, was, m.Value(), m.order);
    ElementaryTransform(m, e, setting);
    ops' := ops + [e];
  }

  /** Eliminate the entry in row j of column i. */
  method EliminateEntry(m: Matrix, i: nat, j: nat, ops: seq<Etrans>, ghost was: Mat, ghost a: Mat)
      returns (ops': seq<Etrans>)
    requires m.Valid() && Records(Row, ops, was, m.Value(), m.order)
    requires Square(a, m.order) && i < j < m.order && At(a, i, i) != 0.0 && m.Value() == Eliminated(a, i, j, m.order)
    modifies m.data
    ensures Records(Row, ops', was, m.Value(), m.order) && |ops'| == |ops| + 1
    ensures m.Value() == RowEliminated(a, i, j, m.order)
  {
    var pivot := m.Get(i, i);
    var x := m.Get(j, i);
    ops' := Perform(m, Etrans(j + 1, i + 1, x / pivot), Row, ops, was);
  }

  /** Bring the entry in row k up into the pivot of column i. */
  method ExchangePivot(m: Matrix, i: nat, k: nat, ops: seq<Etrans>, ghost was: Mat) returns (ops': seq<Etrans>)
    requires m.Valid() && Records(Row, ops, was, m.Value(), m.order) && i < k < m.order
    modifies m.data
    ensures Records(Row, ops', was, m.Value(), m.order) && |ops'| == |ops| + 1
    ensures m.Value() == ApplyRow(RowExchange(i, k), old(m.Value()), m.order)
  {
    ops' := Perform(m, Etrans(-(i + 1), -(k + 1), 0.0), Row, ops, was);
  }

  /** The column is untouched, or eliminated so far. */
  ghost predicate Started(now: Mat, a: Mat, i: nat, j: nat, n: nat) {
    Square(a, n) && i < j <= n && if At(a, i, i) != 0.0 then now == Eliminated(a, i, j, n) else j == i + 1 && now == a
  }

  /** The loop's body for row j: eliminates the entry unless the pivot is zero, which it can be only for the
      first row. */
  method ClearEntry(m: Matrix, i: nat, j: nat, ops0: seq<Etrans>, ghost was: Mat, ghost a: Mat)
      returns (ops: seq<Etrans>, flag: int)
    requires m.Valid() && j < m.order && Records(Row, ops0, was, m.Value(), m.order)
    requires Started(m.Value(), a, i, j, m.order)
    modifies m.data
    ensures Records(Row, ops, was, m.Value(), m.order) && |ops| == |ops0| + if flag == 1 then 0 else 1
    ensures if flag == 0 then Started(m.Value(), a, i, j + 1, m.order) else m.Value() == Cleared(a, i, m.order)
    ensures flag == 0 <==> At(a, i, i) != 0.0
    ensures flag == 2 <==> Swapped(a, i, m.order)
    ensures flag == 1 <==> NoPivot(a, i, m.order)
  {
    var pivot := m.Get(i, i);
    if pivot != 0.0 {
      ops := EliminateEntry(m, i, j, ops0, was, a);
      return ops, 0;
    }
    var k := FindPivot(m, i);
    if k == m.order { return ops0, 1; }
    ops := ExchangePivot(m, i, k, ops0, was);
    return ops, 2;
  }

  /** The loop over the rows below pivot i. `flag` is 2 after an exchange, 1 when the column has no
      nonzero entry from the pivot down, and 0 when it has been eliminated. */
  method ClearColumn(m: Matrix, i: nat, ops0: seq<Etrans>, ghost was: Mat) returns (ops: seq<Etrans>, flag: int)
    requires m.Valid() && i < m.order && Records(Row, ops0, was, m.Value(), m.order)
    modifies m.data
    ensures Records(Row, ops, was, m.Value(), m.order)
    ensures m.Value() == Cleared(old(m.Value()), i, m.order) && (flag == 2 <==> Swapped(old(m.Value()), i, m.order))
    ensures |ops| >= |ops0| && (|ops| > |ops0| <==> i + 1 < m.order && !NoPivot(old(m.Value()), i, m.order))
  {
    ghost var a := m.Value();
    var j := i + 1;
    ops, flag := ops0, 0;
    while j < m.order
      invariant i < j <= m.order && flag == 0 && Records(Row, ops, was, m.Value(), m.order)
      invariant Started(m.Value(), a, i, j, m.order)
      invariant |ops| == |ops0| + (j - i - 1)
    {
      ops, flag := ClearEntry(m, i, j, ops, was, a);
      if flag != 0 { break; }
      j := j + 1;
    }
  }

  /** Before column i: nothing recorded and no pivot found, or a pivot p before the last. */
  ghost predicate FirstPivot(was: Mat, now: Mat, ops: seq<Etrans>, i: nat, p: nat, n: nat) {
    if ops == [] then now == was && ZeroPivots(was, if i < n then i else n - 1)
    else p + 1 < n && p <= i && At(now, p, p) != 0.0 && !Unpivoted(was, n)
  }

  /** The determinant of the triangular matrix that the columns from i on will lead to. */
  ghost function Final(a: Mat, i: nat, n: nat): (r: real)
    requires Square(a, n)
  {
    Signed(Swaps(a, i, n), Det(a, n))
  }

  /** The column was finished, or its pivot is no longer zero and it is tried again. */
  method TryColumn(m: Matrix, i: nat, ops0: seq<Etrans>, ghost was: Mat, ghost p0: nat)
      returns (ops: seq<Etrans>, flag: int, ghost p: nat)
    requires m.Valid() && i < m.order && Records(Row, ops0, was, m.Value(), m.order)
    requires ColumnsDone(m.Value(), i, m.order) && FirstPivot(was, m.Value(), ops0, i, p0, m.order)
    modifies m.data
    ensures Records(Row, ops, was, m.Value(), m.order)
    ensures flag == 2 ==> At(old(m.Value()), i, i) == 0.0 && At(m.Value(), i, i) != 0.0
    ensures var i' := if flag == 2 then i else i + 1;
      && ColumnsDone(m.Value(), i', m.order) && FirstPivot(was, m.Value(), ops, i', p, m.order)
      && Final(m.Value(), i', m.order) == Final(old(m.Value()), i, m.order)
  {
    ClearedDone(m.Value(), i, m.order);
    ClearedFinal(m.Value(), i, m.order);
    ops, flag := ClearColumn(m, i, ops0, was);
    p := if ops0 == [] then i else p0;
  }

  /** The elimination of M_Uptri_ and M_Uptri_4inv. A column whose pivot was exchanged is tried
      again (`i = i - 1` before the loop's increment), which happens at most once. */
  method Triangularise(m: Matrix) returns (ops: seq<Etrans>)
    requires m.Valid()
    modifies m.data
    ensures Records(Row, ops, old(m.Value()), m.Value(), m.order)
    ensures UpperTriangular(m.Value(), m.order)
    ensures ops == [] <==> Unpivoted(old(m.Value()), m.order)
    ensures ops == [] <==> ZeroPivots(m.Value(), m.order - 1)
    ensures Det(m.Value(), m.order) == Signed(Swaps(old(m.Value()), 0, m.order), Det(old(m.Value()), m.order))
  {
    var n := m.order;
    ghost var was := m.Value();
    ops := [];
    var i: int := 0;
    ghost var p: nat, untried := 0, true;
    while i < n
      invariant 0 <= i <= n && Records(Row, ops, was, m.Value(), n) && ColumnsDone(m.Value(), i, n)
      invariant FirstPivot(was, m.Value(), ops, i, p, n) && Final(m.Value(), i, n) == Final(was, 0, n)
      invariant untried || (i < n && At(m.Value(), i, i) != 0.0)
      decreases n - i, untried
    {
      var flag;
      ops, flag, p := TryColumn(m, i, ops, was, p);
      untried := flag != 2;
      if flag == 2 {
        i := i - 1;
      }
      i := i + 1;
    }
  }

  // ---------------------------------------------------------------- diagonal form

  /** Upper triangular; of the rows above i those with a nonzero pivot are zero off the diagonal, and row
      i is from the diagonal up to column j. */
  ghost predicate RowPartly(a: Mat, i: nat, j: nat, n: nat) {
    && UpperTriangular(a, n)
    && (forall r: nat, c: nat :: r < i && r < n && r < c < n && At(a, r, r) != 0.0 ==> At(a, r, c) == 0.0)
    && (forall c: nat :: i < c < j && c < n && i < n ==> At(a, i, c) == 0.0)
  }

  /** The column operation that eliminates entry (i, j). */
  function ColumnElimination(a: Mat, i: nat, j: nat): (r: Etrans)
    requires At(a, i, i) != 0.0
  {
    Etrans(j + 1, i + 1, At(a, i, j) / At(a, i, i))
  }

  lemma ColumnStep(a: Mat, i: nat, j: nat, n: nat)
    requires RowPartly(a, i, j, n) && i < j < n && At(a, i, i) != 0.0
    ensures Fits(ColumnElimination(a, i, j), n)
    ensures RowPartly(ApplyColumn(ColumnElimination(a, i, j), a, n), i, j + 1, n)
    ensures SamePivots(ApplyColumn(ColumnElimination(a, i, j), a, n), a, n)
  {
    var e := ColumnElimination(a, i, j);
    var b := ApplyColumn(e, a, n);
    Eliminates(At(a, i, j), At(a, i, i));
    if e.scale == 0.0 {
      assert At(a, i, j) == 0.0 by { assert Reduce(At(a, i, j), 0.0, At(a, i, i)) == 0.0; }
    } else {
      forall r: nat | r < n && r != i && (r > i || At(a, r, r) != 0.0) ensures At(b, r, j) == At(a, r, j) {
        assert At(a, r, i) == 0.0;
        TakesZero(At(a, r, j), e.scale);
      }
    }
  }

  /** Without zero pivots, diagonal form is reached when every row is done. */
  lemma RowsDoneIsDiagonal(a: Mat, n: nat)
    requires RowPartly(a, n, n + 1, n) && NonzeroDiagonal(a, n)
    ensures Diagonal(a, n)
  {
  }

  lemma NextRow(a: Mat, i: nat, n: nat)
    requires i < n && (RowPartly(a, i, n, n) || (RowPartly(a, i, i + 1, n) && At(a, i, i) == 0.0))
    ensures RowPartly(a, i + 1, i + 2, n)
  {
  }

  /** Eliminate the entry in column j of row i. */
  method EliminateAcross(m: Matrix, i: nat, j: nat, ops: seq<Etrans>, ghost was: Mat) returns (ops': seq<Etrans>)
    requires m.Valid() && Records(Column, ops, was, m.Value(), m.order)
    requires i < j < m.order && RowPartly(m.Value(), i, j, m.order) && At(m.Value(), i, i) != 0.0
    modifies m.data
    ensures Records(Column, ops', was, m.Value(), m.order) && |ops'| == |ops| + 1
    ensures RowPartly(m.Value(), i, j + 1, m.order) && SamePivots(m.Value(), old(m.Value()), m.order)
  {
    var pivot := m.Get(i, i);
    var x := m.Get(i, j);
    ColumnStep(m.Value(), i, j, m.order);
    ops' := Perform(m, Etrans(j + 1, i + 1, x / pivot), Column, ops, was);
  }

  /** The loop over the columns right of pivot i. A zero pivot ends it: the search below the pivot finds
      only zeros, so no exchange is ever made. */
  method ClearRow(m: Matrix, i: nat, ops0: seq<Etrans>, ghost was: Mat) returns (ops: seq<Etrans>)
    requires m.Valid() && i < m.order && Records(Column, ops0, was, m.Value(), m.order)
    requires RowPartly(m.Value(), i, i + 1, m.order)
    modifies m.data
    ensures Records(Column, ops, was, m.Value(), m.order) && |ops0| <= |ops|
    ensures RowPartly(m.Value(), i + 1, i + 2, m.order) && SamePivots(m.Value(), old(m.Value()), m.order)
    ensures |ops| == |ops0| <==> i + 1 == m.order || At(m.Value(), i, i) == 0.0
  {
    ops := ops0;
    ghost var a := m.Value();
    for j := i + 1 to m.order
      invariant Records(Column, ops, was, m.Value(), m.order) && RowPartly(m.Value(), i, j, m.order)
      invariant SamePivots(m.Value(), a, m.order) && |ops| == |ops0| + j - i - 1
      invariant j > i + 1 ==> At(m.Value(), i, i) != 0.0
    {
      var pivot := m.Get(i, i);
      if pivot == 0.0 {
        var k := FindPivot(m, i);
        assert k == m.order;
        break;
      }
      ops := EliminateAcross(m, i, j, ops, was);
    }
    NextRow(m.Value(), i, m.order);
  }

  /** The loop of M_Lowtri_4inv on what its only caller gives it, an upper triangular matrix: it stops,
      leaves the diagonal alone, and makes the matrix diagonal where no pivot is zero. */
  method Diagonalise(m: Matrix) returns (ops: seq<Etrans>)
    requires m.Valid() && UpperTriangular(m.Value(), m.order)
    modifies m.data
    ensures Records(Column, ops, old(m.Value()), m.Value(), m.order)
    ensures UpperTriangular(m.Value(), m.order) && SamePivots(m.Value(), old(m.Value()), m.order)
    ensures NonzeroDiagonal(m.Value(), m.order) ==> Diagonal(m.Value(), m.order)
    ensures ops == [] <==> ZeroPivots(m.Value(), m.order - 1)
  {
    ghost var was := m.Value();
    ops := [];
    for i := 0 to m.order
      invariant Records(Column, ops, was, m.Value(), m.order) && RowPartly(m.Value(), i, i + 1, m.order)
      invariant SamePivots(m.Value(), was, m.order)
      invariant ops == [] <==> ZeroPivots(m.Value(), if i < m.order then i else m.order - 1)
    {
      ops := ClearRow(m, i, ops, was);
    }
    if NonzeroDiagonal(m.Value(), m.order) { RowsDoneIsDiagonal(m.Value(), m.order); }
  }

  // ---------------------------------------------------------------- transform matrices

  /** Etrans_2_Inverse: replay the list on the unit matrix. Its do-while looks at the first
      operation before anything else, so there must be one. */
  method ReplayOnUnit(ops: seq<Etrans>, n: nat, setting: Setting) returns (t: Matrix)
    requires ops != [] && AllFit(ops, n)
    ensures fresh(t) && fresh(t.data) && t.Valid() && t.order == n && t.Value() == Forward(setting, ops, n)
  {
    t := Identity(n);
    for k := 0 to |ops|
      invariant t.Value() == Replay(setting, ops, k, One(n), n)
    {
      ElementaryTransform(t, ops[k], setting);
    }
  }

  lemma OppositeFits(ops: seq<Etrans>, k: nat, n: nat)
    requires AllFit(ops, n) && k < |ops|
    ensures Fits(Opposite(ops[k]), n)
  {
  }

  /** One operation further back. */
  method UnwindStep(t: Matrix, ops: seq<Etrans>, k: nat, n: nat, setting: Setting)
    requires AllFit(ops, n) && t.Valid() && t.order == n && k < |ops|
    requires t.Value() == Unwind(setting, ops, k + 1, One(n), n)
    modifies t.data
    ensures t.Value() == Unwind(setting, ops, k, One(n), n)
  {
    OppositeFits(ops, k, n);
    ElementaryTransform(t, Opposite(ops[k]), setting);
  }

  /** Etrans_2_Matrix: replay the opposites on the unit matrix, last operation first. */
  method UnwindOnUnit(ops: seq<Etrans>, n: nat, setting: Setting) returns (t: Matrix)
    requires AllFit(ops, n)
    ensures fresh(t) && fresh(t.data) && t.Valid() && t.order == n && t.Value() == Backward(setting, ops, n)
  {
    t := Identity(n);
    var k := |ops|;
    while k > 0
      invariant 0 <= k <= |ops| && t.Value() == Unwind(setting, ops, k, One(n), n)
    {
      k := k - 1;
      UnwindStep(t, ops, k, n, setting);
    }
  }

  /** M_Uptri_: any square matrix, singular or not, is the product of the transform matrix and an
      upper triangular one. */
  method UpperTriangularise(source: Matrix) returns (trans: Matrix, upper: Matrix, ghost t: Mat)
    requires source.Valid()
    ensures fresh(trans) && fresh(upper) && trans.Valid() && upper.Valid()
    ensures trans.order == upper.order == source.order
    ensures UpperTriangular(upper.Value(), source.order)
    ensures Mul(trans.Value(), upper.Value(), source.order) == source.Value()
    ensures Inverses(t, trans.Value(), source.order) && Mul(t, source.Value(), source.order) == upper.Value()
    ensures Det(upper.Value(), source.order)
            == Signed(Swaps(source.Value(), 0, source.order), Det(source.Value(), source.order))
  {
    upper := Copy(source);
    var ops := Triangularise(upper);
    Recorded(Row, ops, source.Value(), upper.Value(), source.order);
    trans := UnwindOnUnit(ops, source.order, Row);
    t := Forward(Row, ops, source.order);
    RowReplayIsProduct(ops, source.Value(), source.order);
    ForwardBackward(Row, ops, source.order);
  }

  // ---------------------------------------------------------------- the parts of the inverse

  /** With T A = U and U S = D, all of T, S and D invertible, S D' T is the inverse of A. */
  lemma InverseFromParts(a: Mat, t: Mat, t': Mat, u: Mat, s: Mat, s': Mat, d: Mat, d': Mat, n: nat)
    requires Square(a, n) && Square(u, n)
    requires Inverses(t, t', n) && Inverses(s, s', n) && Inverses(d, d', n)
    requires Mul(t, a, n) == u && Mul(t', u, n) == a
    requires Mul(u, s, n) == d && Mul(d, s', n) == u
    ensures Inverses(Mul(Mul(s, d', n), t, n), a, n)
  {
    var sd := Mul(s, d', n);
    var r := Mul(sd, t, n);
    calc {
      Mul(r, a, n);
      { MulAssoc(sd, t, a, n); }
      Mul(sd, u, n);
      { MulAssoc(s, d', u, n); }
      Mul(s, Mul(d', Mul(d, s', n), n), n);
      { MulAssoc(d', d, s', n); OneLeft(s', n); }
      One(n);
    }
    calc {
      Mul(a, r, n);
      { MulAssoc(t', u, r, n); }
      Mul(t', Mul(u, r, n), n);
      { MulAssoc(u, sd, t, n); }
      Mul(t', Mul(Mul(u, sd, n), t, n), n);
      { MulAssoc(u, s, d', n); OneLeft(t, n); }
      One(n);
    }
  }

  /** Row operations keep a left inverse in reach, so they cannot produce a zero on the diagonal. */
  lemma InvertibleGivesPivots(a: Mat, t: Mat, t': Mat, u: Mat, n: nat)
    requires Invertible(a, n) && Inverses(t, t', n) && Mul(t, a, n) == u && UpperTriangular(u, n)
    ensures NonzeroDiagonal(u, n)
  {
    var b :| Inverses(a, b, n);
    var l := Mul(b, t', n);
    calc {
      Mul(l, u, n);
      { MulAssoc(b, t', Mul(t, a, n), n); }
      Mul(b, Mul(t', Mul(t, a, n), n), n);
      { MulAssoc(t', t, a, n); OneLeft(a, n); }
      One(n);
    }
    LeftInverseOfUpper(l, u, n, n);
  }

  /** The loop of M_Dia_Inv, ended where it would divide by zero. */
  method InvertEntry(m: Matrix, i: nat) returns (ok: bool)
    requires m.Valid() && i < m.order
    modifies m.data
    ensures ok <==> At(old(m.Value()), i, i) != 0.0
    ensures ok ==> m.Value() == Put(old(m.Value()), m.order, i, i, 1.0 / At(old(m.Value()), i, i))
  {
    var x := m.Get(i, i);
    if x == 0.0 { return false; }
    m.Set(i, i, 1.0 / x);
    ok := true;
  }

  method InvertEntries(m: Matrix) returns (ok: bool)
    requires m.Valid()
    modifies m.data
    ensures ok <==> NonzeroDiagonal(old(m.Value()), m.order)
    ensures ok ==> m.Value() == InvertTo(old(m.Value()), m.order, m.order)
  {
    ghost var a, n := m.Value(), m.order;
    for i := 0 to m.order
      invariant (forall k: nat :: k < i ==> At(a, k, k) != 0.0) && m.Value() == InvertTo(a, n, i)
    {
      InvertToAt(a, n, i);
      ok := InvertEntry(m, i);
      if !ok { return; }
    }
    ok := true;
  }

  /** M_Dia_Inv, or None where it divides by zero. */
  method InvertDiagonal(source: Matrix) returns (r: Option<Matrix>)
    requires source.Valid()
    ensures r.Some? <==> NonzeroDiagonal(source.Value(), source.order)
    ensures r.Some? ==> fresh(r.value) && fresh(r.value.data) && r.value.Valid() && r.value.order == source.order
                        && r.value.Value() == DiagonalInverse(source.Value(), source.order)
  {
    var m := Copy(source);
    ghost var a, n := m.Value(), source.order;
    var ok := InvertEntries(m);
    if !ok { return None; }
    InvertToAt(a, n, n);
    Extensional(m.Value(), DiagonalInverse(a, n), n);
    r := Some(m);
  }

  ghost function InvertTo(a: Mat, n: nat, k: nat): (b: Mat)
    requires Square(a, n) && k <= n && forall r: nat :: r < k ==> At(a, r, r) != 0.0
    ensures Square(b, n)
  {
    if k == 0 then a else Put(InvertTo(a, n, k - 1), n, k - 1, k - 1, 1.0 / At(a, k - 1, k - 1))
  }

  lemma {:induction false} InvertToAt(a: Mat, n: nat, k: nat)
    requires Square(a, n) && k <= n && forall r: nat :: r < k ==> At(a, r, r) != 0.0
    ensures forall i: nat, j: nat :: i < n && j < n ==>
      At(InvertTo(a, n, k), i, j) == if i == j && i < k then 1.0 / At(a, i, i) else At(a, i, j)
  {
    if k > 0 {
      InvertToAt(a, n, k - 1);
      PutAt(InvertTo(a, n, k - 1), n, k - 1, k - 1, 1.0 / At(a, k - 1, k - 1));
    }
  }

  // ---------------------------------------------------------------- invertible matrices

  /** Column elimination shows that an upper triangular matrix without zero pivots is invertible. */
  lemma {:induction false} PivotsGiveInvertible(u: Mat, i: nat, j: nat, n: nat)
    requires RowPartly(u, i, j, n) && NonzeroDiagonal(u, n) && i <= n && i < j <= n + 1 && (i < n ==> j <= n)
    ensures Invertible(u, n)
    decreases n - i, n + 1 - j
  {
    if i == n {
      RowsDoneIsDiagonal(u, n);
      DiagonalInverts(u, n);
    } else if j == n {
      NextRow(u, i, n);
      PivotsGiveInvertible(u, i + 1, i + 2, n);
    } else {
      var e := ColumnElimination(u, i, j);
      ColumnStep(u, i, j, n);
      var d := ApplyColumn(e, u, n);
      PivotsGiveInvertible(d, i, j + 1, n);
      UndoneColumnInvertible(u, e, n);
    }
  }

  lemma UndoneColumnInvertible(u: Mat, e: Etrans, n: nat)
    requires Square(u, n) && Fits(e, n) && Invertible(ApplyColumn(e, u, n), n)
    ensures Invertible(u, n)
  {
    var d := ApplyColumn(e, u, n);
    var d' :| Inverses(d, d', n);
    var s, s' := Forward(Column, [e], n), Backward(Column, [e], n);
    assert Replay(Column, [e], 1, u, n) == d;
    ColumnReplayIsProduct([e], u, n);
    ForwardBackward(Column, [e], n);
    ProductInvertible(d, d', s', s, n);
  }

  lemma ProductInvertible(a: Mat, a': Mat, b: Mat, b': Mat, n: nat)
    requires Inverses(a, a', n) && Inverses(b, b', n)
    ensures Inverses(Mul(a, b, n), Mul(b', a', n), n)
  {
    calc {
      Mul(Mul(a, b, n), Mul(b', a', n), n);
      { MulAssoc(a, b, Mul(b', a', n), n); MulAssoc(b, b', a', n); OneLeft(a', n); }
      One(n);
    }
    calc {
      Mul(Mul(b', a', n), Mul(a, b, n), n);
      { MulAssoc(b', a', Mul(a, b, n), n); MulAssoc(a', a, b, n); OneLeft(b, n); }
      One(n);
    }
  }

  /** A product of two matrices, the left one invertible, is invertible exactly when the right one is. */
  lemma TransformKeepsInvertible(t: Mat, t': Mat, u: Mat, a: Mat, n: nat)
    requires Inverses(t, t', n) && Mul(t, a, n) == u && Square(a, n) && UpperTriangular(u, n)
    ensures Invertible(a, n) <==> NonzeroDiagonal(u, n)
  {
    if Invertible(a, n) {
      InvertibleGivesPivots(a, t, t', u, n);
    }
    if NonzeroDiagonal(u, n) {
      PivotsGiveInvertible(u, 0, 1, n);
      var u' :| Inverses(u, u', n);
      ProductInvertible(t', t, u, u', n);
      calc {
        Mul(t', u, n);
        { MulAssoc(t', t, a, n); OneLeft(a, n); }
        a;
      }
    }
  }

  // ---------------------------------------------------------------- the inverse

  /** The transform matrix of a list, or None for the empty one, whose head the code follows regardless. */
  method TransformMatrix(ops: seq<Etrans>, n: nat, setting: Setting) returns (t: Option<Matrix>)
    requires AllFit(ops, n)
    ensures t.None? <==> ops == []
    ensures t.Some? ==> fresh(t.value) && t.value.Valid() && t.value.order == n
                        && t.value.Value() == Forward(setting, ops, n)
  {
    if ops == [] { return None; }
    var m := ReplayOnUnit(ops, n, setting);
    t := Some(m);
  }

  /** M_Uptri_4inv on any square matrix: T A = U with T invertible. There is no T in memory where no
      operation has been recorded, which is when A has nothing to eliminate with. */
  method UpperForInverse(m: Matrix) returns (t: Option<Matrix>, upper: Matrix, ghost left: Mat, ghost left': Mat)
    requires m.Valid()
    ensures t.Some? ==> fresh(t.value) && t.value.Valid() && t.value.order == m.order
                        && t.value.Value() == left
    ensures t.None? <==> Unpivoted(m.Value(), m.order)
    ensures t.None? <==> ZeroPivots(upper.Value(), m.order - 1)
    ensures fresh(upper) && upper.Valid() && upper.order == m.order
    ensures UpperTriangular(upper.Value(), m.order) && Inverses(left, left', m.order)
    ensures Mul(left, m.Value(), m.order) == upper.Value() && Mul(left', upper.Value(), m.order) == m.Value()
  {
    var n := m.order;
    upper := Copy(m);
    var ops := Triangularise(upper);
    Recorded(Row, ops, m.Value(), upper.Value(), n);
    left, left' := Forward(Row, ops, n), Backward(Row, ops, n);
    RowReplayIsProduct(ops, m.Value(), n);
    ForwardBackward(Row, ops, n);
    t := TransformMatrix(ops, n, Row);
  }

  /** M_Lowtri_4inv on such a U: U S = D with S invertible, the same diagonal, and D diagonal where that
      has no zero. There is no S in memory where all pivots but perhaps the last are zero. */
  method DiagonalForInverse(upper: Matrix)
    returns (s: Option<Matrix>, diagonal: Matrix, ghost right: Mat, ghost right': Mat)
    requires upper.Valid() && UpperTriangular(upper.Value(), upper.order)
    ensures s.Some? ==> fresh(s.value) && s.value.Valid() && s.value.order == upper.order
                        && s.value.Value() == right
    ensures s.None? <==> ZeroPivots(upper.Value(), upper.order - 1)
    ensures fresh(diagonal) && diagonal.Valid() && diagonal.order == upper.order
    ensures SamePivots(diagonal.Value(), upper.Value(), upper.order)
    ensures NonzeroDiagonal(upper.Value(), upper.order) ==> Diagonal(diagonal.Value(), upper.order)
    ensures Inverses(right, right', upper.order) && Mul(upper.Value(), right, upper.order) == diagonal.Value()
    ensures Mul(diagonal.Value(), right', upper.order) == upper.Value()
  {
    var n := upper.order;
    diagonal := Copy(upper);
    var ops := Diagonalise(diagonal);
    Recorded(Column, ops, upper.Value(), diagonal.Value(), n);
    right, right' := Forward(Column, ops, n), Backward(Column, ops, n);
    ColumnReplayIsProduct(ops, upper.Value(), n);
    ForwardBackward(Column, ops, n);
    ghost var d := diagonal.Value();
    s := TransformMatrix(ops, n, Column);
    assert diagonal.Value() == d;
  }

  /** From order 2 on, a matrix with nothing to eliminate with is not invertible. */
  lemma UnpivotedSingular(a: Mat, n: nat)
    requires n >= 2 && Square(a, n) && Unpivoted(a, n)
    ensures !Invertible(a, n)
  {
    if Invertible(a, n) {
      var b :| Inverses(a, b, n);
      assert NoPivot(a, 0, n);
      SumZero(Term(b, a, 0, 0), n);
      MulAt(b, a, n, 0, 0);
    }
  }

  /** One singular matrix for each of the two ways in which the inversion can fail. */
  lemma BothFailuresHappen()
    ensures Unpivoted([[0.0, 0.0], [0.0, 0.0]], 2) && !Invertible([[0.0, 0.0], [0.0, 0.0]], 2)
    ensures !Unpivoted([[1.0, 1.0], [1.0, 1.0]], 2) && !Invertible([[1.0, 1.0], [1.0, 1.0]], 2)
  {
    UnpivotedSingular([[0.0, 0.0], [0.0, 0.0]], 2);
    var a := [[1.0, 1.0], [1.0, 1.0]];
    assert At(a, 0, 0) != 0.0;
    assert !NoPivot(a, 0, 2);
    if Invertible(a, 2) {
      var b :| Inverses(a, b, 2);
      SumAgrees(Term(a, b, 0, 0), Term(a, b, 1, 0), 2);
      MulAt(a, b, 2, 0, 0);
      MulAt(a, b, 2, 1, 0);
    }
  }

  /** How M_Inverse can end: it follows the head of an empty list, it divides by a zero pivot, or it gives
      the inverse. */
  datatype Inversion = EmptyList | ZeroPivot | Inverted(inverse: Matrix)

  /** M_Inverse of any square matrix, with the triangular form u that it goes through. It gives an inverse
      exactly for the invertible matrices of order 2 or more, and follows the head of an empty list exactly
      for the matrices whose columns but the last are all zero from the diagonal down. */
  method Inverse(m: Matrix) returns (r: Inversion, ghost u: Mat, ghost t: Mat, ghost t': Mat)
    requires m.Valid()
    ensures r.Inverted? <==> m.order >= 2 && Invertible(m.Value(), m.order)
    ensures r.Inverted? ==> fresh(r.inverse) && r.inverse.Valid() && r.inverse.order == m.order
                            && Inverses(r.inverse.Value(), m.Value(), m.order)
    ensures Inverses(t, t', m.order) && Mul(t, m.Value(), m.order) == u && UpperTriangular(u, m.order)
    ensures r.EmptyList? <==> Unpivoted(m.Value(), m.order)
    ensures !r.EmptyList? ==> (r.ZeroPivot? <==> !Invertible(m.Value(), m.order))
  {
    var n := m.order;
    var left, upper;
    left, upper, t, t' := UpperForInverse(m);
    u := upper.Value();
    TransformKeepsInvertible(t, t', u, m.Value(), n);
    var right, lower, s, s' := DiagonalForInverse(upper);
    if left.None? || right.None? {
      if n >= 2 { UnpivotedSingular(m.Value(), n); }
      return EmptyList, u, t, t';
    }
    var diagonal := InvertDiagonal(lower);
    if diagonal.None? { return ZeroPivot, u, t, t'; }
    DiagonalInverts(lower.Value(), n);
    var sd := Multiply(right.value, diagonal.value);
    var inv := Multiply(sd.value, left.value);
    InverseFromParts(m.Value(), t, t', u, s, s', lower.Value(), diagonal.value.Value(), n);
    r := Inverted(inv.value);
  }

  // ---------------------------------------------------------------- determinant

  method ProductOfDiagonal(m: Matrix) returns (det: real)
    requires m.Valid()
    ensures det == DiagonalProduct(m.Value(), m.order)
  {
    det := 1.0;
    for i := 0 to m.order
      invariant det == DiagonalProduct(m.Value(), i)
    {
      var x := m.Get(i, i);
      det := Times(det, x);
    }
  }

  /** M_det of a square matrix: the determinant, but with the wrong sign where rows are exchanged an odd number
      of times. It is nonzero exactly when the matrix is invertible. */
  method Determinant(m: Matrix) returns (det: real)
    requires m.Valid()
    ensures det == Signed(Swaps(m.Value(), 0, m.order), Det(m.Value(), m.order))
    ensures det != 0.0 <==> Invertible(m.Value(), m.order)
    ensures det == Det(m.Value(), m.order) <==> Swaps(m.Value(), 0, m.order) % 2 == 0 || !Invertible(m.Value(), m.order)
  {
    var trans, upper, t := UpperTriangularise(m);
    det := ProductOfDiagonal(upper);
    DetUpper(upper.Value(), m.order);
    DiagonalProductZero(upper.Value(), m.order);
    TransformKeepsInvertible(t, trans.Value(), upper.Value(), m.Value(), m.order);
  }

  /** For order 2 it goes wrong exactly where the first row starts with zero and the second does not. */
  lemma SwapsOfTwo(a: Mat)
    requires Square(a, 2)
    ensures Swaps(a, 0, 2) == if At(a, 0, 0) == 0.0 && At(a, 1, 0) != 0.0 then 1 else 0
  {
    assert Swaps(a, 0, 2) == SwapsIn(a, 0, 2);
    var b := Cleared(a, 0, 2);
    assert !Swapped(b, 1, 2) && Swaps(b, 1, 2) == SwapsIn(b, 1, 2) && Swaps(Cleared(b, 1, 2), 2, 2) == 0;
    var c := Cleared(b, 0, 2);
    assert !Swapped(c, 1, 2) && Swaps(c, 1, 2) == SwapsIn(c, 1, 2) && Swaps(Cleared(c, 1, 2), 2, 2) == 0;
  }

  /** The exchange of two rows: the determinant is -1, and M_det gives 1. */
  lemma WrongSign()
    ensures var a := [[0.0, 1.0], [1.0, 0.0]];
      Square(a, 2) && Det(a, 2) == -1.0 && Signed(Swaps(a, 0, 2), Det(a, 2)) == 1.0
  {
    var a: Mat := [[0.0, 1.0], [1.0, 0.0]];
    assert Square(a, 2) && At(a, 0, 0) == At(a, 1, 1) == 0.0 && At(a, 0, 1) == At(a, 1, 0) == 1.0;
    WrongSignOf(a);
  }

  lemma WrongSignOf(a: Mat)
    requires Square(a, 2) && At(a, 0, 0) == At(a, 1, 1) == 0.0 && At(a, 0, 1) == At(a, 1, 0) == 1.0
    ensures Det(a, 2) == -1.0 && Signed(Swaps(a, 0, 2), Det(a, 2)) == 1.0
  {
    DetTwo(a);
    SwapsOfTwo(a);
  }
}
