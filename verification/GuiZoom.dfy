/** Resizing a bitmap with 16.16 fixed-point steps. */
module GuiZoom {
  import opened Common

  const ONE := 0x1_0000

  /** The step from one target column to the next, in 65536ths of a source column. */
  function Ratio(size: nat, target: nat): (r: nat)
    requires target > 0
  {
    size * ONE / target + 1
  }

  /** The source column that target column x is taken from. */
  function Column(x: nat, size: nat, target: nat): (r: nat)
    requires target > 0
  {
    x * Ratio(size, target) / ONE
  }

  lemma RatioBounds(size: nat, target: nat)
    requires target > 0
    ensures size * ONE < Ratio(size, target) * target <= size * ONE + target
  {
    var n := size * ONE;
    Quotient(n, target);
    assert Ratio(size, target) * target == (n / target) * target + target;
  }

  /** x steps, counted in 65536ths of a source column and in target columns. */
  lemma StepsBounds(x: nat, size: nat, target: nat)
    requires target > 0
    ensures x * size * ONE <= x * Ratio(size, target) * target <= x * size * ONE + x * target
  {
    var r := Ratio(size, target);
    RatioBounds(size, target);
    Product(size * ONE, r * target, x);
    Product(r * target, size * ONE + target, x);
    Regroup(x, size, target, r);
  }

  lemma Regroup(x: nat, size: nat, target: nat, r: nat)
    ensures (size * ONE) * x == x * size * ONE && (r * target) * x == x * r * target
    ensures (size * ONE + target) * x == x * size * ONE + x * target
  {
  }

  // ---------------------------------------------------------------- against the exact resize

  /** The fixed-point column is never before the exact one, is the exact one while x * target stays
      below 65536, and is at most one further on for every x below 65536. */
  lemma ColumnIsExact(x: nat, size: nat, target: nat)
    requires target > 0
    ensures var q := x * size / target;
      q <= Column(x, size, target) && (x * target < ONE ==> Column(x, size, target) == q)
      && (x < ONE ==> Column(x, size, target) <= q + 1)
  {
    var q, a, n := x * size / target, x * Ratio(size, target), x * size;
    Quotient(n, target);
    StepsBounds(x, size, target);
    NotBefore(a, n, target, q);
    if x * target < ONE { NotBeyond(a, n, target, q, x * target); }
    if x < ONE {
      Product(x, ONE, target);
      AtMostOneMore(a, n, target, q, x * target);
    }
  }

  lemma NotBefore(a: nat, n: nat, d: nat, q: nat)
    requires d > 0 && q * d <= n && n * ONE <= a * d
    ensures q <= a / ONE
  {
    assert (q * ONE) * d == (q * d) * ONE;
    CancelLe(q * ONE, a, d);
  }

  lemma NotBeyond(a: nat, n: nat, d: nat, q: nat, e: nat)
    requires d > 0 && n < q * d + d && a * d <= n * ONE + e && e < ONE
    ensures a / ONE <= q
  {
    assert (q * ONE + ONE) * d == (q * d + d) * ONE;
    assert a * d < (q * ONE + ONE) * d;
    Cancel(a, q * ONE + ONE, d);
  }

  lemma AtMostOneMore(a: nat, n: nat, d: nat, q: nat, e: nat)
    requires d > 0 && n < q * d + d && a * d <= n * ONE + e && e <= ONE * d
    ensures a / ONE <= q + 1
  {
    assert (q * ONE + 2 * ONE) * d == (q * d + d) * ONE + ONE * d;
    assert a * d < (q * ONE + 2 * ONE) * d;
    Cancel(a, q * ONE + 2 * ONE, d);
  }

  /** Resizing to the same size changes nothing. */
  lemma SameSize(x: nat, size: nat)
    requires x < size < ONE
    ensures Column(x, size, size) == x
  {
    assert size * ONE / size == ONE by { ExactQuotient(ONE, size); }
    assert x * (ONE + 1) / ONE == x;
  }

  lemma ExactQuotient(k: nat, d: nat)
    requires d > 0
    ensures d * k / d == k
  {
    var q := d * k / d;
    Quotient(d * k, d);
    CancelLe(q, k, d);
    Cancel(k, q + 1, d);
  }

  // ---------------------------------------------------------------- inside the source

  /** No column is taken from beyond the source's last one. */
  predicate Inside(size: nat, target: nat)
    requires target > 0
  {
    (target - 1) * Ratio(size, target) < size * ONE
  }

  lemma InsideExactly(size: nat, target: nat)
    requires target > 0
    ensures Inside(size, target) <==> forall x: nat :: x < target ==> Column(x, size, target) < size
  {
    forall x: nat | x < target && Inside(size, target) ensures Column(x, size, target) < size {
      Product(x, target - 1, Ratio(size, target));
    }
    if !Inside(size, target) { assert Column(target - 1, size, target) >= size; }
  }

  /** A sufficient condition on the two sizes alone. */
  lemma InsideWhen(size: nat, target: nat)
    requires target > 0 && target * (target - 1) < ONE * size
    ensures Inside(size, target)
  {
    var x := target - 1;
    StepsBounds(x, size, target);
    assert x * size * ONE + x * target < (size * ONE) * target by {
      assert (size * ONE) * target == x * size * ONE + size * ONE;
    }
    Cancel(x * Ratio(size, target), size * ONE, target);
  }

  /** A bitmap one pixel wide shows that the condition can fail. */
  lemma OneToManyIsOutside()
    ensures !Inside(1, 257) && Column(256, 1, 257) == 1
  {
  }

  lemma ColumnMonotone(x: nat, y: nat, size: nat, target: nat)
    requires target > 0 && x <= y
    ensures Column(x, size, target) <= Column(y, size, target)
  {
    Product(x, y, Ratio(size, target));
  }

  /** The source pixel for target pixel (x, y), in the order in which the source is stored. */
  function Source(x: nat, y: nat, width: nat, height: nat, targetWidth: nat, targetHeight: nat): (i: nat)
    requires targetWidth > 0 && targetHeight > 0
  {
    Column(y, height, targetHeight) * width + Column(x, width, targetWidth)
  }

  /** The last target pixel is the one whose source lies furthest on. */
  lemma LastIsFurthest(x: nat, y: nat, width: nat, height: nat, targetWidth: nat, targetHeight: nat)
    requires x < targetWidth && y < targetHeight
    ensures Source(x, y, width, height, targetWidth, targetHeight)
            <= Source(targetWidth - 1, targetHeight - 1, width, height, targetWidth, targetHeight)
  {
    ColumnMonotone(x, targetWidth - 1, width, targetWidth);
    ColumnMonotone(y, targetHeight - 1, height, targetHeight);
    Product(Column(y, height, targetHeight), Column(targetHeight - 1, height, targetHeight), width);
  }

  /** Where the sizes fit each other every pixel is taken from the source. */
  lemma InsideReads(width: nat, height: nat, targetWidth: nat, targetHeight: nat)
    requires targetWidth > 0 && targetHeight > 0 && Inside(width, targetWidth) && Inside(height, targetHeight)
    ensures Source(targetWidth - 1, targetHeight - 1, width, height, targetWidth, targetHeight) < width * height
  {
    InsideExactly(width, targetWidth);
    InsideExactly(height, targetHeight);
    RowsApart(Column(targetHeight - 1, height, targetHeight), height, width);
    assert Column(targetWidth - 1, width, targetWidth) < width;
  }

  // ---------------------------------------------------------------- the method

  ghost function Columns(size: nat, target: nat): (r: nat -> nat)
    requires target > 0
  {
    x => Column(x, size, target)
  }

  /** From `at` on the first n pixels are replaced by those that the columns point at, counted from `from`. */
  ghost predicate RowZoomed<T>(now: seq<T>, was: seq<T>, src: seq<T>, at: nat, from: nat, col: nat -> nat, n: nat) {
    && |now| == |was|
    && forall i :: 0 <= i < |was| ==>
         if at <= i < at + n then 0 <= from + col(i - at) < |src| && now[i] == src[from + col(i - at)]
         else now[i] == was[i]
  }

  lemma RowZoomedNext<T>(next: seq<T>, now: seq<T>, was: seq<T>, src: seq<T>, at: nat, from: nat, col: nat -> nat,
                         x: nat)
    requires RowZoomed(now, was, src, at, from, col, x)
    requires |next| == |now| && at + x < |now| && from + col(x) < |src| && next[at + x] == src[from + col(x)]
    requires forall i :: 0 <= i < |now| && i != at + x ==> next[i] == now[i]
    ensures RowZoomed(next, was, src, at, from, col, x + 1)
  {
    forall i | 0 <= i < |was|
      ensures if at <= i < at + (x + 1) then 0 <= from + col(i - at) < |src| && next[i] == src[from + col(i - at)]
              else next[i] == was[i]
    {
      if i == at + x { assert i - at == x; } else { assert next[i] == now[i]; }
    }
  }

  lemma NextColumn(x: nat, r: nat)
    ensures (x + 1) * r == x * r + r
  {
  }

  method ZoomRow<T>(dst: array<T>, src: array<T>, at: nat, from: nat, width: nat, target: nat)
    requires dst != src && target > 0
    requires at + target <= dst.Length && from + Column(target - 1, width, target) < src.Length
    modifies dst
    ensures RowZoomed(dst[..], old(dst[..]), src[..], at, from, Columns(width, target), target)
  {
    var ratio := width * ONE / target + 1;
    var srcx := 0;
    for x := 0 to target
      invariant srcx == x * ratio
      invariant RowZoomed(dst[..], old(dst[..]), src[..], at, from, Columns(width, target), x)
    {
      ColumnMonotone(x, target - 1, width, target);
      assert srcx / ONE == Column(x, width, target);
      ghost var now := dst[..];
      dst[at + x] := src[from + srcx / ONE];
      RowZoomedNext(dst[..], now, old(dst[..]), src[..], at, from, Columns(width, target), x);
      NextColumn(x, ratio);
      srcx := srcx + ratio;
    }
  }

  /** The first n rows of the target are taken, pixel by pixel, from the source; the rest is as it was. */
  ghost predicate Zoomed<T>(now: seq<T>, was: seq<T>, src: seq<T>, width: nat, targetWidth: nat,
                            col: nat -> nat, row: nat -> nat, n: nat)
  {
    && |now| == |was|
    && (forall x, y {:trigger Index(x, y, targetWidth)} :: OnCanvas(x, y, targetWidth, n) ==>
         0 <= Index(x, y, targetWidth) < |now| && 0 <= Index(col(x), row(y), width) < |src|
         && now[Index(x, y, targetWidth)] == src[Index(col(x), row(y), width)])
    && forall i :: n * targetWidth <= i < |now| ==> now[i] == was[i]
  }

  lemma RowAt<T>(now: seq<T>, was: seq<T>, src: seq<T>, at: nat, from: nat, col: nat -> nat, n: nat, x: nat)
    requires RowZoomed(now, was, src, at, from, col, n) && x < n && at + x < |was|
    ensures 0 <= from + col(x) < |src| && now[at + x] == src[from + col(x)]
  {
    var i := at + x;
    assert now[i] == now[at + x];
    assert i - at == x;
  }

  lemma ZoomedNext<T>(now: seq<T>, before: seq<T>, was: seq<T>, src: seq<T>, width: nat, targetWidth: nat,
                      col: nat -> nat, row: nat -> nat, n: nat)
    requires Zoomed(before, was, src, width, targetWidth, col, row, n)
    requires RowZoomed(now, before, src, n * targetWidth, row(n) * width, col, targetWidth)
    requires (n + 1) * targetWidth <= |was|
    ensures Zoomed(now, was, src, width, targetWidth, col, row, n + 1)
  {
    NextColumn(n, targetWidth);
    forall x, y | OnCanvas(x, y, targetWidth, n + 1)
      ensures 0 <= Index(x, y, targetWidth) < |now| && 0 <= Index(col(x), row(y), width) < |src|
              && now[Index(x, y, targetWidth)] == src[Index(col(x), row(y), width)]
    {
      IndexOnCanvas(x, y, targetWidth, n + 1);
      if y < n {
        RowsApart(y, n, targetWidth);
        assert OnCanvas(x, y, targetWidth, n);
        assert now[Index(x, y, targetWidth)] == before[Index(x, y, targetWidth)];
      } else {
        RowAt(now, before, src, n * targetWidth, row(n) * width, col, targetWidth, x);
      }
    }
  }

  /** Where one size is zero nothing is drawn. The source's buffer must hold the last pixel read, which is
      within the bitmap when the sizes fit each other. */
  method Zoom<T>(dst: array<T>, targetWidth: nat, targetHeight: nat, src: array<T>, width: nat, height: nat)
    requires dst != src && targetWidth * targetHeight <= dst.Length
    requires targetWidth > 0 && targetHeight > 0 && width > 0 && height > 0 ==>
      Source(targetWidth - 1, targetHeight - 1, width, height, targetWidth, targetHeight) < src.Length
    modifies dst
    ensures if targetHeight == 0 || targetWidth == 0 || height == 0 || width == 0 then dst[..] == old(dst[..])
            else Zoomed(dst[..], old(dst[..]), src[..], width, targetWidth, Columns(width, targetWidth),
                        Columns(height, targetHeight), targetHeight)
  {
    if targetHeight == 0 || targetWidth == 0 || height == 0 || width == 0 { return; }
    var ratio := height * ONE / targetHeight + 1;
    var srcy, line := 0, 0;
    for y := 0 to targetHeight
      invariant srcy == y * ratio && line == y * targetWidth
      invariant Zoomed(dst[..], old(dst[..]), src[..], width, targetWidth, Columns(width, targetWidth),
                       Columns(height, targetHeight), y)
    {
      ghost var before := dst[..];
      assert srcy / ONE == Column(y, height, targetHeight);
      RowsApart(y, targetHeight, targetWidth);
      LastIsFurthest(targetWidth - 1, y, width, height, targetWidth, targetHeight);
      ZoomRow(dst, src, line, width * (srcy / ONE), width, targetWidth);
      ZoomedNext(dst[..], before, old(dst[..]), src[..], width, targetWidth, Columns(width, targetWidth),
                 Columns(height, targetHeight), y);
      NextColumn(y, ratio);
      NextColumn(y, targetWidth);
      srcy, line := srcy + ratio, line + targetWidth;
    }
  }

  /** Which source pixel a target pixel is: that in the fixed-point column and row, which are the exact quotients, or
      at most one more, as long as the target's are below 65536. */
  lemma ZoomedPixel<T>(now: seq<T>, was: seq<T>, src: seq<T>, width: nat, height: nat, targetWidth: nat,
                       targetHeight: nat, x: nat, y: nat) returns (i: nat, j: nat)
    requires targetWidth > 0 && targetHeight > 0 && x < targetWidth && y < targetHeight
    requires Zoomed(now, was, src, width, targetWidth, Columns(width, targetWidth), Columns(height, targetHeight),
                    targetHeight)
    ensures 0 <= x + y * targetWidth < |now| && 0 <= i + j * width < |src|
    ensures now[x + y * targetWidth] == src[i + j * width]
    ensures i == x * (width * 65536 / targetWidth + 1) / 65536 && j == y * (height * 65536 / targetHeight + 1) / 65536
    ensures x * targetWidth < 65536 ==> i == x * width / targetWidth
    ensures y * targetHeight < 65536 ==> j == y * height / targetHeight
    ensures x < 65536 ==> x * width / targetWidth <= i <= x * width / targetWidth + 1
    ensures y < 65536 ==> y * height / targetHeight <= j <= y * height / targetHeight + 1
  {
    i, j := Column(x, width, targetWidth), Column(y, height, targetHeight);
    ColumnIsExact(x, width, targetWidth);
    ColumnIsExact(y, height, targetHeight);
    assert OnCanvas(x, y, targetWidth, targetHeight);
    assert Index(x, y, targetWidth) == x + y * targetWidth && Index(i, j, width) == i + j * width;
  }

  /** A bitmap resized to its own size is copied pixel by pixel. */
  lemma SameSizeCopies<T>(now: seq<T>, was: seq<T>, src: seq<T>, width: nat, height: nat, x: nat, y: nat)
    requires 0 < width < ONE && 0 < height < ONE && x < width && y < height
    requires Zoomed(now, was, src, width, width, Columns(width, width), Columns(height, height), height)
    ensures 0 <= Index(x, y, width) < |now| && 0 <= Index(x, y, width) < |src|
    ensures now[Index(x, y, width)] == src[Index(x, y, width)]
  {
    SameSize(x, width);
    SameSize(y, height);
    assert OnCanvas(x, y, width, height);
  }
}
