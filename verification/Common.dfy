/** Definitions and arithmetic that several models share. */
module Common {

  datatype Option<T> = None | Some(value: T)

  type byte = x: int | 0 <= x < 256

  /** C's division by a positive number. */
  function Quot(x: int, d: int): (r: int)
    requires d > 0
  {
    if x < 0 then -(-x / d) else x / d
  }

  lemma Product(a: int, b: int, n: nat)
    requires a <= b
    ensures a * n <= b * n
  {
    assert b * n == a * n + (b - a) * n;
  }

  lemma Cancel(a: int, b: int, n: nat)
    requires a * n < b * n
    ensures a < b
  {
    if b <= a { Product(b, a, n); }
  }

  lemma CancelLe(a: int, b: int, n: nat)
    requires n > 0 && a * n <= b * n
    ensures a <= b
  {
    if b < a { Product(b + 1, a, n); }
  }

  lemma Quotient(n: nat, d: nat)
    requires d > 0
    ensures (n / d) * d <= n < (n / d) * d + d
  {
  }

  /** Row b of an image begins after the end of every earlier row. */
  lemma RowsApart(y: int, b: int, width: nat)
    requires y < b
    ensures y * width + width <= b * width
  {
    Product(y + 1, b, width);
  }

  // ---------------------------------------------------------------- images stored row by row

  function Index(x: int, y: int, width: int): (r: int) { x + y * width }

  predicate OnCanvas(x: int, y: int, width: int, height: int) {
    0 <= x < width && 0 <= y < height
  }

  lemma IndexOnCanvas(x: int, y: int, width: int, height: int)
    requires OnCanvas(x, y, width, height)
    ensures 0 <= Index(x, y, width) < width * height
  {
    assert (y + 1) * width <= height * width;
  }

  lemma IndexUnique(x: int, y: int, a: int, b: int, width: int, height: int)
    requires OnCanvas(x, y, width, height) && OnCanvas(a, b, width, height)
    requires Index(x, y, width) == Index(a, b, width)
    ensures x == a && y == b
  {
    if y < b { RowsApart(y, b, width); }
    if b < y { RowsApart(b, y, width); }
  }
}
