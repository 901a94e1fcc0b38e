/** Straight lines, dotted lines and polylines on a 16-bit bitmap, by Bresenham's algorithm. */
module Paint {
  import opened Common

  type Color = x: int | 0 <= x < 0x1_0000

  datatype Pixel = Pixel(x: int, y: int)

  // ---------------------------------------------------------------- painted pixels

  /** The buffer can hold the canvas. */
  predicate Fits(length: nat, width: int, height: int) {
    width > 0 && height > 0 ==> width * height <= length
  }

  /** `now` differs from `was` exactly in that the marked pixels of the canvas have the colour. */
  ghost predicate Painted(now: seq<Color>, was: seq<Color>, width: int, height: int, color: Color, marks: set<Pixel>)
    requires Fits(|was|, width, height)
  {
    && |now| == |was|
    && (forall x, y {:trigger Index(x, y, width)} :: OnCanvas(x, y, width, height) ==>
         0 <= Index(x, y, width) < |was|
         && now[Index(x, y, width)] == if Pixel(x, y) in marks then color else was[Index(x, y, width)])
    && forall i :: 0 <= i < |was| && (width <= 0 || height <= 0 || width * height <= i) ==> now[i] == was[i]
  }

  lemma PaintedNothing(was: seq<Color>, width: int, height: int, color: Color)
    requires Fits(|was|, width, height)
    ensures Painted(was, was, width, height, color, {})
  {
    forall x, y | OnCanvas(x, y, width, height) ensures 0 <= Index(x, y, width) < |was| {
      IndexOnCanvas(x, y, width, height);
    }
  }

  lemma PaintedTwice(a: seq<Color>, b: seq<Color>, c: seq<Color>, width: int, height: int, color: Color,
                     m: set<Pixel>, n: set<Pixel>)
    requires Fits(|a|, width, height) && Painted(b, a, width, height, color, m)
    requires Painted(c, b, width, height, color, n)
    ensures Painted(c, a, width, height, color, m + n)
  {
  }

  // ---------------------------------------------------------------- stamps

  ghost function Rect(x0: int, x1: int, y0: int, y1: int): (r: set<Pixel>)
    ensures forall p :: p in r <==> x0 <= p.x < x1 && y0 <= p.y < y1
  {
    set x, y | x0 <= x < x1 && y0 <= y < y1 :: Pixel(x, y)
  }

  /** The rectangle painted for a point of the line. */
  ghost function Stamp(c: Pixel, half: int, hhalf: int): (r: set<Pixel>) {
    Rect(c.x - half, c.x + half, c.y, c.y + hhalf)
  }

  /** The pixels of the stamps at these points. */
  ghost function Stamps(centres: seq<Pixel>, half: int, hhalf: int): (r: set<Pixel>) {
    if centres == [] then {}
    else Stamps(centres[..|centres| - 1], half, hhalf) + Stamp(centres[|centres| - 1], half, hhalf)
  }

  lemma {:induction false} StampsMember(centres: seq<Pixel>, half: int, hhalf: int, p: Pixel)
    ensures p in Stamps(centres, half, hhalf)
            <==> exists i :: 0 <= i < |centres| && p in Stamp(centres[i], half, hhalf)
  {
    if centres != [] {
      StampsMember(centres[..|centres| - 1], half, hhalf, p);
    }
  }

  lemma StampsSnoc(centres: seq<Pixel>, c: Pixel, half: int, hhalf: int)
    ensures Stamps(centres + [c], half, hhalf) == Stamps(centres, half, hhalf) + Stamp(c, half, hhalf)
  {
    assert (centres + [c])[..|centres|] == centres;
  }

  lemma UnionAssociative<T>(a: set<T>, b: set<T>, c: set<T>)
    ensures (a + b) + c == a + (b + c)
  {
  }

  lemma {:induction false} StampsAppend(a: seq<Pixel>, b: seq<Pixel>, half: int, hhalf: int)
    ensures Stamps(a + b, half, hhalf) == Stamps(a, half, hhalf) + Stamps(b, half, hhalf)
  {
    if b == [] {
      assert a + b == a;
    } else {
      StampsAppend(a, b[..|b| - 1], half, hhalf);
      assert (a + b)[..|a + b| - 1] == a + b[..|b| - 1];
      UnionAssociative(Stamps(a, half, hhalf), Stamps(b[..|b| - 1], half, hhalf), Stamp(b[|b| - 1], half, hhalf));
    }
  }

  method PutPixel(bmp: array<Color>, width: int, height: int, x: int, y: int, color: Color)
    requires Fits(bmp.Length, width, height) && OnCanvas(x, y, width, height)
    modifies bmp
    ensures Painted(bmp[..], old(bmp[..]), width, height, color, {Pixel(x, y)})
  {
    IndexOnCanvas(x, y, width, height);
    var index := x + y * width;
    bmp[index] := color;
    assert index == Index(x, y, width);
    forall a, b | OnCanvas(a, b, width, height)
      ensures 0 <= Index(a, b, width) < bmp.Length && (Index(a, b, width) == index <==> Pixel(a, b) == Pixel(x, y))
    {
      IndexOnCanvas(a, b, width, height);
      if Index(a, b, width) == index { IndexUnique(a, b, x, y, width, height); }
    }
  }

  /** One row of a stamp, left out where it leaves the canvas. */
  method PaintRow(bmp: array<Color>, width: int, height: int, x: int, y: int, half: int, color: Color)
    requires Fits(bmp.Length, width, height)
    modifies bmp
    ensures Painted(bmp[..], old(bmp[..]), width, height, color, Rect(x - half, x + half, y, y + 1))
  {
    var k := -half;
    PaintedNothing(bmp[..], width, height, color);
    while k < half
      invariant k <= half || k == -half
      invariant Painted(bmp[..], old(bmp[..]), width, height, color, Rect(x - half, x + k, y, y + 1))
    {
      ghost var before := bmp[..];
      if !(x + k >= width || x + k < 0) && !(y >= height || y < 0) {
        PutPixel(bmp, width, height, x + k, y, color);
        PaintedTwice(old(bmp[..]), before, bmp[..], width, height, color,
                     Rect(x - half, x + k, y, y + 1), {Pixel(x + k, y)});
        assert Rect(x - half, x + k, y, y + 1) + {Pixel(x + k, y)} == Rect(x - half, x + k + 1, y, y + 1);
      }
      k := k + 1;
    }
  }

  method PaintStamp(bmp: array<Color>, width: int, height: int, x: int, y: int, half: int, hhalf: int, color: Color)
    requires Fits(bmp.Length, width, height)
    modifies bmp
    ensures Painted(bmp[..], old(bmp[..]), width, height, color, Stamp(Pixel(x, y), half, hhalf))
  {
    var j := 0;
    PaintedNothing(bmp[..], width, height, color);
    while j < hhalf
      invariant j <= hhalf || j == 0
      invariant Painted(bmp[..], old(bmp[..]), width, height, color, Rect(x - half, x + half, y, y + j))
    {
      ghost var before := bmp[..];
      PaintRow(bmp, width, height, x, y + j, half, color);
      PaintedTwice(old(bmp[..]), before, bmp[..], width, height, color,
                   Rect(x - half, x + half, y, y + j), Rect(x - half, x + half, y + j, y + j + 1));
      assert Rect(x - half, x + half, y, y + j) + Rect(x - half, x + half, y + j, y + j + 1)
             == Rect(x - half, x + half, y, y + j + 1);
      j := j + 1;
    }
  }

  /** Adds the stamp of one more point to those painted since `was`. */
  method AddStamp(bmp: array<Color>, width: int, height: int, x: int, y: int, half: int, hhalf: int, color: Color,
                  ghost was: seq<Color>, ghost centres: seq<Pixel>)
    requires Fits(bmp.Length, width, height) && |was| == bmp.Length
    requires Painted(bmp[..], was, width, height, color, Stamps(centres, half, hhalf))
    modifies bmp
    ensures Painted(bmp[..], was, width, height, color, Stamps(centres + [Pixel(x, y)], half, hhalf))
  {
    ghost var before, marks := bmp[..], Stamps(centres, half, hhalf);
    PaintStamp(bmp, width, height, x, y, half, hhalf, color);
    PaintedTwice(was, before, bmp[..], width, height, color, marks, Stamp(Pixel(x, y), half, hhalf));
    StampsSnoc(centres, Pixel(x, y), half, hhalf);
  }

  // ---------------------------------------------------------------- the ideal line

  function Abs(x: int): (r: nat) { if x < 0 then -x else x }

  function Sign(x: int): (r: int) { if x < 0 then -1 else if x > 0 then 1 else 0 }

  /** After i steps along a major axis of length dx, k steps along the minor one of length dy bring the
      pen nearest to the ideal line; of two equally near positions it takes the lower. */
  predicate Nearest(i: int, k: int, dx: int, dy: int) {
    -dx < 2 * (i * dy - k * dx) <= dx
  }

  function MinorSteps(i: nat, dx: nat, dy: nat): (r: nat) {
    if dx == 0 then 0 else (2 * (i * dy) + dx - 1) / (2 * dx)
  }

  /** What the error variable holds when i steps along the major axis and k along the minor one are done. */
  function Error(i: int, k: int, dx: int, dy: int): (r: int) {
    2 * (i * dy - k * dx) + 2 * dy - dx
  }

  lemma MinorNearest(i: nat, dx: nat, dy: nat)
    requires dx > 0
    ensures Nearest(i, MinorSteps(i, dx, dy), dx, dy)
  {
    var n := 2 * (i * dy) + dx - 1;
    Quotient(n, 2 * dx);
    var k := MinorSteps(i, dx, dy);
    assert k * (2 * dx) == 2 * (k * dx);
  }

  lemma NearestUnique(i: int, k: int, m: int, dx: int, dy: int)
    requires Nearest(i, k, dx, dy) && Nearest(i, m, dx, dy)
    ensures k == m
  {
    if k < m { RowsApart(k, m, dx); }
    if m < k { RowsApart(m, k, dx); }
  }

  /** One step: the error's sign says whether the minor axis moves, and then by one. */
  lemma NearestStep(i: int, k: int, dx: int, dy: int)
    requires 0 <= dy <= dx && Nearest(i, k, dx, dy)
    ensures var e := Error(i, k, dx, dy);
      if e > 0 then Nearest(i + 1, k + 1, dx, dy) && e <= 2 * dx && Error(i + 1, k + 1, dx, dy) == e - 2 * dx + 2 * dy
      else Nearest(i + 1, k, dx, dy) && Error(i + 1, k, dx, dy) == e + 2 * dy
  {
    assert (i + 1) * dy == i * dy + dy && (k + 1) * dx == k * dx + dx;
  }

  datatype Line = Line(from: Pixel, to: Pixel) {
    function Width(): (r: nat) { Abs(to.x - from.x) }

    function Height(): (r: nat) { Abs(to.y - from.y) }

    /** The two axes change places. */
    predicate Steep() { Height() > Width() }

    function Major(): (r: nat) { if Steep() then Height() else Width() }

    function Minor(): (r: nat) { if Steep() then Width() else Height() }

    /** i pixels along the major axis and k along the minor one. */
    function Offset(i: int, k: int): (r: Pixel) {
      var sx, sy := Sign(to.x - from.x), Sign(to.y - from.y);
      if Steep() then Pixel(from.x + sx * k, from.y + sy * i)
      else Pixel(from.x + sx * i, from.y + sy * k)
    }

    /** The next pixel along the major axis. */
    function Right(p: Pixel): (r: Pixel) {
      if Steep() then Pixel(p.x, p.y + Sign(to.y - from.y)) else Pixel(p.x + Sign(to.x - from.x), p.y)
    }

    /** The next pixel along the minor axis. */
    function Up(p: Pixel): (r: Pixel) {
      if Steep() then Pixel(p.x + Sign(to.x - from.x), p.y) else Pixel(p.x, p.y + Sign(to.y - from.y))
    }

    /** Where the pen stands after i steps. */
    function At(i: nat): (r: Pixel) {
      Offset(i, MinorSteps(i, Major(), Minor()))
    }

    function ErrorAt(i: nat): (r: int) {
      Error(i, MinorSteps(i, Major(), Minor()), Major(), Minor())
    }
  }

  /** At every step the pen is within half a pixel of the ideal line. */
  lemma HalfPixel(l: Line, i: nat)
    requires i <= l.Major()
    ensures 2 * Abs(i * l.Minor() - MinorSteps(i, l.Major(), l.Minor()) * l.Major()) <= l.Major()
  {
    if l.Major() > 0 { MinorNearest(i, l.Major(), l.Minor()); }
  }

  lemma CrossSize(s: int, t: int, k: int, a: int, i: int, b: int)
    requires -1 <= s <= 1 && -1 <= t <= 1
    ensures Abs((t * k) * (s * a) - (s * i) * (t * b)) <= Abs(i * b - k * a)
  {
    if s == 0 || t == 0 {
    } else if s == t {
      assert (t * k) * (s * a) - (s * i) * (t * b) == k * a - i * b;
    } else {
      assert (t * k) * (s * a) - (s * i) * (t * b) == i * b - k * a;
    }
  }

  /** In coordinates: the pen is i pixels along the longer side, and on the shorter side at most half a pixel off the
      line through the two points. */
  lemma NearIdealLine(l: Line, i: nat)
    requires i <= l.Major()
    ensures var dx, dy, px, py := l.to.x - l.from.x, l.to.y - l.from.y, l.At(i).x - l.from.x, l.At(i).y - l.from.y;
      if Abs(dy) <= Abs(dx)
      then (if dx < 0 then px + i == 0 else px == i) && 2 * Abs(py * dx - px * dy) <= Abs(dx)
      else (if dy < 0 then py + i == 0 else py == i) && 2 * Abs(py * dx - px * dy) <= Abs(dy)
  {
    HalfPixel(l, i);
    var k := MinorSteps(i, l.Major(), l.Minor());
    var sx, sy := Sign(l.to.x - l.from.x), Sign(l.to.y - l.from.y);
    assert l.to.x - l.from.x == sx * l.Width() && l.to.y - l.from.y == sy * l.Height();
    if l.Steep() {
      CrossSize(sy, sx, k, l.Major(), i, l.Minor());
    } else {
      CrossSize(sx, sy, k, l.Major(), i, l.Minor());
    }
  }

  /** The walk goes from the one end of the line exactly to the other. */
  lemma WalkEnds(l: Line)
    ensures l.At(0) == l.from && l.At(l.Major()) == l.to
  {
    var dx, dy := l.Major(), l.Minor();
    if dx > 0 {
      MinorNearest(0, dx, dy);
      NearestUnique(0, 0, MinorSteps(0, dx, dy), dx, dy);
      MinorNearest(dx, dx, dy);
      assert dx * dy == dy * dx;
      NearestUnique(dx, dy, MinorSteps(dx, dx, dy), dx, dy);
    }
  }

  ghost predicate Neighbours(p: Pixel, q: Pixel) {
    Abs(p.x - q.x) <= 1 && Abs(p.y - q.y) <= 1 && p != q
  }

  lemma MinorStep(i: nat, dx: nat, dy: nat)
    requires dy <= dx && dx > 0
    ensures var k := MinorSteps(i, dx, dy);
      MinorSteps(i + 1, dx, dy) == if Error(i, k, dx, dy) > 0 then k + 1 else k
  {
    MinorNearest(i, dx, dy);
    MinorNearest(i + 1, dx, dy);
    var k := MinorSteps(i, dx, dy);
    NearestStep(i, k, dx, dy);
    NearestUnique(i + 1, MinorSteps(i + 1, dx, dy), if Error(i, k, dx, dy) > 0 then k + 1 else k, dx, dy);
  }

  /** One step moves the pen by one along the major axis and, when the error is positive, by one along
      the minor axis as well. */
  lemma AtNext(l: Line, i: nat)
    requires i < l.Major()
    ensures var e := l.ErrorAt(i);
      if e > 0 then e <= 2 * l.Major() && l.At(i + 1) == l.Right(l.Up(l.At(i)))
           && l.ErrorAt(i + 1) == e - 2 * l.Major() + 2 * l.Minor()
      else l.At(i + 1) == l.Right(l.At(i)) && l.ErrorAt(i + 1) == e + 2 * l.Minor()
  {
    MinorNearest(i, l.Major(), l.Minor());
    NearestStep(i, MinorSteps(i, l.Major(), l.Minor()), l.Major(), l.Minor());
    MinorStep(i, l.Major(), l.Minor());
  }

  lemma WalkIsConnected(l: Line, i: nat)
    requires i < l.Major()
    ensures Neighbours(l.At(i), l.At(i + 1))
  {
    AtNext(l, i);
  }

  // ---------------------------------------------------------------- which points are stamped

  /** Does the dotted line leave out its i-th point? */
  predicate Gap(i: nat) { i % 40 <= 20 }

  /** The points at the first n steps of a line. */
  ghost function Centres(l: Line, n: nat): (r: seq<Pixel>)
    ensures |r| == n
  {
    if n == 0 then [] else Centres(l, n - 1) + [l.At(n - 1)]
  }

  /** The points stamped for a line. */
  ghost function LineCentres(l: Line): (r: seq<Pixel>) { Centres(l, l.Major()) }

  lemma {:induction false} CentresAt(l: Line, n: nat)
    ensures forall i :: 0 <= i < n ==> Centres(l, n)[i] == l.At(i)
  {
    if n > 0 { CentresAt(l, n - 1); }
  }

  /** Each is stamped once, from the start point on; the end point itself is not one of them. */
  lemma EndNotStamped(l: Line)
    ensures l.to !in LineCentres(l) && (l.from != l.to ==> LineCentres(l)[..1] == [l.from])
    ensures forall i, j :: 0 <= i < j < |LineCentres(l)| ==> LineCentres(l)[i] != LineCentres(l)[j]
  {
    CentresAt(l, l.Major());
    WalkEnds(l);
  }

  /** The points that the dotted line stamps. */
  ghost function Thinned(centres: seq<Pixel>): (r: seq<Pixel>) {
    if centres == [] then []
    else if Gap(|centres| - 1) then Thinned(centres[..|centres| - 1])
    else Thinned(centres[..|centres| - 1]) + [centres[|centres| - 1]]
  }

  lemma ThinnedSnoc(centres: seq<Pixel>, c: Pixel)
    ensures Thinned(centres + [c]) == if Gap(|centres|) then Thinned(centres) else Thinned(centres) + [c]
  {
    assert (centres + [c])[..|centres|] == centres;
  }

  lemma {:induction false} ThinnedMember(centres: seq<Pixel>, p: Pixel)
    ensures p in Thinned(centres) <==> exists i :: 0 <= i < |centres| && !Gap(i) && p == centres[i]
  {
    if centres != [] { ThinnedMember(centres[..|centres| - 1], p); }
  }

  lemma UnionMonotone<T>(a: set<T>, b: set<T>, c: set<T>)
    requires a <= b
    ensures a <= b + c && a + c <= b + c
  {
  }

  /** The dotted line paints part of what the solid line paints. */
  lemma {:induction false} DottedIsPart(centres: seq<Pixel>, half: int, hhalf: int)
    ensures Stamps(Thinned(centres), half, hhalf) <= Stamps(centres, half, hhalf)
  {
    if centres != [] {
      var c, p := centres[..|centres| - 1], centres[|centres| - 1];
      DottedIsPart(c, half, hhalf);
      StampsSnoc(Thinned(c), p, half, hhalf);
      UnionMonotone(Stamps(Thinned(c), half, hhalf), Stamps(c, half, hhalf), Stamp(p, half, hhalf));
    }
  }

  /** The points stamped for a polyline. */
  ghost function PolyCentres(points: seq<Pixel>): (r: seq<Pixel>) {
    if |points| < 2 then []
    else var l := Line(points[0], points[1]); LineCentres(l) + PolyCentres(points[1..])
  }

  /** A polyline has no gaps, not even at its corners, and it starts at its first point. */
  lemma {:induction false} PolylineConnected(points: seq<Pixel>)
    ensures var c := PolyCentres(points);
      (c != [] ==> c[0] == points[0]) && forall i :: 0 <= i < |c| - 1 ==> Neighbours(c[i], c[i + 1])
  {
    if |points| >= 2 {
      var l := Line(points[0], points[1]);
      var a, b := LineCentres(l), PolyCentres(points[1..]);
      var c := PolyCentres(points);
      PolylineConnected(points[1..]);
      CentresAt(l, l.Major());
      WalkEnds(l);
      forall i | 0 <= i < |c| - 1 ensures Neighbours(c[i], c[i + 1]) {
        if i < |a| {
          WalkIsConnected(l, i);
        } else {
          assert c[i] == b[i - |a|] && c[i + 1] == b[i - |a| + 1];
        }
      }
    }
  }

  // ---------------------------------------------------------------- which pixels those are

  /** Of some point of the walk but the last the pixel is at most `half` to the left and less than `half` to the
      right, and in its row or one of the `hhalf - 1` rows below. */
  ghost predicate OnLine(l: Line, half: int, hhalf: int, x: int, y: int) {
    exists i: nat :: i < l.Major()
      && l.At(i).x - half <= x < l.At(i).x + half && l.At(i).y <= y < l.At(i).y + hhalf
  }

  /** ... of one whose index modulo 40 is over 20. */
  ghost predicate OnDottedLine(l: Line, half: int, hhalf: int, x: int, y: int) {
    exists i: nat :: i < l.Major() && i % 40 > 20
      && l.At(i).x - half <= x < l.At(i).x + half && l.At(i).y <= y < l.At(i).y + hhalf
  }

  /** ... of some point of one of the lines. */
  ghost predicate OnPolyline(points: seq<Pixel>, half: int, hhalf: int, x: int, y: int) {
    exists s: nat :: s + 1 < |points| && OnLine(Line(points[s], points[s + 1]), half, hhalf, x, y)
  }

  lemma LineMember(l: Line, half: int, hhalf: int, x: int, y: int)
    ensures Pixel(x, y) in Stamps(LineCentres(l), half, hhalf) <==> OnLine(l, half, hhalf, x, y)
  {
    CentresAt(l, l.Major());
    StampsMember(LineCentres(l), half, hhalf, Pixel(x, y));
  }

  lemma ThinnedStamps(centres: seq<Pixel>, half: int, hhalf: int, p: Pixel)
    ensures p in Stamps(Thinned(centres), half, hhalf)
            <==> exists i :: 0 <= i < |centres| && i % 40 > 20 && p in Stamp(centres[i], half, hhalf)
  {
    var thinned := Thinned(centres);
    StampsMember(thinned, half, hhalf, p);
    if k :| 0 <= k < |thinned| && p in Stamp(thinned[k], half, hhalf) {
      ThinnedMember(centres, thinned[k]);
    }
    if i :| 0 <= i < |centres| && i % 40 > 20 && p in Stamp(centres[i], half, hhalf) {
      ThinnedMember(centres, centres[i]);
    }
  }

  lemma DottedMember(l: Line, half: int, hhalf: int, x: int, y: int)
    ensures Pixel(x, y) in Stamps(Thinned(LineCentres(l)), half, hhalf) <==> OnDottedLine(l, half, hhalf, x, y)
  {
    CentresAt(l, l.Major());
    ThinnedStamps(LineCentres(l), half, hhalf, Pixel(x, y));
  }

  lemma {:induction false} PolyMember(points: seq<Pixel>, half: int, hhalf: int, x: int, y: int)
    ensures Pixel(x, y) in Stamps(PolyCentres(points), half, hhalf) <==>
            OnPolyline(points, half, hhalf, x, y)
  {
    if |points| >= 2 {
      var l, rest := Line(points[0], points[1]), points[1..];
      StampsAppend(LineCentres(l), PolyCentres(rest), half, hhalf);
      LineMember(l, half, hhalf, x, y);
      PolyMember(rest, half, hhalf, x, y);
      if s: nat :| s + 1 < |rest| && OnLine(Line(rest[s], rest[s + 1]), half, hhalf, x, y) {
        assert rest[s] == points[s + 1] && rest[s + 1] == points[s + 2];
      }
      if s: nat :| 0 < s && s + 1 < |points| && OnLine(Line(points[s], points[s + 1]), half, hhalf, x, y) {
        assert rest[s - 1] == points[s] && rest[s] == points[s + 1];
      }
    }
  }

  lemma PaintedAt(now: seq<Color>, was: seq<Color>, width: int, height: int, color: Color, marks: set<Pixel>, x: int,
                  y: int)
    requires Fits(|was|, width, height) && 0 <= x < width && 0 <= y < height
    requires Painted(now, was, width, height, color, marks)
    ensures |now| == |was| && 0 <= x + y * width < |was|
    ensures now[x + y * width] == if Pixel(x, y) in marks then color else was[x + y * width]
    ensures forall k :: width * height <= k < |was| ==> now[k] == was[k]
  {
    assert Index(x, y, width) == x + y * width;
  }

  /** What a solid line, a dotted one and a polyline leave at a pixel of the canvas, and behind it. */
  lemma LinePixels(now: seq<Color>, was: seq<Color>, width: int, height: int, color: Color, l: Line, half: int,
                   hhalf: int, x: int, y: int)
    requires Fits(|was|, width, height) && 0 <= x < width && 0 <= y < height
    requires Painted(now, was, width, height, color, Stamps(LineCentres(l), half, hhalf))
    ensures |now| == |was| && 0 <= x + y * width < |was|
    ensures now[x + y * width] == if OnLine(l, half, hhalf, x, y) then color else was[x + y * width]
    ensures forall k :: width * height <= k < |was| ==> now[k] == was[k]
  {
    LineMember(l, half, hhalf, x, y);
    PaintedAt(now, was, width, height, color, Stamps(LineCentres(l), half, hhalf), x, y);
  }

  lemma DottedPixels(now: seq<Color>, was: seq<Color>, width: int, height: int, color: Color, l: Line, half: int,
                     hhalf: int, x: int, y: int)
    requires Fits(|was|, width, height) && 0 <= x < width && 0 <= y < height
    requires Painted(now, was, width, height, color, Stamps(Thinned(LineCentres(l)), half, hhalf))
    ensures |now| == |was| && 0 <= x + y * width < |was|
    ensures now[x + y * width] == if OnDottedLine(l, half, hhalf, x, y) then color else was[x + y * width]
    ensures forall k :: width * height <= k < |was| ==> now[k] == was[k]
  {
    DottedMember(l, half, hhalf, x, y);
    PaintedAt(now, was, width, height, color, Stamps(Thinned(LineCentres(l)), half, hhalf), x, y);
  }

  lemma PolylinePixels(now: seq<Color>, was: seq<Color>, width: int, height: int, color: Color, points: seq<Pixel>,
                       half: int, hhalf: int, x: int, y: int)
    requires Fits(|was|, width, height) && 0 <= x < width && 0 <= y < height
    requires Painted(now, was, width, height, color, Stamps(PolyCentres(points), half, hhalf))
    ensures |now| == |was| && 0 <= x + y * width < |was|
    ensures now[x + y * width] == if OnPolyline(points, half, hhalf, x, y) then color else was[x + y * width]
    ensures forall k :: width * height <= k < |was| ==> now[k] == was[k]
  {
    PolyMember(points, half, hhalf, x, y);
    PaintedAt(now, was, width, height, color, Stamps(PolyCentres(points), half, hhalf), x, y);
  }

  // ---------------------------------------------------------------- the drawing methods

  /** The second half of a step: the loop corrects the error by moves along the minor axis, of which
      there is never more than one; then comes the move along the major axis. */
  method Advance(l: Line, x: int, y: int, e: int, ghost i: nat)
    returns (x': int, y': int, e': int, ghost moves: nat)
    requires i < l.Major() && Pixel(x, y) == l.At(i)
    requires e == l.ErrorAt(i)
    ensures Pixel(x', y') == l.At(i + 1)
    ensures e' == l.ErrorAt(i + 1) && moves == if e > 0 then 1 else 0
  {
    var deltaX, deltaY := l.Major(), l.Minor();
    var sign1, sign2 := Sign(l.to.x - l.from.x), Sign(l.to.y - l.from.y);
    AtNext(l, i);
    x', y', e', moves := x, y, e, 0;
    while e' > 0
      invariant moves == 0 ==> e' == e && Pixel(x', y') == l.At(i)
      invariant moves != 0 ==> moves == 1 && e > 0 && e' == e - 2 * deltaX <= 0 && Pixel(x', y') == l.Up(l.At(i))
      decreases e'
    {
      if l.Steep() { x' := x' + sign1; } else { y' := y' + sign2; }
      e' := e' - 2 * deltaX;
      moves := moves + 1;
    }
    if l.Steep() { y' := y' + sign2; } else { x' := x' + sign1; }
    e' := e' + 2 * deltaY;
  }

  /** The stamps are `stick / 2 * 2` wide and `hhalf` high. */
  method DrawLine(bmp: array<Color>, width: int, height: int, l: Line, color: Color, stick: int, hhalf: int)
    requires Fits(bmp.Length, width, height)
    modifies bmp
    ensures Painted(bmp[..], old(bmp[..]), width, height, color,
                    Stamps(LineCentres(l), Quot(stick, 2), hhalf))
  {
    var half := Quot(stick, 2);
    var x, y, hatE := l.from.x, l.from.y, 2 * l.Minor() - l.Major();
    WalkEnds(l);
    PaintedNothing(bmp[..], width, height, color);
    for i := 0 to l.Major()
      invariant Pixel(x, y) == l.At(i)
      invariant hatE == l.ErrorAt(i)
      invariant Painted(bmp[..], old(bmp[..]), width, height, color, Stamps(Centres(l, i), half, hhalf))
    {
      AddStamp(bmp, width, height, x, y, half, hhalf, color, old(bmp[..]), Centres(l, i));
      ghost var moves;
      x, y, hatE, moves := Advance(l, x, y, hatE, i);
    }
  }

  method DrawDottedLine(bmp: array<Color>, width: int, height: int, l: Line, color: Color, stick: int)
    requires Fits(bmp.Length, width, height)
    modifies bmp
    ensures Painted(bmp[..], old(bmp[..]), width, height, color,
                    Stamps(Thinned(LineCentres(l)), Quot(stick, 2), stick))
  {
    var half := Quot(stick, 2);
    var x, y, hatE := l.from.x, l.from.y, 2 * l.Minor() - l.Major();
    WalkEnds(l);
    PaintedNothing(bmp[..], width, height, color);
    for i := 0 to l.Major()
      invariant Pixel(x, y) == l.At(i)
      invariant hatE == l.ErrorAt(i)
      invariant Painted(bmp[..], old(bmp[..]), width, height, color, Stamps(Thinned(Centres(l, i)), half, stick))
    {
      ThinnedSnoc(Centres(l, i), l.At(i));
      if !(i % 40 <= 20) {
        AddStamp(bmp, width, height, x, y, half, stick, color, old(bmp[..]), Thinned(Centres(l, i)));
      }
      ghost var moves;
      x, y, hatE, moves := Advance(l, x, y, hatE, i);
    }
  }

  /** Adds a line to what has been painted since `was`. */
  method AddLine(bmp: array<Color>, width: int, height: int, l: Line, color: Color, stick: int, hhalf: int,
                 ghost was: seq<Color>, ghost centres: seq<Pixel>)
    requires Fits(bmp.Length, width, height) && |was| == bmp.Length
    requires Painted(bmp[..], was, width, height, color, Stamps(centres, Quot(stick, 2), hhalf))
    modifies bmp
    ensures Painted(bmp[..], was, width, height, color,
                    Stamps(centres + LineCentres(l), Quot(stick, 2), hhalf))
  {
    ghost var before := bmp[..];
    DrawLine(bmp, width, height, l, color, stick, hhalf);
    ghost var half, next := Quot(stick, 2), LineCentres(l);
    PaintedTwice(was, before, bmp[..], width, height, color, Stamps(centres, half, hhalf), Stamps(next, half, hhalf));
    StampsAppend(centres, next, half, hhalf);
  }

  lemma PolyNext(points: seq<Pixel>, i: nat, done: seq<Pixel>)
    requires i + 1 < |points|
    ensures done + PolyCentres(points[i..])
            == (done + LineCentres(Line(points[i], points[i + 1]))) + PolyCentres(points[i + 1..])
  {
    assert points[i..][1..] == points[i + 1..];
  }

  method DrawPolyline(bmp: array<Color>, width: int, height: int, points: seq<Pixel>, color: Color, stick: int,
                      hhalf: int)
    requires Fits(bmp.Length, width, height)
    modifies bmp
    ensures Painted(bmp[..], old(bmp[..]), width, height, color, Stamps(PolyCentres(points), Quot(stick, 2), hhalf))
  {
    ghost var half := Quot(stick, 2);
    PaintedNothing(bmp[..], width, height, color);
    ghost var done: seq<Pixel> := [];
    assert points[0..] == points;
    for i := 0 to if |points| == 0 then 0 else |points| - 1
      invariant PolyCentres(points) == done + PolyCentres(points[i..])
      invariant Painted(bmp[..], old(bmp[..]), width, height, color, Stamps(done, half, hhalf))
    {
      AddLine(bmp, width, height, Line(points[i], points[i + 1]), color, stick, hhalf, old(bmp[..]), done);
      PolyNext(points, i, done);
      done := done + LineCentres(Line(points[i], points[i + 1]));
    }
    assert done + [] == done;
  }
}
