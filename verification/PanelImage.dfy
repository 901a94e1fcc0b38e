/** The overlay of the blind-spot detector: five small images side by side in each channel's bitmap,
    each kept compressed and shown or blanked by its state. */
module PanelImage {
  import opened Common
  import OpcodeStream
  import opened FastLzFormat
  import FastLzCompressor
  import FastLzDecoder

  // ---------------------------------------------------------------- pasting one image into another

  /** The w bytes wide and h rows high image stands in `now` with its corner at byte x of row y; every
      other byte is as it was. Both images are read by byte column and row. */
  ghost predicate Pasted(now: seq<byte>, was: seq<byte>, stride: int, rows: int, src: seq<byte>, x: int, y: int,
                         w: int, h: int)
  {
    && |now| == |was|
    && (forall c, r {:trigger Index(c, r, stride)} :: OnCanvas(c, r, stride, rows) ==>
         0 <= Index(c, r, stride) < |was|
         && if x <= c < x + w && y <= r < y + h then
              0 <= Index(c - x, r - y, w) < |src| && now[Index(c, r, stride)] == src[Index(c - x, r - y, w)]
            else now[Index(c, r, stride)] == was[Index(c, r, stride)])
    && forall i :: 0 <= i < |was| && stride * rows <= i ==> now[i] == was[i]
  }

  lemma PastedNothing(was: seq<byte>, stride: int, rows: int, src: seq<byte>, x: int, y: int, w: int)
    requires stride >= 0 && rows >= 0 && stride * rows <= |was|
    ensures Pasted(was, was, stride, rows, src, x, y, w, 0)
  {
    forall c, r | OnCanvas(c, r, stride, rows) ensures 0 <= Index(c, r, stride) < |was| {
      IndexOnCanvas(c, r, stride, rows);
    }
  }

  /** The bytes from the one at column x of row y on, as far as the row goes, are those of that row. */
  lemma IndexInRow(x: int, y: int, w: int, c: int, r: int, stride: int, rows: int)
    requires OnCanvas(c, r, stride, rows) && 0 <= x && 0 <= w && x + w <= stride && 0 <= y < rows
    ensures Index(x, y, stride) <= Index(c, r, stride) < Index(x, y, stride) + w <==> r == y && x <= c < x + w
  {
    if r < y { RowsApart(r, y, stride); }
    if y < r { RowsApart(y, r, stride); }
  }

  lemma NextRow(x: int, y: int, stride: int)
    ensures Index(x, y + 1, stride) == Index(x, y, stride) + stride
  {
  }

  lemma RowInside(x: int, y: int, w: int, stride: int, rows: int)
    requires 0 <= x && 0 <= w && x + w <= stride && 0 <= y < rows
    ensures 0 <= Index(x, y, stride) && Index(x, y, stride) + w <= stride * rows
  {
    if stride > 0 {
      IndexOnCanvas(0, y, stride, rows);
      IndexOnCanvas(stride - 1, y, stride, rows);
    } else {
      assert Index(x, y, stride) == 0;
    }
  }

  method CopyBytes(dst: array<byte>, at: nat, src: array<byte>, from: nat, n: nat)
    requires at + n <= dst.Length && from + n <= src.Length && dst != src
    modifies dst
    ensures forall i :: 0 <= i < dst.Length ==>
      dst[i] == if at <= i < at + n then src[from + i - at] else old(dst[i])
  {
    forall k | 0 <= k < n { dst[at + k] := src[from + k]; }
  }

  /** One more row of the image. */
  method PasteRow(dst: array<byte>, stride: int, rows: int, src: array<byte>, ghost x: int, ghost y: int, w: int,
                  ghost i: nat, at: nat, from: nat, ghost was: seq<byte>)
    requires dst != src && 0 <= x && 0 <= w && x + w <= stride && 0 <= y && y + i < rows && stride * rows <= dst.Length
    requires at == Index(x, y + i, stride) && from == Index(0, i, w) && from + w <= src.Length
    requires Pasted(dst[..], was, stride, rows, src[..], x, y, w, i)
    modifies dst
    ensures Pasted(dst[..], was, stride, rows, src[..], x, y, w, i + 1)
  {
    RowInside(x, y + i, w, stride, rows);
    ghost var before := dst[..];
    CopyBytes(dst, at, src, from, w);
    forall c, r | OnCanvas(c, r, stride, rows)
      ensures 0 <= Index(c, r, stride) < |was|
              && if x <= c < x + w && y <= r < y + i + 1 then
                   && 0 <= Index(c - x, r - y, w) < |src[..]|
                   && dst[..][Index(c, r, stride)] == src[..][Index(c - x, r - y, w)]
                 else dst[..][Index(c, r, stride)] == was[Index(c, r, stride)]
    {
      IndexInRow(x, y + i, w, c, r, stride, rows);
    }
  }

  lemma ByteIndex(bytes: int, x: int, y: int, width: int)
    ensures bytes * (x + y * width) == Index(bytes * x, y, bytes * width)
  {
  }

  lemma ByteBounds(bytes: nat, x: nat, w: nat, width: nat, rows: nat)
    requires x + w <= width
    ensures bytes * x + bytes * w <= bytes * width
    ensures bytes * width * rows == bytes * (width * rows)
  {
    assert bytes * width == bytes * x + bytes * w + bytes * (width - x - w);
  }

  /** Copies the source image into the target with its corner at (x, y), unless it does not fit. */
  method ImgMemcopy(dst: array<byte>, widthDst: nat, heightDst: nat, src: array<byte>, widthSrc: nat, heightSrc: nat,
                    x: int, y: int, bytes: nat) returns (ok: bool)
    requires dst != src
    requires bytes * (widthDst * heightDst) <= dst.Length && bytes * (widthSrc * heightSrc) <= src.Length
    modifies dst
    ensures ok <==> x >= 0 && y >= 0 && x + widthSrc <= widthDst && y + heightSrc <= heightDst
    ensures ok ==> Pasted(dst[..], old(dst[..]), bytes * widthDst, heightDst,
                          src[..], bytes * x, y, bytes * widthSrc, heightSrc)
    ensures !ok ==> dst[..] == old(dst[..])
  {
    if x < 0 || y < 0 { return false; }
    if x + widthSrc > widthDst || y + heightSrc > heightDst { return false; }
    ghost var stride, w, left := bytes * widthDst, bytes * widthSrc, bytes * x;
    ByteIndex(bytes, x, y, widthDst);
    ByteBounds(bytes, x, widthSrc, widthDst, heightDst);
    ByteBounds(bytes, 0, widthSrc, widthSrc, heightSrc);
    PasteRows(dst, bytes * widthDst, heightDst, src, bytes * (x + y * widthDst), bytes * widthSrc, heightSrc, left, y);
    return true;
  }

  /** The loop over the rows; `at` and the position in the source advance by one row each time. */
  method PasteRows(dst: array<byte>, stride: nat, rows: nat, src: array<byte>, start: int, w: nat, h: nat,
                   ghost x: nat, ghost y: nat)
    requires dst != src && x + w <= stride && y + h <= rows && start == Index(x, y, stride)
    requires stride * rows <= dst.Length && w * h <= src.Length
    modifies dst
    ensures Pasted(dst[..], old(dst[..]), stride, rows, src[..], x, y, w, h)
  {
    var at, from := start, 0;
    PastedNothing(dst[..], stride, rows, src[..], x, y, w);
    for i := 0 to h
      invariant at == Index(x, y + i, stride) && from == Index(0, i, w)
      invariant Pasted(dst[..], old(dst[..]), stride, rows, src[..], x, y, w, i)
    {
      RowInside(x, y + i, w, stride, rows);
      RowInside(0, i, w, w, h);
      PasteRow(dst, stride, rows, src, x, y, w, i, at, from, old(dst[..]));
      NextRow(x, y + i, stride);
      NextRow(0, i, w);
      at, from := at + stride, from + w;
    }
  }

  // ---------------------------------------------------------------- one channel

  const PANELS := 5
  const BYTES := 2

  /** A channel's bitmap, the buffer for one panel, the five compressed panels, and the layout. */
  datatype Channel = Channel(bmp: array<byte>, sub: array<byte>, zip: seq<array<byte>>, width: nat, height: nat,
                             subWidth: nat, subHeight: nat, yaxis: nat)

  /** The panels fit side by side, and so do the buffers. */
  ghost predicate Laid(ch: Channel) {
    && |ch.zip| == PANELS && ch.bmp != ch.sub && ch.bmp !in ch.zip && ch.sub !in ch.zip
    && PANELS * ch.subWidth <= ch.width && ch.yaxis + ch.subHeight <= ch.height
    && BYTES * (ch.width * ch.height) <= ch.bmp.Length && BYTES * (ch.subWidth * ch.subHeight) <= ch.sub.Length
  }

  // The widths and heights of the three channels' pictures, and the height of their panels.
  const WIDTHS := [1280, 352, 1920]
  const HEIGHTS := [720, 240, 1080]
  const PANEL_HEIGHTS := [164, 45, 246]

  function Even(x: int): (r: int) { if x % 2 == 0 then x else x - 1 }

  function Max(x: int, y: int): (r: int) { if x > y then x else y }

  /** The bitmap's size for a channel, whose region of interest spans the picture's width and six tenths of
      its height, and the place of its panels. */
  function BitmapWidth(i: nat): (w: int)
    requires i < 3
  {
    Even((WIDTHS[i] as real * (1.0 - 0.0)).Floor)
  }

  function BitmapHeight(i: nat): (h: int)
    requires i < 3
  {
    Even((HEIGHTS[i] as real * (0.95 - 0.35)).Floor)
  }

  function PanelTop(i: nat): (y: int)
    requires i < 3
  {
    Max(0, BitmapHeight(i) - PANEL_HEIGHTS[i])
  }

  /** With the sizes of the three channels the panels fit: side by side, down to the bitmap's last row. */
  lemma ChannelsFit(i: nat)
    requires i < 3
    ensures PANELS * (WIDTHS[i] / PANELS) <= BitmapWidth(i)
    ensures PanelTop(i) + PANEL_HEIGHTS[i] == BitmapHeight(i)
  {
    assert HEIGHTS[0] as real * (0.95 - 0.35) == 432.0 && HEIGHTS[1] as real * (0.95 - 0.35) == 144.0
        && HEIGHTS[2] as real * (0.95 - 0.35) == 648.0;
    assert i == 0 || i == 1 || i == 2;
  }

  /** The compressed panels are those of the original images. */
  ghost predicate Packed(ch: Channel, originals: seq<seq<byte>>)
    reads ch.zip
  {
    |ch.zip| == |originals| == PANELS
    && forall j :: 0 <= j < PANELS ==>
         && |originals[j]| == BYTES * (ch.subWidth * ch.subHeight) && ch.zip[j].Length > 0
         && FastLzCompressor.DecodesTo(ch.zip[j][..], originals[j])
  }

  /** The byte column at which panel j begins. */
  function Left(j: nat, subWidth: nat): (r: nat) {
    if j == 0 then 0 else Left(j - 1, subWidth) + BYTES * subWidth
  }

  lemma {:induction false} LeftIs(j: nat, subWidth: nat)
    ensures Left(j, subWidth) == BYTES * (subWidth * j)
  {
    if j > 0 {
      LeftIs(j - 1, subWidth);
      assert subWidth * j == subWidth * (j - 1) + subWidth;
    }
  }

  /** The panels lie side by side. */
  lemma {:induction false} LeftOf(i: nat, j: nat, subWidth: nat)
    requires i < j
    ensures Left(i, subWidth) + BYTES * subWidth <= Left(j, subWidth)
  {
    if i < j - 1 { LeftOf(i, j - 1, subWidth); }
  }

  /** What panel j of a bitmap shows: the image when it is on, nothing otherwise. */
  ghost predicate Shows(now: seq<byte>, stride: int, left: int, y: int, w: int, h: int, on: bool, image: seq<byte>) {
    forall c, r {:trigger Index(c, r, stride)} :: left <= c < left + w && y <= r < y + h ==>
      0 <= Index(c, r, stride) < |now| && 0 <= Index(c - left, r - y, w) < |image|
      && now[Index(c, r, stride)] == if on then image[Index(c - left, r - y, w)] else 0
  }

  /** Outside the panels up to the column `right`, and below the canvas, nothing has changed. */
  ghost predicate RestKept(now: seq<byte>, was: seq<byte>, stride: int, rows: int, right: int, y: int, h: int) {
    && |now| == |was|
    && (forall c, r {:trigger Index(c, r, stride)} ::
         OnCanvas(c, r, stride, rows) && (right <= c || r < y || y + h <= r) ==>
         0 <= Index(c, r, stride) < |now| && now[Index(c, r, stride)] == was[Index(c, r, stride)])
    && forall i :: 0 <= i < |was| && stride * rows <= i ==> now[i] == was[i]
  }

  lemma PastedShows(now: seq<byte>, was: seq<byte>, stride: int, rows: int, src: seq<byte>, x: int, y: int, w: int,
                    h: int,
                    on: bool, image: seq<byte>)
    requires Pasted(now, was, stride, rows, src, x, y, w, h) && 0 <= x && 0 <= y && x + w <= stride && y + h <= rows
    requires 0 <= w && 0 <= h && w * h == |image| <= |src|
    requires if on then src[..|image|] == image else forall k :: 0 <= k < |src| ==> src[k] == 0
    ensures Shows(now, stride, x, y, w, h, on, image)
  {
    forall c, r | x <= c < x + w && y <= r < y + h
      ensures 0 <= Index(c, r, stride) < |now| && 0 <= Index(c - x, r - y, w) < |image|
              && now[Index(c, r, stride)] == if on then image[Index(c - x, r - y, w)] else 0
    {
      IndexOnCanvas(c - x, r - y, w, h);
      assert OnCanvas(c, r, stride, rows);
      if on { assert src[..|image|][Index(c - x, r - y, w)] == image[Index(c - x, r - y, w)]; }
    }
  }

  lemma ShowsKept(now: seq<byte>, was: seq<byte>, stride: int, rows: int, src: seq<byte>, x: int, y: int, w: int,
                  h: int,
                  left: int, on: bool, image: seq<byte>)
    requires Pasted(now, was, stride, rows, src, x, y, w, h) && 0 <= left && left + w <= x && 0 <= y
    requires x + w <= stride && y + h <= rows && Shows(was, stride, left, y, w, h, on, image)
    ensures Shows(now, stride, left, y, w, h, on, image)
  {
    forall c, r | left <= c < left + w && y <= r < y + h
      ensures 0 <= Index(c, r, stride) < |now| && now[Index(c, r, stride)] == was[Index(c, r, stride)]
    {
      assert OnCanvas(c, r, stride, rows);
    }
  }

  lemma RestPasted(now: seq<byte>, before: seq<byte>, was: seq<byte>, stride: int, rows: int, src: seq<byte>,
                   x: int, y: int,
                   w: int, h: int)
    requires Pasted(now, before, stride, rows, src, x, y, w, h) && RestKept(before, was, stride, rows, x, y, h)
    requires w >= 0
    ensures RestKept(now, was, stride, rows, x + w, y, h)
  {
  }

  ghost predicate PanelShows(now: seq<byte>, ch: Channel, j: nat, on: bool, image: seq<byte>) {
    Shows(now, BYTES * ch.width, Left(j, ch.subWidth), ch.yaxis, BYTES * ch.subWidth, ch.subHeight, on, image)
  }

  /** The first n panels are as their states say, the rest of the bitmap as it was. */
  ghost predicate Composed(now: seq<byte>, was: seq<byte>, ch: Channel, state: seq<bool>, originals: seq<seq<byte>>,
                           n: nat)
  {
    && n <= |state| && n <= |originals|
    && (forall j {:trigger PanelShows(now, ch, j, state[j], originals[j])} :: 0 <= j < n ==>
         PanelShows(now, ch, j, state[j], originals[j]))
    && RestKept(now, was, BYTES * ch.width, ch.height, Left(n, ch.subWidth), ch.yaxis, ch.subHeight)
  }

  lemma PanelInside(ch: Channel, j: nat)
    requires Laid(ch) && j < PANELS
    ensures Left(j, ch.subWidth) + BYTES * ch.subWidth == Left(j + 1, ch.subWidth) <= BYTES * ch.width
  {
    LeftIs(PANELS, ch.subWidth);
    if j + 1 < PANELS { LeftOf(j, PANELS, ch.subWidth); LeftOf(j + 1, PANELS, ch.subWidth); }
  }

  /** What has been pasted as panel j of a channel. */
  ghost predicate PanelPasted(now: seq<byte>, before: seq<byte>, ch: Channel, j: nat, src: seq<byte>, on: bool,
                              image: seq<byte>) {
    && Pasted(now, before, BYTES * ch.width, ch.height, src, Left(j, ch.subWidth), ch.yaxis, BYTES * ch.subWidth,
              ch.subHeight)
    && |image| == BYTES * (ch.subWidth * ch.subHeight) <= |src|
    && if on then src[..|image|] == image else forall k :: 0 <= k < |src| ==> src[k] == 0
  }

  lemma NewPanel(now: seq<byte>, before: seq<byte>, ch: Channel, j: nat, src: seq<byte>, on: bool, image: seq<byte>)
    requires Laid(ch) && j < PANELS && PanelPasted(now, before, ch, j, src, on, image)
    ensures PanelShows(now, ch, j, on, image)
  {
    PanelInside(ch, j);
    ByteBounds(BYTES, 0, ch.subWidth, ch.subWidth, ch.subHeight);
    PastedShows(now, before, BYTES * ch.width, ch.height, src, Left(j, ch.subWidth), ch.yaxis, BYTES * ch.subWidth,
                ch.subHeight, on, image);
  }

  lemma OldPanel(now: seq<byte>, before: seq<byte>, ch: Channel, i: nat, j: nat, src: seq<byte>, on: bool,
                 image: seq<byte>,
                 on': bool, image': seq<byte>)
    requires Laid(ch) && i < j < PANELS && PanelPasted(now, before, ch, j, src, on, image)
    requires PanelShows(before, ch, i, on', image')
    ensures PanelShows(now, ch, i, on', image')
  {
    PanelInside(ch, j);
    LeftOf(i, j, ch.subWidth);
    ShowsKept(now, before, BYTES * ch.width, ch.height, src, Left(j, ch.subWidth), ch.yaxis, BYTES * ch.subWidth,
              ch.subHeight, Left(i, ch.subWidth), on', image');
  }

  lemma ComposedNext(now: seq<byte>, before: seq<byte>, was: seq<byte>, ch: Channel, state: seq<bool>,
                     originals: seq<seq<byte>>, j: nat, src: seq<byte>)
    requires Laid(ch) && |state| == |originals| == PANELS > j
    requires Composed(before, was, ch, state, originals, j)
    requires PanelPasted(now, before, ch, j, src, state[j], originals[j])
    ensures Composed(now, was, ch, state, originals, j + 1)
  {
    NewPanel(now, before, ch, j, src, state[j], originals[j]);
    forall i | 0 <= i < j ensures PanelShows(now, ch, i, state[i], originals[i]) {
      OldPanel(now, before, ch, i, j, src, state[j], originals[j], state[i], originals[i]);
    }
    PanelInside(ch, j);
    RestPasted(now, before, was, BYTES * ch.width, ch.height, src, Left(j, ch.subWidth), ch.yaxis,
               BYTES * ch.subWidth, ch.subHeight);
  }

  // ---------------------------------------------------------------- pixel by pixel

  lemma ByteOf(bytes: int, x: int, y: int, width: int, b: int)
    ensures Index(bytes * x + b, y, bytes * width) == bytes * (x + y * width) + b
  {
    ByteIndex(bytes, x, y, width);
  }

  lemma ByteColumn(bytes: nat, x: nat, width: nat, b: nat)
    requires x < width && b < bytes
    ensures 0 <= bytes * x + b < bytes * width
  {
    Product(x + 1, width, bytes);
    assert (x + 1) * bytes == bytes * x + bytes;
  }

  /** What an image copied to (x, y) leaves in byte b of its own pixel (c, r). */
  lemma PastedPixel(now: seq<byte>, was: seq<byte>, widthDst: nat, heightDst: nat, src: seq<byte>, widthSrc: nat,
                    heightSrc: nat, x: nat, y: nat, bytes: nat, c: nat, r: nat, b: nat)
    requires x + widthSrc <= widthDst && y + heightSrc <= heightDst
    requires Pasted(now, was, bytes * widthDst, heightDst, src, bytes * x, y, bytes * widthSrc, heightSrc)
    requires c < widthSrc && r < heightSrc && b < bytes
    ensures var to, from := bytes * ((x + c) + (y + r) * widthDst) + b, bytes * (c + r * widthSrc) + b;
      0 <= to < |now| && 0 <= from < |src| && now[to] == src[from]
  {
    ByteOf(bytes, x + c, y + r, widthDst, b);
    ByteOf(bytes, c, r, widthSrc, b);
    ByteColumn(bytes, x + c, widthDst, b);
    ByteColumn(bytes, c, widthSrc, b);
    var column := bytes * (x + c) + b;
    assert column - bytes * x == bytes * c + b;
    assert OnCanvas(column, y + r, bytes * widthDst, heightDst);
  }

  /** Byte b of pixel (x, y) of panel j, five of which lie side by side: that of the original image, two bytes a
      pixel, or zero. */
  lemma PanelPixel(now: seq<byte>, was: seq<byte>, ch: Channel, state: seq<bool>, originals: seq<seq<byte>>, j: nat,
                   x: nat, y: nat, b: nat)
    requires Laid(ch) && Composed(now, was, ch, state, originals, 5)
    requires j < 5 && x < ch.subWidth && y < ch.subHeight && b < 2
    ensures var to, from := 2 * ((ch.subWidth * j + x) + (ch.yaxis + y) * ch.width) + b, 2 * (x + y * ch.subWidth) + b;
      0 <= to < |now| && 0 <= from < |originals[j]| && now[to] == if state[j] then originals[j][from] else 0
  {
    LeftIs(j, ch.subWidth);
    ByteOf(2, ch.subWidth * j + x, ch.yaxis + y, ch.width, b);
    ByteOf(2, x, y, ch.subWidth, b);
    ByteColumn(2, x, ch.subWidth, b);
    assert PanelShows(now, ch, j, state[j], originals[j]);
    var column := 2 * (ch.subWidth * j + x) + b;
    assert column - Left(j, ch.subWidth) == 2 * x + b;
    assert Index(column, ch.yaxis + y, BYTES * ch.width) == 2 * ((ch.subWidth * j + x) + (ch.yaxis + y) * ch.width) + b;
  }

  /** Byte b of a pixel (x, y) beside, above or below the panels. */
  lemma OtherPixel(now: seq<byte>, was: seq<byte>, ch: Channel, state: seq<bool>, originals: seq<seq<byte>>, x: nat,
                   y: nat, b: nat)
    requires Laid(ch) && Composed(now, was, ch, state, originals, 5) && x < ch.width && y < ch.height && b < 2
    requires ch.subWidth * 5 <= x || y < ch.yaxis || ch.yaxis + ch.subHeight <= y
    ensures |now| == |was| && 0 <= 2 * (x + y * ch.width) + b < |now|
    ensures now[2 * (x + y * ch.width) + b] == was[2 * (x + y * ch.width) + b]
  {
    LeftIs(5, ch.subWidth);
    ByteOf(2, x, y, ch.width, b);
    ByteColumn(2, x, ch.width, b);
    assert OnCanvas(2 * x + b, y, BYTES * ch.width, ch.height);
  }

  // ---------------------------------------------------------------- the updates

  /** Panel j of a channel; `src` is the image that has been pasted. */
  method UpdatePanel(ch: Channel, blank: array<byte>, j: nat, on: bool, ghost originals: seq<seq<byte>>)
    returns (ghost src: seq<byte>)
    requires Laid(ch) && Packed(ch, originals) && j < PANELS && blank != ch.bmp
    requires blank.Length == BYTES * (ch.subWidth * ch.subHeight) && forall k :: 0 <= k < blank.Length ==> blank[k] == 0
    modifies ch.bmp, ch.sub
    ensures PanelPasted(ch.bmp[..], old(ch.bmp[..]), ch, j, src, on, originals[j])
  {
    LeftOf(j, PANELS, ch.subWidth);
    LeftIs(PANELS, ch.subWidth);
    LeftIs(j, ch.subWidth);
    assert ch.zip[j] in ch.zip;
    ghost var original := originals[j];
    if !on {
      src := blank[..];
      var ok := ImgMemcopy(ch.bmp, ch.width, ch.height, blank, ch.subWidth, ch.subHeight, ch.subWidth * j, ch.yaxis,
                           BYTES);
      return;
    }
    var size := BYTES * (ch.subWidth * ch.subHeight);
    var zip := ch.zip[j];
    assert zip[..zip.Length] == zip[..];
    assert Decompressed(zip[..], size) == OpcodeStream.Done(original);
    var n := FastLzDecoder.Decompress(zip, zip.Length, ch.sub, size);
    src := ch.sub[..];
    assert src[..n] == original;
    var ok := ImgMemcopy(ch.bmp, ch.width, ch.height, ch.sub, ch.subWidth, ch.subHeight, ch.subWidth * j, ch.yaxis,
                         BYTES);
  }

  /** One panel more of the bitmap. */
  method ComposePanel(ch: Channel, blank: array<byte>, j: nat, state: seq<bool>, ghost originals: seq<seq<byte>>,
                      ghost was: seq<byte>)
    requires Laid(ch) && Packed(ch, originals) && j < PANELS == |state| && blank != ch.bmp
    requires blank.Length == BYTES * (ch.subWidth * ch.subHeight) && forall k :: 0 <= k < blank.Length ==> blank[k] == 0
    requires Composed(ch.bmp[..], was, ch, state, originals, j)
    modifies ch.bmp, ch.sub
    ensures Composed(ch.bmp[..], was, ch, state, originals, j + 1)
  {
    ghost var before := ch.bmp[..];
    ghost var src := UpdatePanel(ch, blank, j, state[j], originals);
    ComposedNext(ch.bmp[..], before, was, ch, state, originals, j, src);
  }

  /** The bitmap of one channel: every panel that is on shows its original image. */
  method UpdateChannel(ch: Channel, state: seq<bool>, ghost originals: seq<seq<byte>>)
    requires Laid(ch) && |state| == PANELS && Packed(ch, originals)
    modifies ch.bmp, ch.sub
    ensures Composed(ch.bmp[..], old(ch.bmp[..]), ch, state, originals, PANELS)
  {
    var blank := new byte[BYTES * (ch.subWidth * ch.subHeight)](_ => 0);
    ghost var was := ch.bmp[..];
    NothingComposed(was, ch, state, originals);
    for j := 0 to PANELS
      invariant Composed(ch.bmp[..], was, ch, state, originals, j)
      invariant Packed(ch, originals) && fresh(blank) && forall k :: 0 <= k < blank.Length ==> blank[k] == 0
    {
      ComposePanel(ch, blank, j, state, originals, was);
    }
  }

  lemma NothingComposed(was: seq<byte>, ch: Channel, state: seq<bool>, originals: seq<seq<byte>>)
    requires Laid(ch) && |was| == ch.bmp.Length && |state| == |originals| == PANELS
    ensures Composed(was, was, ch, state, originals, 0)
  {
    ByteBounds(BYTES, 0, ch.width, ch.width, ch.height);
    PastedNothing(was, BYTES * ch.width, ch.height, [], 0, 0, 0);
  }

  /** The compressed form of a panel, kept in a buffer of just its size. It is longer than the image where
      no three bytes in a row occur a second time, and for images of up to 16 bytes, in which none are looked for. */
  method PackPanel(image: array<byte>) returns (zip: array<byte>)
    requires image.Length > 0
    ensures fresh(zip) && zip.Length > 0 && FastLzCompressor.DecodesTo(zip[..], image[..])
    ensures image.Length <= 16 || FastLzCompressor.Unrepeated(image[..], image.Length - 13) ==>
      zip.Length == FastLzCompressor.LiteralCost(image.Length) > image.Length
    ensures (forall i :: 2 <= i < image.Length ==> image[i] == image[i - 1]) ==> zip.Length <= image.Length / 64 + 32
  {
    var tmp := new byte[image.Length + image.Length / 32 + 1];
    var n := FastLzCompressor.Compress(image, image.Length, tmp);
    zip := new byte[n];
    CopyBytes(zip, 0, tmp, 0, n);
    assert zip[..] == tmp[..n] && image[..image.Length] == image[..];
  }

  ghost predicate Apart(a: Channel, b: Channel) {
    a.bmp != b.bmp && a.bmp != b.sub && a.sub != b.bmp && a.sub != b.sub
    && a.bmp !in b.zip && a.sub !in b.zip && b.bmp !in a.zip && b.sub !in a.zip
  }

  method UpdateImages(channels: seq<Channel>, state: seq<bool>, ghost originals: seq<seq<seq<byte>>>)
    requires |state| == PANELS && |originals| == |channels|
    requires forall i :: 0 <= i < |channels| ==> Laid(channels[i]) && Packed(channels[i], originals[i])
    requires forall i, j :: 0 <= i < j < |channels| ==> Apart(channels[i], channels[j])
    modifies set i | 0 <= i < |channels| :: channels[i].bmp
    modifies set i | 0 <= i < |channels| :: channels[i].sub
    ensures forall i :: 0 <= i < |channels| ==>
      Composed(channels[i].bmp[..], old(channels[i].bmp[..]), channels[i], state, originals[i], PANELS)
  {
    for n := 0 to |channels|
      invariant forall i :: 0 <= i < |channels| ==> Packed(channels[i], originals[i])
      invariant forall i :: 0 <= i < n ==>
        Composed(channels[i].bmp[..], old(channels[i].bmp[..]), channels[i], state, originals[i], PANELS)
      invariant forall i :: n <= i < |channels| ==> channels[i].bmp[..] == old(channels[i].bmp[..])
    {
      UpdateChannel(channels[n], state, originals[n]);
      forall i | 0 <= i < |channels| && i != n ensures Apart(channels[i], channels[n]) {
        assert Apart(channels[if i < n then i else n], channels[if i < n then n else i]);
      }
    }
  }
}