/**
 Canvases: windows into a pixel array, and rectangles filled through nested windows.

 `base` stands for the pixel pointer: pixel (x, y) is cell `base + y * stride + x` of the array.
 Products are required to fit 32 bits, as the source computes them in `u32`.
 */
module Canvas {

  import opened Arithmetic
  import opened Bytes

  const U32_MAX := 0xFFFF_FFFF

  datatype Canvas = Canvas(base: nat, width: nat, height: nat, stride: nat)

  function Index(c: Canvas, x: int, y: int): int {
    c.base + y * c.stride + x
  }

  predicate Inside(c: Canvas, x: int, y: int) {
    0 <= x < c.width && 0 <= y < c.height
  }

  /** The window fits an array of `n` cells and its index arithmetic fits 32 bits. */
  predicate Fits(c: Canvas, n: nat) {
    c.width <= c.stride && c.height * c.stride <= U32_MAX
    && (c.width > 0 && c.height > 0 ==> c.base + (c.height - 1) * c.stride + c.width <= n)
  }

  // ----- index arithmetic -----

  lemma {:induction false} IndexInRange(c: Canvas, n: nat, x: int, y: int)
    requires Fits(c, n) && Inside(c, x, y)
    ensures 0 <= Index(c, x, y) < n && 0 <= y * c.stride + x <= U32_MAX
  {
    if y > 0 { Spread(0, y, c.stride); }
    Spread(y, c.height, c.stride);
    if y < c.height - 1 { Spread(y, c.height - 1, c.stride); }
  }

  /** A cell belongs to one pixel at most. */
  lemma {:induction false} IndexInjective(c: Canvas, x: int, y: int, x': int, y': int)
    requires c.width <= c.stride && Inside(c, x, y) && Inside(c, x', y') && Index(c, x, y) == Index(c, x', y')
    ensures x == x' && y == y'
  {
    if y < y' { Spread(y, y', c.stride); }
    if y' < y { Spread(y', y, c.stride); }
  }

  // ----- drawing -----

  method PutPixel(pixels: array<nat>, c: Canvas, x: nat, y: nat, px: nat)
    requires Fits(c, pixels.Length)
    modifies pixels
    ensures forall i :: 0 <= i < pixels.Length ==>
              pixels[i] == if Inside(c, x, y) && i == Index(c, x, y) then px else old(pixels[i])
  {
    if x >= c.width || y >= c.height { return; }
    IndexInRange(c, pixels.Length, x, y);
    pixels[c.base + y * c.stride + x] := px;
  }

  /** `x` lies in the `w` pixels from `from` on. */
  predicate Within(x: int, from: nat, w: nat) {
    from <= x < from + w
  }

  /** Cell `i` is a pixel of the rectangle that is on the canvas. */
  ghost predicate Hit(c: Canvas, x: nat, y: nat, w: nat, h: nat, i: int) {
    exists px, py :: Inside(c, px, py) && Within(px, x, w) && Within(py, y, h) && i == Index(c, px, py)
  }

  function SatAdd(a: nat, b: nat): nat {
    Min(a + b, U32_MAX)
  }

  /** Fill the part of a rectangle that is on the canvas; every other cell keeps its value. */
  method FillRect(pixels: array<nat>, c: Canvas, x: nat, y: nat, w: nat, h: nat, px: nat)
    requires Fits(c, pixels.Length) && c.width <= U32_MAX && c.height <= U32_MAX
    modifies pixels
    ensures forall i :: 0 <= i < pixels.Length ==> pixels[i] == if Hit(c, x, y, w, h, i) then px else old(pixels[i])
  {
    var x1, y1 := Min(SatAdd(x, w), c.width), Min(SatAdd(y, h), c.height);
    if x >= c.width || y >= c.height || x1 <= x || y1 <= y { return; }
    var row := y;
    while row < y1
      invariant y <= row <= y1
      invariant forall i :: 0 <= i < pixels.Length ==> pixels[i] == if Hit(c, x, y, w, row - y, i) then px else old(pixels[i])
    {
      IndexInRange(c, pixels.Length, x, row);
      IndexInRange(c, pixels.Length, x1 - 1, row);
      RowHits(c, x, y, w, row, x1, row - y, row + 1 - y);
      var at := c.base + row * c.stride + x;
      forall i | at <= i < at + (x1 - x) { pixels[i] := px; }
      row := row + 1;
    }
    AllRows(c, x, y, w, h, y1);
  }

  /** One more row adds the cells of that row. */
  lemma {:induction false} RowHits(c: Canvas, x: nat, y: nat, w: nat, row: nat, x1: nat, h: nat, h': nat)
    requires c.width <= c.stride && y <= row < c.height && x1 == Min(x + w, c.width) && x < x1
    requires h == row - y && h' == h + 1
    ensures forall i :: Hit(c, x, y, w, h', i) <==> Hit(c, x, y, w, h, i) || Index(c, x, row) <= i < Index(c, x1, row)
  {
    forall i ensures Hit(c, x, y, w, h', i) <==> Hit(c, x, y, w, h, i) || Index(c, x, row) <= i < Index(c, x1, row) {
      if Hit(c, x, y, w, h, i) {
        var a, b :| Inside(c, a, b) && Within(a, x, w) && Within(b, y, h) && i == Index(c, a, b);
        assert Within(b, y, h');
      }
      if Index(c, x, row) <= i < Index(c, x1, row) {
        var a := x + (i - Index(c, x, row));
        assert Inside(c, a, row) && Within(a, x, w) && Within(row, y, h') && i == Index(c, a, row);
      }
      if Hit(c, x, y, w, h', i) {
        var a, b :| Inside(c, a, b) && Within(a, x, w) && Within(b, y, h') && i == Index(c, a, b);
        assert b < row ==> Within(b, y, h);
      }
    }
  }

  lemma {:induction false} AllRows(c: Canvas, x: nat, y: nat, w: nat, h: nat, y1: nat)
    requires y1 == Min(y + h, c.height) && y <= y1
    ensures forall i :: Hit(c, x, y, w, h, i) <==> Hit(c, x, y, w, y1 - y, i)
  {
    assert forall a, b :: Inside(c, a, b) ==> (Within(b, y, h) <==> Within(b, y, y1 - y));
  }

  // ----- windows inside windows -----

  /** The window (x, y, w, h) of a canvas, clipped to its bounds. */
  function Sub(c: Canvas, x: nat, y: nat, w: nat, h: nat): (s: Canvas)
    ensures s.width <= w && s.height <= h
  {
    var cx, cy := Min(x, c.width), Min(y, c.height);
    Canvas(c.base + cy * c.stride + cx, Min(w, c.width - cx), Min(h, c.height - cy), c.stride)
  }

  lemma {:induction false} SubFits(c: Canvas, n: nat, x: nat, y: nat, w: nat, h: nat)
    requires Fits(c, n)
    ensures Fits(Sub(c, x, y, w, h), n)
  {
    var s, cy := Sub(c, x, y, w, h), Min(y, c.height);
    Distribute(cy, s.height - 1, c.stride);
    if cy + s.height - 1 < c.height - 1 { Spread(cy + s.height - 1, c.height - 1, c.stride); }
    if s.height < c.height { Spread(s.height, c.height, c.stride); }
  }

  /** A sub-canvas fits wherever its parent does, and its pixels are the parent's pixels inside the window. */
  lemma {:induction false} SubPixels(c: Canvas, n: nat, x: nat, y: nat, w: nat, h: nat)
    requires Fits(c, n)
    ensures var s := Sub(c, x, y, w, h);
            Fits(s, n)
            && (forall a, b :: Inside(s, a, b) ==> Inside(c, x + a, y + b) && Index(s, a, b) == Index(c, x + a, y + b))
            && (forall px, py :: Inside(c, px, py) && Within(px, x, w) && Within(py, y, h) ==> Inside(s, px - x, py - y))
  {
    hide Fits;
    var s := Sub(c, x, y, w, h);
    SubFits(c, n, x, y, w, h);
    forall a, b | Inside(s, a, b) ensures Inside(c, x + a, y + b) && Index(s, a, b) == Index(c, x + a, y + b) {
      Distribute(y, b, c.stride);
    }
  }

  /** Cell `i` is some pixel of the canvas. */
  ghost predicate OnCanvas(c: Canvas, i: int) {
    exists px, py :: Inside(c, px, py) && i == Index(c, px, py)
  }

  /** A rectangle filled through a sub-canvas paints exactly the parent's pixels that lie in the window
      and in the rectangle moved there; no other pixel and no cell of the padding changes. */
  method FillRectInSub(pixels: array<nat>, c: Canvas, sx: nat, sy: nat, sw: nat, sh: nat,
                       x: nat, y: nat, w: nat, h: nat, px: nat)
    requires Fits(c, pixels.Length) && c.width <= U32_MAX && c.height <= U32_MAX
    modifies pixels
    ensures forall i :: 0 <= i < pixels.Length && !OnCanvas(c, i) ==> pixels[i] == old(pixels[i])
    ensures forall a, b :: Inside(c, a, b) ==>
              0 <= Index(c, a, b) < pixels.Length &&
              pixels[Index(c, a, b)] ==
                if Within(a, sx, sw) && Within(b, sy, sh) && Within(a, sx + x, w) && Within(b, sy + y, h)
                then px else old(pixels[..])[Index(c, a, b)]
  {
    var s := Sub(c, sx, sy, sw, sh);
    SubPixels(c, pixels.Length, sx, sy, sw, sh);
    FillRect(pixels, s, x, y, w, h, px);
    forall i | Hit(s, x, y, w, h, i) ensures OnCanvas(c, i) { HitOnParent(c, pixels.Length, sx, sy, sw, sh, x, y, w, h, i); }
    forall a, b | Inside(c, a, b) ensures 0 <= Index(c, a, b) < pixels.Length &&
        (Hit(s, x, y, w, h, Index(c, a, b))
         <==> Within(a, sx, sw) && Within(b, sy, sh) && Within(a, sx + x, w) && Within(b, sy + y, h))
    {
      IndexInRange(c, pixels.Length, a, b);
      HitThrough(c, pixels.Length, sx, sy, sw, sh, x, y, w, h, a, b);
    }
  }

  lemma {:induction false} HitOnParent(c: Canvas, n: nat, sx: nat, sy: nat, sw: nat, sh: nat,
                                       x: nat, y: nat, w: nat, h: nat, i: int)
    requires Fits(c, n) && Hit(Sub(c, sx, sy, sw, sh), x, y, w, h, i)
    ensures OnCanvas(c, i)
  {
    var s := Sub(c, sx, sy, sw, sh);
    SubPixels(c, n, sx, sy, sw, sh);
    var a, b :| Inside(s, a, b) && Within(a, x, w) && Within(b, y, h) && i == Index(s, a, b);
    assert Inside(c, sx + a, sy + b) && i == Index(c, sx + a, sy + b);
  }

  lemma {:induction false} HitThrough(c: Canvas, n: nat, sx: nat, sy: nat, sw: nat, sh: nat,
                                      x: nat, y: nat, w: nat, h: nat, a: int, b: int)
    requires Fits(c, n) && Inside(c, a, b)
    ensures Hit(Sub(c, sx, sy, sw, sh), x, y, w, h, Index(c, a, b))
       <==> Within(a, sx, sw) && Within(b, sy, sh) && Within(a, sx + x, w) && Within(b, sy + y, h)
  {
    var s, i := Sub(c, sx, sy, sw, sh), Index(c, a, b);
    SubPixels(c, n, sx, sy, sw, sh);
    if Hit(s, x, y, w, h, i) {
      var p, q :| Inside(s, p, q) && Within(p, x, w) && Within(q, y, h) && i == Index(s, p, q);
      assert Inside(c, sx + p, sy + q);
      IndexInjective(c, a, b, sx + p, sy + q);
    }
    if Within(a, sx, sw) && Within(b, sy, sh) && Within(a, sx + x, w) && Within(b, sy + y, h) {
      var p, q := a - sx, b - sy;
      assert Inside(s, p, q) && Within(p, x, w) && Within(q, y, h) && i == Index(s, p, q);
    }
  }
}
