/**
 Bresenham's line, against its geometry: the k-th pixel visited is k steps along the longer axis and
 the rounded ideal distance along the other.
 */
module Line {

  import opened Arithmetic
  import opened Bytes
  import opened Canvas

  predicate I32(v: int) {
    -0x8000_0000 <= v <= 0x7FFF_FFFF
  }

  /** The longest span for which the doubled error always fits a signed 32-bit word. */
  const MAX_SPAN := 715_827_883

  /** Spans for which every value of the loop fits: diagonals, straight lines, and lines whose longer
      span is not too long for how steep they are. */
  predicate Short(dx: nat, dy: nat) {
    var l, s := Longer(dx, dy), Min(dx, dy);
    l <= 0x7FFF_FFFF
    && (s == l || (s == 0 && 2 * l <= 0x7FFF_FFFF) || (3 * l - 2 * s <= 0x8000_0000 && 3 * l <= 0x1_0000_0000))
  }

  // ----- the ideal line -----

  /** The integer nearest to num / den, halves going down. */
  function Round(num: nat, den: nat): (r: nat)
    requires den > 0
  {
    (2 * num + den - 1) / (2 * den)
  }

  /** `prod`, a multiple of `den`, is within half of `den` of `num`, the lower one in a tie. */
  predicate Near(num: int, den: int, prod: int) {
    0 <= 2 * (prod - num) + den < 2 * den
  }

  /** Rounding is the one integer whose multiple is near. */
  lemma {:induction false} RoundUnique(num: nat, den: nat, b: nat)
    requires den > 0
    ensures b == Round(num, den) <==> Near(num, den, Mul(b, den))
  {
    hide Mul, Round;
    var r := Round(num, den);
    RoundNear(num, den);
    if b > r { MulSpread(r, b, den); }
    if b < r { MulSpread(b, r, den); }
  }

  lemma {:induction false} RoundNear(num: nat, den: nat)
    requires den > 0
    ensures Near(num, den, Mul(Round(num, den), den))
  {
    var n, r := 2 * num + den - 1, Round(num, den);
    DivLow(n, 2 * den);
    DivHigh(n, 2 * den);
    assert r * (2 * den) == 2 * (r * den);
  }

  function Span(a: int, b: int): (r: nat) {
    if a <= b then b - a else a - b
  }

  function Longer(dx: nat, dy: nat): nat {
    Max(dx, dy)
  }

  /** Steps along x after `k` moves. */
  function StepsX(dx: nat, dy: nat, k: nat): nat {
    if dx >= dy then k else Round(Mul(k, dx), dy)
  }

  /** Steps along y after `k` moves. */
  function StepsY(dx: nat, dy: nat, k: nat): nat {
    if dx < dy then k else if dx == 0 then 0 else Round(Mul(k, dy), dx)
  }

  /** The error term that goes with the k-th pixel. */
  function Err(dx: nat, dy: nat, k: nat): int {
    Mul(StepsY(dx, dy, k) + 1, dx) - Mul(StepsX(dx, dy, k) + 1, dy)
  }

  // ----- one turn of the loop -----

  /** One move along the longer span `d`: the rounded distance along the shorter span `e` goes up
      exactly when the error says so. */
  lemma {:induction false} MinorStep(d: nat, e: nat, k: nat, b: nat)
    requires d > 0 && e <= d && b == Round(Mul(k, e), d)
    ensures Near(Mul(k, e), d, Mul(b, d)) && (e == d ==> Mul(b, d) == Mul(k, e)) && (e == 0 ==> Mul(b, d) == Mul(k, e) == 0)
    ensures Round(Mul(k + 1, e), d) == if 2 * (Mul(b, d) - Mul(k, e)) < 2 * e - d then b + 1 else b
  {
    hide Round, Mul;
    RoundUnique(Mul(k, e), d, b);
    if e == d { RoundUnique(Mul(k, e), d, k); }
    if e == 0 { MulZero(k, d); RoundUnique(Mul(k, e), d, 0); }
    MulNext(k, e);
    MulNext(b, d);
    if 2 * (Mul(b, d) - Mul(k, e)) < 2 * e - d {
      RoundUnique(Mul(k + 1, e), d, b + 1);
    } else {
      RoundUnique(Mul(k + 1, e), d, b);
    }
  }

  lemma {:induction false} MulZero(k: nat, d: nat)
    ensures Mul(k, 0) == 0 && Mul(0, d) == 0
  {
  }

  lemma {:induction false} ErrExpanded(dx: nat, dy: nat, k: nat)
    ensures Err(dx, dy, k) == Mul(StepsY(dx, dy, k), dx) + dx - Mul(StepsX(dx, dy, k), dy) - dy
  {
    hide Mul;
    MulNext(StepsY(dx, dy, k), dx);
    MulNext(StepsX(dx, dy, k), dy);
  }

  /** The comparisons of the loop pick the next ideal pixel. */
  lemma {:induction false} TurnX(dx: nat, dy: nat, k: nat)
    requires dx >= dy && 0 < dx
    ensures var e := Err(dx, dy, k);
            2 * e + dy > 0 && StepsX(dx, dy, k + 1) == StepsX(dx, dy, k) + 1
            && StepsY(dx, dy, k + 1) == StepsY(dx, dy, k) + (if 2 * e < dx then 1 else 0)
            && Err(dx, dy, k + 1) == e - dy + (if 2 * e < dx then dx as int else 0)
            && (if dy == dx then e == 0 else if dy == 0 then e == dx else 2 * e < 3 * dx - 2 * dy)
  {
    hide Round, Err, Mul;
    ErrExpanded(dx, dy, k);
    ErrExpanded(dx, dy, k + 1);
    var b := StepsY(dx, dy, k);
    MinorStep(dx, dy, k, b);
    MulNext(k, dy);
    MulNext(b, dx);
  }

  lemma {:induction false} TurnY(dx: nat, dy: nat, k: nat)
    requires dx < dy
    ensures var e := Err(dx, dy, k);
            2 * e < dx && StepsY(dx, dy, k + 1) == StepsY(dx, dy, k) + 1
            && StepsX(dx, dy, k + 1) == StepsX(dx, dy, k) + (if 2 * e + dy > 0 then 1 else 0)
            && Err(dx, dy, k + 1) == e + dx - (if 2 * e + dy > 0 then dy as int else 0)
            && (if dx == 0 then e + dy == 0 else 2 * e > 2 * dx - 3 * dy)
  {
    hide Round, Err, Mul;
    ErrExpanded(dx, dy, k);
    ErrExpanded(dx, dy, k + 1);
    var a := StepsX(dx, dy, k);
    MinorStep(dy, dx, k, a);
    MulNext(k, dx);
    MulNext(a, dy);
  }

  /** On short spans every value that a turn computes fits a signed 32-bit word. */
  lemma {:induction false} TurnFits(dx: nat, dy: nat, k: nat)
    requires Short(dx, dy) && 0 < Longer(dx, dy)
    ensures var e := Err(dx, dy, k);
            I32(e) && I32(2 * e) && (2 * e + dy > 0 ==> I32(e - dy))
  {
    hide Err, StepsX, StepsY;
    if dx >= dy { TurnX(dx, dy, k); } else { TurnY(dx, dy, k); }
  }

  /** Every turn's doubled error fits a signed 32-bit word. */
  ghost predicate ErrorFits(dx: nat, dy: nat) {
    forall k :: 0 <= k < Longer(dx, dy) ==> I32(2 * Err(dx, dy, k))
  }

  /** The bound is exact: the error fits on all lines of spans up to `limit` if and only if the limit
      is at most `MAX_SPAN`. */
  lemma {:induction false} SpanLimit(limit: nat)
    ensures (forall dx: nat, dy: nat :: dx <= limit && dy <= limit ==> ErrorFits(dx, dy)) <==> limit <= MAX_SPAN
  {
    hide Err;
    if limit <= MAX_SPAN {
      forall dx: nat, dy: nat | dx <= limit && dy <= limit ensures ErrorFits(dx, dy) {
        forall k | 0 <= k < Longer(dx, dy) ensures I32(2 * Err(dx, dy, k)) { TurnFits(dx, dy, k); }
      }
    } else {
      LongLine();
      assert !ErrorFits(MAX_SPAN + 1, 1);
    }
  }

  lemma {:induction false} LongLine()
    ensures !I32(2 * Err(MAX_SPAN + 1, 1, MAX_SPAN / 2 + 2))
  {
    assert Round(MAX_SPAN / 2 + 2, MAX_SPAN + 1) == 1;
  }

  /** After as many moves as the longer span both ends are met, and before that they are not. */
  lemma {:induction false} LastPixel(dx: nat, dy: nat, k: nat)
    requires k <= Longer(dx, dy)
    ensures StepsX(dx, dy, k) <= dx && StepsY(dx, dy, k) <= dy
    ensures k == Longer(dx, dy) <==> StepsX(dx, dy, k) == dx && StepsY(dx, dy, k) == dy
    ensures k == 0 ==> StepsX(dx, dy, k) == 0 && StepsY(dx, dy, k) == 0
  {
    if dx >= dy {
      if dx > 0 { MinorEnd(dx, dy, k); }
    } else {
      MinorEnd(dy, dx, k);
    }
  }

  lemma {:induction false} MinorEnd(d: nat, e: nat, k: nat)
    requires d > 0 && e <= d && k <= d
    ensures Round(Mul(k, e), d) <= e
    ensures (k == d ==> Round(Mul(k, e), d) == e) && (k == 0 ==> Round(Mul(k, e), d) == 0)
  {
    hide Round, Mul;
    var b := Round(Mul(k, e), d);
    RoundUnique(Mul(k, e), d, b);
    MulCommutes(d, e);
    if k < d { MulSpread(k, d, e); }
    if b > e { MulSpread(e, b, d); }
    if k == d { RoundUnique(Mul(k, e), d, e); }
    if k == 0 { MulZero(0, e); MulZero(0, d); RoundUnique(Mul(k, e), d, 0); }
  }

  lemma {:induction false} MulCommutes(a: nat, b: nat)
    ensures Mul(a, b) == Mul(b, a)
  {
  }

  // ----- the geometry -----

  /** Consecutive pixels are neighbours, and every pixel is within half a pixel of the ideal line
      along the shorter axis. */
  lemma {:induction false} OnTheLine(dx: nat, dy: nat, k: nat)
    requires k < Longer(dx, dy)
    ensures StepsX(dx, dy, k + 1) - StepsX(dx, dy, k) in {0, 1} && StepsY(dx, dy, k + 1) - StepsY(dx, dy, k) in {0, 1}
    ensures StepsX(dx, dy, k + 1) != StepsX(dx, dy, k) || StepsY(dx, dy, k + 1) != StepsY(dx, dy, k)
    ensures var off := 2 * (Mul(StepsY(dx, dy, k), dx) - Mul(StepsX(dx, dy, k), dy));
            off <= Longer(dx, dy) && -off <= Longer(dx, dy)
  {
    hide Mul, Round;
    if dx >= dy {
      MinorStep(dx, dy, k, StepsY(dx, dy, k));
    } else {
      MinorStep(dy, dx, k, StepsX(dx, dy, k));
    }
  }

  // ----- drawing -----

  datatype Segment = Segment(x0: int, y0: int, x1: int, y1: int)

  function SpanX(g: Segment): nat { Span(g.x0, g.x1) }

  function SpanY(g: Segment): nat { Span(g.y0, g.y1) }

  function Moves(g: Segment): nat { Longer(SpanX(g), SpanY(g)) }

  function Toward(from: int, to: int, steps: nat): int {
    if from < to then from + steps else from - steps
  }

  function Direction(from: int, to: int): int {
    if from < to then 1 else -1
  }

  function PixelX(g: Segment, k: nat): int {
    Toward(g.x0, g.x1, StepsX(SpanX(g), SpanY(g), k))
  }

  function PixelY(g: Segment, k: nat): int {
    Toward(g.y0, g.y1, StepsY(SpanX(g), SpanY(g), k))
  }

  predicate PixelAt(c: Canvas, g: Segment, k: nat, i: int) {
    Inside(c, PixelX(g, k), PixelY(g, k)) && i == Index(c, PixelX(g, k), PixelY(g, k))
  }

  /** Cell `i` is one of the first `n` pixels of the line that are on the canvas. */
  ghost predicate Painted(c: Canvas, g: Segment, n: nat, i: int) {
    exists k: nat :: k < n && PixelAt(c, g, k, i)
  }

  lemma {:induction false} PaintedStep(c: Canvas, g: Segment, n: nat, n': nat)
    requires n' == n + 1
    ensures forall i :: Painted(c, g, n', i) <==> Painted(c, g, n, i) || PixelAt(c, g, n, i)
  {
    assert forall i :: PixelAt(c, g, n, i) ==> Painted(c, g, n', i);
  }

  predicate Ends(g: Segment) {
    I32(g.x0) && I32(g.y0) && I32(g.x1) && I32(g.y1)
  }

  /** The values that the k-th turn computes fit a signed 32-bit word. */
  predicate TurnFitsAt(dx: nat, dy: nat, k: nat) {
    var e := Err(dx, dy, k);
    I32(2 * e) && (2 * e > -(dy as int) ==> I32(e - dy)) && I32(Err(dx, dy, k + 1))
  }

  /** The spans fit, and so do the values of every turn. */
  ghost predicate LineFits(g: Segment) {
    I32(SpanX(g)) && I32(SpanY(g)) && forall k: nat :: k < Moves(g) ==> TurnFitsAt(SpanX(g), SpanY(g), k)
  }

  /** Which they do on all short spans. */
  lemma {:induction false} ShortFits(g: Segment)
    requires Short(SpanX(g), SpanY(g))
    ensures LineFits(g)
  {
    hide Err, StepsX, StepsY;
    forall k: nat | k < Moves(g) ensures TurnFitsAt(SpanX(g), SpanY(g), k) {
      TurnFits(SpanX(g), SpanY(g), k);
      TurnFits(SpanX(g), SpanY(g), k + 1);
    }
  }

  /** Where the pen is after `k` moves, and whether it has arrived. */
  lemma {:induction false} PenAt(g: Segment, k: nat)
    requires Ends(g) && k <= Moves(g)
    ensures I32(PixelX(g, k)) && I32(PixelY(g, k))
    ensures PixelX(g, k) == g.x1 && PixelY(g, k) == g.y1 <==> k == Moves(g)
    ensures k == 0 ==> PixelX(g, k) == g.x0 && PixelY(g, k) == g.y0
  {
    LastPixel(SpanX(g), SpanY(g), k);
  }

  lemma {:induction false} Turn(g: Segment, k: nat)
    requires k < Moves(g)
    ensures var dx, dy := SpanX(g), SpanY(g); var e := Err(dx, dy, k);
            Err(dx, dy, k + 1) == e - (if 2 * e > -(dy as int) then dy as int else 0) + (if 2 * e < dx then dx as int else 0)
            && PixelX(g, k + 1) == PixelX(g, k) + (if 2 * e > -(dy as int) then Direction(g.x0, g.x1) else 0)
            && PixelY(g, k + 1) == PixelY(g, k) + (if 2 * e < dx then Direction(g.y0, g.y1) else 0)
  {
    hide Err, StepsX, StepsY;
    if SpanX(g) >= SpanY(g) { TurnX(SpanX(g), SpanY(g), k); } else { TurnY(SpanX(g), SpanY(g), k); }
  }

  /** Draw a line: the pen makes as many moves as the longer span, visiting the ideal pixels in
      order, and the cells painted are those of the visited pixels on the canvas. The loop gives up
      at the first value that does not fit, having drawn the pixels up to there. */
  method DrawLine(pixels: array<nat>, c: Canvas, g: Segment, px: nat) returns (ok: bool, ghost n: nat)
    requires Fits(c, pixels.Length) && Ends(g)
    modifies pixels
    ensures ok <==> LineFits(g)
    ensures n <= Moves(g) + 1 && (ok ==> n == Moves(g) + 1)
    ensures forall i :: 0 <= i < pixels.Length ==> pixels[i] == if Painted(c, g, n, i) then px else old(pixels[i])
  {
    hide Err, StepsX, StepsY, Painted, Index;
    var cx, cy := g.x0, g.y0;
    var dx, dy := Span(g.x0, g.x1), Span(g.y0, g.y1);
    var sx, sy := Direction(g.x0, g.x1), Direction(g.y0, g.y1);
    NothingPainted(c, g);
    n := 0;
    if !I32(dx) || !I32(dy) { return false, 0; }
    var err := dx as int - dy as int;
    ghost var k: nat := 0;
    FirstErr(g);
    PenAt(g, 0);
    while true
      invariant n == k && forall j: nat :: j < k ==> TurnFitsAt(dx, dy, j)
      invariant k <= Moves(g) && cx == PixelX(g, k) && cy == PixelY(g, k) && err == Err(dx, dy, k)
      invariant forall i :: 0 <= i < pixels.Length ==> pixels[i] == if Painted(c, g, k, i) then px else old(pixels[i])
      decreases Moves(g) - k
    {
      PenAt(g, k);
      PaintedStep(c, g, k, k + 1);
      if cx >= 0 && cy >= 0 {
        PutPixel(pixels, c, cx, cy, px);
      }
      n := k + 1;
      if cx == g.x1 && cy == g.y1 { return true, n; }
      Turn(g, k);
      var e2 := 2 * err;
      ghost var fits := TurnFitsAt(SpanX(g), SpanY(g), k);
      if !I32(e2) { return false, n; }
      if e2 > -(dy as int) {
        err := err - dy;
        if !I32(err) { return false, n; }
        cx := cx + sx;
      }
      if e2 < dx {
        err := err + dx;
        if !I32(err) { return false, n; }
        cy := cy + sy;
      }
      k := k + 1;
    }
  }

  lemma {:induction false} NothingPainted(c: Canvas, g: Segment)
    ensures forall i :: !Painted(c, g, 0, i)
  {
  }

  lemma {:induction false} FirstErr(g: Segment)
    ensures Err(SpanX(g), SpanY(g), 0) == SpanX(g) - SpanY(g)
  {
    LastPixel(SpanX(g), SpanY(g), 0);
  }
}
