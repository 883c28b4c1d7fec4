/** The image backend of the vector graphics device: points and lines on a 256 by 256 framebuffer. */
module VectorGraphics {
  import opened Bits

  const WIDTH := 256
  const HEIGHT := 256

  datatype Pixel = Pixel(x: int, y: int)

  function Abs(n: int): nat {
    if n < 0 then -n else n
  }

  function Max(a: nat, b: nat): nat {
    if a < b then b else a
  }

  // ---------------------------------------------------------------- the ideal line

  /** `n * p / d` rounded to the nearest integer, halves up. */
  function Rounded(n: nat, p: nat, d: nat): nat
    requires d > 0
  {
    (2 * n * p + d) / (2 * d)
  }

  /** Steps along the two axes after `k` moves along the longer one. */
  function Steps(dx: nat, dy: nat, k: nat): (nat, nat) {
    if dx == 0 && dy == 0 then (0, 0)
    else if dx >= dy then (k, Rounded(dy, k, dx))
    else (Rounded(dx, k, dy), k)
  }

  function Direction(from: int, to: int): int {
    if from < to then 1 else -1
  }

  function Length(a: Pixel, b: Pixel): nat {
    Max(Abs(b.x - a.x), Abs(b.y - a.y))
  }

  /** Pixel `k` of the line: `k` steps along the longer axis, and the true position along the shorter axis
      rounded to the nearest pixel. */
  function LinePixel(a: Pixel, b: Pixel, k: nat): Pixel {
    var (i, j) := Steps(Abs(b.x - a.x), Abs(b.y - a.y), k);
    Pixel(a.x + Direction(a.x, b.x) * i, a.y + Direction(a.y, b.y) * j)
  }

  /** Rounding, without division: the nearest integer from below or at a tie from above. */
  lemma RoundedIs(n: nat, p: nat, d: nat, q: nat)
    requires d > 0 && -(d as int) < 2 * (d * q - n * p) <= d
    ensures Rounded(n, p, d) == q
  {
    var e := d * q - n * p;
    assert 2 * n * p + d == 2 * d * q + (d - 2 * e) by {
      assert 2 * n * p == 2 * (n * p) && 2 * d * q == 2 * (d * q);
    }
    assert 0 <= d - 2 * e < 2 * d;
    QuotientIs(2 * d, q, d - 2 * e);
  }

  lemma {:induction false} ProductsOrder(m: nat, a: nat, b: nat)
    requires a <= b
    ensures m * a <= m * b
  {
    assert m * b == m * a + m * (b - a);
  }

  lemma QuotientIs(m: nat, q: nat, r: nat)
    requires r < m
    ensures (m * q + r) / m == q
  {
    var s := m * q + r;
    var t := s / m;
    assert s == m * t + s % m;
    if t < q {
      ProductsOrder(m, t + 1, q);
    } else if t > q {
      ProductsOrder(m, q + 1, t);
    }
  }

  lemma RoundedBounds(n: nat, p: nat, d: nat)
    requires d > 0
    ensures -(d as int) < 2 * (d * Rounded(n, p, d) - n * p) <= d
  {
    var s := 2 * n * p + d;
    var q := Rounded(n, p, d);
    assert s == 2 * d * q + s % (2 * d);
    assert 2 * n * p == 2 * (n * p) && 2 * d * q == 2 * (d * q);
  }

  // ---------------------------------------------------------------- the drawing loop

  /** The error term after `i` and `j` steps. */
  function ErrorAt(dx: nat, dy: nat, i: nat, j: nat): int {
    dx * (1 + j) - dy * (1 + i)
  }

  lemma ErrorMoves(dx: nat, dy: nat, i: nat, j: nat)
    ensures ErrorAt(dx, dy, i + 1, j) == ErrorAt(dx, dy, i, j) - dy
    ensures ErrorAt(dx, dy, i, j + 1) == ErrorAt(dx, dy, i, j) + dx
    ensures ErrorAt(dx, dy, i + 1, j + 1) == ErrorAt(dx, dy, i, j) - dy + dx
  {
  }

  /** Moving along the longer axis: the rounded position along the shorter one moves when twice the error,
      `m - n + d` with `d` the deviation so far, is at most the longer distance. */
  lemma NextRounded(m: nat, n: nat, k: nat, j: nat)
    requires m > 0 && n <= m && j == Rounded(n, k, m)
    ensures var d := m * j - n * k;
            Rounded(n, k + 1, m) == if 2 * (m - n + d) <= m then j + 1 else j
    ensures -(m as int) < 2 * (m * j - n * k) <= m
  {
    RoundedBounds(n, k, m);
    var d := m * j - n * k;
    var next := if 2 * (m - n + d) <= m then j + 1 else j;
    assert m * (j + 1) == m * j + m && n * (k + 1) == n * k + n;
    RoundedIs(n, k + 1, m, next);
  }

  lemma ErrorIs(dx: nat, dy: nat, i: nat, j: nat)
    ensures ErrorAt(dx, dy, i, j) == dx - dy + (dx * j - dy * i)
  {
  }

  /** One move of the loop from pixel `k`: which of the two tests succeed, and where they lead. */
  lemma {:induction false} NextPixel(dx: nat, dy: nat, k: nat)
    requires k < Max(dx, dy)
    ensures var (i, j) := Steps(dx, dy, k);
            var (i1, j1) := Steps(dx, dy, k + 1);
            var twice := 2 * ErrorAt(dx, dy, i, j);
            && i1 == (if twice >= -(dy as int) then i + 1 else i)
            && j1 == (if twice <= dx then j + 1 else j)
  {
    var (i, j) := Steps(dx, dy, k);
    ErrorIs(dx, dy, i, j);
    if dx >= dy {
      NextRounded(dx, dy, k, j);
    } else {
      NextRoundedDown(dy, dx, k, i);
    }
  }

  /** The same with the roles of the axes exchanged, as the second test states it. */
  lemma NextRoundedDown(m: nat, n: nat, k: nat, i: nat)
    requires m > 0 && n < m && i == Rounded(n, k, m)
    ensures var d := m * i - n * k;
            Rounded(n, k + 1, m) == if 2 * (n - m - d) >= -(m as int) then i + 1 else i
    ensures -(m as int) < 2 * (m * i - n * k) <= m
  {
    NextRounded(m, n, k, i);
  }

  lemma RoundedWhole(n: nat, d: nat)
    requires d > 0
    ensures Rounded(n, d, d) == n && Rounded(n, 0, d) == 0
  {
    RoundedIs(n, d, d, n);
    RoundedIs(n, 0, d, 0);
  }

  /** The first pixel is the start, and the last, and only the last, is the target. */
  lemma Endpoints(a: Pixel, b: Pixel)
    ensures LinePixel(a, b, 0) == a && LinePixel(a, b, Length(a, b)) == b
    ensures forall k: nat | k < Length(a, b) :: LinePixel(a, b, k) != b
  {
    var dx, dy := Abs(b.x - a.x), Abs(b.y - a.y);
    if dx >= dy && dx > 0 {
      RoundedWhole(dy, dx);
    } else if dy > 0 {
      RoundedWhole(dx, dy);
    }
  }

  lemma RoundedMonotone(n: nat, p: nat, q: nat, d: nat)
    requires d > 0 && p <= q
    ensures Rounded(n, p, d) <= Rounded(n, q, d)
  {
    RoundedBounds(n, p, d);
    RoundedBounds(n, q, d);
    ProductsOrder(n, p, q);
    var r, s := Rounded(n, p, d), Rounded(n, q, d);
    if r > s {
      ProductsOrder(d, s + 1, r);
    }
  }

  predicate Between(v: int, a: int, b: int) {
    (a <= v <= b) || (b <= v <= a)
  }

  lemma InsideBox(a: Pixel, b: Pixel, k: nat)
    requires k <= Length(a, b)
    ensures Between(LinePixel(a, b, k).x, a.x, b.x) && Between(LinePixel(a, b, k).y, a.y, b.y)
  {
    var dx, dy := Abs(b.x - a.x), Abs(b.y - a.y);
    if dx >= dy && dx > 0 {
      RoundedMonotone(dy, k, dx, dx);
      RoundedWhole(dy, dx);
    } else if dy > 0 {
      RoundedMonotone(dx, k, dy, dy);
      RoundedWhole(dx, dy);
    }
  }

  /** Each pixel touches the next one, sideways or diagonally, and is not that pixel. */
  lemma EightConnected(a: Pixel, b: Pixel, k: nat)
    requires k < Length(a, b)
    ensures var p, q := LinePixel(a, b, k), LinePixel(a, b, k + 1);
            Abs(q.x - p.x) <= 1 && Abs(q.y - p.y) <= 1 && p != q
  {
    NextPixel(Abs(b.x - a.x), Abs(b.y - a.y), k);
  }

  /** Along the shorter axis every pixel is within half a pixel of the true line. */
  lemma WithinHalfPixel(a: Pixel, b: Pixel, k: nat)
    requires k <= Length(a, b)
    ensures var dx, dy := Abs(b.x - a.x), Abs(b.y - a.y);
            var p := LinePixel(a, b, k);
            var i, j := Abs(p.x - a.x), Abs(p.y - a.y);
            if dx >= dy then i == k && 2 * Abs(dx * j - dy * i) <= dx
            else j == k && 2 * Abs(dy * i - dx * j) <= dy
  {
    var dx, dy := Abs(b.x - a.x), Abs(b.y - a.y);
    if dx >= dy && dx > 0 {
      RoundedBounds(dy, k, dx);
    } else if dy > 0 {
      RoundedBounds(dx, k, dy);
    }
  }

  /** The line has exactly `max(|dx|, |dy|) + 1` different pixels. */
  lemma PixelsDiffer(a: Pixel, b: Pixel, k: nat, l: nat)
    requires k < l <= Length(a, b)
    ensures LinePixel(a, b, k) != LinePixel(a, b, l)
  {
  }

  /** Cell `i` of the framebuffer, column `i % 256` of row `i / 256`, is one of the first `n` pixels of the line. */
  ghost predicate Covered(a: Pixel, b: Pixel, n: nat, i: nat) {
    exists k: nat | k < n :: LinePixel(a, b, k) == Pixel(i % 256, i / 256)
  }

  class ImageBackend {
    const framebuffer: array<byte>

    constructor ()
      ensures fresh(framebuffer) && framebuffer.Length == WIDTH * HEIGHT
      ensures forall cell | 0 <= cell < framebuffer.Length :: framebuffer[cell] == 0
    {
      framebuffer := new byte[WIDTH * HEIGHT](_ => 0);
    }

    method Clear(intensity: byte)
      modifies framebuffer
      ensures forall cell | 0 <= cell < framebuffer.Length :: framebuffer[cell] == intensity
    {
      for i := 0 to framebuffer.Length
        invariant forall cell | 0 <= cell < i :: framebuffer[cell] == intensity
      {
        framebuffer[i] := intensity;
      }
    }

    method DrawPoint(x: byte, y: byte, intensity: byte)
      requires framebuffer.Length == WIDTH * HEIGHT
      modifies framebuffer
      ensures forall i | 0 <= i < framebuffer.Length ::
                framebuffer[i] == if i % 256 == x && i / 256 == y then intensity else old(framebuffer[i])
    {
      if x >= WIDTH || y >= HEIGHT {
        return;
      }
      framebuffer[y * WIDTH + x] := intensity;
      assert forall i | 0 <= i < framebuffer.Length :: i == y * WIDTH + x <==> i % 256 == x && i / 256 == y;
    }

    /** Draws exactly the pixels of the ideal line, whatever the endpoints, and changes no other cell. */
    method DrawLine(x0: byte, y0: byte, x1: byte, y1: byte, intensity: byte)
      requires framebuffer.Length == WIDTH * HEIGHT
      modifies framebuffer
      ensures var a, b := Pixel(x0, y0), Pixel(x1, y1);
              forall i | 0 <= i < framebuffer.Length ::
                framebuffer[i] == if exists k: nat | k < Length(a, b) + 1 :: LinePixel(a, b, k) == Pixel(i % 256, i / 256)
                                  then intensity else old(framebuffer[i])
    {
      var x, y := x0 as int, y0 as int;
      ghost var a, b := Pixel(x0, y0), Pixel(x1, y1);
      var dx := if x1 - x < 0 then x - x1 else x1 - x;
      var dy := if y1 - y < 0 then y1 - y else y - y1;
      var stepX := if x < x1 then 1 else -1;
      var stepY := if y < y1 then 1 else -1;
      var error := dx + dy;
      ghost var k := 0;
      ghost var n := Length(a, b);
      Endpoints(a, b);
      StartOfLoop(dx, -dy);
      while true
        invariant 0 <= k <= n
        invariant InLoop(a, b, k, x, y, error)
        invariant Drawn(framebuffer[..], old(framebuffer[..]), a, b, k, intensity)
        decreases n - k
      {
        InsideBox(a, b, k);
        ghost var before := framebuffer[..];
        DrawPoint(x, y, intensity);
        DrawnNext(before, framebuffer[..], old(framebuffer[..]), a, b, k, intensity);
        if x == x1 && y == y1 {
          assert k == n;
          break;
        }
        ghost var fromX, fromY, fromError := x, y, error;
        var error2 := 2 * error;
        if error2 >= dy {
          error := error + dy;
          x := x + stepX;
        }
        if error2 <= dx {
          error := error + dx;
          y := y + stepY;
        }
        RoundOfLoop(a, b, k, fromX, fromY, fromError, dx, dy, stepX, stepY, x, y, error);
        k := k + 1;
      }
    }
  }

  /** The loop variables at pixel `k`. */
  ghost predicate InLoop(a: Pixel, b: Pixel, k: nat, x: int, y: int, error: int) {
    var dx, dy := Abs(b.x - a.x), Abs(b.y - a.y);
    Pixel(x, y) == LinePixel(a, b, k) && error == ErrorAt(dx, dy, Steps(dx, dy, k).0, Steps(dx, dy, k).1)
  }

  lemma StartOfLoop(dx: nat, dy: nat)
    ensures ErrorAt(dx, dy, Steps(dx, dy, 0).0, Steps(dx, dy, 0).1) == dx - dy
  {
    if dx >= dy && dx > 0 {
      RoundedWhole(dy, dx);
    } else if dy > 0 {
      RoundedWhole(dx, dy);
    }
  }

  lemma MoveInLoop(a: Pixel, b: Pixel, k: nat, x: int, y: int, error: int)
    requires k < Length(a, b) && InLoop(a, b, k, x, y, error)
    ensures var dx, dy := Abs(b.x - a.x), Abs(b.y - a.y);
            var right, down := 2 * error >= -(dy as int), 2 * error <= dx;
            InLoop(a, b, k + 1,
                   if right then x + Direction(a.x, b.x) else x,
                   if down then y + Direction(a.y, b.y) else y,
                   error + (if right then -(dy as int) else 0) + (if down then dx else 0))
  {
    var dx, dy := Abs(b.x - a.x), Abs(b.y - a.y);
    NextPixel(dx, dy, k);
    ErrorMoves(dx, dy, Steps(dx, dy, k).0, Steps(dx, dy, k).1);
  }

  /** The same with the variables of the loop: `dy` is the negative distance. */
  lemma RoundOfLoop(a: Pixel, b: Pixel, k: nat, x: int, y: int, error: int, dx: int, dy: int, stepX: int, stepY: int,
                    x1: int, y1: int, error1: int)
    requires k < Length(a, b) && InLoop(a, b, k, x, y, error)
    requires dx == Abs(b.x - a.x) && dy == -(Abs(b.y - a.y) as int) && stepX == Direction(a.x, b.x) && stepY == Direction(a.y, b.y)
    requires x1 == (if 2 * error >= dy then x + stepX else x) && y1 == (if 2 * error <= dx then y + stepY else y)
    requires error1 == error + (if 2 * error >= dy then dy else 0) + (if 2 * error <= dx then dx else 0)
    ensures InLoop(a, b, k + 1, x1, y1, error1)
  {
    MoveInLoop(a, b, k, x, y, error);
    var d, e := Abs(b.x - a.x), Abs(b.y - a.y);
    var right, down := 2 * error >= -(e as int), 2 * error <= d;
    assert x1 == if right then x + Direction(a.x, b.x) else x;
    assert y1 == if down then y + Direction(a.y, b.y) else y;
    assert error1 == error + (if right then -(e as int) else 0) + (if down then d else 0);
  }

  /** The first `n` pixels are drawn over what was there. */
  ghost predicate Drawn(cells: seq<byte>, start: seq<byte>, a: Pixel, b: Pixel, n: nat, intensity: byte) {
    |cells| == |start| && forall i | 0 <= i < |cells| :: cells[i] == if Covered(a, b, n, i) then intensity else start[i]
  }

  lemma DrawnNext(before: seq<byte>, after: seq<byte>, start: seq<byte>, a: Pixel, b: Pixel, k: nat, intensity: byte)
    requires Drawn(before, start, a, b, k, intensity) && |after| == |before|
    requires forall i | 0 <= i < |after| :: after[i] == if LinePixel(a, b, k) == Pixel(i % 256, i / 256) then intensity else before[i]
    ensures Drawn(after, start, a, b, k + 1, intensity)
  {
    CoveredGrows(a, b, k);
  }

  lemma CoveredGrows(a: Pixel, b: Pixel, k: nat)
    ensures forall i: nat :: Covered(a, b, k + 1, i) <==> Covered(a, b, k, i) || LinePixel(a, b, k) == Pixel(i % 256, i / 256)
  {
    forall i: nat
      ensures Covered(a, b, k + 1, i) <==> Covered(a, b, k, i) || LinePixel(a, b, k) == Pixel(i % 256, i / 256)
    {
      if l: nat :| l < k + 1 && LinePixel(a, b, l) == Pixel(i % 256, i / 256) {
        assert l < k || l == k;
      }
      if l: nat :| l < k && LinePixel(a, b, l) == Pixel(i % 256, i / 256) {
        assert l < k + 1;
      }
    }
  }
}
