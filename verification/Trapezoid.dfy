/** Filling a trapezoid with a pattern, row by row, by stepping both edges. */
module Trapezoid {
  import opened CInt
  import opened FrameBuffer

  // ----- the edges -----

  /** Where an edge that starts at `x` and moves by `d` over `dy` rows is in row `k`. */
  function Edge(x: int, d: int, dy: int, k: int): int
    requires dy >= 0
  {
    if dy == 0 then x else x + Div(k * d, dy)
  }

  /** The error term belongs to the position. */
  ghost predicate OnEdge(x0: int, d: int, dy: int, k: int, x: int, e: int) {
    (x - x0) * dy + e == k * d && -dy < e < dy && (d >= 0 ==> e >= 0) && (d <= 0 ==> e <= 0)
  }

  /** The stepped position is the exact one, rounded towards the starting point. */
  lemma OnEdgeIs(x0: int, d: int, dy: int, k: int, x: int, e: int)
    requires OnEdge(x0, d, dy, k, x, e) && 0 <= k && dy > 0
    ensures x == Edge(x0, d, dy, k)
  {
    if d >= 0 {
      Product(k, d);
      QuotientIs(k * d, dy, x - x0, e);
    } else {
      Product(k, -d);
      assert k * -d == -(k * d);
      assert (x0 - x) * dy == -((x - x0) * dy);
      QuotientIs(-(k * d), dy, x0 - x, -e);
    }
  }

  /** One row further, as the code does it. */
  method StepEdge(ghost x0: int, d: int, dy: int, ghost k: int, x: int, e: int) returns (x': int, e': int)
    requires dy > 0 && k >= 0 && OnEdge(x0, d, dy, k, x, e)
    ensures OnEdge(x0, d, dy, k + 1, x', e')
  {
    x', e' := x, e + d;
    assert (k + 1) * d == k * d + d;
    while e' >= dy
      invariant (x' - x0) * dy + e' == (k + 1) * d && (d >= 0 ==> e' >= 0) && (d <= 0 ==> e' <= 0)
    {
      assert (x' + 1 - x0) * dy == (x' - x0) * dy + dy;
      x', e' := x' + 1, e' - dy;
    }
    while -e' >= dy
      invariant (x' - x0) * dy + e' == (k + 1) * d && (d >= 0 ==> e' >= 0) && (d <= 0 ==> e' <= 0) && e' < dy
    {
      assert (x' - 1 - x0) * dy == (x' - x0) * dy - dy;
      x', e' := x' - 1, e' + dy;
    }
  }

  /** Both edges end exactly at the lower corners. */
  lemma EdgeEnds(x: int, d: int, dy: int)
    requires dy > 0
    ensures Edge(x, d, dy, dy) == x + d && Edge(x, d, dy, 0) == x
  {
    if d >= 0 {
      Product(dy, d);
      QuotientIs(dy * d, dy, d, 0);
    } else {
      Product(dy, -d);
      assert dy * -d == -(dy * d);
      QuotientIs(-(dy * d), dy, -d, 0);
    }
  }

  lemma EdgeIsOn(x0: int, d: int, dy: int, k: int) returns (e: int)
    requires dy > 0 && k >= 0
    ensures OnEdge(x0, d, dy, k, Edge(x0, d, dy, k), e)
  {
    hide Div;
    if d >= 0 {
      Product(k, d);
    } else {
      Product(k, -d);
      assert k * -d == -(k * d);
    }
    e := DivRest(k * d, dy);
  }

  /** From the size of a multiple of `m` to its sign. */
  lemma Sign(q: int, m: int, e: int)
    requires -m < e < m
    ensures q * m > -m ==> q >= 0
    ensures q * m < m ==> q <= 0
  {
    if q <= -1 {
      Product(-1 - q, m);
      assert (-1 - q) * m == -m - q * m;
    } else if q >= 1 {
      Product(q - 1, m);
      assert (q - 1) * m == q * m - m;
    }
  }

  /** An edge stays between its ends. */
  lemma EdgeBetween(x: int, d: int, dy: int, k: int)
    requires 0 <= k <= dy
    ensures d >= 0 ==> x <= Edge(x, d, dy, k) <= x + d
    ensures d <= 0 ==> x + d <= Edge(x, d, dy, k) <= x
  {
    if dy > 0 {
      hide Edge, Div;
      var e := EdgeIsOn(x, d, dy, k);
      Between(Edge(x, d, dy, k) - x, d, dy, k, e);
    }
  }

  lemma Between(q: int, d: int, dy: int, k: int, e: int)
    requires 0 <= k <= dy && q * dy + e == k * d && -dy < e < dy && (d >= 0 ==> e >= 0) && (d <= 0 ==> e <= 0)
    ensures d >= 0 ==> 0 <= q <= d
    ensures d <= 0 ==> d <= q <= 0
  {
    if d >= 0 {
      Rising(q, d, dy, k, e);
    } else {
      assert (-q) * dy == -(q * dy);
      assert k * -d == -(k * d);
      Rising(-q, -d, dy, k, -e);
    }
  }

  lemma Rising(q: int, d: int, dy: int, k: int, e: int)
    requires 0 <= k <= dy && d >= 0 && 0 <= e < dy && q * dy + e == k * d
    ensures 0 <= q <= d
  {
    Product(k, d);
    Product(dy - k, d);
    assert (dy - k) * d == dy * d - k * d;
    assert (q - d) * dy == q * dy - dy * d;
    Sign(q, dy, e);
    Sign(q - d, dy, e);
  }

  lemma CrossBound(xl: int, xr: int, x1: int, w1: int, w2: int, dl: int, dr: int, dy: int, k: int, el: int, er: int)
    requires 0 <= k <= dy && w1 >= 0 && w2 >= 0 && dr == dl + w2 - w1
    requires (xl - x1) * dy + el == k * dl && (xr - x1 - w1) * dy + er == k * dr
    ensures (xl - xr) * dy <= er - el
  {
    Product(w1, dy - k);
    Product(w2, k);
    assert k * dr == k * dl + w2 * k - w1 * k;
    assert w1 * (dy - k) == w1 * dy - w1 * k;
    assert (xr - x1 - w1) * dy == (xr - x1) * dy - w1 * dy;
    assert (xl - xr) * dy == (xl - x1) * dy - (xr - x1) * dy;
  }

  /** The edges never cross: rounding towards the starting points keeps the order. */
  lemma EdgesOrdered(x1: int, w1: int, x2: int, w2: int, dy: int, k: int)
    requires 0 <= k <= dy && w1 >= 0 && w2 >= 0
    ensures Edge(x1, x2 - x1, dy, k) <= Edge(x1 + w1, (x2 + w2) - (x1 + w1), dy, k)
  {
    if dy > 0 {
      var dl, dr := x2 - x1, (x2 + w2) - (x1 + w1);
      var xl, xr := Edge(x1, dl, dy, k), Edge(x1 + w1, dr, dy, k);
      EdgeBetween(x1, dl, dy, k);
      EdgeBetween(x1 + w1, dr, dy, k);
      var el := EdgeIsOn(x1, dl, dy, k);
      var er := EdgeIsOn(x1 + w1, dr, dy, k);
      hide Edge;
      CrossBound(xl, xr, x1, w1, w2, dl, dr, dy, k, el, er);
      if dl >= 0 || dr <= 0 {
        Sign(xl - xr, dy, 0);
      }
    }
  }

  // ----- the rows -----

  predicate Aligned(x: int) {
    x % 16 == 0
  }

  /** The first tile boundary at or after a position. */
  ghost predicate Tile(x: int, fx: int) {
    x <= fx < x + 16 && Aligned(fx)
  }

  /** The pattern is aligned to the tiles. */
  function Column(i: int): (c: int)
    ensures 0 <= c < 16
  {
    i % 16
  }

  lemma FirstTile(x: int)
    ensures Tile(x, (x + 15) / 16 * 16)
  {
  }

  /** Sixteen further is a tile boundary again. */
  lemma NextTile(fx: int)
    requires Aligned(fx)
    ensures Aligned(fx + 16) && Aligned(fx - 16)
    ensures forall i :: fx <= i < fx + 16 ==> Column(i) == i - fx
    ensures forall i :: fx - 16 <= i < fx ==> Column(i) == i - fx + 16
  {
  }

  /** Stores the last columns of the pattern up to the tile boundary `fx`. */
  method StorePart(b: Board, xl: int, fx: int, w: Word)
    requires b.Valid() && 0 <= xl < SIZE && xl + b.width <= SIZE && Aligned(fx) && xl <= fx <= xl + 16
             && xl + b.width <= fx
    modifies b`x, b`y, b`source, b.pixels
    ensures b.Valid() && b.y == old(b.y)
    ensures forall i, j :: 0 <= i < SIZE && 0 <= j < SIZE ==>
              b.pixels[i, j] == if j == b.y[0] && xl <= i < xl + b.width
                  then b.op.Apply(w[Column(i)], old(b.pixels[i, j]))
                                else old(b.pixels[i, j])
  {
    hide Aligned, Column;
    NextTile(fx);
    b.StoreRow(xl, ShiftLeft(w, 16 - (fx - xl)));
  }

  /** Stores the first columns of the pattern from a tile boundary on. */
  method StoreTile(b: Board, x: int, w: Word)
    requires b.Valid() && 0 <= x < SIZE && x + b.width <= SIZE && Aligned(x)
    modifies b`x, b`y, b`source, b.pixels
    ensures b.Valid() && b.y == old(b.y)
    ensures forall i, j :: 0 <= i < SIZE && 0 <= j < SIZE ==>
              b.pixels[i, j] == if j == b.y[0] && x <= i < x + b.width
                  then b.op.Apply(w[Column(i)], old(b.pixels[i, j]))
                                else old(b.pixels[i, j])
  {
    hide Aligned, Column;
    NextTile(x);
    b.StoreRow(x, w);
  }

  /** One row of a shape that is no rectangle: a first piece up to the tile
      boundary, whole tiles, and a rest. Every pixel is painted once, with the
      pattern aligned to the tiles. */
  method PaintRow(b: Board, y: int, xl: int, xr: int, fx: int, w: Word)
    requires b.Valid() && 0 <= xl < xr <= SIZE && 0 <= y < SIZE && Tile(xl, fx)
    modifies b`x, b`y, b`source, b`width, b.pixels
    ensures b.Valid()
    ensures forall i, j :: 0 <= i < SIZE && 0 <= j < SIZE ==>
              b.pixels[i, j] == if j == y && xl <= i < xr then b.op.Apply(w[Column(i)], old(b.pixels[i, j]))
                                else old(b.pixels[i, j])
  {
    b.TouchRow(y);
    hide Aligned, Column;
    var skew := fx - xl;
    if fx >= xr {
      if skew != 0 {
        b.SetWidth(xr - xl);
        StorePart(b, xl, fx, w);
      }
    } else {
      var xda := xl;
      if skew != 0 {
        b.SetWidth(skew);
        StorePart(b, xda, fx, w);
        xda := xda + skew;
      }
      PaintTiles(b, y, xda, xr, w);
    }
  }

  /** The whole tiles and the rest of a row. */
  method PaintTiles(b: Board, y: int, fx: int, xr: int, w: Word)
    requires b.Valid() && 0 <= fx < xr <= SIZE && 0 <= y < SIZE && Aligned(fx) && b.y[0] == y
    modifies b`x, b`y, b`source, b`width, b.pixels
    ensures b.Valid()
    ensures forall i, j :: 0 <= i < SIZE && 0 <= j < SIZE ==>
              b.pixels[i, j] == if j == y && fx <= i < xr then b.op.Apply(w[Column(i)], old(b.pixels[i, j]))
                                else old(b.pixels[i, j])
  {
    hide Aligned, Column;
    var xda, xlim := fx, xr - 16;
    b.SetWidth(16);
    while xda <= xlim
      invariant fx <= xda <= xr && Aligned(xda) && b.Valid() && b.y[0] == y && b.width == 16
      invariant forall i, j :: 0 <= i < SIZE && 0 <= j < SIZE ==>
                  b.pixels[i, j] == if j == y && fx <= i < xda then b.op.Apply(w[Column(i)], old(b.pixels[i, j]))
                                    else old(b.pixels[i, j])
    {
      StoreTile(b, xda, w);
      NextTile(xda);
      xda := xda + 16;
    }
    var t := xlim - xda + 16;
    if t > 0 {
      b.SetWidth(t);
      StoreTile(b, xda, w);
    }
  }

  /** Moves the tile boundary along with the left edge. */
  method StepTile(xl: int, fx: int) returns (fx': int)
    requires Aligned(fx)
    ensures Tile(xl, fx')
  {
    hide Aligned;
    fx' := fx;
    while xl > fx'
      invariant Aligned(fx')
    {
      NextTile(fx');
      fx' := fx' + 16;
    }
    while xl <= fx' - 16
      invariant Aligned(fx') && xl <= fx'
    {
      NextTile(fx');
      fx' := fx' - 16;
    }
  }

  /** The pattern has a row for every residue. */
  function RowOf(bits: seq<Word>, j: int): Word
    requires |bits| > 0
  {
    bits[j % |bits|]
  }

  lemma RowIs(bits: seq<Word>, j: int)
    requires |bits| > 0
    ensures 0 <= j % |bits| < |bits| && RowOf(bits, j) == bits[j % |bits|]
  {
  }

  lemma NextRow(y: int, h: int)
    requires h > 0
    ensures (y + 1) % h == if y % h + 1 >= h then 0 else y % h + 1
  {
    var q := y / h;
    assert y == q * h + y % h;
    if y % h + 1 >= h {
      assert (q + 1) * h == q * h + h;
      QuotientIs(y + 1, h, q + 1, 0);
    } else {
      QuotientIs(y + 1, h, q, y % h + 1);
    }
  }

  /** A rectangle that ends within the tile in which it starts, or at its end. */
  method NarrowRectangle(b: Board, y1: int, y2: int, xl: int, xr: int, fx: int, bits: seq<Word>)
    requires b.Valid() && |bits| > 0 && 0 <= y1 <= y2 < SIZE && 0 <= xl <= xr <= SIZE && xl < SIZE
    requires Tile(xl + 1, fx) && fx >= xr
    modifies b`x, b`y, b`source, b`width, b.pixels
    ensures b.Valid()
    ensures forall i, j :: 0 <= i < SIZE && 0 <= j < SIZE ==>
              b.pixels[i, j] == if y1 <= j <= y2 && xl <= i < xr
                                then b.op.Apply(RowOf(bits, j)[Column(i)], old(b.pixels[i, j])) else old(b.pixels[i, j])
  {
    hide Aligned, Column, RowOf;
    b.SetWidth(xr - xl);
    var y, row := y1, y1 % |bits|;
    while true
      invariant y1 <= y <= y2 && row == y % |bits| && b.Valid() && b.width == xr - xl
      invariant forall i, j :: 0 <= i < SIZE && 0 <= j < SIZE ==>
                  b.pixels[i, j] == if y1 <= j < y && xl <= i < xr
                                    then b.op.Apply(RowOf(bits, j)[Column(i)], old(b.pixels[i, j]))
                                        else old(b.pixels[i, j])
      decreases y2 - y
    {
      var w := bits[row];
      RowIs(bits, y);
      b.TouchRow(y);
      StorePart(b, xl, fx, w);
      if y >= y2 {
        break;
      }
      NextRow(y, |bits|);
      y, row := y + 1, row + 1;
      if row >= |bits| {
        row := 0;
      }
    }
  }

  /** One row of a wider rectangle. */
  method WideRow(b: Board, y: int, xl: int, xr: int, fx: int, twidth: int, w: Word)
    requires b.Valid() && 0 <= y < SIZE && 0 <= xl < xr <= SIZE && Tile(xl + 1, fx) && fx < xr
             && twidth == Column(xr - fx)
    modifies b`x, b`y, b`source, b`width, b.pixels
    ensures b.Valid()
    ensures forall i, j :: 0 <= i < SIZE && 0 <= j < SIZE ==>
              b.pixels[i, j] == if j == y && xl <= i < xr then b.op.Apply(w[Column(i)], old(b.pixels[i, j]))
                  else old(b.pixels[i, j])
  {
    hide Aligned, Column;
    b.TouchRow(y);
    b.SetWidth(fx - xl);
    StorePart(b, xl, fx, w);
    WideTiles(b, y, fx, xr, twidth, w);
  }

  /** The whole tiles and the rest, whose width is known beforehand. */
  method WideTiles(b: Board, y: int, fx: int, xr: int, twidth: int, w: Word)
    requires b.Valid() && 0 <= fx < xr <= SIZE && 0 <= y < SIZE && Aligned(fx) && b.y[0] == y
             && twidth == Column(xr - fx)
    modifies b`x, b`y, b`source, b`width, b.pixels
    ensures b.Valid()
    ensures forall i, j :: 0 <= i < SIZE && 0 <= j < SIZE ==>
              b.pixels[i, j] == if j == y && fx <= i < xr then b.op.Apply(w[Column(i)], old(b.pixels[i, j]))
                  else old(b.pixels[i, j])
  {
    hide Aligned, Column;
    var xda, xlim := fx, xr - 16;
    b.SetWidth(16);
    while xda <= xlim
      invariant fx <= xda <= xr && Aligned(xda) && b.Valid() && b.y[0] == y && b.width == 16
      invariant Column(xr - xda) == twidth
      invariant forall i, j :: 0 <= i < SIZE && 0 <= j < SIZE ==>
                  b.pixels[i, j] == if j == y && fx <= i < xda then b.op.Apply(w[Column(i)], old(b.pixels[i, j]))
                                    else old(b.pixels[i, j])
    {
      StoreTile(b, xda, w);
      NextTile(xda);
      Sixteen(xr - xda - 16);
      xda := xda + 16;
    }
    Below16(xr - xda);
    if twidth > 0 {
      b.SetWidth(twidth);
      StoreTile(b, xda, w);
    }
  }

  lemma Sixteen(x: int)
    ensures Column(x + 16) == Column(x)
  {
  }

  lemma Below16(x: int)
    requires 0 <= x < 16
    ensures Column(x) == x
  {
  }

  method WideRectangle(b: Board, y1: int, y2: int, xl: int, xr: int, fx: int, bits: seq<Word>)
    requires b.Valid() && |bits| > 0 && 0 <= y1 <= y2 < SIZE && 0 <= xl < xr <= SIZE && Tile(xl + 1, fx) && fx < xr
    modifies b`x, b`y, b`source, b`width, b.pixels
    ensures b.Valid()
    ensures forall i, j :: 0 <= i < SIZE && 0 <= j < SIZE ==>
              b.pixels[i, j] == if y1 <= j <= y2 && xl <= i < xr
                                then b.op.Apply(RowOf(bits, j)[Column(i)], old(b.pixels[i, j])) else old(b.pixels[i, j])
  {
    var twidth := Column(xr - fx);
    var y, row := y1, y1 % |bits|;
    while true
      invariant y1 <= y <= y2 && row == y % |bits| && b.Valid()
      invariant forall i, j :: 0 <= i < SIZE && 0 <= j < SIZE ==>
                  b.pixels[i, j] == if y1 <= j < y && xl <= i < xr
                                    then b.op.Apply(RowOf(bits, j)[Column(i)], old(b.pixels[i, j]))
                                        else old(b.pixels[i, j])
      decreases y2 - y
    {
      WideRow(b, y, xl, xr, fx, twidth, bits[row]);
      if y >= y2 {
        break;
      }
      NextRow(y, |bits|);
      y, row := y + 1, row + 1;
      if row >= |bits| {
        row := 0;
      }
    }
  }

  // ----- the shape -----

  /** Two horizontal edges, given by a corner and a signed width. */
  datatype Shape = Shape(x1: int, y1: int, w1: int, x2: int, y2: int, w2: int) {
    function Positive(): Shape {
      Shape(if w1 < 0 then x1 + w1 else x1, y1, if w1 < 0 then -w1 else w1,
            if w2 < 0 then x2 + w2 else x2, y2, if w2 < 0 then -w2 else w2)
    }

    /** Widths positive, the upper edge first. */
    function Upright(): Shape {
      var p := Positive();
      if y1 > y2 then Shape(p.x2, y2, p.w2, p.x1, y1, p.w1) else p
    }

    ghost predicate IsUpright() {
      w1 >= 0 && w2 >= 0 && y1 <= y2
    }

    /** Both corners of both edges are on the board. */
    ghost predicate OnBoard() {
      0 <= y1 && y2 < SIZE && 0 <= x1 < SIZE && x1 + w1 <= SIZE && 0 <= x2 < SIZE && x2 + w2 <= SIZE
    }

    function Left(j: int): int
      requires y1 <= y2
    {
      Edge(x1, x2 - x1, y2 - y1, j - y1)
    }

    function Right(j: int): int
      requires y1 <= y2
    {
      Edge(x1 + w1, (x2 + w2) - (x1 + w1), y2 - y1, j - y1)
    }

    predicate Covers(i: int, j: int)
      requires y1 <= y2
    {
      y1 <= j <= y2 && Left(j) <= i < Right(j)
    }
  }

  /** A point of the upper or the lower edge, ends included. */
  predicate OnUpper(s: Shape, i: int, j: int) {
    j == s.y1 && (s.x1 <= i <= s.x1 + s.w1 || s.x1 + s.w1 <= i <= s.x1)
  }

  predicate OnLower(s: Shape, i: int, j: int) {
    j == s.y2 && (s.x2 <= i <= s.x2 + s.w2 || s.x2 + s.w2 <= i <= s.x2)
  }

  /** Turning a shape upright keeps both its edges: they change places exactly if the
      first one is below the second. */
  lemma UprightKeeps(s: Shape)
    ensures s.Upright().IsUpright()
    ensures var u := s.Upright();
            forall i, j ::
              && (OnUpper(u, i, j) <==> if s.y1 > s.y2 then OnLower(s, i, j) else OnUpper(s, i, j))
              && (OnLower(u, i, j) <==> if s.y1 > s.y2 then OnUpper(s, i, j) else OnLower(s, i, j))
  {
  }

  /** What is covered in the first and in the last row is the upper and the lower edge
      without their right ends. */
  lemma CoversEdges(s: Shape, i: int)
    requires s.IsUpright() && s.y1 < s.y2
    ensures s.Covers(i, s.y1) <==> s.x1 <= i < s.x1 + s.w1
    ensures s.Covers(i, s.y2) <==> s.x2 <= i < s.x2 + s.w2
  {
    FirstRow(s);
    LastRow(s);
  }

  /** In every row the left end is not beyond the right one, and both are on the
      board. */
  lemma RowEnds(s: Shape, j: int)
    requires s.IsUpright() && s.OnBoard() && s.y1 <= j <= s.y2
    ensures 0 <= s.Left(j) < SIZE && s.Left(j) <= s.Right(j) <= SIZE
  {
    var k := j - s.y1;
    EdgesOrdered(s.x1, s.w1, s.x2, s.w2, s.y2 - s.y1, k);
    EdgeBetween(s.x1, s.x2 - s.x1, s.y2 - s.y1, k);
    EdgeBetween(s.x1 + s.w1, (s.x2 + s.w2) - (s.x1 + s.w1), s.y2 - s.y1, k);
  }

  lemma Upright(s: Shape, j: int)
    requires s.y1 <= j <= s.y2 && s.x1 == s.x2 && s.w1 == s.w2
    ensures s.Left(j) == s.x1 && s.Right(j) == s.x1 + s.w1
  {
    EdgeBetween(s.x1, 0, s.y2 - s.y1, j - s.y1);
    EdgeBetween(s.x1 + s.w1, 0, s.y2 - s.y1, j - s.y1);
  }

  /** A rectangle: both edges are vertical. */
  method Rectangle(b: Board, s: Shape, bits: seq<Word>)
    requires b.Valid() && |bits| > 0 && s.IsUpright() && s.OnBoard() && s.x1 == s.x2 && s.w1 == s.w2
    modifies b`x, b`y, b`source, b`width, b.pixels
    ensures b.Valid()
    ensures forall i, j :: 0 <= i < SIZE && 0 <= j < SIZE ==>
              b.pixels[i, j] == if s.Covers(i, j) then b.op.Apply(RowOf(bits, j)[Column(i)], old(b.pixels[i, j]))
                                else old(b.pixels[i, j])
  {
    var xl, xr := s.x1, s.x1 + s.w1;
    var fx := (xl + 15) / 16 * 16;
    if fx == xl {
      fx := fx + 16;
    }
    hide Shape.Left, Shape.Right;
    forall j | s.y1 <= j <= s.y2 ensures s.Left(j) == xl && s.Right(j) == xr {
      Upright(s, j);
    }
    if fx >= xr {
      NarrowRectangle(b, s.y1, s.y2, xl, xr, fx, bits);
    } else {
      WideRectangle(b, s.y1, s.y2, xl, xr, fx, bits);
    }
  }

  /** Any other shape. */
  method Slanted(b: Board, s: Shape, bits: seq<Word>)
    requires b.Valid() && |bits| > 0 && s.IsUpright() && s.OnBoard()
    modifies b`x, b`y, b`source, b`width, b.pixels
    ensures b.Valid()
    ensures forall i, j :: 0 <= i < SIZE && 0 <= j < SIZE ==>
              b.pixels[i, j] == if s.Covers(i, j) then b.op.Apply(RowOf(bits, j)[Column(i)], old(b.pixels[i, j]))
                                else old(b.pixels[i, j])
  {
    hide Shape.Left, Shape.Right, OnEdge;
    var dxl, dy, dxr := s.x2 - s.x1, s.y2 - s.y1, (s.x2 + s.w2) - (s.x1 + s.w1);
    var xl, xr, el, er := s.x1, s.x1 + s.w1, 0, 0;
    var fx := (xl + 15) / 16 * 16;
    var y, row := s.y1, s.y1 % |bits|;
    FirstRow(s);
    while true
      invariant s.y1 <= y <= s.y2 && row == y % |bits| && b.Valid() && Tile(xl, fx)
      invariant xl == s.Left(y) && xr == s.Right(y)
      invariant dy > 0 ==> OnEdge(s.x1, dxl, dy, y - s.y1, xl, el) && OnEdge(s.x1 + s.w1, dxr, dy, y - s.y1, xr, er)
      invariant forall i, j :: 0 <= i < SIZE && 0 <= j < SIZE ==>
                  b.pixels[i, j] == if s.Covers(i, j) && j < y
                      then b.op.Apply(RowOf(bits, j)[Column(i)], old(b.pixels[i, j]))
                                    else old(b.pixels[i, j])
      decreases s.y2 - y
    {
      RowEnds(s, y);
      if xl != xr {
        PaintRow(b, y, xl, xr, fx, bits[row]);
      }
      if y >= s.y2 {
        break;
      }
      xl, el := StepEdge(s.x1, dxl, dy, y - s.y1, xl, el);
      fx := StepTile(xl, fx);
      xr, er := StepEdge(s.x1 + s.w1, dxr, dy, y - s.y1, xr, er);
      NextEnds(s, y, xl, el, xr, er);
      NextRow(y, |bits|);
      y, row := y + 1, row + 1;
      if row >= |bits| {
        row := 0;
      }
    }
  }

  lemma FirstRow(s: Shape)
    requires s.IsUpright()
    ensures s.Left(s.y1) == s.x1 && s.Right(s.y1) == s.x1 + s.w1
    ensures s.y1 < s.y2 ==> OnEdge(s.x1, s.x2 - s.x1, s.y2 - s.y1, 0, s.x1, 0)
                            && OnEdge(s.x1 + s.w1, (s.x2 + s.w2) - (s.x1 + s.w1), s.y2 - s.y1, 0, s.x1 + s.w1, 0)
  {
    if s.y1 < s.y2 {
      EdgeEnds(s.x1, s.x2 - s.x1, s.y2 - s.y1);
      EdgeEnds(s.x1 + s.w1, (s.x2 + s.w2) - (s.x1 + s.w1), s.y2 - s.y1);
    }
  }

  lemma NextEnds(s: Shape, y: int, xl: int, el: int, xr: int, er: int)
    requires s.IsUpright() && s.y1 <= y < s.y2
    requires OnEdge(s.x1, s.x2 - s.x1, s.y2 - s.y1, y - s.y1 + 1, xl, el)
    requires OnEdge(s.x1 + s.w1, (s.x2 + s.w2) - (s.x1 + s.w1), s.y2 - s.y1, y - s.y1 + 1, xr, er)
    ensures xl == s.Left(y + 1) && xr == s.Right(y + 1)
  {
    hide OnEdge;
    OnEdgeIs(s.x1, s.x2 - s.x1, s.y2 - s.y1, y - s.y1 + 1, xl, el);
    OnEdgeIs(s.x1 + s.w1, (s.x2 + s.w2) - (s.x1 + s.w1), s.y2 - s.y1, y - s.y1 + 1, xr, er);
  }

  /** The lower corners are reached exactly. */
  lemma LastRow(s: Shape)
    requires s.IsUpright() && s.y1 < s.y2
    ensures s.Left(s.y2) == s.x2 && s.Right(s.y2) == s.x2 + s.w2
  {
    EdgeEnds(s.x1, s.x2 - s.x1, s.y2 - s.y1);
    EdgeEnds(s.x1 + s.w1, (s.x2 + s.w2) - (s.x1 + s.w1), s.y2 - s.y1);
  }

  /** The pattern starts at the corner of the board. */
  lemma PatternIs(bits: seq<Word>)
    requires |bits| > 0
    ensures forall i, j :: RowOf(bits, j)[Column(i)] == bits[j % |bits|][i % 16]
  {
  }

  /** Fills an unclipped shape: in every row the pixels from the left edge to the
      right one are combined once with the pattern, which is aligned to the board. */
  method BWFillTrapezoid(b: Board, shape: Shape, bits: seq<Word>)
    requires b.Valid() && |bits| > 0 && shape.Upright().OnBoard()
    modifies b`x, b`y, b`source, b`width, b.pixels
    ensures b.Valid()
    ensures forall i, j :: 0 <= i < SIZE && 0 <= j < SIZE ==>
              b.pixels[i, j] == if shape.Upright().Covers(i, j)
                                then b.op.Apply(bits[j % |bits|][i % 16], old(b.pixels[i, j]))
                                else old(b.pixels[i, j])
  {
    hide Shape.Covers, RowOf, Column;
    PatternIs(bits);
    var x1, y1, w1, x2, y2, w2 := shape.x1, shape.y1, shape.w1, shape.x2, shape.y2, shape.w2;
    if w1 < 0 {
      x1, w1 := x1 + w1, -w1;
    }
    if w2 < 0 {
      x2, w2 := x2 + w2, -w2;
    }
    if y1 > y2 {
      x1, x2, y1, y2, w1, w2 := x2, x1, y2, y1, w2, w1;
    }
    var s := Shape(x1, y1, w1, x2, y2, w2);
    if x2 - x1 == 0 && w1 == w2 {
      Rectangle(b, s, bits);
    } else {
      Slanted(b, s, bits);
    }
  }
}
