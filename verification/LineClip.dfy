/** Clipping a line segment to a view port whose corner is the origin. */
module LineClip {
  import opened CInt

  /** On which sides of the view port a point lies. */
  datatype Crossing = Crossing(top: bool, bottom: bool, left: bool, right: bool) {
    predicate Any() { top || bottom || left || right }

    predicate Shares(c: Crossing) {
      (top && c.top) || (bottom && c.bottom) || (left && c.left) || (right && c.right)
    }

    /** How many times an end there can still be moved. */
    function Moves(): int {
      if left || right then 2 else if top || bottom then 1 else 0
    }
  }

  function Crossings(x: int, y: int, width: int, height: int): Crossing {
    Crossing(y < 0, y >= 0 && y >= height, x < 0, x >= 0 && x >= width)
  }

  predicate Inside(x: int, y: int, width: int, height: int) {
    0 <= x < width && 0 <= y < height
  }

  predicate Between(a: int, b: int, c: int) {
    a <= b <= c || c <= b <= a
  }

  /** Of four positions in a row. */
  predicate InOrder(a: int, b: int, c: int, d: int) {
    a <= b <= c <= d || d <= c <= b <= a
  }

  lemma AbsProduct(a: int, b: int)
    ensures Abs(a * b) == Abs(a) * Abs(b)
    ensures a > 0 && b > 0 ==> a * b > 0
    ensures a < 0 && b < 0 ==> a * b > 0
    ensures (a < 0 && b > 0) || (a > 0 && b < 0) ==> a * b < 0
  {
  }

  /** The point where the edge is met is between the ends, rounded as it is. */
  lemma CutBetween(a0: int, a1: int, b0: int, b1: int, edge: int)
    requires b0 != b1 && Between(b0, edge, b1)
    ensures Between(a0, a0 + Div((a1 - a0) * (edge - b0), b1 - b0), a1)
  {
    var n, d := (a1 - a0) * (edge - b0), b1 - b0;
    AbsProduct(a1 - a0, edge - b0);
    Times(Abs(edge - b0), Abs(d), Abs(a1 - a0));
    Product(Abs(edge - b0), Abs(a1 - a0));
    SmallQuotient(Abs(n), Abs(d), Abs(a1 - a0));
    if edge == b0 {
      assert n == 0;
    }
  }

  /** The point is on the line from (x0, y0) to (x1, y1) but for rounding: it is less
      than one pixel off along one axis, on the side of (x0, y0). */
  predicate NearLine(x0: int, y0: int, x1: int, y1: int, x: int, y: int) {
    || (x0 != x1 && Rounded(y - y0, y1 - y0, x - x0, x1 - x0))
    || (y0 != y1 && Rounded(x - x0, x1 - x0, y - y0, y1 - y0))
  }

  /** `q` is `a * n / d`, rounded towards zero. */
  predicate Rounded(q: int, a: int, n: int, d: int) {
    && Abs(a * n - q * d) < Abs(d) && (q == 0 || Abs(q * d) <= Abs(a * n))
    && (q > 0 ==> (a * n > 0) == (d > 0)) && (q < 0 ==> (a * n > 0) != (d > 0))
  }

  lemma DivRounds(a: int, n: int, d: int)
    requires d != 0
    ensures Rounded(Div(a * n, d), a, n, d)
  {
    var m := a * n;
    RestIs(Abs(m), Abs(d));
    FloorIs(Abs(m), Abs(d));
    var q := Abs(m) / Abs(d);
    SignedProducts(q, d);
    if q > 0 {
      assert Abs(m) > 0;
    }
  }

  lemma SignedProducts(q: int, d: int)
    requires q >= 0
    ensures d >= 0 ==> q * Abs(d) == q * d && (-q) * d == -(q * Abs(d))
    ensures d < 0 ==> q * Abs(d) == -(q * d) && (-q) * d == q * Abs(d)
  {
  }

  /** One cut: where the segment meets the edge that the chosen end is beyond. The
      division is not by zero, because the other end is not beyond the same edge. */
  method Cut(x0: int, y0: int, x1: int, y1: int, cross: Crossing, width: int, height: int) returns (x: int, y: int)
    requires width > 0 && height > 0
    requires var c0, c1 := Crossings(x0, y0, width, height), Crossings(x1, y1, width, height);
             (c0.Any() || c1.Any()) && !c0.Shares(c1) && cross == if c0.Any() then c0 else c1
    ensures Between(x0, x, x1) && Between(y0, y, y1)
    ensures if cross.left || cross.right then 0 <= x < width else 0 <= y < height
    ensures NearLine(x0, y0, x1, y1, x, y)
  {
    hide Rounded;
    if cross.left || cross.right {
      var edge := if cross.left then 0 else width - 1;
      CutBetween(y0, y1, x0, x1, edge);
      DivRounds(y1 - y0, edge - x0, x1 - x0);
      y := y0 + Div((y1 - y0) * (edge - x0), x1 - x0);
      x := edge;
    } else {
      var edge := if cross.top then 0 else height - 1;
      CutBetween(x0, x1, y0, y1, edge);
      DivRounds(x1 - x0, edge - y0, y1 - y0);
      x := x0 + Div((x1 - x0) * (edge - y0), y1 - y0);
      y := edge;
    }
  }

  /** A cut end can be moved less often than before, or the segment is rejected. */
  lemma CutHelps(x0: int, y0: int, x1: int, y1: int, x: int, y: int, width: int, height: int)
    requires var c0, c1 := Crossings(x0, y0, width, height), Crossings(x1, y1, width, height);
             c0.Any() && !c0.Shares(c1)
    requires Between(x0, x, x1) && Between(y0, y, y1)
    requires var c := Crossings(x0, y0, width, height); if c.left || c.right then 0 <= x < width else 0 <= y < height
    ensures var c := Crossings(x, y, width, height);
            c.Shares(Crossings(x1, y1, width, height)) || c.Moves() < Crossings(x0, y0, width, height).Moves()
  {
  }

  /** Both ends are beyond the same side. */
  ghost predicate Beyond(x0: int, y0: int, x1: int, y1: int, width: int, height: int) {
    Crossings(x0, y0, width, height).Shares(Crossings(x1, y1, width, height))
  }

  lemma BeyondStays(x0: int, y0: int, u0: int, v0: int, u1: int, v1: int, x1: int, y1: int, width: int, height: int)
    requires Beyond(x0, y0, x1, y1, width, height) && InOrder(x0, u0, u1, x1) && InOrder(y0, v0, v1, y1)
    ensures Beyond(u0, v0, u1, v1, width, height)
  {
  }

  lemma InsideIs(x: int, y: int, width: int, height: int)
    ensures Inside(x, y, width, height) <==> !Crossings(x, y, width, height).Any()
  {
  }

  datatype Segment = Segment(x0: int, y0: int, x1: int, y1: int)

  /** Every segment is the one before it with one end moved to a point of its line. */
  ghost predicate CutDown(ss: seq<Segment>) {
    forall i :: 0 < i < |ss| ==>
      var a, b := ss[i - 1], ss[i];
      || (b.x1 == a.x1 && b.y1 == a.y1 && NearLine(a.x0, a.y0, a.x1, a.y1, b.x0, b.y0))
      || (b.x0 == a.x0 && b.y0 == a.y0 && NearLine(a.x0, a.y0, a.x1, a.y1, b.x1, b.y1))
  }

  lemma CutDownNext(ss: seq<Segment>, b: Segment)
    requires ss != [] && CutDown(ss)
    requires var a := ss[|ss| - 1];
             || (b.x1 == a.x1 && b.y1 == a.y1 && NearLine(a.x0, a.y0, a.x1, a.y1, b.x0, b.y0))
             || (b.x0 == a.x0 && b.y0 == a.y0 && NearLine(a.x0, a.y0, a.x1, a.y1, b.x1, b.y1))
    ensures CutDown(ss + [b])
  {
    hide NearLine;
  }

  lemma OneSegment(ss: seq<Segment>)
    requires |ss| == 1
    ensures CutDown(ss)
  {
  }

  /** The clipping loop of BWvector. A segment that is not visible is rejected. */
  method Clip(x0: int, y0: int, x1: int, y1: int, width: int, height: int)
      returns (visible: bool, u0: int, v0: int, u1: int, v1: int, ghost cuts: seq<Segment>)
    requires width > 0 && height > 0
    ensures 1 <= |cuts| <= 5 && CutDown(cuts)
    ensures cuts[0] == Segment(x0, y0, x1, y1) && cuts[|cuts| - 1] == Segment(u0, v0, u1, v1)
    ensures visible ==> Inside(u0, v0, width, height) && Inside(u1, v1, width, height)
    ensures InOrder(x0, u0, u1, x1) && InOrder(y0, v0, v1, y1)
    ensures Inside(x0, y0, width, height) ==> visible && u0 == x0 && v0 == y0
    ensures Inside(x1, y1, width, height) ==> visible && u1 == x1 && v1 == y1
    ensures Beyond(x0, y0, x1, y1, width, height) ==> !visible
  {
    hide Crossings, Inside, NearLine, CutDown;
    ghost var steps := 0;
    u0, v0, u1, v1, cuts := x0, y0, x1, y1, [Segment(x0, y0, x1, y1)];
    OneSegment(cuts);
    InsideIs(x0, y0, width, height);
    InsideIs(x1, y1, width, height);
    var cross0, cross1 := Crossings(u0, v0, width, height), Crossings(u1, v1, width, height);
    while cross0.Any() || cross1.Any()
      invariant cross0 == Crossings(u0, v0, width, height) && cross1 == Crossings(u1, v1, width, height)
      invariant InOrder(x0, u0, u1, x1) && InOrder(y0, v0, v1, y1)
      invariant Inside(x0, y0, width, height) ==> u0 == x0 && v0 == y0
      invariant Inside(x1, y1, width, height) ==> u1 == x1 && v1 == y1
      invariant cross0.Shares(cross1) || steps + cross0.Moves() + cross1.Moves() <= 4
      invariant steps <= 4 && |cuts| == steps + 1 && CutDown(cuts)
      invariant cuts[0] == Segment(x0, y0, x1, y1) && cuts[|cuts| - 1] == Segment(u0, v0, u1, v1)
      decreases if cross0.Shares(cross1) then 0 else cross0.Moves() + cross1.Moves()
    {
      if cross0.Shares(cross1) {
        return false, u0, v0, u1, v1, cuts;
      }
      var cross := if cross0.Any() then cross0 else cross1;
      var x, y := Cut(u0, v0, u1, v1, cross, width, height);
      if cross == cross0 {
        CutHelps(u0, v0, u1, v1, x, y, width, height);
        CutDownNext(cuts, Segment(x, y, u1, v1));
        u0, v0, cross0 := x, y, Crossings(x, y, width, height);
      } else {
        CutHelps(u1, v1, u0, v0, x, y, width, height);
        CutDownNext(cuts, Segment(u0, v0, x, y));
        u1, v1, cross1 := x, y, Crossings(x, y, width, height);
      }
      cuts := cuts + [Segment(u0, v0, u1, v1)];
      steps := steps + 1;
    }
    InsideIs(u0, v0, width, height);
    InsideIs(u1, v1, width, height);
    if Beyond(x0, y0, x1, y1, width, height) {
      BeyondStays(x0, y0, u0, v0, u1, v1, x1, y1, width, height);
    }
    visible := true;
  }
}
