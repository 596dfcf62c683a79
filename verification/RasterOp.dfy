/** Block copy on the screen, between rectangles that may overlap. */
module RasterOp {
  import opened FrameBuffer
  import opened Optional

  /** `*yda = *ysa`: the word fetched before goes to row `yda`, and the word of
      row `ysa` is fetched. */
  method Row(b: Board, ysa: int, yda: int)
    requires b.Valid() && -1 <= ysa <= SIZE && 0 <= yda < SIZE && b.x[0] + b.width <= SIZE && b.x[1] + b.width <= SIZE
    modifies b`x, b`y, b`source, b`fifo, b.pixels
    ensures b.Valid() && b.x[0] == old(b.x[0])
    ensures 0 <= ysa < SIZE ==>
              b.x[1] == old(b.x[1]) && forall i :: 0 <= i < b.width ==> b.fifo[i] == old(b.pixels[b.x[1] + i, ysa])
    ensures forall i, j :: 0 <= i < SIZE && 0 <= j < SIZE ==>
              b.pixels[i, j] == if j == yda && old(b.x[0]) <= i < old(b.x[0]) + b.width
                                then b.op.Apply(old(b.fifo)[i - old(b.x[0])], old(b.pixels[i, j]))
                                    else old(b.pixels[i, j])
  {
    var w := b.FetchSource(ysa);
    b.StoreDest(yda, w);
  }

  /** The first read of a strip. */
  method Prime(b: Board, xsa: int, ysa: int, xda: int)
    requires b.Valid() && 0 <= ysa < SIZE && 0 <= xsa < SIZE && xsa + b.width <= SIZE && 0 <= xda < SIZE
    modifies b`x, b`y, b`source, b`fifo, b.pixels
    ensures b.Valid() && b.x[0] == xda && b.x[1] == xsa
    ensures forall i :: 0 <= i < b.width ==> b.fifo[i] == old(b.pixels[xsa + i, ysa])
    ensures forall i, j :: 0 <= i < SIZE && 0 <= j < SIZE ==> b.pixels[i, j] == old(b.pixels[i, j])
  {
    b.TouchDest(xda);
    b.TouchSource(xsa);
    var _ := b.FetchSource(ysa);
  }

  /** A column of height `height` and width `b.width`, from the top down. */
  method StripUp(b: Board, xsa: int, ysa: int, xda: int, yda: int, height: int)
    requires b.Valid() && height > 0
    requires 0 <= xsa < SIZE && xsa + b.width <= SIZE && 0 <= xda < SIZE && xda + b.width <= SIZE
    requires 0 <= yda <= ysa && ysa + height <= SIZE
    modifies b`x, b`y, b`source, b`fifo, b.pixels
    ensures b.Valid()
    ensures forall i, j :: 0 <= i < SIZE && 0 <= j < SIZE ==>
              b.pixels[i, j] == if xda <= i < xda + b.width && yda <= j < yda + height
                                then b.op.Apply(old(b.pixels[i - xda + xsa, j - yda + ysa]), old(b.pixels[i, j]))
                                else old(b.pixels[i, j])
  {
    Prime(b, xsa, ysa, xda);
    var j := 0;
    while j < height
      invariant 0 <= j <= height && b.Valid() && b.x[0] == xda
      invariant j < height ==>
                  b.x[1] == xsa && forall i :: 0 <= i < b.width ==> b.fifo[i] == old(b.pixels[xsa + i, ysa + j])
      invariant forall i, r :: 0 <= i < SIZE && 0 <= r < SIZE ==>
                  b.pixels[i, r] == if xda <= i < xda + b.width && yda <= r < yda + j
                                    then b.op.Apply(old(b.pixels[i - xda + xsa, r - yda + ysa]), old(b.pixels[i, r]))
                                    else old(b.pixels[i, r])
    {
      Row(b, ysa + j + 1, yda + j);
      j := j + 1;
    }
  }

  /** The same from the bottom up. */
  method StripDown(b: Board, xsa: int, ysa: int, xda: int, yda: int, height: int)
    requires b.Valid() && height > 0
    requires 0 <= xsa < SIZE && xsa + b.width <= SIZE && 0 <= xda < SIZE && xda + b.width <= SIZE
    requires height <= ysa <= yda <= SIZE
    modifies b`x, b`y, b`source, b`fifo, b.pixels
    ensures b.Valid()
    ensures forall i, j :: 0 <= i < SIZE && 0 <= j < SIZE ==>
              b.pixels[i, j] == if xda <= i < xda + b.width && yda - height <= j < yda
                                then b.op.Apply(old(b.pixels[i - xda + xsa, j - yda + ysa]), old(b.pixels[i, j]))
                                else old(b.pixels[i, j])
  {
    Prime(b, xsa, ysa - 1, xda);
    var j := 0;
    while j < height
      invariant 0 <= j <= height && b.Valid() && b.x[0] == xda
      invariant j < height ==>
                  b.x[1] == xsa && forall i :: 0 <= i < b.width ==> b.fifo[i] == old(b.pixels[xsa + i, ysa - 1 - j])
      invariant forall i, r :: 0 <= i < SIZE && 0 <= r < SIZE ==>
                  b.pixels[i, r] == if xda <= i < xda + b.width && yda - j <= r < yda
                                    then b.op.Apply(old(b.pixels[i - xda + xsa, r - yda + ysa]), old(b.pixels[i, r]))
                                    else old(b.pixels[i, r])
    {
      Row(b, ysa - 2 - j, yda - 1 - j);
      j := j + 1;
    }
  }

  /** One strip in the direction that does not overtake itself. */
  method Strip(b: Board, xsa: int, ys: int, xda: int, yd: int, width: int, height: int)
    requires b.Valid() && height > 0 && 0 < width <= 16
    requires 0 <= xsa && xsa + width <= SIZE && 0 <= xda && xda + width <= SIZE
    requires 0 <= ys && ys + height <= SIZE && 0 <= yd && yd + height <= SIZE
    modifies b`x, b`y, b`source, b`fifo, b`width, b.pixels
    ensures b.Valid()
    ensures forall i, j :: 0 <= i < SIZE && 0 <= j < SIZE ==>
              b.pixels[i, j] == if xda <= i < xda + width && yd <= j < yd + height
                                then b.op.Apply(old(b.pixels[i - xda + xsa, j - yd + ys]), old(b.pixels[i, j]))
                                else old(b.pixels[i, j])
  {
    b.SetWidth(width);
    if ys >= yd {
      StripUp(b, xsa, ys, xda, yd, height);
    } else {
      StripDown(b, xsa, ys + height, xda, yd + height, height);
    }
  }

  /** The strips from left to right. */
  method MoveRight(b: Board, xs: int, ys: int, xd: int, yd: int, width: int, height: int)
    requires b.Valid() && height > 0 && width > 0 && 0 <= xd <= xs && xs + width <= SIZE
    requires 0 <= ys && ys + height <= SIZE && 0 <= yd && yd + height <= SIZE
    modifies b`x, b`y, b`source, b`fifo, b`width, b.pixels
    ensures b.Valid()
    ensures forall i, j :: 0 <= i < SIZE && 0 <= j < SIZE ==>
              b.pixels[i, j] == if xd <= i < xd + width && yd <= j < yd + height
                                then b.op.Apply(old(b.pixels[i - xd + xs, j - yd + ys]), old(b.pixels[i, j]))
                                else old(b.pixels[i, j])
  {
    var xda, xsa, left := xd, xs, width;
    while left > 0
      invariant b.Valid() && xda - xd == xsa - xs == width - left
      invariant left > -16
      invariant forall i, j :: 0 <= i < SIZE && 0 <= j < SIZE ==>
                  b.pixels[i, j] == if xd <= i < xda && i < xd + width && yd <= j < yd + height
                                    then b.op.Apply(old(b.pixels[i - xd + xs, j - yd + ys]), old(b.pixels[i, j]))
                                    else old(b.pixels[i, j])
    {
      Strip(b, xsa, ys, xda, yd, if left >= 16 then 16 else left, height);
      xda := xda + 16;
      xsa := xsa + 16;
      left := left - 16;
    }
  }

  /** The strips from right to left. */
  method MoveLeft(b: Board, xs: int, ys: int, xd: int, yd: int, width: int, height: int)
    requires b.Valid() && height > 0 && width > 0 && 0 <= xs < xd && xd + width <= SIZE
    requires 0 <= ys && ys + height <= SIZE && 0 <= yd && yd + height <= SIZE
    modifies b`x, b`y, b`source, b`fifo, b`width, b.pixels
    ensures b.Valid()
    ensures forall i, j :: 0 <= i < SIZE && 0 <= j < SIZE ==>
              b.pixels[i, j] == if xd <= i < xd + width && yd <= j < yd + height
                                then b.op.Apply(old(b.pixels[i - xd + xs, j - yd + ys]), old(b.pixels[i, j]))
                                else old(b.pixels[i, j])
  {
    var xda, xsa, left := xd + width, xs + width, width;
    while left > 0
      invariant b.Valid() && xda - xd == xsa - xs == if left > 0 then left else 0
      invariant forall i, j :: 0 <= i < SIZE && 0 <= j < SIZE ==>
                  b.pixels[i, j] == if xda <= i < xd + width && yd <= j < yd + height
                                    then b.op.Apply(old(b.pixels[i - xd + xs, j - yd + ys]), old(b.pixels[i, j]))
                                    else old(b.pixels[i, j])
    {
      var n := if left >= 16 then 16 else left;
      xda := xda - n;
      xsa := xsa - n;
      Strip(b, xsa, ys, xda, yd, n, height);
      left := left - 16;
    }
  }

  /** Position `p` of an interval, negative extents pointing back. */
  ghost predicate Within(p: int, start: int, extent: int) {
    if extent >= 0 then start <= p < start + extent else start + extent <= p < start
  }

  /** Position `p` of an interval that may be empty. */
  predicate Inside(p: int, start: int, extent: int) {
    start <= p < start + extent
  }

  /** Clips one coordinate of a copy: the positions that remain are those whose
      source and destination are both visible. */
  method ClipBoth(s: int, d: int, extent: int, limit: int) returns (s': int, d': int, extent': int)
    requires extent >= 0
    ensures s' - d' == s - d
    ensures extent' > 0 ==> 0 <= s' && s' + extent' <= limit && 0 <= d' && d' + extent' <= limit
    ensures forall p :: Inside(p, d', extent') <==> Inside(p, d, extent) && 0 <= p < limit && 0 <= p - d + s < limit
  {
    s', d', extent' := s, d, extent;
    if s' < 0 {
      s', d', extent' := 0, d' - s', extent' + s';
    }
    if d' < 0 {
      s', d', extent' := s' - d', 0, extent' + d';
    }
    var t := limit - s' - extent';
    if t < 0 {
      extent' := extent' + t;
    }
    t := limit - d' - extent';
    if t < 0 {
      extent' := extent' + t;
    }
  }

  /** The part of the board that is visible: all of it without a view port. */
  function Area(v: Option<ViewPort>): ViewPort {
    if v.Some? then v.value else ViewPort(0, 0, SIZE, SIZE)
  }

  /** An interval that needs no clipping, as callers without a view port have. */
  ghost predicate Fits(start: int, extent: int) {
    0 <= start <= SIZE && 0 <= start + extent <= SIZE
  }

  /** Position `p` of the destination belongs to the copy and is visible, as is
      the position it is copied from. */
  ghost predicate Visible(p: int, s: int, d: int, extent: int, limit: int) {
    Within(p, d, extent) && 0 <= p < limit && 0 <= p - d + s < limit
  }

  /** One coordinate of a copy: extents made positive, clipped and placed on the
      board. */
  method PlaceOne(clip: bool, start: int, limit: int, s: int, d: int, extent: int) returns (s': int, d': int, n: int)
    requires 0 <= start && start + limit <= SIZE
    requires !clip ==> start == 0 && limit == SIZE && Fits(s, extent) && Fits(d, extent)
    ensures s' - d' == s - d
    ensures n > 0 ==> 0 <= s' && s' + n <= SIZE && 0 <= d' && d' + n <= SIZE
    ensures forall i :: Inside(i, d', n) <==> Visible(i - start, s, d, extent, limit)
  {
    s', d', n := s, d, extent;
    if n < 0 {
      s', d', n := s' + n, d' + n, -n;
    }
    ghost var first, all := d', n;
    assert forall p :: Within(p, d, extent) <==> Inside(p, first, all);
    if clip {
      s', d', n := ClipBoth(s', d', n, limit);
      assert forall p :: Inside(p, d', n) <==> Inside(p, first, all) && 0 <= p < limit && 0 <= p - d + s < limit;
      s', d' := s' + start, d' + start;
      forall i ensures Inside(i, d', n) <==> Visible(i - start, s, d, extent, limit) {
        assert Inside(i, d', n) <==> Inside(i - start, d' - start, n);
      }
    }
  }

  /** Block copy, clipped to the view port: every pixel of the destination whose
      source is visible gets the value its source had before the call, combined
      with its own by the raster function, and nothing else changes. */
  method BWRasterOp(b: Board, v: Option<ViewPort>, xs: int, ys: int, xd: int, yd: int, width: int, height: int)
    requires b.Valid() && Area(v).OnBoard()
    requires v.None? ==> Fits(xs, width) && Fits(xd, width) && Fits(ys, height) && Fits(yd, height)
    modifies b`x, b`y, b`source, b`fifo, b`width, b.pixels
    ensures b.Valid()
    ensures forall i, j :: 0 <= i < SIZE && 0 <= j < SIZE ==>
              var a := Area(v);
              var x, y := i - a.left, j - a.top;
              b.pixels[i, j] == if Visible(x, xs, xd, width, a.width) && Visible(y, ys, yd, height, a.height)
                                then b.op.Apply(old(b.pixels[i - xd + xs, j - yd + ys]), old(b.pixels[i, j]))
                                else old(b.pixels[i, j])
  {
    var a := Area(v);
    var xs', xd', w := PlaceOne(v.Some?, a.left, a.width, xs, xd, width);
    var ys', yd', h := PlaceOne(v.Some?, a.top, a.height, ys, yd, height);
    if w > 0 && h > 0 {
      if xs' >= xd' {
        MoveRight(b, xs', ys', xd', yd', w, h);
      } else {
        MoveLeft(b, xs', ys', xd', yd', w, h);
      }
    }
    forall i, j | 0 <= i < SIZE && 0 <= j < SIZE
      ensures b.pixels[i, j] ==
              if Visible(i - a.left, xs, xd, width, a.width) && Visible(j - a.top, ys, yd, height, a.height)
              then b.op.Apply(old(b.pixels[i - xd + xs, j - yd + ys]), old(b.pixels[i, j])) else old(b.pixels[i, j])
    {
      assert Inside(i, xd', w) <==> Visible(i - a.left, xs, xd, width, a.width);
      assert Inside(j, yd', h) <==> Visible(j - a.top, ys, yd, height, a.height);
    }
  }
}
