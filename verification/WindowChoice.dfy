/** Which window is split, and where, when a window is created or reshaped. */
module WindowChoice {
  import opened CInt
  import opened Optional
  import opened Tiling
  import opened WindowOps
  import opened WindowSizes

  // ----- reshaping: the smallest container of a dragged rectangle -----

  /** The rectangle between two corners, the right and the bottom one included. */
  datatype Drag = Drag(left: int, right: int, top: int, bottom: int)

  /** The corners of a drag in order. */
  function DragOf(x0: int, y0: int, x: int, y: int): Drag {
    Drag(if x < x0 then x else x0, if x < x0 then x0 else x, if y < y0 then y else y0, if y < y0 then y0 else y)
  }

  ghost predicate Holds(r: Rect, d: Drag) {
    r.top <= d.top && r.left <= d.left && d.bottom < r.top + r.height && d.right < r.left + r.width
  }

  /** That is: it contains the first and the last point of the drag. */
  lemma HoldsCorners(r: Rect, d: Drag)
    requires d.left <= d.right && d.top <= d.bottom
    ensures Holds(r, d) <==> Covers(r, d.left, d.top) && Covers(r, d.right, d.bottom)
  {
  }

  function FindContainer<N>(w: Tree<N>, d: Drag): (o: Option<Tree<N>>) {
    if w.r.top > d.top || w.r.left > d.left || w.r.top + w.r.height <= d.bottom
       || w.r.left + w.r.width <= d.right then None
    else if w.Split? then
      var above := FindContainer(w.top, d);
      if above.Some? then above
      else
        var below := FindContainer(w.bottom, d);
        if below.Some? then below else Some(w)
    else Some(w)
  }

  /** A node of the tree holds the drag exactly if it is the container that is
      found or a node around it, so what is found is the smallest one. */
  lemma {:induction false} ContainerIsSmallest<N>(w: Tree<N>, d: Drag, n: N)
    requires Tiled(w) && LeavesNonNegative(w) && Distinct(w) && n in Ids(w) && d.left <= d.right && d.top <= d.bottom
    ensures var o := FindContainer(w, d);
            Holds(Sub(w, n).r, d) <==> o.Some? && o.value.id in Ids(Sub(w, n))
    ensures var o := FindContainer(w, d); o.Some? ==> o.value.id in Ids(w) && o.value == Sub(w, o.value.id)
    decreases w
  {
    if w.Split? {
      NonNegative(w.top);
      NonNegative(w.bottom);
      OnePartHolds(w, d);
      HoldsUp(w, d);
      HoldsUp(w.top, d);
      HoldsUp(w.bottom, d);
      ContainerIsSmallest(w.top, d, if n in Ids(w.top) then n else w.top.id);
      ContainerIsSmallest(w.bottom, d, if n in Ids(w.bottom) then n else w.bottom.id);
    }
  }

  lemma HoldsUp<N>(w: Tree<N>, d: Drag)
    ensures FindContainer(w, d).Some? <==> Holds(w.r, d)
  {
  }

  lemma OnePartHolds<N>(w: Tree<N>, d: Drag)
    requires Tiled(w) && w.Split? && d.left <= d.right && d.top <= d.bottom
    requires w.top.r.width >= 0 && w.top.r.height >= 0 && w.bottom.r.width >= 0 && w.bottom.r.height >= 0
    ensures !(Holds(w.top.r, d) && Holds(w.bottom.r, d))
    ensures Holds(w.top.r, d) || Holds(w.bottom.r, d) ==> Holds(w.r, d)
  {
  }

  /** Where the container is cut, and on which side the window is put. */
  datatype Cutting = Cutting(pos: int, horizontal: bool, above: bool)

  /** FinishReshape's choice: across the longer side of the drag relative to the
      container, at the border of the drag that leaves the larger rest. */
  function ChooseCut(r: Rect, d: Drag): Cutting
    requires Holds(r, d) && d.left <= d.right && d.top <= d.bottom
  {
    if (d.bottom - d.top) * 1000 / r.height > (d.right - d.left) * 1000 / r.width then
      if d.left - r.left < r.left + r.width - d.right then Cutting(d.right, false, true)
      else Cutting(d.left, false, false)
    else
      if d.top - r.top < r.top + r.height - d.bottom then Cutting(d.bottom, true, true) else Cutting(d.top, true, false)
  }

  /** The new window covers the drag but for its last column or row, and what is
      left over beside the drag goes to the larger part. */
  lemma CutCoversDrag(r: Rect, d: Drag)
    requires Holds(r, d) && d.left <= d.right && d.top <= d.bottom
    ensures var c := ChooseCut(r, d); var q := NewRect(r, c.pos, c.horizontal, c.above);
            && (forall x, y :: d.left <= x < d.right && d.top <= y < d.bottom ==> Covers(q, x, y))
            && (c.horizontal ==> q.width == r.width
                                 && q.height == (d.bottom - d.top)
                                    + (if c.above then d.top - r.top else r.top + r.height - d.bottom))
            && (!c.horizontal ==> q.height == r.height
                                  && q.width == (d.right - d.left)
                                     + (if c.above then d.left - r.left else r.left + r.width - d.right))
  {
  }

  /** Along the cut, the window gets the smaller of the two gaps beside the drag. */
  lemma CutTakesSmallerGap(r: Rect, d: Drag)
    requires Holds(r, d) && d.left <= d.right && d.top <= d.bottom
    ensures var c := ChooseCut(r, d);
            var near := if c.horizontal then d.top - r.top else d.left - r.left;
            var far := if c.horizontal then r.top + r.height - d.bottom else r.left + r.width - d.right;
            && (c.above <==> near < far)
            && Along(NewRect(r, c.pos, c.horizontal, c.above), c.horizontal)
               == (if c.horizontal then d.bottom - d.top else d.right - d.left) + (if near < far then near else far)
  {
  }

  /** The cut runs up and down only if the drag takes more of the height of the
      container than of its width, and does if that is more by a thousandth. */
  lemma CutDirection(r: Rect, d: Drag)
    requires Holds(r, d) && d.left <= d.right && d.top <= d.bottom
    ensures var h, w := (d.bottom - d.top) * r.width, (d.right - d.left) * r.height;
            && (!ChooseCut(r, d).horizontal ==> h > w)
            && (1000 * h >= 1000 * w + r.width * r.height ==> !ChooseCut(r, d).horizontal)
  {
    Thousandths(d.bottom - d.top, r.height, d.right - d.left, r.width);
  }

  lemma Thousandths(h: int, hh: int, w: int, ww: int)
    requires h >= 0 && w >= 0 && hh > 0 && ww > 0
    ensures h * 1000 / hh > w * 1000 / ww ==> h * ww > w * hh
    ensures 1000 * (h * ww) >= 1000 * (w * hh) + ww * hh ==> h * 1000 / hh > w * 1000 / ww
  {
    var a, b := h * 1000 / hh, w * 1000 / ww;
    RestIs(h * 1000, hh);
    RestIs(w * 1000, ww);
    Scaled(a, b, hh, ww, h * 1000, w * 1000);
    assert h * 1000 * ww == 1000 * (h * ww) && w * 1000 * hh == 1000 * (w * hh);
  }

  /** Two quotients and the numbers they come from. */
  lemma Scaled(a: int, b: int, hh: int, ww: int, m: int, n: int)
    requires hh > 0 && ww > 0 && 0 <= m - a * hh < hh && 0 <= n - b * ww < ww
    ensures a > b ==> m * ww > n * hh
    ensures a <= b ==> m * ww < n * hh + ww * hh
  {
    var e := Spread(m, a, hh, ww);
    var f := Spread(n, b, ww, hh);
    assert hh * ww == ww * hh;
    Multiples(a, b, hh * ww);
  }

  lemma Spread(m: int, a: int, x: int, y: int) returns (e: int)
    requires x > 0 && y > 0 && 0 <= m - a * x < x
    ensures m * y == a * (x * y) + e && 0 <= e < x * y
  {
    var r := m - a * x;
    e := r * y;
    Times(r + 1, x, y);
    Times(0, r, y);
    assert (r + 1) * y == r * y + y;
    assert m * y == (a * x + r) * y == a * x * y + r * y;
    assert a * x * y == a * (x * y);
  }

  lemma Multiples(a: int, b: int, k: int)
    requires k >= 0
    ensures a > b ==> a * k >= b * k + k
    ensures a <= b ==> a * k <= b * k
  {
    if a > b {
      Times(b + 1, a, k);
      assert (b + 1) * k == b * k + k;
    } else {
      Times(a, b, k);
    }
  }

  /** SplitWindow accepts the choice unless the drag has no extent across the cut
      and starts at the near edge of the container. */
  lemma CutAccepted(r: Rect, d: Drag)
    requires Holds(r, d) && d.left <= d.right && d.top <= d.bottom
    ensures var c := ChooseCut(r, d);
            CutAllowed(r, c.pos, c.horizontal) <==> if c.horizontal then d.bottom > r.top else d.right > r.left
  {
  }

  // ----- creating: the best window to split -----

  /** What a split of a window would cost, and its position relative to the edge. */
  datatype Offer = Offer(cost: int, at: int)

  /** The arithmetic of TrySplit. */
  function OfferOf(size: int, ortho: int, min: int, max: int, orthomax: int, dmin: int, dmax: int,
          orthodmax: int): Option<Offer>
    requires max + dmax > 0
  {
    var t0 := Div(size * max, max + dmax);
    var t1 := if t0 < min then min else t0;
    var t2 := if t1 > max then max else t1;
    var t3 := if size - t2 < dmin then size - dmin else t2;
    var t := if size - t3 > dmax then size - dmax else t3;
    if t >= min && t < size then
      var area := size * ortho;
      Some(Offer(if size - t >= dmax then (if ortho >= orthodmax then 0x4000_0000 - area else 0x3000_0000 + ortho)
                 else if t >= max then area * 4 + (if ortho >= orthomax then 3 else 2)
                 else area * 4 + (if size > ortho then 1 else 0), t))
    else None
  }

  /** An accepted split leaves the old window at least its minimum, and gives the
      new one an extent between its limits, or its maximum if that is the smaller. */
  lemma OfferFits(size: int, ortho: int, min: int, max: int, orthomax: int, dmin: int, dmax: int, orthodmax: int)
    requires max + dmax > 0
    ensures var o := OfferOf(size, ortho, min, max, orthomax, dmin, dmax, orthodmax);
            o.Some? ==> min <= o.value.at < size && (if dmin < dmax then dmin else dmax) <= size - o.value.at <= dmax
  {
    hide Div;
  }

  /** A window is offered exactly if it has room for its minimum and that of the new
      one, or the maximum of the new one if that is the smaller. */
  lemma OfferExact(size: int, ortho: int, min: int, max: int, orthomax: int, dmin: int, dmax: int, orthodmax: int)
    requires max > 0 && min <= max && 0 < dmin && 0 < dmax
    ensures OfferOf(size, ortho, min, max, orthomax, dmin, dmax, orthodmax).Some?
            <==> size >= min + if dmin < dmax then dmin else dmax
  {
    hide Div;
  }

  /** Whether `t` is the part of `size` that goes with `max` out of `max + dmax`,
      rounded down. */
  predicate InProportion(t: int, size: int, max: int, dmax: int) {
    t * (max + dmax) <= size * max < (t + 1) * (max + dmax)
  }

  /** `at` is `t`, or the limit that keeps it from there. */
  predicate Clamped(at: int, t: int, size: int, min: int, max: int, dmin: int, dmax: int) {
    && (max < size - dmax || dmax < dmin ==> at == size - dmax)
    && (max >= size - dmax && dmin <= dmax ==>
          && min <= at <= max && size - dmax <= at <= size - dmin
          && (at < t ==> at == max || at == size - dmin)
          && (at > t ==> at == min || at == size - dmax))
  }

  /** Where the window is cut: in proportion to the two maximums, as far as the limits
      of both windows allow; if both cannot be kept below their maximum, or the limits
      of the new one contradict each other, it gets just its maximum. `t` is the
      proportional position. */
  lemma OfferCuts(size: int, ortho: int, min: int, max: int, orthomax: int, dmin: int, dmax: int, orthodmax: int)
    returns (t: int)
    requires 0 < min <= max && 0 < dmin && 0 < dmax && size >= min + if dmin < dmax then dmin else dmax
    ensures InProportion(t, size, max, dmax)
    ensures var o := OfferOf(size, ortho, min, max, orthomax, dmin, dmax, orthodmax);
            o.Some? && Clamped(o.value.at, t, size, min, max, dmin, dmax)
  {
    t := Div(size * max, max + dmax);
    Proportional(size, max, dmax);
    hide Div, InProportion;
  }

  lemma Proportional(size: int, max: int, dmax: int)
    requires size >= 0 && max > 0 && dmax > 0
    ensures InProportion(Div(size * max, max + dmax), size, max, dmax)
  {
    hide Div;
    var n, d := size * max, max + dmax;
    Product(size, max);
    var e := DivRest(n, d);
    assert (Div(n, d) + 1) * d == Div(n, d) * d + d;
  }

  /** What makes an offer cost more than another, for windows of ordinary area: giving
      the new window its maximum; among offers that do not, a larger area. */
  predicate Ordinary(size: int, ortho: int) {
    ortho >= 0 && 0 <= size * ortho < 0x0c00_0000
  }

  lemma OfferRanks(size: int, ortho: int, min: int, max: int, orthomax: int, dmin: int, dmax: int, orthodmax: int,
                   size': int, ortho': int, min': int, max': int, orthomax': int, dmin': int, dmax': int,
                   orthodmax': int)
    requires max + dmax > 0 && max' + dmax' > 0
    ensures var o := OfferOf(size, ortho, min, max, orthomax, dmin, dmax, orthodmax);
            var o' := OfferOf(size', ortho', min', max', orthomax', dmin', dmax', orthodmax');
            o.Some? && o'.Some? && size' - o'.value.at < dmax' ==>
              && (size - o.value.at < dmax && size * ortho > size' * ortho' ==> o.value.cost > o'.value.cost)
              && (size - o.value.at == dmax && Ordinary(size, ortho) && Ordinary(size', ortho') ==>
                    o.value.cost > o'.value.cost)
  {
    hide Div, OfferOf;
    OfferCosts(size, ortho, min, max, orthomax, dmin, dmax, orthodmax);
    OfferCosts(size', ortho', min', max', orthomax', dmin', dmax', orthodmax');
  }

  lemma OfferCosts(size: int, ortho: int, min: int, max: int, orthomax: int, dmin: int, dmax: int, orthodmax: int)
    requires max + dmax > 0
    ensures var o := OfferOf(size, ortho, min, max, orthomax, dmin, dmax, orthodmax);
            o.Some? ==>
              && (size - o.value.at < dmax ==> 4 * (size * ortho) <= o.value.cost <= 4 * (size * ortho) + 3)
              && (size - o.value.at == dmax && Ordinary(size, ortho) ==> o.value.cost >= 0x3000_0000)
  {
    hide Div;
    var area := size * ortho;
  }

  /** A split of a window of the layout. */
  datatype Candidate<N> = Candidate(cost: int, pos: int, horizontal: bool, id: N)

  predicate Bounded(l: Limits) {
    l.maxwidth > 0 && l.maxheight > 0
  }

  predicate AllBounded<N>(t: Tree<N>, lim: N -> Limits) {
    if t.Leaf? then Bounded(lim(t.id)) else AllBounded(t.top, lim) && AllBounded(t.bottom, lim)
  }

  /** The width below which windows are not split side by side, for windows that
      may be wider. */
  function LeastWidth(minwidth: int, maxwidth: int, general: int): int {
    if maxwidth < general || minwidth > general then minwidth else general
  }

  /** The two ways of splitting a window. */
  function Ways<N>(w: Tree<N>, l: Limits, want: Limits, general: int): seq<Candidate<N>>
    requires w.Leaf? && Bounded(l) && Bounded(want)
  {
    var a := OfferOf(w.r.height, w.r.width, l.minheight, l.maxheight, l.maxwidth, want.minheight, want.maxheight,
        want.maxwidth);
    var b := OfferOf(w.r.width, w.r.height, LeastWidth(l.minwidth, l.maxwidth, general), l.maxwidth, l.maxheight,
                     if l.maxwidth < general || want.minwidth > general then want.minwidth else general,
                     want.maxwidth, want.maxheight);
    (if a.Some? then [Candidate(a.value.cost, a.value.at + w.r.top, true, w.id)] else [])
    + (if b.Some? then [Candidate(b.value.cost, b.value.at + w.r.left, false, w.id)] else [])
  }

  function Candidates<N>(t: Tree<N>, lim: N -> Limits, want: Limits, general: int): seq<Candidate<N>>
    requires Bounded(want) && AllBounded(t, lim)
  {
    if t.Leaf? then Ways(t, lim(t.id), want, general)
    else Candidates(t.top, lim, want, general) + Candidates(t.bottom, lim, want, general)
  }

  /** A candidate is the best of a list if none costs more and no earlier one as
      much; one that costs nothing is never taken. */
  ghost predicate Best<N>(cs: seq<Candidate<N>>, b: Option<Candidate<N>>) {
    match b
    case None => forall i :: 0 <= i < |cs| ==> cs[i].cost <= 0
    case Some(c) =>
      c.cost > 0
      && exists k :: 0 <= k < |cs| && cs[k] == c && (forall i :: 0 <= i < |cs| ==> cs[i].cost <= c.cost)
                     && forall i :: 0 <= i < k ==> cs[i].cost < c.cost
  }

  function Better<N>(b: Option<Candidate<N>>, c: Candidate<N>): Option<Candidate<N>> {
    if c.cost > (if b.Some? then b.value.cost else 0) then Some(c) else b
  }

  lemma BestStep<N>(cs: seq<Candidate<N>>, b: Option<Candidate<N>>, c: Candidate<N>)
    requires Best(cs, b)
    ensures Best(cs + [c], Better(b, c))
  {
    var ds := cs + [c];
    assert ds[|cs|] == c && forall i :: 0 <= i < |cs| ==> ds[i] == cs[i];
    if b.Some? {
      var k :| 0 <= k < |cs| && cs[k] == b.value && (forall i :: 0 <= i < |cs| ==> cs[i].cost <= b.value.cost)
               && forall i :: 0 <= i < k ==> cs[i].cost < b.value.cost;
      assert ds[k] == b.value;
    }
  }

  /** The globals of the search. */
  class Chooser<N> {
    var bestSplitCost: int
    var bestSplitPosition: int
    var bestSplitDirection: bool
    var bestWindowToSplit: Option<N>
    ghost var seen: seq<Candidate<N>>

    /** What has been chosen so far. */
    ghost function Chosen(): Option<Candidate<N>>
      reads this
    {
      if bestWindowToSplit.Some? then
        Some(Candidate(bestSplitCost, bestSplitPosition, bestSplitDirection, bestWindowToSplit.value))
      else None
    }

    ghost predicate Valid()
      reads this
    {
      Best(seen, Chosen()) && (bestWindowToSplit.None? ==> bestSplitCost == 0)
    }

    constructor ()
      ensures Valid() && seen == []
    {
      bestSplitCost, bestSplitPosition, bestSplitDirection, bestWindowToSplit, seen := 0, 0, false, None, [];
    }

    /** Starts a new search. */
    method Reset()
      modifies this
      ensures Valid() && seen == []
    {
      bestSplitCost, bestWindowToSplit, seen := 0, None, [];
    }

    /** Keeps the better of what has been chosen and one more offer; the position is
        still relative to the window. */
    method TrySplit(size: int, ortho: int, min: int, max: int, orthomax: int, dmin: int, dmax: int, orthodmax: int)
      returns (better: bool)
      requires max + dmax > 0
      modifies this`bestSplitCost, this`bestSplitPosition
      ensures var o := OfferOf(size, ortho, min, max, orthomax, dmin, dmax, orthodmax);
              && better == (o.Some? && o.value.cost > old(bestSplitCost))
              && bestSplitCost == (if better then o.value.cost else old(bestSplitCost))
              && bestSplitPosition == (if better then o.value.at else old(bestSplitPosition))
    {
      var t := Div(size * max, max + dmax);
      if t < min {
        t := min;
      }
      if t > max {
        t := max;
      }
      if size - t < dmin {
        t := size - dmin;
      }
      if size - t > dmax {
        t := size - dmax;
      }
      if t >= min && t < size {
        var e1;
        var newsize, area := size - t, size * ortho;
        if newsize >= dmax {
          if ortho >= orthodmax {
            e1 := 0x4000_0000 - area;
          } else {
            e1 := 0x3000_0000 + ortho;
          }
        } else if t >= max {
          e1 := area * 4 + if ortho >= orthomax then 3 else 2;
        } else {
          e1 := area * 4;
          if size > ortho {
            e1 := e1 + 1;
          }
        }
        if e1 > bestSplitCost {
          bestSplitCost, bestSplitPosition := e1, t;
          return true;
        }
      }
      return false;
    }

    /** Both ways of splitting the window `w`. */
    method ConsiderWindow(w: N, r: Rect, l: Limits, want: Limits, general: int)
      requires Valid() && Bounded(l) && Bounded(want)
      modifies this
      ensures Valid() && seen == old(seen) + Ways(Leaf(w, r), l, want, general)
    {
      hide Best, OfferOf;
      Consider(r.height, r.width, l.minheight, l.maxheight, l.maxwidth, want.minheight, want.maxheight, want.maxwidth,
               r.top, true, w);
      Consider(r.width, r.height, LeastWidth(l.minwidth, l.maxwidth, general), l.maxwidth, l.maxheight,
               if l.maxwidth < general || want.minwidth > general then want.minwidth else general,
               want.maxwidth, want.maxheight, r.left, false, w);
    }

    /** One of the two ways of splitting a window. */
    method Consider(size: int, ortho: int, min: int, max: int, orthomax: int, dmin: int, dmax: int, orthodmax: int,
                    edge: int, horizontal: bool, id: N)
      requires Valid() && max + dmax > 0
      modifies this
      ensures Valid()
      ensures var o := OfferOf(size, ortho, min, max, orthomax, dmin, dmax, orthodmax);
              seen == old(seen) + if o.Some? then [Candidate(o.value.cost, o.value.at + edge, horizontal, id)] else []
    {
      hide Best, OfferOf;
      ghost var o := OfferOf(size, ortho, min, max, orthomax, dmin, dmax, orthodmax);
      ghost var b := Chosen();
      var better := TrySplit(size, ortho, min, max, orthomax, dmin, dmax, orthodmax);
      if better {
        bestSplitPosition := bestSplitPosition + edge;
        bestSplitDirection := horizontal;
        bestWindowToSplit := Some(id);
      }
      if o.Some? {
        BestStep(seen, b, Candidate(o.value.cost, o.value.at + edge, horizontal, id));
        seen := seen + [Candidate(o.value.cost, o.value.at + edge, horizontal, id)];
      } else {
        assert seen + [] == seen;
      }
      Taken(b);
    }

    lemma Taken(b: Option<Candidate<N>>)
      ensures Best(seen, b) && b.Some? ==> b.value.cost > 0
    {
    }
  }

  /** What a candidate promises about its window. */
  ghost predicate Promises<N>(t: Tree<N>, c: Candidate<N>, lim: N -> Limits, want: Limits) {
    && c.id in Ids(t) && Sub(t, c.id).Leaf?
    && var r, l := Sub(t, c.id).r, lim(c.id);
       if c.horizontal then
         && l.minheight <= c.pos - r.top < r.height
         && (if want.minheight < want.maxheight then want.minheight else want.maxheight)
            <= r.top + r.height - c.pos <= want.maxheight
       else
         && l.minwidth <= c.pos - r.left < r.width
         && (if want.minwidth < want.maxwidth then want.minwidth else want.maxwidth)
            <= r.left + r.width - c.pos <= want.maxwidth
  }

  /** Every candidate leaves its window at least its minimum extent, and gives the
      new window one within its limits. */
  lemma {:induction false} CandidatesPromise<N>(t: Tree<N>, lim: N -> Limits, want: Limits, general: int, k: int)
    requires Distinct(t) && Bounded(want) && AllBounded(t, lim) && 0 <= k < |Candidates(t, lim, want, general)|
    ensures Promises(t, Candidates(t, lim, want, general)[k], lim, want)
    decreases t
  {
    hide OfferOf;
    if t.Leaf? {
      var l := lim(t.id);
      OfferFits(t.r.height, t.r.width, l.minheight, l.maxheight, l.maxwidth, want.minheight, want.maxheight,
          want.maxwidth);
      OfferFits(t.r.width, t.r.height, LeastWidth(l.minwidth, l.maxwidth, general), l.maxwidth, l.maxheight,
                if l.maxwidth < general || want.minwidth > general then want.minwidth else general,
                want.maxwidth, want.maxheight);
    } else {
      var n := |Candidates(t.top, lim, want, general)|;
      if k < n {
        CandidatesPromise(t.top, lim, want, general, k);
      } else {
        CandidatesPromise(t.bottom, lim, want, general, k - n);
      }
    }
  }

  /** Splitting where the search says, when all windows of the display had their
      minimum, leaves every window its minimum exactly if the extent across the cut,
      which the search does not look at, is enough for the new one. */
  lemma ChosenSplitExact<N>(t: Tree<N>, c: Candidate<N>, lim: N -> Limits, want: Limits, p: N, up: N)
    requires Tiled(t) && Distinct(t) && MeetsMinimums(t, lim) && Promises(t, c, lim, want)
    requires want.minheight <= want.maxheight && want.minwidth <= want.maxwidth
    requires p !in Ids(t) && up !in Ids(t) && p != up && lim(p) == want
    ensures var r := Sub(t, c.id).r;
            MeetsMinimums(Insert(t, c.id, c.pos, c.horizontal, false, p, up), lim)
            <==> if c.horizontal then r.width >= want.minwidth else r.height >= want.minheight
  {
    SubstMeets(t, c.id, Cut(Sub(t, c.id), c.pos, c.horizontal, false, p, up), lim);
  }

  lemma {:induction false} SubstMeets<N>(t: Tree<N>, n: N, s: Tree<N>, lim: N -> Limits)
    requires Distinct(t) && n in Ids(t) && MeetsMinimums(t, lim)
    ensures MeetsMinimums(Sub(t, n), lim)
    ensures MeetsMinimums(Subst(t, n, s), lim) <==> MeetsMinimums(s, lim)
    decreases t
  {
    if t.id != n {
      if n in Ids(t.top) {
        SubstMeets(t.top, n, s, lim);
        SubstAbsent(t.bottom, n, s);
      } else {
        SubstMeets(t.bottom, n, s, lim);
        SubstAbsent(t.top, n, s);
      }
    }
  }

  /** The only window, 30 wide and 300 high, is split for one that needs a width of
      40. */
  lemma ChosenSplitTooNarrow()
    ensures var t := Leaf(0, Rect(0, 0, 30, 300)); var want := Limits(40, 400, 50, 100);
            var lim := (n: int) => if n == 0 then Limits(10, 400, 50, 100) else want;
            MeetsMinimums(t, lim) && AllBounded(t, lim) && Bounded(want)
            && var cs := Candidates(t, lim, want, 100);
               && |cs| == 1 && Best(cs, Some(cs[0])) && Promises(t, cs[0], lim, want)
               && !MeetsMinimums(Insert(t, 0, cs[0].pos, cs[0].horizontal, false, 1, 2), lim)
  {
    var t := Leaf(0, Rect(0, 0, 30, 300));
    var want := Limits(40, 400, 50, 100);
    var lim := (n: int) => if n == 0 then Limits(10, 400, 50, 100) else want;
    assert OfferOf(300, 30, 50, 100, 400, 50, 100, 400) == Some(Offer(0x3000_0000 + 30, 200));
    assert OfferOf(30, 300, 100, 400, 100, 100, 400, 100) == None;
    assert Candidates(t, lim, want, 100) == [Candidate(0x3000_0000 + 30, 200, true, 0)];
    ChosenSplitExact(t, Candidate(0x3000_0000 + 30, 200, true, 0), lim, want, 1, 2);
  }

  // ----- what a candidate costs, in terms of its window -----

  function Along(r: Rect, horizontal: bool): int {
    if horizontal then r.height else r.width
  }

  function Area(r: Rect): int {
    r.width * r.height
  }

  /** What is left to the window that is split. */
  function OldPart<N>(r: Rect, c: Candidate<N>): int {
    c.pos - if c.horizontal then r.top else r.left
  }

  function MaxAlong(l: Limits, horizontal: bool): int {
    if horizontal then l.maxheight else l.maxwidth
  }

  /** The new window gets its maximum. */
  predicate Full<N>(r: Rect, c: Candidate<N>, want: Limits) {
    Along(r, c.horizontal) - OldPart(r, c) == MaxAlong(want, c.horizontal)
  }

  function CostOf<N>(r: Rect, c: Candidate<N>, l: Limits, want: Limits): int {
    var across := Along(r, !c.horizontal);
    if Full(r, c, want) then
      if across >= MaxAlong(want, !c.horizontal) then 0x4000_0000 - Area(r) else 0x3000_0000 + across
    else
      4 * Area(r)
      + if OldPart(r, c) >= MaxAlong(l, c.horizontal) then (if across >= MaxAlong(l, !c.horizontal) then 3 else 2)
        else if Along(r, c.horizontal) > across then 1 else 0
  }

  /** The cost of every candidate, in both directions, in terms of the area, the shape
      and the limits of its window. */
  lemma {:induction false} CandidateCost<N>(t: Tree<N>, lim: N -> Limits, want: Limits, general: int, k: int)
    requires Distinct(t) && Bounded(want) && AllBounded(t, lim) && 0 <= k < |Candidates(t, lim, want, general)|
    ensures var c := Candidates(t, lim, want, general)[k];
            c.id in Ids(t) && Sub(t, c.id).Leaf? && c.cost == CostOf(Sub(t, c.id).r, c, lim(c.id), want)
    decreases t
  {
    if t.Leaf? {
      WayCost(t, lim(t.id), want, general, k);
    } else {
      var n := |Candidates(t.top, lim, want, general)|;
      if k < n {
        CandidateCost(t.top, lim, want, general, k);
      } else {
        CandidateCost(t.bottom, lim, want, general, k - n);
      }
    }
  }

  lemma WayCost<N>(w: Tree<N>, l: Limits, want: Limits, general: int, k: int)
    requires w.Leaf? && Bounded(l) && Bounded(want) && 0 <= k < |Ways(w, l, want, general)|
    ensures var c := Ways(w, l, want, general)[k]; c.id == w.id && c.cost == CostOf(w.r, c, l, want)
  {
    hide Div;
    var least := LeastWidth(l.minwidth, l.maxwidth, general);
    var dmin := if l.maxwidth < general || want.minwidth > general then want.minwidth else general;
    OfferFits(w.r.height, w.r.width, l.minheight, l.maxheight, l.maxwidth, want.minheight, want.maxheight,
        want.maxwidth);
    OfferFits(w.r.width, w.r.height, least, l.maxwidth, l.maxheight, dmin, want.maxwidth, want.maxheight);
    assert Area(w.r) == w.r.height * w.r.width;
  }

  /** Every candidate cuts a window with room, in proportion to the maximums, as far
      as the limits allow. */
  lemma {:induction false} CandidateCuts<N>(t: Tree<N>, lim: N -> Limits, want: Limits, general: int, k: int)
    returns (p: int)
    requires Distinct(t) && Bounded(want) && AllBounded(t, lim) && 0 <= k < |Candidates(t, lim, want, general)|
    requires Ordered(want) && forall n :: n in Ids(t) ==> Ordered(lim(n))
    ensures var c := Candidates(t, lim, want, general)[k];
            && c.id in Ids(t) && HasRoom(Sub(t, c.id).r, lim(c.id), want, general)
            && CutsWell(Sub(t, c.id).r, c, p, lim(c.id), want, general)
    decreases t
  {
    hide CutsWell, Ordered, HasRoom;
    if t.Leaf? {
      p := WayCuts(t, lim(t.id), want, general, k);
    } else {
      var n := |Candidates(t.top, lim, want, general)|;
      if k < n {
        CandidateCost(t.top, lim, want, general, k);
        p := CandidateCuts(t.top, lim, want, general, k);
      } else {
        CandidateCost(t.bottom, lim, want, general, k - n);
        p := CandidateCuts(t.bottom, lim, want, general, k - n);
      }
    }
  }

  ghost predicate CutsWell<N>(r: Rect, c: Candidate<N>, p: int, l: Limits, want: Limits, general: int) {
    var least := if l.maxwidth < general || l.minwidth > general then l.minwidth else general;
    var dmin := if l.maxwidth < general || want.minwidth > general then want.minwidth else general;
    && InProportion(p, Along(r, c.horizontal), MaxAlong(l, c.horizontal), MaxAlong(want, c.horizontal))
    && (c.horizontal ==>
          Clamped(c.pos - r.top, p, r.height, l.minheight, l.maxheight, want.minheight, want.maxheight))
    && (!c.horizontal ==> Clamped(c.pos - r.left, p, r.width, least, l.maxwidth, dmin, want.maxwidth))
  }

  lemma WayCuts<N>(w: Tree<N>, l: Limits, want: Limits, general: int, k: int) returns (p: int)
    requires w.Leaf? && Bounded(l) && Bounded(want) && Ordered(l) && Ordered(want)
    requires 0 <= k < |Ways(w, l, want, general)|
    ensures HasRoom(w.r, l, want, general)
    ensures CutsWell(w.r, Ways(w, l, want, general)[k], p, l, want, general)
  {
    hide OfferOf, InProportion, Clamped;
    var least := LeastWidth(l.minwidth, l.maxwidth, general);
    var dmin := if l.maxwidth < general || want.minwidth > general then want.minwidth else general;
    OfferExact(w.r.height, w.r.width, l.minheight, l.maxheight, l.maxwidth, want.minheight, want.maxheight,
        want.maxwidth);
    OfferExact(w.r.width, w.r.height, least, l.maxwidth, l.maxheight, dmin, want.maxwidth, want.maxheight);
    if Ways(w, l, want, general)[k].horizontal {
      p := OfferCuts(w.r.height, w.r.width, l.minheight, l.maxheight, l.maxwidth, want.minheight, want.maxheight,
          want.maxwidth);
    } else {
      p := OfferCuts(w.r.width, w.r.height, least, l.maxwidth, l.maxheight, dmin, want.maxwidth, want.maxheight);
    }
  }

  /** A window has room for its minimum and that of the new one, one above the other
      or side by side. */
  predicate HasRoom(r: Rect, l: Limits, want: Limits, general: int) {
    var least := if l.maxwidth < general || l.minwidth > general then l.minwidth else general;
    var dmin := if l.maxwidth < general || want.minwidth > general then want.minwidth else general;
    || r.height >= l.minheight + want.minheight
    || r.width >= least + if dmin < want.maxwidth then dmin else want.maxwidth
  }

  predicate Ordered(l: Limits) {
    0 < l.minheight <= l.maxheight && 0 < l.minwidth <= l.maxwidth
  }

  /** Every window with room is a candidate. */
  lemma {:induction false} RoomIsOffered<N>(t: Tree<N>, lim: N -> Limits, want: Limits, general: int, n: N)
    returns (k: int)
    requires Distinct(t) && Bounded(want) && AllBounded(t, lim) && n in Ids(t) && Sub(t, n).Leaf?
    requires Ordered(lim(n)) && Ordered(want)
    requires HasRoom(Sub(t, n).r, lim(n), want, general)
    ensures 0 <= k < |Candidates(t, lim, want, general)| && Candidates(t, lim, want, general)[k].id == n
    decreases t
  {
    if t.Leaf? {
      k := RoomHasWay(t, lim(n), want, general);
    } else if n in Ids(t.top) {
      k := RoomIsOffered(t.top, lim, want, general, n);
    } else {
      k := RoomIsOffered(t.bottom, lim, want, general, n);
      k := k + |Candidates(t.top, lim, want, general)|;
    }
  }

  lemma RoomHasWay<N>(w: Tree<N>, l: Limits, want: Limits, general: int) returns (k: int)
    requires w.Leaf? && Bounded(l) && Bounded(want) && Ordered(l) && Ordered(want)
    requires HasRoom(w.r, l, want, general)
    ensures 0 <= k < |Ways(w, l, want, general)|
  {
    hide OfferOf;
    var least := LeastWidth(l.minwidth, l.maxwidth, general);
    var dmin := if l.maxwidth < general || want.minwidth > general then want.minwidth else general;
    OfferExact(w.r.height, w.r.width, l.minheight, l.maxheight, l.maxwidth, want.minheight, want.maxheight,
        want.maxwidth);
    OfferExact(w.r.width, w.r.height, least, l.maxwidth, l.maxheight, dmin, want.maxwidth, want.maxheight);
    k := 0;
  }
}
